# Logik (Mastermind): game logic in Dafny

This project models the game logic of Logik, a small X11 Mastermind game. The player has ten guesses to find a secret row of five pins drawn from eight colours. Each guess is scored with black pins (right colour, right place) and white pins (colour found elsewhere). The model has two parts, both taken from `src/main.cpp`:

- **Scoring engine** (module `Scoring`, `scoring.dfy`): the `PinGuessResult` constructor.
  - `Score` is the nested loop with its `continue` and `break`. It is proved equal to the specification function `ScoreOf`.
  - `ScoreOf` counts blacks (`Black`) and whites (`White`).
  - A guess slot that misses its own position counts white if any other secret position holds its colour. Secret positions are never used up, and an exact hit's position can still credit another slot. Because nothing is consumed, "the first such position" and "some such position" give the same count.
- **Game session**, in three modules:
  - `Buffer` (`buffer.dfy`) holds the pure buffer edits: `Select` fills the leftmost empty slot and `Revert` clears a pin.
  - `Session` (`session.dfy`) holds the history and the event handling as values: `Committed`, `WithActual` for the reveal, `IsGameOver`, click and key decoding, `AfterClick`, `AfterKey`, and `AfterEvents` for a sequence of events. It also defines the invariant that holds between events (`Consistent`).
  - `Game` (`app.dfy`) holds the class `App`, with the fields `actualPins`, `guesses` (the program's `board.guesses`) and `guess`, which is an `array` of five slots overwritten in place. Where the C++ code loops over the slots, so does the method. Each method is proved to change the state exactly as the matching `Session` or `Buffer` function says.

A slot is an `unsigned int` (`Slot`, 0 to UINT_MAX). A reset writes UINT_MAX into a slot, and every emptiness test is `>= 8` (`IsEmpty`). The secret is a constructor parameter whose slots are all palette colours.

Behaviour the model keeps exactly as the code has it:
- **Keyboard commit:** Enter (`XK_KP_Enter` or `XK_ISO_Enter`) calls `MakeAGuess` however full the buffer is (src/main.cpp:456-458). Only the mouse handler checks that slot 4 is filled before committing (src/main.cpp:428-431).
- **Revert:** `RevertOneGuessPin` clears slot 4 when that slot is filled. Otherwise it clears the slot before the first empty one, and does nothing when slot 0 is empty (src/main.cpp:474-495). On a prefix-filled buffer that is the rightmost filled slot.
- **Colour-only scan:** the inner loop of `PinGuessResult` compares a non-exact guess slot with every other secret position, including positions that were exact hits, and stops at the first match (src/main.cpp:42-48).
- **Lifetime of `done`:** `KeyPressHandler` only ever sets `done` to true, on Escape (src/main.cpp:446-449). While the game is over, every key other than Escape does nothing (src/main.cpp:450).

## Model

| member | source | states |
|---|---|---|
| Scoring.Score | src/main.cpp:33-51 | the nested scan returns exactly (number of exact slots, number of non-exact slots whose colour is at some other secret position) |
| Scoring.ScoreBounded | src/main.cpp:35-50 | black + white never exceeds 5 |
| Scoring.SelfScore | src/main.cpp:37-41 | a row scored against itself is (5, 0) |
| Scoring.WinIffEqual | src/main.cpp:37-41 | five blacks exactly when guess and secret are equal |
| Scoring.EmptyGuessScoresNothing | src/main.cpp:33-51 | an all-empty buffer scores (0, 0) against a palette secret |
| Scoring.PartialGuessNeverWins | src/main.cpp:33-51 | a guess with an empty slot never scores five blacks against a palette secret |
| Scoring.FirstMatchReusesExactSlot | src/main.cpp:42-48 | [A,A,B,C,D] against [A,B,B,C,D] scores (4, 1): an exact hit's secret position is reused for white |
| Scoring.SecretSlotReusedAndNotSymmetric | src/main.cpp:42-48 | one secret colour is credited to four guess slots, giving (1, 4); the reverse comparison gives (1, 0), so scoring is not symmetric |
| Buffer.FirstEmpty | src/main.cpp:419-426 | the scan returns the leftmost empty slot, or 5 when every slot is filled |
| Buffer.SelectFillsLeftmost | src/main.cpp:419-426 | selecting writes the colour into the leftmost empty slot only; a full buffer is unchanged |
| Buffer.SelectKeepsPrefix | src/main.cpp:419-426 | a palette colour keeps the buffer prefix-filled and grows the filled prefix by one unless full |
| Buffer.RevertClearsRightmost | src/main.cpp:474-495 | on a prefix-filled buffer, revert clears the rightmost filled slot; on an empty buffer it changes nothing, so repeating it is idempotent |
| Buffer.RevertKeepsPrefix | src/main.cpp:474-495 | revert keeps the buffer prefix-filled and shrinks the filled prefix by one unless empty |
| Buffer.EditsKeepResetValues | src/main.cpp:474-495 | selecting a palette colour and reverting keep every empty slot at UINT_MAX |
| Buffer.RevertUndoesSelect | src/main.cpp:474-495 | reverting right after a selection into a buffer with room restores the buffer |
| Buffer.SelectUndoesRevert | src/main.cpp:419-426 | re-selecting the colour that a revert cleared restores the buffer |
| Session.NewGameConsistent | src/main.cpp:551-553 | a new game (no guesses, empty buffer) satisfies the between-events invariant and is not over |
| Session.IsGameOver | src/main.cpp:469-472 | over exactly when the history is non-empty and has 10 or more entries or ends in five blacks |
| Session.ClickAction | src/main.cpp:411-436 | a click above y = 920 does nothing; a swatch click is right of x = 20 and names a palette colour; a commit click needs slot 4 filled; revert is exactly a click below y = 920 left of x = 20 |
| Session.KeyAction | src/main.cpp:450-458 | BackSpace and only BackSpace reverts, KP_Enter and ISO_Enter and only they commit, and no key selects a colour |
| Session.ClickRegions | src/main.cpp:411-436 | click geometry: swatch c covers 20+70c <= x < 90+70c (x > 20) below y = 920; commit is x >= 580 with slot 4 filled; revert is x < 20; anything else does nothing |
| Session.OverIffSecretShown | src/main.cpp:469-472 | between events, the game is over exactly when the secret is on the board (guessed or revealed), and it is then the last entry |
| Session.CommitOutcome | src/main.cpp:497-509 | a commit appends the buffer with its score and clears the buffer; a win ends the game with no further entry; a tenth miss is followed by the secret scored (5, 0); an earlier miss keeps the game going |
| Session.KeyCommitOfPartialGuess | src/main.cpp:456-458 | Enter on a partly filled buffer stores its empty slots in the history, and that entry is no win |
| Session.ClickCommitIsKeyCommit | src/main.cpp:428-458 | once slot 4 is filled, a click right of the palette, KP_Enter and ISO_Enter do the same thing |
| Session.SwatchClicksFill | src/main.cpp:411-426 | clicking swatches into a buffer with room appends their colours in order and leaves the history alone |
| Session.FiveSelections | src/main.cpp:411-426 | five swatch clicks into an empty buffer build exactly that row and leave the history alone |
| Session.CommitKeepsHistory | src/main.cpp:497-509 | a commit while the game is on, followed by the reveal check, keeps the history invariant (at most 11 entries, all scored, no win before the last) |
| Session.StepKeepsConsistent | src/main.cpp:404-466 | each action a handler can perform, followed by the reveal check, keeps the invariant while the game is on |
| Session.DispatchKeepsConsistent | src/main.cpp:404-466 | every click or key keeps the invariant: at most 11 entries, all scored against the secret, no win before the last, 10 entries end in a win, an 11th is the secret, buffer prefix-filled |
| Session.DispatchAppends | src/main.cpp:497-509 | one event adds at most two entries to the history and leaves earlier entries unchanged |
| Session.EventsKeepConsistent | src/main.cpp:404-466 | any sequence of events keeps the invariant, so the history never grows past 11 |
| Session.OverStaysFrozen | src/main.cpp:406-409 | once the game is over, no sequence of events changes the history or the buffer |
| Session.EventsAppend | src/main.cpp:497-509 | over any sequence of events the history is append-only and entries are never rescored |
| Game.App.constructor | src/main.cpp:551-553 | a new game has the given secret, no guesses and an all-empty buffer |
| Game.App.SelectColor | src/main.cpp:419-426 | the in-place fill loop leaves the buffer equal to `Select` of the old buffer |
| Game.App.RevertOneGuessPin | src/main.cpp:474-495 | the in-place revert leaves the buffer equal to `Revert` of the old buffer |
| Game.App.MakeAGuess | src/main.cpp:497-501 | appends the buffer with `Score` against the secret and resets all five slots to UINT_MAX, without checking that the buffer is full |
| Game.App.AddActual | src/main.cpp:503-509 | appends the secret scored against itself only when there are exactly 10 entries and the last is no win |
| Game.App.Update | src/main.cpp:404-442 | a click changes the state as `AfterClick` says and keeps the invariant; while the game is over nothing changes |
| Game.App.KeyPressHandler | src/main.cpp:444-466 | a key changes the state as `AfterKey` says; `done` becomes true exactly on Escape; while the game is over nothing changes |

## Left out

- Window, display, graphics context, fonts and colour allocation, and their teardown (`Initialize`, `~App`, `CreateColor`): these are foreign X11 calls with no game logic.
- The event loop `Run`: polling, translating keycodes and `WM_DELETE_WINDOW` are I/O. `AfterEvents` models handling a sequence of events in order. When `Run` stops after `done` is set is not modelled; Escape changes no game state.
- Drawing (`Render`, `DrawCircle`, `DrawString`) and the pixel layout: presentation only. Note that a keyboard commit of a partial buffer stores UINT_MAX slots in the history, and `Render` then uses them to index its eight-entry colour table. The drawing side is not part of this model.
- `GetRandomPins`: the time-seeded `rand() % 8` is replaced by a constructor parameter whose slots are all below 8.
- Logging macros, `IC` calls and the exception handling in `main`.
- The `Board` struct is flattened into the `guesses` field of `App`. The `int` counters of `PinGuessResult` are `nat`, because they never exceed 5.
