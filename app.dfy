/** The game part of the application object: the secret, the board's history
    and the guess buffer, changed in place by the mouse and keyboard handlers. */
module Game {
  import opened Scoring
  import opened Buffer
  import opened Session

  class App {
    /** The secret row, drawn once when the application starts. */
    const actualPins: PinState
    /** The board: committed guesses, oldest first. */
    var guesses: seq<PinGuess>
    /** The guess under construction; its five slots are overwritten in place. */
    const guess: array<Slot>

    ghost predicate Valid()
      reads this
    {
      guess.Length == PinCount && AllInPalette(actualPins)
    }

    /** What the renderer reads: the history and the buffer. */
    function Snapshot(): State
      reads this, guess
      requires Valid()
    {
      State(guesses, guess[..])
    }

    /** `Valid` together with the invariant every input event keeps. */
    ghost predicate Playing()
      reads this, guess
    {
      Valid() && Consistent(Snapshot(), actualPins)
    }

    /** Starts a game against `secret`, whose slots are palette colours. */
    constructor (secret: PinState)
      requires AllInPalette(secret)
      ensures Playing() && fresh(guess)
      ensures actualPins == secret && Snapshot() == State([], EmptyPins)
    {
      actualPins := secret;
      guesses := [];
      guess := new Slot[PinCount](_ => UINT_MAX);
      new;
      assert guess[..] == EmptyPins;
      NewGameConsistent(secret);
    }

    /** The fill loop of a palette click: the first empty slot takes `colorIndex`. */
    method SelectColor(colorIndex: Slot)
      requires Valid()
      modifies guess
      ensures guess[..] == Select(old(guess[..]), colorIndex)
    {
      for i := 0 to PinCount
        invariant guess[..] == old(guess[..])
        invariant forall k :: 0 <= k < i ==> !IsEmpty(guess[k])
      {
        if IsEmpty(guess[i]) {
          FirstEmptyIsLeftmost(guess[..], i);
          guess[i] := colorIndex;
          break;
        }
      }
    }

    /** Clears slot 4 if it is filled, else the slot before the first empty one. */
    method RevertOneGuessPin()
      requires Valid()
      modifies guess
      ensures guess[..] == Revert(old(guess[..]))
    {
      if !IsEmpty(guess[4]) {
        guess[4] := UINT_MAX;
      } else {
        for i := 0 to PinCount
          invariant guess[..] == old(guess[..])
          invariant forall k :: 0 <= k < i ==> !IsEmpty(guess[k])
        {
          if IsEmpty(guess[i]) {
            FirstEmptyIsLeftmost(guess[..], i);
            if i != 0 {
              guess[i - 1] := UINT_MAX;
            }
            break;
          }
        }
      }
    }

    /** Appends the buffer, scored against the secret, and resets every slot.
        It does not look at how full the buffer is. */
    method MakeAGuess()
      requires Valid()
      modifies this, guess
      ensures Valid()
      ensures Snapshot() == Committed(old(Snapshot()), actualPins)
    {
      var result := Score(guess[..], actualPins);
      guesses := guesses + [PinGuess(guess[..], result)];
      ghost var board := guesses;
      for i := 0 to PinCount
        invariant guesses == board
        invariant forall k :: 0 <= k < i ==> guess[k] == UINT_MAX
      {
        guess[i] := UINT_MAX;
      }
      assert guess[..] == EmptyPins;
    }

    /** After ten guesses that end in a miss, appends the secret scored against itself. */
    method AddActual()
      requires Valid()
      modifies this
      ensures Valid()
      ensures guesses == WithActual(old(guesses), actualPins)
    {
      if |guesses| == MaxGuesses && guesses[|guesses| - 1].result.black < PinCount {
        var result := Score(actualPins, actualPins);
        guesses := guesses + [PinGuess(actualPins, result)];
      }
    }

    /** A left click at (x, y). */
    method Update(x: int, y: int)
      requires Playing()
      modifies this, guess
      ensures Playing()
      ensures Snapshot() == AfterClick(old(Snapshot()), actualPins, x, y)
      ensures old(IsGameOver(guesses)) ==> guesses == old(guesses) && guess[..] == old(guess[..])
    {
      if IsGameOver(guesses) {
        return;
      }
      ghost var before := Snapshot();
      ghost var action := ClickAction(x, y, before.guess);
      if y > 920 {
        if x > 20 {
          var colorIndex := (x - 20) / 70;
          if colorIndex >= 0 && colorIndex < ColorCount {
            SelectColor(colorIndex);
            assert action == ChooseColor(colorIndex);
          } else if !IsEmpty(guess[4]) {
            MakeAGuess();
            assert action == Commit;
          }
        } else if x < 20 {
          RevertOneGuessPin();
        }
      }
      assert Snapshot() == Perform(action, before, actualPins);
      AddActual();
      DispatchKeepsConsistent(before, actualPins, Click(x, y));
    }

    /** A key press; `done` becomes true on Escape and is otherwise passed through. */
    method KeyPressHandler(keySym: Key, wasDone: bool) returns (done: bool)
      requires Playing()
      modifies this, guess
      ensures Playing()
      ensures done == (wasDone || keySym == Escape)
      ensures Snapshot() == AfterKey(old(Snapshot()), actualPins, keySym)
      ensures old(IsGameOver(guesses)) ==> guesses == old(guesses) && guess[..] == old(guess[..])
    {
      done := wasDone;
      if keySym == Escape {
        done := true;
      } else if !IsGameOver(guesses) {
        ghost var before := Snapshot();
        if keySym == BackSpace {
          RevertOneGuessPin();
        } else if keySym == KpEnter || keySym == IsoEnter {
          MakeAGuess();
        }
        assert Snapshot() == Perform(KeyAction(keySym), before, actualPins);
        AddActual();
      }
      DispatchKeepsConsistent(old(Snapshot()), actualPins, Press(keySym));
    }
  }
}
