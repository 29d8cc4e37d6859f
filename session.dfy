/** The game session as values: the history of committed guesses, the guess
    being built, and what a mouse click or a key press does to them. */
module Session {
  import opened Scoring
  import opened Buffer

  /** Guesses the player may commit before the secret is revealed. */
  const MaxGuesses: nat := 10

  /** A committed guess: the row and its score against the secret, fixed once computed. */
  datatype PinGuess = PinGuess(state: PinState, result: GuessResult)

  /** The mutable part of the game: the board's history and the guess in progress. */
  datatype State = State(history: seq<PinGuess>, guess: PinState)

  /** Won (the last guess has five blacks) or out of guesses. */
  predicate IsGameOver(history: seq<PinGuess>): (over: bool)
    ensures over ==> |history| != 0
    ensures |history| >= MaxGuesses ==> over
    ensures |history| != 0 && history[|history| - 1].result.black == PinCount ==> over
    ensures over && |history| < MaxGuesses ==> history[|history| - 1].result.black == PinCount
  {
    |history| != 0
    && (|history| >= MaxGuesses || history[|history| - 1].result.black == PinCount)
  }

  /** Commit the buffer as it stands, scored against the secret, and reset the buffer. */
  function Committed(st: State, secret: PinState): State {
    State(st.history + [PinGuess(st.guess, ScoreOf(st.guess, secret))], EmptyPins)
  }

  /** After ten guesses of which the last is no win, append the secret scored against itself. */
  function WithActual(history: seq<PinGuess>, secret: PinState): seq<PinGuess> {
    if |history| == MaxGuesses && history[|history| - 1].result.black < PinCount
    then history + [PinGuess(secret, ScoreOf(secret, secret))]
    else history
  }

  /** The four things an input event can ask for. */
  datatype Action = ChooseColor(colorIndex: Slot) | Commit | RevertPin | NoAction

  /** How a left click at window position (x, y) is read: the row below y = 920
      is the palette of eight 70-pixel swatches starting at x = 20; a click
      right of the palette commits when slot 4 is filled, a click left of
      x = 20 reverts a pin. */
  function ClickAction(x: int, y: int, guess: PinState): (a: Action)
    ensures y <= 920 ==> a == NoAction
    ensures a.ChooseColor? ==> x > 20 && a.colorIndex < ColorCount
    ensures a == Commit ==> x > 20 && !IsEmpty(guess[4])
    ensures a == RevertPin <==> y > 920 && x < 20
  {
    if y > 920 then
      if x > 20 then
        // x - 20 is positive here, so Euclidean and truncating division agree
        var colorIndex := (x - 20) / 70;
        if 0 <= colorIndex < ColorCount then ChooseColor(colorIndex)
        else if !IsEmpty(guess[4]) then Commit
        else NoAction
      else if x < 20 then RevertPin
      else NoAction
    else NoAction
  }

  /** The keys the game distinguishes; every other key is `OtherKey`. */
  datatype Key = Escape | BackSpace | KpEnter | IsoEnter | OtherKey

  /** Key bindings: BackSpace reverts a pin, either Enter key commits without
      looking at how full the buffer is. */
  function KeyAction(key: Key): (a: Action)
    ensures a == RevertPin <==> key == BackSpace
    ensures a == Commit <==> key == KpEnter || key == IsoEnter
    ensures !a.ChooseColor?
  {
    match key
    case BackSpace => RevertPin
    case KpEnter => Commit
    case IsoEnter => Commit
    case _ => NoAction
  }

  function Perform(action: Action, st: State, secret: PinState): State {
    match action
    case ChooseColor(c) => st.(guess := Select(st.guess, c))
    case Commit => Committed(st, secret)
    case RevertPin => st.(guess := Revert(st.guess))
    case NoAction => st
  }

  /** An action followed by the reveal check that every handler runs after it. */
  function Step(action: Action, st: State, secret: PinState): State {
    var mid := Perform(action, st, secret);
    State(WithActual(mid.history, secret), mid.guess)
  }

  /** The state after a click: nothing while the game is over, otherwise the
      click's action followed by the reveal check. */
  function AfterClick(st: State, secret: PinState, x: int, y: int): State {
    if IsGameOver(st.history) then st else Step(ClickAction(x, y, st.guess), st, secret)
  }

  /** The state after a key press: Escape only asks to quit; while the game is
      over nothing changes; otherwise the key's action and the reveal check. */
  function AfterKey(st: State, secret: PinState, key: Key): State {
    if key == Escape || IsGameOver(st.history) then st else Step(KeyAction(key), st, secret)
  }

  /** An input event delivered to the game. */
  datatype Event = Click(x: int, y: int) | Press(key: Key)

  function Dispatch(st: State, secret: PinState, e: Event): State {
    match e
    case Click(x, y) => AfterClick(st, secret, x, y)
    case Press(key) => AfterKey(st, secret, key)
  }

  /** The state after handling `events` in order. */
  function AfterEvents(st: State, secret: PinState, events: seq<Event>): State
    decreases |events|
  {
    if events == [] then st
    else AfterEvents(Dispatch(st, secret, events[0]), secret, events[1..])
  }

  /** What holds between events: at most eleven entries, each scored against the
      secret; no entry but the last is a win; ten entries end in a win; an
      eleventh entry is the secret itself; and the buffer is filled from the left
      with UINT_MAX in its empty slots. */
  predicate Consistent(st: State, secret: PinState) {
    SettledHistory(st.history, secret) && PrefixFilled(st.guess) && ResetValues(st.guess)
  }

  /** The history part of `Consistent`. */
  predicate SettledHistory(history: seq<PinGuess>, secret: PinState) {
    |history| <= MaxGuesses + 1
    && (forall k :: 0 <= k < |history| ==> history[k].result == ScoreOf(history[k].state, secret))
    && (forall k :: 0 <= k < |history| - 1 ==> history[k].result.black < PinCount)
    && (|history| == MaxGuesses ==> history[MaxGuesses - 1].result.black == PinCount)
    && (|history| == MaxGuesses + 1 ==> history[MaxGuesses].state == secret)
  }

  /** A new game: no guesses and an empty buffer. */
  lemma NewGameConsistent(secret: PinState)
    ensures Consistent(State([], EmptyPins), secret)
    ensures !IsGameOver([])
  {
  }

  /** The click regions in pixels: swatch c covers 20 + 70c <= x < 90 + 70c
      (x = 20 itself excluded), commit takes x >= 580 with slot 4 filled, revert
      takes x < 20, all below y = 920; every other click does nothing. */
  lemma ClickRegions(x: int, y: int, guess: PinState)
    ensures forall c: Slot :: c < ColorCount ==>
              (ClickAction(x, y, guess) == ChooseColor(c) <==> y > 920 && x > 20 && 20 + 70 * c <= x < 90 + 70 * c)
    ensures ClickAction(x, y, guess) == Commit <==> y > 920 && x >= 580 && !IsEmpty(guess[4])
    ensures ClickAction(x, y, guess) == RevertPin <==> y > 920 && x < 20
    ensures ClickAction(x, y, guess) == NoAction <==> y <= 920 || x == 20 || (x >= 580 && IsEmpty(guess[4]))
  {
  }

  /** Between events the game is over exactly when the secret is on the board,
      guessed or revealed, and then it is the last entry. */
  lemma OverIffSecretShown(st: State, secret: PinState)
    requires Consistent(st, secret)
    ensures IsGameOver(st.history) <==> exists k :: 0 <= k < |st.history| && st.history[k].state == secret
    ensures IsGameOver(st.history) ==> st.history[|st.history| - 1].state == secret
  {
    var h := st.history;
    forall k | 0 <= k < |h|
      ensures h[k].result.black == PinCount <==> h[k].state == secret
    {
      WinIffEqual(h[k].state, secret);
    }
    if |h| == MaxGuesses + 1 {
      assert h[MaxGuesses].state == secret;
    }
  }

  /** Committing while the game is on appends the buffer with its score and clears
      the buffer; a win ends the game with no further entry; a tenth miss is
      followed by the secret, scored (5, 0); an earlier miss keeps the game going. */
  lemma CommitOutcome(st: State, secret: PinState)
    requires Consistent(st, secret) && !IsGameOver(st.history)
    ensures var after := AfterKey(st, secret, KpEnter);
            var entry := PinGuess(st.guess, ScoreOf(st.guess, secret));
            && after.guess == EmptyPins
            && (entry.result.black == PinCount ==> after.history == st.history + [entry] && IsGameOver(after.history))
            && (entry.result.black < PinCount && |st.history| == MaxGuesses - 1 ==>
                  after.history == st.history + [entry, PinGuess(secret, GuessResult(5, 0))]
                  && IsGameOver(after.history))
            && (entry.result.black < PinCount && |st.history| < MaxGuesses - 1 ==>
                  after.history == st.history + [entry] && !IsGameOver(after.history))
  {
    SelfScore(secret);
    var entry := PinGuess(st.guess, ScoreOf(st.guess, secret));
    var h := st.history + [entry];
    assert |st.history| < MaxGuesses;
    if entry.result.black < PinCount && |st.history| == MaxGuesses - 1 {
      assert WithActual(h, secret) == h + [PinGuess(secret, GuessResult(5, 0))];
      assert h + [PinGuess(secret, GuessResult(5, 0))] == st.history + [entry, PinGuess(secret, GuessResult(5, 0))];
    }
  }

  /** Enter commits a partly filled buffer as it stands: the new entry keeps its
      empty slots and, against a palette secret, is never a win. */
  lemma KeyCommitOfPartialGuess(st: State, secret: PinState, i: nat)
    requires Consistent(st, secret) && !IsGameOver(st.history) && AllInPalette(secret)
    requires i < PinCount && IsEmpty(st.guess[i])
    ensures var after := AfterKey(st, secret, KpEnter);
            && |after.history| > |st.history|
            && after.history[|st.history|].state == st.guess
            && IsEmpty(after.history[|st.history|].state[i])
            && after.history[|st.history|].result.black < PinCount
  {
    PartialGuessNeverWins(st.guess, secret, i);
  }

  /** A click in the commit region and an Enter key do the same thing once slot 4 is filled. */
  lemma ClickCommitIsKeyCommit(st: State, secret: PinState, x: int, y: int)
    requires y > 920 && x >= 580 && !IsEmpty(st.guess[4])
    ensures AfterClick(st, secret, x, y) == AfterKey(st, secret, KpEnter)
    ensures AfterKey(st, secret, IsoEnter) == AfterKey(st, secret, KpEnter)
  {
  }

  /** A row whose first slots are `filled` and whose other slots are reset. */
  function Padded(filled: seq<Slot>): PinState
    requires |filled| <= PinCount
  {
    filled + seq(PinCount - |filled|, _ => UINT_MAX)
  }

  /** A click on the swatch of each colour of `cs`, in order. */
  function SwatchClicks(cs: seq<Slot>): seq<Event> {
    if cs == [] then [] else [Click(21 + 70 * (cs[0] as int), 921)] + SwatchClicks(cs[1..])
  }

  /** Clicking swatches into a buffer with room appends their colours in order,
      without touching the history. */
  lemma {:induction false} SwatchClicksFill(history: seq<PinGuess>, secret: PinState, filled: seq<Slot>, cs: seq<Slot>)
    requires !IsGameOver(history) && |filled| + |cs| <= PinCount
    requires forall i :: 0 <= i < |filled| ==> filled[i] < ColorCount
    requires forall i :: 0 <= i < |cs| ==> cs[i] < ColorCount
    ensures AfterEvents(State(history, Padded(filled)), secret, SwatchClicks(cs)) == State(history, Padded(filled + cs))
    decreases |cs|
  {
    if cs == [] {
      assert filled + cs == filled;
    } else {
      var c := cs[0];
      SwatchClick(history, secret, filled, c);
      var events := SwatchClicks(cs);
      assert events[0] == Click(21 + 70 * c, 921) && events[1..] == SwatchClicks(cs[1..]);
      SwatchClicksFill(history, secret, filled + [c], cs[1..]);
      assert filled + [c] + cs[1..] == filled + cs;
    }
  }

  /** One swatch click on a buffer with room fills the next slot. */
  lemma SwatchClick(history: seq<PinGuess>, secret: PinState, filled: seq<Slot>, c: Slot)
    requires !IsGameOver(history) && |filled| < PinCount && c < ColorCount
    requires forall i :: 0 <= i < |filled| ==> filled[i] < ColorCount
    ensures Dispatch(State(history, Padded(filled)), secret, Click(21 + 70 * c, 921))
            == State(history, Padded(filled + [c]))
  {
  }

  /** Five swatch clicks into an empty buffer build exactly that row. */
  lemma FiveSelections(st: State, secret: PinState, cs: PinState)
    requires !IsGameOver(st.history) && st.guess == EmptyPins && AllInPalette(cs)
    ensures AfterEvents(st, secret, SwatchClicks(cs)) == State(st.history, cs)
  {
    assert Padded([]) == EmptyPins;
    SwatchClicksFill(st.history, secret, [], cs);
    assert [] + cs == cs;
  }

  /** Committing while the game is on, then the reveal check, keeps the invariant. */
  lemma CommitKeepsConsistent(st: State, secret: PinState)
    requires Consistent(st, secret) && !IsGameOver(st.history)
    ensures Consistent(Step(Commit, st, secret), secret)
  {
    var entry := PinGuess(st.guess, ScoreOf(st.guess, secret));
    assert Step(Commit, st, secret) == State(WithActual(st.history + [entry], secret), EmptyPins);
    CommitKeepsHistory(st.history, secret, entry);
  }

  lemma CommitKeepsHistory(history: seq<PinGuess>, secret: PinState, entry: PinGuess)
    requires SettledHistory(history, secret) && !IsGameOver(history)
    requires entry.result == ScoreOf(entry.state, secret)
    ensures SettledHistory(WithActual(history + [entry], secret), secret)
  {
    SelfScore(secret);
    ScoreBounded(entry.state, secret);
    var h := history + [entry];
    assert |history| < MaxGuesses;
    if |history| > 0 {
      // the program tests "== 5" for game over and "< 5" for the reveal; a score never exceeds 5
      ScoreBounded(history[|history| - 1].state, secret);
    }
    assert forall k :: 0 <= k < |h| - 1 ==> h[k] == history[k];
    if |h| == MaxGuesses && h[MaxGuesses - 1].result.black < PinCount {
      var h' := WithActual(h, secret);
      assert h' == h + [PinGuess(secret, ScoreOf(secret, secret))];
      assert forall k :: 0 <= k < |h'| - 1 ==> h'[k] == h[k];
    }
  }

  /** Every action an event can produce keeps the invariant while the game is on. */
  lemma StepKeepsConsistent(action: Action, st: State, secret: PinState)
    requires Consistent(st, secret) && !IsGameOver(st.history)
    requires action.ChooseColor? ==> action.colorIndex < ColorCount
    ensures Consistent(Step(action, st, secret), secret)
  {
    match action
    case ChooseColor(c) =>
      SelectKeepsPrefix(st.guess, c);
      EditsKeepResetValues(st.guess, c);
    case RevertPin =>
      RevertKeepsPrefix(st.guess);
      EditsKeepResetValues(st.guess, 0);
    case Commit =>
      CommitKeepsConsistent(st, secret);
    case NoAction =>
  }

  /** One event keeps the between-events invariant. */
  lemma DispatchKeepsConsistent(st: State, secret: PinState, e: Event)
    requires Consistent(st, secret)
    ensures Consistent(Dispatch(st, secret, e), secret)
  {
    if !IsGameOver(st.history) {
      match e
      case Click(x, y) =>
        ClickRegions(x, y, st.guess);
        StepKeepsConsistent(ClickAction(x, y, st.guess), st, secret);
      case Press(key) =>
        if key != Escape {
          StepKeepsConsistent(KeyAction(key), st, secret);
        }
    }
  }

  /** Events only ever append to the history: earlier entries are never changed
      or rescored, and one event adds at most a guess and the reveal entry. */
  lemma DispatchAppends(st: State, secret: PinState, e: Event)
    ensures var h := Dispatch(st, secret, e).history;
            |st.history| <= |h| <= |st.history| + 2 && h[..|st.history|] == st.history
  {
  }

  lemma {:induction false} EventsKeepConsistent(st: State, secret: PinState, events: seq<Event>)
    requires Consistent(st, secret)
    ensures Consistent(AfterEvents(st, secret, events), secret)
    decreases |events|
  {
    if events != [] {
      DispatchKeepsConsistent(st, secret, events[0]);
      EventsKeepConsistent(Dispatch(st, secret, events[0]), secret, events[1..]);
    }
  }

  /** Once the game is over, no sequence of events changes the history or the buffer. */
  lemma {:induction false} OverStaysFrozen(st: State, secret: PinState, events: seq<Event>)
    requires IsGameOver(st.history)
    ensures AfterEvents(st, secret, events) == st
    decreases |events|
  {
    if events != [] {
      OverStaysFrozen(Dispatch(st, secret, events[0]), secret, events[1..]);
    }
  }

  /** Over any sequence of events the history is append-only. */
  lemma {:induction false} EventsAppend(st: State, secret: PinState, events: seq<Event>)
    ensures var h := AfterEvents(st, secret, events).history;
            |st.history| <= |h| && h[..|st.history|] == st.history
    decreases |events|
  {
    if events != [] {
      var mid := Dispatch(st, secret, events[0]);
      DispatchAppends(st, secret, events[0]);
      EventsAppend(mid, secret, events[1..]);
      var h := AfterEvents(st, secret, events).history;
      assert h[..|st.history|] == h[..|mid.history|][..|st.history|];
    }
  }
}
