/** The scoring engine: a guess of five colour slots is compared with the
    secret and yields a count of exact hits (black) and a count of
    colour-only hits (white). */
module Scoring {

  /** The largest value of the C++ `unsigned int`; a slot holding it is empty. */
  const UINT_MAX: int := 0xFFFF_FFFF

  /** Number of slots in a pin row. */
  const PinCount: nat := 5

  /** Size of the colour palette; a slot value below it is a colour. */
  const ColorCount: nat := 8

  /** One slot of a pin row: an `unsigned int` palette index, or a value of 8 and up for "empty". */
  type Slot = v: int | 0 <= v <= UINT_MAX

  /** A row of five slots: the secret, the guess being built, or a committed guess. */
  type PinState = s: seq<Slot> | |s| == 5 witness [UINT_MAX, UINT_MAX, UINT_MAX, UINT_MAX, UINT_MAX]

  /** A freshly reset row: every slot holds UINT_MAX. */
  const EmptyPins: PinState := [UINT_MAX, UINT_MAX, UINT_MAX, UINT_MAX, UINT_MAX]

  /** Every emptiness test of the game is "value >= 8". */
  predicate IsEmpty(v: Slot) {
    v >= ColorCount
  }

  predicate AllInPalette(s: PinState) {
    forall i :: 0 <= i < PinCount ==> !IsEmpty(s[i])
  }

  predicate AllEmpty(s: PinState) {
    forall i :: 0 <= i < PinCount ==> IsEmpty(s[i])
  }

  /** The two counters of a scored guess. */
  datatype GuessResult = GuessResult(black: nat, white: nat)

  /** Some secret slot other than `i` holds the colour of guess slot `i`. */
  predicate ColourElsewhere(guess: PinState, actual: PinState, i: nat)
    requires i < PinCount
  {
    exists j :: 0 <= j < PinCount && j != i && guess[i] == actual[j]
  }

  /** Number of slots among the first `n` where guess and secret agree. */
  function Black(guess: PinState, actual: PinState, n: nat): nat
    requires n <= PinCount
  {
    if n == 0 then 0
    else Black(guess, actual, n - 1) + (if guess[n - 1] == actual[n - 1] then 1 else 0)
  }

  /** Number of slots among the first `n` that miss their own position but whose
      colour sits at some other secret position. Secret positions are never
      used up, so several guess slots may be credited through the same one, and
      a secret position that is itself an exact hit still counts. */
  function White(guess: PinState, actual: PinState, n: nat): nat
    requires n <= PinCount
  {
    if n == 0 then 0
    else White(guess, actual, n - 1)
         + (if guess[n - 1] != actual[n - 1] && ColourElsewhere(guess, actual, n - 1) then 1 else 0)
  }

  /** The score the game assigns to `guess` against the secret `actual`. */
  function ScoreOf(guess: PinState, actual: PinState): GuessResult {
    GuessResult(Black(guess, actual, PinCount), White(guess, actual, PinCount))
  }

  /** The nested scan of the scoring constructor: an exact hit counts black and
      skips the inner scan; otherwise the first secret position j != i with the
      same colour counts white and ends the scan. */
  method Score(guess: PinState, actual: PinState) returns (r: GuessResult)
    ensures r == ScoreOf(guess, actual)
  {
    var black: nat, white: nat := 0, 0;
    for i := 0 to PinCount
      invariant black == Black(guess, actual, i)
      invariant white == White(guess, actual, i)
    {
      if guess[i] == actual[i] {
        black := black + 1;
        continue;
      }
      for j := 0 to PinCount
        invariant white == White(guess, actual, i)
        invariant forall k :: 0 <= k < j ==> !(i != k && guess[i] == actual[k])
      {
        if i != j && guess[i] == actual[j] {
          white := white + 1;
          break;
        }
      }
    }
    r := GuessResult(black, white);
  }

  /** Each slot adds at most one, to one of the two counters. */
  lemma {:induction false} CountsBounded(guess: PinState, actual: PinState, n: nat)
    requires n <= PinCount
    ensures Black(guess, actual, n) + White(guess, actual, n) <= n
  {
    if n > 0 {
      CountsBounded(guess, actual, n - 1);
    }
  }

  lemma ScoreBounded(guess: PinState, actual: PinState)
    ensures ScoreOf(guess, actual).black + ScoreOf(guess, actual).white <= PinCount
  {
    CountsBounded(guess, actual, PinCount);
  }

  lemma {:induction false} SelfCounts(s: PinState, n: nat)
    requires n <= PinCount
    ensures Black(s, s, n) == n && White(s, s, n) == 0
  {
    if n > 0 {
      SelfCounts(s, n - 1);
    }
  }

  /** A row scored against itself is a perfect (5, 0); the reveal entry relies on it. */
  lemma SelfScore(s: PinState)
    ensures ScoreOf(s, s) == GuessResult(5, 0)
  {
    SelfCounts(s, PinCount);
  }

  lemma {:induction false} BlackAllIffPrefixEqual(guess: PinState, actual: PinState, n: nat)
    requires n <= PinCount
    ensures Black(guess, actual, n) <= n
    ensures Black(guess, actual, n) == n <==> guess[..n] == actual[..n]
  {
    if n > 0 {
      BlackAllIffPrefixEqual(guess, actual, n - 1);
      assert guess[..n] == guess[..n - 1] + [guess[n - 1]];
      assert actual[..n] == actual[..n - 1] + [actual[n - 1]];
      if guess[..n] == actual[..n] {
        assert guess[..n - 1] == guess[..n][..n - 1];
        assert actual[..n - 1] == actual[..n][..n - 1];
        assert guess[n - 1] == guess[..n][n - 1];
      }
    }
  }

  /** Five black pins are scored exactly when the guess is the secret. */
  lemma WinIffEqual(guess: PinState, actual: PinState)
    ensures ScoreOf(guess, actual).black == PinCount <==> guess == actual
  {
    BlackAllIffPrefixEqual(guess, actual, PinCount);
    assert guess[..PinCount] == guess;
    assert actual[..PinCount] == actual;
  }

  lemma {:induction false} EmptyCounts(guess: PinState, actual: PinState, n: nat)
    requires n <= PinCount
    requires AllEmpty(guess) && AllInPalette(actual)
    ensures Black(guess, actual, n) == 0 && White(guess, actual, n) == 0
  {
    if n > 0 {
      EmptyCounts(guess, actual, n - 1);
    }
  }

  /** A reset row never matches a palette colour, so it scores nothing. */
  lemma EmptyGuessScoresNothing(actual: PinState)
    requires AllInPalette(actual)
    ensures ScoreOf(EmptyPins, actual) == GuessResult(0, 0)
  {
    EmptyCounts(EmptyPins, actual, PinCount);
  }

  /** A row with an empty slot can never win against a secret of palette colours. */
  lemma PartialGuessNeverWins(guess: PinState, actual: PinState, i: nat)
    requires i < PinCount && IsEmpty(guess[i])
    requires AllInPalette(actual)
    ensures ScoreOf(guess, actual).black < PinCount
  {
    WinIffEqual(guess, actual);
    BlackAllIffPrefixEqual(guess, actual, PinCount);
  }

  /** Guess [A,A,B,C,D] against secret [A,B,B,C,D] scores (4, 1): slot 1 is
      credited through secret slot 0, although slot 0 was already an exact hit. */
  lemma FirstMatchReusesExactSlot()
    ensures ScoreOf([0, 0, 1, 2, 3], [0, 1, 1, 2, 3]) == GuessResult(4, 1)
  {
  }

  /** Guess [A,A,A,A,A] against secret [B,A,B,B,B] scores (1, 4): the single
      secret A is credited four times, once for each non-exact guess slot,
      where classic peg counting would give (1, 0). Scored the other way round
      the result is (1, 0), so the score is not symmetric. */
  lemma SecretSlotReusedAndNotSymmetric()
    ensures ScoreOf([0, 0, 0, 0, 0], [1, 0, 1, 1, 1]) == GuessResult(1, 4)
    ensures ScoreOf([1, 0, 1, 1, 1], [0, 0, 0, 0, 0]) == GuessResult(1, 0)
  {
  }
}
