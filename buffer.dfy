/** The guess under construction: colours are written into the leftmost empty
    slot and taken back from the right, so the filled slots always form a prefix. */
module Buffer {
  import opened Scoring

  /** No filled slot follows an empty one. */
  predicate PrefixFilled(s: PinState) {
    forall i, j :: 0 <= i < j < PinCount && IsEmpty(s[i]) ==> IsEmpty(s[j])
  }

  /** Every empty slot holds UINT_MAX, the value a reset writes. */
  predicate ResetValues(s: PinState) {
    forall i :: 0 <= i < PinCount && IsEmpty(s[i]) ==> s[i] == UINT_MAX
  }

  /** The first empty slot at or after `from`, scanning left to right; 5 when there is none. */
  function FirstEmpty(s: PinState, from: nat): (k: nat)
    requires from <= PinCount
    ensures from <= k <= PinCount
    ensures forall i :: from <= i < k ==> !IsEmpty(s[i])
    ensures k < PinCount ==> IsEmpty(s[k])
    decreases PinCount - from
  {
    if from == PinCount then PinCount
    else if IsEmpty(s[from]) then from
    else FirstEmpty(s, from + 1)
  }

  /** The fill step of a palette click: `colorIndex` goes into the first empty
      slot; a full row is left as it is. */
  function Select(s: PinState, colorIndex: Slot): PinState {
    var k := FirstEmpty(s, 0);
    if k < PinCount then s[k := colorIndex] else s
  }

  /** Revert one pin: clear slot 4 when it is filled, otherwise clear the slot
      just before the first empty one, and do nothing when slot 0 is empty. */
  function Revert(s: PinState): PinState {
    if !IsEmpty(s[4]) then s[4 := UINT_MAX]
    else
      var k := FirstEmpty(s, 0);
      if k == 0 then s else s[k - 1 := UINT_MAX]
  }

  /** The leftmost empty slot is the one the scan finds. */
  lemma FirstEmptyIsLeftmost(s: PinState, k: nat)
    requires k < PinCount && IsEmpty(s[k])
    requires forall i :: 0 <= i < k ==> !IsEmpty(s[i])
    ensures FirstEmpty(s, 0) == k
  {
  }

  /** Selecting writes the colour into the leftmost empty slot and leaves every
      other slot alone; on a full row it changes nothing. */
  lemma SelectFillsLeftmost(s: PinState, colorIndex: Slot)
    ensures (forall i :: 0 <= i < PinCount ==> !IsEmpty(s[i])) ==> Select(s, colorIndex) == s
    ensures forall k :: 0 <= k < PinCount && IsEmpty(s[k]) && (forall i :: 0 <= i < k ==> !IsEmpty(s[i]))
                        ==> Select(s, colorIndex) == s[k := colorIndex]
  {
  }

  /** A palette colour added to a prefix-filled row keeps it prefix-filled and
      grows the filled prefix by one slot unless the row was full. */
  lemma SelectKeepsPrefix(s: PinState, colorIndex: Slot)
    requires PrefixFilled(s) && !IsEmpty(colorIndex)
    ensures PrefixFilled(Select(s, colorIndex))
    ensures FirstEmpty(Select(s, colorIndex), 0)
            == if FirstEmpty(s, 0) < PinCount then FirstEmpty(s, 0) + 1 else PinCount
  {
  }

  /** On a prefix-filled row, reverting clears the rightmost filled slot; on an
      all-empty row it changes nothing, so reverting again and again is the same
      as reverting once. */
  lemma RevertClearsRightmost(s: PinState)
    requires PrefixFilled(s)
    ensures forall k :: 0 <= k < PinCount && !IsEmpty(s[k]) && (k == PinCount - 1 || IsEmpty(s[k + 1]))
                        ==> Revert(s) == s[k := UINT_MAX]
    ensures AllEmpty(s) ==> Revert(s) == s && Revert(Revert(s)) == Revert(s)
  {
  }

  /** Reverting keeps a row prefix-filled and shrinks the filled prefix by one slot
      unless the row was empty. */
  lemma RevertKeepsPrefix(s: PinState)
    requires PrefixFilled(s)
    ensures PrefixFilled(Revert(s))
    ensures FirstEmpty(Revert(s), 0) == if FirstEmpty(s, 0) > 0 then FirstEmpty(s, 0) - 1 else 0
  {
  }

  /** Selecting and reverting keep empty slots at UINT_MAX. */
  lemma EditsKeepResetValues(s: PinState, colorIndex: Slot)
    requires ResetValues(s) && !IsEmpty(colorIndex)
    ensures ResetValues(Select(s, colorIndex)) && ResetValues(Revert(s))
  {
  }

  /** Reverting right after selecting a colour into a row with room gives the row back. */
  lemma RevertUndoesSelect(s: PinState, colorIndex: Slot)
    requires PrefixFilled(s) && ResetValues(s) && !IsEmpty(colorIndex)
    requires FirstEmpty(s, 0) < PinCount
    ensures Revert(Select(s, colorIndex)) == s
  {
  }

  /** Selecting the colour a revert removed puts the row back as it was. */
  lemma SelectUndoesRevert(s: PinState)
    requires PrefixFilled(s) && FirstEmpty(s, 0) > 0
    ensures Select(Revert(s), s[FirstEmpty(s, 0) - 1]) == s
  {
  }
}
