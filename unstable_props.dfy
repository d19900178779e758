/**
 What the unstable buffer promises, proved about the functions of UnstableSpec:
 the position invariant under every mutation, the merge policy of
 truncate_and_append (the newer run wins from its first index on) and its
 idempotence, the round trip of a persistence acknowledgement, the bounds of
 slice, the test tables of the queries, and where maybe_term as written departs
 from what its tests expect.
 */
module UnstableProps {
  import opened UnstableSpec

  // ---------------------------------------------------------------------------
  // The invariant under the mutating operations

  /** restore leaves a valid, empty buffer whose queries all answer from the snapshot. */
  lemma RestoreQueries(s: UnstableState, snap: Snapshot)
    ensures var r := Restore(s, snap);
      && Valid(r)
      && MaybeFirstIndex(r) == Some(snap.index + 1)
      && MaybeLastIndex(r) == Some(snap.index)
      && MaybeTermSafe(r, snap.index)
      && MaybeTerm(r, snap.index) == Some(snap.term)
  {
  }

  /** stable_to keeps the invariant and never moves the offset back. */
  lemma StableToPreservesValid(s: UnstableState, idx: nat, term: nat)
    requires Valid(s) && MaybeTermSafe(s, idx)
    ensures var r := StableTo(s, idx, term);
      Valid(r) && r.offset >= s.offset && Upper(r) == Upper(s)
  {
  }

  /**
   Because maybe_term answers above the offset only for the last buffered
   position, stable_to acts only when idx is that position, and then it empties
   the buffer.
   */
  lemma StableToDrainsWholeBuffer(s: UnstableState, idx: nat, term: nat)
    requires MaybeTermSafe(s, idx)
    ensures var r := StableTo(s, idx, term);
      r != s <==>
        |s.entries| > 0 && idx == Upper(s) - 1 && s.entries[|s.entries| - 1].term == term
    ensures var r := StableTo(s, idx, term);
      r != s ==> r.entries == [] && r.offset == Upper(s)
  {
  }

  /** stable_snap_to keeps the invariant. */
  lemma StableSnapToPreservesValid(s: UnstableState, idx: nat)
    requires Valid(s)
    ensures Valid(StableSnapTo(s, idx))
  {
  }

  /**
   truncate_and_append keeps every entry at its position when the new run is
   contiguous, and keeps the snapshot below the entries when the run starts after
   the snapshot.
   */
  lemma TruncateAndAppendPreservesValid(s: UnstableState, ents: seq<Entry>)
    requires TruncateAndAppendSafe(s, ents) && Contiguous(ents)
    requires Positioned(s)
    ensures Positioned(TruncateAndAppend(s, ents))
    ensures SnapshotBelow(s) && (s.snapshot.Some? ==> s.snapshot.value.index < ents[0].index)
            ==> SnapshotBelow(TruncateAndAppend(s, ents))
  {
  }

  /**
   The log-matching rule of the merge: in the resulting buffer, every position
   from ents[0].index on holds the new entry for it, and every earlier position
   holds the old entry that was there.
   */
  lemma TruncateAndAppendNewerWins(s: UnstableState, ents: seq<Entry>, p: nat)
    requires TruncateAndAppendSafe(s, ents)
    requires var r := TruncateAndAppend(s, ents); r.offset <= p < Upper(r)
    ensures var r := TruncateAndAppend(s, ents);
      p >= ents[0].index ==> r.entries[p - r.offset] == ents[p - ents[0].index]
    ensures var r := TruncateAndAppend(s, ents);
      p < ents[0].index ==> s.offset <= p < Upper(s) && r.entries[p - r.offset] == s.entries[p - s.offset]
  {
  }

  /** Appending the same run a second time changes nothing. */
  lemma TruncateAndAppendIdempotent(s: UnstableState, ents: seq<Entry>)
    requires TruncateAndAppendSafe(s, ents)
    ensures TruncateAndAppendSafe(TruncateAndAppend(s, ents), ents)
    ensures var r := TruncateAndAppend(s, ents); TruncateAndAppend(r, ents) == r
  {
  }

  /** truncate_and_append aborts exactly when ents is empty or starts beyond one past the last buffered position. */
  lemma TruncateAndAppendAborts(s: UnstableState, ents: seq<Entry>)
    ensures !TruncateAndAppendSafe(s, ents) <==>
              |ents| == 0 || ents[0].index > Upper(s)
  {
  }

  /**
   The persistence round trip: once a contiguous run is appended, acknowledging
   its last entry with that entry's term empties the buffer and moves the offset
   past the run.
   */
  lemma AppendThenStable(s: UnstableState, ents: seq<Entry>)
    requires TruncateAndAppendSafe(s, ents) && Contiguous(ents) && Positioned(s)
    ensures var r := TruncateAndAppend(s, ents);
      var last := ents[|ents| - 1];
      && MaybeTermSafe(r, last.index)
      && StableTo(r, last.index, last.term) == UnstableState(s.snapshot, [], last.index + 1)
  {
  }

  // ---------------------------------------------------------------------------
  // Histories of calls

  /** One call the Raft log makes on the buffer. */
  datatype Call =
    | Append(ents: seq<Entry>)
    | Stable(idx: nat, term: nat)
    | StableSnap(idx: nat)
    | Install(snap: Snapshot)

  /**
   A call that does not panic and keeps to the design: an appended run is
   contiguous and starts after the pending snapshot.
   */
  predicate WellFormed(s: UnstableState, c: Call)
  {
    match c
    case Append(ents) =>
      TruncateAndAppendSafe(s, ents) && Contiguous(ents) &&
      (s.snapshot.Some? ==> s.snapshot.value.index < ents[0].index)
    case Stable(idx, _) => MaybeTermSafe(s, idx)
    case StableSnap(_) => true
    case Install(_) => true
  }

  /** The state after one call. */
  function Apply(s: UnstableState, c: Call): UnstableState
    requires WellFormed(s, c)
  {
    match c
    case Append(ents) => TruncateAndAppend(s, ents)
    case Stable(idx, term) => StableTo(s, idx, term)
    case StableSnap(idx) => StableSnapTo(s, idx)
    case Install(snap) => Restore(s, snap)
  }

  /** The state after a history of calls, or nothing if some call in it is not well formed. */
  function Run(s: UnstableState, calls: seq<Call>): Option<UnstableState>
    decreases |calls|
  {
    if calls == [] then Some(s)
    else if !WellFormed(s, calls[0]) then None
    else Run(Apply(s, calls[0]), calls[1..])
  }

  /** Every well-formed call keeps the buffer invariant. */
  lemma ApplyPreservesValid(s: UnstableState, c: Call)
    requires Valid(s) && WellFormed(s, c)
    ensures Valid(Apply(s, c))
  {
  }

  /** The buffer invariant holds after any history of well-formed calls from a valid buffer. */
  lemma {:induction false} RunPreservesValid(s: UnstableState, calls: seq<Call>)
    requires Valid(s) && Run(s, calls).Some?
    ensures Valid(Run(s, calls).value)
    decreases |calls|
  {
    if calls != [] {
      ApplyPreservesValid(s, calls[0]);
      RunPreservesValid(Apply(s, calls[0]), calls[1..]);
    }
  }

  // ---------------------------------------------------------------------------
  // slice

  /** A slice of a positioned buffer holds exactly the entries for positions lo up to hi. */
  lemma SliceIndices(s: UnstableState, lo: nat, hi: nat)
    requires Positioned(s) && MustCheckOutOfBounds(s, lo, hi).Pass?
    ensures forall i :: 0 <= i < hi - lo ==> Slice(s, lo, hi)[i].index == lo + i
  {
  }

  /** Slices over adjacent ranges put together give the slice over their union. */
  lemma SliceConcat(s: UnstableState, lo: nat, mid: nat, hi: nat)
    requires MustCheckOutOfBounds(s, lo, mid).Pass? && MustCheckOutOfBounds(s, mid, hi).Pass?
    ensures MustCheckOutOfBounds(s, lo, hi).Pass?
    ensures Slice(s, lo, mid) + Slice(s, mid, hi) == Slice(s, lo, hi)
  {
  }

  // ---------------------------------------------------------------------------
  // maybe_term as written and as its tests expect it

  /**
   For every buffered position before the last one, maybe_term does not panic
   but answers nothing, where the intended lookup gives the entry's term.
   */
  lemma MaybeTermHidesEarlierEntries(s: UnstableState, idx: nat)
    requires s.offset <= idx < Upper(s) - 1
    ensures MaybeTermSafe(s, idx) && MaybeTerm(s, idx) == None
    ensures IntendedMaybeTerm(s, idx) == Some(s.entries[idx - s.offset].term)
  {
  }

  /** Wherever it does not panic, maybe_term agrees with the intended lookup except on those earlier entries. */
  lemma MaybeTermAgreesWithIntended(s: UnstableState, idx: nat)
    requires MaybeTermSafe(s, idx)
    requires !(s.offset <= idx < Upper(s) - 1)
    ensures MaybeTerm(s, idx) == IntendedMaybeTerm(s, idx)
  {
  }

  /** On a valid buffer, the intended lookup finds a buffered entry by its own index. */
  lemma IntendedMaybeTermFindsEntry(s: UnstableState, i: nat)
    requires Positioned(s) && i < |s.entries|
    ensures IntendedMaybeTerm(s, s.entries[i].index) == Some(s.entries[i].term)
  {
  }

  /** The rows of the maybe_term test on which the code panics although the test expects None. */
  lemma MaybeTermPanicsWhereTestsExpectNone()
    ensures var u := UnstableState(None, [Entry(5, 1)], 5);
      !MaybeTermSafe(u, 6) && IntendedMaybeTerm(u, 6) == None
    ensures var u := UnstableState(None, [Entry(5, 1)], 5);
      !MaybeTermSafe(u, 4) && IntendedMaybeTerm(u, 4) == None
    ensures var u := UnstableState(Some(Snapshot(4, 1)), [Entry(5, 1)], 5);
      !MaybeTermSafe(u, 6) && IntendedMaybeTerm(u, 6) == None
    ensures var u := UnstableState(Some(Snapshot(4, 1)), [], 5);
      !MaybeTermSafe(u, 5) && IntendedMaybeTerm(u, 5) == None
  {
  }

  /** The other rows of the maybe_term test, which the code as written passes. */
  lemma MaybeTermTests()
    ensures MaybeTerm(UnstableState(None, [Entry(5, 1)], 5), 5) == Some(1)
    ensures MaybeTerm(UnstableState(Some(Snapshot(4, 1)), [Entry(5, 1)], 5), 5) == Some(1)
    ensures MaybeTerm(UnstableState(Some(Snapshot(4, 1)), [Entry(5, 1)], 5), 3) == None
    ensures MaybeTerm(UnstableState(Some(Snapshot(4, 1)), [], 5), 4) == Some(1)
    ensures MaybeTerm(UnstableState(None, [], 0), 5) == None
  {
  }

  // ---------------------------------------------------------------------------
  // The test tables of the other queries, and the worked scenarios

  lemma MaybeFirstIndexTests()
    ensures MaybeFirstIndex(UnstableState(None, [Entry(5, 1)], 5)) == None
    ensures MaybeFirstIndex(UnstableState(None, [], 0)) == None
    ensures MaybeFirstIndex(UnstableState(Some(Snapshot(5, 1)), [Entry(5, 1)], 5)) == Some(6)
    ensures MaybeFirstIndex(UnstableState(Some(Snapshot(4, 1)), [], 5)) == Some(5)
  {
  }

  lemma MaybeLastIndexTests()
    ensures MaybeLastIndex(UnstableState(None, [Entry(5, 1)], 5)) == Some(5)
    ensures MaybeLastIndex(UnstableState(Some(Snapshot(4, 1)), [Entry(5, 1)], 5)) == Some(5)
    ensures MaybeLastIndex(UnstableState(Some(Snapshot(4, 1)), [], 5)) == Some(4)
    ensures MaybeLastIndex(UnstableState(None, [], 0)) == None
  {
  }

  /** The three branches of truncate_and_append and both outcomes of stable_to on small buffers. */
  lemma MergeScenarios()
    ensures TruncateAndAppend(UnstableState(None, [Entry(5, 1)], 5), [Entry(6, 1)])
         == UnstableState(None, [Entry(5, 1), Entry(6, 1)], 5)
    ensures TruncateAndAppend(UnstableState(None, [Entry(5, 1)], 5), [Entry(4, 2)])
         == UnstableState(None, [Entry(4, 2)], 4)
    ensures TruncateAndAppend(UnstableState(None, [Entry(5, 1), Entry(6, 1), Entry(7, 1)], 5), [Entry(6, 2)])
         == UnstableState(None, [Entry(5, 1), Entry(6, 2)], 5)
    ensures StableTo(UnstableState(None, [Entry(5, 1)], 5), 5, 1) == UnstableState(None, [], 6)
    ensures StableTo(UnstableState(None, [Entry(5, 1)], 5), 5, 2) == UnstableState(None, [Entry(5, 1)], 5)
  {
  }
}
