/**
 The unstable tail of a Raft log, as values: the entries appended locally but not
 yet persisted, the optional pending snapshot, and the offset that places
 entries[i] at log position offset + i.

 This module holds the read-only queries of the buffer (maybe_first_index,
 maybe_last_index, maybe_term, slice, must_check_outofbounds) as functions, and
 the effect of each mutating operation as a function from the old state to the
 new one; the class in module UnstableBuffer is proved to follow them.

 Only the index and term of an entry and of a snapshot's metadata are ever read,
 so payloads are left out. A panic of the source (an unwrap of None, an index out
 of range, or fatal!) is a precondition here.
 */
module UnstableSpec {

  datatype Option<T> = None | Some(value: T)

  /** A log entry; only its position and term matter to the buffer. */
  datatype Entry = Entry(index: nat, term: nat)

  /** A snapshot, reduced to the index and term of its metadata. */
  datatype Snapshot = Snapshot(index: nat, term: nat)

  /** The fields of the buffer, without the logger. */
  datatype UnstableState = UnstableState(snapshot: Option<Snapshot>, entries: seq<Entry>, offset: nat)

  /** Why must_check_outofbounds aborts: the two fatal! reports it can make. */
  datatype FatalReason =
    | InvalidSlice(lo: nat, hi: nat)
    | SliceOutOfBound(lo: nat, hi: nat, offset: nat, upper: nat)

  /** The outcome of a fail-fast check: pass, or abort the process with a report. */
  datatype Check = Pass | Fatal(reason: FatalReason)

  /** One past the position of the last buffered entry. */
  function Upper(s: UnstableState): nat
  {
    s.offset + |s.entries|
  }

  /** Each buffered entry sits at the log position its index names. */
  predicate Positioned(s: UnstableState)
  {
    forall i :: 0 <= i < |s.entries| ==> s.entries[i].index == s.offset + i
  }

  /** A pending snapshot covers only positions before the buffered entries. */
  predicate SnapshotBelow(s: UnstableState)
  {
    s.snapshot.Some? ==> s.snapshot.value.index + 1 <= s.offset
  }

  /** The buffer invariant of the design: positions agree with offsets, and the snapshot is below them. */
  predicate Valid(s: UnstableState)
  {
    Positioned(s) && SnapshotBelow(s)
  }

  /** A run of entries whose indices follow one another without gaps. */
  predicate Contiguous(ents: seq<Entry>)
  {
    forall i :: 0 <= i < |ents| ==> ents[i].index == ents[0].index + i
  }

  /** maybe_first_index: one past the pending snapshot, and nothing without one, whatever is buffered. */
  function MaybeFirstIndex(s: UnstableState): (r: Option<nat>)
    ensures r.Some? <==> s.snapshot.Some?
    ensures r.Some? ==> r.value == s.snapshot.value.index + 1
    ensures SnapshotBelow(s) && r.Some? ==> r.value <= s.offset
  {
    match s.snapshot
    case None => None
    case Some(snap) => Some(snap.index + 1)
  }

  /** maybe_last_index: the last buffered position, else the snapshot's index, else nothing. */
  function MaybeLastIndex(s: UnstableState): (r: Option<nat>)
    ensures |s.entries| > 0 ==> r == Some(Upper(s) - 1)
    ensures |s.entries| > 0 && Positioned(s) ==> r.value == s.entries[|s.entries| - 1].index
    ensures |s.entries| == 0 ==> (r.Some? <==> s.snapshot.Some?)
    ensures |s.entries| == 0 && r.Some? ==> r.value == s.snapshot.value.index
    ensures SnapshotBelow(s) && r.Some? ==> r.value + 1 <= Upper(s)
  {
    if |s.entries| == 0 then
      match s.snapshot
      case None => None
      case Some(snap) => Some(snap.index)
    else
      Some(s.offset + |s.entries| - 1)
  }

  /**
   The inputs on which maybe_term does not panic: below the offset the snapshot
   is unwrapped, and at or above the last index the entries are indexed.
   */
  predicate MaybeTermSafe(s: UnstableState, idx: nat)
  {
    if idx < s.offset then
      s.snapshot.Some?
    else
      match MaybeLastIndex(s)
      case None => true
      case Some(last) => idx < last || idx - s.offset < |s.entries|
  }

  /**
   maybe_term as the code computes it. Below the offset it answers from the
   snapshot; at or above it, it answers only for the last buffered position,
   and gives nothing for an earlier one.
   */
  function MaybeTerm(s: UnstableState, idx: nat): (r: Option<nat>)
    requires MaybeTermSafe(s, idx)
    ensures idx < s.offset ==> (r.Some? <==> s.snapshot.value.index == idx)
    ensures idx < s.offset && r.Some? ==> r.value == s.snapshot.value.term
    ensures s.offset <= idx ==> (r.Some? <==> |s.entries| > 0 && idx == Upper(s) - 1)
    ensures s.offset <= idx && r.Some? ==> r.value == s.entries[|s.entries| - 1].term
  {
    if idx < s.offset then
      var meta := s.snapshot.value;
      if idx == meta.index then Some(meta.term) else None
    else
      match MaybeLastIndex(s)
      case None => None
      case Some(last) =>
        if idx < last then None else Some(s.entries[idx - s.offset].term)
  }

  /**
   The term lookup the test table of maybe_term expects: the snapshot's term at
   its own index, the term of any buffered entry, and nothing elsewhere. It never
   panics.
   */
  function IntendedMaybeTerm(s: UnstableState, idx: nat): (r: Option<nat>)
    ensures r.Some? <==>
              (idx < s.offset && s.snapshot.Some? && s.snapshot.value.index == idx) ||
              (s.offset <= idx < Upper(s))
    ensures r.Some? && s.offset <= idx ==> r.value == s.entries[idx - s.offset].term
    ensures r.Some? && idx < s.offset ==> r.value == s.snapshot.value.term
  {
    if idx < s.offset then
      if s.snapshot.Some? && s.snapshot.value.index == idx then Some(s.snapshot.value.term) else None
    else if idx - s.offset < |s.entries| then
      Some(s.entries[idx - s.offset].term)
    else
      None
  }

  /**
   must_check_outofbounds: [lo, hi) must be a well-formed range inside the
   buffered positions [offset, offset + len); an empty lo > hi is reported first.
   */
  function MustCheckOutOfBounds(s: UnstableState, lo: nat, hi: nat): (r: Check)
    ensures r.Pass? <==> lo <= hi && s.offset <= lo && hi <= Upper(s)
    ensures lo > hi ==> r == Fatal(InvalidSlice(lo, hi))
    ensures lo <= hi && r.Fatal? ==> r.reason == SliceOutOfBound(lo, hi, s.offset, Upper(s))
  {
    if lo > hi then
      Fatal(InvalidSlice(lo, hi))
    else if lo < s.offset || hi > Upper(s) then
      Fatal(SliceOutOfBound(lo, hi, s.offset, Upper(s)))
    else
      Pass
  }

  /** slice: the buffered entries at positions lo up to hi, once the bounds check passes. */
  function Slice(s: UnstableState, lo: nat, hi: nat): (r: seq<Entry>)
    requires MustCheckOutOfBounds(s, lo, hi).Pass?
    ensures |r| == hi - lo
    ensures forall i :: 0 <= i < |r| ==> r[i] == s.entries[lo - s.offset + i]
  {
    s.entries[lo - s.offset..hi - s.offset]
  }

  /**
   stable_to(idx, term): when the term found at idx is term and idx is buffered,
   the entries through idx are dropped and the offset moves past idx; otherwise
   nothing changes. The snapshot is never touched.
   */
  function StableTo(s: UnstableState, idx: nat, term: nat): (r: UnstableState)
    requires MaybeTermSafe(s, idx)
    ensures r.snapshot == s.snapshot
    ensures r != s <==> MaybeTerm(s, idx) == Some(term) && s.offset <= idx
    ensures r != s ==> r.offset == idx + 1 && idx + 1 - s.offset <= |s.entries|
    ensures r != s ==> r.entries == s.entries[idx + 1 - s.offset..]
  {
    var t := MaybeTerm(s, idx);
    if t.None? then s
    else if t.value == term && idx >= s.offset then
      var start := idx + 1 - s.offset;
      UnstableState(s.snapshot, s.entries[start..], idx + 1)
    else s
  }

  /** stable_snap_to(idx): the pending snapshot is dropped once persisted at its own index. */
  function StableSnapTo(s: UnstableState, idx: nat): (r: UnstableState)
    ensures r.entries == s.entries && r.offset == s.offset
    ensures r.snapshot.None? <==> s.snapshot.None? || s.snapshot.value.index == idx
    ensures r.snapshot.Some? ==> r.snapshot == s.snapshot
  {
    if s.snapshot.None? then s
    else if idx == s.snapshot.value.index then UnstableState(None, s.entries, s.offset)
    else s
  }

  /** restore(snap): every buffered entry is discarded and the buffer restarts right after snap. */
  function Restore(s: UnstableState, snap: Snapshot): (r: UnstableState)
    ensures r.entries == [] && r.offset == snap.index + 1 && r.snapshot == Some(snap)
    ensures Valid(r)
  {
    UnstableState(Some(snap), [], snap.index + 1)
  }

  /**
   When truncate_and_append does not panic: ents is non-empty (ents[0] is read)
   and, in the partial-overlap case, the bounds check from offset to ents[0].index
   passes.
   */
  predicate TruncateAndAppendSafe(s: UnstableState, ents: seq<Entry>)
  {
    |ents| > 0 &&
    var after := ents[0].index;
    after == Upper(s) || after <= s.offset || MustCheckOutOfBounds(s, s.offset, after).Pass?
  }

  /**
   truncate_and_append(ents): ents always becomes the tail of the buffer, the
   buffer ends right after it, the offset moves back to ents[0].index only when
   that is not after it, and what is kept in front of ents is a prefix of the old
   entries.
   */
  function TruncateAndAppend(s: UnstableState, ents: seq<Entry>): (r: UnstableState)
    requires TruncateAndAppendSafe(s, ents)
    ensures r.snapshot == s.snapshot
    ensures r.offset == if ents[0].index <= s.offset then ents[0].index else s.offset
    ensures Upper(r) == ents[0].index + |ents|
    ensures |r.entries| >= |ents| && r.entries[|r.entries| - |ents|..] == ents
    ensures r.entries[..|r.entries| - |ents|] <= s.entries
  {
    var after := ents[0].index;
    if after == Upper(s) then
      UnstableState(s.snapshot, s.entries + ents, s.offset)
    else if after <= s.offset then
      UnstableState(s.snapshot, ents, after)
    else
      UnstableState(s.snapshot, s.entries[..after - s.offset] + ents, s.offset)
  }
}
