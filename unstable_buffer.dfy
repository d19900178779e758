/**
 The unstable buffer as the object the Raft log owns and updates in place. Its
 fields are those of the source's struct (the logger is left out); each mutating
 method changes them step by step as the source does and is proved to reach the
 state that the matching function of UnstableSpec describes.
 */
module UnstableBuffer {
  import opened UnstableSpec

  class Unstable {
    /** The incoming snapshot, if any, not yet persisted. */
    var snapshot: Option<Snapshot>
    /** The entries not yet persisted. */
    var entries: seq<Entry>
    /** The log position of entries[0]. */
    var offset: nat

    /** The current value of the fields. */
    function State(): UnstableState
      reads this
    {
      UnstableState(snapshot, entries, offset)
    }

    /** new(offset): an empty buffer whose first entry will sit at offset. */
    constructor (offset: nat)
      ensures State() == UnstableState(None, [], offset)
      ensures Valid(State())
    {
      this.offset := offset;
      snapshot := None;
      entries := [];
    }

    /** stable_to(idx, term): the entries through idx have been persisted with term. */
    method StableTo(idx: nat, term: nat)
      requires MaybeTermSafe(State(), idx)
      modifies this
      ensures State() == UnstableSpec.StableTo(old(State()), idx, term)
    {
      var t := MaybeTerm(State(), idx);
      if t.None? {
        return;
      }
      if t.value == term && idx >= offset {
        var start := idx + 1 - offset;
        entries := entries[start..];
        offset := idx + 1;
      }
    }

    /** stable_snap_to(idx): the pending snapshot at idx has been persisted. */
    method StableSnapTo(idx: nat)
      modifies this
      ensures State() == UnstableSpec.StableSnapTo(old(State()), idx)
    {
      if snapshot.None? {
        return;
      }
      if idx == snapshot.value.index {
        snapshot := None;
      }
    }

    /** restore(snap): abandon the buffered tail and install snap as pending. */
    method Restore(snap: Snapshot)
      modifies this
      ensures State() == UnstableSpec.Restore(old(State()), snap)
    {
      entries := [];
      offset := snap.index + 1;
      snapshot := Some(snap);
    }

    /** truncate_and_append(ents): merge a run of new entries into the buffer. */
    method TruncateAndAppend(ents: seq<Entry>)
      requires TruncateAndAppendSafe(State(), ents)
      modifies this
      ensures State() == UnstableSpec.TruncateAndAppend(old(State()), ents)
    {
      var after := ents[0].index;
      if after == offset + |entries| {
        entries := entries + ents;
      } else if after <= offset {
        offset := after;
        entries := [];
        entries := entries + ents;
      } else {
        var off := offset;
        assert MustCheckOutOfBounds(State(), off, after).Pass?;
        entries := entries[..after - off];
        entries := entries + ents;
      }
    }
  }
}
