# Unstable log buffer of a Raft log

A Raft log keeps some entries in memory before they are written to storage. This
project models that in-memory tail, the `Unstable` buffer of `src/log_unstable.rs`,
and proves properties of the model. The buffer has three fields:

- an optional pending snapshot;
- the entries not yet persisted;
- an `offset`, so that `entries[i]` stands at log position `offset + i`.

The model has three modules:

- `UnstableSpec` (`unstable_spec.dfy`) holds the values. An entry and a snapshot
  keep only their index and term. The read-only queries are functions:
  `maybe_first_index`, `maybe_last_index`, `maybe_term`, `slice` and
  `must_check_outofbounds`. Each mutating operation also has a function that gives
  the new state from the old one.
- `UnstableBuffer` (`unstable_buffer.dfy`) holds the class `Unstable`, with the
  source's fields. Its methods `StableTo`, `StableSnapTo`, `Restore` and
  `TruncateAndAppend` update the fields in place, following the same branches as
  the source. Each method is proved to reach exactly the state the matching
  `UnstableSpec` function gives.
- `UnstableProps` (`unstable_props.dfy`) holds the lemmas. They cover:
  - the position invariant `entries[i].index == offset + i` under every mutation;
  - the merge policy of `truncate_and_append`, where the newer run wins from its
    first index on, and its idempotence;
  - the round trip of appending and then acknowledging persistence;
  - the invariant over any history of calls;
  - `slice`;
  - the test tables in the source;
  - how `maybe_term` as written differs from what its tests expect.

A panic in the source is a precondition on the caller. This covers an `unwrap` of
`None`, an index out of range, and `fatal!` (`src/lib.rs:12-26`). The predicates
`MaybeTermSafe` and `TruncateAndAppendSafe` state exactly the inputs that do not
panic. `must_check_outofbounds` itself returns `Pass`, or `Fatal` with the report
that `fatal!` would print. `slice` and the partial-overlap branch of
`truncate_and_append` require that it passes.

The source does not enforce the buffer invariant. Its tests build arbitrary
states. So no method requires `Valid`; instead, lemmas show which operations
preserve it.

`maybe_term` is modelled as the code computes it, not as its tests expect. Below
the offset it unwraps the snapshot. At or above the offset it answers only for the
last buffered position: it returns nothing for earlier buffered positions and
indexes out of range beyond the last one. `stable_to` calls it, so the model of
`stable_to` inherits this behaviour. `StableToDrainsWholeBuffer` proves that
`stable_to` acts only when acknowledging the last buffered entry, and then empties
the buffer. `IntendedMaybeTerm` is the lookup the test table describes (see
Findings).

## Model

| member | source | states |
|---|---|---|
| `UnstableSpec.MaybeFirstIndex` | src/log_unstable.rs:31-35 | present exactly when a snapshot is pending, and then one past the snapshot's index, whatever the entries; never past the offset when the snapshot is below the entries |
| `UnstableSpec.MaybeLastIndex` | src/log_unstable.rs:37-42 | `offset + len - 1` when entries are buffered, which is the last entry's own index on a positioned buffer; otherwise the snapshot's index if there is one, else nothing |
| `UnstableSpec.MaybeTerm` | src/log_unstable.rs:45-62 | below the offset: the snapshot's term exactly when idx is the snapshot's index; at or above it: present exactly when entries are buffered and idx is the last position, and then the last entry's term; defined only where the code does not panic |
| `UnstableSpec.MustCheckOutOfBounds` | src/log_unstable.rs:125-141 | passes exactly when `lo <= hi` and `[lo, hi)` lies inside `[offset, offset + len]`; reports `lo > hi` first, else the out-of-bound range with offset and upper bound |
| `UnstableSpec.Slice` | src/log_unstable.rs:116-122 | once the bounds check passes, has length `hi - lo` and its i-th element is the buffered entry at position `lo + i` |
| `UnstableSpec.StableTo` | src/log_unstable.rs:66-76 | snapshot untouched; the state changes exactly when maybe_term gives `term` at idx and idx is not below the offset, and then the offset becomes idx + 1 and exactly the first `idx + 1 - offset` entries are dropped, the rest kept in order |
| `UnstableSpec.StableSnapTo` | src/log_unstable.rs:79-86 | entries and offset unchanged; the snapshot is gone exactly when there was none or its index is idx, and otherwise stays as it was |
| `UnstableSpec.Restore` | src/log_unstable.rs:89-93 | entries empty, offset one past the snapshot's index, snapshot pending, and the result satisfies the buffer invariant |
| `UnstableSpec.TruncateAndAppend` | src/log_unstable.rs:96-113 | snapshot untouched; the new run is the tail of the buffer and the buffer ends right after it; the offset moves back to the run's first index only when that is not after it; what stays in front of the run is a prefix of the old entries |
| `UnstableSpec.IntendedMaybeTerm` | src/log_unstable.rs:237-263 | the lookup the test table expects: present exactly for the snapshot's own index below the offset and for every buffered position, with the term found there; never panics |
| `UnstableBuffer.Unstable.constructor` | src/log_unstable.rs:22-29 | an empty buffer with no snapshot at the given offset, satisfying the invariant |
| `UnstableBuffer.Unstable.StableTo` | src/log_unstable.rs:66-76 | the fields after the in-place drain are the state `UnstableSpec.StableTo` gives |
| `UnstableBuffer.Unstable.StableSnapTo` | src/log_unstable.rs:79-86 | the fields afterwards are the state `UnstableSpec.StableSnapTo` gives |
| `UnstableBuffer.Unstable.Restore` | src/log_unstable.rs:89-93 | the fields afterwards are the state `UnstableSpec.Restore` gives |
| `UnstableBuffer.Unstable.TruncateAndAppend` | src/log_unstable.rs:96-113 | the fields after the branch-by-branch clear, truncate and extend are the state `UnstableSpec.TruncateAndAppend` gives |
| `UnstableProps.RestoreQueries` | src/log_unstable.rs:89-93 | after restore the buffer is valid, its first index is one past the snapshot, its last index is the snapshot's, and maybe_term at that index gives the snapshot's term |
| `UnstableProps.StableToPreservesValid` | src/log_unstable.rs:66-76 | stable_to keeps the invariant, never moves the offset back and keeps the end of the buffer where it was |
| `UnstableProps.StableToDrainsWholeBuffer` | src/log_unstable.rs:45-76 | stable_to changes the state exactly when idx is the last buffered position and its term is `term`, and then leaves no entries and the offset at the old end |
| `UnstableProps.StableSnapToPreservesValid` | src/log_unstable.rs:79-86 | stable_snap_to keeps the invariant |
| `UnstableProps.TruncateAndAppendPreservesValid` | src/log_unstable.rs:96-113 | a contiguous run keeps every entry at its position; a run starting after the snapshot keeps the snapshot below the entries |
| `UnstableProps.TruncateAndAppendNewerWins` | src/log_unstable.rs:96-113 | in the result every position from the run's first index on holds the new entry, and every earlier position holds the old entry that was there |
| `UnstableProps.TruncateAndAppendIdempotent` | src/log_unstable.rs:96-113 | applying the same run again does not panic and changes nothing |
| `UnstableProps.TruncateAndAppendAborts` | src/log_unstable.rs:96-113 | truncate_and_append panics exactly when the run is empty or starts beyond one past the last buffered position |
| `UnstableProps.AppendThenStable` | src/log_unstable.rs:66-113 | after appending a contiguous run, acknowledging its last entry with its term empties the buffer and sets the offset past the run |
| `UnstableProps.ApplyPreservesValid` | src/log_unstable.rs:66-113 | each call that does not panic keeps the buffer invariant: an append of a contiguous run that starts after the snapshot, an acknowledgement, a snapshot acknowledgement, or a restore |
| `UnstableProps.RunPreservesValid` | src/log_unstable.rs:5-7 | from a valid buffer, every history of such calls ends in a buffer whose entries stand at their positions and whose snapshot is below them |
| `UnstableProps.SliceIndices` | src/log_unstable.rs:116-122 | on a positioned buffer the i-th sliced entry has index `lo + i` |
| `UnstableProps.SliceConcat` | src/log_unstable.rs:116-122 | slices of adjacent in-bounds ranges concatenate to the slice of their union |
| `UnstableProps.MaybeTermHidesEarlierEntries` | src/log_unstable.rs:55-60 | for every buffered position before the last, maybe_term does not panic but gives nothing, while the intended lookup gives that entry's term |
| `UnstableProps.MaybeTermAgreesWithIntended` | src/log_unstable.rs:45-62 | wherever maybe_term does not panic, it equals the intended lookup except on those earlier positions |
| `UnstableProps.IntendedMaybeTermFindsEntry` | src/log_unstable.rs:5-7 | on a positioned buffer the intended lookup finds each buffered entry's term under its own index |
| `UnstableProps.MaybeTermPanicsWhereTestsExpectNone` | src/log_unstable.rs:238-248 | on the four test rows at lines 240, 241, 243 and 245 the code panics, while the intended lookup gives the `None` the test expects |
| `UnstableProps.MaybeTermTests` | src/log_unstable.rs:238-248 | the five remaining rows of the maybe_term test give the expected terms |
| `UnstableProps.MaybeFirstIndexTests` | src/log_unstable.rs:167-172 | the four rows of the maybe_first_index test |
| `UnstableProps.MaybeLastIndexTests` | src/log_unstable.rs:215-220 | the four rows of the maybe_last_index test |
| `UnstableProps.MergeScenarios` | src/log_unstable.rs:96-113 | on small buffers: plain extension, full supersession, and partial overlap that drops the old tail; stable_to with the right term and with a wrong term |

## Left out

- The `logger` field, the `fatal!` message formatting (`src/lib.rs:12-26`, `src/util.rs`) and the logging in the tests are left out. Only the abort condition of `fatal!` is kept, together with the values it reports.
- The test `test_default_loggger` calls a function that does not exist, so it has nothing to model.
- Entry and snapshot payloads and the snapshot's `conf_state` are left out. The buffer never reads them.
- The model does not capture u64 overflow. Positions are `nat`, so `offset + len`, `snap.index + 1` and `idx + 1` cannot wrap or panic on overflow as they could at `u64::MAX`.
- `UnstableSpec.Slice`: returns a copy of the entries, where the source returns a borrowed view into the vector. Nothing mutates the buffer while the view lives, so the contents are the same.
- The model does not capture in-place vector storage (`drain`, `clear`, `truncate`, `extend_from_slice`). The entries field is a sequence that each method reassigns.
- The source does not enforce the invariant that the snapshot stays below the entries. The full-supersession branch of `truncate_and_append` can break it when the run starts at or below the snapshot's index. `TruncateAndAppendPreservesValid` therefore assumes that the run starts after the snapshot.
- `src/raft_log.rs`, `src/storage.rs`, `src/raft.rs`, `src/main.rs` and the Go files are not part of this model. The first three hold only declarations, a diagnostic `to_string`, a one-method trait without an implementation, and a default role. `src/main.rs` sets up the logger. The Go files are MapReduce RPC plumbing and tests of code that is not present.
- Concurrency is not modelled. The buffer is used by a single owner.

## Findings

| source | as written | input that shows it | evidently intended | confidence | as-written member | corrected member |
|---|---|---|---|---|---|---|
| src/log_unstable.rs:45-62 | Below the offset, `maybe_term` unwraps a snapshot that may be absent. At or above the offset, it answers only for the last buffered position. It gives `None` for earlier buffered positions and indexes the vector out of range past the last one. | offset 5, entries `[{5, term 1}]`, no snapshot, idx 6 or idx 4 (test rows at lines 240 and 241): both panic. Entries `[{5,1},{6,1}]` at offset 5, idx 5: gives `None`. | `None` for unanswerable indices, as the test rows at lines 240, 241, 243 and 245 expect. The term of every buffered entry. | not executed | `UnstableProps.MaybeTermPanicsWhereTestsExpectNone` | `UnstableSpec.IntendedMaybeTerm` |

`UnstableSpec.IntendedMaybeTerm` never panics. It agrees with the code wherever the
code answers, except at earlier buffered positions (`MaybeTermAgreesWithIntended`,
`MaybeTermHidesEarlierEntries`). It finds every buffered entry by its index
(`IntendedMaybeTermFindsEntry`). `stable_to` still uses the lookup as written,
because that is what the code calls. `StableToDrainsWholeBuffer` states the result.
