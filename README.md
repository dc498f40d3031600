# Picture reordering and group-of-pictures scheduling (turingcodec `InputQueue`)

This project models the input queue of the turing HEVC encoder: the component that takes
pictures in display order and hands them to the encoder in coding order, each with a
*docket*. A docket holds the picture order count, the NAL unit type, the quantisation
offset and factor, the slice type and the reference deltas.

The queue is one sequential state machine, modelled as the class `Scheduling.InputQueue`
with the fields of the source's `InputQueue::State`:
- the preanalysis FIFO, the scheduling window and the timestamp queue, as sequences;
- the picture counter, the window's front picture order count, the next intra position,
  the end-of-input flag and the group size;
- the shot-change list.

Its operations:
- **Intake.** `Append` adds a picture. On the second picture it extends the timestamp queue
  backwards by three slots. `EndOfInput` marks the end of the input.
- **Preanalysis hand-off.** `Preanalyse` moves up to ten pictures into the window.
- **Planning.** `Process` works in three steps:
  - `AdvanceIdr` moves the next intra position (periodic, or from the shot-change list through
    `ComputeNextIdr`);
  - `PlanGroup` sizes the next group;
  - `CommitGroup` gives every position of the group a docket. The last position gets its
    docket from `EndGroup`. The interior gets dockets from the fixed tables (`Dockets.Pattern`,
    one per group size 2..7 and one for 8), applied row by row by `ApplyTable`/`CreateDocket`.
- **Release.** `GetDocket` defers while only one picture has arrived, takes the caller's
  shot-change flags and plans, then releases through `ReleaseNext`:
  - `ScanIntra` finds the intra docket that has priority;
  - `Release` picks the first entry that may go out;
  - `Retire` pops released entries;
  - finally the docket is stamped with the next decode timestamp.

The loops of the source are loops here, each proved against a specification function:
- the intra scan against `Release.IntraFrom`;
- the release scan against `Release.ReleaseFrom`;
- retirement against `Release.DonePrefix`;
- the next intra position against `Scheduling.NextIdrFrom`.

The properties of those functions are proved as lemmas. The window invariant `Valid()` is
preserved by every operation. It says:
- positive references point forward to docketed entries;
- dockets form a prefix;
- every released entry's later references were released first;
- intra dockets reference nothing later;
- dockets lie at or before the next intra position;
- references nest: a forward delta `d` > 1 of one entry is matched by the delta `d - 1` of
  the next entry (`Release.ForwardNested`), as the hierarchical tables lay them out;
- the window's front has not been released;
- the timestamp queue holds one timestamp for every picture not yet handed to the encoder
  (waiting in the preanalysis FIFO or unreleased in the window), plus the three slots the
  backward extension added once the second picture arrived (`TimestampSupply`).

NAL unit type values and the IRAP range (16..23) are those of Table 7-1 in section 7.4.2.2
of ITU-T H.265.

The file `hevc.dfy` holds those constants, `dockets.dfy` the docket construction and the
tables, `release.dfy` the release scans, and `inputqueue.dfy` the queue itself.

## Model

| member | source | states |
|---|---|---|
| Dockets.IsValidReference | turing/InputQueue.cpp:102-114 | A negative delta is always valid and zero never is. A positive delta is valid exactly when its target is below both the window length and the distance to the next intra position, and already has a docket. A negative distance to the intra position imposes no limit (the signed/unsigned comparison). |
| Dockets.AddReference | turing/InputQueue.cpp:52-56 | Adding a delta leaves every field but the reference sets unchanged. A negative delta joins `negative`, a positive one joins `positive`, and zero is dropped. |
| Dockets.AddValidReferences | turing/InputQueue.cpp:162-165 | Folding the deltas puts exactly the negative ones into `negative`. It puts exactly the valid positive ones into `positive`. Every other field is unchanged. |
| Dockets.NewDocket | turing/InputQueue.cpp:150-170 | The docket for position `i`: poc = front + i - 1, the given NAL type, qp offset and factor, the current group size. The slice type is I iff the NAL type is IRAP. `negative` holds all negative deltas. `positive` holds the valid positive ones, each landing on a docketed entry inside the window. No picture or timestamp yet. |
| Dockets.Pattern | turing/InputQueue.cpp:230-281 | The table for group size 2..8 has one row per interior position, g - 1 rows, each assigning a position in 1..g-1. Other sizes have no table. |
| Dockets.PatternCoversInterior | turing/InputQueue.cpp:230-281 | For every group size 2..8, the table's rows assign each interior position 1..g-1 exactly once. |
| Dockets.PatternReferencesResolve | turing/InputQueue.cpp:230-281 | For every group size 2..8, each positive delta of a row targets the group's last position or a position an earlier row of the same table assigned. |
| Dockets.PatternNested | turing/InputQueue.cpp:230-281 | For every group size 2..8, when one row assigns the position right after another row's, every forward delta `d` > 1 of the earlier row appears as `d - 1` in the later one, and when the earlier row is applied later, no row applied in between assigns its target. |
| Dockets.AssignedHasRows | turing/InputQueue.cpp:230-281 | The positions docketed by the first `j` rows are exactly the row positions among those rows that lie within `max`. |
| Dockets.PositionsHaveRows | turing/InputQueue.cpp:230-281 | A position is in a table's position set iff some row from index `i` on has it. |
| Release.IntraFrom | turing/InputQueue.cpp:364-375 | The intra scan returns its start value or an intra docket within the first `size` entries. Every entry up to that one is docketed and not released. |
| Release.IntraFromFindsLast | turing/InputQueue.cpp:364-375 | The scan keeps overwriting its result: any intra docket reached through docketed, unreleased entries is at or before the returned index. |
| Release.PendingIntra | turing/InputQueue.cpp:364-375 | The prioritised entry is -1 or an intra docket among the first eight entries, preceded only by docketed, unreleased entries. Every such entry is at or before it, so it is the last one. |
| Release.ReleaseFrom | turing/InputQueue.cpp:377-403 | The scan selects the first docketed entry that the release rule accepts, with every earlier one rejected, and keeps that entry's docket. When it runs off the end of the window it keeps the last docket it examined. |
| Release.SelectRelease | turing/InputQueue.cpp:377-403 | The release scan of one call: whatever it selects is a docketed entry of the window that passes the release rule against the prioritised intra entry, and it keeps that entry's docket. |
| Release.Handed | turing/InputQueue.cpp:396-399 | The docket handed over carries the selected entry's picture and quantisation info and is otherwise the scanned docket. Without a selection it is the docket the scan kept. |
| Release.ScanReachesIntra | turing/InputQueue.cpp:389-393 | With a prioritised intra entry, the scan selects exactly that entry. |
| Release.ScanFindsEligible | turing/InputQueue.cpp:384-389 | Without a prioritised intra entry, a scan starting at a docketed entry of a well-formed window always selects something. |
| Release.ReleaseRule | turing/InputQueue.cpp:364-403 | When the front has a docket, exactly one entry is selected: the pending intra entry if any. Every later picture it references is already released. |
| Release.NothingPlannedNothingReleased | turing/InputQueue.cpp:378-382 | An empty window or an undocketed front releases nothing and stamps nothing. |
| Release.NestedPredecessorReady | turing/InputQueue.cpp:384-403 | In a window with docketed prefix, released entries released in order and nested references, the unreleased entry right before a released one has all its later references released. |
| Release.ScanStopsBeforeReleased | turing/InputQueue.cpp:384-403 | When every released entry follows a released or ready one, the scan from an unreleased entry selects an unreleased entry. |
| Release.NoSecondRelease | turing/InputQueue.cpp:377-403 | In a valid window with an unreleased, docketed front, the entry released was not released before and the docket handed over carries a picture. |
| Release.ClearPicture | turing/InputQueue.cpp:395-400 | Releasing clears the picture of the selected entry only. The window length and every other entry are unchanged. |
| Release.ClearPictureKeepsOrder | turing/InputQueue.cpp:395-400 | Releasing an eligible entry keeps every released entry after the pictures it references. |
| Release.ClearPictureKeepsWindow | turing/InputQueue.cpp:395-400 | Releasing changes no docket, so the reference, prefix, nesting and intra invariants hold. |
| Release.DonePrefix | turing/InputQueue.cpp:405-409 | The retirement count covers exactly the released entries at the front: all before it released, the one at it not. |
| Release.RetireKeepsWindow | turing/InputQueue.cpp:405-409 | Popping released entries off the front keeps the window invariants. |
| Release.ExtendKeepsWindow | turing/InputQueue.cpp:341-345 | Appending undocketed pictures to the window keeps the window invariants. |
| Release.Undone | turing/InputQueue.cpp:46-49 | The number of window entries whose picture has not been handed over, at most the window length. |
| Release.ClearPictureUndone | turing/InputQueue.cpp:395-400 | Handing over the picture of an unreleased entry leaves exactly one entry fewer with a picture. |
| Release.RetireUndone | turing/InputQueue.cpp:405-409 | Popping released entries from the front keeps the number of entries with a picture. |
| Release.ExtendUndone | turing/InputQueue.cpp:341-345 | Appending pictures to the window adds each of them to the entries with a picture. |
| Release.SamePicturesUndone | turing/InputQueue.cpp:150-170 | Changing dockets only keeps the number of entries with a picture. |
| Scheduling.ShotIndexMonotonic | turing/InputQueue.cpp:124-125 | The shot-change list index (halved for field coding, clamped at 0) never decreases as the picture number grows. |
| Scheduling.NextIdrFrom | turing/InputQueue.cpp:118-136 | The search from picture `i` returns the default or a flagged picture in [i, default). |
| Scheduling.NextIdrIsFirstCut | turing/InputQueue.cpp:118-136 | The next intra position is the first flagged picture in [front, default) or the default. No picture before it is a cut. Running past the end of the list finds none. |
| Scheduling.GroupSize | turing/InputQueue.cpp:188-209 | The group size is at most the base size and the distance to the next intra position. At end of input it is also at most the pictures left. It equals one of those bounds. The group ends in an intra picture iff it reaches the intra position. It has no end picture iff the input ended short of both bounds. |
| Scheduling.FirstGroupIsIdr | turing/InputQueue.cpp:193-209 | With front and intra position both 0, the first group has size one and ends in an intra picture, whatever the base size and however many pictures wait. |
| Scheduling.Table | turing/InputQueue.cpp:230-281 | While input is open and the group has 2..8 pictures, the table has g - 1 rows, all inside the group. At end of input or for size 8 it has the 7 rows of the size-8 table. |
| Scheduling.KeptNested | turing/InputQueue.cpp:162-165 | Nesting survives the reference filter: when row `b` assigns the position after row `a`'s, every kept delta `d` > 1 of `a` is kept by `b` as `d - 1`. |
| Scheduling.TableFacts | turing/InputQueue.cpp:230-281 | The table chosen for a group has positive positions, no position twice, covers the interior, and nests. Except in a short final group it resolves every positive delta inside the group. |
| Scheduling.GroupFromParts | turing/InputQueue.cpp:211-281 | The end docket plus the table applied to the interior commit the group: positions 0..g-1 docketed with poc = front + k and group size g, each interior position with exactly its row's kept deltas. Later entries are unchanged. Dockets still form a prefix and references nest. |
| Scheduling.GroupNested | turing/InputQueue.cpp:230-281 | A group committed from a nested table has nested references. |
| Scheduling.ReleaseKeepsValid | turing/InputQueue.cpp:395-400 | Releasing the scanned entry keeps all window invariants. |
| Scheduling.RetireKeepsBound | turing/InputQueue.cpp:405-409 | Retiring released entries keeps the front at most one past the next intra position, and dockets before it. |
| Scheduling.InputQueue.constructor | turing/InputQueue.cpp:140-144 | A new queue is empty, with counters at 0 and input open, and satisfies the invariant. |
| Scheduling.InputQueue.Append | turing/InputQueue.cpp:285-304 | Adds the picture to the preanalysis FIFO and counts it. Adds its timestamp. On the second picture the queue becomes t0-3p, t0-2p, t0-p, t0, t1 with p = t1 - t0. |
| Scheduling.InputQueue.EndOfInput | turing/InputQueue.cpp:307-310 | Sets the end-of-input flag, which `Eos` then reports; the invariant holds. |
| Scheduling.InputQueue.Preanalyse | turing/InputQueue.cpp:312-347 | When ten pictures wait or input has ended, moves min(n, 10) pictures, in order, from the FIFO's front to the window's back. Otherwise changes nothing. The invariant, timestamp supply included, holds. |
| Scheduling.InputQueue.MoveToWindow | turing/InputQueue.cpp:341-345 | The loop moves the first `n` pictures of the FIFO, in order, to the back of the window and leaves the rest in the FIFO. |
| Scheduling.InputQueue.SetShotChangeList | turing/InputQueue.cpp:117 | A non-empty list is swapped with the current one; an empty list changes nothing. |
| Scheduling.InputQueue.ComputeNextIdr | turing/InputQueue.cpp:118-136 | The loop returns the first flagged picture in [front, default), or the default. |
| Scheduling.InputQueue.CreateDocket | turing/InputQueue.cpp:150-170 | When i <= max, only entry i-1's docket changes, to the docket built from the arguments. Otherwise nothing changes. |
| Scheduling.InputQueue.ApplyRow | turing/InputQueue.cpp:150-170 | Applying one row dockets its position within `max` with the row's NAL type, qp offset and factor, negative deltas and exactly the positive deltas that land inside the limit on an already docketed position. Pictures and other entries are unchanged. |
| Scheduling.InputQueue.ApplyTable | turing/InputQueue.cpp:230-281 | Applying the rows in order dockets every row position up to max as its row says, keeping exactly the positive deltas whose target was docketed before it. Pictures and unassigned entries are unchanged. When every delta resolves, every positive delta is kept. |
| Scheduling.InputQueue.Process | turing/InputQueue.cpp:173-209 | No-op on an empty window or a docketed front. Otherwise it advances the intra position. It fails iff the base group size is not 1 or 8. It sets the group size, changes nothing when the window is too short, and otherwise commits the group with the table the source picks. The very first group is a single IDR_N_LP intra picture. |
| Scheduling.InputQueue.AdvanceIdr | turing/InputQueue.cpp:177-186 | The intra position is unchanged unless the front passed it. Then it grows by the intra period, or moves to the first cut before that. |
| Scheduling.InputQueue.PlanGroup | turing/InputQueue.cpp:188-281 | The group size is GroupSize. A short window is unchanged; otherwise the group is committed with its table. At front 0 with intra position 0 the group is one IDR_N_LP intra picture. |
| Scheduling.InputQueue.CommitGroup | turing/InputQueue.cpp:211-281 | Picks the table as the source does (the size's own while input is open and g < 8, else the size-8 one) and gives every position of the group its docket: the end one from the end kind (with its qp factor 0.4420), the interior from the table with exactly the kept deltas, with RASL types before an intra end. |
| Scheduling.InputQueue.EndGroup | turing/InputQueue.cpp:211-228 | The end docket is CRA, or IDR_N_LP at front 0, with qp offset 0, qp factor 0.4420 and reference -g before an intra point. Otherwise it is TRAIL_R with qp offset 1, qp factor 0.4420 and reference -g, or nothing in a short final group. The interior's NAL types and range follow. |
| Scheduling.InputQueue.ReleaseNext | turing/InputQueue.cpp:364-417 | The window becomes the released window minus its released front. The front advances by that count and is not a released entry. A docket is returned iff the front had one, and it carries a picture. A returned docket carries the old front timestamp, which always exists, and exactly one timestamp is popped. |
| Scheduling.InputQueue.Release | turing/InputQueue.cpp:377-403 | The scan loop selects as SelectRelease does, clears that entry's picture, and returns the docket carrying the picture. A docket is returned iff the front had one. |
| Scheduling.InputQueue.ScanIntra | turing/InputQueue.cpp:364-375 | The loop returns the prioritised intra entry, as PendingIntra. |
| Scheduling.InputQueue.Encodable | turing/InputQueue.cpp:384-393 | The check over the positive references plus the intra override equals the release rule CanEncode. |
| Scheduling.InputQueue.Retire | turing/InputQueue.cpp:405-409 | Pops exactly the released front entries and advances the front by that count. The new front is not released. |
| Scheduling.InputQueue.GetDocket | turing/InputQueue.cpp:356-418 | Defers while one picture has arrived and input is open: nothing changes, the shot-change lists and group size included. It fails iff a group must be planned with a base size other than 1 or 8. A returned docket carries a picture and the old front timestamp, which always exists and is popped. The invariant holds. |

## Left out

- turing/signature.cpp is not part of this model: it is an integration test driver made of file I/O, hashing and calls into the whole encoder and decoder.
- The pixel sum and console print inside `preanalyse` are left out; they have no effect on scheduling.
- Pictures, adaptive quantisation and lookahead results are opaque ids. `qpFactor` is a real literal that is only stored.
- Scheduling.InputQueue.ReleaseNext: the released docket and the window entry share one object in the source. So the picture, quantisation info and decode timestamp also appear on the entry's docket. The model copies the docket and does not reflect that sharing.
- The `FORCE_P_SLICES` build option (turing/InputQueue.cpp:106-108) is not modelled; the default build is.
- The exception for a base group size other than 1 or 8 is an error result (`ok == false` from Process, `Failure` from GetDocket). As in the source, the intra position and group size are already updated at that point.
- The `sequence` number stored with each timestamp is never read and is left out.
- Scheduling.InputQueue.GetDocket: the release and planning details are stated by the contracts of ReleaseNext and Process, which it calls in turn; its own contract states deferral, failure, the handed picture and stamping.
- Integer widths are not modelled. Picture counts and picture order counts are unbounded integers, and overflow of the source's `int` and `size_t` counters is out of scope.
- The queue's own shot-change list (`m_shotChangeList` of `InputQueue`) has no writer in turing/InputQueue.cpp. It is modelled as a field that only the swap in GetDocket touches.
