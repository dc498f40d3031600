/**
 * The input queue of the encoder: pictures arrive in display order, wait in a
 * preanalysis FIFO, move in batches into the scheduling window, are given
 * dockets one group of pictures at a time, and leave in an encode order that
 * respects the references between them, each stamped with a decode timestamp.
 */
module Scheduling {
  import opened Optional
  import opened Hevc
  import opened Dockets
  import opened Release

  /** The decode-timestamp delay: slots prepended on the second picture. */
  const REORDER_DELAY: nat := 3

  /** The preanalysis batch size. */
  const BATCH: nat := 10

  /** The only error the planner raises: a base group size other than 1 or 8. */
  datatype ConfigError = MaxGopMNotOneOrEight

  /** The shot-change list entry consulted for picture `i`: `i >> 1` when field coding, clamped at 0. */
  function ShotIndex(i: int, fieldCoding: bool): int
  {
    var index := if fieldCoding then i / 2 else i;
    if index < 0 then 0 else index
  }

  /** Picture `i` is a shot change that may start an intra period. */
  predicate IsCut(list: seq<int>, i: int, fieldCoding: bool)
  {
    && ShotIndex(i, fieldCoding) < |list|
    && i % (if fieldCoding then 2 else 1) == 0
    && list[ShotIndex(i, fieldCoding)] != 0
  }

  /** The scan for the next intra position, from picture `i` on, up to the periodic default. */
  function NextIdrFrom(list: seq<int>, i: int, nextDefaultIdr: int, fieldCoding: bool): (r: int)
    decreases nextDefaultIdr - i
    ensures r == nextDefaultIdr || (i <= r < nextDefaultIdr && IsCut(list, r, fieldCoding))
  {
    if i >= nextDefaultIdr then nextDefaultIdr
    else if ShotIndex(i, fieldCoding) >= |list| then nextDefaultIdr
    else if IsCut(list, i, fieldCoding) then i
    else NextIdrFrom(list, i + 1, nextDefaultIdr, fieldCoding)
  }

  lemma ShotIndexMonotonic(i: int, j: int, fieldCoding: bool)
    requires i <= j
    ensures ShotIndex(i, fieldCoding) <= ShotIndex(j, fieldCoding)
  {
  }

  /**
   * The scan yields the first shot change in [i, nextDefaultIdr), or the
   * periodic default when there is none; a scan that runs past the end of the
   * list finds none, since later pictures map to later list entries.
   */
  lemma {:induction false} NextIdrIsFirstCut(list: seq<int>, i: int, nextDefaultIdr: int, fieldCoding: bool)
    ensures var r := NextIdrFrom(list, i, nextDefaultIdr, fieldCoding);
      && (r == nextDefaultIdr || (i <= r < nextDefaultIdr && IsCut(list, r, fieldCoding)))
      && forall j :: i <= j < r && j < nextDefaultIdr ==> !IsCut(list, j, fieldCoding)
    decreases nextDefaultIdr - i
  {
    if i >= nextDefaultIdr {
    } else if ShotIndex(i, fieldCoding) >= |list| {
      forall j | i <= j < nextDefaultIdr
        ensures !IsCut(list, j, fieldCoding)
      {
        ShotIndexMonotonic(i, j, fieldCoding);
      }
    } else if IsCut(list, i, fieldCoding) {
    } else {
      NextIdrIsFirstCut(list, i + 1, nextDefaultIdr, fieldCoding);
    }
  }

  /** Which docket the last position of a group receives: intra ('I'), trailing ('P') or none (0). */
  datatype LastPicture = IntraPicture | TrailingPicture | NoLastPicture

  /**
   * The size of the group to plan, from the base size `maxGopM`, the number of
   * `available` pictures when the input has ended, and the distance to the next
   * intra picture plus one, `gopSizeIdr`; and what ends the group.
   */
  function GroupSize(maxGopM: int, finish: bool, available: int, gopSizeIdr: int): (r: (int, LastPicture))
    ensures r.0 <= maxGopM && r.0 <= gopSizeIdr && (finish ==> r.0 <= available)
    ensures r.0 == maxGopM || r.0 == gopSizeIdr || (finish && r.0 == available)
    ensures r.1 == IntraPicture <==> r.0 == gopSizeIdr
    ensures r.1 == NoLastPicture <==> finish && available < maxGopM && available < gopSizeIdr
  {
    var (g, last) := if finish && available < maxGopM then (available, NoLastPicture) else (maxGopM, TrailingPicture);
    if gopSizeIdr <= g then (gopSizeIdr, IntraPicture) else (g, last)
  }

  /**
   * The first group: with the window front and the next intra position both
   * at 0, whatever the window holds, the group is the single intra picture at
   * the front.
   */
  lemma FirstGroupIsIdr(maxGopM: int, finish: bool, available: int)
    requires maxGopM == 1 || maxGopM == 8
    requires available >= 1
    ensures GroupSize(maxGopM, finish, available, IntraReach(0, 0)) == (1, IntraPicture)
  {
  }

  /** The table applied to the interior of a group of `g` pictures. */
  function Table(finish: bool, g: int): (rows: seq<Row>)
    ensures !finish && 2 <= g <= 8 ==> |rows| == g - 1 && forall j :: 0 <= j < |rows| ==> rows[j].pos < g
    ensures finish || g == 8 ==> |rows| == 7
  {
    if !finish && g != 8 then Pattern(g) else Pattern(8)
  }

  /**
   * The next intra position after the planner looked at it: unchanged while
   * the front has not passed it, otherwise one intra period further on, or,
   * with shot-change detection, the first cut before that.
   */
  ghost predicate IdrAdvanced(idr0: int, idr: int, front: int, maxGopN: int, shotChange: bool,
                              list: seq<int>, fieldCoding: bool)
  {
    && (idr0 >= front ==> idr == idr0)
    && (idr0 < front && !shotChange ==> idr == idr0 + maxGopN)
    && (idr0 < front && shotChange ==> idr == NextIdrFrom(list, front, idr0 + maxGopN, fieldCoding))
  }

  /**
   * The docket created for a table row: it keeps exactly the positive deltas
   * whose target lies below `limit` (the window size, capped by the distance
   * to the next intra picture plus one) and is in `docketed`, the positions
   * that had a docket when the row was applied.
   */
  ghost predicate RowApplied(d: Option<Docket>, row: Row, front: int, gopSize: int, nutR: int, nutN: int,
                             limit: int, docketed: set<int>)
  {
    && d.Some?
    && d.value.poc == front + row.pos - 1
    && d.value.nut == (if row.reference then nutR else nutN)
    && d.value.qpOffset == row.qpOffset && d.value.qpFactor == row.qpFactor
    && d.value.currentGopSize == gopSize
    && d.value.sliceType == B
    && d.value.negative == Negatives(row.refs)
    && d.value.positive == Kept(row, limit, docketed)
  }

  /**
   * The positive deltas of a row that the filter keeps: those whose target
   * lies below `limit` and is in `docketed`.
   */
  ghost function Kept(row: Row, limit: int, docketed: set<int>): set<int>
  {
    set x | x in Positives(row.refs) && row.pos - 1 + x < limit && row.pos + x in docketed
  }

  /**
   * Nesting in a table carries over to the deltas kept: when row `b` assigns
   * the position right after row `a`'s, a kept delta of `a` beyond `b`'s
   * position is a kept delta of `b`, one less.
   */
  lemma KeptNested(rows: seq<Row>, a: int, b: int, max: int, limit: int, ends: set<int>, x: int)
    requires TableNested(rows)
    requires 0 <= a < |rows| && 0 <= b < |rows| && rows[b].pos == rows[a].pos + 1
    requires x in Kept(rows[a], limit, Assigned(rows, a, max) + ends) && x != 1
    ensures x - 1 in Kept(rows[b], limit, Assigned(rows, b, max) + ends)
  {
    var t := rows[a].pos + x;
    assert x in rows[a].refs && x > 1;
    assert x - 1 in rows[b].refs;
    if t !in ends {
      AssignedHasRows(rows, a, max);
      var c :| 0 <= c < a && rows[c].pos == t && t <= max;
      AssignedHasRows(rows, b, max);
      assert c < b;
    }
  }


  /** The intra docket that ends a group of `g` pictures: IDR for the very first group, CRA after. */
  ghost predicate IntraDocket(d: Docket, g: int, front: int)
  {
    && d.nut == (if front != 0 then CRA_NUT else IDR_N_LP)
    && d.qpOffset == 0 && d.qpFactor == 0.4420 && d.sliceType == I
    && d.negative == {-g} && d.positive == {}
  }

  /** The trailing reference docket that ends an ordinary group of `g` pictures. */
  ghost predicate TrailingDocket(d: Docket, g: int)
  {
    && d.nut == TRAIL_R && d.qpOffset == 1 && d.qpFactor == 0.4420 && d.sliceType == B
    && d.negative == {-g} && d.positive == {}
  }

  /** Only dockets changed: same length, same pictures, same annotations. */
  ghost predicate SameFrames(es: seq<Piece>, es0: seq<Piece>)
  {
    |es| == |es0| && forall k :: 0 <= k < |es| ==> es[k].picture == es0[k].picture && es[k].aq == es0[k].aq
  }

  /** Entries that no row among the first `j` (up to `max`) assigns are as they were. */
  ghost predicate UntouchedOutside(es: seq<Piece>, es0: seq<Piece>, rows: seq<Row>, j: int, max: int)
    requires 0 <= j <= |rows|
  {
    forall k :: 0 <= k < |es| && k < |es0| && (forall j' :: 0 <= j' < j && rows[j'].pos <= max ==> rows[j'].pos != k + 1) ==>
      es[k] == es0[k]
  }

  /**
   * The first `j` rows (up to `max`) have their dockets; `ends` holds the
   * positions that had a docket before the table was applied.
   */
  ghost predicate RowsApplied(es: seq<Piece>, rows: seq<Row>, j: int, max: int, front: int, g: int, nutR: int, nutN: int,
                              limit: int, ends: set<int>)
    requires 0 <= j <= |rows|
  {
    forall j' :: 0 <= j' < j && rows[j'].pos <= max ==>
      && 1 <= rows[j'].pos <= |es|
      && RowApplied(es[rows[j'].pos - 1].docket, rows[j'], front, g, nutR, nutN, limit, Assigned(rows, j', max) + ends)
  }

  /** The entries with a docket are those at the positions in `ends` and those the first `j` rows assigned. */
  ghost predicate DocketedExactly(es: seq<Piece>, rows: seq<Row>, j: int, max: int, ends: set<int>)
    requires 0 <= j <= |rows|
  {
    forall k :: 0 <= k < |es| ==> (es[k].docket.Some? <==> k + 1 in Assigned(rows, j, max) + ends)
  }

  /**
   * The number of window positions from the front (picture order count
   * `front`) up to and including the next intra picture (`idr`).
   */
  function IntraReach(front: int, idr: int): int
  {
    idr - front + 1
  }

  /** How far forward a reference may reach: the window size, capped by a non-negative `offset`. */
  function ReferenceLimit(size: int, offset: int): (limit: int)
    ensures limit <= size && (offset >= 0 ==> limit <= offset)
    ensures limit == size || limit == offset
  {
    if offset >= 0 && size > offset then offset else size
  }

  /** The first `j` rows kept every positive delta they list. */
  ghost predicate RowsExact(es: seq<Piece>, rows: seq<Row>, j: int)
    requires 0 <= j <= |rows|
  {
    forall j' :: 0 <= j' < j ==>
      && 1 <= rows[j'].pos <= |es| && es[rows[j'].pos - 1].docket.Some?
      && es[rows[j'].pos - 1].docket.value.positive == Positives(rows[j'].refs)
  }

  /**
   * A table applied to the interior 1..max of a group of max + 1 pictures
   * whose last position already has a docket, with every delta resolving.
   */
  ghost predicate Resolving(rows: seq<Row>, max: int, es: seq<Piece>, offset: int)
  {
    && ReferencesResolve(rows, 0, {}, max + 1)
    && 0 <= max < |es| && es[max].docket.Some?
    && max < offset
    && forall j :: 0 <= j < |rows| ==> 1 <= rows[j].pos <= max
  }

  /** The loop state of a resolving application after `j` rows, `seen` being their positions. */
  ghost predicate ResolvingFrom(rows: seq<Row>, j: int, seen: set<int>, max: int, es: seq<Piece>)
    requires 0 <= j <= |rows|
  {
    && ReferencesResolve(rows, j, seen, max + 1)
    && 0 <= max < |es| && es[max].docket.Some?
    && (forall p :: p in seen ==> 1 <= p <= max && es[p - 1].docket.Some?)
    && RowsExact(es, rows, j)
  }

  /** The window after row `r` of a table is applied up to `max`. */
  function AfterRow(es: seq<Piece>, r: Row, max: int, front: int, offset: int, g: int, nutR: int, nutN: int): seq<Piece>
    requires r.pos >= 1 && max <= |es|
  {
    if r.pos <= max then
      es[r.pos - 1 := es[r.pos - 1].(docket := Some(
        NewDocket(es, front, offset, g, r.pos, if r.reference then nutR else nutN, r.qpOffset, r.qpFactor, r.refs)))]
    else es
  }

  /** One row of ApplyTable changes no picture and nothing outside its position. */
  lemma StepFrames(es: seq<Piece>, es0: seq<Piece>, rows: seq<Row>, j: int,
                   max: int, front: int, offset: int, g: int, nutR: int, nutN: int)
    requires 0 <= j < |rows| && rows[j].pos >= 1 && max <= |es|
    requires SameFrames(es, es0) && UntouchedOutside(es, es0, rows, j, max)
    ensures var es' := AfterRow(es, rows[j], max, front, offset, g, nutR, nutN);
      SameFrames(es', es0) && UntouchedOutside(es', es0, rows, j + 1, max)
  {
  }

  /** One row of ApplyTable gives its position a docket and no other. */
  lemma StepDocketed(es: seq<Piece>, rows: seq<Row>, j: int, max: int, ends: set<int>,
                     front: int, offset: int, g: int, nutR: int, nutN: int)
    requires 0 <= j < |rows| && rows[j].pos >= 1 && max <= |es|
    requires DocketedExactly(es, rows, j, max, ends)
    ensures DocketedExactly(AfterRow(es, rows[j], max, front, offset, g, nutR, nutN), rows, j + 1, max, ends)
  {
  }

  /**
   * One row of ApplyTable adds its docket and keeps those of the earlier rows;
   * the filter keeps exactly the deltas that reach a position with a docket
   * below the limit.
   */
  lemma StepApplied(es: seq<Piece>, rows: seq<Row>, j: int, max: int, ends: set<int>,
                    front: int, offset: int, g: int, nutR: int, nutN: int)
    requires 0 <= j < |rows| && max <= |es| && offset >= 0
    requires forall i :: 0 <= i < |rows| ==> rows[i].pos >= 1
    requires forall i, k :: 0 <= i < k < |rows| ==> rows[i].pos != rows[k].pos
    requires !IsIrap(nutR) && !IsIrap(nutN)
    requires DocketedExactly(es, rows, j, max, ends)
    requires RowsApplied(es, rows, j, max, front, g, nutR, nutN, ReferenceLimit(|es|, offset), ends)
    ensures RowsApplied(AfterRow(es, rows[j], max, front, offset, g, nutR, nutN), rows, j + 1, max, front, g, nutR, nutN,
                        ReferenceLimit(|es|, offset), ends)
  {
    var r := rows[j];
    if r.pos <= max {
      var limit := ReferenceLimit(|es|, offset);
      var docketed := Assigned(rows, j, max) + ends;
      var d := NewDocket(es, front, offset, g, r.pos, if r.reference then nutR else nutN, r.qpOffset, r.qpFactor, r.refs);
      forall x | x in Positives(r.refs)
        ensures IsValidReference(es, offset, r.pos, x) <==> r.pos - 1 + x < limit && r.pos + x in docketed
      {
        if r.pos - 1 + x < limit {
          assert es[r.pos - 1 + x].docket.Some? <==> r.pos + x in docketed;
        }
      }
      assert d.positive == Kept(r, limit, docketed);
    }
  }

  /** In a resolving application, one row keeps all its positive deltas and those of the earlier rows. */
  lemma StepResolving(es: seq<Piece>, es0: seq<Piece>, rows: seq<Row>, j: int, seen: set<int>,
                      max: int, front: int, offset: int, g: int, nutR: int, nutN: int)
    requires 0 <= j < |rows| && max <= |es|
    requires forall i, k :: 0 <= i < k < |rows| ==> rows[i].pos != rows[k].pos
    requires Resolving(rows, max, es0, offset) && ResolvingFrom(rows, j, seen, max, es)
    ensures ResolvingFrom(rows, j + 1, seen + {rows[j].pos}, max, AfterRow(es, rows[j], max, front, offset, g, nutR, nutN))
  {
    var r := rows[j];
    forall x | x in Positives(r.refs)
      ensures IsValidReference(es, offset, r.pos, x)
    {
      assert x in r.refs && x > 0;
    }
  }

  /**
   * What the planner guarantees about a committed group of `g` pictures whose
   * window was `es0` before and is `es` after: every position 0..g-1 has a
   * docket with the right picture order count, the last position gets the
   * docket `last` calls for, the interior follows the table for the group
   * (`Table(finish, g)`), each interior docket keeping the positive deltas
   * that reach the group's last position or one an earlier row assigned (below
   * the reference limit set by `offset`), and, unless the group is a short one
   * at the end of input, no positive reference of the table is dropped.
   */
  ghost predicate GroupCommitted(es: seq<Piece>, es0: seq<Piece>, g: int, last: LastPicture, front: int,
                                 finish: bool, offset: int)
  {
    var rows := Table(finish, g);
    var interior := if last == NoLastPicture then g else g - 1;
    var nutR := if last == IntraPicture then RASL_R else TRAIL_R;
    var nutN := if last == IntraPicture then RASL_N else TRAIL_N;
    && 1 <= g <= |es|
    && SameFrames(es, es0)
    && (forall k :: g <= k < |es| ==> es[k] == es0[k])
    && (forall k :: 0 <= k < g ==>
          && es[k].docket.Some?
          && es[k].docket.value.poc == front + k
          && es[k].docket.value.currentGopSize == g)
    && (last == IntraPicture ==> IntraDocket(es[g - 1].docket.value, g, front))
    && (last == TrailingPicture ==> TrailingDocket(es[g - 1].docket.value, g))
    && RowsApplied(es, rows, |rows|, interior, front, g, nutR, nutN, ReferenceLimit(|es0|, offset),
                   if last == NoLastPicture then {} else {g})
    && (!finish || g == 8 ==> RowsExact(es, rows, |rows|))
  }

  /**
   * The window `es` after the docket that ends a group of `g` pictures was
   * created in `es0`: only position g - 1 changed, and it holds the docket
   * `last` calls for (nothing changes for NoLastPicture).
   */
  ghost predicate LastCommitted(es: seq<Piece>, es0: seq<Piece>, g: int, last: LastPicture, front: int)
  {
    && 1 <= g <= |es|
    && SameFrames(es, es0)
    && (forall k :: 0 <= k < |es| && k != g - 1 ==> es[k] == es0[k])
    && (last == NoLastPicture ==> es == es0)
    && (last != NoLastPicture ==>
          && es[g - 1].docket.Some?
          && es[g - 1].docket.value.poc == front + g - 1
          && es[g - 1].docket.value.currentGopSize == g)
    && (last == IntraPicture ==> IntraDocket(es[g - 1].docket.value, g, front))
    && (last == TrailingPicture ==> TrailingDocket(es[g - 1].docket.value, g))
  }

  /** The docket a table row left behind. */
  lemma AppliedRow(es: seq<Piece>, rows: seq<Row>, j: int, max: int, front: int, g: int, nutR: int, nutN: int,
                    limit: int, ends: set<int>)
    requires 0 <= j < |rows| && rows[j].pos <= max
    requires RowsApplied(es, rows, |rows|, max, front, g, nutR, nutN, limit, ends)
    ensures 1 <= rows[j].pos <= |es|
    ensures var d := es[rows[j].pos - 1].docket;
      d.Some? && d.value.poc == front + rows[j].pos - 1 && d.value.currentGopSize == g
  {
    assert RowApplied(es[rows[j].pos - 1].docket, rows[j], front, g, nutR, nutN, limit, Assigned(rows, j, max) + ends);
  }

  /** Past the table's reach, the window is as the last docket left it. */
  lemma GroupTail(es0: seq<Piece>, es1: seq<Piece>, es: seq<Piece>, rows: seq<Row>,
                  g: int, last: LastPicture, front: int, max: int)
    requires LastCommitted(es1, es0, g, last, front)
    requires max == (if last == NoLastPicture then g else g - 1)
    requires SameFrames(es, es1)
    requires UntouchedOutside(es, es1, rows, |rows|, max)
    ensures forall k :: max <= k < |es| ==> es[k] == es1[k]
    ensures forall k :: g <= k < |es| ==> es[k] == es0[k]
  {
    forall k | max <= k < |es|
      ensures es[k] == es1[k]
    {
      assert forall j' :: 0 <= j' < |rows| && rows[j'].pos <= max ==> rows[j'].pos != k + 1;
    }
  }

  /** Every position of the group has a docket with its picture order count and the group size. */
  lemma GroupDockets(es1: seq<Piece>, es: seq<Piece>, rows: seq<Row>,
                     g: int, last: LastPicture, front: int, max: int, nutR: int, nutN: int,
                     limit: int, ends: set<int>)
    requires 1 <= g <= |es| == |es1|
    requires max == (if last == NoLastPicture then g else g - 1)
    requires last != NoLastPicture ==>
      && es[g - 1] == es1[g - 1] && es1[g - 1].docket.Some?
      && es1[g - 1].docket.value.poc == front + g - 1 && es1[g - 1].docket.value.currentGopSize == g
    requires forall p :: 1 <= p <= max ==> p in Positions(rows)
    requires RowsApplied(es, rows, |rows|, max, front, g, nutR, nutN, limit, ends)
    ensures forall k :: 0 <= k < g ==>
      && es[k].docket.Some?
      && es[k].docket.value.poc == front + k
      && es[k].docket.value.currentGopSize == g
  {
    PositionsHaveRows(rows, 0);
    forall k | 0 <= k < g
      ensures es[k].docket.Some? && es[k].docket.value.poc == front + k
      ensures es[k].docket.value.currentGopSize == g
    {
      if k + 1 <= max {
        assert k + 1 in Positions(rows);
        var j :| 0 <= j < |rows| && rows[j].pos == k + 1;
        AppliedRow(es, rows, j, max, front, g, nutR, nutN, limit, ends);
      }
    }
  }

  /**
   * A group is committed once its last docket is in place and the table has
   * been applied to the interior, provided the table covers the interior; its
   * references nest when the table's do.
   */
  lemma GroupFromParts(es0: seq<Piece>, es1: seq<Piece>, es: seq<Piece>, rows: seq<Row>,
                       g: int, last: LastPicture, front: int, finish: bool, offset: int,
                       max: int, nutR: int, nutN: int, ends: set<int>)
    requires rows == Table(finish, g)
    requires max == (if last == NoLastPicture then g else g - 1)
    requires nutR == (if last == IntraPicture then RASL_R else TRAIL_R)
    requires nutN == (if last == IntraPicture then RASL_N else TRAIL_N)
    requires ends == (if last == NoLastPicture then {} else {g})
    requires forall k :: 0 <= k < |es0| ==> es0[k].docket.None? && es0[k].picture.Some?
    requires LastCommitted(es1, es0, g, last, front)
    requires forall p :: 1 <= p <= max ==> p in Positions(rows)
    requires SameFrames(es, es1)
    requires UntouchedOutside(es, es1, rows, |rows|, max)
    requires RowsApplied(es, rows, |rows|, max, front, g, nutR, nutN, ReferenceLimit(|es1|, offset), ends)
    requires !finish || g == 8 ==> RowsExact(es, rows, |rows|)
    requires TableNested(rows)
    ensures GroupCommitted(es, es0, g, last, front, finish, offset)
    ensures DocketPrefix(es) && ForwardNested(es)
    ensures |es| > 0 ==> !es[0].Done()
    ensures Undone(es) == Undone(es0)
  {
    var limit := ReferenceLimit(|es0|, offset);
    assert |es1| == |es0|;
    GroupTail(es0, es1, es, rows, g, last, front, max);
    GroupDockets(es1, es, rows, g, last, front, max, nutR, nutN, limit, ends);
    GroupWindow(es0, es1, es, rows, g, last, front, max, nutR, nutN, limit, ends);
    SamePicturesUndone(es, es1);
    SamePicturesUndone(es1, es0);
  }

  /**
   * The window after a group is committed keeps its dockets in a prefix, nests
   * its references and has not released its front.
   */
  lemma GroupWindow(es0: seq<Piece>, es1: seq<Piece>, es: seq<Piece>, rows: seq<Row>,
                    g: int, last: LastPicture, front: int, max: int, nutR: int, nutN: int,
                    limit: int, ends: set<int>)
    requires max == (if last == NoLastPicture then g else g - 1)
    requires ends == (if last == NoLastPicture then {} else {g})
    requires forall k :: 0 <= k < |es0| ==> es0[k].docket.None? && es0[k].picture.Some?
    requires LastCommitted(es1, es0, g, last, front)
    requires forall p :: 1 <= p <= max ==> p in Positions(rows)
    requires SameFrames(es, es1)
    requires UntouchedOutside(es, es1, rows, |rows|, max)
    requires RowsApplied(es, rows, |rows|, max, front, g, nutR, nutN, limit, ends)
    requires TableNested(rows)
    ensures DocketPrefix(es) && ForwardNested(es)
    ensures |es| > 0 ==> !es[0].Done()
  {
    GroupTail(es0, es1, es, rows, g, last, front, max);
    GroupDockets(es1, es, rows, g, last, front, max, nutR, nutN, limit, ends);
    GroupOrigins(es0, es1, es, rows, g, last, front, max);
    GroupNested(es, rows, g, last, front, max, nutR, nutN, limit, ends);
  }

  /** Window entry `k` is the position a row of the table assigns, within `max`. */
  ghost predicate AssignedAt(rows: seq<Row>, max: int, k: int)
  {
    exists a :: 0 <= a < |rows| && rows[a].pos == k + 1 && k + 1 <= max
  }

  /**
   * Every entry of a committed group with a docket is the group's last, which
   * references no later picture, or one a row of the table assigned.
   */
  lemma GroupOrigins(es0: seq<Piece>, es1: seq<Piece>, es: seq<Piece>, rows: seq<Row>,
                     g: int, last: LastPicture, front: int, max: int)
    requires forall k :: 0 <= k < |es0| ==> es0[k].docket.None?
    requires LastCommitted(es1, es0, g, last, front)
    requires max == (if last == NoLastPicture then g else g - 1)
    requires SameFrames(es, es1)
    requires UntouchedOutside(es, es1, rows, |rows|, max)
    ensures forall k :: 0 <= k < |es| && es[k].docket.Some? ==>
      (k == g - 1 && last != NoLastPicture && es[k].docket.value.positive == {}) || AssignedAt(rows, max, k)
  {
    forall k | 0 <= k < |es| && es[k].docket.Some? && !AssignedAt(rows, max, k)
      ensures k == g - 1 && last != NoLastPicture && es[k].docket.value.positive == {}
    {
      assert es[k] == es1[k];
    }
  }

  /**
   * A committed group nests its references when its table does: the target of
   * a forward delta of one entry, other than the next entry, is one the next
   * entry's row also names, and it had a docket when that row was applied.
   */
  lemma GroupNested(es: seq<Piece>, rows: seq<Row>, g: int, last: LastPicture, front: int, max: int,
                    nutR: int, nutN: int, limit: int, ends: set<int>)
    requires max == (if last == NoLastPicture then g else g - 1)
    requires ends == (if last == NoLastPicture then {} else {g})
    requires forall k :: 0 <= k < |es| && es[k].docket.Some? ==>
      (k == g - 1 && last != NoLastPicture && es[k].docket.value.positive == {}) || AssignedAt(rows, max, k)
    requires RowsApplied(es, rows, |rows|, max, front, g, nutR, nutN, limit, ends)
    requires TableNested(rows)
    ensures ForwardNested(es)
  {
    forall k, d | 0 <= k && k + 1 < |es| && es[k].docket.Some? && es[k + 1].docket.Some?
                  && d in es[k].docket.value.positive && d != 1
      ensures d - 1 in es[k + 1].docket.value.positive
    {
      NestedAt(es, rows, g, last, front, max, nutR, nutN, limit, ends, k, d);
    }
  }

  /**
   * One instance of GroupNested: entry `k`, which a row assigned, its delta
   * `d`, and entry `k + 1`, which a row assigned or which ends the group.
   */
  lemma NestedAt(es: seq<Piece>, rows: seq<Row>, g: int, last: LastPicture, front: int, max: int,
                 nutR: int, nutN: int, limit: int, ends: set<int>, k: int, d: int)
    requires max == (if last == NoLastPicture then g else g - 1)
    requires ends == (if last == NoLastPicture then {} else {g})
    requires RowsApplied(es, rows, |rows|, max, front, g, nutR, nutN, limit, ends)
    requires TableNested(rows)
    requires 0 <= k && k + 1 < |es| && es[k].docket.Some? && es[k + 1].docket.Some?
    requires d in es[k].docket.value.positive && d != 1
    requires AssignedAt(rows, max, k)
    requires (k + 1 == g - 1 && last != NoLastPicture) || AssignedAt(rows, max, k + 1)
    ensures d - 1 in es[k + 1].docket.value.positive
  {
    var a :| 0 <= a < |rows| && rows[a].pos == k + 1 && k + 1 <= max;
    assert RowApplied(es[k].docket, rows[a], front, g, nutR, nutN, limit, Assigned(rows, a, max) + ends);
    if k + 1 == g - 1 && last != NoLastPicture {
      assert false;
    } else {
      var b :| 0 <= b < |rows| && rows[b].pos == k + 2 && k + 2 <= max;
      KeptNested(rows, a, b, max, limit, ends, d);
      assert RowApplied(es[k + 1].docket, rows[b], front, g, nutR, nutN, limit, Assigned(rows, b, max) + ends);
    }
  }

  /** What the planner needs to know of the table it applies to a group of `g` pictures. */
  lemma TableFacts(finish: bool, g: int, last: LastPicture)
    requires 1 <= g <= 8
    requires last == NoLastPicture ==> finish && g < 8
    ensures var rows := Table(finish, g);
      var interior := if last == NoLastPicture then g else g - 1;
      && (forall j :: 0 <= j < |rows| ==> rows[j].pos >= 1)
      && (forall j, k :: 0 <= j < k < |rows| ==> rows[j].pos != rows[k].pos)
      && (forall p :: 1 <= p <= interior ==> p in Positions(rows))
      && ((!finish || g == 8) ==> ReferencesResolve(rows, 0, {}, g) && forall j :: 0 <= j < |rows| ==> rows[j].pos < g)
      && TableNested(rows)
  {
    var rows := Table(finish, g);
    if !finish && g != 8 {
      if g >= 2 {
        PatternCoversInterior(g);
        PatternReferencesResolve(g);
        PatternNested(g);
      }
    } else {
      PatternCoversInterior(8);
      PatternReferencesResolve(8);
      PatternNested(8);
    }
    PositionsHaveRows(rows, 0);
  }

  /** A set with a positive cardinality has a member. */
  lemma NonEmptyHasMember(s: set<int>)
    requires |s| > 0
    ensures exists y :: y in s
  {
    if forall y :: y !in s {
      assert false;
    }
  }

  /** Releasing the scanned entry keeps the window's invariants. */
  lemma ReleaseKeepsValid(es: seq<Piece>, s: Scan)
    requires ReferencesInWindow(es) && DocketPrefix(es) && ReleasedInOrder(es) && IntraLooksBack(es)
    requires ForwardNested(es)
    requires s == SelectRelease(es)
    ensures ReferencesInWindow(ClearPicture(es, s.selected)) && DocketPrefix(ClearPicture(es, s.selected))
    ensures ReleasedInOrder(ClearPicture(es, s.selected)) && IntraLooksBack(ClearPicture(es, s.selected))
    ensures ForwardNested(ClearPicture(es, s.selected))
  {
    ClearPictureKeepsWindow(es, s.selected);
    if |es| > 0 && es[0].docket.Some? {
      ReleaseRule(es);
      ClearPictureKeepsOrder(es, s.selected);
    } else {
      NothingPlannedNothingReleased(es);
    }
  }

  /**
   * Retiring `n` released entries keeps the front at most one past the next
   * intra position, since a released entry has a docket.
   */
  lemma RetireKeepsBound(es: seq<Piece>, n: nat, front: int, idr: int)
    requires n <= DonePrefix(es)
    requires ReleasedInOrder(es)
    requires forall k :: 0 <= k < |es| && es[k].docket.Some? ==> k <= idr - front
    requires 0 <= front <= idr + 1
    ensures front + n <= idr + 1
    ensures forall k :: 0 <= k < |es[n..]| && es[n..][k].docket.Some? ==> k <= idr - (front + n)
  {
    if n > 0 {
      assert es[n - 1].Done();
    }
  }

  class InputQueue {
    const maxGopN: int
    const maxGopM: int
    const fieldCoding: bool
    const shotChange: bool

    /** Pictures waiting for preanalysis. */
    var entriesPreanalysis: seq<Piece>
    /** The scheduling window; entry 0 has picture order count `sequenceFront`. */
    var entries: seq<Piece>
    /** Presentation timestamps that become decode timestamps, in order. */
    var timestamps: seq<int>
    var pictureInputCount: nat
    var sequenceFront: int
    /** Picture order count of the next planned intra picture. */
    var sequenceIdr: int
    var finish: bool
    var gopSize: int
    /** The shot-change flags the planner reads. */
    var shotChangeList: seq<int>
    /** The shot-change flags the caller supplies between pulls. */
    var queuedShotChanges: seq<int>

    /** Everything the queue keeps true, except that dockets form a prefix of the window. */
    ghost predicate Consistent()
      reads this
    {
      && maxGopN >= 1
      && 0 <= sequenceFront <= sequenceIdr + 1
      && (forall k :: 0 <= k < |entries| && entries[k].docket.Some? ==> k <= sequenceIdr - sequenceFront)
      && ReferencesInWindow(entries) && ReleasedInOrder(entries) && IntraLooksBack(entries)
      && (forall k :: 0 <= k < |entriesPreanalysis| ==>
            entriesPreanalysis[k].docket.None? && entriesPreanalysis[k].picture.Some?)
      && (pictureInputCount == 0 ==> entriesPreanalysis == [] && entries == [] && timestamps == [])
      && (pictureInputCount == 1 && !finish ==> |timestamps| == 1 && entries == [] && |entriesPreanalysis| == 1)
    }

    /**
     * Every picture not yet handed to the encoder has a decode timestamp
     * waiting, and from the second picture on the queue also holds the
     * REORDER_DELAY slots the backward extension added.
     */
    ghost predicate TimestampSupply()
      reads this
    {
      |timestamps| == |entriesPreanalysis| + Undone(entries) + (if pictureInputCount >= 2 then REORDER_DELAY else 0)
    }

    /**
     * The window's part of the invariant: dockets form a prefix of the window,
     * their references nest, and the window's front has not been released.
     */
    ghost predicate Window()
      reads this
    {
      && Consistent() && DocketPrefix(entries) && ForwardNested(entries)
      && (|entries| > 0 ==> !entries[0].Done())
    }

    /** The queue's invariant: the window's, and a timestamp for every picture still to be handed over. */
    ghost predicate Valid()
      reads this
    {
      Window() && TimestampSupply()
    }

    constructor (maxGopN: int, maxGopM: int, fieldCoding: bool, shotChange: bool)
      requires maxGopN >= 1
      ensures Valid()
      ensures this.maxGopN == maxGopN && this.maxGopM == maxGopM
      ensures this.fieldCoding == fieldCoding && this.shotChange == shotChange
      ensures entriesPreanalysis == [] && entries == [] && timestamps == []
      ensures pictureInputCount == 0 && sequenceFront == 0 && sequenceIdr == 0 && !finish
    {
      this.maxGopN := maxGopN;
      this.maxGopM := maxGopM;
      this.fieldCoding := fieldCoding;
      this.shotChange := shotChange;
      entriesPreanalysis := [];
      entries := [];
      timestamps := [];
      pictureInputCount := 0;
      sequenceFront := 0;
      sequenceIdr := 0;
      finish := false;
      gopSize := 0;
      shotChangeList := [];
      queuedShotChanges := [];
    }

    /**
     * Accepts a picture in display order. On the second picture the timestamp
     * queue is first extended backwards by REORDER_DELAY slots spaced by the
     * period between the first two timestamps.
     */
    method Append(picture: Picture, aq: AqId)
      requires Valid() && !finish
      modifies this`entriesPreanalysis, this`timestamps, this`pictureInputCount
      ensures Valid()
      ensures entriesPreanalysis == old(entriesPreanalysis) + [Piece(None, Some(picture), aq)]
      ensures pictureInputCount == old(pictureInputCount) + 1
      ensures old(pictureInputCount) != 1 ==> timestamps == old(timestamps) + [picture.pts]
      ensures old(pictureInputCount) == 1 ==>
        var t0 := old(timestamps)[0];
        var period := picture.pts - t0;
        timestamps == [t0 - 3 * period, t0 - 2 * period, t0 - period, t0, picture.pts]
    {
      entriesPreanalysis := entriesPreanalysis + [Piece(None, Some(picture), aq)];
      if pictureInputCount == 1 {
        var t0 := timestamps[0];
        var period := picture.pts - t0;
        var i := 0;
        while i < REORDER_DELAY
          invariant 0 <= i <= REORDER_DELAY
          invariant |timestamps| == i + 1
          invariant entriesPreanalysis == old(entriesPreanalysis) + [Piece(None, Some(picture), aq)]
          invariant pictureInputCount == old(pictureInputCount)
          invariant forall k :: 0 <= k <= i ==> timestamps[k] == t0 - (i - k) * period
        {
          timestamps := [timestamps[0] - period] + timestamps;
          i := i + 1;
        }
      }
      timestamps := timestamps + [picture.pts];
      pictureInputCount := pictureInputCount + 1;
    }

    /** Signals that no more pictures will arrive. */
    method EndOfInput()
      requires Valid()
      modifies this`finish
      ensures Valid() && Eos()
    {
      finish := true;
    }

    /** Whether end of input has been signalled. */
    function Eos(): bool
      reads this
    {
      finish
    }

    /**
     * Moves up to BATCH pictures, in order, from the preanalysis FIFO to the
     * back of the window, once BATCH are waiting or the input has ended.
     */
    method Preanalyse()
      requires Valid()
      modifies this`entriesPreanalysis, this`entries
      ensures Valid()
      ensures var n := |old(entriesPreanalysis)|;
        var m := if n > BATCH then BATCH else n;
        if n >= BATCH || finish then
          && entries == old(entries) + old(entriesPreanalysis)[..m]
          && entriesPreanalysis == old(entriesPreanalysis)[m..]
        else
          entries == old(entries) && entriesPreanalysis == old(entriesPreanalysis)
    {
      var n := |entriesPreanalysis|;
      if n >= BATCH || finish {
        if n > BATCH {
          n := BATCH;
        }
        ghost var es0, pre := entries, entriesPreanalysis;
        MoveToWindow(n);
        ghost var es := entries;
        assert && ReferencesInWindow(es) && DocketPrefix(es) && ReleasedInOrder(es)
               && IntraLooksBack(es) && ForwardNested(es)
               && Undone(es) == Undone(es0) + n by {
          ExtendKeepsWindow(es0, pre[..n]);
          ExtendUndone(es0, pre[..n]);
        }
      }
    }

    /** Moves the first `n` pictures of the preanalysis FIFO, in order, to the back of the window. */
    method MoveToWindow(n: int)
      requires 0 <= n <= |entriesPreanalysis|
      modifies this`entriesPreanalysis, this`entries
      ensures entries == old(entries) + old(entriesPreanalysis)[..n]
      ensures entriesPreanalysis == old(entriesPreanalysis)[n..]
    {
      ghost var pre := entriesPreanalysis;
      var i := 0;
      while i < n
        invariant 0 <= i <= n
        invariant entries == old(entries) + pre[..i]
        invariant entriesPreanalysis == pre[i..]
      {
        assert pre[..i + 1] == pre[..i] + [pre[i]];
        entries := entries + [entriesPreanalysis[0]];
        entriesPreanalysis := entriesPreanalysis[1..];
        i := i + 1;
      }
    }

    /** Takes the caller's shot-change list, when it is not empty, in exchange for the current one. */
    method SetShotChangeList(list: seq<int>) returns (rest: seq<int>)
      modifies this`shotChangeList
      ensures |list| > 0 ==> shotChangeList == list && rest == old(shotChangeList)
      ensures |list| == 0 ==> shotChangeList == old(shotChangeList) && rest == list
    {
      if |list| > 0 {
        rest := shotChangeList;
        shotChangeList := list;
      } else {
        rest := list;
      }
    }

    /**
     * The next intra position: the first picture in [sequenceFront,
     * nextDefaultIdr) flagged in the shot-change list (even pictures only when
     * field coding), or the periodic default.
     */
    method ComputeNextIdr(sequenceFront: int, nextDefaultIdr: int, fieldCoding: bool) returns (nextIdr: int)
      ensures nextIdr == NextIdrFrom(shotChangeList, sequenceFront, nextDefaultIdr, fieldCoding)
      ensures nextIdr == nextDefaultIdr || (sequenceFront <= nextIdr < nextDefaultIdr && IsCut(shotChangeList, nextIdr, fieldCoding))
      ensures forall j :: sequenceFront <= j < nextIdr && j < nextDefaultIdr ==> !IsCut(shotChangeList, j, fieldCoding)
    {
      NextIdrIsFirstCut(shotChangeList, sequenceFront, nextDefaultIdr, fieldCoding);
      nextIdr := nextDefaultIdr;
      var scale := if fieldCoding then 1 else 0;
      var i := sequenceFront;
      while i < nextDefaultIdr
        invariant sequenceFront <= i
        invariant nextIdr == nextDefaultIdr
        invariant NextIdrFrom(shotChangeList, i, nextDefaultIdr, fieldCoding)
               == NextIdrFrom(shotChangeList, sequenceFront, nextDefaultIdr, fieldCoding)
        decreases nextDefaultIdr - i
      {
        var index := if scale == 1 then i / 2 else i;
        index := if index < 0 then 0 else index;
        if index >= |shotChangeList| {
          break;
        }
        if i % (if fieldCoding then 2 else 1) == 0 && shotChangeList[index] != 0 {
          nextIdr := i;
          break;
        }
        i := i + 1;
      }
    }

    /**
     * Creates the docket for group position `i` (1-based) when `i <= max`:
     * its picture order count, NAL unit type, quantisation, slice type, and the
     * references that pass the filter.
     */
    method CreateDocket(max: int, i: int, nut: int, qpOffset: int, qpFactor: real, refs: seq<int>)
      requires Consistent()
      requires i > 0
      requires i <= max ==> i <= |entries| && i <= IntraReach(sequenceFront, sequenceIdr) && !entries[i - 1].Done()
      requires IsIrap(nut) ==> forall r :: r in refs ==> r <= 0
      modifies this`entries
      ensures Consistent()
      ensures i <= max ==> entries == old(entries)[i - 1 := old(entries)[i - 1].(docket := Some(
        NewDocket(old(entries), sequenceFront, IntraReach(sequenceFront, sequenceIdr), gopSize, i, nut, qpOffset, qpFactor, refs)))]
      ensures i > max ==> entries == old(entries)
    {
      if i <= max {
        var docket := NewDocket(entries, sequenceFront, IntraReach(sequenceFront, sequenceIdr), gopSize, i, nut, qpOffset, qpFactor, refs);
        ghost var es := entries;
        entries := entries[i - 1 := entries[i - 1].(docket := Some(docket))];
        forall k | 0 <= k < |entries| && entries[k].Done()
          ensures entries[k].docket.Some? && Eligible(entries, k)
        {
          assert es[k].Done() && Eligible(es, k);
          forall d | d in entries[k].docket.value.positive
            ensures 0 <= k + d < |entries| && entries[k + d].Done()
          {
            assert es[k + d].Done();
          }
        }
        if IsIrap(nut) {
          assert Positives(refs) == {};
        }
      }
    }

    /**
     * Applies a table of rows, in order, to the positions up to `max`, where
     * only the positions in `ends` had a docket before. Each docket keeps the
     * positive deltas whose target is below the reference limit and had a
     * docket when its row was applied. When every positive delta of the table
     * lands on the last position of the group or on a position an earlier row
     * assigned, no reference is dropped.
     */
    method ApplyTable(rows: seq<Row>, max: int, nutR: int, nutN: int, ghost ends: set<int>)
      requires Consistent()
      requires forall j :: 0 <= j < |rows| ==> rows[j].pos >= 1
      requires forall j, k :: 0 <= j < k < |rows| ==> rows[j].pos != rows[k].pos
      requires max <= |entries| && max <= IntraReach(sequenceFront, sequenceIdr)
      requires forall k :: 0 <= k < |entries| ==> !entries[k].Done()
      requires !IsIrap(nutR) && !IsIrap(nutN)
      requires DocketedExactly(entries, rows, 0, max, ends)
      modifies this`entries
      ensures Consistent()
      ensures SameFrames(entries, old(entries))
      ensures UntouchedOutside(entries, old(entries), rows, |rows|, max)
      ensures RowsApplied(entries, rows, |rows|, max, sequenceFront, gopSize, nutR, nutN,
                          ReferenceLimit(|old(entries)|, IntraReach(sequenceFront, sequenceIdr)), ends)
      ensures old(Resolving(rows, max, entries, IntraReach(sequenceFront, sequenceIdr))) ==> RowsExact(entries, rows, |rows|)
    {
      ghost var resolving := Resolving(rows, max, entries, IntraReach(sequenceFront, sequenceIdr));
      ghost var seen: set<int> := {};
      var j := 0;
      while j < |rows|
        invariant 0 <= j <= |rows|
        invariant Consistent()
        invariant SameFrames(entries, old(entries))
        invariant UntouchedOutside(entries, old(entries), rows, j, max)
        invariant DocketedExactly(entries, rows, j, max, ends)
        invariant RowsApplied(entries, rows, j, max, sequenceFront, gopSize, nutR, nutN,
                              ReferenceLimit(|entries|, IntraReach(sequenceFront, sequenceIdr)), ends)
        invariant resolving ==> ResolvingFrom(rows, j, seen, max, entries)
      {
        ApplyRow(rows, j, max, nutR, nutN, old(entries), seen, resolving, ends);
        seen := seen + {rows[j].pos};
        j := j + 1;
      }
    }

    /** One step of ApplyTable: the docket for row `j`, if its position is within `max`. */
    method ApplyRow(rows: seq<Row>, j: int, max: int, nutR: int, nutN: int,
                    ghost es0: seq<Piece>, ghost seen: set<int>, ghost resolving: bool, ghost ends: set<int>)
      requires Consistent()
      requires 0 <= j < |rows|
      requires forall i :: 0 <= i < |rows| ==> rows[i].pos >= 1
      requires forall i, k :: 0 <= i < k < |rows| ==> rows[i].pos != rows[k].pos
      requires max <= |entries| && max <= IntraReach(sequenceFront, sequenceIdr)
      requires forall k :: 0 <= k < |es0| ==> !es0[k].Done()
      requires !IsIrap(nutR) && !IsIrap(nutN)
      requires SameFrames(entries, es0)
      requires UntouchedOutside(entries, es0, rows, j, max)
      requires DocketedExactly(entries, rows, j, max, ends)
      requires RowsApplied(entries, rows, j, max, sequenceFront, gopSize, nutR, nutN,
                           ReferenceLimit(|entries|, IntraReach(sequenceFront, sequenceIdr)), ends)
      requires resolving ==> Resolving(rows, max, es0, IntraReach(sequenceFront, sequenceIdr))
      requires resolving ==> ResolvingFrom(rows, j, seen, max, entries)
      modifies this`entries
      ensures Consistent()
      ensures SameFrames(entries, es0)
      ensures UntouchedOutside(entries, es0, rows, j + 1, max)
      ensures DocketedExactly(entries, rows, j + 1, max, ends)
      ensures RowsApplied(entries, rows, j + 1, max, sequenceFront, gopSize, nutR, nutN,
                          ReferenceLimit(|entries|, IntraReach(sequenceFront, sequenceIdr)), ends)
      ensures resolving ==> ResolvingFrom(rows, j + 1, seen + {rows[j].pos}, max, entries)
    {
      var row := rows[j];
      var nut := if row.reference then nutR else nutN;
      ghost var es := entries;
      CreateDocket(max, row.pos, nut, row.qpOffset, row.qpFactor, row.refs);
      ghost var offset := IntraReach(sequenceFront, sequenceIdr);
      assert entries == AfterRow(es, row, max, sequenceFront, offset, gopSize, nutR, nutN);
      StepFrames(es, es0, rows, j, max, sequenceFront, offset, gopSize, nutR, nutN);
      StepDocketed(es, rows, j, max, ends, sequenceFront, offset, gopSize, nutR, nutN);
      StepApplied(es, rows, j, max, ends, sequenceFront, offset, gopSize, nutR, nutN);
      if resolving {
        StepResolving(es, es0, rows, j, seen, max, sequenceFront, offset, gopSize, nutR, nutN);
      }
    }

    /**
     * Plans the next group of pictures when the window's front has no docket:
     * chooses the next intra position, sizes the group, and, when enough
     * pictures are in the window, commits it. Fails when the base group size
     * is not 1 or 8.
     */
    method Process() returns (ok: bool)
      requires Valid()
      modifies this`entries, this`sequenceIdr, this`gopSize
      ensures Valid()
      ensures old(|entries| == 0 || entries[0].docket.Some?) ==>
        ok && entries == old(entries) && sequenceIdr == old(sequenceIdr) && gopSize == old(gopSize)
      ensures old(|entries| > 0 && entries[0].docket.None?) ==>
        && IdrAdvanced(old(sequenceIdr), sequenceIdr, sequenceFront, maxGopN, shotChange, shotChangeList, fieldCoding)
        && (ok <==> maxGopM == 1 || maxGopM == 8)
        && (!ok ==> entries == old(entries) && gopSize == maxGopM)
        && (ok ==>
              var (g, last) := GroupSize(maxGopM, finish, |old(entries)|, IntraReach(sequenceFront, sequenceIdr));
              && gopSize == g
              && (|old(entries)| < g ==> entries == old(entries))
              && (g <= |old(entries)| ==>
                    GroupCommitted(entries, old(entries), g, last, sequenceFront, finish,
                                   IntraReach(sequenceFront, sequenceIdr))))
      ensures old(|entries| > 0 && entries[0].docket.None? && sequenceFront == 0 && sequenceIdr == 0) && ok ==>
        && gopSize == 1 && entries[0].docket.Some?
        && entries[0].docket.value.nut == IDR_N_LP && entries[0].docket.value.sliceType == I
    {
      if |entries| == 0 || entries[0].docket.Some? {
        return true;
      }
      assert forall k :: 0 <= k < |entries| ==> entries[k].docket.None? && entries[k].picture.Some?;
      AdvanceIdr();
      gopSize := maxGopM;
      if gopSize != 1 && gopSize != 8 {
        return false;
      }
      PlanGroup();
      ok := true;
    }

    /**
     * Sizes the next group (bounded by the base group size, the next intra
     * position and, at the end of input, the pictures left) and commits it
     * once the window holds that many pictures.
     */
    method PlanGroup()
      requires Valid()
      requires gopSize == maxGopM && (maxGopM == 1 || maxGopM == 8)
      requires sequenceIdr >= sequenceFront && |entries| >= 1
      requires forall k :: 0 <= k < |entries| ==> entries[k].docket.None? && entries[k].picture.Some?
      modifies this`entries, this`gopSize
      ensures Valid()
      ensures var (g, last) := GroupSize(maxGopM, finish, |old(entries)|, IntraReach(sequenceFront, sequenceIdr));
        && gopSize == g
        && (|old(entries)| < g ==> entries == old(entries))
        && (g <= |old(entries)| ==>
              GroupCommitted(entries, old(entries), g, last, sequenceFront, finish,
                             IntraReach(sequenceFront, sequenceIdr)))
      ensures sequenceFront == 0 && sequenceIdr == 0 ==>
        && gopSize == 1 && entries[0].docket.Some?
        && entries[0].docket.value.nut == IDR_N_LP && entries[0].docket.value.sliceType == I
    {
      var (g, lastPicture) := GroupSize(maxGopM, finish, |entries|, IntraReach(sequenceFront, sequenceIdr));
      gopSize := g;
      if sequenceFront == 0 && sequenceIdr == 0 {
        assert GroupSize(maxGopM, finish, |entries|, IntraReach(0, 0)) == (1, IntraPicture) by {
          FirstGroupIsIdr(maxGopM, finish, |entries|);
        }
      }
      if |entries| < gopSize {
        return;
      }
      CommitGroup(lastPicture);
    }

    /**
     * Moves the next intra position forward once the window's front has
     * passed it: by the intra period, or, with shot-change detection, to the
     * first flagged picture before that.
     */
    method AdvanceIdr()
      requires Valid()
      modifies this`sequenceIdr
      ensures Valid()
      ensures IdrAdvanced(old(sequenceIdr), sequenceIdr, sequenceFront, maxGopN, shotChange, shotChangeList, fieldCoding)
      ensures sequenceIdr >= sequenceFront
    {
      if shotChange {
        if sequenceIdr - sequenceFront < 0 {
          sequenceIdr := ComputeNextIdr(sequenceFront, sequenceIdr + maxGopN, fieldCoding);
        }
      } else {
        if sequenceIdr - sequenceFront < 0 {
          sequenceIdr := sequenceIdr + maxGopN;
        }
      }
    }

    /**
     * Gives every position of a group of `gopSize` pictures a docket: the last
     * one from `lastPicture`, the others from the table for the group.
     */
    method CommitGroup(lastPicture: LastPicture)
      requires Consistent()
      requires 1 <= gopSize <= |entries| && gopSize <= IntraReach(sequenceFront, sequenceIdr) && gopSize <= 8
      requires forall k :: 0 <= k < |entries| ==> entries[k].docket.None? && entries[k].picture.Some?
      requires lastPicture == NoLastPicture ==> finish && gopSize < 8
      modifies this`entries
      ensures Window() && Undone(entries) == Undone(old(entries))
      ensures GroupCommitted(entries, old(entries), gopSize, lastPicture, sequenceFront, finish,
                             IntraReach(sequenceFront, sequenceIdr))
    {
      var rows := Table(finish, gopSize);
      var exact := !finish || gopSize == 8;
      TableFacts(finish, gopSize, lastPicture);
      var max, nutR, nutN := EndGroup(lastPicture);
      ghost var es1 := entries;
      ghost var resolving := Resolving(rows, max, es1, IntraReach(sequenceFront, sequenceIdr));
      assert exact ==> resolving;
      ghost var ends: set<int> := if lastPicture == NoLastPicture then {} else {gopSize};
      assert DocketedExactly(entries, rows, 0, max, ends);
      ApplyTable(rows, max, nutR, nutN, ends);
      ghost var es, es0, g, front, offset := entries, old(entries), gopSize, sequenceFront, IntraReach(sequenceFront, sequenceIdr);
      assert && GroupCommitted(es, es0, g, lastPicture, front, finish, offset)
             && DocketPrefix(es) && ForwardNested(es) && (|es| > 0 ==> !es[0].Done())
             && Undone(es) == Undone(es0) by {
        GroupFromParts(es0, es1, es, rows, g, lastPicture, front, finish, offset, max, nutR, nutN, ends);
      }
    }

    /**
     * Creates the docket that ends the group: an intra picture (IDR for the
     * very first group, CRA after) or a trailing reference picture; the NAL
     * unit types for the interior follow from that choice.
     */
    method EndGroup(lastPicture: LastPicture) returns (max: int, nutR: int, nutN: int)
      requires Consistent()
      requires 1 <= gopSize <= |entries| && gopSize <= IntraReach(sequenceFront, sequenceIdr)
      requires forall k :: 0 <= k < |entries| ==> entries[k].docket.None? && entries[k].picture.Some?
      modifies this`entries
      ensures Consistent()
      ensures max == (if lastPicture == NoLastPicture then gopSize else gopSize - 1)
      ensures nutR == (if lastPicture == IntraPicture then RASL_R else TRAIL_R)
      ensures nutN == (if lastPicture == IntraPicture then RASL_N else TRAIL_N)
      ensures LastCommitted(entries, old(entries), gopSize, lastPicture, sequenceFront)
      ensures forall k :: 0 <= k < |entries| ==> !entries[k].Done()
    {
      assert Negatives([-gopSize]) == {-gopSize} && Positives([-gopSize]) == {};
      assert Negatives([-gopSize, -gopSize]) == {-gopSize} && Positives([-gopSize, -gopSize]) == {};
      max := gopSize;
      nutR, nutN := TRAIL_R, TRAIL_N;
      if lastPicture == IntraPicture {
        var nut := if sequenceFront != 0 then CRA_NUT else IDR_N_LP;
        CreateDocket(gopSize, gopSize, nut, 0, 0.4420, [-gopSize]);
        max := gopSize - 1;
        nutR, nutN := RASL_R, RASL_N;
      } else if lastPicture == TrailingPicture {
        CreateDocket(gopSize, gopSize, TRAIL_R, 1, 0.4420, [-gopSize, -gopSize]);
        max := gopSize - 1;
      }
    }

    /**
     * The release half of a pull: finds the intra docket that has priority,
     * releases the first docket the scan accepts (handing it the entry's
     * picture), retires released entries from the front of the window and
     * stamps the released docket with the next decode timestamp.
     */
    method ReleaseNext() returns (docket: Option<Docket>)
      requires Valid()
      modifies this`entries, this`sequenceFront, this`timestamps
      ensures Valid()
      ensures old(|entries| > 0 && entries[0].docket.Some?) <==> docket.Some?
      ensures docket.Some? ==> docket.value.picture.Some?
      ensures var s := SelectRelease(old(entries));
        var cleared := ClearPicture(old(entries), s.selected);
        var c := DonePrefix(cleared);
        var handed := Handed(old(entries), s);
        && entries == cleared[c..]
        && sequenceFront == old(sequenceFront) + c
        && (handed.None? ==> docket.None? && timestamps == old(timestamps))
        && (handed.Some? ==>
              && |old(timestamps)| > 0
              && docket == Some(handed.value.(dts := Some(old(timestamps)[0])))
              && timestamps == old(timestamps)[1..])
      ensures |entries| > 0 ==> !entries[0].Done()
    {
      ghost var es0 := entries;
      docket := Release();
      ghost var cleared := entries;
      Retire();
      RetireUndone(cleared, DonePrefix(cleared));
      if docket.Some? {
        NoSecondRelease(es0);
        ClearPictureUndone(es0, SelectRelease(es0).selected);
        docket := Some(docket.value.(dts := Some(timestamps[0])));
        timestamps := timestamps[1..];
      } else {
        assert cleared == es0;
      }
    }

    /**
     * The release scan: walks the window up to the first entry without a
     * docket and releases the first one it may take, handing that docket the
     * entry's picture. If it takes none, it returns the last docket it examined.
     */
    method Release() returns (docket: Option<Docket>)
      requires Valid()
      modifies this`entries
      ensures Consistent() && DocketPrefix(entries) && ForwardNested(entries)
      ensures entries == ClearPicture(old(entries), SelectRelease(old(entries)).selected)
      ensures docket == Handed(old(entries), SelectRelease(old(entries)))
      ensures old(|entries| > 0 && entries[0].docket.Some?) <==> docket.Some?
      ensures docket.Some? ==> docket.value.picture.Some?
    {
      ghost var es := entries;
      var isIntraFrame := ScanIntra();
      docket := None;
      var selected := -1;
      var i := 0;
      while i < |entries|
        invariant 0 <= i <= |entries| && entries == es
        invariant selected == -1
        invariant ReleaseFrom(es, i, isIntraFrame, docket) == SelectRelease(es)
      {
        docket := entries[i].docket;
        if docket.None? {
          break;
        }
        var canEncode := Encodable(i, isIntraFrame);
        if canEncode {
          docket := Some(docket.value.(picture := entries[i].picture, aq := Some(entries[i].aq)));
          entries := entries[i := entries[i].(picture := None)];
          selected := i;
          break;
        }
        i := i + 1;
      }
      ghost var s := SelectRelease(es);
      assert selected == s.selected && docket == Handed(es, s);
      assert entries == ClearPicture(es, selected);
      assert |entries| == |es| && forall k :: 0 <= k < |entries| ==> entries[k].docket == es[k].docket;
      ReleaseKeepsValid(es, s);
      if |es| > 0 && es[0].docket.Some? {
        NoSecondRelease(es);
      } else {
        NothingPlannedNothingReleased(es);
      }
    }

    /**
     * The intra-priority scan: among the first eight entries, up to the first
     * one without a docket or already released, the last with an intra docket (or -1).
     */
    method ScanIntra() returns (isIntraFrame: int)
      ensures isIntraFrame == PendingIntra(entries)
    {
      isIntraFrame := -1;
      var size := if |entries| > 8 then 8 else |entries|;
      var i := 0;
      while i < size
        invariant 0 <= i <= size && isIntraFrame < i
        invariant IntraFrom(entries, i, size, isIntraFrame) == PendingIntra(entries)
      {
        if entries[i].docket.None? || entries[i].Done() {
          break;
        }
        if entries[i].docket.value.sliceType == I {
          isIntraFrame := i;
        }
        i := i + 1;
      }
    }

    /**
     * Whether the release scan takes entry `i`: the prioritised intra entry
     * if there is one, otherwise an entry whose later references are all released.
     */
    method Encodable(i: int, isIntraFrame: int) returns (canEncode: bool)
      requires ReferencesInWindow(entries)
      requires 0 <= i < |entries| && entries[i].docket.Some?
      ensures canEncode == CanEncode(entries, i, isIntraFrame)
    {
      var positive := entries[i].docket.value.positive;
      canEncode := true;
      var pending := positive;
      while |pending| > 0
        invariant pending <= positive
        invariant canEncode <==> forall x :: x in positive - pending ==> entries[i + x].Done()
        decreases |pending|
      {
        NonEmptyHasMember(pending);
        var x :| x in pending;
        if !entries[i + x].Done() {
          canEncode := false;
        }
        assert positive - (pending - {x}) == (positive - pending) + {x};
        pending := pending - {x};
      }
      assert positive - pending == positive;
      var encodeIntraFrame := isIntraFrame >= 0;
      if encodeIntraFrame && i != isIntraFrame {
        canEncode := false;
      }
      if encodeIntraFrame && i == isIntraFrame {
        canEncode := true;
      }
    }

    /** Pops the released entries at the front of the window, advancing its picture order count. */
    method Retire()
      requires Consistent()
      modifies this`entries, this`sequenceFront
      ensures entries == old(entries)[DonePrefix(old(entries))..]
      ensures sequenceFront == old(sequenceFront) + DonePrefix(old(entries))
      ensures |entries| > 0 ==> !entries[0].Done()
      ensures old(DocketPrefix(entries) && ForwardNested(entries)) ==>
        Consistent() && DocketPrefix(entries) && ForwardNested(entries)
    {
      ghost var n := 0;
      while |entries| > 0 && entries[0].Done()
        invariant 0 <= n <= DonePrefix(old(entries))
        invariant entries == old(entries)[n..]
        invariant sequenceFront == old(sequenceFront) + n
        decreases |entries|
      {
        entries := entries[1..];
        sequenceFront := sequenceFront + 1;
        n := n + 1;
      }
      RetireKeepsBound(old(entries), n, old(sequenceFront), sequenceIdr);
      if DocketPrefix(old(entries)) && ForwardNested(old(entries)) {
        RetireKeepsWindow(old(entries), n);
      }
    }

    /**
     * One pull of the queue: nothing while only the first picture has arrived
     * and input continues; otherwise the caller's shot-change flags are taken,
     * the next group is planned, and the next docket, if any, is released.
     */
    method GetDocket() returns (r: Result<Option<Docket>, ConfigError>)
      requires Valid()
      modifies this`entries, this`sequenceIdr, this`gopSize, this`sequenceFront, this`timestamps,
               this`shotChangeList, this`queuedShotChanges
      ensures Valid()
      ensures old(pictureInputCount == 1 && !finish) ==>
        && r == Success(None) && entries == old(entries) && timestamps == old(timestamps)
        && sequenceFront == old(sequenceFront) && sequenceIdr == old(sequenceIdr) && gopSize == old(gopSize)
        && shotChangeList == old(shotChangeList) && queuedShotChanges == old(queuedShotChanges)
      ensures r.Failure? <==>
        && old(pictureInputCount != 1 || finish)
        && old(|entries| > 0 && entries[0].docket.None?)
        && maxGopM != 1 && maxGopM != 8
      ensures r.Failure? ==> sequenceFront == old(sequenceFront) && timestamps == old(timestamps)
      ensures r.Success? && r.value.Some? ==>
        && |old(timestamps)| > 0
        && r.value.value.dts == Some(old(timestamps)[0]) && timestamps == old(timestamps)[1..]
      ensures r.Success? && r.value.Some? ==> r.value.value.picture.Some?
    {
      if pictureInputCount == 1 && !Eos() {
        return Success(None);
      }
      queuedShotChanges := SetShotChangeList(queuedShotChanges);
      var ok := Process();
      if !ok {
        return Failure(MaxGopMNotOneOrEight);
      }
      var docket := ReleaseNext();
      r := Success(docket);
    }
  }
}
