/**
 * Window entries, dockets (the scheduling decision for one picture), the
 * reference filter applied when a docket is created, and the fixed tables of
 * hierarchical reference structures, one per group size.
 */
module Dockets {
  import opened Optional
  import opened Hevc

  /** An input picture: an opaque identity and its presentation timestamp. */
  datatype Picture = Picture(id: nat, pts: int)

  /** An adaptive-quantisation annotation, passed through untouched. */
  type AqId = nat

  /** The scheduling decision for one picture. `qpFactor` is only stored, never computed with. */
  datatype Docket = Docket(
    poc: int,
    nut: int,
    qpOffset: int,
    qpFactor: real,
    currentGopSize: int,
    sliceType: SliceType,
    negative: set<int>,
    positive: set<int>,
    picture: Option<Picture>,
    aq: Option<AqId>,
    dts: Option<int>)

  /** One entry of the preanalysis FIFO or of the scheduling window. */
  datatype Piece = Piece(docket: Option<Docket>, picture: Option<Picture>, aq: AqId)
  {
    /** An entry is done once its picture has been handed to the encoder. */
    predicate Done()
    {
      picture.None?
    }
  }

  /**
   * Whether a reference `delta` from the picture at window position `i` (1-based)
   * is kept. `offset` is the distance to the next intra picture plus one; the
   * source compares it, unsigned, against the window size, so a negative
   * `offset` leaves the window size as the only limit.
   */
  function IsValidReference(entries: seq<Piece>, offset: int, i: int, delta: int): (ok: bool)
    requires i > 0
    ensures ok <==>
      || delta < 0
      || (&& delta > 0
          && i - 1 + delta < |entries|
          && (offset < 0 || i - 1 + delta < offset)
          && entries[i - 1 + delta].docket.Some?)
  {
    if delta < 0 then true
    else if delta == 0 then false
    else
      var deltaLimit := if offset >= 0 && |entries| > offset then offset else |entries|;
      if i - 1 + delta >= deltaLimit then false
      else entries[i - 1 + delta].docket.Some?
  }

  /** Files a reference under its sign; a zero reference is ignored. */
  function AddReference(d: Docket, ref: int): (r: Docket)
    ensures r.(negative := d.negative, positive := d.positive) == d
    ensures r.negative == d.negative + (if ref < 0 then {ref} else {})
    ensures r.positive == d.positive + (if ref > 0 then {ref} else {})
  {
    var d' := if ref < 0 then d.(negative := d.negative + {ref}) else d;
    if ref > 0 then d'.(positive := d'.positive + {ref}) else d'
  }

  /** Adds, in order, every reference of `refs` that passes the filter. */
  function AddValidReferences(d: Docket, entries: seq<Piece>, offset: int, i: int, refs: seq<int>): (r: Docket)
    requires i > 0
    decreases |refs|
    ensures r.negative == d.negative + Negatives(refs)
    ensures r.positive == d.positive + (set x | x in Positives(refs) && IsValidReference(entries, offset, i, x))
    ensures r.(negative := d.negative, positive := d.positive) == d
  {
    if refs == [] then d
    else
      var d' := if IsValidReference(entries, offset, i, refs[0]) then AddReference(d, refs[0]) else d;
      AddValidReferences(d', entries, offset, i, refs[1..])
  }

  /** The negative deltas of a reference list. */
  function Negatives(refs: seq<int>): set<int>
  {
    set x | x in refs && x < 0
  }

  /** The positive deltas of a reference list. */
  function Positives(refs: seq<int>): set<int>
  {
    set x | x in refs && x > 0
  }

  /**
   * The docket created for window position `i` (1-based) when the window front
   * has picture order count `front`.
   */
  function NewDocket(entries: seq<Piece>, front: int, offset: int, gopSize: int,
                     i: int, nut: int, qpOffset: int, qpFactor: real, refs: seq<int>): (d: Docket)
    requires i > 0
    ensures d.poc == front + i - 1 && d.nut == nut && d.qpOffset == qpOffset && d.qpFactor == qpFactor
    ensures d.currentGopSize == gopSize
    ensures d.sliceType == I <==> IsIrap(nut)
    ensures d.negative == Negatives(refs)
    ensures d.positive == set x | x in Positives(refs) && IsValidReference(entries, offset, i, x)
    ensures forall x :: x in d.positive ==>
      x > 0 && i - 1 + x < |entries| && entries[i - 1 + x].docket.Some?
    ensures d.picture.None? && d.aq.None? && d.dts.None?
  {
    var empty := Docket(front + i - 1, nut, qpOffset, qpFactor, gopSize, B, {}, {}, None, None, None);
    var d := AddValidReferences(empty, entries, offset, i, refs);
    d.(sliceType := if IsIrap(nut) then I else B)
  }

  /**
   * One call of the planner's fixed tables: the position in the group (1-based),
   * whether it is a reference picture (nutR) or not (nutN), the quantisation
   * offset and factor, and the reference deltas.
   */
  datatype Row = Row(pos: int, reference: bool, qpOffset: int, qpFactor: real, refs: seq<int>)

  /** The table applied to the interior of a group of `size` pictures: 2..7, or 8 for the canonical pyramid. */
  function Pattern(size: int): (rows: seq<Row>)
    ensures |rows| == if 2 <= size <= 8 then size - 1 else 0
    ensures forall j :: 0 <= j < |rows| ==> 1 <= rows[j].pos < size
  {
    if size == 2 then
      [Row(1, true, 2, 0.6800, [-1, 1])]
    else if size == 3 then
      [Row(2, true, 2, 0.3536, [-2, 1]),
       Row(1, false, 3, 0.6800, [-1, 2, 1])]
    else if size == 4 then
      [Row(2, true, 2, 0.3536, [-2, 2]),
       Row(1, false, 3, 0.6800, [-1, 3, 1]),
       Row(3, false, 3, 0.6800, [-1, 1])]
    else if size == 5 then
      [Row(3, true, 2, 0.3536, [-3, 2]),
       Row(1, true, 2, 0.3536, [-1, 4, 2]),
       Row(2, false, 3, 0.6800, [-2, 3, -1, 1]),
       Row(4, false, 3, 0.6800, [-4, 1, -1])]
    else if size == 6 then
      [Row(3, true, 2, 0.3536, [-3, 3]),
       Row(1, true, 3, 0.3536, [-1, 5, 2]),
       Row(2, false, 4, 0.6800, [-2, 4, 1, -1]),
       Row(5, true, 3, 0.3536, [-5, 1, -2]),
       Row(4, false, 4, 0.6800, [-4, 2, -1, 1])]
    else if size == 7 then
      [Row(4, true, 2, 0.3536, [-4, 3]),
       Row(2, true, 3, 0.3536, [-2, 5, 2]),
       Row(1, false, 4, 0.6800, [-1, 6, 3, 1]),
       Row(3, false, 4, 0.6800, [-3, 4, 1, -1]),
       Row(6, true, 3, 0.3536, [-2, 1]),
       Row(5, false, 4, 0.6800, [-1, 2, 1])]
    else if size == 8 then
      [Row(4, true, 2, 0.3536, [-4, 4]),
       Row(2, true, 3, 0.3536, [-2, 2, 6]),
       Row(1, false, 4, 0.6800, [-1, 1, 3, 7]),
       Row(3, false, 4, 0.6800, [-1, 1, -3, 5]),
       Row(6, true, 3, 0.3536, [-2, 2, -6]),
       Row(5, false, 4, 0.6800, [-1, 1, 3, -5]),
       Row(7, false, 4, 0.6800, [-1, 1, -7])]
    else
      []
  }

  /** The positions assigned by rows `j` onwards. */
  function PositionsFrom(rows: seq<Row>, j: nat): set<int>
    decreases |rows| - j
  {
    if j >= |rows| then {} else {rows[j].pos} + PositionsFrom(rows, j + 1)
  }

  /** The positions a list of rows assigns. */
  function Positions(rows: seq<Row>): set<int>
  {
    PositionsFrom(rows, 0)
  }

  /**
   * Each table for a group of `g` pictures assigns every interior position
   * 1..g-1 exactly once and nothing else.
   */
  ghost predicate AssignsInteriorOnce(rows: seq<Row>, g: int)
  {
    && (forall p :: 1 <= p < g <==> p in Positions(rows))
    && (forall j, k :: 0 <= j < k < |rows| ==> rows[j].pos != rows[k].pos)
  }

  lemma PatternCoversInterior(g: int)
    requires 2 <= g <= 8
    ensures AssignsInteriorOnce(Pattern(g), g)
  {
    if g <= 5 {
      SmallPatternsCoverInterior(g);
    } else {
      LargePatternsCoverInterior(g);
    }
  }

  lemma SmallPatternsCoverInterior(g: int)
    requires 2 <= g <= 5
    ensures AssignsInteriorOnce(Pattern(g), g)
  {
    var rows := Pattern(g);
    if g == 2 {
      assert PositionsFrom(rows, 1) == {};
      assert PositionsFrom(rows, 0) == {1};
    } else if g == 3 {
      assert PositionsFrom(rows, 2) == {};
      assert PositionsFrom(rows, 1) == {1};
      assert PositionsFrom(rows, 0) == {1, 2};
    } else if g == 4 {
      assert PositionsFrom(rows, 3) == {};
      assert PositionsFrom(rows, 2) == {3};
      assert PositionsFrom(rows, 1) == {1, 3};
      assert PositionsFrom(rows, 0) == {1, 2, 3};
    } else if g == 5 {
      assert PositionsFrom(rows, 4) == {};
      assert PositionsFrom(rows, 3) == {4};
      assert PositionsFrom(rows, 2) == {2, 4};
      assert PositionsFrom(rows, 1) == {1, 2, 4};
      assert PositionsFrom(rows, 0) == {1, 2, 3, 4};
    }
  }

  lemma LargePatternsCoverInterior(g: int)
    requires 6 <= g <= 8
    ensures AssignsInteriorOnce(Pattern(g), g)
  {
    var rows := Pattern(g);
    if g == 6 {
      assert PositionsFrom(rows, 5) == {};
      assert PositionsFrom(rows, 4) == {4};
      assert PositionsFrom(rows, 3) == {4, 5};
      assert PositionsFrom(rows, 2) == {2, 4, 5};
      assert PositionsFrom(rows, 1) == {1, 2, 4, 5};
      assert PositionsFrom(rows, 0) == {1, 2, 3, 4, 5};
    } else if g == 7 {
      assert PositionsFrom(rows, 6) == {};
      assert PositionsFrom(rows, 5) == {5};
      assert PositionsFrom(rows, 4) == {5, 6};
      assert PositionsFrom(rows, 3) == {3, 5, 6};
      assert PositionsFrom(rows, 2) == {1, 3, 5, 6};
      assert PositionsFrom(rows, 1) == {1, 2, 3, 5, 6};
      assert PositionsFrom(rows, 0) == {1, 2, 3, 4, 5, 6};
    } else {
      assert PositionsFrom(rows, 7) == {};
      assert PositionsFrom(rows, 6) == {7};
      assert PositionsFrom(rows, 5) == {5, 7};
      assert PositionsFrom(rows, 4) == {5, 6, 7};
      assert PositionsFrom(rows, 3) == {3, 5, 6, 7};
      assert PositionsFrom(rows, 2) == {1, 3, 5, 6, 7};
      assert PositionsFrom(rows, 1) == {1, 2, 3, 5, 6, 7};
      assert PositionsFrom(rows, 0) == {1, 2, 3, 4, 5, 6, 7};
    }
  }

  /**
   * Every positive delta of rows `j` onwards targets a position inside the
   * group of `g` pictures that already has a docket when the row is applied:
   * the last position, created before the table, or one in `seen`, assigned
   * by an earlier row.
   */
  predicate ReferencesResolve(rows: seq<Row>, j: nat, seen: set<int>, g: int)
    decreases |rows| - j
  {
    j >= |rows| ||
    (&& (forall d :: d in rows[j].refs && d > 0 ==>
           rows[j].pos + d <= g && (rows[j].pos + d == g || rows[j].pos + d in seen))
     && ReferencesResolve(rows, j + 1, seen + {rows[j].pos}, g))
  }

  lemma PatternReferencesResolve(g: int)
    requires 2 <= g <= 8
    ensures ReferencesResolve(Pattern(g), 0, {}, g)
  {
    if g <= 5 {
      SmallPatternsResolve(g);
    } else if g == 6 {
      PatternResolves6();
    } else if g == 7 {
      PatternResolves7();
    } else {
      PatternResolves8();
    }
  }

  lemma SmallPatternsResolve(g: int)
    requires 2 <= g <= 5
    ensures ReferencesResolve(Pattern(g), 0, {}, g)
  {
    var rows := Pattern(g);
    if g == 2 {
      assert ReferencesResolve(rows, 1, {} + {1}, g);
      assert ReferencesResolve(rows, 0, {}, g);
    } else if g == 3 {
      assert ReferencesResolve(rows, 2, {} + {2} + {1}, g);
      assert ReferencesResolve(rows, 1, {} + {2}, g);
      assert ReferencesResolve(rows, 0, {}, g);
    } else if g == 4 {
      assert ReferencesResolve(rows, 3, {} + {2} + {1} + {3}, g);
      assert ReferencesResolve(rows, 2, {} + {2} + {1}, g);
      assert ReferencesResolve(rows, 1, {} + {2}, g);
      assert ReferencesResolve(rows, 0, {}, g);
    } else {
      assert ReferencesResolve(rows, 4, {} + {3} + {1} + {2} + {4}, g);
      assert ReferencesResolve(rows, 3, {} + {3} + {1} + {2}, g);
      assert ReferencesResolve(rows, 2, {} + {3} + {1}, g);
      assert ReferencesResolve(rows, 1, {} + {3}, g);
      assert ReferencesResolve(rows, 0, {}, g);
    }
  }

  lemma PatternResolves6()
    ensures ReferencesResolve(Pattern(6), 0, {}, 6)
  {
    var rows := Pattern(6);
    assert ReferencesResolve(rows, 5, {} + {3} + {1} + {2} + {5} + {4}, 6);
    assert ReferencesResolve(rows, 4, {} + {3} + {1} + {2} + {5}, 6);
    assert ReferencesResolve(rows, 3, {} + {3} + {1} + {2}, 6);
    assert ReferencesResolve(rows, 2, {} + {3} + {1}, 6);
    assert ReferencesResolve(rows, 1, {} + {3}, 6);
    assert ReferencesResolve(rows, 0, {}, 6);
  }

  lemma PatternResolves7()
    ensures ReferencesResolve(Pattern(7), 0, {}, 7)
  {
    var rows := Pattern(7);
    assert ReferencesResolve(rows, 6, {} + {4} + {2} + {1} + {3} + {6} + {5}, 7);
    assert ReferencesResolve(rows, 5, {} + {4} + {2} + {1} + {3} + {6}, 7);
    assert ReferencesResolve(rows, 4, {} + {4} + {2} + {1} + {3}, 7);
    assert ReferencesResolve(rows, 3, {} + {4} + {2} + {1}, 7);
    assert ReferencesResolve(rows, 2, {} + {4} + {2}, 7);
    assert ReferencesResolve(rows, 1, {} + {4}, 7);
    assert ReferencesResolve(rows, 0, {}, 7);
  }

  lemma PatternResolves8()
    ensures ReferencesResolve(Pattern(8), 0, {}, 8)
  {
    var rows := Pattern(8);
    assert ReferencesResolve(rows, 7, {} + {4} + {2} + {1} + {3} + {6} + {5} + {7}, 8);
    assert ReferencesResolve(rows, 6, {} + {4} + {2} + {1} + {3} + {6} + {5}, 8);
    assert ReferencesResolve(rows, 5, {} + {4} + {2} + {1} + {3} + {6}, 8);
    assert ReferencesResolve(rows, 4, {} + {4} + {2} + {1} + {3}, 8);
    assert ReferencesResolve(rows, 3, {} + {4} + {2} + {1}, 8);
    assert ReferencesResolve(rows, 2, {} + {4} + {2}, 8);
    assert ReferencesResolve(rows, 1, {} + {4}, 8);
    assert ReferencesResolve(rows, 0, {}, 8);
  }

  /** The positions that rows before `j` assign, up to `max`. */
  function Assigned(rows: seq<Row>, j: nat, max: int): (ps: set<int>)
    requires j <= |rows|
    ensures forall p :: p in ps ==> p <= max
  {
    if j == 0 then {}
    else Assigned(rows, j - 1, max) + (if rows[j - 1].pos <= max then {rows[j - 1].pos} else {})
  }

  /** A position is among those assigned before row `j` exactly when an earlier row within `max` names it. */
  lemma {:induction false} AssignedHasRows(rows: seq<Row>, j: nat, max: int)
    requires j <= |rows|
    ensures forall p :: p in Assigned(rows, j, max) <==> exists c :: 0 <= c < j && rows[c].pos == p && p <= max
  {
    if j > 0 {
      AssignedHasRows(rows, j - 1, max);
    }
  }

  /**
   * The references of a table nest: when row `b` assigns the position right
   * after row `a`'s, every forward delta of `a` reaching beyond `b`'s position
   * is also one of `b`'s, and, if `a` is applied after `b`, its target is not
   * assigned by a row applied between them, so that `b` finds it as `a` does.
   */
  ghost predicate TableNested(rows: seq<Row>)
  {
    forall a, b, x ::
      (0 <= a < |rows| && 0 <= b < |rows| && rows[b].pos == rows[a].pos + 1 && x in rows[a].refs && x > 1) ==>
        && x - 1 in rows[b].refs
        && forall c :: b <= c < a ==> rows[c].pos != rows[a].pos + x
  }

  /** Every table nests its references. */
  lemma PatternNested(g: int)
    requires 2 <= g <= 8
    ensures TableNested(Pattern(g))
  {
    if g <= 5 {
      SmallPatternsNested(g);
    } else if g == 6 {
      PatternNested6();
    } else if g == 7 {
      PatternNested7();
    } else {
      PatternNested8();
    }
  }

  lemma SmallPatternsNested(g: int)
    requires 2 <= g <= 5
    ensures TableNested(Pattern(g))
  {
    var rows := Pattern(g);
    forall a, b, x | 0 <= a < |rows| && 0 <= b < |rows| && rows[b].pos == rows[a].pos + 1 && x in rows[a].refs && x > 1
      ensures x - 1 in rows[b].refs && forall c :: b <= c < a ==> rows[c].pos != rows[a].pos + x
    {
      if g == 3 {
        if a == 1 {
          assert b == 0;
        }
      } else if g == 4 {
        if a == 0 {
          assert b == 2;
        } else if a == 1 {
          assert b == 0;
        }
      } else if g == 5 {
        if a == 0 {
          assert b == 3;
        } else if a == 1 {
          assert b == 2;
        } else if a == 2 {
          assert b == 0;
        }
      }
    }
  }

  lemma PatternNested6()
    ensures TableNested(Pattern(6))
  {
    var rows := Pattern(6);
    forall a, b, x | 0 <= a < |rows| && 0 <= b < |rows| && rows[b].pos == rows[a].pos + 1 && x in rows[a].refs && x > 1
      ensures x - 1 in rows[b].refs && forall c :: b <= c < a ==> rows[c].pos != rows[a].pos + x
    {
      if a == 0 {
        assert b == 4;
      } else if a == 1 {
        assert b == 2;
      } else if a == 2 {
        assert b == 0;
      } else if a == 4 {
        assert b == 3;
      }
    }
  }

  lemma PatternNested7()
    ensures TableNested(Pattern(7))
  {
    var rows := Pattern(7);
    forall a, b, x | 0 <= a < |rows| && 0 <= b < |rows| && rows[b].pos == rows[a].pos + 1 && x in rows[a].refs && x > 1
      ensures x - 1 in rows[b].refs && forall c :: b <= c < a ==> rows[c].pos != rows[a].pos + x
    {
      if a == 0 {
        assert b == 5;
      } else if a == 1 {
        assert b == 3;
      } else if a == 2 {
        assert b == 1;
      } else if a == 3 {
        assert b == 0;
      } else if a == 5 {
        assert b == 4;
      }
    }
  }

  lemma PatternNested8()
    ensures TableNested(Pattern(8))
  {
    var rows := Pattern(8);
    forall a, b, x | 0 <= a < |rows| && 0 <= b < |rows| && rows[b].pos == rows[a].pos + 1 && x in rows[a].refs && x > 1
      ensures x - 1 in rows[b].refs && forall c :: b <= c < a ==> rows[c].pos != rows[a].pos + x
    {
      if a == 0 {
        assert b == 5;
      } else if a == 1 {
        assert b == 3;
      } else if a == 2 {
        assert b == 1;
      } else if a == 3 {
        assert b == 0;
      } else if a == 4 {
        assert b == 6;
      } else if a == 5 {
        assert b == 4;
      }
    }
  }

  /** A position is assigned by the rows exactly when some row names it. */
  lemma {:induction false} PositionsHaveRows(rows: seq<Row>, i: nat)
    ensures forall p :: p in PositionsFrom(rows, i) <==> exists j :: i <= j < |rows| && rows[j].pos == p
    decreases |rows| - i
  {
    if i < |rows| {
      PositionsHaveRows(rows, i + 1);
    }
  }
}
