/**
 * The release scheduler's reading of the window: the scan for a pending intra
 * picture, the scan for the first entry that may be released, and the
 * retirement of released entries at the front. These are the two loops and the
 * retirement loop of `getDocket`, stated as functions of the window so that
 * what they guarantee can be proved once, here.
 */
module Release {
  import opened Optional
  import opened Hevc
  import opened Dockets

  /** Every later picture that entry `k` references has already been released. */
  predicate Eligible(es: seq<Piece>, k: int)
    requires 0 <= k < |es| && es[k].docket.Some?
  {
    forall d :: d in es[k].docket.value.positive ==> 0 <= k + d < |es| && es[k + d].Done()
  }

  /** Positive references point forward, inside the window, at entries that have a docket. */
  ghost predicate ReferencesInWindow(es: seq<Piece>)
  {
    forall k, d :: 0 <= k < |es| && es[k].docket.Some? && d in es[k].docket.value.positive ==>
      d > 0 && k + d < |es| && es[k + d].docket.Some?
  }

  /** The entries with a docket form a prefix of the window. */
  ghost predicate DocketPrefix(es: seq<Piece>)
  {
    forall j, k :: 0 <= j <= k < |es| && es[k].docket.Some? ==> es[j].docket.Some?
  }

  /** Every released entry has a docket and was released after the pictures it references. */
  ghost predicate ReleasedInOrder(es: seq<Piece>)
  {
    forall k :: 0 <= k < |es| && es[k].Done() ==> es[k].docket.Some? && Eligible(es, k)
  }

  /** An intra docket references no later picture. */
  ghost predicate IntraLooksBack(es: seq<Piece>)
  {
    forall k :: 0 <= k < |es| && es[k].docket.Some? && es[k].docket.value.sliceType == I ==>
      es[k].docket.value.positive == {}
  }

  /**
   * The intra-priority scan over the first `size` entries, from `i` on: it
   * stops at the first entry without a docket or already released, and
   * remembers the last intra docket it passed (`acc`, -1 for none).
   */
  function IntraFrom(es: seq<Piece>, i: nat, size: nat, acc: int): (r: int)
    requires size <= |es| && acc < i
    decreases size - i
    ensures r == acc || (i <= r < size && es[r].docket.Some? && es[r].docket.value.sliceType == I)
    ensures r != acc ==> forall j :: i <= j <= r ==> es[j].docket.Some? && !es[j].Done()
  {
    if i >= size || es[i].docket.None? || es[i].Done() then acc
    else IntraFrom(es, i + 1, size, if es[i].docket.value.sliceType == I then i else acc)
  }

  /** The scan passes no intra docket of the unbroken run it walks: it ends at the last one. */
  lemma {:induction false} IntraFromFindsLast(es: seq<Piece>, i: nat, size: nat, acc: int, k: int)
    requires size <= |es| && acc < i
    requires i <= k < size
    requires forall j :: i <= j <= k ==> es[j].docket.Some? && !es[j].Done()
    requires es[k].docket.value.sliceType == I
    ensures k <= IntraFrom(es, i, size, acc)
    decreases size - i
  {
    var acc' := if es[i].docket.value.sliceType == I then i else acc;
    if k > i {
      IntraFromFindsLast(es, i + 1, size, acc', k);
    }
  }

  /**
   * Entry `k`, among the first eight, has an intra docket, and it and every
   * entry before it have a docket and are unreleased.
   */
  ghost predicate IntraPending(es: seq<Piece>, k: int)
  {
    && 0 <= k < 8 && k < |es|
    && (forall j :: 0 <= j <= k ==> es[j].docket.Some? && !es[j].Done())
    && es[k].docket.value.sliceType == I
  }

  /** The entry whose intra docket has priority in this call: the last pending intra entry, or -1. */
  function PendingIntra(es: seq<Piece>): (r: int)
    ensures r == -1 || IntraPending(es, r)
    ensures forall k :: IntraPending(es, k) ==> k <= r
  {
    var size := if |es| > 8 then 8 else |es|;
    forall k | IntraPending(es, k)
      ensures k <= IntraFrom(es, 0, size, -1)
    {
      IntraFromFindsLast(es, 0, size, -1, k);
    }
    IntraFrom(es, 0, size, -1)
  }

  /** Whether the release scan takes entry `i`, given the prioritised intra entry (or -1). */
  predicate CanEncode(es: seq<Piece>, i: int, intra: int)
    requires 0 <= i < |es| && es[i].docket.Some?
  {
    if intra >= 0 then i == intra else Eligible(es, i)
  }

  /**
   * What the release scan ends with: the released index (or -1) and the value
   * the scan's `docket` variable holds when it stops.
   */
  datatype Scan = Scan(selected: int, docket: Option<Docket>)

  /**
   * The release scan from entry `i` on; `last` is the docket the previous
   * iteration examined. The scan stops at the first entry without a docket.
   * If it runs off the end of the window it keeps the last docket examined.
   */
  function ReleaseFrom(es: seq<Piece>, i: nat, intra: int, last: Option<Docket>): (s: Scan)
    decreases |es| - i
    ensures s.selected == -1 || (i <= s.selected < |es| && es[s.selected].docket.Some?)
    ensures s.selected != -1 ==>
      && CanEncode(es, s.selected, intra)
      && s.docket == es[s.selected].docket
      && forall j :: i <= j < s.selected ==> es[j].docket.Some? && !CanEncode(es, j, intra)
    ensures s.selected == -1 && s.docket.Some? ==>
      && (forall j :: i <= j < |es| ==> es[j].docket.Some? && !CanEncode(es, j, intra))
      && s.docket == (if i < |es| then es[|es| - 1].docket else last)
  {
    if i >= |es| then Scan(-1, last)
    else if es[i].docket.None? then Scan(-1, None)
    else if CanEncode(es, i, intra) then Scan(i, es[i].docket)
    else ReleaseFrom(es, i + 1, intra, es[i].docket)
  }

  /** The release scan of one `getDocket` call: what it takes passes the release rule. */
  function SelectRelease(es: seq<Piece>): (s: Scan)
    ensures s.selected != -1 ==>
      && 0 <= s.selected < |es| && es[s.selected].docket.Some?
      && CanEncode(es, s.selected, PendingIntra(es))
      && s.docket == es[s.selected].docket
  {
    ReleaseFrom(es, 0, PendingIntra(es), None)
  }

  /** The window after entry `sel` (if any) hands its picture over. */
  function ClearPicture(es: seq<Piece>, sel: int): (es': seq<Piece>)
    ensures |es'| == |es|
    ensures forall k :: 0 <= k < |es| ==>
      es'[k] == if k == sel then es[k].(picture := None) else es[k]
  {
    if 0 <= sel < |es| then es[sel := es[sel].(picture := None)] else es
  }

  /** The docket handed to the encoder, before it is stamped: the scanned docket carrying the entry's picture. */
  function Handed(es: seq<Piece>, s: Scan): (r: Option<Docket>)
    requires s.selected != -1 ==> 0 <= s.selected < |es| && s.docket.Some?
    ensures s.selected == -1 ==> r == s.docket
    ensures s.selected != -1 ==>
      && r.Some? && r.value.picture == es[s.selected].picture && r.value.aq == Some(es[s.selected].aq)
      && r.value.(picture := s.docket.value.picture, aq := s.docket.value.aq) == s.docket.value
  {
    if s.selected == -1 then s.docket
    else Some(s.docket.value.(picture := es[s.selected].picture, aq := Some(es[s.selected].aq)))
  }

  /** The number of released entries at the front of the window: those retirement pops. */
  function DonePrefix(es: seq<Piece>): (c: nat)
    ensures c <= |es|
    ensures forall j :: 0 <= j < c ==> es[j].Done()
    ensures c < |es| ==> !es[c].Done()
  {
    if es == [] || !es[0].Done() then 0 else 1 + DonePrefix(es[1..])
  }

  /**
   * The number of entries whose picture has not been handed to the encoder:
   * each of them still owes a decode timestamp.
   */
  function Undone(es: seq<Piece>): (n: nat)
    ensures n <= |es|
  {
    if es == [] then 0 else (if es[0].Done() then 0 else 1) + Undone(es[1..])
  }

  /** Handing over the picture of an unreleased entry leaves one entry fewer owing a timestamp. */
  lemma {:induction false} ClearPictureUndone(es: seq<Piece>, sel: int)
    requires 0 <= sel < |es| && !es[sel].Done()
    ensures Undone(ClearPicture(es, sel)) == Undone(es) - 1
  {
    if sel == 0 {
      assert ClearPicture(es, 0)[1..] == es[1..];
    } else {
      ClearPictureUndone(es[1..], sel - 1);
      assert ClearPicture(es, sel)[1..] == ClearPicture(es[1..], sel - 1);
    }
  }

  /** Retirement pops released entries only, so it keeps every entry that owes a timestamp. */
  lemma {:induction false} RetireUndone(es: seq<Piece>, c: nat)
    requires c <= |es|
    requires forall j :: 0 <= j < c ==> es[j].Done()
    ensures Undone(es[c..]) == Undone(es)
  {
    if c > 0 {
      RetireUndone(es[1..], c - 1);
      assert es[1..][c - 1..] == es[c..];
    }
  }

  /** Pictures not yet handed over all owe a timestamp. */
  lemma {:induction false} AllUndone(pre: seq<Piece>)
    requires forall k :: 0 <= k < |pre| ==> !pre[k].Done()
    ensures Undone(pre) == |pre|
  {
    if pre != [] {
      AllUndone(pre[1..]);
    }
  }

  /** Appending pictures not yet handed over adds each of them to those owing a timestamp. */
  lemma {:induction false} ExtendUndone(es: seq<Piece>, pre: seq<Piece>)
    requires forall k :: 0 <= k < |pre| ==> !pre[k].Done()
    ensures Undone(es + pre) == Undone(es) + |pre|
  {
    if es == [] {
      assert es + pre == pre;
      AllUndone(pre);
    } else {
      ExtendUndone(es[1..], pre);
      assert (es + pre)[1..] == es[1..] + pre;
    }
  }

  /** Changing dockets only, not pictures, keeps the entries that owe a timestamp. */
  lemma {:induction false} SamePicturesUndone(es: seq<Piece>, es0: seq<Piece>)
    requires |es| == |es0|
    requires forall k :: 0 <= k < |es| ==> es[k].picture == es0[k].picture
    ensures Undone(es) == Undone(es0)
  {
    if es != [] {
      SamePicturesUndone(es[1..], es0[1..]);
    }
  }

  /** A scan that passes only docketed entries reaches the prioritised intra entry and takes it. */
  lemma {:induction false} ScanReachesIntra(es: seq<Piece>, i: nat, intra: int, last: Option<Docket>)
    requires i <= intra < |es|
    requires forall j :: i <= j <= intra ==> es[j].docket.Some?
    ensures ReleaseFrom(es, i, intra, last).selected == intra
    decreases intra - i
  {
    if i < intra {
      ScanReachesIntra(es, i + 1, intra, es[i].docket);
    }
  }

  /**
   * Without a prioritised intra entry, a scan that starts at a docketed entry
   * always releases something: following references forward ends at an entry
   * whose later pictures are all released.
   */
  lemma {:induction false} ScanFindsEligible(es: seq<Piece>, i: nat, last: Option<Docket>)
    requires ReferencesInWindow(es) && DocketPrefix(es)
    requires i < |es| && es[i].docket.Some?
    ensures ReleaseFrom(es, i, -1, last).selected >= 0
    decreases |es| - i
  {
    if !Eligible(es, i) {
      var d :| d in es[i].docket.value.positive && !(0 <= i + d < |es| && es[i + d].Done());
      assert i + 1 < |es| && es[i + 1].docket.Some?;
      ScanFindsEligible(es, i + 1, es[i].docket);
    }
  }

  /**
   * Progress and the release rule. When the front of a well-formed window has
   * a docket, each call releases exactly one entry: the last pending intra
   * entry among the first eight if there is one, and otherwise the first entry
   * whose later references are all released. In both cases every picture the
   * released one references has already been released, so the docket the scan
   * keeps when it runs off the end of the window is never returned.
   */
  lemma ReleaseRule(es: seq<Piece>)
    requires ReferencesInWindow(es) && DocketPrefix(es) && IntraLooksBack(es)
    requires |es| > 0 && es[0].docket.Some?
    ensures 0 <= SelectRelease(es).selected < |es|
    ensures forall k :: IntraPending(es, k) ==>
      IntraPending(es, SelectRelease(es).selected) && k <= SelectRelease(es).selected
    ensures (forall k :: !IntraPending(es, k)) ==>
      forall j :: 0 <= j < SelectRelease(es).selected ==> es[j].docket.Some? && !Eligible(es, j)
    ensures Eligible(es, SelectRelease(es).selected)
  {
    var intra := PendingIntra(es);
    if intra != -1 {
      ScanReachesIntra(es, 0, intra, None);
    } else {
      ScanFindsEligible(es, 0, None);
    }
  }

  /** An empty window, or one whose front has no docket yet, releases nothing. */
  lemma NothingPlannedNothingReleased(es: seq<Piece>)
    requires |es| == 0 || es[0].docket.None?
    ensures SelectRelease(es) == Scan(-1, None)
  {
  }

  /**
   * Every unreleased entry right before a released one is either released
   * itself or ready: all pictures it references are released. The hierarchical
   * tables release pictures in this pattern.
   */
  ghost predicate PredecessorReady(es: seq<Piece>)
  {
    forall k :: 0 < k < |es| && es[k].Done() ==>
      es[k - 1].Done() || (es[k - 1].docket.Some? && Eligible(es, k - 1))
  }

  /**
   * Every forward reference of an entry other than to the very next one is
   * also a forward reference of the next one. The hierarchical tables nest
   * their references this way.
   */
  ghost predicate ForwardNested(es: seq<Piece>)
  {
    forall k, d ::
      (0 <= k && k + 1 < |es| && es[k].docket.Some? && es[k + 1].docket.Some? &&
       d in es[k].docket.value.positive && d != 1) ==>
        d - 1 in es[k + 1].docket.value.positive
  }

  /**
   * In a window whose released entries were released in order, nesting makes
   * the entry before a released one ready: all it references is released.
   */
  lemma NestedPredecessorReady(es: seq<Piece>)
    requires DocketPrefix(es) && ReleasedInOrder(es) && ForwardNested(es)
    ensures PredecessorReady(es)
  {
    forall k | 0 < k < |es| && es[k].Done()
      ensures es[k - 1].docket.Some? && Eligible(es, k - 1)
    {
      var p := k - 1;
      assert es[p + 1].docket.Some? && Eligible(es, p + 1);
      forall d | d in es[p].docket.value.positive
        ensures 0 <= p + d < |es| && es[p + d].Done()
      {
        if d != 1 {
          assert d - 1 in es[p + 1].docket.value.positive;
        }
      }
    }
  }

  lemma {:induction false} ScanStopsBeforeReleased(es: seq<Piece>, i: nat, last: Option<Docket>)
    requires ReferencesInWindow(es) && DocketPrefix(es) && PredecessorReady(es)
    requires i < |es| && es[i].docket.Some? && !es[i].Done()
    ensures ReleaseFrom(es, i, -1, last).selected >= i
    ensures !es[ReleaseFrom(es, i, -1, last).selected].Done()
    decreases |es| - i
  {
    if !Eligible(es, i) {
      var d :| d in es[i].docket.value.positive && !(0 <= i + d < |es| && es[i + d].Done());
      assert i + 1 < |es| && es[i + 1].docket.Some?;
      assert !es[i + 1].Done();
      ScanStopsBeforeReleased(es, i + 1, es[i].docket);
    }
  }

  /**
   * A released entry that has not been retired passes its own eligibility
   * test, so the scan would hand it out a second time if it reached it. In a
   * window whose front is unreleased, whose released entries were released in
   * order and whose references nest, the scan never reaches such an entry: the
   * entry released is one not released before, and the docket handed over
   * carries its picture.
   */
  lemma NoSecondRelease(es: seq<Piece>)
    requires ReferencesInWindow(es) && DocketPrefix(es) && ReleasedInOrder(es) && ForwardNested(es)
    requires |es| > 0 && es[0].docket.Some? && !es[0].Done()
    ensures 0 <= SelectRelease(es).selected < |es|
    ensures !es[SelectRelease(es).selected].Done()
    ensures Handed(es, SelectRelease(es)).Some? && Handed(es, SelectRelease(es)).value.picture.Some?
  {
    NestedPredecessorReady(es);
    var intra := PendingIntra(es);
    if intra != -1 {
      ScanReachesIntra(es, 0, intra, None);
    } else {
      ScanStopsBeforeReleased(es, 0, None);
    }
  }

  /** Handing over an eligible entry keeps every released entry after the pictures it references. */
  lemma ClearPictureKeepsOrder(es: seq<Piece>, sel: int)
    requires ReleasedInOrder(es)
    requires 0 <= sel < |es| && es[sel].docket.Some? && Eligible(es, sel)
    ensures ReleasedInOrder(ClearPicture(es, sel))
  {
    var es' := ClearPicture(es, sel);
    forall k | 0 <= k < |es'| && es'[k].Done()
      ensures es'[k].docket.Some? && Eligible(es', k)
    {
      assert es[k].Done() || k == sel;
      forall d | d in es'[k].docket.value.positive
        ensures 0 <= k + d < |es'| && es'[k + d].Done()
      {
        assert es[k + d].Done();
      }
    }
  }

  /** Handing a picture over changes no docket, so the window's docket invariants stay. */
  lemma ClearPictureKeepsWindow(es: seq<Piece>, sel: int)
    requires ReferencesInWindow(es) && DocketPrefix(es) && IntraLooksBack(es) && ForwardNested(es)
    ensures ReferencesInWindow(ClearPicture(es, sel)) && DocketPrefix(ClearPicture(es, sel))
    ensures IntraLooksBack(ClearPicture(es, sel)) && ForwardNested(ClearPicture(es, sel))
  {
  }

  /** Retiring released entries from the front keeps the window's structure. */
  lemma RetireKeepsWindow(es: seq<Piece>, c: nat)
    requires c <= |es|
    requires ReferencesInWindow(es) && DocketPrefix(es) && ReleasedInOrder(es) && IntraLooksBack(es)
    requires ForwardNested(es)
    ensures ReferencesInWindow(es[c..]) && DocketPrefix(es[c..]) && ReleasedInOrder(es[c..])
    ensures IntraLooksBack(es[c..]) && ForwardNested(es[c..])
  {
    var r := es[c..];
    forall k, d | 0 <= k < |r| && r[k].docket.Some? && d in r[k].docket.value.positive
      ensures d > 0 && k + d < |r| && r[k + d].docket.Some?
    {
      assert es[c + k] == r[k];
    }
    forall k | 0 <= k < |r| && r[k].Done()
      ensures r[k].docket.Some? && Eligible(r, k)
    {
      assert es[c + k] == r[k];
      assert Eligible(es, c + k);
      forall d | d in r[k].docket.value.positive
        ensures 0 <= k + d < |r| && r[k + d].Done()
      {
        assert es[c + k + d] == r[k + d];
      }
    }
  }

  /** Appending pictures without dockets keeps the window's structure. */
  lemma ExtendKeepsWindow(es: seq<Piece>, more: seq<Piece>)
    requires ReferencesInWindow(es) && DocketPrefix(es) && ReleasedInOrder(es) && IntraLooksBack(es)
    requires ForwardNested(es)
    requires forall k :: 0 <= k < |more| ==> more[k].docket.None? && more[k].picture.Some?
    ensures ReferencesInWindow(es + more) && DocketPrefix(es + more) && ReleasedInOrder(es + more)
    ensures IntraLooksBack(es + more) && ForwardNested(es + more)
  {
    var r := es + more;
    forall k | 0 <= k < |r| && r[k].Done()
      ensures r[k].docket.Some? && Eligible(r, k)
    {
      assert k < |es| && r[k] == es[k];
      assert Eligible(es, k);
      forall d | d in r[k].docket.value.positive
        ensures 0 <= k + d < |r| && r[k + d].Done()
      {
        assert r[k + d] == es[k + d];
      }
    }
  }
}
