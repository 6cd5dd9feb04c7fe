/** Reconstruction of a continuous status timeline from sparse observations
    (`interpolate_segments` in `app/report_logic.py`). */
module Timeline {
  import opened Wrappers
  import opened UtilsTime

  /** A status string as stored; only `"active"` counts as up. */
  type Status = string

  const ACTIVE: Status := "active"
  const INACTIVE: Status := "inactive"

  /** An observation `(ts, status)`. */
  datatype Point = Point(ts: int, status: Status)

  /** A stretch of the timeline with the status assumed throughout it. */
  datatype Segment = Segment(iv: Interval, status: Status)

  /** Observations in ascending time order (ties allowed), as they are fetched. */
  ghost predicate Sorted(points: seq<Point>)
  {
    forall j, k :: 0 <= j <= k < |points| ==> points[j].ts <= points[k].ts
  }

  /** The intervals of a list of segments. */
  function Spans(segs: seq<Segment>): (ivs: seq<Interval>)
    ensures |ivs| == |segs|
    ensures forall k :: 0 <= k < |segs| ==> ivs[k] == segs[k].iv
  {
    seq(|segs|, k requires 0 <= k < |segs| => segs[k].iv)
  }

  lemma SpansSnoc(segs: seq<Segment>, x: Segment)
    ensures Spans(segs + [x]) == Spans(segs) + [x.iv]
  {
  }

  // ---------------------------------------------------------------------
  // The reference timeline
  // ---------------------------------------------------------------------

  /** The index of the last observation at or before `t`, or -1 if there is none. */
  function LastAtOrBefore(points: seq<Point>, t: int): (i: int)
    ensures -1 <= i < |points|
    ensures i >= 0 ==> points[i].ts <= t
    ensures forall k :: i < k < |points| ==> points[k].ts > t
  {
    if points == [] then -1
    else if points[|points| - 1].ts <= t then |points| - 1
    else LastAtOrBefore(points[..|points| - 1], t)
  }

  /** The status the engine assumes at instant `t`: that of the latest
      observation at or before `t`; before the first observation, that of the
      first observation; with no observations at all, `"inactive"`. */
  function StatusAt(points: seq<Point>, t: int): Status
  {
    var i := LastAtOrBefore(points, t);
    if i >= 0 then points[i].status
    else if points != [] then points[0].status
    else INACTIVE
  }

  /** For ascending observations, between observation `i` and the next one the
      status is observation `i`'s. */
  lemma StatusAtIndex(points: seq<Point>, i: int, t: int)
    requires Sorted(points)
    requires 0 <= i < |points| && points[i].ts <= t
    requires i + 1 == |points| || t < points[i + 1].ts
    ensures LastAtOrBefore(points, t) == i
    ensures StatusAt(points, t) == points[i].status
  {
  }

  /** For ascending observations, before the first one the status is the first
      one's, or `"inactive"` when there is none. */
  lemma StatusBeforeFirst(points: seq<Point>, t: int)
    requires Sorted(points)
    requires points == [] || t < points[0].ts
    ensures StatusAt(points, t) == if points == [] then INACTIVE else points[0].status
  {
  }

  /** `next((p for p in points if p.ts >= t), None)`: the first observation at
      or after `t`. */
  function FirstAtOrAfter(points: seq<Point>, t: int): (r: Option<Point>)
    ensures r.None? <==> forall j :: 0 <= j < |points| ==> points[j].ts < t
    ensures r.Some? ==> exists j :: 0 <= j < |points| && points[j] == r.value && points[j].ts >= t &&
                                    forall k :: 0 <= k < j ==> points[k].ts < t
  {
    if points == [] then None
    else if points[0].ts >= t then Some(points[0])
    else
      var r := FirstAtOrAfter(points[1..], t);
      assert forall j :: 1 <= j < |points| ==> points[1..][j - 1] == points[j];
      r
  }

  // ---------------------------------------------------------------------
  // What a reconstruction promises
  // ---------------------------------------------------------------------

  /** Some observation has timestamp `t`. */
  ghost predicate ObservedAt(points: seq<Point>, t: int)
  {
    exists j :: 0 <= j < |points| && points[j].ts == t
  }

  /** `s` is the status of some observation, or `"inactive"` when there are none. */
  ghost predicate StatusOccurs(points: seq<Point>, s: Status)
  {
    (points == [] && s == INACTIVE) || exists j :: 0 <= j < |points| && points[j].status == s
  }

  /** The instants where one segment ends and the next begins. */
  ghost function Boundaries(segs: seq<Segment>): set<int>
  {
    set k | 0 < k < |segs| :: segs[k].iv.start
  }

  /** The distinct observation timestamps strictly inside `(a, b)`. */
  ghost function ObservedWithin(points: seq<Point>, a: int, b: int): set<int>
  {
    set j | 0 <= j < |points| && a < points[j].ts < b :: points[j].ts
  }

  /** Every segment carries the reference status at each of its instants. */
  ghost predicate SegmentsAgree(points: seq<Point>, segs: seq<Segment>)
  {
    forall k, t :: 0 <= k < |segs| && segs[k].iv.start <= t < segs[k].iv.end ==>
      StatusAt(points, t) == segs[k].status
  }

  lemma BoundariesSnoc(segs: seq<Segment>, x: Segment)
    ensures Boundaries(segs + [x]) == Boundaries(segs) + (if |segs| > 0 then {x.iv.start} else {})
  {
    var s := segs + [x];
    assert forall k :: 0 <= k < |segs| ==> s[k] == segs[k];
    if |segs| > 0 {
      assert s[|segs|].iv.start in Boundaries(s);
    }
  }

  lemma ObservedSnoc(points: seq<Point>, i: int, a: int, b: int)
    requires 0 <= i < |points|
    ensures ObservedWithin(points[..i + 1], a, b) ==
            ObservedWithin(points[..i], a, b) + (if a < points[i].ts < b then {points[i].ts} else {})
  {
    var p, q := points[..i + 1], points[..i];
    assert forall j :: 0 <= j < i ==> p[j] == q[j];
    if a < points[i].ts < b {
      assert p[i].ts in ObservedWithin(p, a, b);
    }
  }

  /** Observations from the first one at or after `b` on add no timestamp
      inside `(a, b)`. */
  lemma ObservedPrefix(points: seq<Point>, i: int, a: int, b: int)
    requires Sorted(points) && 0 <= i <= |points|
    requires i == |points| || points[i].ts >= b
    ensures ObservedWithin(points[..i], a, b) == ObservedWithin(points, a, b)
  {
    var q := points[..i];
    assert forall j :: 0 <= j < i ==> q[j] == points[j];
    forall t | t in ObservedWithin(points, a, b)
      ensures t in ObservedWithin(q, a, b)
    {
      var j :| 0 <= j < |points| && a < points[j].ts < b && points[j].ts == t;
      assert j < i;
    }
  }

  // ---------------------------------------------------------------------
  // interpolate_segments
  // ---------------------------------------------------------------------

  /** The state in effect at the window start (the first half of
      `interpolate_segments`): the status of the last of the leading
      observations at or before `start`; failing that, the first observation
      at or after `start`; failing that, `"inactive"`. For ascending
      observations this is the reference status at `start`. */
  method BaseStatus(points: seq<Point>, start: int) returns (baseStatus: Status)
    ensures StatusOccurs(points, baseStatus)
    ensures Sorted(points) ==> baseStatus == StatusAt(points, start)
  {
    // The latest observation at or before the window start.
    var prior: Option<Point> := None;
    var i := 0;
    while i < |points|
      invariant 0 <= i <= |points|
      invariant forall j :: 0 <= j < i ==> points[j].ts <= start
      invariant prior == if i == 0 then None else Some(points[i - 1])
    {
      if points[i].ts <= start {
        prior := Some(points[i]);
      } else {
        break;
      }
      i := i + 1;
    }
    if prior.None? {
      var future := FirstAtOrAfter(points, start);
      baseStatus := if future.Some? then future.value.status else INACTIVE;
    } else {
      baseStatus := prior.value.status;
    }
    if Sorted(points) {
      if prior.None? {
        StatusBeforeFirst(points, start);
      } else {
        StatusAtIndex(points, i - 1, start);
      }
    }
  }

  /** What a reconstruction of the window `[start, end)` from `points` is:
      no segment for an empty window; otherwise segments that cut the window
      into non-empty, contiguous pieces at observation timestamps, each
      labelled with some observed status (or `"inactive"` without
      observations). For ascending observations the cuts are exactly the
      distinct timestamps strictly inside the window, and every instant
      carries the reference status. `ReconstructionUnique` shows that for
      ascending observations this leaves exactly one choice of segments. */
  ghost predicate Reconstructs(points: seq<Point>, start: int, end: int, segs: seq<Segment>)
  {
    (start >= end ==> segs == []) &&
    (start < end ==> Tiles(Spans(segs), start, end)) &&
    (forall k :: 0 < k < |segs| ==> ObservedAt(points, segs[k].iv.start)) &&
    (forall k :: 0 <= k < |segs| ==> StatusOccurs(points, segs[k].status)) &&
    (Sorted(points) ==> Boundaries(segs) == ObservedWithin(points, start, end)) &&
    (Sorted(points) ==> SegmentsAgree(points, segs))
  }

  /** The cut instants of a list of segments, in order. */
  ghost function Cuts(segs: seq<Segment>): (cs: seq<int>)
    ensures |cs| == if segs == [] then 0 else |segs| - 1
    ensures forall i :: 0 <= i < |cs| ==> cs[i] == segs[i + 1].iv.start
  {
    if segs == [] then [] else seq(|segs| - 1, i requires 0 <= i < |segs| - 1 => segs[i + 1].iv.start)
  }

  /** Ascending without repetition. */
  ghost predicate StrictlyIncreasing(xs: seq<int>)
  {
    forall i, j :: 0 <= i < j < |xs| ==> xs[i] < xs[j]
  }

  /** The pieces of a tiling start at strictly increasing instants. */
  lemma {:induction false} TilesStartsIncrease(ivs: seq<Interval>, a: int, b: int, i: int, j: int)
    requires Tiles(ivs, a, b) && 0 <= i < j < |ivs|
    ensures ivs[i].start < ivs[j].start
    decreases j - i
  {
    if i + 1 < j {
      TilesStartsIncrease(ivs, a, b, i + 1, j);
    }
  }

  /** The cuts of segments tiling a window ascend strictly and form their
      boundary set. */
  lemma CutsOfTiling(segs: seq<Segment>, a: int, b: int)
    requires Tiles(Spans(segs), a, b)
    ensures StrictlyIncreasing(Cuts(segs))
    ensures forall x :: x in Cuts(segs) <==> x in Boundaries(segs)
  {
    var cs := Cuts(segs);
    forall i, j | 0 <= i < j < |cs|
      ensures cs[i] < cs[j]
    {
      TilesStartsIncrease(Spans(segs), a, b, i + 1, j + 1);
    }
    forall x | x in Boundaries(segs)
      ensures x in cs
    {
      var k :| 0 < k < |segs| && segs[k].iv.start == x;
      assert cs[k - 1] == x;
    }
  }

  /** Two strictly ascending sequences with the same elements are equal. */
  lemma {:induction false} AscendingBySet(xs: seq<int>, ys: seq<int>)
    requires StrictlyIncreasing(xs) && StrictlyIncreasing(ys)
    requires forall z :: z in xs <==> z in ys
    ensures xs == ys
  {
    assert ys != [] ==> ys[0] in ys;
    if xs != [] {
      AscendingSameHead(xs, ys);
      var xt, yt := xs[1..], ys[1..];
      forall z
        ensures z in xt <==> z in yt
      {
        if z in xt {
          AscendingSameTail(xs, ys, z);
        }
        if z in yt {
          AscendingSameTail(ys, xs, z);
        }
      }
      AscendingBySet(xt, yt);
      assert xs == [xs[0]] + xt && ys == [ys[0]] + yt;
    }
  }

  /** ... and so begin with the same, least, element. */
  lemma AscendingSameHead(xs: seq<int>, ys: seq<int>)
    requires StrictlyIncreasing(xs) && StrictlyIncreasing(ys)
    requires forall z :: z in xs <==> z in ys
    requires xs != []
    ensures ys != [] && xs[0] == ys[0]
  {
    assert xs[0] in xs;
    var j :| 0 <= j < |ys| && ys[j] == xs[0];
    assert ys[0] in ys;
    var i :| 0 <= i < |xs| && xs[i] == ys[0];
  }

  /** ... and what follows the shared head in one follows it in the other. */
  lemma AscendingSameTail(xs: seq<int>, ys: seq<int>, z: int)
    requires StrictlyIncreasing(xs) && StrictlyIncreasing(ys)
    requires forall z :: z in xs <==> z in ys
    requires xs != [] && ys != [] && xs[0] == ys[0]
    requires z in xs[1..]
    ensures z in ys[1..]
  {
    var i :| 0 <= i < |xs[1..]| && xs[1..][i] == z;
    assert xs[i + 1] == z && z in xs;
    var j :| 0 <= j < |ys| && ys[j] == z;
    assert j > 0 && ys[1..][j - 1] == z;
  }

  /** For ascending observations a window has exactly one reconstruction: the
      segments, and so any figures computed from them, are determined by the
      observations and the window. */
  lemma ReconstructionUnique(points: seq<Point>, start: int, end: int, a: seq<Segment>, b: seq<Segment>)
    requires Sorted(points)
    requires Reconstructs(points, start, end, a) && Reconstructs(points, start, end, b)
    ensures a == b
  {
    if start < end {
      CutsOfTiling(a, start, end);
      CutsOfTiling(b, start, end);
      AscendingBySet(Cuts(a), Cuts(b));
      assert |a| == |b|;
      forall k | 0 <= k < |a|
        ensures a[k] == b[k]
      {
        SegmentAt(points, start, end, a, k);
        SegmentAt(points, start, end, b, k);
      }
    }
  }

  /** Segment `k` of a reconstruction is fixed by its cuts and the reference
      status. */
  lemma SegmentAt(points: seq<Point>, start: int, end: int, segs: seq<Segment>, k: int)
    requires Sorted(points) && start < end
    requires Reconstructs(points, start, end, segs) && 0 <= k < |segs|
    ensures segs[k].iv.start == if k == 0 then start else Cuts(segs)[k - 1]
    ensures segs[k].iv.end == if k == |segs| - 1 then end else Cuts(segs)[k]
    ensures segs[k].status == StatusAt(points, segs[k].iv.start)
  {
    var ivs := Spans(segs);
    assert ivs[k] == segs[k].iv;
    if k < |segs| - 1 {
      assert ivs[k + 1] == segs[k + 1].iv;
    }
  }

  /** `interpolate_segments`: contiguous status segments covering
      `[start, end)`. The segments always cut the window into non-empty,
      contiguous pieces at observation timestamps, each labelled with some
      observed status (or `"inactive"` without observations). For ascending
      observations the cuts are exactly the distinct timestamps strictly
      inside the window, and every instant carries the reference status:
      the status carried forward from the latest observation at or before
      it, the first observation's before any. */
  method InterpolateSegments(points: seq<Point>, start: int, end: int) returns (segs: seq<Segment>)
    ensures Reconstructs(points, start, end, segs)
  {
    if start >= end {
      return [];
    }

    var baseStatus := BaseStatus(points, start);

    segs := [];
    var curT := start;
    var curStatus := baseStatus;
    var i := 0;
    while i < |points|
      invariant LoopInv(points, start, end, baseStatus, i, segs, curT, curStatus) == true  // one fact, see `LoopInv`
    {
      var p := points[i];
      if p.ts <= start {
        // already accounted for in the base status
        SkipStep(points, start, end, baseStatus, i, segs, curT, curStatus);
      } else if p.ts >= end {
        break;
      } else if p.ts > curT {
        ghost var segs0, curT0, curStatus0 := segs, curT, curStatus;
        segs := segs + [Segment(Interval(curT, p.ts), curStatus)];
        curT := p.ts;
        curStatus := p.status;
        AdvanceStep(points, start, end, baseStatus, i, segs0, curT0, curStatus0, segs, curT, curStatus);
      } else {
        ghost var curStatus0 := curStatus;
        curStatus := p.status;
        TieStep(points, start, end, baseStatus, i, segs, curT, curStatus0, curStatus);
      }
      i := i + 1;
    }
    ghost var open := segs;
    LoopInvBounds(points, start, end, baseStatus, i, segs, curT, curStatus);
    if curT < end {
      segs := segs + [Segment(Interval(curT, end), curStatus)];
    }
    FinalStep(points, start, end, baseStatus, i, open, curT, curStatus, segs);
  }

  /** The invariant of the segment loop: `Progress` always, `SortedProgress`
      for ascending observations. Where it is required it is written
      `LoopInv(...) == true`, which makes the verifier check it as one fact
      rather than conjunct by conjunct. */
  ghost predicate LoopInv(points: seq<Point>, start: int, end: int, baseStatus: Status,
                          i: int, segs: seq<Segment>, curT: int, curStatus: Status)
  {
    Progress(points, start, end, baseStatus, i, segs, curT, curStatus) &&
    (Sorted(points) ==> SortedProgress(points, start, end, i, segs, curT, curStatus))
  }

  /** What the segment loop of `interpolate_segments` keeps after looking at
      `points[..i]`: the segments tile `[start, curT)`, every cut and every
      status comes from an observation, and the carried status is the base
      status until the first cut. */
  ghost predicate Progress(points: seq<Point>, start: int, end: int, baseStatus: Status,
                           i: int, segs: seq<Segment>, curT: int, curStatus: Status)
  {
    0 <= i <= |points| && start <= curT < end &&
    Tiles(Spans(segs), start, curT) &&
    (forall k :: 0 < k < |segs| ==> ObservedAt(points, segs[k].iv.start)) &&
    (curT > start ==> ObservedAt(points, curT)) &&
    (forall k :: 0 <= k < |segs| ==> StatusOccurs(points, segs[k].status)) &&
    StatusOccurs(points, curStatus) &&
    (curT == start ==> curStatus == baseStatus) &&
    (Sorted(points) ==> baseStatus == StatusAt(points, start))
  }

  /** What the loop keeps for ascending observations: `curT` is the latest
      timestamp seen inside the window, the cuts so far and `curT` are the
      timestamps seen inside the window, the segments carry the reference
      status, and so does every instant from `curT` up to the next
      observation. */
  ghost predicate SortedProgress(points: seq<Point>, start: int, end: int,
                                 i: int, segs: seq<Segment>, curT: int, curStatus: Status)
    requires 0 <= i <= |points|
  {
    curT == (if i > 0 && points[i - 1].ts > start then points[i - 1].ts else start) &&
    (forall j :: 0 <= j < i ==> points[j].ts < end) &&
    Boundaries(segs) + (if curT > start then {curT} else {}) == ObservedWithin(points[..i], start, end) &&
    SegmentsAgree(points, segs) &&
    forall t :: curT <= t && (i == |points| || t < points[i].ts) ==> StatusAt(points, t) == curStatus
  }

  /** An observation at or before the window start changes nothing. */
  lemma SkipStep(points: seq<Point>, start: int, end: int, baseStatus: Status,
                 i: int, segs: seq<Segment>, curT: int, curStatus: Status)
    requires LoopInv(points, start, end, baseStatus, i, segs, curT, curStatus) == true && i < |points|  // one fact, see `LoopInv`
    requires points[i].ts <= start
    ensures LoopInv(points, start, end, baseStatus, i + 1, segs, curT, curStatus)
  {
    if Sorted(points) {
      ObservedSnoc(points, i, start, end);
      SkipPreservesAgreement(points, i, start, curT, curStatus);
    }
  }

  /** An observation after the open segment's start closes it there. */
  lemma AdvanceStep(points: seq<Point>, start: int, end: int, baseStatus: Status,
                    i: int, segs: seq<Segment>, curT: int, curStatus: Status,
                    segs': seq<Segment>, curT': int, curStatus': Status)
    requires LoopInv(points, start, end, baseStatus, i, segs, curT, curStatus) == true && i < |points|  // one fact, see `LoopInv`
    requires start < points[i].ts < end && points[i].ts > curT
    requires segs' == segs + [Segment(Interval(curT, points[i].ts), curStatus)]
    requires curT' == points[i].ts && curStatus' == points[i].status
    ensures LoopInv(points, start, end, baseStatus, i + 1, segs', curT', curStatus')
  {
    var x := Segment(Interval(curT, points[i].ts), curStatus);
    SpansSnoc(segs, x);
    TilesSnoc(Spans(segs), start, x.iv);
    assert forall k :: 0 <= k < |segs| ==> segs'[k] == segs[k];
    assert ObservedAt(points, points[i].ts);
    if Sorted(points) {
      StepPreservesAgreement(points, i, start, end, baseStatus, segs, curT, curStatus,
                             segs', points[i].ts, points[i].status);
    }
  }

  /** An observation at the open segment's own start only replaces its status. */
  lemma TieStep(points: seq<Point>, start: int, end: int, baseStatus: Status,
                i: int, segs: seq<Segment>, curT: int, curStatus: Status, curStatus': Status)
    requires LoopInv(points, start, end, baseStatus, i, segs, curT, curStatus) == true && i < |points|  // one fact, see `LoopInv`
    requires start < points[i].ts < end && points[i].ts <= curT
    requires curStatus' == points[i].status
    ensures LoopInv(points, start, end, baseStatus, i + 1, segs, curT, curStatus')
  {
    assert StatusOccurs(points, points[i].status);
    if Sorted(points) {
      StepPreservesAgreement(points, i, start, end, baseStatus, segs, curT, curStatus,
                             segs, points[i].ts, points[i].status);
    }
  }

  /** The open segment always starts inside the window. */
  lemma LoopInvBounds(points: seq<Point>, start: int, end: int, baseStatus: Status,
                      i: int, segs: seq<Segment>, curT: int, curStatus: Status)
    requires LoopInv(points, start, end, baseStatus, i, segs, curT, curStatus) == true  // one fact, see `LoopInv`
    ensures start <= curT < end
  {
  }

  /** Closing the open segment at `end` completes the reconstruction. */
  lemma FinalStep(points: seq<Point>, start: int, end: int, baseStatus: Status,
                  i: int, segs: seq<Segment>, curT: int, curStatus: Status, segs': seq<Segment>)
    requires LoopInv(points, start, end, baseStatus, i, segs, curT, curStatus) == true  // one fact, see `LoopInv`
    requires i == |points| || points[i].ts >= end
    requires segs' == segs + [Segment(Interval(curT, end), curStatus)]
    ensures Tiles(Spans(segs'), start, end)
    ensures forall k :: 0 < k < |segs'| ==> ObservedAt(points, segs'[k].iv.start)
    ensures forall k :: 0 <= k < |segs'| ==> StatusOccurs(points, segs'[k].status)
    ensures Sorted(points) ==> Boundaries(segs') == ObservedWithin(points, start, end)
    ensures Sorted(points) ==> SegmentsAgree(points, segs')
  {
    var x := Segment(Interval(curT, end), curStatus);
    SpansSnoc(segs, x);
    TilesSnoc(Spans(segs), start, x.iv);
    assert forall k :: 0 <= k < |segs| ==> segs'[k] == segs[k];
    if Sorted(points) {
      FinalAgreement(points, start, end, baseStatus, i, segs, curT, curStatus, segs');
    }
  }

  /** For ascending observations, the closed segments cut exactly at the
      timestamps inside the window and carry the reference status. */
  lemma FinalAgreement(points: seq<Point>, start: int, end: int, baseStatus: Status,
                       i: int, segs: seq<Segment>, curT: int, curStatus: Status, segs': seq<Segment>)
    requires Sorted(points)
    requires LoopInv(points, start, end, baseStatus, i, segs, curT, curStatus) == true  // one fact, see `LoopInv`
    requires i == |points| || points[i].ts >= end
    requires segs' == segs + [Segment(Interval(curT, end), curStatus)]
    ensures Boundaries(segs') == ObservedWithin(points, start, end)
    ensures SegmentsAgree(points, segs')
  {
    var x := Segment(Interval(curT, end), curStatus);
    BoundariesSnoc(segs, x);
    TilesSnoc(Spans(segs), start, x.iv);
    ObservedPrefix(points, i, start, end);
    assert Boundaries(segs') == ObservedWithin(points, start, end);
    forall k, t | 0 <= k < |segs'| && segs'[k].iv.start <= t < segs'[k].iv.end
      ensures StatusAt(points, t) == segs'[k].status
    {
      if k == |segs| {
        assert curT <= t && (i == |points| || t < points[i].ts);
      } else {
        assert segs'[k] == segs[k];
      }
    }
  }

  /** An observation at or before the window start leaves the carried status
      in force up to the next observation. */
  lemma SkipPreservesAgreement(points: seq<Point>, i: int, start: int, curT: int, curStatus: Status)
    requires Sorted(points) && 0 <= i < |points|
    requires points[i].ts <= start
    requires curT == if i > 0 && points[i - 1].ts > start then points[i - 1].ts else start
    requires curStatus == StatusAt(points, start)
    ensures curT == start
    ensures forall t :: curT <= t && (i + 1 == |points| || t < points[i + 1].ts) ==> StatusAt(points, t) == curStatus
  {
    forall t | curT <= t && (i + 1 == |points| || t < points[i + 1].ts)
      ensures StatusAt(points, t) == curStatus
    {
      StatusAtIndex(points, i, t);
      StatusAtIndex(points, i, start);
    }
  }

  /** One step of the segment loop keeps the boundary set and the agreement
      with the reference status. */
  lemma StepPreservesAgreement(points: seq<Point>, i: int, start: int, end: int, baseStatus: Status,
                               segs: seq<Segment>, curT: int, curStatus: Status,
                               segs': seq<Segment>, curT': int, curStatus': Status)
    requires Sorted(points) && 0 <= i < |points|
    requires start < points[i].ts < end
    requires start <= curT < end
    requires Tiles(Spans(segs), start, curT)
    requires baseStatus == StatusAt(points, start)
    requires curT == start ==> curStatus == baseStatus
    requires curT == if i > 0 && points[i - 1].ts > start then points[i - 1].ts else start
    requires Boundaries(segs) + (if curT > start then {curT} else {}) == ObservedWithin(points[..i], start, end)
    requires SegmentsAgree(points, segs)
    requires forall t :: curT <= t && t < points[i].ts ==> StatusAt(points, t) == curStatus
    requires points[i].ts > curT ==>
               segs' == segs + [Segment(Interval(curT, points[i].ts), curStatus)]
    requires points[i].ts <= curT ==> segs' == segs
    requires curT' == points[i].ts && curStatus' == points[i].status
    ensures Boundaries(segs') + {curT'} == ObservedWithin(points[..i + 1], start, end)
    ensures SegmentsAgree(points, segs')
    ensures forall t :: curT' <= t && (i + 1 == |points| || t < points[i + 1].ts) ==> StatusAt(points, t) == curStatus'
  {
    ObservedSnoc(points, i, start, end);
    if points[i].ts > curT {
      BoundariesSnoc(segs, Segment(Interval(curT, points[i].ts), curStatus));
      TilesWithin(Spans(segs), start, curT);
      assert |segs| > 0 <==> curT > start;
    } else {
      assert curT > start && points[i].ts == curT;
    }
    forall t | curT' <= t && (i + 1 == |points| || t < points[i + 1].ts)
      ensures StatusAt(points, t) == curStatus'
    {
      StatusAtIndex(points, i, t);
    }
  }
}
