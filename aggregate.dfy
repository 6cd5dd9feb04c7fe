/** Up and down time inside business hours (`sum_overlap` in
    `app/report_logic.py`). */
module Aggregate {
  import opened Wrappers
  import opened UtilsTime
  import opened Timeline

  /** Only the status `"active"` counts as up; every other string is down. */
  predicate IsUp(s: Status) { s == ACTIVE }

  /** The length of the overlap of two intervals, zero when there is none. */
  function Overlap(a: Interval, b: Interval): (d: int)
    ensures 0 <= d <= Duration(a) && d <= Duration(b)
  {
    match Intersect(a, b)
    case None => 0
    case Some(i) => Duration(i)
  }

  /** The time business interval `b` shares with the segments whose status
      is up (`up == true`) or down (`up == false`). */
  function Tally(b: Interval, segs: seq<Segment>, up: bool): (d: int)
    ensures d >= 0
  {
    if segs == [] then 0
    else
      var last := segs[|segs| - 1];
      Tally(b, segs[..|segs| - 1], up) + (if IsUp(last.status) == up then Overlap(last.iv, b) else 0)
  }

  /** `Tally` summed over all business intervals. */
  function Total(segs: seq<Segment>, biz: seq<Interval>, up: bool): (d: int)
    ensures d >= 0
  {
    if biz == [] then 0
    else Total(segs, biz[..|biz| - 1], up) + Tally(biz[|biz| - 1], segs, up)
  }

  /** The summed length of the business intervals. */
  function BusinessTime(biz: seq<Interval>): (d: int)
    ensures d >= 0
  {
    if biz == [] then 0 else BusinessTime(biz[..|biz| - 1]) + Duration(biz[|biz| - 1])
  }

  /** `sum_overlap`: for every business interval and every segment, the
      length of their overlap is added to `up` when the segment is active and
      to `down` otherwise. */
  method SumOverlap(segs: seq<Segment>, biz: seq<Interval>) returns (up: int, down: int)
    ensures up == Total(segs, biz, true) && down == Total(segs, biz, false)
    ensures up >= 0 && down >= 0
  {
    up, down := 0, 0;
    for i := 0 to |biz|
      invariant up == Total(segs, biz[..i], true) && down == Total(segs, biz[..i], false)
    {
      var b := biz[i];
      assert biz[..i + 1][..i] == biz[..i];
      for j := 0 to |segs|
        invariant up == Total(segs, biz[..i], true) + Tally(b, segs[..j], true)
        invariant down == Total(segs, biz[..i], false) + Tally(b, segs[..j], false)
      {
        assert segs[..j + 1][..j] == segs[..j];
        var seg := segs[j];
        var inter := Intersect(seg.iv, b);
        if inter.None? {
          continue;
        }
        var dur := Duration(inter.value);
        if seg.status == ACTIVE {
          up := up + dur;
        } else {
          down := down + dur;
        }
      }
      assert segs[..|segs|] == segs;
    }
    assert biz[..|biz|] == biz;
  }

  lemma OverlapCommutes(a: Interval, b: Interval)
    ensures Overlap(a, b) == Overlap(b, a)
  {
    IntersectCommutes(a, b);
  }

  /** Cutting `[a, c)` at `m` splits its overlap with `x` in two. */
  lemma OverlapSplit(x: Interval, a: int, m: int, c: int)
    requires a <= m <= c
    ensures Overlap(Interval(a, m), x) + Overlap(Interval(m, c), x) == Overlap(Interval(a, c), x)
  {
  }

  /** Up time plus down time of one business interval is its overlap with
      the window the segments tile: each instant is in exactly one segment,
      whichever its status. */
  lemma {:induction false} TallyCovers(b: Interval, segs: seq<Segment>, a: int, c: int)
    requires Tiles(Spans(segs), a, c)
    ensures Tally(b, segs, true) + Tally(b, segs, false) == Overlap(Interval(a, c), b)
  {
    if segs != [] {
      var n := |segs| - 1;
      var ivs := Spans(segs);
      TilesInit(ivs, a, c);
      assert Spans(segs[..n]) == ivs[..n];
      TilesWithin(ivs, a, c);
      TallyCovers(b, segs[..n], a, segs[n].iv.start);
      OverlapSplit(b, a, segs[n].iv.start, c);
    }
  }

  /** When the segments tile a window and every business interval lies in it,
      up time plus down time is exactly the business time. */
  lemma {:induction false} UpPlusDown(segs: seq<Segment>, biz: seq<Interval>, a: int, c: int)
    requires Tiles(Spans(segs), a, c)
    requires forall k :: 0 <= k < |biz| ==> a <= biz[k].start && biz[k].end <= c
    ensures Total(segs, biz, true) + Total(segs, biz, false) == BusinessTime(biz)
  {
    if biz != [] {
      var n := |biz| - 1;
      assert forall k :: 0 <= k < n ==> biz[..n][k] == biz[k];
      UpPlusDown(segs, biz[..n], a, c);
      TallyCovers(biz[n], segs, a, c);
    }
  }

  /** With no active segment there is no up time. */
  lemma {:induction false} NoUpWithoutActive(segs: seq<Segment>, biz: seq<Interval>)
    requires forall k :: 0 <= k < |segs| ==> !IsUp(segs[k].status)
    ensures Total(segs, biz, true) == 0
  {
    if biz != [] {
      NoUpWithoutActive(segs, biz[..|biz| - 1]);
      TallyOneSided(biz[|biz| - 1], segs, true);
    }
  }

  /** With only active segments there is no down time. */
  lemma {:induction false} NoDownWhenAllActive(segs: seq<Segment>, biz: seq<Interval>)
    requires forall k :: 0 <= k < |segs| ==> IsUp(segs[k].status)
    ensures Total(segs, biz, false) == 0
  {
    if biz != [] {
      NoDownWhenAllActive(segs, biz[..|biz| - 1]);
      TallyOneSided(biz[|biz| - 1], segs, false);
    }
  }

  /** A tally over segments none of which has the tallied kind is zero. */
  lemma {:induction false} TallyOneSided(b: Interval, segs: seq<Segment>, up: bool)
    requires forall k :: 0 <= k < |segs| ==> IsUp(segs[k].status) != up
    ensures Tally(b, segs, up) == 0
  {
    if segs != [] {
      var n := |segs| - 1;
      assert forall k :: 0 <= k < n ==> segs[..n][k] == segs[k];
      TallyOneSided(b, segs[..n], up);
    }
  }
}
