/** The report row of one store: up and down time inside business hours over
    the last hour, day and week (`compute_store_metrics` and its helpers in
    `app/report_logic.py`). */
module Metrics {
  import opened Wrappers
  import opened Clock
  import opened UtilsTime
  import opened HoursParse
  import opened Timeline
  import opened Aggregate
  import opened Business

  /** The latest timestamp of a non-empty sequence. */
  function MaxTimestamp(ts: seq<int>): (m: int)
    requires ts != []
    ensures m in ts
    ensures forall k :: 0 <= k < |ts| ==> ts[k] <= m
  {
    if |ts| == 1 then ts[0]
    else
      var rest := MaxTimestamp(ts[..|ts| - 1]);
      if ts[|ts| - 1] > rest then ts[|ts| - 1] else rest
  }

  /** `get_now`: the latest observation of any store, or the wall clock
      (passed in as `clock`) when there is none. */
  function GetNow(allTs: seq<int>, clock: int): (now: int)
    ensures allTs == [] ==> now == clock
    ensures allTs != [] ==> now in allTs && forall k :: 0 <= k < |allTs| ==> allTs[k] <= now
  {
    if allTs == [] then clock else MaxTimestamp(allTs)
  }

  /** The `where timestamp_utc <= end` of `fetch_status_points`: the
      observations at or before `end`, in stored order. */
  function AtOrBefore(rows: seq<Point>, end: int): (pts: seq<Point>)
    ensures |pts| <= |rows|
    ensures forall k :: 0 <= k < |pts| ==> pts[k].ts <= end
    ensures forall p :: p in pts <==> p in rows && p.ts <= end
  {
    if rows == [] then []
    else
      var rest := AtOrBefore(rows[..|rows| - 1], end);
      assert forall p :: p in rows <==> p in rows[..|rows| - 1] || p == rows[|rows| - 1];
      if rows[|rows| - 1].ts <= end then rest + [rows[|rows| - 1]] else rest
  }

  /** `p` placed into ascending `s` after every observation not later than it. */
  function InsertByTs(p: Point, s: seq<Point>): (r: seq<Point>)
    requires Sorted(s)
    ensures Sorted(r)
    ensures multiset(r) == multiset(s) + multiset{p}
  {
    if s == [] then [p]
    else if p.ts < s[0].ts then [p] + s
    else
      var rest := InsertByTs(p, s[1..]);
      InsertStep(p, s, rest);
      [s[0]] + rest
  }

  /** The recursive case of `InsertByTs`: the head of `s` stays in front. */
  lemma InsertStep(p: Point, s: seq<Point>, rest: seq<Point>)
    requires s != [] && Sorted(s) == true && s[0].ts <= p.ts  // one fact, as for `Timeline.LoopInv`
    requires Sorted(rest) == true && multiset(rest) == multiset(s[1..]) + multiset{p}  // one fact, as for `Timeline.LoopInv`
    ensures Sorted([s[0]] + rest)
    ensures multiset([s[0]] + rest) == multiset(s) + multiset{p}
  {
    assert s == [s[0]] + s[1..];
    forall j, k | 0 <= j <= k < |[s[0]] + rest|
      ensures ([s[0]] + rest)[j].ts <= ([s[0]] + rest)[k].ts
    {
      if j == 0 && k > 0 {
        var q := rest[k - 1];
        assert q in multiset(rest);
        assert q == p || q in s[1..];
      }
    }
  }

  /** The `order_by(timestamp_utc.asc())` of `fetch_status_points`: the rows
      in ascending time order, a permutation of them. Rows with equal
      timestamps keep their stored order. */
  function SortByTs(rows: seq<Point>): (r: seq<Point>)
    ensures Sorted(r)
    ensures multiset(r) == multiset(rows)
  {
    if rows == [] then []
    else
      var n := |rows| - 1;
      assert rows == rows[..n] + [rows[n]];
      InsertByTs(rows[n], SortByTs(rows[..n]))
  }

  /** `fetch_status_points`: the store's observations at or before `end`, in
      ascending time order. The query has no lower bound. */
  function FetchStatusPoints(rows: seq<Point>, end: int): (pts: seq<Point>)
    ensures Sorted(pts)
    ensures multiset(pts) == multiset(AtOrBefore(rows, end))
    ensures forall p :: p in pts <==> p in rows && p.ts <= end
  {
    var r := SortByTs(AtOrBefore(rows, end));
    assert forall p :: p in r <==> p in multiset(r);
    r
  }

  /** An observation not earlier than any of ascending `s` goes last. */
  lemma {:induction false} InsertLast(p: Point, s: seq<Point>)
    requires Sorted(s)
    requires forall k :: 0 <= k < |s| ==> s[k].ts <= p.ts
    ensures InsertByTs(p, s) == s + [p]
  {
    if s != [] {
      InsertLast(p, s[1..]);
      assert s == [s[0]] + s[1..];
    }
  }

  /** Sorting rows that are already ascending leaves them as they are. */
  lemma {:induction false} SortSorted(rows: seq<Point>)
    requires Sorted(rows)
    ensures SortByTs(rows) == rows
  {
    if rows != [] {
      var n := |rows| - 1;
      assert Sorted(rows[..n]);
      SortSorted(rows[..n]);
      InsertLast(rows[n], rows[..n]);
      assert rows[..n] + [rows[n]] == rows;
    }
  }

  /** Filtering keeps ascending rows ascending. */
  lemma {:induction false} AtOrBeforeKeepsOrder(rows: seq<Point>, end: int)
    requires Sorted(rows)
    ensures Sorted(AtOrBefore(rows, end))
  {
    if rows != [] {
      var n := |rows| - 1;
      assert Sorted(rows[..n]);
      AtOrBeforeKeepsOrder(rows[..n], end);
      var rest := AtOrBefore(rows[..n], end);
      forall j | 0 <= j < |rest|
        ensures rest[j].ts <= rows[n].ts
      {
        assert rest[j] in rows[..n];
      }
    }
  }

  /** On rows already stored in ascending order, the fetch is just the filter:
      sorting changes nothing. */
  lemma FetchKeepsOrder(rows: seq<Point>, end: int)
    requires Sorted(rows)
    ensures FetchStatusPoints(rows, end) == AtOrBefore(rows, end)
  {
    AtOrBeforeKeepsOrder(rows, end);
    SortSorted(AtOrBefore(rows, end));
  }

  /** The three report windows, in the order the report lists them. */
  datatype WindowKey = LastHour | LastDay | LastWeek

  function WindowLength(key: WindowKey): (len: int)
    ensures len > 0
  {
    match key
    case LastHour => HOUR
    case LastDay => DAY
    case LastWeek => 7 * DAY
  }

  datatype Window = Window(key: WindowKey, start: int, end: int)

  /** `window_ranges`: each window ends at `now` and reaches back its own
      length. */
  function WindowRanges(now: int): (ws: seq<Window>)
    ensures |ws| == 3
    ensures ws[0].key == LastHour && ws[1].key == LastDay && ws[2].key == LastWeek
    ensures forall k :: 0 <= k < 3 ==> ws[k].end == now && ws[k].start == now - WindowLength(ws[k].key)
  {
    [Window(LastHour, now - HOUR, now), Window(LastDay, now - DAY, now), Window(LastWeek, now - 7 * DAY, now)]
  }

  /** The windows are nested and non-empty: the week contains the day, which
      contains the hour. */
  lemma WindowsNested(now: int)
    ensures var ws := WindowRanges(now);
            ws[2].start < ws[1].start < ws[0].start < now
  {
  }

  /** The unit a window's figures are reported in. */
  datatype Unit = Minutes | Hours

  function UnitOf(key: WindowKey): (u: Unit)
    ensures u == Minutes <==> key == LastHour
  {
    if key == LastHour then Minutes else Hours
  }

  function UnitLength(u: Unit): (len: int)
    ensures len > 0
  {
    match u
    case Minutes => MINUTE
    case Hours => HOUR
  }

  /** The figures of one window; the times are in microseconds. */
  datatype WindowMetrics = WindowMetrics(key: WindowKey, unit: Unit, up: int, down: int)

  /** The up time as reported: the number of the window's units (minutes
      or hours) that make up `m.up`. */
  function ReportedUp(m: WindowMetrics): (r: real)
    ensures m.up >= 0 ==> r >= 0.0
    ensures r * UnitLength(m.unit) as real == m.up as real
  {
    m.up as real / UnitLength(m.unit) as real
  }

  /** The down time as reported, in the same way. */
  function ReportedDown(m: WindowMetrics): (r: real)
    ensures m.down >= 0 ==> r >= 0.0
    ensures r * UnitLength(m.unit) as real == m.down as real
  {
    m.down as real / UnitLength(m.unit) as real
  }

  /** When business hours cover a whole window, the reported up and down
      times add up to 60 minutes, 24 hours or 168 hours. */
  lemma FullWindowReport(m: WindowMetrics)
    requires m.unit == UnitOf(m.key)
    requires m.up + m.down == WindowLength(m.key)
    ensures ReportedUp(m) + ReportedDown(m) ==
            (match m.key case LastHour => 60.0 case LastDay => 24.0 case LastWeek => 168.0)
  {
    var u := UnitLength(m.unit) as real;
    assert ReportedUp(m) + ReportedDown(m) == (m.up + m.down) as real / u;
  }

  /** The observations the report of a store is computed from. */
  function ReportPoints(allTs: seq<int>, clock: int, rows: seq<Point>): seq<Point>
  {
    FetchStatusPoints(rows, GetNow(allTs, clock))
  }

  /** Every observation reports the store up. */
  predicate AllActive(points: seq<Point>)
  {
    points != [] && forall p :: p in points ==> p.status == ACTIVE
  }

  /** What the report promises about the figures `m` of window `w`: they are
      `sum_overlap` of a reconstruction of the window from `points` against
      the window's business intervals, so up plus down is the business time,
      with no up time without observations and no down time when every
      observation is active. */
  ghost predicate FiguresHold(zone: Zone, rules: seq<Rule>, points: seq<Point>, w: Window, m: WindowMetrics)
  {
    var biz := BusinessIntervalsFor(zone, rules, w.start, w.end);
    m.key == w.key && m.unit == UnitOf(w.key) && m.up >= 0 && m.down >= 0 &&
    (exists segs :: Reconstructs(points, w.start, w.end, segs) &&
                    m.up == Total(segs, biz, true) && m.down == Total(segs, biz, false)) &&
    m.up + m.down == BusinessTime(biz) &&
    (points == [] ==> m.up == 0) &&
    (AllActive(points) ==> m.down == 0)
  }

  /** For ascending observations the figures of a window are determined: any
      two that the report may give are equal. */
  lemma FiguresDetermined(zone: Zone, rules: seq<Rule>, points: seq<Point>, w: Window,
                          m1: WindowMetrics, m2: WindowMetrics)
    requires Sorted(points)
    requires FiguresHold(zone, rules, points, w, m1) && FiguresHold(zone, rules, points, w, m2)
    ensures m1 == m2
  {
    var biz := BusinessIntervalsFor(zone, rules, w.start, w.end);
    var s1 :| Reconstructs(points, w.start, w.end, s1) &&
              m1.up == Total(s1, biz, true) && m1.down == Total(s1, biz, false);
    var s2 :| Reconstructs(points, w.start, w.end, s2) &&
              m2.up == Total(s2, biz, true) && m2.down == Total(s2, biz, false);
    ReconstructionUnique(points, w.start, w.end, s1, s2);
  }

  /** An always-open store in a fixed-offset zone whose observations are
      all active is reported up for the whole window and never down: 60
      minutes, 24 hours or 168 hours. The window must not end less than a
      second after a local midnight (`SubSecondEndDateSkipped`). */
  lemma AlwaysOpenActiveReport(offset: int, points: seq<Point>, w: Window, m: WindowMetrics)
    requires w.start == w.end - WindowLength(w.key)
    requires (w.end + offset) % DAY == 0 || (w.end + offset) % DAY >= SECOND
    requires AllActive(points)
    requires FiguresHold(FixedOffset(offset), AlwaysOpen(), points, w, m) == true  // one fact, as for `Timeline.LoopInv`
    ensures m.up == WindowLength(w.key) && m.down == 0
    ensures ReportedUp(m) == (match w.key case LastHour => 60.0 case LastDay => 24.0 case LastWeek => 168.0)
    ensures ReportedDown(m) == 0.0
  {
    FiguresTotals(FixedOffset(offset), AlwaysOpen(), points, w, m);
    AlwaysOpenWindowTime(offset, w.start, w.end);
    FullUpReport(m);
  }

  /** A window up for its whole length is reported as 60 minutes, 24 hours
      or 168 hours up and none down. */
  lemma FullUpReport(m: WindowMetrics)
    requires m.unit == UnitOf(m.key)
    requires m.up == WindowLength(m.key) && m.down == 0
    ensures ReportedUp(m) == (match m.key case LastHour => 60.0 case LastDay => 24.0 case LastWeek => 168.0)
    ensures ReportedDown(m) == 0.0
  {
    assert ReportedDown(m) == 0.0;
    FullWindowReport(m);
  }

  /** The totals `FiguresHold` fixes for one window. */
  lemma FiguresTotals(zone: Zone, rules: seq<Rule>, points: seq<Point>, w: Window, m: WindowMetrics)
    requires FiguresHold(zone, rules, points, w, m) == true  // one fact, as for `Timeline.LoopInv`
    ensures m.key == w.key && m.unit == UnitOf(w.key)
    ensures m.up + m.down == BusinessTime(BusinessIntervalsFor(zone, rules, w.start, w.end))
    ensures AllActive(points) ==> m.down == 0
  {
  }

  /** The sums of one window: segments that tile the window and business
      intervals inside it give up plus down equal to the business time, no up
      time without observations and no down time when all are active. */
  lemma {:induction false} WindowSums(points: seq<Point>, segs: seq<Segment>, biz: seq<Interval>, start: int, end: int)
    requires start < end ==> Tiles(Spans(segs), start, end)
    requires forall k :: 0 <= k < |segs| ==> StatusOccurs(points, segs[k].status)
    requires forall k :: 0 <= k < |biz| ==> start <= biz[k].start < biz[k].end <= end
    ensures Total(segs, biz, true) + Total(segs, biz, false) == BusinessTime(biz)
    ensures points == [] ==> Total(segs, biz, true) == 0
    ensures AllActive(points) ==> Total(segs, biz, false) == 0
  {
    if start >= end {
      if biz != [] {
        assert false;
      }
      return;
    }
    UpPlusDown(segs, biz, start, end);
    if points == [] {
      NoUpWithoutActive(segs, biz);
    }
    if AllActive(points) {
      forall j | 0 <= j < |segs|
        ensures IsUp(segs[j].status)
      {
        var i :| 0 <= i < |points| && points[i].status == segs[j].status;
        assert points[i] in points;
      }
      NoDownWhenAllActive(segs, biz);
    }
  }

  /** The body of the window loop of `compute_store_metrics`: the segments
      of the window, its business intervals (whose lookups may fail) and
      their overlap sums. */
  method WindowFigures(points: seq<Point>, w: Window, storedZone: Option<string>,
                       db: string -> Option<Zone>, recs: seq<RawRule>)
    returns (r: Result<WindowMetrics>)
    ensures GetStoreTimezone(storedZone, db).Err? ==> r == Err(UnknownTimeZone)
    ensures GetStoreTimezone(storedZone, db).Ok? && GetBusinessHours(recs).Err? ==>
              r == Err(GetBusinessHours(recs).error)
    ensures GetStoreTimezone(storedZone, db).Ok? && GetBusinessHours(recs).Ok? ==>
              r.Ok? && FiguresHold(GetStoreTimezone(storedZone, db).value, GetBusinessHours(recs).value, points, w, r.value)
  {
    var segs := InterpolateSegments(points, w.start, w.end);
    var biz := BusinessIntervalsUtcForRange(storedZone, db, recs, w.start, w.end);
    if biz.Err? {
      return Err(biz.error);
    }
    var up, down := SumOverlap(segs, biz.value);
    WindowSums(points, segs, biz.value, w.start, w.end);
    r := Ok(WindowMetrics(w.key, UnitOf(w.key), up, down));
    assert Reconstructs(points, w.start, w.end, segs) &&
           up == Total(segs, biz.value, true) && down == Total(segs, biz.value, false);
  }

  /** `compute_store_metrics`: one row of figures per window, in window
      order. A failed zone or hours lookup aborts the report with that error;
      otherwise the figures of every window satisfy `FiguresHold`. */
  method ComputeStoreMetrics(allTs: seq<int>, clock: int, rows: seq<Point>,
                             storedZone: Option<string>, db: string -> Option<Zone>,
                             recs: seq<RawRule>)
    returns (r: Result<seq<WindowMetrics>>)
    ensures GetStoreTimezone(storedZone, db).Err? ==> r == Err(UnknownTimeZone)
    ensures GetStoreTimezone(storedZone, db).Ok? && GetBusinessHours(recs).Err? ==>
              r == Err(GetBusinessHours(recs).error)
    ensures GetStoreTimezone(storedZone, db).Ok? && GetBusinessHours(recs).Ok? ==>
              r.Ok? && |r.value| == 3 &&
              forall k :: 0 <= k < 3 ==>
                FiguresHold(GetStoreTimezone(storedZone, db).value, GetBusinessHours(recs).value,
                            ReportPoints(allTs, clock, rows), WindowRanges(GetNow(allTs, clock))[k], r.value[k])
  {
    ghost var tz, hours := GetStoreTimezone(storedZone, db), GetBusinessHours(recs);
    var now := GetNow(allTs, clock);
    var windows := WindowRanges(now);
    var points := FetchStatusPoints(rows, now);
    var results: seq<WindowMetrics> := [];
    for k := 0 to |windows|
      invariant |results| == k
      invariant k > 0 ==> tz.Ok? && hours.Ok?
      invariant k > 0 ==> AllFiguresHold(tz.value, hours.value, points, windows, results) == true  // one fact, as for `Timeline.LoopInv`
    {
      var m := WindowFigures(points, windows[k], storedZone, db, recs);
      if m.Err? {
        return Err(m.error);
      }
      ghost var before := results;
      results := results + [m.value];
      AllFiguresSnoc(tz.value, hours.value, points, windows, before, m.value, results);
    }
    return Ok(results);
  }

  /** The figures so far hold for the windows they belong to. */
  ghost predicate AllFiguresHold(zone: Zone, rules: seq<Rule>, points: seq<Point>,
                                 ws: seq<Window>, ms: seq<WindowMetrics>)
  {
    |ms| <= |ws| && forall j :: 0 <= j < |ms| ==> FiguresHold(zone, rules, points, ws[j], ms[j])
  }

  /** One more window's figures extend the figures that hold. */
  lemma AllFiguresSnoc(zone: Zone, rules: seq<Rule>, points: seq<Point>, ws: seq<Window>,
                       ms: seq<WindowMetrics>, m: WindowMetrics, ms': seq<WindowMetrics>)
    requires |ms| < |ws|
    requires ms == [] || AllFiguresHold(zone, rules, points, ws, ms) == true  // one fact, as for `Timeline.LoopInv`
    requires FiguresHold(zone, rules, points, ws[|ms|], m) == true  // one fact, as for `Timeline.LoopInv`
    requires ms' == ms + [m]
    ensures AllFiguresHold(zone, rules, points, ws, ms')
  {
    assert forall j :: 0 <= j < |ms| ==> ms'[j] == ms[j];
  }
}
