/** The interval primitive and the per-day calendar expansion of
    `app/utils_time.py`. */
module UtilsTime {
  import opened Wrappers
  import opened Clock

  /** A half-open range `[start, end)` of instants. As in the source, nothing
      stops a caller from building one with `start > end`. */
  datatype Interval = Interval(start: int, end: int)

  function Max(a: int, b: int): int { if a >= b then a else b }
  function Min(a: int, b: int): int { if a <= b then a else b }

  predicate Contains(iv: Interval, t: int) { iv.start <= t < iv.end }

  /** `duration_seconds`, in microseconds: never negative, and the length of
      the interval whenever it is well ordered. */
  function Duration(iv: Interval): (d: int)
    ensures d >= 0
    ensures iv.start <= iv.end ==> d == iv.end - iv.start
    ensures iv.start > iv.end ==> d == 0
  {
    Max(0, iv.end - iv.start)
  }

  /** `intersect`: the overlap of two intervals, or `None` when they share no
      instant (touching intervals do not overlap). */
  function Intersect(a: Interval, b: Interval): (r: Option<Interval>)
    ensures r.None? <==> Max(a.start, b.start) >= Min(a.end, b.end)
    ensures r.Some? ==> r.value.start < r.value.end
    ensures r.Some? ==> a.start <= r.value.start && b.start <= r.value.start
    ensures r.Some? ==> r.value.end <= a.end && r.value.end <= b.end
  {
    var s := Max(a.start, b.start);
    var e := Min(a.end, b.end);
    if s >= e then None else Some(Interval(s, e))
  }

  lemma IntersectCommutes(a: Interval, b: Interval)
    ensures Intersect(a, b) == Intersect(b, a)
  {
  }

  /** An instant lies in the intersection exactly when it lies in both
      operands, so the intersection is the largest interval inside both. */
  lemma IntersectContains(a: Interval, b: Interval, t: int)
    ensures (Contains(a, t) && Contains(b, t)) <==>
            (Intersect(a, b).Some? && Contains(Intersect(a, b).value, t))
  {
  }

  /** `make_utc`: a naive datetime is refused; an aware one is converted to
      UTC, which keeps the instant it denotes. */
  function MakeUtc(d: DateTime): (r: Result<int>)
    ensures r.Err? <==> d.offset.None?
    ensures r.Err? ==> r.error == NaiveDatetime
    ensures r.Ok? ==> r.value == Instant(d)
  {
    if d.offset.None? then Err(NaiveDatetime) else Ok(d.wall - d.offset.value)
  }

  /** `ivs` cuts `[a, b)` into non-empty, contiguous pieces, in order. */
  ghost predicate Tiles(ivs: seq<Interval>, a: int, b: int)
  {
    (ivs == [] ==> a == b) &&
    (ivs != [] ==> ivs[0].start == a && ivs[|ivs| - 1].end == b) &&
    (forall k :: 0 <= k < |ivs| ==> ivs[k].start < ivs[k].end) &&
    (forall k :: 0 < k < |ivs| ==> ivs[k - 1].end == ivs[k].start)
  }

  /** Dropping the last piece of a tiling leaves a tiling of the rest. */
  lemma TilesInit(ivs: seq<Interval>, a: int, b: int)
    requires Tiles(ivs, a, b) && ivs != []
    ensures Tiles(ivs[..|ivs| - 1], a, ivs[|ivs| - 1].start)
  {
  }

  /** A tiling of `[a, m)` followed by a piece `[m, e)` tiles `[a, e)`; a
      non-empty tiling covers a non-empty range. */
  lemma TilesSnoc(ivs: seq<Interval>, a: int, x: Interval)
    requires Tiles(ivs, a, x.start) && x.start < x.end
    ensures Tiles(ivs + [x], a, x.end)
    ensures ivs != [] ==> a < x.start
  {
    if ivs != [] {
      TilesWithin(ivs, a, x.start);
    }
  }

  /** Every piece of a tiling of `[a, b)` lies inside `[a, b)`. */
  lemma {:induction false} TilesWithin(ivs: seq<Interval>, a: int, b: int)
    requires Tiles(ivs, a, b)
    ensures a <= b
    ensures forall k :: 0 <= k < |ivs| ==> a <= ivs[k].start && ivs[k].end <= b
  {
    if ivs != [] {
      var n := |ivs| - 1;
      TilesInit(ivs, a, b);
      TilesWithin(ivs[..n], a, ivs[n].start);
      assert forall k :: 0 <= k < n ==> ivs[..n][k] == ivs[k];
    }
  }

  // ---------------------------------------------------------------------
  // Weekly business rules expanded for one local date
  // ---------------------------------------------------------------------

  /** A weekly business-hours rule `(dow, start_t, end_t)` in local time;
      `end <= start` means the opening crosses midnight. */
  datatype Rule = Rule(dow: int, start: TimeOfDay, end: TimeOfDay)

  /** The UTC intervals that one rule contributes to local date `day`. A
      midnight-crossing rule gives `[start, 23:59:59.999999 + 1us)` on `day`
      and `[00:00 of day+1, end + 1 day)`; the added day keeps the UTC offset
      that `day`'s end time was localized with. */
  function RuleIntervals(day: int, r: Rule, zone: Zone): seq<Interval>
  {
    if Weekday(day) != r.dow then []
    else if r.end <= r.start then
      [Interval(zone.toUtc(day, r.start), zone.toUtc(day, LAST_MICROSECOND) + 1),
       Interval(zone.toUtc(day + 1, MIDNIGHT), zone.toUtc(day, r.end) + DAY)]
    else
      [Interval(zone.toUtc(day, r.start), zone.toUtc(day, r.end))]
  }

  /** The intervals of all rules for `day`, in rule order. */
  function DayIntervals(day: int, rules: seq<Rule>, zone: Zone): seq<Interval>
  {
    if rules == [] then []
    else DayIntervals(day, rules[..|rules| - 1], zone) + RuleIntervals(day, rules[|rules| - 1], zone)
  }

  /** `local_business_intervals_utc`: the UTC intervals of every rule of
      `rules` whose weekday is `day`'s, rule by rule and part by part. */
  method LocalBusinessIntervalsUtc(day: int, rules: seq<Rule>, zone: Zone) returns (out: seq<Interval>)
    ensures out == DayIntervals(day, rules, zone)
  {
    out := [];
    for i := 0 to |rules|
      invariant out == DayIntervals(day, rules[..i], zone)
    {
      assert rules[..i + 1][..i] == rules[..i];
      var r := rules[i];
      if Weekday(day) != r.dow {
        continue;
      }
      var startUtc := zone.toUtc(day, r.start);
      var endUtc := zone.toUtc(day, r.end);
      var parts: seq<Interval>;
      if r.end <= r.start {
        var endOfDay := zone.toUtc(day, LAST_MICROSECOND);
        var startOfNext := zone.toUtc(day + 1, MIDNIGHT);
        parts := [Interval(startUtc, endOfDay + 1), Interval(startOfNext, endUtc + DAY)];
      } else {
        parts := [Interval(startUtc, endUtc)];
      }
      assert parts == RuleIntervals(day, r, zone);
      ghost var before := out;
      for j := 0 to |parts|
        invariant out == before + parts[..j]
      {
        out := out + [parts[j]];
      }
    }
    assert rules[..|rules|] == rules;
  }

  /** Only the rules whose weekday is `day`'s contribute: an interval is
      produced for `day` exactly when some matching rule produces it. */
  lemma {:induction false} DayIntervalsMembers(day: int, rules: seq<Rule>, zone: Zone, iv: Interval)
    ensures iv in DayIntervals(day, rules, zone) <==>
            exists k :: 0 <= k < |rules| && rules[k].dow == Weekday(day) && iv in RuleIntervals(day, rules[k], zone)
  {
    if rules != [] {
      var n := |rules| - 1;
      DayIntervalsMembers(day, rules[..n], zone, iv);
      assert forall k :: 0 <= k < n ==> rules[..n][k] == rules[k];
      if iv in DayIntervals(day, rules, zone) && iv !in DayIntervals(day, rules[..n], zone) {
        assert iv in RuleIntervals(day, rules[n], zone);
      }
    }
  }

  /** When exactly one rule matches `day`'s weekday, `day`'s intervals are
      that rule's. */
  lemma {:induction false} DayIntervalsSingleMatch(day: int, rules: seq<Rule>, zone: Zone, k: int)
    requires 0 <= k < |rules| && rules[k].dow == Weekday(day)
    requires forall j :: 0 <= j < |rules| && j != k ==> rules[j].dow != Weekday(day)
    ensures DayIntervals(day, rules, zone) == RuleIntervals(day, rules[k], zone)
  {
    var n := |rules| - 1;
    if k < n {
      assert forall j :: 0 <= j < n ==> rules[..n][j] == rules[j];
      DayIntervalsSingleMatch(day, rules[..n], zone, k);
    } else {
      DayIntervalsNoMatch(day, rules[..n], zone);
    }
  }

  /** A date whose weekday no rule names has no business intervals. */
  lemma {:induction false} DayIntervalsNoMatch(day: int, rules: seq<Rule>, zone: Zone)
    requires forall j :: 0 <= j < |rules| ==> rules[j].dow != Weekday(day)
    ensures DayIntervals(day, rules, zone) == []
  {
    if rules != [] {
      var n := |rules| - 1;
      assert forall j :: 0 <= j < n ==> rules[..n][j] == rules[j];
      DayIntervalsNoMatch(day, rules[..n], zone);
    }
  }

  /** A rule for another weekday gives nothing, a same-day rule one interval,
      a midnight-crossing rule two. */
  lemma RulePartCount(day: int, r: Rule, zone: Zone)
    ensures |RuleIntervals(day, r, zone)| ==
            if r.dow != Weekday(day) then 0 else if r.start < r.end then 1 else 2
  {
  }

  /** In a zone with a fixed offset the two parts of a midnight-crossing rule
      meet at the next local midnight, and together they last from the start
      time to the end time on the next day (22:00-02:00 gives four hours). */
  lemma CrossingRuleFixedOffset(day: int, r: Rule, offset: int)
    requires r.dow == Weekday(day) && r.end <= r.start
    ensures var parts := RuleIntervals(day, r, FixedOffset(offset));
            var midnight := (day + 1) * DAY - offset;
            |parts| == 2 &&
            parts[0] == Interval(midnight - DAY + r.start, midnight) &&
            parts[1] == Interval(midnight, midnight + r.end) &&
            Duration(parts[0]) + Duration(parts[1]) == DAY - r.start + r.end
  {
  }

  /** The always-open rule `00:00-00:00` yields, in a fixed-offset zone, one
      full local day followed by an empty second part at the next midnight. */
  lemma AllDayRuleFixedOffset(day: int, offset: int)
    ensures var parts := RuleIntervals(day, Rule(Weekday(day), MIDNIGHT, MIDNIGHT), FixedOffset(offset));
            var midnight := day * DAY - offset;
            parts == [Interval(midnight, midnight + DAY), Interval(midnight + DAY, midnight + DAY)]
  {
    CrossingRuleFixedOffset(day, Rule(Weekday(day), MIDNIGHT, MIDNIGHT), offset);
  }

  // ---------------------------------------------------------------------
  // Day buckets
  // ---------------------------------------------------------------------

  /** The first midnight strictly after instant `t`, on the wall clock of a
      zone `offset` microseconds east of UTC. */
  function MidnightAfter(t: int, offset: int): (m: int)
    ensures t < m <= t + DAY
    ensures (m + offset) % DAY == 0
  {
    ((t + offset) / DAY + 1) * DAY - offset
  }

  /** `split_into_days_utc`: naive bounds are refused; otherwise `[start, end)`
      is cut at midnights. The first cut is the midnight of `start`'s own
      offset; after it the running datetime is in UTC, so later cuts are UTC
      midnights. */
  method SplitIntoDaysUtc(start: DateTime, end: DateTime) returns (r: Result<seq<Interval>>)
    ensures r.Err? <==> start.offset.None? || end.offset.None?
    ensures r.Err? ==> r.error == NaiveDatetime
    ensures r.Ok? && Instant(start) >= Instant(end) ==> r.value == []
    ensures r.Ok? && Instant(start) < Instant(end) ==> Tiles(r.value, Instant(start), Instant(end))
    ensures r.Ok? ==> forall k :: 0 <= k < |r.value| ==>
              r.value[k].end == Min(Instant(end), MidnightAfter(r.value[k].start, if k == 0 then start.offset.value else 0))
    ensures r.Ok? ==> forall k :: 0 <= k < |r.value| ==> 0 < Duration(r.value[k]) <= DAY
  {
    if start.offset.None? || end.offset.None? {
      return Err(NaiveDatetime);
    }
    var s, e := Instant(start), Instant(end);
    var out: seq<Interval> := [];
    var cur := s;
    var offset := start.offset.value;
    while cur < e
      invariant out == [] ==> cur == s && offset == start.offset.value
      invariant out != [] ==> cur <= e && offset == 0 && Tiles(out, s, cur)
      invariant forall k :: 0 <= k < |out| ==>
                  out[k].end == Min(e, MidnightAfter(out[k].start, if k == 0 then start.offset.value else 0))
      invariant forall k :: 0 <= k < |out| ==> 0 < Duration(out[k]) <= DAY
      decreases e - cur
    {
      var nextMidnight := MidnightAfter(cur, offset);
      var stop := Min(e, nextMidnight);
      out := out + [Interval(cur, stop)];
      cur := stop;
      offset := 0;
    }
    return Ok(out);
  }
}
