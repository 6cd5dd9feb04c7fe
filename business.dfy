/** Business intervals of one store over a UTC window
    (`business_intervals_utc_for_range` in `app/report_logic.py`). */
module Business {
  import opened Wrappers
  import opened Clock
  import opened UtilsTime
  import opened HoursParse
  import opened Aggregate

  /** The intervals of every local date from `first` through `last`, date
      after date. */
  function ExpandDates(first: int, last: int, rules: seq<Rule>, zone: Zone): seq<Interval>
    decreases last - first
  {
    if last < first then []
    else ExpandDates(first, last - 1, rules, zone) + DayIntervals(last, rules, zone)
  }

  /** Each interval cut down to the window `[start, end)`; those that miss it
      are dropped. */
  function Clip(ivs: seq<Interval>, start: int, end: int): (r: seq<Interval>)
    ensures |r| <= |ivs|
    ensures forall k :: 0 <= k < |r| ==> start <= r[k].start < r[k].end <= end
  {
    if ivs == [] then []
    else
      var rest := Clip(ivs[..|ivs| - 1], start, end);
      match Intersect(ivs[|ivs| - 1], Interval(start, end))
      case None => rest
      case Some(x) => rest + [x]
  }

  /** The business intervals of a window: the local dates of `start` and of
      one second before `end` bound the dates expanded, and the result is
      clipped to the window. */
  function BusinessIntervalsFor(zone: Zone, rules: seq<Rule>, start: int, end: int): seq<Interval>
  {
    Clip(ExpandDates(zone.localDate(start), zone.localDate(end - SECOND), rules, zone), start, end)
  }

  /** `business_intervals_utc_for_range`: looks up the store's zone and
      rules (either lookup may raise), then expands the window. */
  method BusinessIntervalsUtcForRange(storedZone: Option<string>, db: string -> Option<Zone>,
                                      recs: seq<RawRule>, start: int, end: int)
    returns (r: Result<seq<Interval>>)
    ensures GetStoreTimezone(storedZone, db).Err? ==> r == Err(UnknownTimeZone)
    ensures GetStoreTimezone(storedZone, db).Ok? && GetBusinessHours(recs).Err? ==>
              r == Err(GetBusinessHours(recs).error)
    ensures GetStoreTimezone(storedZone, db).Ok? && GetBusinessHours(recs).Ok? ==>
              r == Ok(BusinessIntervalsFor(GetStoreTimezone(storedZone, db).value, GetBusinessHours(recs).value, start, end))
  {
    var tz := GetStoreTimezone(storedZone, db);
    if tz.Err? {
      return Err(tz.error);
    }
    var parsed := GetBusinessHours(recs);
    if parsed.Err? {
      return Err(parsed.error);
    }
    var ivs := ExpandWindow(tz.value, parsed.value, start, end);
    return Ok(ivs);
  }

  /** The loops of `business_intervals_utc_for_range`: every local date from
      that of `start` to that of one second before `end` is expanded, and
      each interval's overlap with the window is kept. Every interval
      returned is non-empty and inside `[start, end)`. */
  method ExpandWindow(zone: Zone, rules: seq<Rule>, start: int, end: int) returns (filtered: seq<Interval>)
    ensures filtered == BusinessIntervalsFor(zone, rules, start, end)
    ensures forall k :: 0 <= k < |filtered| ==> start <= filtered[k].start < filtered[k].end <= end
  {
    var out: seq<Interval> := [];
    var first := zone.localDate(start);
    var last := zone.localDate(end - SECOND);
    var cur := first;
    while cur <= last
      invariant first <= cur <= if first <= last then last + 1 else first
      invariant out == ExpandDates(first, cur - 1, rules, zone)
      decreases last - cur
    {
      var day := LocalBusinessIntervalsUtc(cur, rules, zone);
      out := out + day;
      cur := cur + 1;
    }
    assert out == ExpandDates(first, last, rules, zone);

    filtered := [];
    var window := Interval(start, end);
    for i := 0 to |out|
      invariant filtered == Clip(out[..i], start, end)
    {
      ClipStep(out, i, start, end);
      var inter := Intersect(out[i], window);
      if inter.Some? {
        filtered := filtered + [inter.value];
      }
    }
    assert out[..|out|] == out;
  }

  /** Clipping one more interval appends its overlap with the window, if
      any. */
  lemma ClipStep(ivs: seq<Interval>, i: int, start: int, end: int)
    requires 0 <= i < |ivs|
    ensures Intersect(ivs[i], Interval(start, end)).None? ==>
              Clip(ivs[..i + 1], start, end) == Clip(ivs[..i], start, end)
    ensures Intersect(ivs[i], Interval(start, end)).Some? ==>
              Clip(ivs[..i + 1], start, end) == Clip(ivs[..i], start, end) + [Intersect(ivs[i], Interval(start, end)).value]
  {
    assert ivs[..i + 1][..i] == ivs[..i];
  }

  /** An interval is expanded for the date range exactly when some date in it
      produces that interval. */
  lemma {:induction false} ExpandDatesMembers(first: int, last: int, rules: seq<Rule>, zone: Zone, iv: Interval)
    ensures iv in ExpandDates(first, last, rules, zone) <==>
            exists d :: first <= d <= last && iv in DayIntervals(d, rules, zone)
    decreases last - first
  {
    if last >= first {
      ExpandDatesMembers(first, last - 1, rules, zone, iv);
      var rest, day := ExpandDates(first, last - 1, rules, zone), DayIntervals(last, rules, zone);
      assert ExpandDates(first, last, rules, zone) == rest + day;
      assert iv in rest + day <==> iv in rest || iv in day;
      if iv in day {
        assert iv in ExpandDates(first, last, rules, zone);
        assert first <= last <= last && iv in DayIntervals(last, rules, zone);
        assert exists d :: first <= d <= last && iv in DayIntervals(d, rules, zone);
      } else if d :| first <= d <= last && iv in DayIntervals(d, rules, zone) {
        assert first <= d <= last - 1;
      }
    }
  }

  /** Clipping keeps exactly the overlaps of the input intervals with the
      window. */
  lemma {:induction false} ClipMembers(ivs: seq<Interval>, start: int, end: int, x: Interval)
    ensures x in Clip(ivs, start, end) <==>
            exists u :: u in ivs && Intersect(u, Interval(start, end)) == Some(x)
  {
    if ivs != [] {
      var n := |ivs| - 1;
      ClipMembers(ivs[..n], start, end, x);
      assert forall u :: u in ivs <==> u in ivs[..n] || u == ivs[n];
    }
  }

  /** Every business interval of a window is the overlap of the window with a
      part of a rule whose weekday is that of a local date the window touches,
      and every such non-empty overlap is a business interval. */
  lemma BusinessIntervalsOrigin(zone: Zone, rules: seq<Rule>, start: int, end: int, x: Interval)
    ensures var first, last := zone.localDate(start), zone.localDate(end - SECOND);
            x in BusinessIntervalsFor(zone, rules, start, end) <==>
            exists d, k, u :: first <= d <= last && 0 <= k < |rules| && rules[k].dow == Weekday(d) &&
                              u in RuleIntervals(d, rules[k], zone) && Intersect(u, Interval(start, end)) == Some(x)
  {
    var first, last := zone.localDate(start), zone.localDate(end - SECOND);
    var expanded := ExpandDates(first, last, rules, zone);
    ClipMembers(expanded, start, end, x);
    forall u
      ensures u in expanded <==>
              exists d, k :: first <= d <= last && 0 <= k < |rules| && rules[k].dow == Weekday(d) &&
                             u in RuleIntervals(d, rules[k], zone)
    {
      ExpandDatesMembers(first, last, rules, zone, u);
      if u in expanded {
        var d :| first <= d <= last && u in DayIntervals(d, rules, zone);
        DayIntervalsMembers(d, rules, zone, u);
      }
      if exists d, k :: first <= d <= last && 0 <= k < |rules| && rules[k].dow == Weekday(d) &&
                        u in RuleIntervals(d, rules[k], zone) {
        var d, k :| first <= d <= last && 0 <= k < |rules| && rules[k].dow == Weekday(d) &&
                    u in RuleIntervals(d, rules[k], zone);
        DayIntervalsMembers(d, rules, zone, u);
        assert first <= d <= last && u in DayIntervals(d, rules, zone);
      }
    }
  }

  /** The last local date expanded is that of one second before `end`, so a
      window that ends less than a second after a local midnight leaves that
      date out. An always-open store in UTC gets only one day of business
      time in the window `[00:00, 00:00:00.5 of the next day)`. */
  lemma SubSecondEndDateSkipped()
    ensures BusinessIntervalsFor(FixedOffset(0), AlwaysOpen(), 0, DAY + 500_000) == [Interval(0, DAY)]
  {
    var zone := FixedOffset(0);
    assert zone.localDate(0) == 0;
    assert zone.localDate(DAY + 500_000 - SECOND) == 0;
    AlwaysOpenFullDay(0, 0);
    var day := [Interval(0, DAY), Interval(DAY, DAY)];
    var window := Interval(0, DAY + 500_000);
    assert ExpandDates(0, 0, AlwaysOpen(), zone) == day;
    assert BusinessIntervalsFor(zone, AlwaysOpen(), 0, DAY + 500_000) == Clip(day, 0, DAY + 500_000);
    assert Intersect(Interval(DAY, DAY), window) == None;
    assert Intersect(Interval(0, DAY), window) == Some(Interval(0, DAY));
    assert day[..1] == [Interval(0, DAY)] && day[..1][..0] == [];
    assert Clip(day[..1], 0, DAY + 500_000) == [Interval(0, DAY)];
  }

  /** The summed overlap of the intervals with the window `[start, end)`. */
  ghost function CoveredTime(ivs: seq<Interval>, start: int, end: int): int
  {
    if ivs == [] then 0
    else CoveredTime(ivs[..|ivs| - 1], start, end) + Overlap(ivs[|ivs| - 1], Interval(start, end))
  }

  /** The business time of the clipped intervals is their summed overlap
      with the window. */
  lemma {:induction false} ClipTime(ivs: seq<Interval>, start: int, end: int)
    ensures BusinessTime(Clip(ivs, start, end)) == CoveredTime(ivs, start, end)
  {
    if ivs != [] {
      var n := |ivs| - 1;
      var rest := Clip(ivs[..n], start, end);
      ClipTime(ivs[..n], start, end);
      assert CoveredTime(ivs, start, end) == CoveredTime(ivs[..n], start, end) + Overlap(ivs[n], Interval(start, end));
      match Intersect(ivs[n], Interval(start, end))
      case None =>
        assert Clip(ivs, start, end) == rest;
      case Some(x) =>
        assert Clip(ivs, start, end) == rest + [x];
        assert (rest + [x])[..|rest|] == rest;
        assert BusinessTime(rest + [x]) == BusinessTime(rest) + Duration(x);
    }
  }

  /** Overlaps add up over concatenation. */
  lemma {:induction false} CoveredAppend(a: seq<Interval>, b: seq<Interval>, start: int, end: int)
    ensures CoveredTime(a + b, start, end) == CoveredTime(a, start, end) + CoveredTime(b, start, end)
  {
    if b != [] {
      var n := |b| - 1;
      CoveredAppend(a, b[..n], start, end);
      assert (a + b)[..|a + b| - 1] == a + b[..n];
    } else {
      assert a + b == a;
    }
  }

  /** With the always-open rules in a fixed-offset zone, the dates from that
      of `start` through `d` cover the window from `start` up to the end of
      date `d`. */
  lemma {:induction false} AlwaysOpenCovered(offset: int, first: int, d: int, start: int, end: int)
    requires first <= d
    requires first * DAY - offset <= start < first * DAY - offset + DAY
    requires start < end && d * DAY - offset < end
    ensures CoveredTime(ExpandDates(first, d, AlwaysOpen(), FixedOffset(offset)), start, end) ==
            Min(end, d * DAY - offset + DAY) - start
    decreases d - first
  {
    AlwaysOpenDateStep(offset, first, d, start, end);
    if d != first {
      assert (d - 1) * DAY == d * DAY - DAY;
      AlwaysOpenCovered(offset, first, d - 1, start, end);
      DaysMonotone(first, d);
    }
  }

  /** Expanding one more always-open date adds its overlap with the window. */
  lemma AlwaysOpenDateStep(offset: int, first: int, d: int, start: int, end: int)
    requires first <= d && start < end
    ensures var midnight := d * DAY - offset;
            CoveredTime(ExpandDates(first, d, AlwaysOpen(), FixedOffset(offset)), start, end) ==
            CoveredTime(ExpandDates(first, d - 1, AlwaysOpen(), FixedOffset(offset)), start, end) +
            Max(0, Min(end, midnight + DAY) - Max(start, midnight))
  {
    var zone := FixedOffset(offset);
    var midnight := d * DAY - offset;
    var day := [Interval(midnight, midnight + DAY), Interval(midnight + DAY, midnight + DAY)];
    AlwaysOpenFullDay(d, offset);
    var before := ExpandDates(first, d - 1, AlwaysOpen(), zone);
    assert ExpandDates(first, d, AlwaysOpen(), zone) == before + day;
    CoveredAppend(before, day, start, end);
    DayCovered(midnight, start, end);
  }

  lemma DaysMonotone(a: int, b: int)
    requires a < b
    ensures a * DAY + DAY <= b * DAY
  {
    assert DAY == 86_400_000_000;
  }

  /** One always-open local day covers the window where they overlap. */
  lemma DayCovered(midnight: int, start: int, end: int)
    requires start < end
    ensures var day := [Interval(midnight, midnight + DAY), Interval(midnight + DAY, midnight + DAY)];
            CoveredTime(day, start, end) == Max(0, Min(end, midnight + DAY) - Max(start, midnight))
  {
    var day := [Interval(midnight, midnight + DAY), Interval(midnight + DAY, midnight + DAY)];
    var window := Interval(start, end);
    assert day[..1] == [day[0]] && day[..1][..0] == [];
    assert CoveredTime(day[..1], start, end) == Overlap(day[0], window);
    assert Overlap(day[1], window) == 0;
  }

  /** An always-open store in a fixed-offset zone has business time for the
      whole of a window, unless the window ends less than a second after a
      local midnight (`SubSecondEndDateSkipped`). */
  lemma AlwaysOpenWindowTime(offset: int, start: int, end: int)
    requires start < end
    requires (end + offset) % DAY == 0 || (end + offset) % DAY >= SECOND
    ensures BusinessTime(BusinessIntervalsFor(FixedOffset(offset), AlwaysOpen(), start, end)) == end - start
  {
    var zone := FixedOffset(offset);
    var first, last := zone.localDate(start), zone.localDate(end - SECOND);
    WindowDates(offset, start, end);
    ClipTime(ExpandDates(first, last, AlwaysOpen(), zone), start, end);
    AlwaysOpenCovered(offset, first, last, start, end);
  }

  /** The local dates of `start` and of one second before `end`: `start`
      lies in the first, and unless `end` is less than a second after a
      local midnight, the last ends at or after `end`. */
  lemma WindowDates(offset: int, start: int, end: int)
    requires start < end
    requires (end + offset) % DAY == 0 || (end + offset) % DAY >= SECOND
    ensures var first, last := (start + offset) / DAY, (end - SECOND + offset) / DAY;
            first <= last &&
            first * DAY - offset <= start < first * DAY - offset + DAY &&
            last * DAY - offset < end <= last * DAY - offset + DAY
  {
  }
}
