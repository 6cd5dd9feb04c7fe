/** Reading a store's business-hours records and time zone, with the
    fallbacks `app/report_logic.py` applies when they are missing. */
module HoursParse {
  import opened Wrappers
  import opened Clock
  import opened UtilsTime

  // ---------------------------------------------------------------------
  // str.split(":")
  // ---------------------------------------------------------------------

  /** `s.split(sep)`: the fields between separators, always at least one. */
  function Split(s: string, sep: char): (fields: seq<string>)
    ensures |fields| >= 1
    ensures forall k :: 0 <= k < |fields| ==> sep !in fields[k]
  {
    if s == [] then [""]
    else if s[0] == sep then [""] + Split(s[1..], sep)
    else
      var rest := Split(s[1..], sep);
      [[s[0]] + rest[0]] + rest[1..]
  }

  /** `sep.join(fields)`, the inverse of splitting. */
  function Join(fields: seq<string>, sep: char): string
    requires |fields| >= 1
  {
    if |fields| == 1 then fields[0] else fields[0] + [sep] + Join(fields[1..], sep)
  }

  lemma {:induction false} JoinSplit(s: string, sep: char)
    ensures Join(Split(s, sep), sep) == s
  {
    if s != [] {
      JoinSplit(s[1..], sep);
      if s[0] != sep {
        var rest := Split(s[1..], sep);
        if |rest| == 1 {
          assert Split(s, sep) == [[s[0]] + rest[0]];
        } else {
          assert Split(s, sep)[1..] == rest[1..];
        }
      }
    }
  }

  /** A field free of the separator is split off unchanged. */
  lemma {:induction false} SplitField(a: string, sep: char, b: string)
    requires sep !in a
    ensures Split(a + [sep] + b, sep) == [a] + Split(b, sep)
  {
    if a == [] {
      assert a + [sep] + b == [sep] + b;
    } else {
      assert a[0] in a;
      SplitField(a[1..], sep, b);
      assert (a + [sep] + b)[1..] == a[1..] + [sep] + b;
      assert [a[0]] + a[1..] == a;
    }
  }

  lemma SplitNoSep(a: string, sep: char)
    requires sep !in a
    ensures Split(a, sep) == [a]
  {
    if a != [] {
      assert a[0] in a;
      SplitNoSep(a[1..], sep);
      assert [a[0]] + a[1..] == a;
    }
  }

  // ---------------------------------------------------------------------
  // int()
  // ---------------------------------------------------------------------

  predicate IsDigit(c: char) { '0' as int <= c as int <= '9' as int }

  predicate AllDigits(s: string) { forall k :: 0 <= k < |s| ==> IsDigit(s[k]) }

  /** The value of a string of decimal digits. */
  function DigitsValue(s: string): (n: nat)
    requires forall k :: 0 <= k < |s| ==> IsDigit(s[k])
  {
    if s == [] then 0
    else
      assert IsDigit(s[|s| - 1]);
      DigitsValue(s[..|s| - 1]) * 10 + (s[|s| - 1] as int - '0' as int)
  }

  /** `int(s)` on an optionally signed run of ASCII digits; anything else is
      the ValueError `None`. */
  function ParseInt(s: string): (r: Option<int>)
    ensures r.Some? ==> |s| >= 1
  {
    var sign := if |s| > 0 && (s[0] == '-' || s[0] == '+') then s[0] else ' ';
    var digits := if sign == ' ' then s else s[1..];
    if digits == [] || !AllDigits(digits) then None
    else if sign == '-' then Some(-(DigitsValue(digits) as int))
    else Some(DigitsValue(digits))
  }

  /** `int()` of every field, failing when any field fails. */
  function ParseInts(fields: seq<string>): (r: Option<seq<int>>)
    ensures r.Some? ==> |r.value| == |fields|
    ensures r.Some? ==> forall k :: 0 <= k < |fields| ==> ParseInt(fields[k]) == Some(r.value[k])
    ensures r.None? ==> exists k :: 0 <= k < |fields| && ParseInt(fields[k]).None?
  {
    if fields == [] then Some([])
    else match (ParseInt(fields[0]), ParseInts(fields[1..]))
      case (Some(v), Some(vs)) => Some([v] + vs)
      case (None, _) => None
      case (_, None) => None
  }

  // ---------------------------------------------------------------------
  // _parse_hhmmss
  // ---------------------------------------------------------------------

  /** `_parse_hhmmss`: `"H:M"` or `"H:M:S"` (fields after the third are
      ignored) to a time of day. A non-integer field is a ValueError, a single
      field an IndexError, an hour outside 0-23 or a minute or second outside
      0-59 the ValueError of `datetime.time`. */
  function ParseHhmmss(s: string): (r: Result<TimeOfDay>)
    ensures r.Ok? ==> r.value % SECOND == 0
  {
    var fields := Split(s, ':');
    match ParseInts(fields)
    case None => Err(NotAnInteger)
    case Some(parts) =>
      if |parts| < 2 then Err(MissingField)
      else
        var h, m := parts[0], parts[1];
        var sec := if |parts| > 2 then parts[2] else 0;
        if 0 <= h < 24 && 0 <= m < 60 && 0 <= sec < 60 then
          Ok(ClockTime(h, m, sec))
        else Err(TimeOutOfRange)
  }

  /** The time of day `h:m:sec`, a whole number of seconds. */
  function ClockTime(h: int, m: int, sec: int): (t: TimeOfDay)
    requires 0 <= h < 24 && 0 <= m < 60 && 0 <= sec < 60
    ensures t == h * HOUR + m * MINUTE + sec * SECOND
    ensures t % SECOND == 0
  {
    var secs := h * 3600 + m * 60 + sec;
    assert 0 <= secs < 86_400;
    secs * SECOND
  }

  /** `n` as two decimal digits, the `HH`, `MM` and `SS` of a time string. */
  function TwoDigits(n: int): (s: string)
    requires 0 <= n < 100
    ensures |s| == 2 && IsDigit(s[0]) && IsDigit(s[1])
  {
    [('0' as int + n / 10) as char, ('0' as int + n % 10) as char]
  }

  lemma ParseTwoDigits(n: int)
    requires 0 <= n < 100
    ensures ParseInt(TwoDigits(n)) == Some(n)
  {
    var s := TwoDigits(n);
    assert s[0] != '-' && s[0] != '+';
    assert forall k :: 0 <= k < |s| ==> IsDigit(s[k]);
    assert s[..1] == [s[0]] && [s[0]][..0] == [];
    assert DigitsValue([s[0]]) == n / 10;
    assert DigitsValue(s) == (n / 10) * 10 + n % 10;
  }

  /** `"H:M"` for any colon-free fields `int()` accepts: the time `H:M:00`
      when in range, otherwise the ValueError of `datetime.time`. */
  lemma ParseHhmmFields(hs: string, ms: string, h: int, m: int)
    requires ':' !in hs && ':' !in ms
    requires ParseInt(hs) == Some(h) && ParseInt(ms) == Some(m)
    ensures ParseHhmmss(hs + ":" + ms) ==
            if 0 <= h < 24 && 0 <= m < 60 then Ok(ClockTime(h, m, 0)) else Err(TimeOutOfRange)
  {
    SplitTwoFields(hs, ms);
    ParseIntsAll([hs, ms], [h, m]);
  }

  /** `"H:M:S"` for any colon-free fields `int()` accepts: the time `H:M:S`
      when in range, otherwise the ValueError of `datetime.time`. */
  lemma ParseHhmmssFields(hs: string, ms: string, ss: string, h: int, m: int, sec: int)
    requires ':' !in hs && ':' !in ms && ':' !in ss
    requires ParseInt(hs) == Some(h) && ParseInt(ms) == Some(m) && ParseInt(ss) == Some(sec)
    ensures ParseHhmmss(hs + ":" + ms + ":" + ss) ==
            if 0 <= h < 24 && 0 <= m < 60 && 0 <= sec < 60 then Ok(ClockTime(h, m, sec)) else Err(TimeOutOfRange)
  {
    SplitThreeFields(hs, ms, ss);
    ParseIntsAll([hs, ms, ss], [h, m, sec]);
  }

  /** `"HH:MM:SS"` reads back as that time. */
  lemma ParseHhmmssFormatted(h: int, m: int, sec: int)
    requires 0 <= h < 24 && 0 <= m < 60 && 0 <= sec < 60
    ensures ParseHhmmss(TwoDigits(h) + ":" + TwoDigits(m) + ":" + TwoDigits(sec)) ==
            Ok(h * HOUR + m * MINUTE + sec * SECOND)
  {
    TwoDigitsFields(h, m, sec);
  }

  /** `"HH:MM"` reads back as that time with zero seconds. */
  lemma ParseHhmmFormatted(h: int, m: int)
    requires 0 <= h < 24 && 0 <= m < 60
    ensures ParseHhmmss(TwoDigits(h) + ":" + TwoDigits(m)) == Ok(h * HOUR + m * MINUTE)
  {
    TwoDigitsNoColon(h);
    TwoDigitsNoColon(m);
    ParseTwoDigits(h);
    ParseTwoDigits(m);
    ParseHhmmFields(TwoDigits(h), TwoDigits(m), h, m);
  }

  /** `"HH:MM:SS"` with an hour above 23 or a minute or second above 59
      raises the ValueError of `datetime.time`. */
  lemma ParseHhmmssOutOfRange(h: int, m: int, sec: int)
    requires 0 <= h < 100 && 0 <= m < 100 && 0 <= sec < 100
    requires h >= 24 || m >= 60 || sec >= 60
    ensures ParseHhmmss(TwoDigits(h) + ":" + TwoDigits(m) + ":" + TwoDigits(sec)) == Err(TimeOutOfRange)
  {
    TwoDigitsFields(h, m, sec);
  }

  /** Three two-digit fields are read by `ParseHhmmssFields`. */
  lemma TwoDigitsFields(h: int, m: int, sec: int)
    requires 0 <= h < 100 && 0 <= m < 100 && 0 <= sec < 100
    ensures ParseHhmmss(TwoDigits(h) + ":" + TwoDigits(m) + ":" + TwoDigits(sec)) ==
            if h < 24 && m < 60 && sec < 60 then Ok(ClockTime(h, m, sec)) else Err(TimeOutOfRange)
  {
    TwoDigitsNoColon(h);
    TwoDigitsNoColon(m);
    TwoDigitsNoColon(sec);
    ParseTwoDigits(h);
    ParseTwoDigits(m);
    ParseTwoDigits(sec);
    ParseHhmmssFields(TwoDigits(h), TwoDigits(m), TwoDigits(sec), h, m, sec);
  }

  /** Fields need not have two digits: `"9:05"` is 09:05 ... */
  lemma ParseHhmmShortHour()
    ensures ParseHhmmss("9:05") == Ok(9 * HOUR + 5 * MINUTE)
  {
    ParseIntDigit('9');
    ParseIntDigit('5');
    ParseIntLeadingZero("5");
    assert "0" + "5" == "05";
    assert "9:05" == "9" + ":" + "05";
    ParseHhmmFields("9", "05", 9, 5);
  }

  /** ... `"+9:5:0"` is that time too, sign and single digits ... */
  lemma ParseHhmmssSigned()
    ensures ParseHhmmss("+9:5:0") == Ok(9 * HOUR + 5 * MINUTE)
  {
    ParseIntDigit('9');
    ParseIntDigit('5');
    ParseIntDigit('0');
    ParseIntPlus("9");
    assert "+" + "9" == "+9";
    assert "+9:5:0" == "+9" + ":" + "5" + ":" + "0";
    ParseHhmmssFields("+9", "5", "0", 9, 5, 0);
  }

  /** ... and so is `"009:05:00"`, leading zeros and all. */
  lemma ParseHhmmssLeadingZeros()
    ensures ParseHhmmss("009:05:00") == Ok(9 * HOUR + 5 * MINUTE)
  {
    ZeroPaddedInts();
    assert "009:05:00" == "009" + ":" + "05" + ":" + "00";
    ParseHhmmssFields("009", "05", "00", 9, 5, 0);
  }

  lemma ZeroPaddedInts()
    ensures ParseInt("009") == Some(9) && ParseInt("05") == Some(5) && ParseInt("00") == Some(0)
  {
    ParseIntDigit('9');
    ParseIntDigit('5');
    ParseIntDigit('0');
    ParseIntLeadingZero("5");
    ParseIntLeadingZero("0");
    ParseIntLeadingZero("9");
    ParseIntLeadingZero("09");
    assert "0" + "5" == "05" && "0" + "0" == "00" && "0" + "9" == "09" && "0" + "09" == "009";
  }

  /** `int()` of one digit is its value. */
  lemma ParseIntDigit(c: char)
    requires IsDigit(c)
    ensures ParseInt([c]) == Some(c as int - '0' as int)
  {
    var s := [c];
    assert s[0] == c && c != '-' && c != '+' && AllDigits(s);
    assert DigitsValue(s) == c as int - '0' as int by {
      assert s[..0] == [];
    }
  }

  /** `int()` accepts an explicit plus sign. */
  lemma ParseIntPlus(s: string)
    requires s != [] && IsDigit(s[0])
    ensures ParseInt("+" + s) == ParseInt(s)
  {
    assert ("+" + s)[1..] == s;
  }

  /** `int()` ignores leading zeros. */
  lemma {:induction false} ParseIntLeadingZero(s: string)
    requires s != [] && AllDigits(s)
    ensures ParseInt("0" + s) == ParseInt(s)
  {
    assert AllDigits("0" + s);
    DigitsLeadingZero(s);
  }

  lemma {:induction false} DigitsLeadingZero(s: string)
    requires AllDigits(s)
    ensures AllDigits("0" + s) && DigitsValue("0" + s) == DigitsValue(s)
  {
    var z := "0" + s;
    assert AllDigits(z);
    if s == [] {
      assert z[..0] == [];
    } else {
      var n := |s| - 1;
      assert AllDigits(s[..n]);
      DigitsLeadingZero(s[..n]);
      assert z[..|z| - 1] == "0" + s[..n] && z[|z| - 1] == s[n];
    }
  }

  /** A field that `int()` rejects raises its ValueError, whatever the other
      fields hold. */
  lemma ParseHhmmssNotAnInteger(s: string, k: int)
    requires 0 <= k < |Split(s, ':')| && ParseInt(Split(s, ':')[k]).None?
    ensures ParseHhmmss(s) == Err(NotAnInteger)
  {
  }

  /** `int()` rejects a string that starts with neither a sign nor a digit. */
  lemma ParseIntRejectsLead(s: string)
    requires |s| > 0 && s[0] != '-' && s[0] != '+' && !IsDigit(s[0])
    ensures ParseInt(s).None?
  {
    assert !AllDigits(s);
  }

  /** `"24:00:00"` is out of range and `"ab:00"` is not a number. */
  lemma ParseHhmmssErrorExamples()
    ensures ParseHhmmss("24:00:00") == Err(TimeOutOfRange)
    ensures ParseHhmmss("ab:00") == Err(NotAnInteger)
  {
    assert TwoDigits(24) + ":" + TwoDigits(0) + ":" + TwoDigits(0) == "24:00:00";
    ParseHhmmssOutOfRange(24, 0, 0);
    assert "ab:00" == "ab" + [':'] + "00";
    SplitField("ab", ':', "00");
    SplitNoSep("00", ':');
    assert Split("ab:00", ':') == ["ab", "00"];
    var ab: string := "ab";
    assert ab[0] == 'a';
    ParseIntRejectsLead(ab);
    ParseHhmmssNotAnInteger("ab:00", 0);
  }

  lemma TwoDigitsNoColon(n: int)
    requires 0 <= n < 100
    ensures ':' !in TwoDigits(n)
  {
    var s := TwoDigits(n);
    assert s == [s[0], s[1]];
  }

  /** Two colon-free fields joined by a colon split back into those fields. */
  lemma SplitTwoFields(hs: string, ms: string)
    requires ':' !in hs && ':' !in ms
    ensures Split(hs + ":" + ms, ':') == [hs, ms]
  {
    assert hs + ":" + ms == hs + [':'] + ms;
    SplitField(hs, ':', ms);
    SplitNoSep(ms, ':');
  }

  /** Three colon-free fields joined by colons split back into those fields. */
  lemma SplitThreeFields(hs: string, ms: string, ss: string)
    requires ':' !in hs && ':' !in ms && ':' !in ss
    ensures Split(hs + ":" + ms + ":" + ss, ':') == [hs, ms, ss]
  {
    assert hs + ":" + ms + ":" + ss == hs + [':'] + (ms + [':'] + ss);
    SplitField(hs, ':', ms + [':'] + ss);
    SplitField(ms, ':', ss);
    SplitNoSep(ss, ':');
  }

  /** Fields that each parse give the sequence of their values. */
  lemma {:induction false} ParseIntsAll(fields: seq<string>, ns: seq<int>)
    requires |fields| == |ns|
    requires forall k :: 0 <= k < |ns| ==> ParseInt(fields[k]) == Some(ns[k])
    ensures ParseInts(fields) == Some(ns)
  {
    if fields != [] {
      ParseIntsAll(fields[1..], ns[1..]);
      assert [ns[0]] + ns[1..] == ns;
    }
  }

  /** A string without a colon, such as `"12"`, has no minute field. */
  lemma ParseHhmmssSingleField(s: string)
    requires ':' !in s && ParseInt(s).Some?
    ensures ParseHhmmss(s) == Err(MissingField)
  {
    SplitNoSep(s, ':');
  }

  // ---------------------------------------------------------------------
  // Store data and its fallbacks
  // ---------------------------------------------------------------------

  const DEFAULT_TZ: string := "America/Chicago"

  /** A stored business-hours record: weekday and two time strings. */
  datatype RawRule = RawRule(dow: int, startLocal: string, endLocal: string)

  /** The always-open fallback: one `00:00-00:00` rule per weekday. */
  function AlwaysOpen(): (rules: seq<Rule>)
    ensures |rules| == 7
  {
    seq(7, d requires 0 <= d < 7 => Rule(d, MIDNIGHT, MIDNIGHT))
  }

  /** Every weekday has exactly one fallback rule, and it spans the whole day. */
  lemma AlwaysOpenOnePerWeekday(w: int)
    requires 0 <= w < 7
    ensures AlwaysOpen()[w] == Rule(w, MIDNIGHT, MIDNIGHT)
    ensures forall j :: 0 <= j < 7 && j != w ==> AlwaysOpen()[j].dow != w
  {
  }

  /** With the fallback rules, every local date in a fixed-offset zone is open
      from its midnight to the next. */
  lemma AlwaysOpenFullDay(day: int, offset: int)
    ensures var midnight := day * DAY - offset;
            DayIntervals(day, AlwaysOpen(), FixedOffset(offset)) ==
              [Interval(midnight, midnight + DAY), Interval(midnight + DAY, midnight + DAY)]
  {
    var w := Weekday(day);
    AlwaysOpenOnePerWeekday(w);
    DayIntervalsSingleMatch(day, AlwaysOpen(), FixedOffset(offset), w);
    AllDayRuleFixedOffset(day, offset);
  }

  /** One stored record as a rule: its start string is parsed before its end
      string, and the first failure is the error raised. */
  function ParseRecord(rec: RawRule): (r: Result<Rule>)
    ensures r.Ok? <==> ParseHhmmss(rec.startLocal).Ok? && ParseHhmmss(rec.endLocal).Ok?
    ensures r.Ok? ==> r.value.dow == rec.dow &&
                      ParseHhmmss(rec.startLocal) == Ok(r.value.start) &&
                      ParseHhmmss(rec.endLocal) == Ok(r.value.end)
    ensures r.Err? && ParseHhmmss(rec.startLocal).Err? ==> r.error == ParseHhmmss(rec.startLocal).error
    ensures r.Err? && ParseHhmmss(rec.startLocal).Ok? ==> r.error == ParseHhmmss(rec.endLocal).error
  {
    match ParseHhmmss(rec.startLocal)
    case Err(e) => Err(e)
    case Ok(s) =>
      match ParseHhmmss(rec.endLocal)
      case Err(e) => Err(e)
      case Ok(t) => Ok(Rule(rec.dow, s, t))
  }

  /** Parses the records in order; the first failure is the error raised. */
  function ParseRules(recs: seq<RawRule>): (r: Result<seq<Rule>>)
    ensures r.Ok? ==> |r.value| == |recs| &&
                      forall k :: 0 <= k < |recs| ==> ParseRecord(recs[k]) == Ok(r.value[k])
  {
    if recs == [] then Ok([])
    else
      var n := |recs| - 1;
      match ParseRules(recs[..n])
      case Err(e) => Err(e)
      case Ok(rest) =>
        match ParseRecord(recs[n])
        case Err(e) => Err(e)
        case Ok(rule) =>
          ParsedSnoc(ParseRecord, recs, rest, rule);
          Ok(rest + [rule])
  }

  /** The records parsed so far, extended by the last one. */
  lemma ParsedSnoc(parse: RawRule -> Result<Rule>, recs: seq<RawRule>, rest: seq<Rule>, rule: Rule)
    requires recs != [] && |rest| == |recs| - 1
    requires forall k :: 0 <= k < |rest| ==> parse(recs[..|recs| - 1][k]) == Ok(rest[k])
    requires parse(recs[|recs| - 1]) == Ok(rule)
    ensures forall k :: 0 <= k < |recs| ==> parse(recs[k]) == Ok((rest + [rule])[k])
  {
    forall k | 0 <= k < |recs|
      ensures parse(recs[k]) == Ok((rest + [rule])[k])
    {
      if k < |rest| {
        assert recs[..|recs| - 1][k] == recs[k];
      }
    }
  }

  /** Record `k` is the first that does not parse, and `e` is its error. */
  predicate FirstFailure(recs: seq<RawRule>, k: int, e: Error)
  {
    0 <= k < |recs| && ParseRecord(recs[k]) == Err(e) &&
    forall j :: 0 <= j < k ==> ParseRecord(recs[j]).Ok?
  }

  /** Parsing fails exactly when some record does not parse, and then with the
      error of the first such record. */
  lemma {:induction false} ParseRulesFirstError(recs: seq<RawRule>)
    ensures ParseRules(recs).Ok? <==> forall k :: 0 <= k < |recs| ==> ParseRecord(recs[k]).Ok?
    ensures ParseRules(recs).Err? ==> exists k :: FirstFailure(recs, k, ParseRules(recs).error)
  {
    if recs != [] {
      var n := |recs| - 1;
      var pre := recs[..n];
      ParseRulesFirstError(pre);
      assert forall k :: 0 <= k < n ==> pre[k] == recs[k];
      if ParseRules(pre).Err? {
        var k :| FirstFailure(pre, k, ParseRules(pre).error);
        assert FirstFailure(recs, k, ParseRules(recs).error);
      } else if ParseRecord(recs[n]).Err? {
        assert FirstFailure(recs, n, ParseRules(recs).error);
      }
    }
  }

  /** `get_business_hours`: no records means always open; otherwise every
      record's time strings are parsed. */
  function GetBusinessHours(recs: seq<RawRule>): (r: Result<seq<Rule>>)
    ensures recs == [] ==> r == Ok(AlwaysOpen())
    ensures recs != [] ==> r == ParseRules(recs)
  {
    if recs == [] then Ok(AlwaysOpen()) else ParseRules(recs)
  }

  /** The zone name `get_store_timezone` looks up: the stored one, or the
      default when there is none or it is empty. */
  function StoreZoneName(stored: Option<string>): (name: string)
    ensures name != []
    ensures stored.Some? && stored.value != [] ==> name == stored.value
    ensures (stored.None? || stored.value == []) ==> name == DEFAULT_TZ
  {
    if stored.None? || stored.value == [] then DEFAULT_TZ else stored.value
  }

  /** `get_store_timezone`, with the zone database `db` as a parameter: a name
      the database does not know raises `UnknownTimeZoneError`. */
  function GetStoreTimezone(stored: Option<string>, db: string -> Option<Zone>): (r: Result<Zone>)
    ensures r.Ok? <==> db(StoreZoneName(stored)).Some?
    ensures r.Ok? ==> r.value == db(StoreZoneName(stored)).value
    ensures r.Err? ==> r.error == UnknownTimeZone
  {
    match db(StoreZoneName(stored))
    case Some(z) => Ok(z)
    case None => Err(UnknownTimeZone)
  }
}
