/**
 Client-side decisions of the admin analytics dashboard: the duration formatter,
 the effective bucket, range resolution over integer millisecond timestamps, the
 guard that refuses an empty range before any request, the auto-refresh gate and
 the engagement label of a top page. The clock, the local midnight of today and
 local-date construction are inputs.
 */
module AnalyticsPage {
  import opened Js

  // ---------------------------------------------------------------------------
  // Duration formatting

  /** `fmtSec(sec)`: "0s" for a non-positive value; otherwise "{s}s" under a
      minute, "{m}m {s}s" under an hour and "{h}h {mm}m" from an hour on. */
  function FmtSec(sec: real): (r: string)
    ensures sec <= 0.0 ==> r == "0s"
  {
    if sec <= 0.0 then "0s"
    else
      var m := (sec / 60.0).Floor;
      var s := (sec - 60.0 * m as real).Floor;
      if m <= 0 then NatToString(s) + "s"
      else
        var h := m / 60;
        var mm := m % 60;
        if h <= 0 then NatToString(m) + "m " + NatToString(s) + "s"
        else NatToString(h) + "h " + NatToString(mm) + "m"
  }

  /** A positive duration is formatted from its whole seconds only. */
  lemma FmtSecWholeSeconds(sec: real)
    requires sec > 0.0
    ensures var w := sec.Floor;
            var m := (sec / 60.0).Floor;
            m == w / 60 && (sec - 60.0 * m as real).Floor == w % 60
  {
    var w := sec.Floor;
    var q := w / 60;
    assert 60 * q <= w < 60 * q + 60;
    assert (60 * q) as real <= sec < (60 * q + 60) as real;
    assert q as real <= sec / 60.0 < q as real + 1.0;
    var m := (sec / 60.0).Floor;
    assert m == q;
    var rest := sec - 60.0 * m as real;
    assert (w - 60 * q) as real <= rest < (w - 60 * q) as real + 1.0;
  }

  /** Reads a formatted duration back: "{s}s", "{m}m {s}s" or "{h}h {mm}m". */
  function ParseDuration(t: string): Option<int> {
    var parts := Split(t, ' ');
    if |parts| == 1 then
      match Unit(parts[0], 's')
      case Some(s) => Some(s)
      case None => None
    else if |parts| == 2 then
      var a := parts[0];
      var b := parts[1];
      if Unit(a, 'm').Some? && Unit(b, 's').Some? then Some(60 * Unit(a, 'm').value + Unit(b, 's').value)
      else if Unit(a, 'h').Some? && Unit(b, 'm').Some? then Some(3600 * Unit(a, 'h').value + 60 * Unit(b, 'm').value)
      else None
    else None
  }

  /** The number in front of a one-letter unit such as "15s". */
  function Unit(p: string, u: char): Option<nat> {
    if |p| >= 2 && p[|p| - 1] == u && AllDigits(p[..|p| - 1]) then Some(DigitsValue(p[..|p| - 1]))
    else None
  }

  lemma UnitOf(n: nat, u: char)
    requires !IsDigit(u)
    ensures Unit(NatToString(n) + [u], u) == Some(n)
  {
    var p := NatToString(n) + [u];
    assert p[..|p| - 1] == NatToString(n);
    NatToStringRoundTrip(n);
  }

  lemma NoSpaceInNumberWithUnit(n: nat, u: char)
    requires u != ' '
    ensures ' ' !in NatToString(n) + [u]
  {
    var p := NatToString(n) + [u];
    forall k | 0 <= k < |p| ensures p[k] != ' ' {
      if k < |p| - 1 { assert IsDigit(p[k]); }
    }
  }

  lemma ParsePair(a: nat, ua: char, b: nat, ub: char)
    requires ua != ' ' && ub != ' ' && !IsDigit(ua) && !IsDigit(ub)
    ensures var t := NatToString(a) + [ua] + " " + NatToString(b) + [ub];
            Split(t, ' ') == [NatToString(a) + [ua], NatToString(b) + [ub]]
    ensures Unit(NatToString(a) + [ua], ua) == Some(a) && Unit(NatToString(b) + [ub], ub) == Some(b)
  {
    var x := NatToString(a) + [ua];
    var y := NatToString(b) + [ub];
    NoSpaceInNumberWithUnit(a, ua);
    NoSpaceInNumberWithUnit(b, ub);
    var t := NatToString(a) + [ua] + " " + NatToString(b) + [ub];
    assert t == x + " " + y;
    assert Join([x, y], ' ') == x + " " + y;
    SplitJoin([x, y], ' ');
    UnitOf(a, ua);
    UnitOf(b, ub);
  }

  /** The three shapes of the output, in terms of the whole seconds `w`: seconds
      alone under a minute, minutes and seconds (below 60) under an hour, hours and
      minutes (below 60) from an hour on, with the seconds dropped. */
  lemma FmtSecShape(sec: real)
    requires sec > 0.0
    ensures var w := sec.Floor;
            && (w < 60 ==> FmtSec(sec) == NatToString(w) + "s")
            && (60 <= w < 3600 ==> FmtSec(sec) == NatToString(w / 60) + "m " + NatToString(w % 60) + "s")
            && (3600 <= w ==> FmtSec(sec) == NatToString(w / 60 / 60) + "h " + NatToString(w / 60 % 60) + "m")
  {
    FmtSecWholeSeconds(sec);
  }

  lemma ParseSingle(n: nat)
    ensures ParseDuration(NatToString(n) + "s") == Some(n)
  {
    var x := NatToString(n) + "s";
    NoSpaceInNumberWithUnit(n, 's');
    SplitJoin([x], ' ');
    UnitOf(n, 's');
  }

  lemma PairText(a: nat, ua: char, b: nat, ub: char)
    ensures NatToString(a) + [ua] + " " + NatToString(b) + [ub]
         == NatToString(a) + [ua, ' '] + NatToString(b) + [ub]
  {
  }

  lemma ParseMinutesSeconds(m: nat, s: nat)
    ensures ParseDuration(NatToString(m) + "m " + NatToString(s) + "s") == Some(60 * m + s)
  {
    PairText(m, 'm', s, 's');
    ParsePair(m, 'm', s, 's');
  }

  lemma ParseHoursMinutes(h: nat, mm: nat)
    ensures ParseDuration(NatToString(h) + "h " + NatToString(mm) + "m") == Some(3600 * h + 60 * mm)
  {
    PairText(h, 'h', mm, 'm');
    ParsePair(h, 'h', mm, 'm');
    var x := NatToString(h) + ['h'];
    assert Unit(x, 'm') == None by { assert x[|x| - 1] == 'h'; }
  }

  /** Whole minutes and seconds add back up to the whole seconds. */
  lemma MinutesSecondsSum(w: nat)
    ensures 60 * (w / 60) + w % 60 == w
  {
  }

  /** Whole hours and the minutes past them add up to the whole seconds less the
      odd seconds. */
  lemma HoursMinutesSum(w: nat)
    ensures 3600 * (w / 60 / 60) + 60 * (w / 60 % 60) == w - w % 60
  {
    var m := w / 60;
    assert 3600 * (m / 60) + 60 * (m % 60) == 60 * m;
    MinutesSecondsSum(w);
  }

  lemma FmtSecSeconds(sec: real)
    requires sec > 0.0 && sec.Floor < 60
    ensures ParseDuration(FmtSec(sec)) == Some(sec.Floor)
  {
    FmtSecShape(sec);
    ParseSingle(sec.Floor);
  }

  lemma FmtSecMinutesText(sec: real)
    requires sec > 0.0 && 60 <= sec.Floor < 3600
    ensures FmtSec(sec) == NatToString(sec.Floor / 60) + "m " + NatToString(sec.Floor % 60) + "s"
  {
    FmtSecWholeSeconds(sec);
  }

  lemma FmtSecMinutes(sec: real)
    requires sec > 0.0 && 60 <= sec.Floor < 3600
    ensures ParseDuration(FmtSec(sec)) == Some(sec.Floor)
  {
    var w: nat := sec.Floor;
    FmtSecMinutesText(sec);
    ParseMinutesSeconds(w / 60, w % 60);
    MinutesSecondsSum(w);
  }

  lemma FmtSecHours(sec: real)
    requires 3600 <= sec.Floor
    ensures ParseDuration(FmtSec(sec)) == Some(sec.Floor - sec.Floor % 60)
  {
    var w: nat := sec.Floor;
    var h, mm := w / 60 / 60, w / 60 % 60;
    FmtSecShape(sec);
    assert FmtSec(sec) == NatToString(h) + "h " + NatToString(mm) + "m";
    ParseHoursMinutes(h, mm);
    HoursMinutesSum(w);
  }

  /** Formatting loses nothing below an hour and only the seconds from an hour on:
      reading the text back gives the whole seconds, or the whole minutes. */
  lemma FmtSecRoundTrip(sec: real)
    ensures sec <= 0.0 ==> ParseDuration(FmtSec(sec)) == Some(0)
    ensures 0.0 < sec < 3600.0 ==> ParseDuration(FmtSec(sec)) == Some(sec.Floor)
    ensures sec >= 3600.0 ==> ParseDuration(FmtSec(sec)) == Some(sec.Floor - sec.Floor % 60)
  {
    if sec <= 0.0 {
      ParseSingle(0);
    } else if sec.Floor < 60 {
      FmtSecSeconds(sec);
    } else if sec.Floor < 3600 {
      FmtSecMinutes(sec);
    } else {
      FmtSecHours(sec);
    }
  }

  // ---------------------------------------------------------------------------
  // Range and bucket

  datatype Bucket = Hour | Day
  datatype Preset = Today | Last24h | Last7d | Last30d | Custom

  /** The bucket the charts use: hourly for the two short presets. */
  function EffectiveBucket(preset: Preset, selected: Bucket): (b: Bucket)
    ensures preset == Today || preset == Last24h ==> b == Hour
    ensures preset != Today && preset != Last24h ==> b == selected
  {
    if preset == Today || preset == Last24h then Hour else selected
  }

  /** One day in milliseconds, as `addDays` adds it. */
  const DayMs: int := 24 * 60 * 60 * 1000

  function AddDays(t: int, n: int): (r: int)
    ensures r - t == n * 86_400_000
  {
    t + n * DayMs
  }

  /** `Number(piece)` for the digit strings an `<input type="date">` produces:
      the decimal value, 0 for "", NaN (None) for anything else. */
  function NumberOf(piece: string): Option<nat> {
    if AllDigits(piece) then Some(DigitsValue(piece)) else None
  }

  /** `parts[i]` after `split("-")`, then `Number`; a missing piece is undefined. */
  function PieceNumber(parts: seq<string>, i: nat): Option<nat> {
    if i < |parts| then NumberOf(parts[i]) else None
  }

  /** `!n` for a number that may be NaN. */
  predicate Falsy(n: Option<nat>) {
    n.None? || n.value == 0
  }

  /** The year, month and day of a `y-m-d` string as `parseLocalDate` reads them:
      None when a piece is missing, zero or not a number. */
  function DateParts(s: string): (r: Option<(nat, nat, nat)>)
    ensures var parts := Split(s, '-');
            r.Some? <==> |parts| >= 3 && forall i :: 0 <= i < 3 ==> AllDigits(parts[i]) && DigitsValue(parts[i]) > 0
    ensures var parts := Split(s, '-');
            r.Some? ==> r.value == (DigitsValue(parts[0]), DigitsValue(parts[1]), DigitsValue(parts[2]))
  {
    var parts := Split(s, '-');
    var y := PieceNumber(parts, 0);
    var m := PieceNumber(parts, 1);
    var d := PieceNumber(parts, 2);
    if Falsy(y) || Falsy(m) || Falsy(d) then None
    else Some((y.value, m.value, d.value))
  }

  lemma DigitsHaveNoDash(s: string)
    requires AllDigits(s)
    ensures '-' !in s
  {
    forall j | 0 <= j < |s| ensures s[j] != '-' { assert IsDigit(s[j]); }
  }

  /** Three separator-free pieces joined by the separator split back into themselves. */
  lemma SplitThree(a: string, b: string, e: string, c: char)
    requires c !in a && c !in b && c !in e
    ensures Split(a + [c] + b + [c] + e, c) == [a, b, e]
  {
    assert IndexOf(e, c).None?;
    SplitAtFirst(b, e, c);
    assert a + [c] + b + [c] + e == a + [c] + (b + [c] + e);
    SplitAtFirst(a, b + [c] + e, c);
  }

  /** The text of a date splits at its dashes into the three numbers' texts. */
  lemma SplitDateText(y: nat, m: nat, d: nat)
    ensures Split(NatToString(y) + "-" + NatToString(m) + "-" + NatToString(d), '-')
            == [NatToString(y), NatToString(m), NatToString(d)]
  {
    DigitsHaveNoDash(NatToString(y));
    DigitsHaveNoDash(NatToString(m));
    DigitsHaveNoDash(NatToString(d));
    SplitThree(NatToString(y), NatToString(m), NatToString(d), '-');
  }

  /** A text that splits into three positive numbers reads as those numbers. */
  lemma DatePartsOfPieces(s: string, a: string, b: string, e: string)
    requires Split(s, '-') == [a, b, e]
    requires AllDigits(a) && AllDigits(b) && AllDigits(e)
    requires DigitsValue(a) > 0 && DigitsValue(b) > 0 && DigitsValue(e) > 0
    ensures DateParts(s) == Some((DigitsValue(a), DigitsValue(b), DigitsValue(e)))
  {
    var parts := Split(s, '-');
    assert parts[0] == a && parts[1] == b && parts[2] == e;
  }

  /** Every date the date input can produce reads back as its own year, month and day. */
  lemma DatePartsRoundTrip(y: nat, m: nat, d: nat)
    requires y > 0 && m > 0 && d > 0
    ensures DateParts(NatToString(y) + "-" + NatToString(m) + "-" + NatToString(d)) == Some((y, m, d))
  {
    SplitDateText(y, m, d);
    NatToStringRoundTrip(y);
    NatToStringRoundTrip(m);
    NatToStringRoundTrip(d);
    DatePartsOfPieces(NatToString(y) + "-" + NatToString(m) + "-" + NatToString(d),
                      NatToString(y), NatToString(m), NatToString(d));
  }

  /** `parseLocalDate` followed by the validity check. `localMidnight(y, monthIndex, day)`
      is `new Date(y, monthIndex, day).getTime()` in the browser's time zone, None
      for an invalid date. */
  function ParseLocalDate(s: string, localMidnight: (int, int, int) -> Option<int>): (r: Option<int>)
    ensures DateParts(s).None? ==> r.None?
    ensures DateParts(s).Some? ==>
              r == localMidnight(DateParts(s).value.0, DateParts(s).value.1 - 1, DateParts(s).value.2)
  {
    match DateParts(s)
    case None => None
    case Some((y, m, d)) => localMidnight(y, m - 1, d)
  }

  /** The text an `<input type="date">` holds for a day is read as that day's
      local midnight, with the month counted from zero as `Date` expects. */
  lemma ParseLocalDateOfDate(y: nat, m: nat, d: nat, localMidnight: (int, int, int) -> Option<int>)
    requires y > 0 && m > 0 && d > 0
    ensures ParseLocalDate(NatToString(y) + "-" + NatToString(m) + "-" + NatToString(d), localMidnight)
            == localMidnight(y, m - 1, d)
  {
    DatePartsRoundTrip(y, m, d);
  }

  datatype Range = Range(from: int, to: int, bucket: Bucket)

  /** `resolveRange()` at time `now`; `todayStart` is the local midnight of today. */
  function ResolveRange(preset: Preset, selected: Bucket, now: int, todayStart: int,
                        customFrom: string, customTo: string,
                        localMidnight: (int, int, int) -> Option<int>): (r: Range)
    ensures preset == Today ==> r == Range(todayStart, now, Hour)
    ensures preset == Last24h ==> r == Range(now - DayMs, now, Hour)
    ensures preset == Last7d ==> r == Range(now - 7 * DayMs, now, selected)
    ensures preset == Last30d ==> r == Range(now - 30 * DayMs, now, selected)
    ensures r.bucket == EffectiveBucket(preset, selected)
  {
    match preset
    case Today => Range(todayStart, now, Hour)
    case Last24h => Range(AddDays(now, -1), now, Hour)
    case Last7d => Range(AddDays(now, -7), now, selected)
    case Last30d => Range(AddDays(now, -30), now, selected)
    case Custom =>
      var f0 := if customFrom != "" then ParseLocalDate(customFrom, localMidnight) else Some(AddDays(now, -7));
      var t0 := if customTo != "" then ParseLocalDate(customTo, localMidnight) else Some(now);
      if f0.None? || t0.None? then Range(AddDays(now, -7), now, selected)
      else
        var toExclusive := if customTo != "" then AddDays(t0.value, 1) else t0.value;
        Range(f0.value, toExclusive, selected)
  }

  /** A custom range whose either end does not parse falls back to the last seven
      days. A missing start is seven days before now, a missing end is now, and a
      supplied end date is made exclusive by adding exactly one day. */
  lemma CustomRange(selected: Bucket, now: int, todayStart: int, customFrom: string, customTo: string,
                    localMidnight: (int, int, int) -> Option<int>)
    ensures var r := ResolveRange(Custom, selected, now, todayStart, customFrom, customTo, localMidnight);
            var f0 := ParseLocalDate(customFrom, localMidnight);
            var t0 := ParseLocalDate(customTo, localMidnight);
            && ((customFrom != "" && f0.None?) || (customTo != "" && t0.None?) ==>
                  r == Range(now - 7 * DayMs, now, selected))
            && (customFrom != "" && f0.Some? && customTo != "" && t0.Some? ==>
                  r == Range(f0.value, t0.value + DayMs, selected))
            && (customFrom == "" && customTo != "" && t0.Some? ==>
                  r == Range(now - 7 * DayMs, t0.value + DayMs, selected))
            && (customFrom != "" && f0.Some? && customTo == "" ==> r == Range(f0.value, now, selected))
            && (customFrom == "" && customTo == "" ==> r == Range(now - 7 * DayMs, now, selected))
  {
  }

  /** The query `fetchAnalytics` issues, or the error it throws first. */
  datatype Plan = Query(from: int, to: int, bucket: Bucket) | InvalidRange(message: string)

  function FetchPlan(r: Range): (p: Plan)
    ensures p.Query? <==> r.from < r.to
    ensures p.Query? ==> p == Query(r.from, r.to, r.bucket)
    ensures p.InvalidRange? ==> p.message == "Invalid date range (from must be earlier than to)."
  {
    if r.from >= r.to then InvalidRange("Invalid date range (from must be earlier than to).")
    else Query(r.from, r.to, r.bucket)
  }

  /** The rolling presets always query; "today" fails only at the very instant of
      local midnight; a custom range fails when its start is not before its end. */
  lemma PresetsQuery(preset: Preset, selected: Bucket, now: int, todayStart: int,
                     customFrom: string, customTo: string,
                     localMidnight: (int, int, int) -> Option<int>)
    requires todayStart <= now
    ensures var p := FetchPlan(ResolveRange(preset, selected, now, todayStart, customFrom, customTo, localMidnight));
            && (preset == Last24h || preset == Last7d || preset == Last30d ==> p.Query?)
            && (preset == Today ==> (p.Query? <==> todayStart < now))
  {
  }

  /** A custom range of a single day always queries: its end is the start plus one day,
      so one-day ranges are never refused. */
  lemma SameDayCustomRangeQueries(selected: Bucket, now: int, todayStart: int, day: string,
                                  localMidnight: (int, int, int) -> Option<int>)
    requires day != "" && ParseLocalDate(day, localMidnight).Some?
    ensures var r := ResolveRange(Custom, selected, now, todayStart, day, day, localMidnight);
            FetchPlan(r) == Query(ParseLocalDate(day, localMidnight).value,
                                  ParseLocalDate(day, localMidnight).value + DayMs, selected)
  {
  }

  // ---------------------------------------------------------------------------
  // Auto refresh

  const RefreshMs: int := 15_000

  /** The interval `tick`: refetch only while the page is visible and at least
      `REFRESH_MS - 200` ms after the last successful fetch. */
  function ShouldRefresh(visible: bool, now: int, lastFetchAt: int): (b: bool)
    ensures b ==> visible && now - lastFetchAt >= 14_800
    ensures visible && now - lastFetchAt >= RefreshMs ==> b
  {
    visible && now - lastFetchAt >= RefreshMs - 200
  }

  /** The gate's meaning: a hidden page never refetches; a visible one refetches
      from 14.8 s after the last fetch on, and never earlier. */
  lemma RefreshGate(visible: bool, now: int, lastFetchAt: int)
    ensures !visible ==> !ShouldRefresh(visible, now, lastFetchAt)
    ensures now < lastFetchAt + 14_800 ==> !ShouldRefresh(visible, now, lastFetchAt)
    ensures visible && now >= lastFetchAt + 14_800 ==> ShouldRefresh(visible, now, lastFetchAt)
  {
  }

  /** A timer that fires up to 200 ms early still refreshes, and once the gate is
      open it stays open as time passes. */
  lemma RefreshToleratesEarlyTimer(now: int, later: int, lastFetchAt: int, jitter: int)
    requires 0 <= jitter <= 200
    ensures ShouldRefresh(true, lastFetchAt + RefreshMs - jitter, lastFetchAt)
    ensures ShouldRefresh(true, now, lastFetchAt) && later >= now ==> ShouldRefresh(true, later, lastFetchAt)
  {
  }

  // ---------------------------------------------------------------------------
  // Engagement

  datatype Engagement = Low | Medium | High {
    function Rank(): nat {
      match this
      case Low => 0
      case Medium => 1
      case High => 2
    }
  }

  /** The engagement badge of a top page from its average active seconds. */
  function EngagementOf(avg: real): (e: Engagement)
    ensures e == High <==> avg > 120.0
    ensures e == Medium <==> 60.0 < avg <= 120.0
    ensures e == Low <==> avg <= 60.0
  {
    if avg > 120.0 then High else if avg > 60.0 then Medium else Low
  }

  /** More engagement time never lowers the badge. */
  lemma EngagementMonotone(a: real, b: real)
    requires a <= b
    ensures EngagementOf(a).Rank() <= EngagementOf(b).Rank()
  {
  }
}
