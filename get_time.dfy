/**
 * The time-remaining label: a target instant in seconds, compared with the
 * current instant in milliseconds, becomes "Xd Yh Zm" (components that are zero
 * left out, minutes always shown when nothing else is), "Expirado" once the
 * target is reached, or "NaNm" when the target is outside the range a
 * JavaScript Date can hold.
 */
module GetTime {
  import opened Wrappers
  import opened JsStrings

  const MsPerSecond := 1000
  const MsPerMinute := 60_000
  const MinutesPerHour := 60
  const HoursPerDay := 24

  /** ECMAScript TimeClip: a Date holds at most 8.64e15 ms either side of the epoch. */
  const MaxTimeValue := 8_640_000_000_000_000

  const Expired := "Expirado"

  /** What `${NaN}m` gives when the target Date is invalid and NaN runs through the arithmetic. */
  const InvalidDateLabel := "NaNm"

  predicate IsValidTime(ms: int) {
    -MaxTimeValue <= ms <= MaxTimeValue
  }

  datatype Duration = Duration(days: nat, hours: nat, minutes: nat)

  /** Whole minutes split into days, hours of the day and minutes of the hour. */
  function Breakdown(totalMinutes: nat): (d: Duration)
    ensures d.hours < HoursPerDay && d.minutes < MinutesPerHour
    ensures d.days * 1440 + d.hours * 60 + d.minutes == totalMinutes
  {
    var totalHours := totalMinutes / MinutesPerHour;
    Duration(totalHours / HoursPerDay, totalHours % HoursPerDay, totalMinutes % MinutesPerHour)
  }

  /** The split is the only one with hours below 24 and minutes below 60. */
  lemma BreakdownUnique(totalMinutes: nat, d: Duration)
    requires d.hours < HoursPerDay && d.minutes < MinutesPerHour
    requires d.days * 1440 + d.hours * 60 + d.minutes == totalMinutes
    ensures d == Breakdown(totalMinutes)
  {
    var h := d.days * 24 + d.hours;
    assert totalMinutes == h * 60 + d.minutes;
    assert totalMinutes / 60 == h;
    assert totalMinutes % 60 == d.minutes;
    assert h / 24 == d.days && h % 24 == d.hours;
  }

  /** The parts that are shown: days and hours only when positive, minutes when positive
      or when neither days nor hours are shown. */
  function Components(d: Duration): seq<string> {
    DaysPart(d) + HoursPart(d) + MinutesPart(d)
  }

  function DaysPart(d: Duration): seq<string> {
    if d.days > 0 then [NumberToString(d.days) + "d"] else []
  }

  function HoursPart(d: Duration): seq<string> {
    if d.hours > 0 then [NumberToString(d.hours) + "h"] else []
  }

  function MinutesPart(d: Duration): seq<string> {
    if d.minutes > 0 || (d.days == 0 && d.hours == 0) then [NumberToString(d.minutes) + "m"] else []
  }

  /** The label shown for a target `timestamp` (seconds) at the instant `nowMs` (milliseconds). */
  function TimeLabel(timestamp: int, nowMs: int): string {
    var targetMs := timestamp * MsPerSecond;
    if !IsValidTime(targetMs) then InvalidDateLabel
    else if targetMs - nowMs <= 0 then Expired
    else Join(Components(Breakdown((targetMs - nowMs) / MsPerMinute)), " ")
  }

  /** `formatTime`, with the clock reading passed in as `nowMs`. */
  method FormatTime(timestamp: int, nowMs: int) returns (text: string)
    ensures text == TimeLabel(timestamp, nowMs)
  {
    var targetMs := timestamp * MsPerSecond;
    if !IsValidTime(targetMs) {
      // new Date(...) is an Invalid Date: every quantity below is NaN, every `> 0` test
      // fails, and only the `parts.length === 0` branch pushes `${NaN}m`.
      return InvalidDateLabel;
    }
    var diffMs := targetMs - nowMs;
    if diffMs <= 0 {
      return Expired;
    }
    var totalMinutes := diffMs / MsPerMinute;
    var totalHours := totalMinutes / MinutesPerHour;
    var totalDays := totalHours / HoursPerDay;
    var days := totalDays;
    var hours := totalHours % HoursPerDay;
    var minutes := totalMinutes % MinutesPerHour;
    ghost var shown := Breakdown(totalMinutes);
    assert shown == Duration(days, hours, minutes);
    var parts: seq<string> := [];
    if days > 0 {
      parts := parts + [NumberToString(days) + "d"];
    }
    assert parts == DaysPart(shown);
    if hours > 0 {
      parts := parts + [NumberToString(hours) + "h"];
    }
    assert parts == DaysPart(shown) + HoursPart(shown);
    if minutes > 0 || |parts| == 0 {
      parts := parts + [NumberToString(minutes) + "m"];
    }
    assert parts == Components(shown);
    text := Join(parts, " ");
    FutureLabel(timestamp, nowMs);
  }

  /** For a valid target still ahead, the label joins the shown parts of the whole minutes left. */
  lemma FutureLabel(timestamp: int, nowMs: int)
    requires IsValidTime(timestamp * MsPerSecond) && timestamp * MsPerSecond - nowMs > 0
    ensures TimeLabel(timestamp, nowMs)
            == Join(Components(Breakdown((timestamp * MsPerSecond - nowMs) / MsPerMinute)), " ")
  {
  }

  // ---------------------------------------------------------------------------
  // Reading a label back
  // ---------------------------------------------------------------------------

  predicate IsUnit(c: char) {
    c == 'd' || c == 'h' || c == 'm'
  }

  /** Minutes per unit. */
  function UnitWeight(u: char): nat
    requires IsUnit(u)
  {
    if u == 'd' then 1440 else if u == 'h' then 60 else 1
  }

  /** Units must appear from the largest to the smallest. */
  function UnitRank(u: char): nat
    requires IsUnit(u)
  {
    if u == 'd' then 2 else if u == 'h' then 1 else 0
  }

  /** One component: decimal digits followed by a unit letter. */
  function ParseComponent(token: string): Option<(nat, char)> {
    if |token| >= 2 && IsUnit(token[|token| - 1]) && AllDigits(token[..|token| - 1]) then
      Some((DecimalValue(token[..|token| - 1]), token[|token| - 1]))
    else
      None
  }

  /** The total minutes of a list of components whose units are all ranked below `below`
      and strictly decreasing. */
  function ParseComponents(tokens: seq<string>, below: nat): Option<nat>
    decreases |tokens|
  {
    if tokens == [] then Some(0)
    else
      match ParseComponent(tokens[0])
      case None => None
      case Some((value, unit)) =>
        if UnitRank(unit) >= below then None
        else
          match ParseComponents(tokens[1..], UnitRank(unit))
          case None => None
          case Some(rest) => Some(value * UnitWeight(unit) + rest)
  }

  /** The total minutes a label "Xd Yh Zm" (any non-empty subset, in this order, single
      spaces) stands for; `None` for anything else, such as "Expirado". */
  function ParseTimeLabel(text: string): Option<nat> {
    ParseComponents(Split(text, ' '), 3)
  }

  lemma ParseComponentOf(n: nat, u: char)
    requires IsUnit(u)
    ensures ParseComponent(NumberToString(n) + [u]) == Some((n, u))
  {
    NumberToStringDenotes(n);
    var token := NumberToString(n) + [u];
    assert token[..|token| - 1] == NumberToString(n);
  }

  lemma ParseCons(n: nat, u: char, rest: seq<string>, below: nat, r: nat)
    requires IsUnit(u) && UnitRank(u) < below
    requires ParseComponents(rest, UnitRank(u)) == Some(r)
    ensures ParseComponents([NumberToString(n) + [u]] + rest, below) == Some(n * UnitWeight(u) + r)
  {
    ParseComponentOf(n, u);
    var tokens := [NumberToString(n) + [u]] + rest;
    assert tokens[0] == NumberToString(n) + [u] && tokens[1..] == rest;
  }

  /** The shown parts read back as the minutes they stand for. */
  lemma ComponentsParse(d: Duration)
    ensures ParseComponents(Components(d), 3) == Some(d.days * 1440 + d.hours * 60 + d.minutes)
  {
    var hs := HoursPart(d) + MinutesPart(d);
    AppendAssociative(DaysPart(d), HoursPart(d), MinutesPart(d));
    if d.days > 0 {
      HoursPartParse(d, 2);
      ParseCons(d.days, 'd', hs, 3, d.hours * 60 + d.minutes);
    } else {
      HoursPartParse(d, 3);
      assert DaysPart(d) + hs == hs;
    }
  }

  lemma AppendAssociative(a: seq<string>, b: seq<string>, c: seq<string>)
    ensures a + b + c == a + (b + c)
  {
  }

  lemma HoursPartParse(d: Duration, below: nat)
    requires below >= 2
    ensures ParseComponents(HoursPart(d) + MinutesPart(d), below) == Some(d.hours * 60 + d.minutes)
  {
    var ms := MinutesPart(d);
    if d.hours > 0 {
      MinutesPartParse(d, 1);
      ParseCons(d.hours, 'h', ms, below, d.minutes);
    } else {
      MinutesPartParse(d, below);
      assert HoursPart(d) + ms == ms;
    }
  }

  lemma MinutesPartParse(d: Duration, below: nat)
    requires below >= 1
    ensures ParseComponents(MinutesPart(d), below) == Some(d.minutes)
  {
    if MinutesPart(d) != [] {
      ParseCons(d.minutes, 'm', [], below, 0);
      assert MinutesPart(d) == MinutesPart(d) + [];
    }
  }

  lemma ComponentsHaveNoSpace(d: Duration)
    ensures |Components(d)| >= 1
    ensures forall k :: 0 <= k < |Components(d)| ==> ' ' !in Components(d)[k]
  {
    var ps := Components(d);
    forall k | 0 <= k < |ps| ensures ' ' !in ps[k] {
      var n :| n in [d.days, d.hours, d.minutes] && (ps[k] == NumberToString(n) + "d" || ps[k] == NumberToString(n) + "h" || ps[k] == NumberToString(n) + "m");
      var digits := NumberToString(n);
      NumberToStringDenotes(n);
      assert forall i :: 0 <= i < |digits| ==> digits[i] != ' ';
    }
  }

  /** Round trip: a label for a future target reads back as the whole minutes left. */
  lemma TimeLabelRoundTrip(timestamp: int, nowMs: int)
    requires IsValidTime(timestamp * MsPerSecond)
    requires timestamp * MsPerSecond - nowMs > 0
    ensures ParseTimeLabel(TimeLabel(timestamp, nowMs)) == Some((timestamp * MsPerSecond - nowMs) / MsPerMinute)
  {
    var d := Breakdown((timestamp * MsPerSecond - nowMs) / MsPerMinute);
    ComponentsHaveNoSpace(d);
    SplitJoin(Components(d), ' ');
    ComponentsParse(d);
  }

  /** "Expirado" is shown exactly when the target is a valid instant not after now. */
  lemma ExpiredExactlyWhenReached(timestamp: int, nowMs: int)
    ensures TimeLabel(timestamp, nowMs) == Expired
            <==> IsValidTime(timestamp * MsPerSecond) && timestamp * MsPerSecond - nowMs <= 0
  {
    if IsValidTime(timestamp * MsPerSecond) && timestamp * MsPerSecond - nowMs > 0 {
      TimeLabelRoundTrip(timestamp, nowMs);
      SplitWithoutSeparator(Expired, ' ');
      assert ParseTimeLabel(Expired) == None;
    }
  }

  /** The label is never empty. */
  lemma TimeLabelNonEmpty(timestamp: int, nowMs: int)
    ensures TimeLabel(timestamp, nowMs) != ""
  {
    if IsValidTime(timestamp * MsPerSecond) && timestamp * MsPerSecond - nowMs > 0 {
      TimeLabelRoundTrip(timestamp, nowMs);
      assert ParseTimeLabel("") == None;
    }
  }

  /** Less than a minute ahead reads "0m". */
  lemma UnderOneMinute(timestamp: int, nowMs: int)
    requires IsValidTime(timestamp * MsPerSecond)
    requires 0 < timestamp * MsPerSecond - nowMs < MsPerMinute
    ensures TimeLabel(timestamp, nowMs) == "0m"
  {
    FutureLabel(timestamp, nowMs);
    assert (timestamp * MsPerSecond - nowMs) / MsPerMinute == 0;
    assert Breakdown(0) == Duration(0, 0, 0);
    assert NumberToString(0) + "m" == "0m";
    assert Components(Duration(0, 0, 0)) == ["0m"];
  }

  /** A target `ahead` seconds after a whole-second `now` shows the parts of `ahead / 60` minutes. */
  lemma LabelAhead(nowSeconds: int, ahead: nat)
    requires ahead > 0 && IsValidTime((nowSeconds + ahead) * MsPerSecond)
    ensures TimeLabel(nowSeconds + ahead, nowSeconds * MsPerSecond)
            == Join(Components(Breakdown(ahead / 60)), " ")
  {
    assert (nowSeconds + ahead) * MsPerSecond - nowSeconds * MsPerSecond == ahead * 1000;
    assert (ahead * 1000) / MsPerMinute == ahead / 60;
  }

  /** A target 90,061 s ahead reads "1d 1h 1m". */
  lemma OneDayOneHourOneMinute(nowSeconds: int)
    requires IsValidTime((nowSeconds + 90_061) * MsPerSecond)
    ensures TimeLabel(nowSeconds + 90_061, nowSeconds * MsPerSecond) == "1d 1h 1m"
  {
    LabelAhead(nowSeconds, 90_061);
    assert 90_061 / 60 == 1501;
    LabelOfMinutes1501();
  }

  lemma LabelOfMinutes1501()
    ensures Join(Components(Breakdown(1501)), " ") == "1d 1h 1m"
  {
    assert Breakdown(1501) == Duration(1, 1, 1);
    assert NumberToString(1) + "d" == "1d" && NumberToString(1) + "h" == "1h" && NumberToString(1) + "m" == "1m";
    assert Components(Duration(1, 1, 1)) == ["1d", "1h", "1m"];
    assert Join(["1d", "1h", "1m"], " ") == "1d 1h 1m";
  }

  /** A zero hour between days and minutes is skipped: 1445 minutes ahead reads "1d 5m". */
  lemma ZeroHourSkipped(nowSeconds: int)
    requires IsValidTime((nowSeconds + 86_700) * MsPerSecond)
    ensures TimeLabel(nowSeconds + 86_700, nowSeconds * MsPerSecond) == "1d 5m"
  {
    LabelAhead(nowSeconds, 86_700);
    assert 86_700 / 60 == 1445;
    LabelOfMinutes1445();
  }

  lemma LabelOfMinutes1445()
    ensures Join(Components(Breakdown(1445)), " ") == "1d 5m"
  {
    assert Breakdown(1445) == Duration(1, 0, 5);
    assert NumberToString(1) + "d" == "1d" && NumberToString(5) + "m" == "5m";
    assert Components(Duration(1, 0, 5)) == ["1d", "5m"];
    assert Join(["1d", "5m"], " ") == "1d 5m";
  }

  /** The examples of the function's own documentation: "5d 12h 30m", "2h 45m" and "15m". */
  lemma DocumentedExamples(nowSeconds: int)
    requires IsValidTime(nowSeconds * MsPerSecond) && IsValidTime((nowSeconds + 477_000) * MsPerSecond)
    ensures TimeLabel(nowSeconds + 477_000, nowSeconds * MsPerSecond) == "5d 12h 30m"
    ensures TimeLabel(nowSeconds + 9_900, nowSeconds * MsPerSecond) == "2h 45m"
    ensures TimeLabel(nowSeconds + 900, nowSeconds * MsPerSecond) == "15m"
  {
    LabelAhead(nowSeconds, 477_000);
    assert 477_000 / 60 == 7950;
    LabelOfMinutes7950();
    LabelAhead(nowSeconds, 9_900);
    assert 9_900 / 60 == 165;
    LabelOfMinutes165();
    LabelAhead(nowSeconds, 900);
    assert 900 / 60 == 15;
    LabelOfMinutes15();
  }

  lemma LabelOfMinutes7950()
    ensures Join(Components(Breakdown(7950)), " ") == "5d 12h 30m"
  {
    assert Breakdown(7950) == Duration(5, 12, 30);
    PartsOf5d12h30m();
    assert Join(["5d", "12h", "30m"], " ") == "5d 12h 30m";
  }

  lemma PartsOf5d12h30m()
    ensures Components(Duration(5, 12, 30)) == ["5d", "12h", "30m"]
  {
    assert NumberToString(12) == "12" by {
      assert NumberToString(1) == "1";
    }
    assert NumberToString(30) == "30" by {
      assert NumberToString(3) == "3";
    }
    assert NumberToString(5) + "d" == "5d" && "12" + "h" == "12h" && "30" + "m" == "30m";
  }

  lemma LabelOfMinutes165()
    ensures Join(Components(Breakdown(165)), " ") == "2h 45m"
  {
    assert Breakdown(165) == Duration(0, 2, 45);
    assert NumberToString(45) == "45" by {
      assert NumberToString(4) == "4";
    }
    assert NumberToString(2) + "h" == "2h" && "45" + "m" == "45m";
    assert Components(Duration(0, 2, 45)) == ["2h", "45m"];
    assert Join(["2h", "45m"], " ") == "2h 45m";
  }

  lemma LabelOfMinutes15()
    ensures Join(Components(Breakdown(15)), " ") == "15m"
  {
    assert Breakdown(15) == Duration(0, 0, 15);
    assert NumberToString(15) == "15" by {
      assert NumberToString(1) == "1";
    }
    assert "15" + "m" == "15m";
    assert Components(Duration(0, 0, 15)) == ["15m"];
  }
}
