/** Model of o2.Date.getPrettyDate (o2.date.core.js): a human-readable description of the
    distance between two timestamps, chosen from a table of ascending thresholds.
    Times are integer milliseconds; the source compares `seconds = ms / 1000` against
    thresholds in seconds, which is exactly `ms < 1000 * threshold`, and its
    `floor(seconds / unit)` is `ms / 1000 / unit` for a non-negative `ms`. A `Date` built
    from a time beyond 8.64e15 ms either way is invalid, so `seconds` is NaN: every
    comparison then fails and the input `time` comes back. */
module DateCore {
  import opened Common

  /** One row of `timeFormats`: either a counted row `[threshold, noun, unit]` rendered as
      "N noun token", or a fixed row `[threshold, pastPhrase, futurePhrase]`. The words are
      named by `Noun` and `Span` and spelled out by `NounText` and `SpanText`. */
  datatype Format =
    | Counted(threshold: int, noun: Noun, unit: int)
    | Fixed(threshold: int, span: Span)

  /** The plural noun of a counted row. */
  datatype Noun = SecondsNoun | MinutesNoun | HoursNoun | DaysNoun | WeeksNoun | MonthsNoun | YearsNoun | CenturiesNoun

  /** The period a fixed row names, in the past or the future. */
  datatype Span = MinuteSpan | HourSpan | DaySpan | WeekSpan | MonthSpan | YearSpan | CenturySpan

  function NounText(n: Noun): string {
    match n
    case SecondsNoun => "seconds"
    case MinutesNoun => "minutes"
    case HoursNoun => "hours"
    case DaysNoun => "days"
    case WeeksNoun => "weeks"
    case MonthsNoun => "months"
    case YearsNoun => "years"
    case CenturiesNoun => "centuries"
  }

  /** A fixed row's past phrase (list index 1) or future phrase (list index 2). */
  function SpanText(s: Span, future: bool): string {
    match s
    case MinuteSpan => if future then "a minute from now" else "a minute ago"
    case HourSpan => if future then "an hour from now" else "an hour ago"
    case DaySpan => if future then "tomorrow" else "yesterday"
    case WeekSpan => if future then "next week" else "last week"
    case MonthSpan => if future then "next month" else "last month"
    case YearSpan => if future then "next year" else "last year"
    case CenturySpan => if future then "next century" else "last century"
  }

  const TimeFormats: seq<Format> := [
    Counted(60, SecondsNoun, 1),
    Fixed(120, MinuteSpan),
    Counted(3600, MinutesNoun, 60),
    Fixed(7200, HourSpan),
    Counted(86400, HoursNoun, 3600),
    Fixed(172800, DaySpan),
    Counted(604800, DaysNoun, 86400),
    Fixed(1209600, WeekSpan),
    Counted(2419200, WeeksNoun, 604800),
    Fixed(4838400, MonthSpan),
    Counted(29030400, MonthsNoun, 2419200),
    Fixed(58060800, YearSpan),
    Counted(2903040000, YearsNoun, 29030400),
    Fixed(5806080000, CenturySpan),
    Counted(58060800000, CenturiesNoun, 2903040000)
  ]

  const JustNowSeconds := 5

  /** The result: a phrase, or the input `time` itself when the distance is beyond the table. */
  datatype PrettyDate = Text(text: string) | Time(time: int)

  predicate Ascending(t: seq<Format>) {
    forall j, k :: 0 <= j < k < |t| ==> t[j].threshold < t[k].threshold
  }

  predicate UnitsPositive(t: seq<Format>) {
    forall j :: 0 <= j < |t| ==> (t[j].Counted? ==> t[j].unit > 0)
  }

  /** Each threshold is above the one before it. */
  lemma TableStepsUp()
    ensures forall j :: 0 < j < |TimeFormats| ==> TimeFormats[j - 1].threshold < TimeFormats[j].threshold
  {
  }

  lemma {:induction false} StepsUpToAscending(t: seq<Format>, j: int, k: int)
    requires forall i :: 0 < i < |t| ==> t[i - 1].threshold < t[i].threshold
    requires 0 <= j < k < |t|
    ensures t[j].threshold < t[k].threshold
    decreases k - j
  {
    if j + 1 < k {
      StepsUpToAscending(t, j, k - 1);
    }
  }

  lemma TableAscending()
    ensures Ascending(TimeFormats)
  {
    TableStepsUp();
    forall j, k | 0 <= j < k < |TimeFormats| ensures TimeFormats[j].threshold < TimeFormats[k].threshold {
      StepsUpToAscending(TimeFormats, j, k);
    }
  }

  lemma TableUnitsPositive()
    ensures UnitsPositive(TimeFormats)
  {
  }

  /** No row lies above the last one, 58060800000 seconds. */
  lemma TableBounded()
    ensures forall j :: 0 <= j < |TimeFormats| ==> TimeFormats[j].threshold <= 58060800000
  {
  }

  /** The first row, from index `i` on, whose threshold exceeds `ms` milliseconds; every
      row skipped on the way has a threshold at or below `ms`. */
  function FirstRowAbove(ms: int, i: nat): (j: Option<nat>)
    requires i <= |TimeFormats|
    ensures j.Some? ==> i <= j.value < |TimeFormats| && ms < 1000 * TimeFormats[j.value].threshold
    ensures forall k :: i <= k < |TimeFormats| && (j.None? || k < j.value) ==> ms >= 1000 * TimeFormats[k].threshold
    decreases |TimeFormats| - i
  {
    if i == |TimeFormats| then None
    else if ms < 1000 * TimeFormats[i].threshold then Some(i)
    else FirstRowAbove(ms, i + 1)
  }

  /** How row `f` renders `ms` milliseconds in the given direction. */
  function Render(f: Format, ms: int, future: bool): string
    requires f.Counted? ==> f.unit > 0
  {
    match f
    case Fixed(_, span) => SpanText(span, future)
    case Counted(_, noun, unit) =>
      NatToString(if ms < 0 then 0 else ms / 1000 / unit) + " " + NounText(noun) + " " + (if future then "from now" else "ago")
  }

  /** The largest distance from the epoch, in milliseconds, that a `Date` can hold. */
  const MaxDate := 8640000000000000

  /** `new Date(t)` is a valid date: `t` is within `MaxDate` of the epoch either way. */
  predicate InDateRange(t: int) {
    -MaxDate <= t <= MaxDate
  }

  /** The specification: when either time makes an invalid `Date` the input comes back;
      otherwise the absolute distance picks the first row above it and the sign picks the
      direction; under five seconds is "just now", beyond the table the input comes back. */
  function Pretty(time: int, currentTime: int): PrettyDate {
    if !InDateRange(time) || !InDateRange(currentTime) then Time(time)
    else
      var diff := currentTime - time;
      PrettyAt(time, if diff < 0 then -diff else diff, diff < 0)
  }

  /** The same, for a distance `ms` already made non-negative and its direction. */
  function PrettyAt(time: int, ms: int, future: bool): PrettyDate {
    if ms < 1000 * JustNowSeconds then Text("just now")
    else match FirstRowAbove(ms, 0)
      case None => Time(time)
      case Some(j) => Text(Render(TimeFormats[j], ms, future))
  }

  /** getPrettyDate(time, currTime): a `currTime` of 0 (falsy) falls back to the clock,
      passed in here as `clockNow`. The loop walks the table as the source does. When
      either time makes an invalid `Date`, `seconds` is NaN (`valid` is false here): every
      comparison fails and the loop runs off the table. */
  method GetPrettyDate(time: int, currTime: int, clockNow: int) returns (r: PrettyDate)
    ensures r == Pretty(time, if currTime != 0 then currTime else clockNow)
  {
    var currentTime := if currTime != 0 then currTime else clockNow;
    var valid := InDateRange(time) && InDateRange(currentTime);
    var ms := currentTime - time;
    var future := false;
    if valid && ms < 0 {
      ms := -ms;
      future := true;
    }
    assert valid ==> Pretty(time, currentTime) == PrettyAt(time, ms, future);
    TableUnitsPositive();
    var i := 0;
    while i < |TimeFormats|
      invariant 0 <= i <= |TimeFormats|
      invariant valid && i > 0 ==> ms >= 1000 * JustNowSeconds
      invariant valid ==> FirstRowAbove(ms, 0) == FirstRowAbove(ms, i)
    {
      if valid && ms < 1000 * JustNowSeconds {
        return Text("just now");
      }
      var f := TimeFormats[i];
      if valid && ms < 1000 * f.threshold {
        return Text(Render(f, ms, future));
      }
      i := i + 1;
    }
    return Time(time);
  }

  /** Under five seconds either way the answer is "just now". */
  lemma JustNow(time: int, currentTime: int)
    requires InDateRange(time) && InDateRange(currentTime)
    requires -5000 < currentTime - time < 5000
    ensures Pretty(time, currentTime) == Text("just now")
  {
  }

  /** A distance between the thresholds of row `j - 1` and row `j` selects row `j`. */
  lemma FirstRowIs(ms: int, j: nat)
    requires j < |TimeFormats| && ms < 1000 * TimeFormats[j].threshold
    requires j > 0 ==> ms >= 1000 * TimeFormats[j - 1].threshold
    ensures FirstRowAbove(ms, 0) == Some(j)
  {
    TableAscending();
  }

  /** Past distances read "ago", future ones "from now": a counted row says
      "N noun ago" or "N noun from now" with N the whole number of units. */
  lemma CountedRow(time: int, currentTime: int, j: nat)
    requires InDateRange(time) && InDateRange(currentTime)
    requires j < |TimeFormats| && TimeFormats[j].Counted?
    requires var d := currentTime - time; var ms := if d < 0 then -d else d;
      ms >= 5000 && ms < 1000 * TimeFormats[j].threshold && (j > 0 ==> ms >= 1000 * TimeFormats[j - 1].threshold)
    ensures var d := currentTime - time; var ms := if d < 0 then -d else d;
      Pretty(time, currentTime) == Text(NatToString(ms / 1000 / TimeFormats[j].unit) + " "
        + NounText(TimeFormats[j].noun) + " " + (if d < 0 then "from now" else "ago"))
  {
    var d := currentTime - time;
    var ms := if d < 0 then -d else d;
    FirstRowIs(ms, j);
    TableUnitsPositive();
  }

  /** Fixed rows return their phrase: 60 to 119 seconds is "a minute ago" in the past and
      "a minute from now" in the future. */
  lemma AMinute(time: int, currentTime: int)
    requires InDateRange(time) && InDateRange(currentTime)
    requires var d := currentTime - time; 60000 <= d < 120000 || -120000 < d <= -60000
    ensures Pretty(time, currentTime) ==
      Text(if currentTime - time < 0 then "a minute from now" else "a minute ago")
  {
    assert FirstRowAbove(if currentTime - time < 0 then time - currentTime else currentTime - time, 0) == Some(1);
  }

  /** Five to fifty-nine seconds ago reads "N seconds ago". */
  lemma Seconds(time: int, currentTime: int)
    requires InDateRange(time) && InDateRange(currentTime)
    requires 5000 <= currentTime - time < 60000
    ensures Pretty(time, currentTime) == Text(NatToString((currentTime - time) / 1000) + " seconds ago")
  {
    CountedRow(time, currentTime, 0);
  }

  /** At or beyond the last threshold (58060800000 seconds) the input `time` is returned. */
  lemma BeyondTable(time: int, currentTime: int)
    requires currentTime - time >= 58060800000 * 1000 || time - currentTime >= 58060800000 * 1000
    ensures Pretty(time, currentTime) == Time(time)
  {
    var d := currentTime - time;
    var ms := if d < 0 then -d else d;
    TableBounded();
  }

  /** A time beyond the `Date` range either way gives back the input `time`, however close
      the two times are: 9000000000000000 against 9000000000000001000 is not "just now". */
  lemma InvalidDate(time: int, currentTime: int)
    requires !InDateRange(time) || !InDateRange(currentTime)
    ensures Pretty(time, currentTime) == Time(time)
  {
  }

  lemma InvalidDateExample()
    ensures Pretty(9000000000000000, 9000000000000001000) == Time(9000000000000000)
    ensures Pretty(8640000000000001, 8640000000000000) == Time(8640000000000001)
  {
  }
}
