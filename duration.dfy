/**
 * `pretty_duration`: a human-readable rendering of a number of seconds.
 * Below two seconds it shows the count with the singular "second";
 * otherwise it uses the largest unit that still shows at least two of it.
 */
module Duration {
  import opened Text

  datatype TimeUnit = Second | Seconds | Minutes | Hours | Days

  function UnitName(u: TimeUnit): string
  {
    match u
    case Second => "second"
    case Seconds => "seconds"
    case Minutes => "minutes"
    case Hours => "hours"
    case Days => "days"
  }

  /** How many seconds one of the unit stands for. */
  function UnitLength(u: TimeUnit): nat
  {
    match u
    case Second => 1
    case Seconds => 1
    case Minutes => 60
    case Hours => 3600
    case Days => 24 * 3600
  }

  /** A duration as shown: a whole count of some unit. */
  datatype Reading = Reading(count: nat, unit: TimeUnit)

  /**
   * The threshold ladder of `pretty_duration`. The count is the duration
   * rounded down to whole units; the singular is used exactly below two
   * seconds; every plural count is at least two; minutes and hours are only
   * used below two hours and two days.
   */
  function Breakdown(seconds: nat): (d: Reading)
    ensures d.count * UnitLength(d.unit) <= seconds < (d.count + 1) * UnitLength(d.unit)
    ensures d.unit == Second <==> seconds < 2
    ensures d.unit != Second ==> d.count >= 2
    ensures d.unit == Seconds ==> d.count < 120
    ensures d.unit == Minutes ==> d.count < 120
    ensures d.unit == Hours ==> d.count < 48
  {
    if seconds < 2 then Reading(seconds, Second)
    else if seconds < 120 then Reading(seconds, Seconds)
    else if seconds < 7200 then Reading(seconds / 60, Minutes)
    else if seconds < 48 * 3600 then Reading(seconds / 3600, Hours)
    else Reading(seconds / (24 * 3600), Days)
  }

  /** `'%d <unit>' % count`. */
  function Render(d: Reading): string
  {
    Decimal(d.count) + " " + UnitName(d.unit)
  }

  /** `pretty_duration(seconds)`: the output for each range of the ladder, with integer division. */
  function PrettyDuration(seconds: nat): (r: string)
    ensures seconds < 2 ==> r == Decimal(seconds) + " second"
    ensures 2 <= seconds < 120 ==> r == Decimal(seconds) + " seconds"
    ensures 120 <= seconds < 7200 ==> r == Decimal(seconds / 60) + " minutes"
    ensures 7200 <= seconds < 172800 ==> r == Decimal(seconds / 3600) + " hours"
    ensures 172800 <= seconds ==> r == Decimal(seconds / 86400) + " days"
  {
    Render(Breakdown(seconds))
  }

  /** Distinct readings render as distinct strings: the count and the unit can be read back. */
  lemma RenderInjective(a: Reading, b: Reading)
    ensures Render(a) == Render(b) ==> a == b
  {
    var sa, sb := Decimal(a.count), Decimal(b.count);
    if |sa| < |sb| {
      assert Render(a)[|sa|] == ' ';
      assert Render(b)[|sa|] == sb[|sa|];
      assert IsDigit(sb[|sa|]);
    } else if |sb| < |sa| {
      assert Render(b)[|sb|] == ' ';
      assert Render(a)[|sb|] == sa[|sb|];
      assert IsDigit(sa[|sb|]);
    } else if Render(a) == Render(b) {
      assert sa == Render(a)[..|sa|];
      assert sb == Render(b)[..|sb|];
      DecimalInjective(a.count, b.count);
      assert UnitName(a.unit) == Render(a)[|sa| + 1..];
      assert UnitName(b.unit) == Render(b)[|sb| + 1..];
    }
  }

  /** Two durations print alike exactly when they break down into the same count of the same unit. */
  lemma PrettyDurationDistinguishesReadings(s1: nat, s2: nat)
    ensures PrettyDuration(s1) == PrettyDuration(s2) <==> Breakdown(s1) == Breakdown(s2)
  {
    RenderInjective(Breakdown(s1), Breakdown(s2));
  }
}
