/**
  `timeAgo` on the whole number of seconds elapsed: "just now" under a minute,
  otherwise the count of the largest unit (year, month, week, day, hour,
  minute) that fits at least once. Date parsing and the clock are outside the
  model: the input is `diffInSeconds` itself.
 */
module TimeAgo {
  import opened Wrappers
  import opened Text

  datatype Unit = Year | Month | Week | Day | Hour | Minute

  /** The unit lengths of the source's table: 365, 30 and 7 days, a day, an hour, a minute. */
  function Seconds(u: Unit): (s: nat)
    ensures s >= 60
  {
    match u
    case Year => 31536000
    case Month => 2592000
    case Week => 604800
    case Day => 86400
    case Hour => 3600
    case Minute => 60
  }

  function Name(u: Unit): string {
    match u
    case Year => "year"
    case Month => "month"
    case Week => "week"
    case Day => "day"
    case Hour => "hour"
    case Minute => "minute"
  }

  /** The table in the order it is searched, largest first. */
  const Units: seq<Unit> := [Year, Month, Week, Day, Hour, Minute]

  /** The table is strictly decreasing and ends with the minute. */
  lemma UnitsDecreasing()
    ensures forall i, j :: 0 <= i < j < |Units| ==> Seconds(Units[i]) > Seconds(Units[j])
    ensures Units[|Units| - 1] == Minute
  {
  }

  /** The search loop from position `k`: the first unit whose floored count is at least 1. */
  function FirstMatch(diff: int, k: nat): (r: Option<nat>)
    decreases |Units| - k
    ensures r.Some? ==>
      && k <= r.value < |Units|
      && diff / Seconds(Units[r.value]) >= 1
      && forall i :: k <= i < r.value ==> diff / Seconds(Units[i]) < 1
    ensures r.None? ==> forall i :: k <= i < |Units| ==> diff / Seconds(Units[i]) < 1
  {
    if k >= |Units| then None
    else if diff / Seconds(Units[k]) >= 1 then Some(k)
    else FirstMatch(diff, k + 1)
  }

  /** What `timeAgo` reports. */
  datatype Ago = JustNow | Ago(count: nat, unit: Unit)

  /** The decision of `timeAgo`, including the final "just now" after the loop. */
  function Classify(diff: int): (r: Ago)
    ensures r.JustNow? <==> diff < 60
    // the count is the number of whole units in the difference
    ensures r.Ago? ==> 1 <= r.count && r.count * Seconds(r.unit) <= diff < (r.count + 1) * Seconds(r.unit)
    // every larger unit did not fit once
    ensures r.Ago? ==> forall i :: 0 <= i < |Units| && Seconds(Units[i]) > Seconds(r.unit) ==>
      diff < Seconds(Units[i])
  {
    if diff < 60 then JustNow
    else
      FallbackUnreachable(diff);
      match FirstMatch(diff, 0)
      case None => JustNow
      case Some(k) =>
        DivBounds(diff, Seconds(Units[k]));
        LargerUnitsMissed(diff, k);
        Ago(diff / Seconds(Units[k]), Units[k])
  }

  /** Every unit larger than the matched one did not fit once. */
  lemma LargerUnitsMissed(diff: int, k: nat)
    requires FirstMatch(diff, 0) == Some(k)
    ensures forall i :: 0 <= i < |Units| && Seconds(Units[i]) > Seconds(Units[k]) ==>
      diff < Seconds(Units[i])
  {
    UnitsDecreasing();
    forall i | 0 <= i < |Units| && Seconds(Units[i]) > Seconds(Units[k])
      ensures diff < Seconds(Units[i])
    {
      DivBounds(diff, Seconds(Units[i]));
    }
  }

  /** Floor division brackets its dividend. */
  lemma DivBounds(diff: int, d: nat)
    requires d > 0
    ensures (diff / d) * d <= diff < (diff / d + 1) * d
    ensures diff / d < 1 <==> diff < d
  {
  }

  /** For a difference of a minute or more the minute always matches, so the search never
      falls through to the final "just now". */
  lemma FallbackUnreachable(diff: int)
    requires diff >= 60
    ensures FirstMatch(diff, 0).Some?
  {
  }

  /** A unit other than the year leaves the difference below the next larger unit. */
  lemma BelowNextUnit(diff: int)
    requires Classify(diff).Ago? && Classify(diff).unit != Year
    ensures var u := Classify(diff).unit;
      exists i :: 0 <= i < |Units| - 1 && Units[i + 1] == u && diff < Seconds(Units[i])
  {
    var u := Classify(diff).unit;
    var i := match u
      case Month => 0 case Week => 1 case Day => 2 case Hour => 3 case Minute => 4
      case Year => 0;
    assert Units[i + 1] == u;
    assert Seconds(Units[i]) > Seconds(u);
  }

  /** The rendered text: the count, the unit name, an `s` above one, and "ago". */
  function Render(a: Ago): (r: string)
    ensures a.JustNow? ==> r == "just now"
    ensures a.Ago? ==> |r| >= 5 && r[|r| - 4..] == " ago"
    // the space-separated words are the decimal count, the unit name (plural above one), "ago"
    ensures a.Ago? ==>
      Split(r, " ") == [Decimal(a.count), Name(a.unit) + (if a.count > 1 then "s" else ""), "ago"]
  {
    match a
    case JustNow => "just now"
    case Ago(count, unit) =>
      var d, n := Decimal(count), Name(unit) + (if count > 1 then "s" else "");
      WordsHaveNoSpace(d, n);
      d + " " + n + " ago"
  }

  /** The count and the unit word contain no space, so they come back as separate words. */
  lemma WordsHaveNoSpace(d: string, n: string)
    requires AllDigits(d) && forall k :: 0 <= k < |n| ==> 'a' <= n[k] <= 'z'
    ensures Split(d + " " + n + " ago", " ") == [d, n, "ago"]
  {
    Excludes(d, ' ');
    Excludes(n, ' ');
    Excludes("ago", ' ');
    assert d + " " + n + " ago" == d + " " + (n + " " + "ago");
    SplitAfterFree(d, " ", n + " " + "ago");
    SplitAfterFree(n, " ", "ago");
    SplitFree("ago", " ");
  }

  /** `timeAgo(diffInSeconds)`. */
  function TimeAgoText(diff: int): (r: string)
    ensures diff < 60 <==> r == "just now"
    ensures diff >= 60 ==> r == Render(Classify(diff))
    // from a minute on: the whole number of the largest unit that fits, its name and "ago"
    ensures diff >= 60 ==>
      var a := Classify(diff);
      && Split(r, " ") == [Decimal(diff / Seconds(a.unit)), Name(a.unit) + (if a.count > 1 then "s" else ""), "ago"]
      && diff / Seconds(a.unit) >= 1
  {
    var a := Classify(diff);
    assert a.Ago? ==> Render(a)[|Render(a)| - 4..] == " ago";
    Render(a)
  }

  /** The unit name is plural exactly when the count exceeds one. */
  lemma PluralExactlyAboveOne(a: Ago)
    requires a.Ago?
    ensures Render(a)[|Render(a)| - 5] == 's' <==> a.count > 1
  {
    var r := Render(a);
    var n := Name(a.unit);
    assert n[|n| - 1] != 's';
    if a.count > 1 {
      assert r == (Decimal(a.count) + " " + n) + "s" + " ago";
    } else {
      assert r == (Decimal(a.count) + " " + n) + " ago";
    }
  }
}
