/** Time-of-day arithmetic from the utility module: parsing `"H:M:S"` and
    `"H:M"` the way `datetime.strptime` does, formatting back to zero-padded
    `"HH:MM:SS"`, the signed seconds difference between two times of day, and
    the search for the next or previous boundary around "now".

    A time of day is the number of seconds since midnight, the value that
    `compare_timestamps` computes as `3600 * hour + 60 * minute + second`. */
module Timestamps {
  import opened Wrappers
  import Strings

  const SecondsPerDay: int := 86400

  /** A `datetime.time` with its microseconds dropped. */
  type Tod = t: int | 0 <= t < 86400

  function Hour(t: Tod): nat { t / 3600 }
  function Minute(t: Tod): nat { (t % 3600) / 60 }
  function Second(t: Tod): nat { t % 60 }

  /** The `to_seconds` helper of `compare_timestamps`. */
  function Seconds(hour: nat, minute: nat, second: nat): int
  {
    3600 * hour + 60 * minute + second
  }

  /** Hour, minute and second in range determine a time of day, and the
      accessors read them back. */
  lemma SecondsDecompose(hour: nat, minute: nat, second: nat)
    requires hour < 24 && minute < 60 && second < 60
    ensures 0 <= Seconds(hour, minute, second) < SecondsPerDay
    ensures Hour(Seconds(hour, minute, second)) == hour
    ensures Minute(Seconds(hour, minute, second)) == minute
    ensures Second(Seconds(hour, minute, second)) == second
  {
    var low := 60 * minute + second;
    QuotientRemainder(Seconds(hour, minute, second), 3600, hour, low);
    QuotientRemainder(Seconds(hour, minute, second), 60, 60 * hour + minute, second);
    QuotientRemainder(low, 60, minute, second);
  }

  /** Division by a positive constant is pinned down by quotient and remainder. */
  lemma QuotientRemainder(x: int, d: int, q: int, r: int)
    requires d == 3600 || d == 60
    requires 0 <= r < d && x == d * q + r
    ensures x / d == q && x % d == r
  {
    if d == 3600 {
      assert 3600 * (x / 3600 - q) == r - x % 3600;
    } else {
      assert 60 * (x / 60 - q) == r - x % 60;
    }
  }

  /** Every time of day is the seconds value of its own hour, minute and second. */
  lemma SecondsCompose(t: Tod)
    ensures Hour(t) < 24 && Minute(t) < 60 && Second(t) < 60
    ensures Seconds(Hour(t), Minute(t), Second(t)) == t
  {
  }

  // ---------------------------------------------------------------------------
  // compare_timestamps

  /** The pair `(is_past, delta_seconds)` returned by `compare_timestamps`. */
  datatype Comparison = Comparison(isPast: bool, delta: int)

  /** `compare_timestamps(a, b)`: how many seconds `b` lies after `a` on the
      same day, and whether `b` is not strictly later than `a` ("now" counts
      as past). */
  function CompareTimestamps(a: Tod, b: Tod): (c: Comparison)
    ensures a + c.delta == b
    ensures c.isPast <==> b <= a
    ensures -(SecondsPerDay - 1) <= c.delta <= SecondsPerDay - 1
  {
    var delta := b - a;
    Comparison(delta <= 0, delta)
  }

  /** Swapping the arguments negates the difference. */
  lemma CompareAntisymmetric(a: Tod, b: Tod)
    ensures CompareTimestamps(a, b).delta == -CompareTimestamps(b, a).delta
    ensures CompareTimestamps(a, b).isPast || CompareTimestamps(b, a).isPast
  {
  }

  /** A time compared with itself is past with a zero difference. */
  lemma CompareSelf(t: Tod)
    ensures CompareTimestamps(t, t) == Comparison(true, 0)
  {
  }

  // ---------------------------------------------------------------------------
  // to_timestamp

  predicate IsDigit(c: char) { '0' <= c <= '9' }

  predicate AllDigits(f: string)
  {
    forall i :: 0 <= i < |f| ==> IsDigit(f[i])
  }

  function DigitValue(c: char): nat
    requires IsDigit(c)
  {
    (c as int) - ('0' as int)
  }

  /** The ASCII digit for `n`. */
  function Digit(n: nat): char
    requires n < 10
  {
    ('0' as int + n) as char
  }

  /** One numeric strptime directive: `%H` (`max` 23), `%M` (`max` 59) or
      `%S` (`max` 59). The directive reads one or two ASCII digits; `%S` also
      matches 60 and 61, which `datetime` then rejects, so the accepted values
      are those up to `max`. A field that parses is the decimal rendering
      of its value: one digit, or two digits with a leading zero allowed. */
  function ParseField(f: string, max: nat): (r: Option<nat>)
    ensures r.Some? ==> 1 <= |f| <= 2 && AllDigits(f) && r.value <= max
    ensures r.Some? && |f| == 1 ==> r.value < 10 && f == [Digit(r.value)]
    ensures r.Some? && |f| == 2 ==> r.value < 100 && f == [Digit(r.value / 10), Digit(r.value % 10)]
  {
    if 1 <= |f| <= 2 && AllDigits(f) then
      var v := if |f| == 1 then DigitValue(f[0]) else 10 * DigitValue(f[0]) + DigitValue(f[1]);
      if v <= max then Some(v) else None
    else None
  }

  /** `datetime.strptime(s, "%H:%M:%S").time()`, `None` where it raises. */
  function ParseHMS(s: string): (r: Option<Tod>)
    ensures r.Some? ==>
              var p := Strings.Split(s, ':');
              && |p| == 3
              && ParseField(p[0], 23) == Some(Hour(r.value))
              && ParseField(p[1], 59) == Some(Minute(r.value))
              && ParseField(p[2], 59) == Some(Second(r.value))
  {
    var p := Strings.Split(s, ':');
    if |p| != 3 then None
    else
      match (ParseField(p[0], 23), ParseField(p[1], 59), ParseField(p[2], 59))
      case (Some(hour), Some(minute), Some(second)) =>
        SecondsDecompose(hour, minute, second);
        Some(Seconds(hour, minute, second))
      case _ => None
  }

  /** `datetime.strptime(s, "%H:%M").time()`, `None` where it raises. */
  function ParseHM(s: string): (r: Option<Tod>)
    ensures r.Some? ==>
              var p := Strings.Split(s, ':');
              && |p| == 2
              && ParseField(p[0], 23) == Some(Hour(r.value))
              && ParseField(p[1], 59) == Some(Minute(r.value))
              && Second(r.value) == 0
  {
    var p := Strings.Split(s, ':');
    if |p| != 2 then None
    else
      match (ParseField(p[0], 23), ParseField(p[1], 59))
      case (Some(hour), Some(minute)) =>
        SecondsDecompose(hour, minute, 0);
        Some(Seconds(hour, minute, 0))
      case _ => None
  }

  /** `to_timestamp`: the `"%H:%M:%S"` form first, then `"%H:%M"`; a string
      matching neither gives `None` instead of raising. A three-field result
      carries the three fields as hour, minute and second; a two-field result
      has second 0. */
  function ToTimestamp(s: string): (r: Option<Tod>)
    ensures r.Some? ==> |Strings.Split(s, ':')| in {2, 3}
    ensures r.Some? && |Strings.Split(s, ':')| == 3 ==>
              var p := Strings.Split(s, ':');
              && ParseField(p[0], 23) == Some(Hour(r.value))
              && ParseField(p[1], 59) == Some(Minute(r.value))
              && ParseField(p[2], 59) == Some(Second(r.value))
    ensures r.Some? && |Strings.Split(s, ':')| == 2 ==>
              var p := Strings.Split(s, ':');
              && ParseField(p[0], 23) == Some(Hour(r.value))
              && ParseField(p[1], 59) == Some(Minute(r.value))
              && Second(r.value) == 0
    ensures r.None? ==> ParseHMS(s).None? && ParseHM(s).None?
  {
    match ParseHMS(s)
    case Some(t) => Some(t)
    case None => ParseHM(s)
  }

  /** `is_valid_timestamp` as written: it only catches `ValueError`, which
      `to_timestamp` never raises, so the flag is always true and the value is
      `None` exactly when parsing failed. */
  function IsValidTimestamp(s: string): (r: (bool, Option<Tod>))
    ensures r.0
    ensures r.1.None? <==> ToTimestamp(s).None?
    ensures r.1 == ToTimestamp(s)
  {
    (true, ToTimestamp(s))
  }

  /** `is_valid_timestamp` as evidently intended: malformed strings are
      reported invalid. */
  function IsValidTimestampIntended(s: string): (r: (bool, Option<Tod>))
    ensures r.0 <==> r.1.Some?
    ensures r.1 == ToTimestamp(s)
  {
    var t := ToTimestamp(s);
    (t.Some?, t)
  }

  /** The check as written and as intended differ only on strings that do
      not parse: there the written one still reports them valid. */
  lemma IsValidTimestampDiffers(s: string)
    ensures IsValidTimestamp(s) == IsValidTimestampIntended(s) <==> ToTimestamp(s).Some?
    ensures IsValidTimestamp(s).1 == IsValidTimestampIntended(s).1
  {
  }

  // ---------------------------------------------------------------------------
  // to_string

  /** Two-digit zero-padded rendering of `n`, as strftime's `%H`, `%M`, `%S`. */
  function TwoDigits(n: nat): (r: string)
    requires n < 100
    ensures |r| == 2 && AllDigits(r)
    ensures ParseField(r, 99) == Some(n)
  {
    [Digit(n / 10), Digit(n % 10)]
  }

  /** `to_string`: strftime `"%H:%M:%S"`. Its two fallback branches cannot be
      reached for a valid `time`, so the result is never `None`. */
  function ToString(t: Tod): (r: string)
    ensures |r| == 8 && r[2] == ':' && r[5] == ':'
    ensures AllDigits(r[..2]) && AllDigits(r[3..5]) && AllDigits(r[6..])
  {
    var parts := [TwoDigits(Hour(t)), TwoDigits(Minute(t)), TwoDigits(Second(t))];
    Strings.JoinThree(parts[0], parts[1], parts[2], ':');
    var r := Strings.Join(parts, ':');
    assert r[..2] == parts[0] && r[3..5] == parts[1] && r[6..] == parts[2];
    r
  }

  /** Every one-digit field up to `max` is accepted, as `strptime` accepts
      `"8"` for `%H`. */
  lemma OneDigitField(n: nat, max: nat)
    requires n <= max && n < 10
    ensures ParseField([Digit(n)], max) == Some(n)
  {
  }

  /** Every zero-padded two-digit field up to `max` is accepted. */
  lemma TwoDigitsField(n: nat, max: nat)
    requires n <= max < 100
    ensures ParseField(TwoDigits(n), max) == Some(n)
  {
  }

  /** A two-field string whose hour and minute fields parse is that hour
      and minute with second 0, whether or not the hour is zero-padded. */
  lemma HourMinuteParses(hf: string, mf: string, hour: nat, minute: nat)
    requires ParseField(hf, 23) == Some(hour) && ParseField(mf, 59) == Some(minute)
    ensures ToTimestamp(hf + ":" + mf) == Some(Seconds(hour, minute, 0))
  {
    assert ':' !in hf by {
      assert AllDigits(hf);
    }
    assert ':' !in mf by {
      assert AllDigits(mf);
    }
    Strings.SplitJoin([hf, mf], ':');
    assert [hf, mf][1..] == [mf];
    assert Strings.Join([hf, mf], ':') == hf + ":" + mf;
    SecondsDecompose(hour, minute, 0);
  }

  /** The schedule's unpadded form `"H:MM"`, as in `"8:00"`, parses as
      that hour and minute. */
  lemma UnpaddedHourParses(hour: nat, minute: nat)
    requires hour < 10 && minute < 60
    ensures ToTimestamp([Digit(hour)] + ":" + TwoDigits(minute)) == Some(Seconds(hour, minute, 0))
  {
    OneDigitField(hour, 23);
    TwoDigitsField(minute, 59);
    HourMinuteParses([Digit(hour)], TwoDigits(minute), hour, minute);
  }

  /** Formatting then parsing gives the same time of day back. */
  lemma RoundTrip(t: Tod)
    ensures ToTimestamp(ToString(t)) == Some(t)
  {
    var parts := [TwoDigits(Hour(t)), TwoDigits(Minute(t)), TwoDigits(Second(t))];
    forall i | 0 <= i < |parts|
      ensures ':' !in parts[i]
    {
      assert AllDigits(parts[i]);
    }
    Strings.SplitJoin(parts, ':');
    SecondsCompose(t);
    TwoDigitsField(Hour(t), 23);
    TwoDigitsField(Minute(t), 59);
    TwoDigitsField(Second(t), 59);
  }

  /** A canonical `"HH:MM:SS"` string that parses is reproduced by formatting
      its parse, so formatting and parsing are mutually inverse on canonical
      strings. */
  lemma CanonicalRoundTrip(s: string)
    requires |s| == 8 && s[2] == ':' && s[5] == ':'
    requires AllDigits(s[..2]) && AllDigits(s[3..5]) && AllDigits(s[6..])
    requires ToTimestamp(s).Some?
    ensures ToString(ToTimestamp(s).value) == s
  {
    var fields := [s[..2], s[3..5], s[6..]];
    assert s == Strings.Join(fields, ':') && Strings.Split(s, ':') == fields by {
      forall i | 0 <= i < 3
        ensures ':' !in fields[i]
      {
        assert AllDigits(fields[i]);
      }
      Strings.JoinThree(fields[0], fields[1], fields[2], ':');
      assert s == fields[0] + [':'] + fields[1] + [':'] + fields[2];
      Strings.SplitJoin(fields, ':');
    }
    var t := ToTimestamp(s).value;
    assert [TwoDigits(Hour(t)), TwoDigits(Minute(t)), TwoDigits(Second(t))] == fields by {
      FieldOfTwoDigits(fields[0], Hour(t), 23);
      FieldOfTwoDigits(fields[1], Minute(t), 59);
      FieldOfTwoDigits(fields[2], Second(t), 59);
    }
  }

  /** A two-character field that parses to `n` is the padded rendering of `n`. */
  lemma FieldOfTwoDigits(f: string, n: nat, max: nat)
    requires |f| == 2 && max < 100
    requires ParseField(f, max) == Some(n)
    ensures TwoDigits(n) == f
  {
    assert n == 10 * DigitValue(f[0]) + DigitValue(f[1]);
    assert n / 10 == DigitValue(f[0]);
    assert n % 10 == DigitValue(f[1]);
  }

  // ---------------------------------------------------------------------------
  // get_adjacent_timestamp

  /** The triple `(timestamp, delta_seconds, index)` returned by `get_adjacent_timestamp`. */
  datatype Adjacent = Adjacent(timestamp: Tod, delta: int, index: nat)

  /** The result points at an entry of `ts` and carries that entry's raw difference from `now`. */
  predicate Describes(ts: seq<Tod>, now: Tod, r: Adjacent)
  {
    r.index < |ts| && ts[r.index] == r.timestamp && r.delta == r.timestamp - now
  }

  /** What `get_adjacent_timestamp(ts, now, True)` returns: among the entries
      strictly later than `now`, one with the smallest difference, the last
      such index on ties; when there is none, index 0 with its raw,
      non-positive difference (no day is added). */
  predicate IsNextChoice(ts: seq<Tod>, now: Tod, r: Adjacent)
  {
    && Describes(ts, now, r)
    && if exists i :: 0 <= i < |ts| && ts[i] > now then
         && r.delta > 0
         && (forall j :: 0 <= j < |ts| && ts[j] > now ==> r.delta <= ts[j] - now)
         && (forall j :: r.index < j < |ts| && ts[j] > now ==> r.delta < ts[j] - now)
       else
         r.index == 0
  }

  /** What `get_adjacent_timestamp(ts, now, False)` returns: among the entries
      not later than `now`, one with the largest (closest to zero) difference,
      the first such index on ties; when there is none, the last index with
      its raw, positive difference. */
  predicate IsPreviousChoice(ts: seq<Tod>, now: Tod, r: Adjacent)
  {
    && Describes(ts, now, r)
    && if exists i :: 0 <= i < |ts| && ts[i] <= now then
         && r.delta <= 0
         && (forall j :: 0 <= j < |ts| && ts[j] <= now ==> ts[j] - now <= r.delta)
         && (forall j :: 0 <= j < r.index && ts[j] <= now ==> ts[j] - now < r.delta)
       else
         r.index == |ts| - 1
  }

  /** `get_adjacent_timestamp(ts, now, beNext)`. On an empty list the source
      indexes an empty list and raises `IndexError`; that is `None` here. */
  method GetAdjacentTimestamp(ts: seq<Tod>, now: Tod, beNext: bool) returns (r: Option<Adjacent>)
    ensures r.None? <==> |ts| == 0
    ensures r.Some? && beNext ==> IsNextChoice(ts, now, r.value)
    ensures r.Some? && !beNext ==> IsPreviousChoice(ts, now, r.value)
  {
    var closest: Option<Adjacent> := None;
    for i := 0 to |ts|
      invariant closest.Some? ==> closest.value.index < i && Describes(ts, now, closest.value)
      invariant beNext ==> (closest.None? <==> forall j :: 0 <= j < i ==> ts[j] <= now)
      invariant beNext && closest.Some? ==>
                  && closest.value.delta > 0
                  && (forall j :: 0 <= j < i && ts[j] > now ==> closest.value.delta <= ts[j] - now)
                  && (forall j :: closest.value.index < j < i && ts[j] > now ==> closest.value.delta < ts[j] - now)
      invariant !beNext ==> (closest.None? <==> forall j :: 0 <= j < i ==> ts[j] > now)
      invariant !beNext && closest.Some? ==>
                  && closest.value.delta <= 0
                  && (forall j :: 0 <= j < i && ts[j] <= now ==> ts[j] - now <= closest.value.delta)
                  && (forall j :: 0 <= j < closest.value.index && ts[j] <= now ==> ts[j] - now < closest.value.delta)
    {
      var c := CompareTimestamps(now, ts[i]);
      if (beNext && c.isPast) || (!beNext && !c.isPast) {
        continue;
      }
      if closest.Some? {
        if (beNext && c.delta > closest.value.delta) || (!beNext && c.delta <= closest.value.delta) {
          continue;
        }
      }
      closest := Some(Adjacent(ts[i], c.delta, i));
    }
    if closest.None? {
      if |ts| == 0 {
        return None;
      }
      var index := if beNext then 0 else |ts| - 1;
      var c := CompareTimestamps(now, ts[index]);
      closest := Some(Adjacent(ts[index], c.delta, index));
    }
    r := closest;
  }

  predicate Sorted(s: seq<int>)
  {
    forall i, j :: 0 <= i < j < |s| ==> s[i] <= s[j]
  }

  /** On a sorted boundary list the "next" choice is the earliest entry
      strictly after `now`, or, when every entry has passed, the earliest
      entry of the list (tomorrow's first boundary). */
  lemma NextChoiceOnSortedList(ts: seq<Tod>, now: Tod, r: Adjacent)
    requires Sorted(ts)
    requires IsNextChoice(ts, now, r)
    ensures (exists i :: 0 <= i < |ts| && ts[i] > now) ==>
              r.timestamp > now && forall j :: 0 <= j < |ts| && ts[j] > now ==> r.timestamp <= ts[j]
    ensures (forall i :: 0 <= i < |ts| ==> ts[i] <= now) ==>
              r.index == 0 && forall j :: 0 <= j < |ts| ==> r.timestamp <= ts[j]
  {
  }

  /** With boundaries 07:00 and 07:30 and the time 06:00, the next target is 07:00. */
  lemma NextBeforeFirstBoundary(r: Adjacent)
    requires IsNextChoice([25200, 27000], 21600, r)
    ensures r.index == 0 && r.timestamp == 25200 && r.delta == 3600
  {
    var ts: seq<Tod> := [25200, 27000];
    assert ts[0] > 21600;
    assert r.delta <= ts[0] - 21600;
  }

  /** With the same boundaries and the time 08:00, the next target wraps to
      07:00 and reports the raw difference of minus one hour. */
  lemma NextAfterLastBoundaryWraps(r: Adjacent)
    requires IsNextChoice([25200, 27000], 28800, r)
    ensures r.index == 0 && r.timestamp == 25200 && r.delta == -3600
  {
  }
}
