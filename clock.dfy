/**
 * The timestamp rewrite of the transcript table: an offset is read as a time
 * after 1970-01-01T00:00:00 and printed as its time of day with `%H:%M:%S`.
 * Offsets are whole nanoseconds, the resolution of the timestamps the offsets
 * are converted to, so dropping the fraction of a second is integer division.
 */
module Clock {
  import opened Wrappers

  const NanosPerSecond: nat := 1_000_000_000
  const SecondsPerMinute: nat := 60
  const SecondsPerHour: nat := 3600
  const SecondsPerDay: nat := 86400

  predicate IsDigit(c: char) {
    '0' <= c <= '9'
  }

  function Digit(d: nat): (c: char)
    requires d < 10
    ensures IsDigit(c) && DigitValue(c) == d
  {
    ('0' as int + d) as char
  }

  function DigitValue(c: char): (d: nat)
    requires IsDigit(c)
    ensures d < 10
  {
    c as int - '0' as int
  }

  predicate IsPair(s: string) {
    |s| == 2 && IsDigit(s[0]) && IsDigit(s[1])
  }

  /** The number written by two decimal digits. */
  function PairValue(s: string): (n: nat)
    requires IsPair(s)
    ensures n < 100
  {
    10 * DigitValue(s[0]) + DigitValue(s[1])
  }

  /** A number below 100 written with two digits, zero-padded, as `%H`, `%M` and `%S` do. */
  function Pad2(n: nat): (s: string)
    requires n < 100
    ensures IsPair(s) && PairValue(s) == n
  {
    [Digit(n / 10), Digit(n % 10)]
  }

  /** The whole seconds since midnight of the timestamp `ns` nanoseconds after the epoch. */
  function SecondOfDay(ns: nat): (t: nat)
    ensures t < SecondsPerDay
    ensures ns < SecondsPerDay * NanosPerSecond ==> t == ns / NanosPerSecond
  {
    (ns / NanosPerSecond) % SecondsPerDay
  }

  /** A well-formed `HH:MM:SS` string: two-digit fields, HH < 24, MM < 60, SS < 60. */
  predicate IsHms(s: string) {
    && |s| == 8
    && s[2] == ':' && s[5] == ':'
    && IsPair(s[0..2]) && IsPair(s[3..5]) && IsPair(s[6..8])
    && PairValue(s[0..2]) < 24 && PairValue(s[3..5]) < 60 && PairValue(s[6..8]) < 60
  }

  /** `%H:%M:%S` of the timestamp `ns` nanoseconds after the epoch. */
  function FormatHms(ns: nat): (s: string)
    ensures IsHms(s)
  {
    var t := SecondOfDay(ns);
    Pad2(t / SecondsPerHour) + ":" + Pad2(t % SecondsPerHour / SecondsPerMinute) + ":" + Pad2(t % SecondsPerMinute)
  }

  /** Reads an `HH:MM:SS` string back as seconds since midnight; `None` for anything else. */
  function ParseHms(s: string): (r: Option<nat>)
    ensures r.Some? <==> IsHms(s)
    ensures r.Some? ==> r.value < SecondsPerDay
  {
    if IsHms(s) then
      Some(PairValue(s[0..2]) * SecondsPerHour + PairValue(s[3..5]) * SecondsPerMinute + PairValue(s[6..8]))
    else
      None
  }

  /** Python's `<=` on strings: lexicographic by code point. */
  predicate LexLeq(a: string, b: string) {
    |a| == 0 || (|b| > 0 && (a[0] < b[0] || (a[0] == b[0] && LexLeq(a[1..], b[1..]))))
  }

  /** Splitting seconds-of-day into hours, minutes and seconds and adding them up again. */
  lemma SplitSeconds(t: nat)
    requires t < SecondsPerDay
    ensures t / SecondsPerHour < 24
    ensures t % SecondsPerHour / SecondsPerMinute < 60
    ensures (t / SecondsPerHour) * SecondsPerHour + (t % SecondsPerHour / SecondsPerMinute) * SecondsPerMinute + t % SecondsPerMinute == t
  {
    var r := t % SecondsPerHour;
    assert t == (t / SecondsPerHour) * SecondsPerHour + r;
    assert r == (r / SecondsPerMinute) * SecondsPerMinute + r % SecondsPerMinute;
    assert r % SecondsPerMinute == t % SecondsPerMinute;
  }

  /** Round trip: parsing the printed time gives back floor(offset in seconds) mod 86400. */
  lemma ParseFormatted(ns: nat)
    ensures ParseHms(FormatHms(ns)) == Some((ns / NanosPerSecond) % SecondsPerDay)
  {
    var t := SecondOfDay(ns);
    var s := FormatHms(ns);
    SplitSeconds(t);
    assert s[0..2] == Pad2(t / SecondsPerHour);
    assert s[3..5] == Pad2(t % SecondsPerHour / SecondsPerMinute);
    assert s[6..8] == Pad2(t % SecondsPerMinute);
  }

  lemma Pad2OfPair(s: string)
    requires IsPair(s)
    ensures Pad2(PairValue(s)) == s
  {
    var n := PairValue(s);
    assert n / 10 == DigitValue(s[0]);
    assert n % 10 == DigitValue(s[1]);
  }

  /** The other direction: every well-formed `HH:MM:SS` is printed for the second it denotes. */
  lemma FormatParsed(s: string)
    requires IsHms(s)
    ensures FormatHms(ParseHms(s).value * NanosPerSecond) == s
  {
    var h, m, sec := PairValue(s[0..2]), PairValue(s[3..5]), PairValue(s[6..8]);
    var t := ParseHms(s).value;
    assert t == h * SecondsPerHour + m * SecondsPerMinute + sec;
    assert SecondOfDay(t * NanosPerSecond) == t;
    assert t / SecondsPerHour == h;
    assert t % SecondsPerHour == m * SecondsPerMinute + sec;
    assert t % SecondsPerHour / SecondsPerMinute == m;
    assert t % SecondsPerMinute == sec;
    Pad2OfPair(s[0..2]);
    Pad2OfPair(s[3..5]);
    Pad2OfPair(s[6..8]);
    assert s == s[0..2] + ":" + s[3..5] + ":" + s[6..8];
  }

  /** The fraction of a second is dropped, never rounded up. */
  lemma TruncatesFraction(secs: nat, frac: nat)
    requires frac < NanosPerSecond
    ensures FormatHms(secs * NanosPerSecond + frac) == FormatHms(secs * NanosPerSecond)
  {
    assert (secs * NanosPerSecond + frac) / NanosPerSecond == secs;
    assert (secs * NanosPerSecond) / NanosPerSecond == secs;
  }

  /** Offsets of a day or more wrap around: they are printed as the same time of day. */
  lemma WrapsDaily(ns: nat, days: nat)
    ensures FormatHms(ns + days * SecondsPerDay * NanosPerSecond) == FormatHms(ns)
  {
    var q := ns / NanosPerSecond;
    var ns' := ns + days * SecondsPerDay * NanosPerSecond;
    assert ns' / NanosPerSecond == q + days * SecondsPerDay;
    assert (q + days * SecondsPerDay) % SecondsPerDay == q % SecondsPerDay;
  }

  lemma {:induction false} LexLeqRefl(a: string)
    ensures LexLeq(a, a)
  {
    if |a| > 0 {
      LexLeqRefl(a[1..]);
    }
  }

  /** A common prefix does not change how two strings compare. */
  lemma {:induction false} LexLeqSharedPrefix(p: string, a: string, b: string)
    requires LexLeq(a, b)
    ensures LexLeq(p + a, p + b)
  {
    if |p| > 0 {
      LexLeqSharedPrefix(p[1..], a, b);
      assert (p + a)[1..] == p[1..] + a;
      assert (p + b)[1..] == p[1..] + b;
      assert (p + a)[0] == (p + b)[0];
    } else {
      assert p + a == a && p + b == b;
    }
  }

  /** A smaller two-digit field decides the comparison, whatever follows it. */
  lemma Pad2Less(x: nat, y: nat, a: string, b: string)
    requires x < y < 100
    ensures LexLeq(Pad2(x) + a, Pad2(y) + b)
  {
    var u, v := Pad2(x) + a, Pad2(y) + b;
    assert u[0] == Digit(x / 10) && v[0] == Digit(y / 10);
    if x / 10 == y / 10 {
      assert u[1..][0] == Digit(x % 10) && v[1..][0] == Digit(y % 10);
    }
  }

  /** `MM:SS` strings sort in the order of the seconds they denote. */
  lemma MinuteSecondOrder(m1: nat, s1: nat, m2: nat, s2: nat)
    requires m1 < 60 && s1 < 60 && m2 < 60 && s2 < 60
    requires m1 * SecondsPerMinute + s1 <= m2 * SecondsPerMinute + s2
    ensures LexLeq(Pad2(m1) + ":" + Pad2(s1), Pad2(m2) + ":" + Pad2(s2))
  {
    assert Pad2(m1) + ":" + Pad2(s1) == Pad2(m1) + (":" + Pad2(s1));
    assert Pad2(m2) + ":" + Pad2(s2) == Pad2(m2) + (":" + Pad2(s2));
    if m1 < m2 {
      Pad2Less(m1, m2, ":" + Pad2(s1), ":" + Pad2(s2));
    } else {
      assert m1 == m2 && s1 <= s2;
      if s1 < s2 {
        Pad2Less(s1, s2, [], []);
        assert Pad2(s1) + [] == Pad2(s1) && Pad2(s2) + [] == Pad2(s2);
      } else {
        LexLeqRefl(Pad2(s1));
      }
      LexLeqSharedPrefix(Pad2(m1) + ":", Pad2(s1), Pad2(s2));
    }
  }

  /** Hours decide first; equal hours leave the minutes and seconds in order. */
  lemma HourSplitOrder(t1: nat, t2: nat)
    requires t1 <= t2 < SecondsPerDay
    ensures t1 / SecondsPerHour <= t2 / SecondsPerHour
    ensures t1 / SecondsPerHour == t2 / SecondsPerHour ==>
      (t1 % SecondsPerHour / SecondsPerMinute) * SecondsPerMinute + t1 % SecondsPerMinute
        <= (t2 % SecondsPerHour / SecondsPerMinute) * SecondsPerMinute + t2 % SecondsPerMinute
  {
    SplitSeconds(t1);
    SplitSeconds(t2);
  }

  /** Within one day the printed times sort as strings in the order of the offsets. */
  lemma FormatMonotoneWithinDay(a: nat, b: nat)
    requires a <= b < SecondsPerDay * NanosPerSecond
    ensures LexLeq(FormatHms(a), FormatHms(b))
  {
    var t1, t2 := SecondOfDay(a), SecondOfDay(b);
    assert t1 <= t2;
    var h1, h2 := t1 / SecondsPerHour, t2 / SecondsPerHour;
    var m1, m2 := t1 % SecondsPerHour / SecondsPerMinute, t2 % SecondsPerHour / SecondsPerMinute;
    var s1, s2 := t1 % SecondsPerMinute, t2 % SecondsPerMinute;
    SplitSeconds(t1);
    SplitSeconds(t2);
    HourSplitOrder(t1, t2);
    var tail1, tail2 := Pad2(m1) + ":" + Pad2(s1), Pad2(m2) + ":" + Pad2(s2);
    assert FormatHms(a) == Pad2(h1) + (":" + tail1) == (Pad2(h1) + ":") + tail1;
    assert FormatHms(b) == Pad2(h2) + (":" + tail2) == (Pad2(h2) + ":") + tail2;
    if h1 < h2 {
      Pad2Less(h1, h2, ":" + tail1, ":" + tail2);
    } else {
      MinuteSecondOrder(m1, s1, m2, s2);
      LexLeqSharedPrefix(Pad2(h1) + ":", tail1, tail2);
    }
  }

  /** Across midnight the order is lost: 23:59:59 sorts after the 00:00:00 one second later. */
  lemma OrderLostAtMidnight()
    ensures !LexLeq(FormatHms(86399 * NanosPerSecond), FormatHms(86400 * NanosPerSecond))
  {
    ExampleWrap();
    assert "23:59:59"[0] > "00:00:00"[0];
  }

  /** Printing a given time of day, for the worked examples below. */
  lemma FormatAt(ns: nat, h: nat, m: nat, sec: nat)
    requires h < 24 && m < 60 && sec < 60
    requires SecondOfDay(ns) == h * SecondsPerHour + m * SecondsPerMinute + sec
    ensures FormatHms(ns) == Pad2(h) + ":" + Pad2(m) + ":" + Pad2(sec)
  {
    var t := SecondOfDay(ns);
    assert t / SecondsPerHour == h;
    assert t % SecondsPerHour == m * SecondsPerMinute + sec;
    assert t % SecondsPerHour / SecondsPerMinute == m;
    assert t % SecondsPerMinute == sec;
  }

  lemma ExampleMidnight()
    ensures FormatHms(0) == "00:00:00"
  {
    FormatAt(0, 0, 0, 0);
    assert Pad2(0) == "00";
  }

  /** 3661.9 seconds is printed as 01:01:01 and 0.99 seconds as 00:00:00. */
  lemma ExampleTruncation()
    ensures FormatHms(3661_900_000_000) == "01:01:01"
    ensures FormatHms(990_000_000) == "00:00:00"
  {
    FormatAt(3661_900_000_000, 1, 1, 1);
    assert Pad2(1) == "01";
    FormatAt(990_000_000, 0, 0, 0);
    assert Pad2(0) == "00";
  }

  /** The last second of a day, and 24 hours wrapping back to midnight. */
  lemma ExampleWrap()
    ensures FormatHms(86399 * NanosPerSecond) == "23:59:59"
    ensures FormatHms(86400 * NanosPerSecond) == "00:00:00"
  {
    FormatAt(86399 * NanosPerSecond, 23, 59, 59);
    assert Pad2(23) == "23";
    assert Pad2(59) == "59";
    FormatAt(86400 * NanosPerSecond, 0, 0, 0);
    assert Pad2(0) == "00";
  }
}
