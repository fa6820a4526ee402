/**
 * The strings that identify a completion mark: a month-key `YYYY-MM` and a
 * day-key `YYYY-MM-DD`, built from Number.prototype.toString (decimal
 * digits, a leading '-' for negative values) and padStart(2, '0').
 */
module DayKeys {
  import opened Calendar

  /** The decimal digit character of n. */
  function Digit(n: nat): (c: char)
    requires n < 10
    ensures '0' <= c <= '9'
  {
    (('0' as int) + n) as char
  }

  predicate IsDigit(c: char) {
    '0' <= c <= '9'
  }

  /** Decimal rendering of a non-negative integer, no leading zeros. */
  function NatToString(n: nat): (s: string)
    ensures 1 <= |s| && IsDigit(s[0])
    ensures |s| == 1 <==> n < 10
    ensures 10 <= n < 100 ==> |s| == 2
    decreases n
  {
    if n < 10 then [Digit(n)] else NatToString(n / 10) + [Digit(n % 10)]
  }

  /** Every character of a rendering is a decimal digit. */
  lemma {:induction false} NatToStringDigits(n: nat)
    ensures forall i :: 0 <= i < |NatToString(n)| ==> IsDigit(NatToString(n)[i])
    decreases n
  {
    if 10 <= n {
      NatToStringDigits(n / 10);
      var s, init := NatToString(n), NatToString(n / 10);
      forall i | 0 <= i < |s|
        ensures IsDigit(s[i])
      {
        if i < |init| {
          assert s[i] == init[i];
        }
      }
    }
  }

  /** Different numbers render differently. */
  lemma {:induction false} NatToStringInjective(a: nat, b: nat)
    requires NatToString(a) == NatToString(b)
    ensures a == b
    decreases a
  {
    if 10 <= a {
      var sa, sb := NatToString(a), NatToString(b);
      assert sa[..|sa| - 1] == NatToString(a / 10);
      assert sb[..|sb| - 1] == NatToString(b / 10);
      NatToStringInjective(a / 10, b / 10);
      assert Digit(a % 10) == sa[|sa| - 1] == sb[|sb| - 1] == Digit(b % 10);
    }
  }

  /** Number.prototype.toString for an integer: a '-' sign, then the digits of |i|. */
  function IntToString(i: int): (s: string)
    ensures 1 <= |s|
    ensures i < 0 <==> s[0] == '-'
  {
    if i < 0 then "-" + NatToString(-i) else NatToString(i)
  }

  lemma IntToStringInjective(a: int, b: int)
    requires IntToString(a) == IntToString(b)
    ensures a == b
  {
    if a < 0 {
      assert IntToString(a)[1..] == NatToString(-a);
      assert IntToString(b)[1..] == NatToString(-b);
      NatToStringInjective(-a, -b);
    } else {
      NatToStringInjective(a, b);
    }
  }

  /** `count` copies of c. */
  function Repeat(c: char, count: nat): (s: string)
    ensures |s| == count
  {
    if count == 0 then [] else [c] + Repeat(c, count - 1)
  }

  /** Every character of Repeat(c, count) is c. */
  lemma {:induction false} RepeatAll(c: char, count: nat)
    ensures forall i :: 0 <= i < count ==> Repeat(c, count)[i] == c
  {
    if count > 0 {
      RepeatAll(c, count - 1);
      var s, rest := Repeat(c, count), Repeat(c, count - 1);
      forall i | 0 <= i < count
        ensures s[i] == c
      {
        if i > 0 {
          assert s[i] == rest[i - 1];
        }
      }
    }
  }

  /** String.prototype.padStart with a one-character filler. */
  function PadStart(s: string, targetLength: nat, fill: char): (r: string)
    ensures |s| >= targetLength ==> r == s
    ensures |s| < targetLength ==> |r| == targetLength
    ensures |r| >= |s| && r[|r| - |s|..] == s
  {
    if |s| >= targetLength then s else Repeat(fill, targetLength - |s|) + s
  }

  /** padStart fills only with the filler: every character before the original is `fill`. */
  lemma PadStartFills(s: string, targetLength: nat, fill: char)
    ensures forall i :: 0 <= i < |PadStart(s, targetLength, fill)| - |s| ==> PadStart(s, targetLength, fill)[i] == fill
  {
    if |s| < targetLength {
      var r, f := PadStart(s, targetLength, fill), Repeat(fill, targetLength - |s|);
      RepeatAll(fill, targetLength - |s|);
      forall i | 0 <= i < |r| - |s|
        ensures r[i] == fill
      {
        assert r[i] == f[i];
      }
    }
  }

  /** pad: the decimal rendering of n, left-filled with '0' to two characters. */
  function Pad(n: nat): (s: string)
    ensures n < 100 ==> |s| == 2
  {
    PadStart(NatToString(n), 2, '0')
  }

  /** pad renders every number below 100 as its tens digit and its units digit. */
  lemma PadDigits(n: nat)
    requires n < 100
    ensures Pad(n) == [Digit(n / 10), Digit(n % 10)]
  {
    var s := NatToString(n);
    if n < 10 {
      assert s == [Digit(n)] && Digit(n / 10) == '0';
    } else {
      assert s == NatToString(n / 10) + [Digit(n % 10)] == [Digit(n / 10), Digit(n % 10)];
    }
  }

  lemma DigitInjective(x: nat, y: nat)
    requires x < 10 && y < 10
    requires Digit(x) == Digit(y)
    ensures x == y
  {
  }

  /** Equal paddings have equal tens digits and equal units digits. */
  lemma PadDigitsEqual(a: nat, b: nat)
    requires a < 100 && b < 100
    requires Pad(a) == Pad(b)
    ensures a / 10 == b / 10 && a % 10 == b % 10
  {
    PadDigits(a);
    PadDigits(b);
    DigitInjective(a / 10, b / 10);
    DigitInjective(a % 10, b % 10);
  }

  lemma PadInjective(a: nat, b: nat)
    requires a < 100 && b < 100
    requires Pad(a) == Pad(b)
    ensures a == b
  {
    PadDigitsEqual(a, b);
  }

  /** monthKey: `YYYY-MM`, the month counted from 1. */
  function MonthKey(date: Date): (s: string)
    ensures |s| == |IntToString(date.year)| + 3
  {
    IntToString(date.year) + "-" + Pad(date.month + 1)
  }

  /** The key of day `day` of the month of `date`: `${monthKey(date)}-${pad(day)}`. */
  function DayKey(date: Date, day: nat): (k: string)
    ensures day < 100 ==> |k| == |MonthKey(date)| + 3
  {
    MonthKey(date) + "-" + Pad(day)
  }

  /** The keys of a month's days all start with `${monthKey(date)}-` and have the same length. */
  lemma DayKeyPrefix(date: Date, day: nat)
    requires day < 100
    ensures |DayKey(date, day)| == |MonthKey(date)| + 3
    ensures DayKey(date, day)[..|MonthKey(date)| + 1] == MonthKey(date) + "-"
  {
  }

  /** Two concatenations with equally long left parts are equal part by part. */
  lemma SplitEqual(x1: string, x2: string, y1: string, y2: string)
    requires x1 + x2 == y1 + y2 && |x1| == |y1|
    ensures x1 == y1 && x2 == y2
  {
    assert x1 == (x1 + x2)[..|x1|];
    assert y1 == (y1 + y2)[..|y1|];
    assert x2 == (x1 + x2)[|x1|..];
    assert y2 == (y1 + y2)[|y1|..];
  }

  /** Two `x-y` strings with equally long first parts agree part by part. */
  lemma DashSplit(x1: string, y1: string, x2: string, y2: string)
    requires x1 + "-" + y1 == x2 + "-" + y2 && |x1| == |x2|
    ensures x1 == x2 && y1 == y2
  {
    SplitEqual(x1 + "-", y1, x2 + "-", y2);
    SplitEqual(x1, "-", x2, "-");
  }

  /** Equal month-keys have equal year parts and equal month parts. */
  lemma MonthKeyParts(a: Date, b: Date)
    requires MonthKey(a) == MonthKey(b)
    ensures IntToString(a.year) == IntToString(b.year) && Pad(a.month + 1) == Pad(b.month + 1)
  {
    DashSplit(IntToString(a.year), Pad(a.month + 1), IntToString(b.year), Pad(b.month + 1));
  }

  /** A month-key determines its year and month. */
  lemma MonthKeyInjective(a: Date, b: Date)
    requires MonthKey(a) == MonthKey(b)
    ensures a.year == b.year && a.month == b.month
  {
    MonthKeyParts(a, b);
    IntToStringInjective(a.year, b.year);
    PadInjective(a.month + 1, b.month + 1);
  }

  /**
   * A day-key determines its year, month and day: keys of different days,
   * in the same month or in different months, never coincide.
   */
  lemma DayKeyInjective(a: Date, da: nat, b: Date, db: nat)
    requires da < 100 && db < 100
    requires DayKey(a, da) == DayKey(b, db)
    ensures a.year == b.year && a.month == b.month && da == db
  {
    DashSplit(MonthKey(a), Pad(da), MonthKey(b), Pad(db));
    PadInjective(da, db);
    MonthKeyInjective(a, b);
  }

  /** The keys of two different days of one month differ. */
  lemma DayKeysDistinct(date: Date, d1: nat, d2: nat)
    requires 1 <= d1 <= 31 && 1 <= d2 <= 31 && d1 != d2
    ensures DayKey(date, d1) != DayKey(date, d2)
  {
    if DayKey(date, d1) == DayKey(date, d2) {
      DayKeyInjective(date, d1, date, d2);
    }
  }
}
