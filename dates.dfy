/** Python's `datetime.date`, its `strftime("%Y-%m-%d")` rendering, and Python's
    ordering on `str`, which is what the end-date validators compare. */
module Dates {

  /** A calendar date; `date.__lt__` compares (year, month, day) in that order. */
  datatype Date = Date(year: int, month: int, day: int)

  predicate IsLeapYear(y: int) {
    y % 4 == 0 && (y % 100 != 0 || y % 400 == 0)
  }

  function DaysInMonth(y: int, m: int): int {
    if m == 2 then (if IsLeapYear(y) then 29 else 28)
    else if m == 4 || m == 6 || m == 9 || m == 11 then 30
    else 31
  }

  /** The values `datetime.date` can hold: years 1 to 9999 and real days. */
  predicate Valid(d: Date) {
    1 <= d.year <= 9999 && 1 <= d.month <= 12 && 1 <= d.day <= DaysInMonth(d.year, d.month)
  }

  /** Calendar order: `a < b` on Python dates. */
  predicate Before(a: Date, b: Date) {
    a.year < b.year
    || (a.year == b.year && a.month < b.month)
    || (a.year == b.year && a.month == b.month && a.day < b.day)
  }

  // ---------------------------------------------------------------------------
  // Python's `str.__lt__`: lexicographic order on code points, a proper prefix
  // coming first.

  predicate LexLess(a: string, b: string) {
    if b == [] then false
    else if a == [] then true
    else if a[0] != b[0] then a[0] < b[0]
    else LexLess(a[1..], b[1..])
  }

  /** What `a < b` means on Python strings: `a` is a proper prefix of `b`, or
      at the first position where they differ `a` has the smaller code point. */
  lemma {:induction false} LexLessFirstDifference(a: string, b: string)
    ensures LexLess(a, b) <==>
      (|a| < |b| && a == b[..|a|])
      || exists k :: 0 <= k < |a| && k < |b| && a[..k] == b[..k] && a[k] < b[k]
  {
    if a != [] && b != [] {
      if a[0] != b[0] {
        assert a[..0] == b[..0];
      } else {
        LexLessFirstDifference(a[1..], b[1..]);
        if |a| < |b| && a == b[..|a|] {
          assert a[1..] == b[1..][..|a[1..]|];
        }
        if |a[1..]| < |b[1..]| && a[1..] == b[1..][..|a[1..]|] {
          assert a == [a[0]] + a[1..] && b[..|a|] == [b[0]] + b[1..][..|a[1..]|];
        }
        if k :| 0 <= k < |a| && k < |b| && a[..k] == b[..k] && a[k] < b[k] {
          assert k > 0;
          assert a[1..][..k - 1] == a[..k][1..] && b[1..][..k - 1] == b[..k][1..];
          assert a[1..][k - 1] < b[1..][k - 1];
        }
        if k :| 0 <= k < |a[1..]| && k < |b[1..]| && a[1..][..k] == b[1..][..k] && a[1..][k] < b[1..][k] {
          assert a[..k + 1] == [a[0]] + a[1..][..k] && b[..k + 1] == [b[0]] + b[1..][..k];
          assert a[k + 1] < b[k + 1];
        }
      }
    } else if a == [] && b != [] {
      assert a == b[..0];
    }
  }

  lemma {:induction false} LexLessIrreflexive(a: string)
    ensures !LexLess(a, a)
  {
    if a != [] {
      LexLessIrreflexive(a[1..]);
    }
  }

  lemma {:induction false} LexLessAsymmetric(a: string, b: string)
    ensures LexLess(a, b) ==> !LexLess(b, a)
  {
    if a != [] && b != [] && a[0] == b[0] {
      LexLessAsymmetric(a[1..], b[1..]);
    }
  }

  lemma {:induction false} LexLessTransitive(a: string, b: string, c: string)
    requires LexLess(a, b) && LexLess(b, c)
    ensures LexLess(a, c)
  {
    if a != [] && a[0] == b[0] && b[0] == c[0] {
      LexLessTransitive(a[1..], b[1..], c[1..]);
    }
  }

  /** Any two distinct strings are ordered one way or the other. */
  lemma {:induction false} LexLessTotal(a: string, b: string)
    requires a != b
    ensures LexLess(a, b) || LexLess(b, a)
  {
    if a != [] && b != [] && a[0] == b[0] {
      assert a == [a[0]] + a[1..] && b == [b[0]] + b[1..];
      LexLessTotal(a[1..], b[1..]);
    }
  }

  /** Comparing two strings that start with blocks of equal length: the first
      blocks decide unless they are equal. */
  lemma {:induction false} LexLessAppend(x: string, y: string, s: string, t: string)
    requires |x| == |y|
    ensures LexLess(x + s, y + t) == if x == y then LexLess(s, t) else LexLess(x, y)
  {
    if x != [] {
      assert (x + s)[0] == x[0] && (y + t)[0] == y[0];
      assert (x + s)[1..] == x[1..] + s && (y + t)[1..] == y[1..] + t;
      LexLessAppend(x[1..], y[1..], s, t);
      if x[0] == y[0] {
        assert x == [x[0]] + x[1..] && y == [y[0]] + y[1..];
      }
    } else {
      assert x + s == s && y + t == t;
    }
  }

  // ---------------------------------------------------------------------------
  // `strftime("%Y-%m-%d")`: every field printed in decimal, zero padded to its
  // width (four digits for the year, two for month and day).

  function Pow10(n: nat): nat {
    if n == 0 then 1 else 10 * Pow10(n - 1)
  }

  function DigitChar(d: int): char
    requires 0 <= d < 10
  {
    ('0' as int + d) as char
  }

  /** `n` in decimal, zero padded on the left to exactly `width` characters. */
  function Digits(n: nat, width: nat): (r: string)
    requires n < Pow10(width)
    ensures |r| == width
  {
    if width == 0 then [] else Digits(n / 10, width - 1) + [DigitChar(n % 10)]
  }

  /** Fixed-width decimal strings compare like the numbers they spell, and
      spell distinct numbers differently. */
  lemma {:induction false} DigitsOrder(n: nat, m: nat, width: nat)
    requires n < Pow10(width) && m < Pow10(width)
    ensures LexLess(Digits(n, width), Digits(m, width)) <==> n < m
    ensures Digits(n, width) == Digits(m, width) <==> n == m
  {
    if width > 0 {
      var x, y := Digits(n / 10, width - 1), Digits(m / 10, width - 1);
      var c, d := DigitChar(n % 10), DigitChar(m % 10);
      DigitsOrder(n / 10, m / 10, width - 1);
      LexLessAppend(x, y, [c], [d]);
      assert LexLess([c], [d]) <==> n % 10 < m % 10 by {
        assert [c][1..] == [] && [d][1..] == [];
      }
      if x + [c] == y + [d] {
        assert x == (x + [c])[..|x|] == (y + [d])[..|y|] == y;
        assert c == (x + [c])[|x|] == (y + [d])[|y|] == d;
      }
    }
  }

  /** `date.strftime("%Y-%m-%d")`: ten characters, digits except the two
      dashes after the year and the month. */
  function IsoFormat(d: Date): (r: string)
    requires Valid(d)
    ensures |r| == 10 && r[4] == '-' && r[7] == '-'
  {
    Digits(d.year, 4) + "-" + Digits(d.month, 2) + "-" + Digits(d.day, 2)
  }

  /** The rendering never renders two dates alike. */
  lemma IsoFormatInjective(d: Date, e: Date)
    requires Valid(d) && Valid(e)
    ensures IsoFormat(d) == IsoFormat(e) <==> d == e
  {
    IsoFormatOrder(d, e);
    IsoFormatOrder(e, d);
    DigitsOrder(d.year, e.year, 4);
    DigitsOrder(d.month, e.month, 2);
    DigitsOrder(d.day, e.day, 2);
    if IsoFormat(d) == IsoFormat(e) {
      LexLessIrreflexive(IsoFormat(d));
    }
  }

  /** The property the end-date validators rely on: comparing the zero-padded
      ISO strings of two dates as Python strings is calendar order. */
  lemma IsoFormatOrder(d: Date, e: Date)
    requires Valid(d) && Valid(e)
    ensures LexLess(IsoFormat(d), IsoFormat(e)) <==> Before(d, e)
  {
    var yd, ye := Digits(d.year, 4), Digits(e.year, 4);
    var md, me := Digits(d.month, 2), Digits(e.month, 2);
    var dd, de := Digits(d.day, 2), Digits(e.day, 2);
    DigitsOrder(d.year, e.year, 4);
    DigitsOrder(d.month, e.month, 2);
    DigitsOrder(d.day, e.day, 2);
    // the day block
    var td, te := "-" + dd, "-" + de;
    LexLessAppend("-", "-", dd, de);
    assert LexLess(td, te) <==> d.day < e.day;
    // the month block
    var sd, se := md + td, me + te;
    LexLessAppend(md, me, td, te);
    assert LexLess(sd, se) <==> d.month < e.month || (d.month == e.month && d.day < e.day);
    var rd, re := "-" + sd, "-" + se;
    LexLessAppend("-", "-", sd, se);
    // the year block
    LexLessAppend(yd, ye, rd, re);
    assert IsoFormat(d) == yd + rd;
    assert IsoFormat(e) == ye + re;
  }
}
