/** Calendar dates as the import script reads and writes them: `YYYY-MM-DD` text
    (`strftime('%Y-%m-%d')`), and the span of days a pandas `Timestamp` can hold, outside
    of which `to_datetime(..., errors='coerce')` gives `NaT`. */
module Dates {
  import opened Wrappers
  import opened Strings
  import opened Numbers

  datatype Date = Date(year: int, month: int, day: int)

  predicate IsLeap(y: int) {
    y % 4 == 0 && (y % 100 != 0 || y % 400 == 0)
  }

  function DaysIn(y: int, m: int): int {
    if m == 2 then (if IsLeap(y) then 29 else 28)
    else if m == 4 || m == 6 || m == 9 || m == 11 then 30
    else 31
  }

  /** A day of the proleptic Gregorian calendar. */
  predicate ValidDate(d: Date) {
    1 <= d.month <= 12 && 1 <= d.day <= DaysIn(d.year, d.month)
  }

  /** Year, month and day as one number ordered like the dates. */
  function Ordinal(d: Date): int {
    d.year * 10000 + d.month * 100 + d.day
  }

  /** `Timestamp.min` is 1677-09-21 00:12:43 and `Timestamp.max` 2262-04-11 23:47:16, so the
      whole days that fit are 1677-09-22 through 2262-04-11. */
  predicate InTimestampRange(d: Date) {
    Ordinal(Date(1677, 9, 22)) <= Ordinal(d) <= Ordinal(Date(2262, 4, 11))
  }

  /** The last `w` decimal digits of `n`, zero-padded, as `%0<w>d` writes them. */
  function Padded(n: nat, w: nat): (r: string)
    ensures |r| == w && AllChars(r, IsDigit)
  {
    if w == 0 then [] else Padded(n / 10, w - 1) + [Digit(n % 10)]
  }

  /** `strftime('%Y-%m-%d')` of a date whose year has at most four digits. */
  function Render(d: Date): (r: string)
    requires 0 <= d.year <= 9999 && ValidDate(d)
    ensures |r| == 10 && r[4] == '-' && r[7] == '-'
  {
    Padded(d.year, 4) + "-" + Padded(d.month, 2) + "-" + Padded(d.day, 2)
  }

  /** Reads `YYYY-MM-DD` text: ten characters, digits around two dashes, naming a real day. */
  function ParseIso(s: string): (r: Option<Date>)
    ensures r.Some? ==> ValidDate(r.value) && 0 <= r.value.year <= 9999
  {
    if |s| == 10 && s[4] == '-' && s[7] == '-'
       && AllChars(s[..4], IsDigit) && AllChars(s[5..7], IsDigit) && AllChars(s[8..], IsDigit)
    then
      var d := Date(DigitsValue(s[..4], 10), DigitsValue(s[5..7], 10), DigitsValue(s[8..], 10));
      assert DigitsValue(s[..4], 10) <= 9999 by { DigitsValueBound(s[..4]); }
      if ValidDate(d) then Some(d) else None
    else None
  }

  lemma {:induction false} DigitsValueBound(s: string)
    requires AllChars(s, IsDigit)
    ensures DigitsValue(s, 10) < Pow(10, |s|)
  {
    if |s| > 0 {
      var t := s[..|s| - 1];
      assert AllChars(t, IsDigit) by {
        forall k | 0 <= k < |t| ensures IsDigit(t[k]) { assert t[k] == s[k]; }
      }
      DigitsValueBound(t);
      var v, p := DigitsValue(t, 10), Pow(10, |t|);
      assert DigitsValue(s, 10) <= v * 10 + 9;
      assert v * 10 + 9 < p * 10 by { assert v + 1 <= p; }
    }
  }

  /** `n % 10^w` split into its last digit and the rest. */
  lemma ModStep(n: nat, p: nat)
    requires p > 0
    ensures (n / 10 % p) * 10 + n % 10 == n % (10 * p)
  {
    var q, r := n / 10, n % 10;
    var t, u := q / p, q % p;
    assert n == 10 * p * t + (10 * u + r);
    ModUnique(n, 10 * p, t, 10 * u + r);
  }

  lemma ModUnique(a: int, m: int, t: int, v: int)
    requires m > 0 && a == m * t + v && 0 <= v < m
    ensures a % m == v
  {
    var q, r := a / m, a % m;
    assert m * (t - q) == r - v;
    if t > q {
      MulAtLeast(m, t - q);
    } else if t < q {
      MulAtLeast(m, q - t);
    }
  }

  lemma MulAtLeast(m: int, k: int)
    requires m > 0 && k >= 1
    ensures m * k >= m
  {
  }

  /** Reading zero-padded digits back gives the number modulo the width. */
  lemma {:induction false} PaddedValue(n: nat, w: nat)
    ensures DigitsValue(Padded(n, w), 10) == n % Pow(10, w)
  {
    if w > 0 {
      var p := Padded(n / 10, w - 1);
      assert (p + [Digit(n % 10)])[..w - 1] == p;
      PaddedValue(n / 10, w - 1);
      ModStep(n, Pow(10, w - 1));
    }
  }

  lemma PaddedSmall(n: nat, w: nat)
    requires n < Pow(10, w)
    ensures DigitsValue(Padded(n, w), 10) == n
  {
    PaddedValue(n, w);
    ModUnique(n, Pow(10, w), 0, n);
  }

  lemma DigitRoundTrip(c: char)
    requires IsDigit(c)
    ensures Digit(DigitValue(c)) == c
  {
  }

  /** Padding the value of a digit string to its own width gives the string back. */
  lemma {:induction false} PaddedOfDigits(s: string)
    requires AllChars(s, IsDigit)
    ensures Padded(DigitsValue(s, 10), |s|) == s
  {
    if |s| > 0 {
      var t := s[..|s| - 1];
      assert AllChars(t, IsDigit) by {
        forall k | 0 <= k < |t| ensures IsDigit(t[k]) { assert t[k] == s[k]; }
      }
      PaddedOfDigits(t);
      var n := DigitsValue(s, 10);
      var c := s[|s| - 1];
      assert n == DigitsValue(t, 10) * 10 + DigitValue(c);
      assert n / 10 == DigitsValue(t, 10) && n % 10 == DigitValue(c);
      DigitRoundTrip(c);
      assert s == t + [c];
    }
  }

  /** The text a date is written as reads back as that date. */
  lemma ParseRender(d: Date)
    requires 0 <= d.year <= 9999 && ValidDate(d)
    ensures ParseIso(Render(d)) == Some(d)
  {
    var s := Render(d);
    var y, m, dd := Padded(d.year, 4), Padded(d.month, 2), Padded(d.day, 2);
    assert s == y + "-" + m + "-" + dd;
    assert s[..4] == y && s[5..7] == m && s[8..] == dd;
    assert Pow(10, 4) == 10000 && Pow(10, 2) == 100;
    PaddedSmall(d.year, 4);
    PaddedSmall(d.month, 2);
    PaddedSmall(d.day, 2);
  }

  /** Text that reads as a date is exactly the way that date is written. */
  lemma RenderParse(s: string)
    requires ParseIso(s).Some?
    ensures Render(ParseIso(s).value) == s
  {
    var d := ParseIso(s).value;
    PaddedOfDigits(s[..4]);
    PaddedOfDigits(s[5..7]);
    PaddedOfDigits(s[8..]);
    assert s == s[..4] + "-" + s[5..7] + "-" + s[8..];
  }
}
