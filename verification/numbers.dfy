/** Number parsing and rendering as the pages use them: JavaScript `parseInt` and
    `parseFloat` on form input, the decimal text an integer becomes when written back
    to an input, and `toFixed(2)` on a price held in cents. */
module Numbers {
  import opened Wrappers
  import opened Strings

  predicate IsDigit(c: char) {
    '0' <= c <= '9'
  }

  predicate IsHexDigit(c: char) {
    IsDigit(c) || ('a' <= c <= 'f') || ('A' <= c <= 'F')
  }

  /** The value of a digit character in base 16 (and so in base 10). */
  function DigitValue(c: char): nat {
    if IsDigit(c) then c as int - '0' as int
    else if 'a' <= c <= 'f' then c as int - 'a' as int + 10
    else if 'A' <= c <= 'F' then c as int - 'A' as int + 10
    else 0
  }

  /** The decimal digit character for `d`. */
  function Digit(d: nat): (c: char)
    requires d < 10
    ensures IsDigit(c) && DigitValue(c) == d
  {
    ('0' as int + d) as char
  }

  /** The value of a digit string in `base`, most significant digit first. */
  function DigitsValue(s: string, base: nat): nat {
    if |s| == 0 then 0 else DigitsValue(s[..|s| - 1], base) * base + DigitValue(s[|s| - 1])
  }

  function Pow(base: nat, e: nat): (r: nat)
    ensures base > 0 ==> r > 0
  {
    if e == 0 then 1 else base * Pow(base, e - 1)
  }

  lemma {:induction false} DigitsValueConcat(a: string, b: string, base: nat)
    ensures DigitsValue(a + b, base) == DigitsValue(a, base) * Pow(base, |b|) + DigitsValue(b, base)
  {
    if |b| == 0 {
      assert a + b == a;
    } else {
      var b' := b[..|b| - 1];
      assert (a + b)[..|a + b| - 1] == a + b';
      DigitsValueConcat(a, b', base);
      var x, y, p, d := DigitsValue(a, base), DigitsValue(b', base), Pow(base, |b'|), DigitValue(b[|b| - 1]);
      assert DigitsValue(a + b, base) == (x * p + y) * base + d;
      Regroup(x, p, y, base);
    }
  }

  lemma Regroup(x: int, p: int, y: int, base: int)
    ensures (x * p + y) * base == x * (base * p) + y * base
  {
  }

  /** The decimal text of a natural number, as JavaScript writes it: no leading zeros. */
  function NatToString(n: nat): (r: string)
    ensures |r| > 0 && AllChars(r, IsDigit)
    ensures |r| > 1 ==> r[0] != '0'
  {
    if n < 10 then [Digit(n)] else NatToString(n / 10) + [Digit(n % 10)]
  }

  /** The decimal text of an integer, with a leading `-` when negative. */
  function IntToString(i: int): string {
    if i < 0 then "-" + NatToString(-i) else NatToString(i)
  }

  /** Reading the decimal text back gives the number. */
  lemma {:induction false} NatToStringValue(n: nat)
    ensures DigitsValue(NatToString(n), 10) == n
  {
    if n >= 10 {
      var p := NatToString(n / 10);
      assert (p + [Digit(n % 10)])[..|p|] == p;
      NatToStringValue(n / 10);
    }
  }

  /** The digits and fraction of a price held in cents, as `price.toFixed(2)` shows it. */
  function CentsToFixed2(c: int): string {
    if c < 0 then "-" + Fixed2Digits(-c) else Fixed2Digits(c)
  }

  /** Optional `+` or `-` in front of the digits; reports whether the number is negative. */
  function SplitSign(t: string): (bool, string) {
    if |t| > 0 && (t[0] == '-' || t[0] == '+') then (t[0] == '-', t[1..]) else (false, t)
  }

  /** The longest prefix of `s` made of decimal digits. */
  function DigitRun(s: string): (r: string)
    ensures |r| <= |s|
  {
    if |s| > 0 && IsDigit(s[0]) then [s[0]] + DigitRun(s[1..]) else []
  }

  /** The longest prefix of `s` made of hexadecimal digits. */
  function HexRun(s: string): (r: string)
    ensures |r| <= |s|
  {
    if |s| > 0 && IsHexDigit(s[0]) then [s[0]] + HexRun(s[1..]) else []
  }

  /** The run of digits ends where the first non-digit sits. */
  lemma {:induction false} DigitRunExact(a: string, b: string)
    requires AllChars(a, IsDigit)
    requires |b| == 0 || !IsDigit(b[0])
    ensures DigitRun(a + b) == a
  {
    if |a| > 0 {
      assert (a + b)[1..] == a[1..] + b;
      DigitRunExact(a[1..], b);
      assert [a[0]] + a[1..] == a;
    } else {
      assert a + b == b;
    }
  }

  /** `parseInt` after the sign: a `0x`/`0X` prefix selects base 16, and the value is that
      of the longest run of digits of the base; no digit at all is `NaN`. */
  function ParseMagnitude(u: string): Option<nat> {
    if |u| >= 2 && u[0] == '0' && (u[1] == 'x' || u[1] == 'X') then
      var h := HexRun(u[2..]);
      if h == [] then None else Some(DigitsValue(h, 16))
    else
      var d := DigitRun(u);
      if d == [] then None else Some(DigitsValue(d, 10))
  }

  /** `s` without its leading JavaScript white space, the first step of `parseInt` and
      `parseFloat`. */
  function SkipJsSpace(s: string): string {
    if |s| > 0 && IsJsSpace(s[0]) then SkipJsSpace(s[1..]) else s
  }

  /** Skipping leading white space is `TrimStart` with JavaScript's white space. */
  lemma {:induction false} SkipJsSpaceIsTrim(s: string)
    ensures SkipJsSpace(s) == TrimStart(s, IsJsSpace)
  {
    if |s| > 0 && IsJsSpace(s[0]) {
      SkipJsSpaceIsTrim(s[1..]);
    }
  }

  /** JavaScript `parseInt(s)` with no radix; `None` is `NaN`. Leading white space and a
      sign are skipped, and anything after the digits is ignored. */
  function ParseInt(s: string): Option<int> {
    ParseSigned(SkipJsSpace(s))
  }

  /** `parseInt` once leading white space is gone. */
  function ParseSigned(t: string): Option<int> {
    var (neg, u) := SplitSign(t);
    match ParseMagnitude(u)
    case None => None
    case Some(v) => Some(if neg then -(v as int) else v as int)
  }

  /** A JavaScript number as `parseFloat` produces it. */
  datatype JsNumber = Finite(v: real) | Infinite(negative: bool)

  /** `x * 10^e` for an integer exponent. */
  function Scale(x: real, e: int): real
    decreases if e < 0 then -e else e
  {
    if e == 0 then x else if e > 0 then Scale(x, e - 1) * 10.0 else Scale(x, e + 1) / 10.0
  }

  /** The exponent part of a decimal literal: `e` or `E`, an optional sign and at least one
      digit; anything else is no exponent at all. */
  function ParseExponent(a: string): int {
    if |a| > 0 && (a[0] == 'e' || a[0] == 'E') then
      var (neg, u) := SplitSign(a[1..]);
      var d := DigitRun(u);
      if d == [] then 0 else if neg then -(DigitsValue(d, 10) as int) else DigitsValue(d, 10) as int
    else 0
  }

  /** The longest prefix of `u` that is an unsigned decimal literal: digits, an optional
      `.` with more digits, and an optional exponent; a lone `.` is not a number. */
  function ParseDecimal(u: string): Option<real> {
    var ip := DigitRun(u);
    var rest := u[|ip|..];
    var dot := |rest| > 0 && rest[0] == '.';
    var fp := if dot then DigitRun(rest[1..]) else [];
    if |ip| == 0 && |fp| == 0 then None
    else
      var after := if dot then rest[1 + |fp|..] else rest;
      Some(Scale(DigitsValue(ip + fp, 10) as real, ParseExponent(after) - |fp|))
  }

  /** JavaScript `parseFloat(s)`; `None` is `NaN`. */
  function ParseFloat(s: string): Option<JsNumber> {
    ParseFloatFrom(SkipJsSpace(s))
  }

  /** `parseFloat` once leading white space is gone. */
  function ParseFloatFrom(t: string): Option<JsNumber> {
    var (neg, u) := SplitSign(t);
    if "Infinity" <= u then Some(Infinite(neg))
    else
      match ParseDecimal(u)
      case None => None
      case Some(x) => Some(Finite(if neg then -x else x))
  }

  /** Text that starts with a digit or sign is not trimmed. */
  lemma NoLeadingSpace(s: string)
    requires |s| > 0 && (IsDigit(s[0]) || s[0] == '-')
    ensures SkipJsSpace(s) == s
  {
    var c := s[0];
    assert !IsJsSpace(c) by {
      assert '0' <= c <= '9' || c == '-';
    }
  }

  /** `parseInt` reads back the decimal text of every integer. */
  lemma ParseIntRoundTrip(i: int)
    ensures ParseInt(IntToString(i)) == Some(i)
  {
    var m := if i < 0 then -i else i;
    var d := NatToString(m);
    NatToStringValue(m);
    SignAndDigits(IntToString(i), d, i < 0);
    MagnitudeOfDigits(d);
    ParseIntOfParts(IntToString(i), i < 0, d, m);
  }

  /** Text made of an optional `-` and digits has no leading white space and splits into
      that sign and those digits. */
  lemma SignAndDigits(t: string, d: string, neg: bool)
    requires |d| > 0 && IsDigit(d[0])
    requires t == if neg then "-" + d else d
    ensures SkipJsSpace(t) == t && SplitSign(t) == (neg, d)
  {
    NoLeadingSpace(t);
    if neg {
      assert t[1..] == d;
    }
  }

  /** `parseInt` of text with no leading white space: the sign applied to the magnitude. */
  lemma ParseIntOfParts(t: string, neg: bool, u: string, x: nat)
    requires SkipJsSpace(t) == t && SplitSign(t) == (neg, u) && ParseMagnitude(u) == Some(x)
    ensures ParseInt(t) == Some(if neg then -(x as int) else x as int)
  {
  }

  /** Digits without a leading zero are read in base 10, in full. */
  lemma MagnitudeOfDigits(d: string)
    requires |d| > 0 && AllChars(d, IsDigit) && (|d| > 1 ==> d[0] != '0')
    ensures ParseMagnitude(d) == Some(DigitsValue(d, 10))
  {
    DigitRunExact(d, []);
    assert d + [] == d;
  }

  /** `parseInt` stops at the first character that cannot continue the number, so text
      after the digits makes no difference. */
  lemma ParseIntIgnoresSuffix(n: nat, rest: string)
    requires |rest| > 0 ==> !IsDigit(rest[0])
    requires n == 0 && |rest| > 0 ==> rest[0] != 'x' && rest[0] != 'X'
    ensures ParseInt(NatToString(n) + rest) == Some(n)
  {
    var d := NatToString(n);
    var s := d + rest;
    NatToStringValue(n);
    assert s[0] == d[0];
    NoLeadingSpace(s);
    assert SplitSign(s) == (false, s);
    assert !(|s| >= 2 && s[0] == '0' && (s[1] == 'x' || s[1] == 'X')) by {
      if |d| > 1 {
        assert s[0] != '0';
      } else if |s| >= 2 {
        assert s[1] == rest[0];
      }
    }
    DigitRunExact(d, rest);
    assert ParseMagnitude(s) == Some(DigitsValue(d, 10));
  }

  /** White space in front of the text makes no difference to `parseInt`. */
  lemma ParseIntSkipsSpace(w: string, s: string)
    requires AllChars(w, IsJsSpace)
    ensures ParseInt(w + s) == ParseInt(s)
  {
    TrimStartPadded(w, s, IsJsSpace);
    SkipJsSpaceIsTrim(w + s);
    SkipJsSpaceIsTrim(s);
  }

  /** `parseInt` is `NaN` exactly when, after white space and sign, the text starts with
      no digit, or with `0x` followed by no hexadecimal digit. */
  lemma ParseIntNaNIff(s: string)
    ensures var u := SplitSign(SkipJsSpace(s)).1;
      ParseInt(s).None? <==>
        (|u| == 0 || !IsDigit(u[0])
         || (|u| >= 2 && u[0] == '0' && (u[1] == 'x' || u[1] == 'X') && (|u| == 2 || !IsHexDigit(u[2]))))
  {
  }

  /** `parseFloat` is `NaN` exactly when, after white space and sign, the text starts with
      neither `Infinity`, nor a digit, nor a `.` followed by a digit. */
  lemma ParseFloatNaNIff(s: string)
    ensures var u := SplitSign(SkipJsSpace(s)).1;
      ParseFloat(s).None? <==>
        !("Infinity" <= u) && (|u| == 0 || !IsDigit(u[0])) && !(|u| >= 2 && u[0] == '.' && IsDigit(u[1]))
  {
  }

  /** The unsigned part of `toFixed(2)` text, digits of cents with a point before the
      last two. */
  function Fixed2Digits(m: nat): string {
    NatToString(m / 100) + "." + [Digit(m % 100 / 10), Digit(m % 10)]
  }

  /** Digits, a point and more digits read as the digits' value scaled down by the
      number of fraction digits. */
  lemma DecimalWithFraction(ip: string, fp: string)
    requires |ip| > 0 && AllChars(ip, IsDigit) && AllChars(fp, IsDigit)
    ensures ParseDecimal(ip + "." + fp) == Some(Scale(DigitsValue(ip + fp, 10) as real, -|fp|))
  {
    var u := ip + "." + fp;
    DigitRunExact(ip, "." + fp);
    assert u == ip + ("." + fp);
    assert u[|ip|..] == "." + fp;
    DigitRunExact(fp, []);
    assert ("." + fp)[1..] == fp + [];
    assert ("." + fp)[1 + |fp|..] == [];
  }

  lemma TwoDigitsValue(a: nat, b: nat)
    requires a < 10 && b < 10
    ensures DigitsValue([Digit(a), Digit(b)], 10) == a * 10 + b
  {
    var fp := [Digit(a), Digit(b)];
    assert fp[..1] == [Digit(a)];
    assert [Digit(a)][..0] == [];
    assert DigitsValue([Digit(a)], 10) == a;
    assert DigitsValue(fp, 10) == DigitsValue(fp[..1], 10) * 10 + DigitValue(fp[1]);
  }

  /** Whole units, tens of cents and cents put back together. */
  lemma CentsSplit(m: nat)
    ensures m / 100 * 100 + (m % 100 / 10 * 10 + m % 10) == m
  {
    var q, r := m / 100, m % 100;
    assert m == q * 10 * 10 + r;
    assert m % 10 == r % 10;
  }

  lemma ScaleCents(m: nat)
    ensures Scale(m as real, -2) == m as real / 100.0
  {
    assert Scale(m as real, -1) == m as real / 10.0;
  }

  /** The digits of `m` cents, read as one number and scaled by two fraction digits,
      are worth `m / 100`. */
  lemma Fixed2Value(m: nat)
    ensures var fp := [Digit(m % 100 / 10), Digit(m % 10)];
      Scale(DigitsValue(NatToString(m / 100) + fp, 10) as real, -|fp|) == m as real / 100.0
  {
    var ip := NatToString(m / 100);
    var fp := [Digit(m % 100 / 10), Digit(m % 10)];
    NatToStringValue(m / 100);
    DigitsValueConcat(ip, fp, 10);
    TwoDigitsValue(m % 100 / 10, m % 10);
    CentsSplit(m);
    assert |fp| == 2;
    ScaleCents(m);
  }

  /** `parseFloat` reads back the text `toFixed(2)` makes of a price in cents. */
  lemma ParseFloatFixed2(c: int)
    ensures ParseFloat(CentsToFixed2(c)) == Some(Finite(c as real / 100.0))
  {
    Fixed2Parts(c);
    SignedFractionReadsBack(CentsToFixed2(c), c < 0, WholePart(c), CentsPart(c), c as real / 100.0);
  }

  function Abs(c: int): nat {
    if c < 0 then -c else c
  }

  /** The digits before the point of `toFixed(2)` text. */
  function WholePart(c: int): string {
    NatToString(Abs(c) / 100)
  }

  /** The two digits after the point of `toFixed(2)` text. */
  function CentsPart(c: int): string {
    [Digit(Abs(c) % 100 / 10), Digit(Abs(c) % 10)]
  }

  /** `toFixed(2)` text is an optional `-`, digits, a point and two digits, and those
      digits scaled by two places are the amount. */
  lemma Fixed2Parts(c: int)
    ensures |WholePart(c)| > 0 && AllChars(WholePart(c), IsDigit) && AllChars(CentsPart(c), IsDigit)
    ensures CentsToFixed2(c) == if c < 0 then "-" + (WholePart(c) + "." + CentsPart(c))
                                else WholePart(c) + "." + CentsPart(c)
    ensures c as real / 100.0
            == Signed(c < 0, Scale(DigitsValue(WholePart(c) + CentsPart(c), 10) as real, -|CentsPart(c)|))
  {
    Fixed2Value(Abs(c));
    SignedCents(c);
  }

  lemma SignedCents(c: int)
    ensures Signed(c < 0, (if c < 0 then -c else c) as real / 100.0) == c as real / 100.0
  {
  }

  /** Digits, a point and more digits, with or without a `-` in front, read back as the
      decimal value or its negation. */
  lemma SignedFractionReadsBack(t: string, neg: bool, ip: string, fp: string, v: real)
    requires |ip| > 0 && AllChars(ip, IsDigit) && AllChars(fp, IsDigit)
    requires t == if neg then "-" + (ip + "." + fp) else ip + "." + fp
    requires v == Signed(neg, Scale(DigitsValue(ip + fp, 10) as real, -|fp|))
    ensures ParseFloat(t) == Some(Finite(v))
  {
    var u := ip + "." + fp;
    DecimalWithFraction(ip, fp);
    assert u[0] == ip[0];
    SignAndDigits(t, u, neg);
    NotInfinity(u);
    ParseFloatOfParts(t, neg, u, Scale(DigitsValue(ip + fp, 10) as real, -|fp|));
  }

  lemma NotInfinity(u: string)
    requires |u| > 0 && IsDigit(u[0])
    ensures !("Infinity" <= u)
  {
    assert u[0] != 'I';
  }

  /** `x`, negated when `neg` holds. */
  function Signed(neg: bool, x: real): real {
    if neg then -x else x
  }

  /** `parseFloat` of text with no leading white space that does not spell `Infinity`:
      the sign applied to the decimal value. */
  lemma ParseFloatOfParts(t: string, neg: bool, u: string, x: real)
    requires SkipJsSpace(t) == t && SplitSign(t) == (neg, u) && !("Infinity" <= u)
    requires ParseDecimal(u) == Some(x)
    ensures ParseFloat(t) == Some(Finite(Signed(neg, x)))
  {
  }
}
