/** Character classes and string operations shared by the JavaScript and Python code:
    white space, trimming, ASCII and Latin-1 lower-casing, single-character replacement and the
    code-point ordering of `Array.prototype.sort` and SQL `ORDER BY` on text. */
module Strings {

  /** White space and line terminators as JavaScript's `trim` and `parseInt` skip them:
      TAB, VT, FF, SP, NBSP, ZWNBSP, the other space separators, LF, CR, LS and PS. */
  predicate IsJsSpace(c: char) {
    if c < '\U{00A0}' then c == ' ' || ('\t' <= c <= '\r')
    else (c == '\U{00A0}' || c == '\U{FEFF}' || c == '\U{1680}' || ('\U{2000}' <= c <= '\U{200A}')
          || c == '\U{202F}' || c == '\U{205F}' || c == '\U{3000}' || c == '\U{2028}' || c == '\U{2029}')
  }

  /** White space as Python's `str.strip` removes it (`str.isspace`). */
  predicate IsPySpace(c: char) {
    ('\t' <= c <= '\r') || ('\U{001C}' <= c <= ' ') || c == '\U{0085}' || c == '\U{00A0}'
    || c == '\U{1680}' || ('\U{2000}' <= c <= '\U{200A}') || c == '\U{2028}'
    || c == '\U{2029}' || c == '\U{202F}' || c == '\U{205F}' || c == '\U{3000}'
  }

  predicate AllChars(s: string, p: char -> bool) {
    forall k :: 0 <= k < |s| ==> p(s[k])
  }

  /** `s` with its leading characters in `sp` removed. */
  function TrimStart(s: string, sp: char -> bool): (r: string)
    ensures |r| <= |s| && r == s[|s| - |r|..]
    ensures AllChars(s[..|s| - |r|], sp)
    ensures |r| > 0 ==> !sp(r[0])
  {
    if |s| > 0 && sp(s[0]) then TrimStart(s[1..], sp) else s
  }

  /** `s` with its trailing characters in `sp` removed. */
  function TrimEnd(s: string, sp: char -> bool): (r: string)
    ensures |r| <= |s| && r == s[..|r|]
    ensures AllChars(s[|r|..], sp)
    ensures |r| > 0 ==> !sp(r[|r| - 1])
  {
    if |s| > 0 && sp(s[|s| - 1]) then TrimEnd(s[..|s| - 1], sp) else s
  }

  /** `String.prototype.trim` (with `IsJsSpace`) and `str.strip` (with `IsPySpace`). */
  function Trim(s: string, sp: char -> bool): (r: string)
  {
    TrimEnd(TrimStart(s, sp), sp)
  }

  /** Trimming leaves the contiguous piece of the input that follows its leading white
      space, with nothing but non-white characters at either end. */
  lemma TrimIsSlice(s: string, sp: char -> bool)
    ensures var r := Trim(s, sp); var i := |s| - |TrimStart(s, sp)|;
      && i + |r| <= |s| && r == s[i..i + |r|]
      && AllChars(s[..i], sp)
      && (|r| > 0 ==> !sp(r[0]) && !sp(r[|r| - 1]))
  {
    TrimSlice(s, sp);
    TrimEnds(s, sp);
  }

  lemma TrimSlice(s: string, sp: char -> bool)
    ensures var r := Trim(s, sp); var i := |s| - |TrimStart(s, sp)|;
      i + |r| <= |s| && r == s[i..i + |r|]
  {
    var t := TrimStart(s, sp);
    PrefixOfSuffix(s, t, Trim(s, sp), |s| - |t|);
  }

  lemma TrimEnds(s: string, sp: char -> bool)
    ensures var r := Trim(s, sp); |r| > 0 ==> !sp(r[0]) && !sp(r[|r| - 1])
  {
    var t := TrimStart(s, sp);
    var r := TrimEnd(t, sp);
    if |r| > 0 {
      assert r[0] == t[0];
    }
  }

  /** A prefix of a suffix is a slice. */
  lemma PrefixOfSuffix(s: string, t: string, r: string, i: int)
    requires 0 <= i <= |s| && t == s[i..]
    requires |r| <= |t| && r == t[..|r|]
    ensures i + |r| <= |s| && r == s[i..i + |r|]
  {
  }

  /** Trimming yields the empty string exactly when the input is all white space. */
  lemma TrimEmptyIff(s: string, sp: char -> bool)
    ensures Trim(s, sp) == [] <==> AllChars(s, sp)
  {
    var t := TrimStart(s, sp);
    var r := TrimEnd(t, sp);
    var i := |s| - |t|;
    TrimIsSlice(s, sp);
    if r == [] {
      assert i == |s|;
      forall k | 0 <= k < |s| ensures sp(s[k]) {
        assert s[k] == s[..i][k];
      }
    } else {
      assert r[0] == s[i] && !sp(s[i]);
    }
  }

  /** Trimming a trimmed string changes nothing. */
  lemma TrimIdempotent(s: string, sp: char -> bool)
    ensures Trim(Trim(s, sp), sp) == Trim(s, sp)
  {
    var r := Trim(s, sp);
    TrimIsSlice(s, sp);
    assert TrimStart(r, sp) == r;
    assert TrimEnd(r, sp) == r;
  }

  /** The upper-case letters the model lower-cases: ASCII `A`-`Z` and the Latin-1 capitals
      `À`-`Þ` other than `×`. Each lies 32 code points below its small letter. */
  predicate IsUpper(c: char) {
    ('A' <= c <= 'Z') || ('\U{00C0}' <= c <= '\U{00DE}' && c != '\U{00D7}')
  }

  function LowerChar(c: char): (d: char)
    ensures !IsUpper(d)
    ensures IsPySpace(d) <==> IsPySpace(c)
  {
    if IsUpper(c) then (c as int + 32) as char else c
  }

  /** Python `str.lower` on ASCII and Latin-1 letters. */
  function Lower(s: string): (r: string)
    ensures |r| == |s|
    ensures forall k :: 0 <= k < |s| ==> r[k] == LowerChar(s[k])
  {
    if |s| == 0 then [] else [LowerChar(s[0])] + Lower(s[1..])
  }

  /** Python `str.replace(a, b)` for single characters `a` and `b`. */
  function ReplaceChar(s: string, a: char, b: char): (r: string)
    ensures |r| == |s|
    ensures forall k :: 0 <= k < |s| ==> r[k] == if s[k] == a then b else s[k]
  {
    if |s| == 0 then [] else [if s[0] == a then b else s[0]] + ReplaceChar(s[1..], a, b)
  }

  /** Code-point order on strings: a proper prefix comes first, otherwise the first
      differing character decides. JavaScript's `sort` compares UTF-16 code units; the two
      orders agree on text within the Basic Multilingual Plane (code points up to U+FFFF). */
  predicate Less(a: string, b: string) {
    if |a| == 0 then |b| > 0
    else if |b| == 0 then false
    else if a[0] != b[0] then a[0] < b[0]
    else Less(a[1..], b[1..])
  }

  predicate LessEq(a: string, b: string) {
    !Less(b, a)
  }

  lemma {:induction false} LessIrreflexive(a: string)
    ensures !Less(a, a)
  {
    if |a| > 0 {
      LessIrreflexive(a[1..]);
    }
  }

  lemma {:induction false} LessTotal(a: string, b: string)
    ensures a == b || Less(a, b) || Less(b, a)
  {
    if |a| > 0 && |b| > 0 && a[0] == b[0] {
      LessTotal(a[1..], b[1..]);
      if a[1..] == b[1..] {
        assert a == [a[0]] + a[1..] && b == [b[0]] + b[1..];
      }
    }
  }

  lemma {:induction false} LessAsymmetric(a: string, b: string)
    ensures !(Less(a, b) && Less(b, a))
  {
    if |a| > 0 && |b| > 0 && a[0] == b[0] {
      LessAsymmetric(a[1..], b[1..]);
    }
  }

  lemma {:induction false} LessTransitive(a: string, b: string, c: string)
    requires Less(a, b) && Less(b, c)
    ensures Less(a, c)
  {
    if |a| > 0 && a[0] == b[0] && b[0] == c[0] {
      LessTransitive(a[1..], b[1..], c[1..]);
    }
  }

  lemma LessEqTransitive(a: string, b: string, c: string)
    requires LessEq(a, b) && LessEq(b, c)
    ensures LessEq(a, c)
  {
    if a != b && b != c {
      LessTotal(a, b);
      LessTotal(b, c);
      LessTransitive(a, b, c);
      LessAsymmetric(a, c);
    }
  }

  lemma LessEqLessTransitive(a: string, b: string, c: string)
    requires LessEq(a, b) && Less(b, c)
    ensures Less(a, c)
  {
    LessTotal(a, b);
    if a != b {
      LessAsymmetric(a, b);
      LessTransitive(a, b, c);
    }
  }

  /** Leading white space makes no difference to trimming. */
  lemma {:induction false} TrimStartPadded(w: string, s: string, sp: char -> bool)
    requires AllChars(w, sp)
    ensures TrimStart(w + s, sp) == TrimStart(s, sp)
  {
    if |w| > 0 {
      assert (w + s)[1..] == w[1..] + s;
      TrimStartPadded(w[1..], s, sp);
    } else {
      assert w + s == s;
    }
  }
}
