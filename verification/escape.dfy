/** The `escapeHtml` helper of the sales, books and customers pages: five global
    replacements, `&` first, that turn the characters significant in HTML into entities.
    The sales page first maps a falsy value to the empty string; the books and customers
    pages call `replace` on the value directly and fail on `null` or `undefined`. */
module Escape {
  import opened Wrappers

  /** The characters that carry meaning in HTML markup and attribute values. */
  predicate IsMarkup(c: char) {
    c == '<' || c == '>' || c == '"' || c == '\''
  }

  /** The characters `escapeHtml` rewrites. */
  predicate IsSpecial(c: char) {
    c == '&' || IsMarkup(c)
  }

  /** `s.replace(/c/g, rep)`: every occurrence of `c` replaced by `rep`. */
  function ReplaceAll(s: string, c: char, rep: string): string {
    if |s| == 0 then [] else (if s[0] == c then rep else [s[0]]) + ReplaceAll(s[1..], c, rep)
  }

  /** The replacement chain of `escapeHtml` on a string, in source order. */
  function EscapeChain(s: string): string {
    var amp := ReplaceAll(s, '&', "&amp;");
    var lt := ReplaceAll(amp, '<', "&lt;");
    var gt := ReplaceAll(lt, '>', "&gt;");
    var quot := ReplaceAll(gt, '"', "&quot;");
    ReplaceAll(quot, '\'', "&#039;")
  }

  /** The text one character stands for in escaped output. */
  function Entity(c: char): string {
    if c == '&' then "&amp;"
    else if c == '<' then "&lt;"
    else if c == '>' then "&gt;"
    else if c == '"' then "&quot;"
    else if c == '\'' then "&#039;"
    else [c]
  }

  /** Reference definition: every character replaced by its entity in one pass. */
  function EscapeEach(s: string): string {
    if |s| == 0 then [] else Entity(s[0]) + EscapeEach(s[1..])
  }

  /** Decoding of the five entities; any other character stands for itself. */
  function Unescape(s: string): string
    decreases |s|
  {
    if |s| == 0 then []
    else if "&amp;" <= s then "&" + Unescape(s[5..])
    else if "&lt;" <= s then "<" + Unescape(s[4..])
    else if "&gt;" <= s then ">" + Unescape(s[4..])
    else if "&quot;" <= s then "\"" + Unescape(s[6..])
    else if "&#039;" <= s then "'" + Unescape(s[6..])
    else [s[0]] + Unescape(s[1..])
  }

  /** `escapeHtml` of the sales page: a falsy value (`null`, `undefined`, `""`) becomes
      the empty string, anything else goes through the replacement chain. */
  function EscapeHtmlGuarded(v: Option<string>): (r: string)
    ensures v.None? ==> r == ""
    ensures v == Some("") ==> r == ""
    ensures forall k :: 0 <= k < |r| ==> !IsMarkup(r[k])
    ensures v.Some? ==> Unescape(r) == v.value
  {
    match v
    case None => ""
    case Some(s) =>
      if s == "" then ""
      else
        EscapeHtmlSpec(s);
        EscapeChain(s)
  }

  /** The failure of calling `replace` on `null` or `undefined`. */
  datatype TypeError = TypeError

  /** `escapeHtml` of the books and customers pages: no guard, so a missing value raises. */
  function EscapeHtmlUnguarded(v: Option<string>): (r: Result<string, TypeError>)
    ensures v.None? <==> r.Failure?
    ensures r.Success? ==> forall k :: 0 <= k < |r.value| ==> !IsMarkup(r.value[k])
    ensures r.Success? ==> Unescape(r.value) == v.value
  {
    match v
    case None => Failure(TypeError)
    case Some(s) =>
      EscapeHtmlSpec(s);
      Success(EscapeChain(s))
  }

  lemma {:induction false} ReplaceAllConcat(a: string, b: string, c: char, rep: string)
    ensures ReplaceAll(a + b, c, rep) == ReplaceAll(a, c, rep) + ReplaceAll(b, c, rep)
  {
    if |a| == 0 {
      assert a + b == b;
    } else {
      assert (a + b)[1..] == a[1..] + b;
      ReplaceAllConcat(a[1..], b, c, rep);
    }
  }

  lemma {:induction false} ReplaceAllAbsent(s: string, c: char, rep: string)
    requires c !in s
    ensures ReplaceAll(s, c, rep) == s
  {
    if |s| > 0 {
      assert c !in s[1..];
      ReplaceAllAbsent(s[1..], c, rep);
    }
  }

  lemma ReplaceAllSingle(d: char, c: char, rep: string)
    ensures ReplaceAll([d], c, rep) == if d == c then rep else [d]
  {
    assert [d][1..] == [];
  }

  /** The replacements after the one that produced an entity leave it alone. */
  lemma ChainAfterAmp(d: char)
    requires d == '&'
    ensures EscapeChain([d]) == "&amp;"
  {
    var e := "&amp;";
    ReplaceAllSingle(d, '&', e);
    var amp := ReplaceAll([d], '&', e);
    assert amp == e;
    EntityStable(e);
  }

  /** The passes after the first leave text without markup characters untouched. */
  lemma EntityStable(e: string)
    requires forall k :: 0 <= k < |e| ==> !IsMarkup(e[k])
    ensures ReplaceAll(ReplaceAll(ReplaceAll(ReplaceAll(e, '<', "&lt;"), '>', "&gt;"), '"', "&quot;"), '\'', "&#039;") == e
  {
    ReplaceAllAbsent(e, '<', "&lt;");
    ReplaceAllAbsent(e, '>', "&gt;");
    ReplaceAllAbsent(e, '"', "&quot;");
    ReplaceAllAbsent(e, '\'', "&#039;");
  }

  lemma ChainAfterLt()
    ensures EscapeChain("<") == "&lt;"
  {
    var e := "&lt;";
    ReplaceAllSingle('<', '&', "&amp;");
    assert ReplaceAll("<", '&', "&amp;") == "<";
    ReplaceAllSingle('<', '<', e);
    assert ReplaceAll("<", '<', e) == e;
    EntityStable(e);
  }

  lemma ChainAfterGt()
    ensures EscapeChain(">") == "&gt;"
  {
    ReplaceAllSingle('>', '&', "&amp;");
    ReplaceAllSingle('>', '<', "&lt;");
    ReplaceAllSingle('>', '>', "&gt;");
    ReplaceAllAbsent("&gt;", '"', "&quot;");
    ReplaceAllAbsent("&gt;", '\'', "&#039;");
  }

  lemma ChainAfterQuot()
    ensures EscapeChain("\"") == "&quot;"
  {
    ReplaceAllSingle('"', '&', "&amp;");
    ReplaceAllSingle('"', '<', "&lt;");
    ReplaceAllSingle('"', '>', "&gt;");
    ReplaceAllSingle('"', '"', "&quot;");
    ReplaceAllAbsent("&quot;", '\'', "&#039;");
  }

  lemma ChainAfterApos()
    ensures EscapeChain("'") == "&#039;"
  {
    ReplaceAllSingle('\'', '&', "&amp;");
    ReplaceAllSingle('\'', '<', "&lt;");
    ReplaceAllSingle('\'', '>', "&gt;");
    ReplaceAllSingle('\'', '"', "&quot;");
    ReplaceAllSingle('\'', '\'', "&#039;");
  }

  lemma ChainOfPlain(d: char)
    requires !IsSpecial(d)
    ensures EscapeChain([d]) == [d]
  {
    ReplaceAllSingle(d, '&', "&amp;");
    ReplaceAllSingle(d, '<', "&lt;");
    ReplaceAllSingle(d, '>', "&gt;");
    ReplaceAllSingle(d, '"', "&quot;");
    ReplaceAllSingle(d, '\'', "&#039;");
  }

  /** The chain applied to one character gives that character's entity: no later
      replacement touches the text an earlier one produced. */
  lemma ChainOfChar(d: char)
    ensures EscapeChain([d]) == Entity(d)
  {
    if d == '&' {
      ChainAfterAmp(d);
    } else if d == '<' {
      ChainAfterLt();
    } else if d == '>' {
      ChainAfterGt();
    } else if d == '"' {
      ChainAfterQuot();
    } else if d == '\'' {
      ChainAfterApos();
    } else {
      ChainOfPlain(d);
    }
  }

  lemma ChainConcat(a: string, b: string)
    ensures EscapeChain(a + b) == EscapeChain(a) + EscapeChain(b)
  {
    var amp := ReplaceAll(a + b, '&', "&amp;");
    ReplaceAllConcat(a, b, '&', "&amp;");
    var ampA := ReplaceAll(a, '&', "&amp;");
    var ampB := ReplaceAll(b, '&', "&amp;");
    ReplaceAllConcat(ampA, ampB, '<', "&lt;");
    var ltA := ReplaceAll(ampA, '<', "&lt;");
    var ltB := ReplaceAll(ampB, '<', "&lt;");
    ReplaceAllConcat(ltA, ltB, '>', "&gt;");
    var gtA := ReplaceAll(ltA, '>', "&gt;");
    var gtB := ReplaceAll(ltB, '>', "&gt;");
    ReplaceAllConcat(gtA, gtB, '"', "&quot;");
    var quotA := ReplaceAll(gtA, '"', "&quot;");
    var quotB := ReplaceAll(gtB, '"', "&quot;");
    ReplaceAllConcat(quotA, quotB, '\'', "&#039;");
  }

  /** Running the five replacements one after the other, `&` first, is the same as
      replacing every character by its entity in a single pass. */
  lemma {:induction false} ChainIsEach(s: string)
    ensures EscapeChain(s) == EscapeEach(s)
  {
    if |s| == 0 {
      assert EscapeChain(s) == [];
    } else {
      assert s == [s[0]] + s[1..];
      ChainConcat([s[0]], s[1..]);
      ChainOfChar(s[0]);
      ChainIsEach(s[1..]);
    }
  }

  /** Decoding reads an entity back as the character it stands for. */
  lemma UnescapeEntity(c: char, t: string)
    ensures Unescape(Entity(c) + t) == [c] + Unescape(t)
  {
    if c == '&' {
      UnescapeAmp(t);
    } else if c == '<' {
      UnescapeLt(t);
    } else if c == '>' {
      UnescapeGt(t);
    } else if c == '"' {
      UnescapeQuot(t);
    } else if c == '\'' {
      UnescapeApos(t);
    } else {
      UnescapePlain(c, t);
    }
  }

  lemma UnescapeAmp(t: string)
    ensures Unescape("&amp;" + t) == "&" + Unescape(t)
  {
    var e := "&amp;" + t;
    assert "&amp;" <= e && e[5..] == t;
  }

  lemma UnescapeLt(t: string)
    ensures Unescape("&lt;" + t) == "<" + Unescape(t)
  {
    var e := "&lt;" + t;
    assert e[1] == 'l' && e[..4] == "&lt;" && e[4..] == t;
  }

  lemma UnescapeGt(t: string)
    ensures Unescape("&gt;" + t) == ">" + Unescape(t)
  {
    var e := "&gt;" + t;
    assert e[1] == 'g' && e[..4] == "&gt;" && e[4..] == t;
  }

  lemma UnescapeQuot(t: string)
    ensures Unescape("&quot;" + t) == "\"" + Unescape(t)
  {
    var e := "&quot;" + t;
    assert e[1] == 'q' && e[..6] == "&quot;" && e[6..] == t;
  }

  lemma UnescapeApos(t: string)
    ensures Unescape("&#039;" + t) == "'" + Unescape(t)
  {
    var e := "&#039;" + t;
    assert e[1] == '#' && e[..6] == "&#039;" && e[6..] == t;
  }

  lemma UnescapePlain(c: char, t: string)
    requires c != '&'
    ensures Unescape([c] + t) == [c] + Unescape(t)
  {
    var e := [c] + t;
    assert e[0] == c && e[1..] == t;
  }

  lemma {:induction false} EscapeEachRoundTrip(s: string)
    ensures Unescape(EscapeEach(s)) == s
  {
    if |s| > 0 {
      EscapeEachRoundTrip(s[1..]);
      UnescapeEntity(s[0], EscapeEach(s[1..]));
      assert s == [s[0]] + s[1..];
    }
  }

  lemma {:induction false} EscapeEachNoMarkup(s: string)
    ensures forall k :: 0 <= k < |EscapeEach(s)| ==> !IsMarkup(EscapeEach(s)[k])
  {
    if |s| > 0 {
      var e := Entity(s[0]);
      var t := EscapeEach(s[1..]);
      EscapeEachNoMarkup(s[1..]);
      forall k | 0 <= k < |e + t| ensures !IsMarkup((e + t)[k]) {
        if k >= |e| {
          assert (e + t)[k] == t[k - |e|];
        }
      }
    }
  }

  lemma {:induction false} EscapeEachLength(s: string)
    ensures |EscapeEach(s)| >= |s|
    ensures |EscapeEach(s)| == |s| <==> forall k :: 0 <= k < |s| ==> !IsSpecial(s[k])
  {
    if |s| > 0 {
      EscapeEachLength(s[1..]);
      assert (forall k :: 0 <= k < |s| ==> !IsSpecial(s[k]))
         <==> !IsSpecial(s[0]) && (forall k :: 0 <= k < |s[1..]| ==> !IsSpecial(s[1..][k]));
    }
  }

  lemma {:induction false} EscapeEachPlain(s: string)
    requires forall k :: 0 <= k < |s| ==> !IsSpecial(s[k])
    ensures EscapeEach(s) == s
  {
    if |s| > 0 {
      EscapeEachPlain(s[1..]);
      assert s == [s[0]] + s[1..];
    }
  }

  lemma EscapeEachSpec(s: string)
    ensures Unescape(EscapeEach(s)) == s
    ensures forall k :: 0 <= k < |EscapeEach(s)| ==> !IsMarkup(EscapeEach(s)[k])
    ensures |EscapeEach(s)| >= |s|
    ensures EscapeEach(s) == s <==> forall k :: 0 <= k < |s| ==> !IsSpecial(s[k])
  {
    EscapeEachRoundTrip(s);
    EscapeEachNoMarkup(s);
    EscapeEachLength(s);
    if forall k :: 0 <= k < |s| ==> !IsSpecial(s[k]) {
      EscapeEachPlain(s);
    }
  }

  /** The properties of the replacement chain: no markup character survives, the
      original can be recovered, nothing gets shorter, and exactly the strings without
      special characters are left unchanged. */
  lemma EscapeHtmlSpec(s: string)
    ensures var r := EscapeChain(s);
      && (forall k :: 0 <= k < |r| ==> !IsMarkup(r[k]))
      && Unescape(r) == s
      && |r| >= |s|
      && (r == s <==> forall k :: 0 <= k < |s| ==> !IsSpecial(s[k]))
  {
    ChainIsEach(s);
    EscapeEachSpec(s);
  }

  /** Escaping never maps two different strings to the same text. */
  lemma EscapeInjective(a: string, b: string)
    requires EscapeChain(a) == EscapeChain(b)
    ensures a == b
  {
    EscapeHtmlSpec(a);
    EscapeHtmlSpec(b);
  }

  /** The two variants of the page helpers agree on every string; they differ only on a
      missing value, which the sales page renders as "" and the others reject. */
  lemma VariantsAgreeOnStrings(s: string)
    ensures EscapeHtmlUnguarded(Some(s)) == Success(EscapeHtmlGuarded(Some(s)))
  {
    if s == "" {
      assert EscapeChain(s) == "";
    }
  }
}
