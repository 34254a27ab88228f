/** `escapeHtml` from the catalog script: five global replacements, `&` first,
    together with a per-character reference definition and the decoder that
    undoes it. */
module Escape {

  /** `s.replace(/c/g, rep)`: every occurrence of the character `c` becomes `rep`. */
  function ReplaceAll(s: string, c: char, rep: string): (r: string)
    ensures c !in rep ==> c !in r
  {
    if |s| == 0 then []
    else (if s[0] == c then rep else [s[0]]) + ReplaceAll(s[1..], c, rep)
  }

  /** `escapeHtml(text)` as written: empty input gives `''`, otherwise the
      replacement chain `&`, `<`, `>`, `"`, `'`. */
  function EscapeHtml(text: string): string {
    if |text| == 0 then ""
    else ReplaceAll(ReplaceAll(ReplaceAll(ReplaceAll(ReplaceAll(
           text, '&', "&amp;"), '<', "&lt;"), '>', "&gt;"), '"', "&quot;"), '\'', "&#039;")
  }

  /** What one input character turns into. */
  function EscapeChar(c: char): string {
    match c
    case '&' => "&amp;"
    case '<' => "&lt;"
    case '>' => "&gt;"
    case '"' => "&quot;"
    case '\'' => "&#039;"
    case _ => [c]
  }

  /** Reference definition: each character escaped on its own, in order. */
  function EscapeEach(s: string): string {
    if |s| == 0 then [] else EscapeChar(s[0]) + EscapeEach(s[1..])
  }

  predicate IsMeta(c: char) {
    c == '<' || c == '>' || c == '"' || c == '\''
  }

  predicate HasPrefix(s: string, p: string) {
    |p| <= |s| && s[..|p|] == p
  }

  /** Position `i` of `s` starts one of the five entities `escapeHtml` emits. */
  predicate EntityAt(s: string, i: nat)
    requires i <= |s|
  {
    var t := s[i..];
    HasPrefix(t, "&amp;") || HasPrefix(t, "&lt;") || HasPrefix(t, "&gt;")
    || HasPrefix(t, "&quot;") || HasPrefix(t, "&#039;")
  }

  /** Replaces each of the five entities by the character it stands for. */
  function Unescape(s: string): string
    decreases |s|
  {
    if |s| == 0 then []
    else if HasPrefix(s, "&amp;") then "&" + Unescape(s[5..])
    else if HasPrefix(s, "&lt;") then "<" + Unescape(s[4..])
    else if HasPrefix(s, "&gt;") then ">" + Unescape(s[4..])
    else if HasPrefix(s, "&quot;") then "\"" + Unescape(s[6..])
    else if HasPrefix(s, "&#039;") then "'" + Unescape(s[6..])
    else [s[0]] + Unescape(s[1..])
  }

  lemma {:induction false} ReplaceAllAppend(a: string, b: string, c: char, rep: string)
    ensures ReplaceAll(a + b, c, rep) == ReplaceAll(a, c, rep) + ReplaceAll(b, c, rep)
    decreases |a|
  {
    if |a| > 0 {
      assert (a + b)[1..] == a[1..] + b;
      ReplaceAllAppend(a[1..], b, c, rep);
    } else {
      assert a + b == b;
    }
  }

  lemma {:induction false} ReplaceAllAbsent(s: string, c: char, rep: string)
    requires c !in s
    ensures ReplaceAll(s, c, rep) == s
    decreases |s|
  {
    if |s| > 0 {
      ReplaceAllAbsent(s[1..], c, rep);
    }
  }

  lemma ReplaceAllSingle(d: char, c: char, rep: string)
    ensures ReplaceAll([d], c, rep) == if d == c then rep else [d]
  {
    assert [d][1..] == [];
  }

  /** The replacement chain without the empty-input guard. */
  function Chain(s: string): string {
    ReplaceAll(ReplaceAll(ReplaceAll(ReplaceAll(ReplaceAll(
      s, '&', "&amp;"), '<', "&lt;"), '>', "&gt;"), '"', "&quot;"), '\'', "&#039;")
  }

  lemma ChainAppend(a: string, b: string)
    ensures Chain(a + b) == Chain(a) + Chain(b)
  {
    var a1, b1 := ReplaceAll(a, '&', "&amp;"), ReplaceAll(b, '&', "&amp;");
    ReplaceAllAppend(a, b, '&', "&amp;");
    var a2, b2 := ReplaceAll(a1, '<', "&lt;"), ReplaceAll(b1, '<', "&lt;");
    ReplaceAllAppend(a1, b1, '<', "&lt;");
    var a3, b3 := ReplaceAll(a2, '>', "&gt;"), ReplaceAll(b2, '>', "&gt;");
    ReplaceAllAppend(a2, b2, '>', "&gt;");
    var a4, b4 := ReplaceAll(a3, '"', "&quot;"), ReplaceAll(b3, '"', "&quot;");
    ReplaceAllAppend(a3, b3, '"', "&quot;");
    ReplaceAllAppend(a4, b4, '\'', "&#039;");
  }

  /** The last four steps of the chain leave `t` alone when it holds none of `<`, `>`, `"`, `'`. */
  lemma ChainTailAbsent(t: string)
    requires '<' !in t && '>' !in t && '"' !in t && '\'' !in t
    ensures ReplaceAll(ReplaceAll(ReplaceAll(ReplaceAll(
              t, '<', "&lt;"), '>', "&gt;"), '"', "&quot;"), '\'', "&#039;") == t
  {
    ReplaceAllAbsent(t, '<', "&lt;");
    ReplaceAllAbsent(t, '>', "&gt;");
    ReplaceAllAbsent(t, '"', "&quot;");
    ReplaceAllAbsent(t, '\'', "&#039;");
  }

  // No replacement text contains a character replaced after it, so on a
  // single character only the step for that character changes anything.

  lemma ChainAmp()
    ensures Chain("&") == "&amp;"
  {
    var s1 := ReplaceAll("&", '&', "&amp;");
    assert s1 == "&amp;" by { ReplaceAllSingle('&', '&', "&amp;"); }
    ChainTailAbsent(s1);
  }

  lemma ChainLt()
    ensures Chain("<") == "&lt;"
  {
    var s1 := ReplaceAll("<", '&', "&amp;");
    assert s1 == "<" by { ReplaceAllSingle('<', '&', "&amp;"); }
    var s2 := ReplaceAll(s1, '<', "&lt;");
    assert s2 == "&lt;" by { ReplaceAllSingle('<', '<', "&lt;"); }
    var s3 := ReplaceAll(s2, '>', "&gt;");
    assert s3 == s2 by { ReplaceAllAbsent(s2, '>', "&gt;"); }
    var s4 := ReplaceAll(s3, '"', "&quot;");
    assert s4 == s3 by { ReplaceAllAbsent(s3, '"', "&quot;"); }
    var s5 := ReplaceAll(s4, '\'', "&#039;");
    assert s5 == s4 by { ReplaceAllAbsent(s4, '\'', "&#039;"); }
  }

  lemma ChainGt()
    ensures Chain(">") == "&gt;"
  {
    var s1 := ReplaceAll(">", '&', "&amp;");
    assert s1 == ">" by { ReplaceAllSingle('>', '&', "&amp;"); }
    var s2 := ReplaceAll(s1, '<', "&lt;");
    assert s2 == ">" by { ReplaceAllSingle('>', '<', "&lt;"); }
    var s3 := ReplaceAll(s2, '>', "&gt;");
    assert s3 == "&gt;" by { ReplaceAllSingle('>', '>', "&gt;"); }
    var s4 := ReplaceAll(s3, '"', "&quot;");
    assert s4 == s3 by { ReplaceAllAbsent(s3, '"', "&quot;"); }
    var s5 := ReplaceAll(s4, '\'', "&#039;");
    assert s5 == s4 by { ReplaceAllAbsent(s4, '\'', "&#039;"); }
  }

  lemma ChainQuot()
    ensures Chain("\"") == "&quot;"
  {
    var s1 := ReplaceAll("\"", '&', "&amp;");
    assert s1 == "\"" by { ReplaceAllSingle('"', '&', "&amp;"); }
    var s2 := ReplaceAll(s1, '<', "&lt;");
    assert s2 == "\"" by { ReplaceAllSingle('"', '<', "&lt;"); }
    var s3 := ReplaceAll(s2, '>', "&gt;");
    assert s3 == "\"" by { ReplaceAllSingle('"', '>', "&gt;"); }
    var s4 := ReplaceAll(s3, '"', "&quot;");
    assert s4 == "&quot;" by { ReplaceAllSingle('"', '"', "&quot;"); }
    var s5 := ReplaceAll(s4, '\'', "&#039;");
    assert s5 == s4 by { ReplaceAllAbsent(s4, '\'', "&#039;"); }
  }

  lemma ChainApos()
    ensures Chain("'") == "&#039;"
  {
    var s1 := ReplaceAll("'", '&', "&amp;");
    assert s1 == "'" by { ReplaceAllSingle('\'', '&', "&amp;"); }
    var s2 := ReplaceAll(s1, '<', "&lt;");
    assert s2 == "'" by { ReplaceAllSingle('\'', '<', "&lt;"); }
    var s3 := ReplaceAll(s2, '>', "&gt;");
    assert s3 == "'" by { ReplaceAllSingle('\'', '>', "&gt;"); }
    var s4 := ReplaceAll(s3, '"', "&quot;");
    assert s4 == "'" by { ReplaceAllSingle('\'', '"', "&quot;"); }
    var s5 := ReplaceAll(s4, '\'', "&#039;");
    assert s5 == "&#039;" by { ReplaceAllSingle('\'', '\'', "&#039;"); }
  }

  lemma ChainPlain(c: char)
    requires c != '&' && !IsMeta(c)
    ensures Chain([c]) == [c]
  {
    var s1 := ReplaceAll([c], '&', "&amp;");
    assert s1 == [c] by { ReplaceAllSingle(c, '&', "&amp;"); }
    var s2 := ReplaceAll(s1, '<', "&lt;");
    assert s2 == [c] by { ReplaceAllSingle(c, '<', "&lt;"); }
    var s3 := ReplaceAll(s2, '>', "&gt;");
    assert s3 == [c] by { ReplaceAllSingle(c, '>', "&gt;"); }
    var s4 := ReplaceAll(s3, '"', "&quot;");
    assert s4 == [c] by { ReplaceAllSingle(c, '"', "&quot;"); }
    var s5 := ReplaceAll(s4, '\'', "&#039;");
    assert s5 == [c] by { ReplaceAllSingle(c, '\'', "&#039;"); }
  }

  lemma ChainOneChar(c: char)
    ensures Chain([c]) == EscapeChar(c)
  {
    if c == '&' {
      ChainAmp();
    } else if c == '<' {
      ChainLt();
    } else if c == '>' {
      ChainGt();
    } else if c == '"' {
      ChainQuot();
    } else if c == '\'' {
      ChainApos();
    } else {
      ChainPlain(c);
    }
  }

  /** The replacement chain escapes every character independently: `&` being
      replaced first is what keeps the later entities from being re-escaped. */
  lemma {:induction false} EscapeHtmlIsEscapeEach(s: string)
    ensures EscapeHtml(s) == EscapeEach(s)
    decreases |s|
  {
    if |s| > 0 {
      assert s == [s[0]] + s[1..];
      ChainAppend([s[0]], s[1..]);
      ChainOneChar(s[0]);
      EscapeHtmlIsEscapeEach(s[1..]);
      if |s[1..]| == 0 {
        assert Chain(s[1..]) == [];
      }
    }
  }

  /** The output of `escapeHtml` holds none of `<`, `>`, `"`, `'`. */
  lemma {:induction false} EscapeNoMeta(s: string)
    ensures forall i :: 0 <= i < |EscapeHtml(s)| ==> !IsMeta(EscapeHtml(s)[i])
  {
    EscapeHtmlIsEscapeEach(s);
    EscapeEachNoMeta(s);
  }

  lemma {:induction false} EscapeEachNoMeta(s: string)
    ensures forall i :: 0 <= i < |EscapeEach(s)| ==> !IsMeta(EscapeEach(s)[i])
    decreases |s|
  {
    if |s| > 0 {
      EscapeEachNoMeta(s[1..]);
      var h := EscapeChar(s[0]);
      assert forall i :: 0 <= i < |h| ==> !IsMeta(h[i]);
      assert EscapeEach(s) == h + EscapeEach(s[1..]);
    }
  }

  /** Every `&` in the output of `escapeHtml` starts one of the five entities. */
  lemma {:induction false} EscapeAmpersandsStartEntities(s: string)
    ensures forall i :: 0 <= i < |EscapeHtml(s)| && EscapeHtml(s)[i] == '&' ==> EntityAt(EscapeHtml(s), i)
  {
    EscapeHtmlIsEscapeEach(s);
    EscapeEachAmpersands(s);
  }

  lemma {:induction false} EscapeEachAmpersands(s: string)
    ensures forall i :: 0 <= i < |EscapeEach(s)| && EscapeEach(s)[i] == '&' ==> EntityAt(EscapeEach(s), i)
    decreases |s|
  {
    if |s| > 0 {
      EscapeEachAmpersands(s[1..]);
      var h, t := EscapeChar(s[0]), EscapeEach(s[1..]);
      var r := EscapeEach(s);
      assert r == h + t;
      forall i | 0 <= i < |r| && r[i] == '&' ensures EntityAt(r, i) {
        if i < |h| {
          assert i == 0;
          assert r[0..] == h + t;
        } else {
          assert r[i..] == t[i - |h|..];
          assert EntityAt(t, i - |h|);
        }
      }
    }
  }

  lemma UnescapeStep(c: char, rest: string)
    ensures Unescape(EscapeChar(c) + rest) == [c] + Unescape(rest)
  {
    if c == '&' {
      UnescapeAmp(rest);
    } else if c == '<' {
      UnescapeLt(rest);
    } else if c == '>' {
      UnescapeGt(rest);
    } else if c == '"' {
      UnescapeQuot(rest);
    } else if c == '\'' {
      UnescapeApos(rest);
    } else {
      UnescapePlain(c, rest);
    }
  }

  lemma UnescapeAmp(rest: string)
    ensures Unescape("&amp;" + rest) == "&" + Unescape(rest)
  {
    var s := "&amp;" + rest;
    assert s[..5] == "&amp;" && s[5..] == rest;
  }

  lemma UnescapeLt(rest: string)
    ensures Unescape("&lt;" + rest) == "<" + Unescape(rest)
  {
    var s := "&lt;" + rest;
    assert s[..4] == "&lt;" && s[4..] == rest;
    assert !HasPrefix(s, "&amp;") by { assert s[1] == 'l'; }
  }

  lemma UnescapeGt(rest: string)
    ensures Unescape("&gt;" + rest) == ">" + Unescape(rest)
  {
    var s := "&gt;" + rest;
    assert s[..4] == "&gt;" && s[4..] == rest;
    assert s[1] == 'g';
    assert !HasPrefix(s, "&amp;") && !HasPrefix(s, "&lt;");
  }

  lemma UnescapeQuot(rest: string)
    ensures Unescape("&quot;" + rest) == "\"" + Unescape(rest)
  {
    var s := "&quot;" + rest;
    assert s[..6] == "&quot;" && s[6..] == rest;
    assert s[1] == 'q';
    assert !HasPrefix(s, "&amp;") && !HasPrefix(s, "&lt;") && !HasPrefix(s, "&gt;");
  }

  lemma UnescapeApos(rest: string)
    ensures Unescape("&#039;" + rest) == "'" + Unescape(rest)
  {
    var s := "&#039;" + rest;
    assert s[..6] == "&#039;" && s[6..] == rest;
    assert s[1] == '#';
    assert !HasPrefix(s, "&amp;") && !HasPrefix(s, "&lt;") && !HasPrefix(s, "&gt;");
    assert !HasPrefix(s, "&quot;");
  }

  lemma UnescapePlain(c: char, rest: string)
    requires c != '&'
    ensures Unescape([c] + rest) == [c] + Unescape(rest)
  {
    var s := [c] + rest;
    assert s[0] == c && s[1..] == rest;
    assert !HasPrefix(s, "&amp;") && !HasPrefix(s, "&lt;") && !HasPrefix(s, "&gt;");
    assert !HasPrefix(s, "&quot;") && !HasPrefix(s, "&#039;");
  }

  /** Decoding the five entities gives back the original text. */
  lemma {:induction false} UnescapeEscapeHtml(s: string)
    ensures Unescape(EscapeHtml(s)) == s
    decreases |s|
  {
    EscapeHtmlIsEscapeEach(s);
    if |s| > 0 {
      UnescapeEscapeHtml(s[1..]);
      EscapeHtmlIsEscapeEach(s[1..]);
      UnescapeStep(s[0], EscapeEach(s[1..]));
      assert [s[0]] + s[1..] == s;
    }
  }

  /** `escapeHtml('')` is `''`, and escaping never shortens the text. */
  lemma {:induction false} EscapeHtmlLength(s: string)
    ensures |s| == 0 ==> EscapeHtml(s) == ""
    ensures |EscapeHtml(s)| >= |s|
    decreases |s|
  {
    EscapeHtmlIsEscapeEach(s);
    if |s| > 0 {
      EscapeHtmlLength(s[1..]);
      EscapeHtmlIsEscapeEach(s[1..]);
    }
  }

}
