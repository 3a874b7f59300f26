/**
 * The comment body sanitiser (`Comment._getProcessedContent`).
 *
 * Stage one escapes the five HTML-special characters by five chained global
 * replacements, `&` first. Stage two is one global, lazy regular-expression
 * replacement that turns every backtick span with at least one character
 * inside into `<code>…</code>`.
 */
module Sanitizer {
  import opened Wrappers

  // ---------------------------------------------------------------------------
  // Stage one: HTML escaping
  // ---------------------------------------------------------------------------

  /** No `<`, `>`, `"` or `'` occurs in `s`: nothing in it can open a tag or end an attribute. */
  predicate NoMarkup(s: string) {
    '<' !in s && '>' !in s && '"' !in s && '\'' !in s
  }

  /** One call `s.replace(/c/g, rep)`: every occurrence of `c`, left to right, becomes `rep`. */
  function ReplaceAll(s: string, c: char, rep: string): (r: string)
    ensures c !in rep ==> c !in r
    ensures c !in s ==> r == s
  {
    if s == [] then []
    else (if s[0] == c then rep else [s[0]]) + ReplaceAll(s[1..], c, rep)
  }

  /** The five replacements exactly as the source chains them, `&` first. */
  function EscapeChained(s: string): (r: string)
    ensures NoMarkup(r)
  {
    var s2 := ReplaceAll(ReplaceAll(s, '&', "&amp;"), '<', "&lt;");
    LaterStagesKeepMarkupOut(s2);
    ReplaceAll(ReplaceAll(ReplaceAll(s2, '>', "&gt;"), '"', "&quot;"), '\'', "&#039;")
  }

  /** Once `<` is gone, the last three replacements remove `>`, `"` and `'` without bringing `<` back. */
  lemma LaterStagesKeepMarkupOut(s2: string)
    requires '<' !in s2
    ensures NoMarkup(ReplaceAll(ReplaceAll(ReplaceAll(s2, '>', "&gt;"), '"', "&quot;"), '\'', "&#039;"))
  {
    EntitiesHoldNoMarkup();
    var s3 := ReplaceAll(s2, '>', "&gt;");
    ReplaceAllKeepsOut(s2, '>', "&gt;", '<');
    var s4 := ReplaceAll(s3, '"', "&quot;");
    ReplaceAllKeepsOut(s3, '"', "&quot;", '<');
    ReplaceAllKeepsOut(s3, '"', "&quot;", '>');
    ReplaceAllKeepsOut(s4, '\'', "&#039;", '<');
    ReplaceAllKeepsOut(s4, '\'', "&#039;", '>');
    ReplaceAllKeepsOut(s4, '\'', "&#039;", '"');
  }

  /** None of the inserted entities holds a character a later replacement looks for. */
  lemma EntitiesHoldNoMarkup()
    ensures '<' !in "&gt;" && '<' !in "&quot;" && '>' !in "&quot;"
    ensures '<' !in "&#039;" && '>' !in "&#039;" && '"' !in "&#039;"
    ensures '>' !in "&gt;" && '"' !in "&quot;" && '\'' !in "&#039;"
  {
  }

  /** A replacement brings in no character that neither the text nor the replacement holds. */
  lemma {:induction false} ReplaceAllKeepsOut(s: string, c: char, rep: string, x: char)
    requires x !in s && x !in rep
    ensures x !in ReplaceAll(s, c, rep)
  {
    if s != [] {
      assert x !in s[1..];
      ReplaceAllKeepsOut(s[1..], c, rep, x);
    }
  }

  /** The entity (or the character itself) that escaping puts in place of `c`. */
  function EscapeChar(c: char): string {
    match c
    case '&' => "&amp;"
    case '<' => "&lt;"
    case '>' => "&gt;"
    case '"' => "&quot;"
    case '\'' => "&#039;"
    case _ => [c]
  }

  /** Escaping as a per-character map. */
  function Escape(s: string): (r: string)
    ensures NoMarkup(r)
    ensures |r| >= |s|
  {
    if s == [] then [] else EscapeChar(s[0]) + Escape(s[1..])
  }

  /** `e` occurs in `r` starting at position `i`. */
  predicate PrefixAt(r: string, i: nat, e: string) {
    i + |e| <= |r| && r[i..i + |e|] == e
  }

  /** One of the five entities that escaping produces starts at position `i` of `r`. */
  predicate EntityAt(r: string, i: nat) {
    PrefixAt(r, i, "&amp;") || PrefixAt(r, i, "&lt;") || PrefixAt(r, i, "&gt;")
    || PrefixAt(r, i, "&quot;") || PrefixAt(r, i, "&#039;")
  }

  /** Decodes the five entities back to their characters; anything else is copied. */
  function Unescape(r: string): string
    decreases |r|
  {
    if r == [] then []
    else if PrefixAt(r, 0, "&amp;") then "&" + Unescape(r[5..])
    else if PrefixAt(r, 0, "&lt;") then "<" + Unescape(r[4..])
    else if PrefixAt(r, 0, "&gt;") then ">" + Unescape(r[4..])
    else if PrefixAt(r, 0, "&quot;") then "\"" + Unescape(r[6..])
    else if PrefixAt(r, 0, "&#039;") then "'" + Unescape(r[6..])
    else [r[0]] + Unescape(r[1..])
  }

  /** A global replacement distributes over concatenation. */
  lemma {:induction false} ReplaceAllConcat(a: string, b: string, c: char, rep: string)
    ensures ReplaceAll(a + b, c, rep) == ReplaceAll(a, c, rep) + ReplaceAll(b, c, rep)
  {
    if a == [] {
      assert a + b == b;
    } else {
      assert (a + b)[1..] == a[1..] + b;
      ReplaceAllConcat(a[1..], b, c, rep);
    }
  }

  /** The whole chain distributes over concatenation. */
  lemma EscapeChainedConcat(a: string, b: string)
    ensures EscapeChained(a + b) == EscapeChained(a) + EscapeChained(b)
  {
    var a1, b1 := ReplaceAll(a, '&', "&amp;"), ReplaceAll(b, '&', "&amp;");
    ReplaceAllConcat(a, b, '&', "&amp;");
    var a2, b2 := ReplaceAll(a1, '<', "&lt;"), ReplaceAll(b1, '<', "&lt;");
    ReplaceAllConcat(a1, b1, '<', "&lt;");
    var a3, b3 := ReplaceAll(a2, '>', "&gt;"), ReplaceAll(b2, '>', "&gt;");
    ReplaceAllConcat(a2, b2, '>', "&gt;");
    var a4, b4 := ReplaceAll(a3, '"', "&quot;"), ReplaceAll(b3, '"', "&quot;");
    ReplaceAllConcat(a3, b3, '"', "&quot;");
    ReplaceAllConcat(a4, b4, '\'', "&#039;");
  }

  /**
   * On a single character the chain agrees with the per-character map: an
   * entity inserted by an earlier replacement holds none of the characters a
   * later replacement looks for, because `&` is replaced first.
   */
  lemma ReplaceAllSingle(c: char, x: char, rep: string)
    ensures ReplaceAll([c], x, rep) == if c == x then rep else [c]
  {
    assert [c][1..] == [];
  }

  lemma EscapeChainedChar(c: char)
    ensures EscapeChained([c]) == EscapeChar(c)
  {
    ReplaceAllSingle(c, '&', "&amp;");
    if c == '&' {
      ReplaceAbsent("&amp;");
    } else {
      var s1 := ReplaceAll([c], '&', "&amp;");
      assert s1 == [c];
      ReplaceAllSingle(c, '<', "&lt;");
      var s2 := ReplaceAll(s1, '<', "&lt;");
      if c == '<' {
        assert s2 == "&lt;";
        assert ReplaceAll(ReplaceAll(ReplaceAll(s2, '>', "&gt;"), '"', "&quot;"), '\'', "&#039;") == s2 by {
          ReplaceAbsent("&lt;");
        }
      } else {
        assert s2 == [c];
        ReplaceAllSingle(c, '>', "&gt;");
        var s3 := ReplaceAll(s2, '>', "&gt;");
        if c == '>' {
          assert s3 == "&gt;";
          ReplaceAbsent("&gt;");
        } else {
          assert s3 == [c];
          ReplaceAllSingle(c, '"', "&quot;");
          ReplaceAllSingle(c, '\'', "&#039;");
          var s4 := ReplaceAll(s3, '"', "&quot;");
          if c == '"' {
            assert s4 == "&quot;";
            ReplaceAbsent("&quot;");
          } else {
            assert s4 == [c];
          }
        }
      }
    }
  }

  /** The replacements after the one that produced an entity leave it alone. */
  lemma ReplaceAbsent(e: string)
    requires NoMarkup(e)
    ensures ReplaceAll(ReplaceAll(ReplaceAll(ReplaceAll(
      e, '<', "&lt;"), '>', "&gt;"), '"', "&quot;"), '\'', "&#039;") == e
  {
  }

  /** The five chained replacements, `&` first, equal the per-character map. */
  lemma {:induction false} EscapeChainedIsEscape(s: string)
    ensures EscapeChained(s) == Escape(s)
  {
    if s != [] {
      assert s == [s[0]] + s[1..];
      EscapeChainedConcat([s[0]], s[1..]);
      EscapeChainedChar(s[0]);
      EscapeChainedIsEscape(s[1..]);
    }
  }

  lemma PrefixAtShift(p: string, r: string, i: nat, e: string)
    requires PrefixAt(r, i, e)
    ensures PrefixAt(p + r, |p| + i, e)
  {
    assert (p + r)[|p| + i..|p| + i + |e|] == r[i..i + |e|];
  }

  lemma EntityAtShift(p: string, r: string, i: nat)
    requires EntityAt(r, i)
    ensures EntityAt(p + r, |p| + i)
  {
    if PrefixAt(r, i, "&amp;") { PrefixAtShift(p, r, i, "&amp;"); }
    if PrefixAt(r, i, "&lt;") { PrefixAtShift(p, r, i, "&lt;"); }
    if PrefixAt(r, i, "&gt;") { PrefixAtShift(p, r, i, "&gt;"); }
    if PrefixAt(r, i, "&quot;") { PrefixAtShift(p, r, i, "&quot;"); }
    if PrefixAt(r, i, "&#039;") { PrefixAtShift(p, r, i, "&#039;"); }
  }

  /** Within the escape of one character, an `&` can only be the start of its entity. */
  lemma EscapeCharAmpersand(c: char, rest: string, i: nat)
    requires i < |EscapeChar(c)| && EscapeChar(c)[i] == '&'
    ensures EntityAt(EscapeChar(c) + rest, i)
  {
    var e := EscapeChar(c);
    assert i == 0;
    assert (e + rest)[0..|e|] == e;
  }

  /** After escaping, every `&` begins one of the five entities. */
  lemma {:induction false} EscapedAmpersandsBeginEntities(s: string)
    ensures forall i :: 0 <= i < |Escape(s)| && Escape(s)[i] == '&' ==> EntityAt(Escape(s), i)
  {
    if s != [] {
      var e, rest := EscapeChar(s[0]), Escape(s[1..]);
      assert Escape(s) == e + rest;
      EscapedAmpersandsBeginEntities(s[1..]);
      forall i | 0 <= i < |e + rest| && (e + rest)[i] == '&'
        ensures EntityAt(e + rest, i)
      {
        if i < |e| {
          EscapeCharAmpersand(s[0], rest, i);
        } else {
          EntityAtShift(e, rest, i - |e|);
        }
      }
    }
  }

  /** `e + rest` starts with `e` and continues with `rest`. */
  lemma PrefixSplit(e: string, rest: string)
    requires |e| > 0
    ensures PrefixAt(e + rest, 0, e) && (e + rest)[|e|..] == rest && (e + rest)[0] == e[0]
  {
    assert (e + rest)[0..|e|] == e;
  }

  /** A second character that differs rules out the entity `e` at the start of `r`. */
  lemma NotEntity(r: string, e: string)
    requires |e| >= 2 && |r| >= 2 && r[1] != e[1]
    ensures !PrefixAt(r, 0, e)
  {
    assert |r| < |e| || r[0..|e|][1] == r[1];
  }

  lemma UnescapeAmp(rest: string)
    ensures Unescape("&amp;" + rest) == "&" + Unescape(rest)
  {
    var r := "&amp;" + rest;
    PrefixSplit("&amp;", rest);
  }

  lemma UnescapeLt(rest: string)
    ensures Unescape("&lt;" + rest) == "<" + Unescape(rest)
  {
    var r := "&lt;" + rest;
    PrefixSplit("&lt;", rest);
    NotEntity(r, "&amp;");
  }

  lemma UnescapeGt(rest: string)
    ensures Unescape("&gt;" + rest) == ">" + Unescape(rest)
  {
    var r := "&gt;" + rest;
    PrefixSplit("&gt;", rest);
    NotEntity(r, "&amp;");
    NotEntity(r, "&lt;");
  }

  lemma UnescapeQuot(rest: string)
    ensures Unescape("&quot;" + rest) == "\"" + Unescape(rest)
  {
    var r := "&quot;" + rest;
    PrefixSplit("&quot;", rest);
    NotEntity(r, "&amp;");
    NotEntity(r, "&lt;");
    NotEntity(r, "&gt;");
  }

  lemma UnescapeApos(rest: string)
    ensures Unescape("&#039;" + rest) == "'" + Unescape(rest)
  {
    var r := "&#039;" + rest;
    PrefixSplit("&#039;", rest);
    NotEntity(r, "&amp;");
    NotEntity(r, "&lt;");
    NotEntity(r, "&gt;");
    NotEntity(r, "&quot;");
  }

  lemma UnescapeEscapeChar(c: char, rest: string)
    ensures Unescape(EscapeChar(c) + rest) == [c] + Unescape(rest)
  {
    match c
    case '&' => UnescapeAmp(rest);
    case '<' => UnescapeLt(rest);
    case '>' => UnescapeGt(rest);
    case '"' => UnescapeQuot(rest);
    case '\'' => UnescapeApos(rest);
    case _ => UnescapeOther(c, rest);
  }

  lemma UnescapeOther(c: char, rest: string)
    requires c != '&'
    ensures Unescape([c] + rest) == [c] + Unescape(rest)
  {
    PrefixSplit([c], rest);
    assert ([c] + rest)[0] != '&';
  }

  /** Escaping loses nothing: decoding the entities gives the original text back. */
  lemma {:induction false} UnescapeEscape(s: string)
    ensures Unescape(Escape(s)) == s
  {
    if s != [] {
      UnescapeEscapeChar(s[0], Escape(s[1..]));
      UnescapeEscape(s[1..]);
      assert [s[0]] + s[1..] == s;
    }
  }

  // ---------------------------------------------------------------------------
  // Stage two: inline code spans, `/`([\S\s]+?)`/g` → `<code>$1</code>`
  // ---------------------------------------------------------------------------

  /** The first backtick in `s` at or after position `from`, if any. */
  function FindTick(s: string, from: nat): (j: Option<nat>)
    decreases |s| - from
    ensures j.Some? ==> from <= j.value < |s| && s[j.value] == '`'
    ensures j.Some? ==> forall k :: from <= k < j.value ==> s[k] != '`'
    ensures j.None? ==> forall k :: from <= k < |s| ==> s[k] != '`'
  {
    if from >= |s| then None
    else if s[from] == '`' then Some(from)
    else FindTick(s, from + 1)
  }

  /**
   * The global lazy replacement. A match starts at a backtick and closes at the
   * nearest backtick at least two positions further on, so the captured text is
   * never empty; scanning resumes after the closing backtick. Where no match
   * starts, the character is copied and scanning moves one position on.
   */
  function WrapCode(s: string): (r: string)
    decreases |s|
  {
    if s == [] then []
    else if s[0] == '`' && FindTick(s, 2).Some? then
      var j := FindTick(s, 2).value;
      "<code>" + s[1..j] + "</code>" + WrapCode(s[j + 1..])
    else [s[0]] + WrapCode(s[1..])
  }

  /** The inserted tags hold no quotes, so the code pass adds none. */
  lemma {:induction false} WrapCodeKeepsQuotesOut(s: string, q: char)
    requires q == '"' || q == '\''
    requires q !in s
    ensures q !in WrapCode(s)
    decreases |s|
  {
    if s == [] {
    } else if s[0] == '`' && FindTick(s, 2).Some? {
      var j := FindTick(s, 2).value;
      assert q !in s[1..j] && q !in s[j + 1..];
      WrapCodeKeepsQuotesOut(s[j + 1..], q);
    } else {
      assert q !in s[1..];
      WrapCodeKeepsQuotesOut(s[1..], q);
    }
  }

  /** Positions `i` and `j` hold backticks with at least one character between them. */
  predicate SpanAt(s: string, i: nat, j: nat) {
    i + 2 <= j < |s| && s[i] == '`' && s[j] == '`'
  }

  predicate HasSpan(s: string) {
    exists i: nat, j: nat :: i < j < |s| && SpanAt(s, i, j)
  }

  /** Turns each `<code>` and `</code>` tag back into a backtick; anything else is copied. */
  function Unwrap(r: string): string
    decreases |r|
  {
    if r == [] then []
    else if PrefixAt(r, 0, "<code>") then "`" + Unwrap(r[6..])
    else if PrefixAt(r, 0, "</code>") then "`" + Unwrap(r[7..])
    else [r[0]] + Unwrap(r[1..])
  }

  /**
   * The whole sanitiser: escape first, then wrap code spans. No quote reaches
   * the page, escaped text without a span is shown as it is, and the sanitiser
   * is injective: decoding the tags and then the entities gives the comment back.
   */
  function ProcessContent(content: string): (r: string)
    ensures '"' !in r && '\'' !in r
    ensures !HasSpan(Escape(content)) ==> r == Escape(content)
    ensures Unescape(Unwrap(r)) == content
  {
    WrapCodeKeepsQuotesOut(Escape(content), '"');
    WrapCodeKeepsQuotesOut(Escape(content), '\'');
    UnwrapWrapCode(Escape(content));
    UnescapeEscape(content);
    WrapCodeUnchangedIffNoSpan(Escape(content));
    WrapCode(Escape(content))
  }

  lemma {:induction false} UnwrapPlain(a: string, b: string)
    requires '<' !in a
    ensures Unwrap(a + b) == a + Unwrap(b)
  {
    if a == [] {
      assert a + b == b;
    } else {
      var r := a + b;
      assert r[0] == a[0];
      assert r[1..] == a[1..] + b;
      UnwrapPlain(a[1..], b);
    }
  }

  /** Reading back one span: `<code>inner</code>` becomes `` `inner` ``. */
  lemma UnwrapSpan(inner: string, rest: string)
    requires '<' !in inner
    ensures Unwrap("<code>" + inner + "</code>" + rest) == "`" + inner + "`" + Unwrap(rest)
  {
    var r := "<code>" + inner + "</code>" + rest;
    assert r[0..6] == "<code>";
    assert r[6..] == inner + ("</code>" + rest);
    UnwrapPlain(inner, "</code>" + rest);
    var t := "</code>" + rest;
    assert t[0..7] == "</code>";
    assert t[1] == '/';
    assert t[7..] == rest;
  }

  /**
   * On text without `<` (as escaped text always is), the tags can be read back:
   * text outside the spans, and inside them, keeps its order and content, and
   * only the delimiting backticks are replaced.
   */
  lemma {:induction false} UnwrapWrapCode(s: string)
    requires '<' !in s
    ensures Unwrap(WrapCode(s)) == s
  {
    if s == [] {
    } else if s[0] == '`' && FindTick(s, 2).Some? {
      var j := FindTick(s, 2).value;
      assert '<' !in s[1..j];
      UnwrapSpan(s[1..j], WrapCode(s[j + 1..]));
      UnwrapWrapCode(s[j + 1..]);
      assert s == "`" + s[1..j] + "`" + s[j + 1..];
    } else {
      UnwrapPlain([s[0]], WrapCode(s[1..]));
      UnwrapWrapCode(s[1..]);
      assert [s[0]] + s[1..] == s;
    }
  }

  /** Where no match can start, the first character is copied and the rest has the same spans. */
  lemma HasSpanTail(s: string)
    requires s != [] && !(s[0] == '`' && FindTick(s, 2).Some?)
    ensures HasSpan(s) <==> HasSpan(s[1..])
  {
    if HasSpan(s) {
      var i: nat, j: nat :| i < j < |s| && SpanAt(s, i, j);
      if i > 0 {
        assert SpanAt(s[1..], i - 1, j - 1);
      }
    }
    if HasSpan(s[1..]) {
      var i: nat, j: nat :| i < j < |s[1..]| && SpanAt(s[1..], i, j);
      assert SpanAt(s, i + 1, j + 1);
    }
  }

  /**
   * On escaped text the code stage changes nothing exactly when there is no
   * pair of backticks with something between them: a lone backtick or an
   * empty pair is left as it is.
   */
  lemma {:induction false} WrapCodeUnchangedIffNoSpan(s: string)
    ensures WrapCode(s) == s <==> !HasSpan(s)
  {
    if s == [] {
    } else if s[0] == '`' && FindTick(s, 2).Some? {
      var j := FindTick(s, 2).value;
      assert SpanAt(s, 0, j);
      assert WrapCode(s)[0] == '<';
    } else {
      HasSpanTail(s);
      WrapCodeUnchangedIffNoSpan(s[1..]);
      assert WrapCode(s) == [s[0]] + WrapCode(s[1..]);
      assert s == [s[0]] + s[1..];
      if WrapCode(s) == s {
        assert WrapCode(s)[1..] == s[1..];
      }
    }
  }

  /** Text with no backtick passes through the code stage unchanged, in front of whatever follows. */
  lemma {:induction false} WrapCodePlainPrefix(p: string, q: string)
    requires '`' !in p
    ensures WrapCode(p + q) == p + WrapCode(q)
  {
    if p == [] {
      assert p + q == q;
    } else {
      var s := p + q;
      assert s[0] == p[0];
      assert s[1..] == p[1..] + q;
      WrapCodePlainPrefix(p[1..], q);
    }
  }

  /**
   * The first span: a backtick, a non-empty `inner` whose only possible
   * backtick is its first character, and the nearest closing backtick after
   * it become `<code>inner</code>`; the text before it is kept and the code
   * stage goes on after the closing backtick.
   */
  lemma FirstSpan(p: string, inner: string, q: string)
    requires '`' !in p
    requires |inner| >= 1 && '`' !in inner[1..]
    ensures WrapCode(p + "`" + inner + "`" + q) == p + "<code>" + inner + "</code>" + WrapCode(q)
  {
    var s := "`" + inner + "`" + q;
    var j := |inner| + 1;
    assert s[j] == '`';
    forall k | 2 <= k < j ensures s[k] != '`' {
      assert s[k] == inner[1..][k - 2];
    }
    assert FindTick(s, 2) == Some(j);
    assert s[1..j] == inner;
    assert s[j + 1..] == q;
    assert p + "`" + inner + "`" + q == p + s;
    WrapCodePlainPrefix(p, s);
  }

  lemma EscapeCons(c: char, s: string)
    ensures Escape([c] + s) == EscapeChar(c) + Escape(s)
  {
    assert ([c] + s)[1..] == s;
  }

  /** The five special characters each become their entity, in order. */
  lemma EscapeExample()
    ensures Escape("<b>&\"'") == "&lt;" + ("b" + ("&gt;" + ("&amp;" + ("&quot;" + "&#039;"))))
  {
    EscapeCons('\'', []);
    assert Escape("'") == "&#039;";
    EscapeCons('"', "'");
    EscapeCons('&', "\"'");
    EscapeCons('>', "&\"'");
    EscapeCons('b', ">&\"'");
    assert EscapeChar('b') == "b";
    EscapeCons('<', "b>&\"'");
  }

  /** Escaping happens before wrapping: markup inside a span is escaped, then wrapped. */
  lemma ProcessContentExample()
    ensures ProcessContent("`<`") == "<code>&lt;</code>"
  {
    EscapeTickExample();
    FirstSpan([], "&lt;", []);
    assert "`" + ("&lt;" + "`") == [] + "`" + "&lt;" + "`" + [];
    assert [] + "<code>" + "&lt;" + "</code>" + WrapCode([]) == "<code>&lt;</code>";
  }

  lemma EscapeTickExample()
    ensures Escape("`<`") == "`" + ("&lt;" + "`")
  {
    EscapeCons('`', []);
    EscapeCons('<', "`");
    EscapeCons('`', "<`");
  }
}
