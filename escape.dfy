/**
  The two string escapers of the transposer: `escape_html` for cell text and
  `escape_attr_value` for attribute values. Both are chains of literal
  one-character replacements; the ampersand is replaced first so that the
  ampersands introduced by later entities are not escaped again.
*/
module Escape {

  /** Every occurrence of `c` in `s` replaced by `rep` (a literal replace, no pattern language). */
  function Replace(s: string, c: char, rep: string): string
  {
    if s == [] then []
    else (if s[0] == c then rep else [s[0]]) + Replace(s[1..], c, rep)
  }

  /**
    A replacement leaves only characters of `rep` and characters of `s` other than
    `c`; without `c` in `s` it changes nothing.
  */
  lemma {:induction false} ReplaceChars(s: string, c: char, rep: string)
    ensures forall d :: d in Replace(s, c, rep) ==> d in rep || (d in s && d != c)
    ensures c !in s ==> Replace(s, c, rep) == s
  {
    if s != [] {
      ReplaceChars(s[1..], c, rep);
      assert forall d :: d in s[1..] ==> d in s;
    }
  }

  lemma {:induction false} ReplaceAppend(a: string, b: string, c: char, rep: string)
    ensures Replace(a + b, c, rep) == Replace(a, c, rep) + Replace(b, c, rep)
  {
    if a == [] {
      assert a + b == b;
    } else {
      assert (a + b)[0] == a[0];
      assert (a + b)[1..] == a[1..] + b;
      ReplaceAppend(a[1..], b, c, rep);
    }
  }

  lemma ReplaceSingle(ch: char, c: char, rep: string)
    ensures Replace([ch], c, rep) == if ch == c then rep else [ch]
  {
    assert [ch][1..] == [];
  }

  // ---------------------------------------------------------------- text

  /** Text escaping: `&`, `<`, `>`, `"` and `'`, replaced in that order. */
  function EscapeHtml(s: string): string
  {
    Replace(Replace(Replace(Replace(Replace(s, '&', "&amp;"), '<', "&lt;"), '>', "&gt;"), '"', "&quot;"), '\'', "&apos;")
  }

  /** Escaped text contains none of `<`, `>`, `"` and `'`. */
  lemma EscapeHtmlSafe(s: string)
    ensures var r := EscapeHtml(s); '<' !in r && '>' !in r && '"' !in r && '\'' !in r
  {
    var s1 := Replace(s, '&', "&amp;");
    var s2 := Replace(s1, '<', "&lt;");
    var s3 := Replace(s2, '>', "&gt;");
    var s4 := Replace(s3, '"', "&quot;");
    ReplaceRemoves(s1, '<', "&lt;");
    ReplaceKeepsOut(s2, '>', "&gt;", '<');
    ReplaceRemoves(s2, '>', "&gt;");
    ReplaceKeepsOut(s3, '"', "&quot;", '<');
    ReplaceKeepsOut(s3, '"', "&quot;", '>');
    ReplaceRemoves(s3, '"', "&quot;");
    ReplaceKeepsOut(s4, '\'', "&apos;", '<');
    ReplaceKeepsOut(s4, '\'', "&apos;", '>');
    ReplaceKeepsOut(s4, '\'', "&apos;", '"');
    ReplaceRemoves(s4, '\'', "&apos;");
  }

  /** A replacement that does not itself contain `c` removes every `c`. */
  lemma ReplaceRemoves(s: string, c: char, rep: string)
    requires c !in rep
    ensures c !in Replace(s, c, rep)
  {
    ReplaceChars(s, c, rep);
  }

  /** A character in neither the text nor the replacement is not in the result. */
  lemma ReplaceKeepsOut(s: string, c: char, rep: string, d: char)
    requires d !in s && d !in rep
    ensures d !in Replace(s, c, rep)
  {
    ReplaceChars(s, c, rep);
  }

  /** Text without any of the five special characters is left as it is. */
  lemma EscapeHtmlPlain(s: string)
    requires '&' !in s && '<' !in s && '>' !in s && '"' !in s && '\'' !in s
    ensures EscapeHtml(s) == s
  {
    ReplaceChars(s, '&', "&amp;");
    KeepsAfterAmp(s);
  }

  /** What `EscapeHtml` makes of a single character. */
  function EscapeHtmlChar(ch: char): string
  {
    match ch
    case '&' => "&amp;"
    case '<' => "&lt;"
    case '>' => "&gt;"
    case '"' => "&quot;"
    case '\'' => "&apos;"
    case _ => [ch]
  }

  /** Character-by-character escaping, the reference the replace chain is compared with. */
  function EscapeHtmlByChar(s: string): string
  {
    if s == [] then [] else EscapeHtmlChar(s[0]) + EscapeHtmlByChar(s[1..])
  }

  lemma EscapeHtmlAppend(a: string, b: string)
    ensures EscapeHtml(a + b) == EscapeHtml(a) + EscapeHtml(b)
  {
    var s1a, s1b := Replace(a, '&', "&amp;"), Replace(b, '&', "&amp;");
    ReplaceAppend(a, b, '&', "&amp;");
    var s2a, s2b := Replace(s1a, '<', "&lt;"), Replace(s1b, '<', "&lt;");
    ReplaceAppend(s1a, s1b, '<', "&lt;");
    var s3a, s3b := Replace(s2a, '>', "&gt;"), Replace(s2b, '>', "&gt;");
    ReplaceAppend(s2a, s2b, '>', "&gt;");
    var s4a, s4b := Replace(s3a, '"', "&quot;"), Replace(s3b, '"', "&quot;");
    ReplaceAppend(s3a, s3b, '"', "&quot;");
    ReplaceAppend(s4a, s4b, '\'', "&apos;");
  }

  lemma EscapeHtmlSingle(ch: char)
    ensures EscapeHtml([ch]) == EscapeHtmlChar(ch)
  {
    ReplaceSingle(ch, '&', "&amp;");
    if ch == '&' {
      KeepsAfterAmp("&amp;");
    } else {
      ReplaceSingle(ch, '<', "&lt;");
      if ch == '<' {
        KeepsAfterLt("&lt;");
      } else {
        ReplaceSingle(ch, '>', "&gt;");
        if ch == '>' {
          KeepsAfterGt("&gt;");
        } else {
          ReplaceSingle(ch, '"', "&quot;");
          ReplaceSingle(ch, '\'', "&apos;");
          if ch == '"' {
            ReplaceChars("&quot;", '\'', "&apos;");
          }
        }
      }
    }
  }

  /** The last four replacements leave a text without `<`, `>`, `"` and `'` alone. */
  lemma KeepsAfterAmp(t: string)
    requires '<' !in t && '>' !in t && '"' !in t && '\'' !in t
    ensures Replace(Replace(Replace(Replace(t, '<', "&lt;"), '>', "&gt;"), '"', "&quot;"), '\'', "&apos;") == t
  {
    ReplaceChars(t, '<', "&lt;");
    KeepsAfterLt(t);
  }

  /** The last three replacements leave a text without `>`, `"` and `'` alone. */
  lemma KeepsAfterLt(t: string)
    requires '>' !in t && '"' !in t && '\'' !in t
    ensures Replace(Replace(Replace(t, '>', "&gt;"), '"', "&quot;"), '\'', "&apos;") == t
  {
    ReplaceChars(t, '>', "&gt;");
    KeepsAfterGt(t);
  }

  /** The last two replacements leave a text without `"` and `'` alone. */
  lemma KeepsAfterGt(t: string)
    requires '"' !in t && '\'' !in t
    ensures Replace(Replace(t, '"', "&quot;"), '\'', "&apos;") == t
  {
    ReplaceChars(t, '"', "&quot;");
    ReplaceChars(t, '\'', "&apos;");
  }

  /** The replace chain escapes each character independently of its neighbours. */
  lemma {:induction false} EscapeHtmlIsByChar(s: string)
    ensures EscapeHtml(s) == EscapeHtmlByChar(s)
  {
    if s == [] {
    } else {
      assert s == [s[0]] + s[1..];
      EscapeHtmlAppend([s[0]], s[1..]);
      EscapeHtmlSingle(s[0]);
      EscapeHtmlIsByChar(s[1..]);
    }
  }

  /** Decodes the five entities `EscapeHtml` produces; every other character stands for itself. */
  function UnescapeHtml(s: string): string
    decreases |s|
  {
    if s == [] then []
    else if "&amp;" <= s then "&" + UnescapeHtml(s[5..])
    else if "&lt;" <= s then "<" + UnescapeHtml(s[4..])
    else if "&gt;" <= s then ">" + UnescapeHtml(s[4..])
    else if "&quot;" <= s then "\"" + UnescapeHtml(s[6..])
    else if "&apos;" <= s then "'" + UnescapeHtml(s[6..])
    else [s[0]] + UnescapeHtml(s[1..])
  }

  lemma UnescapeEntity(e: string, ch: char, t: string)
    requires e == EscapeHtmlChar(ch)
    ensures UnescapeHtml(e + t) == [ch] + UnescapeHtml(t)
  {
    var s := e + t;
    if ch == '&' {
      assert s[..5] == "&amp;";
      assert s[5..] == t;
    } else if ch == '<' {
      assert s[..4] == "&lt;" && s[1] == 'l';
      assert s[4..] == t;
    } else if ch == '>' {
      assert s[..4] == "&gt;" && s[1] == 'g';
      assert s[4..] == t;
    } else if ch == '"' {
      assert s[..6] == "&quot;" && s[1] == 'q';
      assert s[6..] == t;
    } else if ch == '\'' {
      assert s[..6] == "&apos;" && s[1] == 'a' && s[2] == 'p';
      assert s[6..] == t;
    } else {
      assert s[0] == ch && s[1..] == t;
    }
  }

  /** Decoding the entities recovers the text: escaping loses nothing because `&` goes first. */
  lemma {:induction false} UnescapeEscapeHtml(s: string)
    ensures UnescapeHtml(EscapeHtml(s)) == s
  {
    EscapeHtmlIsByChar(s);
    UnescapeByChar(s);
  }

  lemma {:induction false} UnescapeByChar(s: string)
    ensures UnescapeHtml(EscapeHtmlByChar(s)) == s
  {
    if s == [] {
    } else {
      UnescapeEntity(EscapeHtmlChar(s[0]), s[0], EscapeHtmlByChar(s[1..]));
      UnescapeByChar(s[1..]);
      assert s == [s[0]] + s[1..];
    }
  }

  // ---------------------------------------------------------------- attribute values

  /** Attribute-value escaping: `&`, `"` and `<` only, in that order. */
  function EscapeAttrValue(s: string): string
  {
    Replace(Replace(Replace(s, '&', "&amp;"), '"', "&quot;"), '<', "&lt;")
  }

  /**
    An escaped attribute value contains no `"` (so it cannot close the quotes around
    it) and no `<`; a value without `&`, `"` and `<` is left as it is.
  */
  lemma EscapeAttrSafe(s: string)
    ensures var r := EscapeAttrValue(s); '"' !in r && '<' !in r
    ensures '&' !in s && '"' !in s && '<' !in s ==> EscapeAttrValue(s) == s
  {
    var s1 := Replace(s, '&', "&amp;");
    var s2 := Replace(s1, '"', "&quot;");
    ReplaceChars(s, '&', "&amp;");
    ReplaceChars(s1, '"', "&quot;");
    ReplaceChars(s2, '<', "&lt;");
    assert '"' !in s2;
  }

  function EscapeAttrChar(ch: char): string
  {
    match ch
    case '&' => "&amp;"
    case '"' => "&quot;"
    case '<' => "&lt;"
    case _ => [ch]
  }

  function EscapeAttrByChar(s: string): string
  {
    if s == [] then [] else EscapeAttrChar(s[0]) + EscapeAttrByChar(s[1..])
  }

  lemma EscapeAttrAppend(a: string, b: string)
    ensures EscapeAttrValue(a + b) == EscapeAttrValue(a) + EscapeAttrValue(b)
  {
    var s1a, s1b := Replace(a, '&', "&amp;"), Replace(b, '&', "&amp;");
    ReplaceAppend(a, b, '&', "&amp;");
    var s2a, s2b := Replace(s1a, '"', "&quot;"), Replace(s1b, '"', "&quot;");
    ReplaceAppend(s1a, s1b, '"', "&quot;");
    ReplaceAppend(s2a, s2b, '<', "&lt;");
  }

  lemma EscapeAttrSingle(ch: char)
    ensures EscapeAttrValue([ch]) == EscapeAttrChar(ch)
  {
    ReplaceSingle(ch, '&', "&amp;");
    if ch == '&' {
      ReplaceAbsent("&amp;", '"', "&quot;");
      ReplaceAbsent("&amp;", '<', "&lt;");
    } else {
      ReplaceSingle(ch, '"', "&quot;");
      if ch == '"' {
        ReplaceAbsent("&quot;", '<', "&lt;");
      } else {
        ReplaceSingle(ch, '<', "&lt;");
      }
    }
  }

  /** Replacing a character the text does not contain changes nothing. */
  lemma ReplaceAbsent(s: string, c: char, rep: string)
    requires c !in s
    ensures Replace(s, c, rep) == s
  {
    ReplaceChars(s, c, rep);
  }

  /**
    The attribute chain also works character by character; in particular `>` and `'`
    are copied unchanged (EscapeAttrChar maps them to themselves).
  */
  lemma {:induction false} EscapeAttrIsByChar(s: string)
    ensures EscapeAttrValue(s) == EscapeAttrByChar(s)
  {
    if s == [] {
    } else {
      assert s == [s[0]] + s[1..];
      EscapeAttrAppend([s[0]], s[1..]);
      EscapeAttrSingle(s[0]);
      EscapeAttrIsByChar(s[1..]);
    }
  }

  /** The same entity decoder undoes attribute escaping. */
  lemma {:induction false} UnescapeEscapeAttrValue(s: string)
    ensures UnescapeHtml(EscapeAttrValue(s)) == s
  {
    EscapeAttrIsByChar(s);
    UnescapeAttrByChar(s);
  }

  lemma {:induction false} UnescapeAttrByChar(s: string)
    ensures UnescapeHtml(EscapeAttrByChar(s)) == s
  {
    if s != [] {
      var ch := s[0];
      var e := EscapeAttrChar(ch);
      assert e == EscapeHtmlChar(ch) || ch == '>' || ch == '\'';
      var t := EscapeAttrByChar(s[1..]);
      if ch == '>' || ch == '\'' {
        var u := e + t;
        assert u[0] == ch && u[1..] == t;
      } else {
        UnescapeEntity(e, ch, t);
      }
      UnescapeAttrByChar(s[1..]);
      assert s == [s[0]] + s[1..];
    }
  }
}
