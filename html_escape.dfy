/** `PdfService.escapeHtml`: five chained `String.replace` calls, "&" first. */
module HtmlEscape {
  import opened Base
  import opened JavaText

  /** The chain of replacements applied to a non-null input. */
  function ReplaceChain(s: string): string {
    Replace(Replace(Replace(Replace(Replace(s, "&", "&amp;"), "<", "&lt;"), ">", "&gt;"), "\"", "&quot;"), "'", "&#39;")
  }

  /** `escapeHtml`: null becomes the empty string, anything else goes through the chain. */
  function EscapeHtml(input: JString): (r: string)
    ensures input.None? ==> r == ""
    ensures '<' !in r && '>' !in r && '"' !in r && '\'' !in r
  {
    match input
    case None => ""
    case Some(s) =>
      ChainIsPerCharacter(s);
      EscapedHasNoMarkup(s);
      ReplaceChain(s)
  }

  /** The entity for one character; other characters stand for themselves. */
  function EscapeChar(c: char): string {
    match c
    case '&' => "&amp;"
    case '<' => "&lt;"
    case '>' => "&gt;"
    case '"' => "&quot;"
    case '\'' => "&#39;"
    case _ => [c]
  }

  /** Reference definition: one pass, each character replaced by its entity. */
  function EscapeChars(s: string): string
    decreases |s|
  {
    if s == [] then [] else EscapeChar(s[0]) + EscapeChars(s[1..])
  }

  /** The chain applied to a single character is that character's entity. */
  lemma ChainOfOneChar(c: char)
    ensures ReplaceChain([c]) == EscapeChar(c)
  {
    ReplaceCharSingle(c, '&', "&amp;");
    var s1 := if c == '&' then "&amp;" else [c];
    AfterAmpersand(c, s1);
    ReplaceCharSingle(c, '<', "&lt;");
    var s2 := if c == '<' then "&lt;" else s1;
    AfterLessThan(c, s1, s2);
    ReplaceCharSingle(c, '>', "&gt;");
    var s3 := if c == '>' then "&gt;" else s2;
    AfterGreaterThan(c, s2, s3);
    ReplaceCharSingle(c, '"', "&quot;");
    var s4 := if c == '"' then "&quot;" else s3;
    AfterQuote(c, s3, s4);
  }

  lemma AfterAmpersand(c: char, s1: string)
    requires s1 == if c == '&' then "&amp;" else [c]
    ensures Replace(s1, "<", "&lt;") == if c == '<' then "&lt;" else s1
  {
    if c == '&' { ReplaceCharAbsent(s1, '<', "&lt;"); } else { ReplaceCharSingle(c, '<', "&lt;"); }
  }

  lemma AfterLessThan(c: char, s1: string, s2: string)
    requires s1 == if c == '&' then "&amp;" else [c]
    requires s2 == if c == '<' then "&lt;" else s1
    ensures Replace(s2, ">", "&gt;") == if c == '>' then "&gt;" else s2
  {
    if c == '&' || c == '<' { ReplaceCharAbsent(s2, '>', "&gt;"); } else { ReplaceCharSingle(c, '>', "&gt;"); }
  }

  lemma AfterGreaterThan(c: char, s2: string, s3: string)
    requires s2 == if c == '&' then "&amp;" else if c == '<' then "&lt;" else [c]
    requires s3 == if c == '>' then "&gt;" else s2
    ensures Replace(s3, "\"", "&quot;") == if c == '"' then "&quot;" else s3
  {
    if c == '&' || c == '<' || c == '>' {
      ReplaceCharAbsent(s3, '"', "&quot;");
    } else {
      ReplaceCharSingle(c, '"', "&quot;");
    }
  }

  lemma AfterQuote(c: char, s3: string, s4: string)
    requires s3 == if c == '&' then "&amp;" else if c == '<' then "&lt;" else if c == '>' then "&gt;" else [c]
    requires s4 == if c == '"' then "&quot;" else s3
    ensures Replace(s4, "'", "&#39;") == EscapeChar(c)
  {
    if c == '&' || c == '<' || c == '>' || c == '"' {
      ReplaceCharAbsent(s4, '\'', "&#39;");
    } else {
      ReplaceCharSingle(c, '\'', "&#39;");
    }
  }

  /** The whole chain distributes over concatenation. */
  lemma ChainAppend(a: string, b: string)
    ensures ReplaceChain(a + b) == ReplaceChain(a) + ReplaceChain(b)
  {
    var a1, b1 := Replace(a, "&", "&amp;"), Replace(b, "&", "&amp;");
    ReplaceCharAppend(a, b, '&', "&amp;");
    var a2, b2 := Replace(a1, "<", "&lt;"), Replace(b1, "<", "&lt;");
    ReplaceCharAppend(a1, b1, '<', "&lt;");
    var a3, b3 := Replace(a2, ">", "&gt;"), Replace(b2, ">", "&gt;");
    ReplaceCharAppend(a2, b2, '>', "&gt;");
    var a4, b4 := Replace(a3, "\"", "&quot;"), Replace(b3, "\"", "&quot;");
    ReplaceCharAppend(a3, b3, '"', "&quot;");
    ReplaceCharAppend(a4, b4, '\'', "&#39;");
  }

  /**
   * Because "&" is replaced first, the chain equals the one-pass substitution: no
   * replacement text contains a character that a later step replaces.
   */
  lemma {:induction false} ChainIsPerCharacter(s: string)
    ensures ReplaceChain(s) == EscapeChars(s)
    decreases |s|
  {
    if s != [] {
      assert s == [s[0]] + s[1..];
      ChainAppend([s[0]], s[1..]);
      ChainOfOneChar(s[0]);
      ChainIsPerCharacter(s[1..]);
    }
  }

  /** No markup character: none of `<`, `>`, `"`, `'`. */
  predicate NoMarkup(r: string) {
    '<' !in r && '>' !in r && '"' !in r && '\'' !in r
  }

  lemma EscapeCharHasNoMarkup(c: char)
    ensures NoMarkup(EscapeChar(c))
  {
  }

  lemma NoMarkupAppend(a: string, b: string)
    requires NoMarkup(a) && NoMarkup(b)
    ensures NoMarkup(a + b)
  {
    forall i | 0 <= i < |a + b| ensures (a + b)[i] !in "<>\"'" {
      if i < |a| {
        assert (a + b)[i] == a[i];
      } else {
        assert (a + b)[i] == b[i - |a|];
      }
    }
  }

  /** The one-pass escape leaves no markup character. */
  lemma {:induction false} EscapedHasNoMarkup(s: string)
    ensures NoMarkup(EscapeChars(s))
    decreases |s|
  {
    if s != [] {
      EscapedHasNoMarkup(s[1..]);
      EscapeCharHasNoMarkup(s[0]);
      NoMarkupAppend(EscapeChar(s[0]), EscapeChars(s[1..]));
    }
  }

  /** Decodes the five entities `escapeHtml` produces; any other text is kept. */
  function UnescapeHtml(s: string): string
    decreases |s|
  {
    if s == [] then []
    else if |s| >= 5 && s[..5] == "&amp;" then "&" + UnescapeHtml(s[5..])
    else if |s| >= 4 && s[..4] == "&lt;" then "<" + UnescapeHtml(s[4..])
    else if |s| >= 4 && s[..4] == "&gt;" then ">" + UnescapeHtml(s[4..])
    else if |s| >= 6 && s[..6] == "&quot;" then "\"" + UnescapeHtml(s[6..])
    else if |s| >= 5 && s[..5] == "&#39;" then "'" + UnescapeHtml(s[5..])
    else [s[0]] + UnescapeHtml(s[1..])
  }

  /** Decoding one entity (or plain character) in front of any text. */
  lemma UnescapeOneChar(c: char, rest: string)
    ensures UnescapeHtml(EscapeChar(c) + rest) == [c] + UnescapeHtml(rest)
  {
    var e := EscapeChar(c);
    var t := e + rest;
    assert t[..|e|] == e && t[|e|..] == rest;
    if c in "&<>\"'" {
      assert t[0] == '&';
      if c != '&' && |t| >= 5 { assert t[..5][1] == e[1] != "&amp;"[1]; }
      if c != '<' && |t| >= 4 { assert t[..4][1] == e[1] != "&lt;"[1]; }
      if c != '>' && |t| >= 4 { assert t[..4][1] == e[1] != "&gt;"[1]; }
      if c != '"' && |t| >= 6 { assert t[..6][1] == e[1] != "&quot;"[1]; }
    } else {
      assert t[0] == c && t[1..] == rest;
      if |t| >= 4 { assert t[..4][0] == c != '&'; }
      if |t| >= 5 { assert t[..5][0] == c != '&'; }
      if |t| >= 6 { assert t[..6][0] == c != '&'; }
    }
  }

  /** Escaping loses nothing: decoding the escaped text gives back the input. */
  lemma {:induction false} EscapeRoundTrip(s: string)
    ensures UnescapeHtml(EscapeHtml(Some(s))) == s
    decreases |s|
  {
    ChainIsPerCharacter(s);
    if s != [] {
      UnescapeOneChar(s[0], EscapeChars(s[1..]));
      EscapeRoundTrip(s[1..]);
      ChainIsPerCharacter(s[1..]);
      assert s == [s[0]] + s[1..];
    }
  }
}
