/**
 * What the inline pipeline makes of a whole marked-up span: each of the six
 * forms, written around a text without markup characters, becomes its HTML
 * element, and the later passes leave that element alone.
 */
module InlineProofs {
  import opened Wrappers
  import opened Strings
  import opened InlineFormat

  /** No character that opens one of the six patterns. */
  predicate NoMarkup(t: string) {
    '`' !in t && '*' !in t && '_' !in t && '[' !in t
  }

  /** A match that spans the whole string is the whole result of the pass. */
  lemma SubWhole(p: Pattern, s: string)
    requires |s| > 0 && MatchAt(p, s, 0).Some? && MatchAt(p, s, 0).value.end == |s|
    ensures Sub(p, s) == MatchAt(p, s, 0).value.replacement
  {
    SubLeftmost(p, s, 0);
    assert s[..0] == [];
  }

  lemma NoMarkupConcat(a: string, b: string)
    requires NoMarkup(a) && NoMarkup(b)
    ensures NoMarkup(a + b)
  {
  }

  /** The HTML wrappers add no markup characters. */
  lemma NoMarkupHtml(t: string)
    requires NoMarkup(t)
    ensures NoMarkup(CodeHtml(t)) && NoMarkup(StrongHtml(t)) && NoMarkup(EmHtml(t))
  {
    assert NoMarkup("<code>") && NoMarkup("</code>");
    assert NoMarkup("<strong>") && NoMarkup("</strong>");
    assert NoMarkup("<em>") && NoMarkup("</em>");
    NoMarkupConcat("<code>", t);
    NoMarkupConcat("<code>" + t, "</code>");
    NoMarkupConcat("<strong>", t);
    NoMarkupConcat("<strong>" + t, "</strong>");
    NoMarkupConcat("<em>", t);
    NoMarkupConcat("<em>" + t, "</em>");
  }

  /** Every pass leaves a string without markup characters unchanged. */
  lemma NoMarkupKept(s: string)
    requires NoMarkup(s)
    ensures Sub(InlineCode, s) == s && Sub(BoldStars, s) == s && Sub(BoldUnderscores, s) == s
    ensures Sub(ItalicStar, s) == s && Sub(ItalicUnderscore, s) == s && Sub(Link, s) == s
  {
    SubWithoutOpener(InlineCode, s);
    SubWithoutOpener(BoldStars, s);
    SubWithoutOpener(BoldUnderscores, s);
    SubWithoutOpener(ItalicStar, s);
    SubWithoutOpener(ItalicUnderscore, s);
    SubWithoutOpener(Link, s);
  }

  /** The passes after the bold ones leave a string without markup unchanged. */
  lemma AfterBold(s: string, r: string)
    requires NoMarkup(r)
    requires Sub(BoldUnderscores, Sub(BoldStars, Sub(InlineCode, s))) == r
    ensures FormatInline(s) == r
  {
    NoMarkupKept(r);
  }

  /** The passes after the italic ones leave a string without markup unchanged. */
  lemma AfterItalic(s: string, r: string)
    requires NoMarkup(r)
    requires Sub(ItalicUnderscore, Sub(ItalicStar, Sub(BoldUnderscores, Sub(BoldStars, Sub(InlineCode, s))))) == r
    ensures FormatInline(s) == r
  {
    NoMarkupKept(r);
  }

  // ---------------------------------------------------------------------------
  // The pass that matches, for each form.
  // ---------------------------------------------------------------------------

  lemma BoldPass(d: char, t: string)
    requires d == '*' || d == '_'
    requires |t| > 0 && d !in t
    ensures var p := if d == '*' then BoldStars else BoldUnderscores;
            Sub(p, [d, d] + t + [d, d]) == StrongHtml(t)
  {
    var s := [d, d] + t + [d, d];
    var p := if d == '*' then BoldStars else BoldUnderscores;
    assert BoldSpan(s, d, 0, |s|);
    BoldAtMeaning(s, d, 0);
    assert s[2..|s| - 2] == t;
    SubWhole(p, s);
  }

  /** The italic pattern's body: two or more characters that neither start nor end with whitespace, or one word character. */
  predicate ItalicBody(t: string) {
    (|t| >= 2 && !IsSpace(t[0]) && !IsSpace(t[|t| - 1])) || (|t| == 1 && IsWordChar(t[0]))
  }

  lemma ItalicPass(d: char, t: string)
    requires d == '*' || d == '_'
    requires d !in t && ItalicBody(t)
    ensures var p := if d == '*' then ItalicStar else ItalicUnderscore;
            Sub(p, [d] + t + [d]) == EmHtml(t)
  {
    var s := [d] + t + [d];
    var p := if d == '*' then ItalicStar else ItalicUnderscore;
    assert s[1..|s| - 1] == t;
    assert ItalicSpan(s, d, 0, |s|);
    ItalicAtMeaning(s, d, 0);
    SubWhole(p, s);
  }

  /** A bold pass finds nothing where no two delimiters are adjacent. */
  lemma BoldPassIdle(d: char, t: string)
    requires d == '*' || d == '_'
    requires |t| > 0 && d !in t
    ensures var p := if d == '*' then BoldStars else BoldUnderscores;
            Sub(p, [d] + t + [d]) == [d] + t + [d]
  {
    var s := [d] + t + [d];
    var p := if d == '*' then BoldStars else BoldUnderscores;
    forall j | 0 <= j < |s| ensures MatchAt(p, s, j).None? {
      if 0 < j < |s| - 1 {
        assert s[j] == t[j - 1];
      } else if j == 0 {
        assert s[1] == t[0];
      }
    }
    SubNoMatch(p, s);
  }

  // ---------------------------------------------------------------------------
  // The six forms.
  // ---------------------------------------------------------------------------

  /** `t` becomes <code>t</code>. */
  lemma FormatCode(t: string)
    requires |t| > 0 && NoMarkup(t)
    ensures FormatInline("`" + t + "`") == CodeHtml(t)
  {
    var s := "`" + t + "`";
    assert s[1..|s| - 1] == t;
    assert CodeSpan(s, 0, |s|);
    CodeAtMeaning(s, 0);
    SubWhole(InlineCode, s);
    NoMarkupHtml(t);
    AfterBold(s, CodeHtml(t)) by {
      NoMarkupKept(CodeHtml(t));
    }
  }

  /** **t** becomes <strong>t</strong>. */
  lemma FormatBoldStars(t: string)
    requires |t| > 0 && NoMarkup(t)
    ensures FormatInline("**" + t + "**") == StrongHtml(t)
  {
    var s := "**" + t + "**";
    assert s == ['*', '*'] + t + ['*', '*'];
    SubWithoutOpener(InlineCode, s);
    BoldPass('*', t);
    NoMarkupHtml(t);
    NoMarkupKept(StrongHtml(t));
    AfterBold(s, StrongHtml(t));
  }

  /** __t__ becomes <strong>t</strong>. */
  lemma FormatBoldUnderscores(t: string)
    requires |t| > 0 && NoMarkup(t)
    ensures FormatInline("__" + t + "__") == StrongHtml(t)
  {
    var s := "__" + t + "__";
    assert s == ['_', '_'] + t + ['_', '_'];
    SubWithoutOpener(InlineCode, s);
    SubWithoutOpener(BoldStars, s);
    BoldPass('_', t);
    NoMarkupHtml(t);
    AfterBold(s, StrongHtml(t));
  }

  /** *t* becomes <em>t</em>. */
  lemma FormatItalicStar(t: string)
    requires NoMarkup(t) && ItalicBody(t)
    ensures FormatInline("*" + t + "*") == EmHtml(t)
  {
    var s := "*" + t + "*";
    assert s == ['*'] + t + ['*'];
    SubWithoutOpener(InlineCode, s);
    BoldPassIdle('*', t);
    SubWithoutOpener(BoldUnderscores, s);
    ItalicPass('*', t);
    NoMarkupHtml(t);
    NoMarkupKept(EmHtml(t));
    AfterItalic(s, EmHtml(t));
  }

  /** _t_ becomes <em>t</em>. */
  lemma FormatItalicUnderscore(t: string)
    requires NoMarkup(t) && ItalicBody(t)
    ensures FormatInline("_" + t + "_") == EmHtml(t)
  {
    var s := "_" + t + "_";
    assert s == ['_'] + t + ['_'];
    SubWithoutOpener(InlineCode, s);
    SubWithoutOpener(BoldStars, s);
    BoldPassIdle('_', t);
    SubWithoutOpener(ItalicStar, s);
    ItalicPass('_', t);
    NoMarkupHtml(t);
    AfterItalic(s, EmHtml(t));
  }

  lemma LinkPass(text: string, url: string)
    requires |text| > 0 && |url| > 0 && ']' !in text && ')' !in url
    ensures Sub(Link, "[" + text + "](" + url + ")") == AnchorHtml(text, url)
  {
    var s := "[" + text + "](" + url + ")";
    var k := |text| + 1;
    assert s[1..k] == text && s[k + 2..|s| - 1] == url;
    assert LinkSpan(s, 0, k, |s|);
    LinkAtMeaning(s, 0);
    SubWhole(Link, s);
  }

  /** [text](url) becomes <a href="url">text</a>. */
  lemma FormatLink(text: string, url: string)
    requires |text| > 0 && |url| > 0 && NoMarkup(text) && NoMarkup(url)
    requires ']' !in text && ')' !in url
    ensures FormatInline("[" + text + "](" + url + ")") == AnchorHtml(text, url)
  {
    var s := "[" + text + "](" + url + ")";
    assert '`' !in s && '*' !in s && '_' !in s by {
      assert s == "[" + text + "](" + url + ")";
    }
    SubWithoutOpener(InlineCode, s);
    SubWithoutOpener(BoldStars, s);
    SubWithoutOpener(BoldUnderscores, s);
    SubWithoutOpener(ItalicStar, s);
    SubWithoutOpener(ItalicUnderscore, s);
    LinkPass(text, url);
  }

  /**
   * Inline code is replaced first, but its content is not shielded from the
   * later passes: **t** inside backticks still becomes <strong>t</strong>
   * inside <code>.
   */
  lemma CodeDoesNotShield(t: string)
    requires |t| > 0 && NoMarkup(t)
    ensures FormatInline("`**" + t + "**`") == CodeHtml(StrongHtml(t))
  {
    var inner := "**" + t + "**";
    var s := "`" + inner + "`";
    assert s == "`**" + t + "**`";
    assert s[1..|s| - 1] == inner;
    assert CodeSpan(s, 0, |s|);
    CodeAtMeaning(s, 0);
    SubWhole(InlineCode, s);
    BoldInsideCode(t);
    NoMarkupHtml(t);
    NoMarkupHtml(StrongHtml(t));
    AfterBold(s, CodeHtml(StrongHtml(t))) by {
      SubWithoutOpener(BoldUnderscores, CodeHtml(StrongHtml(t)));
    }
  }

  lemma BoldInsideCode(t: string)
    requires |t| > 0 && NoMarkup(t)
    ensures Sub(BoldStars, CodeHtml("**" + t + "**")) == CodeHtml(StrongHtml(t))
  {
    var c := CodeHtml("**" + t + "**");
    var e := 10 + |t|;
    BoldInsideCodeMatch(t);
    SubLeftmost(BoldStars, c, 6);
    BoldInsideCodeTail(t);
    SubFromCopiesUnmatched(BoldStars, c, e, |c|);
    assert c[..6] == "<code>" && c[e..] == "</code>";
  }

  lemma BoldInsideCodeMatch(t: string)
    requires |t| > 0 && NoMarkup(t)
    ensures var c := CodeHtml("**" + t + "**");
            && (forall j :: 0 <= j < 6 ==> MatchAt(BoldStars, c, j).None?)
            && MatchAt(BoldStars, c, 6) == Some(Match(10 + |t|, StrongHtml(t)))
  {
    var c := CodeHtml("**" + t + "**");
    var e := 10 + |t|;
    assert c == "<code>" + ['*', '*'] + t + ['*', '*'] + "</code>";
    forall j | 0 <= j < 6 ensures MatchAt(BoldStars, c, j).None? {
      assert c[j] == "<code>"[j];
    }
    assert BoldSpan(c, '*', 6, e) by {
      forall q | 8 <= q < e - 2 ensures c[q] != '*' {
        assert c[q] == t[q - 8];
      }
    }
    BoldAtMeaning(c, '*', 6);
    assert c[8..e - 2] == t;
  }

  lemma BoldInsideCodeTail(t: string)
    requires |t| > 0 && NoMarkup(t)
    ensures var c := CodeHtml("**" + t + "**");
            forall j :: 10 + |t| <= j < |c| ==> MatchAt(BoldStars, c, j).None?
  {
    var c := CodeHtml("**" + t + "**");
    var e := 10 + |t|;
    assert c == "<code>" + ['*', '*'] + t + ['*', '*'] + "</code>";
    forall j | e <= j < |c| ensures MatchAt(BoldStars, c, j).None? {
      assert c[j] == "</code>"[j - e];
    }
  }
}
