/**
 * The inline formatting of the markdown renderer: six regular-expression
 * substitutions, each written as a scanner with the semantics of Python's
 * re.sub (leftmost match, matches do not overlap, scanning resumes right after
 * a match, lookbehind and lookahead read the string as it was when the pass
 * began), applied in a fixed order.
 */
module InlineFormat {
  import opened Wrappers
  import opened Strings

  /** The six patterns, in the order in which they are applied. */
  datatype Pattern =
    | InlineCode        // `([^`]+)`                                   -> <code>\1</code>
    | BoldStars         // \*\*([^*]+)\*\*                             -> <strong>\1</strong>
    | BoldUnderscores   // __([^_]+)__                                 -> <strong>\1</strong>
    | ItalicStar        // (?<!\*)\*([^*\s][^*]*[^*\s]|\w)\*(?!\*)     -> <em>\1</em>
    | ItalicUnderscore  // (?<!_)_([^_\s][^_]*[^_\s]|\w)_(?!_)         -> <em>\1</em>
    | Link              // \[([^\]]+)\]\(([^)]+)\)                     -> <a href="\2">\1</a>

  /** A match found at some position: where it ends (exclusive) and what replaces it. */
  datatype Match = Match(end: nat, replacement: string)

  function CodeHtml(t: string): string { "<code>" + t + "</code>" }
  function StrongHtml(t: string): string { "<strong>" + t + "</strong>" }
  function EmHtml(t: string): string { "<em>" + t + "</em>" }
  function AnchorHtml(text: string, url: string): string { "<a href=\"" + url + "\">" + text + "</a>" }

  /** The character every match of the pattern starts with. */
  function Opener(p: Pattern): char {
    match p
    case InlineCode => '`'
    case BoldStars => '*'
    case BoldUnderscores => '_'
    case ItalicStar => '*'
    case ItalicUnderscore => '_'
    case Link => '['
  }

  // ---------------------------------------------------------------------------
  // Scanners: does the pattern match at position i of s, and where does it end?
  // Each character class excludes the delimiter that follows it, so the greedy
  // run always ends at the next delimiter and no backtracking can change the
  // match; the scanners look that delimiter up with IndexOf.
  // ---------------------------------------------------------------------------

  function CodeAt(s: string, i: nat): (m: Option<Match>)
    requires i < |s|
    ensures m.Some? ==> i < m.value.end <= |s|
  {
    if s[i] != '`' then None
    else
      var k := IndexOf(s, '`', i + 1);
      if i + 1 < k < |s| then Some(Match(k + 1, CodeHtml(s[i + 1..k]))) else None
  }

  function BoldAt(s: string, d: char, i: nat): (m: Option<Match>)
    requires i < |s|
    ensures m.Some? ==> i < m.value.end <= |s|
  {
    if !(i + 1 < |s| && s[i] == d && s[i + 1] == d) then None
    else
      var k := IndexOf(s, d, i + 2);
      if i + 2 < k && k + 1 < |s| && s[k + 1] == d then Some(Match(k + 2, StrongHtml(s[i + 2..k])))
      else None
  }

  /**
   * The italic pattern for delimiter d. Its first alternative takes the run
   * of non-delimiters up to the next d, which must be at least two characters
   * long and neither start nor end with whitespace; its second alternative
   * takes exactly one word character (for d == '_' that character may be '_'
   * itself). The opening d must not follow a d, the closing d must not be
   * followed by one.
   */
  function ItalicAt(s: string, d: char, i: nat): (m: Option<Match>)
    requires i < |s|
    ensures m.Some? ==> i < m.value.end <= |s|
  {
    if !(s[i] == d && (i == 0 || s[i - 1] != d)) then None
    else
      var k := IndexOf(s, d, i + 1);
      if k < |s| && k >= i + 3 && !IsSpace(s[i + 1]) && !IsSpace(s[k - 1]) && (k + 1 == |s| || s[k + 1] != d) then
        Some(Match(k + 1, EmHtml(s[i + 1..k])))
      else if i + 2 < |s| && IsWordChar(s[i + 1]) && s[i + 2] == d && (i + 3 == |s| || s[i + 3] != d) then
        Some(Match(i + 3, EmHtml([s[i + 1]])))
      else None
  }

  function LinkAt(s: string, i: nat): (m: Option<Match>)
    requires i < |s|
    ensures m.Some? ==> i < m.value.end <= |s|
  {
    if s[i] != '[' then None
    else
      var k := IndexOf(s, ']', i + 1);
      if !(i + 1 < k && k + 1 < |s| && s[k + 1] == '(') then None
      else
        var e := IndexOf(s, ')', k + 2);
        if k + 2 < e < |s| then Some(Match(e + 1, AnchorHtml(s[i + 1..k], s[k + 2..e]))) else None
  }

  function MatchAt(p: Pattern, s: string, i: nat): (m: Option<Match>)
    requires i < |s|
    ensures m.Some? ==> i < m.value.end <= |s| && s[i] == Opener(p)
  {
    match p
    case InlineCode => CodeAt(s, i)
    case BoldStars => BoldAt(s, '*', i)
    case BoldUnderscores => BoldAt(s, '_', i)
    case ItalicStar => ItalicAt(s, '*', i)
    case ItalicUnderscore => ItalicAt(s, '_', i)
    case Link => LinkAt(s, i)
  }

  // ---------------------------------------------------------------------------
  // re.sub: leftmost match first, resume after it, copy unmatched characters.
  // ---------------------------------------------------------------------------

  function SubFrom(p: Pattern, s: string, i: nat): string
    requires i <= |s|
    decreases |s| - i
  {
    if i == |s| then ""
    else
      match MatchAt(p, s, i)
      case Some(m) => m.replacement + SubFrom(p, s, m.end)
      case None => [s[i]] + SubFrom(p, s, i + 1)
  }

  /** re.sub(pattern, replacement, s). */
  function Sub(p: Pattern, s: string): string {
    SubFrom(p, s, 0)
  }

  /**
   * The inline pipeline used for regular lines and list-item contents: inline
   * code, bold with **, bold with __, italic with *, italic with _, links.
   */
  function FormatInline(s: string): string {
    var code := Sub(InlineCode, s);
    var bold := Sub(BoldUnderscores, Sub(BoldStars, code));
    var italic := Sub(ItalicUnderscore, Sub(ItalicStar, bold));
    Sub(Link, italic)
  }

  // ---------------------------------------------------------------------------
  // What each pattern matches, stated without the scanners: the span [i, j)
  // of s that the regular expression matches at i.
  // ---------------------------------------------------------------------------

  /** No position of s in [lo, hi) holds c. */
  predicate NoneIn(s: string, c: char, lo: nat, hi: nat)
    requires lo <= hi <= |s|
  {
    forall t :: lo <= t < hi ==> s[t] != c
  }

  /** `([^`]+)` matches s[i..j]. */
  predicate CodeSpan(s: string, i: nat, j: nat) {
    i + 3 <= j <= |s| && s[i] == '`' && s[j - 1] == '`' && NoneIn(s, '`', i + 1, j - 1)
  }

  /** dd([^d]+)dd matches s[i..j]. */
  predicate BoldSpan(s: string, d: char, i: nat, j: nat) {
    i + 5 <= j <= |s| && s[i] == d && s[i + 1] == d && s[j - 2] == d && s[j - 1] == d &&
    NoneIn(s, d, i + 2, j - 2)
  }

  /** The italic pattern for delimiter d matches s[i..j]. */
  predicate ItalicSpan(s: string, d: char, i: nat, j: nat) {
    i + 3 <= j <= |s| && s[i] == d && s[j - 1] == d &&
    (i == 0 || s[i - 1] != d) && (j == |s| || s[j] != d) &&
    ((j >= i + 4 && NoneIn(s, d, i + 1, j - 1) && !IsSpace(s[i + 1]) && !IsSpace(s[j - 2])) ||
     (j == i + 3 && IsWordChar(s[i + 1])))
  }

  /** \[([^\]]+)\]\(([^)]+)\) matches s[i..j], with the label closing at k. */
  predicate LinkSpan(s: string, i: nat, k: nat, j: nat) {
    i + 1 < k && k + 2 < j - 1 && j <= |s| &&
    s[i] == '[' && s[k] == ']' && s[k + 1] == '(' && s[j - 1] == ')' &&
    NoneIn(s, ']', i + 1, k) && NoneIn(s, ')', k + 2, j - 1)
  }

  lemma CodeAtMeaning(s: string, i: nat)
    requires i < |s|
    ensures CodeAt(s, i).Some? ==> CodeSpan(s, i, CodeAt(s, i).value.end)
    ensures forall j: nat :: CodeSpan(s, i, j) ==> CodeAt(s, i) == Some(Match(j, CodeHtml(s[i + 1..j - 1])))
  {
    forall j: nat | CodeSpan(s, i, j) ensures CodeAt(s, i) == Some(Match(j, CodeHtml(s[i + 1..j - 1]))) {
      IndexOfFirst(s, '`', i + 1, j - 1);
    }
  }

  lemma BoldAtMeaning(s: string, d: char, i: nat)
    requires i < |s|
    ensures BoldAt(s, d, i).Some? ==> BoldSpan(s, d, i, BoldAt(s, d, i).value.end)
    ensures forall j: nat :: BoldSpan(s, d, i, j) ==> BoldAt(s, d, i) == Some(Match(j, StrongHtml(s[i + 2..j - 2])))
  {
    forall j: nat | BoldSpan(s, d, i, j) ensures BoldAt(s, d, i) == Some(Match(j, StrongHtml(s[i + 2..j - 2]))) {
      IndexOfFirst(s, d, i + 2, j - 2);
    }
  }

  lemma ItalicAtMeaning(s: string, d: char, i: nat)
    requires i < |s|
    ensures ItalicAt(s, d, i).Some? ==> ItalicSpan(s, d, i, ItalicAt(s, d, i).value.end)
    ensures forall j: nat :: ItalicSpan(s, d, i, j) ==> ItalicAt(s, d, i) == Some(Match(j, EmHtml(s[i + 1..j - 1])))
  {
    forall j: nat | ItalicSpan(s, d, i, j) ensures ItalicAt(s, d, i) == Some(Match(j, EmHtml(s[i + 1..j - 1]))) {
      if j >= i + 4 && NoneIn(s, d, i + 1, j - 1) && !IsSpace(s[i + 1]) && !IsSpace(s[j - 2]) {
        IndexOfFirst(s, d, i + 1, j - 1);
      } else {
        assert s[i + 1..j - 1] == [s[i + 1]];
        if s[i + 1] != d {
          IndexOfFirst(s, d, i + 1, i + 2);
        }
      }
    }
  }

  lemma LinkAtMeaning(s: string, i: nat)
    requires i < |s|
    ensures LinkAt(s, i).Some? ==>
              exists k: nat :: LinkSpan(s, i, k, LinkAt(s, i).value.end)
    ensures forall k: nat, j: nat :: LinkSpan(s, i, k, j) ==>
              LinkAt(s, i) == Some(Match(j, AnchorHtml(s[i + 1..k], s[k + 2..j - 1])))
  {
    if LinkAt(s, i).Some? {
      var k := IndexOf(s, ']', i + 1);
      assert LinkSpan(s, i, k, LinkAt(s, i).value.end);
    }
    forall k: nat, j: nat | LinkSpan(s, i, k, j)
      ensures LinkAt(s, i) == Some(Match(j, AnchorHtml(s[i + 1..k], s[k + 2..j - 1])))
    {
      IndexOfFirst(s, ']', i + 1, k);
      IndexOfFirst(s, ')', k + 2, j - 1);
    }
  }

  // ---------------------------------------------------------------------------
  // Properties of the substitution.
  // ---------------------------------------------------------------------------

  lemma SubFromCopiesOne(p: Pattern, s: string, i: nat)
    requires i < |s| && MatchAt(p, s, i).None?
    ensures SubFrom(p, s, i) == [s[i]] + SubFrom(p, s, i + 1)
  {
  }

  /** Positions where the pattern does not match are copied unchanged. */
  lemma {:induction false} SubFromCopiesUnmatched(p: Pattern, s: string, i: nat, k: nat)
    requires i <= k <= |s|
    requires forall j :: i <= j < k ==> MatchAt(p, s, j).None?
    ensures SubFrom(p, s, i) == s[i..k] + SubFrom(p, s, k)
    decreases k - i
  {
    if i < k {
      var rest := SubFrom(p, s, i + 1);
      SubFromCopiesUnmatched(p, s, i + 1, k);
      assert rest == s[i + 1..k] + SubFrom(p, s, k);
      SubFromCopiesOne(p, s, i);
      assert SubFrom(p, s, i) == [s[i]] + rest;
      assert s[i..k] == [s[i]] + s[i + 1..k];
    } else {
      assert s[i..k] == [];
    }
  }

  /**
   * re.sub replaces the leftmost match first: everything before it is copied,
   * the match is replaced, and scanning resumes where the match ends.
   */
  lemma SubLeftmost(p: Pattern, s: string, k: nat)
    requires k < |s| && MatchAt(p, s, k).Some?
    requires forall j :: 0 <= j < k ==> MatchAt(p, s, j).None?
    ensures Sub(p, s) == s[..k] + MatchAt(p, s, k).value.replacement + SubFrom(p, s, MatchAt(p, s, k).value.end)
  {
    SubFromCopiesUnmatched(p, s, 0, k);
  }

  /** A string in which the pattern matches nowhere is left unchanged. */
  lemma SubNoMatch(p: Pattern, s: string)
    requires forall j :: 0 <= j < |s| ==> MatchAt(p, s, j).None?
    ensures Sub(p, s) == s
  {
    SubFromCopiesUnmatched(p, s, 0, |s|);
  }

  /** A string without the pattern's opening delimiter is left unchanged. */
  lemma SubWithoutOpener(p: Pattern, s: string)
    requires Opener(p) !in s
    ensures Sub(p, s) == s
  {
    SubNoMatch(p, s);
  }

  /** Text without `, *, _ and [ passes through the inline pipeline unchanged. */
  lemma FormatInlinePlain(s: string)
    requires '`' !in s && '*' !in s && '_' !in s && '[' !in s
    ensures FormatInline(s) == s
  {
    SubWithoutOpener(InlineCode, s);
    SubWithoutOpener(BoldStars, s);
    SubWithoutOpener(BoldUnderscores, s);
    SubWithoutOpener(ItalicStar, s);
    SubWithoutOpener(ItalicUnderscore, s);
    SubWithoutOpener(Link, s);
  }
}
