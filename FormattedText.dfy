/**
 * The inline markup tokenizer behind the `FormattedText` component.
 *
 * A line is scanned with a cursor over its remaining text. At each step the
 * five fixed patterns (link, bold, italic, strikethrough, inline code) are
 * each searched for their leftmost match in the remaining text; the match
 * that starts earliest wins, and at equal starts the pattern listed first
 * wins. Any plain text before the match is emitted, then a styled node, and
 * the cursor moves past the whole match. A text is split on line feeds and
 * every line is tokenized on its own, with a break between lines.
 *
 * The five regular expressions are modelled by hand-written matchers, each
 * proved equal to a declarative description of what its expression accepts
 * at a given position (including the shortest-capture behaviour of the lazy
 * quantifiers).
 */
module FormattedText {
  import opened JsText

  /** A styled node's payload: the capture groups of the matching pattern. */
  datatype Span =
    | Link(content: string, url: string)
    | Bold(text: string)
    | Italic(text: string)
    | Strike(text: string)
    | Code(text: string)

  /** What a line renders to: plain strings and keyed styled elements. */
  datatype Node = Plain(text: string) | Styled(key: nat, span: Span)

  /** The entries of the pattern table, in table order. */
  datatype Pattern = LinkPattern | BoldPattern | ItalicPattern | StrikePattern | CodePattern

  const Patterns: seq<Pattern> := [LinkPattern, BoldPattern, ItalicPattern, StrikePattern, CodePattern]

  /** A match found in a text: where it starts and what it captured. */
  datatype Found = Found(index: nat, span: Span)

  /** The exact text a span was matched from, delimiters included. */
  function Source(sp: Span): string {
    match sp
    case Link(l, u) => "[" + l + "](" + u + ")"
    case Bold(t) => "**" + t + "**"
    case Italic(t) => "*" + t + "*"
    case Strike(t) => "~~" + t + "~~"
    case Code(t) => "`" + t + "`"
  }

  function PatternOf(sp: Span): Pattern {
    match sp
    case Link(_, _) => LinkPattern
    case Bold(_) => BoldPattern
    case Italic(_) => ItalicPattern
    case Strike(_) => StrikePattern
    case Code(_) => CodePattern
  }

  /** Position of a pattern in the table. */
  function Rank(p: Pattern): (k: nat)
    ensures k < |Patterns| && Patterns[k] == p
  {
    match p
    case LinkPattern => 0
    case BoldPattern => 1
    case ItalicPattern => 2
    case StrikePattern => 3
    case CodePattern => 4
  }

  // ------------------------------------------------------------ scanning helpers

  predicate NoLineTerminatorBetween(s: string, a: nat, b: nat) {
    forall k :: a <= k < b && k < |s| ==> !IsLineTerminator(s[k])
  }

  /** First index at or after `j` holding `c`. */
  function IndexOf(s: string, j: nat, c: char): (r: Option<nat>)
    ensures r.Some? ==> j <= r.value < |s| && s[r.value] == c
    ensures forall k :: j <= k < |s| && (r.None? || k < r.value) ==> s[k] != c
    decreases |s| - j
  {
    if j >= |s| then None else if s[j] == c then Some(j) else IndexOf(s, j + 1, c)
  }

  /** A character the URL part of a link may hold: `[^\s)]`. */
  predicate UrlChar(c: char) {
    !IsWhitespace(c) && c != ')'
  }

  /** End of the run of URL characters that starts at `j`. */
  function RunEnd(s: string, j: nat): (e: nat)
    requires j <= |s|
    ensures j <= e <= |s|
    ensures forall k :: j <= k < e ==> UrlChar(s[k])
    ensures e < |s| ==> !UrlChar(s[e])
    decreases |s| - j
  {
    if j == |s| || !UrlChar(s[j]) then j else RunEnd(s, j + 1)
  }

  // ------------------------------------------------------------ link: \[([^\]]+)\]\((https?:\/\/[^\s)]+)\)

  predicate ValidLabel(l: string) {
    |l| >= 1 && ']' !in l
  }

  predicate UrlTail(t: string) {
    |t| >= 1 && forall k :: 0 <= k < |t| ==> UrlChar(t[k])
  }

  predicate ValidUrl(u: string) {
    || ("https://" <= u && UrlTail(u[8..]))
    || ("http://" <= u && UrlTail(u[7..]))
  }

  /** An `https` URL is never also read as an `http` one, so the scheme fixes where the tail starts. */
  lemma SchemeTail(u: string)
    requires ValidUrl(u)
    ensures "https://" <= u ==> !("http://" <= u) && UrlTail(u[8..])
    ensures !("https://" <= u) ==> "http://" <= u && UrlTail(u[7..])
  {
    if "https://" <= u {
      assert u[4] == "https://"[4] != "http://"[4];
    }
  }

  /** The link expression matches at `i` with label `l` and URL `u`. */
  predicate IsLink(s: string, i: nat, l: string, u: string) {
    ValidLabel(l) && ValidUrl(u) && OccursAt(s, Source(Link(l, u)), i)
  }

  /**
   * The URL part of a link starting at `p`: a scheme, then the longest run of
   * URL characters, which must not be empty and must be closed by `)`; the
   * index of that `)`.
   */
  function UrlEnd(s: string, p: nat): (r: Option<nat>)
    ensures r.Some? ==> p < r.value < |s| && s[r.value] == ')'
  {
    var q := if OccursAt(s, "https://", p) then p + 8 else if OccursAt(s, "http://", p) then p + 7 else p;
    if q == p then None
    else
      var e := RunEnd(s, q);
      if e == q || e >= |s| || s[e] != ')' then None else Some(e)
  }

  /**
   * The link matcher at `i`: the label runs to the first `]`, which must be
   * followed by `(` and the URL part.
   */
  function LinkAt(s: string, i: nat): (r: Option<Span>)
    ensures r.Some? ==> r.value.Link?
  {
    if i >= |s| || s[i] != '[' then None
    else match IndexOf(s, i + 1, ']')
      case None => None
      case Some(j) =>
        if j == i + 1 || j + 1 >= |s| || s[j + 1] != '(' then None
        else match UrlEnd(s, j + 2)
          case None => None
          case Some(e) => Some(Link(s[i + 1..j], s[j + 2..e]))
  }

  /** What the URL part accepts is a URL the expression accepts. */
  lemma UrlEndSound(s: string, p: nat)
    requires UrlEnd(s, p).Some?
    ensures ValidUrl(s[p..UrlEnd(s, p).value])
  {
    var e := UrlEnd(s, p).value;
    var q := if OccursAt(s, "https://", p) then p + 8 else p + 7;
    var u, tail := s[p..e], s[q..e];
    assert UrlTail(tail) by {
      forall k | 0 <= k < |tail| ensures UrlChar(tail[k]) { assert tail[k] == s[q + k]; }
    }
    if q == p + 8 {
      OccursAtSlice(s, "https://", p);
      assert u[..8] == s[p..p + 8];
      assert u[8..] == tail;
    } else {
      OccursAtSlice(s, "http://", p);
      assert u[..7] == s[p..p + 7];
      assert u[7..] == tail;
    }
  }

  lemma LinkFound(s: string, i: nat, j: nat, e: nat)
    requires i + 1 < j && j + 2 < e < |s|
    requires s[i] == '[' && s[j] == ']' && s[j + 1] == '(' && s[e] == ')'
    requires forall k :: i + 1 <= k < j ==> s[k] != ']'
    requires ValidUrl(s[j + 2..e])
    ensures IsLink(s, i, s[i + 1..j], s[j + 2..e])
  {
    var l, u := s[i + 1..j], s[j + 2..e];
    assert ']' !in l by {
      forall k | 0 <= k < |l| ensures l[k] != ']' { assert l[k] == s[i + 1 + k]; }
    }
    OccursAtSlice(s, l, i + 1);
    OccursAtSlice(s, u, j + 2);
    assert OccursAt(s, "[", i) && OccursAt(s, "](", j) && OccursAt(s, ")", e);
    OccursAppend(s, "[", l, i);
    OccursAppend(s, "[" + l, "](", i);
    OccursAppend(s, "[" + l + "](", u, i);
    OccursAppend(s, "[" + l + "](" + u, ")", i);
  }

  /** Whatever the link matcher returns is a link the expression accepts. */
  lemma LinkAtSound(s: string, i: nat)
    requires LinkAt(s, i).Some?
    ensures IsLink(s, i, LinkAt(s, i).value.content, LinkAt(s, i).value.url)
  {
    var j := IndexOf(s, i + 1, ']').value;
    var e := UrlEnd(s, j + 2).value;
    assert s[i] == '[' && i + 1 < j && s[j + 1] == '(';
    assert LinkAt(s, i).value == Link(s[i + 1..j], s[j + 2..e]);
    UrlEndSound(s, j + 2);
    LinkFound(s, i, j, e);
  }

  /** Where the pieces of an accepted link stand in the text. */
  lemma LinkLayout(s: string, i: nat, l: string, u: string)
    requires IsLink(s, i, l, u)
    ensures i + |l| + |u| + 4 <= |s|
    ensures s[i] == '[' && s[i + 1 + |l|] == ']' && s[i + 2 + |l|] == '(' && s[i + 3 + |l| + |u|] == ')'
    ensures s[i + 1..i + 1 + |l|] == l && s[i + 3 + |l|..i + 3 + |l| + |u|] == u
  {
    var src := Source(Link(l, u));
    assert |src| == |l| + |u| + 4;
    assert src[0] == '[' && src[1 + |l|] == ']' && src[2 + |l|] == '(' && src[3 + |l| + |u|] == ')';
    assert s[i + 1..i + 1 + |l|] == l by {
      forall k | 0 <= k < |l| ensures s[i + 1 + k] == l[k] { assert src[1 + k] == l[k]; }
    }
    assert s[i + 3 + |l|..i + 3 + |l| + |u|] == u by {
      forall k | 0 <= k < |u| ensures s[i + 3 + |l| + k] == u[k] { assert src[3 + |l| + k] == u[k]; }
    }
  }

  /** The first `]` after an accepted link's `[` is the one that closes its label. */
  lemma LinkLabelEnd(s: string, i: nat, l: string)
    requires i + 1 + |l| < |s| && s[i + 1..i + 1 + |l|] == l && ']' !in l && s[i + 1 + |l|] == ']'
    ensures IndexOf(s, i + 1, ']') == Some(i + 1 + |l|)
  {
    var j := i + 1 + |l|;
    forall k | i + 1 <= k < j ensures s[k] != ']' {
      assert s[k] == l[k - i - 1];
    }
  }

  /** Which scheme an accepted link's URL starts with decides where its tail starts. */
  lemma LinkScheme(s: string, p: nat, u: string)
    requires ValidUrl(u) && p + |u| <= |s| && s[p..p + |u|] == u
    ensures OccursAt(s, "https://", p) <==> "https://" <= u
    ensures OccursAt(s, "http://", p) <==> "http://" <= u
    ensures |u| >= 8
  {
    OccursAtSlice(s, "https://", p);
    OccursAtSlice(s, "http://", p);
    assert s[p..p + 8] == u[..8];
    assert s[p..p + 7] == u[..7];
  }

  /** The run of URL characters of an accepted link ends at its `)`. */
  lemma LinkUrlEnd(s: string, p: nat, q: nat, u: string)
    requires p <= q <= p + |u| < |s| && s[p..p + |u|] == u && s[p + |u|] == ')'
    requires UrlTail(u[q - p..])
    ensures RunEnd(s, q) == p + |u|
  {
    forall k | q <= k < p + |u| ensures UrlChar(s[k]) {
      assert s[k] == u[q - p..][k - q];
    }
  }

  /** The URL part accepts an accepted URL followed by `)`, up to that `)`. */
  lemma UrlEndLaidOut(s: string, p: nat, u: string)
    requires ValidUrl(u) && p + |u| < |s| && s[p..p + |u|] == u && s[p + |u|] == ')'
    ensures UrlEnd(s, p) == Some(p + |u|)
  {
    LinkScheme(s, p, u);
    SchemeTail(u);
    var q := if "https://" <= u then p + 8 else p + 7;
    LinkUrlEnd(s, p, q, u);
  }

  lemma LinkAtLaidOut(s: string, i: nat, l: string, u: string)
    requires ValidLabel(l) && ValidUrl(u) && i + |l| + |u| + 4 <= |s|
    requires s[i] == '[' && s[i + 1 + |l|] == ']' && s[i + 2 + |l|] == '(' && s[i + 3 + |l| + |u|] == ')'
    requires s[i + 1..i + 1 + |l|] == l && s[i + 3 + |l|..i + 3 + |l| + |u|] == u
    ensures LinkAt(s, i) == Some(Link(l, u))
  {
    var j, p := i + 1 + |l|, i + 3 + |l|;
    LinkLabelEnd(s, i, l);
    UrlEndLaidOut(s, p, u);
    LinkAtFrom(s, i, j, p + |u|);
    assert s[i + 1..j] == l && s[j + 2..p + |u|] == u;
  }

  /** The link matcher once its label end and its URL end are known. */
  lemma LinkAtFrom(s: string, i: nat, j: nat, e: nat)
    requires i < |s| && s[i] == '[' && IndexOf(s, i + 1, ']') == Some(j)
    requires j != i + 1 && j + 1 < |s| && s[j + 1] == '(' && UrlEnd(s, j + 2) == Some(e)
    ensures LinkAt(s, i) == Some(Link(s[i + 1..j], s[j + 2..e]))
  {
  }

  /** The link matcher accepts exactly the links the expression accepts, with the same groups. */
  lemma LinkAtCorrect(s: string, i: nat, l: string, u: string)
    ensures LinkAt(s, i) == Some(Link(l, u)) <==> IsLink(s, i, l, u)
  {
    if LinkAt(s, i) == Some(Link(l, u)) {
      LinkAtSound(s, i);
    }
    if IsLink(s, i, l, u) {
      LinkLayout(s, i, l, u);
      LinkAtLaidOut(s, i, l, u);
    }
  }

  // ------------------------------------------------------------ bold, italic, strikethrough: D(.+?)D

  /** The expression `D(.+?)D` can match at `i` with a capture of `k` characters. */
  predicate IsDelimited(s: string, i: nat, d: string, k: nat) {
    && OccursAt(s, d, i)
    && 1 <= k
    && i + |d| + k <= |s|
    && NoLineTerminatorBetween(s, i + |d|, i + |d| + k)
    && OccursAt(s, d, i + |d| + k)
  }

  /**
   * The lazy search for the closing delimiter: the capture starts at `c` and
   * the candidate capture ends at `e`; a line terminator in the capture ends
   * the search, a closing delimiter at `e` ends it successfully.
   */
  function LazyClose(s: string, c: nat, e: nat, d: string): (r: Option<nat>)
    requires c < e <= |s| + 1
    requires NoLineTerminatorBetween(s, c, e - 1)
    ensures r.Some? ==> e <= r.value <= |s| && NoLineTerminatorBetween(s, c, r.value) && OccursAt(s, d, r.value)
    ensures r.Some? ==> forall m :: e <= m < r.value ==> !OccursAt(s, d, m)
    ensures r.None? ==> forall m :: e <= m <= |s| && NoLineTerminatorBetween(s, c, m) ==> !OccursAt(s, d, m)
    decreases |s| + 1 - e
  {
    if e > |s| then None
    else if IsLineTerminator(s[e - 1]) then None
    else if OccursAt(s, d, e) then Some(e)
    else LazyClose(s, c, e + 1, d)
  }

  /** The capture of `D(.+?)D` at `i`: the shortest one the expression allows. */
  function DelimitedAt(s: string, i: nat, d: string): (r: Option<string>)
    ensures r.Some? ==> IsDelimited(s, i, d, |r.value|) && r.value == s[i + |d|..i + |d| + |r.value|]
    ensures r.Some? ==> forall k :: 1 <= k < |r.value| ==> !IsDelimited(s, i, d, k)
    ensures r.None? ==> forall k :: !IsDelimited(s, i, d, k)
  {
    if !OccursAt(s, d, i) then None
    else
      var c := i + |d|;
      match LazyClose(s, c, c + 1, d)
      case None => None
      case Some(e) => Some(s[c..e])
  }

  /**
   * On `**a** x **b**` the bold expression could also close at the last
   * delimiter, but the lazy capture stops at the first one: the capture at
   * 0 is "a", and the one at 8 is "b".
   */
  lemma LazyBold()
    ensures IsDelimited("**a** x **b**", 0, "**", 9)
    ensures DelimitedAt("**a** x **b**", 0, "**") == Some("a")
    ensures DelimitedAt("**a** x **b**", 8, "**") == Some("b")
  {
    var s := "**a** x **b**";
    assert OccursAt(s, "**", 0) && OccursAt(s, "**", 3) && OccursAt(s, "**", 8) && OccursAt(s, "**", 11);
    assert NoLineTerminatorBetween(s, 2, 11);
    DelimitedAtCorrect(s, 0, "**", "a");
    DelimitedAtCorrect(s, 8, "**", "b");
  }

  // ------------------------------------------------------------ inline code: `([^`]+)`

  /** The expression `` `([^`]+)` `` can match at `i` with a capture of `k` characters. */
  predicate IsCode(s: string, i: nat, k: nat) {
    && 1 <= k
    && i + k + 2 <= |s|
    && s[i] == '`'
    && (forall m :: i + 1 <= m < i + 1 + k ==> s[m] != '`')
    && s[i + 1 + k] == '`'
  }

  function CodeAt(s: string, i: nat): (r: Option<string>)
    ensures r.Some? ==> IsCode(s, i, |r.value|) && r.value == s[i + 1..i + 1 + |r.value|]
    ensures forall k :: IsCode(s, i, k) ==> r.Some? && k == |r.value|
  {
    if i >= |s| || s[i] != '`' then None
    else match IndexOf(s, i + 1, '`')
      case None => None
      case Some(e) => if e == i + 1 then None else Some(s[i + 1..e])
  }

  // ------------------------------------------------------------ the pattern table

  /** What a matched span must look like for its pattern's expression to have produced it. */
  predicate WellFormed(sp: Span) {
    match sp
    case Link(l, u) => ValidLabel(l) && ValidUrl(u)
    case Bold(t) => |t| >= 1 && NoLineTerminator(t)
    case Italic(t) => |t| >= 1 && NoLineTerminator(t)
    case Strike(t) => |t| >= 1 && NoLineTerminator(t)
    case Code(t) => |t| >= 1 && '`' !in t
  }

  /** Every match consumes at least three characters, so the cursor always advances. */
  lemma SourceLength(sp: Span)
    requires WellFormed(sp)
    ensures |Source(sp)| >= 3
  {
  }

  predicate Delimited(p: Pattern) {
    p.BoldPattern? || p.ItalicPattern? || p.StrikePattern?
  }

  function Delimiter(p: Pattern): string
    requires Delimited(p)
  {
    match p
    case BoldPattern => "**"
    case ItalicPattern => "*"
    case StrikePattern => "~~"
  }

  /** The span a delimited pattern builds from its capture. */
  function Wrap(p: Pattern, t: string): (sp: Span)
    requires Delimited(p)
    ensures PatternOf(sp) == p && sp.text == t
  {
    match p
    case BoldPattern => Bold(t)
    case ItalicPattern => Italic(t)
    case StrikePattern => Strike(t)
  }

  /** A delimited span's text is its capture between two copies of its delimiter. */
  lemma WrapSource(p: Pattern, t: string)
    requires Delimited(p)
    ensures Source(Wrap(p, t)) == Delimiter(p) + t + Delimiter(p)
  {
  }

  /** Whether pattern `p` matches starting exactly at index `i`, and its capture. */
  function MatchAt(p: Pattern, s: string, i: nat): (r: Option<Span>)
    ensures r.Some? ==> PatternOf(r.value) == p
  {
    match p
    case LinkPattern => LinkAt(s, i)
    case CodePattern =>
      (match CodeAt(s, i)
       case None => None
       case Some(t) => Some(Code(t)))
    case _ =>
      (match DelimitedAt(s, i, Delimiter(p))
       case None => None
       case Some(t) => Some(Wrap(p, t)))
  }

  /**
   * What the expression of pattern `p` accepts at `i`: for the delimited
   * patterns the shortest capture, for the others the only one there is.
   */
  predicate Matches(p: Pattern, s: string, i: nat, sp: Span) {
    PatternOf(sp) == p &&
    match sp
    case Link(l, u) => IsLink(s, i, l, u)
    case Code(t) => IsCode(s, i, |t|) && t == s[i + 1..i + 1 + |t|]
    case _ =>
      var d := Delimiter(p);
      && IsDelimited(s, i, d, |sp.text|) && sp.text == s[i + |d|..i + |d| + |sp.text|]
      && forall k :: 1 <= k < |sp.text| ==> !IsDelimited(s, i, d, k)
  }

  /** The code matcher returns exactly the capture the code expression accepts. */
  lemma CodeAtCorrect(s: string, i: nat, t: string)
    ensures CodeAt(s, i) == Some(t) <==> IsCode(s, i, |t|) && t == s[i + 1..i + 1 + |t|]
  {
  }

  /** The delimited matcher returns exactly the shortest capture its expression accepts. */
  lemma DelimitedAtCorrect(s: string, i: nat, d: string, t: string)
    ensures DelimitedAt(s, i, d) == Some(t) <==>
      && IsDelimited(s, i, d, |t|) && t == s[i + |d|..i + |d| + |t|]
      && forall k :: 1 <= k < |t| ==> !IsDelimited(s, i, d, k)
  {
    if IsDelimited(s, i, d, |t|) && forall k :: 1 <= k < |t| ==> !IsDelimited(s, i, d, k) {
      assert |DelimitedAt(s, i, d).value| == |t|;
    }
  }

  /** The matchers agree with the expressions: a match is found exactly when one is accepted. */
  lemma MatchAtCorrect(p: Pattern, s: string, i: nat, sp: Span)
    ensures MatchAt(p, s, i) == Some(sp) <==> Matches(p, s, i, sp)
  {
    match p
    case LinkPattern =>
      if sp.Link? { LinkAtCorrect(s, i, sp.content, sp.url); }
    case CodePattern =>
      if sp.Code? { CodeAtCorrect(s, i, sp.text); }
    case _ =>
      DelimitedMatchCorrect(p, s, i, sp);
  }

  lemma DelimitedMatchCorrect(p: Pattern, s: string, i: nat, sp: Span)
    requires Delimited(p)
    ensures MatchAt(p, s, i) == Some(sp) <==> Matches(p, s, i, sp)
  {
    if PatternOf(sp) == p {
      DelimitedAtCorrect(s, i, Delimiter(p), sp.text);
    }
  }

  /** A code capture holds no backtick, and backtick, capture, backtick stand in the text. */
  lemma CodeAtSound(s: string, i: nat)
    requires CodeAt(s, i).Some?
    ensures WellFormed(Code(CodeAt(s, i).value)) && OccursAt(s, Source(Code(CodeAt(s, i).value)), i)
  {
    var t := CodeAt(s, i).value;
    assert '`' !in t by { forall k | 0 <= k < |t| ensures t[k] != '`' { assert t[k] == s[i + 1 + k]; } }
    OccursAtSlice(s, t, i + 1);
    OccursAppend(s, "`", t, i);
    OccursAppend(s, "`" + t, "`", i);
  }

  /** A delimited capture holds no line terminator, and delimiter, capture, delimiter stand in the text. */
  lemma DelimitedAtSound(s: string, i: nat, d: string)
    requires DelimitedAt(s, i, d).Some?
    ensures |DelimitedAt(s, i, d).value| >= 1 && NoLineTerminator(DelimitedAt(s, i, d).value)
    ensures OccursAt(s, d + DelimitedAt(s, i, d).value + d, i)
  {
    var t := DelimitedAt(s, i, d).value;
    var c := i + |d|;
    assert NoLineTerminator(t) by { forall k | 0 <= k < |t| ensures !IsLineTerminator(t[k]) { assert t[k] == s[c + k]; } }
    OccursAtSlice(s, t, c);
    OccursAppend(s, d, t, i);
    OccursAppend(s, d + t, d, i);
  }

  /** A match is well formed and its source text stands in the text where it was found. */
  lemma MatchAtSound(p: Pattern, s: string, i: nat)
    requires MatchAt(p, s, i).Some?
    ensures WellFormed(MatchAt(p, s, i).value) && OccursAt(s, Source(MatchAt(p, s, i).value), i)
  {
    match p
    case LinkPattern => LinkAtSound(s, i);
    case CodePattern => CodeAtSound(s, i);
    case _ =>
      DelimitedAtSound(s, i, Delimiter(p));
      WrapSource(p, DelimitedAt(s, i, Delimiter(p)).value);
  }

  /** `remaining.match(regex)` from index `i` on: the leftmost start at which `p` matches. */
  function FindFrom(p: Pattern, s: string, i: nat): (r: Option<Found>)
    ensures r.Some? ==> i <= r.value.index < |s| && MatchAt(p, s, r.value.index) == Some(r.value.span)
    ensures forall j :: i <= j < |s| && (r.None? || j < r.value.index) ==> MatchAt(p, s, j).None?
    decreases |s| - i
  {
    if i >= |s| then None
    else match MatchAt(p, s, i)
      case Some(sp) => Some(Found(i, sp))
      case None => FindFrom(p, s, i + 1)
  }

  function Find(p: Pattern, s: string): (r: Option<Found>)
  {
    FindFrom(p, s, 0)
  }

  /** A pattern's leftmost match is well formed and stands in the text where it was found. */
  lemma FindSound(p: Pattern, s: string, f: Found)
    requires Find(p, s) == Some(f)
    ensures PatternOf(f.span) == p && WellFormed(f.span) && OccursAt(s, Source(f.span), f.index)
  {
    MatchAtSound(p, s, f.index);
  }

  /** Each pattern's leftmost match in `s`, in table order. */
  function Finds(s: string): (fs: seq<Option<Found>>)
    ensures |fs| == |Patterns|
  {
    seq(|Patterns|, q requires 0 <= q < |Patterns| => Find(Patterns[q], s))
  }

  /**
   * The result of the table scan over the first `n` entries of `fs`: the
   * earliest match, the first-listed entry winning a tie because only a
   * strictly smaller start replaces the current choice.
   */
  function Best(fs: seq<Option<Found>>, n: nat): (r: Option<(nat, Found)>)
    requires n <= |fs|
    ensures r.Some? ==> r.value.0 < n && fs[r.value.0] == Some(r.value.1)
    ensures r.Some? ==> forall q :: 0 <= q < n && fs[q].Some? ==> r.value.1.index <= fs[q].value.index
    ensures r.Some? ==> forall q :: 0 <= q < r.value.0 && fs[q].Some? ==> r.value.1.index < fs[q].value.index
    ensures r.None? <==> forall q :: 0 <= q < n ==> fs[q].None?
  {
    if n == 0 then None
    else
      var prev := Best(fs, n - 1);
      var m := fs[n - 1];
      if m.Some? && (prev.None? || m.value.index < prev.value.1.index) then Some((n - 1, m.value)) else prev
  }

  /** The chosen match of a table scan is well formed and stands in the text where it was found. */
  lemma BestSound(s: string)
    requires Best(Finds(s), |Patterns|).Some?
    ensures var f := Best(Finds(s), |Patterns|).value.1; WellFormed(f.span) && OccursAt(s, Source(f.span), f.index)
  {
    var b := Best(Finds(s), |Patterns|).value;
    assert Finds(s)[b.0] == Find(Patterns[b.0], s);
    FindSound(Patterns[b.0], s, b.1);
  }

  // ------------------------------------------------------------ parseInline

  /** The match one step of the cursor loop acts on, if any. */
  function Step(s: string): (r: Option<Found>)
    ensures r.Some? ==> WellFormed(r.value.span) && OccursAt(s, Source(r.value.span), r.value.index)
  {
    var b := Best(Finds(s), |Patterns|);
    if b.None? then None else BestSound(s); Some(b.value.1)
  }

  /** What one step emits: the plain text before the match, if any, then the styled node. */
  function Emit(s: string, f: Found, key: nat): seq<Node>
    requires f.index <= |s|
  {
    (if f.index > 0 then [Plain(s[..f.index])] else []) + [Styled(key, f.span)]
  }

  /** The text after a match: where the cursor moves to. */
  function After(s: string, f: Found): string
    requires f.index + |Source(f.span)| <= |s|
  {
    s[f.index + |Source(f.span)|..]
  }

  /** The nodes `parseInline` produces for `s`, styled keys counting up from `key`. */
  function Tokens(s: string, key: nat): seq<Node>
    decreases |s|
  {
    if |s| == 0 then []
    else
      var st := Step(s);
      if st.None? then [Plain(s)]
      else Shorter(s, st.value); Emit(s, st.value, key) + Tokens(After(s, st.value), key + 1)
  }

  /** The table scan of one step: each pattern's leftmost match, keeping the earliest. */
  method EarliestMatch(remaining: string) returns (earliest: Option<(nat, Found)>)
    ensures earliest.None? == Step(remaining).None?
    ensures earliest.Some? ==> Step(remaining) == Some(earliest.value.1)
  {
    var earliestIndex := |remaining|;
    earliest := None;
    for q := 0 to |Patterns|
      invariant earliest == Best(Finds(remaining), q)
      invariant earliestIndex == if earliest.Some? then earliest.value.1.index else |remaining|
    {
      var m := Find(Patterns[q], remaining);
      assert m == Finds(remaining)[q];
      if m.Some? && m.value.index < earliestIndex {
        earliestIndex := m.value.index;
        earliest := Some((q, m.value));
      }
    }
  }

  lemma TokensMatch(s: string, key: nat, f: Found)
    requires |s| > 0 && Step(s) == Some(f)
    ensures Tokens(s, key) == Emit(s, f, key) + Tokens(After(s, f), key + 1)
  {
  }

  /** One iteration of the cursor loop without a match ends it with the invariant's promise. */
  lemma Finish(text: string, done: seq<Node>, s: string, key: nat)
    requires |s| > 0 && Step(s).None?
    requires done + Tokens(s, key) == Tokens(text, 0)
    ensures done + [Plain(s)] == Tokens(text, 0)
  {
  }

  /** One iteration of the cursor loop with a match keeps the loop's invariant. */
  lemma Advance(text: string, done: seq<Node>, s: string, key: nat, f: Found)
    requires |s| > 0 && Step(s) == Some(f)
    requires done + Tokens(s, key) == Tokens(text, 0)
    ensures done + Emit(s, f, key) + Tokens(After(s, f), key + 1) == Tokens(text, 0)
  {
    TokensMatch(s, key, f);
  }

  /** `parseInline`: the cursor loop, emitting plain prefixes and styled nodes. */
  method ParseInline(text: string) returns (result: seq<Node>)
    ensures result == Tokens(text, 0)
  {
    result := [];
    var remaining := text;
    var keyIdx: nat := 0;
    while |remaining| > 0
      invariant result + Tokens(remaining, keyIdx) == Tokens(text, 0)
      decreases |remaining|
    {
      var earliest := EarliestMatch(remaining);
      if earliest.None? {
        Finish(text, result, remaining, keyIdx);
        result := result + [Plain(remaining)];
        break;
      }
      var f := earliest.value.1;
      Advance(text, result, remaining, keyIdx, f);
      Shorter(remaining, f);
      ghost var emitted := result + Emit(remaining, f, keyIdx);
      if f.index > 0 {
        result := result + [Plain(remaining[..f.index])];
      }
      result := result + [Styled(keyIdx, f.span)];
      assert result == emitted;
      keyIdx := keyIdx + 1;
      remaining := remaining[f.index + |Source(f.span)|..];
    }
  }

  // ------------------------------------------------------------ what a tokenized line looks like

  /** The text a node stands for: a plain string itself, a styled node the text it was matched from. */
  function NodeText(n: Node): string {
    match n
    case Plain(t) => t
    case Styled(_, sp) => Source(sp)
  }

  function Flatten(nodes: seq<Node>): string {
    if |nodes| == 0 then "" else NodeText(nodes[0]) + Flatten(nodes[1..])
  }

  lemma {:induction false} FlattenAppend(a: seq<Node>, b: seq<Node>)
    ensures Flatten(a + b) == Flatten(a) + Flatten(b)
  {
    if |a| == 0 {
      assert a + b == b;
    } else {
      assert (a + b)[0] == a[0] && (a + b)[1..] == a[1..] + b;
      FlattenAppend(a[1..], b);
    }
  }

  /** Cutting a text around an occurrence of `m` and gluing the pieces back gives the text. */
  lemma Around(s: string, i: nat, m: string)
    requires OccursAt(s, m, i)
    ensures s[..i] + m + s[i + |m|..] == s
  {
    OccursAtSlice(s, m, i);
    assert s == s[..i] + s[i..i + |m|] + s[i + |m|..];
  }

  lemma FlattenEmit(s: string, f: Found, key: nat)
    requires f.index <= |s|
    ensures Flatten(Emit(s, f, key)) == s[..f.index] + Source(f.span)
  {
    var last := [Styled(key, f.span)];
    assert Flatten(last) == Source(f.span);
    if f.index > 0 {
      FlattenAppend([Plain(s[..f.index])], last);
    } else {
      assert Emit(s, f, key) == last;
    }
  }

  /** The text before a match, the match and the text after it make up the whole text again. */
  lemma EmitCover(s: string, f: Found, key: nat, rest: seq<Node>)
    requires OccursAt(s, Source(f.span), f.index)
    requires Flatten(rest) == After(s, f)
    ensures Flatten(Emit(s, f, key) + rest) == s
  {
    FlattenAppend(Emit(s, f, key), rest);
    FlattenEmit(s, f, key);
    Around(s, f.index, Source(f.span));
  }

  /** The nodes cover the line exactly: put back the matched text of each styled node and the line reappears. */
  lemma {:induction false} TokensCover(s: string, key: nat)
    ensures Flatten(Tokens(s, key)) == s
    decreases |s|
  {
    if |s| > 0 {
      match Step(s)
      case None =>
        TokensNone(s, key);
        FlattenOne(Plain(s));
      case Some(f) =>
        TokensMatch(s, key, f);
        Shorter(s, f);
        TokensCover(After(s, f), key + 1);
        EmitCover(s, f, key, Tokens(After(s, f), key + 1));
    }
  }

  lemma FlattenOne(n: Node)
    ensures Flatten([n]) == NodeText(n)
  {
    assert [n][1..] == [];
  }

  lemma TokensNone(s: string, key: nat)
    requires |s| > 0 && Step(s).None?
    ensures Tokens(s, key) == [Plain(s)]
  {
  }

  lemma Shorter(s: string, f: Found)
    requires Step(s) == Some(f)
    ensures |After(s, f)| < |s|
  {
    SourceLength(f.span);
  }

  /** No empty plain string, no two plain strings side by side, and every styled node well formed. */
  predicate Tidy(nodes: seq<Node>) {
    && (forall k :: 0 <= k < |nodes| && nodes[k].Plain? ==> nodes[k].text != "")
    && (forall k :: 0 <= k < |nodes| - 1 && nodes[k].Plain? ==> nodes[k + 1].Styled?)
    && (forall k :: 0 <= k < |nodes| && nodes[k].Styled? ==> WellFormed(nodes[k].span))
  }

  lemma TidyAppend(a: seq<Node>, b: seq<Node>)
    requires Tidy(a) && Tidy(b) && |a| > 0 && a[|a| - 1].Styled?
    ensures Tidy(a + b)
  {
    var c := a + b;
    forall k | 0 <= k < |c| - 1 && c[k].Plain? ensures c[k + 1].Styled? {
      if k < |a| - 1 { assert c[k] == a[k] && c[k + 1] == a[k + 1]; }
      else if k >= |a| { assert c[k] == b[k - |a|] && c[k + 1] == b[k - |a| + 1]; }
    }
  }

  lemma {:induction false} TokensTidy(s: string, key: nat)
    ensures Tidy(Tokens(s, key))
    decreases |s|
  {
    if |s| > 0 {
      match Step(s)
      case None =>
        TokensNone(s, key);
      case Some(f) =>
        TokensMatch(s, key, f);
        Shorter(s, f);
        TokensTidy(After(s, f), key + 1);
        TidyAppend(Emit(s, f, key), Tokens(After(s, f), key + 1));
    }
  }

  /** The keys of the styled nodes, in order. */
  function Keys(nodes: seq<Node>): seq<nat> {
    if |nodes| == 0 then [] else (if nodes[0].Styled? then [nodes[0].key] else []) + Keys(nodes[1..])
  }

  lemma {:induction false} KeysAppend(a: seq<Node>, b: seq<Node>)
    ensures Keys(a + b) == Keys(a) + Keys(b)
  {
    if |a| == 0 {
      assert a + b == b;
    } else {
      assert (a + b)[0] == a[0] && (a + b)[1..] == a[1..] + b;
      KeysAppend(a[1..], b);
    }
  }

  /** Styled nodes are keyed `key`, `key + 1`, ... in the order they are emitted. */
  lemma {:induction false} TokensKeys(s: string, key: nat)
    ensures forall k :: 0 <= k < |Keys(Tokens(s, key))| ==> Keys(Tokens(s, key))[k] == key + k
    decreases |s|
  {
    if |s| > 0 {
      match Step(s)
      case None =>
        TokensNone(s, key);
        assert Keys([Plain(s)]) == [];
      case Some(f) =>
        TokensMatch(s, key, f);
        Shorter(s, f);
        TokensKeys(After(s, f), key + 1);
        EmitKeys(s, f, key, Tokens(After(s, f), key + 1));
    }
  }

  /** A step's styled node takes the next key ahead of the keys that follow it. */
  lemma EmitKeys(s: string, f: Found, key: nat, rest: seq<Node>)
    requires f.index <= |s|
    requires forall k :: 0 <= k < |Keys(rest)| ==> Keys(rest)[k] == key + 1 + k
    ensures forall k :: 0 <= k < |Keys(Emit(s, f, key) + rest)| ==> Keys(Emit(s, f, key) + rest)[k] == key + k
  {
    KeysAppend(Emit(s, f, key), rest);
    assert Keys(Emit(s, f, key)) == [key] by {
      if f.index > 0 { assert Emit(s, f, key)[1..] == [Styled(key, f.span)]; }
    }
  }

  /** No pattern matches anywhere in the text. */
  predicate Unmarked(s: string) {
    forall q, j :: 0 <= q < |Patterns| && 0 <= j < |s| ==> MatchAt(Patterns[q], s, j).None?
  }

  /**
   * The step's match starts where some pattern matches and no pattern
   * matches earlier; of the patterns that match there, it is the one listed
   * first.
   */
  lemma StepEarliest(s: string, f: Found)
    requires Step(s) == Some(f)
    ensures MatchAt(PatternOf(f.span), s, f.index) == Some(f.span)
    ensures forall q, j :: 0 <= q < |Patterns| && 0 <= j < f.index ==> MatchAt(Patterns[q], s, j).None?
    ensures forall q :: 0 <= q < Rank(PatternOf(f.span)) ==> MatchAt(Patterns[q], s, f.index).None?
  {
    var fs := Finds(s);
    var k := Best(fs, |Patterns|).value.0;
    assert fs[k] == Find(Patterns[k], s) == Some(f);
    assert PatternOf(f.span) == Patterns[k];
    assert Rank(Patterns[k]) == k;
    forall q, j | 0 <= q < |Patterns| && 0 <= j < f.index ensures MatchAt(Patterns[q], s, j).None? {
      assert fs[q] == Find(Patterns[q], s);
    }
    forall q | 0 <= q < k ensures MatchAt(Patterns[q], s, f.index).None? {
      assert fs[q] == Find(Patterns[q], s);
    }
  }

  /**
   * Conversely, a match that starts where no pattern matches earlier, made
   * by the first pattern in the table to match there, is the step's match.
   */
  lemma StepExactly(s: string, i: nat, sp: Span)
    requires MatchAt(PatternOf(sp), s, i) == Some(sp)
    requires forall q, j :: 0 <= q < |Patterns| && 0 <= j < i ==> MatchAt(Patterns[q], s, j).None?
    requires forall q :: 0 <= q < Rank(PatternOf(sp)) ==> MatchAt(Patterns[q], s, i).None?
    ensures Step(s) == Some(Found(i, sp))
  {
    var p := PatternOf(sp);
    var r := Rank(p);
    assert MatchAt(p, s, i).Some?;
    MatchAtSound(p, s, i);
    assert i < |s| by { OccursAtSlice(s, Source(sp), i); SourceLength(sp); }
    var fs := Finds(s);
    forall q | 0 <= q < |Patterns| && fs[q].Some?
      ensures fs[q].value.index >= i && (q < r ==> fs[q].value.index > i)
    {
      assert fs[q] == Find(Patterns[q], s);
      FindNotBefore(Patterns[q], s, i);
      if q < r {
        forall j | 0 <= j < i + 1 ensures MatchAt(Patterns[q], s, j).None? {
          if j == i {
            assert q < Rank(PatternOf(sp));
          }
        }
        FindNotBefore(Patterns[q], s, i + 1);
      }
    }
    assert fs[r] == Some(Found(i, sp)) by {
      assert fs[r] == Find(Patterns[r], s);
      FindNotBefore(Patterns[r], s, i);
    }
    var b := Best(fs, |Patterns|);
    assert b.Some?;
    assert b.value.0 == r;
  }

  /** A pattern that does not match before `i` is found at `i` at the earliest. */
  lemma FindNotBefore(p: Pattern, s: string, i: nat)
    requires forall j :: 0 <= j < i ==> MatchAt(p, s, j).None?
    ensures Find(p, s).Some? ==> Find(p, s).value.index >= i
    ensures i < |s| && MatchAt(p, s, i).Some? ==> Find(p, s) == Some(Found(i, MatchAt(p, s, i).value))
  {
  }

  /** A step finds nothing exactly when no pattern matches anywhere. */
  lemma StepNone(s: string)
    ensures Step(s).None? <==> Unmarked(s)
  {
    if Step(s).Some? {
      var f := Step(s).value;
      StepEarliest(s, f);
      assert f.index < |s| by { OccursAtSlice(s, Source(f.span), f.index); SourceLength(f.span); }
      assert MatchAt(Patterns[Rank(PatternOf(f.span))], s, f.index).Some?;
    } else {
      forall q, j | 0 <= q < |Patterns| && 0 <= j < |s| ensures MatchAt(Patterns[q], s, j).None? {
        assert Finds(s)[q] == Find(Patterns[q], s);
      }
    }
  }

  /** An empty line gives no nodes; a line without markup gives one plain string, and only such a line does. */
  lemma TokensPlain(s: string, key: nat)
    ensures |s| == 0 ==> Tokens(s, key) == []
    ensures |s| > 0 ==> (Tokens(s, key) == [Plain(s)] <==> Unmarked(s))
  {
    StepNone(s);
    if |s| > 0 && Step(s).Some? {
      var f := Step(s).value;
      TokensMatch(s, key, f);
      if f.index > 0 {
        assert |Tokens(s, key)| >= 2;
      } else {
        assert Tokens(s, key)[0] == Styled(key, f.span);
      }
    }
  }

  /** No pattern matches at a character that opens none of them. */
  lemma NoMarkupAt(s: string, j: nat)
    requires j < |s| && s[j] != '[' && s[j] != '*' && s[j] != '~' && s[j] != '`'
    ensures forall q :: 0 <= q < |Patterns| ==> MatchAt(Patterns[q], s, j).None?
  {
    NotOpenedAt(s, "**", j);
    NotOpenedAt(s, "*", j);
    NotOpenedAt(s, "~~", j);
  }

  lemma NotOpenedAt(s: string, d: string, j: nat)
    requires j < |s| && |d| > 0 && s[j] != d[0]
    ensures !OccursAt(s, d, j)
  {
  }

  /** A bold capture needs text without asterisks or line breaks to end at the first closing `**`. */
  predicate BoldText(a: string) {
    |a| > 0 && forall k :: 0 <= k < |a| ==> a[k] != '*' && !IsLineTerminator(a[k])
  }

  /** Text in which no pattern can start. */
  predicate PlainText(x: string) {
    forall k :: 0 <= k < |x| ==> x[k] != '[' && x[k] != '*' && x[k] != '~' && x[k] != '`'
  }

  /** `**a**` standing at `i` is a bold match of `a`, and no link starts there. */
  lemma BoldAt(u: string, i: nat, a: string)
    requires BoldText(a) && OccursAt(u, Source(Bold(a)), i)
    ensures MatchAt(BoldPattern, u, i) == Some(Bold(a))
    ensures MatchAt(LinkPattern, u, i).None?
  {
    var src := Source(Bold(a));
    assert src[0] == '*' && src[1] == '*' && src[|a| + 2] == '*' && src[|a| + 3] == '*';
    assert forall k :: 0 <= k < |a| ==> src[k + 2] == a[k];
    assert u[i] == src[0];
    assert forall k :: 0 <= k < |a| ==> u[i + 2 + k] == a[k] by {
      forall k | 0 <= k < |a| ensures u[i + 2 + k] == a[k] { assert u[i + (k + 2)] == src[k + 2]; }
    }
    assert OccursAt(u, "**", i) by { assert u[i + 1] == src[1]; }
    assert OccursAt(u, "**", i + 2 + |a|) by { assert u[i + (|a| + 2)] == src[|a| + 2] && u[i + (|a| + 3)] == src[|a| + 3]; }
    assert a == u[i + 2..i + 2 + |a|];
    forall k | 1 <= k < |a| ensures !IsDelimited(u, i, "**", k) {
      NotOpenedAt(u, "**", i + 2 + k);
    }
    assert IsDelimited(u, i, "**", |a|);
    DelimitedAtCorrect(u, i, "**", a);
    assert DelimitedAt(u, i, Delimiter(BoldPattern)) == Some(a);
  }

  /**
   * Bold text, a run of text without markup, bold text: two bold nodes
   * around the plain run. The first bold pattern wins its tie with italic,
   * and each lazy capture closes at its own first `**`.
   */
  lemma BoldPlainBold(a: string, x: string, b: string)
    requires BoldText(a) && BoldText(b) && |x| > 0 && PlainText(x)
    ensures Tokens(Source(Bold(a)) + (x + Source(Bold(b))), 0) == [Styled(0, Bold(a)), Plain(x), Styled(1, Bold(b))]
  {
    var v := x + Source(Bold(b));
    var s := Source(Bold(a)) + v;
    AfterOpening(Bold(a), v);
    BoldFirst(a, v);
    BoldAfterPlain(x, b);
    TokensTwo(s, Found(0, Bold(a)), Found(|x|, Bold(b)));
    assert v[..|x|] == x;
  }

  /** After a match at the very start, the cursor moves to what follows its source. */
  lemma AfterOpening(sp: Span, v: string)
    ensures After(Source(sp) + v, Found(0, sp)) == v
  {
  }

  /** Text that opens with bold text steps to that bold match. */
  lemma BoldFirst(a: string, v: string)
    requires BoldText(a)
    ensures Step(Source(Bold(a)) + v) == Some(Found(0, Bold(a)))
  {
    var s := Source(Bold(a)) + v;
    OccursAtSlice(s, Source(Bold(a)), 0);
    BoldAt(s, 0, a);
    forall q | 0 <= q < Rank(PatternOf(Bold(a))) ensures MatchAt(Patterns[q], s, 0).None? {
      assert q == 0;
    }
    StepExactly(s, 0, Bold(a));
  }

  /** Text without markup followed by bold text steps to the bold match. */
  lemma BoldAfterPlain(x: string, b: string)
    requires BoldText(b) && PlainText(x)
    ensures Step(x + Source(Bold(b))) == Some(Found(|x|, Bold(b)))
  {
    var v := x + Source(Bold(b));
    forall q, j | 0 <= q < |Patterns| && 0 <= j < |x| ensures MatchAt(Patterns[q], v, j).None? {
      NoMarkupAt(v, j);
    }
    OccursAtSlice(v, Source(Bold(b)), |x|);
    BoldAt(v, |x|, b);
    forall q | 0 <= q < Rank(PatternOf(Bold(b))) ensures MatchAt(Patterns[q], v, |x|).None? {
      assert q == 0;
    }
    StepExactly(v, |x|, Bold(b));
  }

  /** `**a** x **b**` gives two bold nodes around the plain " x ". */
  lemma TwoBoldNodes()
    ensures Tokens("**a** x **b**", 0) == [Styled(0, Bold("a")), Plain(" x "), Styled(1, Bold("b"))]
  {
    BoldPlainBold("a", " x ", "b");
    TwoBoldText();
  }

  lemma TwoBoldText()
    ensures Source(Bold("a")) + (" x " + Source(Bold("b"))) == "**a** x **b**"
  {
    assert Source(Bold("a")) == "**a**" && Source(Bold("b")) == "**b**";
    assert " x " + "**b**" == " x **b**";
    assert "**a**" + " x **b**" == "**a** x **b**";
  }

  /**
   * A text whose first step matches at its start and whose second step
   * matches after some plain text and runs to the end tokenizes to three nodes.
   */
  lemma TokensTwo(s: string, f: Found, g: Found)
    requires Step(s) == Some(f) && f.index == 0
    requires Step(After(s, f)) == Some(g) && 0 < g.index && g.index + |Source(g.span)| == |After(s, f)|
    ensures Tokens(s, 0) == [Styled(0, f.span), Plain(After(s, f)[..g.index]), Styled(1, g.span)]
  {
    TokensMatch(s, 0, f);
    TokensLast(After(s, f), 1, g);
  }

  /** A match that runs to the end of the text, after some plain text, is the last node. */
  lemma TokensLast(s: string, key: nat, f: Found)
    requires Step(s) == Some(f) && 0 < f.index && f.index + |Source(f.span)| == |s|
    ensures Tokens(s, key) == [Plain(s[..f.index]), Styled(key, f.span)]
  {
    TokensMatch(s, key, f);
    assert After(s, f) == [];
  }

  // ------------------------------------------------------------ FormattedText

  /** A rendered line: its nodes and whether a break follows it. */
  datatype Line = Line(nodes: seq<Node>, breakAfter: bool)

  /** The component: nothing for an absent or empty text, otherwise one entry per line of the text. */
  function Render(text: Option<string>): (r: Option<seq<Line>>)
  {
    if text.None? || text.value == "" then None
    else
      var lines := Split(text.value, '\n');
      Some(seq(|lines|, i requires 0 <= i < |lines| => Line(Tokens(lines[i], 0), i < |lines| - 1)))
  }

  /**
   * A text renders to nothing exactly when it is absent or empty. Otherwise
   * every line is tokenized on its own with keys from 0, a break follows
   * every line but the last, and putting the lines' texts back together with
   * line feeds gives back the text.
   */
  lemma RenderCover(text: Option<string>)
    ensures Render(text).None? <==> text.None? || text.value == ""
    ensures Render(text).Some? ==>
      var ls := Render(text).value;
      && |ls| >= 1 && !ls[|ls| - 1].breakAfter
      && (forall i :: 0 <= i < |ls| - 1 ==> ls[i].breakAfter)
      && (forall i :: 0 <= i < |ls| ==> Keys(ls[i].nodes) == [] || Keys(ls[i].nodes)[0] == 0)
      && Join(seq(|ls|, i requires 0 <= i < |ls| => Flatten(ls[i].nodes)), '\n') == text.value
  {
    if text.Some? && text.value != "" {
      var lines := Split(text.value, '\n');
      var ls := Render(text).value;
      forall i | 0 <= i < |ls| ensures Flatten(ls[i].nodes) == lines[i] && (Keys(ls[i].nodes) == [] || Keys(ls[i].nodes)[0] == 0) {
        TokensCover(lines[i], 0);
        TokensKeys(lines[i], 0);
      }
      assert seq(|ls|, i requires 0 <= i < |ls| => Flatten(ls[i].nodes)) == lines;
      JoinSplit(text.value, '\n');
    }
  }
}
