/**
 * The `sourceMappingURL` directive search of `SourceMapLoader.extractSourcemapUrl`.
 *
 * The source runs one `Matcher.find()` of the MULTILINE pattern
 *
 *   (?://[@#][\s]*sourceMappingURL=([^\s'"]+)[\s]*$)
 *   |(?:/\*[@#][\s]*sourceMappingURL=([^\s*'"]+)[\s]*(?:\*\/)[\s]*$)
 *
 * and returns capture group 1.  The model has two layers:
 *   - `IsMatch` is the language of one alternative: which start positions and
 *     which URL spans the pattern admits, with no notion of search order;
 *   - `MatchAt` / `FindFrom` follow the backtracking engine: start positions in
 *     increasing order, the line-comment alternative before the block-comment
 *     one, greedy runs that give back one character at a time.
 * The lemmas at the end connect the two.
 */
module SourcemapComment {
  import opened Wrappers

  /** Java's `\s` (no UNICODE_CHARACTER_CLASS flag): space, \t, \n, \x0B, \f, \r. */
  predicate IsSpace(c: char) {
    c == ' ' || c == '\t' || c == '\n' || c == '\U{000B}' || c == '\U{000C}' || c == '\r'
  }

  /** The two alternatives of the pattern: line comments and block comments. */
  datatype Alt = LineComment | BlockComment

  /** The URL character class: `[^\s'"]` for line comments, `[^\s*'"]` for block comments. */
  predicate IsUrlChar(alt: Alt, c: char) {
    !IsSpace(c) && c != '\'' && c != '"' && (alt.BlockComment? ==> c != '*')
  }

  /** Second character of the comment opener: a slash for line comments, a star for block comments. */
  function OpenerSecond(alt: Alt): char {
    if alt.LineComment? then '/' else '*'
  }

  const Keyword: string := "sourceMappingURL="

  /** The keyword occurs at `k`. */
  predicate KeywordAt(s: string, k: nat) {
    k + |Keyword| <= |s| && s[k..k + |Keyword|] == Keyword
  }

  /** The opener of `alt`, then `@` or `#`, occur at `p`. */
  predicate OpenerAt(alt: Alt, s: string, p: nat) {
    p + 3 <= |s| && s[p] == '/' && s[p + 1] == OpenerSecond(alt) && (s[p + 2] == '@' || s[p + 2] == '#')
  }

  /**
   * Java's `$` under MULTILINE (without UNIX_LINES): at the end of input, or
   * before \r, U+0085, U+2028, U+2029, or before a \n that does not follow a \r.
   */
  predicate IsLineEnd(s: string, j: nat)
    requires j <= |s|
  {
    || j == |s|
    || s[j] == '\r' || s[j] == '\U{0085}' || s[j] == '\U{2028}' || s[j] == '\U{2029}'
    || (s[j] == '\n' && !(j > 0 && s[j - 1] == '\r'))
  }

  ghost predicate AllSpace(s: string, i: nat, j: nat)
    requires i <= j <= |s|
  {
    forall k :: i <= k < j ==> IsSpace(s[k])
  }

  ghost predicate AllUrl(alt: Alt, s: string, i: nat, j: nat)
    requires i <= j <= |s|
  {
    forall k :: i <= k < j ==> IsUrlChar(alt, s[k])
  }

  // ---------------------------------------------------------------------------
  // The language of the pattern
  // ---------------------------------------------------------------------------

  /** `[\s]*$` matches from `i`: white space up to a line end. */
  ghost predicate SpaceThenLineEnd(s: string, i: nat)
    requires i <= |s|
  {
    exists j :: i <= j <= |s| && AllSpace(s, i, j) && IsLineEnd(s, j)
  }

  /** What may follow the URL: `[\s]*$`, or `[\s]*\*\/[\s]*$`. */
  ghost predicate TailMatches(alt: Alt, s: string, e: nat)
    requires e <= |s|
  {
    match alt
    case LineComment => SpaceThenLineEnd(s, e)
    case BlockComment =>
      exists j :: e <= j && j + 2 <= |s| && AllSpace(s, e, j) && s[j] == '*' && s[j + 1] == '/' && SpaceThenLineEnd(s, j + 2)
  }

  /**
   * Alternative `alt` matches at start position `p` with its URL group spanning
   * `s[u..e]`: opener, `@` or `#`, white space, the keyword, a non-empty run of
   * URL characters, then the tail of that alternative.
   */
  ghost predicate IsMatch(alt: Alt, s: string, p: nat, u: nat, e: nat) {
    && p + 3 + |Keyword| <= u < e <= |s|
    && OpenerAt(alt, s, p)
    && AllSpace(s, p + 3, u - |Keyword|)
    && KeywordAt(s, u - |Keyword|)
    && AllUrl(alt, s, u, e)
    && TailMatches(alt, s, e)
  }

  /** Some alternative matches at start position `p`. */
  ghost predicate MatchesAt(s: string, p: nat) {
    exists alt, u, e :: IsMatch(alt, s, p, u, e)
  }

  // ---------------------------------------------------------------------------
  // The backtracking search
  // ---------------------------------------------------------------------------

  /** Greedy `[\s]*` from `i`: the end of the longest run of white space. */
  function SpaceEnd(s: string, i: nat): (j: nat)
    requires i <= |s|
    ensures i <= j <= |s|
    decreases |s| - i
  {
    if i == |s| || !IsSpace(s[i]) then i else SpaceEnd(s, i + 1)
  }

  /** Greedy URL run from `i`: the end of the longest run of URL characters. */
  function UrlEnd(alt: Alt, s: string, i: nat): (j: nat)
    requires i <= |s|
    ensures i <= j <= |s|
    decreases |s| - i
  {
    if i == |s| || !IsUrlChar(alt, s[i]) then i else UrlEnd(alt, s, i + 1)
  }

  /** `$` tried at `j`, then at `j - 1`, ... down to `i` (giving back the greedy run). */
  function LineEndWithin(s: string, i: nat, j: nat): (b: bool)
    requires i <= j <= |s|
    ensures b <==> exists k :: i <= k <= j && IsLineEnd(s, k)
    decreases j - i
  {
    IsLineEnd(s, j) || (i < j && LineEndWithin(s, i, j - 1))
  }

  /** `[\s]*$` at `i`. */
  predicate SpaceToLineEnd(s: string, i: nat)
    requires i <= |s|
  {
    LineEndWithin(s, i, SpaceEnd(s, i))
  }

  /** `\*\/[\s]*$` tried at `j`, then at `j - 1`, ... down to `i`. */
  function CloseWithin(s: string, i: nat, j: nat): (b: bool)
    requires i <= j <= |s|
    ensures b <==> exists k :: i <= k <= j && k + 2 <= |s| && s[k] == '*' && s[k + 1] == '/'
                              && SpaceToLineEnd(s, k + 2)
    decreases j - i
  {
    (j + 2 <= |s| && s[j] == '*' && s[j + 1] == '/' && SpaceToLineEnd(s, j + 2))
    || (i < j && CloseWithin(s, i, j - 1))
  }

  /** The tail of alternative `alt` at `e`, as the engine tries it. */
  predicate Tail(alt: Alt, s: string, e: nat)
    requires e <= |s|
  {
    match alt
    case LineComment => SpaceToLineEnd(s, e)
    case BlockComment => CloseWithin(s, e, SpaceEnd(s, e))
  }

  /**
   * The greedy URL group `[...]+` starting at `u`: URL ends `j`, `j - 1`, ...,
   * `u + 1` are tried in that order and the first one whose tail matches wins.
   */
  function LongestUrl(alt: Alt, s: string, u: nat, j: nat): (r: Option<nat>)
    requires u <= j <= |s|
    ensures r.Some? ==> u < r.value <= j
    decreases j - u
  {
    if j == u then None
    else if Tail(alt, s, j) then Some(j)
    else LongestUrl(alt, s, u, j - 1)
  }

  /** The span of a capture group. */
  datatype Span = Span(start: nat, end: nat)

  /** Alternative `alt` tried at start position `p`: the span of its URL group, if it matches. */
  function MatchAt(alt: Alt, s: string, p: nat): (r: Option<Span>)
    requires p <= |s|
    ensures r.Some? ==> p + 3 + |Keyword| <= r.value.start < r.value.end <= |s|
  {
    if OpenerAt(alt, s, p) then
      var k := SpaceEnd(s, p + 3);
      if KeywordAt(s, k) then
        var u := k + |Keyword|;
        match LongestUrl(alt, s, u, UrlEnd(alt, s, u))
        case Some(e) => Some(Span(u, e))
        case None => None
      else None
    else None
  }

  /** Both alternatives tried at `p`, the line-comment one first. */
  function Attempt(s: string, p: nat): (r: Option<(Alt, Span)>)
    requires p <= |s|
  {
    match MatchAt(LineComment, s, p)
    case Some(g) => Some((LineComment, g))
    case None =>
      match MatchAt(BlockComment, s, p)
      case Some(g) => Some((BlockComment, g))
      case None => None
  }

  /** Neither alternative matches at `q`, as the engine sees it. */
  predicate NoMatchEngine(s: string, q: nat)
    requires q <= |s|
  {
    Attempt(s, q).None?
  }

  /** The first match found by `find()`: its alternative, start position and group span. */
  datatype Hit = Hit(alt: Alt, pos: nat, group: Span)

  /** `find()` from start position `p`: the first position where an attempt succeeds. */
  function FindFrom(s: string, p: nat): (r: Option<Hit>)
    requires p <= |s|
    ensures r.Some? ==> p <= r.value.pos <= |s| && r.value.group.start < r.value.group.end <= |s|
    decreases |s| - p
  {
    match Attempt(s, p)
    case Some(a) => Some(Hit(a.0, p, a.1))
    case None => if p == |s| then None else FindFrom(s, p + 1)
  }

  /**
   * What `extractSourcemapUrl` produces: `Optional.empty()`, `Optional.of(url)`,
   * or the NullPointerException that `Optional.of(group(1))` raises when the
   * first match is a block comment (whose URL is in group 2, group 1 unset).
   */
  datatype Extraction = NoDirective | Url(url: string) | NullGroupError

  function ExtractSourcemapUrl(javascript: string): Extraction {
    match FindFrom(javascript, 0)
    case None => NoDirective
    case Some(h) =>
      if h.alt.LineComment? then Url(javascript[h.group.start..h.group.end]) else NullGroupError
  }

  /** A hit of the search from `p` is the result of the attempt at its position. */
  lemma {:induction false} FindFromHit(s: string, p: nat)
    requires p <= |s| && FindFrom(s, p).Some?
    ensures Attempt(s, FindFrom(s, p).value.pos) == Some((FindFrom(s, p).value.alt, FindFrom(s, p).value.group))
    decreases |s| - p
  {
    if Attempt(s, p).None? {
      FindFromHit(s, p + 1);
    }
  }

  /** The search from `p` passes over `q` only when no alternative matches at `q`. */
  lemma {:induction false} FindFromSkips(s: string, p: nat, q: nat)
    requires p <= q <= |s|
    requires FindFrom(s, p).None? || q < FindFrom(s, p).value.pos
    ensures NoMatchEngine(s, q)
    decreases q - p
  {
    if p < q {
      FindFromSkips(s, p + 1, q);
    }
  }

  // ---------------------------------------------------------------------------
  // The search agrees with the language
  // ---------------------------------------------------------------------------

  /** `SpaceEnd` ends a run of white space that cannot be extended. */
  lemma {:induction false} SpaceEndSpec(s: string, i: nat)
    requires i <= |s|
    ensures AllSpace(s, i, SpaceEnd(s, i)) && (SpaceEnd(s, i) == |s| || !IsSpace(s[SpaceEnd(s, i)]))
    decreases |s| - i
  {
    if i < |s| && IsSpace(s[i]) {
      SpaceEndSpec(s, i + 1);
    }
  }

  /** `UrlEnd` ends a run of URL characters that cannot be extended. */
  lemma {:induction false} UrlEndSpec(alt: Alt, s: string, i: nat)
    requires i <= |s|
    ensures AllUrl(alt, s, i, UrlEnd(alt, s, i)) && (UrlEnd(alt, s, i) == |s| || !IsUrlChar(alt, s[UrlEnd(alt, s, i)]))
    decreases |s| - i
  {
    if i < |s| && IsUrlChar(alt, s[i]) {
      UrlEndSpec(alt, s, i + 1);
    }
  }

  /** `LongestUrl` picks the largest end in `(u, j]` whose tail matches, and fails only if there is none. */
  lemma {:induction false} LongestUrlSpec(alt: Alt, s: string, u: nat, j: nat)
    requires u <= j <= |s|
    ensures var r := LongestUrl(alt, s, u, j);
            && (r.Some? ==> Tail(alt, s, r.value) && forall e :: r.value < e <= j ==> !Tail(alt, s, e))
            && (r.None? ==> forall e :: u < e <= j ==> !Tail(alt, s, e))
    decreases j - u
  {
    if j > u && !Tail(alt, s, j) {
      LongestUrlSpec(alt, s, u, j - 1);
    }
  }

  /** A white-space run from `i` reaches `j` exactly when `j` is at most the greedy end. */
  lemma {:induction false} SpaceRun(s: string, i: nat, j: nat)
    requires i <= j <= |s|
    ensures AllSpace(s, i, j) <==> j <= SpaceEnd(s, i)
  {
    SpaceEndSpec(s, i);
  }

  /** A URL run from `i` reaches `j` exactly when `j` is at most the greedy end. */
  lemma {:induction false} UrlRun(alt: Alt, s: string, i: nat, j: nat)
    requires i <= j <= |s|
    ensures AllUrl(alt, s, i, j) <==> j <= UrlEnd(alt, s, i)
  {
    UrlEndSpec(alt, s, i);
  }

  lemma {:induction false} SpaceToLineEndAgrees(s: string, i: nat)
    requires i <= |s|
    ensures SpaceToLineEnd(s, i) <==> SpaceThenLineEnd(s, i)
  {
    var r := SpaceEnd(s, i);
    if SpaceToLineEnd(s, i) {
      var k :| i <= k <= r && IsLineEnd(s, k);
      SpaceRun(s, i, k);
    }
    if SpaceThenLineEnd(s, i) {
      var j :| i <= j <= |s| && AllSpace(s, i, j) && IsLineEnd(s, j);
      SpaceRun(s, i, j);
    }
  }

  lemma {:induction false} BlockTailSound(s: string, e: nat)
    requires e <= |s| && CloseWithin(s, e, SpaceEnd(s, e))
    ensures TailMatches(BlockComment, s, e)
  {
    var k :| e <= k <= SpaceEnd(s, e) && k + 2 <= |s| && s[k] == '*' && s[k + 1] == '/' && SpaceToLineEnd(s, k + 2);
    SpaceRun(s, e, k);
    SpaceToLineEndAgrees(s, k + 2);
  }

  lemma {:induction false} BlockTailComplete(s: string, e: nat)
    requires e <= |s| && TailMatches(BlockComment, s, e)
    ensures CloseWithin(s, e, SpaceEnd(s, e))
  {
    var j :| e <= j && j + 2 <= |s| && AllSpace(s, e, j) && s[j] == '*' && s[j + 1] == '/' && SpaceThenLineEnd(s, j + 2);
    SpaceRun(s, e, j);
    SpaceToLineEndAgrees(s, j + 2);
  }

  /** The engine's tail test is the tail of the pattern. */
  lemma {:induction false} TailAgrees(alt: Alt, s: string, e: nat)
    requires e <= |s|
    ensures Tail(alt, s, e) <==> TailMatches(alt, s, e)
  {
    match alt
    case LineComment =>
      SpaceToLineEndAgrees(s, e);
    case BlockComment =>
      if Tail(alt, s, e) {
        BlockTailSound(s, e);
      }
      if TailMatches(alt, s, e) {
        BlockTailComplete(s, e);
      }
  }

  /** What `MatchAt` finds is a match of the pattern. */
  lemma {:induction false} MatchAtSound(alt: Alt, s: string, p: nat)
    requires p <= |s| && MatchAt(alt, s, p).Some?
    ensures IsMatch(alt, s, p, MatchAt(alt, s, p).value.start, MatchAt(alt, s, p).value.end)
  {
    var g := MatchAt(alt, s, p).value;
    LongestUrlSpec(alt, s, g.start, UrlEnd(alt, s, g.start));
    SpaceEndSpec(s, p + 3);
    UrlRun(alt, s, g.start, g.end);
    TailAgrees(alt, s, g.end);
  }

  /**
   * Every match of the pattern at `p` is seen by `MatchAt`, which picks the
   * same keyword position and a URL at least as long (the greedy choice).
   */
  lemma {:induction false} MatchAtComplete(alt: Alt, s: string, p: nat, u: nat, e: nat)
    requires IsMatch(alt, s, p, u, e)
    ensures MatchAt(alt, s, p).Some?
    ensures MatchAt(alt, s, p).value.start == u && e <= MatchAt(alt, s, p).value.end
  {
    KeywordAfterSpace(s, p + 3, u - |Keyword|);
    LongestUrlCovers(alt, s, u, e);
    MatchAtOf(alt, s, p, u);
  }

  /** `MatchAt` once the keyword is known to end at `u`. */
  lemma {:induction false} MatchAtOf(alt: Alt, s: string, p: nat, u: nat)
    requires OpenerAt(alt, s, p) && |Keyword| <= u <= |s|
    requires SpaceEnd(s, p + 3) == u - |Keyword| && KeywordAt(s, u - |Keyword|)
    requires LongestUrl(alt, s, u, UrlEnd(alt, s, u)).Some?
    ensures MatchAt(alt, s, p) == Some(Span(u, LongestUrl(alt, s, u, UrlEnd(alt, s, u)).value))
  {
  }

  /** The greedy white-space run before the keyword stops right at the keyword. */
  lemma {:induction false} KeywordAfterSpace(s: string, i: nat, k: nat)
    requires i <= k && KeywordAt(s, k) && AllSpace(s, i, k)
    ensures SpaceEnd(s, i) == k
  {
    assert s[k] == Keyword[0];
    SpaceEndSpec(s, i);
    SpaceRun(s, i, k);
  }

  /** The greedy URL search from `u` finds an end at least as large as any matching end. */
  lemma {:induction false} LongestUrlCovers(alt: Alt, s: string, u: nat, e: nat)
    requires u < e <= |s| && AllUrl(alt, s, u, e) && TailMatches(alt, s, e)
    ensures LongestUrl(alt, s, u, UrlEnd(alt, s, u)).Some?
    ensures e <= LongestUrl(alt, s, u, UrlEnd(alt, s, u)).value
  {
    UrlRun(alt, s, u, e);
    TailAgrees(alt, s, e);
    LongestUrlSpec(alt, s, u, UrlEnd(alt, s, u));
  }

  /**
   * `MatchAt` is sound, complete and greedy: it finds a group exactly when the
   * pattern admits one at `p`, and then the one with the longest URL.
   */
  lemma {:induction false} MatchAtAgrees(alt: Alt, s: string, p: nat)
    requires p <= |s|
    ensures MatchAt(alt, s, p).Some? ==>
              var g := MatchAt(alt, s, p).value;
              && IsMatch(alt, s, p, g.start, g.end)
              && forall u: nat, e: nat :: IsMatch(alt, s, p, u, e) ==> u == g.start && e <= g.end
    ensures MatchAt(alt, s, p).None? ==> forall u: nat, e: nat :: !IsMatch(alt, s, p, u, e)
  {
    forall u: nat, e: nat | IsMatch(alt, s, p, u, e)
      ensures MatchAt(alt, s, p).Some? && u == MatchAt(alt, s, p).value.start && e <= MatchAt(alt, s, p).value.end
    {
      MatchAtComplete(alt, s, p, u, e);
    }
    if MatchAt(alt, s, p).Some? {
      MatchAtSound(alt, s, p);
    }
  }

  /** A match of one alternative makes the engine's attempt at that position succeed. */
  lemma {:induction false} AttemptSucceeds(alt: Alt, s: string, p: nat, u: nat, e: nat)
    requires IsMatch(alt, s, p, u, e)
    ensures p <= |s| && Attempt(s, p).Some?
  {
    MatchAtComplete(alt, s, p, u, e);
  }

  /** A match in the language is a match of the engine. */
  lemma {:induction false} MatchesAtEngine(s: string, p: nat)
    requires MatchesAt(s, p)
    ensures p <= |s| && !NoMatchEngine(s, p)
  {
    var alt, u, e :| IsMatch(alt, s, p, u, e);
    AttemptSucceeds(alt, s, p, u, e);
  }

  /** A match of the engine is a match in the language. */
  lemma {:induction false} EngineMatches(s: string, p: nat)
    requires p <= |s| && !NoMatchEngine(s, p)
    ensures MatchesAt(s, p)
  {
    var alt := if MatchAt(LineComment, s, p).Some? then LineComment else BlockComment;
    MatchAtSound(alt, s, p);
    var g := MatchAt(alt, s, p).value;
    assert IsMatch(alt, s, p, g.start, g.end);
  }

  /** No match of either alternative at `p` in the language means none in the engine, and back. */
  lemma {:induction false} NoMatchAt(s: string, p: nat)
    ensures !MatchesAt(s, p) <==> p > |s| || NoMatchEngine(s, p)
  {
    if MatchesAt(s, p) {
      MatchesAtEngine(s, p);
    } else if p <= |s| && !NoMatchEngine(s, p) {
      EngineMatches(s, p);
    }
  }

  /** The engine's first hit is at the first start position where the pattern matches. */
  lemma {:induction false} FirstHit(s: string, p: nat)
    requires MatchesAt(s, p)
    requires forall q: nat :: q < p ==> !MatchesAt(s, q)
    ensures FindFrom(s, 0).Some? && FindFrom(s, 0).value.pos == p
  {
    MatchesAtEngine(s, p);
    var r := FindFrom(s, 0);
    if r.None? || p < r.value.pos {
      FindFromSkips(s, 0, p);
    } else if r.value.pos < p {
      FindFromHit(s, 0);
      EngineMatches(s, r.value.pos);
    }
  }

  // ---------------------------------------------------------------------------
  // Properties of extractSourcemapUrl
  // ---------------------------------------------------------------------------

  /** The result is empty exactly when no position of the text starts a directive. */
  lemma {:induction false} EmptyIffNoDirective(s: string)
    ensures ExtractSourcemapUrl(s) == NoDirective <==> forall p: nat :: !MatchesAt(s, p)
  {
    if ExtractSourcemapUrl(s) == NoDirective {
      forall p: nat ensures !MatchesAt(s, p) {
        if p <= |s| {
          FindFromSkips(s, 0, p);
        }
        NoMatchAt(s, p);
      }
    } else {
      FindFromHit(s, 0);
      var h := FindFrom(s, 0).value;
      NoMatchAt(s, h.pos);
    }
  }

  /** The engine's hit is a match of the pattern, and no earlier position starts one. */
  lemma {:induction false} HitIsLeftmostMatch(s: string)
    requires FindFrom(s, 0).Some?
    ensures var h := FindFrom(s, 0).value;
            && IsMatch(h.alt, s, h.pos, h.group.start, h.group.end)
            && forall q: nat :: q < h.pos ==> !MatchesAt(s, q)
  {
    FindFromHit(s, 0);
    var h := FindFrom(s, 0).value;
    assert MatchAt(h.alt, s, h.pos) == Some(h.group);
    MatchAtSound(h.alt, s, h.pos);
    forall q: nat | q < h.pos ensures !MatchesAt(s, q) {
      FindFromSkips(s, 0, q);
      NoMatchAt(s, q);
    }
  }

  /**
   * Only the leftmost match counts: when `p` is the first start position where
   * the pattern matches and the line-comment alternative matches there, the
   * result is its longest URL, whatever the text holds after that match.
   */
  lemma {:induction false} LeftmostLineDecides(s: string, p: nat, u: nat, e: nat)
    requires IsMatch(LineComment, s, p, u, e)
    requires forall e': nat :: IsMatch(LineComment, s, p, u, e') ==> e' <= e
    requires forall q: nat :: q < p ==> !MatchesAt(s, q)
    ensures ExtractSourcemapUrl(s) == Url(s[u..e])
  {
    MatchAtComplete(LineComment, s, p, u, e);
    MatchAtSound(LineComment, s, p);
    var g := MatchAt(LineComment, s, p).value;
    assert g == Span(u, e);
    assert Attempt(s, p) == Some((LineComment, g));
    FirstHit(s, p);
    FindFromHit(s, 0);
  }

  /**
   * When the first match starts at `p` and only the block-comment alternative
   * matches there, the call fails on the unset group 1.
   */
  lemma {:induction false} LeftmostBlockDecides(s: string, p: nat)
    requires MatchesAt(s, p)
    requires forall u: nat, e: nat :: !IsMatch(LineComment, s, p, u, e)
    requires forall q: nat :: q < p ==> !MatchesAt(s, q)
    ensures ExtractSourcemapUrl(s) == NullGroupError
  {
    FirstHit(s, p);
    HitIsLeftmostMatch(s);
  }

  /** `s[p..k]` is `//`, then `@` or `#`, then white space. */
  ghost predicate Introduces(s: string, p: nat, k: nat) {
    && p + 3 <= k <= |s|
    && s[p..p + 2] == "//" && (s[p + 2] == '@' || s[p + 2] == '#')
    && AllSpace(s, p + 3, k)
  }

  /** A returned URL is non-empty and holds no white space and no quote. */
  lemma {:induction false} ReturnedUrlChars(s: string, url: string)
    requires ExtractSourcemapUrl(s) == Url(url)
    ensures |url| > 0
    ensures forall i :: 0 <= i < |url| ==> !IsSpace(url[i]) && url[i] != '\'' && url[i] != '"'
  {
    HitIsLeftmostMatch(s);
    var h := FindFrom(s, 0).value;
    var u, e := h.group.start, h.group.end;
    assert url == s[u..e];
    forall i | 0 <= i < |url| ensures !IsSpace(url[i]) && url[i] != '\'' && url[i] != '"' {
      assert url[i] == s[u + i];
    }
  }

  /**
   * `s[p..]` starts a line-comment directive whose keyword is at `k` and whose
   * URL is `url`, followed only by white space up to a line end.  This is
   * `IsMatch(LineComment, ...)` with the keyword start and the URL text spelled
   * out for callers, as `LineMatchIsDirective` shows.
   */
  ghost predicate DirectiveAt(s: string, p: nat, k: nat, url: string) {
    && Introduces(s, p, k) && k + |Keyword| + |url| <= |s|
    && s[k..k + |Keyword|] == Keyword
    && s[k + |Keyword|..k + |Keyword| + |url|] == url
    && TailMatches(LineComment, s, k + |Keyword| + |url|)
  }

  lemma {:induction false} LineMatchIsDirective(s: string, p: nat, u: nat, e: nat)
    requires IsMatch(LineComment, s, p, u, e)
    ensures DirectiveAt(s, p, u - |Keyword|, s[u..e])
  {
    assert s[p..p + 2] == "//";
  }

  /**
   * A returned URL follows `//`, `@` or `#`, optional white space and
   * `sourceMappingURL=`, is followed only by white space up to a line end, and
   * belongs to the first directive of the text.
   */
  lemma {:induction false} ReturnedUrlContext(s: string, url: string)
    requires ExtractSourcemapUrl(s) == Url(url)
    ensures exists p: nat, k: nat :: DirectiveAt(s, p, k, url) && forall q: nat :: q < p ==> !MatchesAt(s, q)
  {
    HitIsLeftmostMatch(s);
    var h := FindFrom(s, 0).value;
    LineMatchIsDirective(s, h.pos, h.group.start, h.group.end);
  }

  /**
   * The call fails with an unset group 1 exactly when the leftmost match is of
   * the block-comment alternative.
   */
  lemma {:induction false} NullGroupIffBlockFirst(s: string)
    ensures ExtractSourcemapUrl(s) == NullGroupError <==>
              exists p: nat, u: nat, e: nat :: IsMatch(BlockComment, s, p, u, e) && forall q: nat :: q < p ==> !MatchesAt(s, q)
  {
    if ExtractSourcemapUrl(s) == NullGroupError {
      HitIsLeftmostMatch(s);
      var h := FindFrom(s, 0).value;
      assert IsMatch(BlockComment, s, h.pos, h.group.start, h.group.end);
    }
    if p: nat, u: nat, e: nat :| IsMatch(BlockComment, s, p, u, e) && forall q: nat :: q < p ==> !MatchesAt(s, q) {
      assert s[p + 1] == '*';
      assert forall u': nat, e': nat :: !IsMatch(LineComment, s, p, u', e');
      LeftmostBlockDecides(s, p);
    }
  }
}
