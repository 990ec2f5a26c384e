/**
 * The pure part of `SourceMapLoader.load(url, baseUrl)`: deciding whether the
 * URL is an inline `data:` source map, decoding its Base64 payload, and the
 * protocol gate that lets only `file:` URLs through to a file read.
 *
 * URL resolution (`new URL(baseUrl)`, `new URL(base, url)`) is library code and
 * is a parameter here; the file read and the UTF-8 decoding that follow are
 * not modelled, so a `file:` URL ends in the outcome `ReadFile`, which names
 * the file that would be read.
 */
module SourcemapLoad {
  import opened Wrappers
  import Base64

  const DataPrefix: string := "data:application/json"
  const Marker: string := "base64,"

  /** `s` begins with `prefix` (Java's `String.startsWith`). */
  predicate StartsWith(s: string, prefix: string) {
    |prefix| <= |s| && s[..|prefix|] == prefix
  }

  /** Java's `String.indexOf(char)`: the first index of `c`, or -1. */
  function IndexOf(s: string, c: char): (i: int)
    ensures -1 <= i < |s|
    ensures i == -1 <==> forall k :: 0 <= k < |s| ==> s[k] != c
    ensures i >= 0 ==> s[i] == c && forall k :: 0 <= k < i ==> s[k] != c
  {
    if |s| == 0 then -1
    else if s[0] == c then 0
    else
      var r := IndexOf(s[1..], c);
      if r < 0 then -1 else r + 1
  }

  /**
   * The pattern `^data:application/json[^,]+base64,` matches `url[..m]`:
   * the prefix, one or more characters other than a comma, then `base64,`.
   */
  ghost predicate DataUrlMatch(url: string, m: nat) {
    && |DataPrefix| + 1 + |Marker| <= m <= |url|
    && StartsWith(url, DataPrefix)
    && (forall k :: |DataPrefix| <= k < m - |Marker| ==> url[k] != ',')
    && url[m - |Marker|..m] == Marker
  }

  /**
   * The test `sourcemapDataUrlPattern.matcher(url).find()`: the URL begins with
   * `data:application/json`, and the text before its first comma is at least
   * seven characters past that prefix and ends in `base64`.
   */
  predicate IsInlineUrl(url: string) {
    && StartsWith(url, DataPrefix)
    && var c := IndexOf(url, ',');
       c >= |DataPrefix| + |Marker| && url[c - 6..c] == "base64"
  }

  /** `url.substring(url.indexOf(',') + 1)`: everything after the first comma. */
  function InlinePayload(url: string): string
    requires IsInlineUrl(url)
  {
    url[IndexOf(url, ',') + 1..]
  }

  /** No character of the data prefix is a comma. */
  lemma {:induction false} PrefixHasNoComma(url: string, k: nat)
    requires StartsWith(url, DataPrefix) && k < |DataPrefix|
    ensures url[k] != ','
  {
    assert url[k] == url[..|DataPrefix|][k] == DataPrefix[k];
  }

  /**
   * The inline test is the pattern: it holds exactly when some prefix of the
   * URL matches, and the only such prefix ends at the URL's first comma, so
   * the payload is the text after the matched prefix.
   */
  lemma {:induction false} InlineIffPatternMatches(url: string)
    ensures IsInlineUrl(url) <==> exists m: nat :: DataUrlMatch(url, m)
    ensures forall m: nat :: DataUrlMatch(url, m) ==> IndexOf(url, ',') == m - 1 && InlinePayload(url) == url[m..]
  {
    forall m: nat | DataUrlMatch(url, m)
      ensures IndexOf(url, ',') == m - 1 && IsInlineUrl(url)
    {
      assert url[m - 1] == Marker[6] == ',';
      forall k | 0 <= k < m - 1 ensures url[k] != ',' {
        if k < |DataPrefix| {
          PrefixHasNoComma(url, k);
        } else if k >= m - |Marker| {
          assert url[k] == url[m - |Marker|..m][k - (m - |Marker|)] == Marker[k - (m - |Marker|)];
        }
      }
      forall i | 0 <= i < 6 ensures url[m - 7 + i] == "base64"[i] {
        assert url[m - 7 + i] == url[m - |Marker|..m][i] == Marker[i];
      }
      assert url[m - 7..m - 1] == "base64";
    }
    if IsInlineUrl(url) {
      var c := IndexOf(url, ',');
      forall k | |DataPrefix| <= k < c - 6 ensures url[k] != ',' {}
      assert url[c - 6..c + 1] == url[c - 6..c] + [url[c]];
      assert DataUrlMatch(url, c + 1);
    }
  }

  /** What a call of `load` comes to. */
  datatype LoadOutcome =
    | Inline(content: seq<Base64.Byte>)          // decoded `data:` payload; no file is read
    | ReadFile(fileUrl: string)                  // the resolved `file:` URL whose file is then read
    | ForbiddenUrlProtocolError(message: string) // resolved URL with another protocol
    | MalformedUrl                               // `new URL(...)` threw MalformedURLException
    | IllegalBase64                              // the decoder threw IllegalArgumentException

  /**
   * `load(url, baseUrl)`, with `resolve(baseUrl, url)` standing for
   * `new URL(new URL(baseUrl), url).toString()` (`None` when either
   * constructor throws).
   */
  function Load(url: string, baseUrl: string, resolve: (string, string) -> Option<string>): (r: LoadOutcome)
    // a file is read only for a non-inline URL resolving to a `file:` URL, and it is that URL's file
    ensures r.ReadFile? <==> !IsInlineUrl(url) && resolve(baseUrl, url).Some? && StartsWith(resolve(baseUrl, url).value, "file:")
    ensures r.ReadFile? ==> r.fileUrl == resolve(baseUrl, url).value
    // a locator that cannot be resolved is a malformed URL
    ensures !IsInlineUrl(url) && resolve(baseUrl, url).None? ==> r == MalformedUrl
    // any other protocol is refused before a read
    ensures !IsInlineUrl(url) && resolve(baseUrl, url).Some? && !StartsWith(resolve(baseUrl, url).value, "file:") ==>
              r == ForbiddenUrlProtocolError("Cannot load URL: " + resolve(baseUrl, url).value)
  {
    if IsInlineUrl(url) then
      match Base64.Decode(InlinePayload(url))
      case Some(bytes) => Inline(bytes)
      case None => IllegalBase64
    else
      match resolve(baseUrl, url)
      case None => MalformedUrl
      case Some(theUrl) =>
        if !StartsWith(theUrl, "file:") then ForbiddenUrlProtocolError("Cannot load URL: " + theUrl)
        else ReadFile(theUrl)
  }

  /**
   * An inline URL is decoded from the text after its matched prefix alone: the
   * outcome does not depend on the base URL or on resolution, and no file is read.
   */
  lemma {:induction false} InlineIgnoresBase(url: string, base1: string, base2: string,
                                             resolve1: (string, string) -> Option<string>,
                                             resolve2: (string, string) -> Option<string>)
    requires IsInlineUrl(url)
    ensures Load(url, base1, resolve1) == Load(url, base2, resolve2)
    ensures !Load(url, base1, resolve1).ReadFile?
    ensures forall m: nat :: DataUrlMatch(url, m) ==>
              Load(url, base1, resolve1) == (match Base64.Decode(url[m..])
                                             case Some(bytes) => Inline(bytes)
                                             case None => IllegalBase64)
  {
    InlineIffPatternMatches(url);
  }
}
