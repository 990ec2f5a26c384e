# SourceMapLoader, modelled in Dafny

This project models the three text routines of `SourceMapLoader`:

- **`extractSourcemapUrl`** finds the first `sourceMappingURL` directive in a script and returns its URL. The model is the module `SourcemapComment`.
- **The pure part of `load`** does three things. It decides whether a locator is an inline `data:application/json…base64,` URL. If so, it decodes the payload after the first comma with the basic Base64 alphabet of section 4 of RFC 4648, as `java.util.Base64.getDecoder()` does. Otherwise it refuses every resolved URL that is not a `file:` URL, with `ForbiddenUrlProtocolError`. The model is the modules `SourcemapLoad` and `Base64`.
- **`formatSourceStackTrace`** turns a 1-based generated position into the 0-based key of a source-map lookup, and renders the mapping it finds as a Node.js-style frame `symbol (file:line:column)`. The model is the module `StackTraceFormat`.

Dafny has no regular expressions, so the directive pattern is modelled twice:

- `IsMatch` is the language of each alternative: which start positions and URL spans the pattern admits.
- `MatchAt`, `Attempt` and `FindFrom` follow the backtracking engine of `Matcher.find()`:
  - start positions in increasing order;
  - the line-comment alternative before the block-comment one;
  - greedy runs that give back one character at a time.

Lemmas prove that the engine finds exactly the matches of the language, and picks the longest URL at the leftmost start.

Java semantics the model keeps:

- `\s` is space, `\t`, `\n`, `\x0B`, `\f` and `\r`.
- `$` under MULTILINE matches at the end of input, before `\r`, U+0085, U+2028 or U+2029, and before a `\n` not preceded by `\r`.
- The block-comment alternative stores its URL in group 2. So when it is the leftmost match, `Optional.of(group(1))` throws. The model returns the outcome `NullGroupError` for that case.
- The Java Base64 decoder:
  - accepts a final unit of two or three symbols without padding;
  - ignores the unused low bits of the last symbol;
  - rejects a lone final symbol, wrong padding, text after the padding, and any character outside the alphabet.
- `int` arithmetic wraps around: `line - 1`, and `getSourceLine() + 1`.
- A null symbol or file name prints as `null`.

## Model

| member | source | states |
|---|---|---|
| `SourcemapComment.ExtractSourcemapUrl` | src/main/java/SourceMapLoader.java:37-45 | `extractSourcemapUrl`: one leftmost `find()` from position 0, then group 1 of the hit. Its contract is stated by `EmptyIffNoDirective` (empty exactly when nothing matches), `LeftmostLineDecides` and `LeftmostBlockDecides` (the leftmost match decides), `NullGroupIffBlockFirst` (a block-comment first match fails on the unset group 1), and `ReturnedUrlChars` and `ReturnedUrlContext` (what a returned URL looks like and what surrounds it) |
| `SourcemapComment.FindFrom` | src/main/java/SourceMapLoader.java:22-25 | `find()` of the compiled pattern: start positions are tried in order from `p`, up to and including the end of the text. `FirstHit`, `FindFromHit`, `FindFromSkips` and `HitIsLeftmostMatch` state that it stops at the first position where the pattern matches |
| `SourcemapComment.Attempt` | src/main/java/SourceMapLoader.java:22-23 | one start position: the line-comment alternative is tried first, then the block-comment one. `AttemptSucceeds`, `NoMatchAt`, `MatchesAtEngine` and `EngineMatches` state that it succeeds exactly when the pattern admits a match there |
| `SourcemapComment.MatchAt` | src/main/java/SourceMapLoader.java:22-23 | one alternative at one position: the opener, greedy `[\s]*`, the keyword, and the greedy URL group with give-back until the tail matches. The URL group starts after the keyword and is non-empty. `MatchAtAgrees`, `MatchAtSound` and `MatchAtComplete` relate it to the language of the alternative |
| `SourcemapComment.EmptyIffNoDirective` | src/main/java/SourceMapLoader.java:39-43 | the result is empty exactly when no start position of the text admits either alternative of the pattern |
| `SourcemapComment.LeftmostLineDecides` | src/main/java/SourceMapLoader.java:40-44 | suppose `p` is the first start position with a match, and the line-comment alternative matches there. Then the result is the longest URL that alternative admits at `p`, whatever text follows |
| `SourcemapComment.LeftmostBlockDecides` | src/main/java/SourceMapLoader.java:23-44 | suppose the first match starts at `p` and only the block-comment alternative matches there. Then the call fails, because group 1 is unset |
| `SourcemapComment.NullGroupIffBlockFirst` | src/main/java/SourceMapLoader.java:22-44 | the call fails on a null group 1 exactly when the leftmost match is of the block-comment alternative |
| `SourcemapComment.ReturnedUrlChars` | src/main/java/SourceMapLoader.java:22 | a returned URL is non-empty and holds no white space, `'` or `"` |
| `SourcemapComment.ReturnedUrlContext` | src/main/java/SourceMapLoader.java:22-25 | a returned URL is preceded by `//`, `@` or `#`, white space and `sourceMappingURL=`. It is followed only by white space up to a MULTILINE line end. No earlier position starts a match |
| `SourcemapComment.LineMatchIsDirective` | src/main/java/SourceMapLoader.java:22 | every match of the line-comment alternative has the shape of a directive around its URL group |
| `SourcemapComment.HitIsLeftmostMatch` | src/main/java/SourceMapLoader.java:39-40 | the engine's hit is a match of the pattern, and no earlier start position admits one |
| `SourcemapComment.FirstHit` | src/main/java/SourceMapLoader.java:40 | the search from position 0 stops at the first start position where the pattern matches |
| `SourcemapComment.FindFromHit` | src/main/java/SourceMapLoader.java:40 | the hit of the search is the result of the attempt at its position |
| `SourcemapComment.FindFromSkips` | src/main/java/SourceMapLoader.java:40 | the search passes over a position only when neither alternative matches there |
| `SourcemapComment.NoMatchAt` | src/main/java/SourceMapLoader.java:22-23 | the engine finds no match at `p` exactly when the pattern admits none there |
| `SourcemapComment.MatchesAtEngine` | src/main/java/SourceMapLoader.java:22-23 | a match the pattern admits is found by the engine's attempt at that position |
| `SourcemapComment.EngineMatches` | src/main/java/SourceMapLoader.java:22-23 | a successful attempt of the engine is a match of the pattern |
| `SourcemapComment.AttemptSucceeds` | src/main/java/SourceMapLoader.java:22-23 | the attempt at a start position succeeds whenever either alternative matches there |
| `SourcemapComment.MatchAtAgrees` | src/main/java/SourceMapLoader.java:22-23 | one alternative at one position finds a group exactly when the pattern admits one. That group is a match, with the only possible keyword end and the longest URL |
| `SourcemapComment.MatchAtSound` | src/main/java/SourceMapLoader.java:22-23 | the group an alternative finds is a match of the pattern |
| `SourcemapComment.MatchAtComplete` | src/main/java/SourceMapLoader.java:22-23 | every match of an alternative is seen, with the same URL start and an end at least as far |
| `SourcemapComment.KeywordAfterSpace` | src/main/java/SourceMapLoader.java:22-23 | the greedy `[\s]*` after the opener ends exactly where the keyword starts |
| `SourcemapComment.LongestUrlCovers` | src/main/java/SourceMapLoader.java:22-23 | the greedy URL group finds an end at least as far as any end the pattern admits |
| `SourcemapComment.LongestUrlSpec` | src/main/java/SourceMapLoader.java:22-23 | the backtracking URL search picks the largest end whose tail matches, and fails only when none does |
| `SourcemapComment.SpaceEndSpec` | src/main/java/SourceMapLoader.java:22 | greedy `[\s]*` ends a run of white space that cannot be extended |
| `SourcemapComment.UrlEndSpec` | src/main/java/SourceMapLoader.java:22-23 | the greedy URL group ends a run of admitted characters that cannot be extended |
| `SourcemapComment.SpaceRun` | src/main/java/SourceMapLoader.java:22 | a white-space run from `i` reaches `j` exactly when `j` is at most the greedy end |
| `SourcemapComment.UrlRun` | src/main/java/SourceMapLoader.java:22-23 | a URL run from `i` reaches `j` exactly when `j` is at most the greedy end |
| `SourcemapComment.LineEndWithin` | src/main/java/SourceMapLoader.java:22-25 | trying `$` at every position the greedy run gives back succeeds exactly when some such position is a MULTILINE line end |
| `SourcemapComment.CloseWithin` | src/main/java/SourceMapLoader.java:23 | trying `*/[\s]*$` at every position given back succeeds exactly when one of them admits it |
| `SourcemapComment.SpaceToLineEndAgrees` | src/main/java/SourceMapLoader.java:22-25 | the engine's `[\s]*$` test is the language of `[\s]*$` |
| `SourcemapComment.BlockTailSound` | src/main/java/SourceMapLoader.java:23 | a block-comment tail the engine accepts is admitted by the pattern |
| `SourcemapComment.BlockTailComplete` | src/main/java/SourceMapLoader.java:23 | a block-comment tail the pattern admits is accepted by the engine |
| `SourcemapComment.TailAgrees` | src/main/java/SourceMapLoader.java:22-23 | the engine's tail test after the URL is the tail of the pattern, for both alternatives |
| `SourcemapLoad.IsInlineUrl` | src/main/java/SourceMapLoader.java:59 | the test `sourcemapDataUrlPattern.matcher(url).find()`. `InlineIffPatternMatches` states that it holds exactly when a prefix matches `^data:application/json[^,]+base64,` |
| `SourcemapLoad.InlinePayload` | src/main/java/SourceMapLoader.java:61 | `url.substring(url.indexOf(',') + 1)`. `InlineIffPatternMatches` and `InlineIgnoresBase` state that this is the text after the matched prefix, because the prefix ends at the first comma |
| `SourcemapLoad.InlineIffPatternMatches` | src/main/java/SourceMapLoader.java:28-61 | the URL is inline exactly when some prefix matches `^data:application/json[^,]+base64,`. Every such prefix ends at the first comma, so the payload is the text after the matched prefix |
| `SourcemapLoad.PrefixHasNoComma` | src/main/java/SourceMapLoader.java:28 | no character of the `data:application/json` prefix is a comma |
| `SourcemapLoad.IndexOf` | src/main/java/SourceMapLoader.java:61 | `indexOf(',')` is the first index of the character, or -1 exactly when it does not occur |
| `SourcemapLoad.Load` | src/main/java/SourceMapLoader.java:54-80 | a file is read only for a non-inline URL whose resolved form starts with `file:`, and that resolved URL names the file. Any other resolved URL `theUrl` gives `ForbiddenUrlProtocolError("Cannot load URL: " + theUrl)`, naming the resolved URL. A non-inline URL that cannot be resolved gives `MalformedUrl` |
| `SourcemapLoad.InlineIgnoresBase` | src/main/java/SourceMapLoader.java:59-63 | for an inline URL, the outcome does not depend on the base URL or on resolution, no file is read, and the bytes are the Base64 decoding of the text after the matched prefix |
| `Base64.CharOf` | src/main/java/SourceMapLoader.java:62 | every 6-bit value has an alphabet symbol, and decoding that symbol gives the value back |
| `Base64.Encode` | src/main/java/SourceMapLoader.java:62 | the padded encoding has four characters per started three-byte group |
| `Base64.Decode` | src/main/java/SourceMapLoader.java:62 | `Base64.getDecoder().decode`, full units first and then the last unit. A successful decoding used only alphabet symbols and `=`. `DecodeSucceedsIff` states exactly which inputs it rejects, `DecodeLength` the length of its result, and `DecodeEncode` and `DecodeUnpadded` the round trips with `Encode` |
| `Base64.DecodeLast` | src/main/java/SourceMapLoader.java:62 | the last unit of the JDK decoder: empty, two or three symbols, `xx==` or `xxx=`, and nothing else. `DecodeLastIff` states which final units it accepts |
| `Base64.DecodeSucceedsIff` | src/main/java/SourceMapLoader.java:62 | the decoder succeeds exactly when the input, with its trailing `=` removed, consists only of alphabet symbols, does not end in a lone symbol of a unit, and has either no padding or exactly the padding that completes the last unit. So wrong or misplaced padding (`QQ=`, `QQ==QQ==`, `====`, `AAAA=`) is rejected, which is the `IllegalArgumentException` of `decode` |
| `Base64.AllAlphabetAppend` | src/main/java/SourceMapLoader.java:62 | four alphabet symbols in front of a text do not change whether it holds only alphabet symbols |
| `Base64.FullUnitWellFormed` | src/main/java/SourceMapLoader.java:62 | a leading unit of four alphabet symbols does not change whether the input is well formed |
| `Base64.DecodeLastIff` | src/main/java/SourceMapLoader.java:62 | the last unit is accepted exactly when the input is well formed, given that it does not start with four alphabet symbols |
| `Base64.DecodeLength` | src/main/java/SourceMapLoader.java:62 | a successful decoding never leaves one symbol in the last unit. Its length is three quarters of the input length without the trailing padding, rounded down |
| `Base64.UnitLength` | src/main/java/SourceMapLoader.java:62 | a leading unit of four symbols adds three bytes and leaves the padding count unchanged |
| `Base64.DecodeEncode` | src/main/java/SourceMapLoader.java:62 | decoding undoes encoding: `Decode(Encode(b)) == Some(b)` for every byte sequence |
| `Base64.DecodeEncodeUnit` | src/main/java/SourceMapLoader.java:62 | the round trip extends from the rest of the bytes to one more leading group of three |
| `Base64.DecodeUnpadded` | src/main/java/SourceMapLoader.java:62 | the Java decoder does not require padding: the encoding with its `=` removed decodes to the same bytes |
| `Base64.DecodeUnpaddedUnit` | src/main/java/SourceMapLoader.java:62 | the unpadded round trip extends to one more leading group of three |
| `Base64.DecodeEncodeTriple` | src/main/java/SourceMapLoader.java:62 | four symbols encoding three bytes decode to those bytes |
| `Base64.DecodeEncodeOne` | src/main/java/SourceMapLoader.java:62 | the padded and unpadded encodings of one byte both decode to it |
| `Base64.DecodeEncodeTwo` | src/main/java/SourceMapLoader.java:62 | the padded and unpadded encodings of two bytes both decode to them |
| `Base64.StripPadding` | src/main/java/SourceMapLoader.java:62 | the text with its trailing `=` removed is a prefix of the input, is followed only by `=`, and does not itself end in `=` |
| `Base64.StripPaddingAppend` | src/main/java/SourceMapLoader.java:62 | removing trailing padding does not reach into a prefix that does not end in `=` |
| `StackTraceFormat.FormatSourceStackTrace` | src/main/java/SourceMapLoader.java:92-106 | the result is empty exactly when the lookup at the 0-based key gives no mapping |
| `StackTraceFormat.LookupKey` | src/main/java/SourceMapLoader.java:95 | the key is `(line - 1, column - 1)` wherever that does not overflow a Java `int` |
| `StackTraceFormat.Wrap` | src/main/java/SourceMapLoader.java:95-104 | a result agrees with the exact value modulo 2^32, and equals it inside the `int` range |
| `StackTraceFormat.Render` | src/main/java/SourceMapLoader.java:102-104 | `String.format("%s (%s:%d:%d)", …)` with the 0-based source position made 1-based. `FrameShape` and `RenderedPositionReadsBack` state the exact text and its read-back |
| `StackTraceFormat.FrameShape` | src/main/java/SourceMapLoader.java:95-105 | with a mapping at the key, the frame is exactly the symbol, ` (`, the file, `:`, the `%d` text of the source line plus one, `:`, the `%d` text of the source column plus one, and `)`. Its trailing position reads back as those two numbers |
| `StackTraceFormat.RenderedPositionReadsBack` | src/main/java/SourceMapLoader.java:102-104 | whatever the symbol and file names hold, the trailing `:line:column)` of a frame reads back as the source position plus one |
| `StackTraceFormat.TrailingPositionOf` | src/main/java/SourceMapLoader.java:102 | a text ending in `:l:c)` with no colon in `l` or `c` yields the values of `l` and `c` |
| `StackTraceFormat.ParseFormatInt` | src/main/java/SourceMapLoader.java:102-104 | what `%d` prints reads back as the number, negative numbers included |
| `StackTraceFormat.DigitsValueOfNatDigits` | src/main/java/SourceMapLoader.java:102-104 | the decimal digits of a natural number have that value |
| `StackTraceFormat.NatDigits` | src/main/java/SourceMapLoader.java:102-104 | a natural number prints as a non-empty string of digits with no leading zero |
| `StackTraceFormat.FormatInt` | src/main/java/SourceMapLoader.java:102-104 | `%d` prints a leading minus sign exactly for a negative number, then digits with no leading zero (`0` alone for zero) |
| `StackTraceFormat.AllDigitsFrom` | src/main/java/SourceMapLoader.java:102-104 | the test holds exactly when every character from the index on is a digit |
| `StackTraceFormat.LastIndexOf` | src/main/java/SourceMapLoader.java:102 | the last index of a character, with no occurrence after it |
| `StackTraceFormat.LastIndexOfAfter` | src/main/java/SourceMapLoader.java:102 | the last occurrence of `c` in `x + [c] + y` is at index `|x|` when `y` holds no `c` |

## Left out

- The file read (`Files.readAllBytes`, line 76), `toURI`/`Paths.get` (line 75) and the UTF-8 decoding of the bytes (line 79) are I/O and library decoding. A `file:` URL ends in the outcome `ReadFile` naming the URL, and an inline URL yields its decoded bytes. `IOException` and `URISyntaxException` are not modelled.
- Null arguments (`javascript`, `url`, `baseUrl` or `sourceMap` being `null`) make the Java code throw `NullPointerException` or `MalformedURLException`. Dafny strings and functions cannot be null, so these cases are not modelled.
- URL resolution (`new URL(baseUrl)` and `new URL(base, url)`, lines 66-67) is library behaviour. It is a parameter of `Load`; `None` from it stands for `MalformedURLException`.
- The Atlassian `SourceMap` parser and its `getMapping` lookup are an external library. The lookup is a parameter of `FormatSourceStackTrace`, any total function from a key to an optional mapping.
- src/main/java/SourcemapTest.java is a demo program with hard-coded paths and console output. It is not modelled.
- `String.format` uses the default locale. The model assumes a locale that prints ASCII digits and `-` for `%d`.
- Java strings are UTF-16 code-unit sequences, while Dafny's `char` is a Unicode scalar value. The pattern's character classes only test characters of the Basic Multilingual Plane, so the two views agree on which positions match, up to the indexing of supplementary characters.
- The texts of the `IllegalArgumentException` and `MalformedURLException` messages are not modelled. `ForbiddenUrlProtocolError`'s message, `"Cannot load URL: "` followed by the resolved URL, is modelled.
- `SourcemapComment.LeftmostLineDecides`: "later directives do not change the result" is stated as "the leftmost match decides". It is not stated as "appending text keeps the result", because that is false. Appending `*/` to `"/*#sourceMappingURL=//#sourceMappingURL=y \n"` creates an earlier block-comment match: its `[\s]*` may span the line break. That flips the result from a URL to the null-group failure.
