/**
 * `SourceMapLoader.formatSourceStackTrace(sourceMap, line, column)`: look up
 * the generated position in a parsed source map and render the original
 * position the way Node.js prints a stack frame, `symbol (file:line:column)`.
 *
 * The source-map parser and its `getMapping` lookup are an external library,
 * so the lookup is a parameter: any total function from a 0-based
 * (line, column) key to an optional mapping.  Java `int` arithmetic wraps
 * around, so the model computes `line - 1` and `getSourceLine() + 1` modulo
 * 2^32, and `%d` prints negative values with a minus sign.
 */
module StackTraceFormat {
  import opened Wrappers

  type Int32 = x: int | -0x8000_0000 <= x < 0x8000_0000

  /** Two's-complement wrap-around of a Java `int` result. */
  function Wrap(x: int): (r: Int32)
    ensures (r - x) % 0x1_0000_0000 == 0
    ensures -0x8000_0000 <= x < 0x8000_0000 ==> r == x
  {
    (x + 0x8000_0000) % 0x1_0000_0000 - 0x8000_0000
  }

  /**
   * The fields of a `com.atlassian.sourcemap.Mapping` that the frame uses; the
   * symbol and file names are Java references and may be null (`None`).
   */
  datatype Mapping = Mapping(sourceSymbolName: Option<string>, sourceFileName: Option<string>,
                             sourceLine: Int32, sourceColumn: Int32)

  /** `%s` of a possibly null string. */
  function Text(s: Option<string>): string {
    match s
    case Some(t) => t
    case None => "null"
  }

  predicate IsDigit(c: char) {
    '0' <= c <= '9'
  }

  ghost predicate AllDigits(s: string) {
    forall i :: 0 <= i < |s| ==> IsDigit(s[i])
  }

  function DigitChar(d: nat): (c: char)
    requires d < 10
    ensures IsDigit(c) && c as int - '0' as int == d
  {
    ('0' as int + d) as char
  }

  /** Decimal digits of `n`, most significant first, with no leading zero. */
  function NatDigits(n: nat): (s: string)
    ensures |s| > 0 && AllDigits(s)
    ensures |s| > 1 ==> s[0] != '0'
    ensures s[0] == '0' <==> n == 0
    decreases n
  {
    if n < 10 then [DigitChar(n)] else NatDigits(n / 10) + [DigitChar(n % 10)]
  }

  /** `%d` of a Java `int`. */
  function FormatInt(n: int): (s: string)
    ensures |s| > 0 && forall i :: 0 <= i < |s| ==> IsDigit(s[i]) || (i == 0 && s[i] == '-')
    // a minus sign exactly for negative numbers, and no leading zero after it
    ensures (s[0] == '-') == (n < 0)
    ensures n < 0 ==> |s| > 1 && s[1] != '0'
    ensures n >= 0 ==> (s[0] == '0' <==> n == 0) && (|s| > 1 ==> s[0] != '0')
  {
    if n < 0 then "-" + NatDigits(-n) else NatDigits(n)
  }

  /** The value of a decimal digit string. */
  function DigitsValue(s: string): nat
    requires AllDigits(s)
    decreases |s|
  {
    if |s| == 0 then 0 else DigitsValue(s[..|s| - 1]) * 10 + (s[|s| - 1] as int - '0' as int)
  }

  /** Reads back what `%d` prints: an optional minus sign, then digits. */
  function ParseInt(s: string): Option<int> {
    if |s| > 0 && AllDigitsFrom(s, 0) then Some(DigitsValue(s))
    else if |s| > 1 && s[0] == '-' && AllDigitsFrom(s, 1) then Some(-(DigitsValue(s[1..]) as int))
    else None
  }

  /** Every character of `s` from index `i` on is a digit. */
  function AllDigitsFrom(s: string, i: nat): (b: bool)
    requires i <= |s|
    ensures b <==> AllDigits(s[i..])
    decreases |s| - i
  {
    i == |s| || (IsDigit(s[i]) && AllDigitsFrom(s, i + 1))
  }

  lemma {:induction false} DigitsValueOfNatDigits(n: nat)
    ensures DigitsValue(NatDigits(n)) == n
    decreases n
  {
    if n >= 10 {
      var s := NatDigits(n);
      assert s[..|s| - 1] == NatDigits(n / 10);
      DigitsValueOfNatDigits(n / 10);
    }
  }

  /** `%d` can be read back: parsing the printed number gives the number. */
  lemma {:induction false} ParseFormatInt(n: int)
    ensures ParseInt(FormatInt(n)) == Some(n)
  {
    var s := FormatInt(n);
    if n < 0 {
      assert s[1..] == NatDigits(-n);
      assert !IsDigit(s[0]);
      DigitsValueOfNatDigits(-n);
    } else {
      assert s[0..] == s;
      DigitsValueOfNatDigits(n);
    }
  }

  /** The 0-based lookup key of a 1-based position: `(line - 1, column - 1)` in `int` arithmetic. */
  function LookupKey(line: Int32, column: Int32): (key: (Int32, Int32))
    ensures line >= -0x7FFF_FFFF ==> key.0 == line - 1
    ensures column >= -0x7FFF_FFFF ==> key.1 == column - 1
  {
    (Wrap(line - 1), Wrap(column - 1))
  }

  /** The frame text `symbol (file:line:column)` with the 0-based source position made 1-based. */
  function Render(m: Mapping): string {
    Text(m.sourceSymbolName) + " (" + Text(m.sourceFileName) + ":"
      + FormatInt(Wrap(m.sourceLine + 1)) + ":" + FormatInt(Wrap(m.sourceColumn + 1)) + ")"
  }

  /**
   * `formatSourceStackTrace`: empty exactly when the map has no mapping at the
   * 0-based key, otherwise the rendering of that mapping.
   */
  function FormatSourceStackTrace(getMapping: (Int32, Int32) -> Option<Mapping>, line: Int32, column: Int32): (r: Option<string>)
    ensures r.None? <==> getMapping(LookupKey(line, column).0, LookupKey(line, column).1).None?
  {
    var key := LookupKey(line, column);
    match getMapping(key.0, key.1)
    case None => None
    case Some(m) => Some(Render(m))
  }

  // ---------------------------------------------------------------------------
  // Reading the position back from a frame
  // ---------------------------------------------------------------------------

  /** The last index of `c` in `s`, or -1; used only to read a frame's position back. */
  function LastIndexOf(s: string, c: char): (i: int)
    ensures -1 <= i < |s|
    ensures i >= 0 ==> s[i] == c
    ensures forall k :: i < k < |s| ==> s[k] != c
    decreases |s|
  {
    if |s| == 0 then -1
    else if s[|s| - 1] == c then |s| - 1
    else LastIndexOf(s[..|s| - 1], c)
  }

  /** The `line` and `column` of a text ending in `:line:column)`. */
  function TrailingPosition(t: string): Option<(int, int)> {
    if |t| == 0 || t[|t| - 1] != ')' then None
    else
      var body := t[..|t| - 1];
      var j := LastIndexOf(body, ':');
      if j < 0 then None
      else
        var i := LastIndexOf(body[..j], ':');
        if i < 0 then None
        else
          match (ParseInt(body[i + 1..j]), ParseInt(body[j + 1..]))
          case (Some(l), Some(c)) => Some((l, c))
          case _ => None
  }

  lemma {:induction false} LastIndexOfAfter(x: string, c: char, y: string)
    requires forall k :: 0 <= k < |y| ==> y[k] != c
    ensures LastIndexOf(x + [c] + y, c) == |x|
  {
    var s := x + [c] + y;
    assert s[|x|] == c;
    forall k | |x| < k < |s| ensures s[k] != c {
      assert s[k] == y[k - |x| - 1];
    }
  }

  /** A text ending in `:l:c)`, where neither `l` nor `c` holds a colon, yields the values of `l` and `c`. */
  lemma {:induction false} TrailingPositionOf(head: string, l: string, c: string)
    requires forall k :: 0 <= k < |l| ==> l[k] != ':'
    requires forall k :: 0 <= k < |c| ==> c[k] != ':'
    requires ParseInt(l).Some? && ParseInt(c).Some?
    ensures TrailingPosition(head + ":" + l + ":" + c + ")") == Some((ParseInt(l).value, ParseInt(c).value))
  {
    var front := head + [':'] + l;
    var body := front + [':'] + c;
    var t := head + ":" + l + ":" + c + ")";
    assert t == body + [')'];
    assert t[..|t| - 1] == body;
    LastIndexOfAfter(front, ':', c);
    assert body[..|front|] == front;
    LastIndexOfAfter(head, ':', l);
    assert body[|head| + 1..|front|] == l;
    assert body[|front| + 1..] == c;
  }

  /** `%d` never prints a colon. */
  lemma {:induction false} FormatIntNoColon(n: int)
    ensures forall k :: 0 <= k < |FormatInt(n)| ==> FormatInt(n)[k] != ':'
  {
  }

  /**
   * Whatever the symbol and file names hold, the rendered frame ends in
   * `:L:C)` where `L` and `C` read back as the source line and column plus one.
   */
  lemma {:induction false} RenderedPositionReadsBack(m: Mapping)
    ensures TrailingPosition(Render(m)) == Some((Wrap(m.sourceLine + 1), Wrap(m.sourceColumn + 1)))
  {
    var l, c := FormatInt(Wrap(m.sourceLine + 1)), FormatInt(Wrap(m.sourceColumn + 1));
    var head := Text(m.sourceSymbolName) + " (" + Text(m.sourceFileName);
    assert Render(m) == head + ":" + l + ":" + c + ")";
    ParseFormatInt(Wrap(m.sourceLine + 1));
    ParseFormatInt(Wrap(m.sourceColumn + 1));
    FormatIntNoColon(Wrap(m.sourceLine + 1));
    FormatIntNoColon(Wrap(m.sourceColumn + 1));
    TrailingPositionOf(head, l, c);
  }

  /**
   * The frame begins with the symbol name, ` (`, the file name and `:`, and the
   * rest is the printed line, `:`, the printed column and `)`.
   */
  lemma {:induction false} RenderedPrefix(m: Mapping)
    ensures var head := Text(m.sourceSymbolName) + " (" + Text(m.sourceFileName) + ":";
            && |head| <= |Render(m)| && Render(m)[..|head|] == head
            && Render(m)[|head|..] == FormatInt(Wrap(m.sourceLine + 1)) + ":" + FormatInt(Wrap(m.sourceColumn + 1)) + ")"
  {
    var head := Text(m.sourceSymbolName) + " (" + Text(m.sourceFileName) + ":";
    SplitAfterHead(head, FormatInt(Wrap(m.sourceLine + 1)), FormatInt(Wrap(m.sourceColumn + 1)));
  }

  /** Splitting `h + l + ":" + c + ")"` after `h`. */
  lemma {:induction false} SplitAfterHead(h: string, l: string, c: string)
    ensures |h| <= |h + l + ":" + c + ")"|
    ensures (h + l + ":" + c + ")")[..|h|] == h
    ensures (h + l + ":" + c + ")")[|h|..] == l + ":" + c + ")"
  {
    assert h + l + ":" + c + ")" == h + (l + ":" + c + ")");
  }

  /**
   * When a mapping exists at the key, the frame begins with the symbol name,
   * ` (`, the file name and `:`, continues with exactly the `%d` texts of the
   * 1-based source line and column separated by `:`, then `)`, and that
   * trailing position reads back as the 1-based source position.
   */
  lemma {:induction false} FrameShape(getMapping: (Int32, Int32) -> Option<Mapping>, line: Int32, column: Int32)
    requires getMapping(LookupKey(line, column).0, LookupKey(line, column).1).Some?
    ensures var m := getMapping(LookupKey(line, column).0, LookupKey(line, column).1).value;
            var t := FormatSourceStackTrace(getMapping, line, column).value;
            var head := Text(m.sourceSymbolName) + " (" + Text(m.sourceFileName) + ":";
            && |head| <= |t| && t[..|head|] == head
            && t[|head|..] == FormatInt(Wrap(m.sourceLine + 1)) + ":" + FormatInt(Wrap(m.sourceColumn + 1)) + ")"
            && TrailingPosition(t) == Some((Wrap(m.sourceLine + 1), Wrap(m.sourceColumn + 1)))
  {
    var m := getMapping(LookupKey(line, column).0, LookupKey(line, column).1).value;
    assert FormatSourceStackTrace(getMapping, line, column) == Some(Render(m));
    RenderedPrefix(m);
    RenderedPositionReadsBack(m);
  }
}
