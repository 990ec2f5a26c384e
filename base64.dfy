/**
 * The basic Base64 alphabet of section 4 of RFC 4648, as decoded by
 * `java.util.Base64.getDecoder().decode(String)`, together with the encoder
 * of that section (with padding) as its partner.
 *
 * The Java decoder accepts a final unit of two or three symbols without
 * padding, ignores the unused low bits of the last symbol, and rejects any
 * other symbol, a dangling single symbol, a wrong amount of padding and
 * anything after the padding.  A character above U+00FF becomes `?` when the
 * decoder turns the string into ISO-8859-1 bytes, so it is rejected like any
 * other symbol outside the alphabet.
 */
module Base64 {
  import opened Wrappers

  type Byte = x: int | 0 <= x < 256
  type Sextet = x: int | 0 <= x < 64

  predicate IsAlphabetChar(c: char) {
    ('A' <= c <= 'Z') || ('a' <= c <= 'z') || ('0' <= c <= '9') || c == '+' || c == '/'
  }

  /** The 6-bit value of an alphabet symbol. */
  function SextetOf(c: char): Sextet
    requires IsAlphabetChar(c)
  {
    if 'A' <= c <= 'Z' then c as int - 'A' as int
    else if 'a' <= c <= 'z' then c as int - 'a' as int + 26
    else if '0' <= c <= '9' then c as int - '0' as int + 52
    else if c == '+' then 62
    else 63
  }

  /** The alphabet symbol of a 6-bit value; it is the inverse of `SextetOf`. */
  function CharOf(v: Sextet): (c: char)
    ensures IsAlphabetChar(c) && SextetOf(c) == v
  {
    if v < 26 then ('A' as int + v) as char
    else if v < 52 then ('a' as int + (v - 26)) as char
    else if v < 62 then ('0' as int + (v - 52)) as char
    else if v == 62 then '+'
    else '/'
  }

  // ---------------------------------------------------------------------------
  // Encoder
  // ---------------------------------------------------------------------------

  /** Three bytes as four symbols. */
  function EncodeTriple(b0: Byte, b1: Byte, b2: Byte): string {
    [CharOf(b0 / 4), CharOf((b0 % 4) * 16 + b1 / 16), CharOf((b1 % 16) * 4 + b2 / 64), CharOf(b2 % 64)]
  }

  /** Encoding with `=` padding: every unit has four characters. */
  function Encode(b: seq<Byte>): (s: string)
    ensures |s| == (|b| + 2) / 3 * 4
    decreases |b|
  {
    if |b| == 0 then ""
    else if |b| == 1 then [CharOf(b[0] / 4), CharOf((b[0] % 4) * 16), '=', '=']
    else if |b| == 2 then [CharOf(b[0] / 4), CharOf((b[0] % 4) * 16 + b[1] / 16), CharOf((b[1] % 16) * 4), '=']
    else EncodeTriple(b[0], b[1], b[2]) + Encode(b[3..])
  }

  // ---------------------------------------------------------------------------
  // Decoder
  // ---------------------------------------------------------------------------

  /** The number of `=` characters the decoder's length estimate subtracts: the trailing `=` or `==`. */
  function PadCount(s: string): nat {
    if |s| >= 2 && s[|s| - 1] == '=' && s[|s| - 2] == '=' then 2
    else if |s| >= 1 && s[|s| - 1] == '=' then 1
    else 0
  }

  function DecodeQuad(c0: char, c1: char, c2: char, c3: char): seq<Byte>
    requires IsAlphabetChar(c0) && IsAlphabetChar(c1) && IsAlphabetChar(c2) && IsAlphabetChar(c3)
  {
    var v0, v1, v2, v3 := SextetOf(c0), SextetOf(c1), SextetOf(c2), SextetOf(c3);
    [v0 * 4 + v1 / 16, (v1 % 16) * 16 + v2 / 4, (v2 % 4) * 64 + v3]
  }

  /** The first byte of a unit: all of the first symbol, the top two bits of the second. */
  function FirstByte(c0: char, c1: char): Byte
    requires IsAlphabetChar(c0) && IsAlphabetChar(c1)
  {
    SextetOf(c0) * 4 + SextetOf(c1) / 16
  }

  /** The second byte of a unit: the low four bits of the second symbol, the top four of the third. */
  function SecondByte(c1: char, c2: char): Byte
    requires IsAlphabetChar(c1) && IsAlphabetChar(c2)
  {
    (SextetOf(c1) % 16) * 16 + SextetOf(c2) / 4
  }

  /**
   * The last unit, when it is not four alphabet symbols: empty, two or three
   * symbols, `xx==` or `xxx=`; anything else is an IllegalArgumentException.
   */
  function DecodeLast(s: string): Option<seq<Byte>> {
    if |s| == 0 then Some([])
    else if |s| == 1 || !IsAlphabetChar(s[0]) || !IsAlphabetChar(s[1]) then None
    else if |s| == 2 then Some([FirstByte(s[0], s[1])])
    else if s[2] == '=' then
      if |s| == 4 && s[3] == '=' then Some([FirstByte(s[0], s[1])]) else None
    else if !IsAlphabetChar(s[2]) then None
    else if |s| == 3 then Some([FirstByte(s[0], s[1]), SecondByte(s[1], s[2])])
    else if s[3] == '=' && |s| == 4 then Some([FirstByte(s[0], s[1]), SecondByte(s[1], s[2])])
    else None
  }

  /**
   * `Base64.getDecoder().decode(s)`: `None` stands for the
   * IllegalArgumentException it throws.  A successful decoding used only
   * alphabet symbols and `=`; `DecodeLength` gives the length of its result.
   */
  function Decode(s: string): (r: Option<seq<Byte>>)
    ensures r.Some? ==> forall i :: 0 <= i < |s| ==> IsAlphabetChar(s[i]) || s[i] == '='
    decreases |s|
  {
    if |s| >= 4 && IsAlphabetChar(s[0]) && IsAlphabetChar(s[1]) && IsAlphabetChar(s[2]) && IsAlphabetChar(s[3]) then
      match Decode(s[4..])
      case Some(rest) => Some(DecodeQuad(s[0], s[1], s[2], s[3]) + rest)
      case None => None
    else
      DecodeLast(s)
  }

  /**
   * A successful decoding never leaves a single symbol in the last unit and
   * has the length the decoder computes from the input length and its
   * trailing padding.
   */
  lemma {:induction false} DecodeLength(s: string)
    requires Decode(s).Some?
    ensures |s| % 4 != 1 && |Decode(s).value| == (|s| - PadCount(s)) * 3 / 4
    decreases |s|
  {
    if |s| >= 4 && IsAlphabetChar(s[0]) && IsAlphabetChar(s[1]) && IsAlphabetChar(s[2]) && IsAlphabetChar(s[3]) {
      DecodeLength(s[4..]);
      UnitLength(s, |Decode(s[4..]).value|);
    } else {
      DecodeLastLength(s);
    }
  }

  /** The last unit: the cases of `DecodeLast` one by one. */
  lemma {:induction false} DecodeLastLength(s: string)
    requires DecodeLast(s).Some?
    ensures |s| % 4 != 1 && |DecodeLast(s).value| == (|s| - PadCount(s)) * 3 / 4
  {
  }

  /** A leading unit of four symbols adds three bytes and does not change the padding. */
  lemma {:induction false} UnitLength(s: string, m: nat)
    requires |s| >= 4 && s[3] != '='
    requires |s[4..]| % 4 != 1 && m == (|s[4..]| - PadCount(s[4..])) * 3 / 4
    ensures |s| % 4 != 1 && m + 3 == (|s| - PadCount(s)) * 3 / 4
  {
    var t := s[4..];
    if |t| > 0 {
      assert s[|s| - 1] == t[|t| - 1];
      assert s[|s| - 2] == t[|t| - 2];
    }
    assert PadCount(s) == PadCount(t);
    var n := |t| - PadCount(t);
    assert (4 + n) * 3 == 12 + n * 3;
  }

  /**
   * The inputs the decoder accepts, stated without units: once the trailing
   * `=` are stripped, only alphabet symbols remain, never one symbol more
   * than a multiple of four, and the padding is either absent or exactly
   * completes the last unit (`xx==`, `xxx=`).  Any other padding, a symbol
   * after `=`, or a character outside the alphabet is rejected.
   */
  ghost predicate WellFormed(s: string) {
    var t := StripPadding(s);
    && AllAlphabet(t)
    && |t| % 4 != 1
    && (|s| == |t| || (|t| % 4 != 0 && |s| == |t| + 4 - |t| % 4))
  }

  /** The decoder succeeds exactly on the well-formed inputs. */
  lemma {:induction false} DecodeSucceedsIff(s: string)
    ensures Decode(s).Some? <==> WellFormed(s)
    decreases |s|
  {
    if |s| >= 4 && IsAlphabetChar(s[0]) && IsAlphabetChar(s[1]) && IsAlphabetChar(s[2]) && IsAlphabetChar(s[3]) {
      DecodeSucceedsIff(s[4..]);
      FullUnitWellFormed(s);
    } else {
      DecodeLastIff(s);
    }
  }

  predicate AllAlphabet(t: string) {
    forall i :: 0 <= i < |t| ==> IsAlphabetChar(t[i])
  }

  /** Four alphabet symbols in front neither make nor break `AllAlphabet`. */
  lemma {:induction false} AllAlphabetAppend(u: string, t: string)
    requires |u| == 4 && AllAlphabet(u)
    ensures AllAlphabet(u + t) <==> AllAlphabet(t)
  {
    if AllAlphabet(t) {
      forall i | 0 <= i < |u + t| ensures IsAlphabetChar((u + t)[i]) {
        if i >= 4 { assert (u + t)[i] == t[i - 4]; }
      }
    }
    if AllAlphabet(u + t) {
      forall i | 0 <= i < |t| ensures IsAlphabetChar(t[i]) {
        assert t[i] == (u + t)[i + 4];
      }
    }
  }

  /** A leading unit of four symbols neither makes nor breaks well-formedness. */
  lemma {:induction false} FullUnitWellFormed(s: string)
    requires |s| >= 4 && forall i :: 0 <= i < 4 ==> IsAlphabetChar(s[i])
    ensures WellFormed(s) <==> WellFormed(s[4..])
  {
    var u, r := s[..4], s[4..];
    assert s == u + r;
    assert AllAlphabet(u);
    StripPaddingAppend(u, r);
    var t, t' := StripPadding(s), StripPadding(r);
    AllAlphabetAppend(u, t');
    assert |t| == |t'| + 4 && |s| == |r| + 4;
    assert |t| % 4 == |t'| % 4;
  }

  /** The last unit: `DecodeLast` accepts exactly the well-formed inputs that do not start with a full unit. */
  lemma {:induction false} DecodeLastIff(s: string)
    requires !(|s| >= 4 && IsAlphabetChar(s[0]) && IsAlphabetChar(s[1]) && IsAlphabetChar(s[2]) && IsAlphabetChar(s[3]))
    ensures DecodeLast(s).Some? <==> WellFormed(s)
  {
    var t := StripPadding(s);
    if DecodeLast(s).Some? && |s| > 0 {
      if |s| == 2 || (|s| == 4 && s[2] == '=') {
        assert t == s[..2];
      } else {
        assert t == s[..3];
      }
    }
  }

  // ---------------------------------------------------------------------------
  // Round trips
  // ---------------------------------------------------------------------------

  lemma {:induction false} DecodeEncodeTriple(b0: Byte, b1: Byte, b2: Byte)
    ensures var u := EncodeTriple(b0, b1, b2);
            DecodeQuad(u[0], u[1], u[2], u[3]) == [b0, b1, b2]
  {
    var v1 := (b0 % 4) * 16 + b1 / 16;
    var v2 := (b1 % 16) * 4 + b2 / 64;
    assert v1 / 16 == b0 % 4 && v1 % 16 == b1 / 16;
    assert v2 / 4 == b1 % 16 && v2 % 4 == b2 / 64;
  }

  /** The padded and unpadded encodings of one byte both decode to it. */
  lemma {:induction false} DecodeEncodeOne(b0: Byte)
    ensures var s := Encode([b0]);
            && StripPadding(s) == s[..2]
            && Decode(s) == Some([b0]) && Decode(s[..2]) == Some([b0])
  {
    var s := Encode([b0]);
    assert s[..3][..2] == s[..2];
    var v1 := (b0 % 4) * 16;
    assert v1 / 16 == b0 % 4;
    assert FirstByte(s[0], s[1]) == b0;
    assert DecodeLast(s) == Some([b0]);
    assert DecodeLast(s[..2]) == Some([b0]);
  }

  /** The padded and unpadded encodings of two bytes both decode to them. */
  lemma {:induction false} DecodeEncodeTwo(b0: Byte, b1: Byte)
    ensures var s := Encode([b0, b1]);
            && StripPadding(s) == s[..3]
            && Decode(s) == Some([b0, b1]) && Decode(s[..3]) == Some([b0, b1])
  {
    var s := Encode([b0, b1]);
    var v1 := (b0 % 4) * 16 + b1 / 16;
    var v2 := (b1 % 16) * 4;
    assert v1 / 16 == b0 % 4 && v1 % 16 == b1 / 16;
    assert v2 / 4 == b1 % 16;
    assert FirstByte(s[0], s[1]) == b0 && SecondByte(s[1], s[2]) == b1;
    assert !IsAlphabetChar(s[3]);
    assert DecodeLast(s) == Some([b0, b1]);
    assert DecodeLast(s[..3]) == Some([b0, b1]);
  }

  /** A leading unit of four alphabet symbols decodes to three bytes in front of the rest. */
  lemma {:induction false} DecodeFullUnit(u: string, rest: string)
    requires |u| == 4 && forall i :: 0 <= i < 4 ==> IsAlphabetChar(u[i])
    ensures Decode(rest).None? ==> Decode(u + rest).None?
    ensures Decode(rest).Some? ==> Decode(u + rest) == Some(DecodeQuad(u[0], u[1], u[2], u[3]) + Decode(rest).value)
  {
    var s := u + rest;
    assert s[4..] == rest;
    assert s[0] == u[0] && s[1] == u[1] && s[2] == u[2] && s[3] == u[3];
  }

  /** Decoding undoes encoding. */
  lemma {:induction false} DecodeEncode(b: seq<Byte>)
    ensures Decode(Encode(b)) == Some(b)
    decreases |b|
  {
    if |b| == 1 {
      DecodeEncodeOne(b[0]);
      assert b == [b[0]];
    } else if |b| == 2 {
      DecodeEncodeTwo(b[0], b[1]);
      assert b == [b[0], b[1]];
    } else if |b| >= 3 {
      DecodeEncode(b[3..]);
      DecodeEncodeUnit(b);
    }
  }

  lemma {:induction false} DecodeEncodeUnit(b: seq<Byte>)
    requires |b| >= 3 && Decode(Encode(b[3..])) == Some(b[3..])
    ensures Decode(Encode(b)) == Some(b)
  {
    var u := EncodeTriple(b[0], b[1], b[2]);
    assert Encode(b) == u + Encode(b[3..]);
    DecodeFullUnit(u, Encode(b[3..]));
    DecodeEncodeTriple(b[0], b[1], b[2]);
    assert b == [b[0], b[1], b[2]] + b[3..];
  }

  /** `s` without its trailing `=` characters. */
  function StripPadding(s: string): (r: string)
    ensures |r| <= |s| && r == s[..|r|]
    ensures forall i :: |r| <= i < |s| ==> s[i] == '='
    ensures |r| == 0 || r[|r| - 1] != '='
    decreases |s|
  {
    if |s| > 0 && s[|s| - 1] == '=' then StripPadding(s[..|s| - 1]) else s
  }

  lemma {:induction false} StripPaddingAppend(x: string, y: string)
    requires |x| > 0 && x[|x| - 1] != '='
    ensures StripPadding(x + y) == x + StripPadding(y)
    decreases |y|
  {
    if |y| > 0 && y[|y| - 1] == '=' {
      assert (x + y)[..|x + y| - 1] == x + y[..|y| - 1];
      StripPaddingAppend(x, y[..|y| - 1]);
    } else if |y| == 0 {
      assert x + y == x;
    }
  }

  /** The Java decoder does not require padding: the encoding without its `=` decodes too. */
  lemma {:induction false} DecodeUnpadded(b: seq<Byte>)
    ensures Decode(StripPadding(Encode(b))) == Some(b)
    decreases |b|
  {
    if |b| == 1 {
      DecodeEncodeOne(b[0]);
      assert b == [b[0]];
    } else if |b| == 2 {
      DecodeEncodeTwo(b[0], b[1]);
      assert b == [b[0], b[1]];
    } else if |b| >= 3 {
      DecodeUnpadded(b[3..]);
      DecodeUnpaddedUnit(b);
    }
  }

  lemma {:induction false} DecodeUnpaddedUnit(b: seq<Byte>)
    requires |b| >= 3 && Decode(StripPadding(Encode(b[3..]))) == Some(b[3..])
    ensures Decode(StripPadding(Encode(b))) == Some(b)
  {
    var u := EncodeTriple(b[0], b[1], b[2]);
    var rest := StripPadding(Encode(b[3..]));
    assert Encode(b) == u + Encode(b[3..]);
    assert IsAlphabetChar(u[3]);
    StripPaddingAppend(u, Encode(b[3..]));
    assert StripPadding(Encode(b)) == u + rest;
    DecodeFullUnit(u, rest);
    DecodeEncodeTriple(b[0], b[1], b[2]);
    assert b == [b[0], b[1], b[2]] + b[3..];
  }
}
