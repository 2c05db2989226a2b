/**
 * JavaScript's `encodeURIComponent` (section 19.2.6.5 of ECMAScript 2024): every character
 * outside the unreserved set is written as the "%XY" triples of its UTF-8 bytes, with
 * upper-case hex digits. `DecodeURIComponent` is `decodeURIComponent` (section 19.2.6.2):
 * the inverse of the encoder, and a partial function on other text, which fails on a '%'
 * that does not start a well-formed escape.
 */
module Uri {
  import opened Wrappers

  type Byte = b: int | 0 <= b < 256

  /** The characters `encodeURIComponent` leaves unescaped. */
  predicate Unreserved(c: char) {
    || 'A' <= c <= 'Z'
    || 'a' <= c <= 'z'
    || '0' <= c <= '9'
    || c == '-' || c == '_' || c == '.' || c == '!' || c == '~' || c == '*' || c == '\'' || c == '(' || c == ')'
  }

  predicate IsContinuation(b: Byte) {
    0x80 <= b < 0xC0
  }

  /** The UTF-8 encoding of one Unicode scalar value. */
  function Utf8(c: char): (bs: seq<Byte>)
    ensures 1 <= |bs| <= 4
    ensures forall i :: 1 <= i < |bs| ==> IsContinuation(bs[i])
  {
    var cp := c as int;
    if cp < 0x80 then [cp]
    else if cp < 0x800 then [0xC0 + cp / 0x40, 0x80 + cp % 0x40]
    else if cp < 0x1_0000 then [0xE0 + cp / 0x1000, 0x80 + cp / 0x40 % 0x40, 0x80 + cp % 0x40]
    else [0xF0 + cp / 0x4_0000, 0x80 + cp / 0x1000 % 0x40, 0x80 + cp / 0x40 % 0x40, 0x80 + cp % 0x40]
  }

  function HexDigit(n: nat): (c: char)
    requires n < 16
    ensures '0' <= c <= '9' || 'A' <= c <= 'F'
    ensures IsHex(c) && HexValue(c) == n
  {
    if n < 10 then ('0' as int + n) as char else ('A' as int + n - 10) as char
  }

  predicate IsHex(c: char) {
    '0' <= c <= '9' || 'A' <= c <= 'F' || 'a' <= c <= 'f'
  }

  function HexValue(c: char): (n: nat)
    requires IsHex(c)
    ensures n < 16
  {
    if '0' <= c <= '9' then c as int - '0' as int
    else if 'A' <= c <= 'F' then c as int - 'A' as int + 10
    else c as int - 'a' as int + 10
  }

  function PercentByte(b: Byte): (s: string)
    ensures |s| == 3
    ensures forall i :: 0 <= i < |s| ==> Unreserved(s[i]) || s[i] == '%'
  {
    ['%', HexDigit(b / 16), HexDigit(b % 16)]
  }

  function PercentBytes(bs: seq<Byte>): (s: string)
    ensures |s| == 3 * |bs|
    ensures forall i :: 0 <= i < |s| ==> Unreserved(s[i]) || s[i] == '%'
  {
    if |bs| == 0 then [] else PercentByte(bs[0]) + PercentBytes(bs[1..])
  }

  function EncodeChar(c: char): (s: string)
    ensures |s| >= 1
    ensures forall i :: 0 <= i < |s| ==> Unreserved(s[i]) || s[i] == '%'
  {
    if Unreserved(c) then [c] else PercentBytes(Utf8(c))
  }

  /** `encodeURIComponent(s)`. */
  function EncodeURIComponent(s: string): (r: string)
    ensures forall i :: 0 <= i < |r| ==> Unreserved(r[i]) || r[i] == '%'
    ensures (forall i :: 0 <= i < |s| ==> Unreserved(s[i])) ==> r == s
  {
    if |s| == 0 then [] else EncodeChar(s[0]) + EncodeURIComponent(s[1..])
  }

  /** Reads the "%XY" triple at the front of `s`. */
  function ReadByte(s: string): Option<Byte> {
    if |s| >= 3 && s[0] == '%' && IsHex(s[1]) && IsHex(s[2]) then Some(HexValue(s[1]) * 16 + HexValue(s[2]))
    else None
  }

  /** Reads `n` consecutive "%XY" triples at the front of `s`. */
  function ReadBytes(s: string, n: nat): (r: Option<seq<Byte>>)
    ensures r.Some? ==> |r.value| == n && |s| >= 3 * n
    decreases n
  {
    if n == 0 then Some([])
    else match ReadByte(s)
      case None => None
      case Some(b) =>
        match ReadBytes(s[3..], n - 1)
        case None => None
        case Some(rest) => Some([b] + rest)
  }

  /** How many bytes the UTF-8 sequence introduced by lead byte `b` has; 0 when `b` cannot lead one. */
  function SequenceLength(b: Byte): nat {
    if b < 0x80 then 1
    else if 0xC0 <= b < 0xE0 then 2
    else if 0xE0 <= b < 0xF0 then 3
    else if 0xF0 <= b < 0xF8 then 4
    else 0
  }

  predicate IsScalar(cp: int) {
    0 <= cp < 0xD800 || 0xE000 <= cp < 0x11_0000
  }

  /** The scalar value a complete UTF-8 sequence stands for, rejecting overlong forms and surrogates. */
  function CodePoint(bs: seq<Byte>): Option<char> {
    if |bs| == 0 || SequenceLength(bs[0]) != |bs| then None
    else
      var cp: int :=
        if |bs| == 1 then bs[0]
        else if |bs| == 2 then
          if IsContinuation(bs[1]) then Combine2(bs[0], bs[1]) else -1
        else if |bs| == 3 then
          if IsContinuation(bs[1]) && IsContinuation(bs[2]) then Combine3(bs[0], bs[1], bs[2]) else -1
        else
          if IsContinuation(bs[1]) && IsContinuation(bs[2]) && IsContinuation(bs[3])
          then Combine4(bs[0], bs[1], bs[2], bs[3]) else -1;
      var least: int := if |bs| == 1 then 0 else if |bs| == 2 then 0x80 else if |bs| == 3 then 0x800 else 0x1_0000;
      if least <= cp && IsScalar(cp) then Some(cp as char) else None
  }

  function Combine2(b0: int, b1: int): int {
    (b0 - 0xC0) * 0x40 + (b1 - 0x80)
  }

  function Combine3(b0: int, b1: int, b2: int): int {
    (b0 - 0xE0) * 0x1000 + (b1 - 0x80) * 0x40 + (b2 - 0x80)
  }

  function Combine4(b0: int, b1: int, b2: int, b3: int): int {
    (b0 - 0xF0) * 0x4_0000 + (b1 - 0x80) * 0x1000 + (b2 - 0x80) * 0x40 + (b3 - 0x80)
  }

  /** `decodeURIComponent(s)`; `None` where JavaScript throws a URIError. */
  function DecodeURIComponent(s: string): Option<string>
    decreases |s|
  {
    if |s| == 0 then Some([])
    else if s[0] != '%' then
      match DecodeURIComponent(s[1..])
      case None => None
      case Some(rest) => Some([s[0]] + rest)
    else match ReadByte(s)
      case None => None
      case Some(lead) =>
        var n := SequenceLength(lead);
        if n == 0 then None
        else match ReadBytes(s, n)
          case None => None
          case Some(bs) =>
            match CodePoint(bs)
            case None => None
            case Some(c) =>
              match DecodeURIComponent(s[3 * n..])
              case None => None
              case Some(rest) => Some([c] + rest)
  }

  lemma ReadPercentByte(b: Byte, t: string)
    ensures ReadByte(PercentByte(b) + t) == Some(b)
  {
    var s := PercentByte(b) + t;
    assert s[0] == '%' && s[1] == HexDigit(b / 16) && s[2] == HexDigit(b % 16);
  }

  lemma {:induction false} ReadPercentBytes(bs: seq<Byte>, t: string)
    ensures ReadBytes(PercentBytes(bs) + t, |bs|) == Some(bs)
    ensures (PercentBytes(bs) + t)[3 * |bs|..] == t
    decreases |bs|
  {
    if |bs| > 0 {
      var s := PercentBytes(bs) + t;
      assert s == PercentByte(bs[0]) + (PercentBytes(bs[1..]) + t);
      ReadPercentByte(bs[0], PercentBytes(bs[1..]) + t);
      assert s[3..] == PercentBytes(bs[1..]) + t;
      ReadPercentBytes(bs[1..], t);
      assert [bs[0]] + bs[1..] == bs;
    }
  }

  lemma Utf8Decodes2(cp: int)
    requires 0x80 <= cp < 0x800
    ensures Combine2(0xC0 + cp / 0x40, 0x80 + cp % 0x40) == cp
  {
  }

  lemma Utf8Decodes3(cp: int)
    requires 0x800 <= cp < 0x1_0000
    ensures Combine3(0xE0 + cp / 0x1000, 0x80 + cp / 0x40 % 0x40, 0x80 + cp % 0x40) == cp
  {
    var q := cp / 0x40;
    assert cp == q * 0x40 + cp % 0x40;
    assert q == (q / 0x40) * 0x40 + q % 0x40;
    assert q / 0x40 == cp / 0x1000;
  }

  lemma Utf8Decodes4(cp: int)
    requires 0x1_0000 <= cp < 0x11_0000
    ensures Combine4(0xF0 + cp / 0x4_0000, 0x80 + cp / 0x1000 % 0x40, 0x80 + cp / 0x40 % 0x40, 0x80 + cp % 0x40) == cp
  {
    var q := cp / 0x40;
    var r := q / 0x40;
    assert cp == q * 0x40 + cp % 0x40;
    assert q == r * 0x40 + q % 0x40;
    assert r == (r / 0x40) * 0x40 + r % 0x40;
    assert r == cp / 0x1000;
    assert r / 0x40 == cp / 0x4_0000;
  }

  lemma Utf8Decodes(c: char)
    ensures SequenceLength(Utf8(c)[0]) == |Utf8(c)|
    ensures CodePoint(Utf8(c)) == Some(c)
  {
    var cp := c as int;
    if cp < 0x80 {
    } else if cp < 0x800 {
      Utf8Decodes2(cp);
    } else if cp < 0x1_0000 {
      Utf8Decodes3(cp);
    } else {
      Utf8Decodes4(cp);
    }
  }

  /** The decoder's result for a character followed by the decoding of the rest. */
  function Prepend(c: char, rest: Option<string>): Option<string> {
    match rest
    case None => None
    case Some(r) => Some([c] + r)
  }

  lemma DecodeUnreservedChar(c: char, t: string)
    requires Unreserved(c)
    ensures DecodeURIComponent([c] + t) == Prepend(c, DecodeURIComponent(t))
  {
    assert ([c] + t)[1..] == t;
  }

  lemma DecodeEscapedChar(c: char, t: string)
    requires !Unreserved(c)
    ensures DecodeURIComponent(PercentBytes(Utf8(c)) + t) == Prepend(c, DecodeURIComponent(t))
  {
    var bs := Utf8(c);
    var s := PercentBytes(bs) + t;
    assert s == PercentByte(bs[0]) + (PercentBytes(bs[1..]) + t);
    ReadPercentByte(bs[0], PercentBytes(bs[1..]) + t);
    assert s[0] == '%';
    assert ReadByte(s) == Some(bs[0]);
    Utf8Decodes(c);
    var n := SequenceLength(bs[0]);
    assert n == |bs|;
    ReadPercentBytes(bs, t);
    assert ReadBytes(s, n) == Some(bs);
    assert CodePoint(bs) == Some(c);
    assert s[3 * n..] == t;
  }

  lemma DecodeEncodedChar(c: char, t: string)
    ensures DecodeURIComponent(EncodeChar(c) + t) == Prepend(c, DecodeURIComponent(t))
  {
    if Unreserved(c) {
      DecodeUnreservedChar(c, t);
    } else {
      DecodeEscapedChar(c, t);
    }
  }

  /** Decoding what `encodeURIComponent` produced gives back the original string. */
  lemma {:induction false} EncodeDecodeRoundTrip(s: string)
    ensures DecodeURIComponent(EncodeURIComponent(s)) == Some(s)
    decreases |s|
  {
    if |s| > 0 {
      EncodeDecodeRoundTrip(s[1..]);
      DecodeEncodedChar(s[0], EncodeURIComponent(s[1..]));
      assert [s[0]] + s[1..] == s;
    }
  }

  /** `encodeURIComponent` is injective: distinct names never share an encoded form. */
  lemma EncodeInjective(s: string, t: string)
    requires EncodeURIComponent(s) == EncodeURIComponent(t)
    ensures s == t
  {
    EncodeDecodeRoundTrip(s);
    EncodeDecodeRoundTrip(t);
  }

  /** Text without '%' decodes to itself. */
  lemma {:induction false} DecodeWithoutPercent(s: string)
    requires forall i :: 0 <= i < |s| ==> s[i] != '%'
    ensures DecodeURIComponent(s) == Some(s)
    decreases |s|
  {
    if |s| > 0 {
      DecodeWithoutPercent(s[1..]);
      assert [s[0]] + s[1..] == s;
    }
  }

  /** Decoding never lengthens text, and it shortens all text that holds a '%'. */
  lemma {:induction false} DecodeShrinks(s: string)
    requires DecodeURIComponent(s).Some?
    ensures |DecodeURIComponent(s).value| <= |s|
    ensures (exists i :: 0 <= i < |s| && s[i] == '%') ==> |DecodeURIComponent(s).value| < |s|
    decreases |s|
  {
    if |s| > 0 {
      if s[0] != '%' {
        DecodeShrinks(s[1..]);
        if exists i :: 0 <= i < |s| && s[i] == '%' {
          var i :| 0 <= i < |s| && s[i] == '%';
          assert s[1..][i - 1] == '%';
        }
      } else {
        var n := SequenceLength(ReadByte(s).value);
        DecodeShrinks(s[3 * n..]);
      }
    }
  }

  /** A '%' at the end of the text is an incomplete escape: decoding throws. */
  lemma {:induction false} DecodeTrailingPercent(p: string)
    requires forall i :: 0 <= i < |p| ==> p[i] != '%'
    ensures DecodeURIComponent(p + "%") == None
    decreases |p|
  {
    if |p| > 0 {
      assert (p + "%")[1..] == p[1..] + "%";
      DecodeTrailingPercent(p[1..]);
    } else {
      assert ReadByte("%") == None;
    }
  }
}
