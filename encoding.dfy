/**
 * The encodings the preview applies to the rebuilt svg text: the UTF-8 bytes of the string
 * (as a Node `Buffer` built from a string holds them), their base64 text (RFC 4648,
 * section 4, with `=` padding), and the `data:` URL made of the two.
 */
module Encoding {
  import opened Wrappers

  type Byte = b: int | 0 <= b < 256

  // ---------------------------------------------------------------------------------------
  // UTF-8 (RFC 3629, section 3)

  /** The continuation byte that carries the six bits `v % 64`. */
  function Cont(v: int): Byte
    requires v >= 0
  {
    0x80 + v % 64
  }

  /** The UTF-8 bytes of one Unicode scalar value. */
  function EncodeChar(c: char): (r: seq<Byte>)
    ensures 1 <= |r| <= 4
    ensures |r| == 1 <==> (c as int) < 0x80
  {
    var n := c as int;
    if n < 0x80 then [n]
    else if n < 0x800 then [0xC0 + n / 64, Cont(n)]
    else if n < 0x10000 then [0xE0 + n / 4096, Cont(n / 64), Cont(n)]
    else [0xF0 + n / 262144, Cont(n / 4096), Cont(n / 64), Cont(n)]
  }

  function Utf8Encode(s: string): (r: seq<Byte>)
    ensures |s| <= |r| <= 4 * |s|
  {
    if s == [] then [] else EncodeChar(s[0]) + Utf8Encode(s[1..])
  }

  predicate IsCont(b: Byte) {
    0x80 <= b < 0xC0
  }

  /** A code point that is a Unicode scalar value, so that a `char` can hold it. */
  predicate IsScalar(n: int) {
    (0 <= n < 0xD800) || (0xE000 <= n < 0x110000)
  }

  /**
   * The first character of a UTF-8 byte sequence and the number of bytes it takes, or `None`
   * for a malformed, overlong or surrogate sequence.
   */
  function DecodeChar(bs: seq<Byte>): (r: Option<(char, nat)>)
    ensures r.Some? ==> 1 <= r.value.1 <= |bs| && r.value.1 <= 4
  {
    if bs == [] then None
    else if bs[0] < 0x80 then Some((bs[0] as char, 1))
    else if 0xC0 <= bs[0] < 0xE0 then
      if |bs| < 2 || !IsCont(bs[1]) then None
      else
        var n := (bs[0] as int - 0xC0) * 64 + (bs[1] as int - 0x80);
        if n < 0x80 then None else Some((n as char, 2))
    else if 0xE0 <= bs[0] < 0xF0 then
      if |bs| < 3 || !IsCont(bs[1]) || !IsCont(bs[2]) then None
      else
        var n := (bs[0] as int - 0xE0) * 4096 + (bs[1] as int - 0x80) * 64 + (bs[2] as int - 0x80);
        if n < 0x800 || !IsScalar(n) then None else Some((n as char, 3))
    else if 0xF0 <= bs[0] < 0xF8 then
      if |bs| < 4 || !IsCont(bs[1]) || !IsCont(bs[2]) || !IsCont(bs[3]) then None
      else
        var n := (bs[0] as int - 0xF0) * 262144 + (bs[1] as int - 0x80) * 4096
          + (bs[2] as int - 0x80) * 64 + (bs[3] as int - 0x80);
        if n < 0x10000 || !IsScalar(n) then None else Some((n as char, 4))
    else None
  }

  function Utf8Decode(bs: seq<Byte>): Option<string>
    decreases |bs|
  {
    if bs == [] then Some("")
    else match DecodeChar(bs)
      case None => None
      case Some((c, k)) =>
        match Utf8Decode(bs[k..])
        case None => None
        case Some(rest) => Some([c] + rest)
  }

  lemma ThreeByteRebuilt(n: int)
    requires 0 <= n < 0x10000
    ensures n == (n / 4096) * 4096 + ((n / 64) % 64) * 64 + n % 64
  {
  }

  lemma FourByteRebuilt(n: int)
    requires 0 <= n < 0x110000
    ensures n == (n / 262144) * 262144 + ((n / 4096) % 64) * 4096 + ((n / 64) % 64) * 64 + n % 64
  {
  }

  /** The bytes of one character decode back to it, whatever bytes follow. */
  lemma DecodeEncodedChar(c: char, rest: seq<Byte>)
    ensures DecodeChar(EncodeChar(c) + rest) == Some((c, |EncodeChar(c)|))
  {
    var n := c as int;
    var bs := EncodeChar(c) + rest;
    if n < 0x80 {
    } else if n < 0x800 {
      assert bs[0] == 0xC0 + n / 64 && bs[1] == Cont(n);
    } else if n < 0x10000 {
      assert bs[0] == 0xE0 + n / 4096 && bs[1] == Cont(n / 64) && bs[2] == Cont(n);
      ThreeByteRebuilt(n);
    } else {
      assert bs[0] == 0xF0 + n / 262144 && bs[1] == Cont(n / 4096) && bs[2] == Cont(n / 64) && bs[3] == Cont(n);
      FourByteRebuilt(n);
    }
  }

  /** UTF-8 round trip: decoding the bytes of a string gives the string back. */
  lemma {:induction false} Utf8RoundTrip(s: string)
    ensures Utf8Decode(Utf8Encode(s)) == Some(s)
  {
    if s != [] {
      var head := EncodeChar(s[0]);
      var tail := Utf8Encode(s[1..]);
      DecodeEncodedChar(s[0], tail);
      assert (head + tail)[|head|..] == tail;
      Utf8RoundTrip(s[1..]);
      assert s == [s[0]] + s[1..];
    }
  }

  /** Distinct strings have distinct bytes, so the cache key of a preview fixes its image. */
  lemma Utf8Injective(s: string, t: string)
    requires Utf8Encode(s) == Utf8Encode(t)
    ensures s == t
  {
    Utf8RoundTrip(s);
    Utf8RoundTrip(t);
  }

  // ---------------------------------------------------------------------------------------
  // Base64 (RFC 4648, section 4)

  type Sextet = v: int | 0 <= v < 64

  /** The base64 alphabet: `A-Z`, `a-z`, `0-9`, `+`, `/`. */
  function Digit(v: Sextet): (c: char)
    ensures c != '='
  {
    if v < 26 then ('A' as int + v) as char
    else if v < 52 then ('a' as int + (v - 26)) as char
    else if v < 62 then ('0' as int + (v - 52)) as char
    else if v == 62 then '+'
    else '/'
  }

  /** The value of one alphabet character, or `None` for any other character. */
  function DigitValue(c: char): (r: Option<Sextet>)
    ensures r.Some? ==> Digit(r.value) == c
  {
    if 'A' <= c <= 'Z' then Some(c as int - 'A' as int)
    else if 'a' <= c <= 'z' then Some(c as int - 'a' as int + 26)
    else if '0' <= c <= '9' then Some(c as int - '0' as int + 52)
    else if c == '+' then Some(62)
    else if c == '/' then Some(63)
    else None
  }

  lemma DigitValueOfDigit(v: Sextet)
    ensures DigitValue(Digit(v)) == Some(v)
  {
  }

  /** Three bytes as four sextets. */
  function EncodeGroup(b0: Byte, b1: Byte, b2: Byte): string {
    [Digit(b0 / 4), Digit((b0 % 4) * 16 + b1 / 16), Digit((b1 % 16) * 4 + b2 / 64), Digit(b2 % 64)]
  }

  function Base64Encode(bs: seq<Byte>): (r: string)
    ensures |r| == 4 * ((|bs| + 2) / 3)
  {
    if |bs| >= 3 then EncodeGroup(bs[0], bs[1], bs[2]) + Base64Encode(bs[3..])
    else if |bs| == 2 then EncodeGroup(bs[0], bs[1], 0)[..3] + "="
    else if |bs| == 1 then EncodeGroup(bs[0], 0, 0)[..2] + "=="
    else ""
  }

  /** Four characters, the last `pad` of which are `=`, as the bytes they stand for. */
  function DecodeGroup(g: string, pad: nat): Option<seq<Byte>>
    requires |g| == 4 && pad <= 2
  {
    var d0, d1 := DigitValue(g[0]), DigitValue(g[1]);
    var d2 := if pad == 2 then Some(0) else DigitValue(g[2]);
    var d3 := if pad >= 1 then Some(0) else DigitValue(g[3]);
    if d0.None? || d1.None? || d2.None? || d3.None? then None
    else
      var c0, c1, c2, c3 := d0.value as int, d1.value as int, d2.value as int, d3.value as int;
      var bytes: seq<Byte> := [c0 * 4 + c1 / 16, (c1 % 16) * 16 + c2 / 4, (c2 % 4) * 64 + c3];
      Some(bytes[..3 - pad])
  }

  /** The bytes of a base64 text, or `None` when it is not a padded base64 text. */
  function Base64Decode(s: string): Option<seq<Byte>>
    decreases |s|
  {
    if s == [] then Some([])
    else if |s| < 4 then None
    else if |s| == 4 then
      DecodeGroup(s, if s[3] != '=' then 0 else if s[2] != '=' then 1 else 2)
    else
      match DecodeGroup(s[..4], 0)
      case None => None
      case Some(head) =>
        match Base64Decode(s[4..])
        case None => None
        case Some(tail) => Some(head + tail)
  }

  /** The four sextets of three bytes put back together give the three bytes. */
  lemma GroupRebuilt(b0: Byte, b1: Byte, b2: Byte)
    ensures var c1, c2 := (b0 % 4) * 16 + b1 / 16, (b1 % 16) * 4 + b2 / 64;
      && (b0 / 4) * 4 + c1 / 16 == b0
      && (c1 % 16) * 16 + c2 / 4 == b1
      && (c2 % 4) * 64 + b2 % 64 == b2
  {
    var c1, c2 := (b0 % 4) * 16 + b1 / 16, (b1 % 16) * 4 + b2 / 64;
    assert c1 / 16 == b0 % 4 && c1 % 16 == b1 / 16;
    assert c2 / 4 == b1 % 16 && c2 % 4 == b2 / 64;
  }

  lemma DecodeEncodedGroup(b0: Byte, b1: Byte, b2: Byte)
    ensures DecodeGroup(EncodeGroup(b0, b1, b2), 0) == Some([b0, b1, b2])
  {
    var g := EncodeGroup(b0, b1, b2);
    var c0, c1, c2, c3 := b0 / 4, (b0 % 4) * 16 + b1 / 16, (b1 % 16) * 4 + b2 / 64, b2 % 64;
    DigitValueOfDigit(c0);
    DigitValueOfDigit(c1);
    DigitValueOfDigit(c2);
    DigitValueOfDigit(c3);
    assert DigitValue(g[0]) == Some(c0) && DigitValue(g[1]) == Some(c1);
    assert DigitValue(g[2]) == Some(c2) && DigitValue(g[3]) == Some(c3);
    GroupRebuilt(b0, b1, b2);
    var bytes: seq<Byte> := [c0 * 4 + c1 / 16, (c1 % 16) * 16 + c2 / 4, (c2 % 4) * 64 + c3];
    assert bytes == [b0, b1, b2];
    assert bytes[..3] == bytes;
  }

  lemma DecodeEncodedPair(b0: Byte, b1: Byte)
    ensures DecodeGroup(EncodeGroup(b0, b1, 0)[..3] + "=", 1) == Some([b0, b1])
  {
    var g := EncodeGroup(b0, b1, 0)[..3] + "=";
    var c0, c1, c2 := b0 / 4, (b0 % 4) * 16 + b1 / 16, (b1 % 16) * 4;
    DigitValueOfDigit(c0);
    DigitValueOfDigit(c1);
    DigitValueOfDigit(c2);
    assert DigitValue(g[0]) == Some(c0) && DigitValue(g[1]) == Some(c1) && DigitValue(g[2]) == Some(c2);
    GroupRebuilt(b0, b1, 0);
    var bytes: seq<Byte> := [c0 * 4 + c1 / 16, (c1 % 16) * 16 + c2 / 4, (c2 % 4) * 64 + 0];
    assert bytes[..2] == [b0, b1];
  }

  lemma DecodeEncodedByte(b0: Byte)
    ensures DecodeGroup(EncodeGroup(b0, 0, 0)[..2] + "==", 2) == Some([b0])
  {
    var g := EncodeGroup(b0, 0, 0)[..2] + "==";
    var c0, c1 := b0 / 4, (b0 % 4) * 16;
    DigitValueOfDigit(c0);
    DigitValueOfDigit(c1);
    assert DigitValue(g[0]) == Some(c0) && DigitValue(g[1]) == Some(c1);
    GroupRebuilt(b0, 0, 0);
    var bytes: seq<Byte> := [c0 * 4 + c1 / 16, (c1 % 16) * 16 + 0 / 4, (0 % 4) * 64 + 0];
    assert bytes[..1] == [b0];
  }

  /** A full group followed by more text decodes group by group. */
  lemma DecodeCons(head: string, tail: string, h: seq<Byte>, t: seq<Byte>)
    requires |head| == 4 && DecodeGroup(head, 0) == Some(h)
    requires tail != [] && Base64Decode(tail) == Some(t)
    ensures Base64Decode(head + tail) == Some(h + t)
  {
    assert (head + tail)[..4] == head && (head + tail)[4..] == tail;
  }

  /** Base64 round trip: the padded text of any bytes decodes back to those bytes. */
  lemma {:induction false} Base64RoundTrip(bs: seq<Byte>)
    ensures Base64Decode(Base64Encode(bs)) == Some(bs)
    decreases |bs|
  {
    if |bs| > 3 {
      DecodeEncodedGroup(bs[0], bs[1], bs[2]);
      Base64RoundTrip(bs[3..]);
      DecodeCons(EncodeGroup(bs[0], bs[1], bs[2]), Base64Encode(bs[3..]), [bs[0], bs[1], bs[2]], bs[3..]);
      assert bs == [bs[0], bs[1], bs[2]] + bs[3..];
    } else if |bs| == 3 {
      var g := EncodeGroup(bs[0], bs[1], bs[2]);
      assert Base64Encode(bs) == g + "" == g;
      assert g[3] != '=';
      DecodeEncodedGroup(bs[0], bs[1], bs[2]);
      assert bs == [bs[0], bs[1], bs[2]];
    } else if |bs| == 2 {
      var g := EncodeGroup(bs[0], bs[1], 0)[..3] + "=";
      assert Base64Encode(bs) == g;
      assert g[3] == '=' && g[2] != '=';
      DecodeEncodedPair(bs[0], bs[1]);
      assert bs == [bs[0], bs[1]];
    } else if |bs| == 1 {
      var g := EncodeGroup(bs[0], 0, 0)[..2] + "==";
      assert Base64Encode(bs) == g;
      assert g[3] == '=' && g[2] == '=';
      DecodeEncodedByte(bs[0]);
      assert bs == [bs[0]];
    }
  }

  // ---------------------------------------------------------------------------------------
  // data: URLs (RFC 2397)

  const DataScheme := "data:"
  const Base64Marker := ";base64,"

  /** `data:<mime>;base64,<base64 of the bytes>` */
  function DataUrl(mime: string, bytes: seq<Byte>): string {
    DataScheme + mime + Base64Marker + Base64Encode(bytes)
  }

  /** The media type and the bytes can be read back from the URL. */
  lemma DataUrlRoundTrip(mime: string, bytes: seq<Byte>)
    ensures var u := DataUrl(mime, bytes);
      && u[..|DataScheme| + |mime|] == DataScheme + mime
      && u[|DataScheme| + |mime|..|DataScheme| + |mime| + |Base64Marker|] == Base64Marker
      && Base64Decode(u[|DataScheme| + |mime| + |Base64Marker|..]) == Some(bytes)
  {
    var u := DataUrl(mime, bytes);
    assert u[|DataScheme| + |mime| + |Base64Marker|..] == Base64Encode(bytes);
    Base64RoundTrip(bytes);
  }
}
