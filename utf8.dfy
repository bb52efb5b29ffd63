/**
 * Go's conversion `[]byte(s)` of a string: the UTF-8 encoding of its
 * characters, with a decoder that undoes it.
 */
module Utf8 {
  import opened Bytes
  import opened Wrappers

  /** Unicode scalar values: the code points a Dafny `char` may hold. */
  predicate IsScalar(cp: int) {
    0 <= cp < 0xD800 || 0xE000 <= cp < 0x11_0000
  }

  predicate IsContinuation(b: byte) {
    0x80 <= b < 0xC0
  }

  /** The UTF-8 bytes of one character. */
  function EncodeChar(c: char): (r: seq<byte>)
    ensures 1 <= |r| <= 4
    ensures |r| == 1 <==> (c as int) < 0x80
    ensures |r| == 1 ==> r[0] == c as int
    ensures forall i :: 1 <= i < |r| ==> IsContinuation(r[i])
  {
    var cp := c as int;
    if cp < 0x80 then [cp]
    else if cp < 0x800 then [0xC0 + cp / 64, 0x80 + cp % 64]
    else if cp < 0x1_0000 then [0xE0 + cp / 4096, 0x80 + (cp / 64) % 64, 0x80 + cp % 64]
    else [0xF0 + cp / 262144, 0x80 + (cp / 4096) % 64, 0x80 + (cp / 64) % 64, 0x80 + cp % 64]
  }

  /** The UTF-8 bytes of a string. */
  function Encode(s: string): (r: seq<byte>)
    ensures |s| <= |r| <= 4 * |s|
  {
    if s == [] then [] else EncodeChar(s[0]) + Encode(s[1..])
  }

  /** The first character encoded at the head of `b` and how many bytes it takes. */
  function DecodeFirst(b: seq<byte>): (r: Option<(char, nat)>)
    requires b != []
    ensures r.Some? ==> 1 <= r.value.1 <= |b|
  {
    var b0: int := b[0];
    if b0 < 0x80 then Some((b0 as char, 1))
    else if 0xC0 <= b0 < 0xE0 && 2 <= |b| && IsContinuation(b[1]) then
      var cp := (b0 - 0xC0) * 64 + (b[1] as int - 0x80);
      Some((cp as char, 2))
    else if 0xE0 <= b0 < 0xF0 && 3 <= |b| && IsContinuation(b[1]) && IsContinuation(b[2]) then
      var cp := (b0 - 0xE0) * 4096 + (b[1] as int - 0x80) * 64 + (b[2] as int - 0x80);
      if IsScalar(cp) then Some((cp as char, 3)) else None
    else if 0xF0 <= b0 < 0xF8 && 4 <= |b| && IsContinuation(b[1]) && IsContinuation(b[2]) && IsContinuation(b[3]) then
      var cp := (b0 - 0xF0) * 262144 + (b[1] as int - 0x80) * 4096 + (b[2] as int - 0x80) * 64 + (b[3] as int - 0x80);
      if IsScalar(cp) then Some((cp as char, 4)) else None
    else None
  }

  /** The string whose UTF-8 encoding is `b`, if there is one. */
  function Decode(b: seq<byte>): Option<string>
    decreases |b|
  {
    if b == [] then Some([])
    else match DecodeFirst(b)
      case None => None
      case Some((c, n)) =>
        match Decode(b[n..])
        case None => None
        case Some(rest) => Some([c] + rest)
  }

  lemma DecodeFirstOfEncodeChar(c: char, rest: seq<byte>)
    ensures DecodeFirst(EncodeChar(c) + rest) == Some((c, |EncodeChar(c)|))
  {
    var cp := c as int;
    var b := EncodeChar(c) + rest;
    if cp < 0x80 {
    } else if cp < 0x800 {
      assert (b[0] as int - 0xC0) * 64 + (b[1] as int - 0x80) == cp;
    } else if cp < 0x1_0000 {
      assert (cp / 64) / 64 == cp / 4096;
      assert (b[0] as int - 0xE0) * 4096 + (b[1] as int - 0x80) * 64 + (b[2] as int - 0x80) == cp;
    } else {
      assert (cp / 64) / 64 == cp / 4096;
      assert (cp / 4096) / 64 == cp / 262144;
      assert (b[0] as int - 0xF0) * 262144 + (b[1] as int - 0x80) * 4096 + (b[2] as int - 0x80) * 64 + (b[3] as int - 0x80) == cp;
    }
  }

  /** Decoding undoes encoding, so distinct strings have distinct bytes. */
  lemma {:induction false} DecodeEncode(s: string)
    ensures Decode(Encode(s)) == Some(s)
  {
    if s != [] {
      var e := EncodeChar(s[0]);
      DecodeFirstOfEncodeChar(s[0], Encode(s[1..]));
      assert (e + Encode(s[1..]))[|e|..] == Encode(s[1..]);
      DecodeEncode(s[1..]);
      assert [s[0]] + s[1..] == s;
    }
  }

  lemma EncodeInjective(s: string, t: string)
    requires Encode(s) == Encode(t)
    ensures s == t
  {
    DecodeEncode(s);
    DecodeEncode(t);
  }

  /** A string of ASCII characters is encoded one byte per character, each its code. */
  lemma {:induction false} EncodeAscii(s: string)
    requires forall i :: 0 <= i < |s| ==> (s[i] as int) < 0x80
    ensures |Encode(s)| == |s|
    ensures forall i :: 0 <= i < |s| ==> Encode(s)[i] == s[i] as int
  {
    if s != [] {
      EncodeAscii(s[1..]);
    }
  }
}
