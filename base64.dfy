/**
 * base64.URLEncoding of Go's encoding/base64: the URL- and file-name-safe
 * alphabet of section 5 of RFC 4648, with `=` padding.
 */
module Base64 {
  import opened Bytes
  import opened Wrappers

  const Pad: char := '='

  /** The 64 characters of the URL-safe alphabet: letters, digits, `-` and `_`. */
  predicate IsAlphabetChar(c: char) {
    ('A' <= c <= 'Z') || ('a' <= c <= 'z') || ('0' <= c <= '9') || c == '-' || c == '_'
  }

  /** The alphabet character for a 6-bit value. */
  function CharOf(v: int): (c: char)
    requires 0 <= v < 64
    ensures IsAlphabetChar(c)
  {
    if v < 26 then ('A' as int + v) as char
    else if v < 52 then ('a' as int + v - 26) as char
    else if v < 62 then ('0' as int + v - 52) as char
    else if v == 62 then '-'
    else '_'
  }

  /** The 6-bit value of an alphabet character. */
  function ValueOf(c: char): (v: int)
    requires IsAlphabetChar(c)
    ensures 0 <= v < 64 && CharOf(v) == c
  {
    if 'A' <= c <= 'Z' then c as int - 'A' as int
    else if 'a' <= c <= 'z' then c as int - 'a' as int + 26
    else if '0' <= c <= '9' then c as int - '0' as int + 52
    else if c == '-' then 62
    else 63
  }

  lemma ValueOfCharOf(v: int)
    requires 0 <= v < 64
    ensures ValueOf(CharOf(v)) == v
  {
  }

  /** The four 6-bit values of three bytes `x`, `y`, `z`, most significant first. */
  function Sextet0(x: byte): (v: int)
    ensures 0 <= v < 64
  {
    x / 4
  }

  function Sextet1(x: byte, y: byte): (v: int)
    ensures 0 <= v < 64
  {
    (x % 4) * 16 + y / 16
  }

  function Sextet2(y: byte, z: byte): (v: int)
    ensures 0 <= v < 64
  {
    (y % 16) * 4 + z / 64
  }

  function Sextet3(z: byte): (v: int)
    ensures 0 <= v < 64
  {
    z % 64
  }

  /** The three bytes held by four 6-bit values. */
  function Byte0(v0: int, v1: int): (x: byte)
    requires 0 <= v0 < 64 && 0 <= v1 < 64
  {
    v0 * 4 + v1 / 16
  }

  function Byte1(v1: int, v2: int): (y: byte)
    requires 0 <= v1 < 64 && 0 <= v2 < 64
  {
    (v1 % 16) * 16 + v2 / 4
  }

  function Byte2(v2: int, v3: int): (z: byte)
    requires 0 <= v2 < 64 && 0 <= v3 < 64
  {
    (v2 % 4) * 64 + v3
  }

  /** Regrouping the sextets of three bytes gives the bytes back. */
  lemma Regroup(x: byte, y: byte, z: byte)
    ensures Byte0(Sextet0(x), Sextet1(x, y)) == x
    ensures Byte1(Sextet1(x, y), Sextet2(y, z)) == y
    ensures Byte2(Sextet2(y, z), Sextet3(z)) == z
  {
    var v1, v2 := Sextet1(x, y), Sextet2(y, z);
    assert v1 / 16 == x % 4 && v1 % 16 == y / 16;
    assert v2 / 4 == y % 16 && v2 % 4 == z / 64;
  }

  /** The four characters that encode the three bytes `x`, `y`, `z`. */
  function EncodeGroup(x: byte, y: byte, z: byte): (r: string)
    ensures |r| == 4 && forall i :: 0 <= i < 4 ==> IsAlphabetChar(r[i])
  {
    [CharOf(Sextet0(x)), CharOf(Sextet1(x, y)), CharOf(Sextet2(y, z)), CharOf(Sextet3(z))]
  }

  /**
   * EncodeToString: each 3 bytes become 4 characters; a last group of 1 or
   * 2 bytes is completed with zero bits and padded to 4.
   */
  function Encode(b: seq<byte>): (r: string)
    ensures |r| == 4 * ((|b| + 2) / 3)
    ensures forall i :: 0 <= i < |r| ==> IsAlphabetChar(r[i]) || r[i] == Pad
  {
    if |b| == 0 then []
    else if |b| == 1 then [CharOf(Sextet0(b[0])), CharOf(Sextet1(b[0], 0)), Pad, Pad]
    else if |b| == 2 then [CharOf(Sextet0(b[0])), CharOf(Sextet1(b[0], b[1])), CharOf(Sextet2(b[1], 0)), Pad]
    else
      GroupCount(|b|);
      EncodeGroup(b[0], b[1], b[2]) + Encode(b[3..])
  }

  lemma GroupCount(n: int)
    requires n >= 3
    ensures (n + 2) / 3 == (n - 1) / 3 + 1
  {
  }

  /**
   * The bytes encoded by one group of four characters: three bytes, or
   * one or two when the group ends in padding.
   */
  function DecodeQuad(q: string): (r: Option<seq<byte>>)
    requires |q| == 4
    ensures r.Some? ==> 1 <= |r.value| <= 3
  {
    if !IsAlphabetChar(q[0]) || !IsAlphabetChar(q[1]) then None
    else
      var v0, v1 := ValueOf(q[0]), ValueOf(q[1]);
      if q[2] == Pad then
        if q[3] == Pad then Some([Byte0(v0, v1)]) else None
      else if !IsAlphabetChar(q[2]) then None
      else
        var v2 := ValueOf(q[2]);
        if q[3] == Pad then Some([Byte0(v0, v1), Byte1(v1, v2)])
        else if !IsAlphabetChar(q[3]) then None
        else Some([Byte0(v0, v1), Byte1(v1, v2), Byte2(v2, ValueOf(q[3]))])
  }

  /** The encoded text holds no dot and no path separator. */
  lemma EncodeHasNoDotOrSeparator(b: seq<byte>)
    ensures '.' !in Encode(b) && '/' !in Encode(b)
  {
    var r := Encode(b);
    forall i | 0 <= i < |r| ensures r[i] != '.' && r[i] != '/' {
      assert IsAlphabetChar(r[i]) || r[i] == Pad;
    }
  }

  /** DecodeString, for padded input: the bytes whose encoding is `s`, if there are any. */
  function Decode(s: string): Option<seq<byte>>
    decreases |s|
  {
    if s == [] then Some([])
    else if |s| < 4 then None
    else match DecodeQuad(s[..4])
      case None => None
      case Some(g) =>
        if |g| < 3 then (if |s| == 4 then Some(g) else None)
        else match Decode(s[4..])
          case None => None
          case Some(rest) => Some(g + rest)
  }

  /** Decoding a group of four alphabet characters, or of two or three followed by padding. */
  lemma DecodeQuadValues(v0: int, v1: int, v2: int, v3: int)
    requires 0 <= v0 < 64 && 0 <= v1 < 64 && 0 <= v2 < 64 && 0 <= v3 < 64
    ensures DecodeQuad([CharOf(v0), CharOf(v1), Pad, Pad]) == Some([Byte0(v0, v1)])
    ensures DecodeQuad([CharOf(v0), CharOf(v1), CharOf(v2), Pad]) == Some([Byte0(v0, v1), Byte1(v1, v2)])
    ensures DecodeQuad([CharOf(v0), CharOf(v1), CharOf(v2), CharOf(v3)]) == Some([Byte0(v0, v1), Byte1(v1, v2), Byte2(v2, v3)])
  {
    ValueOfCharOf(v0);
    ValueOfCharOf(v1);
    ValueOfCharOf(v2);
    ValueOfCharOf(v3);
  }

  lemma DecodeOne(x: byte)
    ensures DecodeQuad([CharOf(Sextet0(x)), CharOf(Sextet1(x, 0)), Pad, Pad]) == Some([x])
  {
    DecodeQuadValues(Sextet0(x), Sextet1(x, 0), 0, 0);
    Regroup(x, 0, 0);
  }

  lemma DecodeTwo(x: byte, y: byte)
    ensures DecodeQuad([CharOf(Sextet0(x)), CharOf(Sextet1(x, y)), CharOf(Sextet2(y, 0)), Pad]) == Some([x, y])
  {
    DecodeQuadValues(Sextet0(x), Sextet1(x, y), Sextet2(y, 0), 0);
    Regroup(x, y, 0);
  }

  lemma DecodeThree(x: byte, y: byte, z: byte)
    ensures DecodeQuad(EncodeGroup(x, y, z)) == Some([x, y, z])
  {
    DecodeQuadValues(Sextet0(x), Sextet1(x, y), Sextet2(y, z), Sextet3(z));
    Regroup(x, y, z);
  }

  /** Decoding undoes encoding: the encoding is reversible. */
  lemma {:induction false} DecodeEncode(b: seq<byte>)
    ensures Decode(Encode(b)) == Some(b)
  {
    if |b| == 1 {
      DecodeEncodeOne(b);
    } else if |b| == 2 {
      DecodeEncodeTwo(b);
    } else if |b| >= 3 {
      DecodeEncode(b[3..]);
      DecodeLong(b);
    }
  }

  lemma DecodeEncodeOne(b: seq<byte>)
    requires |b| == 1
    ensures Decode(Encode(b)) == Some(b)
  {
    DecodeOne(b[0]);
    DecodeFinalQuad(Encode(b), [b[0]]);
    assert [b[0]] == b;
  }

  lemma DecodeEncodeTwo(b: seq<byte>)
    requires |b| == 2
    ensures Decode(Encode(b)) == Some(b)
  {
    DecodeTwo(b[0], b[1]);
    DecodeFinalQuad(Encode(b), [b[0], b[1]]);
    assert [b[0], b[1]] == b;
  }

  /** A padded group of four is decoded on its own. */
  lemma DecodeFinalQuad(q: string, g: seq<byte>)
    requires |q| == 4 && DecodeQuad(q) == Some(g) && |g| < 3
    ensures Decode(q) == Some(g)
  {
    assert q[..4] == q;
  }

  lemma DecodeLong(b: seq<byte>)
    requires |b| >= 3
    requires Decode(Encode(b[3..])) == Some(b[3..])
    ensures Decode(Encode(b)) == Some(b)
  {
    var g := EncodeGroup(b[0], b[1], b[2]);
    EncodeLong(b);
    DecodeThree(b[0], b[1], b[2]);
    SplitThree(b);
    DecodeAfterGroup(g, Encode(b[3..]), [b[0], b[1], b[2]], b[3..]);
  }

  lemma EncodeLong(b: seq<byte>)
    requires |b| >= 3
    ensures Encode(b) == EncodeGroup(b[0], b[1], b[2]) + Encode(b[3..])
  {
  }

  lemma SplitThree(b: seq<byte>)
    requires |b| >= 3
    ensures [b[0], b[1], b[2]] + b[3..] == b
  {
  }

  /** A full group followed by decodable text decodes to the group's bytes followed by the text's. */
  lemma DecodeAfterGroup(g: string, t: string, v: seq<byte>, w: seq<byte>)
    requires |g| == 4 && DecodeQuad(g) == Some(v) && |v| == 3
    requires Decode(t) == Some(w)
    ensures Decode(g + t) == Some(v + w)
  {
    assert (g + t)[..4] == g;
    assert (g + t)[4..] == t;
  }

  lemma EncodeInjective(b: seq<byte>, c: seq<byte>)
    requires Encode(b) == Encode(c)
    ensures b == c
  {
    DecodeEncode(b);
    DecodeEncode(c);
  }
}
