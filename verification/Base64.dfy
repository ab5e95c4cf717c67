/** base64.c: conversion between octets and a base64 string without line breaks. */
module Base64 {
  import opened Bytes

  const EQUALS: byte := 61

  type sixbits = x: int | 0 <= x < 64

  /** The table b64chars. */
  function CharOf(v: sixbits): (c: byte)
    ensures c != EQUALS && c != 0 && ValueOf(c) == Some(v)
  {
    if v < 26 then 65 + v           // A-Z
    else if v < 52 then 97 + v - 26 // a-z
    else if v < 62 then 48 + v - 52 // 0-9
    else if v == 62 then 43         // +
    else 47                         // /
  }

  /** The table b64values; None is BADVALUE. */
  function ValueOf(c: byte): Option<sixbits> {
    if 65 <= c <= 90 then Some(c - 65)
    else if 97 <= c <= 122 then Some(c - 97 + 26)
    else if 48 <= c <= 57 then Some(c - 48 + 52)
    else if c == 43 then Some(62)
    else if c == 47 then Some(63)
    else None
  }

  lemma UpperCase()
    ensures forall i | 0 <= i < 13 :: Ascii("ABCDEFGHIJKLM")[i] == 65 + i && Ascii("NOPQRSTUVWXYZ")[i] == 78 + i
  {
  }

  lemma LowerCase()
    ensures forall i | 0 <= i < 13 :: Ascii("abcdefghijklm")[i] == 97 + i && Ascii("nopqrstuvwxyz")[i] == 110 + i
  {
  }

  lemma DigitsAndSigns()
    ensures Ascii("0123456789+/") == [48, 49, 50, 51, 52, 53, 54, 55, 56, 57, 43, 47]
  {
  }

  /** The alphabet of section 5.2 of RFC 1341. */
  lemma Alphabet(v: sixbits)
    ensures CharOf(v) ==
      (Ascii("ABCDEFGHIJKLM") + Ascii("NOPQRSTUVWXYZ") + Ascii("abcdefghijklm") + Ascii("nopqrstuvwxyz") +
       Ascii("0123456789+/"))[v]
  {
    hide Ascii;
    UpperCase();
    LowerCase();
    DigitsAndSigns();
  }

  type chunk = x: int | 0 <= x < 0x100_0000

  function Pack(a: byte, b: byte, c: byte): chunk {
    a as int * 0x1_0000 + b as int * 0x100 + c as int
  }

  function Six(k: chunk, i: nat): sixbits
    requires i < 4
  {
    if i == 0 then k / 0x4_0000
    else if i == 1 then k / 0x1000 % 64
    else if i == 2 then k / 64 % 64
    else k % 64
  }

  function Quad(k: chunk): (q: bytes)
    ensures |q| == 4
  {
    [CharOf(Six(k, 0)), CharOf(Six(k, 1)), CharOf(Six(k, 2)), CharOf(Six(k, 3))]
  }

  /** B64_stringlen */
  function StringLen(n: nat): nat {
    (n + 2) / 3 * 4
  }

  /** B64_maxbytelen */
  function MaxByteLen(n: nat): nat {
    n / 4 * 3
  }

  function Encode(d: bytes): bytes {
    if d == [] then []
    else if |d| == 1 then Quad(Pack(d[0], 0, 0))[..2] + [EQUALS, EQUALS]
    else if |d| == 2 then Quad(Pack(d[0], d[1], 0))[..3] + [EQUALS]
    else Quad(Pack(d[0], d[1], d[2])) + Encode(d[3..])
  }

  function Join(v: seq<sixbits>): chunk
    requires |v| == 4
  {
    v[0] as int * 0x4_0000 + v[1] as int * 0x1000 + v[2] as int * 64 + v[3] as int
  }

  function Unpack(k: chunk): (b: bytes)
    ensures |b| == 3
  {
    [k / 0x1_0000, k / 0x100 % 256, k % 256]
  }

  function Unquad(q: bytes): (b: Option<bytes>)
    requires |q| == 4
    ensures b.Some? ==> |b.value| == 3
  {
    var a, b, c, d := ValueOf(q[0]), ValueOf(q[1]), ValueOf(q[2]), ValueOf(q[3]);
    if a.None? || b.None? || c.None? || d.None? then None
    else Some(Unpack(Join([a.value, b.value, c.value, d.value])))
  }

  /** The last four characters; a third '=' is taken to stand for two, whatever the fourth one is. */
  function Last(q: bytes): (b: Option<bytes>)
    requires |q| == 4
    ensures b.Some? ==> 1 <= |b.value| <= 3
    ensures b.Some? && q[3] == EQUALS ==> |b.value| <= 2
    ensures b.Some? && q[2] == EQUALS ==> |b.value| == 1
  {
    var a, b := ValueOf(q[0]), ValueOf(q[1]);
    if a.None? || b.None? then None
    else if q[2] == EQUALS then Some(Unpack(Join([a.value, b.value, 0, 0]))[..1])
    else
      var c := ValueOf(q[2]);
      if c.None? then None
      else if q[3] == EQUALS then Some(Unpack(Join([a.value, b.value, c.value, 0]))[..2])
      else
        var d := ValueOf(q[3]);
        if d.None? then None else Some(Unpack(Join([a.value, b.value, c.value, d.value])))
  }

  /** What base64_to_binary makes of an input whose length is a multiple of four. */
  function Decode(s: bytes): (d: Option<bytes>)
    requires |s| % 4 == 0
    ensures d.Some? ==> |d.value| <= MaxByteLen(|s|) <= |d.value| + 2
  {
    if s == [] then Some([])
    else if |s| == 4 then Last(s)
    else
      var head, tail := Unquad(s[..4]), Decode(s[4..]);
      if head.None? || tail.None? then None else Some(head.value + tail.value)
  }

  // Round trip --------------------------------------------------------------------------------------------

  lemma JoinSix(k: chunk)
    ensures Join([Six(k, 0), Six(k, 1), Six(k, 2), Six(k, 3)]) == k
  {
    assert k == k / 64 * 64 + k % 64;
    assert k / 64 == k / 0x1000 * 64 + k / 64 % 64;
    assert k / 0x1000 == k / 0x4_0000 * 64 + k / 0x1000 % 64;
  }

  lemma UnpackPack(a: byte, b: byte, c: byte)
    ensures Unpack(Pack(a, b, c)) == [a, b, c]
  {
    var k := Pack(a, b, c);
    assert k / 0x1_0000 == a;
    assert k / 0x100 == a as int * 256 + b as int;
  }

  lemma UnquadQuad(a: byte, b: byte, c: byte)
    ensures Unquad(Quad(Pack(a, b, c))) == Some([a, b, c])
  {
    hide CharOf, ValueOf, Six, Join, Pack, Unpack;
    JoinSix(Pack(a, b, c));
    UnpackPack(a, b, c);
  }

  lemma LastFull(a: byte, b: byte, c: byte)
    ensures Last(Quad(Pack(a, b, c))) == Some([a, b, c])
  {
    hide CharOf, ValueOf, Six, Join, Pack, Unpack;
    JoinSix(Pack(a, b, c));
    UnpackPack(a, b, c);
  }

  lemma {:induction false} EncodeLength(d: bytes)
    ensures |Encode(d)| == StringLen(|d|)
    decreases |d|
  {
    hide Quad, Pack;
    if |d| > 2 {
      EncodeLength(d[3..]);
    }
  }

  lemma TwoZeros(a: byte)
    ensures Six(Pack(a, 0, 0), 2) == 0 && Six(Pack(a, 0, 0), 3) == 0
  {
    assert Pack(a, 0, 0) / 64 == a as int * 0x400;
  }

  lemma LastTwo(a: byte, b: byte)
    ensures Last(Quad(Pack(a, b, 0))[..3] + [EQUALS]) == Some([a, b])
  {
    var k := Pack(a, b, 0);
    assert Six(k, 3) == 0;
    hide CharOf, ValueOf, Join, Unpack, Six, Pack;
    JoinSix(k);
    UnpackPack(a, b, 0);
    assert [a, b, 0][..2] == [a, b];
  }

  lemma LastOne(a: byte)
    ensures Last(Quad(Pack(a, 0, 0))[..2] + [EQUALS, EQUALS]) == Some([a])
  {
    hide CharOf, ValueOf, Join, Unpack, Six, Pack;
    TwoZeros(a);
    JoinSix(Pack(a, 0, 0));
    UnpackPack(a, 0, 0);
    assert [a, 0, 0][..1] == [a];
  }

  lemma {:induction false} RoundTrip(d: bytes)
    ensures |Encode(d)| % 4 == 0 && Decode(Encode(d)) == Some(d)
    decreases |d|
  {
    hide Last, Unquad, Pack, Quad;
    EncodeLength(d);
    if |d| == 1 {
      LastOne(d[0]);
      assert d == [d[0]];
    } else if |d| == 2 {
      LastTwo(d[0], d[1]);
      assert d == [d[0], d[1]];
    } else if |d| == 3 {
      LastFull(d[0], d[1], d[2]);
      assert d == [d[0], d[1], d[2]];
      assert Encode(d) == Quad(Pack(d[0], d[1], d[2])) + Encode([]) by { assert d[3..] == []; }
      assert Encode(d) == Quad(Pack(d[0], d[1], d[2]));
    } else if d != [] {
      var q := Quad(Pack(d[0], d[1], d[2]));
      UnquadQuad(d[0], d[1], d[2]);
      RoundTrip(d[3..]);
      EncodeLength(d[3..]);
      assert (q + Encode(d[3..]))[..4] == q && (q + Encode(d[3..]))[4..] == Encode(d[3..]);
      assert [d[0], d[1], d[2]] + d[3..] == d;
    }
  }

  // The functions on buffers ------------------------------------------------------------------------------

  /** `out` is the encoding of the first i octets of `data`, a whole number of chunks. */
  ghost predicate EncodedTo(data: bytes, i: nat, out: bytes) {
    && i <= |data|
    && |out| + StringLen(|data| - i) == StringLen(|data|)
    && out + Encode(data[i..]) == Encode(data)
  }

  lemma EncodedMore(data: bytes, i: nat, out: bytes)
    requires EncodedTo(data, i, out) && i + 3 <= |data|
    ensures EncodedTo(data, i + 3, out + Quad(Pack(data[i], data[i + 1], data[i + 2])))
  {
    hide Quad, Pack;
    var q := Quad(Pack(data[i], data[i + 1], data[i + 2]));
    assert data[i..][3..] == data[i + 3..];
    assert Encode(data[i..]) == q + Encode(data[i + 3..]);
    assert (out + q) + Encode(data[i + 3..]) == out + (q + Encode(data[i + 3..]));
  }

  method BinaryToBase64(data: bytes, output: array<byte>) returns (r: int)
    modifies output
    ensures output.Length < StringLen(|data|) + 1 ==> r == -1 && output[..] == old(output[..])
    ensures output.Length >= StringLen(|data|) + 1 ==>
      && r == StringLen(|data|)
      && output[..r] == Encode(data) && output[r] == 0
      && output[r + 1..] == old(output[r + 1..])
  {
    hide Quad, Pack, Encode, StringLen;
    if output.Length < StringLen(|data|) + 1 {
      return -1;
    }
    var i, o := 0, 0;
    assert output[..0] + Encode(data[0..]) == Encode(data) by { assert data[0..] == data; }
    while i + 3 <= |data|
      invariant 0 <= i <= |data| && o <= output.Length
      invariant EncodedTo(data, i, output[..o])
      invariant output[o..] == old(output[o..])
    {
      var q := Quad(Pack(data[i], data[i + 1], data[i + 2]));
      EncodedMore(data, i, output[..o]);
      Store(output, o, q);
      i, o := i + 3, o + 4;
    }
    var q := EncodeRest(data[i..]);
    EncodedAll(data, i);
    Store(output, o, q);
    o := o + |q|;
    output[o] := 0;
    return o;
  }

  lemma EncodedAll(data: bytes, i: nat)
    requires i <= |data|
    ensures |Encode(data[i..])| == StringLen(|data| - i)
  {
    EncodeLength(data[i..]);
  }

  /** The one or two octets after the last whole chunk. */
  method EncodeRest(rest: bytes) returns (q: bytes)
    requires |rest| < 3
    ensures q == Encode(rest)
  {
    if |rest| == 2 {
      q := Quad(Pack(rest[0], rest[1], 0))[..3] + [EQUALS];
    } else if |rest| == 1 {
      q := Quad(Pack(rest[0], 0, 0))[..2] + [EQUALS, EQUALS];
    } else {
      q := [];
    }
  }

  /** The check "output area too small": two octets may be missing if the padding says so. */
  predicate TooSmall(input: bytes, outlen: nat) {
    && outlen < MaxByteLen(|input|)
    && var residue := MaxByteLen(|input|) - outlen;
    || residue > 2
    || input[|input| - 1] != EQUALS
    || (residue == 2 && input[|input| - 2] != EQUALS)
  }

  /** `out` in front of a decoded rest. */
  function After(out: bytes, d: Option<bytes>): Option<bytes> {
    if d.None? then None else Some(out + d.value)
  }

  /** `out` is what the first n chunks of `input` decode to. */
  ghost predicate DecodedTo(input: bytes, n: nat, out: bytes) {
    && 4 * n <= |input| && (|input| - 4 * n) % 4 == 0 && |input| % 4 == 0
    && |out| == 3 * n
    && Decode(input) == After(out, Decode(input[4 * n..]))
  }

  lemma DecodedNone(input: bytes)
    requires |input| % 4 == 0
    ensures DecodedTo(input, 0, [])
    ensures input == [] ==> Decode(input) == Some([])
  {
    if input == [] { assert Decode(input) == Some([]); }
    hide Decode;
    assert input[0..] == input;
    if Decode(input).Some? {
      assert [] + Decode(input).value == Decode(input).value;
    }
  }

  lemma DecodeSplit(s: bytes)
    requires |s| % 4 == 0 && |s| > 4
    ensures var b := Unquad(s[..4]); Decode(s) == if b.None? then None else After(b.value, Decode(s[4..]))
  {
    hide Unquad, Last;
  }

  lemma AfterAfter(a: bytes, b: bytes, d: Option<bytes>)
    ensures After(a, After(b, d)) == After(a + b, d)
  {
    if d.Some? {
      assert a + (b + d.value) == (a + b) + d.value;
    }
  }

  lemma DecodedMore(input: bytes, n: nat, out: bytes)
    requires DecodedTo(input, n, out) && 4 * n + 4 < |input|
    ensures var b := Unquad(input[4 * n..4 * n + 4]);
      if b.None? then Decode(input).None? else DecodedTo(input, n + 1, out + b.value)
  {
    hide Unquad, Decode, After;
    var s := input[4 * n..];
    DecodeSplit(s);
    assert s[..4] == input[4 * n..4 * n + 4] && s[4..] == input[4 * (n + 1)..];
    var b := Unquad(s[..4]);
    if b.Some? {
      AfterAfter(out, b.value, Decode(s[4..]));
    } else {
      assert After(out, None).None? by { AfterNone(out); }
    }
  }

  lemma AfterNone(out: bytes)
    ensures After(out, None).None?
  {
  }

  /** Whatever the input, no store falls outside `output`. */
  method Base64ToBinary(input: bytes, output: array<byte>) returns (r: int)
    modifies output
    ensures -1 <= r <= output.Length
    ensures r == -1 <==> TooSmall(input, output.Length) || |input| % 4 != 0 || Decode(input).None?
    ensures r >= 0 ==> Decode(input) == Some(output[..r]) && output[r..] == old(output[r..])
  {
    hide Last, Unquad, Decode, TooSmall, DecodedTo, MaxByteLen;
    if TooSmall(input, output.Length) || |input| % 4 != 0 {
      return -1;
    }
    DecodedNone(input);
    if |input| == 0 {
      assert output[..0] == [];
      return 0;
    }
    var n := 0;
    assert output[..0] == [];
    while 4 * n + 4 < |input|
      invariant 4 * n < |input| && 3 * n <= output.Length
      invariant DecodedTo(input, n, output[..3 * n])
      invariant output[3 * n..] == old(output[3 * n..])
    {
      DecodedMore(input, n, output[..3 * n]);
      var b := Unquad(input[4 * n..4 * n + 4]);
      if b.None? {
        return -1;
      }
      ChunkFits(input, n, output.Length);
      Store(output, 3 * n, b.value);
      n := n + 1;
    }
    DecodedAll(input, n, output[..3 * n]);
    var b := Last(input[4 * n..]);
    if b.None? {
      return -1;
    }
    LastFits(input, n, output.Length, b.value);
    Store(output, 3 * n, b.value);
    return 3 * n + |b.value|;
  }

  lemma DecodedAll(input: bytes, n: nat, out: bytes)
    requires DecodedTo(input, n, out) && 4 * n < |input| <= 4 * n + 4
    ensures |input| == 4 * n + 4
    ensures Decode(input) == After(out, Last(input[4 * n..]))
  {
    hide Last;
    assert |input[4 * n..]| == 4;
  }

  lemma ChunkFits(input: bytes, n: nat, outlen: nat)
    requires |input| % 4 == 0 && 4 * n + 4 < |input| && !TooSmall(input, outlen)
    ensures 3 * n + 3 <= outlen
  {
    assert |input| >= 4 * n + 8;
  }

  lemma LastFits(input: bytes, n: nat, outlen: nat, b: bytes)
    requires |input| == 4 * n + 4 && !TooSmall(input, outlen)
    requires Last(input[4 * n..]) == Some(b)
    ensures 3 * n + |b| <= outlen
  {
    assert input[4 * n..][3] == input[|input| - 1] && input[4 * n..][2] == input[|input| - 2];
  }

  /** Encoding into a buffer and decoding into one of exactly the original size returns the original octets. */
  method EncodeThenDecode(data: bytes, text: array<byte>, back: array<byte>) returns (n: int)
    requires text != back
    requires text.Length > StringLen(|data|) && back.Length == |data|
    modifies text, back
    ensures n == |data| && back[..] == data
  {
    var k := BinaryToBase64(data, text);
    RoundTrip(data);
    ExactFits(data);
    EncodeLength(data);
    n := Base64ToBinary(text[..k], back);
  }

  /** Padding accounts for exactly the octets a buffer of the original size lacks. */
  lemma {:induction false} ExactFits(d: bytes)
    ensures !TooSmall(Encode(d), |d|)
    decreases |d|
  {
    hide Quad, Pack;
    EncodeLength(d);
    if |d| > 3 {
      ExactFits(d[3..]);
      EncodeLength(d[3..]);
      var s, t := Encode(d), Encode(d[3..]);
      assert s[|s| - 1] == t[|t| - 1] && s[|s| - 2] == t[|t| - 2];
    }
  }
}
