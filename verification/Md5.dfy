/**
 * lib/clplumbing/md5.c: MD5 over a message that arrives in pieces, and HMAC. The block function MD5Transform is a
 * parameter; the four words of its state are kept as the sixteen octets a little-endian machine stores.
 */
module Md5 {
  import opened Bits
  import opened Bytes

  const W32 := 0x1_0000_0000
  const W64 := 0x1_0000_0000_0000_0000

  type State = s: bytes | |s| == 16 witness Zeros(16)
  type Chunk = b: bytes | |b| == 64 witness Zeros(64)
  type Core = (State, Chunk) -> State

  // The digest of a whole message: sections 3.1 to 3.4 of RFC 1321 ----------------------------------------

  function Start(): State {
    Le32(0x67452301) + Le32(0xefcdab89) + Le32(0x98badcfe) + Le32(0x10325476)
  }

  /** The octets of words A to D, low order first, that section 3.3 of RFC 1321 lists. */
  lemma StartIs()
    ensures Start() ==
      [0x01, 0x23, 0x45, 0x67, 0x89, 0xab, 0xcd, 0xef, 0xfe, 0xdc, 0xba, 0x98, 0x76, 0x54, 0x32, 0x10]
  {
    hide Le32;
    LowFirst(0x67452301, 0x01, 0x23, 0x45, 0x67);
    LowFirst(0xefcdab89, 0x89, 0xab, 0xcd, 0xef);
    LowFirst(0x98badcfe, 0xfe, 0xdc, 0xba, 0x98);
    LowFirst(0x10325476, 0x76, 0x54, 0x32, 0x10);
  }

  lemma LowFirst(n: nat, a: byte, b: byte, c: byte, d: byte)
    requires n == a + 0x100 * b + 0x1_0000 * c + 0x100_0000 * d
    ensures Le32(n) == [a, b, c, d]
  {
    assert n / 0x100 == b + 0x100 * c + 0x1_0000 * d;
    assert n / 0x1_0000 == c + 0x100 * d;
    assert n / 0x100_0000 == d;
  }

  /** The block function over the first n blocks. */
  ghost function Fold(f: Core, m: bytes, n: nat): State
    requires 64 * n <= |m|
  {
    if n == 0 then Start() else f(Fold(f, m, n - 1), m[64 * n - 64..64 * n])
  }

  function Le64(n: nat): (b: bytes)
    ensures |b| == 8
  {
    Le32(n % W32) + Le32(n / W32)
  }

  /** Low order first. */
  lemma Le64Is(n: nat)
    requires n < W64
    ensures Un32(Le64(n)[..4]) + W32 * Un32(Le64(n)[4..]) == n
  {
    Un32Le32(n % W32);
    Un32Le32(n / W32);
    assert Le64(n)[..4] == Le32(n % W32) && Le64(n)[4..] == Le32(n / W32);
  }

  /** How many zeros bring a message of n octets and the octet 0x80 to 56 modulo 64. */
  function ZerosNeeded(n: nat): (z: nat)
    ensures z < 64 && (n + 1 + z) % 64 == 56
  {
    (55 - n) % 64
  }

  function Padded(m: bytes): bytes {
    m + [0x80] + Zeros(ZerosNeeded(|m|)) + Le64(8 * |m| % W64)
  }

  lemma PaddedIsWhole(m: bytes)
    ensures |Padded(m)| % 64 == 0 && |m| + 9 <= |Padded(m)| < |m| + 9 + 64 && m <= Padded(m)
  {
    hide Le64, ZerosNeeded;
    assert |Padded(m)| == |m| + 1 + ZerosNeeded(|m|) + 8;
  }

  lemma PaddedTail(m: bytes, bits: nat)
    requires bits == 8 * |m| % W64
    ensures |Padded(m)| >= |m| + 9 && Padded(m)[|Padded(m)| - 8..] == Le64(bits)
    ensures Padded(m)[|m|] == 0x80 && forall i | |m| < i < |Padded(m)| - 8 :: Padded(m)[i] == 0
  {
    hide Le64, ZerosNeeded;
  }

  /** After the message the octet 0x80 and zeros, and at the end the number of bits, low order first. */
  lemma PaddedIs(m: bytes)
    ensures |Padded(m)| >= |m| + 9 && Padded(m)[|m|] == 0x80
    ensures forall i | |m| < i < |Padded(m)| - 8 :: Padded(m)[i] == 0
    ensures var t := Padded(m)[|Padded(m)| - 8..]; Un32(t[..4]) + W32 * Un32(t[4..]) == 8 * |m| % W64
  {
    hide Padded, Le64, Un32;
    var bits := 8 * |m| % W64;
    PaddedTail(m, bits);
    Le64Is(bits);
  }

  ghost function Digest(f: Core, m: bytes): State {
    Fold(f, Padded(m), |Padded(m)| / 64)
  }

  // Folding a growing message -----------------------------------------------------------------------------

  lemma {:induction false} FoldPrefix(f: Core, m: bytes, p: bytes, n: nat)
    requires m <= p && 64 * n <= |m|
    ensures Fold(f, p, n) == Fold(f, m, n)
    decreases n
  {
    if n > 0 {
      FoldPrefix(f, m, p, n - 1);
      assert p[64 * n - 64..64 * n] == m[64 * n - 64..64 * n];
    }
  }

  /** n whole blocks of m are in the state, the rest of m waits in the buffer. */
  ghost predicate Holds(f: Core, m: bytes, n: nat, buf: State, waiting: bytes) {
    && 64 * n <= |m| < 64 * n + 64
    && buf == Fold(f, m, n) && waiting == m[64 * n..]
  }

  /** Too little to fill the buffer. */
  lemma HoldsMore(f: Core, m: bytes, n: nat, buf: State, waiting: bytes, q: bytes)
    requires Holds(f, m, n, buf, waiting) && |waiting| + |q| < 64
    ensures Holds(f, m + q, n, buf, waiting + q)
  {
    FoldPrefix(f, m, m + q, n);
  }

  /** The buffer is filled and transformed. */
  lemma HoldsBlock(f: Core, m: bytes, n: nat, buf: State, waiting: bytes, q: bytes)
    requires Holds(f, m, n, buf, waiting) && |waiting| + |q| == 64
    ensures Holds(f, m + q, n + 1, f(buf, waiting + q), [])
  {
    hide Fold;
    FoldPrefix(f, m, m + q, n);
    FoldNext(f, m + q, n);
    assert (m + q)[64 * n..64 * n + 64] == waiting + q;
  }

  lemma FoldNext(f: Core, m: bytes, n: nat)
    requires 64 * n + 64 <= |m|
    ensures Fold(f, m, n + 1) == f(Fold(f, m, n), m[64 * n..64 * n + 64])
  {
  }

  lemma HoldsNothing(f: Core)
    ensures Holds(f, [], 0, Start(), [])
  {
  }

  // The padding ---------------------------------------------------------------------------------------------

  lemma ZerosNeededIs(n: nat, r: nat, k: nat)
    requires n == 64 * k + r && r < 64
    ensures ZerosNeeded(n) == if r <= 55 then 55 - r else 119 - r
  {
  }

  /** The padding ends the message in one block. */
  lemma PadOne(f: Core, m: bytes, n: nat, buf: State, waiting: bytes)
    requires Holds(f, m, n, buf, waiting) && |waiting| <= 55
    ensures Digest(f, m) == f(buf, waiting + [0x80] + Zeros(55 - |waiting|) + Le64(8 * |m| % W64))
  {
    hide Fold, Le64;
    var r := |waiting|;
    ZerosNeededIs(|m|, r, n);
    var tail := [0x80] + Zeros(55 - r) + Le64(8 * |m| % W64);
    assert Padded(m) == m + tail;
    HoldsBlock(f, m, n, buf, waiting, tail);
    assert waiting + tail == waiting + [0x80] + Zeros(55 - r) + Le64(8 * |m| % W64);
  }

  /** The padding takes a block of its own. */
  lemma PadTwo(f: Core, m: bytes, n: nat, buf: State, waiting: bytes)
    requires Holds(f, m, n, buf, waiting) && |waiting| > 55
    ensures Digest(f, m) == f(f(buf, waiting + [0x80] + Zeros(63 - |waiting|)), Zeros(56) + Le64(8 * |m| % W64))
  {
    hide Fold, Le64;
    var r := |waiting|;
    ZerosNeededIs(|m|, r, n);
    var one := [0x80] + Zeros(63 - r);
    var two := Zeros(56) + Le64(8 * |m| % W64);
    assert Zeros(119 - r) == Zeros(63 - r) + Zeros(56);
    assert Padded(m) == m + one + two;
    HoldsBlock(f, m, n, buf, waiting, one);
    assert waiting + one == waiting + [0x80] + Zeros(63 - r);
    HoldsBlock(f, m + one, n + 1, f(buf, waiting + one), [], two);
    assert [] + two == two;
  }

  /** The bit count as it is stored: bytes[0] << 3, then bytes[1] << 3 | bytes[0] >> 29. */
  function CountBits(lo: nat, hi: nat): (b: bytes)
    ensures |b| == 8
  {
    Le32(lo * 8 % W32) + Le32(BitOr(hi * 8 % W32, lo / 0x2000_0000))
  }

  lemma BitCount(lo: nat, hi: nat, len: nat)
    requires lo < W32 && hi < W32 && len % W64 == hi * W32 + lo
    ensures CountBits(lo, hi) == Le64(8 * len % W64)
  {
    hide Le32, BitOr;
    var a, b := lo / 0x2000_0000, hi % 0x2000_0000;
    HighWord(hi, a);
    var total := (b * 8 + a) * W32 + lo * 8 % W32;
    assert 8 * len == (8 * (len / W64) + hi / 0x2000_0000) * W64 + total;
    Mod64(8 * len, 8 * (len / W64) + hi / 0x2000_0000, total);
    Split32(total, b * 8 + a, lo * 8 % W32);
  }

  lemma HighWord(hi: nat, a: nat)
    requires a < 8
    ensures BitOr(hi * 8 % W32, a) == hi % 0x2000_0000 * 8 + a
  {
    hide BitOr;
    assert hi * 8 % W32 == hi % 0x2000_0000 * 8;
    assert Pow2(3) == 8;
    OrIsSum(hi % 0x2000_0000, a, 3);
  }

  lemma Split32(x: nat, q: nat, r: nat)
    requires r < W32 && x == q * W32 + r
    ensures x % W32 == r && x / W32 == q
  {
  }

  lemma Mod64(x: nat, q: nat, r: nat)
    requires r < W64 && x == q * W64 + r
    ensures x % W64 == r
  {
  }

  // The context -----------------------------------------------------------------------------------------------

  /** The octet count in two words. */
  ghost predicate Counts(lo: nat, hi: nat, n: nat) {
    lo < W32 && hi < W32 && n % W64 == hi * W32 + lo
  }

  lemma CountGrows(lo: nat, hi: nat, n: nat, k: nat)
    requires Counts(lo, hi, n) && k < W32
    ensures var lo' := (lo + k) % W32; Counts(lo', if lo' < lo then (hi + 1) % W32 else hi, n + k)
  {
    var q := n / W64;
    assert n == W64 * q + (hi * W32 + lo);
    if lo + k < W32 {
      Mod64(n + k, q, hi * W32 + lo + k);
    } else {
      assert (lo + k) % W32 == lo + k - W32 < lo;
      if hi + 1 < W32 {
        Mod64(n + k, q, (hi + 1) * W32 + (lo + k - W32));
      } else {
        Mod64(n + k, q + 1, lo + k - W32);
      }
    }
  }

  lemma CountShows(lo: nat, hi: nat, n: nat)
    requires Counts(lo, hi, n)
    ensures lo % 64 == n % 64
  {
    assert n == 64 * (n / W64 * 0x400_0000_0000_0000 + hi * 0x400_0000) + lo;
  }

  class Context {
    const f: Core
    var buf: State
    var lo: nat
    var hi: nat
    const chunk: array<byte>

    /** The context has taken in the message m. */
    ghost predicate Has(m: bytes)
      reads this, chunk
    {
      chunk.Length == 64 && Counts(lo, hi, |m|) && Holds(f, m, |m| / 64, buf, chunk[..|m| % 64])
    }

    /** MD5Init */
    constructor (f: Core)
      ensures this.f == f && Has([]) && fresh(chunk)
    {
      this.f, buf, lo, hi := f, Start(), 0, 0;
      chunk := new byte[64];
      new;
      HoldsNothing(f);
      assert chunk[..0] == [];
    }

    /** The chunk is filled with q from `at` on and goes into the state. */
    method Transform(at: nat, q: bytes, ghost m: bytes, ghost n: nat)
      requires chunk.Length == 64 && at + |q| == 64 && Holds(f, m, n, buf, chunk[..at])
      modifies this`buf, chunk
      ensures Holds(f, m + q, n + 1, buf, [])
    {
      hide Holds;
      ghost var waiting := chunk[..at];
      Store(chunk, at, q);
      assert chunk[..] == waiting + q;
      HoldsBlock(f, m, n, buf, waiting, q);
      buf := f(buf, chunk[..]);
    }

    /** The rest of the chunk, then whole chunks, then what is left over. */
    method Absorb(q: bytes, at: nat, ghost m: bytes)
      requires chunk.Length == 64 && at == |m| % 64 && Holds(f, m, |m| / 64, buf, chunk[..at])
      modifies this`buf, chunk
      ensures Holds(f, m + q, |m + q| / 64, buf, chunk[..|m + q| % 64])
    {
      hide Holds;
      var t := 64 - at;
      if t > |q| {
        ghost var waiting := chunk[..at];
        HoldsMore(f, m, |m| / 64, buf, waiting, q);
        Store(chunk, at, q);
        Lands(f, m + q, |m| / 64, buf, waiting + q);
        return;
      }
      Transform(at, q[..t], m, |m| / 64);
      var i := t;
      ghost var n: nat := |m| / 64 + 1;
      while |q| - i >= 64
        invariant t <= i <= |q| && Holds(f, m + q[..i], n, buf, [])
      {
        assert chunk[..0] == [];
        Transform(0, q[i..i + 64], m + q[..i], n);
        assert m + q[..i] + q[i..i + 64] == m + q[..i + 64];
        i, n := i + 64, n + 1;
      }
      LeftOver(q[i..], m + q[..i], n);
      assert m + q[..i] + q[i..] == m + q;
    }

    method LeftOver(q: bytes, ghost m: bytes, ghost n: nat)
      requires chunk.Length == 64 && |q| < 64 && Holds(f, m, n, buf, [])
      modifies chunk
      ensures Holds(f, m + q, |m + q| / 64, buf, chunk[..|m + q| % 64])
    {
      hide Holds;
      HoldsMore(f, m, n, buf, [], q);
      Store(chunk, 0, q);
      assert [] + q == q && chunk[..|q|] == q;
      Lands(f, m + q, n, buf, q);
    }

    /** MD5Update */
    method Update(q: bytes, ghost m: bytes)
      requires Has(m) && |q| < W32
      modifies this, chunk
      ensures Has(m + q)
    {
      hide Holds, Counts;
      var t := lo;
      CountGrows(lo, hi, |m|, |q|);
      CountShows(lo, hi, |m|);
      lo := (t + |q|) % W32;
      if lo < t {
        hi := (hi + 1) % W32;
      }
      Absorb(q, t % 64, m);
    }

    /** Zeros up to octet 56, the two words of the bit count, and the last transformation. */
    method Finish(at: nat)
      requires chunk.Length == 64 && at <= 56
      modifies this`buf, chunk
      ensures buf == f(old(buf), old(chunk[..at]) + Zeros(56 - at) + CountBits(lo, hi))
    {
      hide Le32, BitOr;
      ghost var front := chunk[..at];
      Store(chunk, at, Zeros(56 - at));
      Store(chunk, 56, Le32(lo * 8 % W32));
      Store(chunk, 60, Le32(BitOr(hi * 8 % W32, lo / 0x2000_0000)));
      assert chunk[..] == chunk[..64] == front + Zeros(56 - at) + CountBits(lo, hi);
      buf := f(buf, chunk[..]);
    }

    /** The octet 0x80, room for the bit count in this chunk or the next one, and the bit count. */
    method Pad(count: nat)
      requires chunk.Length == 64 && count < 64
      modifies this`buf, chunk
      ensures count <= 55 ==> buf == f(old(buf), old(chunk[..count]) + [0x80] + Zeros(55 - count) + CountBits(lo, hi))
      ensures count > 55 ==>
        buf == f(f(old(buf), old(chunk[..count]) + [0x80] + Zeros(63 - count)), Zeros(56) + CountBits(lo, hi))
    {
      hide CountBits;
      ghost var waiting := chunk[..count];
      chunk[count] := 0x80;
      assert chunk[..count + 1] == waiting + [0x80];
      if 55 - count < 0 {
        Store(chunk, count + 1, Zeros(63 - count));
        assert chunk[..] == chunk[..64];
        buf := f(buf, chunk[..]);
        Finish(0);
        assert chunk[..0] + Zeros(56) == Zeros(56);
      } else {
        Finish(count + 1);
      }
    }

    /** memset(ctx, 0, sizeof(*ctx)) */
    method Clear()
      requires chunk.Length == 64
      modifies this, chunk
      ensures buf == Zeros(16) && lo == 0 && hi == 0 && chunk[..] == Zeros(64)
    {
      buf, lo, hi := Zeros(16), 0, 0;
      Store(chunk, 0, Zeros(64));
      assert chunk[..] == chunk[..64];
    }

    /** MD5Final: the digest of all that was taken in; the context is cleared. */
    method Final(ghost m: bytes) returns (digest: State)
      requires Has(m)
      modifies this, chunk
      ensures digest == Digest(f, m)
      ensures buf == Zeros(16) && lo == 0 && hi == 0 && chunk[..] == Zeros(64)
    {
      hide Holds, Digest, CountBits, Le64;
      CountShows(lo, hi, |m|);
      BitCount(lo, hi, |m|);
      ghost var waiting, n, was := chunk[..|m| % 64], |m| / 64, buf;
      if lo % 64 <= 55 {
        PadOne(f, m, n, was, waiting);
      } else {
        PadTwo(f, m, n, was, waiting);
      }
      Pad(lo % 64);
      digest := buf;
      Clear();
    }
  }

  /** Where the counts of a state stand. */
  lemma Lands(f: Core, m: bytes, n: nat, buf: State, waiting: bytes)
    requires Holds(f, m, n, buf, waiting)
    ensures n == |m| / 64 && |waiting| == |m| % 64
  {
  }

  // Whole messages ------------------------------------------------------------------------------------------

  ghost function Concat(parts: seq<bytes>): bytes {
    if parts == [] then [] else Concat(parts[..|parts| - 1]) + parts[|parts| - 1]
  }

  /** MD5Init, an MD5Update for each part, MD5Final: however the message is cut, its digest. */
  method DigestOf(f: Core, parts: seq<bytes>) returns (digest: State)
    requires forall i | 0 <= i < |parts| :: |parts[i]| < W32
    ensures digest == Digest(f, Concat(parts))
  {
    hide Digest, Holds, Counts;
    var context := new Context(f);
    var i := 0;
    while i < |parts|
      invariant i <= |parts| && fresh(context) && fresh(context.chunk)
      invariant context.f == f && context.Has(Concat(parts[..i]))
    {
      context.Update(parts[i], Concat(parts[..i]));
      assert parts[..i + 1][..i] == parts[..i];
      i := i + 1;
    }
    assert parts[..i] == parts;
    digest := context.Final(Concat(parts));
  }

  /** What is left of a length when an unsigned long becomes an unsigned int. */
  function Truncated(m: bytes): bytes {
    m[..|m| % W32]
  }

  /** MD5: the length of the data is cut to 32 bits on the way to MD5Update. */
  method Whole(f: Core, data: bytes) returns (digest: State)
    ensures digest == Digest(f, Truncated(data))
  {
    hide Digest, Holds, Counts;
    var t := Truncated(data);
    var context := new Context(f);
    context.Update(t, []);
    assert [] + t == t;
    digest := context.Final(t);
  }

  // HMAC: section 2 of RFC 2104 -----------------------------------------------------------------------------

  function Xor(a: byte, b: byte): byte {
    (a as bv8 ^ b as bv8) as byte
  }

  ghost function XorAll(s: bytes, c: byte): (r: bytes)
    ensures |r| == |s|
  {
    seq(|s|, i requires 0 <= i < |s| => Xor(s[i], c))
  }

  /** The key, or its digest if it is longer than a block, with zeros up to a block. */
  ghost function KeyBlock(f: Core, key: bytes): (k: bytes)
    ensures |k| == 64
  {
    var k := if |key| > 64 then Digest(f, key) else key;
    k + Zeros(64 - |k|)
  }

  ghost function Mac(f: Core, key: bytes, text: bytes): State {
    var k := KeyBlock(f, key);
    Digest(f, XorAll(k, 0x5c) + Digest(f, XorAll(k, 0x36) + text))
  }

  /** A pad that starts out with the key and zeros. */
  method KeyPad(key: bytes) returns (pad: array<byte>)
    requires |key| <= 64
    ensures fresh(pad) && pad.Length == 65 && pad[..64] == key + Zeros(64 - |key|)
  {
    pad := new byte[65](_ => 0);
    Store(pad, 0, key);
    assert pad[..|key|] == key;
    assert forall i | |key| <= i < 65 :: pad[i] == pad[|key|..][i - |key|] == 0;
  }

  /** k_ipad and k_opad */
  method Pads(key: bytes) returns (ipad: bytes, opad: bytes)
    requires |key| <= 64
    ensures ipad == XorAll(key + Zeros(64 - |key|), 0x36) && opad == XorAll(key + Zeros(64 - |key|), 0x5c)
  {
    hide Xor;
    var kIpad := KeyPad(key);
    var kOpad := KeyPad(key);
    ghost var k := key + Zeros(64 - |key|);
    assert forall j | 0 <= j < 64 :: kIpad[j] == kIpad[..64][j] && kOpad[j] == kOpad[..64][j];
    var i := 0;
    while i < 64
      invariant i <= 64
      invariant forall j | 0 <= j < 64 :: kIpad[j] == if j < i then Xor(k[j], 0x36) else k[j]
      invariant forall j | 0 <= j < 64 :: kOpad[j] == if j < i then Xor(k[j], 0x5c) else k[j]
    {
      kIpad[i] := Xor(kIpad[i], 0x36);
      kOpad[i] := Xor(kOpad[i], 0x5c);
      i := i + 1;
    }
    ipad, opad := kIpad[..64], kOpad[..64];
  }

  method TwoParts(f: Core, a: bytes, b: bytes) returns (digest: State)
    requires |a| < W32 && |b| < W32
    ensures digest == Digest(f, a + b)
  {
    hide Digest, Holds, Counts;
    var context := new Context(f);
    context.Update(a, []);
    assert [] + a == a;
    context.Update(b, a);
    digest := context.Final(a + b);
  }

  /** HMAC: the length of the text is cut to 32 bits. */
  method Hmac(f: Core, key: bytes, text: bytes) returns (digest: State)
    requires |key| < W32
    ensures digest == Mac(f, key, Truncated(text))
  {
    hide Digest, XorAll;
    var k := key;
    if |key| > 64 {
      k := Whole(f, key);
      assert Truncated(key) == key;
    }
    var ipad, opad := Pads(k);
    digest := TwoParts(f, ipad, Truncated(text));
    digest := TwoParts(f, opad, digest);
  }
}
