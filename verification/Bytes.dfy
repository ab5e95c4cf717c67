/** Octets and the few facts about octet sequences that every component uses. */
module Bytes {

  /** A C `char` read as an octet. */
  type byte = x: int | 0 <= x < 256

  type bytes = seq<byte>

  datatype Option<+T> = None | Some(value: T)

  /** The octets of a string literal. */
  function Ascii(s: string): (b: bytes)
    requires forall i | 0 <= i < |s| :: s[i] < 128 as char
    ensures |b| == |s| && forall i | 0 <= i < |s| :: b[i] == s[i] as int
  {
    seq(|s|, i requires 0 <= i < |s| => s[i] as int)
  }

  /** `memset(p, 0, n)` */
  function Zeros(n: nat): (z: bytes)
    ensures |z| == n
    ensures forall i | 0 <= i < n :: z[i] == 0
  {
    seq(n, _ => 0)
  }

  /** The octets of a 32-bit word, least significant first. */
  function Le32(n: nat): (b: bytes)
    ensures |b| == 4
  {
    [n % 256, n / 0x100 % 256, n / 0x1_0000 % 256, n / 0x100_0000 % 256]
  }

  function Un32(b: bytes): (n: nat)
    requires |b| == 4
    ensures n < 0x1_0000_0000
  {
    b[0] as int + 0x100 * b[1] as int + 0x1_0000 * b[2] as int + 0x100_0000 * b[3] as int
  }

  lemma Un32Le32(n: nat)
    requires n < 0x1_0000_0000
    ensures Un32(Le32(n)) == n
  {
    var a, b, c := n / 0x100, n / 0x1_0000, n / 0x100_0000;
    assert n == 0x100 * a + n % 256;
    assert a == 0x100 * b + a % 256;
    assert b == 0x100 * c + b % 256;
    assert c % 256 == c;
  }

  lemma SliceOfSlice<T>(s: seq<T>, a: nat, b: nat, k: nat, m: nat)
    requires a <= b <= |s| && k <= m <= b - a
    ensures s[a..b][k..m] == s[a + k..a + m]
  {
    var t := s[a..b];
    assert forall i | 0 <= i < m - k :: t[k..m][i] == t[k + i];
    assert forall i | 0 <= i < b - a :: t[i] == s[a + i];
  }

  /** memcpy(output + at, q, |q|) */
  method Store(output: array<byte>, at: nat, q: bytes)
    requires at + |q| <= output.Length
    modifies output
    ensures output[..at + |q|] == old(output[..at]) + q
    ensures output[at + |q|..] == old(output[at + |q|..])
  {
    for j := 0 to |q|
      invariant output[..at + j] == old(output[..at]) + q[..j]
      invariant output[at + j..] == old(output[at + j..])
    {
      output[at + j] := q[j];
    }
  }

  /** strcpy(output + at, q): the octets and a terminating NUL */
  method StoreString(output: array<byte>, at: nat, q: bytes)
    requires at + |q| < output.Length
    modifies output
    ensures output[..at + |q|] == old(output[..at]) + q
    ensures output[at + |q|] == 0
    ensures output[at + |q| + 1..] == old(output[at + |q| + 1..])
  {
    Store(output, at, q);
    output[at + |q|] := 0;
  }
}
