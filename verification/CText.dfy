/** C strings in memory, decimal numbers, and the packed string lists built from them. */
module CText {
  import opened Bytes

  const NUL: byte := 0
  const NL: byte := 10
  const LPAREN: byte := 40
  const RPAREN: byte := 41
  const COMMA: byte := 44
  const COLON: byte := 58
  const EQUAL: byte := 61

  /** Memory beyond the octets at hand reads as the terminating NUL. */
  function At(s: bytes, i: nat): byte {
    if i < |s| then s[i] else NUL
  }

  /** strcspn(s + p, "c") */
  function Cspn(s: bytes, p: nat, c: byte): (n: nat)
    ensures forall i | p <= i < p + n :: At(s, i) != c && At(s, i) != NUL
    ensures At(s, p + n) == c || At(s, p + n) == NUL
    ensures n > 0 ==> p + n <= |s|
    decreases |s| - p
  {
    if At(s, p) == c || At(s, p) == NUL then 0 else 1 + Cspn(s, p + 1, c)
  }

  /** strspn(s + p, "c") for a c that is not NUL */
  function Spn(s: bytes, p: nat, c: byte): (n: nat)
    requires c != NUL
    ensures forall i | p <= i < p + n :: At(s, i) == c
    ensures At(s, p + n) != c
    ensures n > 0 ==> p + n <= |s|
    decreases |s| - p
  {
    if At(s, p) == c then 1 + Spn(s, p + 1, c) else 0
  }

  /** strncmp(s + p, t, strlen(t)) == 0 */
  predicate StartsAt(s: bytes, p: nat, t: bytes) {
    p + |t| <= |s| && s[p..p + |t|] == t
  }

  /** The octets memcpy would copy from s + p. */
  function Slice(s: bytes, p: nat, n: nat): (b: bytes)
    ensures |b| == n
    ensures p + n <= |s| ==> b == s[p..p + n]
  {
    if p + n <= |s| then s[p..p + n] else seq<byte>(n, i requires 0 <= i < n => At(s, p + i))
  }

  /** A buffer read as a C string ends at its first NUL. */
  function Cut(b: bytes): (c: bytes)
    ensures NUL !in c
    ensures NUL !in b ==> c == b
  {
    if b == [] || b[0] == NUL then [] else [b[0]] + Cut(b[1..])
  }

  lemma {:induction false} CspnIs(s: bytes, p: nat, c: byte, n: nat)
    requires p + n <= |s|
    requires forall i | p <= i < p + n :: s[i] != c && s[i] != NUL
    requires At(s, p + n) == c || At(s, p + n) == NUL
    ensures Cspn(s, p, c) == n
    decreases n
  {
    if n > 0 {
      assert s[p] != c;
      CspnIs(s, p + 1, c, n - 1);
    }
  }

  /** Octets of s from p on that are those of a. */
  lemma Pointwise(s: bytes, p: nat, a: bytes)
    requires StartsAt(s, p, a)
    ensures forall i | p <= i < p + |a| :: s[i] == a[i - p]
  {
    forall i | p <= i < p + |a|
      ensures s[i] == a[i - p]
    {
      assert s[i] == s[p..p + |a|][i - p];
    }
  }

  lemma Mismatch(s: bytes, p: nat, a: bytes, k: nat)
    requires k < |a| && At(s, p + k) != a[k]
    ensures !StartsAt(s, p, a)
  {
    if p + |a| <= |s| {
      assert s[p..p + |a|][k] == s[p + k];
    }
  }

  // Decimal numbers ---------------------------------------------------------------------------------------

  /** sprintf("%d") of a natural number */
  function Dec(n: nat): (d: bytes)
    ensures |d| > 0
    ensures forall i | 0 <= i < |d| :: IsDigit(d[i])
  {
    if n < 10 then [48 + n] else Dec(n / 10) + [48 + n % 10]
  }

  /** The ten digits. */
  lemma DecimalDigit(i: nat)
    requires i < 10
    ensures Dec(i) == [Ascii("0123456789")[i]]
  {
    assert Ascii("0123456789") == [48, 49, 50, 51, 52, 53, 54, 55, 56, 57];
  }

  predicate IsDigit(c: byte) {
    48 <= c <= 57
  }

  function Digit(c: byte): nat
    requires IsDigit(c)
  {
    c - 48
  }

  /** The decimal value of a digit string that continues a number read so far. */
  function Value(acc: nat, d: bytes): nat
    requires forall i | 0 <= i < |d| :: IsDigit(d[i])
    decreases |d|
  {
    if d == [] then acc else Value(acc * 10 + Digit(d[0]), d[1..])
  }

  lemma {:induction false} ValueSnoc(acc: nat, d: bytes, c: byte)
    requires IsDigit(c) && forall i | 0 <= i < |d| :: IsDigit(d[i])
    ensures Value(acc, d + [c]) == Value(acc, d) * 10 + Digit(c)
    decreases |d|
  {
    if d == [] {
      assert [c][1..] == [];
    } else {
      assert (d + [c])[1..] == d[1..] + [c];
      ValueSnoc(acc * 10 + Digit(d[0]), d[1..], c);
    }
  }

  lemma {:induction false} ValueDec(n: nat)
    ensures Value(0, Dec(n)) == n
  {
    if n < 10 {
      assert Dec(n)[1..] == [];
    } else {
      ValueDec(n / 10);
      ValueSnoc(0, Dec(n / 10), 48 + n % 10);
    }
  }

  /** cl_parse_int from s + p: the number read and the position after its digits. */
  function ParseInt(s: bytes, p: nat, max: nat, acc: nat): (r: (nat, nat))
    ensures p <= r.1 && (p <= max ==> r.1 <= max)
    decreases max - p
  {
    if p < max && IsDigit(At(s, p)) then ParseInt(s, p + 1, max, acc * 10 + Digit(At(s, p))) else (acc, p)
  }

  lemma {:induction false} ParseDigits(s: bytes, p: nat, max: nat, acc: nat, d: bytes)
    requires StartsAt(s, p, d) && p + |d| <= max
    requires forall i | 0 <= i < |d| :: IsDigit(d[i])
    requires p + |d| == max || !IsDigit(At(s, p + |d|))
    ensures ParseInt(s, p, max, acc) == (Value(acc, d), p + |d|)
    decreases |d|
  {
    if d != [] {
      assert s[p] == s[p..p + |d|][0] == d[0];
      assert s[p + 1..p + |d|] == s[p..p + |d|][1..] == d[1..];
      ParseDigits(s, p + 1, max, acc * 10 + Digit(d[0]), d[1..]);
    }
  }

  /** bytes_for_int, by its loop. */
  method BytesForInt(x: int) returns (len: nat)
    ensures x >= 0 ==> len == |Dec(x)|
    ensures x < 0 ==> len == |Dec(-x)| + 1
  {
    var y := x;
    len := 0;
    if y < 0 {
      y := 0 - y;
      len := 1;
    }
    ghost var target := |Dec(y)| + len;
    while y > 9
      invariant y >= 0 && len + |Dec(y)| == target
    {
      y := y / 10;
      len := len + 1;
    }
    len := len + 1;
  }

  // Packed string lists -----------------------------------------------------------------------------------

  function PackOne(e: bytes): bytes {
    Dec(|e|) + [COLON] + e + [COMMA]
  }

  /** string_list_pack */
  function Pack(l: seq<bytes>): bytes {
    if l == [] then [] else PackOne(l[0]) + Pack(l[1..])
  }

  /** string_list_pack_length */
  function PackLength(l: seq<bytes>): (n: nat)
    ensures n == |Pack(l)|
  {
    if l == [] then 0 else |Dec(|l[0]|)| + |l[0]| + 2 + PackLength(l[1..])
  }

  predicate IsSpace(c: byte) {
    9 <= c <= 13 || c == 32
  }

  function SkipSpace(s: bytes, p: nat): (q: nat)
    ensures q >= p
    decreases |s| - p
  {
    if p < |s| && IsSpace(s[p]) then SkipSpace(s, p + 1) else p
  }

  /** sscanf(s + p, "%d", ...): white space, an optional sign, digits. */
  function ScanInt(s: bytes, p: nat): Option<int> {
    var q := SkipSpace(s, p);
    var signed := At(s, q) == 43 || At(s, q) == 45;
    var start := if signed then q + 1 else q;
    var (v, e) := ParseInt(s, start, |s|, 0);
    if e == start then None else Some(if At(s, q) == 45 then -(v as int) else v)
  }

  /** string_list_unpack from s + p up to s + max: None is the error return, an empty list is the C NULL. */
  function Unpack(s: bytes, p: nat, max: nat, acc: seq<bytes>): (r: Option<seq<bytes>>)
    decreases max - p
  {
    if At(s, p) == NUL || p >= max then Some(acc)
    else
      var n := ScanInt(s, p);
      if n.None? then Some(acc)
      else if n.value <= 0 then None
      else
        var colon := p + Cspn(s, p, COLON);
        if At(s, colon) == NUL then Some(acc)
        else Unpack(s, colon + 1 + n.value + 1, max, acc + [Cut(Slice(s, colon + 1, n.value))])
  }

  /** Elements that survive packing and unpacking: C strings that are not empty. */
  ghost predicate Elements(l: seq<bytes>) {
    forall i | 0 <= i < |l| :: l[i] != [] && NUL !in l[i]
  }

  lemma StartsAtSplit(s: bytes, p: nat, a: bytes, b: bytes)
    requires StartsAt(s, p, a + b)
    ensures StartsAt(s, p, a) && StartsAt(s, p + |a|, b)
  {
    assert s[p..p + |a|] == s[p..p + |a + b|][..|a|];
    assert s[p + |a|..p + |a| + |b|] == s[p..p + |a + b|][|a|..];
  }

  lemma StartsAtOne(s: bytes, p: nat, c: byte)
    requires StartsAt(s, p, [c])
    ensures p < |s| && s[p] == c
  {
    assert s[p] == s[p..p + 1][0];
  }

  /** A decimal number followed by a colon is read back by sscanf, and strcspn finds the colon. */
  lemma ScanDec(s: bytes, p: nat, n: nat)
    requires StartsAt(s, p, Dec(n) + [COLON])
    ensures ScanInt(s, p) == Some(n)
    ensures Cspn(s, p, COLON) == |Dec(n)| && p + |Dec(n)| < |s| && s[p + |Dec(n)|] == COLON
  {
    var d := Dec(n);
    StartsAtSplit(s, p, d, [COLON]);
    StartsAtOne(s, p + |d|, COLON);
    assert forall i | 0 <= i < |d| :: s[p + i] == s[p..p + |d|][i] == d[i];
    ParseDigits(s, p, |s|, 0, d);
    ValueDec(n);
    forall i | p <= i < p + |d|
      ensures s[i] != COLON && s[i] != NUL
    {
      assert s[i] == d[i - p];
    }
    CspnIs(s, p, COLON, |d|);
  }

  lemma {:induction false} UnpackPack(s: bytes, p: nat, l: seq<bytes>, acc: seq<bytes>)
    requires Elements(l) && StartsAt(s, p, Pack(l))
    ensures Unpack(s, p, p + |Pack(l)|, acc) == Some(acc + l)
    decreases |l|
  {
    hide Unpack, Pack, PackOne, Elements;
    PackCases(l);
    if l == [] {
      UnpackDone(s, p, acc);
      assert acc + l == acc;
    } else {
      var e := l[0];
      var max := p + |Pack(l)|;
      assert Elements(l[1..]) by { ElementsTail(l); }
      UnpackFirst(s, p, max, l, acc);
      StartsAtSplit(s, p, PackOne(e), Pack(l[1..]));
      UnpackPack(s, p + |PackOne(e)|, l[1..], acc + [e]);
      assert acc + [e] + l[1..] == acc + l;
    }
  }

  lemma PackCases(l: seq<bytes>)
    ensures l == [] ==> Pack(l) == []
    ensures l != [] ==> Pack(l) == PackOne(l[0]) + Pack(l[1..]) && |PackOne(l[0])| > 0
  {
  }

  lemma ElementsTail(l: seq<bytes>)
    requires l != [] && Elements(l)
    ensures Elements(l[1..])
  {
  }

  lemma UnpackDone(s: bytes, p: nat, acc: seq<bytes>)
    ensures Unpack(s, p, p, acc) == Some(acc)
  {
  }

  lemma UnpackFirst(s: bytes, p: nat, max: nat, l: seq<bytes>, acc: seq<bytes>)
    requires l != [] && Elements(l) && StartsAt(s, p, Pack(l)) && p < max
    ensures Unpack(s, p, max, acc) == Unpack(s, p + |PackOne(l[0])|, max, acc + [l[0]])
  {
    hide Pack, Cspn, ScanInt, Dec, Unpack, Cut;
    var e := l[0];
    PackStart(s, p, l);
    ScanDec(s, p, |e|);
    var colon := p + |Dec(|e|)|;
    WholeString(e);
    UnpackStep(s, p, max, acc, |e|, colon);
  }

  lemma WholeString(e: bytes)
    requires NUL !in e
    ensures Cut(e) == e
  {
  }

  lemma UnpackStep(s: bytes, p: nat, max: nat, acc: seq<bytes>, n: nat, colon: nat)
    requires At(s, p) != NUL && p < max && ScanInt(s, p) == Some(n) && n > 0
    requires colon == p + Cspn(s, p, COLON) && At(s, colon) != NUL
    ensures Unpack(s, p, max, acc) == Unpack(s, colon + 1 + n + 1, max, acc + [Cut(Slice(s, colon + 1, n))])
  {
    hide ScanInt, Cspn, Cut, Slice;
  }

  lemma PackStart(s: bytes, p: nat, l: seq<bytes>)
    requires l != [] && StartsAt(s, p, Pack(l))
    ensures StartsAt(s, p, Dec(|l[0]|) + [COLON])
    ensures StartsAt(s, p + |Dec(|l[0]|)| + 1, l[0])
    ensures At(s, p) != NUL
  {
    hide Dec;
    var e := l[0];
    var d := Dec(|e|);
    StartsAtSplit(s, p, PackOne(e), Pack(l[1..]));
    assert PackOne(e) == (d + [COLON]) + (e + [COMMA]);
    StartsAtSplit(s, p, d + [COLON], e + [COMMA]);
    StartsAtSplit(s, p + |d| + 1, e, [COMMA]);
    StartsAtSplit(s, p, d, [COLON]);
    assert s[p] == s[p..p + |d|][0] == d[0];
  }
}
