/** replace/inet_pton.c: presentation to network form of IPv4 and IPv6 addresses. */
module InetPton {
  import opened Bytes
  import opened CText

  const DOT: byte := 46

  // Pieces between separators -----------------------------------------------------------------------------

  /** The pieces of cur + rest, where cur is the beginning of the first one. */
  function Pieces(cur: bytes, rest: bytes, sep: byte): (ps: seq<bytes>)
    ensures |ps| >= 1 && cur <= ps[0]
    decreases |rest|
  {
    if rest == [] then [cur]
    else if rest[0] == sep then [cur] + Pieces([], rest[1..], sep)
    else Pieces(cur + [rest[0]], rest[1..], sep)
  }

  function Split(s: bytes, sep: byte): (ps: seq<bytes>)
    ensures |ps| >= 1
  {
    Pieces([], s, sep)
  }

  lemma PiecesStep(cur: bytes, s: bytes, i: nat, sep: byte)
    requires i < |s|
    ensures Pieces(cur, s[i..], sep) ==
            if s[i] == sep then [cur] + Pieces([], s[i + 1..], sep) else Pieces(cur + [s[i]], s[i + 1..], sep)
  {
    assert s[i..][1..] == s[i + 1..];
  }

  lemma PiecesEnd(cur: bytes, s: bytes, sep: byte)
    ensures Pieces(cur, s[|s|..], sep) == [cur]
  {
  }

  // Dotted quads ------------------------------------------------------------------------------------------

  ghost predicate Digits(p: bytes) {
    forall i | 0 <= i < |p| :: IsDigit(p[i])
  }

  /** A decimal number up to 255. */
  ghost predicate IsOctet(p: bytes) {
    p != [] && Digits(p) && Value(0, p) <= 255
  }

  /** a.b.c.d */
  ghost predicate IsQuad(s: bytes) {
    var ps := Split(s, DOT);
    |ps| == 4 && forall i | 0 <= i < 4 :: IsOctet(ps[i])
  }

  ghost function QuadBytes(s: bytes): (b: bytes)
    requires IsQuad(s)
    ensures |b| == 4
  {
    var ps := Split(s, DOT);
    [Value(0, ps[0]), Value(0, ps[1]), Value(0, ps[2]), Value(0, ps[3])]
  }

  lemma {:induction false} ValueGrows(acc: nat, d: bytes)
    requires Digits(d)
    ensures Value(acc, d) >= acc
    decreases |d|
  {
    if d != [] {
      ValueGrows(acc * 10 + Digit(d[0]), d[1..]);
    }
  }

  lemma {:induction false} ValueConcat(acc: nat, a: bytes, b: bytes)
    requires Digits(a) && Digits(b)
    ensures Value(acc, a + b) == Value(Value(acc, a), b)
    decreases |a|
  {
    if a == [] {
      assert a + b == b;
    } else {
      assert (a + b)[1..] == a[1..] + b;
      ValueConcat(acc * 10 + Digit(a[0]), a[1..], b);
    }
  }

  /** A piece that begins with too large a number is no octet. */
  lemma TooLarge(cur: bytes, p: bytes)
    requires Digits(cur) && Value(0, cur) > 255 && cur <= p
    ensures !IsOctet(p)
  {
    if Digits(p) {
      var rest := p[|cur|..];
      assert p == cur + rest;
      ValueConcat(0, cur, rest);
      ValueGrows(Value(0, cur), rest);
    }
  }

  /** What inet_pton4 has taken in: whole octets, then the digits of the next one. */
  ghost predicate Taken(src: bytes, i: nat, done: seq<bytes>, cur: bytes) {
    && i <= |src|
    && Split(src, DOT) == done + Pieces(cur, src[i..], DOT)
    && (forall k | 0 <= k < |done| :: IsOctet(done[k]))
    && Digits(cur) && Value(0, cur) <= 255
  }

  lemma NotQuadPiece(src: bytes, i: nat, done: seq<bytes>, cur: bytes)
    requires Taken(src, i, done, cur) && !IsOctet(Pieces(cur, src[i..], DOT)[0])
    ensures !IsQuad(src)
  {
    hide IsOctet, Pieces;
    var ps := Split(src, DOT);
    assert ps[|done|] == Pieces(cur, src[i..], DOT)[0];
  }

  lemma BadCharacter(src: bytes, i: nat, done: seq<bytes>, cur: bytes)
    requires Taken(src, i, done, cur) && i < |src| && !IsDigit(src[i]) && (src[i] != DOT || cur == [])
    ensures !IsQuad(src)
  {
    hide Taken, IsQuad;
    PiecesStep(cur, src, i, DOT);
    var p := Pieces(cur, src[i..], DOT)[0];
    if src[i] != DOT {
      assert cur + [src[i]] <= p;
      assert p[|cur|] == (cur + [src[i]])[|cur|] == src[i];
    }
    NotQuadPiece(src, i, done, cur);
  }

  lemma OctetTooLarge(src: bytes, i: nat, done: seq<bytes>, cur: bytes)
    requires Taken(src, i, done, cur) && i < |src| && IsDigit(src[i])
    requires Value(0, cur) * 10 + Digit(src[i]) > 255
    ensures !IsQuad(src)
  {
    hide IsQuad, Pieces;
    PiecesStep(cur, src, i, DOT);
    ValueSnoc(0, cur, src[i]);
    TooLarge(cur + [src[i]], Pieces(cur, src[i..], DOT)[0]);
    NotQuadPiece(src, i, done, cur);
  }

  lemma TakeDigit(src: bytes, i: nat, done: seq<bytes>, cur: bytes)
    requires Taken(src, i, done, cur) && i < |src| && IsDigit(src[i])
    requires Value(0, cur) * 10 + Digit(src[i]) <= 255
    ensures Taken(src, i + 1, done, cur + [src[i]])
    ensures CurIs(cur + [src[i]], Value(0, cur) * 10 + Digit(src[i]))
  {
    hide Pieces;
    PiecesStep(cur, src, i, DOT);
    ValueSnoc(0, cur, src[i]);
  }

  lemma TakeDot(src: bytes, i: nat, done: seq<bytes>, cur: bytes)
    requires Taken(src, i, done, cur) && i < |src| && src[i] == DOT && cur != []
    ensures Taken(src, i + 1, done + [cur], []) && CurIs([], 0)
    ensures |done| >= 3 ==> !IsQuad(src)
  {
    hide Pieces;
    PiecesStep(cur, src, i, DOT);
    assert done + ([cur] + Pieces([], src[i + 1..], DOT)) == (done + [cur]) + Pieces([], src[i + 1..], DOT);
    assert Value(0, []) == 0;
  }

  lemma TakenAll(src: bytes, done: seq<bytes>, cur: bytes)
    requires Taken(src, |src|, done, cur)
    ensures IsQuad(src) <==> |done| == 3 && cur != []
    ensures IsQuad(src) ==> QuadBytes(src) == [Value(0, done[0]), Value(0, done[1]), Value(0, done[2]), Value(0, cur)]
  {
    hide Pieces;
    PiecesEnd(cur, src, DOT);
    var ps := Split(src, DOT);
    assert ps == done + [cur];
    if |done| == 3 {
      assert ps[0] == done[0] && ps[1] == done[1] && ps[2] == done[2] && ps[3] == cur;
    }
  }

  /** inet_pton4: dst receives the four octets at `at`, and is touched only if the string is a dotted quad. */
  method InetPton4(src: bytes, dst: array<byte>, at: nat) returns (ok: bool)
    requires at + 4 <= dst.Length
    modifies dst
    ensures ok <==> IsQuad(src)
    ensures dst[..] == if ok then old(dst[..at]) + QuadBytes(src) + old(dst[at + 4..]) else old(dst[..])
  {
    hide Pieces, Taken, IsQuad, QuadBytes, IsOctet, Digits;
    var tmp := new byte[4];
    var tp, octets, sawDigit := 0, 0, false;
    tmp[0] := 0;
    ghost var done, cur: bytes := [], [];
    TakenNone(src);
    var i := 0;
    while i < |src|
      invariant 0 <= i <= |src| && dst[..] == old(dst[..])
      invariant tp == |done| <= 3 && tmp.Length == 4
      invariant Taken(src, i, done, cur) && CurIs(cur, tmp[tp])
      invariant sawDigit == (cur != [])
      invariant octets == |done| + if sawDigit then 1 else 0
      invariant forall k | 0 <= k < |done| :: CurIs(done[k], tmp[k])
    {
      var ch := src[i];
      if IsDigit(ch) {
        var new_ := tmp[tp] as int * 10 + Digit(ch);
        if new_ > 255 {
          OctetTooLarge(src, i, done, cur);
          return false;
        }
        TakeDigit(src, i, done, cur);
        tmp[tp] := new_;
        cur := cur + [ch];
        if !sawDigit {
          octets := octets + 1;
          sawDigit := true;
        }
      } else if ch == DOT && sawDigit {
        TakeDot(src, i, done, cur);
        if octets == 4 {
          return false;
        }
        done, cur := done + [cur], [];
        tp := tp + 1;
        tmp[tp] := 0;
        sawDigit := false;
      } else {
        BadCharacter(src, i, done, cur);
        return false;
      }
      i := i + 1;
    }
    TakenAll(src, done, cur);
    if octets < 4 {
      return false;
    }
    assert tmp[..] == QuadBytes(src);
    ghost var tail := dst[at + 4..];
    Store(dst, at, tmp[..]);
    assert dst[..] == dst[..at + 4] + dst[at + 4..];
    return true;
  }

  ghost predicate CurIs(cur: bytes, v: byte) {
    Digits(cur) && Value(0, cur) == v
  }

  lemma TakenNone(src: bytes)
    ensures Taken(src, 0, [], []) && CurIs([], 0)
  {
    hide Pieces;
    assert src[0..] == src;
    assert [] + Pieces([], src, DOT) == Pieces([], src, DOT);
  }

  // IPv6 groups -------------------------------------------------------------------------------------------

  predicate IsHex(c: byte) {
    IsDigit(c) || 97 <= c <= 102 || 65 <= c <= 70
  }

  function HexDigit(c: byte): (d: nat)
    requires IsHex(c)
    ensures d < 16
  {
    if IsDigit(c) then c - 48 else if c >= 97 then c - 97 + 10 else c - 65 + 10
  }

  lemma HexTables()
    ensures Ascii("0123456789abcdef") == [48, 49, 50, 51, 52, 53, 54, 55, 56, 57, 97, 98, 99, 100, 101, 102]
    ensures Ascii("0123456789ABCDEF") == [48, 49, 50, 51, 52, 53, 54, 55, 56, 57, 65, 66, 67, 68, 69, 70]
  {
  }

  /** The digits of either case have the values of their places. */
  lemma HexDigits(i: nat)
    requires i < 16
    ensures var c := Ascii("0123456789abcdef")[i]; IsHex(c) && HexDigit(c) == i
    ensures var c := Ascii("0123456789ABCDEF")[i]; IsHex(c) && HexDigit(c) == i
  {
    hide Ascii;
    HexTables();
  }

  /** And there are no others. */
  lemma HexDigitsOnly(c: byte)
    requires IsHex(c)
    ensures c in Ascii("0123456789abcdef") || c in Ascii("0123456789ABCDEF")
  {
    hide Ascii;
    HexTables();
    var i := HexDigit(c);
    assert Ascii("0123456789abcdef")[i] == c || Ascii("0123456789ABCDEF")[i] == c;
  }

  ghost predicate Hexes(p: bytes) {
    forall i | 0 <= i < |p| :: IsHex(p[i])
  }

  /** The number written by p, most significant digit first. */
  ghost function HexValue(p: bytes): nat
    requires Hexes(p)
  {
    if p == [] then 0 else HexValue(p[..|p| - 1]) * 16 + HexDigit(p[|p| - 1])
  }

  ghost predicate IsGroup(p: bytes) {
    p != [] && Hexes(p) && HexValue(p) <= 0xffff
  }

  ghost function GroupBytes(p: bytes): (b: bytes)
    requires IsGroup(p)
    ensures |b| == 2
  {
    [HexValue(p) / 256, HexValue(p) % 256]
  }

  /** n in hexadecimal, with the given sixteen digits. */
  function HexOf(n: nat, digits: bytes): bytes
    requires |digits| == 16
  {
    (if n < 16 then [] else HexOf(n / 16, digits)) + [digits[n % 16]]
  }

  /** A number written in either case is read as that number. */
  lemma {:induction false} HexWritten(n: nat, digits: bytes)
    requires digits == Ascii("0123456789abcdef") || digits == Ascii("0123456789ABCDEF")
    ensures Hexes(HexOf(n, digits)) && HexValue(HexOf(n, digits)) == n
    ensures n <= 0xffff ==> IsGroup(HexOf(n, digits)) && GroupBytes(HexOf(n, digits)) == [n / 256, n % 256]
    decreases n
  {
    var c := digits[n % 16];
    HexDigits(n % 16);
    var front: bytes := if n < 16 then [] else HexOf(n / 16, digits);
    if n >= 16 {
      HexWritten(n / 16, digits);
    }
    HexSnoc(front, c);
  }

  lemma HexSnoc(p: bytes, c: byte)
    requires Hexes(p) && IsHex(c)
    ensures Hexes(p + [c]) && HexValue(p + [c]) == HexValue(p) * 16 + HexDigit(c)
  {
    assert (p + [c])[..|p|] == p;
  }

  lemma {:induction false} HexGrows(p: bytes, n: nat)
    requires Hexes(p) && n <= |p|
    ensures HexValue(p[..n]) <= HexValue(p)
    decreases |p| - n
  {
    if n == |p| {
      assert p[..n] == p;
    } else {
      assert p[..n + 1][..n] == p[..n];
      HexGrows(p, n + 1);
    }
  }

  /** Digits read as a decimal number up to 255 are a small number in hexadecimal too. */
  lemma {:induction false} DecimalAsHex(p: bytes)
    requires Digits(p)
    ensures Hexes(p)
    ensures Value(0, p) == 0 ==> HexValue(p) == 0
    ensures Value(0, p) < 10 ==> HexValue(p) < 16
    ensures Value(0, p) < 100 ==> HexValue(p) < 256
    ensures Value(0, p) < 1000 ==> HexValue(p) < 4096
    decreases |p|
  {
    if p != [] {
      var q, c := p[..|p| - 1], p[|p| - 1];
      assert p == q + [c];
      DecimalAsHex(q);
      ValueSnoc(0, q, c);
    }
  }

  // What an address denotes -------------------------------------------------------------------------------

  /** The octets of the last piece: a group, a dotted quad, or nothing after a trailing "::". */
  ghost function LastBytes(p: bytes): Option<bytes> {
    if p == [] then Some([])
    else if IsGroup(p) then Some(GroupBytes(p))
    else if IsQuad(p) then Some(QuadBytes(p))
    else None
  }

  /** Sixteen octets out of those written and the place of "::", which must stand for at least one group. */
  ghost function Place(out: bytes, gap: Option<nat>): Option<bytes>
    requires gap.Some? ==> gap.value <= |out|
  {
    if gap.None? then (if |out| == 16 then Some(out) else None)
    else if |out| >= 16 then None
    else Some(out[..gap.value] + Zeros(16 - |out|) + out[gap.value..])
  }

  /** What the pieces still to come make of the octets so far. */
  ghost function From(out: bytes, gap: Option<nat>, ps: seq<bytes>): Option<bytes>
    requires ps != [] && (gap.Some? ==> gap.value <= |out|)
    decreases |ps|
  {
    if |ps| == 1 then
      var b := LastBytes(ps[0]);
      if b.None? || |out| + |b.value| > 16 then None else Place(out + b.value, gap)
    else if ps[0] == [] then
      if gap.Some? then None else From(out, Some(|out|), ps[1..])
    else if ps[1..] == [[]] || !IsGroup(ps[0]) || |out| + 2 > 16 then None
    else From(out + GroupBytes(ps[0]), gap, ps[1..])
  }

  /** A leading colon must be the first of "::". */
  ghost predicate LeadOk(src: bytes) {
    src != [] && src[0] == COLON ==> |src| >= 2 && src[1] == COLON
  }

  function Body(src: bytes): bytes {
    if src != [] && src[0] == COLON then src[1..] else src
  }

  ghost function Address(src: bytes): Option<bytes> {
    if !LeadOk(src) then None else From([], None, Split(Body(src), COLON))
  }

  // Reading an address ------------------------------------------------------------------------------------

  /** State of the loop: t[j..i] are the hexadecimal digits of the piece being read. */
  ghost predicate Read(t: bytes, j: nat, i: nat, out: bytes, gap: Option<nat>, val: nat) {
    && j <= i <= |t|
    && Hexes(t[j..i]) && HexValue(t[j..i]) == val <= 0xffff
    && (gap.Some? ==> gap.value <= |out|) && |out| <= 16
    && From([], None, Split(t, COLON)) == From(out, gap, Pieces(t[j..i], t[i..], COLON))
  }

  lemma FromBadFirst(out: bytes, gap: Option<nat>, ps: seq<bytes>)
    requires ps != [] && (gap.Some? ==> gap.value <= |out|)
    requires ps[0] != [] && !IsGroup(ps[0]) && (|ps| == 1 ==> !IsQuad(ps[0]) || |out| + 4 > 16)
    ensures From(out, gap, ps).None?
  {
    hide IsGroup, IsQuad;
  }

  lemma HexTooLarge(t: bytes, j: nat, i: nat, out: bytes, gap: Option<nat>, val: nat)
    requires Read(t, j, i, out, gap, val) && i < |t| && IsHex(t[i])
    requires val * 16 + HexDigit(t[i]) > 0xffff
    ensures From([], None, Split(t, COLON)).None?
  {
    hide Pieces, IsQuad;
    var cur := t[j..i] + [t[i]];
    HexSnoc(t[j..i], t[i]);
    PiecesStep(t[j..i], t, i, COLON);
    var ps := Pieces(t[j..i], t[i..], COLON);
    LargeIsNoPiece(cur, ps[0]);
    FromBadFirst(out, gap, ps);
  }

  lemma LargeIsNoPiece(cur: bytes, p: bytes)
    requires Hexes(cur) && HexValue(cur) > 0xffff && cur <= p
    ensures !IsGroup(p) && !IsQuad(p)
  {
    hide HexValue, IsQuad;
    if Hexes(p) {
      assert cur == p[..|cur|];
      HexGrows(p, |cur|);
    }
    if IsQuad(p) {
      QuadFirst(p, cur);
    }
  }

  /** The hexadecimal digits in front of a dotted quad lie in its first octet. */
  lemma QuadFirst(p: bytes, cur: bytes)
    requires IsQuad(p) && Hexes(cur) && cur <= p
    ensures HexValue(cur) <= 0xffff
  {
    hide Pieces, HexValue;
    var o := Split(p, DOT)[0];
    assert IsOctet(o);
    FirstPiece(p, DOT, cur);
    DecimalAsHex(o);
    assert cur == o[..|cur|];
    HexGrows(o, |cur|);
  }

  lemma {:induction false} FirstPieceFrom(cur: bytes, rest: bytes, sep: byte, n: nat)
    requires n <= |rest| && sep !in rest[..n]
    ensures cur + rest[..n] <= Pieces(cur, rest, sep)[0]
    decreases n
  {
    if n > 0 {
      assert rest[0] == rest[..n][0];
      assert rest[1..][..n - 1] == rest[..n][1..];
      FirstPieceFrom(cur + [rest[0]], rest[1..], sep, n - 1);
      assert cur + rest[..n] == cur + [rest[0]] + rest[1..][..n - 1];
    } else {
      assert cur + rest[..n] == cur;
    }
  }

  lemma FirstPiece(p: bytes, sep: byte, cur: bytes)
    requires cur <= p && sep !in cur
    ensures cur <= Split(p, sep)[0]
  {
    hide Pieces;
    FirstPieceFrom([], p, sep, |cur|);
    assert [] + p[..|cur|] == cur;
  }

  lemma ReadHex(t: bytes, j: nat, i: nat, out: bytes, gap: Option<nat>, val: nat)
    requires Read(t, j, i, out, gap, val) && i < |t| && IsHex(t[i])
    requires val * 16 + HexDigit(t[i]) <= 0xffff
    ensures Read(t, j, i + 1, out, gap, val * 16 + HexDigit(t[i]))
  {
    hide Pieces, From;
    assert t[j..i + 1] == t[j..i] + [t[i]];
    HexSnoc(t[j..i], t[i]);
    PiecesStep(t[j..i], t, i, COLON);
  }

  lemma EmptyRest(x: bytes, sep: byte)
    ensures Pieces([], x, sep) == [[]] <==> x == []
  {
    if x != [] {
      if x[0] != sep {
        assert [x[0]] <= Pieces([] + [x[0]], x[1..], sep)[0];
      }
    }
  }

  /** "::" after the octets so far. */
  lemma ReadGap(t: bytes, j: nat, i: nat, out: bytes, gap: Option<nat>, val: nat)
    requires Read(t, j, i, out, gap, val) && i < |t| && t[i] == COLON && i == j
    ensures gap.Some? ==> From([], None, Split(t, COLON)).None?
    ensures gap.None? ==> Read(t, i + 1, i + 1, out, Some(|out|), 0)
  {
    hide Pieces;
    PiecesStep(t[j..i], t, i, COLON);
    assert t[i + 1..i + 1] == [];
    var ps := Pieces(t[j..i], t[i..], COLON);
    assert ps[0] == [] && ps[1..] == Pieces([], t[i + 1..], COLON);
  }

  /** The colon after a group. */
  lemma ReadGroup(t: bytes, j: nat, i: nat, out: bytes, gap: Option<nat>, val: nat)
    requires Read(t, j, i, out, gap, val) && i < |t| && t[i] == COLON && j < i
    ensures i + 1 == |t| || |out| + 2 > 16 ==> From([], None, Split(t, COLON)).None?
    ensures i + 1 < |t| && |out| + 2 <= 16 ==> Read(t, i + 1, i + 1, out + [val / 256, val % 256], gap, 0)
  {
    hide Pieces;
    PiecesStep(t[j..i], t, i, COLON);
    EmptyRest(t[i + 1..], COLON);
    assert t[i + 1..i + 1] == [];
    var ps := Pieces(t[j..i], t[i..], COLON);
    assert ps[0] == t[j..i] && ps[1..] == Pieces([], t[i + 1..], COLON);
  }

  /** A character that is neither hexadecimal nor a colon: only a dotted quad to the end can save the address. */
  lemma ReadOther(t: bytes, j: nat, i: nat, out: bytes, gap: Option<nat>, val: nat)
    requires Read(t, j, i, out, gap, val) && i < |t| && !IsHex(t[i]) && t[i] != COLON
    ensures var r := From([], None, Split(t, COLON));
      if t[i] == DOT && |out| + 4 <= 16 && IsQuad(t[j..]) then r == Place(out + QuadBytes(t[j..]), gap) else r.None?
  {
    hide Pieces, IsQuad, QuadBytes, HexValue;
    var ps := Pieces(t[j..i], t[i..], COLON);
    PiecesStep(t[j..i], t, i, COLON);
    assert t[j..i] + [t[i]] <= ps[0];
    assert ps[0][i - j] == t[i];
    WholeTail(t, j, i);
    if IsQuad(t[j..]) {
      QuadNoColon(t[j..]);
    }
    if t[i] == DOT && |out| + 4 <= 16 && IsQuad(t[j..]) {
    } else {
      if t[i] != DOT && |ps| == 1 && IsQuad(ps[0]) {
        QuadChars(ps[0], i - j);
      }
      FromBadFirst(out, gap, ps);
    }
  }

  /** Without another colon, the piece being read is the last one and ends the string. */
  lemma WholeTail(t: bytes, j: nat, i: nat)
    requires j <= i <= |t|
    ensures var ps := Pieces(t[j..i], t[i..], COLON);
      && (COLON !in t[i..] ==> ps == [t[j..]])
      && (|ps| == 1 ==> ps[0] == t[j..])
  {
    hide Pieces;
    NoSeparator(t[j..i], t[i..], COLON);
    assert t[j..i] + t[i..] == t[j..];
  }

  lemma {:induction false} NoSeparator(cur: bytes, rest: bytes, sep: byte)
    ensures sep !in rest ==> Pieces(cur, rest, sep) == [cur + rest]
    ensures |Pieces(cur, rest, sep)| == 1 ==> Pieces(cur, rest, sep)[0] == cur + rest
    decreases |rest|
  {
    if rest == [] {
      assert cur + rest == cur;
    } else if rest[0] != sep {
      NoSeparator(cur + [rest[0]], rest[1..], sep);
      assert cur + [rest[0]] + rest[1..] == cur + rest;
    }
  }

  /** Every character of a string lies in one of its pieces or is a separator. */
  lemma {:induction false} CharInPiece(cur: bytes, rest: bytes, sep: byte, k: nat) returns (a: nat, b: nat)
    requires k < |rest| && rest[k] != sep
    ensures var ps := Pieces(cur, rest, sep); a < |ps| && b < |ps[a]| && ps[a][b] == rest[k]
    decreases |rest|
  {
    if rest[0] == sep {
      a, b := CharInPiece([], rest[1..], sep, k - 1);
      a := a + 1;
    } else if k == 0 {
      var p := Pieces(cur + [rest[0]], rest[1..], sep)[0];
      assert cur + [rest[0]] <= p;
      a, b := 0, |cur|;
    } else {
      a, b := CharInPiece(cur + [rest[0]], rest[1..], sep, k - 1);
    }
  }

  lemma QuadChars(p: bytes, k: nat)
    requires IsQuad(p) && k < |p|
    ensures p[k] == DOT || IsDigit(p[k])
  {
    hide Pieces;
    if p[k] != DOT {
      var a, b := CharInPiece([], p, DOT, k);
      assert IsOctet(Split(p, DOT)[a]);
    }
  }

  lemma QuadNoColon(p: bytes)
    requires IsQuad(p)
    ensures COLON !in p
  {
    hide IsQuad;
    forall k | 0 <= k < |p|
      ensures p[k] != COLON
    {
      QuadChars(p, k);
    }
  }

  lemma ReadNone(t: bytes)
    ensures Read(t, 0, 0, [], None, 0)
  {
    hide Pieces, From;
    assert t[0..] == t && t[0..0] == [];
  }

  /** The end of the string after hexadecimal digits or a colon. */
  lemma ReadAll(t: bytes, j: nat, out: bytes, gap: Option<nat>, val: nat)
    requires Read(t, j, |t|, out, gap, val)
    ensures var r := From([], None, Split(t, COLON));
      && (j == |t| ==> r == Place(out, gap))
      && (j < |t| ==> r == if |out| + 2 > 16 then None else Place(out + [val / 256, val % 256], gap))
  {
    hide Pieces;
    PiecesEnd(t[j..|t|], t, COLON);
    assert t[j..|t|] == t[j..];
    assert out + [] == out;
  }

  /** One group into the temporary: its high octet, then its low one. */
  method PutGroup(tmp: array<byte>, tp: nat, val: nat)
    requires tmp.Length == 16 && tp + 2 <= 16 && tmp[tp..] == Zeros(16 - tp) && val <= 0xffff
    modifies tmp
    ensures tmp[..tp + 2] == old(tmp[..tp]) + [val / 256, val % 256]
    ensures tmp[tp + 2..] == Zeros(14 - tp)
  {
    tmp[tp] := val / 256;
    tmp[tp + 1] := val % 256;
  }

  /** The character loop: groups and dotted quad into tmp, the place of "::" noted. */
  method ReadPieces(t: bytes, tmp: array<byte>) returns (ok: bool, tp: nat, colonp: Option<nat>)
    requires tmp.Length == 16 && tmp[..] == Zeros(16)
    modifies tmp
    ensures !ok ==> From([], None, Split(t, COLON)).None?
    ensures ok ==> tp <= 16 && (colonp.Some? ==> colonp.value <= tp) && tmp[tp..] == Zeros(16 - tp)
    ensures ok ==> From([], None, Split(t, COLON)) == Place(tmp[..tp], colonp)
  {
    hide From, Pieces, Read, IsQuad, QuadBytes, HexValue, Place, Hexes;
    tp, colonp := 0, None;
    var i, curtok, sawXdigit := 0, 0, false;
    var val: nat := 0;
    ReadNone(t);
    assert tmp[..tp] == [] && tmp[tp..] == tmp[..];
    while i < |t|
      invariant curtok <= i <= |t| && tp <= 16 && tmp[tp..] == Zeros(16 - tp)
      invariant Read(t, curtok, i, tmp[..tp], colonp, val) && val <= 0xffff
      invariant colonp.Some? ==> colonp.value <= tp
      invariant sawXdigit <==> curtok < i
    {
      var ch := t[i];
      if IsHex(ch) {
        if val * 16 + HexDigit(ch) > 0xffff {
          HexTooLarge(t, curtok, i, tmp[..tp], colonp, val);
          return false, tp, colonp;
        }
        ReadHex(t, curtok, i, tmp[..tp], colonp, val);
        val := val * 16 + HexDigit(ch);
        sawXdigit := true;
      } else if ch == COLON && !sawXdigit {
        ReadGap(t, curtok, i, tmp[..tp], colonp, val);
        if colonp.Some? {
          return false, tp, colonp;
        }
        colonp, curtok, val := Some(tp), i + 1, 0;
      } else if ch == COLON {
        ReadGroup(t, curtok, i, tmp[..tp], colonp, val);
        if i + 1 == |t| || tp + 2 > 16 {
          return false, tp, colonp;
        }
        PutGroup(tmp, tp, val);
        tp, curtok, sawXdigit, val := tp + 2, i + 1, false, 0;
      } else {
        ReadOther(t, curtok, i, tmp[..tp], colonp, val);
        if ch != DOT || tp + 4 > 16 {
          return false, tp, colonp;
        }
        ok := ReadQuad(t[curtok..], tmp, tp);
        return ok, tp + 4, colonp;
      }
      i := i + 1;
    }
    ReadAll(t, curtok, tmp[..tp], colonp, val);
    if sawXdigit {
      if tp + 2 > 16 {
        return false, tp, colonp;
      }
      PutGroup(tmp, tp, val);
      tp := tp + 2;
    }
    return true, tp, colonp;
  }

  /** A dotted quad into the temporary. */
  method ReadQuad(s: bytes, tmp: array<byte>, tp: nat) returns (ok: bool)
    requires tmp.Length == 16 && tp + 4 <= 16 && tmp[tp..] == Zeros(16 - tp)
    modifies tmp
    ensures ok <==> IsQuad(s)
    ensures ok ==> tmp[..tp + 4] == old(tmp[..tp]) + QuadBytes(s) && tmp[tp + 4..] == Zeros(12 - tp)
  {
    hide IsQuad, QuadBytes;
    ghost var was := tmp[..];
    ok := InetPton4(s, tmp, tp);
    if ok {
      ghost var now := was[..tp] + QuadBytes(s);
      assert was[tp + 4..] == was[tp..][4..];
      assert tmp[..] == now + was[tp + 4..];
      assert tmp[..tp + 4] == tmp[..][..tp + 4] == now;
      assert tmp[tp + 4..] == tmp[..][tp + 4..] == was[tp + 4..];
    }
  }

  /** The octets from colonp to tp move to the end, in place and from the last one on. */
  method ShiftLoop(tmp: array<byte>, colonp: nat, tp: nat)
    requires tmp.Length == 16 && colonp <= tp < 16
    requires forall k | tp <= k < 16 :: tmp[k] == 0
    modifies tmp
    ensures forall k | 0 <= k < colonp :: tmp[k] == old(tmp[k])
    ensures forall k | colonp <= k < colonp + 16 - tp :: tmp[k] == 0
    ensures forall k | colonp + 16 - tp <= k < 16 :: tmp[k] == old(tmp[..])[k - (16 - tp)]
  {
    var n := tp - colonp;
    var i := 1;
    ghost var was := tmp[..];
    while i <= n
      invariant 1 <= i <= n + 1
      invariant forall k | 0 <= k <= tp - i :: tmp[k] == was[k]
      invariant forall k | tp - i < k <= 16 - i :: tmp[k] == 0
      invariant forall k | 16 - i < k < 16 :: tmp[k] == was[k - (16 - tp)]
    {
      tmp[16 - i] := tmp[colonp + n - i];
      tmp[colonp + n - i] := 0;
      i := i + 1;
    }
  }

  /** Zeros come to stand where "::" was. */
  method ShiftToEnd(tmp: array<byte>, colonp: nat, tp: nat)
    requires tmp.Length == 16 && colonp <= tp < 16
    requires tmp[tp..] == Zeros(16 - tp)
    modifies tmp
    ensures tmp[..] == old(tmp[..colonp]) + Zeros(16 - tp) + old(tmp[colonp..tp])
  {
    ghost var was, z := tmp[..], 16 - tp;
    assert forall k | tp <= k < 16 :: tmp[k] == tmp[tp..][k - tp];
    ShiftLoop(tmp, colonp, tp);
    assert tmp[..colonp] == was[..colonp];
    assert tmp[colonp..colonp + z] == Zeros(z);
    assert tmp[colonp + z..16] == was[colonp..tp];
    assert tmp[..] == tmp[..colonp] + tmp[colonp..colonp + z] + tmp[colonp + z..16];
  }

  /** inet_pton6: dst receives the sixteen octets of the address, and is untouched if the string is none. */
  method InetPton6(src: bytes, dst: array<byte>) returns (ok: bool)
    requires dst.Length >= 16
    modifies dst
    ensures ok <==> Address(src).Some?
    ensures ok ==> dst[..16] == Address(src).value && dst[16..] == old(dst[16..])
    ensures !ok ==> dst[..] == old(dst[..])
  {
    hide From, Pieces;
    if src != [] && src[0] == COLON && (|src| < 2 || src[1] != COLON) {
      return false;
    }
    var tmp := new byte[16](_ => 0);
    assert tmp[..] == Zeros(16);
    var read, tp, colonp := ReadPieces(Body(src), tmp);
    if !read {
      return false;
    }
    ghost var out := tmp[..tp];
    if colonp.Some? {
      if tp == 16 {
        return false;
      }
      assert tmp[..colonp.value] == out[..colonp.value] && tmp[colonp.value..tp] == out[colonp.value..];
      ShiftToEnd(tmp, colonp.value, tp);
      tp := 16;
    }
    if tp != 16 {
      return false;
    }
    Store(dst, 0, tmp[..]);
    return true;
  }

  // The written form, after section 2.2 of RFC 1884 -------------------------------------------------------

  function Join(ps: seq<bytes>, sep: byte): bytes {
    if ps == [] then [] else if |ps| == 1 then ps[0] else ps[0] + [sep] + Join(ps[1..], sep)
  }

  ghost predicate AllGroups(gs: seq<bytes>) {
    forall i | 0 <= i < |gs| :: IsGroup(gs[i])
  }

  ghost function GroupsBytes(gs: seq<bytes>): (b: bytes)
    requires AllGroups(gs)
    ensures |b| == 2 * |gs|
  {
    if gs == [] then [] else GroupBytes(gs[0]) + GroupsBytes(gs[1..])
  }

  /** The octets of groups of which the last may be a dotted quad instead. */
  ghost function Octets(ps: seq<bytes>): Option<bytes> {
    if ps == [] then Some([])
    else if |ps| == 1 && IsQuad(ps[0]) then Some(QuadBytes(ps[0]))
    else if !IsGroup(ps[0]) || Octets(ps[1..]).None? then None
    else Some(GroupBytes(ps[0]) + Octets(ps[1..]).value)
  }

  /** An address in full: eight groups, or six and a dotted quad. */
  ghost predicate Full(s: bytes, ps: seq<bytes>, b: bytes) {
    s == Join(ps, COLON) && Octets(ps) == Some(b) && |b| == 16
  }

  /** An address with "::": zeros stand between the groups before it and those after it. */
  ghost predicate Compressed(s: bytes, before: seq<bytes>, after: seq<bytes>, b: bytes) {
    && AllGroups(before) && Octets(after).Some?
    && s == Join(before, COLON) + [COLON, COLON] + Join(after, COLON)
    && var n := 2 * |before| + |Octets(after).value|;
      n < 16 && b == GroupsBytes(before) + Zeros(16 - n) + Octets(after).value
  }

  ghost predicate Denotes(s: bytes, b: bytes) {
    || (exists ps :: Full(s, ps, b))
    || (exists before, after :: Compressed(s, before, after, b))
  }

  lemma {:induction false} SplitPiece(cur: bytes, p: bytes, rest: bytes, sep: byte)
    requires sep !in p
    ensures Pieces(cur, p + [sep] + rest, sep) == [cur + p] + Pieces([], rest, sep)
    ensures Pieces(cur, p, sep) == [cur + p]
    decreases |p|
  {
    var s := p + [sep] + rest;
    if p == [] {
      assert cur + p == cur && s[1..] == rest;
    } else {
      assert s[1..] == p[1..] + [sep] + rest;
      assert cur + [p[0]] + p[1..] == cur + p;
      SplitPiece(cur + [p[0]], p[1..], rest, sep);
    }
  }

  ghost predicate NoSep(ps: seq<bytes>, sep: byte) {
    forall i | 0 <= i < |ps| :: sep !in ps[i]
  }

  lemma {:induction false} SplitJoin(ps: seq<bytes>, sep: byte)
    requires ps != [] && NoSep(ps, sep)
    ensures Split(Join(ps, sep), sep) == ps
    decreases |ps|
  {
    hide Pieces;
    SplitPiece([], ps[0], Join(ps[1..], sep), sep);
    assert [] + ps[0] == ps[0];
    if |ps| > 1 {
      SplitJoin(ps[1..], sep);
      assert [ps[0]] + ps[1..] == ps;
    } else {
      assert ps == [ps[0]];
    }
  }

  lemma {:induction false} JoinPieces(cur: bytes, rest: bytes, sep: byte)
    requires sep !in cur
    ensures Join(Pieces(cur, rest, sep), sep) == cur + rest && NoSep(Pieces(cur, rest, sep), sep)
    decreases |rest|
  {
    if rest == [] {
      assert cur + rest == cur;
    } else if rest[0] == sep {
      JoinPieces([], rest[1..], sep);
      assert cur + [sep] + ([] + rest[1..]) == cur + rest;
      var ps := Pieces([], rest[1..], sep);
      assert ([cur] + ps)[1..] == ps;
    } else {
      JoinPieces(cur + [rest[0]], rest[1..], sep);
      assert cur + [rest[0]] + rest[1..] == cur + rest;
    }
  }

  lemma {:induction false} JoinConcat(a: seq<bytes>, b: seq<bytes>, sep: byte)
    requires a != [] && b != []
    ensures Join(a + b, sep) == Join(a, sep) + [sep] + Join(b, sep)
    decreases |a|
  {
    var ab := a + b;
    if |a| == 1 {
      assert ab[1..] == b;
    } else {
      JoinConcat(a[1..], b, sep);
      assert ab[1..] == a[1..] + b;
    }
  }

  lemma GroupHasNoColon(p: bytes)
    requires IsGroup(p)
    ensures p != [] && COLON !in p && p[0] != COLON && !IsQuad(p)
  {
    hide IsQuad, HexValue;
    if IsQuad(p) {
      GroupNotQuad(p);
    }
  }

  lemma GroupNotQuad(p: bytes)
    requires Hexes(p)
    ensures !IsQuad(p)
  {
    hide Pieces;
    NoSeparator([], p, DOT);
  }

  lemma FromGroup(out: bytes, gap: Option<nat>, g: bytes, rest: seq<bytes>)
    requires IsGroup(g) && |rest| >= 2 && (gap.Some? ==> gap.value <= |out|)
    ensures From(out, gap, [g] + rest) == if |out| + 2 > 16 then None else From(out + GroupBytes(g), gap, rest)
  {
    hide HexValue;
    var ps := [g] + rest;
    assert ps[0] == g && ps[1..] == rest;
  }

  /** Groups in front are taken one after the other. */
  lemma {:induction false} FromGroups(out: bytes, gap: Option<nat>, gs: seq<bytes>, post: seq<bytes>)
    requires AllGroups(gs) && |post| >= 2 && (gap.Some? ==> gap.value <= |out|)
    ensures From(out, gap, gs + post) ==
            if |out| + 2 * |gs| > 16 && gs != [] then None else From(out + GroupsBytes(gs), gap, post)
    decreases |gs|
  {
    hide From, IsGroup, GroupBytes;
    if gs == [] {
      assert gs + post == post && out + [] == out;
    } else {
      assert gs + post == [gs[0]] + (gs[1..] + post);
      FromGroup(out, gap, gs[0], gs[1..] + post);
      if |out| + 2 <= 16 {
        FromGroups(out + GroupBytes(gs[0]), gap, gs[1..], post);
        assert out + GroupBytes(gs[0]) + GroupsBytes(gs[1..]) == out + GroupsBytes(gs);
      }
    }
  }

  /** What follows when no empty piece is left: the octets written, put in their place. */
  lemma {:induction false} FromOctets(out: bytes, gap: Option<nat>, ps: seq<bytes>)
    requires ps != [] && (gap.Some? ==> gap.value <= |out|) && |out| <= 16
    requires forall i | 0 <= i < |ps| :: ps[i] != []
    ensures From(out, gap, ps) ==
            if Octets(ps).None? || |out| + |Octets(ps).value| > 16 then None else Place(out + Octets(ps).value, gap)
    decreases |ps|
  {
    hide IsQuad, QuadBytes, Place, HexValue;
    if |ps| == 1 {
      if IsGroup(ps[0]) {
        GroupHasNoColon(ps[0]);
        assert GroupBytes(ps[0]) + [] == GroupBytes(ps[0]);
      }
    } else if IsGroup(ps[0]) && |out| + 2 <= 16 {
      FromOctets(out + GroupBytes(ps[0]), gap, ps[1..]);
      if Octets(ps[1..]).Some? {
        assert out + GroupBytes(ps[0]) + Octets(ps[1..]).value == out + (GroupBytes(ps[0]) + Octets(ps[1..]).value);
      }
      assert ps[1..][0] != [];
    }
  }

  /** The pieces to the right of "::", of which there may be none. */
  function Right(after: seq<bytes>): (ps: seq<bytes>)
    ensures ps != []
  {
    if after == [] then [[]] else after
  }

  lemma FromRight(out: bytes, after: seq<bytes>)
    requires |out| <= 16 && Octets(after).Some?
    ensures From(out, Some(|out|), Right(after)) ==
            if |out| + |Octets(after).value| > 16 then None else Place(out + Octets(after).value, Some(|out|))
  {
    hide Octets, Place;
    if after == [] {
      assert Octets(after) == Some([]) by { NoOctets(); }
      assert out + [] == out;
    } else {
      OctetsPieces(after);
      FromOctets(out, Some(|out|), after);
    }
  }

  lemma NoOctets()
    ensures Octets([]) == Some([])
  {
  }

  lemma {:induction false} OctetsPieces(ps: seq<bytes>)
    requires Octets(ps).Some?
    ensures forall i | 0 <= i < |ps| :: ps[i] != []
    ensures NoSep(ps, COLON)
    decreases |ps|
  {
    hide IsQuad, IsGroup;
    if ps != [] {
      if |ps| == 1 && IsQuad(ps[0]) {
        QuadNoColon(ps[0]);
        QuadNonempty(ps[0]);
      } else {
        GroupHasNoColon(ps[0]);
        OctetsPieces(ps[1..]);
        assert forall i | 1 <= i < |ps| :: ps[i] == ps[1..][i - 1];
      }
    }
  }

  lemma QuadNonempty(p: bytes)
    requires IsQuad(p)
    ensures p != []
  {
  }

  /** The two colons of "::" bound an empty piece. */
  lemma JoinAround(before: seq<bytes>, after: seq<bytes>)
    ensures var j := Join(before + [[]] + Right(after), COLON);
      if before == [] then j == [COLON] + Join(after, COLON)
      else j == Join(before, COLON) + [COLON, COLON] + Join(after, COLON)
  {
    var r := Right(after);
    var er := [[]] + r;
    assert Join(r, COLON) == Join(after, COLON);
    assert er[1..] == r;
    assert Join(er, COLON) == [] + [COLON] + Join(r, COLON) == [COLON] + Join(r, COLON);
    if before == [] {
      assert before + [[]] + r == er;
    } else {
      assert before + [[]] + r == before + er;
      JoinConcat(before, er, COLON);
      assert Join(before, COLON) + [COLON] + ([COLON] + Join(r, COLON)) ==
             Join(before, COLON) + [COLON, COLON] + Join(r, COLON);
    }
  }

  lemma JoinStart(ps: seq<bytes>, sep: byte)
    requires ps != [] && ps[0] != []
    ensures Join(ps, sep) != [] && Join(ps, sep)[0] == ps[0][0]
  {
  }

  /** Leaving out the first of two leading colons. */
  lemma BodyIs(s: bytes, before: seq<bytes>, after: seq<bytes>)
    requires (forall i | 0 <= i < |before| :: before[i] != [] && before[i][0] != COLON)
    ensures s == Join(before, COLON) + [COLON, COLON] + Join(after, COLON)
        <==> LeadOk(s) && Body(s) == Join(before + [[]] + Right(after), COLON)
  {
    hide Join;
    JoinAround(before, after);
    if before == [] {
      assert Join(before, COLON) == [] by { JoinNone(); }
      var j := [COLON] + Join(after, COLON);
      assert [] + [COLON, COLON] + Join(after, COLON) == [COLON] + j;
      if LeadOk(s) && Body(s) == j {
        assert s == [COLON] + j;
      }
    } else {
      JoinStart(before, COLON);
    }
  }

  lemma JoinNone()
    ensures Join([], COLON) == []
  {
  }

  lemma FullRead(s: bytes, ps: seq<bytes>, b: bytes)
    requires Full(s, ps, b)
    ensures Address(s) == Some(b)
  {
    hide From, Pieces, Join, IsQuad, QuadBytes;
    OctetsPieces(ps);
    assert ps != [];
    JoinStart(ps, COLON);
    SplitJoin(ps, COLON);
    FromOctets([], None, ps);
    assert [] + b == b;
  }

  lemma CompressedRead(s: bytes, before: seq<bytes>, after: seq<bytes>, b: bytes)
    requires Compressed(s, before, after, b)
    ensures Address(s) == Some(b)
  {
    hide From, Pieces, Join, IsQuad, QuadBytes, Octets, IsGroup, GroupsBytes;
    forall i | 0 <= i < |before|
      ensures before[i] != [] && before[i][0] != COLON && COLON !in before[i]
    {
      GroupHasNoColon(before[i]);
    }
    BodyIs(s, before, after);
    OctetsPieces(after);
    var ps := before + [[]] + Right(after);
    SplitJoin(ps, COLON);
    CompressedFrom(before, after);
    var o := Octets(after).value;
    var g := GroupsBytes(before);
    assert (g + o)[..|g|] == g && (g + o)[|g|..] == o;
  }

  lemma FromEmpty(out: bytes, rest: seq<bytes>)
    requires rest != []
    ensures From(out, None, [[]] + rest) == From(out, Some(|out|), rest)
  {
    assert ([[]] + rest)[1..] == rest;
  }

  lemma CompressedFrom(before: seq<bytes>, after: seq<bytes>)
    requires AllGroups(before) && Octets(after).Some?
    ensures From([], None, before + [[]] + Right(after)) ==
            if 2 * |before| + |Octets(after).value| > 16 then None
            else Place(GroupsBytes(before) + Octets(after).value, Some(2 * |before|))
  {
    hide From, Octets, IsGroup, GroupsBytes, Place;
    assert before + [[]] + Right(after) == before + ([[]] + Right(after));
    FromGroups([], None, before, [[]] + Right(after));
    var g := GroupsBytes(before);
    assert [] + g == g;
    FromEmpty(g, Right(after));
    if |g| <= 16 {
      FromRight(g, after);
    }
  }

  /** Only groups can stand before the first empty piece of an accepted address, and something follows it. */
  lemma {:induction false} LeftOfGap(out: bytes, ps: seq<bytes>, k: nat)
    requires k < |ps| && ps[k] == [] && (forall i | 0 <= i < k :: ps[i] != [])
    requires From(out, None, ps).Some? && (k == 0 ==> |out| < 16 || |ps| > 1)
    ensures k + 1 < |ps| && AllGroups(ps[..k])
    decreases k
  {
    hide IsGroup, GroupBytes, LastBytes;
    if k == 0 {
      assert LastBytes([]) == Some([]) by { LastNone(); }
    } else {
      var rest := ps[1..];
      assert IsGroup(ps[0]) && From(out + GroupBytes(ps[0]), None, rest).Some?;
      assert rest[k - 1] == [];
      assert k == 1 && |rest| == 1 ==> rest == [[]];
      LeftOfGap(out + GroupBytes(ps[0]), rest, k - 1);
      assert ps[..k] == [ps[0]] + rest[..k - 1];
    }
  }

  lemma LastNone()
    ensures LastBytes([]) == Some([])
  {
  }

  /** After "::" no other empty piece is accepted. */
  lemma {:induction false} RightOfGap(out: bytes, g: nat, ps: seq<bytes>)
    requires ps != [] && g <= |out| <= 16 && From(out, Some(g), ps).Some?
    ensures ps == Right([]) || (Octets(ps).Some? && ps == Right(ps))
    decreases |ps|
  {
    hide IsGroup, GroupBytes, LastBytes, Place, IsQuad, QuadBytes;
    if ps != [[]] {
      NoEmptyPiece(out, g, ps);
      FromOctets(out, Some(g), ps);
    }
  }

  lemma {:induction false} NoEmptyPiece(out: bytes, g: nat, ps: seq<bytes>)
    requires ps != [] && g <= |out| && From(out, Some(g), ps).Some? && ps != [[]]
    ensures forall i | 0 <= i < |ps| :: ps[i] != []
    decreases |ps|
  {
    hide IsGroup, GroupBytes, LastBytes, Place;
    if |ps| == 1 {
      assert ps == [ps[0]];
    } else {
      NoEmptyPiece(out + GroupBytes(ps[0]), g, ps[1..]);
      assert forall i | 1 <= i < |ps| :: ps[i] == ps[1..][i - 1];
    }
  }

  lemma FullFound(s: bytes, b: bytes)
    requires Address(s) == Some(b)
    requires var ps := Split(Body(s), COLON); forall i | 0 <= i < |ps| :: ps[i] != []
    ensures Full(s, Split(Body(s), COLON), b)
  {
    hide From, Pieces, Join, Octets;
    var t := Body(s);
    var ps := Split(t, COLON);
    FromOctets([], None, ps);
    assert [] + Octets(ps).value == Octets(ps).value;
    JoinPieces([], t, COLON);
    assert [] + t == t;
    JoinStart(ps, COLON);
    assert COLON !in ps[0] && ps[0][0] in ps[0];
  }

  lemma CompressedFound(s: bytes, b: bytes, k: nat) returns (before: seq<bytes>, after: seq<bytes>)
    requires Address(s) == Some(b)
    requires var ps := Split(Body(s), COLON); k < |ps| && ps[k] == [] && forall i | 0 <= i < k :: ps[i] != []
    ensures Compressed(s, before, after, b)
  {
    hide From, Pieces, Join, Octets, IsGroup, GroupsBytes, IsQuad, QuadBytes;
    var t := Body(s);
    var ps := Split(t, COLON);
    JoinPieces([], t, COLON);
    assert [] + t == t;
    LeftOfGap([], ps, k);
    before := ps[..k];
    var post := ps[k + 1..];
    assert ps == before + ([[]] + post);
    FromGroups([], None, before, [[]] + post);
    var g := GroupsBytes(before);
    assert [] + g == g;
    FromEmpty(g, post);
    RightOfGap(g, |g|, post);
    after := if post == Right([]) then [] else post;
    NoOctets();
    assert post == Right(after);
    assert ps == before + [[]] + Right(after);
    CompressedFrom(before, after);
    var o := Octets(after).value;
    assert (g + o)[..|g|] == g && (g + o)[|g|..] == o;
    forall i | 0 <= i < |before|
      ensures before[i] != [] && before[i][0] != COLON
    {
      GroupHasNoColon(before[i]);
    }
    BodyIs(s, before, after);
  }

  lemma FirstEmpty(ps: seq<bytes>) returns (k: nat)
    ensures k <= |ps| && (forall i | 0 <= i < k :: ps[i] != [])
    ensures k < |ps| ==> ps[k] == []
  {
    k := 0;
    while k < |ps| && ps[k] != []
      invariant k <= |ps| && forall i | 0 <= i < k :: ps[i] != []
    {
      k := k + 1;
    }
  }

  /** inet_pton6 accepts exactly the written forms of addresses, with the octets they denote. */
  lemma AddressDenotes(s: bytes, b: bytes)
    ensures Address(s) == Some(b) <==> Denotes(s, b)
  {
    hide Address, Full, Compressed;
    if Address(s) == Some(b) {
      var k := FirstEmpty(Split(Body(s), COLON));
      if k < |Split(Body(s), COLON)| {
        var before, after := CompressedFound(s, b, k);
      } else {
        FullFound(s, b);
      }
    }
    if Denotes(s, b) {
      if ps :| Full(s, ps, b) {
        FullRead(s, ps, b);
      } else {
        var before, after :| Compressed(s, before, after, b);
        CompressedRead(s, before, after, b);
      }
    }
  }
}
