/** What the two wire formats look like, and what their parsers accept as a field, for any octets. */
module WireForm {
  import opened Bytes
  import opened CText
  import opened MsgText
  import opened Netstring

  lemma Marks()
    ensures NET_START == Ascii("###\n") && NET_END == Ascii("%%%\n") && MSG_START == Ascii(">>>\n")
    ensures MSG_END == Ascii("<<<\n") && [COLON] == Ascii(":") && [COMMA] == Ascii(",") && [EQUAL] == Ascii("=")
    ensures [NL] == Ascii("\n")
  {
  }

  /** The type of a value in front of its name. */
  lemma Tags(v: Value)
    ensures Tag(v) ==
      match v
      case Str(_) => Ascii("(0)")
      case Bin(_) => Ascii("(1)")
      case Struct(_) => Ascii("(2)")
      case List(_) => Ascii("(3)")
      case Compress(_) => Ascii("(4)")
      case Uncompress(_) => Ascii("(5)")
  {
  }

  /** A message of one field, as it goes over the wire. */
  lemma OneField(f: Field)
    ensures MsgToNet(Msg([f])) ==
      var payload := Tag(f.value) + f.name + Ascii("=") + ValueToNet(f.value);
      Ascii("###\n") + Dec(|payload|) + Ascii(":") + payload + Ascii(",") + Ascii("%%%\n")
  {
    hide Ascii, Dec, ValueToNet, Tag;
    Marks();
    assert [f][1..] == [];
    assert FieldsToNet([f]) == FieldToNet(f) + [];
  }

  /** And as text. */
  lemma OneLine(f: Field, depth: nat)
    ensures MsgToText(Msg([f]), depth) ==
      var v := ValueToText(f.value, depth);
      if v.None? then None
      else Some(Ascii(">>>\n") + (if f.value.Str? then [] else Tag(f.value)) + f.name + Ascii("=") + v.value
                + Ascii("\n") + Ascii("<<<\n"))
  {
    hide Ascii, ValueToText, Tag;
    Marks();
    assert [f][1..] == [];
    var v := ValueToText(f.value, depth);
    assert FieldsToText([], depth) == Some([]);
    if v.Some? {
      var tag: bytes, line := if f.value.Str? then [] else Tag(f.value), LineOf(f, v.value) + [NL];
      assert FieldsToText([f], depth) == Some(line + []) && line + [] == line;
      assert MSG_START + line + MSG_END == MSG_START + tag + f.name + [EQUAL] + v.value + [NL] + MSG_END;
    }
  }

  ghost predicate AllDigits(d: bytes) {
    forall i | 0 <= i < |d| :: IsDigit(d[i])
  }

  /**
   * Digits, the longest run of them, whatever comes before the next colon, the colon, as many octets as the digits
   * say, and a comma, all in front of max.
   */
  ghost predicate IsNetstring(s: bytes, p: nat, max: nat, d: Peeled)
    requires max <= |s|
  {
    exists e: nat, c: nat | p < e <= c < max :: CutAt(s, p, max, e, c, d)
  }

  ghost predicate CutAt(s: bytes, p: nat, max: nat, e: nat, c: nat, d: Peeled)
    requires p < e <= c < max <= |s|
  {
    && AllDigits(s[p..e]) && !IsDigit(s[e])
    && COLON !in s[e..c] && s[c] == COLON
    && d.len == CText.Value(0, s[p..e]) && d.data == c + 1 && d.next == c + 1 + d.len + 1 <= max
    && s[c + 1 + d.len] == COMMA
  }

  lemma {:induction false} ParsedDigits(s: bytes, p: nat, max: nat, acc: nat)
    requires p <= max <= |s|
    ensures var (n, e) := ParseInt(s, p, max, acc);
      p <= e <= max && AllDigits(s[p..e]) && (e == max || !IsDigit(s[e])) && n == CText.Value(acc, s[p..e])
    decreases max - p
  {
    if p < max && IsDigit(s[p]) {
      ParsedDigits(s, p + 1, max, acc * 10 + Digit(s[p]));
      var e := ParseInt(s, p, max, acc).1;
      assert s[p..e] == [s[p]] + s[p + 1..e];
    } else {
      assert s[p..p] == [];
    }
  }

  lemma {:induction false} FoundColon(s: bytes, p: nat, max: nat)
    requires p <= max <= |s|
    ensures var c := FindColon(s, p, max);
      p <= c <= max && COLON !in s[p..c] && (c < max ==> s[c] == COLON)
    decreases max - p
  {
    if p < max && s[p] != COLON {
      FoundColon(s, p + 1, max);
      var c := FindColon(s, p, max);
      assert s[p..c] == [s[p]] + s[p + 1..c];
    }
  }

  /** What is peeled off is a netstring, and every netstring is peeled off. */
  lemma PeelExact(s: bytes, p: nat, max: nat, d: Peeled)
    requires max <= |s|
    ensures Peel(s, p, max) == Some(d) <==> IsNetstring(s, p, max, d)
  {
    hide CText.Value, ParseInt, FindColon;
    if p < max {
      ParsedDigits(s, p, max, 0);
      var e := ParseInt(s, p, max, 0).1;
      FoundColon(s, e, max);
      var c := FindColon(s, e, max);
      if Peel(s, p, max) == Some(d) {
        assert CutAt(s, p, max, e, c, d);
      }
      if IsNetstring(s, p, max, d) {
        var e', c' :| p < e' <= c' < max && CutAt(s, p, max, e', c', d);
        SameRun(s, p, e, e', max);
        SameColon(s, e, c, c', max);
      }
    }
  }

  /** The longest run of digits is one. */
  lemma SameRun(s: bytes, p: nat, e: nat, e': nat, max: nat)
    requires p <= e <= max <= |s| && p < e' < max
    requires AllDigits(s[p..e]) && (e == max || !IsDigit(s[e])) && AllDigits(s[p..e']) && !IsDigit(s[e'])
    ensures e == e'
  {
    var a, b := s[p..e], s[p..e'];
    assert forall i | 0 <= i < |a| :: a[i] == s[p + i];
    assert forall i | 0 <= i < |b| :: b[i] == s[p + i];
  }

  lemma SameColon(s: bytes, e: nat, c: nat, c': nat, max: nat)
    requires e <= c <= max <= |s| && e <= c' < max
    requires COLON !in s[e..c] && (c < max ==> s[c] == COLON) && COLON !in s[e..c'] && s[c'] == COLON
    ensures c == c'
  {
    var a, b := s[e..c], s[e..c'];
    assert forall i | 0 <= i < |a| :: a[i] == s[e + i];
    assert forall i | 0 <= i < |b| :: b[i] == s[e + i];
  }

  /** "(t)name=text" */
  ghost predicate IsPair(q: bytes, t: nat, name: bytes, text: bytes) {
    && t < 10 && name != [] && EQUAL !in name && NUL !in name
    && q == [LPAREN, 48 + t, RPAREN] + name + [EQUAL] + text
  }

  /** The payload at s + nv is a pair, and the field it stands for is added. */
  ghost predicate Adds(fs: seq<Field>, s: bytes, nv: nat, len: nat, t: nat, name: bytes, text: bytes, r: seq<Field>)
    requires nv + len < |s|
  {
    && name != [] && t < 10 && IsPair(s[nv..nv + len], t, name, text) && |name| + 4 <= len
    && var v := NetToValue(t, s, nv + 4 + |name|, nv + len);
    v.Some? && AddRaw(fs, name, v.value, 0) == Some(r)
  }

  lemma SpanIs(s: bytes, p: nat, a: bytes, c: byte)
    requires StartsAt(s, p, a) && c !in a && NUL !in a && (At(s, p + |a|) == c || At(s, p + |a|) == NUL)
    ensures Cspn(s, p, c) == |a| && s[p..p + |a|] == a
  {
    hide Cspn;
    assert forall i | 0 <= i < |a| :: s[p..p + |a|][i] == s[p + i] && a[i] in a;
    CspnIs(s, p, c, |a|);
  }

  /** Where the parts of a pair lie. */
  lemma PairParts(s: bytes, nv: nat, len: nat, t: nat, name: bytes, text: bytes)
    requires nv + len < |s| && IsPair(s[nv..nv + len], t, name, text)
    ensures len == 4 + |name| + |text| && s[nv] == LPAREN && s[nv + 1] == 48 + t && s[nv + 2] == RPAREN
    ensures s[nv + 3..nv + 3 + |name|] == name && s[nv + 3 + |name|] == EQUAL
    ensures Cspn(s, nv + 3, EQUAL) == |name|
  {
    var tag: bytes := [LPAREN, 48 + t, RPAREN];
    assert s[nv..nv + len] == tag + (name + ([EQUAL] + text));
    StartsAtSplit(s, nv, tag, name + ([EQUAL] + text));
    StartsAtSplit(s, nv + 3, name, [EQUAL] + text);
    StartsAtSplit(s, nv + 3 + |name|, [EQUAL], text);
    StartsAtOne(s, nv + 3 + |name|, EQUAL);
    Pointwise(s, nv, tag);
    hide Cspn, StartsAt;
    SpanIs(s, nv + 3, name, EQUAL);
  }

  lemma PairIs(fs: seq<Field>, s: bytes, nv: nat, len: nat, n: nat)
    requires nv + len < |s| && n == Cspn(s, nv + 3, EQUAL) > 0 && n + 4 <= len && s[nv + 3 + n] == EQUAL
    requires s[nv] == LPAREN && IsDigit(s[nv + 1]) && s[nv + 2] == RPAREN
    ensures AddNvPair(fs, s, nv, len) ==
      var v := NetToValue(Digit(s[nv + 1]), s, nv + 4 + n, nv + len);
      if v.None? then None else AddRaw(fs, s[nv + 3..nv + 3 + n], v.value, 0)
  {
    hide NetToValue, AddRaw, Cspn;
  }

  /** The pair that the decoder sees. */
  lemma PairSeen(s: bytes, nv: nat, len: nat, n: nat)
    requires nv + len < |s| && n == Cspn(s, nv + 3, EQUAL) > 0 && n + 4 <= len && s[nv + 3 + n] == EQUAL
    requires s[nv] == LPAREN && IsDigit(s[nv + 1]) && s[nv + 2] == RPAREN
    ensures IsPair(s[nv..nv + len], Digit(s[nv + 1]), s[nv + 3..nv + 3 + n], s[nv + 4 + n..nv + len])
  {
    hide Cspn;
    NoneIn(s, nv + 3, n);
    assert s[nv..nv + len] ==
      [LPAREN, s[nv + 1], RPAREN] + s[nv + 3..nv + 3 + n] + [EQUAL] + s[nv + 4 + n..nv + len];
  }

  /** A payload is decoded exactly if it is a pair whose field can be added. */
  lemma PairExact(fs: seq<Field>, s: bytes, nv: nat, len: nat, r: seq<Field>)
    requires nv + len < |s|
    ensures AddNvPair(fs, s, nv, len) == Some(r) <==>
      exists t, name, text :: Adds(fs, s, nv, len, t, name, text, r)
  {
    hide NetToValue, AddRaw, Cspn, IsPair;
    if AddNvPair(fs, s, nv, len) == Some(r) {
      var n := Cspn(s, nv + 3, EQUAL);
      PairSeen(s, nv, len, n);
      PairIs(fs, s, nv, len, n);
      assert Adds(fs, s, nv, len, Digit(s[nv + 1]), s[nv + 3..nv + 3 + n], s[nv + 4 + n..nv + len], r);
    }
    if t, name, text :| Adds(fs, s, nv, len, t, name, text, r) {
      PairTaken(fs, s, nv, len, t, name, text);
    }
  }

  lemma PairTaken(fs: seq<Field>, s: bytes, nv: nat, len: nat, t: nat, name: bytes, text: bytes)
    requires nv + len < |s| && IsPair(s[nv..nv + len], t, name, text) && name != [] && t < 10 && |name| + 4 <= len
    ensures AddNvPair(fs, s, nv, len) ==
      var v := NetToValue(t, s, nv + 4 + |name|, nv + len);
      if v.None? then None else AddRaw(fs, name, v.value, 0)
  {
    hide NetToValue, AddRaw, Cspn, IsPair, AddNvPair;
    PairParts(s, nv, len, t, name, text);
    PairIs(fs, s, nv, len, |name|);
  }

  lemma NoneIn(s: bytes, p: nat, n: nat)
    requires n > 0 && n == Cspn(s, p, EQUAL)
    ensures p + n <= |s| && EQUAL !in s[p..p + n] && NUL !in s[p..p + n]
  {
    hide Cspn;
    assert forall i | p <= i < p + n :: s[i] == At(s, i);
  }

  /** The i-th turn of the decoder's loop: at ps[i], with the fields gs[i] read so far. */
  ghost predicate Link(s: bytes, max: nat, ps: seq<nat>, gs: seq<seq<Field>>, i: nat)
    requires max <= |s| && i + 1 < |ps| == |gs|
  {
    && ps[i] < max && !StartsAt(s, ps[i], NET_END)
    && var d := Peel(s, ps[i], max);
    d.Some? && d.value.next == ps[i + 1] && AddNvPair(gs[i], s, d.value.data, d.value.len) == Some(gs[i + 1])
  }

  /** Netstrings one behind the other, each a field, up to the end line or max. */
  ghost predicate Chain(s: bytes, max: nat, ps: seq<nat>, gs: seq<seq<Field>>)
    requires max <= |s|
  {
    && 0 < |ps| == |gs| && (forall i | 0 <= i < |ps| - 1 :: Link(s, max, ps, gs, i))
    && var q := ps[|ps| - 1]; q >= max || StartsAt(s, q, NET_END)
  }

  ghost predicate Reads(
      fs: seq<Field>, s: bytes, p: nat, max: nat, ps: seq<nat>, gs: seq<seq<Field>>, r: (seq<Field>, nat))
    requires max <= |s|
  {
    Chain(s, max, ps, gs) && ps[0] == p && gs[0] == fs && r == (gs[|gs| - 1], ps[|ps| - 1])
  }

  lemma ChainMore(s: bytes, p: nat, max: nat, fs: seq<Field>, ps: seq<nat>, gs: seq<seq<Field>>)
    requires max <= |s| && Chain(s, max, ps, gs) && Link(s, max, [p] + ps, [fs] + gs, 0)
    ensures Chain(s, max, [p] + ps, [fs] + gs)
  {
    hide Peel, AddNvPair, StartsAt;
    forall i | 0 <= i < |[p] + ps| - 1
      ensures Link(s, max, [p] + ps, [fs] + gs, i)
    {
      assert i > 0 ==> Link(s, max, ps, gs, i - 1);
    }
  }

  lemma ChainLess(s: bytes, max: nat, ps: seq<nat>, gs: seq<seq<Field>>)
    requires max <= |s| && Chain(s, max, ps, gs) && |ps| > 1
    ensures Chain(s, max, ps[1..], gs[1..]) && Link(s, max, ps, gs, 0)
  {
    hide Peel, AddNvPair, StartsAt;
    forall i | 0 <= i < |ps[1..]| - 1
      ensures Link(s, max, ps[1..], gs[1..], i)
    {
      assert Link(s, max, ps, gs, i + 1);
    }
  }

  /** The decoder's loop reads a chain of netstrings. */
  lemma {:induction false} LoopReads(fs: seq<Field>, s: bytes, p: nat, max: nat)
    returns (ps: seq<nat>, gs: seq<seq<Field>>)
    requires max <= |s| && NetLoop(fs, s, p, max).Some?
    ensures Reads(fs, s, p, max, ps, gs, NetLoop(fs, s, p, max).value)
    decreases if p < max then max - p else 0
  {
    hide AddNvPair, StartsAt;
    if p >= max || StartsAt(s, p, NET_END) {
      return [p], [fs];
    }
    var d := Peel(s, p, max).value;
    hide Peel;
    var next := AddNvPair(fs, s, d.data, d.len).value;
    ps, gs := LoopReads(next, s, d.next, max);
    ChainMore(s, p, max, fs, ps, gs);
    ps, gs := [p] + ps, [fs] + gs;
  }

  /** And every chain is read. */
  lemma {:induction false} ChainRead(
      fs: seq<Field>, s: bytes, p: nat, max: nat, ps: seq<nat>, gs: seq<seq<Field>>, r: (seq<Field>, nat))
    requires max <= |s| && Reads(fs, s, p, max, ps, gs, r)
    ensures NetLoop(fs, s, p, max) == Some(r)
    decreases |ps|
  {
    hide AddNvPair, StartsAt, Peel;
    if |ps| > 1 {
      ChainLess(s, max, ps, gs);
      ChainRead(gs[1], s, ps[1], max, ps[1..], gs[1..], r);
    }
  }

  /** A start line and a chain of netstrings: the fields of m, and n octets with the end line. */
  ghost predicate IsMessage(s: bytes, p: nat, max: nat, m: Msg, n: nat, ps: seq<nat>, gs: seq<seq<Field>>)
    requires max <= |s|
  {
    && StartsAt(s, p, NET_START) && Chain(s, max, ps, gs) && ps[0] == p + |NET_START| && gs[0] == []
    && m == Msg(gs[|gs| - 1]) && p + n == ps[|ps| - 1] + |NET_END|
  }

  /** For any octets: what is decoded as a message is one, and every message is decoded. */
  lemma DecodedExactly(s: bytes, p: nat, max: nat, m: Msg, n: nat)
    requires p <= max <= |s|
    ensures NetToMsg(s, p, max) == Some((m, n)) <==> exists ps, gs :: IsMessage(s, p, max, m, n, ps, gs)
  {
    hide NetLoop, Link, StartsAt;
    var at := p + |NET_START|;
    if NetToMsg(s, p, max) == Some((m, n)) {
      var ps, gs := LoopReads([], s, at, max);
      assert IsMessage(s, p, max, m, n, ps, gs);
    }
    if ps, gs :| IsMessage(s, p, max, m, n, ps, gs) {
      ChainRead([], s, at, max, ps, gs, (gs[|gs| - 1], ps[|ps| - 1]));
    }
  }

  // What can be encoded -----------------------------------------------------------------------------------

  /** All the lists in a value, at any depth. */
  ghost function ListsIn(v: Value): set<seq<bytes>>
    decreases v, 0
  {
    match v
    case List(l) => {l}
    case Struct(m) => ListsOf(m.fields)
    case Uncompress(m) => ListsOf(m.fields)
    case Str(_) => {}
    case Bin(_) => {}
    case Compress(_) => {}
  }

  ghost function ListsOf(fs: seq<Field>): set<seq<bytes>>
    decreases fs, 0
  {
    if fs == [] then {} else ListsIn(fs[0].value) + ListsOf(fs[1..])
  }

  ghost predicate AllShort(ls: set<seq<bytes>>) {
    forall l | l in ls :: |Pack(l)| < 1024
  }

  lemma {:induction false} ValueFitsExactly(v: Value)
    ensures ValueFits(v) <==> AllShort(ListsIn(v))
    decreases v, 0
  {
    hide Pack;
    match v
    case List(l) => PackIs(l);
    case Struct(m) => FieldsFitExactly(m.fields);
    case Uncompress(m) => FieldsFitExactly(m.fields);
    case _ =>
  }

  lemma PackIs(l: seq<bytes>)
    ensures |Pack(l)| == PackLength(l)
  {
  }

  lemma {:induction false} FieldsFitExactly(fs: seq<Field>)
    ensures (forall i | 0 <= i < |fs| :: ValueFits(fs[i].value)) <==> AllShort(ListsOf(fs))
    decreases fs, 0
  {
    hide Pack, ValueFits;
    if fs != [] {
      ValueFitsExactly(fs[0].value);
      FieldsFitExactly(fs[1..]);
      assert forall i | 0 <= i < |fs| - 1 :: fs[1..][i] == fs[i + 1];
    }
  }

  /** A message can be encoded if and only if no list in it, at any depth, packs into 1024 octets or more. */
  lemma EncodableExactly(m: Msg)
    ensures Encodable(m) <==> AllShort(ListsOf(m.fields))
  {
    FieldsFitExactly(m.fields);
  }

  // Lines of text -----------------------------------------------------------------------------------------

  /** name=text, up to a newline or NUL */
  ghost predicate IsLine(s: bytes, p: nat, name: bytes, text: bytes) {
    && name != [] && EQUAL !in name && NUL !in name && NL !in text && NUL !in text
    && StartsAt(s, p, name + [EQUAL] + text)
    && var q := p + |name| + 1 + |text|; q < |s| && (s[q] == NL || s[q] == NUL)
  }

  /** There is a line at s + p, and the field it stands for is added. */
  ghost predicate AddsLine(fs: seq<Field>, s: bytes, p: nat, depth: nat, name: bytes, text: bytes, r: seq<Field>) {
    && name != [] && IsLine(s, p, name, text) && !StartsAt(name, 0, MSG_START)
    && AddStringField(fs, name, text, depth) == Some(r)
  }

  lemma LineParts(s: bytes, p: nat, name: bytes, text: bytes)
    requires IsLine(s, p, name, text)
    ensures var n, v := |name|, p + |name| + 1;
      && v + |text| < |s| && Cspn(s, p, EQUAL) == n && s[p..p + n] == name && s[p + n] == EQUAL
      && Cspn(s, v, NL) == |text| && s[v..v + |text|] == text
  {
    var n := |name|;
    assert name + [EQUAL] + text == name + ([EQUAL] + text);
    StartsAtSplit(s, p, name, [EQUAL] + text);
    StartsAtSplit(s, p + n, [EQUAL], text);
    StartsAtOne(s, p + n, EQUAL);
    hide Cspn, StartsAt;
    SpanIs(s, p, name, EQUAL);
    SpanIs(s, p + n + 1, text, NL);
  }

  /** The line that the parser sees. */
  lemma LineSeen(s: bytes, p: nat, n: nat, k: nat)
    requires n == Cspn(s, p, EQUAL) > 0 && At(s, p + n) == EQUAL && k == Cspn(s, p + n + 1, NL) && p + n + 1 + k < |s|
    ensures IsLine(s, p, s[p..p + n], s[p + n + 1..p + n + 1 + k])
  {
    hide Cspn;
    var v := p + n + 1;
    assert s[p..v + k] == s[p..p + n] + [EQUAL] + s[v..v + k];
    assert forall i | p <= i < p + n :: s[i] == At(s, i);
    assert forall i | v <= i < v + k :: s[i] == At(s, i);
  }

  lemma LineTaken(fs: seq<Field>, s: bytes, p: nat, depth: nat, name: bytes, text: bytes)
    requires IsLine(s, p, name, text) && name != [] && !StartsAt(name, 0, MSG_START)
    ensures AddNv(fs, s, p, depth) == AddStringField(fs, name, text, depth)
  {
    hide AddStringField, AddNv, Cspn, IsLine, StartsAt;
    LineParts(s, p, name, text);
    NvIs(fs, s, p, depth, |name|, |text|);
  }

  lemma NvIs(fs: seq<Field>, s: bytes, p: nat, depth: nat, n: nat, k: nat)
    requires n == Cspn(s, p, EQUAL) > 0 && At(s, p + n) == EQUAL && k == Cspn(s, p + n + 1, NL) && p + n + 1 + k < |s|
    requires !StartsAt(s[p..p + n], 0, MSG_START)
    ensures AddNv(fs, s, p, depth) == AddStringField(fs, s[p..p + n], s[p + n + 1..p + n + 1 + k], depth)
  {
    hide AddStringField, Cspn, StartsAt;
  }

  /** A line is taken exactly if it is one and its field can be added. */
  lemma LineExact(fs: seq<Field>, s: bytes, p: nat, depth: nat, r: seq<Field>)
    ensures AddNv(fs, s, p, depth) == Some(r) <==> exists name, text :: AddsLine(fs, s, p, depth, name, text, r)
  {
    hide AddStringField, Cspn, IsLine, StartsAt;
    if AddNv(fs, s, p, depth) == Some(r) {
      var n := Cspn(s, p, EQUAL);
      var v := p + n + 1;
      var k := Cspn(s, v, NL);
      LineSeen(s, p, n, k);
      assert AddsLine(fs, s, p, depth, s[p..p + n], s[v..v + k], r);
    }
    if name, text :| AddsLine(fs, s, p, depth, name, text, r) {
      LineTaken(fs, s, p, depth, name, text);
    }
  }

  lemma StringText(text: bytes, depth: nat)
    ensures TextToValue(0, text, depth) == Some(Str(SymToNl(text, SPECIAL_SYM)))
  {
    hide SymToNl;
  }

  /** The type that a name carries, and the field's own name. */
  ghost predicate Typed(name: bytes, t: nat, rest: bytes) {
    1 <= t <= 9 && name == [LPAREN, 48 + t, RPAREN] + rest
  }

  /** A name with '(' in front is that of a field of the type it carries, and any other that of a string. */
  lemma TypedExact(fs: seq<Field>, name: bytes, text: bytes, depth: nat, r: seq<Field>)
    requires name != []
    ensures name[0] != LPAREN ==>
      AddStringField(fs, name, text, depth) == Some(fs + [Field(name, Str(SymToNl(text, SPECIAL_SYM)))])
    ensures name[0] == LPAREN ==>
      (AddStringField(fs, name, text, depth) == Some(r) <==>
       exists t, rest :: Typed(name, t, rest) &&
         var v := TextToValue(t, text, depth); v.Some? && r == fs + [Field(rest, v.value)])
  {
    StringText(text, depth);
    hide SymToNl, TextToValue;
    if name[0] == LPAREN && |name| >= 3 && IsDigit(name[1]) {
      assert Typed(name, Digit(name[1]), name[3..]) || name[1] == 48 || name[2] != RPAREN;
    }
  }

  /** Where the line at or behind p starts. */
  function Start(s: bytes, p: nat): nat {
    p + Spn(s, p, NL)
  }

  ghost predicate AtEnd(s: bytes, p: nat) {
    At(s, p) == NUL || StartsAt(s, p, MSG_END) || (Start(s, p) < |s| && StartsAt(s, Start(s, p), MSG_END))
  }

  /** The i-th turn of the line loop: from ps[i] on, with the fields gs[i] read so far. */
  ghost predicate LineLink(s: bytes, depth: nat, ps: seq<nat>, gs: seq<seq<Field>>, i: nat)
    requires i + 1 < |ps| == |gs|
  {
    var q := Start(s, ps[i]);
    && !AtEnd(s, ps[i]) && q < |s|
    && AddNv(gs[i], s, q, depth) == Some(gs[i + 1]) && ps[i + 1] == q + Cspn(s, q, NL)
  }

  /** Lines, each a field, up to the end line or a NUL; the next turn starts at a line's first newline. */
  ghost predicate Lines(s: bytes, depth: nat, ps: seq<nat>, gs: seq<seq<Field>>) {
    && 0 < |ps| == |gs| && (forall i | 0 <= i < |ps| - 1 :: LineLink(s, depth, ps, gs, i))
    && AtEnd(s, ps[|ps| - 1])
  }

  lemma LinesMore(s: bytes, p: nat, depth: nat, fs: seq<Field>, ps: seq<nat>, gs: seq<seq<Field>>)
    requires Lines(s, depth, ps, gs) && LineLink(s, depth, [p] + ps, [fs] + gs, 0)
    ensures Lines(s, depth, [p] + ps, [fs] + gs)
  {
    hide AddNv, AtEnd, Start, Cspn;
    forall i | 0 <= i < |[p] + ps| - 1
      ensures LineLink(s, depth, [p] + ps, [fs] + gs, i)
    {
      assert i > 0 ==> LineLink(s, depth, ps, gs, i - 1);
    }
  }

  lemma LinesLess(s: bytes, depth: nat, ps: seq<nat>, gs: seq<seq<Field>>)
    requires Lines(s, depth, ps, gs) && |ps| > 1
    ensures Lines(s, depth, ps[1..], gs[1..]) && LineLink(s, depth, ps, gs, 0)
  {
    hide AddNv, AtEnd, Start, Cspn;
    forall i | 0 <= i < |ps[1..]| - 1
      ensures LineLink(s, depth, ps[1..], gs[1..], i)
    {
      assert LineLink(s, depth, ps, gs, i + 1);
    }
  }

  /** One turn of the loop. */
  lemma TextTurn(fs: seq<Field>, s: bytes, p: nat, depth: nat)
    ensures TextLoop(fs, s, p, depth) ==
      var q := Start(s, p);
      if AtEnd(s, p) then Some(fs)
      else if q >= |s| then None
      else
        var next := AddNv(fs, s, q, depth);
        if next.None? then None else TextLoop(next.value, s, q + Cspn(s, q, NL), depth)
  {
    hide StartsAt, AddNv, Cspn, Spn;
  }

  lemma TextAdvances(fs: seq<Field>, s: bytes, p: nat, depth: nat)
    requires Start(s, p) < |s| && AddNv(fs, s, Start(s, p), depth).Some?
    ensures p < Start(s, p) + Cspn(s, Start(s, p), NL) <= |s|
  {
    hide StartsAt, Cspn, Spn, AddStringField;
  }

  lemma TextStep(fs: seq<Field>, s: bytes, p: nat, depth: nat, next: seq<Field>)
    requires !AtEnd(s, p) && Start(s, p) < |s| && AddNv(fs, s, Start(s, p), depth) == Some(next)
    ensures TextLoop(fs, s, p, depth) == TextLoop(next, s, Start(s, p) + Cspn(s, Start(s, p), NL), depth)
  {
    TextTurn(fs, s, p, depth);
    hide AddNv, AtEnd, Start, Cspn, TextLoop;
  }

  lemma {:induction false} TextReads(fs: seq<Field>, s: bytes, p: nat, depth: nat)
    returns (ps: seq<nat>, gs: seq<seq<Field>>)
    requires TextLoop(fs, s, p, depth).Some?
    ensures Lines(s, depth, ps, gs) && ps[0] == p && gs[0] == fs && TextLoop(fs, s, p, depth) == Some(gs[|gs| - 1])
    decreases if p < |s| then |s| - p else 0
  {
    TextTurn(fs, s, p, depth);
    hide AddNv, AtEnd, Start, Cspn, TextLoop;
    if AtEnd(s, p) {
      return [p], [fs];
    }
    TextAdvances(fs, s, p, depth);
    var q := Start(s, p);
    var next, p' := AddNv(fs, s, q, depth).value, q + Cspn(s, q, NL);
    ps, gs := TextReads(next, s, p', depth);
    LinesMore(s, p, depth, fs, ps, gs);
    ps, gs := [p] + ps, [fs] + gs;
  }

  lemma LinkTurns(s: bytes, depth: nat, ps: seq<nat>, gs: seq<seq<Field>>)
    requires |ps| == |gs| > 1 && LineLink(s, depth, ps, gs, 0)
    ensures TextLoop(gs[0], s, ps[0], depth) == TextLoop(gs[1], s, ps[1], depth)
  {
    hide AddNv, AtEnd, Start, Cspn, TextLoop;
    TextStep(gs[0], s, ps[0], depth, gs[1]);
  }

  lemma {:induction false} LinesRead(s: bytes, depth: nat, ps: seq<nat>, gs: seq<seq<Field>>)
    requires Lines(s, depth, ps, gs)
    ensures TextLoop(gs[0], s, ps[0], depth) == Some(gs[|gs| - 1])
    decreases |ps|
  {
    hide LineLink, AtEnd, TextLoop;
    if |ps| > 1 {
      LinesLess(s, depth, ps, gs);
      LinkTurns(s, depth, ps, gs);
      LinesRead(s, depth, ps[1..], gs[1..]);
    } else {
      TextTurn(gs[0], s, ps[0], depth);
    }
  }

  ghost predicate IsText(s: bytes, depth: nat, m: Msg, ps: seq<nat>, gs: seq<seq<Field>>) {
    && StartsAt(s, 0, MSG_START) && Lines(s, depth, ps, gs) && ps[0] == |MSG_START| && gs[0] == []
    && m == Msg(gs[|gs| - 1])
  }

  /** For any octets: what is parsed as a message is a start line and lines, and all such are parsed. */
  lemma ParsedExactly(s: bytes, depth: nat, m: Msg)
    ensures TextToMsg(s, depth) == Some(m) <==> exists ps, gs :: IsText(s, depth, m, ps, gs)
  {
    hide TextLoop, LineLink, AtEnd, StartsAt;
    if TextToMsg(s, depth) == Some(m) {
      var ps, gs := TextReads([], s, |MSG_START|, depth);
      assert IsText(s, depth, m, ps, gs);
    }
    if ps, gs :| IsText(s, depth, m, ps, gs) {
      LinesRead(s, depth, ps, gs);
    }
  }
}
