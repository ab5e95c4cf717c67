/** Predicted lengths are exact, and decoding an encoded message gives it back exactly when the message is good. */
module NetstringProof {
  import opened Bytes
  import opened CText
  import opened MsgText
  import opened Netstring

  // Exact lengths -----------------------------------------------------------------------------------------

  lemma {:induction false} ValueLength(namelen: nat, v: Value)
    ensures NetValueLen(namelen, v) == 3 + namelen + 1 + |ValueToNet(v)|
    decreases v, 0
  {
    match v
    case Struct(m) => MsgLength(m);
    case Uncompress(m) => MsgLength(m);
    case _ =>
  }

  lemma PayloadLength(f: Field)
    ensures NetValueLen(|f.name|, f.value) == |Payload(f)|
    ensures NetstringExtra(NetValueLen(|f.name|, f.value)) == |FieldToNet(f)|
    decreases f, 1
  {
    hide Dec;
    ValueLength(|f.name|, f.value);
  }

  lemma {:induction false} FieldsLength(fs: seq<Field>)
    ensures NetFieldsLen(fs) == |FieldsToNet(fs)|
    decreases fs, 0
  {
    hide FieldToNet, NetstringExtra, NetValueLen;
    if fs != [] {
      PayloadLength(fs[0]);
      FieldsLength(fs[1..]);
    }
  }

  /** get_netstringlen is the number of octets msg2netstring_buf writes, at every nesting depth. */
  lemma {:induction false} MsgLength(m: Msg)
    ensures NetLen(m) == |MsgToNet(m)|
    decreases m, 1
  {
    FieldsLength(m.fields);
  }

  // Good messages -----------------------------------------------------------------------------------------

  /** What the C representation can hold: names, string values and list elements end at their first NUL. */
  ghost predicate CStringsIn(v: Value)
    decreases v, 0
  {
    match v
    case Str(s) => NUL !in s
    case List(l) => forall i | 0 <= i < |l| :: NUL !in l[i]
    case Struct(m) => CStrings(m)
    case Uncompress(m) => CStrings(m)
    case _ => true
  }

  ghost predicate CStrings(m: Msg)
    decreases m, 1
  {
    forall i | 0 <= i < |m.fields| :: NUL !in m.fields[i].name && CStringsIn(m.fields[i].value)
  }

  ghost predicate GoodName(n: bytes) {
    n != [] && EQUAL !in n && !StartsAt(n, 0, MSG_START)
  }

  ghost predicate GoodValue(v: Value)
    decreases v, 0
  {
    match v
    case Str(s) => SPECIAL_SYM !in s
    case List(l) => l != [] && forall i | 0 <= i < |l| :: l[i] != []
    case Struct(m) => Good(m)
    case Uncompress(m) => Good(m)
    case _ => true
  }

  /** A field that arrives unchanged after the fields `prior`. */
  ghost predicate GoodField(prior: seq<Field>, f: Field)
    decreases f, 1
  {
    && GoodName(f.name)
    && (f.value.Str? ==> f.name[0] != LPAREN)
    && (f.value.List? ==> forall i | 0 <= i < |prior| :: prior[i].name != f.name)
    && GoodValue(f.value)
  }

  ghost predicate Good(m: Msg)
    decreases m, 2
  {
    forall i | 0 <= i < |m.fields| :: GoodField(m.fields[..i], m.fields[i])
  }

  // Decoding an encoded field -----------------------------------------------------------------------------

  lemma FieldStarts(s: bytes, p: nat, f: Field)
    requires StartsAt(s, p, FieldToNet(f))
    ensures StartsAt(s, p, Dec(|Payload(f)|) + [COLON])
    ensures StartsAt(s, p + |Dec(|Payload(f)|)| + 1, Payload(f))
    ensures p + |FieldToNet(f)| <= |s|
    ensures s[p + |Dec(|Payload(f)|)| + 1 + |Payload(f)|] == COMMA
    ensures p + |Dec(|Payload(f)|)| + 1 + |Payload(f)| + 1 == p + |FieldToNet(f)|
  {
    hide Dec, Payload;
    var d, y := Dec(|Payload(f)|), Payload(f);
    assert FieldToNet(f) == (d + [COLON]) + (y + [COMMA]);
    StartsAtSplit(s, p, d + [COLON], y + [COMMA]);
    StartsAtSplit(s, p + |d| + 1, y, [COMMA]);
    StartsAtOne(s, p + |d| + 1 + |y|, COMMA);
  }

  lemma FindColonAt(s: bytes, p: nat, max: nat)
    requires At(s, p) == COLON
    ensures FindColon(s, p, max) == p
  {
  }

  lemma FieldPeeled(s: bytes, p: nat, max: nat, f: Field)
    requires StartsAt(s, p, FieldToNet(f)) && p + |FieldToNet(f)| <= max <= |s|
    ensures !StartsAt(s, p, NET_END) && p < max
    ensures Peel(s, p, max) ==
            Some(Peeled(p + |Dec(|Payload(f)|)| + 1, |Payload(f)|, p + |FieldToNet(f)|))
  {
    hide Dec, Payload, FieldToNet, FindColon, ParseInt;
    FieldStarts(s, p, f);
    var n := |Payload(f)|;
    var d := Dec(n);
    StartsAtSplit(s, p, d, [COLON]);
    StartsAtOne(s, p + |d|, COLON);
    ParseDigits(s, p, max, 0, d);
    ValueDec(n);
    FindColonAt(s, p + |d|, max);
    assert s[p] == s[p..p + |d|][0];
    Mismatch(s, p, NET_END, 0);
  }

  lemma PayloadParts(f: Field)
    ensures Payload(f) == Tag(f.value) + (f.name + ([EQUAL] + ValueToNet(f.value)))
  {
    hide ValueToNet, TypeOf;
  }

  /** The tag is found where it was written, and the name as far as its first '='. */
  lemma PayloadFound(s: bytes, nv: nat, f: Field)
    requires NUL !in f.name && StartsAt(s, nv, Payload(f))
    ensures At(s, nv) == LPAREN && At(s, nv + 1) == 48 + TypeOf(f.value) && At(s, nv + 2) == RPAREN
    ensures nv + 3 + |f.name| < |s| && s[nv + 3..nv + 3 + |f.name|] == f.name && s[nv + 3 + |f.name|] == EQUAL
    ensures |Payload(f)| == |f.name| + 4 + |ValueToNet(f.value)|
    ensures StartsAt(s, nv + 4 + |f.name|, ValueToNet(f.value))
  {
    hide ValueToNet, TypeOf;
    var tag, n, v := Tag(f.value), f.name, ValueToNet(f.value);
    PayloadParts(f);
    hide Payload;
    StartsAtSplit(s, nv, tag, n + ([EQUAL] + v));
    StartsAtSplit(s, nv + 3, n, [EQUAL] + v);
    StartsAtSplit(s, nv + 3 + |n|, [EQUAL], v);
    StartsAtOne(s, nv + 3 + |n|, EQUAL);
    Pointwise(s, nv, tag);
  }

  lemma NameFound(s: bytes, p: nat, n: bytes)
    requires NUL !in n && StartsAt(s, p, n) && At(s, p + |n|) == EQUAL
    ensures EQUAL !in n ==> Cspn(s, p, EQUAL) == |n|
    ensures EQUAL in n ==> Cspn(s, p, EQUAL) < |n|
  {
    hide Cspn;
    Pointwise(s, p, n);
    assert forall i | 0 <= i < |n| :: n[i] in n;
    if EQUAL !in n {
      CspnIs(s, p, EQUAL, |n|);
    } else {
      var k :| 0 <= k < |n| && n[k] == EQUAL;
      assert At(s, p + k) == EQUAL;
    }
  }

  // Adding a field ----------------------------------------------------------------------------------------

  /** Adding appends one field whose name is at most as long, or changes the number of fields not at all. */
  ghost predicate AddsAtMost(fs: seq<Field>, r: Option<seq<Field>>, n: nat) {
    r.Some? ==>
      || |r.value| == |fs|
      || (|r.value| == |fs| + 1 && r.value[..|fs|] == fs && |r.value[|fs|].name| <= n)
  }

  lemma AddRawShape(fs: seq<Field>, name: bytes, v: Value, depth: nat)
    ensures AddsAtMost(fs, AddRaw(fs, name, v, depth), |name|)
  {
    hide TextToValue, IndexOf;
  }

  lemma AddNvPairShape(fs: seq<Field>, s: bytes, nv: nat, len: nat)
    requires nv + len < |s|
    ensures AddsAtMost(fs, AddNvPair(fs, s, nv, len), Cspn(s, nv + 3, EQUAL))
  {
    hide NetToValue, AddRaw, Cspn, AddsAtMost;
    var r := AddNvPair(fs, s, nv, len);
    assert AddsAtMost(fs, None, Cspn(s, nv + 3, EQUAL)) by { NothingAdded(fs, Cspn(s, nv + 3, EQUAL)); }
    if r.Some? {
      var n := Cspn(s, nv + 3, EQUAL);
      var v := NetToValue(Digit(At(s, nv + 1)), s, nv + 4 + n, nv + len).value;
      AddRawShape(fs, s[nv + 3..nv + 3 + n], v, 0);
    }
  }

  lemma NothingAdded(fs: seq<Field>, n: nat)
    ensures AddsAtMost(fs, None, n)
  {
  }

  lemma {:induction false} SymToNlSame(s: bytes)
    requires NUL !in s
    ensures SymToNl(s, SPECIAL_SYM) == s <==> SPECIAL_SYM !in s
    decreases |s|
  {
    if s != [] {
      SymToNlSame(s[1..]);
      var t := SymToNl(s, SPECIAL_SYM);
      assert s == [s[0]] + s[1..];
      assert t[1..] == SymToNl(s[1..], SPECIAL_SYM);
    }
  }

  lemma {:induction false} IndexOfAbsent(fs: seq<Field>, name: bytes)
    ensures IndexOf(fs, name) == |fs| <==> forall i | 0 <= i < |fs| :: fs[i].name != name
  {
  }

  lemma SameLast(fs: seq<Field>, g: Field, f: Field)
    ensures fs + [g] == fs + [f] <==> g == f
  {
    assert (fs + [g])[|fs|] == g && (fs + [f])[|fs|] == f;
  }

  lemma AddStrExact(fs: seq<Field>, f: Field)
    requires f.value.Str? && f.name != [] && NUL !in f.value.s
    ensures AddStringField(fs, f.name, f.value.s, 0) == Some(fs + [f]) <==>
            f.name[0] != LPAREN && SPECIAL_SYM !in f.value.s
  {
    hide SymToNl, TextToMsg;
    SymToNlSame(f.value.s);
    var r := AddStringField(fs, f.name, f.value.s, 0);
    if r.Some? {
      SameLast(fs, r.value[|fs|], f);
    }
  }

  lemma AddListExact(fs: seq<Field>, f: Field)
    requires f.value.List?
    ensures AddListField(fs, f.name, f.value.l) == Some(fs + [f]) <==>
            forall i | 0 <= i < |fs| :: fs[i].name != f.name
  {
    hide IndexOf;
    IndexOfAbsent(fs, f.name);
    var r := AddListField(fs, f.name, f.value.l);
    if r.Some? && IndexOf(fs, f.name) < |fs| {
      assert |r.value| != |fs + [f]|;
    }
  }

  /** ha_msg_addraw adds exactly (name, v) if and only if the field is good where it stands. */
  lemma AddRawExact(fs: seq<Field>, f: Field)
    requires EQUAL !in f.name && (f.value.Str? ==> NUL !in f.value.s)
    requires !f.value.Str? ==> GoodValue(f.value)
    ensures AddRaw(fs, f.name, f.value, 0) == Some(fs + [f]) <==> GoodField(fs, f)
  {
    hide AddStringField, AddListField, StartsAt, Good;
    if f.value.Str? && f.name != [] {
      AddStrExact(fs, f);
    } else if f.value.List? {
      AddListExact(fs, f);
    }
  }

  // Exactness ---------------------------------------------------------------------------------------------

  /** A list with an empty element does not unpack. */
  lemma {:induction false} UnpackEmptyElement(s: bytes, p: nat, max: nat, l: seq<bytes>, acc: seq<bytes>, k: nat)
    requires (forall i | 0 <= i < |l| :: NUL !in l[i]) && StartsAt(s, p, Pack(l)) && max == p + |Pack(l)|
    requires k < |l| && l[k] == [] && forall i | 0 <= i < k :: l[i] != []
    ensures Unpack(s, p, max, acc).None?
    decreases k
  {
    hide Pack, PackOne, Unpack, StartsAt;
    PackCases(l);
    if k == 0 {
      UnpackZero(s, p, max, l, acc);
    } else {
      var one := |PackOne(l[0])|;
      StartsAtSplit(s, p, PackOne(l[0]), Pack(l[1..]));
      UnpackEmptyElement(s, p + one, max, l[1..], acc + [l[0]], k - 1);
      UnpackOne(s, p, max, l, acc);
    }
  }

  lemma UnpackZero(s: bytes, p: nat, max: nat, l: seq<bytes>, acc: seq<bytes>)
    requires l != [] && l[0] == [] && StartsAt(s, p, Pack(l)) && p < max
    ensures Unpack(s, p, max, acc).None?
  {
    hide Pack, PackOne, ScanInt, Cspn, StartsAt, Dec;
    PackStart(s, p, l);
    ScanDec(s, p, 0);
  }

  lemma PackSingle(e: bytes)
    ensures Pack([e]) == PackOne(e)
  {
    hide PackOne;
    assert Pack([e]) == PackOne(e) + Pack([]);
  }

  lemma UnpackOne(s: bytes, p: nat, max: nat, l: seq<bytes>, acc: seq<bytes>)
    requires l != [] && l[0] != [] && NUL !in l[0] && StartsAt(s, p, Pack(l)) && p < max
    ensures Unpack(s, p, max, acc) == Unpack(s, p + |PackOne(l[0])|, max, acc + [l[0]])
  {
    hide Pack, Unpack, PackOne, StartsAt;
    PackCases(l);
    PackSingle(l[0]);
    StartsAtSplit(s, p, PackOne(l[0]), Pack(l[1..]));
    UnpackFirst(s, p, max, [l[0]], acc);
  }

  lemma ListExact(s: bytes, p: nat, l: seq<bytes>)
    requires (forall i | 0 <= i < |l| :: NUL !in l[i]) && StartsAt(s, p, Pack(l))
    ensures var r := Unpack(s, p, p + |Pack(l)|, []);
      (r.Some? && r.value != [] && r.value == l) <==> GoodValue(List(l))
  {
    hide Pack, Unpack;
    if forall i | 0 <= i < |l| :: l[i] != [] {
      UnpackPack(s, p, l, []);
      assert [] + l == l;
    } else {
      var k := FirstEmpty(l);
      UnpackEmptyElement(s, p, p + |Pack(l)|, l, [], k);
    }
  }

  lemma {:induction false} FirstEmpty(l: seq<bytes>) returns (k: nat)
    requires exists i :: 0 <= i < |l| && l[i] == []
    ensures k < |l| && l[k] == [] && forall i | 0 <= i < k :: l[i] != []
  {
    k := 0;
    while l[k] != []
      invariant k < |l| && forall i | 0 <= i < k :: l[i] != []
      invariant exists i :: k <= i < |l| && l[i] == []
      decreases |l| - k
    {
      k := k + 1;
    }
  }

  lemma {:induction false} ValueExact(s: bytes, p: nat, v: Value)
    requires CStringsIn(v) && StartsAt(s, p, ValueToNet(v))
    ensures NetToValue(TypeOf(v), s, p, p + |ValueToNet(v)|) == Some(v) <==> v.Str? || GoodValue(v)
    decreases v, 0
  {
    hide Good, NetToMsg, Unpack, Pack, MsgToNet;
    match v
    case Str(_) =>
    case Bin(_) =>
    case Compress(_) =>
    case List(l) => ListExact(s, p, l);
    case Struct(m) => MsgExact(s, p, p + |MsgToNet(m)|, m);
    case Uncompress(m) => MsgExact(s, p, p + |MsgToNet(m)|, m);
  }

  /** One encoded field arrives unchanged after `fs` if and only if it is good there. */
  lemma {:induction false} FieldExact(fs: seq<Field>, s: bytes, nv: nat, f: Field)
    requires NUL !in f.name && CStringsIn(f.value)
    requires StartsAt(s, nv, Payload(f)) && nv + |Payload(f)| < |s|
    ensures AddNvPair(fs, s, nv, |Payload(f)|) == Some(fs + [f]) <==> GoodField(fs, f)
    decreases f, 1
  {
    hide Good, NetToValue, Cspn, Payload, ValueToNet, AddRaw, GoodField, StartsAt, CStringsIn;
    PayloadFound(s, nv, f);
    NameIn(s, nv + 3, f.name);
    if EQUAL in f.name {
      AddNvPairShape(fs, s, nv, |Payload(f)|);
      NotGoodName(fs, f);
      TooShort(fs, AddNvPair(fs, s, nv, |Payload(f)|), Cspn(s, nv + 3, EQUAL), f);
    } else {
      ValueExact(s, nv + 4 + |f.name|, f.value);
      PairIs(fs, s, nv, f);
      var v := NetToValue(TypeOf(f.value), s, nv + 4 + |f.name|, nv + |Payload(f)|);
      if v == Some(f.value) {
        CStringsInStr(f.value);
        AddRawExact(fs, f);
        EmptyName(fs, f);
      } else {
        BadValue(fs, f, v);
      }
    }
  }

  lemma NameIn(s: bytes, p: nat, n: bytes)
    requires p + |n| < |s| && s[p..p + |n|] == n && s[p + |n|] == EQUAL && NUL !in n
    ensures EQUAL !in n ==> Cspn(s, p, EQUAL) == |n|
    ensures EQUAL in n ==> Cspn(s, p, EQUAL) < |n|
  {
    hide Cspn;
    NameFound(s, p, n);
  }

  lemma NotGoodName(fs: seq<Field>, f: Field)
    requires EQUAL in f.name
    ensures !GoodField(fs, f)
  {
  }

  lemma TooShort(fs: seq<Field>, r: Option<seq<Field>>, n: nat, f: Field)
    requires AddsAtMost(fs, r, n) && n < |f.name|
    ensures r != Some(fs + [f])
  {
    assert (fs + [f])[|fs|] == f;
  }

  lemma CStringsInStr(v: Value)
    requires CStringsIn(v)
    ensures v.Str? ==> NUL !in v.s
  {
  }

  /** What process_netstring_nvpair does with an encoded field whose name has no '='. */
  lemma PairIs(fs: seq<Field>, s: bytes, nv: nat, f: Field)
    requires NUL !in f.name && EQUAL !in f.name
    requires StartsAt(s, nv, Payload(f)) && nv + |Payload(f)| < |s|
    ensures |Payload(f)| >= |f.name| + 4
    ensures AddNvPair(fs, s, nv, |Payload(f)|) ==
      var v := NetToValue(TypeOf(f.value), s, nv + 4 + |f.name|, nv + |Payload(f)|);
      if v.None? || f.name == [] then None else AddRaw(fs, f.name, v.value, 0)
  {
    hide NetToValue, Cspn, Payload, ValueToNet, AddRaw, TypeOf, StartsAt;
    PayloadFound(s, nv, f);
    NameIn(s, nv + 3, f.name);
  }

  lemma EmptyName(fs: seq<Field>, f: Field)
    ensures f.name == [] ==> !GoodField(fs, f)
  {
  }

  lemma BadValue(fs: seq<Field>, f: Field, v: Option<Value>)
    requires v != Some(f.value) && (v == Some(f.value) <==> f.value.Str? || GoodValue(f.value))
    requires v.Some? ==> TypeOf(v.value) == TypeOf(f.value)
    ensures !GoodField(fs, f)
    ensures v.Some? ==> AddRaw(fs, f.name, v.value, 0) != Some(fs + [f])
  {
    if v.Some? {
      var r := AddRaw(fs, f.name, v.value, 0);
      if r.Some? && |r.value| == |fs| + 1 {
        assert r.value[|fs|].value == v.value;
        assert (fs + [f])[|fs|] == f;
      }
    }
  }

  ghost predicate GoodAll(acc: seq<Field>, fs: seq<Field>)
    decreases fs, 1
  {
    forall i | 0 <= i < |fs| :: GoodField(acc + fs[..i], fs[i])
  }

  lemma GoodAllCases(acc: seq<Field>, fs: seq<Field>)
    ensures fs == [] ==> GoodAll(acc, fs)
    ensures fs != [] ==> (GoodAll(acc, fs) <==> GoodField(acc, fs[0]) && GoodAll(acc + [fs[0]], fs[1..]))
  {
    hide GoodField;
    if fs != [] {
      assert acc + fs[..0] == acc;
      assert forall i | 0 <= i < |fs| - 1 ::
        acc + fs[..i + 1] == acc + [fs[0]] + fs[1..][..i] && fs[i + 1] == fs[1..][i];
      if GoodAll(acc + [fs[0]], fs[1..]) && GoodField(acc, fs[0]) {
        forall i | 0 <= i < |fs|
          ensures GoodField(acc + fs[..i], fs[i])
        {
          if i > 0 {
            assert GoodField(acc + [fs[0]] + fs[1..][..i - 1], fs[1..][i - 1]);
            assert acc + fs[..i] == acc + [fs[0]] + fs[1..][..i - 1];
          }
        }
      }
    }
  }

  /** What the loop can have made of n encoded fields: never more than n new ones, and then in front of them `acc`. */
  ghost predicate Bounded(acc: seq<Field>, r: Option<(seq<Field>, nat)>, n: nat, end: nat) {
    r.Some? ==>
      && r.value.1 == end
      && |r.value.0| <= |acc| + n
      && (|r.value.0| == |acc| + n ==> acc <= r.value.0)
  }

  lemma {:induction false} LoopExact(acc: seq<Field>, s: bytes, p: nat, max: nat, fs: seq<Field>)
    requires forall i | 0 <= i < |fs| :: NUL !in fs[i].name && CStringsIn(fs[i].value)
    requires StartsAt(s, p, FieldsToNet(fs) + NET_END) && p + |FieldsToNet(fs)| + |NET_END| <= max <= |s|
    ensures var r := NetLoop(acc, s, p, max);
      && Bounded(acc, r, |fs|, p + |FieldsToNet(fs)|)
      && (r.Some? && r.value.0 == acc + fs <==> GoodAll(acc, fs))
    decreases fs, 2
  {
    hide NetLoop, FieldsToNet, GoodAll, CStringsIn, FieldToNet, GoodField;
    hide AddNvPair, Payload, Dec, StartsAt, AddsAtMost, Cspn;
    GoodAllCases(acc, fs);
    FieldsCases(fs);
    if fs == [] {
      assert FieldsToNet(fs) + NET_END == NET_END;
      LoopStops(acc, s, p, max);
      assert acc + fs == acc;
    } else {
      var f, rest := fs[0], fs[1..];
      assert FieldsToNet(fs) + NET_END == FieldToNet(f) + (FieldsToNet(rest) + NET_END);
      StartsAtSplit(s, p, FieldToNet(f), FieldsToNet(rest) + NET_END);
      var next := p + |FieldToNet(f)|;
      var nv := p + |Dec(|Payload(f)|)| + 1;
      FieldStarts(s, p, f);
      LoopTurns(acc, s, p, max, f);
      FieldExact(acc, s, nv, f);
      AddNvPairShape(acc, s, nv, |Payload(f)|);
      var a := AddNvPair(acc, s, nv, |Payload(f)|);
      if a.Some? {
        LoopExact(a.value, s, next, max, rest);
        Extends(acc, a.value, NetLoop(a.value, s, next, max), f, rest, Cspn(s, nv + 3, EQUAL));
        assert acc + [f] + rest == acc + fs;
      }
    }
  }

  lemma FieldsCases(fs: seq<Field>)
    ensures fs == [] ==> FieldsToNet(fs) == []
    ensures fs != [] ==> FieldsToNet(fs) == FieldToNet(fs[0]) + FieldsToNet(fs[1..])
  {
    hide FieldToNet;
  }

  lemma LoopStops(acc: seq<Field>, s: bytes, p: nat, max: nat)
    requires StartsAt(s, p, NET_END) && max <= |s|
    ensures NetLoop(acc, s, p, max) == Some((acc, p))
  {
  }

  lemma LoopTurns(acc: seq<Field>, s: bytes, p: nat, max: nat, f: Field)
    requires StartsAt(s, p, FieldToNet(f)) && p + |FieldToNet(f)| <= max <= |s|
    ensures p + |Dec(|Payload(f)|)| + 1 + |Payload(f)| < |s|
    ensures NetLoop(acc, s, p, max) ==
      var a := AddNvPair(acc, s, p + |Dec(|Payload(f)|)| + 1, |Payload(f)|);
      if a.None? then None else NetLoop(a.value, s, p + |FieldToNet(f)|, max)
  {
    hide FieldToNet, Payload, Dec, AddNvPair, Peel, StartsAt;
    FieldPeeled(s, p, max, f);
    FieldStarts(s, p, f);
  }

  /** The result after the first field, in terms of the result of the rest. */
  lemma Extends(acc: seq<Field>, a: seq<Field>, r: Option<(seq<Field>, nat)>, f: Field, rest: seq<Field>,
                n: nat)
    requires AddsAtMost(acc, Some(a), n)
    requires r.Some? ==> |r.value.0| <= |a| + |rest| && (|r.value.0| == |a| + |rest| ==> a <= r.value.0)
    ensures r.Some? ==> |r.value.0| <= |acc| + |rest| + 1
    ensures r.Some? && |r.value.0| == |acc| + |rest| + 1 ==> acc <= r.value.0
    ensures r.Some? && r.value.0 == acc + [f] + rest ==> a == acc + [f]
  {
    if r.Some? && r.value.0 == acc + [f] + rest {
      assert a == r.value.0[..|a|];
      assert r.value.0[..|acc| + 1] == acc + [f];
    }
  }

  /**
   * Decoding an encoded message gives the same message back if and only if the message is good, at every nesting
   * depth and whatever follows it; and a message that comes back took exactly the octets that were encoded.
   */
  lemma {:induction false} MsgExact(s: bytes, p: nat, max: nat, m: Msg)
    requires CStrings(m) && StartsAt(s, p, MsgToNet(m)) && p + |MsgToNet(m)| <= max <= |s|
    ensures var r := NetToMsg(s, p, max);
      && (r.Some? && r.value.0 == m <==> Good(m))
      && (r.Some? ==> r.value.1 == |MsgToNet(m)|)
    decreases m, 3
  {
    hide NetLoop, FieldsToNet, GoodField, CStringsIn;
    var t := FieldsToNet(m.fields);
    assert MsgToNet(m) == NET_START + (t + NET_END);
    StartsAtSplit(s, p, NET_START, t + NET_END);
    LoopExact([], s, p + |NET_START|, max, m.fields);
    assert [] + m.fields == m.fields;
    assert forall i | 0 <= i < |m.fields| :: [] + m.fields[..i] == m.fields[..i];
    assert GoodAll([], m.fields) <==> Good(m);
  }

  // Authentication ----------------------------------------------------------------------------------------

  /** msg2netstring_ll with an authentication string appended. */
  function WithAuth(m: Msg, auth: bytes): bytes {
    MsgToNet(m) + Dec(|auth|) + [COLON] + auth + [COMMA]
  }

  /**
   * If the decoder gets a message out of an authenticated one, the octets it authenticates are those the encoder
   * did, and the authentication string it peels off next is the one appended.
   */
  lemma AuthSameBytes(m: Msg, auth: bytes)
    requires CStrings(m)
    ensures var s := WithAuth(m, auth);
      var r := NetToMsg(s, 0, |s|);
      r.Some? ==>
        && r.value.1 <= |s|
        && s[..r.value.1] == MsgToNet(m)
        && var a := Peel(s, r.value.1, |s|);
        && a.Some?
        && s[a.value.data..a.value.data + a.value.len] == auth
        && a.value.next == |s|
  {
    hide MsgToNet, NetToMsg, Dec, ParseInt, FindColon;
    var s, y, d := WithAuth(m, auth), MsgToNet(m), Dec(|auth|);
    assert s == y + (d + [COLON] + auth + [COMMA]);
    assert StartsAt(s, 0, y);
    MsgExact(s, 0, |s|, m);
    var p := |y|;
    assert s[p..p + |d|] == d && s[p + |d|] == COLON;
    assert s[p + |d| + 1..p + |d| + 1 + |auth|] == auth && s[|s| - 1] == COMMA;
    ParseDigits(s, p, |s|, 0, d);
    ValueDec(|auth|);
    FindColonAt(s, p + |d|, |s|);
  }
}
