/** The text printer as it stores into its buffer: what it leaves there, and when it clears the octet behind. */
module MsgTextStore {
  import opened Bytes
  import opened CText
  import opened MsgText
  import opened MsgTextCode
  import opened MsgTextProof
  import opened MsgTextRoom
  import Base64

  // Stores ------------------------------------------------------------------------------------------------

  /** Converting a buffer converts the C string in it. */
  lemma {:induction false} ConvertsString(t: bytes, rest: bytes, sym: byte)
    requires NUL !in t
    ensures NlToSym(t + [NUL] + rest, sym) == WithRest(NlToSym(t, sym), [NUL] + rest)
    decreases |t|
  {
    var s := t + [NUL] + rest;
    if t == [] {
      assert s == [NUL] + rest && NlToSym(s, sym) == Some(s);
      assert [] + ([NUL] + rest) == s;
    } else {
      assert s[0] == t[0] && s[1..] == t[1..] + [NUL] + rest;
      ConvertsString(t[1..], rest, sym);
      var u := NlToSym(t[1..], sym);
      if u.Some? {
        var c := if t[0] == NL then sym else t[0];
        assert [c] + (u.value + ([NUL] + rest)) == ([c] + u.value) + ([NUL] + rest);
      }
    }
  }

  function WithRest(a: Option<bytes>, rest: bytes): Option<bytes> {
    if a.None? then None else Some(a.value + rest)
  }

  /** Behind the octet at maxp nothing has changed, and that octet has been cleared or left alone. */
  twostate predicate Behind(buf: array<byte>, maxp: nat, cleared: bool)
    requires maxp < buf.Length
    reads buf
  {
    buf[maxp + 1..] == old(buf[maxp + 1..]) && buf[maxp] == if cleared then NUL else old(buf[maxp])
  }

  /** strcat(buf + sp, q), where buf + sp is the empty string. */
  method Cat(buf: array<byte>, sp: nat, q: bytes, ghost maxp: nat)
    requires sp + |q| <= maxp < buf.Length && buf[sp] == NUL
    modifies buf
    ensures buf[..sp + |q|] == old(buf[..sp]) + q && buf[sp + |q|] == NUL
    ensures Behind(buf, maxp, sp + |q| == maxp)
  {
    StoreString(buf, sp, q);
    ghost var k := sp + |q| + 1;
    assert forall i | k <= i < buf.Length :: buf[i] == buf[k..][i - k] == old(buf[k..])[i - k];
  }

  lemma {:induction false} StrToTextAt(s: bytes, k: nat)
    requires k < |s|
    ensures StrToText(s)[k] == if s[k] == NL then SPECIAL_SYM else s[k]
    decreases |s|
  {
    if k > 0 {
      StrToTextAt(s[1..], k - 1);
    }
  }

  /** `now` is `was` with the newlines from bp to the end replaced. */
  ghost predicate Replaced(was: bytes, bp: nat, now: bytes) {
    && |now| == |was|
    && forall k | 0 <= k < |was| :: now[k] == if bp <= k && was[k] == NL then SPECIAL_SYM else was[k]
  }

  lemma ReplacedText(front: bytes, s: bytes, now: bytes)
    requires Replaced(front + s, |front|, now)
    ensures now == front + StrToText(s)
  {
    hide StrToText;
    forall k | 0 <= k < |s|
      ensures now[|front| + k] == StrToText(s)[k]
    {
      StrToTextAt(s, k);
    }
  }

  /** The loop of str2string over the string at bp. */
  method ReplaceNewlines(buf: array<byte>, bp: nat, n: nat)
    requires bp + n < buf.Length && buf[bp + n] == NUL && forall k | bp <= k < bp + n :: buf[k] != NUL
    modifies buf
    ensures Replaced(old(buf[..bp + n]), bp, buf[..bp + n]) && buf[bp + n..] == old(buf[bp + n..])
  {
    var p := bp;
    while buf[p] != NUL
      invariant bp <= p <= bp + n
      invariant forall k | 0 <= k < buf.Length ::
        buf[k] == if bp <= k < p && old(buf[k]) == NL then SPECIAL_SYM else old(buf[k])
      decreases bp + n - p
    {
      if buf[p] == NL {
        buf[p] := SPECIAL_SYM;
      }
      p := p + 1;
    }
  }

  /** str2string: the string, with its newlines replaced in place. */
  method Str2String(s: bytes, buf: array<byte>, bp: nat, ghost maxp: nat)
    requires NUL !in s && bp + |s| <= maxp < buf.Length && buf[bp] == NUL
    modifies buf
    ensures buf[..bp + |s|] == old(buf[..bp]) + StrToText(s) && buf[bp + |s|] == NUL
    ensures Behind(buf, maxp, bp + |s| == maxp)
  {
    hide StrToText, Replaced;
    Cat(buf, bp, s, maxp);
    ghost var was := buf[..bp + |s|];
    assert forall k | bp <= k < bp + |s| :: buf[k] == was[k] == s[k - bp] && s[k - bp] in s;
    ghost var tail := buf[bp + |s|..];
    ReplaceNewlines(buf, bp, |s|);
    ReplacedText(old(buf[..bp]), s, buf[..bp + |s|]);
    assert tail[0] == NUL && buf[bp + |s|] == tail[0];
    assert buf[maxp + 1..] == buf[bp + |s|..][maxp + 1 - (bp + |s|)..];
    assert buf[maxp] == buf[bp + |s|..][maxp - (bp + |s|)];
  }

  lemma {:induction false} PackSnoc(l: seq<bytes>, e: bytes)
    ensures Pack(l + [e]) == Pack(l) + PackOne(e)
    decreases |l|
  {
    hide PackOne;
    if l == [] {
      assert l + [e] == [e] && [e][1..] == [];
      assert Pack([e]) == PackOne(e) + Pack([]);
    } else {
      assert (l + [e])[1..] == l[1..] + [e];
      PackSnoc(l[1..], e);
    }
  }

  lemma PackNext(l: seq<bytes>, i: nat)
    requires i < |l|
    ensures Pack(l[..i + 1]) == Pack(l[..i]) + PackOne(l[i])
  {
    assert l[..i + 1] == l[..i] + [l[i]];
    PackSnoc(l[..i], l[i]);
  }

  lemma ListMeetsFrom(l: seq<bytes>, i: nat, room: nat)
    requires i < |l|
    ensures ListMeets(l[i..], room) <==>
            |PackOne(l[i])| <= room && (|PackOne(l[i])| == room || ListMeets(l[i + 1..], room - |PackOne(l[i])|))
    ensures PackLength(l[i..]) == |PackOne(l[i])| + PackLength(l[i + 1..])
  {
    assert l[i..][1..] == l[i + 1..];
  }

  /** string_list_pack: element after element, as long as each ends by maxp. */
  method StringListPack(l: seq<bytes>, buf: array<byte>, bp: nat, maxp: nat) returns (ok: bool, n: nat)
    requires bp <= maxp < buf.Length && buf[bp] == NUL
    modifies buf
    ensures Behind(buf, maxp, ListMeets(l, maxp - bp)) && buf[..bp] == old(buf[..bp])
    ensures ok <==> bp + PackLength(l) <= maxp
    ensures ok ==> n == PackLength(l) && buf[..bp + n] == old(buf[..bp]) + Pack(l) && buf[bp + n] == NUL
  {
    hide Pack, PackOne, ListMeets, PackLength;
    var p, i := bp, 0;
    ghost var met := false;
    assert l[..0] == [] && Pack([]) == [] by { PackCases([]); }
    assert l[0..] == l;
    while i < |l|
      invariant 0 <= i <= |l| && p == bp + |Pack(l[..i])| <= maxp
      invariant buf[..p] == old(buf[..bp]) + Pack(l[..i]) && buf[p] == NUL
      invariant Behind(buf, maxp, met) && buf[..bp] == old(buf[..bp])
      invariant ListMeets(l, maxp - bp) <==> met || ListMeets(l[i..], maxp - p)
      invariant bp + PackLength(l) == p + PackLength(l[i..])
    {
      PackNext(l, i);
      ListMeetsFrom(l, i, maxp - p);
      var e := PackOne(l[i]);
      if p + |e| > maxp {
        return false, 0;
      }
      Cat(buf, p, e, maxp);
      met := met || p + |e| == maxp;
      assert buf[..bp] == buf[..p + |e|][..bp];
      p, i := p + |e|, i + 1;
    }
    assert l[..i] == l && l[i..] == [];
    assert PackLength([]) == 0 && !ListMeets([], maxp - p) by { NoElements(maxp - p); }
    return true, p - bp;
  }

  lemma NoElements(room: nat)
    ensures PackLength([]) == 0 && !ListMeets([], room)
  {
  }

  /** What every tostring function promises of its stores and of its result. */
  twostate predicate PrintsInto(buf: array<byte>, bp: nat, maxp: nat, ok: bool, n: nat, t: Option<bytes>)
    requires bp <= maxp < buf.Length
    reads buf
  {
    && buf[..bp] == old(buf[..bp])
    && (ok ==>
          && t.Some? && n == |t.value| && bp + n <= maxp
          && buf[..bp + n] == old(buf[..bp]) + t.value && buf[bp + n] == NUL)
  }

  /** The tostring functions. */
  method Value2String(v: Value, buf: array<byte>, bp: nat, maxp: nat, depth: nat) returns (ok: bool, n: nat)
    requires CValue(v) && bp <= maxp < buf.Length && buf[bp] == NUL
    modifies buf
    ensures PrintsInto(buf, bp, maxp, ok, n, ValueToText(v, depth))
    ensures ok <==> ValueFits(v, depth, maxp - bp)
    ensures Behind(buf, maxp, ValueMeets(v, maxp - bp))
    decreases v, 0
  {
    hide MsgToText, NlToSym, Pack, TextLen, StrToText, Base64.Encode, ListMeets;
    match v {
      case Str(s) =>
        if bp + |s| > maxp || NUL in s {
          return false, 0;
        }
        Str2String(s, buf, bp, maxp);
        assert buf[..bp] == buf[..bp + |s|][..bp];
        return true, |s|;
      case Bin(b) =>
        ok, n := Base2String(b, buf, bp, maxp);
      case Compress(b) =>
        ok, n := Base2String(b, buf, bp, maxp);
      case List(l) =>
        ok, n := StringListPack(l, buf, bp, maxp);
        ok := ok && l != [];
      case Uncompress(_) =>
        return false, 0;
      case Struct(m) =>
        ok, n := Struct2String(m, buf, bp, maxp, depth);
    }
  }

  /** binary2string: here the NUL is counted. */
  method Base2String(b: bytes, buf: array<byte>, bp: nat, maxp: nat) returns (ok: bool, n: nat)
    requires bp <= maxp < buf.Length && buf[bp] == NUL
    modifies buf
    ensures PrintsInto(buf, bp, maxp, ok, n, Some(Base64.Encode(b))) && Behind(buf, maxp, false)
    ensures ok <==> bp + Base64.StringLen(|b|) + 1 <= maxp
  {
    hide Base64.Encode;
    Base64.EncodeLength(b);
    n := Base64.StringLen(|b|);
    if bp + n + 1 > maxp {
      return false, 0;
    }
    Cat(buf, bp, Base64.Encode(b), maxp);
    assert buf[..bp] == buf[..bp + n][..bp];
    return true, n;
  }

  /** struct2string: the nested message gets the room predicted for it, and its newlines are escaped in place. */
  method Struct2String(m: Msg, buf: array<byte>, bp: nat, maxp: nat, depth: nat) returns (ok: bool, n: nat)
    requires CFields(m.fields) && bp <= maxp < buf.Length
    modifies buf
    ensures PrintsInto(buf, bp, maxp, ok, n, ValueToText(Struct(m), depth)) && Behind(buf, maxp, false)
    ensures ok <==> bp + TextLen(m) <= maxp && ValueToText(Struct(m), depth).Some?
    decreases m, 2
  {
    hide MsgToText, NlToSym, TextLen, Meets, Fits;
    var baselen := TextLen(m);
    if bp + baselen > maxp {
      return false, 0;
    }
    ok := Msg2StringBuf(m, buf, bp, baselen, depth + 1);
    Predicted(m, depth + 1, baselen);
    if !ok || depth >= MAXDEPTH {
      return false, 0;
    }
    ghost var t := MsgToText(m, depth + 1).value;
    ok, n := Escape(buf, bp, baselen, depth, t);
  }

  /** convert and strlen on the message text t at bp. */
  method Escape(buf: array<byte>, bp: nat, baselen: nat, depth: nat, ghost t: bytes) returns (ok: bool, n: nat)
    requires bp + baselen <= buf.Length && depth < MAXDEPTH && NUL !in t && |t| < baselen
    requires buf[..bp + |t|] == buf[..bp] + t && buf[bp + |t|] == NUL
    modifies buf
    ensures buf[..bp] == old(buf[..bp]) && buf[bp + baselen..] == old(buf[bp + baselen..])
    ensures ok <==> NlToSym(t, Sym(depth)).Some?
    ensures ok ==> var u := NlToSym(t, Sym(depth)).value;
      n == |u| == |t| && buf[..bp + n] == old(buf[..bp]) + u && buf[bp + n] == NUL
  {
    hide NlToSym;
    ghost var rest := buf[bp + |t| + 1..bp + baselen];
    assert buf[bp..bp + baselen] == t + [NUL] + rest by {
      assert buf[bp..bp + |t|] == buf[..bp + |t|][bp..];
      assert buf[bp..bp + baselen] == buf[bp..bp + |t|] + [buf[bp + |t|]] + rest;
    }
    ConvertsString(t, rest, Sym(depth));
    NlToSymLength(t, Sym(depth));
    EscapeNoNul(t, Sym(depth));
    ok := ConvertNlToSym(buf, bp, baselen, Sym(depth));
    if !ok {
      return false, 0;
    }
    ghost var u := NlToSym(t, Sym(depth)).value;
    assert buf[bp..bp + baselen] == u + ([NUL] + rest);
    ghost var now := buf[bp..bp + baselen];
    assert forall k | bp <= k < bp + baselen :: buf[k] == now[k - bp];
    assert forall k | 0 <= k < |u| :: u[k] in u && now[k] == u[k];
    n := 0;
    while buf[bp + n] != NUL
      invariant n <= |u|
      decreases |u| - n
    {
      n := n + 1;
    }
    assert buf[..bp + n] == buf[..bp] + buf[bp..bp + baselen][..n];
  }

  /** One turn of msg2string_buf: a field's tag, name, value and newline, each checked for room. */
  method Field2String(f: Field, buf: array<byte>, bp: nat, maxp: nat, depth: nat) returns (ok: bool, sp: nat)
    requires CField(f) && bp <= maxp < buf.Length && buf[bp] == NUL
    modifies buf
    ensures buf[..bp] == old(buf[..bp]) && Behind(buf, maxp, FieldMeets(f, depth, maxp - bp))
    ensures ok <==> FieldFits(f, depth, maxp - bp)
    ensures ok ==> ValueToText(f.value, depth).Some?
    ensures ok ==> var line := LineOf(f, ValueToText(f.value, depth).value) + [NL];
      sp == bp + |line| <= maxp && |line| == LineLen(f, depth) && buf[..sp] == old(buf[..bp]) + line && buf[sp] == NUL
    decreases f, 1
  {
    hide ValueToText, TextValueLen, CValue, LineOf, TypeTag, ValueFits, ValueMeets;
    LineSplits(f);
    ok, sp := FieldHead(f, buf, bp, maxp);
    if !ok {
      return false, sp;
    }
    var n;
    ok, n := Value2String(f.value, buf, sp, maxp, depth);
    assert buf[..bp] == buf[..sp][..bp];
    if !ok || sp + n + 1 > maxp {
      return false, sp;
    }
    ghost var t := ValueToText(f.value, depth).value;
    Cat(buf, sp + n, [NL], maxp);
    sp := sp + n + 1;
    assert buf[..sp] == old(buf[..bp]) + (TypeTag(f.value) + f.name + [EQUAL]) + t + [NL]
                     == old(buf[..bp]) + (LineOf(f, t) + [NL]);
    assert buf[..bp] == buf[..sp][..bp];
  }

  lemma LineSplits(f: Field)
    ensures forall t :: LineOf(f, t) == (TypeTag(f.value) + f.name + [EQUAL]) + t
  {
  }

  lemma Together(a: bytes, b: bytes, c: bytes, d: bytes)
    ensures ((a + b) + c) + d == a + (b + c + d)
  {
  }

  lemma FrontOf(s: bytes, front: bytes, n: nat)
    requires |front| == n && front <= s
    ensures s[..n] == front
  {
  }

  /** The tag, the name and '='. */
  method FieldHead(f: Field, buf: array<byte>, bp: nat, maxp: nat) returns (ok: bool, sp: nat)
    requires bp <= maxp < buf.Length && buf[bp] == NUL
    modifies buf
    ensures buf[..bp] == old(buf[..bp])
    ensures Behind(buf, maxp, 0 < |TypeTag(f.value)| == maxp - bp || NameLen(f) == maxp - bp)
    ensures ok <==> bp + NameLen(f) <= maxp
    ensures ok ==> var head := TypeTag(f.value) + f.name + [EQUAL];
      sp == bp + |head| && buf[..sp] == old(buf[..bp]) + head && buf[sp] == NUL
  {
    hide TypeTag;
    var tag := TypeTag(f.value);
    sp := bp;
    if tag != [] {
      if sp + |tag| > maxp {
        return false, sp;
      }
      Cat(buf, sp, tag, maxp);
      sp := sp + |tag|;
    }
    ghost var front := old(buf[..bp]);
    assert front + [] == front;
    assert buf[..sp] == front + tag;
    FrontOf(buf[..sp], front, bp);
    if sp + |f.name| + 1 > maxp {
      return false, sp;
    }
    Cat(buf, sp, f.name, maxp);
    Cat(buf, sp + |f.name|, [EQUAL], maxp);
    sp := sp + |f.name| + 1;
    Together(front, tag, f.name, [EQUAL]);
    FrontOf(buf[..sp], front, bp);
    return true, sp;
  }

  /**
   * msg2string_buf with NEEDHEAD and `len` octets at buf + at. It succeeds exactly if the message fits, and then
   * leaves the text and its NUL. The octet behind the buffer is cleared exactly if a piece of the message meets the
   * end of the buffer, and nothing further on is ever touched.
   */
  method Msg2StringBuf(m: Msg, buf: array<byte>, at: nat, len: nat, depth: nat) returns (ok: bool)
    requires CFields(m.fields) && at + len < buf.Length
    modifies buf
    ensures buf[..at] == old(buf[..at]) && buf[at + len + 1..] == old(buf[at + len + 1..])
    ensures buf[at + len] == if Meets(m, depth, len) then NUL else old(buf[at + len])
    ensures ok <==> Fits(m, depth, len)
    ensures ok ==> MsgToText(m, depth).Some?
    ensures ok ==> var t := MsgToText(m, depth).value;
      |t| < len && NUL !in t && buf[..at + |t|] == old(buf[..at]) + t && buf[at + |t|] == NUL
    decreases m, 1
  {
    hide FieldsToText, FieldsFit, FieldsMeet, ValueToText, LineOf, CField;
    ghost var front := buf[..at];
    var maxp := at + len;
    buf[at] := NUL;
    FieldsNoNul(m.fields, depth);
    if at + |MSG_START| > maxp {
      return false;
    }
    Cat(buf, at, MSG_START, maxp);
    var sp;
    ok, sp := WriteFields(m, buf, at + |MSG_START|, maxp, depth);
    FrontOf(buf[..at + |MSG_START|], front, at);
    if !ok {
      return false;
    }
    ok := WriteEnd(buf, sp, maxp);
    FrontOf(buf[..sp], front, at);
    if ok {
      Together(front, MSG_START, FieldsToText(m.fields, depth).value, MSG_END);
    }
  }

  /** The end line, and the NUL for which there must be room. */
  method WriteEnd(buf: array<byte>, sp: nat, maxp: nat) returns (ok: bool)
    requires sp <= maxp < buf.Length && buf[sp] == NUL
    modifies buf
    ensures buf[..sp] == old(buf[..sp]) && Behind(buf, maxp, sp + |MSG_END| == maxp)
    ensures ok <==> sp + |MSG_END| < maxp
    ensures ok ==> buf[..sp + |MSG_END|] == old(buf[..sp]) + MSG_END && buf[sp + |MSG_END|] == NUL
  {
    if sp + |MSG_END| > maxp {
      return false;
    }
    Cat(buf, sp, MSG_END, maxp);
    assert buf[..sp] == buf[..sp + |MSG_END|][..sp];
    if sp + |MSG_END| + 1 > maxp {
      return false;
    }
    buf[sp + |MSG_END|] := NUL;
    return true;
  }

  lemma FieldsFrom(fs: seq<Field>, j: nat, depth: nat, room: nat)
    requires j < |fs|
    ensures FieldsFit(fs[j..], depth, room) ==> FieldFits(fs[j], depth, room)
    ensures FieldsMeet(fs[j..], depth, room) ==> FieldMeets(fs[j], depth, room) || FieldFits(fs[j], depth, room)
    ensures FieldMeets(fs[j], depth, room) ==> FieldsMeet(fs[j..], depth, room)
    ensures FieldFits(fs[j], depth, room) && ValueToText(fs[j].value, depth).Some? && LineLen(fs[j], depth) <= room ==>
      var rest := room - LineLen(fs[j], depth);
      && (FieldsFit(fs[j..], depth, room) <==> FieldsFit(fs[j + 1..], depth, rest))
      && (FieldsMeet(fs[j..], depth, room) <==> FieldMeets(fs[j], depth, room) || FieldsMeet(fs[j + 1..], depth, rest))
  {
    hide FieldFits, FieldMeets, LineLen, ValueToText;
    assert fs[j..][1..] == fs[j + 1..];
  }

  lemma NoFields(depth: nat, room: nat)
    ensures FieldsFit([], depth, room) && !FieldsMeet([], depth, room)
  {
  }

  /** The loop of msg2string_buf over the fields. */
  method WriteFields(m: Msg, buf: array<byte>, start: nat, maxp: nat, depth: nat) returns (ok: bool, sp: nat)
    requires CFields(m.fields) && start <= maxp < buf.Length && buf[start] == NUL
    modifies buf
    ensures buf[..start] == old(buf[..start]) && Behind(buf, maxp, FieldsMeet(m.fields, depth, maxp - start))
    ensures ok <==> FieldsFit(m.fields, depth, maxp - start)
    ensures ok ==> FieldsToText(m.fields, depth).Some?
    ensures ok ==> var t := FieldsToText(m.fields, depth).value;
      sp == start + |t| <= maxp && buf[..sp] == old(buf[..start]) + t && buf[sp] == NUL
    decreases m, 0
  {
    hide FieldsToText, TextFieldsLen, ValueToText, Joined, TextFieldLen, LineOf, CField;
    hide FieldsFit, FieldsMeet, FieldFits, FieldMeets, LineLen;
    sp := start;
    var j := 0;
    ghost var out: bytes := [];
    ghost var met := false;
    assert m.fields[0..] == m.fields;
    JoinedNone(FieldsToText(m.fields, depth));
    while j < |m.fields|
      invariant 0 <= j <= |m.fields| && sp == start + |out| <= maxp
      invariant buf[..sp] == old(buf[..start]) + out && buf[sp] == NUL
      invariant Behind(buf, maxp, met) && buf[..start] == old(buf[..start])
      invariant FieldsToText(m.fields, depth) == Joined(out, FieldsToText(m.fields[j..], depth))
      invariant FieldsFit(m.fields, depth, maxp - start) <==> FieldsFit(m.fields[j..], depth, maxp - sp)
      invariant FieldsMeet(m.fields, depth, maxp - start) <==> met || FieldsMeet(m.fields[j..], depth, maxp - sp)
    {
      FieldsTextFrom(m.fields, j, depth);
      FieldsFrom(m.fields, j, depth, maxp - sp);
      ghost var was := sp;
      ok, sp := Field2String(m.fields[j], buf, sp, maxp, depth);
      met := met || FieldMeets(m.fields[j], depth, maxp - was);
      assert buf[..start] == buf[..was][..start];
      if !ok {
        return false, sp;
      }
      ghost var line := LineOf(m.fields[j], ValueToText(m.fields[j].value, depth).value) + [NL];
      JoinedJoined(out, line, FieldsToText(m.fields[j + 1..], depth));
      assert buf[..sp] == old(buf[..start]) + (out + line);
      out := out + line;
      j := j + 1;
    }
    FieldsTextEnd(depth);
    NoFields(depth, maxp - sp);
    assert m.fields[j..] == [];
    WholeJoin(out, []);
    assert out + [] == out;
    return true, sp;
  }
}
