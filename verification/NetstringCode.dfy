/** The functions of cl_netstring.c as they run: loops over buffers, proved against the netstring functions. */
module NetstringCode {
  import opened Bytes
  import opened CText
  import opened MsgText
  import opened Netstring
  import opened NetstringProof

  // Reading -----------------------------------------------------------------------------------------------

  /** cl_parse_int */
  method ClParseInt(s: bytes, p: nat, max: nat) returns (len: nat, offset: nat)
    ensures (len, p + offset) == ParseInt(s, p, max, 0)
  {
    len, offset := 0, 0;
    while p + offset < max && IsDigit(At(s, p + offset))
      invariant ParseInt(s, p, max, 0) == ParseInt(s, p + offset, max, len)
      decreases max - p - offset
    {
      len := len * 10 + Digit(At(s, p + offset));
      offset := offset + 1;
    }
  }

  method PeelNetstring(s: bytes, p: nat, max: nat) returns (r: Option<Peeled>)
    requires max <= |s|
    ensures r == Peel(s, p, max)
  {
    if p >= max {
      return None;
    }
    var len, offset := ClParseInt(s, p, max);
    if offset == 0 {
      return None;
    }
    var sp := p + offset;
    while At(s, sp) != COLON && sp < max
      invariant FindColon(s, p + offset, max) == FindColon(s, sp, max)
      decreases max - sp
    {
      sp := sp + 1;
    }
    if sp >= max {
      return None;
    }
    sp := sp + 1;
    if sp + len >= max || s[sp + len] != COMMA {
      return None;
    }
    return Some(Peeled(sp, len, sp + len + 1));
  }

  lemma NestedValue(t: nat, s: bytes, p: nat, max: nat)
    requires p <= max < |s| && (t == 2 || t == 5)
    ensures var d := NetToMsg(s, p, max);
      NetToValue(t, s, p, max) ==
      if d.None? then None else Some(if t == 2 then Struct(d.value.0) else Uncompress(d.value.0))
  {
    hide NetToMsg;
  }

  method ProcessNetstringNvpair(fs: seq<Field>, s: bytes, nv: nat, len: nat) returns (r: Option<seq<Field>>)
    requires nv + len < |s|
    ensures r == AddNvPair(fs, s, nv, len)
    decreases len, 1
  {
    hide Cspn, AddRaw, NetToMsg, NetToValue;
    if At(s, nv) != LPAREN || !IsDigit(At(s, nv + 1)) || At(s, nv + 2) != RPAREN {
      return None;
    }
    var t, n := Digit(At(s, nv + 1)), Cspn(s, nv + 3, EQUAL);
    if n == 0 || At(s, nv + 3 + n) != EQUAL || n + 4 > len {
      return None;
    }
    var v;
    if t == 2 || t == 5 {
      NestedValue(t, s, nv + 4 + n, nv + len);
      var d := Netstring2Msg(s, nv + 4 + n, nv + len);
      v := if d.None? then None else Some(if t == 2 then Struct(d.value.0) else Uncompress(d.value.0));
    } else {
      v := NetToValue(t, s, nv + 4 + n, nv + len);
    }
    if v.None? {
      return None;
    }
    return AddRaw(fs, s[nv + 3..nv + 3 + n], v.value, 0);
  }

  /** netstring2msg_rec: the message decoded and its slen. */
  method Netstring2Msg(s: bytes, p: nat, max: nat) returns (r: Option<(Msg, nat)>)
    requires p <= max <= |s|
    ensures r == NetToMsg(s, p, max)
    decreases max - p, 0
  {
    if !StartsAt(s, p, NET_START) {
      return None;
    }
    var fs, sp := [], p + |NET_START|;
    while sp < max && !StartsAt(s, sp, NET_END)
      invariant p < sp && NetLoop([], s, p + |NET_START|, max) == NetLoop(fs, s, sp, max)
      decreases max - sp
    {
      var d := PeelNetstring(s, sp, max);
      if d.None? {
        return None;
      }
      var next := ProcessNetstringNvpair(fs, s, d.value.data, d.value.len);
      if next.None? {
        return None;
      }
      fs, sp := next.value, d.value.next;
    }
    return Some((Msg(fs), sp + |NET_END| - p));
  }

  // Writing -----------------------------------------------------------------------------------------------

  lemma {:induction false} FieldsSnoc(fs: seq<Field>, f: Field)
    ensures FieldsToNet(fs + [f]) == FieldsToNet(fs) + FieldToNet(f)
    decreases |fs|
  {
    hide FieldToNet, FieldsToNet;
    FieldsCases(fs);
    FieldsCases(fs + [f]);
    if fs == [] {
      assert (fs + [f])[1..] == [];
      FieldsCases([]);
    } else {
      assert (fs + [f])[1..] == fs[1..] + [f];
      FieldsSnoc(fs[1..], f);
    }
  }

  lemma FieldsNext(fs: seq<Field>, i: nat)
    requires i < |fs|
    ensures FieldsToNet(fs[..i + 1]) == FieldsToNet(fs[..i]) + FieldToNet(fs[i])
  {
    assert fs[..i + 1] == fs[..i] + [fs[i]];
    FieldsSnoc(fs[..i], fs[i]);
  }

  lemma {:induction false} FieldsGrow(fs: seq<Field>, i: nat)
    requires i <= |fs|
    ensures |FieldsToNet(fs[..i])| <= |FieldsToNet(fs)|
    decreases |fs| - i
  {
    hide FieldsToNet, FieldToNet;
    if i == |fs| {
      assert fs[..i] == fs;
    } else {
      FieldsNext(fs, i);
      FieldsGrow(fs, i + 1);
    }
  }

  /** The header "len:(type)name=" of a field, then its value, then ','. */
  lemma FieldPieces(f: Field)
    ensures FieldToNet(f) ==
            (Dec(|Payload(f)|) + [COLON] + Tag(f.value) + f.name + [EQUAL]) + ValueToNet(f.value) + [COMMA]
    ensures |Payload(f)| == NetValueLen(|f.name|, f.value)
    ensures NetstringExtra(NetValueLen(|f.name|, f.value)) == |FieldToNet(f)|
  {
    hide Dec, ValueToNet, NetValueLen;
    PayloadLength(f);
  }

  /** fields2netstring writes the field at `sp` if and only if it ends by smax and its lists are short enough. */
  method Fields2Netstring(f: Field, buf: array<byte>, sp: nat, smax: nat)
    returns (ok: bool, comlen: nat)
    requires sp <= smax < buf.Length
    modifies buf
    ensures buf[..sp] == old(buf[..sp])
    ensures ok <==> ValueFits(f.value) && sp + |FieldToNet(f)| <= smax
    ensures ok ==> comlen == |FieldToNet(f)| && buf[..sp + comlen] == old(buf[..sp]) + FieldToNet(f)
    decreases f, 0
  {
    hide Dec, ValueToNet, NetValueLen, FieldToNet, Payload, NetstringExtra, Tag, MsgToNet, Pack;
    comlen := 0;
    FieldPieces(f);
    var fieldlen := NetValueLen(|f.name|, f.value);
    if sp + NetstringExtra(fieldlen) > smax {
      return false, 0;
    }
    var head := Dec(fieldlen) + [COLON] + Tag(f.value) + f.name + [EQUAL];
    StoreString(buf, sp, head);
    var q, slen := sp + |head|, 0;
    ok, slen := WriteValue(f.value, buf, q);
    if !ok {
      return false, 0;
    }
    buf[q + slen] := COMMA;
    comlen := |head| + slen + 1;
    assert buf[..sp + comlen] == old(buf[..sp]) + (head + ValueToNet(f.value) + [COMMA]);
  }

  /** The switch over the field type: the octets of the value at `q`. */
  method WriteValue(v: Value, buf: array<byte>, q: nat) returns (ok: bool, slen: nat)
    requires q + |ValueToNet(v)| < buf.Length
    modifies buf
    ensures buf[..q] == old(buf[..q])
    ensures ok <==> ValueFits(v)
    ensures ok ==> slen == |ValueToNet(v)| && buf[..q + slen] == old(buf[..q]) + ValueToNet(v)
    decreases v, 2
  {
    hide MsgToNet, Pack, Encodable;
    match v
    case Str(s) => Store(buf, q, s); return true, |s|;
    case Bin(b) => Store(buf, q, b); return true, |b|;
    case Compress(b) => Store(buf, q, b); return true, |b|;
    case List(l) =>
      var tmplen := PackLength(l);
      if tmplen >= MAXLENGTH {
        return false, 0;
      }
      Store(buf, q, Pack(l));
      return true, tmplen;
    case Struct(m) =>
      MsgLength(m);
      ok, slen := Msg2NetstringBuf(m, buf, q, NetLen(m));
    case Uncompress(m) =>
      MsgLength(m);
      ok, slen := Msg2NetstringBuf(m, buf, q, NetLen(m));
  }

  /**
   * msg2netstring_buf: succeeds if and only if the buffer has get_netstringlen octets and every list is short
   * enough, and then writes exactly the netstring; so with a buffer of the predicted size no boundary check and
   * no length discrepancy is ever hit.
   */
  method Msg2NetstringBuf(m: Msg, buf: array<byte>, at: nat, buflen: nat) returns (ok: bool, slen: nat)
    requires |NET_START| <= buflen && at + buflen < buf.Length
    modifies buf
    ensures buf[..at] == old(buf[..at])
    ensures ok <==> Encodable(m) && NetLen(m) <= buflen
    ensures ok ==> slen == NetLen(m) && buf[..at + slen] == old(buf[..at]) + MsgToNet(m)
    decreases m, 1
  {
    hide FieldsToNet, ValueFits, NetFieldsLen;
    var smax := at + buflen;
    StoreString(buf, at, NET_START);
    var sp := at + |NET_START|;
    FieldsLength(m.fields);
    ok, sp := WriteFields(m, buf, sp, smax);
    if !ok || sp + |NET_END| > smax {
      return false, 0;
    }
    StoreString(buf, sp, NET_END);
    slen := sp + |NET_END| - at;
    assert buf[..at + slen] == old(buf[..at]) + MsgToNet(m);
    return true, slen;
  }

  /** The loop over the fields. */
  method WriteFields(m: Msg, buf: array<byte>, start: nat, smax: nat) returns (ok: bool, sp: nat)
    requires start <= smax < buf.Length
    modifies buf
    ensures buf[..start] == old(buf[..start])
    ensures ok <==> Encodable(m) && start + |FieldsToNet(m.fields)| <= smax
    ensures ok ==> sp == start + |FieldsToNet(m.fields)| && buf[..sp] == old(buf[..start]) + FieldsToNet(m.fields)
    decreases m, 0
  {
    hide FieldToNet, FieldsToNet, ValueFits;
    sp := start;
    var i := 0;
    FieldsCases([]);
    assert m.fields[..0] == [];
    while i < |m.fields|
      invariant 0 <= i <= |m.fields| && sp <= smax
      invariant sp == start + |FieldsToNet(m.fields[..i])| && buf[..start] == old(buf[..start])
      invariant buf[..sp] == old(buf[..start]) + FieldsToNet(m.fields[..i])
      invariant forall j | 0 <= j < i :: ValueFits(m.fields[j].value)
    {
      var flen;
      ok, flen := Fields2Netstring(m.fields[i], buf, sp, smax);
      assert buf[..start] == buf[..sp][..start];
      FieldsNext(m.fields, i);
      FieldsGrow(m.fields, i + 1);
      if !ok {
        return false, 0;
      }
      var tmplen := NetstringExtra(NetValueLen(|m.fields[i].name|, m.fields[i].value));
      assert flen == tmplen by { PayloadLength(m.fields[i]); }
      sp := sp + flen;
      i := i + 1;
    }
    assert m.fields[..i] == m.fields;
    return true, sp;
  }
}
