/** cl_netstring.c: messages as nested netstrings. */
module Netstring {
  import opened Bytes
  import opened CText
  import opened MsgText

  const NET_START: bytes := [35, 35, 35, 10] // "###\n"
  const NET_END: bytes := [37, 37, 37, 10]   // "%%%\n"
  const MAXLENGTH := 1024

  // Encoding ----------------------------------------------------------------------------------------------

  function ValueToNet(v: Value): bytes
    decreases v, 0
  {
    match v
    case Str(s) => s
    case Bin(b) => b
    case Compress(b) => b
    case List(l) => Pack(l)
    case Struct(m) => MsgToNet(m)
    case Uncompress(m) => MsgToNet(m)
  }

  /** (type)name=value */
  function Payload(f: Field): bytes
    decreases f, 1
  {
    Tag(f.value) + f.name + [EQUAL] + ValueToNet(f.value)
  }

  function FieldToNet(f: Field): bytes
    decreases f, 2
  {
    Dec(|Payload(f)|) + [COLON] + Payload(f) + [COMMA]
  }

  function FieldsToNet(fs: seq<Field>): bytes
    decreases fs, 0
  {
    if fs == [] then [] else FieldToNet(fs[0]) + FieldsToNet(fs[1..])
  }

  /** What msg2netstring_buf writes when it does not fail. */
  function MsgToNet(m: Msg): bytes
    decreases m, 1
  {
    NET_START + FieldsToNet(m.fields) + NET_END
  }

  /** fields2netstring refuses a list that packs into MAXLENGTH octets or more. */
  predicate ValueFits(v: Value)
    decreases v, 0
  {
    match v
    case List(l) => PackLength(l) < MAXLENGTH
    case Struct(m) => Encodable(m)
    case Uncompress(m) => Encodable(m)
    case _ => true
  }

  predicate Encodable(m: Msg)
    decreases m, 1
  {
    forall i | 0 <= i < |m.fields| :: ValueFits(m.fields[i].value)
  }

  // Predicted lengths -------------------------------------------------------------------------------------

  function NetstringExtra(x: nat): nat {
    |Dec(x)| + x + 2
  }

  /** The netstringlen functions of the field types. */
  function NetValueLen(namelen: nat, v: Value): nat
    decreases v, 0
  {
    match v
    case Str(s) => 3 + namelen + 1 + |s|
    case Bin(b) => 3 + namelen + 1 + |b|
    case Compress(b) => 3 + namelen + 1 + |b|
    case List(l) => 3 + namelen + 1 + PackLength(l)
    case Struct(m) => 3 + namelen + 1 + NetLen(m)
    case Uncompress(m) => 3 + namelen + 1 + NetLen(m)
  }

  function NetFieldsLen(fs: seq<Field>): nat
    decreases fs, 0
  {
    if fs == [] then 0
    else NetstringExtra(NetValueLen(|fs[0].name|, fs[0].value)) + NetFieldsLen(fs[1..])
  }

  /** get_netstringlen */
  function NetLen(m: Msg): nat
    decreases m, 1
  {
    |NET_START| + |NET_END| + NetFieldsLen(m.fields)
  }

  // Decoding ----------------------------------------------------------------------------------------------

  /** The scan for ':' in peel_netstring */
  function FindColon(s: bytes, p: nat, max: nat): (q: nat)
    ensures q >= p
    ensures forall i | p <= i < q :: At(s, i) != COLON
    decreases max - p
  {
    if At(s, p) != COLON && p < max then FindColon(s, p + 1, max) else p
  }

  datatype Peeled = Peeled(data: nat, len: nat, next: nat)

  /** peel_netstring */
  function Peel(s: bytes, p: nat, max: nat): (r: Option<Peeled>)
    requires max <= |s|
    ensures r.Some? ==> p < r.value.data && r.value.data + r.value.len < max && p < r.value.next <= max
  {
    if p >= max then None
    else
      var (len, e) := ParseInt(s, p, max, 0);
      if e == p then None
      else
        var colon := FindColon(s, e, max);
        if colon >= max then None
        else if colon + 1 + len >= max then None
        else if s[colon + 1 + len] != COMMA then None
        else Some(Peeled(colon + 1, len, colon + 1 + len + 1))
  }

  /** The first field of a name, or |fs| */
  function IndexOf(fs: seq<Field>, name: bytes): (j: nat)
    ensures j <= |fs|
    ensures j < |fs| ==> fs[j].name == name
    ensures forall i | 0 <= i < j :: fs[i].name != name
  {
    if fs == [] || fs[0].name == name then 0 else 1 + IndexOf(fs[1..], name)
  }

  /** add_list_field: a second list of the same name is appended to the first. */
  function AddListField(fs: seq<Field>, name: bytes, l: seq<bytes>): (r: Option<seq<Field>>)
  {
    var j := IndexOf(fs, name);
    if j == |fs| then Some(fs + [Field(name, List(l))])
    else if fs[j].value.List? then Some(fs[j := Field(name, List(fs[j].value.l + l))])
    else None
  }

  /** ha_msg_addraw with a value of the given type */
  function AddRaw(fs: seq<Field>, name: bytes, v: Value, depth: nat): (r: Option<seq<Field>>)
  {
    if name == [] || StartsAt(name, 0, MSG_START) then None
    else match v
      case Str(s) => AddStringField(fs, name, s, depth)
      case List(l) => if l == [] then None else AddListField(fs, name, l)
      case _ => Some(fs + [Field(name, v)])
  }

  /** The netstringtofield functions of the field types, on s[p..max]. */
  function NetToValue(t: nat, s: bytes, p: nat, max: nat): (v: Option<Value>)
    requires p <= max <= |s|
    ensures v.Some? ==> TypeOf(v.value) == t
    decreases max - p, 4
  {
    if t == 0 then Some(Str(s[p..max]))
    else if t == 1 then Some(Bin(s[p..max]))
    else if t == 4 then Some(Compress(s[p..max]))
    else if t == 3 then
      var l := Unpack(s, p, max, []);
      if l.None? || l.value == [] then None else Some(List(l.value))
    else if t == 2 || t == 5 then
      var d := NetToMsg(s, p, max);
      if d.None? then None else Some(if t == 2 then Struct(d.value.0) else Uncompress(d.value.0))
    else None
  }

  /** process_netstring_nvpair on the `len` octets at s + nv; its assertions count as failures. */
  function AddNvPair(fs: seq<Field>, s: bytes, nv: nat, len: nat): (r: Option<seq<Field>>)
    requires nv + len < |s|
    decreases len, 5
  {
    if At(s, nv) != LPAREN || !IsDigit(At(s, nv + 1)) || At(s, nv + 2) != RPAREN then None
    else
      var n := Cspn(s, nv + 3, EQUAL);
      if n == 0 || At(s, nv + 3 + n) != EQUAL then None
      else if n + 4 > len then None
      else
        var v := NetToValue(Digit(At(s, nv + 1)), s, nv + 4 + n, nv + len);
        if v.None? then None else AddRaw(fs, s[nv + 3..nv + 3 + n], v.value, 0)
  }

  /** The loop of netstring2msg_rec; the position reached is the second component. */
  function NetLoop(fs: seq<Field>, s: bytes, p: nat, max: nat): (r: Option<(seq<Field>, nat)>)
    requires max <= |s|
    ensures r.Some? ==> r.value.1 >= p
    decreases if p < max then max - p else 0, 2
  {
    if p >= max || StartsAt(s, p, NET_END) then Some((fs, p))
    else
      var d := Peel(s, p, max);
      if d.None? then None
      else
        var next := AddNvPair(fs, s, d.value.data, d.value.len);
        if next.None? then None else NetLoop(next.value, s, d.value.next, max)
  }

  /**
   * netstring2msg_rec on s[p..max]: the message and how many octets it took. The recursion ends on every input
   * because a nested value is strictly shorter than what it is nested in.
   */
  function NetToMsg(s: bytes, p: nat, max: nat): (r: Option<(Msg, nat)>)
    requires p <= max <= |s|
    decreases max - p, 3
  {
    if !StartsAt(s, p, NET_START) then None
    else
      var fs := NetLoop([], s, p + |NET_START|, max);
      if fs.None? then None
      else Some((Msg(fs.value.0), fs.value.1 + |NET_END| - p))
  }
}
