/** ha_msg values and their name=value text form. */
module MsgText {
  import opened Bytes
  import opened CText
  import Base64

  datatype Value =
    | Str(s: bytes)
    | Bin(b: bytes)
    | Struct(m: Msg)
    | List(l: seq<bytes>)
    | Compress(b: bytes)
    | Uncompress(m: Msg)

  datatype Field = Field(name: bytes, value: Value)

  datatype Msg = Msg(fields: seq<Field>)

  /** FT_STRING to FT_UNCOMPRESS */
  function TypeOf(v: Value): (t: nat)
    ensures t < 6
  {
    match v
    case Str(_) => 0
    case Bin(_) => 1
    case Struct(_) => 2
    case List(_) => 3
    case Compress(_) => 4
    case Uncompress(_) => 5
  }

  const MSG_START: bytes := [62, 62, 62, 10] // ">>>\n"
  const MSG_END: bytes := [60, 60, 60, 10]   // "<<<\n"
  const MAXDEPTH := 16

  /** SPECIAL_SYM stands for a newline in a string field. */
  const SPECIAL_SYM: byte := 19

  const SPECIAL_SYMS: bytes := [20, 21, 22, 23, 24, 25, 26, 27, 28, 29, 30, 31, 15, 16, 17, 18]

  /** SPECIAL_SYMS[depth] stands for a newline of a nested message. */
  function Sym(depth: nat): byte
    requires depth < MAXDEPTH
  {
    SPECIAL_SYMS[depth]
  }

  // Newline symbols ---------------------------------------------------------------------------------------

  /** convert_nl_sym(..., NL_TO_SYM): fails if the symbol is already there. */
  function NlToSym(s: bytes, sym: byte): (t: Option<bytes>)
    decreases |s|
  {
    if s == [] || s[0] == NUL then Some(s)
    else if s[0] != NL && s[0] == sym then None
    else
      var rest := NlToSym(s[1..], sym);
      if rest.None? then None else Some([if s[0] == NL then sym else s[0]] + rest.value)
  }

  /** convert_nl_sym(..., SYM_TO_NL) */
  function SymToNl(s: bytes, sym: byte): (t: bytes)
    ensures |t| == |s|
    decreases |s|
  {
    if s == [] || s[0] == NUL then s
    else [if s[0] == sym then NL else s[0]] + SymToNl(s[1..], sym)
  }

  /** The loop of str2string: every newline becomes SPECIAL_SYM. */
  function StrToText(s: bytes): (t: bytes)
    ensures |t| == |s|
    decreases |s|
  {
    if s == [] then [] else [if s[0] == NL then SPECIAL_SYM else s[0]] + StrToText(s[1..])
  }

  // Printing ----------------------------------------------------------------------------------------------

  function Tag(v: Value): (t: bytes)
    ensures |t| == 3
  {
    [LPAREN, 48 + TypeOf(v), RPAREN]
  }

  /** In the text form only a field that is not a string carries its type. */
  function TypeTag(v: Value): bytes {
    if v.Str? then [] else Tag(v)
  }

  /** A field's line in front of its newline: the value's text follows '='. */
  function LineOf(f: Field, text: bytes): bytes {
    TypeTag(f.value) + f.name + [EQUAL] + text
  }

  /** The tostring functions of the field types. */
  function ValueToText(v: Value, depth: nat): Option<bytes>
    decreases v, 0
  {
    match v
    case Str(s) => if NUL in s then None else Some(StrToText(s))
    case Bin(b) => Some(Base64.Encode(b))
    case Compress(b) => Some(Base64.Encode(b))
    case List(l) => if l == [] then None else Some(Pack(l))
    case Uncompress(_) => None
    case Struct(m) =>
      var t := MsgToText(m, depth + 1);
      if t.None? || depth >= MAXDEPTH then None else NlToSym(t.value, Sym(depth))
  }

  function FieldsToText(fs: seq<Field>, depth: nat): Option<bytes>
    decreases fs, 0
  {
    if fs == [] then Some([])
    else
      var v, rest := ValueToText(fs[0].value, depth), FieldsToText(fs[1..], depth);
      if v.None? || rest.None? then None
      else Some(LineOf(fs[0], v.value) + [NL] + rest.value)
  }

  /** msg2string_buf with NEEDHEAD */
  function MsgToText(m: Msg, depth: nat): Option<bytes>
    decreases m, 1
  {
    var t := FieldsToText(m.fields, depth);
    if t.None? then None else Some(MSG_START + t.value + MSG_END)
  }

  // Predicted lengths -------------------------------------------------------------------------------------

  /** The room the value of a field gets besides its tag, name, '=' and newline. */
  function TextValueLen(v: Value): nat
    decreases v, 0
  {
    match v
    case Str(s) => |s|
    case Bin(b) => Base64.StringLen(|b|)
    case Compress(b) => Base64.StringLen(|b|)
    case List(l) => PackLength(l)
    case Struct(m) => TextLen(m)
    case Uncompress(m) => TextLen(m)
  }

  /** The stringlen functions of the field types */
  function TextFieldLen(f: Field): nat
    decreases f, 1
  {
    (if f.value.Str? then 0 else 3) + |f.name| + TextValueLen(f.value) + 2
  }

  function TextFieldsLen(fs: seq<Field>): nat
    decreases fs, 0
  {
    if fs == [] then 0 else TextFieldLen(fs[0]) + TextFieldsLen(fs[1..])
  }

  /** get_stringlen, which counts the terminating NUL of each nested message too */
  function TextLen(m: Msg): nat
    decreases m, 1
  {
    |MSG_START| + |MSG_END| + 1 + TextFieldsLen(m.fields)
  }

  // Parsing -----------------------------------------------------------------------------------------------

  /** The stringtofield functions of the field types. A base64 error is taken as a failure. */
  function TextToValue(t: nat, text: bytes, depth: nat): (v: Option<Value>)
    ensures v.Some? ==> TypeOf(v.value) == t
    decreases |text|, 4
  {
    if t == 0 then Some(Str(SymToNl(text, SPECIAL_SYM)))
    else if t == 1 || t == 4 then
      var b := if |text| % 4 == 0 then Base64.Decode(text) else None;
      if b.None? then None else Some(if t == 1 then Bin(b.value) else Compress(b.value))
    else if t == 2 then
      if depth >= MAXDEPTH then None
      else
        var m := TextToMsg(SymToNl(text, Sym(depth)), depth + 1);
        if m.None? then None else Some(Struct(m.value))
    else if t == 3 then
      var l := Unpack(text, 0, |text|, []);
      if l.None? || l.value == [] then None else Some(List(l.value))
    else None
  }

  /** add_string_field: a name "(t)name" carries a field of type t. */
  function AddStringField(fs: seq<Field>, name: bytes, text: bytes, depth: nat): (r: Option<seq<Field>>)
    requires name != []
    decreases |text|, 5
  {
    if name[0] != LPAREN then
      var v := TextToValue(0, text, depth);
      if v.None? then None else Some(fs + [Field(name, v.value)])
    else if |name| < 3 || name[2] != RPAREN || !IsDigit(name[1]) || name[1] == 48 then None
    else
      var v := TextToValue(Digit(name[1]), text, depth);
      if v.None? then None else Some(fs + [Field(name[3..], v.value)])
  }

  /** ha_msg_add_nv_depth on the line at s + p */
  function AddNv(fs: seq<Field>, s: bytes, p: nat, depth: nat): (r: Option<seq<Field>>)
    decreases |s|, 1
  {
    var n := Cspn(s, p, EQUAL);
    if n == 0 || At(s, p + n) != EQUAL then None
    else
      var v := p + n + 1;
      if v >= |s| then None
      else
        var k := Cspn(s, v, NL);
        if v + k >= |s| then None
        else if StartsAt(s[p..p + n], 0, MSG_START) then None
        else AddStringField(fs, s[p..p + n], s[v..v + k], depth)
  }

  /** The loop of string2msg_ll */
  function TextLoop(fs: seq<Field>, s: bytes, p: nat, depth: nat): (r: Option<seq<Field>>)
    decreases |s|, 2, |s| - p
  {
    if At(s, p) == NUL || StartsAt(s, p, MSG_END) then Some(fs)
    else
      var q := p + Spn(s, p, NL);
      if q >= |s| then None
      else if StartsAt(s, q, MSG_END) then Some(fs)
      else
        var next := AddNv(fs, s, q, depth);
        if next.None? then None
        else TextLoop(next.value, s, q + Cspn(s, q, NL), depth)
  }

  /** string2msg_ll without authentication */
  function TextToMsg(s: bytes, depth: nat): (r: Option<Msg>)
    decreases |s|, 3
  {
    if !StartsAt(s, 0, MSG_START) then None
    else
      var fs := TextLoop([], s, |MSG_START|, depth);
      if fs.None? then None else Some(Msg(fs.value))
  }
}
