/**
 * The room the text printer asks for and the NULs it stores, as its checks have it: the NUL behind a piece is not
 * counted, except behind base64. `room` is what is left of the buffer.
 */
module MsgTextRoom {
  import opened Bytes
  import opened CText
  import opened MsgText
  import opened MsgTextCode
  import Base64

  // What fits ---------------------------------------------------------------------------------------------

  /** Tag, name and '=' */
  function NameLen(f: Field): nat {
    |TypeTag(f.value)| + |f.name| + 1
  }

  /** The tostring functions succeed. */
  predicate ValueFits(v: Value, depth: nat, room: nat) {
    match v
    case Str(s) => NUL !in s && |s| <= room
    case Bin(b) => Base64.StringLen(|b|) + 1 <= room
    case Compress(b) => Base64.StringLen(|b|) + 1 <= room
    case List(l) => l != [] && PackLength(l) <= room
    case Struct(m) => TextLen(m) <= room && ValueToText(v, depth).Some?
    case Uncompress(_) => false
  }

  lemma ValueFitsText(v: Value, depth: nat, room: nat)
    requires ValueFits(v, depth, room)
    ensures ValueToText(v, depth).Some? && |ValueToText(v, depth).value| <= TextValueLen(v) <= room
  {
    hide MsgToText, NlToSym, TextLen, Base64.Encode;
    TextShort(v, depth);
  }

  /** A whole line. */
  function LineLen(f: Field, depth: nat): nat
    requires ValueToText(f.value, depth).Some?
  {
    NameLen(f) + |ValueToText(f.value, depth).value| + 1
  }

  predicate FieldFits(f: Field, depth: nat, room: nat) {
    && NameLen(f) <= room
    && ValueFits(f.value, depth, room - NameLen(f))
    && (ValueFitsText(f.value, depth, room - NameLen(f)); LineLen(f, depth) <= room)
  }

  predicate FieldsFit(fs: seq<Field>, depth: nat, room: nat) {
    || fs == []
    || (FieldFits(fs[0], depth, room)
        && (ValueFitsText(fs[0].value, depth, room - NameLen(fs[0]));
            FieldsFit(fs[1..], depth, room - LineLen(fs[0], depth))))
  }

  /** The head line, the fields and the end line, and here the NUL is counted. */
  predicate Fits(m: Msg, depth: nat, len: nat) {
    && |MSG_START| <= len
    && FieldsFit(m.fields, depth, len - |MSG_START|)
    && (FieldsFitText(m.fields, depth, len - |MSG_START|);
        |MSG_START| + |FieldsToText(m.fields, depth).value| + |MSG_END| < len)
  }

  lemma {:induction false} FieldsFitText(fs: seq<Field>, depth: nat, room: nat)
    requires FieldsFit(fs, depth, room)
    ensures FieldsToText(fs, depth).Some? && |FieldsToText(fs, depth).value| <= room
    decreases |fs|
  {
    hide ValueToText, ValueFits, TypeTag;
    if fs != [] {
      ValueFitsText(fs[0].value, depth, room - NameLen(fs[0]));
      FieldsFitText(fs[1..], depth, room - LineLen(fs[0], depth));
    }
  }

  /** Each nested message gets the room predicted for it, at its place. */
  ghost predicate NestedFit(fs: seq<Field>, depth: nat, room: int)
    requires FieldsToText(fs, depth).Some?
  {
    || fs == []
    || (&& (fs[0].value.Struct? ==> NameLen(fs[0]) + TextLen(fs[0].value.m) <= room)
        && NestedFit(fs[1..], depth, room - LineLen(fs[0], depth)))
  }

  lemma FieldFitsExactly(f: Field, depth: nat, room: nat)
    requires ValueToText(f.value, depth).Some? && LineLen(f, depth) <= room
    ensures FieldFits(f, depth, room) <==> (f.value.Struct? ==> NameLen(f) + TextLen(f.value.m) <= room)
  {
    hide MsgToText, NlToSym, TextLen, Base64.Encode, Pack;
    if f.value.Bin? || f.value.Compress? {
      Base64.EncodeLength(f.value.b);
    }
  }

  lemma {:induction false} FieldsFitExactly(fs: seq<Field>, depth: nat, room: nat)
    requires FieldsToText(fs, depth).Some? && |FieldsToText(fs, depth).value| <= room
    ensures FieldsFit(fs, depth, room) <==> NestedFit(fs, depth, room)
    decreases |fs|
  {
    hide ValueToText, ValueFits, TypeTag, FieldFits, TextLen;
    if fs != [] {
      FieldFitsExactly(fs[0], depth, room);
      FieldsFitExactly(fs[1..], depth, room - LineLen(fs[0], depth));
    }
  }

  /**
   * A message fits exactly if its text and a NUL do, and each message nested in it gets the room predicted for it,
   * which is more than its text takes.
   */
  lemma FitsExactly(m: Msg, depth: nat, len: nat)
    ensures Fits(m, depth, len) <==>
      && MsgToText(m, depth).Some? && |MsgToText(m, depth).value| < len
      && NestedFit(m.fields, depth, len - |MSG_START|)
  {
    hide FieldsFit, FieldsToText, NestedFit;
    if |MSG_START| <= len && FieldsFit(m.fields, depth, len - |MSG_START|) {
      FieldsFitText(m.fields, depth, len - |MSG_START|);
    }
    if MsgToText(m, depth).Some? && |MsgToText(m, depth).value| < len {
      FieldsFitExactly(m.fields, depth, len - |MSG_START|);
    }
  }

  // What meets the end ------------------------------------------------------------------------------------

  /** An element of the list ends right at the end of the room. */
  predicate ListMeets(l: seq<bytes>, room: nat) {
    && l != [] && |PackOne(l[0])| <= room
    && (|PackOne(l[0])| == room || ListMeets(l[1..], room - |PackOne(l[0])|))
  }

  /** The NUL behind a string or a list element is stored behind the room; base64 and nested messages count theirs. */
  predicate ValueMeets(v: Value, room: nat) {
    match v
    case Str(s) => NUL !in s && |s| == room
    case List(l) => ListMeets(l, room)
    case _ => false
  }

  /** The NUL behind the tag, the '=', the value or the newline. */
  predicate FieldMeets(f: Field, depth: nat, room: nat) {
    || 0 < |TypeTag(f.value)| == room
    || NameLen(f) == room
    || (NameLen(f) < room && ValueMeets(f.value, room - NameLen(f)))
    || (FieldFits(f, depth, room) && (ValueFitsText(f.value, depth, room - NameLen(f)); LineLen(f, depth) == room))
  }

  predicate FieldsMeet(fs: seq<Field>, depth: nat, room: nat) {
    && fs != []
    && (|| FieldMeets(fs[0], depth, room)
        || (FieldFits(fs[0], depth, room)
            && (ValueFitsText(fs[0].value, depth, room - NameLen(fs[0]));
                FieldsMeet(fs[1..], depth, room - LineLen(fs[0], depth)))))
  }

  /** The NUL of the empty string stored first, or that behind the head line, a field's piece or the end line. */
  predicate Meets(m: Msg, depth: nat, len: nat) {
    || len == 0
    || len == |MSG_START|
    || (len > |MSG_START|
        && (|| FieldsMeet(m.fields, depth, len - |MSG_START|)
            || (FieldsFit(m.fields, depth, len - |MSG_START|)
                && (FieldsFitText(m.fields, depth, len - |MSG_START|);
                    |MSG_START| + |FieldsToText(m.fields, depth).value| + |MSG_END| == len))))
  }

  // The predicted room is enough --------------------------------------------------------------------------

  lemma {:induction false} ListMeetsInside(l: seq<bytes>, room: nat)
    requires ListMeets(l, room)
    ensures room <= PackLength(l)
    decreases |l|
  {
    hide Dec;
    if |PackOne(l[0])| < room {
      ListMeetsInside(l[1..], room - |PackOne(l[0])|);
    }
  }

  lemma ValuePredicted(v: Value, depth: nat, room: nat)
    requires TextValueLen(v) < room
    ensures ValueFits(v, depth, room) <==> ValueToText(v, depth).Some?
    ensures !ValueMeets(v, room)
  {
    hide MsgToText, NlToSym, TextLen, Base64.Encode, ListMeets, Pack;
    match v
    case List(l) => if ListMeets(l, room) { ListMeetsInside(l, room); }
    case _ =>
  }

  lemma FieldPredicted(f: Field, depth: nat, room: nat)
    requires TextFieldLen(f) < room
    ensures FieldFits(f, depth, room) <==> ValueToText(f.value, depth).Some?
    ensures !FieldMeets(f, depth, room)
    ensures ValueToText(f.value, depth).Some? ==> LineLen(f, depth) <= TextFieldLen(f)
  {
    hide ValueToText, ValueFits, ValueMeets, TextValueLen;
    ValuePredicted(f.value, depth, room - NameLen(f));
    TextShort(f.value, depth);
  }

  lemma {:induction false} FieldsPredicted(fs: seq<Field>, depth: nat, room: nat)
    requires TextFieldsLen(fs) < room
    ensures FieldsFit(fs, depth, room) <==> FieldsToText(fs, depth).Some?
    ensures !FieldsMeet(fs, depth, room)
    decreases |fs|
  {
    hide ValueToText, FieldFits, FieldMeets, LineLen, TextFieldLen;
    if fs != [] {
      FieldPredicted(fs[0], depth, room);
      if ValueToText(fs[0].value, depth).Some? {
        FieldsPredicted(fs[1..], depth, room - LineLen(fs[0], depth));
      }
    }
  }

  /** With the length that get_stringlen predicts, the message fits if it can be printed, and nothing meets the end. */
  lemma Predicted(m: Msg, depth: nat, len: nat)
    requires len >= TextLen(m)
    ensures Fits(m, depth, len) <==> MsgToText(m, depth).Some?
    ensures !Meets(m, depth, len)
  {
    hide FieldsToText, FieldsFit, FieldsMeet, TextFieldsLen;
    FieldsPredicted(m.fields, depth, len - |MSG_START|);
    if FieldsToText(m.fields, depth).Some? {
      FieldsExact(m.fields, depth);
    }
  }

  // Only calls that fail meet the end ---------------------------------------------------------------------

  lemma FieldMeetsLast(f: Field, depth: nat, room: nat)
    requires FieldMeets(f, depth, room) && FieldFits(f, depth, room)
    ensures ValueToText(f.value, depth).Some? && LineLen(f, depth) == room
  {
    hide MsgToText, NlToSym, TextLen, Base64.Encode, ListMeets, Pack;
    ValueFitsText(f.value, depth, room - NameLen(f));
    if f.value.List? && NameLen(f) < room && ListMeets(f.value.l, room - NameLen(f)) {
      ListMeetsInside(f.value.l, room - NameLen(f));
    }
  }

  lemma {:induction false} FieldsMeetLast(fs: seq<Field>, depth: nat, room: nat)
    requires FieldsMeet(fs, depth, room) && FieldsFit(fs, depth, room)
    ensures FieldsToText(fs, depth).Some? && |FieldsToText(fs, depth).value| == room
    decreases |fs|
  {
    hide ValueToText, FieldMeets, ValueFits, TypeTag;
    var f := fs[0];
    ValueFitsText(f.value, depth, room - NameLen(f));
    var rest := room - LineLen(f, depth);
    FieldsFitText(fs[1..], depth, rest);
    if FieldMeets(f, depth, room) {
      FieldMeetsLast(f, depth, room);
    } else {
      FieldsMeetLast(fs[1..], depth, rest);
    }
  }

  /** A call that clears the octet behind its buffer fails. */
  lemma MeetingFails(m: Msg, depth: nat, len: nat)
    requires Meets(m, depth, len)
    ensures !Fits(m, depth, len)
  {
    hide FieldsFit, FieldsMeet, FieldsToText;
    if Fits(m, depth, len) && FieldsMeet(m.fields, depth, len - |MSG_START|) {
      FieldsMeetLast(m.fields, depth, len - |MSG_START|);
    }
  }
}
