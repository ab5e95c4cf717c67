/** The text form's functions as they run: in-place symbol conversion, and printer and parser loops. */
module MsgTextCode {
  import opened Bytes
  import opened CText
  import opened MsgText
  import Base64

  // Newline symbols ---------------------------------------------------------------------------------------

  lemma SymToNlFrom(t: bytes, i: nat, sym: byte)
    requires i < |t| && t[i] != NUL
    ensures SymToNl(t[i..], sym) == [if t[i] == sym then NL else t[i]] + SymToNl(t[i + 1..], sym)
  {
    assert t[i..][1..] == t[i + 1..];
  }

  lemma SymToNlStops(t: bytes, i: nat, sym: byte)
    requires i <= |t| && (i == |t| || t[i] == NUL)
    ensures SymToNl(t[i..], sym) == t[i..]
  {
  }

  /** convert_nl_sym(s, s.Length, sym, SYM_TO_NL), in place */
  method ConvertSymToNl(s: array<byte>, sym: byte)
    modifies s
    ensures s[..] == SymToNl(old(s[..]), sym)
  {
    hide SymToNl;
    ghost var t := s[..];
    var i := 0;
    assert t[0..] == t;
    while i < s.Length && s[i] != NUL
      invariant 0 <= i <= s.Length
      invariant s[i..] == t[i..]
      invariant s[..i] + SymToNl(t[i..], sym) == SymToNl(t, sym)
    {
      ghost var done := s[..i];
      assert s[i] == s[i..][0];
      SymToNlFrom(t, i, sym);
      if s[i] == sym {
        s[i] := NL;
      }
      i := i + 1;
      assert s[..i] == done + [s[i - 1]];
    }
    SymToNlStops(t, i, sym) by { assert i < s.Length ==> s[i] == s[i..][0]; }
    assert s[..] == s[..i] + s[i..];
  }

  /** `done` in front of a converted rest; None is a failure. */
  function Joined(done: bytes, rest: Option<bytes>): Option<bytes> {
    if rest.None? then None else Some(done + rest.value)
  }

  lemma JoinedSnoc(done: bytes, c: byte, rest: Option<bytes>)
    ensures Joined(done, Joined([c], rest)) == Joined(done + [c], rest)
  {
    if rest.Some? {
      assert done + ([c] + rest.value) == (done + [c]) + rest.value;
    }
  }

  lemma NlToSymFrom(t: bytes, i: nat, sym: byte)
    requires i < |t| && t[i] != NUL
    ensures NlToSym(t[i..], sym) ==
            if t[i] != NL && t[i] == sym then None
            else Joined([if t[i] == NL then sym else t[i]], NlToSym(t[i + 1..], sym))
  {
    assert t[i..][1..] == t[i + 1..];
  }

  lemma NlToSymStops(t: bytes, i: nat, sym: byte)
    requires i <= |t| && (i == |t| || t[i] == NUL)
    ensures NlToSym(t[i..], sym) == Some(t[i..])
  {
  }

  /** convert_nl_sym(s + at, n, sym, NL_TO_SYM), in place; HA_FAIL if the symbol is met. */
  method ConvertNlToSym(s: array<byte>, at: nat, n: nat, sym: byte) returns (ok: bool)
    requires at + n <= s.Length
    modifies s
    ensures s[..at] == old(s[..at]) && s[at + n..] == old(s[at + n..])
    ensures ok <==> NlToSym(old(s[at..at + n]), sym).Some?
    ensures ok ==> NlToSym(old(s[at..at + n]), sym) == Some(s[at..at + n])
  {
    hide NlToSym, Joined;
    ghost var t := s[at..at + n];
    var i := 0;
    JoinedNone(NlToSym(t, sym));
    assert t[0..] == t && s[at..at] == [];
    while i < n && s[at + i] != NUL
      invariant 0 <= i <= n
      invariant s[..at] == old(s[..at]) && s[at + n..] == old(s[at + n..])
      invariant forall k | at + i <= k < at + n :: s[k] == t[k - at]
      invariant NlToSym(t, sym) == Joined(s[at..at + i], NlToSym(t[i..], sym))
    {
      ghost var done := s[at..at + i];
      NlToSymFrom(t, i, sym);
      if s[at + i] == NL {
        s[at + i] := sym;
      } else if s[at + i] == sym {
        FailedJoin(done);
        return false;
      }
      JoinedSnoc(done, s[at + i], NlToSym(t[i + 1..], sym));
      i := i + 1;
      assert s[at..at + i] == done + [s[at + i - 1]];
    }
    NlToSymStops(t, i, sym);
    assert s[at + i..at + n] == t[i..];
    WholeJoin(s[at..at + i], t[i..]);
    assert s[at..at + n] == s[at..at + i] + s[at + i..at + n];
    return true;
  }

  lemma JoinedNone(rest: Option<bytes>)
    ensures Joined([], rest) == rest
  {
    if rest.Some? {
      assert [] + rest.value == rest.value;
    }
  }

  lemma FailedJoin(done: bytes)
    ensures Joined(done, None).None?
  {
  }

  lemma WholeJoin(done: bytes, rest: bytes)
    ensures Joined(done, Some(rest)) == Some(done + rest)
  {
  }

  /** string_list_unpack */
  method StringListUnpack(s: bytes, p: nat, max: nat) returns (r: Option<seq<bytes>>)
    ensures r == Unpack(s, p, max, [])
  {
    hide Cspn, ScanInt, Cut, Slice;
    var list, psl := [], p;
    while At(s, psl) != NUL && psl < max
      invariant Unpack(s, p, max, []) == Unpack(s, psl, max, list)
      decreases max - psl
    {
      var len := ScanInt(s, psl);
      if len.None? {
        return Some(list);
      }
      if len.value <= 0 {
        return None;
      }
      var colon := psl + Cspn(s, psl, COLON);
      if At(s, colon) == NUL {
        return Some(list);
      }
      list := list + [Cut(Slice(s, colon + 1, len.value))];
      psl := colon + 1 + len.value + 1;
    }
    return Some(list);
  }

  /** string2msg_ll without authentication */
  method String2Msg(s: bytes, depth: nat) returns (r: Option<Msg>)
    ensures r == TextToMsg(s, depth)
  {
    hide Cspn, Spn, AddNv, StartsAt;
    if !StartsAt(s, 0, MSG_START) {
      return None;
    }
    var fs, sp := [], |MSG_START|;
    while At(s, sp) != NUL && !StartsAt(s, sp, MSG_END)
      invariant TextLoop([], s, |MSG_START|, depth) == TextLoop(fs, s, sp, depth)
      decreases |s| - sp
    {
      var q := sp + Spn(s, sp, NL);
      if q >= |s| {
        return None;
      }
      if StartsAt(s, q, MSG_END) {
        break;
      }
      var next := AddNv(fs, s, q, depth);
      if next.None? {
        return None;
      }
      fs, sp := next.value, q + Cspn(s, q, NL);
    }
    return Some(Msg(fs));
  }

  // Printing ----------------------------------------------------------------------------------------------

  lemma FieldsTextFrom(fs: seq<Field>, j: nat, depth: nat)
    requires j < |fs|
    ensures var v := ValueToText(fs[j].value, depth);
      FieldsToText(fs[j..], depth) ==
      if v.None? then None else Joined(LineOf(fs[j], v.value) + [NL], FieldsToText(fs[j + 1..], depth))
    ensures TextFieldsLen(fs[j..]) == TextFieldLen(fs[j]) + TextFieldsLen(fs[j + 1..])
  {
    hide ValueToText, LineOf, TextFieldLen;
    assert fs[j..][1..] == fs[j + 1..];
  }

  lemma FieldsTextEnd(depth: nat)
    ensures FieldsToText([], depth) == Some([]) && TextFieldsLen([]) == 0
  {
  }

  lemma JoinedJoined(a: bytes, b: bytes, rest: Option<bytes>)
    ensures Joined(a, Joined(b, rest)) == Joined(a + b, rest)
  {
    if rest.Some? {
      assert a + (b + rest.value) == (a + b) + rest.value;
    }
  }

  lemma {:induction false} NlToSymLength(t: bytes, sym: byte)
    ensures NlToSym(t, sym).Some? ==> |NlToSym(t, sym).value| == |t|
    decreases |t|
  {
    if t != [] {
      NlToSymLength(t[1..], sym);
    }
  }

  /** How many nested messages a value holds, at all depths. */
  function Structs(v: Value): nat
    decreases v, 0
  {
    match v
    case Struct(m) => 1 + StructsIn(m.fields)
    case _ => 0
  }

  function StructsIn(fs: seq<Field>): nat
    decreases fs, 1
  {
    if fs == [] then 0 else Structs(fs[0].value) + StructsIn(fs[1..])
  }

  /** The room predicted for a value is its text and one octet for each message nested in it. */
  lemma {:induction false} TextExact(v: Value, depth: nat)
    requires ValueToText(v, depth).Some?
    ensures TextValueLen(v) == |ValueToText(v, depth).value| + Structs(v)
    decreases v, 0
  {
    hide NlToSym, Pack, FieldsToText, TextFieldsLen, StructsIn;
    match v
    case Str(_) =>
    case Bin(b) => Base64.EncodeLength(b);
    case Compress(b) => Base64.EncodeLength(b);
    case List(_) =>
    case Struct(m) =>
      NlToSymLength(MsgToText(m, depth + 1).value, Sym(depth));
      FieldsExact(m.fields, depth + 1);
  }

  lemma {:induction false} FieldsExact(fs: seq<Field>, depth: nat)
    requires FieldsToText(fs, depth).Some?
    ensures TextFieldsLen(fs) == |FieldsToText(fs, depth).value| + StructsIn(fs)
    decreases fs, 1
  {
    hide ValueToText, TextValueLen, Structs;
    if fs != [] {
      TextExact(fs[0].value, depth);
      FieldsExact(fs[1..], depth);
    }
  }

  lemma TextShort(v: Value, depth: nat)
    ensures ValueToText(v, depth).Some? ==> |ValueToText(v, depth).value| <= TextValueLen(v)
  {
    hide ValueToText, TextValueLen;
    if ValueToText(v, depth).Some? {
      TextExact(v, depth);
    }
  }

  /** get_stringlen is the text, its NUL and one octet for each nested message. */
  lemma MsgTextLength(m: Msg, depth: nat)
    requires MsgToText(m, depth).Some?
    ensures TextLen(m) == |MsgToText(m, depth).value| + 1 + StructsIn(m.fields)
  {
    hide FieldsToText, TextFieldsLen;
    FieldsExact(m.fields, depth);
  }
}
