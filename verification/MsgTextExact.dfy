/** When the text of a message gives the message back: if and only if the message is printable and readable. */
module MsgTextExact {
  import opened Bytes
  import opened CText
  import opened MsgText
  import opened MsgTextProof
  import opened MsgTextLines
  import Base64
  import NetstringProof

  ghost predicate ReadableValue(v: Value, depth: nat)
    decreases v, 0
  {
    match v
    case Str(s) => SPECIAL_SYM !in s
    case Bin(_) => true
    case Compress(_) => true
    case List(l) => l != [] && forall i | 0 <= i < |l| :: l[i] != [] && NL !in l[i]
    case Struct(m) => Readable(m.fields, depth + 1)
    case Uncompress(_) => false
  }

  /**
   * What the parser asks of the fields of a message nested `depth` deep. The first field with a newline in its name
   * must hold the end of the message there, and then the fields behind it are those echoed by its name.
   */
  ghost predicate Readable(fs: seq<Field>, depth: nat)
    decreases fs, 0
  {
    fs == [] || (
      && FitsLine(fs[0])
      && ReadableValue(fs[0].value, depth)
      && if NL !in Label(fs[0]) then Readable(fs[1..], depth)
         else ValueToText(fs[0].value, depth).Some? &&
              Echoed(Label(fs[0]), ValueToText(fs[0].value, depth).value, fs[1..], depth))
  }

  // Values ------------------------------------------------------------------------------------------------

  lemma {:induction false} StrIsLine(s: bytes)
    requires NUL !in s
    ensures Line(StrToText(s))
    decreases |s|
  {
    if s != [] {
      StrIsLine(s[1..]);
    }
  }

  /** The string symbol is read back as a newline. */
  lemma {:induction false} SymbolLost(s: bytes, i: nat)
    requires NUL !in s && i < |s| && s[i] == SPECIAL_SYM
    ensures SymToNl(StrToText(s), SPECIAL_SYM)[i] == NL
    decreases i
  {
    var t := StrToText(s);
    assert t[1..] == StrToText(s[1..]);
    if i > 0 {
      SymbolLost(s[1..], i - 1);
    }
  }

  lemma StrExact(s: bytes)
    requires NUL !in s
    ensures SymToNl(StrToText(s), SPECIAL_SYM) == s <==> SPECIAL_SYM !in s
  {
    hide SymToNl, StrToText;
    if SPECIAL_SYM in s {
      var i :| 0 <= i < |s| && s[i] == SPECIAL_SYM;
      SymbolLost(s, i);
    } else {
      StrBack(s);
    }
  }

  lemma {:induction false} PackLine(l: seq<bytes>)
    requires forall i | 0 <= i < |l| :: NL !in l[i]
    ensures NL !in Pack(l)
    decreases |l|
  {
    hide Dec;
    if l != [] {
      PackLine(l[1..]);
      DecPrinted(|l[0]|);
      assert NL !in PackOne(l[0]);
    }
  }

  lemma {:induction false} PackHasNl(l: seq<bytes>, i: nat)
    requires i < |l| && NL in l[i]
    ensures NL in Pack(l)
    decreases i
  {
    hide Dec;
    if i == 0 {
      assert NL in PackOne(l[0]);
    } else {
      PackHasNl(l[1..], i - 1);
    }
  }

  lemma ListTextExact(l: seq<bytes>, depth: nat)
    requires (forall i | 0 <= i < |l| :: NUL !in l[i]) && l != [] && NL !in Pack(l)
    ensures TextToValue(3, Pack(l), depth) == Some(List(l)) <==> ReadableValue(List(l), depth)
  {
    hide Pack, Unpack;
    NetstringProof.ListExact(Pack(l), 0, l);
    forall i | 0 <= i < |l|
      ensures NL !in l[i]
    {
      if NL in l[i] {
        PackHasNl(l, i);
      }
    }
  }

  /** A value prints on one line unless a list element holds a newline. */
  lemma TextIsLine(v: Value, depth: nat)
    requires CValue(v) && OneLine(v) && ValueToText(v, depth).Some?
    ensures Line(ValueToText(v, depth).value)
  {
    hide MsgToText, StrToText, NlToSym, Pack, Base64.Encode;
    ValueNoNul(v, depth);
    match v
    case Str(s) => StrIsLine(s);
    case Bin(b) => EncodePrinted(b);
    case Compress(b) => EncodePrinted(b);
    case List(l) => PackLine(l);
    case Struct(m) =>
      MsgNoNul(m, depth + 1);
      SymsDiffer(depth, depth);
      Unescape(MsgToText(m, depth + 1).value, Sym(depth));
  }

  /** A value printed on one line is read back if and only if it is readable. */
  lemma {:induction false} ValueExact(v: Value, depth: nat)
    requires CValue(v) && ValueToText(v, depth).Some? && Line(ValueToText(v, depth).value)
    ensures TextToValue(TypeOf(v), ValueToText(v, depth).value, depth) == Some(v) <==> ReadableValue(v, depth)
    decreases v, 0
  {
    hide TextToMsg, MsgToText, StrToText, SymToNl, NlToSym, Pack, Unpack, Base64.Encode, Base64.Decode, Readable;
    match v
    case Str(s) => StrExact(s);
    case Bin(b) => Base64.RoundTrip(b);
    case Compress(b) => Base64.RoundTrip(b);
    case List(l) => ListTextExact(l, depth);
    case Struct(m) =>
      var t := MsgToText(m, depth + 1).value;
      MsgNoNul(m, depth + 1);
      SymsDiffer(depth, depth);
      Unescape(t, Sym(depth));
      MsgExact(m, [], depth + 1);
      assert t + [] == t;
  }

  // Fields ------------------------------------------------------------------------------------------------

  /** The line of a field is taken as that field if its value is read back; otherwise the loop gives something else. */
  lemma FieldExact(acc: seq<Field>, s: bytes, p: nat, q: nat, f: Field, rest: seq<Field>, depth: nat)
    requires OnLine(f, depth) && StartsAt(s, q, LineOf(f, ValueToText(f.value, depth).value) + [NL])
    requires p <= q && forall i | p <= i < q :: At(s, i) == NL
    ensures var t := ValueToText(f.value, depth).value;
      if TextToValue(TypeOf(f.value), t, depth) == Some(f.value)
      then TextLoop(acc, s, p, depth) == TextLoop(acc + [f], s, q + MsgTextLines.Onward(Label(f), t), depth)
      else TextLoop(acc, s, p, depth) != Some(acc + [f] + rest)
    ensures At(s, q + MsgTextLines.Onward(Label(f), ValueToText(f.value, depth).value)) == NL
  {
    hide TextLoop, ValueToText, TextToValue, AddStringField, LineAt, StartsAt, FitsLine, Label, MsgTextLines.Onward;
    var t := ValueToText(f.value, depth).value;
    OnLineAt(s, q, f, depth);
    FitsLabel(f);
    LineTaken(acc, s, p, q, Label(f), t, depth);
    if TextToValue(TypeOf(f.value), t, depth) == Some(f.value) {
      StrName(f);
      AddedBack(acc, f, t, depth);
    } else if AddStringField(acc, Label(f), t, depth).Some? {
      var g := AddedLabel(acc, Label(f), t, depth);
      LoopRange(acc + [g], s, q + MsgTextLines.Onward(Label(f), t), depth);
      assert (acc + [g])[|acc|] == g && (acc + [f] + rest)[|acc|] == f;
    }
  }

  lemma LoopEnds(acc: seq<Field>, s: bytes, p: nat, q: nat, depth: nat)
    requires StartsAt(s, q, MSG_END) && p <= q && forall i | p <= i < q :: At(s, i) == NL
    ensures TextLoop(acc, s, p, depth) == Some(acc)
  {
    hide TextLoop;
    Pointwise(s, q, MSG_END);
    LoopTurn(acc, s, p, q, depth);
  }

  /** Fields that come back fit their lines, one line each, and none but the last of the lines holds a newline. */
  lemma ComingBack(acc: seq<Field>, s: bytes, p: nat, q: nat, fs: seq<Field>, depth: nat)
    requires CFields(fs) && FieldsToText(fs, depth).Some?
    requires StartsAt(s, q, FieldsToText(fs, depth).value + MSG_END)
    requires p <= q && forall i | p <= i < q :: At(s, i) == NL
    requires TextLoop(acc, s, p, depth) == Some(acc + fs)
    ensures (forall i | 0 <= i < |fs| :: OnLine(fs[i], depth)) && !Broken(fs)
  {
    hide TextLoop, FieldsToText, ValueToText, FitsLine, OneLine, Line, Lead, Broken, StartsAt;
    LoopRange(acc, s, p, depth);
    forall i | 0 <= i < |fs|
      ensures OnLine(fs[i], depth)
    {
      assert (acc + fs)[|acc| + i] == fs[i];
      assert CField(fs[i]);
      FieldPrinted(fs, i, depth);
      TextIsLine(fs[i].value, depth);
    }
    LoopLead(acc, s, p, q, fs, depth);
    assert (acc + fs)[|acc|..] == fs;
  }

  lemma {:induction false} FieldPrinted(fs: seq<Field>, i: nat, depth: nat)
    requires FieldsToText(fs, depth).Some? && i < |fs|
    ensures ValueToText(fs[i].value, depth).Some?
    decreases i
  {
    hide ValueToText;
    if i > 0 {
      FieldPrinted(fs[1..], i - 1, depth);
    }
  }

  lemma ReadableOnLine(f: Field, depth: nat)
    requires CField(f) && FitsLine(f) && ReadableValue(f.value, depth) && ValueToText(f.value, depth).Some?
    ensures OnLine(f, depth)
  {
    hide ValueToText, Readable, FitsLine;
    TextIsLine(f.value, depth);
  }

  /** From newlines in front of the printed fields on, the loop adds exactly these if and only if they are readable. */
  lemma {:induction false} FieldsExact(acc: seq<Field>, s: bytes, p: nat, q: nat, fs: seq<Field>, depth: nat)
    requires CFields(fs) && FieldsToText(fs, depth).Some?
    requires StartsAt(s, q, FieldsToText(fs, depth).value + MSG_END)
    requires p <= q && forall i | p <= i < q :: At(s, i) == NL
    ensures TextLoop(acc, s, p, depth) == Some(acc + fs) <==> Readable(fs, depth)
    decreases fs, 1
  {
    hide TextLoop, FieldsToText, LineOf, ValueToText, FitsLine, StartsAt, ReadableValue, Echoed, Ended, Label, OnLine;
    FieldsTextCases(fs, depth);
    if fs == [] {
      assert [] + MSG_END == MSG_END;
      LoopEnds(acc, s, p, q, depth);
      assert acc + fs == acc;
    } else {
      if TextLoop(acc, s, p, depth) == Some(acc + fs) {
        ComingBack(acc, s, p, q, fs, depth);
      }
      assert CField(fs[0]);
      if OnLine(fs[0], depth) {
        FieldsStep(acc, s, p, q, fs, depth);
      } else if FitsLine(fs[0]) && ReadableValue(fs[0].value, depth) {
        ReadableOnLine(fs[0], depth);
      }
    }
  }

  lemma {:induction false} FieldsStep(acc: seq<Field>, s: bytes, p: nat, q: nat, fs: seq<Field>, depth: nat)
    requires CFields(fs) && fs != [] && FieldsToText(fs, depth).Some? && OnLine(fs[0], depth)
    requires StartsAt(s, q, FieldsToText(fs, depth).value + MSG_END)
    requires p <= q && forall i | p <= i < q :: At(s, i) == NL
    requires TextLoop(acc, s, p, depth) == Some(acc + fs) ==> !Broken(fs)
    ensures TextLoop(acc, s, p, depth) == Some(acc + fs) <==> Readable(fs, depth)
    decreases fs, 0
  {
    hide TextLoop, FieldsToText, LineOf, ValueToText, FitsLine, StartsAt, ReadableValue, Echoed, Ended, Label, LineAt;
    var f := fs[0];
    FieldsTextCases(fs, depth);
    var t, rest := ValueToText(f.value, depth).value, FieldsToText(fs[1..], depth).value;
    assert FieldsToText(fs, depth).value + MSG_END == (LineOf(f, t) + [NL]) + (rest + MSG_END);
    StartsAtSplit(s, q, LineOf(f, t) + [NL], rest + MSG_END);
    assert acc + [f] + fs[1..] == acc + fs;
    assert CField(f);
    ValueExact(f.value, depth);
    FieldExact(acc, s, p, q, f, fs[1..], depth);
    if ReadableValue(f.value, depth) {
      if NL in Label(f) {
        OnLineAt(s, q, f, depth);
        LabelExact(acc + [f], s, q, Label(f), t, fs[1..], depth);
      } else {
        CFieldsTail(fs);
        LineLength(f, t);
        var n := q + |LineOf(f, t)|;
        FieldsExact(acc + [f], s, n, n + 1, fs[1..], depth);
      }
    }
  }

  /** The fields read from the further lines of a label, where it holds the end of the message. */
  lemma LabelExact(acc: seq<Field>, s: bytes, q: nat, n: bytes, t: bytes, gs: seq<Field>, depth: nat)
    requires LineAt(s, q, n, t) && NL in n
    ensures Ended(n) ==> (TextLoop(acc, s, q + FirstNl(n), depth) == Some(acc + gs) <==> Echoed(n, t, gs, depth))
    ensures Echoed(n, t, gs, depth) ==> Ended(n)
  {
    hide TextLoop, Echoed, Ended, LineAt;
    if Ended(n) {
      LabelEcho(acc, s, q, n, t, gs, depth);
    } else if Echoed(n, t, gs, depth) {
      EchoedEnds(n, t, gs, depth);
    }
  }

  // Messages ----------------------------------------------------------------------------------------------

  /** A printed message is parsed back, whatever follows it, if and only if it is readable. */
  lemma {:induction false} MsgExact(m: Msg, suffix: bytes, depth: nat)
    requires CFields(m.fields) && MsgToText(m, depth).Some?
    ensures TextToMsg(MsgToText(m, depth).value + suffix, depth) == Some(m) <==> Readable(m.fields, depth)
    decreases m, 2
  {
    hide TextLoop, FieldsToText, CFields, Readable;
    var t := FieldsToText(m.fields, depth).value;
    var s := MsgToText(m, depth).value + suffix;
    assert s == (MSG_START + (t + MSG_END)) + suffix;
    assert StartsAt(s, 0, MSG_START + (t + MSG_END));
    StartsAtSplit(s, 0, MSG_START, t + MSG_END);
    FieldsExact([], s, 4, 4, m.fields, depth);
    assert [] + m.fields == m.fields;
  }

  /** A message of C strings is printed and parsed back, whatever follows, exactly if it is printable and readable. */
  lemma BackExactly(m: Msg, suffix: bytes)
    requires CFields(m.fields)
    ensures (MsgToText(m, 0).Some? && TextToMsg(MsgToText(m, 0).value + suffix, 0) == Some(m)) <==>
            Printable(m, 0) && Readable(m.fields, 0)
  {
    hide CFields, Readable, Printable, TextToMsg, MsgToText;
    MsgPrints(m, 0);
    if MsgToText(m, 0).Some? {
      MsgExact(m, suffix, 0);
    }
  }

  /** Without newlines in names, each field is readable on its own. */
  lemma {:induction false} ReadableEach(fs: seq<Field>, depth: nat)
    requires forall i | 0 <= i < |fs| :: NL !in fs[i].name
    ensures Readable(fs, depth) <==> forall i | 0 <= i < |fs| :: FitsLine(fs[i]) && ReadableValue(fs[i].value, depth)
    decreases |fs|
  {
    hide FitsLine, ReadableValue, Echoed, ValueToText;
    if fs != [] {
      assert NL !in Label(fs[0]);
      ReadableEach(fs[1..], depth);
      assert forall i | 1 <= i < |fs| :: fs[i] == fs[1..][i - 1];
      assert forall i | 0 <= i < |fs[1..]| :: fs[1..][i] == fs[i + 1];
    }
  }

  lemma {:induction false} FirstNlIs(a: bytes, b: bytes)
    requires NL !in a
    ensures FirstNl(a + [NL] + b) == |a|
    decreases |a|
  {
    var n := a + [NL] + b;
    if a != [] {
      assert n[0] == a[0] && a[0] in a;
      assert n[1..] == a[1..] + [NL] + b;
      FirstNlIs(a[1..], b);
    }
  }

  lemma NextIs(a: bytes, r: bytes)
    requires NL !in a && r != [] && r[0] != NL
    ensures Next(a + [NL] + r) == r
  {
    var n := a + [NL] + r;
    FirstNlIs(a, r);
    assert n[|a|] == NL;
    var m := n[|a|..];
    assert m == [NL] + r && m[1..] == r;
    assert SkipNl(m) == 1 + SkipNl(r) == 1;
  }

  /** Two fields that come back although the first name holds newlines: it holds the second name and the end as well. */
  lemma NewlineNames(v: bytes, suffix: bytes)
    requires NUL !in v && SPECIAL_SYM !in v
    ensures var end := [NL] + MSG_END;
      var m := Msg([Field([97, NL, 98] + end, Str(v)), Field([98] + end, Str(v))]);
      MsgToText(m, 0).Some? && TextToMsg(MsgToText(m, 0).value + suffix, 0) == Some(m)
  {
    hide TextToMsg, MsgToText, StrToText, Echoed;
    var f, g := Field([97, NL, 98] + ([NL] + MSG_END), Str(v)), Field([98] + ([NL] + MSG_END), Str(v));
    var m := Msg([f, g]);
    assert CField(f) && CField(g) && PrintableField(f, 0) && PrintableField(g, 0);
    NewlineNamesEcho(f, g, v);
    assert m.fields[1..] == [g] && Label(f) == f.name;
    BackExactly(m, suffix);
  }

  lemma NewlineNamesEcho(f: Field, g: Field, v: bytes)
    requires NUL !in v && SPECIAL_SYM !in v
    requires f == Field([97, NL, 98] + ([NL] + MSG_END), Str(v)) && g == Field([98] + ([NL] + MSG_END), Str(v))
    ensures FitsLine(f) && Echoed(f.name, StrToText(v), [g], 0)
  {
    hide StrToText, Next, Echoed, FitsLine;
    NamesSplit(f.name, g.name);
    LineInFront([97], g.name);
    LineInFront([98], MSG_END);
    PlainStart(f);
    PlainStart(g);
    EchoLast(g.name, StrToText(v), 0);
    EchoOne(f.name, g, v);
  }

  lemma NamesSplit(a: bytes, b: bytes)
    requires a == [97, NL, 98] + ([NL] + MSG_END) && b == [98] + ([NL] + MSG_END)
    ensures a == [97] + [NL] + b && b == [98] + [NL] + MSG_END && a[0] == 97 && b[0] == 98
    ensures EQUAL !in a && EQUAL !in b
  {
  }

  lemma LineInFront(a: bytes, r: bytes)
    requires NL !in a && r != [] && r[0] != NL
    ensures NL in a + [NL] + r && Next(a + [NL] + r) == r
  {
    assert (a + [NL] + r)[|a|] == NL;
    NextIs(a, r);
  }

  lemma PlainStart(f: Field)
    requires f.value.Str? && EQUAL !in f.name && f.name != [] && f.name[0] >= 97
    ensures FitsLine(f)
  {
    hide StartsAt;
    Mismatch(f.name, 0, MSG_END, 0);
    Mismatch(f.name, 0, MSG_START, 0);
  }

  lemma EchoLast(n: bytes, t: bytes, depth: nat)
    requires NL in n && Next(n) == MSG_END
    ensures Echoed(n, t, [], depth)
  {
    hide Next;
    assert MSG_END[0..4] == MSG_END;
  }

  lemma EchoOne(n: bytes, g: Field, v: bytes)
    requires NL in n && Next(n) == g.name && NL in g.name && FitsLine(g)
    requires g.value == Str(v) && NUL !in v && SPECIAL_SYM !in v && Echoed(g.name, StrToText(v), [], 0)
    ensures Echoed(n, StrToText(v), [g], 0)
  {
    hide Next, StrToText, TextToValue, StartsAt, FitsLine;
    StrReads(v);
    FitsLabel(g);
    assert Label(g) == g.name && [g][1..] == [];
  }

  lemma StrReads(v: bytes)
    requires NUL !in v && SPECIAL_SYM !in v
    ensures TextToValue(TypeOf(Str(v)), StrToText(v), 0) == Some(Str(v))
  {
    hide StrToText, SymToNl;
    StrBack(v);
  }
}
