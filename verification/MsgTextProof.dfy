/** Which messages can be printed as text: those whose strings avoid the newline symbols of the depths around them. */
module MsgTextProof {
  import opened Bytes
  import opened CText
  import opened MsgText
  import Base64

  /** No octet of b is the newline symbol of a depth above `depth`. */
  ghost predicate Avoids(b: bytes, depth: nat) {
    forall k | 0 <= k < depth && k < MAXDEPTH :: Sym(k) !in b
  }

  ghost predicate Line(b: bytes) {
    NUL !in b && NL !in b
  }

  ghost predicate PrintableValue(v: Value, depth: nat)
    decreases v, 0
  {
    match v
    case Str(s) => NUL !in s && Avoids(s, depth)
    case Bin(_) => true
    case Compress(_) => true
    case List(l) => l != [] && forall i | 0 <= i < |l| :: Avoids(l[i], depth)
    case Struct(m) => depth < MAXDEPTH && Printable(m, depth + 1)
    case Uncompress(_) => false
  }

  ghost predicate PrintableField(f: Field, depth: nat)
    decreases f, 1
  {
    Avoids(f.name, depth) && PrintableValue(f.value, depth)
  }

  /** What the printer asks of a message nested `depth` deep. */
  ghost predicate Printable(m: Msg, depth: nat)
    decreases m, 2
  {
    forall i | 0 <= i < |m.fields| :: PrintableField(m.fields[i], depth)
  }

  // Symbols -----------------------------------------------------------------------------------------------

  /** The symbols of different depths differ from each other, from SPECIAL_SYM and from every printed octet. */
  lemma SymsDiffer(j: nat, k: nat)
    requires j < MAXDEPTH && k < MAXDEPTH
    ensures Sym(j) == Sym(k) ==> j == k
    ensures Sym(j) != SPECIAL_SYM && Sym(j) != NL && Sym(j) != NUL && Sym(j) < 32
  {
  }

  /** Escaping one level hides exactly that level's newlines, and un-escaping brings them back. */
  lemma {:induction false} Unescape(t: bytes, sym: byte)
    requires NUL !in t && NlToSym(t, sym).Some? && sym != NL && sym != NUL
    ensures var u := NlToSym(t, sym).value;
      && SymToNl(u, sym) == t
      && Line(u)
      && (forall c | c in u :: c in t || c == sym)
    decreases |t|
  {
    if t != [] {
      assert t[0] in t;
      assert NlToSym(t[1..], sym).Some?;
      Unescape(t[1..], sym);
      var u := NlToSym(t, sym).value;
      assert u[1..] == NlToSym(t[1..], sym).value;
      assert u == [u[0]] + u[1..];
      assert t == [t[0]] + t[1..];
    }
  }

  lemma {:induction false} StrBack(s: bytes)
    requires NUL !in s && SPECIAL_SYM !in s
    ensures var t := StrToText(s);
      && SymToNl(t, SPECIAL_SYM) == s
      && Line(t)
      && (forall c | c in t :: c in s || c == SPECIAL_SYM)
    decreases |s|
  {
    if s != [] {
      assert s[0] in s;
      StrBack(s[1..]);
      var t := StrToText(s);
      assert t[1..] == StrToText(s[1..]);
      assert t == [t[0]] + t[1..];
      assert s == [s[0]] + s[1..];
    }
  }

  // Printed octets ----------------------------------------------------------------------------------------

  ghost predicate Printed(b: bytes) {
    forall c | c in b :: c >= 32
  }

  lemma {:induction false} EncodePrinted(d: bytes)
    ensures Printed(Base64.Encode(d))
    decreases |d|
  {
    hide Base64.Pack, Base64.Six;
    if |d| > 2 {
      EncodePrinted(d[3..]);
    }
  }

  lemma {:induction false} DecPrinted(n: nat)
    ensures Printed(Dec(n))
  {
    assert forall c | c in Dec(n) :: IsDigit(c);
  }

  // C strings ---------------------------------------------------------------------------------------------

  /** Names and list elements are C strings. */
  ghost predicate CValue(v: Value)
    decreases v, 0
  {
    match v
    case List(l) => forall i | 0 <= i < |l| :: NUL !in l[i]
    case Struct(m) => CFields(m.fields)
    case _ => true
  }

  ghost predicate CField(f: Field)
    decreases f, 1
  {
    NUL !in f.name && CValue(f.value)
  }

  ghost predicate CFields(fs: seq<Field>)
    decreases fs, 0
  {
    forall i | 0 <= i < |fs| :: CField(fs[i])
  }

  lemma {:induction false} PackNoNul(l: seq<bytes>)
    requires forall i | 0 <= i < |l| :: NUL !in l[i]
    ensures NUL !in Pack(l)
    decreases |l|
  {
    hide Dec;
    if l != [] {
      PackNoNul(l[1..]);
      DecPrinted(|l[0]|);
      assert NUL !in PackOne(l[0]);
    }
  }

  lemma {:induction false} StrNoNul(s: bytes)
    requires NUL !in s
    ensures NUL !in StrToText(s)
    decreases |s|
  {
    if s != [] {
      StrNoNul(s[1..]);
    }
  }

  lemma {:induction false} EscapeNoNul(t: bytes, sym: byte)
    requires NUL !in t && sym != NUL
    ensures NlToSym(t, sym).Some? ==> NUL !in NlToSym(t, sym).value
    decreases |t|
  {
    if t != [] {
      EscapeNoNul(t[1..], sym);
    }
  }

  /** The text of a value is a C string. */
  lemma {:induction false} ValueNoNul(v: Value, depth: nat)
    requires CValue(v)
    ensures ValueToText(v, depth).Some? ==> NUL !in ValueToText(v, depth).value
    decreases v, 0
  {
    hide NlToSym, StrToText, Base64.Encode, Pack, FieldsToText;
    match v
    case Str(s) => if NUL !in s { StrNoNul(s); }
    case Bin(b) => EncodePrinted(b);
    case Compress(b) => EncodePrinted(b);
    case List(l) => PackNoNul(l);
    case Uncompress(_) =>
    case Struct(m) =>
      FieldsNoNul(m.fields, depth + 1);
      if MsgToText(m, depth + 1).Some? && depth < MAXDEPTH {
        EscapeNoNul(MsgToText(m, depth + 1).value, Sym(depth));
      }
  }

  lemma {:induction false} FieldsNoNul(fs: seq<Field>, depth: nat)
    requires CFields(fs)
    ensures FieldsToText(fs, depth).Some? ==> NUL !in FieldsToText(fs, depth).value
    decreases fs, 0
  {
    hide ValueToText;
    if fs != [] {
      assert CField(fs[0]);
      ValueNoNul(fs[0].value, depth);
      CFieldsTail(fs);
      FieldsNoNul(fs[1..], depth);
    }
  }

  lemma CFieldsTail(fs: seq<Field>)
    requires fs != [] && CFields(fs)
    ensures CFields(fs[1..])
  {
    assert forall i | 0 <= i < |fs| - 1 :: fs[1..][i] == fs[i + 1];
  }

  lemma MsgNoNul(m: Msg, depth: nat)
    requires CFields(m.fields)
    ensures MsgToText(m, depth).Some? ==> NUL !in MsgToText(m, depth).value
  {
    FieldsNoNul(m.fields, depth);
  }

  // Symbols are kept --------------------------------------------------------------------------------------

  /** An octet that the printer does not make of its own accord: the symbols of all depths are such octets. */
  ghost predicate Odd(c: byte) {
    c < 32 && c != NUL && c != NL && c != SPECIAL_SYM
  }

  lemma {:induction false} StrHas(s: bytes, c: byte)
    requires Odd(c)
    ensures c in StrToText(s) <==> c in s
    decreases |s|
  {
    if s != [] {
      StrHas(s[1..], c);
      assert s == [s[0]] + s[1..];
    }
  }

  lemma PackOneHas(e: bytes, c: byte)
    requires Odd(c)
    ensures c in PackOne(e) <==> c in e
  {
    hide Dec;
    DecPrinted(|e|);
  }

  lemma {:induction false} PackHas(l: seq<bytes>, c: byte)
    requires Odd(c)
    ensures c in Pack(l) <==> exists i | 0 <= i < |l| :: c in l[i]
    decreases |l|
  {
    hide PackOne;
    if l != [] {
      PackOneHas(l[0], c);
      PackHas(l[1..], c);
      assert forall i | 1 <= i < |l| :: l[i] == l[1..][i - 1];
      assert forall i | 0 <= i < |l[1..]| :: l[1..][i] == l[i + 1];
    }
  }

  /** Escaping fails exactly on its own symbol, and leaves the others in place. */
  lemma {:induction false} EscapeHas(t: bytes, sym: byte, c: byte)
    requires NUL !in t && Odd(sym) && Odd(c)
    ensures NlToSym(t, sym).Some? <==> sym !in t
    ensures NlToSym(t, sym).Some? && c != sym ==> (c in NlToSym(t, sym).value <==> c in t)
    decreases |t|
  {
    if t != [] {
      EscapeHas(t[1..], sym, c);
      assert t == [t[0]] + t[1..];
    }
  }

  lemma SymIsOdd(k: nat)
    requires k < MAXDEPTH
    ensures Odd(Sym(k))
  {
  }

  lemma StrAvoids(s: bytes, depth: nat)
    ensures Avoids(StrToText(s), depth) <==> Avoids(s, depth)
  {
    hide StrToText, Odd, Sym;
    forall k | 0 <= k < depth && k < MAXDEPTH
      ensures Sym(k) in StrToText(s) <==> Sym(k) in s
    {
      SymIsOdd(k);
      StrHas(s, Sym(k));
    }
  }

  lemma PackAvoids(l: seq<bytes>, depth: nat)
    ensures Avoids(Pack(l), depth) <==> forall i | 0 <= i < |l| :: Avoids(l[i], depth)
  {
    hide Pack, Odd, Sym;
    forall k | 0 <= k < depth && k < MAXDEPTH
      ensures Sym(k) in Pack(l) <==> exists i | 0 <= i < |l| :: Sym(k) in l[i]
    {
      SymIsOdd(k);
      PackHas(l, Sym(k));
    }
  }

  /** A text nested at `depth` can be escaped, and then avoids the symbols above, exactly if it avoids its own too. */
  lemma EscapeAvoids(t: bytes, depth: nat)
    requires depth < MAXDEPTH && NUL !in t
    ensures var u := NlToSym(t, Sym(depth)); u.Some? && Avoids(u.value, depth) <==> Avoids(t, depth + 1)
  {
    hide NlToSym, Odd, Sym;
    SymIsOdd(depth);
    EscapeHas(t, Sym(depth), Sym(depth));
    var u := NlToSym(t, Sym(depth));
    forall k | 0 <= k < depth && k < MAXDEPTH
      ensures u.Some? ==> (Sym(k) in u.value <==> Sym(k) in t)
    {
      SymIsOdd(k);
      SymsDiffer(k, depth);
      EscapeHas(t, Sym(depth), Sym(k));
    }
  }

  lemma PartsAvoid(a: bytes, b: bytes, depth: nat)
    ensures Avoids(a + b, depth) <==> Avoids(a, depth) && Avoids(b, depth)
  {
  }

  lemma PrintedAvoids(b: bytes, depth: nat)
    requires forall c | c in b :: c >= 32 || c == NL
    ensures Avoids(b, depth)
  {
  }

  // Printing ----------------------------------------------------------------------------------------------

  /** A value prints, without the symbols of the depths above, if and only if it is printable. */
  lemma {:induction false} ValuePrints(v: Value, depth: nat)
    requires CValue(v) && depth <= MAXDEPTH
    ensures var t := ValueToText(v, depth); t.Some? && Avoids(t.value, depth) <==> PrintableValue(v, depth)
    decreases v, 0
  {
    hide Avoids, NlToSym, Pack, StrToText, MsgToText, Base64.Encode, Printable;
    match v
    case Str(s) => StrAvoids(s, depth);
    case Bin(b) => EncodePrinted(b); PrintedAvoids(Base64.Encode(b), depth);
    case Compress(b) => EncodePrinted(b); PrintedAvoids(Base64.Encode(b), depth);
    case List(l) => PackAvoids(l, depth);
    case Uncompress(_) =>
    case Struct(m) =>
      if depth < MAXDEPTH {
        MsgPrints(m, depth + 1);
        MsgNoNul(m, depth + 1);
        if MsgToText(m, depth + 1).Some? {
          EscapeAvoids(MsgToText(m, depth + 1).value, depth);
        }
      }
  }

  lemma LineAvoids(f: Field, t: bytes, rest: bytes, depth: nat)
    ensures Avoids(LineOf(f, t) + [NL] + rest, depth) <==>
            Avoids(f.name, depth) && Avoids(t, depth) && Avoids(rest, depth)
  {
    hide Avoids;
    PartsAvoid(LineOf(f, t) + [NL], rest, depth);
    PartsAvoid(LineOf(f, t), [NL], depth);
    PartsAvoid(TypeTag(f.value) + f.name + [EQUAL], t, depth);
    PartsAvoid(TypeTag(f.value) + f.name, [EQUAL], depth);
    PartsAvoid(TypeTag(f.value), f.name, depth);
    PrintedAvoids(TypeTag(f.value), depth);
    PrintedAvoids([EQUAL], depth);
    PrintedAvoids([NL], depth);
  }

  lemma {:induction false} FieldsPrint(fs: seq<Field>, depth: nat)
    requires CFields(fs) && depth <= MAXDEPTH
    ensures var t := FieldsToText(fs, depth);
      t.Some? && Avoids(t.value, depth) <==> forall i | 0 <= i < |fs| :: PrintableField(fs[i], depth)
    decreases fs, 0
  {
    hide Avoids, ValueToText, LineOf, PrintableValue;
    if fs == [] {
      PrintedAvoids([], depth);
    } else {
      assert CField(fs[0]);
      ValuePrints(fs[0].value, depth);
      CFieldsTail(fs);
      FieldsPrint(fs[1..], depth);
      var t, rest := ValueToText(fs[0].value, depth), FieldsToText(fs[1..], depth);
      if t.Some? && rest.Some? {
        LineAvoids(fs[0], t.value, rest.value, depth);
      }
      assert forall i | 1 <= i < |fs| :: fs[i] == fs[1..][i - 1];
      assert forall i | 0 <= i < |fs[1..]| :: fs[1..][i] == fs[i + 1];
    }
  }

  /** A message prints, without the symbols of the depths above, if and only if it is printable. */
  lemma {:induction false} MsgPrints(m: Msg, depth: nat)
    requires CFields(m.fields) && depth <= MAXDEPTH
    ensures var t := MsgToText(m, depth); t.Some? && Avoids(t.value, depth) <==> Printable(m, depth)
    decreases m, 1
  {
    hide Avoids, FieldsToText, PrintableField, CFields;
    FieldsPrint(m.fields, depth);
    var t := FieldsToText(m.fields, depth);
    if t.Some? {
      PartsAvoid(MSG_START + t.value, MSG_END, depth);
      PartsAvoid(MSG_START, t.value, depth);
      PrintedAvoids(MSG_START, depth);
      PrintedAvoids(MSG_END, depth);
    }
  }
}
