/** The ha_msg object of cl_msg.c: five parallel arrays that refine a sequence of fields. */
module HaMsg {
  import opened Bytes
  import opened CText
  import opened MsgText
  import opened Netstring

  const MINFIELDS := 30

  // Field sequences ---------------------------------------------------------------------------------------

  /** cl_get_value: the first field of a name */
  function Lookup(fs: seq<Field>, name: bytes): Option<Value> {
    var j := IndexOf(fs, name);
    if j < |fs| then Some(fs[j].value) else None
  }

  function RemoveAt(fs: seq<Field>, j: nat): seq<Field>
    requires j < |fs|
  {
    fs[..j] + fs[j + 1..]
  }

  /** cl_msg_remove */
  function RemoveName(fs: seq<Field>, name: bytes): Option<seq<Field>> {
    var j := IndexOf(fs, name);
    if j < |fs| then Some(RemoveAt(fs, j)) else None
  }

  /** cl_msg_replace */
  function ReplaceAt(fs: seq<Field>, j: nat, v: Value): Option<seq<Field>> {
    if j < |fs| then Some(fs[j := Field(fs[j].name, v)]) else None
  }

  /** cl_msg_mod: change the first field of the name, which must have the same type, or add one. */
  function Modify(fs: seq<Field>, name: bytes, v: Value): Option<seq<Field>> {
    var j := IndexOf(fs, name);
    if j == |fs| then AddRaw(fs, name, v, 0)
    else if TypeOf(fs[j].value) != TypeOf(v) then None
    else ReplaceAt(fs, j, v)
  }

  /**
   * Removing is refused for a name that is not there only; it exposes the next field of that name and leaves other
   * names as they were.
   */
  lemma RemoveExposesNext(fs: seq<Field>, name: bytes, other: bytes)
    ensures RemoveName(fs, name).None? <==> Lookup(fs, name).None?
    ensures RemoveName(fs, name).Some? ==>
      var r := RemoveName(fs, name).value;
      && |r| == |fs| - 1 && Lookup(r, name) == Lookup(fs[IndexOf(fs, name) + 1..], name)
      && (other != name ==> Lookup(r, other) == Lookup(fs, other))
  {
    RemoveFails(fs, name);
    hide Lookup, IndexOf;
    if RemoveName(fs, name).Some? {
      RemovedLookup(fs, IndexOf(fs, name), name, other);
    }
  }

  lemma RemovedLookup(fs: seq<Field>, j: nat, name: bytes, other: bytes)
    requires j == IndexOf(fs, name) < |fs|
    ensures Lookup(RemoveAt(fs, j), name) == Lookup(fs[j + 1..], name)
    ensures other != name ==> Lookup(RemoveAt(fs, j), other) == Lookup(fs, other)
  {
    hide Lookup, IndexOf;
    var a, x, b := fs[..j], fs[j], fs[j + 1..];
    IndexOfAbsentIn(fs, j, name);
    LookupConcat(a, b, name);
    LookupConcat(a, b, other);
    LookupConcat(a, [x] + b, other);
    assert fs == a + ([x] + b);
    LookupCons(x, b, other);
  }

  lemma RemoveFails(fs: seq<Field>, name: bytes)
    ensures RemoveName(fs, name).None? <==> Lookup(fs, name).None?
  {
    hide IndexOf;
  }

  lemma LookupConcat(a: seq<Field>, b: seq<Field>, name: bytes)
    ensures Lookup(a + b, name) == if IndexOf(a, name) < |a| then Lookup(a, name) else Lookup(b, name)
  {
    hide IndexOf;
    IndexOfConcat(a, b, name);
  }

  lemma LookupCons(x: Field, b: seq<Field>, name: bytes)
    ensures x.name != name ==> Lookup([x] + b, name) == Lookup(b, name)
  {
    assert ([x] + b)[1..] == b;
  }

  lemma IndexOfAbsentIn(fs: seq<Field>, j: nat, name: bytes)
    requires j <= |fs| && forall i | 0 <= i < j :: fs[i].name != name
    ensures IndexOf(fs[..j], name) == j
  {
  }

  lemma {:induction false} IndexOfConcat(a: seq<Field>, b: seq<Field>, name: bytes)
    ensures IndexOf(a + b, name) ==
            if IndexOf(a, name) < |a| then IndexOf(a, name) else |a| + IndexOf(b, name)
    decreases |a|
  {
    if a == [] {
      assert a + b == b;
    } else {
      assert (a + b)[1..] == a[1..] + b;
      IndexOfConcat(a[1..], b, name);
    }
  }

  /**
   * Modifying is refused for another type only, or as an addition is. It makes the value found under the name the new
   * one, a new string being read as the text of a field, and leaves what other names find alone.
   */
  lemma ModifyThenLookup(fs: seq<Field>, name: bytes, v: Value, other: bytes)
    ensures var r := Modify(fs, name, v);
      && (Lookup(fs, name).Some? ==>
            && (r.None? <==> TypeOf(Lookup(fs, name).value) != TypeOf(v))
            && (r.Some? ==> Lookup(r.value, name) == Some(v)))
      && (Lookup(fs, name).None? ==> r == AddRaw(fs, name, v, 0))
      && (r.Some? && !v.Str? ==> Lookup(r.value, name) == Some(v))
      && (r.Some? && v.Str? && name != [] && name[0] != LPAREN && Lookup(fs, name).None? ==>
            Lookup(r.value, name) == Some(Str(SymToNl(v.s, SPECIAL_SYM))))
      && (r.Some? && other != name && !(v.Str? && Tagged(name, other)) ==> Lookup(r.value, other) == Lookup(fs, other))
  {
    hide AddRaw, IndexOf, StartsAt, SymToNl;
    var j := IndexOf(fs, name);
    if j < |fs| {
      ReplaceIndex(fs, j, v, name);
      ReplaceIndex(fs, j, v, other);
    } else {
      AddThenLookup(fs, name, v, name);
      AddThenLookup(fs, name, v, other);
      assert v.List? ==> [] + v.l == v.l;
    }
  }

  /** A string added under "(t)other" becomes a field of type t named other. */
  predicate Tagged(name: bytes, other: bytes) {
    |name| >= 3 && name[0] == LPAREN && name[3..] == other
  }

  /**
   * An added field is found under its name, unless an earlier one hides it; a list is joined to the end of the list
   * that is there, and refused if something else is; other names find what they found.
   */
  lemma AddThenLookup(fs: seq<Field>, name: bytes, v: Value, other: bytes)
    ensures var r := AddRaw(fs, name, v, 0);
      && (r.Some? ==> name != [] && !StartsAt(name, 0, MSG_START))
      && (r.Some? && !v.List? ==> |r.value| == |fs| + 1 && fs <= r.value)
      && (r.Some? && !v.List? && !v.Str? ==>
            Lookup(r.value, name) == if Lookup(fs, name).Some? then Lookup(fs, name) else Some(v))
      && (r.Some? && v.Str? && name != [] && name[0] != LPAREN && Lookup(fs, name).None? ==>
            Lookup(r.value, name) == Some(Str(SymToNl(v.s, SPECIAL_SYM))))
      && (r.Some? && v.List? ==> Lookup(r.value, name) == Some(List(ListAt(fs, name) + v.l)))
      && (v.List? && name != [] && !StartsAt(name, 0, MSG_START) ==>
            (r.None? <==> v.l == [] || (Lookup(fs, name).Some? && !Lookup(fs, name).value.List?)))
      && (r.Some? && other != name && !(v.Str? && Tagged(name, other)) ==> Lookup(r.value, other) == Lookup(fs, other))
  {
    hide IndexOf, StartsAt, SymToNl, AddStringField;
    var r := AddRaw(fs, name, v, 0);
    if r.Some? {
      if v.List? {
        MergeThenLookup(fs, name, v.l, other);
      } else if v.Str? {
        StringAdded(fs, name, v.s);
        SnocLookup(fs, r.value[|fs|], name);
        SnocLookup(fs, r.value[|fs|], other);
      } else {
        SnocLookup(fs, Field(name, v), name);
        SnocLookup(fs, Field(name, v), other);
      }
    }
    if v.List? {
      MergeThenLookup(fs, name, v.l, other);
    }
  }

  /** The elements of the list found under a name. */
  function ListAt(fs: seq<Field>, name: bytes): seq<bytes> {
    var v := Lookup(fs, name);
    if v.Some? && v.value.List? then v.value.l else []
  }

  lemma MergeThenLookup(fs: seq<Field>, name: bytes, l: seq<bytes>, other: bytes)
    ensures var r := AddListField(fs, name, l);
      && (r.None? <==> Lookup(fs, name).Some? && !Lookup(fs, name).value.List?)
      && (r.Some? ==> Lookup(r.value, name) == Some(List(ListAt(fs, name) + l)))
      && (r.Some? && other != name ==> Lookup(r.value, other) == Lookup(fs, other))
      && (r.Some? ==> |r.value| == |fs| + if Lookup(fs, name).Some? then 0 else 1)
  {
    hide IndexOf;
    var j := IndexOf(fs, name);
    if j < |fs| {
      if fs[j].value.List? {
        var v := List(fs[j].value.l + l);
        ReplaceIndex(fs, j, v, name);
        ReplaceIndex(fs, j, v, other);
      }
    } else {
      SnocLookup(fs, Field(name, List(l)), name);
      SnocLookup(fs, Field(name, List(l)), other);
      assert [] + l == l;
    }
  }

  lemma StringAdded(fs: seq<Field>, name: bytes, s: bytes)
    requires name != [] && AddStringField(fs, name, s, 0).Some?
    ensures var r := AddStringField(fs, name, s, 0).value;
      && |r| == |fs| + 1 && r == fs + [r[|fs|]]
      && if name[0] == LPAREN then Tagged(name, r[|fs|].name) else r[|fs|] == Field(name, Str(SymToNl(s, SPECIAL_SYM)))
  {
    hide SymToNl;
  }

  lemma SnocLookup(fs: seq<Field>, f: Field, name: bytes)
    ensures Lookup(fs + [f], name) ==
      if Lookup(fs, name).Some? then Lookup(fs, name) else if f.name == name then Some(f.value) else None
  {
    LookupConcat(fs, [f], name);
  }

  lemma {:induction false} ReplaceIndex(fs: seq<Field>, j: nat, v: Value, name: bytes)
    requires j < |fs|
    ensures IndexOf(fs[j := Field(fs[j].name, v)], name) == IndexOf(fs, name)
    decreases |fs|
  {
    var g := fs[j := Field(fs[j].name, v)];
    if j == 0 {
      assert g[1..] == fs[1..];
    } else {
      assert g[1..] == fs[1..][j - 1 := Field(fs[j].name, v)];
      ReplaceIndex(fs[1..], j - 1, v, name);
    }
  }

  datatype Op =
    | Add(name: bytes, v: Value)
    | Change(name: bytes, v: Value)
    | Delete(name: bytes)
    | Put(index: nat, v: Value)
    | Room

  /** What an operation does to the fields; one that fails changes none. */
  function Apply(fs: seq<Field>, op: Op): seq<Field> {
    var r := match op
      case Add(name, v) => AddRaw(fs, name, v, 0)
      case Change(name, v) => Modify(fs, name, v)
      case Delete(name) => RemoveName(fs, name)
      case Put(index, v) => ReplaceAt(fs, index, v)
      case Room => None;
    if r.None? then fs else r.value
  }

  function ApplyAll(fs: seq<Field>, ops: seq<Op>): seq<Field>
    decreases |ops|
  {
    if ops == [] then fs else ApplyAll(Apply(fs, ops[0]), ops[1..])
  }

  lemma {:induction false} ApplyAllSnoc(fs: seq<Field>, ops: seq<Op>, op: Op)
    ensures ApplyAll(fs, ops + [op]) == Apply(ApplyAll(fs, ops), op)
    decreases |ops|
  {
    hide Apply;
    if ops == [] {
      assert [op][1..] == [];
    } else {
      assert (ops + [op])[1..] == ops[1..] + [op];
      ApplyAllSnoc(Apply(fs, ops[0]), ops[1..], op);
    }
  }

  /** What an operation on the fields was leaves of them, and in them. */
  ghost predicate Shows(was: seq<Field>, op: Op, now: seq<Field>) {
    match op
    case Add(name, v) =>
      AddRaw(was, name, v, 0).Some? && Lookup(was, name).None? && !v.Str? ==> Lookup(now, name) == Some(v)
    case Change(name, v) =>
      Lookup(was, name).Some? ==>
        Lookup(now, name) == if TypeOf(Lookup(was, name).value) == TypeOf(v) then Some(v) else Lookup(was, name)
    case Delete(name) =>
      if Lookup(was, name).None? then now == was
      else |now| == |was| - 1 && Lookup(now, name) == Lookup(was[IndexOf(was, name) + 1..], name)
    case Put(index, v) => now == if index < |was| then was[index := Field(was[index].name, v)] else was
    case Room => now == was
  }

  lemma ApplyShows(was: seq<Field>, op: Op)
    ensures Shows(was, op, Apply(was, op))
  {
    hide AddRaw, Modify, RemoveName, IndexOf;
    match op
    case Add(name, v) =>
      AddThenLookup(was, name, v, name);
      assert v.List? && Lookup(was, name).None? ==> ListAt(was, name) + v.l == v.l;
    case Change(name, v) => ModifyThenLookup(was, name, v, name);
    case Delete(name) => RemoveExposesNext(was, name, name);
    case Put(_, _) =>
    case Room =>
  }

  /** What the last operation of a run has done. */
  lemma LastShows(fs: seq<Field>, ops: seq<Op>, op: Op)
    ensures Shows(ApplyAll(fs, ops), op, ApplyAll(fs, ops + [op]))
  {
    hide Apply, Shows;
    ApplyAllSnoc(fs, ops, op);
    ApplyShows(ApplyAll(fs, ops), op);
  }

  // The object --------------------------------------------------------------------------------------------

  /** What vlens holds for a value; for nested messages it means nothing. */
  ghost predicate LengthOf(v: Value, n: nat) {
    match v
    case Str(s) => n == |s|
    case Bin(b) => n == |b|
    case Compress(b) => n == |b|
    case List(l) => n == PackLength(l)
    case _ => true
  }

  function VLen(v: Value): (n: nat)
    ensures LengthOf(v, n)
  {
    match v
    case Str(s) => |s|
    case Bin(b) => |b|
    case Compress(b) => |b|
    case List(l) => PackLength(l)
    case _ => 0
  }

  function Zip(ns: seq<bytes>, vs: seq<Value>): (fs: seq<Field>)
    requires |ns| == |vs|
    ensures |fs| == |ns|
    ensures forall i | 0 <= i < |fs| :: fs[i] == Field(ns[i], vs[i])
  {
    seq(|ns|, i requires 0 <= i < |ns| => Field(ns[i], vs[i]))
  }

  /** The lengths and types recorded are those of the names and values. */
  ghost predicate Agree(ns: seq<bytes>, nl: seq<nat>, vs: seq<Value>, vl: seq<nat>, ts: seq<nat>) {
    && |ns| == |nl| == |vs| == |vl| == |ts|
    && forall i | 0 <= i < |ns| :: nl[i] == |ns[i]| && ts[i] == TypeOf(vs[i]) && LengthOf(vs[i], vl[i])
  }

  /** calloc of a longer array and memcpy of the old one */
  method Grow<T(0)>(a: array<T>, n: nat, size: nat) returns (b: array<T>)
    requires n <= a.Length <= size
    ensures fresh(b) && b.Length == size
    ensures b[..n] == a[..n]
  {
    b := new T[size];
    forall i | 0 <= i < a.Length {
      b[i] := a[i];
    }
  }

  /** The shift of cl_msg_remove_offset in one of the arrays, of which n entries are in use */
  method CloseGap<T>(a: array<T>, j: nat, n: nat)
    requires j < n <= a.Length
    modifies a
    ensures a[..n - 1] == old(a[..n])[..j] + old(a[..n])[j + 1..]
  {
    var i := j + 1;
    while i < n
      invariant j + 1 <= i <= n
      invariant a[..i - 1] == old(a[..j]) + old(a[j + 1..i])
      invariant a[i..] == old(a[i..])
    {
      assert a[i] == a[i..][0] == old(a[i]);
      a[i - 1] := a[i];
      i := i + 1;
    }
  }

  method CloseLengths(nlens: array<nat>, vlens: array<nat>, types: array<nat>, j: nat, n: nat)
    requires j < n && n <= nlens.Length && n <= vlens.Length && n <= types.Length
    requires nlens != vlens && nlens != types && vlens != types
    modifies nlens, vlens, types
    ensures nlens[..n - 1] == old(nlens[..n])[..j] + old(nlens[..n])[j + 1..]
    ensures vlens[..n - 1] == old(vlens[..n])[..j] + old(vlens[..n])[j + 1..]
    ensures types[..n - 1] == old(types[..n])[..j] + old(types[..n])[j + 1..]
  {
    CloseGap(nlens, j, n);
    CloseGap(vlens, j, n);
    CloseGap(types, j, n);
  }

  lemma AgreeCloseGap(ns: seq<bytes>, nl: seq<nat>, vs: seq<Value>, vl: seq<nat>, ts: seq<nat>, j: nat)
    requires Agree(ns, nl, vs, vl, ts) && j < |ns|
    ensures Agree(ns[..j] + ns[j + 1..], nl[..j] + nl[j + 1..], vs[..j] + vs[j + 1..], vl[..j] + vl[j + 1..],
                  ts[..j] + ts[j + 1..])
    ensures Zip(ns[..j] + ns[j + 1..], vs[..j] + vs[j + 1..]) == RemoveAt(Zip(ns, vs), j)
  {
    hide LengthOf;
  }

  /** Adding a string field does not depend on the fields before it. */
  lemma AddStringAlone(fs: seq<Field>, name: bytes, text: bytes, depth: nat)
    requires name != []
    ensures var r := AddStringField([], name, text, depth);
      && (r.Some? ==> |r.value| == 1)
      && AddStringField(fs, name, text, depth) == if r.None? then None else Some(fs + r.value)
  {
    hide TextToValue;
    var r := AddStringField([], name, text, depth);
    if r.Some? {
      assert r.value == [r.value[0]];
    }
  }

  class Message {
    var nfields: nat
    var nalloc: nat
    var names: array<bytes>
    var nlens: array<nat>
    var values: array<Value>
    var vlens: array<nat>
    var types: array<nat>

    ghost function Arrays(): set<object>
      reads this
    {
      {names as object, nlens as object, values as object, vlens as object, types as object}
    }

    ghost predicate Shape()
      reads this
    {
      && nfields <= nalloc
      && names.Length == nlens.Length == values.Length == vlens.Length == types.Length == nalloc
      && nlens != vlens && nlens != types && vlens != types
    }

    ghost predicate Valid()
      reads this, Arrays()
    {
      && Shape()
      && Agree(names[..nfields], nlens[..nfields], values[..nfields], vlens[..nfields], types[..nfields])
    }

    /** The field sequence the arrays stand for. */
    ghost function Fields(): (fs: seq<Field>)
      reads this, Arrays()
      requires Shape()
      ensures |fs| == nfields
      ensures forall i | 0 <= i < nfields :: fs[i] == Field(names[i], values[i])
    {
      Zip(names[..nfields], values[..nfields])
    }

    /** ha_msg_new */
    constructor (n: nat)
      ensures Valid() && Fields() == [] && fresh(Arrays())
      ensures nalloc >= n && nalloc >= MINFIELDS
    {
      var size := if n > MINFIELDS then n else MINFIELDS;
      nfields, nalloc := 0, size;
      names := new bytes[size];
      nlens := new nat[size];
      values := new Value[size];
      vlens := new nat[size];
      types := new nat[size];
    }

    /** New arrays that begin like the old ones take their place. */
    method Adopt(n1: array<bytes>, n2: array<nat>, v1: array<Value>, v2: array<nat>, t: array<nat>, size: nat)
      requires Valid() && size >= nalloc && n1.Length == n2.Length == v1.Length == v2.Length == t.Length == size
      requires n2 != v2 && n2 != t && v2 != t
      requires n1[..nfields] == names[..nfields] && n2[..nfields] == nlens[..nfields]
      requires v1[..nfields] == values[..nfields] && v2[..nfields] == vlens[..nfields]
      requires t[..nfields] == types[..nfields]
      modifies this
      ensures Valid() && Fields() == old(Fields()) && nalloc == size && nfields == old(nfields)
      ensures names == n1 && nlens == n2 && values == v1 && vlens == v2 && types == t
    {
      hide Agree, Zip;
      names, nlens, values, vlens, types := n1, n2, v1, v2, t;
      nalloc := size;
    }

    /** ha_msg_expand: more room, the same fields */
    method Expand()
      requires Valid()
      modifies this
      ensures Valid() && fresh(Arrays()) && Fields() == old(Fields())
      ensures nalloc == old(nalloc) + MINFIELDS && nfields == old(nfields)
    {
      hide Agree, Zip;
      var size := nalloc + MINFIELDS;
      var n1 := Grow(names, nfields, size);
      var n2 := Grow(nlens, nfields, size);
      var v1 := Grow(values, nfields, size);
      var v2 := Grow(vlens, nfields, size);
      var t := Grow(types, nfields, size);
      Adopt(n1, n2, v1, v2, t, size);
    }

    /** The index loop of every lookup by name */
    method Find(name: bytes) returns (j: nat)
      requires Valid()
      ensures j == IndexOf(Fields(), name)
    {
      j := 0;
      while j < nfields && names[j] != name
        invariant j <= nfields
        invariant forall i | 0 <= i < j :: Fields()[i].name != name
      {
        j := j + 1;
      }
      FoundAt(Fields(), j, name);
    }

    method GetValue(name: bytes) returns (r: Option<Value>)
      requires Valid()
      ensures r == Lookup(Fields(), name)
    {
      var j := Find(name);
      return if j < nfields then Some(values[j]) else None;
    }

    /** The stores of the add functions, into the first free slot */
    method Append(name: bytes, v: Value)
      requires Valid() && nfields < nalloc
      modifies this`nfields, Arrays()
      ensures Valid() && Fields() == old(Fields()) + [Field(name, v)]
      ensures nfields == old(nfields) + 1
    {
      var next := nfields;
      names[next] := name;
      nlens[next] := |name|;
      values[next] := v;
      vlens[next] := VLen(v);
      types[next] := TypeOf(v);
      nfields := nfields + 1;
    }

    /** Overwrite value, length and type of slot j */
    method Overwrite(j: nat, v: Value)
      requires Valid() && j < nfields
      modifies Arrays()
      ensures Valid() && Fields() == old(Fields())[j := Field(old(names[j]), v)]
    {
      values[j] := v;
      vlens[j] := VLen(v);
      types[j] := TypeOf(v);
    }

    /** ha_msg_addraw_ll with the add function of the value's type */
    method AddRawLl(name: bytes, v: Value, depth: nat) returns (ok: bool)
      requires Valid()
      modifies this, Arrays()
      ensures Valid() && fresh(Arrays() - old(Arrays()))
      ensures nalloc == old(nalloc) + if old(nfields) < old(nalloc) then 0 else MINFIELDS
      ensures ok <==> AddRaw(old(Fields()), name, v, depth).Some?
      ensures Fields() == if ok then AddRaw(old(Fields()), name, v, depth).value else old(Fields())
    {
      hide Agree, AddStringField, IndexOf;
      if nfields >= nalloc {
        Expand();
      }
      if name == [] || StartsAt(name, 0, MSG_START) {
        return false;
      }
      match v
      case Str(s) =>
        AddStringAlone(Fields(), name, s, depth);
        var r := AddStringField([], name, s, depth);
        if r.None? {
          return false;
        }
        Append(r.value[0].name, r.value[0].value);
        assert r.value == [r.value[0]];
        return true;
      case List(l) =>
        if l == [] {
          return false;
        }
        ok := AddList(name, l);
      case _ =>
        Append(name, v);
        return true;
    }

    /** add_list_field */
    method AddList(name: bytes, l: seq<bytes>) returns (ok: bool)
      requires Valid() && nfields < nalloc
      modifies this`nfields, Arrays()
      ensures Valid()
      ensures ok <==> AddListField(old(Fields()), name, l).Some?
      ensures Fields() == if ok then AddListField(old(Fields()), name, l).value else old(Fields())
    {
      hide Agree, IndexOf;
      var j := Find(name);
      if j == nfields {
        Append(name, List(l));
        return true;
      }
      if !values[j].List? {
        return false;
      }
      Overwrite(j, List(values[j].l + l));
      return true;
    }

    /** cl_msg_remove_offset */
    method RemoveOffset(j: nat) returns (ok: bool)
      requires Valid() && j <= nfields
      modifies this`nfields, Arrays()
      ensures Valid() && (ok <==> j < old(nfields))
      ensures Fields() == if ok then RemoveAt(old(Fields()), j) else old(Fields())
    {
      hide Agree, Zip;
      if j == nfields {
        return false;
      }
      AgreeCloseGap(names[..nfields], nlens[..nfields], values[..nfields], vlens[..nfields], types[..nfields], j);
      CloseGap(names, j, nfields);
      CloseGap(values, j, nfields);
      CloseLengths(nlens, vlens, types, j, nfields);
      nfields := nfields - 1;
      return true;
    }

    /** cl_msg_remove */
    method Remove(name: bytes) returns (ok: bool)
      requires Valid()
      modifies this`nfields, Arrays()
      ensures Valid() && (ok <==> RemoveName(old(Fields()), name).Some?)
      ensures Fields() == if ok then RemoveName(old(Fields()), name).value else old(Fields())
    {
      hide Agree, IndexOf, RemoveAt;
      var j := Find(name);
      ok := RemoveOffset(j);
    }

    /** cl_msg_replace */
    method Replace(index: nat, v: Value) returns (ok: bool)
      requires Valid()
      modifies Arrays()
      ensures Valid() && (ok <==> ReplaceAt(old(Fields()), index, v).Some?)
      ensures Fields() == if ok then ReplaceAt(old(Fields()), index, v).value else old(Fields())
    {
      hide Agree;
      if index >= nfields {
        return false;
      }
      Overwrite(index, v);
      return true;
    }

    /** cl_msg_mod */
    method Mod(name: bytes, v: Value) returns (ok: bool)
      requires Valid()
      modifies this, Arrays()
      ensures Valid() && fresh(Arrays() - old(Arrays()))
      ensures ok <==> Modify(old(Fields()), name, v).Some?
      ensures Fields() == if ok then Modify(old(Fields()), name, v).value else old(Fields())
    {
      hide Agree, IndexOf, AddRaw;
      var j := Find(name);
      if j == nfields {
        ok := AddRawLl(name, v, 0);
      } else if TypeOf(values[j]) != TypeOf(v) {
        return false;
      } else {
        Overwrite(j, v);
        return true;
      }
    }

    method Perform(op: Op)
      requires Valid()
      modifies this, Arrays()
      ensures Valid() && fresh(Arrays() - old(Arrays()))
      ensures Fields() == Apply(old(Fields()), op)
    {
      hide Agree, AddRaw, Modify, RemoveName, ReplaceAt, Zip;
      match op {
        case Add(name, v) => var _ := AddRawLl(name, v, 0);
        case Change(name, v) => var _ := Mod(name, v);
        case Delete(name) => var _ := Remove(name);
        case Put(index, v) => var _ := Replace(index, v);
        case Room => Expand();
      }
    }

    /** Under any run of operations the arrays go on standing for the field sequence the run makes. */
    method Replay(ops: seq<Op>)
      requires Valid()
      modifies this, Arrays()
      ensures Valid() && fresh(Arrays() - old(Arrays()))
      ensures Fields() == ApplyAll(old(Fields()), ops)
    {
      hide Agree, Apply, Zip;
      var i := 0;
      assert ops[0..] == ops;
      while i < |ops|
        invariant 0 <= i <= |ops|
        invariant Valid() && fresh(Arrays() - old(Arrays()))
        invariant ApplyAll(Fields(), ops[i..]) == ApplyAll(old(Fields()), ops)
      {
        assert ops[i..][1..] == ops[i + 1..];
        Perform(ops[i]);
        i := i + 1;
      }
    }
  }

  lemma FoundAt(fs: seq<Field>, j: nat, name: bytes)
    requires j <= |fs| && (forall i | 0 <= i < j :: fs[i].name != name) && (j < |fs| ==> fs[j].name == name)
    ensures j == IndexOf(fs, name)
  {
  }
}
