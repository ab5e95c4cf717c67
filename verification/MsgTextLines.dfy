/**
 * The line loop of the text parser on printed fields. A name may hold newlines: the loop reads it whole, goes back to
 * the first of them, and reads the rest of it again as the name of another field, with the same text.
 */
module MsgTextLines {
  import opened Bytes
  import opened CText
  import opened MsgText
  import opened MsgTextProof
  import Base64

  // Labels ------------------------------------------------------------------------------------------------

  /** What stands in front of the '=' of a field's line. */
  function Label(f: Field): bytes {
    TypeTag(f.value) + f.name
  }

  /** A field whose name and type can be told from its line, if the line is found. */
  ghost predicate FitsLine(f: Field) {
    && EQUAL !in f.name
    && (f.value.Str? ==>
          && f.name != [] && f.name[0] != LPAREN && f.name[0] != NL
          && !StartsAt(f.name, 0, MSG_START) && !StartsAt(f.name, 0, MSG_END))
  }

  function FirstNl(n: bytes): (k: nat)
    ensures k <= |n| && NL !in n[..k] && (k < |n| ==> n[k] == NL)
    ensures k < |n| <==> NL in n
  {
    if n == [] || n[0] == NL then 0 else 1 + FirstNl(n[1..])
  }

  function SkipNl(n: bytes): (k: nat)
    ensures k <= |n| && (forall i | 0 <= i < k :: n[i] == NL) && (k < |n| ==> n[k] != NL)
  {
    if n == [] || n[0] != NL then 0 else 1 + SkipNl(n[1..])
  }

  /** The rest of a label behind its first line and the newlines after it. */
  function Next(n: bytes): (r: bytes)
    requires NL in n
    ensures |r| < |n|
  {
    var k := FirstNl(n);
    var m := n[k..];
    m[SkipNl(m)..]
  }

  lemma NextShape(n: bytes)
    requires NL in n
    ensures var r := Next(n);
      && r == n[|n| - |r|..] && (r != [] ==> r[0] != NL)
      && FirstNl(n) <= |n| - |r| && forall i | FirstNl(n) <= i < |n| - |r| :: n[i] == NL
  {
    hide FirstNl, SkipNl;
    var k := FirstNl(n);
    var m := n[k..];
    assert m[0] == NL;
    assert forall i | k <= i < k + SkipNl(m) :: n[i] == m[i - k];
  }

  /** Somewhere behind a newline the label goes on with the end of the message. */
  ghost predicate Ended(n: bytes)
    decreases |n|
  {
    NL in n && (StartsAt(Next(n), 0, MSG_END) || Ended(Next(n)))
  }

  /** The fields gs are those read again from the label n in front of the text t, up to the end of the message in it. */
  ghost predicate Echoed(n: bytes, t: bytes, gs: seq<Field>, depth: nat)
    requires NL in n
    decreases |n|
  {
    var r := Next(n);
    if StartsAt(r, 0, MSG_END) then gs == []
    else
      && NL in r
      && gs != [] && Label(gs[0]) == r && FitsLine(gs[0])
      && TextToValue(TypeOf(gs[0].value), t, depth) == Some(gs[0].value)
      && Echoed(r, t, gs[1..], depth)
  }

  lemma {:induction false} EchoedEnds(n: bytes, t: bytes, gs: seq<Field>, depth: nat)
    requires NL in n && Echoed(n, t, gs, depth)
    ensures Ended(n)
    decreases |n|
  {
    hide TextToValue, FitsLine;
    if !StartsAt(Next(n), 0, MSG_END) {
      EchoedEnds(Next(n), t, gs[1..], depth);
    }
  }

  // One line ----------------------------------------------------------------------------------------------

  /** A line of a label without '=' and a text without newline is found where it was printed. */
  ghost predicate LineAt(s: bytes, q: nat, n: bytes, t: bytes) {
    NUL !in n && EQUAL !in n && Line(t) && StartsAt(s, q, n + [EQUAL] + t + [NL])
  }

  /** Where the loop goes on. */
  function Onward(n: bytes, t: bytes): nat {
    if NL in n then FirstNl(n) else |n| + 1 + |t|
  }

  lemma LineParts(s: bytes, q: nat, n: bytes, t: bytes)
    requires StartsAt(s, q, n + [EQUAL] + t + [NL])
    ensures StartsAt(s, q, n) && StartsAt(s, q + |n| + 1, t)
    ensures q + |n| + 1 + |t| < |s| && s[q + |n|] == EQUAL && s[q + |n| + 1 + |t|] == NL
  {
    assert n + [EQUAL] + t + [NL] == n + ([EQUAL] + (t + [NL]));
    StartsAtSplit(s, q, n, [EQUAL] + (t + [NL]));
    StartsAtSplit(s, q + |n|, [EQUAL], t + [NL]);
    StartsAtSplit(s, q + |n| + 1, t, [NL]);
    StartsAtOne(s, q + |n|, EQUAL);
    StartsAtOne(s, q + |n| + 1 + |t|, NL);
  }

  lemma NoneInside(s: bytes, p: nat, n: bytes, c: byte)
    requires StartsAt(s, p, n) && c !in n
    ensures forall i | p <= i < p + |n| :: s[i] != c
  {
    Pointwise(s, p, n);
    assert forall i | 0 <= i < |n| :: n[i] in n;
  }

  lemma LineFound(s: bytes, q: nat, n: bytes, t: bytes)
    requires LineAt(s, q, n, t)
    ensures Cspn(s, q, EQUAL) == |n| && At(s, q + |n|) == EQUAL && Cspn(s, q + |n| + 1, NL) == |t|
    ensures s[q..q + |n|] == n && s[q + |n| + 1..q + |n| + 1 + |t|] == t && q + |n| + 1 + |t| < |s|
    ensures At(s, q) == if n == [] then EQUAL else n[0]
    ensures At(s, q + |n| + 1 + |t|) == NL
  {
    hide Cspn;
    LineParts(s, q, n, t);
    NoneInside(s, q, n, EQUAL);
    NoneInside(s, q, n, NUL);
    NoneInside(s, q + |n| + 1, t, NL);
    NoneInside(s, q + |n| + 1, t, NUL);
    CspnIs(s, q, EQUAL, |n|);
    CspnIs(s, q + |n| + 1, NL, |t|);
  }

  lemma LineGoesOn(s: bytes, q: nat, n: bytes, t: bytes)
    requires LineAt(s, q, n, t)
    ensures Cspn(s, q, NL) == Onward(n, t) && At(s, q + Onward(n, t)) == NL
  {
    hide Cspn;
    LineParts(s, q, n, t);
    Pointwise(s, q, n);
    NoneInside(s, q, n, NUL);
    if NL in n {
      assert forall i | 0 <= i < FirstNl(n) :: n[i] == n[..FirstNl(n)][i];
      CspnIs(s, q, NL, FirstNl(n));
    } else {
      NoneInside(s, q, n, NL);
      NoneInside(s, q + |n| + 1, t, NL);
      NoneInside(s, q + |n| + 1, t, NUL);
      CspnIs(s, q, NL, |n| + 1 + |t|);
    }
  }

  /** Neither the end of the message nor its start reaches over a '='. */
  lemma StartsInLabel(s: bytes, q: nat, n: bytes, t: bytes, a: bytes)
    requires LineAt(s, q, n, t) && EQUAL !in a
    ensures StartsAt(s, q, a) <==> StartsAt(n, 0, a)
  {
    LineParts(s, q, n, t);
    if |n| < |a| {
      assert a[|n|] in a;
      Mismatch(s, q, a, |n|);
    } else {
      assert s[q..q + |a|] == s[q..q + |n|][..|a|];
      assert n[0..|a|] == n[..|a|];
    }
  }

  lemma LineAdded(acc: seq<Field>, s: bytes, q: nat, n: bytes, t: bytes, depth: nat)
    requires LineAt(s, q, n, t)
    ensures AddNv(acc, s, q, depth) ==
            if n == [] || StartsAt(n, 0, MSG_START) then None else AddStringField(acc, n, t, depth)
  {
    hide Cspn, AddStringField, LineAt, StartsAt;
    LineFound(s, q, n, t);
  }

  lemma {:induction false} SpnIs(s: bytes, p: nat, q: nat)
    requires p <= q && (forall i | p <= i < q :: At(s, i) == NL) && At(s, q) != NL
    ensures p + Spn(s, p, NL) == q
    decreases q - p
  {
    if p < q {
      SpnIs(s, p + 1, q);
    }
  }

  /** One turn of the loop, from newlines in front of the line at q on. */
  lemma LoopTurn(acc: seq<Field>, s: bytes, p: nat, q: nat, depth: nat)
    requires p <= q && (forall i | p <= i < q :: At(s, i) == NL) && At(s, q) != NUL && At(s, q) != NL
    ensures TextLoop(acc, s, p, depth) ==
            if StartsAt(s, q, MSG_END) then Some(acc)
            else if AddNv(acc, s, q, depth).None? then None
            else TextLoop(AddNv(acc, s, q, depth).value, s, q + Cspn(s, q, NL), depth)
  {
    hide Cspn, Spn, AddNv, StartsAt;
    SpnIs(s, p, q);
    if p < q {
      Mismatch(s, p, MSG_END, 0);
    }
  }

  /** The loop on a printed line, with all the ways its label has of ending it or being refused. */
  lemma LineTaken(acc: seq<Field>, s: bytes, p: nat, q: nat, n: bytes, t: bytes, depth: nat)
    requires LineAt(s, q, n, t) && (n == [] || n[0] != NL)
    requires p <= q && forall i | p <= i < q :: At(s, i) == NL
    ensures TextLoop(acc, s, p, depth) ==
            if StartsAt(n, 0, MSG_END) then Some(acc)
            else if n == [] || StartsAt(n, 0, MSG_START) then None
            else if AddStringField(acc, n, t, depth).None? then None
            else TextLoop(AddStringField(acc, n, t, depth).value, s, q + Onward(n, t), depth)
    ensures At(s, q + Onward(n, t)) == NL
  {
    hide Cspn, AddStringField, AddNv, TextLoop, StartsAt, Onward;
    LineStart(s, q, n, t);
    LineGoesOn(s, q, n, t);
    StartsInLabel(s, q, n, t, MSG_END);
    LineAdded(acc, s, q, n, t, depth);
    LoopTurn(acc, s, p, q, depth);
  }

  lemma LineStart(s: bytes, q: nat, n: bytes, t: bytes)
    requires LineAt(s, q, n, t)
    ensures At(s, q) == if n == [] then EQUAL else n[0]
    ensures At(s, q) != NUL
  {
    hide Cspn;
    LineFound(s, q, n, t);
    assert n != [] ==> n[0] in n;
  }

  lemma RestOfLine(s: bytes, q: nat, n: bytes, t: bytes, k: nat)
    requires LineAt(s, q, n, t) && k <= |n|
    ensures LineAt(s, q + k, n[k..], t)
  {
    hide StartsAt;
    assert n + [EQUAL] + t + [NL] == n[..k] + (n[k..] + [EQUAL] + t + [NL]);
    StartsAtSplit(s, q, n[..k], n[k..] + [EQUAL] + t + [NL]);
  }

  /** The rest of a label is the label of a line, too, and newlines lead up to it. */
  lemma NextLine(s: bytes, q: nat, n: bytes, t: bytes)
    requires LineAt(s, q, n, t) && NL in n
    ensures var r := Next(n);
      && LineAt(s, q + |n| - |r|, r, t)
      && forall i | q + FirstNl(n) <= i < q + |n| - |r| :: At(s, i) == NL
  {
    hide Next, FirstNl, StartsAt;
    NextShape(n);
    RestOfLine(s, q, n, t, |n| - |Next(n)|);
    LineParts(s, q, n, t);
    Pointwise(s, q, n);
  }

  // Fields from lines -------------------------------------------------------------------------------------

  /** What is added has the label read, and for its value what the text says. */
  lemma AddedLabel(acc: seq<Field>, n: bytes, t: bytes, depth: nat) returns (g: Field)
    requires n != [] && AddStringField(acc, n, t, depth).Some?
    ensures AddStringField(acc, n, t, depth).value == acc + [g] && Label(g) == n
    ensures (g.value.Str? ==> g.name != [] && g.name[0] != LPAREN)
    ensures TextToValue(TypeOf(g.value), t, depth) == Some(g.value)
  {
    hide TextToValue;
    var r := AddStringField(acc, n, t, depth).value;
    g := r[|acc|];
    if n[0] == LPAREN {
      assert n == [LPAREN, n[1], RPAREN] + n[3..];
    }
  }

  lemma AddedBack(acc: seq<Field>, g: Field, t: bytes, depth: nat)
    requires (g.value.Str? ==> g.name != [] && g.name[0] != LPAREN)
    requires TextToValue(TypeOf(g.value), t, depth) == Some(g.value)
    ensures Label(g) != [] && AddStringField(acc, Label(g), t, depth) == Some(acc + [g])
  {
    hide TextToValue;
    TypeReads(g.value, t, depth);
    if g.value.Str? {
      assert Label(g) == g.name;
    } else {
      assert Label(g)[3..] == g.name;
    }
  }

  lemma TypeReads(v: Value, t: bytes, depth: nat)
    requires TextToValue(TypeOf(v), t, depth) == Some(v)
    ensures !v.Uncompress?
  {
  }

  lemma LabelFits(g: Field)
    requires EQUAL !in Label(g) && Label(g) != [] && Label(g)[0] != NL
    requires !StartsAt(Label(g), 0, MSG_START) && !StartsAt(Label(g), 0, MSG_END)
    requires (g.value.Str? ==> g.name[0] != LPAREN)
    ensures FitsLine(g)
  {
    hide StartsAt;
    assert forall c | c in g.name :: c in Label(g);
    if g.value.Str? {
      assert Label(g) == g.name;
    }
  }

  lemma FitsLabel(g: Field)
    requires FitsLine(g)
    ensures EQUAL !in Label(g) && Label(g) != [] && Label(g)[0] != NL
    ensures !StartsAt(Label(g), 0, MSG_START) && !StartsAt(Label(g), 0, MSG_END)
    ensures NUL !in g.name ==> NUL !in Label(g)
  {
    hide StartsAt;
    if g.value.Str? {
      assert Label(g) == g.name;
    } else {
      assert Label(g)[0] == LPAREN;
      Mismatch(Label(g), 0, MSG_START, 0);
      Mismatch(Label(g), 0, MSG_END, 0);
    }
  }

  // What the parser makes of a line -----------------------------------------------------------------------

  lemma {:induction false} CutKeeps(b: bytes, c: byte)
    requires c !in b
    ensures c !in Cut(b)
    decreases |b|
  {
    if b != [] && b[0] != NUL {
      CutKeeps(b[1..], c);
    }
  }

  lemma SliceKeeps(s: bytes, p: nat, n: nat, c: byte)
    requires c !in s && c != NUL
    ensures c !in Slice(s, p, n)
  {
    var b := Slice(s, p, n);
    forall i | 0 <= i < n
      ensures b[i] != c
    {
      assert b[i] == At(s, p + i);
    }
  }

  ghost predicate Lines(l: seq<bytes>) {
    forall i | 0 <= i < |l| :: NL !in l[i]
  }

  lemma LinesSnoc(l: seq<bytes>, e: bytes)
    requires Lines(l) && NL !in e
    ensures Lines(l + [e])
  {
  }

  /** A text without newlines unpacks to elements without newlines. */
  lemma {:induction false} UnpackLines(s: bytes, p: nat, max: nat, acc: seq<bytes>)
    requires NL !in s && Lines(acc)
    ensures var r := Unpack(s, p, max, acc); r.Some? ==> Lines(r.value)
    decreases max - p
  {
    hide ScanInt, Cspn, Cut, Slice, Lines;
    if At(s, p) != NUL && p < max && ScanInt(s, p).Some? && ScanInt(s, p).value > 0 {
      var n := ScanInt(s, p).value;
      var colon := p + Cspn(s, p, COLON);
      if At(s, colon) != NUL {
        var e := Slice(s, colon + 1, n);
        SliceKeeps(s, colon + 1, n, NL);
        CutKeeps(e, NL);
        LinesSnoc(acc, Cut(e));
        UnpackLines(s, colon + 1 + n + 1, max, acc + [Cut(e)]);
      }
    }
  }

  ghost predicate OneLine(v: Value) {
    v.List? ==> Lines(v.l)
  }

  lemma ReadOneLine(t: nat, text: bytes, depth: nat)
    requires NL !in text
    ensures var v := TextToValue(t, text, depth); v.Some? ==> OneLine(v.value)
  {
    hide TextToMsg, Unpack, Base64.Decode, SymToNl;
    UnpackLines(text, 0, |text|, []);
  }

  lemma NvAddsOne(acc: seq<Field>, s: bytes, q: nat, depth: nat) returns (g: Field)
    requires AddNv(acc, s, q, depth).Some? && At(s, q) != NL && !StartsAt(s, q, MSG_END)
    ensures AddNv(acc, s, q, depth).value == acc + [g] && FitsLine(g) && OneLine(g.value)
  {
    hide AddStringField, Cspn, StartsAt, TextToValue, OneLine, FitsLine;
    var k := Cspn(s, q, EQUAL);
    var v := q + k + 1;
    var n, t := s[q..q + k], s[v..v + Cspn(s, v, NL)];
    g := AddedLabel(acc, n, t, depth);
    FreeSlice(s, q, k, EQUAL);
    FreeSlice(s, v, |t|, NL);
    ReadOneLine(TypeOf(g.value), t, depth);
    EndInSlice(s, q, k);
    assert n[0] == At(s, q);
    LabelFits(g);
  }

  lemma FreeSlice(s: bytes, q: nat, k: nat, c: byte)
    requires q + k <= |s| && forall i | q <= i < q + k :: At(s, i) != c
    ensures c !in s[q..q + k]
  {
    var b := s[q..q + k];
    forall i | 0 <= i < |b|
      ensures b[i] != c
    {
      assert b[i] == At(s, q + i);
    }
  }

  lemma EndInSlice(s: bytes, q: nat, k: nat)
    requires q + k <= |s|
    ensures StartsAt(s[q..q + k], 0, MSG_END) ==> StartsAt(s, q, MSG_END)
  {
    if k >= 4 {
      assert s[q..q + 4] == s[q..q + k][0..4];
    }
  }

  /** The loop ends with what it has read, fails, or adds one field and goes on. */
  lemma LoopCases(acc: seq<Field>, s: bytes, p: nat, depth: nat) returns (more: bool, g: Field, q: nat)
    ensures !more ==> TextLoop(acc, s, p, depth) in [None, Some(acc)]
    ensures more ==> TextLoop(acc, s, p, depth) == TextLoop(acc + [g], s, q, depth)
    ensures more ==> p < q <= |s| && FitsLine(g) && OneLine(g.value)
  {
    hide AddNv, Cspn, Spn, StartsAt, FitsLine, OneLine;
    more, g, q := false, Field([], Str([])), p;
    if At(s, p) != NUL && !StartsAt(s, p, MSG_END) {
      var n := p + Spn(s, p, NL);
      if n < |s| && !StartsAt(s, n, MSG_END) && AddNv(acc, s, n, depth).Some? {
        g := NvAddsOne(acc, s, n, depth);
        more, q := true, n + Cspn(s, n, NL);
        NvMoves(acc, s, n, depth);
      }
    }
  }

  lemma NvMoves(acc: seq<Field>, s: bytes, q: nat, depth: nat)
    requires AddNv(acc, s, q, depth).Some? && At(s, q) != NL
    ensures 0 < Cspn(s, q, NL)
  {
    hide AddStringField, StartsAt;
  }

  /** The loop keeps what it has read, and all it adds are fields that fit a line. */
  lemma {:induction false} LoopRange(acc: seq<Field>, s: bytes, p: nat, depth: nat)
    ensures var r := TextLoop(acc, s, p, depth);
      r.Some? ==>
        acc <= r.value && forall i | |acc| <= i < |r.value| :: FitsLine(r.value[i]) && OneLine(r.value[i].value)
    decreases |s| - p
  {
    hide TextLoop, FitsLine, OneLine;
    var more, g, q := LoopCases(acc, s, p, depth);
    if more {
      LoopRange(acc + [g], s, q, depth);
      var r := TextLoop(acc, s, p, depth);
      if r.Some? {
        assert acc <= r.value && r.value[|acc|] == g;
      }
    }
  }

  // Labels of several lines -------------------------------------------------------------------------------

  /** From the first newline of a label that holds the end of the message, the loop reads exactly the echoed fields. */
  lemma {:induction false} LabelEcho(
      acc: seq<Field>, s: bytes, q: nat, n: bytes, t: bytes, gs: seq<Field>, depth: nat)
    requires LineAt(s, q, n, t) && Ended(n)
    ensures TextLoop(acc, s, q + FirstNl(n), depth) == Some(acc + gs) <==> Echoed(n, t, gs, depth)
    decreases |n|
  {
    hide TextLoop, AddStringField, LineAt, StartsAt, FitsLine, TextToValue, Next, FirstNl, Label;
    var r := Next(n);
    var q' := q + |n| - |r|;
    NextShape(n);
    NextLine(s, q, n, t);
    LineTaken(acc, s, q + FirstNl(n), q', r, t, depth);
    if StartsAt(r, 0, MSG_END) {
      assert acc + gs == acc <==> gs == [];
    } else {
      LineTaken(acc, s, q', q', r, t, depth);
      EchoStep(acc, s, q', r, t, gs, depth);
      if gs != [] {
        LabelEcho(acc + [gs[0]], s, q', r, t, gs[1..], depth);
        assert acc + [gs[0]] + gs[1..] == acc + gs;
      }
    }
  }

  /** One field is echoed: it is the first of gs, or gs are not those read. */
  lemma EchoStep(acc: seq<Field>, s: bytes, q: nat, r: bytes, t: bytes, gs: seq<Field>, depth: nat)
    requires LineAt(s, q, r, t) && NL in r && r[0] != NL && !StartsAt(r, 0, MSG_END)
    ensures var l := TextLoop(acc, s, q, depth);
      if gs != [] && Label(gs[0]) == r && FitsLine(gs[0]) &&
         TextToValue(TypeOf(gs[0].value), t, depth) == Some(gs[0].value)
      then l == TextLoop(acc + [gs[0]], s, q + FirstNl(r), depth)
      else l != Some(acc + gs)
  {
    hide TextLoop, AddStringField, LineAt, StartsAt, FitsLine, TextToValue, Label;
    LineTaken(acc, s, q, q, r, t, depth);
    if !StartsAt(r, 0, MSG_START) && AddStringField(acc, r, t, depth).Some? {
      var g := AddedLabel(acc, r, t, depth);
      LineLabel(s, q, r, t);
      LabelFits(g);
      LoopRange(acc + [g], s, q + FirstNl(r), depth);
      assert gs != [] ==> (acc + gs)[|acc|] == gs[0];
      assert (acc + [g])[|acc|] == g;
    }
    if gs != [] && Label(gs[0]) == r && FitsLine(gs[0]) &&
       TextToValue(TypeOf(gs[0].value), t, depth) == Some(gs[0].value) {
      FitsLabel(gs[0]);
      StrName(gs[0]);
      AddedBack(acc, gs[0], t, depth);
    }
  }

  lemma LineLabel(s: bytes, q: nat, n: bytes, t: bytes)
    requires LineAt(s, q, n, t)
    ensures EQUAL !in n
  {
  }

  lemma StrName(g: Field)
    requires FitsLine(g)
    ensures (g.value.Str? ==> g.name != [] && g.name[0] != LPAREN)
  {
  }

  /** From the first newline of any other label, the loop adds at least one field before it leaves the line. */
  lemma {:induction false} LabelRun(acc: seq<Field>, s: bytes, q: nat, n: bytes, t: bytes, depth: nat)
    returns (mid: seq<Field>)
    requires LineAt(s, q, n, t) && NL in n && !Ended(n) && TextLoop(acc, s, q + FirstNl(n), depth).Some?
    ensures mid != [] && Unended(mid) && At(s, q + |n| + 1 + |t|) == NL
    ensures TextLoop(acc, s, q + FirstNl(n), depth) == TextLoop(acc + mid, s, q + |n| + 1 + |t|, depth)
    decreases |n|
  {
    hide TextLoop, AddStringField, LineAt, StartsAt, TextToValue, Next, FirstNl, Label;
    var r := Next(n);
    var q' := q + |n| - |r|;
    NextShape(n);
    NextLine(s, q, n, t);
    LineTaken(acc, s, q + FirstNl(n), q', r, t, depth);
    var g := AddedLabel(acc, r, t, depth);
    if NL in r {
      var rest := LabelRun(acc + [g], s, q', r, t, depth);
      mid := [g] + rest;
      assert acc + [g] + rest == acc + mid;
    } else {
      mid := [g];
    }
  }

  /** No label of these fields holds the end of the message. */
  ghost predicate Unended(fs: seq<Field>) {
    forall i | 0 <= i < |fs| :: !Ended(Label(fs[i]))
  }

  /** How many fields stand in front of the first whose label holds the end of the message. */
  ghost function Lead(fs: seq<Field>): nat {
    if fs == [] || Ended(Label(fs[0])) then 0 else 1 + Lead(fs[1..])
  }

  lemma {:induction false} LeadSplit(a: seq<Field>, b: seq<Field>)
    requires Unended(a)
    ensures Lead(a + b) == |a| + Lead(b)
    decreases |a|
  {
    if a == [] {
      assert a + b == b;
    } else {
      assert (a + b)[1..] == a[1..] + b;
      LeadSplit(a[1..], b);
    }
  }

  /** Among these fields one has a newline in its label. */
  ghost predicate Broken(fs: seq<Field>) {
    fs != [] && !Ended(Label(fs[0])) && (NL in Label(fs[0]) || Broken(fs[1..]))
  }

  ghost predicate OnLine(f: Field, depth: nat) {
    NUL !in f.name && FitsLine(f) && ValueToText(f.value, depth).Some? && Line(ValueToText(f.value, depth).value)
  }

  lemma OnLineParts(f: Field, depth: nat)
    requires OnLine(f, depth)
    ensures FitsLine(f) && ValueToText(f.value, depth).Some?
  {
  }

  lemma LineLength(f: Field, t: bytes)
    ensures |LineOf(f, t)| == |Label(f)| + 1 + |t|
  {
  }

  lemma OnLineAt(s: bytes, q: nat, f: Field, depth: nat)
    requires OnLine(f, depth) && StartsAt(s, q, LineOf(f, ValueToText(f.value, depth).value) + [NL])
    ensures LineAt(s, q, Label(f), ValueToText(f.value, depth).value)
  {
    hide ValueToText, StartsAt, FitsLine;
    FitsLabel(f);
  }

  lemma FieldsTextCases(fs: seq<Field>, depth: nat)
    requires FieldsToText(fs, depth).Some?
    ensures fs == [] ==> FieldsToText(fs, depth).value == []
    ensures fs != [] ==>
      && ValueToText(fs[0].value, depth).Some? && FieldsToText(fs[1..], depth).Some?
      && FieldsToText(fs, depth).value ==
         LineOf(fs[0], ValueToText(fs[0].value, depth).value) + [NL] + FieldsToText(fs[1..], depth).value
  {
    hide ValueToText, LineOf;
  }

  /**
   * Fields in front of the first whose label holds the end of the message are read as at least as many; and as more,
   * if a newline is in one of their labels.
   */
  lemma {:induction false} LoopLead(acc: seq<Field>, s: bytes, p: nat, q: nat, fs: seq<Field>, depth: nat)
    requires (forall i | 0 <= i < |fs| :: OnLine(fs[i], depth)) && FieldsToText(fs, depth).Some?
    requires StartsAt(s, q, FieldsToText(fs, depth).value + MSG_END) && TextLoop(acc, s, p, depth).Some?
    requires p <= q && forall i | p <= i < q :: At(s, i) == NL
    ensures var r := TextLoop(acc, s, p, depth).value;
      acc <= r && Lead(r[|acc|..]) >= Lead(fs) + if Broken(fs) then 1 else 0
    decreases |fs|
  {
    hide TextLoop, FieldsToText, LineOf, ValueToText, OnLine, StartsAt, FitsLine, LineAt, Ended, Label;
    LoopRange(acc, s, p, depth);
    if fs != [] && !Ended(Label(fs[0])) {
      FieldsTextCases(fs, depth);
      var f := fs[0];
      var t, rest := ValueToText(f.value, depth).value, FieldsToText(fs[1..], depth).value;
      assert FieldsToText(fs, depth).value + MSG_END == (LineOf(f, t) + [NL]) + (rest + MSG_END);
      StartsAtSplit(s, q, LineOf(f, t) + [NL], rest + MSG_END);
      var more := LineRun(acc, s, p, q, f, depth);
      var next := q + |LineOf(f, t)|;
      LoopLead(acc + more, s, next, next + 1, fs[1..], depth);
      var r := TextLoop(acc, s, p, depth).value;
      LeadSplit(more, r[|acc| + |more|..]);
      assert r[|acc|..] == more + r[|acc| + |more|..];
    }
  }

  /** The fields that one line adds. */
  lemma LineRun(acc: seq<Field>, s: bytes, p: nat, q: nat, f: Field, depth: nat) returns (more: seq<Field>)
    requires OnLine(f, depth) && StartsAt(s, q, LineOf(f, ValueToText(f.value, depth).value) + [NL])
    requires !Ended(Label(f)) && TextLoop(acc, s, p, depth).Some?
    requires p <= q && forall i | p <= i < q :: At(s, i) == NL
    ensures |more| >= (if NL in Label(f) then 2 else 1) && Unended(more)
    ensures var next := q + |LineOf(f, ValueToText(f.value, depth).value)|;
      At(s, next) == NL && TextLoop(acc, s, p, depth) == TextLoop(acc + more, s, next, depth)
  {
    hide TextLoop, ValueToText, StartsAt, FitsLine, LineAt, Ended, Label, LineOf, OnLine, AddStringField, FirstNl;
    OnLineParts(f, depth);
    var t := ValueToText(f.value, depth).value;
    OnLineAt(s, q, f, depth);
    FitsLabel(f);
    LineLength(f, t);
    LineTaken(acc, s, p, q, Label(f), t, depth);
    var g := AddedLabel(acc, Label(f), t, depth);
    more := [g];
    if NL in Label(f) {
      var mid := LabelRun(acc + [g], s, q, Label(f), t, depth);
      more := [g] + mid;
      assert acc + [g] + mid == acc + more;
    }
  }
}
