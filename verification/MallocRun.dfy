/** Runs of the allocator of lib/clplumbing/cl_malloc.c under arbitrary requests. */
module MallocRun {
  import opened Bytes
  import opened MallocIndex
  import opened Malloc

  /** A request, on the k-th pointer the program holds. Room and inPlace are the system's answers. */
  datatype Op =
    | Alloc(size: nat, room: bool)
    | Release(k: nat)
    | Resize(k: nat, size: nat, room: bool, inPlace: bool)
    | Put(k: nat, at: nat, q: bytes)

  function Handle(held: seq<Block?>, k: nat): Block? {
    if k < |held| then held[k] else null
  }

  ghost predicate Distinct(held: seq<Block?>) {
    forall i, j | 0 <= i < j < |held| && held[i] != null :: held[i] != held[j]
  }

  /** The pointers held are exactly these blocks, each once. */
  ghost predicate Covers(live: set<Block>, held: seq<Block?>) {
    && Distinct(held)
    && (forall k | 0 <= k < |held| && held[k] != null :: held[k] in live)
    && (forall b | b in live :: b in held)
  }

  /** The blocks handed out are those the program holds, each once; where they hold their requests, guards are sound. */
  ghost predicate Owns(a: Allocator, held: seq<Block?>)
    reads a, a.repr
  {
    a.Valid() && Covers(a.live + a.short, held) && forall b | b in a.live :: b.Guarded()
  }

  /** What a program knows of the k-th pointer it was given. */
  datatype Kept = Gone | Kept(size: nat, bucket: nat, contents: bytes)

  ghost function Look(b: Block?): Kept
    reads b
  {
    if b == null then Gone else Kept(b.reqsize, b.bucket, b.Contents())
  }

  ghost function Looks(held: seq<Block?>): (ks: seq<Kept>)
    reads held
    ensures |ks| == |held|
  {
    seq(|held|, i requires 0 <= i < |held| reads held => Look(held[i]))
  }

  function At(ks: seq<Kept>, k: nat): Kept {
    if k < |ks| then ks[k] else Gone
  }

  function With(ks: seq<Kept>, k: nat, now: Kept): seq<Kept> {
    if k < |ks| then ks[k := now] else ks + [now]
  }

  /** What a request may do to the blocks held: nothing to any block but its own. */
  ghost predicate Follows(op: Op, before: seq<Kept>, after: seq<Kept>) {
    match op
    case Alloc(size, room) => exists now :: after == before + [now] && Allots(now, size, room)
    case Release(k) => At(before, k).Kept? && after == before[k := Gone]
    case Resize(k, size, room, _) =>
      var was := At(before, k);
      if was.Kept? && size > 0 && was.bucket >= NUMBUCKS && !room then after == before
      else exists now :: after == With(before, k, now) && Resizes(was, now, size, room)
    case Put(k, at, q) =>
      var was := At(before, k);
      if was.Kept? && at + |q| <= |was.contents| then
        after == before[k := was.(contents := Spliced(was.contents, at, q))]
      else after == before
  }

  function Spliced(s: bytes, at: nat, q: bytes): bytes
    requires at + |q| <= |s|
  {
    s[..at] + q + s[at + |q|..]
  }

  /** A block for a new request; without room it may still come from a free list. */
  ghost predicate Allots(now: Kept, size: nat, room: bool) {
    && (size == 0 || size > MAXMALLOC ==> now.Gone?)
    && (now.Gone? ==> size == 0 || size > MAXMALLOC || !room)
    && (now.Kept? ==> now.size == |now.contents| == size)
  }

  /** A block resized: in its bucket while that holds it, else with its front kept. */
  ghost predicate Resizes(was: Kept, now: Kept, size: nat, room: bool) {
    if size == 0 then now.Gone?
    else if was.Kept? && !Outgrows(was.bucket, size) then
      now.Kept? && now.size == |now.contents| == size && KeepsFront(now.contents, was.contents)
      && now.bucket == was.bucket
    else Allots(now, size, room) && (was.Kept? && now.Kept? ==> KeepsFront(now.contents, was.contents))
  }

  function Held(held: seq<Block?>): nat {
    if held == [] then 0 else Held(held[1..]) + if held[0] == null then 0 else 1
  }

  ghost function Blocks(held: seq<Block?>): set<Block> {
    set k | 0 <= k < |held| && held[k] != null :: held[k]
  }

  lemma {:induction false} HeldIsSize(held: seq<Block?>)
    requires Distinct(held)
    ensures |Blocks(held)| == Held(held)
    decreases |held|
  {
    if held != [] {
      var rest := held[1..];
      assert forall i | 0 <= i < |rest| :: rest[i] == held[i + 1];
      HeldIsSize(rest);
      if held[0] == null {
        assert Blocks(held) == Blocks(rest);
      } else {
        assert held[0] !in Blocks(rest);
        assert Blocks(held) == Blocks(rest) + {held[0]};
      }
    }
  }

  /** As many blocks are unfreed as the program holds. */
  lemma CountsAgree(a: Allocator, held: seq<Block?>)
    requires Owns(a, held)
    ensures a.numalloc - a.numfree == Held(held)
  {
    hide Held, Allocator.Lists, Distinct;
    HeldIsSize(held);
    assert a.live !! a.short;
    assert Blocks(held) == a.live + a.short;
  }

  method DoAlloc(a: Allocator, held: seq<Block?>, size: nat, room: bool) returns (next: seq<Block?>, astray: bool)
    requires Owns(a, held) && a.short == {}
    modifies a, a.repr
    ensures Owns(a, next) && fresh(a.repr - old(a.repr)) && (astray <==> Overruns(size, room))
    ensures |next| == |held| + 1 && next[..|held|] == held && (next[|held|] != null ==> next[|held|].reqsize == size)
    ensures next[|held|] == null <==> NoBlock(old(a.lists), size, room)
    ensures a.short == Given(next[|held|], astray) && (astray ==> next[|held|] != null)
    ensures !astray ==> Follows(Alloc(size, room), old(Looks(held)), Looks(next))
    ensures forall b | b in old(a.live) :: b.View() == old(b.View())
  {
    hide Allocator.Valid, Serves;
    var ret;
    ret, astray := a.Malloc(size, room);
    next := held + [ret];
    forall b | b in a.live + a.short
      ensures b in next && (b in a.live ==> b.Guarded())
    {
      if b != ret {
        assert b in old(a.live) && b.View() == old(b.View());
        assert b in held;
      } else {
        assert next[|held|] == b;
      }
    }
    assert Looks(next) == old(Looks(held)) + [Look(ret)];
  }

  method DoRelease(a: Allocator, held: seq<Block?>, k: nat) returns (ok: bool, next: seq<Block?>)
    requires Owns(a, held) && a.short == {}
    modifies a, a.repr
    ensures Owns(a, next) && fresh(a.repr - old(a.repr)) && a.short == {}
    ensures ok <==> Handle(held, k) != null
    ensures next == if ok then held[k := null] else held
    ensures ok ==> Follows(Release(k), old(Looks(held)), Looks(next))
    ensures forall b | b in old(a.live) && b != Handle(held, k) :: b.View() == old(b.View())
  {
    hide Allocator.Valid;
    var ptr := Handle(held, k);
    assert a.Tables() by { TablesOf(a); }
    ok := a.Free(ptr);
    next := if ok then held[k := null] else held;
    forall b | b in a.live
      ensures b in next && b.Guarded()
    {
      var i :| 0 <= i < |held| && held[i] == b;
      assert next[i] == b;
    }
    if ok {
      assert forall i | 0 <= i < |held| && i != k && held[i] != null ::
          held[i] in old(a.live) && held[i] != ptr && held[i].View() == old(held[i].View());
      assert Looks(next) == old(Looks(held))[k := Gone];
    }
  }

  lemma TablesOf(a: Allocator)
    requires a.Valid()
    ensures a.Tables()
  {
  }

  /** The table of pointers after realloc gave ret for the k-th one. */
  function Updated(held: seq<Block?>, k: nat, ret: Block?): (next: seq<Block?>)
    ensures |next| >= |held|
  {
    if k < |held| then held[k := ret] else held + [ret]
  }

  /** The system could not resize a block above the buckets, and left it alone. */
  ghost predicate Stays(ptr: Block?, size: nat, room: bool)
    reads ptr
  {
    ptr != null && size > 0 && ptr.bucket >= NUMBUCKS && !room
  }

  /** When cl_realloc returns null. */
  ghost predicate NoResize(a: Allocator, ptr: Block?, size: nat, room: bool)
    reads a, ptr
  {
    || size == 0
    || (if ptr == null || Outgrows(ptr.bucket, size) then NoBlock(a.lists, size, room)
        else ptr.bucket >= NUMBUCKS && !room)
  }

  /** When cl_realloc returns the pointer it was given. */
  ghost predicate InPlace(ptr: Block?, size: nat, room: bool, inPlace: bool)
    reads ptr
  {
    ptr != null && size > 0 && !Outgrows(ptr.bucket, size) && (ptr.bucket < NUMBUCKS || (room && inPlace))
  }

  /** The request goes through cl_malloc and is given a block too small for it. */
  ghost predicate ResizeOverruns(ptr: Block?, size: nat, room: bool)
    reads ptr
  {
    (ptr == null || Outgrows(ptr.bucket, size)) && Overruns(size, room)
  }

  method DoResize(a: Allocator, held: seq<Block?>, k: nat, size: nat, room: bool, inPlace: bool)
    returns (next: seq<Block?>, ret: Block?, astray: bool)
    requires Owns(a, held) && a.short == {}
    modifies a, a.repr
    ensures Owns(a, next) && fresh(a.repr - old(a.repr)) && a.short == Given(ret, astray)
    ensures astray <==> old(ResizeOverruns(Handle(held, k), size, room))
    ensures astray ==> ret != null
    ensures ret == null <==> old(NoResize(a, Handle(held, k), size, room))
    ensures ret == Handle(held, k) && ret != null <==> old(InPlace(Handle(held, k), size, room, inPlace))
    ensures next == if old(Stays(Handle(held, k), size, room)) then held else Updated(held, k, ret)
    ensures ret != null ==> ret.reqsize == size
    ensures ret != null && Handle(held, k) != null && !old(Outgrows(Handle(held, k).bucket, size)) ==>
      ret.bucket == old(Handle(held, k).bucket)
    ensures ret != null && Handle(held, k) != null ==> KeepsFront(ret.Contents(), old(Handle(held, k).Contents()))
    ensures forall b | b in old(a.live) && (b != Handle(held, k) || old(Stays(b, size, room))) ::
      b.View() == old(b.View())
  {
    hide Allocator.Valid, Overruns, Outgrows, KeepsFront, Block.Short, NoBlock, Filed, Left;
    var ptr := Handle(held, k);
    TablesOf(a);
    var stays := ptr != null && size > 0 && ptr.bucket >= NUMBUCKS && !room;
    var ok;
    ok, ret, astray := a.Realloc(ptr, size, room, inPlace);
    next := if stays then held else Updated(held, k, ret);
    HeldAfter(held, k, ret, stays, old(a.live), a.live + a.short);
    forall b | b in a.live
      ensures b.Guarded()
    {
      if b != ret {
        assert b.View() == old(b.View());
      }
    }
  }

  /** DoResize, as the program sees it. */
  method FollowResize(a: Allocator, held: seq<Block?>, k: nat, size: nat, room: bool, inPlace: bool)
    returns (next: seq<Block?>, astray: bool)
    requires Owns(a, held) && a.short == {}
    modifies a, a.repr
    ensures Owns(a, next) && fresh(a.repr - old(a.repr))
    ensures if astray then Overruns(size, room) && a.short != {} else a.short == {}
    ensures !astray ==> Follows(Resize(k, size, room, inPlace), old(Looks(held)), Looks(next))
  {
    hide Allocator.Valid, Overruns, KeepsFront, Block.Short, NoBlock, Follows, BucketSize;
    var ret;
    next, ret, astray := DoResize(a, held, k, size, room, inPlace);
    ghost var stays := old(Stays(Handle(held, k), size, room));
    forall i | 0 <= i < |held| && held[i] != null && (i != k || stays)
      ensures Look(held[i]) == old(Look(held[i]))
    {
      assert held[i] in old(a.live) && held[i].View() == old(held[i].View());
    }
    assert Looks(next) == if stays then old(Looks(held)) else With(old(Looks(held)), k, Look(ret));
    if !astray {
      if ret != null {
        assert next[if k < |held| then k else |held|] == ret;
        LiveOf(a, ret);
      }
      ResizeFollows(old(Looks(held)), k, size, room, inPlace, Look(ret), old(a.lists));
    }
  }

  lemma ResizeFollows(ks: seq<Kept>, k: nat, size: nat, room: bool, inPlace: bool, now: Kept, lists: seq<seq<Block>>)
    requires size == 0 ==> now.Gone?
    requires now.Kept? ==> now.size == |now.contents| == size
    requires var was := At(ks, k);
      && (was.Kept? && now.Kept? ==> KeepsFront(now.contents, was.contents))
      && (size > 0 ==>
            if was.Kept? && !Outgrows(was.bucket, size) then
              if was.bucket >= NUMBUCKS && !room then now.Gone? else now.Kept? && now.bucket == was.bucket
            else now.Gone? <==> NoBlock(lists, size, room))
    ensures var was := At(ks, k);
      var stays := was.Kept? && size > 0 && was.bucket >= NUMBUCKS && !room;
      Follows(Resize(k, size, room, inPlace), ks, if stays then ks else With(ks, k, now))
  {
    hide KeepsFront, AtHand;
  }

  lemma HeldAfter(held: seq<Block?>, k: nat, ret: Block?, keep: bool, live: set<Block>, after: set<Block>)
    requires Covers(live, held) && after == Survivors(live, Handle(held, k), keep) + Given(ret, true)
    requires keep ==> ret == null
    requires ret != null ==> ret !in live || ret == Handle(held, k)
    ensures Covers(after, if keep then held else Updated(held, k, ret))
  {
    var next := if keep then held else Updated(held, k, ret);
    forall b | b in after
      ensures b in next
    {
      if b == ret {
        assert next[if k < |held| then k else |held|] == b;
      } else {
        var i :| 0 <= i < |held| && held[i] == b;
        assert next[i] == b;
      }
    }
  }

  method DoPut(a: Allocator, held: seq<Block?>, k: nat, at: nat, q: bytes)
    requires Owns(a, held) && a.short == {}
    modifies a.repr
    ensures Owns(a, held)
    ensures Follows(Put(k, at, q), old(Looks(held)), Looks(held)) && a.short == {}
    ensures forall b | b in old(a.live) && b != Handle(held, k) :: b.View() == old(b.View())
  {
    hide Allocator.Valid;
    var b := Handle(held, k);
    if b != null && at + |q| <= b.reqsize {
      LiveOf(a, b);
      a.OwnerWrites(b, at, q);
      forall x | x in a.live
        ensures x.Guarded()
      {
      }
      assert Looks(held) == old(Looks(held))[k := Look(b)];
    }
  }

  lemma LiveOf(a: Allocator, b: Block)
    requires a.Valid() && b in a.live
    ensures b in a.repr && b.Live() && |b.Contents()| == b.reqsize
  {
  }

  /**
   * Any run from cl_malloc_init on, up to the request that the allocator does not survive, if there is one: freeing
   * a pointer the program does not hold, or asking for a size that is given too small a block. Each request before
   * that one is followed, and no block but its own is touched.
   */
  method Replay(ops: seq<Op>) returns (a: Allocator, held: seq<Block?>, done: nat, ghost looks: seq<seq<Kept>>)
    ensures Owns(a, held) && a.numalloc - a.numfree == Held(held)
    ensures done <= |ops| && |looks| == done + 1 && looks[0] == []
    ensures forall i | 0 <= i < done :: Follows(ops[i], looks[i], looks[i + 1])
    ensures done == |ops| ==> a.short == {} && looks[done] == Looks(held)
    ensures done < |ops| ==> Fatal(a, held, ops[done])
  {
    hide Allocator.Valid, Owns, Overruns, Outgrows, Block.Short, Follows;
    a := new Allocator();
    held, done, looks := [], 0, [[]];
    Nothing(a);
    while done < |ops|
      invariant done <= |ops| && Owns(a, held) && a.short == {} && fresh(a) && fresh(a.repr)
      invariant |looks| == done + 1 && looks[0] == [] && looks[done] == Looks(held)
      invariant forall i | 0 <= i < done :: Follows(ops[i], looks[i], looks[i + 1])
    {
      var ok, astray := true, false;
      match ops[done] {
        case Alloc(size, room) =>
          held, astray := DoAlloc(a, held, size, room);
        case Release(k) =>
          ok, held := DoRelease(a, held, k);
        case Resize(k, size, room, inPlace) =>
          held, astray := FollowResize(a, held, k, size, room, inPlace);
        case Put(k, at, q) =>
          DoPut(a, held, k, at, q);
      }
      if !ok || astray {
        break;
      }
      looks := looks + [Looks(held)];
      done := done + 1;
    }
    CountsAgree(a, held);
  }

  /** How a run ends that does not go on: nothing to free, or a block just given that is too small for its request. */
  ghost predicate Fatal(a: Allocator, held: seq<Block?>, op: Op)
    reads a
  {
    match op
    case Alloc(size, room) => Overruns(size, room) && a.short != {}
    case Release(k) => Handle(held, k) == null && a.short == {}
    case Resize(_, size, room, _) => Overruns(size, room) && a.short != {}
    case Put(_, _, _) => false
  }

  lemma Nothing(a: Allocator)
    requires a.Valid() && a.live == {} && a.short == {}
    ensures Owns(a, [])
  {
  }
}
