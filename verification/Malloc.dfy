/** lib/clplumbing/cl_malloc.c: the allocator over its buckets of reusable blocks. */
module Malloc {
  import opened Bytes
  import opened MallocIndex

  const HA_MALLOC_MAGIC := 0xFEEDBEEF
  const HA_FREE_MAGIC := 0xDEADBEEF
  const GUARD: bytes := [0x5A, 0xA5, 0x5A, 0xA5]

  /** SIZE_MAX less what a header of 24 octets, the guard and one octet take. */
  const MAXMALLOC := 0xFFFF_FFFF_FFFF_FFFF - 29

  /** struct cl_bucket and the memory behind it. */
  class Block {
    var magic: nat
    var reqsize: nat
    var bucket: nat
    var next: Block?
    var mem: bytes

    constructor (size: nat, bucket: nat, mem: bytes)
      ensures magic == HA_MALLOC_MAGIC && reqsize == size && this.bucket == bucket && this.mem == mem && next == null
    {
      magic, reqsize, this.bucket, this.mem, next := HA_MALLOC_MAGIC, size, bucket, mem, null;
    }

    /** The guard octets behind the request. */
    ghost predicate Guarded()
      reads this
    {
      reqsize + 4 <= |mem| && mem[reqsize..reqsize + 4] == GUARD
    }

    /** What the owner of the block sees. */
    ghost function Contents(): bytes
      reads this
    {
      if reqsize <= |mem| then mem[..reqsize] else mem
    }

    /** The block but for its place on a list. */
    ghost function View(): (bytes, nat, nat, nat)
      reads this
    {
      (mem, reqsize, bucket, magic)
    }

    /** A block handed out: it holds its request and the guard. */
    ghost predicate Live()
      reads this
    {
      && magic == HA_MALLOC_MAGIC && 0 < reqsize && reqsize + 4 <= |mem|
      && (bucket < NUMBUCKS ==> reqsize <= BucketSize(bucket) && |mem| == BucketSize(bucket) + 4)
    }

    /** A block handed out that is too small for its request: its guard is written behind it. */
    ghost predicate Short()
      reads this
    {
      magic == HA_MALLOC_MAGIC && bucket < NUMBUCKS && |mem| == BucketSize(bucket) + 4 <= reqsize
    }

    /** A block on the list of bucket j. */
    ghost predicate Free(j: nat)
      reads this
    {
      magic == HA_FREE_MAGIC && bucket == j && |mem| == BucketSize(j) + 4
    }

    /** ADD_GUARD */
    method AddGuard()
      requires reqsize + 4 <= |mem|
      modifies this`mem
      ensures |mem| == old(|mem|) && mem[..reqsize] == old(mem[..reqsize]) && Guarded()
    {
      mem := mem[..reqsize] + GUARD + mem[reqsize + 4..];
    }

    /** The owner writes inside the block. */
    method Write(at: nat, q: bytes)
      requires at + |q| <= reqsize && reqsize + 4 <= |mem|
      modifies this`mem
      ensures |mem| == old(|mem|) && Contents() == old(Contents()[..at]) + q + old(Contents()[at + |q|..])
      ensures old(Guarded()) ==> Guarded()
    {
      ghost var was := mem;
      mem := mem[..at] + q + mem[at + |q|..];
      assert mem[..reqsize] == was[..at] + q + was[at + |q|..reqsize];
      assert mem[reqsize..reqsize + 4] == was[reqsize..reqsize + 4];
      assert was[..reqsize][..at] == was[..at] && was[..reqsize][at + |q|..] == was[at + |q|..reqsize];
    }
  }

  /** l is the chain of next pointers from head, without repetition. */
  ghost predicate Chain(head: Block?, l: seq<Block>)
    reads l
  {
    if l == [] then head == null else head == l[0] && l[0] !in l[1..] && Chain(l[0].next, l[1..])
  }

  lemma {:induction false} ChainDistinct(head: Block?, l: seq<Block>, i: nat, k: nat)
    requires Chain(head, l) && i < k < |l|
    ensures l[i] != l[k]
    decreases |l|
  {
    if i == 0 {
      assert l[k] == l[1..][k - 1];
    } else {
      ChainDistinct(l[0].next, l[1..], i - 1, k - 1);
    }
  }

  ghost predicate AllFree(l: seq<Block>, j: nat)
    reads l
  {
    forall i | 0 <= i < |l| :: l[i].Free(j)
  }

  ghost predicate Within(l: seq<Block>, repr: set<Block>) {
    forall i | 0 <= i < |l| :: l[i] in repr
  }

  lemma FirstBucket()
    ensures BucketSize(0) == 32
  {
  }

  lemma NextBucket(j: nat)
    ensures BucketSize(j + 1) == BucketSize(j) * 2
  {
  }

  lemma NoChain()
    ensures Chain(null, [])
  {
  }

  /** The empty lists and the doubling bucket sizes. */
  method InitTables() returns (buckets: seq<Block?>, sizes: seq<nat>)
    ensures |buckets| == |sizes| == NUMBUCKS
    ensures forall k | 0 <= k < NUMBUCKS :: sizes[k] == BucketSize(k) && buckets[k] == null
  {
    hide BucketSize;
    FirstBucket();
    var cursize, j := 32, 0;
    buckets, sizes := [], [];
    while j < NUMBUCKS
      invariant j <= NUMBUCKS && |buckets| == |sizes| == j && cursize == BucketSize(j)
      invariant forall k | 0 <= k < j :: sizes[k] == BucketSize(k) && buckets[k] == null
    {
      buckets, sizes := buckets + [null], sizes + [cursize];
      NextBucket(j);
      cursize := cursize * 2;
      j := j + 1;
    }
  }

  /** cl_new_mem: null when the system has no room. */
  method NewMem(size: nat, numbuck: nat, room: bool) returns (b: Block?)
    ensures room <==> b != null
    ensures b != null ==> fresh(b) && b.magic == HA_MALLOC_MAGIC && b.reqsize == size && b.bucket == numbuck
    ensures b != null ==> |b.mem| == (if numbuck < NUMBUCKS then BucketSize(numbuck) else size) + 4
  {
    var allocsize := if numbuck < NUMBUCKS then BucketSize(numbuck) else size;
    if !room {
      return null;
    }
    b := new Block(size, numbuck, Zeros(allocsize + 4));
  }

  class Allocator {
    /** cl_malloc_buckets, cl_bucket_sizes and the counters of memstats */
    var buckets: seq<Block?>
    var sizes: seq<nat>
    var numalloc: nat
    var numfree: nat

    /** The chains, the blocks handed out that hold their requests, and all blocks besides those that do not. */
    ghost var lists: seq<seq<Block>>
    ghost var live: set<Block>
    ghost var repr: set<Block>

    /** The blocks handed out that are too small for their requests. */
    ghost var short: set<Block>

    ghost predicate Tables()
      reads this`buckets, this`sizes, this`lists
    {
      && |buckets| == |sizes| == |lists| == NUMBUCKS
      && forall j | 0 <= j < NUMBUCKS :: sizes[j] == BucketSize(j)
    }

    ghost predicate ListOk(j: nat)
      requires Tables() && j < NUMBUCKS
      reads this`buckets, this`sizes, this`lists, this`repr, repr
    {
      Within(lists[j], repr) && Chain(buckets[j], lists[j]) && AllFree(lists[j], j)
    }

    ghost predicate Lists()
      requires Tables()
      reads this`buckets, this`sizes, this`lists, this`repr, repr
    {
      forall j: nat | j < NUMBUCKS :: ListOk(j)
    }

    ghost predicate LiveOk()
      reads this`live, this`repr, repr
    {
      live <= repr && forall b | b in live :: b.Live()
    }

    ghost predicate Valid()
      reads this, repr
    {
      Tables() && Lists() && LiveOk() && short !! repr && numalloc == numfree + |live| + |short|
    }

    ghost predicate OnList(b: Block)
      requires Tables()
      reads this`buckets, this`sizes, this`lists
    {
      exists j: nat :: j < NUMBUCKS && b in lists[j]
    }

    /** No block is both handed out and on a list, on two lists, or twice on one list. */
    lemma Disjoint(j: nat, i: nat)
      requires Valid() && j < NUMBUCKS && i < |lists[j]|
      ensures lists[j][i] !in live
      ensures forall k: nat, n: nat | k < NUMBUCKS && n < |lists[k]| && (k != j || n != i) :: lists[k][n] != lists[j][i]
    {
      assert ListOk(j);
      forall k: nat, n: nat | k < NUMBUCKS && n < |lists[k]| && (k != j || n != i)
        ensures lists[k][n] != lists[j][i]
      {
        assert ListOk(k);
        assert lists[k][n].Free(k) && lists[j][i].Free(j);
        if k == j {
          ChainDistinct(buckets[j], lists[j], if n < i then n else i, if n < i then i else n);
        }
      }
      assert lists[j][i].Free(j);
    }

    /** cl_malloc_init */
    constructor ()
      ensures Valid() && live == {} && repr == {} && short == {} && numalloc == 0 && numfree == 0
    {
      var heads, table := InitTables();
      buckets, sizes, numalloc, numfree := heads, table, 0, 0;
      lists, live, repr, short := seq(NUMBUCKS, _ => []), {}, {}, {};
      new;
      hide BucketSize, Chain;
      NoChain();
    }

    /** The first block of list j, taken off it. */
    method Pop(j: nat) returns (b: Block)
      requires Tables() && Lists() && j < NUMBUCKS && buckets[j] != null
      modifies this`buckets, this`lists
      ensures Tables() && Lists()
      ensures old(lists[j]) == [b] + lists[j] && lists == old(lists)[j := lists[j]]
      ensures b in repr && b.Free(j) && !OnList(b)
    {
      hide BucketSize;
      assert ListOk(j);
      b := buckets[j];
      ghost var l := lists[j];
      assert b.Free(j) && l == [b] + l[1..];
      buckets, lists := buckets[j := b.next], lists[j := l[1..]];
      forall k: nat | k < NUMBUCKS
        ensures ListOk(k) && b !in lists[k]
      {
        if k != j {
          assert old(ListOk(k));
          assert AllFree(lists[k], k);
        }
      }
    }

    /** A freed block, put in front of list j. */
    method Push(b: Block, j: nat)
      requires Tables() && Lists() && j < NUMBUCKS && b in repr && !OnList(b) && b.Free(j)
      modifies this`buckets, this`lists, b`next
      ensures Tables() && Lists() && lists == old(lists)[j := [b] + old(lists[j])]
      ensures b.Free(j)
    {
      hide BucketSize;
      assert ListOk(j) && b !in lists[j];
      ghost var l := lists[j];
      b.next := buckets[j];
      buckets, lists := buckets[j := b], lists[j := [b] + l];
      assert ([b] + l)[1..] == l;
      forall k: nat | k < NUMBUCKS
        ensures ListOk(k)
      {
        assert old(ListOk(k)) && b !in old(lists[k]);
      }
    }

    /** Nothing the allocator has on lists or hands out is disturbed by what happens elsewhere. */
    twostate lemma KeptLists()
      requires old(Tables() && Lists() && LiveOk()) && buckets == old(buckets) && sizes == old(sizes)
      requires lists == old(lists) && repr == old(repr) && live == old(live) && forall x | x in repr :: unchanged(x)
      ensures Tables() && Lists() && LiveOk()
    {
      hide BucketSize;
      forall j: nat | j < NUMBUCKS
        ensures ListOk(j)
      {
        assert old(ListOk(j));
        assert forall i | 0 <= i < |lists[j]| :: lists[j][i] in repr && unchanged(lists[j][i]);
      }
      forall x | x in live
        ensures x.Live()
      {
        assert unchanged(x) && old(x.Live());
      }
    }

    /** A block on no list may change without disturbing the lists. */
    twostate lemma ListsKept(new b: Block)
      requires old(Tables() && Lists()) && Tables() && buckets == old(buckets) && lists == old(lists)
      requires old(repr) <= repr
      requires !OnList(b) && forall x | x in old(repr) && x != b :: unchanged(x)
      ensures Lists()
    {
      hide BucketSize;
      forall j: nat | j < NUMBUCKS
        ensures ListOk(j)
      {
        assert old(ListOk(j)) && b !in lists[j];
        assert forall i | 0 <= i < |lists[j]| :: lists[j][i] in old(repr) && unchanged(lists[j][i]);
      }
    }

    lemma ListFacts(j: nat)
      requires Tables() && Lists() && j < NUMBUCKS
      ensures buckets[j] == null <==> lists[j] == []
      ensures forall b | b in lists[j] :: b in repr && b.Free(j)
    {
      hide BucketSize;
      assert ListOk(j);
    }

    lemma ListedIsFree(b: Block)
      requires Tables() && Lists()
      ensures OnList(b) ==> b in repr && b.magic == HA_FREE_MAGIC
    {
      hide BucketSize, Lists;
      if j: nat :| j < NUMBUCKS && b in lists[j] {
        ListFacts(j);
      }
    }

    /** Blocks handed out stay sound while only b changes. */
    twostate lemma LiveKept(new b: Block)
      requires old(LiveOk()) && live == old(live) + {b} && b in repr && old(repr) <= repr && b.Live()
      requires forall x | x in old(repr) && x != b :: unchanged(x)
      ensures LiveOk()
    {
      forall x | x in live
        ensures x.Live()
      {
        assert x != b ==> unchanged(x) && old(x.Live());
      }
    }

    /** A block that nobody owns is given to the caller. */
    method HandOut(b: Block, size: nat)
      requires Valid() && b in repr && b !in live && !OnList(b)
      requires 0 < size && size + 4 <= |b.mem|
      requires b.bucket < NUMBUCKS ==> size <= BucketSize(b.bucket) && |b.mem| == BucketSize(b.bucket) + 4
      modifies this`numalloc, this`live, b
      ensures Valid() && live == old(live) + {b} && b.reqsize == size && b.Guarded() && b.bucket == old(b.bucket)
    {
      hide BucketSize, Chain, Lists, LiveOk, OnList;
      b.reqsize := size;
      b.magic := HA_MALLOC_MAGIC;
      b.AddGuard();
      numalloc := numalloc + 1;
      live := live + {b};
      ListsKept(b);
      LiveKept(b);
    }

    /** A new block from the system, on no list and not yet handed out. */
    method Extend(size: nat, numbuck: nat, room: bool) returns (b: Block?)
      requires Valid() && (numbuck < NUMBUCKS ==> size <= BucketSize(numbuck))
      modifies this`repr
      ensures Valid() && (room <==> b != null)
      ensures b == null ==> repr == old(repr)
      ensures b != null ==> fresh(b) && repr == old(repr) + {b} && !OnList(b) && b.bucket == numbuck
      ensures b != null ==> size + 4 <= |b.mem| && (numbuck < NUMBUCKS ==> |b.mem| == BucketSize(numbuck) + 4)
    {
      hide BucketSize, Chain, Lists;
      b := NewMem(size, numbuck, room);
      if b != null {
        ListedIsFree(b);
        repr := repr + {b};
        ListsKept(b);
      }
    }

    /** A block that holds the request, from its list or from the system. */
    method Take(size: nat, room: bool) returns (ret: Block?)
      requires Valid() && Serves(size) && size <= MAXMALLOC
      modifies this, repr
      ensures Valid() && fresh(repr - old(repr)) && old(repr) <= repr
      ensures ret == null <==> !room && !AtHand(old(lists), size)
      ensures lists == Left(old(lists), size)
      ensures ret != null ==> ret.bucket == Index(size)
      ensures ret != null ==> if AtHand(old(lists), size) then ret == old(lists)[Index(size)][0] else fresh(ret)
      ensures ret == null ==> live == old(live)
      ensures ret != null ==> ret !in old(live) && live == old(live) + {ret} && ret.reqsize == size && ret.Guarded()
      ensures forall b | b in old(live) :: b.View() == old(b.View())
      ensures numfree == old(numfree) && short == old(short)
    {
      hide BucketSize, Index, Chain, Lists, Block.Guarded, OnList;
      var numbuck := Index(size);
      if numbuck < NUMBUCKS {
        ListFacts(numbuck);
      }
      if numbuck < NUMBUCKS && buckets[numbuck] != null {
        ret := Pop(numbuck);
      } else {
        ret := Extend(size, numbuck, room);
        if ret == null {
          return;
        }
      }
      HandOut(ret, size);
    }

    /** A new block of the bucket computed for the request, which it does not hold. */
    method HandOutShort(size: nat, numbuck: nat) returns (b: Block)
      requires Valid() && numbuck < NUMBUCKS && BucketSize(numbuck) + 4 <= size
      modifies this`numalloc, this`short
      ensures Valid() && fresh(b) && b.Short() && b.reqsize == size && b.bucket == numbuck
      ensures short == old(short) + {b}
    {
      hide BucketSize, Chain, Lists, LiveOk;
      b := NewMem(size, numbuck, true);
      numalloc := numalloc + 1;
      short := short + {b};
      assert b !in old(short);
      KeptLists();
    }

    /**
     * cl_malloc. Room says whether the system has memory, in case no block is at hand. Astray, the block returned is
     * too small for its request, and its guard lands behind it.
     */
    method Malloc(size: nat, room: bool) returns (ret: Block?, astray: bool)
      requires Valid()
      modifies this, repr
      ensures Valid() && fresh(repr - old(repr)) && old(repr) <= repr
      ensures astray <==> Overruns(size, room)
      ensures ret == null <==> NoBlock(old(lists), size, room)
      ensures lists == Left(old(lists), size)
      ensures ret != null ==> ret.bucket == Index(size)
      ensures ret != null ==> if AtHand(old(lists), size) then ret == old(lists)[Index(size)][0] else fresh(ret)
      ensures ret != null ==> ret !in old(live) && ret.reqsize == size && if astray then ret.Short() else ret.Guarded()
      ensures live == old(live) + Given(ret, !astray) && short == old(short) + Given(ret, astray)
      ensures astray ==> ret != null
      ensures forall b | b in old(live) :: b.View() == old(b.View())
      ensures numfree == old(numfree)
    {
      hide BucketSize, Index, Valid, Block.Guarded, Block.View, Block.Short;
      SizesOf();
      if size == 0 || size > MAXMALLOC {
        return null, false;
      }
      var numbuck := Index(size);
      if numbuck < NUMBUCKS && size > sizes[numbuck] {
        if !room {
          return null, false;
        }
        UnservedIsLarge(size);
        ret := HandOutShort(size, numbuck);
        return ret, true;
      }
      ret := Take(size, room);
      return ret, false;
    }

    /** Blocks handed out stay sound when b is one of them no longer. */
    twostate lemma LiveLess(b: Block)
      requires old(LiveOk()) && live == old(live) - {b} && live <= repr
      requires forall x | x in old(repr) && x != b :: unchanged(x)
      ensures LiveOk()
    {
      forall x | x in live
        ensures x.Live()
      {
        assert unchanged(x) && old(x.Live());
      }
    }

    /** The block is taken from its owner. */
    method TakeBack(b: Block)
      requires Valid() && b in live
      modifies this`live, this`numfree, b`magic
      ensures Valid() && live == old(live) - {b} && b.magic == HA_FREE_MAGIC && !OnList(b) && b in repr
      ensures numfree == old(numfree) + 1
    {
      hide BucketSize, Chain, Lists;
      ListedIsFree(b);
      b.magic := HA_FREE_MAGIC;
      live := live - {b};
      numfree := numfree + 1;
      ListsKept(b);
      LiveLess(b);
    }

    /** The block leaves the allocator's sight. */
    method Return(b: Block)
      requires Valid() && b !in live && !OnList(b)
      modifies this`repr
      ensures Valid() && repr == old(repr) - {b}
    {
      hide BucketSize;
      repr := repr - {b};
      forall j: nat | j < NUMBUCKS
        ensures ListOk(j)
      {
        assert old(ListOk(j)) && b !in lists[j];
      }
    }

    /** Put on its list, a freed block leaves those handed out alone. */
    method PutAway(b: Block, j: nat)
      requires Valid() && b !in live && b in repr && !OnList(b) && b.Free(j) && j < NUMBUCKS
      modifies this`buckets, this`lists, b`next
      ensures Valid() && lists == old(lists)[j := [b] + old(lists[j])]
    {
      hide BucketSize, Lists;
      Push(b, j);
    }

    /** Memory the caller may name: handed out, or freed but still the allocator's. */
    ghost predicate Known(b: Block)
      requires Tables()
      reads this`live, this`buckets, this`sizes, this`lists
    {
      b in live || OnList(b)
    }

    /**
     * cl_free. A null pointer, a block freed before and a block whose guard is damaged are refused, and the
     * process ends.
     */
    method Free(ptr: Block?) returns (ok: bool)
      requires Valid() && (ptr != null ==> Known(ptr))
      modifies this, repr
      ensures Valid() && repr <= old(repr) && short == old(short)
      ensures ok <==> ptr != null && ptr in old(live) && old(ptr.Guarded())
      ensures !ok ==> unchanged(this) && unchanged(repr)
      ensures ok ==> live == old(live) - {ptr} && numfree == old(numfree) + 1 && numalloc == old(numalloc)
      ensures ok ==> lists == Filed(old(lists), ptr, old(ptr.bucket))
      ensures ok && old(ptr.bucket) >= NUMBUCKS ==> repr == old(repr) - {ptr}
      ensures forall b | b in live :: b.View() == old(b.View())
    {
      hide BucketSize, Chain, Lists;
      if ptr == null {
        return false;
      }
      ListedIsFree(ptr);
      if ptr.magic != HA_MALLOC_MAGIC || ptr.mem[ptr.reqsize..ptr.reqsize + 4] != GUARD {
        return false;
      }
      TakeBack(ptr);
      if ptr.bucket >= NUMBUCKS {
        Return(ptr);
      } else {
        PutAway(ptr, ptr.bucket);
      }
      return true;
    }

    /** The size of a block changes where it is. */
    method Resize(b: Block, newsize: nat, mem: bytes)
      requires Valid() && b in live && 0 < newsize && newsize + 4 <= |mem|
      requires b.bucket < NUMBUCKS ==> newsize <= BucketSize(b.bucket) && |mem| == |b.mem|
      modifies b`reqsize, b`mem
      ensures Valid() && b.reqsize == newsize && b.Guarded() && b.Contents() == mem[..newsize]
    {
      hide BucketSize, Chain, Lists;
      ListedIsFree(b);
      b.mem := mem;
      b.reqsize := newsize;
      b.AddGuard();
      ListsKept(b);
      assert live == old(live) + {b};
      LiveKept(b);
    }

    /** The system's realloc moved a block: the new one takes its place. */
    method Move(b: Block, newsize: nat, mem: bytes) returns (nb: Block)
      requires Valid() && b in live && b.bucket >= NUMBUCKS && 0 < newsize && newsize + 4 <= |mem|
      modifies this`live, this`repr
      ensures Valid() && fresh(nb) && live == old(live) - {b} + {nb} && repr == old(repr) - {b} + {nb}
      ensures nb.reqsize == newsize && nb.bucket == b.bucket && nb.Guarded() && nb.Contents() == mem[..newsize]
    {
      hide BucketSize, Chain, Lists, LiveOk, OnList, Block.Live;
      BigLive(b);
      ListedIsFree(b);
      nb := new Block(newsize, b.bucket, mem);
      nb.AddGuard();
      live, repr := live - {b} + {nb}, repr - {b} + {nb};
      assert nb.Live() by { NewLive(nb); }
      MovedLists(b);
      MovedLive(b, nb);
    }

    lemma BigLive(b: Block)
      requires LiveOk() && b in live
      ensures b in repr && b.magic == HA_MALLOC_MAGIC
    {
    }

    lemma NewLive(b: Block)
      requires b.magic == HA_MALLOC_MAGIC && 0 < b.reqsize && b.Guarded() && b.bucket >= NUMBUCKS
      ensures b.Live()
    {
    }

    twostate lemma MovedLive(b: Block, new nb: Block)
      requires old(LiveOk()) && b in old(live) && live == old(live) - {b} + {nb} && repr == old(repr) - {b} + {nb}
      requires nb.Live() && nb !in old(live) && forall x | x in old(live) :: unchanged(x)
      ensures LiveOk() && |live| == |old(live)|
    {
      forall x | x in live
        ensures x.Live()
      {
        assert x != nb ==> unchanged(x) && old(x.Live());
      }
    }

    twostate lemma MovedLists(b: Block)
      requires old(Tables() && Lists()) && Tables() && buckets == old(buckets) && lists == old(lists)
      requires old(repr) - {b} <= repr && !OnList(b) && forall x | x in old(repr) :: unchanged(x)
      ensures Lists()
    {
      hide BucketSize;
      forall j: nat | j < NUMBUCKS
        ensures ListOk(j)
      {
        assert old(ListOk(j)) && b !in lists[j];
        assert forall i | 0 <= i < |lists[j]| :: lists[j][i] in old(repr) && unchanged(lists[j][i]);
      }
    }

    /** realloc on a block above the buckets: grown or cut behind, in place or moved. */
    method SystemRealloc(b: Block, newsize: nat, inPlace: bool) returns (nb: Block)
      requires Valid() && b in live && b.bucket >= NUMBUCKS && 0 < newsize
      modifies this`live, this`repr, b`reqsize, b`mem
      ensures Valid() && live == old(live) - {b} + {nb} && repr == old(repr) - {b} + {nb}
      ensures if inPlace then nb == b else fresh(nb)
      ensures nb.reqsize == newsize && nb.Guarded() && KeepsFront(nb.Contents(), old(b.Contents()))
      ensures nb.bucket == b.bucket
    {
      hide BucketSize, Chain, Lists, LiveOk;
      var mem := if newsize + 4 <= |b.mem| then b.mem[..newsize + 4] else b.mem + Zeros(newsize + 4 - |b.mem|);
      LiveSize(b);
      FrontKept(b.mem, b.reqsize, mem, newsize);
      assert repr - {b} + {b} == repr && live - {b} + {b} == live;
      if inPlace {
        Resize(b, newsize, mem);
        nb := b;
      } else {
        nb := Move(b, newsize, mem);
      }
    }

    /** A larger block, or one meant to be, with the contents of b in front; b stays. */
    method Copied(b: Block, newsize: nat, room: bool) returns (nb: Block?, astray: bool)
      requires Valid() && b in live && b.reqsize <= newsize
      modifies this, repr
      ensures Valid() && fresh(repr - old(repr))
      ensures (astray <==> Overruns(newsize, room)) && (astray ==> nb != null)
      ensures live == old(live) + Given(nb, !astray) && short == old(short) + Given(nb, astray)
      ensures nb != null ==> nb !in old(live) && nb.reqsize == newsize && KeepsFront(nb.Contents(), b.Contents())
      ensures nb != null ==> if astray then nb.Short() else nb.Guarded()
      ensures (nb == null <==> NoBlock(old(lists), newsize, room)) && lists == Left(old(lists), newsize)
      ensures numfree == old(numfree)
      ensures forall x | x in old(live) :: x.View() == old(x.View())
    {
      hide BucketSize, Chain, Lists, LiveOk, Index, KeepsFront, Block.Guarded, Block.Short;
      LiveSize(b);
      nb, astray := Malloc(newsize, room);
      assert b.View() == old(b.View());
      if astray {
        CopyShort(b, nb);
      } else if nb != null {
        LiveSize(nb);
        CopyInto(b, nb);
      }
    }

    /** A larger block, or one meant to be, in place of b, with the contents of b in front. */
    method Replace(b: Block, newsize: nat, room: bool) returns (nb: Block?, astray: bool)
      requires Valid() && b in live && b.Guarded() && b.reqsize <= newsize
      modifies this, repr
      ensures Valid() && fresh(repr - old(repr))
      ensures (astray <==> Overruns(newsize, room)) && (astray ==> nb != null)
      ensures live == old(live) - {b} + Given(nb, !astray) && short == old(short) + Given(nb, astray)
      ensures nb != null ==> nb !in old(live) && nb.reqsize == newsize && KeepsFront(nb.Contents(), old(b.Contents()))
      ensures nb != null ==> if astray then nb.Short() else nb.Guarded()
      ensures nb == null <==> NoBlock(old(lists), newsize, room)
      ensures lists == Filed(Left(old(lists), newsize), b, old(b.bucket)) && numfree == old(numfree) + 1
      ensures forall x | x in old(live) && x != b :: x.View() == old(x.View())
    {
      hide KeepsFront, Valid, Tables, OnList, Block.View, Block.Guarded, Block.Contents, Overruns, Block.Short;
      hide Filed, Left, NoBlock;
      nb, astray := Copied(b, newsize, room);
      SameView(b);
      SizesOf();
      label Copied:
      var freed := Free(b);
      if nb != null && !astray {
        SameView@Copied(nb);
      }
    }

    /** The owner of a block writes inside it. */
    method OwnerWrites(b: Block, at: nat, q: bytes)
      requires Valid() && b in live && at + |q| <= b.reqsize
      modifies b`mem
      ensures Valid() && |b.Contents()| == b.reqsize && (old(b.Guarded()) ==> b.Guarded())
      ensures b.Contents() == old(b.Contents()[..at]) + q + old(b.Contents()[at + |q|..])
    {
      hide BucketSize, Chain, Lists, LiveOk;
      LiveSize(b);
      ListedIsFree(b);
      b.Write(at, q);
      ListsKept(b);
      assert live == old(live) + {b};
      LiveKept(b);
    }

    /** memcpy(nb, b, b->reqsize) */
    method CopyInto(b: Block, nb: Block)
      requires Valid() && b in live && nb in live && b != nb && b.reqsize <= nb.reqsize && nb.Guarded()
      modifies nb`mem
      ensures Valid() && nb.Guarded() && KeepsFront(nb.Contents(), b.Contents())
    {
      hide BucketSize, Chain, Lists, LiveOk;
      LiveSize(b);
      LiveSize(nb);
      OwnerWrites(nb, 0, b.mem[..b.reqsize]);
    }

    /** memcpy into a block too small for its request, as far as the block goes. */
    method CopyShort(b: Block, nb: Block)
      requires Valid() && b in live && nb in short && nb.Short() && b.reqsize <= nb.reqsize
      modifies nb`mem
      ensures Valid() && nb.Short() && KeepsFront(nb.Contents(), b.Contents())
    {
      hide BucketSize, Chain, Lists, LiveOk;
      LiveSize(b);
      var n := if b.reqsize < |nb.mem| then b.reqsize else |nb.mem|;
      nb.mem := b.mem[..n] + nb.mem[n..];
      KeptLists();
    }

    /** The new size fits the block's bucket. */
    method FitInPlace(b: Block, newsize: nat)
      requires Valid() && b in live && b.bucket < NUMBUCKS && 0 < newsize <= BucketSize(b.bucket)
      modifies b`reqsize, b`mem
      ensures Valid() && b.reqsize == newsize && b.Guarded() && KeepsFront(b.Contents(), old(b.Contents()))
      ensures live == live - {b} + {b}
    {
      hide BucketSize, Chain, Lists, LiveOk;
      LiveSize(b);
      FrontKept(b.mem, b.reqsize, b.mem, newsize);
      Resize(b, newsize, b.mem);
    }

    /** cl_realloc on a block handed out whose guard is sound. */
    method ReallocLive(ptr: Block, newsize: nat, room: bool, inPlace: bool) returns (ret: Block?, astray: bool)
      requires Valid() && ptr in live && ptr.Guarded() && 0 < newsize
      modifies this, repr
      ensures Valid() && fresh(repr - old(repr)) && (astray ==> ret != null)
      ensures ret != null ==> ret.reqsize == newsize && (ret !in old(live) || ret == ptr)
      ensures ret != null ==> if astray then ret.Short() else ret.Guarded()
      ensures ret != null ==> KeepsFront(ret.Contents(), old(ptr.Contents()))
      ensures astray <==> Outgrows(old(ptr.bucket), newsize) && Overruns(newsize, room)
      ensures var stays := old(ptr.bucket) >= NUMBUCKS && !room;
        && live == Survivors(old(live), ptr, stays) + Given(ret, !astray) && short == old(short) + Given(ret, astray)
        && (stays ==> ret == null && ptr.View() == old(ptr.View()))
      ensures
        if Outgrows(old(ptr.bucket), newsize) then
          && (ret == null <==> NoBlock(old(lists), newsize, room)) && (ret == null || ret !in old(live))
          && lists == Filed(Left(old(lists), newsize), ptr, old(ptr.bucket)) && numfree == old(numfree) + 1
        else
          && lists == old(lists) && numfree == old(numfree)
          && (if old(ptr.bucket) < NUMBUCKS || (room && inPlace) then ret == ptr
              else if room then fresh(ret) else ret == null)
          && (ret != null ==> ret.bucket == old(ptr.bucket))
      ensures forall b | b in old(live) && b != ptr :: b.View() == old(b.View())
    {
      hide BucketSize, Index, KeepsFront, Serves, Valid, Overruns;
      hide Block.Guarded, Block.View, Block.Short, Block.Contents;
      LiveFits(ptr);
      ret, astray := null, false;
      if ptr.bucket >= NUMBUCKS {
        if room {
          ret := SystemRealloc(ptr, newsize, inPlace);
        }
      } else if newsize > sizes[ptr.bucket] {
        ret, astray := Replace(ptr, newsize, room);
      } else {
        FitInPlace(ptr, newsize);
        ret := ptr;
      }
    }

    lemma SizesOf()
      requires Valid()
      ensures Tables() && short !! repr && forall j | 0 <= j < NUMBUCKS :: sizes[j] == BucketSize(j)
    {
      hide BucketSize;
    }

    lemma LiveFits(b: Block)
      requires Valid() && b in live
      ensures b in repr && |sizes| == NUMBUCKS
      ensures b.bucket < NUMBUCKS ==> b.reqsize <= sizes[b.bucket] == BucketSize(b.bucket)
    {
      hide BucketSize, Lists;
    }

    lemma KnownMagic(b: Block)
      requires Valid() && Known(b)
      ensures b in repr && (b.magic == HA_MALLOC_MAGIC <==> b in live)
    {
      hide BucketSize, Lists;
      ListedIsFree(b);
    }

    /**
     * cl_realloc. Not ok where the process ends: the block was freed before, or its guard is damaged. A null
     * result frees the old block, unless the system had no room for a block above the buckets.
     */
    method Realloc(ptr: Block?, newsize: nat, room: bool, inPlace: bool)
      returns (ok: bool, ret: Block?, astray: bool)
      requires Valid() && (ptr != null ==> Known(ptr))
      modifies this, repr
      ensures Valid() && fresh(repr - old(repr))
      ensures ok <==> ptr == null || (ptr in old(live) && old(ptr.Guarded()))
      ensures !ok ==> ret == null && unchanged(this) && unchanged(repr)
      ensures newsize == 0 ==> ret == null
      ensures ret != null ==> ret.reqsize == newsize && (ret !in old(live) || ret == ptr)
      ensures ret != null ==> if astray then ret.Short() else ret.Guarded()
      ensures astray ==> ret != null
      ensures ret != null && ptr != null ==> KeepsFront(ret.Contents(), old(ptr.Contents()))
      ensures astray <==> ok && (ptr == null || Outgrows(old(ptr.bucket), newsize)) && Overruns(newsize, room)
      ensures ok ==>
        var stays := ptr != null && newsize > 0 && old(ptr.bucket) >= NUMBUCKS && !room;
        && live == Survivors(old(live), ptr, stays) + Given(ret, !astray) && short == old(short) + Given(ret, astray)
        && (stays ==> ret == null && ptr.View() == old(ptr.View()))
      ensures ok && ptr == null ==> (ret == null <==> NoBlock(old(lists), newsize, room))
      ensures ok && ptr == null ==> lists == Left(old(lists), newsize) && numfree == old(numfree)
      ensures ok && ptr != null && newsize == 0 ==> lists == Filed(old(lists), ptr, old(ptr.bucket))
      ensures ok && ptr != null && newsize > 0 ==>
        if Outgrows(old(ptr.bucket), newsize) then
          && (ret == null <==> NoBlock(old(lists), newsize, room)) && (ret == null || ret !in old(live))
          && lists == Filed(Left(old(lists), newsize), ptr, old(ptr.bucket)) && numfree == old(numfree) + 1
        else
          && lists == old(lists) && numfree == old(numfree)
          && (if old(ptr.bucket) < NUMBUCKS || (room && inPlace) then ret == ptr
              else if room then fresh(ret) else ret == null)
          && (ret != null ==> ret.bucket == old(ptr.bucket))
      ensures forall b | b in old(live) && b != ptr :: b.View() == old(b.View())
    {
      hide BucketSize, Chain, Lists, LiveOk, Index, KeepsFront, Block.View, Block.Contents, Serves, OnList, Block.Free;
      ok, ret, astray := true, null, false;
      if ptr == null {
        ret, astray := Malloc(newsize, room);
        return;
      }
      if newsize == 0 {
        ok := Free(ptr);
        return;
      }
      KnownMagic(ptr);
      if ptr.magic != HA_MALLOC_MAGIC {
        return false, null, false;
      }
      LiveSize(ptr);
      if ptr.mem[ptr.reqsize..ptr.reqsize + 4] != GUARD {
        return false, null, false;
      }
      ret, astray := ReallocLive(ptr, newsize, room, inPlace);
    }

    lemma LiveSize(b: Block)
      requires LiveOk() && b in live
      ensures b.Live() && b in repr
    {
    }
  }

  /** The shorter of two contents is the front of the other. */
  ghost predicate KeepsFront(a: bytes, b: bytes) {
    forall i | 0 <= i < |a| && i < |b| :: a[i] == b[i]
  }

  twostate lemma SameView(b: Block)
    requires b.View() == old(b.View())
    ensures b.reqsize == old(b.reqsize) && b.bucket == old(b.bucket)
    ensures b.Guarded() == old(b.Guarded()) && b.Contents() == old(b.Contents())
  {
  }

  /** Requests that get too small a bucket are larger than every bucket, and so are their guards' places. */
  lemma UnservedIsLarge(size: nat)
    requires size > 0 && !Serves(size)
    ensures Index(size) < NUMBUCKS && BucketSize(Index(size)) + 4 <= size
  {
    hide BucketSize, Index;
    ServesExactly(size);
    LargestBucket();
    BucketMono(Index(size), NUMBUCKS - 1);
  }

  /** A block on the list of the request's bucket. */
  ghost predicate AtHand(lists: seq<seq<Block>>, size: nat) {
    0 < size <= MAXMALLOC && Serves(size) && Index(size) < NUMBUCKS && Index(size) < |lists| && lists[Index(size)] != []
  }

  /** The lists without the block that serves the request. */
  ghost function Left(lists: seq<seq<Block>>, size: nat): seq<seq<Block>> {
    if AtHand(lists, size) then lists[Index(size) := lists[Index(size)][1..]] else lists
  }

  /** The lists with a freed block in front of its own; blocks above the buckets are on none. */
  ghost function Filed(lists: seq<seq<Block>>, b: Block, bucket: nat): seq<seq<Block>> {
    if bucket < |lists| then lists[bucket := [b] + lists[bucket]] else lists
  }

  /** When cl_malloc returns null. */
  ghost predicate NoBlock(lists: seq<seq<Block>>, size: nat, room: bool) {
    size == 0 || size > MAXMALLOC || (!room && !AtHand(lists, size))
  }

  /** A request that is given a block too small for it. */
  ghost predicate Overruns(size: nat, room: bool) {
    0 < size <= MAXMALLOC && !Serves(size) && room
  }

  /** A block of this bucket has to be replaced for the new size. */
  ghost predicate Outgrows(bucket: nat, newsize: nat) {
    bucket < NUMBUCKS && newsize > BucketSize(bucket)
  }

  /** What is left of the blocks handed out when ptr is given up. */
  ghost function Survivors(live: set<Block>, ptr: Block?, stays: bool): set<Block> {
    if ptr == null || stays then live else live - {ptr}
  }

  /** The block given, if it is of the kind asked about. */
  ghost function Given(ret: Block?, kind: bool): set<Block> {
    if ret == null || !kind then {} else {ret}
  }

  lemma FrontKept(old_: bytes, m: nat, new_: bytes, n: nat)
    requires m <= |old_| && n <= |new_| && KeepsFront(old_, new_)
    ensures KeepsFront(new_[..n], old_[..m])
  {
  }
}
