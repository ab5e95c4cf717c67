/** The receiving half of a channel: buffer pools, the receive queue and the messages that point into pools. */
module Receiver {
  import opened Bytes
  import opened IpcFrame
  import opened BufPool

  datatype InMsg = InMsg(pool: nat, start: nat, len: nat)

  /**
   * `pools` lists every pool ever allocated; a pool's index stands for its address. `queue` and `qlen` are the
   * receive queue. `log`, `bodies` and `done` are history: every message reassembled so far, the octets it had
   * when it was reassembled, and which of them have been given back through msg_done.
   */
  datatype Recv = Recv(
    pools: seq<Pool>, cur: Option<nat>, queue: seq<InMsg>, qlen: nat, numFreed: nat, broken: bool,
    log: seq<InMsg>, bodies: seq<bytes>, done: set<nat>)

  const INITIAL := Recv([], None, [], 0, 0, false, [], [], {})

  function Fresh(size: nat): Pool
    requires size <= MAXMSG
  {
    New(size).value
  }

  /** ipc_bufpool_unref, with ipc_bufpool_del wiping and freeing the pool. */
  function Unref(p: Pool): Pool {
    if p.refcount - 1 <= 0 then p.(refcount := p.refcount - 1, data := Zeros(|p.data|), freed := true)
    else p.(refcount := p.refcount - 1)
  }

  /** After the consuming loop: the rest is no complete frame, or has a length no pool can be made for. */
  ghost predicate Quiet(p: Pool)
    requires p.Ok()
  {
    Incomplete(p) || HeadLen(p.Header()) > MAXMSG
  }

  /**
   * A pool above the usual size was made for the message at its start: that message's frame is still unfinished, or
   * nothing but a header can follow it.
   */
  ghost predicate Own(p: Pool)
    requires p.Ok()
  {
    || |p.data| == POOL_SIZE - POOLSTRUCT
    || (p.consumepos == 0 && p.HasHeader() && HeadLen(p.Header()) == |p.data| - 2 * MSGPAD <= MAXMSG)
    || p.consumepos + MSGPAD >= |p.data|
  }

  // Invariant ---------------------------------------------------------------------------------------------

  /** How many unfinished messages point into pool k. */
  function Holding(log: seq<InMsg>, done: set<nat>, k: nat): nat {
    if log == [] then 0
    else
      var n := |log| - 1;
      Holding(log[..n], done, k) + if n !in done && log[n].pool == k then 1 else 0
  }

  function Refs(r: Recv, k: nat): nat {
    (if r.cur == Some(k) then 1 else 0) + Holding(r.log, r.done, k)
  }

  function FreedCount(pools: seq<Pool>): nat {
    if pools == [] then 0
    else FreedCount(pools[..|pools| - 1]) + if pools[|pools| - 1].freed then 1 else 0
  }

  /** Every reference is counted, and a pool is freed exactly when its count has reached zero. */
  ghost predicate Counted(r: Recv) {
    forall k | 0 <= k < |r.pools| ::
      r.pools[k].refcount == Refs(r, k) && (r.pools[k].freed <==> r.pools[k].refcount == 0)
  }

  /** An unfinished message lies in consumed territory of a pool, and still shows the octets it arrived with. */
  ghost predicate Intact(r: Recv, i: nat)
    requires i < |r.log| == |r.bodies|
  {
    var m := r.log[i];
    && m.pool < |r.pools|
    && r.pools[m.pool].Ok()
    && m.start + m.len <= r.pools[m.pool].consumepos
    && r.pools[m.pool].data[m.start..m.start + m.len] == r.bodies[i]
  }

  ghost predicate Shape(r: Recv) {
    && |r.log| == |r.bodies|
    && r.qlen == |r.queue| <= |r.log|
    && r.queue == r.log[|r.log| - |r.queue|..]
    && (forall i | i in r.done :: i < |r.log| - |r.queue|)
    && (forall i | 0 <= i < |r.log| :: r.log[i].pool < |r.pools|)
    && (r.cur.Some? ==>
          && r.cur.value < |r.pools|
          && r.pools[r.cur.value].Ok()
          && Own(r.pools[r.cur.value])
          && (r.broken || Quiet(r.pools[r.cur.value])))
    && (r.cur.None? ==> r.log == [])
    && r.numFreed == FreedCount(r.pools)
  }

  ghost predicate Inv(r: Recv) {
    && Shape(r)
    && Counted(r)
    && forall i | 0 <= i < |r.log| && i !in r.done :: Intact(r, i)
  }

  // Steps -------------------------------------------------------------------------------------------------

  /**
   * ipc_bufpool_partial_copy refuses or stays inside the new pool, also where the sums of sizes have wrapped around:
   * with such a length in its header, no pool has more pending than the smallest pool holds.
   */
  lemma CopyStaysInside(src: Pool, needed: nat)
    requires src.Ok() && Quiet(src) && Own(src) && Full(src) == (true, needed) && New(needed).Some?
    ensures Refuses(New(needed).value, src) || |src.Pending()| <= |New(needed).value.data|
  {
    hide New, HeadLen;
  }

  /** socket_resume_io_read up to its recv(2): make a first pool, or move the unfinished frame to a new one. */
  function Prepare(r: Recv): (q: Option<Recv>)
    requires Inv(r) && !r.broken
  {
    if r.cur.None? then Some(r.(pools := r.pools + [Fresh(0)], cur := Some(|r.pools|)))
    else
      var src := r.pools[r.cur.value];
      var (full, needed) := Full(src);
      if !full then Some(r)
      else if New(needed).None? then None
      else
        CopyStaysInside(src, needed);
        var (_, dst', src') := PartialCopy(New(needed).value, src);
        Some(r.(pools := r.pools[r.cur.value := Unref(src')] + [dst'], cur := Some(|r.pools|),
                numFreed := r.numFreed + if Unref(src').freed then 1 else 0))
  }

  /** What is left of the old pool and put into the new one. */
  lemma Handoff(src: Pool, needed: nat)
    requires src.Ok() && Quiet(src) && Own(src) && Full(src) == (true, needed) && New(needed).Some?
    ensures Refuses(New(needed).value, src) || |src.Pending()| <= |New(needed).value.data|
    ensures var (_, dst', src') := PartialCopy(New(needed).value, src);
      && dst'.Ok() && Quiet(dst') && Own(dst') && dst'.refcount == 1 && !dst'.freed
      && src'.Ok() && src' == src.(currpos := src'.currpos)
  {
    hide HeadLen, New, Quiet, Own, Full;
    CopyStaysInside(src, needed);
    var fresh_ := New(needed).value;
    var (_, dst', src') := PartialCopy(fresh_, src);
    if Refuses(fresh_, src) {
      EmptyIsQuiet(fresh_);
    } else {
      SamePendingQuiet(src, dst');
    }
    HandoffOwn(src, needed);
  }

  /** The new pool has the usual size or is made for the frame it takes over. */
  lemma HandoffOwn(src: Pool, needed: nat)
    requires src.Ok() && Full(src) == (true, needed) && New(needed).Some?
    requires Refuses(New(needed).value, src) || |src.Pending()| <= |New(needed).value.data|
    ensures var (_, dst', _) := PartialCopy(New(needed).value, src); dst'.Ok() && Own(dst')
  {
    hide HeadLen;
    var fresh_ := New(needed).value;
    var (_, dst', _) := PartialCopy(fresh_, src);
    if |fresh_.data| != POOL_SIZE - POOLSTRUCT {
      RefusesExactly(src, needed);
      assert dst'.Pending() == src.Pending();
      SamePendingSameHeader(src, dst');
    }
  }

  lemma EmptyIsQuiet(p: Pool)
    requires p.Ok() && p.consumepos == p.currpos
    ensures Quiet(p)
  {
  }

  function Placed(k: nat, spans: seq<Span>): (ms: seq<InMsg>)
    ensures |ms| == |spans|
    ensures forall i | 0 <= i < |ms| :: ms[i] == InMsg(k, spans[i].start, spans[i].len)
  {
    seq(|spans|, i requires 0 <= i < |spans| => InMsg(k, spans[i].start, spans[i].len))
  }

  function Contents(data: bytes, spans: seq<Span>): (bs: seq<bytes>)
    requires forall i | 0 <= i < |spans| :: spans[i].start + spans[i].len <= |data|
    ensures |bs| == |spans|
    ensures forall i | 0 <= i < |bs| :: bs[i] == data[spans[i].start..spans[i].start + spans[i].len]
  {
    seq(|spans|, i requires 0 <= i < |spans| => data[spans[i].start..spans[i].start + spans[i].len])
  }

  /** No header that the loop meets once chunk has arrived has its sign bit set. */
  predicate Signless(r: Recv, chunk: bytes)
    requires r.cur.Some? && r.cur.value < |r.pools|
    requires r.pools[r.cur.value].Ok() && |chunk| <= r.pools[r.cur.value].SpaceLeft()
  {
    !Consume(Deposit(r.pools[r.cur.value], chunk)).stop.Negative?
  }

  /** recv(2) returned `chunk`; ipc_bufpool_update turns what is now complete into queued messages. */
  function Deliver(r: Recv, chunk: bytes): (q: Recv)
    requires r.cur.Some? && r.cur.value < |r.pools|
    requires r.pools[r.cur.value].Ok() && |chunk| <= r.pools[r.cur.value].SpaceLeft()
  {
    var k := r.cur.value;
    var c := Consume(Deposit(r.pools[k], chunk));
    var ms := Placed(k, c.msgs);
    r.(pools := r.pools[k := c.pool], queue := r.queue + ms, qlen := r.qlen + |ms|, broken := c.stop.Mismatch?,
       log := r.log + ms, bodies := r.bodies + Contents(c.pool.data, c.msgs))
  }

  /** socket_recv takes the head of a non-empty queue. */
  function Take(r: Recv): (q: Recv)
    requires r.queue != [] && r.qlen > 0
  {
    r.(queue := r.queue[1..], qlen := r.qlen - 1)
  }

  /** ipc_bufpool_msg_done on the i-th message ever received. */
  function Done(r: Recv, i: nat): (q: Recv)
    requires i < |r.log| && r.log[i].pool < |r.pools|
  {
    var k := r.log[i].pool;
    var p := Unref(r.pools[k]);
    r.(pools := r.pools[k := p], done := r.done + {i}, numFreed := r.numFreed + if p.freed then 1 else 0)
  }

  // What the steps keep -----------------------------------------------------------------------------------

  lemma {:induction false} HoldingAppend(log: seq<InMsg>, more: seq<InMsg>, done: set<nat>, c: nat, k: nat)
    requires forall i | i in done :: i < |log|
    requires forall i | 0 <= i < |more| :: more[i].pool == c
    ensures Holding(log + more, done, k) == Holding(log, done, k) + if k == c then |more| else 0
    decreases |more|
  {
    if more == [] {
      assert log + more == log;
    } else {
      var n := |more| - 1;
      assert (log + more)[..|log| + n] == log + more[..n];
      HoldingAppend(log, more[..n], done, c, k);
    }
  }

  lemma {:induction false} HoldingDone(log: seq<InMsg>, done: set<nat>, i: nat, k: nat)
    requires i !in done
    ensures Holding(log, done, k) ==
            Holding(log, done + {i}, k) + if i < |log| && log[i].pool == k then 1 else 0
    decreases |log|
  {
    if log != [] {
      HoldingDone(log[..|log| - 1], done, i, k);
    }
  }

  lemma {:induction false} FreedUpdate(pools: seq<Pool>, k: nat, p: Pool)
    requires k < |pools|
    ensures FreedCount(pools[k := p]) ==
            FreedCount(pools) - (if pools[k].freed then 1 else 0) + if p.freed then 1 else 0
    decreases |pools|
  {
    var n := |pools| - 1;
    if k < n {
      assert pools[k := p][..n] == pools[..n][k := p];
      FreedUpdate(pools[..n], k, p);
    } else {
      assert pools[k := p][..n] == pools[..n];
    }
  }

  lemma FreedSnoc(pools: seq<Pool>, p: Pool)
    ensures FreedCount(pools + [p]) == FreedCount(pools) + if p.freed then 1 else 0
  {
    assert (pools + [p])[..|pools|] == pools;
  }

  lemma SamePrefixSameSlice<T>(a: seq<T>, b: seq<T>, n: nat, lo: nat, hi: nat)
    requires n <= |a| && n <= |b| && a[..n] == b[..n] && lo <= hi <= n
    ensures a[lo..hi] == b[lo..hi]
  {
    SliceOfSlice(a, 0, n, lo, hi);
    SliceOfSlice(b, 0, n, lo, hi);
    assert a[..n] == a[0..n] && b[..n] == b[0..n];
  }

  lemma {:induction false} ConsumeQuiet(p: Pool)
    requires p.Ok()
    ensures Consume(p).stop.Waits? ==> Quiet(Consume(p).pool)
    decreases p.currpos - p.consumepos
  {
    if p.HasHeader() {
      var head := p.Header();
      if HeadMagic(head) == HEADMAGIC && 0 <= HeadLen(head) <= MAXMSG && !Incomplete(p) {
        ConsumeQuiet(Past(p, HeadLen(head)));
      }
    }
  }

  /** Receiving and consuming keep a large pool its message's own. */
  lemma DepositOwn(p: Pool, chunk: bytes)
    requires p.Ok() && Own(p) && |chunk| <= p.SpaceLeft()
    ensures Own(Deposit(p, chunk))
  {
    hide HeadLen;
    var q := Deposit(p, chunk);
    if p.HasHeader() {
      SamePrefixSameSlice(p.data, q.data, p.currpos, p.consumepos, p.consumepos + MSGPAD);
    }
  }

  lemma {:induction false} ConsumeOwn(p: Pool)
    requires p.Ok() && Own(p)
    ensures Own(Consume(p).pool)
    decreases p.currpos - p.consumepos
  {
    hide HeadLen, HeadMagic, Consume;
    ConsumeCases(p);
    if p.HasHeader() {
      var n := HeadLen(p.Header());
      if HeadMagic(p.Header()) == HEADMAGIC && 0 <= n <= MAXMSG && p.consumepos + MSGPAD + n <= p.currpos {
        ConsumeOwn(Past(p, n));
      }
    }
  }

  lemma DeliverShape(r: Recv, chunk: bytes)
    requires Inv(r) && r.cur.Some? && !r.broken && |chunk| <= r.pools[r.cur.value].SpaceLeft()
    requires Signless(r, chunk)
    ensures Shape(Deliver(r, chunk))
  {
    hide Consume, Holding, HeadLen, Full, Own;
    var k, q := r.cur.value, Deliver(r, chunk);
    DepositOwn(r.pools[k], chunk);
    ConsumeOwn(Deposit(r.pools[k], chunk));
    ConsumeQuiet(Deposit(r.pools[k], chunk));
    FreedUpdate(r.pools, k, q.pools[k]);
  }

  lemma DeliverCounted(r: Recv, chunk: bytes)
    requires Inv(r) && r.cur.Some? && !r.broken && |chunk| <= r.pools[r.cur.value].SpaceLeft()
    ensures Counted(Deliver(r, chunk))
  {
    hide Consume, Holding, FreedCount, HeadLen;
    var k, q := r.cur.value, Deliver(r, chunk);
    var more := q.log[|r.log|..];
    assert q.log == r.log + more;
    forall j | 0 <= j < |q.pools|
      ensures q.pools[j].refcount == Refs(q, j) && (q.pools[j].freed <==> q.pools[j].refcount == 0)
    {
      HoldingAppend(r.log, more, r.done, k, j);
    }
  }

  lemma DeliverIntact(r: Recv, chunk: bytes, i: nat)
    requires Inv(r) && r.cur.Some? && !r.broken && |chunk| <= r.pools[r.cur.value].SpaceLeft()
    requires i < |r.log| && i !in r.done
    ensures Intact(Deliver(r, chunk), i)
  {
    hide Consume, Holding, FreedCount, HeadLen;
    var k, q, m := r.cur.value, Deliver(r, chunk), r.log[i];
    assert Intact(r, i);
    if m.pool == k {
      SamePrefixSameSlice(r.pools[k].data, q.pools[k].data, r.pools[k].currpos, m.start, m.start + m.len);
    }
  }

  lemma DeliverInv(r: Recv, chunk: bytes)
    requires Inv(r) && r.cur.Some? && !r.broken && |chunk| <= r.pools[r.cur.value].SpaceLeft()
    requires Signless(r, chunk)
    ensures Inv(Deliver(r, chunk))
  {
    hide Consume, Holding, FreedCount, HeadLen, Quiet, Own, Refs, Deposit;
    var q := Deliver(r, chunk);
    DeliverShape(r, chunk);
    DeliverCounted(r, chunk);
    forall i | 0 <= i < |q.log| && i !in q.done
      ensures Intact(q, i)
    {
      if i < |r.log| {
        DeliverIntact(r, chunk, i);
      }
    }
  }

  lemma TakeInv(r: Recv)
    requires Inv(r) && r.queue != []
    ensures Inv(Take(r))
  {
    hide Holding, FreedCount, HeadLen;
    var q := Take(r);
    assert forall i | 0 <= i < |q.log| && i !in q.done :: Intact(r, i) ==> Intact(q, i);
    assert forall k :: Refs(q, k) == Refs(r, k);
  }

  lemma DoneInv(r: Recv, i: nat)
    requires Inv(r) && i < |r.log| - |r.queue| && i !in r.done
    ensures Inv(Done(r, i))
  {
    hide Holding, FreedCount, HeadLen;
    var q, k := Done(r, i), r.log[i].pool;
    assert Intact(r, i);
    forall j | 0 <= j < |q.pools|
      ensures q.pools[j].refcount == Refs(q, j) && (q.pools[j].freed <==> q.pools[j].refcount == 0)
    {
      HoldingDone(r.log, r.done, i, j);
    }
    FreedUpdate(r.pools, k, q.pools[k]);
    forall j | 0 <= j < |q.log| && j !in q.done
      ensures Intact(q, j)
    {
      assert Intact(r, j);
      HoldingDone(r.log, q.done, j, k);
    }
  }

  /** The hand-off never loses the unfinished frame of a message that may be sent: the copy succeeds. */
  lemma HandoffCopies(src: Pool, needed: nat)
    requires src.Ok() && Quiet(src) && Full(src) == (true, needed) && needed <= MAXMSG
    ensures |src.Pending()| <= |Fresh(needed).data|
    ensures var (ok, dst', src') := PartialCopy(Fresh(needed), src);
      && ok && dst'.Ok() && src'.Ok()
      && dst'.Pending() == src.Pending()
      && dst'.consumepos == 0 && dst'.refcount == 1 && !dst'.freed && |dst'.data| == |Fresh(needed).data|
      && src' == src.(currpos := src.consumepos)
  {
    hide HeadLen;
  }

  lemma SamePendingSameHeader(p: Pool, q: Pool)
    requires p.Ok() && q.Ok() && p.Pending() == q.Pending() && p.HasHeader()
    ensures q.HasHeader() && p.Header() == q.Header()
  {
    assert |p.Pending()| == |q.Pending()|;
    SliceOfSlice(p.data, p.consumepos, p.currpos, 0, MSGPAD);
    SliceOfSlice(q.data, q.consumepos, q.currpos, 0, MSGPAD);
  }

  lemma SamePendingQuiet(p: Pool, q: Pool)
    requires p.Ok() && q.Ok() && p.Pending() == q.Pending()
    ensures Quiet(p) == Quiet(q) && Incomplete(p) == Incomplete(q)
  {
    hide HeadLen;
    assert |p.Pending()| == |q.Pending()|;
    if p.HasHeader() {
      SamePendingSameHeader(p, q);
    }
  }

  lemma FirstPoolInv(r: Recv)
    requires Inv(r) && !r.broken && r.cur.None?
    ensures Prepare(r).Some? && Inv(Prepare(r).value)
  {
    hide HeadLen, FreedCount;
    var q := Prepare(r).value;
    FreedSnoc(r.pools, Fresh(0));
    assert forall k | 0 <= k < |q.pools| :: Holding(q.log, q.done, k) == 0;
  }

  lemma HandoffShape(r: Recv)
    requires Inv(r) && !r.broken && r.cur.Some? && Prepare(r).Some?
    ensures Shape(Prepare(r).value)
  {
    hide HeadLen, Holding, FreedCount, Full, PartialCopy, New, Own;
    var q, k := Prepare(r).value, r.cur.value;
    var src := r.pools[k];
    var (full, needed) := Full(src);
    if full {
      Handoff(src, needed);
      var (_, dst', src') := PartialCopy(New(needed).value, src);
      FreedUpdate(r.pools, k, Unref(src'));
      FreedSnoc(r.pools[k := Unref(src')], dst');
    }
  }

  lemma {:induction false} HoldingNothing(log: seq<InMsg>, done: set<nat>, k: nat)
    requires forall i | 0 <= i < |log| :: log[i].pool < k
    ensures Holding(log, done, k) == 0
    decreases |log|
  {
    if log != [] {
      HoldingNothing(log[..|log| - 1], done, k);
    }
  }

  lemma HandoffCounted(r: Recv)
    requires Inv(r) && !r.broken && r.cur.Some? && Prepare(r).Some?
    ensures Counted(Prepare(r).value)
  {
    hide HeadLen, Holding, FreedCount, Full, PartialCopy, New, Own;
    var q, k := Prepare(r).value, r.cur.value;
    var src := r.pools[k];
    var (full, needed) := Full(src);
    if full {
      Handoff(src, needed);
      HoldingNothing(r.log, r.done, |r.pools|);
    }
  }

  lemma HandoffIntact(r: Recv, i: nat)
    requires Inv(r) && !r.broken && r.cur.Some? && Prepare(r).Some?
    requires i < |r.log| && i !in r.done
    ensures Intact(Prepare(r).value, i)
  {
    hide HeadLen, Holding, FreedCount, Full, PartialCopy, New, Own;
    var k := r.cur.value;
    assert Intact(r, i);
    var src := r.pools[k];
    var (full, needed) := Full(src);
    if full {
      Handoff(src, needed);
      HoldingDone(r.log, r.done, i, r.log[i].pool);
    }
  }

  lemma PrepareInv(r: Recv)
    requires Inv(r) && !r.broken && Prepare(r).Some?
    ensures Inv(Prepare(r).value)
    ensures var q := Prepare(r).value;
      q.cur.Some? && q == r.(pools := q.pools, cur := q.cur, numFreed := q.numFreed)
  {
    hide HeadLen, Holding, FreedCount, Full, PartialCopy, New, Quiet;
    if r.cur.None? {
      FirstPoolInv(r);
    } else {
      var q := Prepare(r).value;
      HandoffShape(r);
      HandoffCounted(r);
      forall i | 0 <= i < |q.log| && i !in q.done
        ensures Intact(q, i)
      {
        HandoffIntact(r, i);
      }
    }
  }

  /** Octets that have arrived and are in no message yet. */
  function Pending(r: Recv): bytes
    requires r.cur.Some? ==> r.cur.value < |r.pools| && r.pools[r.cur.value].Ok()
  {
    if r.cur.None? then [] else r.pools[r.cur.value].Pending()
  }

  /** The new pool takes over, but the copy is refused: one sum of sizes has wrapped around and the other has not. */
  predicate Drops(src: Pool)
    requires src.Ok()
  {
    var (full, needed) := Full(src);
    full && WRAPS <= needed < 0x8000_0000 - MSGPAD
  }

  lemma RefusesExactly(src: Pool, needed: nat)
    requires src.Ok() && Full(src) == (true, needed) && New(needed).Some?
    ensures Refuses(New(needed).value, src) <==> Drops(src)
  {
    hide New;
  }

  /** Preparing for recv(2) moves the unfinished frame without changing it, if and only if the copy is not refused. */
  lemma PreparePending(r: Recv)
    requires Inv(r) && !r.broken && Prepare(r).Some?
    ensures Inv(Prepare(r).value)
    ensures Pending(Prepare(r).value) == Pending(r) <==> !(r.cur.Some? && Drops(r.pools[r.cur.value]))
  {
    hide HeadLen, Holding, FreedCount, Full, PartialCopy, Inv, New, Drops;
    PrepareInv(r);
    PreparedPending(r);
  }

  lemma PreparedPending(r: Recv)
    requires Inv(r) && !r.broken && Prepare(r).Some? && Inv(Prepare(r).value)
    ensures Pending(Prepare(r).value) == Pending(r) <==> !(r.cur.Some? && Drops(r.pools[r.cur.value]))
  {
    hide Holding, FreedCount, New, Own, Counted, Intact, Quiet, HeadLen;
    if r.cur.Some? {
      var src := r.pools[r.cur.value];
      var (full, needed) := Full(src);
      if full {
        RefusesExactly(src, needed);
        CopyStaysInside(src, needed);
      }
    }
  }

  // Runs --------------------------------------------------------------------------------------------------

  /** `Read(chunk)` is one pass of socket_resume_io_read in which recv(2) yields `chunk` (nothing on an error). */
  datatype Event = Read(chunk: bytes) | Recv1 | MsgDone(i: nat)

  predicate Enabled(r: Recv, e: Event)
    requires Inv(r)
  {
    match e
    case Read(chunk) =>
      && !r.broken
      && (match Prepare(r)
          case None => chunk == []
          case Some(q) =>
            PrepareInv(r);
            q.cur.Some? && |chunk| <= q.pools[q.cur.value].SpaceLeft() && (chunk != [] ==> Signless(q, chunk)))
    case Recv1 => r.queue != []
    case MsgDone(i) => i < |r.log| - |r.queue| && i !in r.done
  }

  function Step(r: Recv, e: Event): (q: Recv)
    requires Inv(r) && Enabled(r, e)
    ensures Inv(q)
  {
    match e
    case Read(chunk) =>
      if Prepare(r).None? then r
      else
        PrepareInv(r);
        if chunk == [] then Prepare(r).value
        else DeliverInv(Prepare(r).value, chunk); Deliver(Prepare(r).value, chunk)
    case Recv1 => TakeInv(r); Take(r)
    case MsgDone(i) => DoneInv(r, i); Done(r, i)
  }

  lemma InitialInv()
    ensures Inv(INITIAL)
  {
  }

  /**
   * The state after a run: `None` if an event was not possible, or if the peer announced a length with the sign
   * bit set. In every state reached, each pool's reference count is the number of references to it, it is freed
   * exactly when there are none, and every unfinished message still shows the octets it arrived with.
   */
  ghost function Run(es: seq<Event>): (r: Option<Recv>)
    ensures r.Some? ==> Inv(r.value)
  {
    if es == [] then
      Some(INITIAL)
    else
      match Run(es[..|es| - 1])
      case None => None
      case Some(q) => if Enabled(q, es[|es| - 1]) then Some(Step(q, es[|es| - 1])) else None
  }

  /** In every state that a run leads to, the copy to a new pool, if there is one, is refused or stays inside it. */
  lemma NeverSpills(es: seq<Event>)
    requires Run(es).Some? && !Run(es).value.broken && Run(es).value.cur.Some?
    ensures var r := Run(es).value;
      && r.cur.value < |r.pools| && r.pools[r.cur.value].Ok()
      && var src := r.pools[r.cur.value];
      && var (full, needed) := Full(src);
      full && New(needed).Some? ==> Refuses(New(needed).value, src) || |src.Pending()| <= |New(needed).value.data|
  {
    hide Run, New, Full, Own, Quiet, Counted, Intact;
    var r := Run(es).value;
    assert Inv(r);
    var src := r.pools[r.cur.value];
    var (full, needed) := Full(src);
    if full && New(needed).Some? {
      CopyStaysInside(src, needed);
    }
  }

  /** A header alone, with one of the lengths for which the new pool takes over and the copy is refused, is lost. */
  lemma DroppedRun(len: nat)
    requires WRAPS <= len < 0x8000_0000 - MSGPAD
    ensures var one, two := Run([Read(Head(len))]), Run([Read(Head(len)), Read([])]);
      one.Some? && Pending(one.value) == Head(len) && two.Some? && Pending(two.value) == []
  {
    hide Run, Enabled, Step, Head, Pending, Inv;
    var head := Head(len);
    RunNone();
    InitialInv();
    HeaderRead(len);
    RunSnoc([], Read(head));
    assert [] + [Read(head)] == [Read(head)];
    HeaderDropped(Step(INITIAL, Read(head)), len);
    RunSnoc([Read(head)], Read([]));
    assert [Read(head)] + [Read([])] == [Read(head), Read([])];
  }

  lemma HeaderRead(len: nat)
    requires MAXMSG < len < 0x8000_0000
    ensures Inv(INITIAL) && Enabled(INITIAL, Read(Head(len)))
    ensures var r := Step(INITIAL, Read(Head(len)));
      !r.broken && r.cur.Some? && Pending(r) == Head(len) && |r.pools[r.cur.value].data| == POOL_SIZE - POOLSTRUCT
  {
    hide Consume, HeadLen, HeadMagic, Head;
    InitialInv();
    FirstPoolInv(INITIAL);
    var d := Deposit(Fresh(0), Head(len));
    assert d.Pending() == Head(len);
    assert d.Header() == d.Pending()[..MSGPAD];
    HeadReads(len);
    ConsumeCases(d);
  }

  lemma HeaderDropped(r: Recv, len: nat)
    requires Inv(r) && !r.broken && r.cur.Some? && Pending(r) == Head(len)
    requires |r.pools[r.cur.value].data| == POOL_SIZE - POOLSTRUCT && WRAPS <= len < 0x8000_0000 - MSGPAD
    ensures Enabled(r, Read([])) && Pending(Step(r, Read([]))) == []
  {
    hide HeadLen, HeadMagic, Head, Counted, Intact, FreedCount;
    var src := r.pools[r.cur.value];
    assert src.HasHeader() by { assert |src.Pending()| == MSGPAD; }
    assert src.Header() == src.Pending()[..MSGPAD];
    HeadReads(len);
    PrepareInv(r);
    RefusesExactly(src, len);
  }

  lemma RunNone()
    ensures Run([]) == Some(INITIAL)
  {
  }

  lemma RunSnoc(es: seq<Event>, e: Event)
    requires Run(es).Some? && Enabled(Run(es).value, e)
    ensures Run(es + [e]) == Some(Step(Run(es).value, e))
  {
    hide Inv, Enabled, Step;
    assert (es + [e])[..|es|] == es;
  }

  // A well-formed peer ------------------------------------------------------------------------------------

  /** `got` has arrived from a peer that sends `sent`; exactly the messages complete in `got` are reassembled. */
  ghost predicate Fed(r: Recv, got: bytes, sent: seq<bytes>)
    requires Inv(r)
  {
    && !r.broken
    && Sendable(sent)
    && |r.log| <= |sent| && r.bodies == sent[..|r.log|]
    && Pending(r) <= Frames(sent[|r.log|..])
    && got == Frames(r.bodies) + Pending(r)
    && (r.cur.Some? ==> Incomplete(r.pools[r.cur.value]))
  }

  /** Room for recv(2) at all times: a pool is at hand, the unfinished frame fits in it, and it is not yet full. */
  lemma AlwaysRoom(r: Recv, got: bytes, sent: seq<bytes>)
    requires Inv(r) && Fed(r, got, sent)
    ensures Prepare(r).Some? && (r.cur.Some? ==> !Drops(r.pools[r.cur.value]))
    ensures var q := Prepare(r).value;
      && q.cur.Some? && q.cur.value < |q.pools|
      && var p := q.pools[q.cur.value];
      && p.Ok() && p.SpaceLeft() > 0
      && p.consumepos + MSGPAD <= |p.data|
      && (p.HasHeader() ==> p.consumepos + MSGPAD + HeadLen(p.Header()) <= |p.data|)
  {
    hide HeadLen, HeadMagic, Holding, FreedCount, Frames, Head;
    if r.cur.Some? {
      var src := r.pools[r.cur.value];
      if src.HasHeader() {
        FirstPending(src, sent[|r.log|..]);
      }
      var (full, needed) := Full(src);
      if full {
        HandoffCopies(src, needed);
        var (_, dst', src') := PartialCopy(Fresh(needed), src);
        SamePendingQuiet(src, dst');
        if dst'.HasHeader() {
          SamePendingSameHeader(dst', src);
        }
      }
    }
  }

  lemma CancelPrefix(a: bytes, b: bytes, c: bytes)
    requires a + b <= a + c
    ensures b <= c
  {
    assert b == (a + b)[|a|..] && c == (a + c)[|a|..];
    assert (a + b) == (a + c)[..|a| + |b|];
  }

  lemma NextPending(r: Recv, chunk: bytes, got: bytes, sent: seq<bytes>)
    requires Inv(r) && Fed(r, got, sent) && got + chunk <= Frames(sent)
    ensures Pending(r) + chunk <= Frames(sent[|r.log|..])
  {
    hide Frames, Counted, Intact, Incomplete, Quiet;
    FramesSplit(sent, |r.log|);
    assert got + chunk == Frames(r.bodies) + (Pending(r) + chunk);
    CancelPrefix(Frames(r.bodies), Pending(r) + chunk, Frames(sent[|r.log|..]));
  }

  lemma DeliverBodies(r: Recv, chunk: bytes, rest: seq<bytes>)
    requires Inv(r) && r.cur.Some? && !r.broken && |chunk| <= r.pools[r.cur.value].SpaceLeft()
    requires Sendable(rest) && Pending(r) + chunk <= Frames(rest)
    ensures Signless(r, chunk)
    ensures var q := Deliver(r, chunk);
      && !q.broken && |q.log| - |r.log| <= |rest|
      && q.bodies == r.bodies + rest[..|q.log| - |r.log|]
      && q.cur == r.cur && q.pools[q.cur.value].Ok() && Incomplete(q.pools[q.cur.value])
  {
    hide Inv, Consume, Frames, Deposit, Incomplete, Deliver, Contents, Pending, Pool.Pending, Pool.Ok;
    CurrentOk(r);
    PendingIs(r);
    var p := r.pools[r.cur.value];
    var c := Consume(Deposit(p, chunk));
    Delivered(r, chunk, c);
    PoolBodies(p, chunk, rest, c);
  }

  /** Behind the bodies delivered comes what is still pending. */
  lemma DeliverPending(r: Recv, chunk: bytes, rest: seq<bytes>, m: nat)
    requires Inv(r) && r.cur.Some? && !r.broken && |chunk| <= r.pools[r.cur.value].SpaceLeft()
    requires Sendable(rest) && Pending(r) + chunk <= Frames(rest) && m == |Deliver(r, chunk).log| - |r.log| <= |rest|
    requires var q := Deliver(r, chunk); q.cur == r.cur && q.pools[q.cur.value].Ok()
    ensures Pending(r) + chunk == Frames(rest[..m]) + Pending(Deliver(r, chunk))
  {
    hide Inv, Consume, Frames, Deposit, Incomplete, Deliver, Contents, Pending, Pool.Pending, Pool.Ok;
    CurrentOk(r);
    PendingIs(r);
    var p := r.pools[r.cur.value];
    var c := Consume(Deposit(p, chunk));
    Delivered(r, chunk, c);
    PendingIs(Deliver(r, chunk));
    PoolBodies(p, chunk, rest, c);
  }

  /** What is left behind n whole frames belongs to the frames after them. */
  lemma RestOf(all: bytes, left: bytes, rest: seq<bytes>, n: nat)
    requires n <= |rest| && all <= Frames(rest) && all == Frames(rest[..n]) + left
    ensures left <= Frames(rest[n..])
  {
    hide Frames;
    FramesSplit(rest, n);
    CancelPrefix(Frames(rest[..n]), left, Frames(rest[n..]));
  }

  lemma PendingIs(r: Recv)
    requires r.cur.Some? && r.cur.value < |r.pools| && r.pools[r.cur.value].Ok()
    ensures Pending(r) == r.pools[r.cur.value].Pending()
  {
  }

  lemma CurrentOk(r: Recv)
    requires Inv(r) && r.cur.Some?
    ensures r.cur.value < |r.pools| && r.pools[r.cur.value].Ok()
  {
    hide Counted, Intact, FreedCount, Quiet, Own;
  }

  /** What a pool makes of a well-formed peer's next octets. */
  lemma PoolBodies(p: Pool, chunk: bytes, rest: seq<bytes>, c: Consumed)
    requires p.Ok() && |chunk| <= p.SpaceLeft() && Sendable(rest) && p.Pending() + chunk <= Frames(rest)
    requires c == Consume(Deposit(p, chunk))
    ensures !c.stop.Negative? && !c.stop.Mismatch? && |c.msgs| <= |rest| && c.pool.Ok() && Incomplete(c.pool)
    ensures Contents(c.pool.data, c.msgs) == rest[..|c.msgs|]
    ensures p.Pending() + chunk == Frames(rest[..|c.msgs|]) + c.pool.Pending()
  {
    hide Consume, Frames, HeadLen, Deposit, Shows, Incomplete, Contents;
    ConsumeFrames(Deposit(p, chunk), rest);
    ContentsShown(c.pool.data, c.msgs, rest);
  }

  lemma Delivered(r: Recv, chunk: bytes, c: Consumed)
    requires r.cur.Some? && r.cur.value < |r.pools|
    requires r.pools[r.cur.value].Ok() && |chunk| <= r.pools[r.cur.value].SpaceLeft()
    requires c == Consume(Deposit(r.pools[r.cur.value], chunk))
    ensures var q := Deliver(r, chunk);
      && q.cur == r.cur && |q.pools| == |r.pools| && q.pools[r.cur.value] == c.pool && q.broken == c.stop.Mismatch?
      && |q.log| == |r.log| + |c.msgs| && q.bodies == r.bodies + Contents(c.pool.data, c.msgs)
  {
    hide Consume, Deposit;
  }

  lemma ContentsShown(data: bytes, spans: seq<Span>, bodies: seq<bytes>)
    requires |spans| <= |bodies| && Shows(data, spans, bodies)
    ensures Contents(data, spans) == bodies[..|spans|]
  {
  }

  lemma DeliverFed(r: Recv, chunk: bytes, got: bytes, sent: seq<bytes>)
    requires Inv(r) && Fed(r, got, sent) && r.cur.Some? && |chunk| <= r.pools[r.cur.value].SpaceLeft()
    requires got + chunk <= Frames(sent)
    ensures Inv(Deliver(r, chunk)) && Fed(Deliver(r, chunk), got + chunk, sent)
  {
    hide Deliver, Counted, Intact, Quiet, Frames, Incomplete, FreedCount;
    var q, n := Deliver(r, chunk), |r.log|;
    NextPending(r, chunk, got, sent);
    DeliverBodies(r, chunk, sent[n..]);
    DeliverInv(r, chunk);
    DeliverLog(r, chunk);
    var m := |q.log| - n;
    DeliverPending(r, chunk, sent[n..], m);
    RestOf(Pending(r) + chunk, Pending(q), sent[n..], m);
    CutTwice(sent, n, m);
    FramesAppend(r.bodies, sent[n..][..m]);
    Regroup(Frames(r.bodies), Pending(r), chunk, Frames(sent[n..][..m]), Pending(q));
  }

  lemma CutTwice(sent: seq<bytes>, n: nat, m: nat)
    requires n + m <= |sent|
    ensures sent[..n + m] == sent[..n] + sent[n..][..m]
    ensures sent[n + m..] == sent[n..][m..]
  {
  }

  lemma Regroup(a: bytes, b: bytes, c: bytes, d: bytes, e: bytes)
    requires b + c == d + e
    ensures (a + b) + c == (a + d) + e
  {
    assert (a + b) + c == a + (b + c);
    assert (a + d) + e == a + (d + e);
  }

  lemma DeliverLog(r: Recv, chunk: bytes)
    requires Inv(r) && r.cur.Some? && |chunk| <= r.pools[r.cur.value].SpaceLeft()
    ensures |Deliver(r, chunk).log| >= |r.log|
  {
  }

  /** What a step brings in from the peer. */
  function Input(e: Event): bytes {
    match e
    case Read(chunk) => chunk
    case _ => []
  }

  lemma StepFed(r: Recv, e: Event, got: bytes, sent: seq<bytes>)
    requires Inv(r) && Enabled(r, e) && Fed(r, got, sent) && got + Input(e) <= Frames(sent)
    ensures Fed(Step(r, e), got + Input(e), sent)
  {
    hide Deliver, Counted, Intact, Quiet, Frames, Incomplete, FreedCount, Full, PartialCopy, New;
    match e
    case Read(chunk) =>
      AlwaysRoom(r, got, sent);
      PrepareInv(r);
      PreparePending(r);
      PrepareFed(r, got, sent);
      if chunk == [] {
        assert got + chunk == got;
      } else {
        DeliverFed(Prepare(r).value, chunk, got, sent);
      }
    case Recv1 => assert got + [] == got;
    case MsgDone(i) =>
      assert got + [] == got;
      DoneFed(r, i, got, sent);
  }

  /** Whatever part of a well-formed peer's octets arrives, it can be read: no length is negative. */
  lemma HonestReads(r: Recv, chunk: bytes, got: bytes, sent: seq<bytes>)
    requires Inv(r) && Fed(r, got, sent) && got + chunk <= Frames(sent)
    ensures Prepare(r).Some?
    ensures var q := Prepare(r).value;
      && q.cur.Some? && q.cur.value < |q.pools|
      && (|chunk| <= q.pools[q.cur.value].SpaceLeft() ==> Enabled(r, Read(chunk)))
  {
    hide Consume, Counted, Intact, Quiet, Frames, Incomplete, FreedCount, Full, PartialCopy, New, Deposit;
    AlwaysRoom(r, got, sent);
    PrepareInv(r);
    PreparePending(r);
    PrepareFed(r, got, sent);
    var q := Prepare(r).value;
    if |chunk| <= q.pools[q.cur.value].SpaceLeft() {
      NextPending(q, chunk, got, sent);
      DeliverBodies(q, chunk, sent[|q.log|..]);
    }
  }

  lemma PrepareFed(r: Recv, got: bytes, sent: seq<bytes>)
    requires Inv(r) && !r.broken && Fed(r, got, sent) && Prepare(r).Some? && Inv(Prepare(r).value)
    requires Pending(Prepare(r).value) == Pending(r)
    ensures Fed(Prepare(r).value, got, sent)
  {
    hide Counted, Intact, Quiet, Frames, Incomplete, FreedCount, Prepare, HeadLen;
    PrepareInv(r);
    var q := Prepare(r).value;
    if r.cur.Some? {
      SamePendingQuiet(r.pools[r.cur.value], q.pools[q.cur.value]);
    } else {
      assert Incomplete(q.pools[q.cur.value]) by { NothingYet(q.pools[q.cur.value]); }
    }
  }

  lemma NothingYet(p: Pool)
    requires p.Ok() && p.Pending() == []
    ensures Incomplete(p)
  {
    assert |p.Pending()| == 0;
  }

  lemma DoneFed(r: Recv, i: nat, got: bytes, sent: seq<bytes>)
    requires Inv(r) && Fed(r, got, sent) && i < |r.log| - |r.queue| && i !in r.done
    ensures Inv(Done(r, i)) && Fed(Done(r, i), got, sent)
  {
    hide Frames, FreedCount, Holding, HeadLen, Quiet;
    DoneInv(r, i);
    HoldingDone(r.log, r.done, i, r.log[i].pool);
  }

  /** The peer may go on sending. */
  lemma SentMore(r: Recv, got: bytes, sent: seq<bytes>, body: bytes)
    requires Inv(r) && Fed(r, got, sent) && |body| <= MAXMSG
    ensures Fed(r, got, sent + [body])
  {
    hide Frames, Inv, Incomplete;
    var n := |r.log|;
    assert (sent + [body])[..n] == sent[..n];
    assert (sent + [body])[n..] == sent[n..] + [body];
    FramesSnoc(sent[n..], body);
  }
}
