/** The receive buffer pools of ocf_ipc.c, as values. */
module BufPool {
  import opened Bytes
  import opened IpcFrame

  const POOL_SIZE := 4096

  /** sizeof(struct ipc_bufpool) on a machine with 8-byte pointers. */
  const POOLSTRUCT := 48
  const POOLHDR_SIZE := POOLSTRUCT + 2 * MSGPAD

  /** From here on a size and POOLHDR_SIZE have no sum in an int. */
  const WRAPS := 0x8000_0000 - POOLHDR_SIZE

  /** `data` is the area from startpos to endpos; the other cursors are offsets into it. */
  datatype Pool = Pool(refcount: int, data: bytes, consumepos: nat, currpos: nat, freed: bool) {
    ghost predicate Ok() {
      consumepos <= currpos <= |data|
    }

    /** Octets received but not yet part of a message. */
    function Pending(): bytes
      requires Ok()
    {
      data[consumepos..currpos]
    }

    predicate HasHeader() {
      currpos - consumepos >= MSGPAD
    }

    function Header(): (h: bytes)
      requires Ok() && HasHeader()
      ensures |h| == MSGPAD
    {
      data[consumepos..consumepos + MSGPAD]
    }

    function SpaceLeft(): int {
      |data| - currpos
    }
  }

  /** Where a message body lies in its pool. */
  datatype Span = Span(start: nat, len: nat)

  /** ipc_bufpool_new, whose sum of sizes wraps around in an int. */
  function New(size: nat): (r: Option<Pool>)
    ensures size <= MAXMSG ==>
      r.Some? && |r.value.data| >= size + 2 * MSGPAD && |r.value.data| >= POOL_SIZE - POOLSTRUCT
    ensures r.Some? ==>
      && r.value.Ok() && r.value.consumepos == r.value.currpos == 0 && r.value.refcount == 1 && !r.value.freed
      && POOL_SIZE - POOLSTRUCT <= |r.value.data|
    ensures MAXMSG < size < WRAPS ==> r.None?
    ensures WRAPS <= size < 0x8000_0000 ==> r.Some? && |r.value.data| == POOL_SIZE - POOLSTRUCT
  {
    var sum := Int32(size + POOLHDR_SIZE);
    var total := if sum < POOL_SIZE then POOL_SIZE else sum;
    if total > MAXMSG + POOLHDR_SIZE then None
    else Some(Pool(1, Zeros(total - POOLSTRUCT), 0, 0, false))
  }

  /** recv(2) deposits a chunk at currpos. */
  function Deposit(p: Pool, chunk: bytes): (q: Pool)
    requires p.Ok() && |chunk| <= p.SpaceLeft()
    ensures q.Ok() && q.Pending() == p.Pending() + chunk
    ensures |q.data| == |p.data| && q.data[..p.currpos] == p.data[..p.currpos]
  {
    p.(data := p.data[..p.currpos] + chunk + p.data[p.currpos + |chunk|..], currpos := p.currpos + |chunk|)
  }

  /** The pool after one turn of the loop, past a complete frame of n body octets. */
  function Past(p: Pool, n: nat): Pool {
    p.(consumepos := p.consumepos + MSGPAD + n, refcount := p.refcount + 1)
  }

  /** Why the loop stops: too little has arrived or too much is announced; no magic number; a negative length. */
  datatype Stop = Waits | Mismatch | Negative

  datatype Consumed = Consumed(pool: Pool, msgs: seq<Span>, stop: Stop)

  /** The loop of ipc_bufpool_update, up to a header with a negative length if it meets one. */
  function Consume(p: Pool): (c: Consumed)
    requires p.Ok()
    ensures c.pool.Ok() && p.consumepos <= c.pool.consumepos
    ensures c.pool == p.(consumepos := c.pool.consumepos, refcount := p.refcount + |c.msgs|)
    ensures forall i | 0 <= i < |c.msgs| :: c.msgs[i].start + c.msgs[i].len <= c.pool.consumepos
    decreases p.currpos - p.consumepos
  {
    if p.currpos - p.consumepos < MSGPAD then Consumed(p, [], Waits)
    else
      var head := p.Header();
      if HeadMagic(head) != HEADMAGIC then Consumed(p, [], Mismatch)
      else if HeadLen(head) > MAXMSG then Consumed(p, [], Waits)
      else if p.consumepos + MSGPAD + HeadLen(head) > p.currpos then Consumed(p, [], Waits)
      else if HeadLen(head) < 0 then Consumed(p, [], Negative)
      else
        var rest := Consume(Past(p, HeadLen(head)));
        Consumed(rest.pool, [Span(p.consumepos + MSGPAD, HeadLen(head))] + rest.msgs, rest.stop)
  }

  /** ipc_bufpool_full: must the unfinished frame move, and for how many body octets must the new pool have room? */
  function Full(p: Pool): (r: (bool, nat))
    requires p.Ok()
  {
    if |p.data| - p.consumepos < MSGPAD then (true, 0)
    else if p.currpos - p.consumepos >= MSGPAD then
      var len := HeadLen(p.Header());
      if p.consumepos + MSGPAD + len >= |p.data| then (true, len) else (false, 0)
    else (false, 0)
  }

  /** Does ipc_bufpool_partial_copy find too little space? Its sum wraps around in an int, too. */
  predicate Refuses(dst: Pool, src: Pool)
    requires src.Ok()
  {
    src.currpos - src.consumepos >= MSGPAD && Int32(HeadLen(src.Header()) + MSGPAD) > dst.SpaceLeft()
  }

  /** ipc_bufpool_partial_copy: the result's first component is IPC_OK. */
  function PartialCopy(dst: Pool, src: Pool): (r: (bool, Pool, Pool))
    requires dst.Ok() && src.Ok()
    requires Refuses(dst, src) || dst.consumepos + |src.Pending()| <= |dst.data|
  {
    if Refuses(dst, src) then (false, dst, src)
    else
      var at, n := dst.consumepos, src.currpos - src.consumepos;
      (true, dst.(data := dst.data[..at] + src.Pending() + dst.data[at + n..], currpos := at + n),
             src.(currpos := src.consumepos))
  }

  /** The unfinished frame does not yet hold a complete message. */
  ghost predicate Incomplete(p: Pool)
    requires p.Ok()
  {
    !p.HasHeader() || p.currpos - p.consumepos < MSGPAD + HeadLen(p.Header())
  }

  /** What a pool fed by a well-formed peer shows at consumepos. */
  lemma FirstPending(p: Pool, sent: seq<bytes>)
    requires p.Ok() && Sendable(sent) && p.Pending() <= Frames(sent) && p.HasHeader()
    ensures sent != [] && HeadMagic(p.Header()) == HEADMAGIC && HeadLen(p.Header()) == |sent[0]|
    ensures p.Header() == Head(|sent[0]|)
  {
    hide Frames;
    FirstHead(p.Pending(), sent);
    SliceOfSlice(p.data, p.consumepos, p.currpos, 0, MSGPAD);
    FirstFrameHead(p.Pending(), sent);
  }

  lemma FirstFrameHead(pending: bytes, sent: seq<bytes>)
    requires pending <= Frames(sent) && |pending| >= MSGPAD && sent != []
    ensures pending[..MSGPAD] == Head(|sent[0]|)
  {
    assert pending[..MSGPAD] == Frames(sent)[..MSGPAD];
  }

  lemma PendingPast(p: Pool, sent: seq<bytes>)
    requires p.Ok() && Sendable(sent) && p.Pending() <= Frames(sent) && !Incomplete(p)
    ensures sent != [] && HeadLen(p.Header()) == |sent[0]| && Past(p, |sent[0]|).Ok()
    ensures p.data[p.consumepos + MSGPAD..p.consumepos + MSGPAD + |sent[0]|] == sent[0]
    ensures Past(p, |sent[0]|).Pending() <= Frames(sent[1..])
    ensures p.Pending() == Frame(sent[0]) + Past(p, |sent[0]|).Pending()
  {
    hide Frames, Head;
    FirstPending(p, sent);
    var len := |sent[0]|;
    FirstFrame(p.Pending(), sent);
    SliceOfSlice(p.data, p.consumepos, p.currpos, MSGPAD, MSGPAD + len);
    SliceOfSlice(p.data, p.consumepos, p.currpos, MSGPAD + len, p.currpos - p.consumepos);
    SliceOfSlice(p.data, p.consumepos, p.currpos, 0, MSGPAD);
    SplitFrame(p.Pending(), sent[0]);
  }

  lemma SplitFrame(pending: bytes, body: bytes)
    requires |pending| >= MSGPAD + |body|
    requires pending[0..MSGPAD] == Head(|body|) && pending[MSGPAD..MSGPAD + |body|] == body
    ensures pending == Frame(body) + pending[MSGPAD + |body|..|pending|]
  {
    var k := MSGPAD + |body|;
    assert pending == pending[0..MSGPAD] + pending[MSGPAD..k] + pending[k..|pending|];
  }

  /** One turn of the loop on a complete first frame. */
  lemma ConsumeOne(p: Pool, sent: seq<bytes>)
    requires p.Ok() && Sendable(sent) && p.Pending() <= Frames(sent) && !Incomplete(p)
    ensures sent != [] && Past(p, |sent[0]|).Ok()
    ensures var c := Consume(Past(p, |sent[0]|));
      Consume(p) == Consumed(c.pool, [Span(p.consumepos + MSGPAD, |sent[0]|)] + c.msgs, c.stop)
  {
    hide Frames, Head, HeadMagic, HeadLen;
    FirstPending(p, sent);
    assert |sent[0]| <= MAXMSG;
  }

  lemma ConsumeNone(p: Pool, sent: seq<bytes>)
    requires p.Ok() && Sendable(sent) && p.Pending() <= Frames(sent) && Incomplete(p)
    ensures Consume(p) == Consumed(p, [], Waits)
  {
    if p.HasHeader() {
      FirstPending(p, sent);
    }
  }

  ghost predicate Shows(data: bytes, spans: seq<Span>, bodies: seq<bytes>) {
    && |spans| <= |bodies|
    && forall i | 0 <= i < |spans| ::
         spans[i].start + spans[i].len <= |data| && data[spans[i].start..spans[i].start + spans[i].len] == bodies[i]
  }

  lemma ShowsCons(data: bytes, s: Span, spans: seq<Span>, bodies: seq<bytes>)
    requires bodies != [] && Shows(data, spans, bodies[1..])
    requires s.start + s.len <= |data| && data[s.start..s.start + s.len] == bodies[0]
    ensures Shows(data, [s] + spans, bodies)
  {
    forall i | 0 < i < |spans| + 1
      ensures ([s] + spans)[i] == spans[i - 1] && bodies[i] == bodies[1..][i - 1]
    {}
  }

  lemma FramesCons(sent: seq<bytes>, n: nat)
    requires n < |sent|
    ensures sent[n + 1..] == sent[1..][n..]
    ensures Frames(sent[..n + 1]) == Frame(sent[0]) + Frames(sent[1..][..n])
  {
    assert sent[..n + 1][1..] == sent[1..][..n];
  }

  lemma NoneShown(data: bytes, bodies: seq<bytes>)
    ensures Shows(data, [], bodies) && Frames([]) == []
  {
  }

  /** Fed by a well-formed peer, the loop peels off exactly the messages whose frames are complete. */
  lemma {:induction false} ConsumeFrames(p: Pool, sent: seq<bytes>)
    requires p.Ok() && Sendable(sent) && p.Pending() <= Frames(sent)
    ensures var c := Consume(p);
      && c.stop.Waits?
      && |c.msgs| <= |sent|
      && Shows(p.data, c.msgs, sent)
      && c.pool.Pending() <= Frames(sent[|c.msgs|..])
      && Incomplete(c.pool)
      && p.Pending() == Frames(sent[..|c.msgs|]) + c.pool.Pending()
    decreases p.currpos - p.consumepos
  {
    hide Consume, Frames, Shows, Frame, HeadLen, HeadMagic;
    if Incomplete(p) {
      ConsumeNone(p, sent);
      assert Shows(p.data, [], sent) && Frames([]) == [] by { NoneShown(p.data, sent); }
      assert sent[0..] == sent && sent[..0] == [];
    } else {
      ConsumeOne(p, sent);
      PendingPast(p, sent);
      var q := Past(p, |sent[0]|);
      ConsumeFrames(q, sent[1..]);
      var n := |Consume(q).msgs|;
      FramesCons(sent, n);
      ShowsCons(p.data, Span(p.consumepos + MSGPAD, |sent[0]|), Consume(q).msgs, sent);
    }
  }

  /** The loop's result by what it meets first. */
  lemma ConsumeCases(p: Pool)
    requires p.Ok()
    ensures !p.HasHeader() ==> Consume(p) == Consumed(p, [], Waits)
    ensures p.HasHeader() ==>
      var head := p.Header();
      if HeadMagic(head) != HEADMAGIC then Consume(p) == Consumed(p, [], Mismatch)
      else if HeadLen(head) > MAXMSG || p.consumepos + MSGPAD + HeadLen(head) > p.currpos then
        Consume(p) == Consumed(p, [], Waits)
      else if HeadLen(head) < 0 then Consume(p) == Consumed(p, [], Negative)
      else
        var rest := Consume(Past(p, HeadLen(head)));
        Consume(p) == Consumed(rest.pool, [Span(p.consumepos + MSGPAD, HeadLen(head))] + rest.msgs, rest.stop)
  {
    hide HeadMagic, HeadLen;
  }
}
