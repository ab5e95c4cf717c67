/**
 * ipcsocket.c's channel as it works: fields updated in place by the write loop, the read pass, the poll checks and
 * the calls of the application. Every execution is shown to be a run of the step systems of Sender and Receiver.
 */
module Channel {
  import opened Bytes
  import opened IpcFrame
  import opened BufPool
  import opened Socket
  import S = Sender
  import R = Receiver

  datatype Rc = Ok | Fail | Broken

  datatype Wrote = Finished | TookNone | Fails(errno: Errno)

  /** A state and the event that led to it. */
  datatype Entry<E, T> = Entry(event: E, state: T)
  type SendEntry = Entry<S.Event, S.Send>
  type RecvEntry = Entry<R.Event, R.Recv>

  ghost predicate SendMove(a: S.Send, e: S.Event, b: S.Send) {
    S.Inv(a) && S.Enabled(a, e) && b == S.Step(a, e)
  }

  ghost predicate RecvMove(a: R.Recv, e: R.Event, b: R.Recv) {
    R.Inv(a) && R.Enabled(a, e) && b == R.Step(a, e)
  }

  ghost predicate SendLink(h: seq<SendEntry>, i: nat)
    requires i < |h|
  {
    S.Inv(h[i].state) && (i > 0 ==> SendMove(h[i - 1].state, h[i].event, h[i].state))
  }

  ghost predicate RecvLink(h: seq<RecvEntry>, i: nat)
    requires i < |h|
  {
    R.Inv(h[i].state) && (i > 0 ==> RecvMove(h[i - 1].state, h[i].event, h[i].state))
  }

  /** A sequence of states, each one step of Sender after the one before. */
  ghost predicate SendHistory(h: seq<SendEntry>) {
    h != [] && forall i: nat | i < |h| :: SendLink(h, i)
  }

  /** A sequence of states, each one step of Receiver after the one before. */
  ghost predicate RecvHistory(h: seq<RecvEntry>) {
    h != [] && forall i: nat | i < |h| :: RecvLink(h, i)
  }

  lemma SendGrows(h: seq<SendEntry>, x: SendEntry)
    requires SendHistory(h) && S.Inv(x.state) && SendMove(h[|h| - 1].state, x.event, x.state)
    ensures SendHistory(h + [x])
  {
    hide S.Inv, SendMove;
    var g := h + [x];
    forall i: nat | i < |g|
      ensures SendLink(g, i)
    {
      assert i < |h| ==> SendLink(h, i);
    }
  }

  lemma RecvGrows(h: seq<RecvEntry>, x: RecvEntry)
    requires RecvHistory(h) && R.Inv(x.state) && RecvMove(h[|h| - 1].state, x.event, x.state)
    ensures RecvHistory(h + [x])
  {
    hide R.Inv, RecvMove;
    var g := h + [x];
    forall i: nat | i < |g|
      ensures RecvLink(g, i)
    {
      assert i < |h| ==> RecvLink(h, i);
    }
  }

  lemma SendShrinks(h: seq<SendEntry>)
    requires SendHistory(h) && |h| > 1
    ensures SendHistory(h[..|h| - 1])
  {
    hide S.Inv, SendMove;
    var g := h[..|h| - 1];
    forall i: nat | i < |g|
      ensures SendLink(g, i)
    {
      assert SendLink(h, i);
    }
  }

  lemma RecvShrinks(h: seq<RecvEntry>)
    requires RecvHistory(h) && |h| > 1
    ensures RecvHistory(h[..|h| - 1])
  {
    hide R.Inv, RecvMove;
    var g := h[..|h| - 1];
    forall i: nat | i < |g|
      ensures RecvLink(g, i)
    {
      assert RecvLink(h, i);
    }
  }

  function Events<E, T>(h: seq<Entry<E, T>>): (es: seq<E>)
    requires h != []
    ensures |es| == |h| - 1
  {
    seq(|h| - 1, i requires 0 <= i < |h| - 1 => h[i + 1].event)
  }

  /** What the sending half has been through is a run of Sender. */
  lemma {:induction false} SendHistoryIsRun(h: seq<SendEntry>)
    requires SendHistory(h)
    ensures S.Inv(h[0].state) && S.Run(h[0].state, Events(h)) == Some(h[|h| - 1].state)
    decreases |h|
  {
    hide S.Inv, S.Enabled, S.Step;
    assert SendLink(h, 0);
    if |h| > 1 {
      var n := |h| - 1;
      SendShrinks(h);
      SendHistoryIsRun(h[..n]);
      assert SendLink(h, n);
      assert Events(h)[..n - 1] == Events(h[..n]);
    }
  }

  /** What the receiving half has been through is a run of Receiver. */
  lemma {:induction false} RecvHistoryIsRun(h: seq<RecvEntry>)
    requires RecvHistory(h) && h[0].state == R.INITIAL
    ensures R.Run(Events(h)) == Some(h[|h| - 1].state)
    decreases |h|
  {
    hide R.Inv, R.Enabled, R.Step;
    if |h| > 1 {
      var n := |h| - 1;
      RecvShrinks(h);
      RecvHistoryIsRun(h[..n]);
      assert RecvLink(h, n);
      assert Events(h)[..n - 1] == Events(h[..n]);
    }
  }

  /** All the octets that recv(2) has given in the course of a history. */
  ghost function Inputs(h: seq<RecvEntry>): bytes {
    if |h| <= 1 then [] else Inputs(h[..|h| - 1]) + R.Input(h[|h| - 1].event)
  }

  lemma InputsGrow(h: seq<RecvEntry>, x: RecvEntry)
    requires h != []
    ensures Inputs(h + [x]) == Inputs(h) + R.Input(x.event)
  {
    assert (h + [x])[..|h|] == h;
  }

  /** The histories of a new channel. */
  lemma SendBegins(s: S.Send)
    requires S.Inv(s)
    ensures SendHistory([Entry(S.Became(s.status), s)])
  {
    hide S.Inv;
  }

  lemma RecvBegins()
    ensures RecvHistory([Entry(R.Recv1, R.INITIAL)])
  {
    hide R.Inv;
    R.InitialInv();
  }

  /** The head message of s has `left` octets of its frame to go. */
  ghost predicate HeadReady(s: S.Send, left: nat) {
    && s.status.Connect? && s.qlen > 0 && s.queue != []
    && s.queue[0].Ok() && s.queue[0].gap >= MSGPAD
    && 0 < left == S.Left(s) <= s.queue[0].Len() + MSGPAD
  }

  /** The next k octets of the head frame. */
  ghost function NextOctets(s: S.Send, left: nat, k: nat): (q: bytes)
    requires HeadReady(s, left) && k <= left
    ensures |q| == k
  {
    var f := S.FrameOf(s.queue[0]);
    f[|f| - left..|f| - left + k]
  }

  /** The step that sends the rest of the head frame. */
  lemma WroteAll(s: S.Send, left: nat)
    requires S.Inv(s) && HeadReady(s, left)
    ensures S.Enabled(s, S.Wrote(left))
    ensures S.Step(s, S.Wrote(left)) ==
            S.Flow(s.(queue := s.queue[1..], qlen := s.qlen - 1, remaining := 0,
                      emitted := s.emitted + NextOctets(s, left, left)), s.qlen, s.qlen - 1)
  {
    hide S.Inv, S.FrameOf, S.Flow;
  }

  /** The step that sends some of the rest, or nothing. */
  lemma WrotePart(s: S.Send, left: nat, k: nat)
    requires S.Inv(s) && HeadReady(s, left) && k < left
    ensures S.Enabled(s, S.Wrote(k))
    ensures var t := s.(remaining := left - k, emitted := s.emitted + NextOctets(s, left, k));
      S.Step(s, S.Wrote(k)) == t && HeadReady(t, left - k)
  {
    hide S.Inv, S.FrameOf, S.Flow;
  }

  ghost function FrameLen(q: S.OutMsg): nat {
    MSGPAD + if q.Ok() then q.Len() else 0
  }

  ghost function FrameLens(q: seq<S.OutMsg>): (lens: seq<nat>)
    ensures |lens| == |q|
  {
    seq(|q|, i requires 0 <= i < |q| => FrameLen(q[i]))
  }

  /** How many octets of each queued frame are still to go. */
  ghost function ToGo(s: S.Send): (lens: seq<nat>)
    ensures |lens| == |s.queue|
  {
    if s.queue == [] then []
    else [if s.remaining == 0 then FrameLen(s.queue[0]) else s.remaining] + FrameLens(s.queue[1..])
  }

  lemma ToGoHead(s: S.Send, left: nat)
    requires HeadReady(s, left)
    ensures ToGo(s) == [left] + FrameLens(s.queue[1..])
  {
  }

  /** The next frame starts from its beginning. */
  lemma ToGoNext(s: S.Send, t: S.Send)
    requires s.queue != [] && t.queue == s.queue[1..] && t.remaining == 0
    ensures ToGo(t) == FrameLens(s.queue[1..])
  {
    if t.queue != [] {
      var lens := FrameLens(t.queue);
      assert lens[1..] == FrameLens(t.queue[1..]);
      assert lens == [lens[0]] + lens[1..];
    }
  }

  /** The header stamped on a message's memory makes the frame. */
  lemma Stamped(s: S.Send, left: nat, k: nat)
    requires HeadReady(s, left) && k <= left
    ensures var msg := s.queue[0];
      var buf, p := Head(msg.Len()) + msg.mem[MSGPAD..], msg.Len() + MSGPAD - left;
      NextOctets(s, left, k) == buf[p..p + k]
  {
    hide Head;
    var q := s.queue[0];
    var buf, n := Head(q.Len()) + q.mem[MSGPAD..], q.Len() + MSGPAD;
    assert S.FrameOf(q) == buf[..n];
    SliceOfSlice(buf, 0, n, n - left, n - left + k);
  }

  lemma HeadKnown(s: S.Send)
    requires S.Inv(s) && s.qlen > 0 && s.status.Connect?
    ensures s.queue != [] && s.queue[0].Ok() && HeadReady(s, S.Left(s))
  {
    hide S.Accounted, S.Hysteresis;
  }

  lemma PostAccepts(s: S.Send, m: S.OutMsg)
    requires S.Inv(s) && m.Ok() && m.Len() <= MAXMSG && s.qlen < s.maxQlen
    ensures S.Enabled(s, S.Sent(m))
    ensures S.Step(s, S.Sent(m)) == S.Post(s, m).1 == S.Flow(S.Enqueue(s, S.Queued(m)), s.qlen, s.qlen + 1)
  {
    hide S.Inv, S.Flow, S.Queued;
  }

  lemma QueueCounted(r: R.Recv)
    requires R.Inv(r)
    ensures r.qlen == |r.queue| <= |r.log| && r.queue == r.log[|r.log| - |r.queue|..]
  {
    hide R.Quiet, R.Counted, R.Intact, R.FreedCount;
  }

  lemma PoolKnown(r: R.Recv, i: nat)
    requires R.Inv(r) && i < |r.log|
    ensures r.log[i].pool < |r.pools|
  {
    hide R.Quiet, R.Counted, R.Intact, R.FreedCount;
  }

  lemma FirstPoolHasRoom()
    ensures New(0).Some? && Full(New(0).value) == (false, 0)
  {
  }

  /** The current pool of a sound receiver. */
  lemma CurrentPool(r: R.Recv)
    requires R.Inv(r) && !r.broken && r.cur.Some?
    ensures r.cur.value < |r.pools| && r.pools[r.cur.value].Ok()
    ensures R.Quiet(r.pools[r.cur.value]) && R.Own(r.pools[r.cur.value])
  {
    hide R.Quiet, R.Own, R.Counted, R.Intact, R.FreedCount;
  }

  /** Where recv(2) puts what it gets. */
  lemma PreparedPool(r: R.Recv)
    requires R.Inv(r) && !r.broken && R.Prepare(r).Some?
    ensures var q := R.Prepare(r).value;
      R.Inv(q) && q.cur.Some? && q.cur.value < |q.pools| && q.pools[q.cur.value].Ok() && q.qlen == r.qlen && !q.broken
  {
    hide R.Inv, R.Prepare, R.Quiet;
    R.PrepareInv(r);
    CurrentPool(R.Prepare(r).value);
  }

  lemma ReadEnabled(r: R.Recv, chunk: bytes)
    requires R.Inv(r) && !r.broken && R.Prepare(r).Some?
    requires var q := R.Prepare(r).value;
      && q.cur.Some? && q.cur.value < |q.pools| && q.pools[q.cur.value].Ok()
      && |chunk| <= q.pools[q.cur.value].SpaceLeft()
      && (chunk != [] ==> R.Signless(q, chunk))
    ensures R.Enabled(r, R.Read(chunk))
    ensures R.Step(r, R.Read(chunk)) == if chunk == [] then R.Prepare(r).value else R.Deliver(R.Prepare(r).value, chunk)
  {
    hide R.Inv, R.Prepare, R.Deliver;
  }

  // What calls lead to ------------------------------------------------------------------------------------

  /** What there is to see of a channel: its two halves, and the calls made on its socket. */
  datatype Seen = Seen(
    snd: S.Send, rcv: R.Recv, astray: bool, sends: seq<SendCall>, recvs: seq<RecvCall>, polls: seq<Polled>)

  /** Input and output, but nothing sent or taken by the application: the status never goes back. */
  ghost predicate Onward(a: Seen, b: Seen) {
    && a.snd.status.Rank() <= b.snd.status.Rank() && a.snd.accepted == b.snd.accepted
    && a.snd.emitted <= b.snd.emitted
    && a.rcv.log <= b.rcv.log && |a.rcv.log| - |a.rcv.queue| == |b.rcv.log| - |b.rcv.queue|
    && a.rcv.qlen <= b.rcv.qlen && (a.astray ==> b.astray)
    && a.sends <= b.sends && a.recvs <= b.recvs && a.polls <= b.polls
  }

  ghost predicate Grown(a: bytes, b: bytes) {
    a <= b
  }

  lemma GrownMore(a: bytes, b: bytes, q: bytes)
    requires Grown(a, b)
    ensures Grown(a, b + q)
  {
  }

  lemma GrownNone(a: bytes)
    ensures Grown(a, a)
  {
  }

  lemma OnwardTwice(a: Seen, b: Seen, c: Seen)
    requires Onward(a, b) && Onward(b, c)
    ensures Onward(a, c)
  {
  }

  ghost function With(a: Seen, st: S.Status): Seen {
    a.(snd := a.snd.(status := st))
  }

  /** No pool can be made for the length the peer announced. */
  ghost predicate Stuck(r: R.Recv) {
    && r.cur.Some? && r.cur.value < |r.pools| && r.pools[r.cur.value].Ok()
    && var (full, needed) := Full(r.pools[r.cur.value]); full && New(needed).None?
  }

  /** Nothing but the status of the sending half is other than it was. */
  ghost predicate NoWrites(a: Seen, b: Seen) {
    b.snd == a.snd.(status := b.snd.status) && b.sends == a.sends
  }

  ghost predicate NoReads(a: Seen, b: Seen) {
    b.rcv == a.rcv && b.recvs == a.recvs && b.astray == a.astray
  }

  /** socket_check_poll */
  ghost predicate PollChecked(st: S.Status, p: Polled, wantsInput: bool, now: S.Status, rc: Rc) {
    if st.Disconnect? then now.Disconnect? && rc.Ok?
    else if p.hup then
      if p.input || !wantsInput then now.DiscPending? && rc.Ok? else now.Disconnect? && rc.Broken?
    else if p.error then
      if p.closed then now.Disconnect? && rc.Ok? else now == st && rc.Fail?
    else now == st && rc.Ok?
  }

  /** socket_check_disc_pending: what the poll said, and that a read pass follows if there is input. */
  ghost predicate DiscPendingChecked(a: Seen, b: Seen, rc: Rc, recvMax: nat) {
    && NoWrites(a, b) && a.snd.status.Rank() <= b.snd.status.Rank()
    && if a.snd.status.Disconnect? || a.rcv.qlen > 0 then
         b == a && rc == if a.snd.status.Disconnect? then Broken else Ok
       else
         && a.polls < b.polls
         && var p := b.polls[|a.polls|];
         if p.bad || (p.hup && !p.input) then
           rc.Broken? && b == With(a, S.Disconnect).(polls := a.polls + [p])
         else if !p.input then
           rc.Ok? && b == a.(polls := a.polls + [p])
         else
           && rc.Ok? && (p.hup ==> !b.snd.status.Connect?)
           && if a.astray || Stuck(a.rcv) then NoReads(a, b)
              else if recvMax > 0 then a.recvs < b.recvs else a.recvs == b.recvs
  }

  /** recv(2) gave no octets. */
  ghost predicate EmptyRead(a: Seen, b: Seen, r: Received, rc: Rc, recvMax: nat) {
    match r
    case Got(_) => false
    case Eof => b == With(a, if a.rcv.qlen > 0 then S.DiscPending else S.Disconnect) &&
                rc == if a.rcv.qlen > 0 then Ok else Fail
    case Failed(Again) =>
      if a.snd.status.DiscPending? then b == With(a, S.Disconnect) && rc.Broken? else b == a && rc.Ok?
    case Failed(Reset) => DiscPendingChecked(With(a, S.DiscPending), b, rc, recvMax)
    case Failed(_) => b == With(a, S.Disconnect) && rc.Fail?
  }

  /** recv(2) gave chunk. */
  ghost predicate FullRead(a: Seen, b: Seen, chunk: bytes, rc: Rc) {
    && a.rcv.cur.Some? && a.rcv.cur.value < |a.rcv.pools| && a.rcv.pools[a.rcv.cur.value].Ok()
    && |chunk| <= a.rcv.pools[a.rcv.cur.value].SpaceLeft()
    && if !R.Signless(a.rcv, chunk) then b == a.(astray := true) && rc.Fail?
       else
         var r := R.Deliver(a.rcv, chunk);
         && b == With(a.(rcv := r), if r.broken then S.Disconnect else a.snd.status)
         && rc == if r.broken then Fail else Ok
  }

  lemma FullReadOnward(a: Seen, chunk: bytes)
    ensures forall b, rc :: FullRead(a, b, chunk, rc) ==> Onward(a, b)
  {
    hide Consume, Deposit;
  }

  /** One recv(2), if the receive queue has room; the pool is ready. */
  ghost predicate OneRead(a: Seen, b: Seen, rc: Rc, nbytes: nat, maxqlen: nat, recvMax: nat) {
    if a.rcv.qlen >= maxqlen then b == a && rc.Ok? && nbytes == 0
    else
      && a.recvs < b.recvs
      && var c := b.recvs[|a.recvs|];
      var called := a.(recvs := a.recvs + [c]);
      && c.room == RoomIn(a.rcv) && (c.answer.Got? ==> c.answer.chunk != [])
      && nbytes == (if c.answer.Got? then |c.answer.chunk| else 0)
      && if c.answer.Got? then FullRead(called, b, c.answer.chunk, rc) else EmptyRead(called, b, c.answer, rc, recvMax)
  }

  ghost function RoomIn(r: R.Recv): int {
    if r.cur.Some? && r.cur.value < |r.pools| then r.pools[r.cur.value].SpaceLeft() else 0
  }

  /** After the read, if that went well, a poll for errors. */
  ghost predicate ErrorsChecked(a: Seen, b: Seen, once: Rc, rc: Rc) {
    if !once.Ok? then b == a && rc == once
    else
      && a.polls < b.polls
      && var p := b.polls[|a.polls|];
      && b == With(a, b.snd.status).(polls := a.polls + [p])
      && exists r :: PollChecked(a.snd.status, p, false, b.snd.status, r) &&
           rc == if !r.Ok? then r else if b.snd.status.Readable() then Ok else Broken
  }

  /** How far a read pass gets: whether recv(2) is called, what it gave, and what the result code stands for. */
  ghost predicate ReadPass(a: Seen, b: Seen, rc: Rc, nbytes: nat, maxqlen: nat) {
    && NoWrites(a, b)
    && if a.snd.status.Disconnect? then b == a && rc.Broken? && nbytes == 0
       else if a.astray || Stuck(a.rcv) then b == a && rc.Fail? && nbytes == 0
       else
         && (if a.rcv.qlen >= maxqlen then nbytes == 0 && b.recvs == a.recvs
             else
               && a.recvs < b.recvs
               && var r := b.recvs[|a.recvs|].answer;
               (nbytes > 0 <==> r.Got?) && (r.Got? ==> nbytes == |r.chunk|))
         && (rc.Ok? ==> b.snd.status.Readable())
         && (rc.Ok? && b.snd.status.Connect? ==>
               a.polls < b.polls && !b.polls[|b.polls| - 1].hup && !b.polls[|b.polls| - 1].error)
         && (rc.Broken? ==> b.snd.status.Disconnect?)
         && (rc.Fail? && b.snd.status.Readable() ==> b.astray || PollError(a.polls, b.polls))
  }

  /** A poll(2) after the given ones reported an error on a descriptor that is still open. */
  ghost predicate PollError(before: seq<Polled>, polls: seq<Polled>) {
    exists i | |before| <= i < |polls| :: polls[i].error && !polls[i].hup && !polls[i].closed
  }

  /** A recv(2) after the given ones gave no octets. */
  ghost predicate GaveNothing(before: seq<RecvCall>, recvs: seq<RecvCall>) {
    exists i | |before| <= i < |recvs| :: !recvs[i].answer.Got?
  }

  /** The write loop: the calls it makes, and what the one that fails, if there is one, leads to. */
  ghost predicate WritePass(a: Seen, b: Seen, rc: Rc, nmsg: nat) {
    && |b.snd.queue| + nmsg == |a.snd.queue|
    && if !a.snd.status.Connect? then b == a && rc == if a.snd.status.Readable() then Ok else Broken
       else
         && a.sends <= b.sends
         && var d := b.sends[|a.sends|..];
         && Calls(ToGo(a.snd), d, ToGo(b.snd))
         && (Refusal(d) != Some(Pipe) ==> NoReads(a, b) && b.polls == a.polls)
         && (a.astray || Stuck(a.rcv) ==> NoReads(a, b))
         && match Refusal(d)
            case None => rc.Ok? && b.snd.status.Connect? && b.snd.queue == []
            case Some(Again) => rc.Ok? && b.snd.status.Connect?
            case Some(Pipe) => rc.Broken? && !b.snd.status.Connect? && (a.rcv.qlen == 0 ==> a.polls < b.polls)
            case Some(_) => rc.Fail? && b.snd.status.Disconnect?
  }

  /** Nothing is left to be sent, or send(2) has last said that it would block. */
  ghost predicate WritesOver(a: Seen, b: Seen) {
    b.snd.queue == [] || (a.sends < b.sends && Refusal(b.sends) == Some(Again))
  }

  /** Nothing more can be read, or recv(2) has been tried and gave nothing. */
  ghost predicate ReadsOver(a: Seen, b: Seen, recvMax: nat) {
    b.rcv.qlen >= recvMax || b.astray || Stuck(b.rcv) || GaveNothing(a.recvs, b.recvs)
  }

  /** Reading is possible, and so recv(2) is called. */
  ghost predicate Reads(a: Seen, b: Seen, recvMax: nat) {
    !a.snd.status.Disconnect? && !a.astray && !Stuck(a.rcv) && a.rcv.qlen < recvMax ==> a.recvs < b.recvs
  }

  /** A turn of the loop of socket_resume_io: the channel after its read and write pass, and the loop's variables. */
  datatype Turned = Turned(mid: Seen, end: Seen, rc1: Rc, rc2: Rc, nbytes: nat, nwmsg: nat)

  /** A read pass if the last one read something, then a write pass if the last one wrote a message. */
  ghost predicate TurnOf(was: Turned, t: Turned, recvMax: nat) {
    && (if was.nbytes > 0 then ReadPass(was.end, t.mid, t.rc1, t.nbytes, recvMax) && Onward(was.end, t.mid)
        else t.mid == was.end && t.rc1 == was.rc1 && t.nbytes == was.nbytes)
    && (if was.nwmsg > 0 then WritePass(t.mid, t.end, t.rc2, t.nwmsg) && Onward(t.mid, t.end)
        else t.end == t.mid && t.rc2 == was.rc2 && t.nwmsg == was.nwmsg)
  }

  ghost predicate GoesOn(t: Turned) {
    (t.nbytes > 0 || t.nwmsg > 0) && t.end.snd.status.Readable()
  }

  ghost predicate TurnAt(ts: seq<Turned>, i: nat, recvMax: nat)
    requires 0 < i < |ts|
  {
    GoesOn(ts[i - 1]) && TurnOf(ts[i - 1], ts[i], recvMax)
  }

  /** The turns made from a on; the first element is what the loop starts from. */
  ghost predicate Turns(a: Seen, ts: seq<Turned>, recvMax: nat) {
    ts != [] && ts[0] == Turned(a, a, Ok, Ok, 1, 1) && forall i | 0 < i < |ts| :: TurnAt(ts, i, recvMax)
  }

  ghost predicate OkOnce(ts: seq<Turned>) {
    exists i | 0 < i < |ts| :: ts[i].rc1.Ok? || ts[i].rc2.Ok?
  }

  ghost function Outcome(ts: seq<Turned>): Rc
    requires ts != []
  {
    var t := ts[|ts| - 1];
    if !t.end.snd.status.Readable() then (if OkOnce(ts) then Ok else Broken) else if !t.rc1.Ok? then t.rc1 else t.rc2
  }

  /** The loop, from its beginning to its end. */
  ghost predicate Looped(a: Seen, ts: seq<Turned>, b: Seen, rc: Rc, recvMax: nat) {
    Turns(a, ts, recvMax) && ts[|ts| - 1].end == b && !GoesOn(ts[|ts| - 1]) && rc == Outcome(ts)
  }

  lemma NoTurns(a: Seen, recvMax: nat)
    ensures Turns(a, [Turned(a, a, Ok, Ok, 1, 1)], recvMax) && !OkOnce([Turned(a, a, Ok, Ok, 1, 1)])
  {
  }

  lemma TurnsMore(a: Seen, ts: seq<Turned>, t: Turned, recvMax: nat)
    requires Turns(a, ts, recvMax) && GoesOn(ts[|ts| - 1]) && TurnOf(ts[|ts| - 1], t, recvMax)
    ensures Turns(a, ts + [t], recvMax)
  {
    hide TurnOf, GoesOn;
    forall i | 0 < i < |ts + [t]|
      ensures TurnAt(ts + [t], i, recvMax)
    {
      assert i < |ts| ==> TurnAt(ts, i, recvMax);
    }
  }

  lemma OkMore(ts: seq<Turned>, t: Turned)
    requires ts != []
    ensures OkOnce(ts + [t]) <==> OkOnce(ts) || t.rc1.Ok? || t.rc2.Ok?
  {
    var us := ts + [t];
    assert us[|ts|] == t;
    if OkOnce(ts) {
      var i :| 0 < i < |ts| && (ts[i].rc1.Ok? || ts[i].rc2.Ok?);
      assert us[i] == ts[i];
    }
  }

  /** socket_resume_io: reads and writes, until neither gets any further. */
  ghost predicate Resumed(a: Seen, b: Seen, rc: Rc, recvMax: nat) {
    && Onward(a, b) && (exists ts :: Looped(a, ts, b, rc, recvMax))
    && if !a.snd.status.Readable() then b == a && rc.Broken?
       else
         && Reads(a, b, recvMax)
         && (b.snd.status.Connect? ==> WritesOver(a, b) && !rc.Broken?)
         && (b.snd.status.Readable() ==> ReadsOver(a, b, recvMax))
         && (b.snd.status.Connect? && rc.Fail? ==> b.astray || Stuck(b.rcv) || PollError(a.polls, b.polls))
  }

  lemma ReadRefused(a: Seen, maxqlen: nat)
    ensures a.snd.status.Disconnect? ==> ReadPass(a, a, Broken, 0, maxqlen)
    ensures !a.snd.status.Disconnect? && (a.astray || Stuck(a.rcv)) ==> ReadPass(a, a, Fail, 0, maxqlen)
    ensures Onward(a, a)
  {
    hide Stuck;
  }

  lemma ReadGoesOn(
      a: Seen, r: R.Recv, mid: Seen, b: Seen, once: Rc, rc: Rc, nbytes: nat, maxqlen: nat, recvMax: nat)
    requires !a.snd.status.Disconnect? && !a.astray && !Stuck(a.rcv) && r.qlen == a.rcv.qlen
    requires OneRead(a.(rcv := r), mid, once, nbytes, maxqlen, recvMax)
    requires ErrorsChecked(mid, b, once, rc) && Onward(a.(rcv := r), mid) && Onward(a, a.(rcv := r))
    ensures ReadPass(a, b, rc, nbytes, maxqlen) && Onward(a, b)
  {
    hide Stuck, R.Deliver, R.Signless;
    OnwardTwice(a, a.(rcv := r), mid);
    ReadEnds(a.(rcv := r), mid, once, nbytes, maxqlen, recvMax);
    if once.Ok? {
      var p := b.polls[|mid.polls|];
      assert b.polls[|b.polls| - 1] == p;
    }
  }

  lemma ReadEnds(a: Seen, b: Seen, rc: Rc, nbytes: nat, maxqlen: nat, recvMax: nat)
    requires OneRead(a, b, rc, nbytes, maxqlen, recvMax) && !a.snd.status.Disconnect? && !a.astray
    ensures NoWrites(a, b)
    ensures a.rcv.qlen >= maxqlen ==> b.recvs == a.recvs
    ensures (rc.Broken? ==> b.snd.status.Disconnect?) && (rc.Fail? ==> b.snd.status.Disconnect? || b.astray)
  {
    hide Stuck, R.Deliver, R.Signless;
  }

  /** What the error number of a failing send(2) leads to. */
  ghost predicate WriteFailure(a: Seen, b: Seen, errno: Errno, rc: Rc, recvMax: nat) {
    match errno
    case Again => b == a && rc.Ok?
    case Pipe => rc.Broken? && exists r :: DiscPendingChecked(With(a, S.DiscPending), b, r, recvMax)
    case _ => b == With(a, S.Disconnect) && rc.Fail?
  }

  lemma WriteStops(
      a: Seen, b: Seen, c: Seen, d: seq<SendCall>, errno: Errno, rc: Rc, nmsg: nat, recvMax: nat)
    requires a.snd.status.Connect? && Onward(a, b) && Onward(b, c) && b.snd.status.Connect?
    requires b.sends == a.sends + d && Calls(ToGo(a.snd), d, ToGo(b.snd)) && Refusal(d) == Some(errno)
    requires NoReads(a, b) && b.polls == a.polls && |b.snd.queue| + nmsg == |a.snd.queue|
    requires WriteFailure(b, c, errno, rc, recvMax)
    ensures WritePass(a, c, rc, nmsg) && Onward(a, c)
  {
    hide Stuck, Calls, Refusal;
    OnwardTwice(a, b, c);
    assert c.sends == b.sends && c.snd == b.snd.(status := c.snd.status);
    assert c.sends[|a.sends|..] == d;
    assert ToGo(c.snd) == ToGo(b.snd);
  }

  /** One turn of the write loop: the calls made for the frame at the head. */
  ghost predicate HeadWritten(a: Seen, b: Seen, w: Wrote) {
    && b == a.(snd := b.snd, sends := b.sends) && b.snd.status == a.snd.status && b.snd.accepted == a.snd.accepted
    && a.snd.emitted <= b.snd.emitted && |b.snd.queue| == |a.snd.queue| - (if w.Finished? then 1 else 0)
    && a.sends < b.sends
    && var d := b.sends[|a.sends|..];
    Calls(ToGo(a.snd), d, ToGo(b.snd)) && Refusal(d) == if w.Fails? then Some(w.errno) else None
  }

  /** How far the write loop has got: d are the calls it has made. */
  ghost predicate Writing(a: Seen, b: Seen, d: seq<SendCall>, nmsg: nat) {
    && Onward(a, b) && NoReads(a, b) && b.polls == a.polls && b.snd.status == a.snd.status
    && b.sends == a.sends + d && After(ToGo(a.snd), d) == Some(ToGo(b.snd)) && Refusal(d).None?
    && |b.snd.queue| + nmsg == |a.snd.queue|
    && (!a.snd.status.Connect? ==> b == a)
  }

  lemma WritingBegins(a: Seen)
    ensures Writing(a, a, [], 0)
  {
    AfterNone(ToGo(a.snd));
    assert a.sends + [] == a.sends;
  }

  lemma WritingGoesOn(a: Seen, b: Seen, c: Seen, d: seq<SendCall>, w: Wrote, nmsg: nat) returns (d': seq<SendCall>)
    requires Writing(a, b, d, nmsg) && a.snd.status.Connect? && HeadWritten(b, c, w)
    ensures !w.Fails? ==> Writing(a, c, d', nmsg + if w.Finished? then 1 else 0)
    ensures w.Fails? ==>
      && Onward(a, c) && NoReads(a, c) && c.polls == a.polls && c.snd.status.Connect?
      && c.sends == a.sends + d' && Calls(ToGo(a.snd), d', ToGo(c.snd)) && Refusal(d') == Some(w.errno)
      && |c.snd.queue| + nmsg == |a.snd.queue|
  {
    hide ToGo, Calls, After, Refusal;
    var e := c.sends[|b.sends|..];
    CallsConcat(ToGo(a.snd), d, e, ToGo(b.snd), ToGo(c.snd));
    d' := d + e;
    assert c.sends == a.sends + d';
    if !w.Fails? {
      CallsAfter(ToGo(a.snd), d', ToGo(c.snd));
    }
  }

  lemma WritingShows(a: Seen, b: Seen, d: seq<SendCall>, nmsg: nat)
    requires Writing(a, b, d, nmsg)
    ensures b.snd.status == a.snd.status
  {
  }

  lemma WritingEnds(a: Seen, b: Seen, d: seq<SendCall>, nmsg: nat)
    requires Writing(a, b, d, nmsg) && (!a.snd.status.Connect? || b.snd.queue == [])
    ensures WritePass(a, b, if b.snd.status.Readable() then Ok else Broken, nmsg) && Onward(a, b)
  {
    hide ToGo, Calls, After, Refusal, Stuck;
    assert b.sends[|a.sends|..] == d;
    CallsAfter(ToGo(a.snd), d, ToGo(b.snd));
  }

  /** How far the loop of socket_resume_io has got. */
  ghost predicate Going(a: Seen, b: Seen, begun: bool, rc1: Rc, rc2: Rc, nbytes: nat, nwmsg: nat, recvMax: nat) {
    && Onward(a, b)
    && (!begun ==> b == a && nbytes > 0 && nwmsg > 0)
    && (begun ==> Reads(a, b, recvMax))
    && (begun && b.snd.status.Connect? ==>
          && WritesOver(a, b) && rc2.Ok? && !rc1.Broken?
          && (rc1.Fail? ==> b.astray || Stuck(b.rcv) || PollError(a.polls, b.polls)))
    && (nbytes == 0 ==> ReadsOver(a, b, recvMax))
  }

  lemma OnwardNone(a: Seen)
    ensures Onward(a, a)
  {
  }

  lemma PollErrorLater(a: seq<Polled>, b: seq<Polled>, c: seq<Polled>, d: seq<Polled>)
    requires |a| <= |b| && c <= d && PollError(b, c)
    ensures PollError(a, d)
  {
    var i :| |b| <= i < |c| && c[i].error && !c[i].hup && !c[i].closed;
    assert d[i] == c[i];
  }

  lemma GaveNothingLater(a: seq<RecvCall>, b: seq<RecvCall>, c: seq<RecvCall>, d: seq<RecvCall>)
    requires |a| <= |b| && c <= d && GaveNothing(b, c)
    ensures GaveNothing(a, d)
  {
    var i :| |b| <= i < |c| && !c[i].answer.Got?;
    assert d[i] == c[i];
  }

  /** Reading comes no further by going on. */
  lemma ReadsOverLater(a: Seen, b: Seen, c: Seen, d: Seen, recvMax: nat)
    requires |a.recvs| <= |b.recvs| && ReadsOver(b, c, recvMax) && Onward(c, d)
    requires c.astray || Stuck(c.rcv) ==> NoReads(c, d)
    ensures ReadsOver(a, d, recvMax)
  {
    hide Stuck, GaveNothing;
    if GaveNothing(b.recvs, c.recvs) {
      GaveNothingLater(a.recvs, b.recvs, c.recvs, d.recvs);
    }
  }

  /** A write pass ends with nothing to send, or with a send(2) that would block, as long as the connection stands. */
  lemma WritePassOver(a: Seen, b: Seen, rc: Rc, nmsg: nat)
    requires WritePass(a, b, rc, nmsg) && Onward(a, b)
    ensures b.snd.status.Connect? ==> WritesOver(a, b) && rc.Ok?
    ensures a.astray || Stuck(a.rcv) ==> NoReads(a, b)
  {
    hide Stuck, Calls, ToGo;
    if b.snd.status.Connect? {
      var d := b.sends[|a.sends|..];
      assert d != [] ==> b.sends[|b.sends| - 1] == d[|d| - 1];
    }
  }

  /** What a read pass leaves, from a channel that is not disconnected. */
  lemma ReadPassOver(a: Seen, b: Seen, rc: Rc, nbytes: nat, recvMax: nat)
    requires ReadPass(a, b, rc, nbytes, recvMax) && Onward(a, b) && a.snd.status.Readable()
    ensures Reads(a, b, recvMax) && NoWrites(a, b)
    ensures nbytes == 0 ==> ReadsOver(a, b, recvMax)
    ensures b.snd.status.Connect? ==>
      !rc.Broken? && (rc.Fail? ==> b.astray || Stuck(b.rcv) || PollError(a.polls, b.polls))
  {
    hide Stuck, PollError;
  }

  /** One turn of the loop keeps what the loop is to end with. */
  lemma Turn(a: Seen, was: Turned, t: Turned, begun: bool, recvMax: nat)
    requires Going(a, was.end, begun, was.rc1, was.rc2, was.nbytes, was.nwmsg, recvMax)
    requires was.end.snd.status.Readable() && TurnOf(was, t, recvMax)
    ensures Going(a, t.end, true, t.rc1, t.rc2, t.nbytes, t.nwmsg, recvMax)
  {
    hide Stuck, ReadPass, WritePass, Onward, PollError, GaveNothing, ReadsOver, WritesOver, Reads;
    if begun {
      TurnRead(a, was.end, t.mid, was.rc1, was.rc2, was.nbytes, was.nwmsg, t.rc1, t.nbytes, recvMax);
      TurnWrite(a, t.mid, t.end, t.rc1, was.rc2, t.nbytes, was.nwmsg, t.rc2, t.nwmsg, recvMax);
    } else {
      TurnFirst(a, was.end, t.mid, t.end, was.rc1, was.rc2, was.nbytes, was.nwmsg,
                t.rc1, t.rc2, t.nbytes, t.nwmsg, recvMax);
    }
  }

  lemma TurnRead(
      a: Seen, b: Seen, c: Seen, rc1: Rc, rc2: Rc, nbytes: nat, nwmsg: nat, rc1': Rc, nbytes': nat, recvMax: nat)
    requires Going(a, b, true, rc1, rc2, nbytes, nwmsg, recvMax) && b.snd.status.Readable()
    requires if nbytes > 0 then ReadPass(b, c, rc1', nbytes', recvMax) && Onward(b, c)
             else c == b && rc1' == rc1 && nbytes' == nbytes
    ensures Going(a, c, true, rc1', rc2, nbytes', nwmsg, recvMax)
  {
    hide Stuck, ReadPass, PollError, GaveNothing;
    if nbytes > 0 {
      ReadPassOver(b, c, rc1', nbytes', recvMax);
      OnwardTwice(a, b, c);
      OnwardNone(c);
      if nbytes' == 0 {
        ReadsOverLater(a, b, c, c, recvMax);
      }
      if PollError(b.polls, c.polls) {
        PollErrorLater(a.polls, b.polls, c.polls, c.polls);
      }
    }
  }

  lemma TurnWrite(
      a: Seen, c: Seen, d: Seen, rc1: Rc, rc2: Rc, nbytes: nat, nwmsg: nat, rc2': Rc, nwmsg': nat, recvMax: nat)
    requires Going(a, c, true, rc1, rc2, nbytes, nwmsg, recvMax)
    requires if nwmsg > 0 then WritePass(c, d, rc2', nwmsg') && Onward(c, d)
             else d == c && rc2' == rc2 && nwmsg' == nwmsg
    ensures Going(a, d, true, rc1, rc2', nbytes, nwmsg', recvMax)
  {
    hide Stuck, WritePass, PollError, GaveNothing;
    if nwmsg > 0 {
      WritePassOver(c, d, rc2', nwmsg');
      OnwardTwice(a, c, d);
      if nbytes == 0 {
        ReadsOverLater(a, a, c, d, recvMax);
      }
      if PollError(a.polls, c.polls) {
        PollErrorLater(a.polls, a.polls, c.polls, d.polls);
      }
    }
  }

  lemma TurnFirst(
      a: Seen, b: Seen, c: Seen, d: Seen, rc1: Rc, rc2: Rc, nbytes: nat, nwmsg: nat,
      rc1': Rc, rc2': Rc, nbytes': nat, nwmsg': nat, recvMax: nat)
    requires Going(a, b, false, rc1, rc2, nbytes, nwmsg, recvMax) && b.snd.status.Readable()
    requires ReadPass(b, c, rc1', nbytes', recvMax) && Onward(b, c)
    requires WritePass(c, d, rc2', nwmsg') && Onward(c, d)
    ensures Going(a, d, true, rc1', rc2', nbytes', nwmsg', recvMax)
  {
    hide Stuck, WritePass, ReadPass, PollError, GaveNothing;
    ReadPassOver(a, c, rc1', nbytes', recvMax);
    WritePassOver(c, d, rc2', nwmsg');
    OnwardTwice(a, c, d);
    if nbytes' == 0 {
      ReadsOverLater(a, a, c, d, recvMax);
    }
    if PollError(a.polls, c.polls) {
      PollErrorLater(a.polls, a.polls, c.polls, d.polls);
    }
  }

  lemma Begins(a: Seen, recvMax: nat)
    ensures Going(a, a, false, Ok, Ok, 1, 1, recvMax)
  {
  }

  /** What the loop ends with. */
  lemma Ends(a: Seen, ts: seq<Turned>, rc: Rc, recvMax: nat)
    requires a.snd.status.Readable() && |ts| > 1 && Looped(a, ts, ts[|ts| - 1].end, rc, recvMax)
    requires var t := ts[|ts| - 1]; Going(a, t.end, true, t.rc1, t.rc2, t.nbytes, t.nwmsg, recvMax)
    ensures Resumed(a, ts[|ts| - 1].end, rc, recvMax)
  {
    hide Stuck, PollError, GaveNothing, Onward, Turns, OkOnce;
  }

  lemma NotResumed(a: Seen, recvMax: nat)
    requires !a.snd.status.Readable()
    ensures Resumed(a, a, Broken, recvMax)
  {
    NoTurns(a, recvMax);
    assert Looped(a, [Turned(a, a, Ok, Ok, 1, 1)], a, Broken, recvMax);
  }

  /** What holds of a call's own resume_io holds of the call. */
  lemma ResumedLater(a: Seen, b: Seen, c: Seen, rc: Rc, recvMax: nat)
    requires a.sends <= b.sends && a.recvs <= b.recvs && a.polls <= b.polls && Resumed(b, c, rc, recvMax)
    ensures a.sends <= c.sends && a.recvs <= c.recvs && a.polls <= c.polls && Onward(b, c)
    ensures b.snd.status.Readable() && c.snd.status.Connect? ==> WritesOver(a, c)
    ensures b.snd.status.Readable() && c.snd.status.Readable() ==> ReadsOver(a, c, recvMax)
  {
    hide Stuck, PollError, GaveNothing;
    OnwardNone(c);
    if b.snd.status.Readable() && c.snd.status.Readable() {
      ReadsOverLater(a, b, c, c, recvMax);
    }
  }

  lemma ResumedShows(a: Seen, b: Seen, rc: Rc, recvMax: nat)
    requires Resumed(a, b, rc, recvMax)
    ensures Onward(a, b)
  {
    hide Stuck, Onward, Looped;
  }

  lemma OnwardShows(a: Seen, b: Seen)
    requires Onward(a, b)
    ensures a.snd.status.Rank() <= b.snd.status.Rank() && b.snd.accepted == a.snd.accepted && a.rcv.log <= b.rcv.log
    ensures |b.rcv.log| - |b.rcv.queue| == |a.rcv.log| - |a.rcv.queue|
    ensures a.sends <= b.sends && a.recvs <= b.recvs && a.polls <= b.polls
  {
  }

  lemma StuckIs(r: R.Recv)
    requires R.Inv(r) && !r.broken
    ensures R.Prepare(r).None? <==> Stuck(r)
  {
    hide R.Inv, R.Quiet, R.Own, New, Full, PartialCopy, R.Unref;
    if r.cur.Some? {
      CurrentPool(r);
    }
  }

  class Channel {
    const os: Os
    const maxQlen: nat
    const recvMax: nat
    const shouldBlock: bool
    const blockFail: bool
    const high: int
    const low: int

    var status: S.Status

    var sendQueue: seq<S.OutMsg>
    var sendQlen: nat
    var bytesRemaining: nat
    /** What the flow callbacks have last asked for. */
    var paused: bool

    /** Every pool allocated, an index standing for an address; the current one; the receive queue. */
    var pools: seq<Pool>
    var pool: Option<nat>
    var recvQueue: seq<R.InMsg>
    var recvQlen: nat
    var numFreed: nat

    /**
     * The source's consuming loop has met a header with a negative length; from then on this model says nothing of
     * the source, and reads nothing more.
     */
    var astray: bool

    ghost var accepted: seq<S.OutMsg>
    ghost var emitted: bytes
    ghost var badPeer: bool
    ghost var log: seq<R.InMsg>
    ghost var bodies: seq<bytes>
    ghost var done: set<nat>

    /** All the states the two halves have been in. */
    ghost var sends: seq<SendEntry>
    ghost var receipts: seq<RecvEntry>

    ghost function Snd(): S.Send
      reads this`status, this`sendQueue, this`sendQlen, this`bytesRemaining, this`paused, this`accepted, this`emitted
    {
      S.Send(status, sendQueue, sendQlen, maxQlen, bytesRemaining, shouldBlock, blockFail, high, low, paused,
             accepted, emitted)
    }

    ghost function Rcv(): R.Recv
      reads this`pools, this`pool, this`recvQueue, this`recvQlen, this`numFreed, this`badPeer
      reads this`log, this`bodies, this`done
    {
      R.Recv(pools, pool, recvQueue, recvQlen, numFreed, badPeer, log, bodies, done)
    }

    ghost function Begin(): S.Send {
      S.Initial(maxQlen, shouldBlock, blockFail, high, low)
    }

    /** The sending half has come step by step to s. */
    ghost predicate SendsTo(s: S.Send)
      reads this`sends
    {
      sends != [] && SendHistory(sends) && sends[0].state == Begin() && sends[|sends| - 1].state == s
    }

    ghost predicate ReceivesTo(r: R.Recv)
      reads this`receipts
    {
      receipts != [] && RecvHistory(receipts) && receipts[0].state == R.INITIAL && receipts[|receipts| - 1].state == r
    }

    /** The socket has taken what was emitted, and given what was read. */
    ghost predicate Wired(more: bytes)
      reads this`emitted, this`receipts, this`astray, os`wire, os`given
    {
      os.wire == emitted && (!astray ==> os.given == Inputs(receipts) + more)
    }

    ghost predicate Valid()
      reads this, os`wire, os`given
    {
      SendsTo(Snd()) && ReceivesTo(Rcv()) && (badPeer ==> status.Disconnect?) && Wired([])
    }

    ghost function Now(): Seen
      reads this, os`sends, os`recvs, os`polls
    {
      Seen(Snd(), Rcv(), astray, os.sends, os.recvs, os.polls)
    }

    /** A channel just connected. */
    constructor (os: Os, maxQlen: nat, recvMax: nat, shouldBlock: bool, blockFail: bool, high: int, low: int)
      requires os.wire == [] && os.given == []
      ensures this.os == os
      ensures Valid() && status.Connect? && sendQueue == [] && recvQueue == [] && emitted == [] && log == [] && !astray
      ensures this.maxQlen == maxQlen && this.recvMax == recvMax && this.high == high && this.low == low
      ensures this.shouldBlock == shouldBlock && this.blockFail == blockFail
    {
      hide S.Inv, R.Inv, Valid;
      this.os := os;
      this.maxQlen, this.recvMax, this.shouldBlock, this.blockFail := maxQlen, recvMax, shouldBlock, blockFail;
      this.high, this.low := high, low;
      status, sendQueue, sendQlen, bytesRemaining, paused := S.Connect, [], 0, 0, false;
      pools, pool, recvQueue, recvQlen, numFreed, astray := [], None, [], 0, 0, false;
      accepted, emitted, badPeer, log, bodies, done := [], [], false, [], [], {};
      sends := [Entry(S.Became(S.Connect), S.Initial(maxQlen, shouldBlock, blockFail, high, low))];
      receipts := [Entry(R.Recv1, R.INITIAL)];
      new;
      BeginsValid();
    }

    lemma BeginsValid()
      requires Snd() == Begin() && Rcv() == R.INITIAL && os.wire == [] && os.given == []
      requires sends == [Entry(S.Became(S.Connect), Begin())] && receipts == [Entry(R.Recv1, R.INITIAL)]
      ensures Valid()
    {
      hide S.Inv, R.Inv, SendHistory, RecvHistory;
      S.InitialInv(maxQlen, shouldBlock, blockFail, high, low);
      SendBegins(Begin());
      RecvBegins();
    }

    lemma SendInv(s: S.Send)
      requires SendsTo(s)
      ensures S.Inv(s)
    {
      hide S.Inv, SendMove;
      assert SendLink(sends, |sends| - 1);
    }

    lemma RecvInv(r: R.Recv)
      requires ReceivesTo(r)
      ensures R.Inv(r)
    {
      hide R.Inv, RecvMove;
      assert RecvLink(receipts, |receipts| - 1);
    }

    /** One more event at the sending half. */
    ghost method SendEvent(s: S.Send, e: S.Event)
      requires SendsTo(s) && S.Inv(s) && S.Enabled(s, e)
      modifies this`sends
      ensures SendsTo(S.Step(s, e)) && S.Inv(S.Step(s, e))
    {
      hide S.Inv, S.Enabled, S.Step, SendHistory;
      S.StepKeeps(s, e);
      SendGrows(sends, Entry(e, S.Step(s, e)));
      sends := sends + [Entry(e, S.Step(s, e))];
    }

    /** One more event at the receiving half. */
    ghost method RecvEvent(r: R.Recv, e: R.Event)
      requires ReceivesTo(r) && R.Inv(r) && R.Enabled(r, e)
      modifies this`receipts
      ensures ReceivesTo(R.Step(r, e)) && R.Inv(R.Step(r, e))
      ensures Inputs(receipts) == old(Inputs(receipts)) + R.Input(e)
    {
      hide R.Inv, R.Enabled, R.Step, RecvHistory, Inputs;
      InputsGrow(receipts, Entry(e, R.Step(r, e)));
      RecvGrows(receipts, Entry(e, R.Step(r, e)));
      receipts := receipts + [Entry(e, R.Step(r, e))];
    }

    /** Whatever was called, the two halves are where runs of Sender and Receiver lead. */
    lemma ComesFromRuns()
      requires Valid()
      ensures S.Inv(Begin()) && S.Run(Begin(), Events(sends)) == Some(Snd())
      ensures R.Run(Events(receipts)) == Some(Rcv())
    {
      hide S.Inv, R.Inv, S.Run, R.Run, SendHistory, RecvHistory;
      SendHistoryIsRun(sends);
      RecvHistoryIsRun(receipts);
    }

    /** The status moves on, never back. */
    method SetStatus(st: S.Status)
      requires Valid() && st.Rank() >= status.Rank()
      modifies this`status, this`sends
      ensures Valid() && Now() == With(old(Now()), st)
    {
      hide S.Inv, R.Inv, SendsTo, ReceivesTo;
      SendInv(Snd());
      SendEvent(Snd(), S.Became(st));
      status := st;
    }

    // Writing -----------------------------------------------------------------------------------------------

    /** socket_check_flow_control */
    method CheckFlowControl(orig: int, curr: int)
      modifies this`paused
      ensures Snd() == S.Flow(old(Snd()), orig, curr)
    {
      if !status.Readable() {
        return;
      }
      if curr >= high {
        paused := true;
      }
      if curr <= low && orig > low {
        paused := false;
      }
    }

    /** In the middle of the head frame: `left` octets of it are still to go, as the history's state s has it. */
    ghost predicate Sending(s: S.Send, left: nat)
      reads this
    {
      && SendsTo(s) && S.Inv(s) && ReceivesTo(Rcv()) && !badPeer
      && s == Snd().(remaining := s.remaining)
      && HeadReady(s, left)
    }

    /** The head message is out. */
    method LeaveQueue()
      requires sendQueue != [] && sendQlen > 0
      modifies this`bytesRemaining, this`sendQueue, this`sendQlen, this`paused
      ensures sendQlen == old(sendQlen) - 1 && sendQueue == old(sendQueue)[1..] && bytesRemaining == 0
      ensures var s := old(Snd());
        Snd() == S.Flow(s.(queue := s.queue[1..], qlen := s.qlen - 1, remaining := 0), s.qlen, s.qlen - 1)
    {
      hide S.Flow;
      bytesRemaining := 0;
      sendQueue := sendQueue[1..];
      var orig := sendQlen;
      sendQlen := sendQlen - 1;
      CheckFlowControl(orig, orig - 1);
    }

    /** send(2) took the octets q, all that was left: the message leaves the queue. */
    method Finish(ghost q: bytes, left: nat, ghost s: S.Send)
      requires Sending(s, left) && q == NextOctets(s, left, left) && os.wire == emitted + q
      requires !astray ==> os.given == Inputs(receipts) + []
      modifies this`bytesRemaining, this`sendQueue, this`sendQlen, this`paused, this`emitted, this`sends
      ensures Valid() && sendQlen == old(sendQlen) - 1 && sendQueue == old(sendQueue)[1..] && bytesRemaining == 0
      ensures emitted == old(emitted) + q
    {
      hide S.Inv, R.Inv, SendsTo, ReceivesTo, NextOctets, S.Flow, S.Step, S.Enabled, S.Left, Inputs;
      WroteAll(s, left);
      SendEvent(s, S.Wrote(left));
      emitted := emitted + q;
      LeaveQueue();
    }

    /** send(2) took the octets q, and more are left. */
    ghost method Advance(q: bytes, left: nat, s: S.Send) returns (t: S.Send)
      requires Sending(s, left) && |q| < left && q == NextOctets(s, left, |q|) && os.wire == emitted + q
      modifies this`emitted, this`sends
      ensures Sending(t, left - |q|) && os.wire == emitted == old(emitted) + q
    {
      hide S.Inv, R.Inv, SendsTo, ReceivesTo, NextOctets, S.Step, S.Enabled, S.Left;
      WrotePart(s, left, |q|);
      SendEvent(s, S.Wrote(|q|));
      emitted := emitted + q;
      t := s.(remaining := left - |q|, emitted := emitted);
    }

    /** send(2) took nothing: where it stopped is kept for the next time. */
    method Stop(left: nat, ghost s: S.Send)
      requires Sending(s, left) && Wired([])
      modifies this`bytesRemaining, this`sends
      ensures Valid() && bytesRemaining == left
    {
      hide S.Inv, R.Inv, SendsTo, ReceivesTo, NextOctets, S.Step, S.Enabled, S.Left, Wired;
      WrotePart(s, left, 0);
      SendEvent(s, S.Wrote(0));
      bytesRemaining := left;
      assert s.emitted + NextOctets(s, left, 0) == s.emitted;
    }

    /** The header is stamped on the head message; sending starts, or starts again. */
    method Resume() returns (buf: bytes, left: nat)
      requires Valid() && status.Connect? && sendQlen > 0
      ensures Sending(Snd(), left) && Wired([])
      ensures buf == Head(sendQueue[0].Len()) + sendQueue[0].mem[MSGPAD..]
    {
      hide S.Inv, R.Inv, SendsTo, ReceivesTo, Head;
      SendInv(Snd());
      HeadKnown(Snd());
      var msg := sendQueue[0];
      buf := Head(msg.Len()) + msg.mem[MSGPAD..];
      left := if bytesRemaining == 0 then msg.Len() + MSGPAD else bytesRemaining;
    }

    lemma SendingShows(s: S.Send, left: nat)
      requires Sending(s, left)
      ensures s.queue == sendQueue != [] && left > 0 && HeadReady(s, left)
    {
      hide S.Inv, R.Inv, SendsTo, ReceivesTo;
    }

    /** send(2), asked for all that is left of the head frame. */
    method SendRest(buf: bytes, left: nat, ghost s: S.Send) returns (sent: nat, failed: Option<Errno>)
      requires Sending(s, left) && HeadReady(s, left) && s.queue == sendQueue && os.wire == emitted
      requires buf == Head(sendQueue[0].Len()) + sendQueue[0].mem[MSGPAD..]
      modifies os`answers, os`wire, os`sends
      ensures sent <= left && (failed.Some? ==> sent == 0) && |os.answers| <= |old(os.answers)|
      ensures failed != Some(Again) ==> |os.answers| < |old(os.answers)|
      ensures os.wire == emitted + NextOctets(s, left, sent)
      ensures os.sends == old(os.sends) + [SendCall(left, sent, failed)]
    {
      hide Sending, Head, NextOctets;
      var p := sendQueue[0].Len() + MSGPAD - left;
      sent, failed := os.Send(buf[p..p + left]);
      Stamped(s, left, sent);
      assert buf[p..p + left][..sent] == buf[p..p + sent];
    }

    /**
     * One turn of socket_resume_io_write: the head message's frame is sent from where it was left, until it is
     * all out or send(2) fails or takes nothing.
     */
    method WriteHead() returns (w: Wrote, ghost d: seq<SendCall>)
      requires Valid() && status.Connect? && sendQlen > 0
      modifies this`bytesRemaining, this`sendQueue, this`sendQlen, this`paused, this`emitted, this`sends
      modifies os`answers, os`wire, os`sends
      ensures Valid() && |os.answers| <= |old(os.answers)|
      ensures sendQlen == old(sendQlen) - if w.Finished? then 1 else 0
      ensures w != Fails(Again) ==> |os.answers| < |old(os.answers)|
      ensures Grown(old(emitted), emitted)
      ensures d != [] && os.sends == old(os.sends) + d && Calls(old(ToGo(Snd())), d, ToGo(Snd()))
      ensures Refusal(d) == if w.Fails? then Some(w.errno) else None
    {
      hide Sending, Head, HeadReady, NextOctets, Valid, Inputs, ToGo, After, Calls, FrameLens, Grown;
      var buf, left := Resume();
      ghost var s, lens := Snd(), ToGo(Snd());
      SendingShows(s, left);
      ToGoHead(s, left);
      ghost var tail := FrameLens(sendQueue[1..]);
      d := [];
      AfterNone(lens);
      GrownNone(emitted);
      while true
        invariant Sending(s, left) && Wired([]) && Grown(old(emitted), emitted)
        invariant sendQlen == old(sendQlen) && sendQueue == old(sendQueue) && |os.answers| <= |old(os.answers)|
        invariant os.sends == old(os.sends) + d && After(lens, d) == Some([left] + tail)
        decreases left
      {
        SendingShows(s, left);
        var sent, failed := SendRest(buf, left, s);
        ghost var q, c := NextOctets(s, left, sent), SendCall(left, sent, failed);
        GrownMore(old(emitted), emitted, q);
        AfterSnoc(lens, d, c);
        assert os.sends == old(os.sends) + (d + [c]);
        if sent == 0 {
          assert q == [];
          Stop(left, s);
          ToGoStopped(left, tail);
          if failed.Some? {
            CallsFail(lens, d, c);
            return Fails(failed.value), d + [c];
          }
          CallsDone(lens, d, c);
          return TookNone, d + [c];
        }
        if sent == left {
          Finish(q, left, s);
          ToGoNext(s, Snd());
          CallsDone(lens, d, c);
          return Finished, d + [c];
        }
        s := Advance(q, left, s);
        left, d := left - sent, d + [c];
      }
    }

    lemma ToGoStopped(left: nat, tail: seq<nat>)
      requires sendQueue != [] && bytesRemaining == left > 0 && tail == FrameLens(sendQueue[1..])
      ensures ToGo(Snd()) == [left] + tail
    {
    }

    // Reading -----------------------------------------------------------------------------------------------

    /** The front of socket_resume_io_read: a first pool, or a new one that takes over the unfinished frame. */
    method PreparePool() returns (ok: bool)
      requires R.Inv(Rcv()) && !badPeer
      modifies this`pools, this`pool, this`numFreed
      ensures ok <==> R.Prepare(old(Rcv())).Some?
      ensures Rcv() == if ok then R.Prepare(old(Rcv())).value else old(Rcv())
    {
      hide R.Inv, R.Quiet, R.Own, New, Full, PartialCopy, R.Unref;
      FirstPoolHasRoom();
      if pool.None? {
        pools := pools + [New(0).value];
        pool := Some(|pools| - 1);
      } else {
        CurrentPool(Rcv());
      }
      var k := pool.value;
      var (full, needed) := Full(pools[k]);
      if full {
        var fresh_ := New(needed);
        if fresh_.None? {
          return false;
        }
        R.CopyStaysInside(pools[k], needed);
        var (copied, dst, src) := PartialCopy(fresh_.value, pools[k]);
        src := R.Unref(src);
        numFreed := numFreed + if src.freed then 1 else 0;
        pools := pools[k := src] + [dst];
        pool := Some(|pools| - 1);
      }
      return true;
    }

    /** Ready for recv(2), from the receiving state r on. */
    ghost predicate Prepared(r: R.Recv)
      reads this
    {
      && SendsTo(Snd()) && ReceivesTo(r) && R.Inv(r) && !r.broken
      && R.Prepare(r).Some? && Rcv() == R.Prepare(r).value
    }

    lemma PreparedSpace(r: R.Recv)
      requires Prepared(r)
      ensures pool.Some? && pool.value < |pools| && pools[pool.value].Ok() && !badPeer
      ensures pools[pool.value].SpaceLeft() >= 0
    {
      hide R.Inv, R.Prepare, SendsTo, ReceivesTo;
      PreparedPool(r);
    }

    /** recv(2) gave nothing, or was not called. */
    ghost method Nothing(r: R.Recv)
      requires Prepared(r) && Wired([])
      modifies this`receipts
      ensures Valid()
    {
      hide R.Inv, R.Prepare, SendsTo, ReceivesTo, R.Step, R.Enabled, R.Deliver, Inputs;
      PreparedPool(r);
      ReadEnabled(r, []);
      RecvEvent(r, R.Read([]));
      assert os.given + [] == os.given;
    }

    /** ipc_bufpool_update on the current pool. */
    method BufpoolUpdate(chunk: bytes) returns (bad: bool)
      requires pool.Some? && pool.value < |pools| && pools[pool.value].Ok() && |chunk| <= pools[pool.value].SpaceLeft()
      modifies this`pools, this`recvQueue, this`recvQlen, this`badPeer, this`log, this`bodies
      ensures Rcv() == R.Deliver(old(Rcv()), chunk) && bad == badPeer
    {
      hide Consume, Deposit;
      var k := pool.value;
      var c := Consume(Deposit(pools[k], chunk));
      var ms := R.Placed(k, c.msgs);
      pools := pools[k := c.pool];
      recvQueue := recvQueue + ms;
      recvQlen := recvQlen + |ms|;
      log, bodies, badPeer := log + ms, bodies + R.Contents(c.pool.data, c.msgs), c.stop.Mismatch?;
      bad := c.stop.Mismatch?;
    }

    /**
     * recv(2) gave chunk: ipc_bufpool_update queues what is complete; a bad magic number ends the connection, and
     * at a negative length the loop goes astray.
     */
    method Accept(chunk: bytes, ghost r: R.Recv) returns (rc: Rc)
      requires Prepared(r) && Wired(chunk) && pool.Some? && pool.value < |pools| && pools[pool.value].Ok()
      requires 0 < |chunk| <= pools[pool.value].SpaceLeft() && !astray
      modifies this`pools, this`recvQueue, this`recvQlen, this`status, this`astray
      modifies this`badPeer, this`log, this`bodies, this`receipts, this`sends
      ensures Valid() && FullRead(old(Now()), Now(), chunk, rc) && Onward(old(Now()), Now())
    {
      hide R.Inv, R.Prepare, SendsTo, ReceivesTo, R.Step, R.Enabled, R.Deliver, Consume, Deposit, Inputs, Onward;
      PreparedSpace(r);
      ghost var a := Now();
      FullReadOnward(a, chunk);
      if Consume(Deposit(pools[pool.value], chunk)).stop.Negative? {
        astray := true;
        Nothing(r);
        return Fail;
      }
      ReadEnabled(r, chunk);
      RecvEvent(r, R.Read(chunk));
      var bad := BufpoolUpdate(chunk);
      assert os.given + [] == os.given;
      if bad {
        Drop();
        return Fail;
      }
      return Ok;
    }

    /** The connection is over, and a peer that broke the protocol may be the reason. */
    method Drop()
      requires SendsTo(Snd()) && ReceivesTo(Rcv()) && Wired([])
      modifies this`status, this`sends
      ensures Valid() && status.Disconnect?
    {
      hide S.Inv, SendsTo, ReceivesTo, Wired;
      SendInv(Snd());
      SendEvent(Snd(), S.Became(S.Disconnect));
      status := S.Disconnect;
    }

    /** A pool is ready, or none can be made for the length the peer announced. */
    method MakeReady() returns (ok: bool)
      requires Valid() && !status.Disconnect?
      modifies this`pools, this`pool, this`numFreed
      ensures ok <==> !Stuck(old(Rcv()))
      ensures !ok ==> Valid() && Now() == old(Now())
      ensures ok ==> Prepared(old(Rcv())) && Wired([]) && Onward(old(Now()), Now()) && recvQlen == old(recvQlen)
    {
      hide R.Inv, R.Prepare, SendsTo, ReceivesTo, Wired, Stuck;
      RecvInv(Rcv());
      StuckIs(Rcv());
      ok := PreparePool();
    }

    /** socket_check_poll */
    method CheckPoll(p: Polled, wantsInput: bool) returns (rc: Rc)
      requires Valid()
      modifies this`status, this`sends
      ensures Valid() && PollChecked(old(status), p, wantsInput, status, rc) && status.Rank() >= old(status).Rank()
    {
      hide Valid;
      if status.Disconnect? {
        return Ok;
      }
      if p.hup {
        if p.input || !wantsInput {
          SetStatus(S.DiscPending);
          return Ok;
        }
        SetStatus(S.Disconnect);
        return Broken;
      } else if p.error {
        if p.closed {
          SetStatus(S.Disconnect);
          return Ok;
        }
        return Fail;
      }
      return Ok;
    }

    /** socket_check_disc_pending */
    method CheckDiscPending() returns (rc: Rc)
      requires Valid()
      modifies this, os
      ensures Valid() && Onward(old(Now()), Now()) && |os.answers| <= |old(os.answers)|
      ensures DiscPendingChecked(old(Now()), Now(), rc, recvMax)
      decreases |os.answers|, 3
    {
      hide Valid, Stuck;
      if status.Disconnect? {
        return Broken;
      }
      if recvQlen > 0 {
        return Ok;
      }
      var p := os.Poll();
      if p.bad {
        SetStatus(S.Disconnect);
        return Broken;
      }
      if p.hup {
        if p.input {
          SetStatus(S.DiscPending);
        } else {
          SetStatus(S.Disconnect);
          return Broken;
        }
      }
      if p.input {
        var rc1, n := ResumeIoRead(false);
      }
      return Ok;
    }

    /** What recv(2) answered when it gave no octets. */
    method NoOctets(r: Received) returns (rc: Rc)
      requires Valid() && !status.Disconnect? && !r.Got?
      modifies this, os
      ensures Valid() && Onward(old(Now()), Now()) && |os.answers| <= |old(os.answers)|
      ensures EmptyRead(old(Now()), Now(), r, rc, recvMax)
      decreases |os.answers|, if r == Failed(Reset) then 4 else 0
    {
      hide Valid, DiscPendingChecked;
      rc := Ok;
      match r {
        case Eof =>
          SetStatus(S.DiscPending);
          if recvQlen <= 0 {
            SetStatus(S.Disconnect);
            rc := Fail;
          }
        case Failed(Again) =>
          if status.DiscPending? {
            SetStatus(S.Disconnect);
            rc := Broken;
          }
        case Failed(Reset) =>
          SetStatus(S.DiscPending);
          rc := CheckDiscPending();
        case Failed(_) =>
          SetStatus(S.Disconnect);
          rc := Fail;
      }
    }

    /** One recv(2), if the receive queue has room, and what its answer leads to. */
    method ReadOnce(maxqlen: nat, ghost r: R.Recv) returns (rc: Rc, nbytes: nat)
      requires Prepared(r) && Wired([]) && !status.Disconnect? && !astray
      modifies this, os
      ensures Valid() && Onward(old(Now()), Now()) && |os.answers| <= |old(os.answers)|
      ensures nbytes > 0 ==> |os.answers| < |old(os.answers)|
      ensures OneRead(old(Now()), Now(), rc, nbytes, maxqlen, recvMax)
      decreases |os.answers|, 1
    {
      hide Valid, Prepared, Inputs, FullRead, EmptyRead;
      rc, nbytes := Ok, 0;
      PreparedSpace(r);
      if recvQlen >= maxqlen {
        Nothing(r);
        return;
      }
      var got := os.Recv(pools[pool.value].SpaceLeft());
      ghost var called := Now();
      if got.Got? {
        nbytes := |got.chunk|;
        assert Inputs(receipts) + [] + got.chunk == Inputs(receipts) + got.chunk;
        rc := Accept(got.chunk, r);
      } else {
        assert os.given == old(os.given) + [] == old(os.given);
        Nothing(r);
        rc := NoOctets(got);
      }
    }

    /** socket_resume_io_read */
    method ResumeIoRead(read1anyway: bool) returns (rc: Rc, nbytes: nat)
      requires Valid()
      modifies this, os
      ensures Valid() && Onward(old(Now()), Now()) && |os.answers| <= |old(os.answers)|
      ensures nbytes > 0 ==> |os.answers| < |old(os.answers)|
      ensures ReadPass(old(Now()), Now(), rc, nbytes, if recvMax == 0 && read1anyway then 1 else recvMax)
      decreases |os.answers|, 2
    {
      hide Valid, Prepared, Stuck, OneRead, Wired, ReadPass, ErrorsChecked, Onward;
      nbytes := 0;
      var maxqlen := if recvMax <= 0 && read1anyway then 1 else recvMax;
      ghost var a := Now();
      ReadRefused(a, maxqlen);
      if status.Disconnect? {
        return Broken, nbytes;
      }
      if astray {
        return Fail, nbytes;
      }
      var ready := MakeReady();
      if !ready {
        return Fail, nbytes;
      }
      ghost var r := Rcv();
      assert Now() == a.(rcv := r);
      rc, nbytes := ReadOnce(maxqlen, a.rcv);
      ghost var mid, once := Now(), rc;
      rc := CheckErrors(rc);
      ReadGoesOn(a, r, mid, Now(), once, rc, nbytes, maxqlen, recvMax);
    }

    /** The end of socket_resume_io_read: a poll for errors that recv(2) did not report. */
    method CheckErrors(once: Rc) returns (rc: Rc)
      requires Valid()
      modifies this`status, this`sends, os`answers, os`polls
      ensures Valid() && |os.answers| <= |old(os.answers)| && ErrorsChecked(old(Now()), Now(), once, rc)
    {
      hide Valid;
      rc := once;
      if rc.Ok? {
        var p := os.Poll();
        rc := CheckPoll(p, false);
        if rc.Ok? {
          rc := if status.Readable() then Ok else Broken;
        }
      }
    }

    /** socket_resume_io_write */
    method ResumeIoWrite() returns (rc: Rc, nmsg: nat)
      requires Valid()
      modifies this, os
      ensures Valid() && Onward(old(Now()), Now()) && |os.answers| <= |old(os.answers)|
      ensures nmsg > 0 ==> |os.answers| < |old(os.answers)|
      ensures WritePass(old(Now()), Now(), rc, nmsg)
    {
      hide Valid, Writing, HeadWritten, WritePass, Onward, WriteFailure, Calls, ToGo, NoReads;
      nmsg := 0;
      ghost var a := Now();
      ghost var d: seq<SendCall> := [];
      WritingBegins(a);
      while status.Connect? && sendQlen > 0
        invariant Valid() && |os.answers| <= |old(os.answers)| && (nmsg > 0 ==> |os.answers| < |old(os.answers)|)
        invariant Writing(a, Now(), d, nmsg)
        decreases |os.answers|
      {
        ghost var b := Now();
        WritingShows(a, b, d, nmsg);
        var w := HeadTurn();
        ghost var c := Now();
        d := WritingGoesOn(a, b, c, d, w, nmsg);
        if w.Fails? {
          rc := WriteFailed(w.errno);
          WriteStops(a, c, Now(), d, w.errno, rc, nmsg, recvMax);
          return;
        }
        if w.Finished? {
          nmsg := nmsg + 1;
        }
      }
      SendQueueShows();
      WritingShows(a, Now(), d, nmsg);
      WritingEnds(a, Now(), d, nmsg);
      return if status.Readable() then Ok else Broken, nmsg;
    }

    method HeadTurn() returns (w: Wrote)
      requires Valid() && status.Connect? && sendQlen > 0
      modifies this, os
      ensures Valid() && |os.answers| <= |old(os.answers)| && status.Connect?
      ensures w != Fails(Again) ==> |os.answers| < |old(os.answers)|
      ensures HeadWritten(old(Now()), Now(), w)
    {
      hide Valid, ToGo, Calls, Refusal;
      SendQueueShows();
      ghost var d;
      w, d := WriteHead();
      assert os.sends[|old(os.sends)|..] == d;
      SendQueueShows();
    }

    /** send(2) failed. */
    method WriteFailed(errno: Errno) returns (rc: Rc)
      requires Valid() && status.Connect?
      modifies this, os
      ensures Valid() && Onward(old(Now()), Now()) && |os.answers| <= |old(os.answers)|
      ensures WriteFailure(old(Now()), Now(), errno, rc, recvMax)
    {
      hide Valid, DiscPendingChecked;
      match errno {
        case Again =>
          return Ok;
        case Pipe =>
          SetStatus(S.DiscPending);
          var ignored := CheckDiscPending();
          return Broken;
        case _ =>
          SetStatus(S.Disconnect);
          return Fail;
      }
    }

    /** socket_resume_io */
    method ResumeIo() returns (rc: Rc)
      requires Valid()
      modifies this, os
      ensures Valid() && |os.answers| <= |old(os.answers)|
      ensures Resumed(old(Now()), Now(), rc, recvMax)
    {
      hide Valid, Stuck, ReadPass, WritePass, Going, Onward, Turns, OkOnce, Resumed;
      ghost var a := Now();
      if !status.Readable() {
        NotResumed(a, recvMax);
        return Broken;
      }
      var rc1, rc2 := Ok, Ok;
      var nwmsg: nat, nbytes: nat := 1, 1;
      var okOnce, again := false, true;
      ghost var t := Turned(a, a, Ok, Ok, 1, 1);
      ghost var ts := [t];
      NoTurns(a, recvMax);
      Begins(a, recvMax);
      while again
        invariant Valid() && |os.answers| <= |old(os.answers)|
        invariant ts != [] && t == ts[|ts| - 1] == Turned(t.mid, Now(), rc1, rc2, nbytes, nwmsg)
        invariant Turns(a, ts, recvMax) && okOnce == OkOnce(ts) && again == GoesOn(t) && (|ts| > 1 || again)
        invariant Going(a, t.end, |ts| > 1, rc1, rc2, nbytes, nwmsg, recvMax)
        decreases |os.answers|, again
      {
        ghost var was, mid := t, Now();
        var reading, writing := nbytes > 0, nwmsg > 0;
        if reading {
          rc1, nbytes := ResumeIoRead(false);
          mid := Now();
        }
        if writing {
          rc2, nwmsg := ResumeIoWrite();
        }
        t := Turned(mid, Now(), rc1, rc2, nbytes, nwmsg);
        Turn(a, was, t, |ts| > 1, recvMax);
        TurnsMore(a, ts, t, recvMax);
        OkMore(ts, t);
        ts := ts + [t];
        if rc1.Ok? || rc2.Ok? {
          okOnce := true;
        }
        again := (nbytes > 0 || nwmsg > 0) && status.Readable();
      }
      rc := if !status.Readable() then (if okOnce then Ok else Broken) else if !rc1.Ok? then rc1 else rc2;
      Ends(a, ts, rc, recvMax);
    }

    lemma SendQueueShows()
      requires Valid()
      ensures sendQlen == |sendQueue|
    {
      hide R.Inv, SendsTo, ReceivesTo, S.Accounted, S.Hysteresis;
      SendInv(Snd());
    }

    // The application's calls -------------------------------------------------------------------------------

    /** The message, copied if its header has no room in front of the body, joins the send queue. */
    method JoinQueue(m: S.OutMsg)
      requires Valid() && m.Ok() && m.Len() <= MAXMSG && sendQlen < maxQlen
      modifies this`sendQueue, this`sendQlen, this`paused, this`accepted, this`sends
      ensures Valid() && Now() == old(Now()).(snd := S.Post(old(Snd()), m).1)
    {
      hide S.Inv, R.Inv, SendsTo, ReceivesTo, S.Step, S.Post, S.Enabled, S.Flow, S.Queued, Wired;
      SendInv(Snd());
      PostAccepts(Snd(), m);
      SendEvent(Snd(), S.Sent(m));
      Append(S.Queued(m));
    }

    method Append(q: S.OutMsg)
      modifies this`sendQueue, this`sendQlen, this`paused, this`accepted
      ensures Snd() == S.Flow(S.Enqueue(old(Snd()), q), old(sendQlen), old(sendQlen) + 1)
      ensures accepted == old(accepted) + [q]
    {
      hide S.Flow;
      sendQueue := sendQueue + [q];
      accepted := accepted + [q];
      var orig := sendQlen;
      sendQlen := sendQlen + 1;
      CheckFlowControl(orig, orig + 1);
    }

    /** The front of socket_send: resume_io, and waiting for room in the queue if the channel blocks. */
    method AwaitRoom() returns (reply: S.Reply)
      requires Valid() && status.Connect?
      modifies this, os
      ensures Valid() && Onward(old(Now()), Now())
      ensures status.Connect? ==> WritesOver(old(Now()), Now())
      ensures status.Readable() ==> ReadsOver(old(Now()), Now(), recvMax)
      ensures reply ==
        if sendQlen < maxQlen then S.Accepted
        else if shouldBlock then (if status.Connect? then S.Waits else S.Refused)
        else if blockFail then S.Refused else S.Dropped
      ensures reply.Waits? ==> os.answers == []
    {
      hide Valid, Onward, WritesOver, ReadsOver, Resumed;
      ghost var a := Now();
      var rc := ResumeIo();
      ResumedLater(a, a, Now(), rc, recvMax);
      if !shouldBlock && sendQlen >= maxQlen {
        return if blockFail then S.Refused else S.Dropped;
      }
      while sendQlen >= maxQlen
        invariant Valid() && Onward(a, Now())
        invariant status.Connect? ==> WritesOver(a, Now())
        invariant status.Readable() ==> ReadsOver(a, Now(), recvMax)
        invariant sendQlen >= maxQlen ==> shouldBlock
        decreases |os.answers|
      {
        if !status.Connect? {
          return S.Refused;
        }
        var patient := os.Sleep();
        if !patient {
          return S.Waits;
        }
        ghost var b := Now();
        OnwardShows(a, b);
        rc := ResumeIo();
        ResumedLater(a, b, Now(), rc, recvMax);
        OnwardTwice(a, b, Now());
      }
      return S.Accepted;
    }

    /**
     * socket_send: tested for a connection once, at the start. The channel is as `at` has it once the call's own
     * resume_io is over: the message is accepted exactly if there is room then, connected or not, and then joins the
     * queue and resume_io follows.
     */
    method SocketSend(m: S.OutMsg) returns (reply: S.Reply, ghost at: Seen)
      requires Valid() && m.Ok()
      modifies this, os
      ensures Valid() && status.Rank() >= old(status).Rank()
      ensures m.Len() > MAXMSG || !old(status).Connect? ==> reply.Refused? && Now() == at == old(Now())
      ensures m.Len() <= MAXMSG && old(status).Connect? ==>
        && Onward(old(Now()), at) && reply == S.Post(at.snd, m).0
        && (at.snd.status.Connect? ==> WritesOver(old(Now()), at))
        && (at.snd.status.Readable() ==> ReadsOver(old(Now()), at, recvMax))
        && if reply.Accepted? then exists rc :: Resumed(at.(snd := S.Post(at.snd, m).1), Now(), rc, recvMax)
           else Now() == at
      ensures reply.Accepted? <==> m.Len() <= MAXMSG && old(status).Connect? && at.snd.qlen < maxQlen
      ensures accepted == if reply.Accepted? then old(accepted) + [S.Queued(m)] else old(accepted)
      ensures old(log) <= log && |log| - |recvQueue| == old(|log| - |recvQueue|)
      ensures at.snd.qlen >= maxQlen && m.Len() <= MAXMSG && old(status).Connect? ==>
        reply == if shouldBlock then (if at.snd.status.Connect? then S.Waits else S.Refused)
                 else if blockFail then S.Refused else S.Dropped
      ensures reply.Waits? ==> os.answers == []
    {
      hide Valid, S.Queued, Onward, WritesOver, ReadsOver, Resumed;
      at := Now();
      if m.Len() > MAXMSG || !status.Connect? {
        return S.Refused, at;
      }
      ghost var a := Now();
      reply := AwaitRoom();
      at := Now();
      OnwardShows(a, at);
      if reply.Accepted? {
        JoinQueue(m);
        ghost var b := Now();
        var rc := ResumeIo();
        ResumedLater(b, b, Now(), rc, recvMax);
        OnwardShows(b, Now());
      }
    }

    /** The first message of the receive queue. */
    method TakeFirst() returns (msg: R.InMsg)
      requires Valid() && recvQlen > 0
      modifies this`recvQueue, this`recvQlen, this`receipts
      ensures Valid() && |log| - |recvQueue| == old(|log| - |recvQueue|) + 1
      ensures 0 <= old(|log| - |recvQueue|) < |log| && msg == log[old(|log| - |recvQueue|)]
      ensures old(recvQueue) == [msg] + recvQueue && Now() == old(Now()).(rcv := R.Take(old(Rcv())))
    {
      hide R.Inv, SendsTo, ReceivesTo, Inputs;
      RecvInv(Rcv());
      QueueCounted(Rcv());
      RecvEvent(Rcv(), R.Recv1);
      msg := recvQueue[0];
      recvQueue := recvQueue[1..];
      recvQlen := recvQlen - 1;
      assert os.given + [] == os.given;
    }

    /**
     * socket_recv: resume_io, a read pass that reads even if the receive queue is to hold nothing, and the first
     * message then queued; messages come out in the order they came in, and the call fails only on an empty queue.
     */
    method SocketRecv()
      returns (rc: Rc, msg: Option<R.InMsg>, ghost at: Seen, ghost end: Seen, ghost read: Rc, ghost nbytes: nat)
      requires Valid()
      modifies this, os
      ensures Valid() && status.Rank() >= old(status).Rank() && accepted == old(accepted) && old(log) <= log
      ensures exists r :: Resumed(old(Now()), at, r, recvMax)
      ensures ReadPass(at, end, read, nbytes, if recvMax == 0 then 1 else recvMax)
      ensures msg.Some? <==> end.rcv.qlen > 0
      ensures rc == if msg.Some? then Ok else if read.Ok? then Fail else read
      ensures msg.None? ==> Now() == end && recvQueue == [] && |log| == old(|log| - |recvQueue|)
      ensures msg.Some? ==> end.rcv.queue != [] && Now() == end.(rcv := R.Take(end.rcv))
      ensures msg.Some? ==>
        var n := old(|log| - |recvQueue|); 0 <= n < |log| && msg.value == log[n] && |log| - |recvQueue| == n + 1
    {
      hide Valid, Stuck, Resumed, ReadPass, R.Take;
      ghost var a := Now();
      var result := ResumeIo();
      at := Now();
      ResumedShows(a, at, result, recvMax);
      var n;
      result, n := ResumeIoRead(true);
      end, read, nbytes := Now(), result, n;
      OnwardTwice(a, at, end);
      QueueShows();
      if recvQlen == 0 {
        return (if result.Ok? then Fail else result), None, at, end, read, nbytes;
      }
      var m := TakeFirst();
      return Ok, Some(m), at, end, read, nbytes;
    }

    lemma QueueShows()
      requires Valid()
      ensures recvQlen == |recvQueue| <= |log|
    {
      hide R.Inv, SendsTo, ReceivesTo;
      RecvInv(Rcv());
      QueueCounted(Rcv());
    }

    /** msg_done on the i-th message received, which the application has taken and not yet given back. */
    method MsgDone(msg: R.InMsg, ghost i: nat)
      requires Valid() && i < |log| - |recvQueue| && i !in done && msg == log[i]
      modifies this`pools, this`numFreed, this`done, this`receipts
      ensures Valid() && done == old(done) + {i}
      ensures old(msg.pool < |pools|) && Rcv() == R.Done(old(Rcv()), i)
    {
      hide R.Inv, SendsTo, ReceivesTo, R.Done, Inputs;
      RecvInv(Rcv());
      PoolKnown(Rcv(), i);
      RecvEvent(Rcv(), R.MsgDone(i));
      Release(msg, i);
      assert os.given + [] == os.given;
    }

    /** ipc_bufpool_unref on the pool of a message. */
    method Release(msg: R.InMsg, ghost i: nat)
      requires i < |log| && msg == log[i] && msg.pool < |pools|
      modifies this`pools, this`numFreed, this`done
      ensures Rcv() == R.Done(old(Rcv()), i) && done == old(done) + {i}
    {
      hide R.Unref;
      var k := msg.pool;
      var p := R.Unref(pools[k]);
      numFreed := numFreed + if p.freed then 1 else 0;
      pools := pools[k := p];
      done := done + {i};
    }
  }
}
