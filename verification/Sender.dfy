/** The sending half of a channel: the send queue, resumed partial writes and flow control. */
module Sender {
  import opened Bytes
  import opened IpcFrame

  datatype Status = Connect | DiscPending | Disconnect {
    function Rank(): nat {
      match this
      case Connect => 0
      case DiscPending => 1
      case Disconnect => 2
    }

    /** IPC_ISRCONN */
    predicate Readable() {
      !Disconnect?
    }
  }

  /** `mem` holds the octets from msg_buf to the end of the message; the body starts `gap` octets in. */
  datatype OutMsg = OutMsg(gap: nat, mem: bytes) {
    ghost predicate Ok() {
      gap <= |mem|
    }

    function Len(): nat
      requires Ok()
    {
      |mem| - gap
    }

    function Body(): bytes
      requires Ok()
    {
      mem[gap..]
    }
  }

  /** socket_send copies a message whose buffer has no room for a header in front of the body. */
  function Queued(m: OutMsg): (q: OutMsg)
    requires m.Ok()
    ensures q.Ok() && q.gap >= MSGPAD && q.Len() == m.Len()
  {
    if m.gap < MSGPAD then OutMsg(MSGPAD, Zeros(MSGPAD) + m.Body()) else m
  }

  /** socket_resume_io_write stamps the header at msg_buf and sends MSGPAD + msg_len octets from there. */
  function WireBody(q: OutMsg): (b: bytes)
    requires q.Ok() && q.gap >= MSGPAD
    ensures |b| == q.Len()
  {
    q.mem[MSGPAD..MSGPAD + q.Len()]
  }

  /**
   * Whatever the memory holds, the body goes out unchanged exactly when the gap in front of it is at most the
   * channel's msgpad; a wider gap shifts the window that is sent.
   */
  lemma GapCondition(gap: nat, len: nat)
    requires len > 0
    ensures gap <= MSGPAD <==>
            forall m: OutMsg | m.Ok() && m.gap == gap && m.Len() == len :: WireBody(Queued(m)) == m.Body()
  {
    if gap <= MSGPAD {
      forall m: OutMsg | m.Ok() && m.gap == gap && m.Len() == len
        ensures WireBody(Queued(m)) == m.Body()
      {
        NarrowGap(m);
      }
    } else {
      var m := OutMsg(gap, Zeros(gap + len - 1) + [1]);
      assert m.Body()[len - 1] == 1;
      assert WireBody(Queued(m))[len - 1] == m.mem[MSGPAD + len - 1] == 0;
    }
  }

  lemma NarrowGap(m: OutMsg)
    requires m.Ok() && m.gap <= MSGPAD
    ensures WireBody(Queued(m)) == m.Body()
  {
  }

  /**
   * `accepted` and `emitted` are history: every message that entered the queue and every octet send(2) took.
   * `paused` is what the high and low flow callbacks have last asked for.
   */
  datatype Send = Send(
    status: Status, queue: seq<OutMsg>, qlen: nat, maxQlen: nat, remaining: nat,
    shouldBlock: bool, blockFail: bool, high: int, low: int, paused: bool,
    accepted: seq<OutMsg>, emitted: bytes)

  function Initial(maxQlen: nat, shouldBlock: bool, blockFail: bool, high: int, low: int): Send {
    Send(Connect, [], 0, maxQlen, 0, shouldBlock, blockFail, high, low, false, [], [])
  }

  /** socket_check_flow_control */
  function Flow(s: Send, orig: int, curr: int): Send {
    if !s.status.Readable() then s
    else
      var p := if curr >= s.high then true else s.paused;
      s.(paused := if curr <= s.low && orig > s.low then false else p)
  }

  datatype Reply = Accepted | Refused | Dropped | Waits

  /**
   * socket_send past its test for a connected channel, once its own resume_io calls are over; those may have lost
   * the connection, and a message with room in the queue is then queued all the same. A full non-blocking queue
   * refuses the message, or says IPC_OK and drops it; a full blocking queue keeps the caller waiting.
   */
  function Post(s: Send, m: OutMsg): (r: (Reply, Send))
    requires m.Ok()
    ensures r.0.Accepted? <==> m.Len() <= MAXMSG && s.qlen < s.maxQlen
    ensures r.0.Accepted? ==> r.1.accepted == s.accepted + [Queued(m)] && r.1.status == s.status
    ensures !r.0.Accepted? ==> r.1 == s
  {
    if m.Len() > MAXMSG then (Refused, s)
    else if s.qlen >= s.maxQlen then
      if s.shouldBlock then ((if s.status.Connect? then Waits else Refused), s)
      else ((if s.blockFail then Refused else Dropped), s)
    else
      (Accepted, Flow(Enqueue(s, Queued(m)), s.qlen, s.qlen + 1))
  }

  function Enqueue(s: Send, q: OutMsg): Send {
    s.(queue := s.queue + [q], qlen := s.qlen + 1, accepted := s.accepted + [q])
  }

  function FrameOf(q: OutMsg): (f: bytes)
    requires q.Ok() && q.gap >= MSGPAD
  {
    Frame(WireBody(q))
  }

  /** How many octets of the head frame are still to go. */
  function Left(s: Send): nat
    requires s.queue != [] && s.queue[0].Ok()
  {
    if s.remaining == 0 then s.queue[0].Len() + MSGPAD else s.remaining
  }

  /** k more octets of the head frame are out. */
  function Put(s: Send, k: nat): Send
    requires s.queue != [] && s.queue[0].Ok() && s.queue[0].gap >= MSGPAD
    requires k <= Left(s) <= s.queue[0].Len() + MSGPAD
  {
    var f := FrameOf(s.queue[0]);
    var at := |f| - Left(s);
    s.(remaining := Left(s) - k, emitted := s.emitted + f[at..at + k])
  }

  function Dequeue(s: Send): Send
    requires s.queue != [] && s.qlen > 0
  {
    s.(queue := s.queue[1..], qlen := s.qlen - 1)
  }

  /** One send(2) on the head frame takes k octets (none, if it is refused). */
  function Write(s: Send, k: nat): Send
    requires s.qlen > 0 && s.queue != [] && s.queue[0].Ok() && s.queue[0].gap >= MSGPAD
    requires k <= Left(s) <= s.queue[0].Len() + MSGPAD
  {
    if k < Left(s) then Put(s, k)
    else Flow(Dequeue(Put(s, k)), s.qlen, s.qlen - 1)
  }

  // Invariant ---------------------------------------------------------------------------------------------

  function WireBodies(ms: seq<OutMsg>): (bs: seq<bytes>)
    requires forall i | 0 <= i < |ms| :: ms[i].Ok() && ms[i].gap >= MSGPAD
    ensures |bs| == |ms|
    ensures forall i | 0 <= i < |bs| :: bs[i] == WireBody(ms[i])
  {
    seq(|ms|, i requires 0 <= i < |ms| => WireBody(ms[i]))
  }

  ghost predicate Queueable(ms: seq<OutMsg>) {
    forall i | 0 <= i < |ms| :: ms[i].Ok() && ms[i].gap >= MSGPAD && ms[i].Len() <= MAXMSG
  }

  function Completed(s: Send): int {
    |s.accepted| - |s.queue|
  }

  /** The part of the head frame that is already out. */
  function HeadSent(s: Send): bytes
    requires Queueable(s.queue)
    requires s.queue != [] ==> Left(s) <= s.queue[0].Len() + MSGPAD
  {
    if s.queue == [] then [] else FrameOf(s.queue[0])[..s.queue[0].Len() + MSGPAD - Left(s)]
  }

  ghost predicate Shape(s: Send) {
    && s.qlen == |s.queue| <= s.maxQlen
    && |s.queue| <= |s.accepted|
    && s.queue == s.accepted[Completed(s)..]
    && Queueable(s.accepted)
    && Queueable(s.queue)
    && (s.queue == [] ==> s.remaining == 0)
    && (s.queue != [] ==> Left(s) <= s.queue[0].Len() + MSGPAD)
  }

  /** Hysteresis, until disconnected: paused only above the low mark, running only below the high mark. */
  ghost predicate Hysteresis(s: Send) {
    s.status.Readable() && s.high > s.low && s.high > 0 ==>
      (s.paused ==> s.qlen > s.low) && (!s.paused ==> s.qlen < s.high)
  }

  /** The flag goes up only at the high mark, and down only on the way down through the low mark. */
  ghost predicate Switches(s: Send, t: Send) {
    (!s.paused && t.paused ==> t.qlen >= s.high) && (s.paused && !t.paused ==> t.qlen <= s.low < s.qlen)
  }

  ghost predicate Inv(s: Send) {
    && Shape(s)
    && Accounted(s)
    && Hysteresis(s)
  }

  // Runs --------------------------------------------------------------------------------------------------

  datatype Event = Sent(m: OutMsg) | Wrote(k: nat) | Became(status: Status)

  ghost predicate Enabled(s: Send, e: Event) {
    match e
    case Sent(m) => m.Ok()
    case Wrote(k) => s.status.Connect? && s.qlen > 0 && s.queue != [] && s.queue[0].Ok() && k <= Left(s)
    case Became(st) => st.Rank() >= s.status.Rank()
  }

  /** The octets emitted are the whole frames of the completed messages and the head frame's sent part. */
  ghost predicate Accounted(s: Send)
    requires Shape(s)
  {
    s.emitted == Frames(WireBodies(s.accepted[..Completed(s)])) + HeadSent(s)
  }

  lemma EnqueueKeeps(s: Send, q: OutMsg)
    requires Shape(s) && Accounted(s) && s.qlen < s.maxQlen
    requires q.Ok() && q.gap >= MSGPAD && q.Len() <= MAXMSG
    ensures Shape(Enqueue(s, q)) && Accounted(Enqueue(s, q))
  {
    hide Frames, Frame, WireBody;
    var t := Enqueue(s, q);
    assert t.accepted[Completed(t)..] == s.accepted[Completed(s)..] + [q];
    assert t.accepted[..Completed(t)] == s.accepted[..Completed(s)];
    if s.queue != [] {
      assert t.queue[0] == s.queue[0];
    }
  }

  lemma FlowKeeps(s: Send, orig: int, curr: int)
    requires Shape(s) && Accounted(s)
    ensures Shape(Flow(s, orig, curr)) && Accounted(Flow(s, orig, curr))
  {
    hide Frames, Frame, WireBody;
  }

  lemma PostInv(s: Send, m: OutMsg)
    requires Inv(s) && m.Ok()
    ensures Inv(Post(s, m).1)
  {
    hide Frames, Frame, Shape, Accounted, Queued;
    if Post(s, m).0.Accepted? {
      EnqueueKeeps(s, Queued(m));
      FlowKeeps(Enqueue(s, Queued(m)), s.qlen, s.qlen + 1);
    }
  }

  lemma PutKeeps(s: Send, k: nat)
    requires Shape(s) && Accounted(s) && s.queue != [] && k < Left(s)
    ensures Shape(Put(s, k)) && Accounted(Put(s, k))
  {
    hide Frames, Frame, WireBody;
    var f := FrameOf(s.queue[0]);
    var at := |f| - Left(s);
    assert f[..at] + f[at..at + k] == f[..at + k];
    var done := Frames(WireBodies(s.accepted[..Completed(s)]));
    assert (done + f[..at]) + f[at..at + k] == done + f[..at + k];
  }

  lemma FinishKeeps(s: Send)
    requires Shape(s) && Accounted(s) && s.queue != []
    ensures var t := Dequeue(Put(s, Left(s))); Shape(t) && Accounted(t)
  {
    hide Frames, Frame, WireBody, HeadSent, FrameOf;
    FinishShape(s);
    FinishEmitted(s);
    CompletedOne(s);
    var t := Dequeue(Put(s, Left(s)));
    assert t.emitted == t.emitted + [];
  }

  lemma FinishShape(s: Send)
    requires Shape(s) && s.queue != []
    ensures var t := Dequeue(Put(s, Left(s))); Shape(t) && HeadSent(t) == []
  {
    hide Frames, Frame, WireBody;
    var n := Completed(s);
    assert s.accepted[n..][1..] == s.accepted[n + 1..];
  }

  lemma FinishEmitted(s: Send)
    requires Shape(s) && Accounted(s) && s.queue != []
    ensures Put(s, Left(s)).emitted == Frames(WireBodies(s.accepted[..Completed(s)])) + FrameOf(s.queue[0])
  {
    hide Frames, Frame, WireBody;
    var f := FrameOf(s.queue[0]);
    var at := |f| - Left(s);
    assert f[..at] + f[at..|f|] == f;
  }

  lemma CompletedOne(s: Send)
    requires Shape(s) && s.queue != []
    ensures Frames(WireBodies(s.accepted[..Completed(s) + 1])) ==
            Frames(WireBodies(s.accepted[..Completed(s)])) + FrameOf(s.queue[0])
  {
    hide Frames, Frame, WireBody;
    var n := Completed(s);
    assert s.accepted[n] == s.queue[0];
    assert WireBodies(s.accepted[..n + 1]) == WireBodies(s.accepted[..n]) + [WireBody(s.queue[0])];
    FramesSnoc(WireBodies(s.accepted[..n]), WireBody(s.queue[0]));
  }

  lemma WriteInv(s: Send, k: nat)
    requires Inv(s) && Enabled(s, Wrote(k))
    ensures Inv(Write(s, k)) && s.emitted <= Write(s, k).emitted
  {
    hide Frames, Frame, Accounted, FrameOf, Shape;
    assert s.queue[0].gap >= MSGPAD && Left(s) <= s.queue[0].Len() + MSGPAD by { HeadOk(s); }
    if k < Left(s) {
      PutKeeps(s, k);
    } else {
      FinishKeeps(s);
      FlowKeeps(Dequeue(Put(s, Left(s))), s.qlen, s.qlen - 1);
    }
  }

  lemma HeadOk(s: Send)
    requires Shape(s) && s.queue != []
    ensures s.queue[0].Ok() && s.queue[0].gap >= MSGPAD && Left(s) <= s.queue[0].Len() + MSGPAD
  {
  }

  function Step(s: Send, e: Event): Send
    requires Inv(s) && Enabled(s, e)
  {
    match e
    case Sent(m) => Post(s, m).1
    case Wrote(k) => HeadOk(s); Write(s, k)
    case Became(st) => s.(status := st)
  }

  /**
   * The channel's status only moves from CONNECT to DISC_PENDING to DISCONNECT, nothing sent is taken back, and the
   * flow callbacks fire at their marks only.
   */
  lemma StepKeeps(s: Send, e: Event)
    requires Inv(s) && Enabled(s, e)
    ensures var t := Step(s, e);
      && Inv(t)
      && t.status.Rank() >= s.status.Rank()
      && t.maxQlen == s.maxQlen && t.high == s.high && t.low == s.low
      && s.emitted <= t.emitted
      && Switches(s, t)
      && (t.accepted == s.accepted ||
          (e.Sent? && e.m.Len() <= MAXMSG && t.accepted == s.accepted + [Queued(e.m)]))
  {
    hide Inv, Post, Write, Queued, Switches;
    match e
    case Sent(m) =>
      PostInv(s, m);
      PostShows(s, m);
    case Wrote(k) =>
      WriteInv(s, k);
      WriteShows(s, k);
    case Became(st) =>
      StatusInv(s, st);
      NoSwitch(s, s.(status := st));
  }

  lemma NoSwitch(s: Send, t: Send)
    requires t.paused == s.paused
    ensures Switches(s, t)
  {
  }

  /**
   * With the high mark above the low one, and until disconnected, a step leaves the flag up from the high mark on,
   * down up to the low mark, and as it was in between.
   */
  lemma Hysteretic(s: Send, e: Event)
    requires Inv(s) && Enabled(s, e) && s.high > s.low && s.high > 0
    ensures var t := Step(s, e);
      t.status.Readable() ==>
        t.paused == if t.qlen >= t.high then true else if t.qlen <= t.low then false else s.paused
  {
    hide Shape, Accounted, Step, Enabled;
    StepKeeps(s, e);
  }

  lemma PostShows(s: Send, m: OutMsg)
    requires m.Ok()
    ensures var t := Post(s, m).1;
      && t.status == s.status && t.maxQlen == s.maxQlen && t.high == s.high && t.low == s.low && t.emitted == s.emitted
      && (t.accepted == s.accepted || (m.Len() <= MAXMSG && t.accepted == s.accepted + [Queued(m)]))
      && Switches(s, t)
  {
    hide Queued;
  }

  lemma WriteShows(s: Send, k: nat)
    requires Inv(s) && Enabled(s, Wrote(k))
    ensures s.queue[0].gap >= MSGPAD && Left(s) <= s.queue[0].Len() + MSGPAD
    ensures var t := Write(s, k);
      && t.status == s.status && t.maxQlen == s.maxQlen && t.high == s.high && t.low == s.low
      && t.accepted == s.accepted && s.emitted <= t.emitted && Switches(s, t)
  {
    hide Shape, Accounted, Hysteresis, FrameOf;
    HeadOk(s);
  }

  lemma StatusInv(s: Send, st: Status)
    requires Inv(s) && st.Rank() >= s.status.Rank()
    ensures Inv(s.(status := st))
  {
  }

  /**
   * The state after a run of a connected channel with fixed marks and queue limit. In every state reached, the
   * octets emitted are the whole frames of the completed messages and the head frame up to `remaining`.
   */
  ghost function Run(s: Send, es: seq<Event>): (t: Option<Send>)
    requires Inv(s)
    ensures t.Some? ==> Inv(t.value) && t.value.status.Rank() >= s.status.Rank()
    ensures t.Some? ==> t.value.maxQlen == s.maxQlen && t.value.high == s.high && t.value.low == s.low
    ensures t.Some? ==> t.value.qlen == |t.value.queue| <= s.maxQlen
    ensures t.Some? ==> s.emitted <= t.value.emitted
  {
    if es == [] then
      Some(s)
    else
      match Run(s, es[..|es| - 1])
      case None => None
      case Some(t) =>
        var e := es[|es| - 1];
        if Enabled(t, e) then StepKeeps(t, e); Some(Step(t, e)) else None
  }

  lemma InitialInv(maxQlen: nat, shouldBlock: bool, blockFail: bool, high: int, low: int)
    ensures Inv(Initial(maxQlen, shouldBlock, blockFail, high, low))
  {
  }

  /** What is on the wire is always an initial part of the frames of the messages accepted. */
  lemma EmittedIsPrefix(s: Send)
    requires Inv(s)
    ensures s.emitted <= Frames(WireBodies(s.accepted))
  {
    hide Frames, Frame;
    var n, bs := Completed(s), WireBodies(s.accepted);
    FramesSplit(bs, n);
    assert bs[..n] == WireBodies(s.accepted[..n]);
    if s.queue != [] {
      assert s.accepted[n] == s.queue[0];
      assert bs[n..][0] == WireBody(s.queue[0]);
      HeadFirst(bs[n..]);
    }
  }

  lemma HeadFirst(bs: seq<bytes>)
    requires bs != []
    ensures Frame(bs[0]) <= Frames(bs)
  {
  }

  /** Once the connection is lost nothing more goes out, whatever is still accepted. */
  lemma {:induction false} SilentOnceLost(s: Send, es: seq<Event>)
    requires Inv(s) && !s.status.Connect? && Run(s, es).Some?
    ensures Run(s, es).value.emitted == s.emitted && !Run(s, es).value.status.Connect?
    decreases |es|
  {
    hide Inv, Enabled, Step;
    if es != [] {
      var n := |es| - 1;
      SilentOnceLost(s, es[..n]);
      var t := Run(s, es[..n]).value;
      StepKeeps(t, es[n]);
      SilentStep(t, es[n]);
    }
  }

  lemma SilentStep(s: Send, e: Event)
    requires Inv(s) && !s.status.Connect? && Enabled(s, e)
    ensures Step(s, e).emitted == s.emitted
  {
    hide Inv, Post, Write;
    match e
    case Sent(m) => PostShows(s, m);
    case Wrote(k) =>
    case Became(st) =>
  }

  lemma RunSnoc(s: Send, es: seq<Event>, e: Event)
    requires Inv(s) && Run(s, es).Some? && Enabled(Run(s, es).value, e)
    ensures Run(s, es + [e]) == Some(Step(Run(s, es).value, e))
  {
    hide Inv, Enabled, Step;
    assert (es + [e])[..|es|] == es;
  }

  lemma RunNone(s: Send)
    requires Inv(s)
    ensures Run(s, []) == Some(s)
  {
    hide Inv;
  }

  /**
   * A message sent after the connection is lost is accepted, if there is room for it, and no run from there on
   * sends an octet of it: the queue keeps it, and it is never emitted.
   */
  lemma AcceptedAfterLoss(s: Send, m: OutMsg, es: seq<Event>)
    requires Inv(s) && s.status.Connect? && m.Ok() && m.Len() <= MAXMSG && s.qlen < s.maxQlen
    ensures var r := Run(s, [Became(DiscPending), Sent(m)]);
      && r.Some? && Inv(r.value) && !r.value.status.Connect? && r.value.accepted == s.accepted + [Queued(m)]
      && (Run(r.value, es).Some? ==> Run(r.value, es).value.emitted == s.emitted)
  {
    hide Inv, Run, Post;
    RunNone(s);
    StatusInv(s, DiscPending);
    RunSnoc(s, [], Became(DiscPending));
    assert [] + [Became(DiscPending)] == [Became(DiscPending)];
    var lost := s.(status := DiscPending);
    RunSnoc(s, [Became(DiscPending)], Sent(m));
    assert [Became(DiscPending)] + [Sent(m)] == [Became(DiscPending), Sent(m)];
    PostShows(lost, m);
    PostInv(lost, m);
    var t := Post(lost, m).1;
    if Run(t, es).Some? {
      SilentOnceLost(t, es);
    }
  }
}
