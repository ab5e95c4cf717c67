/** A sending channel, the octets in flight, and the receiving channel at the other end. */
module Stream {
  import opened Bytes
  import opened IpcFrame
  import opened BufPool
  import S = Sender
  import R = Receiver

  datatype Link = Link(snd: S.Send, wire: bytes, rcv: R.Recv)

  datatype Event = AtSender(s: S.Event) | AtReceiver(r: R.Event)

  /** Every octet the receiver has taken from the wire. */
  function Got(r: R.Recv): bytes
    requires R.Inv(r)
  {
    Frames(r.bodies) + R.Pending(r)
  }

  ghost predicate Inv(l: Link) {
    && S.Inv(l.snd)
    && R.Inv(l.rcv)
    && l.snd.emitted == Got(l.rcv) + l.wire
    && R.Fed(l.rcv, Got(l.rcv), S.WireBodies(l.snd.accepted))
  }

  ghost predicate Enabled(l: Link, e: Event)
    requires Inv(l)
  {
    match e
    case AtSender(s) => S.Enabled(l.snd, s)
    case AtReceiver(r) => R.Enabled(l.rcv, r) && R.Input(r) <= l.wire
  }

  ghost function Step(l: Link, e: Event): Link
    requires Inv(l) && Enabled(l, e)
  {
    match e
    case AtSender(s) =>
      S.StepKeeps(l.snd, s);
      var t := S.Step(l.snd, s);
      l.(snd := t, wire := l.wire + t.emitted[|l.snd.emitted|..])
    case AtReceiver(r) =>
      l.(rcv := R.Step(l.rcv, r), wire := l.wire[|R.Input(r)|..])
  }

  lemma SenderStepInv(l: Link, s: S.Event)
    requires Inv(l) && S.Enabled(l.snd, s)
    ensures Inv(Step(l, AtSender(s)))
  {
    hide S.Inv, R.Inv, R.Fed, S.Enabled, Frames, S.Step;
    S.StepKeeps(l.snd, s);
    var t := S.Step(l.snd, s);
    var more := t.emitted[|l.snd.emitted|..];
    assert t.emitted == l.snd.emitted + more;
    assert (Got(l.rcv) + l.wire) + more == Got(l.rcv) + (l.wire + more);
    FedByMore(l, s);
  }

  lemma FedByMore(l: Link, s: S.Event)
    requires Inv(l) && S.Enabled(l.snd, s) && S.Inv(S.Step(l.snd, s))
    ensures R.Fed(l.rcv, Got(l.rcv), S.WireBodies(S.Step(l.snd, s).accepted))
  {
    hide R.Inv, R.Fed, Frames, S.Hysteresis, S.Accounted, Got, S.Step, S.WireBody;
    S.StepKeeps(l.snd, s);
    var t := S.Step(l.snd, s);
    if t.accepted != l.snd.accepted {
      var q := S.Queued(s.m);
      assert S.WireBodies(t.accepted) == S.WireBodies(l.snd.accepted) + [S.WireBody(q)];
      R.SentMore(l.rcv, Got(l.rcv), S.WireBodies(l.snd.accepted), S.WireBody(q));
    }
  }

  lemma ReceiverStepInv(l: Link, r: R.Event)
    requires Inv(l) && R.Enabled(l.rcv, r) && R.Input(r) <= l.wire
    ensures Inv(Step(l, AtReceiver(r)))
  {
    hide S.Accounted, S.Hysteresis, R.Inv, R.Enabled, Frames, R.Step, R.Pending, Sendable, Incomplete;
    var x, rest := R.Input(r), l.wire[|R.Input(r)|..];
    assert l.wire == x + rest;
    assert l.snd.emitted == (Got(l.rcv) + x) + rest;
    assert Got(l.rcv) + x <= Frames(S.WireBodies(l.snd.accepted)) by {
      S.EmittedIsPrefix(l.snd);
    }
    R.StepFed(l.rcv, r, Got(l.rcv), S.WireBodies(l.snd.accepted));
    assert Got(R.Step(l.rcv, r)) == Got(l.rcv) + x;
  }

  /** The state after any interleaving of sends, partial or refused writes, reads, takes and msg_dones. */
  ghost function Run(l: Link, es: seq<Event>): (m: Option<Link>)
    requires Inv(l)
    ensures m.Some? ==> Inv(m.value)
  {
    if es == [] then
      Some(l)
    else
      match Run(l, es[..|es| - 1])
      case None => None
      case Some(k) =>
        if Enabled(k, es[|es| - 1]) then
          match es[|es| - 1]
          case AtSender(s) => SenderStepInv(k, s); Some(Step(k, AtSender(s)))
          case AtReceiver(r) => ReceiverStepInv(k, r); Some(Step(k, AtReceiver(r)))
        else None
  }

  /** A freshly connected pair. */
  function Start(maxQlen: nat, shouldBlock: bool, blockFail: bool, high: int, low: int): Link {
    Link(S.Initial(maxQlen, shouldBlock, blockFail, high, low), [], R.INITIAL)
  }

  lemma StartInv(maxQlen: nat, shouldBlock: bool, blockFail: bool, high: int, low: int)
    ensures Inv(Start(maxQlen, shouldBlock, blockFail, high, low))
  {
    hide S.Inv, R.Inv, Frames;
    S.InitialInv(maxQlen, shouldBlock, blockFail, high, low);
    R.InitialInv();
    assert S.WireBodies([]) == [];
    assert Frames([]) == [] by { NoneShown([], []); }
  }

  /** Octets of the i-th message as the application reads them in the pool now. */
  function Shown(r: R.Recv, i: nat): bytes
    requires R.Inv(r) && i < |r.log| && i !in r.done
  {
    assert R.Intact(r, i);
    var m := r.log[i];
    r.pools[m.pool].data[m.start..m.start + m.len]
  }

  /** The receiver has the first of the messages sent, octet for octet, and room for more. */
  ghost predicate InOrder(r: R.Recv, sent: seq<bytes>)
    requires R.Inv(r)
  {
    && r.bodies <= sent
    && (forall i | 0 <= i < |r.log| && i !in r.done :: i < |sent| && Shown(r, i) == sent[i])
    && !r.broken && R.Prepare(r).Some?
    && var q := R.Prepare(r).value;
      q.cur.Some? && q.cur.value < |q.pools| && q.pools[q.cur.value].SpaceLeft() > 0
  }

  lemma AgreementShows(l: Link)
    requires Inv(l)
    ensures InOrder(l.rcv, S.WireBodies(l.snd.accepted))
  {
    hide Frames, S.Accounted, S.Hysteresis, R.Counted, R.Shape, R.Prepare, S.WireBody;
    R.AlwaysRoom(l.rcv, Got(l.rcv), S.WireBodies(l.snd.accepted));
    forall i | 0 <= i < |l.rcv.log| && i !in l.rcv.done
      ensures i < |l.snd.accepted| && Shown(l.rcv, i) == S.WireBody(l.snd.accepted[i])
    {
      assert R.Intact(l.rcv, i);
    }
  }

  /** Messages with at most msgpad octets in front of the body. */
  ghost predicate NarrowGaps(es: seq<Event>) {
    forall i | 0 <= i < |es| && es[i].AtSender? && es[i].s.Sent? :: es[i].s.m.gap <= MSGPAD
  }

  ghost predicate Padded(ms: seq<S.OutMsg>) {
    forall i | 0 <= i < |ms| :: ms[i].Ok() && ms[i].gap == MSGPAD
  }

  function Bodies(ms: seq<S.OutMsg>): (bs: seq<bytes>)
    requires forall i | 0 <= i < |ms| :: ms[i].Ok()
    ensures |bs| == |ms|
  {
    seq(|ms|, i requires 0 <= i < |ms| => ms[i].Body())
  }

  lemma {:induction false} NarrowStaysPadded(l: Link, es: seq<Event>)
    requires Inv(l) && Padded(l.snd.accepted) && NarrowGaps(es) && Run(l, es).Some?
    ensures Padded(Run(l, es).value.snd.accepted)
    decreases |es|
  {
    hide Inv, Enabled;
    if es != [] {
      var n := |es| - 1;
      NarrowStaysPadded(l, es[..n]);
      var k := Run(l, es[..n]).value;
      assert Enabled(k, es[n]);
      StepPadded(k, es[n]);
    }
  }

  lemma StepPadded(l: Link, e: Event)
    requires Inv(l) && Enabled(l, e) && Padded(l.snd.accepted)
    requires e.AtSender? && e.s.Sent? ==> e.s.m.gap <= MSGPAD
    ensures Padded(Step(l, e).snd.accepted)
  {
    hide S.Inv, R.Inv, R.Fed, Frames, S.Step, R.Step, Got;
    match e
    case AtSender(s) => S.StepKeeps(l.snd, s);
    case AtReceiver(r) =>
  }

  lemma PaddedGoesOutAsGiven(ms: seq<S.OutMsg>)
    requires Padded(ms)
    ensures S.WireBodies(ms) == Bodies(ms)
  {
    hide S.WireBody;
    forall i | 0 <= i < |ms|
      ensures S.WireBody(ms[i]) == ms[i].Body()
    {
      S.NarrowGap(ms[i]);
    }
  }

  /**
   * From a fresh connection on, after any interleaving of events: the messages reassembled are, octet for octet and
   * in order, a prefix of the messages accepted for sending; one that the application has not finished with still
   * shows those octets; and recv(2) always has room.
   */
  lemma DeliveredInOrder(maxQlen: nat, shouldBlock: bool, blockFail: bool, high: int, low: int, es: seq<Event>)
    ensures var l := Start(maxQlen, shouldBlock, blockFail, high, low);
      && Inv(l)
      && (Run(l, es).Some? && NarrowGaps(es) ==>
            var m := Run(l, es).value;
            && R.Inv(m.rcv) && Padded(m.snd.accepted)
            && InOrder(m.rcv, Bodies(m.snd.accepted)))
  {
    hide Run, Inv, S.Inv, R.Inv, S.WireBody, InOrder;
    StartInv(maxQlen, shouldBlock, blockFail, high, low);
    var l := Start(maxQlen, shouldBlock, blockFail, high, low);
    if Run(l, es).Some? && NarrowGaps(es) {
      var m := Run(l, es).value;
      EndsSound(m);
      NarrowStaysPadded(l, es);
      PaddedGoesOutAsGiven(m.snd.accepted);
      AgreementShows(m);
    }
  }

  lemma EndsSound(l: Link)
    requires Inv(l)
    ensures S.Inv(l.snd) && R.Inv(l.rcv)
  {
    hide S.Inv, R.Inv, R.Fed;
  }

  /** Once the send queue and the wire are empty, every message accepted has been reassembled. */
  lemma NothingLost(l: Link)
    requires Inv(l) && l.snd.queue == [] && l.wire == []
    ensures l.rcv.bodies == S.WireBodies(l.snd.accepted)
  {
    hide Frames, S.Hysteresis, R.Counted, R.Intact, R.Quiet, R.FreedCount, Incomplete, S.WireBody;
    var all, n := S.WireBodies(l.snd.accepted), |l.rcv.log|;
    assert l.snd.accepted[..S.Completed(l.snd)] == l.snd.accepted;
    assert Frames(all) == l.snd.emitted == Got(l.rcv);
    FramesSplit(all, n);
    assert Frames(l.rcv.bodies) + R.Pending(l.rcv) == Frames(l.rcv.bodies) + Frames(all[n..]);
    SameTail(Frames(l.rcv.bodies), R.Pending(l.rcv), Frames(all[n..]));
    if n < |all| {
      FirstWhole(l.rcv, all[n..]);
    }
  }

  lemma SameTail(a: bytes, b: bytes, c: bytes)
    requires a + b == a + c
    ensures b == c
  {
    assert b == (a + b)[|a|..] && c == (a + c)[|a|..];
  }

  /** An unfinished frame is never a whole one. */
  lemma FirstWhole(r: R.Recv, rest: seq<bytes>)
    requires R.Inv(r) && rest != [] && Sendable(rest)
    requires r.cur.Some? ==> Incomplete(r.pools[r.cur.value])
    ensures R.Pending(r) != Frames(rest)
  {
    hide R.Counted, R.Intact, R.Quiet, R.FreedCount, HeadLen, HeadMagic;
    assert |Frames(rest)| >= MSGPAD + |rest[0]|;
    if R.Pending(r) == Frames(rest) {
      var p := r.pools[r.cur.value];
      assert |p.Pending()| == p.currpos - p.consumepos;
      FirstPending(p, rest);
    }
  }
}
