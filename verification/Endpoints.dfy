/** Two channels of ipcsocket.c, joined: what the one has written is what the other reads. */
module Endpoints {
  import opened Bytes
  import opened IpcFrame
  import opened BufPool
  import opened Channel
  import S = Sender
  import R = Receiver
  import Stream

  lemma InitialFed(sent: seq<bytes>)
    requires Sendable(sent)
    ensures R.Inv(R.INITIAL) && R.Fed(R.INITIAL, [], sent)
  {
    hide R.Inv;
    R.InitialInv();
    assert sent[..0] == [];
  }

  /** A receiving half that has read a prefix of the peer's frames agrees with what the peer has sent. */
  lemma {:induction false} HistoryFed(h: seq<RecvEntry>, sent: seq<bytes>)
    requires RecvHistory(h) && h[0].state == R.INITIAL && Sendable(sent) && Inputs(h) <= Frames(sent)
    ensures R.Inv(h[|h| - 1].state) && R.Fed(h[|h| - 1].state, Inputs(h), sent)
    decreases |h|
  {
    hide R.Inv, R.Fed, R.Enabled, R.Step, Frames;
    var n := |h| - 1;
    if n == 0 {
      InitialFed(sent);
    } else {
      RecvShrinks(h);
      HistoryFed(h[..n], sent);
      assert RecvLink(h, n);
      R.StepFed(h[n - 1].state, h[n].event, Inputs(h[..n]), sent);
    }
  }

  /**
   * Whatever calls were made on either channel, in whatever order: if the octets that b's socket has given are a
   * prefix of those that a's socket has taken, then a, the octets in between and b are a link in agreement, and so the
   * messages b has reassembled are, octet for octet and in order, the first of those a has accepted.
   */
  lemma DeliveredBetween(a: Channel, b: Channel)
    requires a.Valid() && b.Valid() && !b.astray && b.os.given <= a.os.wire
    ensures var l := Stream.Link(a.Snd(), a.os.wire[|b.os.given|..], b.Rcv());
      && Stream.Inv(l)
      && Stream.InOrder(b.Rcv(), S.WireBodies(a.accepted))
      && b.bodies <= S.WireBodies(a.accepted)
  {
    hide S.Inv, R.Inv, R.Fed, SendHistory, RecvHistory, Inputs, Frames;
    a.SendInv(a.Snd());
    WireIsSendable(a.Snd());
    var sent, got := S.WireBodies(a.accepted), Inputs(b.receipts);
    S.EmittedIsPrefix(a.Snd());
    HistoryFed(b.receipts, sent);
    FedGot(b.Rcv(), got, sent);
    var l := Stream.Link(a.Snd(), a.os.wire[|got|..], b.Rcv());
    assert a.emitted == got + l.wire;
    Stream.AgreementShows(l);
  }

  lemma WireIsSendable(s: S.Send)
    requires S.Inv(s)
    ensures S.Queueable(s.accepted) && Sendable(S.WireBodies(s.accepted))
  {
    hide S.Accounted, S.Hysteresis;
  }

  lemma FedGot(r: R.Recv, got: bytes, sent: seq<bytes>)
    requires R.Inv(r) && R.Fed(r, got, sent)
    ensures Stream.Got(r) == got
  {
    hide R.Inv, Frames;
  }
}
