/** logd's reading process: client sources are paused and resumed by the marks of the channel to its writing process. */
module Logd {
  import opened IpcFrame
  import S = Sender

  /** A client's GCHSource; `dontread` is its pause flag. */
  class Source {
    var dontread: bool

    constructor ()
      ensures !dontread
    {
      dontread := false;
    }
  }

  datatype Verdict = NotDispatched | Ignored | Dropped | Forwarded(reply: S.Reply)

  /** The marks that read_msg_process sets. */
  ghost predicate Marked(chan: S.Send) {
    chan.maxQlen > 0 && chan.high == chan.maxQlen && chan.low == chan.maxQlen * 3 / 4
  }

  class Reader {
    var chan: S.Send
    var stopReading: bool
    var clients: seq<Source>

    /** Every listed client's pause flag is the one the channel's marks call for. */
    ghost predicate Valid()
      reads this, clients
    {
      && S.Inv(chan)
      && Marked(chan)
      && chan.paused == stopReading
      && forall i | 0 <= i < |clients| :: clients[i].dontread == stopReading
    }

    constructor (maxQlen: nat, shouldBlock: bool, blockFail: bool)
      requires maxQlen > 0
      ensures Valid() && clients == [] && !stopReading
      ensures chan == S.Initial(maxQlen, shouldBlock, blockFail, maxQlen, maxQlen * 3 / 4)
    {
      chan := S.Initial(maxQlen, shouldBlock, blockFail, maxQlen, maxQlen * 3 / 4);
      stopReading := false;
      clients := [];
      S.InitialInv(maxQlen, shouldBlock, blockFail, maxQlen, maxQlen * 3 / 4);
    }

    method SuspendClients()
      modifies this, clients
      ensures clients == old(clients) && stopReading && chan == old(chan).(paused := true)
      ensures forall i | 0 <= i < |clients| :: clients[i].dontread
    {
      stopReading := true;
      chan := chan.(paused := true);
      for i := 0 to |clients|
        invariant clients == old(clients) && stopReading && chan == old(chan).(paused := true)
        invariant forall j | 0 <= j < i :: clients[j].dontread
      {
        clients[i].dontread := true;
      }
    }

    method ResumeClients()
      modifies this, clients
      ensures clients == old(clients) && !stopReading && chan == old(chan).(paused := false)
      ensures forall i | 0 <= i < |clients| :: !clients[i].dontread
    {
      stopReading := false;
      chan := chan.(paused := false);
      for i := 0 to |clients|
        invariant clients == old(clients) && !stopReading && chan == old(chan).(paused := false)
        invariant forall j | 0 <= j < i :: !clients[j].dontread
      {
        clients[i].dontread := false;
      }
    }

    /** socket_check_flow_control with logd's callbacks. */
    method CheckFlowControl(orig: int, curr: int)
      requires chan.paused == stopReading
      requires forall i | 0 <= i < |clients| :: clients[i].dontread == stopReading
      modifies this, clients
      ensures clients == old(clients) && chan == S.Flow(old(chan), orig, curr) && chan.paused == stopReading
      ensures forall i | 0 <= i < |clients| :: clients[i].dontread == stopReading
    {
      if !chan.status.Readable() {
        return;
      }
      var c := chan;
      if curr >= c.high {
        SuspendClients();
      }
      if curr <= c.low && orig > c.low {
        ResumeClients();
      }
    }

    /**
     * resume_io on the channel: send(2) takes `taken[i]` octets each time it is tried, as far as there are any, and
     * afterwards the connection may be found lost.
     */
    method ResumeIo(taken: seq<nat>, st: S.Status)
      requires Valid() && st.Rank() >= chan.status.Rank()
      modifies this, clients
      ensures Valid() && clients == old(clients)
      ensures chan == Writes(old(chan), taken).(status := st)
      ensures chan.qlen <= old(chan).qlen && chan.maxQlen == old(chan).maxQlen
      ensures chan.accepted == old(chan).accepted && old(chan).emitted <= chan.emitted
      ensures !old(stopReading) ==> !stopReading
    {
      hide S.Accounted, S.Hysteresis, S.Write, S.Shape, Writes;
      var i := 0;
      assert taken[0..] == taken;
      while i < |taken| && chan.status.Connect? && chan.qlen > 0
        invariant 0 <= i <= |taken|
        invariant Valid() && clients == old(clients) && Writes(old(chan), taken) == Writes(chan, taken[i..])
        invariant chan.status == old(chan).status && chan.qlen <= old(chan).qlen && chan.maxQlen == old(chan).maxQlen
        invariant chan.accepted == old(chan).accepted && old(chan).emitted <= chan.emitted
        invariant !old(stopReading) ==> !stopReading
      {
        QueueOk(chan);
        var k := if taken[i] < S.Left(chan) then taken[i] else S.Left(chan);
        S.WriteInv(chan, k);
        S.WriteShows(chan, k);
        WritesMore(chan, taken, i);
        WriteOnce(k);
        i := i + 1;
      }
      NoMoreWrites(chan, taken[i..]);
      Lose(st);
    }

    method WriteOnce(k: nat)
      requires Valid() && chan.status.Connect? && chan.qlen > 0 && chan.queue != []
      requires chan.queue[0].Ok() && chan.queue[0].gap >= MSGPAD
      requires k <= S.Left(chan) <= chan.queue[0].Len() + MSGPAD
      requires S.Inv(S.Write(chan, k))
      modifies this, clients
      ensures Valid() && clients == old(clients) && chan == S.Write(old(chan), k)
      ensures chan.qlen <= old(chan).qlen && chan.status == old(chan).status && chan.maxQlen == old(chan).maxQlen
      ensures !old(stopReading) ==> !stopReading
    {
      hide S.Shape, S.Accounted, S.FrameOf;
      var orig := chan.qlen;
      if k < S.Left(chan) {
        chan := S.Put(chan, k);
      } else {
        chan := S.Dequeue(S.Put(chan, k));
        CheckFlowControl(orig, orig - 1);
      }
    }

    /** on_connect_cmd: a client that connects while reading is stopped starts out paused. */
    method OnConnect() returns (client: Source)
      requires Valid()
      modifies this, clients
      ensures Valid() && fresh(client) && clients == old(clients) + [client]
      ensures chan == old(chan) && stopReading == old(stopReading)
    {
      client := new Source();
      if stopReading {
        client.dontread := true;
      }
      clients := clients + [client];
    }

    /** on_remove_client */
    method OnRemove(i: nat)
      requires Valid() && i < |clients|
      modifies this
      ensures Valid() && clients == old(clients)[..i] + old(clients)[i + 1..]
      ensures chan == old(chan) && stopReading == old(stopReading)
    {
      clients := clients[..i] + clients[i + 1..];
    }

    /** The channel to the writing process fails. */
    method Lose(st: S.Status)
      requires Valid() && st.Rank() >= chan.status.Rank()
      modifies this
      ensures Valid() && clients == old(clients) && chan == old(chan).(status := st)
    {
      S.StatusInv(chan, st);
      chan := chan.(status := st);
    }

    /**
     * G_CH_dispatch_int and on_receive_cmd for client i, whose next message is m: a paused client is not read;
     * a message that is read is never refused for a full queue, and goes on to the channel exactly if it is accepted.
     */
    method OnReceive(i: nat, m: S.OutMsg, before: seq<nat>, st: S.Status, after: seq<nat>, end: S.Status)
      returns (v: Verdict)
      requires Valid() && i < |clients| && m.Ok()
      requires chan.status.Rank() <= st.Rank() <= end.Rank()
      modifies this, clients
      ensures Valid() && clients == old(clients)
      ensures v ==
        if old(clients[i].dontread) then NotDispatched
        else if m.Len() == 0 then Ignored
        else if !old(chan).status.Connect? then Dropped
        else Forwarded(if m.Len() <= MAXMSG then S.Accepted else S.Refused)
      ensures chan.accepted == old(chan).accepted + if v == Forwarded(S.Accepted) then [S.Queued(m)] else []
      ensures v == Forwarded(S.Accepted) ==> old(chan).emitted <= chan.emitted && chan.status == end
      ensures v != Forwarded(S.Accepted) ==> chan == old(chan) && stopReading == old(stopReading)
      ensures v == Forwarded(S.Accepted) ==>
        chan == Relayed(old(chan), m, before, st, after, end)
    {
      hide S.Shape, S.Accounted, S.Hysteresis, S.Queued, Writes;
      if clients[i].dontread {
        return NotDispatched;
      }
      if m.Len() == 0 {
        return Ignored;
      }
      if !chan.status.Connect? {
        return Dropped;
      }
      if m.Len() > MAXMSG {
        return Forwarded(S.Refused);
      }
      RunningHasRoom(chan);
      ResumeIo(before, st);
      var reply := Forward(m);
      ResumeIo(after, end);
      return Forwarded(reply);
    }

    /** The enqueuing part of socket_send on the channel to the writing process. */
    method Forward(m: S.OutMsg) returns (reply: S.Reply)
      requires Valid() && chan.qlen < chan.maxQlen && m.Ok()
      modifies this, clients
      ensures Valid() && clients == old(clients) && (reply, chan) == S.Post(old(chan), m)
      ensures reply == if m.Len() <= MAXMSG then S.Accepted else S.Refused
      ensures chan.status == old(chan).status
    {
      hide S.Shape, S.Accounted, S.Queued;
      S.PostInv(chan, m);
      if m.Len() > MAXMSG {
        return S.Refused;
      }
      var orig := chan.qlen;
      chan := S.Enqueue(chan, S.Queued(m));
      CheckFlowControl(orig, orig + 1);
      return S.Accepted;
    }
  }

  /** The channel after send(2) was tried as often as `taken` has it, or as there was something to send. */
  ghost function Writes(s: S.Send, taken: seq<nat>): (t: S.Send)
    requires S.Inv(s)
    ensures S.Inv(t) && t.status == s.status
    decreases |taken|
  {
    if taken == [] || !s.status.Connect? || s.qlen == 0 then s
    else
      QueueOk(s);
      var k := if taken[0] < S.Left(s) then taken[0] else S.Left(s);
      S.WriteInv(s, k);
      S.WriteShows(s, k);
      Writes(S.Write(s, k), taken[1..])
  }

  /** The channel after a message was sent on it, with the writes before and after. */
  ghost function Relayed(
      s: S.Send, m: S.OutMsg, before: seq<nat>, st: S.Status, after: seq<nat>, end: S.Status): S.Send
    requires S.Inv(s) && m.Ok() && s.status.Rank() <= st.Rank()
  {
    var a := Writes(s, before);
    S.StatusInv(a, st);
    S.PostInv(a.(status := st), m);
    Writes(S.Post(a.(status := st), m).1, after).(status := end)
  }

  lemma QueueOk(s: S.Send)
    requires S.Inv(s) && s.qlen > 0
    ensures s.queue != [] && s.queue[0].Ok() && s.queue[0].gap >= MSGPAD
    ensures S.Left(s) <= s.queue[0].Len() + MSGPAD
  {
  }

  lemma WritesMore(s: S.Send, taken: seq<nat>, i: nat)
    requires S.Inv(s) && i < |taken| && s.status.Connect? && s.qlen > 0
    ensures s.queue != [] && s.queue[0].Ok() && s.queue[0].gap >= MSGPAD
    ensures S.Left(s) <= s.queue[0].Len() + MSGPAD
    ensures var k := if taken[i] < S.Left(s) then taken[i] else S.Left(s);
      S.Inv(S.Write(s, k)) && Writes(s, taken[i..]) == Writes(S.Write(s, k), taken[i + 1..])
  {
    hide S.Inv, S.Write;
    QueueOk(s);
    S.WriteInv(s, if taken[i] < S.Left(s) then taken[i] else S.Left(s));
    assert taken[i..][1..] == taken[i + 1..];
  }

  lemma NoMoreWrites(s: S.Send, taken: seq<nat>)
    requires S.Inv(s) && (taken == [] || !s.status.Connect? || s.qlen == 0)
    ensures Writes(s, taken) == s
  {
  }

  /** While clients run, the queue to the writing process has room. */
  lemma RunningHasRoom(chan: S.Send)
    requires S.Inv(chan) && Marked(chan) && !chan.paused && chan.status.Readable()
    ensures chan.qlen < chan.maxQlen
  {
  }

  /**
   * In every run of the channel, from any state with logd's marks and until it is disconnected: a running client's
   * message is accepted, and no client is paused once the queue has drained to the low mark.
   */
  lemma NeverRefusedNeverStuck(chan: S.Send, es: seq<S.Event>, m: S.OutMsg)
    requires S.Inv(chan) && Marked(chan) && S.Run(chan, es).Some? && m.Ok() && m.Len() <= MAXMSG
    ensures var t := S.Run(chan, es).value;
      t.status.Readable() ==> (!t.paused ==> S.Post(t, m).0.Accepted?) && (t.qlen <= t.low ==> !t.paused)
  {
    hide S.Run, S.Shape, S.Accounted;
    var t := S.Run(chan, es).value;
    assert Marked(t);
  }
}
