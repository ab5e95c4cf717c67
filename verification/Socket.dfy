/** The system calls a channel makes on its socket, with any answers, and a record of them. */
module Socket {
  import opened Bytes

  /** The error numbers that are told apart; Reset stands for ECONNREFUSED and ECONNRESET. */
  datatype Errno = Again | Pipe | Reset | Other

  /** What poll(2) reports, and whether fcntl(2) finds the descriptor closed. */
  datatype Polled = Polled(bad: bool, hup: bool, input: bool, error: bool, closed: bool)

  /** An answer of the system to the call it happens to meet. */
  datatype Answer = Answer(fails: bool, count: nat, chunk: bytes, errno: Errno, polled: Polled)

  datatype Received = Got(chunk: bytes) | Eof | Failed(errno: Errno)

  datatype SendCall = SendCall(asked: nat, took: nat, failed: Option<Errno>)

  datatype RecvCall = RecvCall(room: nat, answer: Received)

  /** The system: any finite list of answers, then nothing more to take, to give or to report. */
  class Os {
    var answers: seq<Answer>

    /** The octets taken by send(2) and given by recv(2), and all the calls so far. */
    ghost var wire: bytes
    ghost var given: bytes
    ghost var sends: seq<SendCall>
    ghost var recvs: seq<RecvCall>
    ghost var polls: seq<Polled>

    constructor (answers: seq<Answer>)
      ensures this.answers == answers && wire == [] && given == [] && sends == [] && recvs == [] && polls == []
    {
      this.answers := answers;
      wire, given, sends, recvs, polls := [], [], [], [], [];
    }

    /** send(2) of the octets q: how many it took, or an error number; it may also take none without an error. */
    method Send(q: bytes) returns (sent: nat, failed: Option<Errno>)
      requires q != []
      modifies this`answers, this`wire, this`sends
      ensures sent <= |q| && (failed.Some? ==> sent == 0) && |answers| <= |old(answers)|
      ensures failed != Some(Again) ==> |answers| < |old(answers)|
      ensures wire == old(wire) + q[..sent] && sends == old(sends) + [SendCall(|q|, sent, failed)]
    {
      sent, failed := 0, Some(Again);
      if answers != [] {
        var a := answers[0];
        answers := answers[1..];
        if a.fails {
          failed := Some(a.errno);
        } else {
          sent, failed := if a.count < |q| then a.count else |q|, None;
        }
      }
      wire, sends := wire + q[..sent], sends + [SendCall(|q|, sent, failed)];
    }

    /** recv(2) into a space of n octets. */
    method Recv(n: nat) returns (r: Received)
      modifies this`answers, this`given, this`recvs
      ensures r.Got? ==> 0 < |r.chunk| <= n
      ensures n == 0 ==> r.Eof?
      ensures |answers| <= |old(answers)|
      ensures r.Got? || (r.Failed? && !r.errno.Again?) ==> |answers| < |old(answers)|
      ensures given == old(given) + (if r.Got? then r.chunk else []) && recvs == old(recvs) + [RecvCall(n, r)]
    {
      if n == 0 {
        r := Eof;
      } else if answers == [] {
        r := Failed(Again);
      } else {
        var a := answers[0];
        answers := answers[1..];
        r := if a.chunk != [] then Got(if |a.chunk| <= n then a.chunk else a.chunk[..n])
             else if a.fails then Failed(a.errno) else Eof;
      }
      given, recvs := given + (if r.Got? then r.chunk else []), recvs + [RecvCall(n, r)];
    }

    method Poll() returns (p: Polled)
      modifies this`answers, this`polls
      ensures |answers| <= |old(answers)| && polls == old(polls) + [p]
    {
      p := Polled(false, false, false, false, false);
      if answers != [] {
        p := answers[0].polled;
        answers := answers[1..];
      }
      polls := polls + [p];
    }

    /** cl_shortsleep: the caller goes on waiting while there is something to wait for. */
    method Sleep() returns (patient: bool)
      modifies this`answers
      ensures patient <==> old(answers) != []
      ensures if patient then |answers| < |old(answers)| else answers == []
    {
      if answers == [] {
        return false;
      }
      answers := answers[1..];
      return true;
    }
  }

  // What send(2) leaves -----------------------------------------------------------------------------------

  /** What the last of the calls failed with, if it did. */
  function Refusal(d: seq<SendCall>): Option<Errno> {
    if d == [] then None else d[|d| - 1].failed
  }

  /**
   * How many octets are left to send of each queued frame, after calls that each offered all that was left of the
   * first one; None if one of them did not, or failed.
   */
  function After(lens: seq<nat>, d: seq<SendCall>): Option<seq<nat>>
    decreases |d|
  {
    if d == [] then Some(lens)
    else
      var a, c := After(lens, d[..|d| - 1]), d[|d| - 1];
      if a.None? || a.value == [] || c.failed.Some? || c.asked != a.value[0] || c.took > c.asked then None
      else Some(if c.took == c.asked then a.value[1..] else [c.asked - c.took] + a.value[1..])
  }

  /** The calls lead from lens to rest, and the last of them may have failed. */
  ghost predicate Calls(lens: seq<nat>, d: seq<SendCall>, rest: seq<nat>) {
    if Refusal(d).None? then After(lens, d) == Some(rest)
    else After(lens, d[..|d| - 1]) == Some(rest) && rest != [] && d[|d| - 1].asked == rest[0]
  }

  lemma AfterSnoc(lens: seq<nat>, d: seq<SendCall>, c: SendCall)
    ensures After(lens, d + [c]) ==
      var a := After(lens, d);
      if a.None? || a.value == [] || c.failed.Some? || c.asked != a.value[0] || c.took > c.asked then None
      else Some(if c.took == c.asked then a.value[1..] else [c.asked - c.took] + a.value[1..])
  {
    assert (d + [c])[..|d|] == d;
  }

  lemma AfterNone(lens: seq<nat>)
    ensures After(lens, []) == Some(lens) && Refusal([]).None?
  {
  }

  lemma CallsDone(lens: seq<nat>, d: seq<SendCall>, c: SendCall)
    requires c.failed.None? && After(lens, d + [c]).Some?
    ensures Calls(lens, d + [c], After(lens, d + [c]).value)
  {
  }

  lemma CallsAfter(lens: seq<nat>, d: seq<SendCall>, rest: seq<nat>)
    requires Refusal(d).None?
    ensures Calls(lens, d, rest) <==> After(lens, d) == Some(rest)
  {
  }

  lemma CallsFail(lens: seq<nat>, d: seq<SendCall>, c: SendCall)
    requires After(lens, d).Some? && After(lens, d).value != [] && c.failed.Some? && c.asked == After(lens, d).value[0]
    ensures Calls(lens, d + [c], After(lens, d).value)
  {
    assert (d + [c])[..|d|] == d;
  }

  lemma {:induction false} AfterConcat(lens: seq<nat>, d: seq<SendCall>, e: seq<SendCall>)
    requires After(lens, d).Some?
    ensures After(lens, d + e) == After(After(lens, d).value, e)
    decreases |e|
  {
    if e == [] {
      assert d + e == d;
    } else {
      var n := |e| - 1;
      assert d + e == (d + e[..n]) + [e[n]];
      AfterConcat(lens, d, e[..n]);
      AfterSnoc(lens, d + e[..n], e[n]);
    }
  }

  lemma CallsConcat(lens: seq<nat>, d: seq<SendCall>, e: seq<SendCall>, mid: seq<nat>, rest: seq<nat>)
    requires After(lens, d) == Some(mid) && e != [] && Calls(mid, e, rest)
    ensures Calls(lens, d + e, rest) && Refusal(d + e) == Refusal(e)
  {
    var n := |e| - 1;
    AfterConcat(lens, d, e);
    AfterConcat(lens, d, e[..n]);
    assert (d + e)[..|d + e| - 1] == d + e[..n];
  }
}
