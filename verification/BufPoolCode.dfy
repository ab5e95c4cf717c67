/** ocf_ipc.c's buffer pools as it works on them: an octet array with moving cursors and a reference count. */
module BufPoolCode {
  import opened Bytes
  import opened IpcFrame
  import opened BufPool
  import Receiver

  class BufferPool {
    var refcount: int
    const data: array<byte>
    var consumepos: nat
    var currpos: nat
    var freed: bool

    ghost predicate Valid()
      reads this
    {
      consumepos <= currpos <= data.Length
    }

    ghost function View(): Pool
      reads this, data
    {
      Pool(refcount, data[..], consumepos, currpos, freed)
    }

    /** The part of ipc_bufpool_new after the size is settled. */
    constructor (space: nat)
      ensures Valid() && View() == Pool(1, Zeros(space), 0, 0, false) && fresh(data)
    {
      refcount, consumepos, currpos, freed := 1, 0, 0, false;
      data := new byte[space](_ => 0);
      new;
      assert data[..] == Zeros(space);
    }

    /** memcpy(head, consumepos, sizeof head) */
    method PeekHead() returns (head: bytes)
      requires Valid() && currpos - consumepos >= MSGPAD
      ensures |head| == MSGPAD && head == View().Header()
    {
      head := data[consumepos..consumepos + MSGPAD];
      assert data[..][consumepos..consumepos + MSGPAD] == head;
    }

    /** recv(2) fills the pool from currpos on; currpos stays where it is. */
    method Fill(chunk: bytes)
      requires Valid() && currpos + |chunk| <= data.Length
      modifies data
      ensures Valid() && data[..] == old(data[..currpos]) + chunk + old(data[currpos + |chunk|..])
    {
      Store(data, currpos, chunk);
      assert data[..] == data[..currpos + |chunk|] + data[currpos + |chunk|..];
    }

    /**
     * ipc_bufpool_update: currpos moves past the octets received, and complete frames become messages. Mismatch is
     * where the source returns -1; from a negative length on, the source's loop goes its own way.
     */
    method Update(n: nat) returns (msgs: seq<Span>, stop: Stop)
      requires Valid() && currpos + n <= data.Length
      modifies this
      ensures Valid()
      ensures Consumed(View(), msgs, stop) == Consume(old(View()).(currpos := old(currpos) + n))
    {
      hide Consume, HeadLen, HeadMagic;
      msgs, stop := [], Waits;
      currpos := currpos + n;
      ghost var start := View();
      while true
        invariant Valid() && start.Ok() && data[..] == start.data
        invariant Consume(start) == Before(msgs, Consume(View()))
        decreases currpos - consumepos
      {
        ConsumeCases(View());
        assert forall why :: Before(msgs, Consumed(View(), [], why)) == Consumed(View(), msgs, why);
        if currpos - consumepos < MSGPAD {
          return;
        }
        var head := PeekHead();
        if HeadMagic(head) != HEADMAGIC {
          return msgs, Mismatch;
        }
        if HeadLen(head) > MAXMSG {
          return;
        }
        if consumepos + MSGPAD + HeadLen(head) > currpos {
          return;
        }
        if HeadLen(head) < 0 {
          return msgs, Negative;
        }
        ghost var was := View();
        var s := Span(consumepos + MSGPAD, HeadLen(head));
        consumepos := consumepos + MSGPAD + HeadLen(head);
        refcount := refcount + 1;
        assert View() == Past(was, HeadLen(head));
        BeforeSnoc(msgs, s, Consume(View()));
        msgs := msgs + [s];
      }
    }

    /** ipc_bufpool_full */
    method IsFull() returns (full: bool, needed: nat)
      requires Valid()
      ensures (full, needed) == Full(View())
    {
      hide HeadLen;
      if data.Length - consumepos < MSGPAD {
        return true, 0;
      }
      if currpos - consumepos >= MSGPAD {
        var head := PeekHead();
        if consumepos + MSGPAD + HeadLen(head) >= data.Length {
          return true, HeadLen(head);
        }
      }
      return false, 0;
    }

    /** ipc_bufpool_unref, with ipc_bufpool_del */
    method Unref()
      requires Valid()
      modifies this, data
      ensures Valid() && View() == Receiver.Unref(old(View()))
    {
      refcount := refcount - 1;
      if refcount <= 0 {
        Store(data, 0, Zeros(data.Length));
        assert data[..] == data[..data.Length];
        freed := true;
      }
    }
  }

  /** ipc_bufpool_new: null for a size that no message can have. */
  method NewPool(size: nat) returns (p: BufferPool?)
    ensures p == null <==> New(size).None?
    ensures p != null ==> fresh(p) && fresh(p.data) && p.Valid() && p.View() == New(size).value
  {
    var totalsize := Int32(size + POOLHDR_SIZE);
    if totalsize < POOL_SIZE {
      totalsize := POOL_SIZE;
    }
    if totalsize > MAXMSG + POOLHDR_SIZE {
      return null;
    }
    p := new BufferPool(totalsize - POOLSTRUCT);
  }

  /** ipc_bufpool_partial_copy: the unfinished frame of src goes to dst. */
  method CopyPartial(dst: BufferPool, src: BufferPool) returns (ok: bool)
    requires dst.Valid() && src.Valid() && dst != src && dst.data != src.data
    requires Refuses(dst.View(), src.View()) || dst.consumepos + (src.currpos - src.consumepos) <= dst.data.Length
    modifies dst, src, dst.data
    ensures dst.Valid() && src.Valid()
    ensures (ok, dst.View(), src.View()) == PartialCopy(old(dst.View()), old(src.View()))
  {
    hide HeadLen;
    if src.currpos - src.consumepos >= MSGPAD {
      var head := src.PeekHead();
      if Int32(HeadLen(head) + MSGPAD) > dst.data.Length - dst.currpos {
        return false;
      }
    }
    var nbytes := src.currpos - src.consumepos;
    var frame := src.data[src.consumepos..src.currpos];
    assert src.data[..][src.consumepos..src.currpos] == frame;
    Store(dst.data, dst.consumepos, frame);
    assert dst.data[..] == dst.data[..dst.consumepos + nbytes] + dst.data[dst.consumepos + nbytes..];
    src.currpos := src.consumepos;
    dst.currpos := dst.consumepos + nbytes;
    return true;
  }

  /** The result of the loop so far and of what is still ahead. */
  ghost function Before(msgs: seq<Span>, rest: Consumed): Consumed {
    Consumed(rest.pool, msgs + rest.msgs, rest.stop)
  }

  lemma BeforeSnoc(msgs: seq<Span>, s: Span, rest: Consumed)
    ensures Before(msgs, Consumed(rest.pool, [s] + rest.msgs, rest.stop)) == Before(msgs + [s], rest)
  {
    assert msgs + ([s] + rest.msgs) == (msgs + [s]) + rest.msgs;
  }
}
