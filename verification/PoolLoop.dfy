/**
 * The loop of ipc_bufpool_update turn by turn, as its unsigned sums have it, for any octets in the pool: exactly
 * when it ends with every message inside the pool.
 */
module PoolLoop {
  import opened Bytes
  import opened IpcFrame
  import opened BufPool

  /** One turn: the loop ends, or a message of `len` octets at `start` is queued and consumepos moves. */
  datatype Turn = Ends | Goes(pool: Pool, start: nat, len: nat)

  /** msg_len is signed; its sum with msgpad is an unsigned int, and the message keeps it as a size_t. */
  function TurnOf(p: Pool): Turn
    requires p.Ok()
  {
    if !p.HasHeader() then Ends
    else
      var len := HeadLen(p.Header());
      if HeadMagic(p.Header()) != HEADMAGIC || len > MAXMSG || p.consumepos + MSGPAD + len > p.currpos then Ends
      else
        Goes(p.(consumepos := p.consumepos + (MSGPAD + len) % 0x1_0000_0000, refcount := p.refcount + 1),
             p.consumepos + MSGPAD, len % 0x1_0000_0000_0000_0000)
  }

  /** The pool after n turns; none if the loop ended before, or consumepos had left the pool. */
  ghost function After(p: Pool, n: nat): Option<Pool> {
    if n == 0 then Some(p)
    else
      var q := After(p, n - 1);
      if q.None? || !q.value.Ok() || TurnOf(q.value).Ends? then None else Some(TurnOf(q.value).pool)
  }

  /** The loop ends after n turns. */
  ghost predicate EndsAfter(p: Pool, n: nat) {
    var q := After(p, n);
    q.Some? && q.value.Ok() && TurnOf(q.value).Ends?
  }

  /** The message of this turn, if there is one, lies in front of the new consumepos. */
  ghost predicate Inside(p: Pool)
    requires p.Ok()
  {
    var t := TurnOf(p);
    t.Goes? ==> t.pool.Ok() && t.start + t.len <= t.pool.consumepos
  }

  /** The loop ends, never leaves the pool, and queues only messages that lie in it. */
  ghost predicate Sound(p: Pool) {
    exists n: nat :: EndsAfter(p, n) && forall k: nat | k < n :: InsideAfter(p, k)
  }

  ghost predicate InsideAfter(p: Pool, n: nat) {
    var q := After(p, n);
    q.Some? && q.value.Ok() && Inside(q.value)
  }

  /** A header with a negative length always goes through, and its message lies in no pool. */
  lemma NegativeTurn(p: Pool)
    requires p.Ok() && p.HasHeader() && HeadMagic(p.Header()) == HEADMAGIC && HeadLen(p.Header()) < 0
    ensures TurnOf(p).Goes? && !Inside(p)
  {
    hide HeadMagic, HeadLen;
  }

  /** At a length of -8 the sum is zero: the loop queues messages for ever. */
  lemma {:induction false} EndlessAtMinusEight(p: Pool, n: nat)
    requires p.Ok() && p.HasHeader() && HeadMagic(p.Header()) == HEADMAGIC && HeadLen(p.Header()) == -8
    ensures After(p, n) == Some(p.(refcount := p.refcount + n)) && !EndsAfter(p, n)
    decreases n
  {
    hide TurnOf, HeadMagic, HeadLen;
    StaysPut(p, n);
    if n > 0 {
      EndlessAtMinusEight(p, n - 1);
      StaysPut(p, n - 1);
    }
  }

  lemma StaysPut(p: Pool, n: nat)
    requires p.Ok() && p.HasHeader() && HeadMagic(p.Header()) == HEADMAGIC && HeadLen(p.Header()) == -8
    ensures var q := p.(refcount := p.refcount + n);
      q.Ok() && TurnOf(q).Goes? && TurnOf(q).pool == p.(refcount := p.refcount + n + 1)
  {
    hide HeadMagic, HeadLen;
  }

  /** Such a header can be sent: F8 FF FF FF and the magic number. */
  lemma MinusEightExists() returns (p: Pool)
    ensures p.Ok() && p.HasHeader() && HeadMagic(p.Header()) == HEADMAGIC && HeadLen(p.Header()) == -8
    ensures Consume(p).stop.Negative?
  {
    var data: bytes := [0xF8, 0xFF, 0xFF, 0xFF] + Le32(HEADMAGIC);
    p := Pool(1, data, 0, 8, false);
    assert data[0..8] == data;
    assert data[..4] == [0xF8, 0xFF, 0xFF, 0xFF] && data[4..] == Le32(HEADMAGIC);
    Un32Le32(HEADMAGIC);
  }

  /** Below -8 consumepos leaves the pool. */
  lemma LeavesBelowMinusEight(p: Pool)
    requires p.Ok() && p.HasHeader() && HeadMagic(p.Header()) == HEADMAGIC && HeadLen(p.Header()) < -8
    requires |p.data| < 0x8000_0000
    ensures TurnOf(p).Goes? && !TurnOf(p).pool.Ok()
  {
    hide HeadMagic, HeadLen;
  }

  lemma {:induction false} AfterShift(p: Pool, q: Pool, n: nat)
    requires p.Ok() && TurnOf(p).Goes? && TurnOf(p).pool == q
    ensures After(p, n + 1) == After(q, n)
    decreases n
  {
    hide TurnOf;
    if n > 0 {
      AfterShift(p, q, n - 1);
    } else {
      assert After(p, 0) == Some(p);
    }
  }

  /** As long as lengths are not negative, a turn is a turn of the specification. */
  lemma TurnIsPast(p: Pool)
    requires p.Ok()
    ensures var c := Consume(p);
      match TurnOf(p)
      case Ends => c.msgs == [] && c.pool == p && !c.stop.Negative?
      case Goes(q, start, len) =>
        if c.stop.Negative? && c.msgs == [] then !Inside(p)
        else
          && q.Ok() && Inside(p) && q.currpos - q.consumepos < p.currpos - p.consumepos
          && Consume(q).stop == c.stop && |Consume(q).msgs| + 1 == |c.msgs| && Consume(q).pool == c.pool
  {
    hide HeadMagic, HeadLen, Consume, Inside, TurnOf;
    ConsumeCases(p);
    if !p.HasHeader() {
      TurnEnds(p);
    } else if HeadMagic(p.Header()) == HEADMAGIC && HeadLen(p.Header()) < 0 {
      NegativeTurn(p);
    } else {
      TurnEnds(p);
      if TurnOf(p).Goes? {
        PlainTurn(p);
      }
    }
  }

  lemma TurnEnds(p: Pool)
    requires p.Ok()
    ensures TurnOf(p).Ends? <==>
      || !p.HasHeader() || HeadMagic(p.Header()) != HEADMAGIC || HeadLen(p.Header()) > MAXMSG
      || p.consumepos + MSGPAD + HeadLen(p.Header()) > p.currpos
  {
    hide HeadMagic, HeadLen;
  }

  lemma PlainTurn(p: Pool)
    requires p.Ok() && TurnOf(p).Goes? && HeadLen(p.Header()) >= 0
    ensures TurnOf(p).pool == Past(p, HeadLen(p.Header())) && TurnOf(p).pool.Ok() && Inside(p)
  {
    hide HeadMagic, HeadLen;
  }

  lemma AfterNone(p: Pool)
    ensures After(p, 0) == Some(p)
  {
  }

  lemma {:induction false} SoundUnlessNegative(p: Pool)
    requires p.Ok() && !Consume(p).stop.Negative?
    ensures EndsAfter(p, |Consume(p).msgs|) && After(p, |Consume(p).msgs|) == Some(Consume(p).pool)
    ensures forall k: nat | k < |Consume(p).msgs| :: InsideAfter(p, k)
    decreases p.currpos - p.consumepos
  {
    hide Consume, TurnOf, After, Inside;
    TurnIsPast(p);
    AfterNone(p);
    if TurnOf(p).Goes? {
      var q := TurnOf(p).pool;
      SoundUnlessNegative(q);
      AfterShift(p, q, |Consume(q).msgs|);
      forall k: nat | k < |Consume(p).msgs|
        ensures InsideAfter(p, k)
      {
        if k > 0 {
          AfterShift(p, q, k - 1);
          assert InsideAfter(q, k - 1);
        }
      }
    }
  }

  /** At a negative length the loop has queued the messages before it and goes on with one outside the pool. */
  lemma {:induction false} NegativeReached(p: Pool)
    requires p.Ok() && Consume(p).stop.Negative?
    ensures !InsideAfter(p, |Consume(p).msgs|)
    ensures forall k: nat | k <= |Consume(p).msgs| :: !EndsAfter(p, k)
    decreases p.currpos - p.consumepos
  {
    hide Consume, TurnOf, After, Inside;
    TurnIsPast(p);
    AfterNone(p);
    if Consume(p).msgs != [] {
      var q := TurnOf(p).pool;
      NegativeReached(q);
      AfterShift(p, q, |Consume(q).msgs|);
      forall k: nat | k <= |Consume(p).msgs|
        ensures !EndsAfter(p, k)
      {
        if k > 0 {
          AfterShift(p, q, k - 1);
          assert !EndsAfter(q, k - 1);
        }
      }
    }
  }

  /** For any octets in the pool: the loop is sound if and only if it meets no header with the sign bit set. */
  lemma SoundExactly(p: Pool)
    requires p.Ok()
    ensures Sound(p) <==> !Consume(p).stop.Negative?
  {
    hide Consume, EndsAfter, InsideAfter;
    if Consume(p).stop.Negative? {
      NegativeReached(p);
    } else {
      SoundUnlessNegative(p);
    }
  }
}
