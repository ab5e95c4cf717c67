/** longclock.c where clock_t is 32 bits: extending a wrapping tick counter. */
module LongClock {
  import opened Bits

  const WRAPAMOUNT: nat := 0x1_0000_0000
  const CLOCK_T_MAX: nat := WRAPAMOUNT - 1
  const MINJUMP: nat := CLOCK_T_MAX / 100 * 99

  /** The widest step between two readings that is still taken for a wrap-around if it crosses one. */
  const MAXSTEP: nat := WRAPAMOUNT - MINJUMP

  /** longclock_t has 64 bits. */
  const LONGCLOCK: nat := WRAPAMOUNT * WRAPAMOUNT

  lemma Pow2Is()
    ensures Pow2(32) == WRAPAMOUNT
  {
    assert Pow2(8) == 0x100;
    assert Pow2(16) == 0x1_0000;
    assert Pow2(24) == 0x100_0000;
  }

  // The clock ---------------------------------------------------------------------------------------------

  /** The static variables of time_longclock */
  datatype State = State(calledBefore: bool, lasttimes: nat, wrapcount: nat)

  const INITIAL := State(false, 0, 0)

  /** time_longclock on a reading of times(2): the new statics and the result. */
  function Reading(st: State, timesval: nat): (State, nat) {
    if st.calledBefore && timesval < st.lasttimes then
      if st.lasttimes - timesval < MINJUMP then (st, BitOr(st.wrapcount, timesval))
      else
        var w := (st.wrapcount + WRAPAMOUNT) % LONGCLOCK;
        (State(true, timesval, w), BitOr(w, timesval))
    else (State(true, timesval, st.wrapcount), BitOr(st.wrapcount, timesval))
  }

  class Clock {
    var calledBefore: bool
    var lasttimes: nat
    var wrapcount: nat

    ghost function Statics(): State
      reads this
    {
      State(calledBefore, lasttimes, wrapcount)
    }

    constructor ()
      ensures Statics() == INITIAL
    {
      calledBefore, lasttimes, wrapcount := false, 0, 0;
    }

    method TimeLongclock(timesval: nat) returns (r: nat)
      modifies this
      ensures (Statics(), r) == Reading(old(Statics()), timesval)
    {
      if calledBefore && timesval < lasttimes {
        var jumpbackby := lasttimes - timesval;
        if jumpbackby >= MINJUMP {
          lasttimes := timesval;
          wrapcount := (wrapcount + WRAPAMOUNT) % LONGCLOCK;
        }
      } else {
        lasttimes := timesval;
        calledBefore := true;
      }
      return BitOr(wrapcount, timesval);
    }
  }

  // Runs --------------------------------------------------------------------------------------------------

  /** The true tick counts at successive calls; times(2) shows each modulo WRAPAMOUNT. */
  ghost predicate Slow(ts: seq<nat>) {
    forall i | 0 <= i < |ts| - 1 :: ts[i] <= ts[i + 1] < ts[i] + WRAPAMOUNT
  }

  /** A step that the clock follows: no wrap lies in it, or it is short. */
  ghost predicate Followed(t: nat, u: nat) {
    t <= u < t + WRAPAMOUNT && (u / WRAPAMOUNT == t / WRAPAMOUNT || u - t <= MAXSTEP)
  }

  ghost predicate Ticks(ts: seq<nat>) {
    forall i, j | 0 <= i < |ts| - 1 && j == i + 1 :: Followed(ts[i], ts[j])
  }

  /** The statics after the calls at the given tick counts. */
  function After(ts: seq<nat>): State {
    if ts == [] then INITIAL else Reading(After(ts[..|ts| - 1]), ts[|ts| - 1] % WRAPAMOUNT).0
  }

  /** The result of the last of the calls. */
  function Result(ts: seq<nat>): nat
    requires ts != []
  {
    Reading(After(ts[..|ts| - 1]), ts[|ts| - 1] % WRAPAMOUNT).1
  }

  /** Whole wraps of the counter before the first call; no later call can know about them. */
  function Base(ts: seq<nat>): nat
    requires ts != []
  {
    ts[0] / WRAPAMOUNT * WRAPAMOUNT
  }

  /** The statics that go with tick count t if the first call was at t0. */
  function Synced(t0: nat, t: nat): State
    requires t0 <= t
  {
    State(true, t % WRAPAMOUNT, (t / WRAPAMOUNT - t0 / WRAPAMOUNT) % WRAPAMOUNT * WRAPAMOUNT)
  }

  lemma NextWrap(n: nat)
    ensures (n % WRAPAMOUNT * WRAPAMOUNT + WRAPAMOUNT) % LONGCLOCK == (n + 1) % WRAPAMOUNT * WRAPAMOUNT
  {
    var a := n % WRAPAMOUNT;
    if a + 1 < WRAPAMOUNT {
      assert (n + 1) % WRAPAMOUNT == a + 1;
      assert a * WRAPAMOUNT + WRAPAMOUNT == (a + 1) * WRAPAMOUNT < LONGCLOCK;
    } else {
      assert (n + 1) % WRAPAMOUNT == 0;
    }
  }

  /** A step shorter than a whole wrap crosses at most one. */
  lemma StepCases(t: nat, u: nat)
    requires t <= u < t + WRAPAMOUNT
    ensures u / WRAPAMOUNT == t / WRAPAMOUNT ==> u % WRAPAMOUNT == t % WRAPAMOUNT + (u - t)
    ensures u / WRAPAMOUNT != t / WRAPAMOUNT ==>
      u / WRAPAMOUNT == t / WRAPAMOUNT + 1 && u % WRAPAMOUNT == t % WRAPAMOUNT + (u - t) - WRAPAMOUNT
  {
  }

  /** A clock in step stays in step if and only if the next reading crosses no wrap or comes soon enough. */
  lemma StaysSynced(t0: nat, t: nat, u: nat)
    requires t0 <= t <= u < t + WRAPAMOUNT
    ensures Reading(Synced(t0, t), u % WRAPAMOUNT).0 == Synced(t0, u) <==>
            u / WRAPAMOUNT == t / WRAPAMOUNT || u - t <= MAXSTEP
  {
    StepCases(t, u);
    NextWrap(t / WRAPAMOUNT - t0 / WRAPAMOUNT);
  }

  lemma WrapsAndRest(n: nat, r: nat)
    requires r < WRAPAMOUNT
    ensures (n * WRAPAMOUNT + r) % LONGCLOCK == n % WRAPAMOUNT * WRAPAMOUNT + r
  {
    var q, a := n / WRAPAMOUNT, n % WRAPAMOUNT;
    assert n * WRAPAMOUNT + r == q * LONGCLOCK + (a * WRAPAMOUNT + r);
    assert a * WRAPAMOUNT + r < LONGCLOCK;
  }

  /** What a clock in step shows. */
  lemma SyncedShows(t0: nat, t: nat)
    requires t0 <= t
    ensures BitOr(Synced(t0, t).wrapcount, t % WRAPAMOUNT) == (t - t0 / WRAPAMOUNT * WRAPAMOUNT) % LONGCLOCK
  {
    hide BitOr, Pow2;
    var n, r := t / WRAPAMOUNT - t0 / WRAPAMOUNT, t % WRAPAMOUNT;
    Pow2Is();
    OrIsSum(n % WRAPAMOUNT, r, 32);
    WrapsAndRest(n, r);
    assert t - t0 / WRAPAMOUNT * WRAPAMOUNT == n * WRAPAMOUNT + r;
  }

  lemma {:induction false} Increasing(ts: seq<nat>, i: nat, j: nat)
    requires Ticks(ts) && i <= j < |ts|
    ensures ts[i] <= ts[j]
    decreases j
  {
    if i < j {
      assert Followed(ts[j - 1], ts[j]);
      Increasing(ts, i, j - 1);
    }
  }

  lemma {:induction false} InStep(ts: seq<nat>)
    requires ts != [] && Ticks(ts)
    ensures ts[0] <= ts[|ts| - 1] && After(ts) == Synced(ts[0], ts[|ts| - 1])
    decreases |ts|
  {
    hide BitOr;
    var n := |ts| - 1;
    Increasing(ts, 0, n);
    if n == 0 {
      assert ts[..0] == [];
    } else {
      assert Ticks(ts[..n]);
      InStep(ts[..n]);
      assert ts[..n][0] == ts[0] && ts[..n][n - 1] == ts[n - 1];
      assert Followed(ts[n - 1], ts[n]);
      StaysSynced(ts[0], ts[n - 1], ts[n]);
    }
  }

  /** Every result is the true tick count less one fixed multiple of WRAPAMOUNT, across any number of wraps. */
  lemma ClockIsExact(ts: seq<nat>)
    requires ts != [] && Ticks(ts)
    ensures Result(ts) == (ts[|ts| - 1] - Base(ts)) % LONGCLOCK
  {
    hide BitOr, Synced;
    InStep(ts);
    ResultOfAfter(ts);
    SyncedShows(ts[0], ts[|ts| - 1]);
  }

  /** A wrap in a step that is not followed goes unnoticed, and the result is wrong. */
  lemma MissedWrap(t0: nat, t: nat, u: nat)
    requires t0 <= t <= u < t + WRAPAMOUNT && !Followed(t, u)
    ensures Reading(Synced(t0, t), u % WRAPAMOUNT).1 != (u - t0 / WRAPAMOUNT * WRAPAMOUNT) % LONGCLOCK
  {
    hide BitOr, Pow2;
    StepCases(t, u);
    var n, r := t / WRAPAMOUNT - t0 / WRAPAMOUNT, u % WRAPAMOUNT;
    Pow2Is();
    OrIsSum(n % WRAPAMOUNT, r, 32);
    WrapsAndRest(n + 1, r);
    assert u - t0 / WRAPAMOUNT * WRAPAMOUNT == (n + 1) * WRAPAMOUNT + r;
    NextDiffers(n);
  }

  lemma NextDiffers(n: nat)
    ensures n % WRAPAMOUNT != (n + 1) % WRAPAMOUNT
  {
  }

  ghost predicate Exact(ts: seq<nat>, k: nat)
    requires k < |ts|
  {
    Result(ts[..k + 1]) == (ts[k] - Base(ts)) % LONGCLOCK
  }

  lemma ExactSoFar(ts: seq<nat>, k: nat)
    requires k < |ts| && Ticks(ts[..k + 1])
    ensures Exact(ts, k)
  {
    hide Result, After, Ticks;
    var us := ts[..k + 1];
    assert us[0] == ts[0] && us[k] == ts[k];
    ClockIsExact(us);
  }

  /** The first step that is not followed. */
  lemma FirstUnfollowed(ts: seq<nat>) returns (k: nat)
    requires Slow(ts) && !Ticks(ts)
    ensures k + 1 < |ts| && Ticks(ts[..k + 1]) && !Followed(ts[k], ts[k + 1])
  {
    k := 0;
    while k + 1 < |ts| && Followed(ts[k], ts[k + 1])
      invariant k < |ts| && forall i, j | 0 <= i < k && j == i + 1 :: Followed(ts[i], ts[j])
    {
      k := k + 1;
    }
  }

  /** As long as readings are less than a wrap apart, all results are exact if and only if every step is followed. */
  lemma ExactExactly(ts: seq<nat>)
    requires ts != [] && Slow(ts)
    ensures (forall k: nat | k < |ts| :: Exact(ts, k)) <==> Ticks(ts)
  {
    hide Exact, Ticks, Followed, Slow;
    if Ticks(ts) {
      forall k: nat | k < |ts|
        ensures Exact(ts, k)
      {
        TicksPrefix(ts, k + 1);
        ExactSoFar(ts, k);
      }
    } else {
      var k := FirstUnfollowed(ts);
      WrongAt(ts, k);
    }
  }

  lemma WrongAt(ts: seq<nat>, k: nat)
    requires k + 1 < |ts| && Slow(ts) && Ticks(ts[..k + 1]) && !Followed(ts[k], ts[k + 1])
    ensures !Exact(ts, k + 1)
  {
    hide Reading, After, Ticks, Followed, Synced;
    var us := ts[..k + 1];
    InStep(us);
    assert ts[..k + 2][..k + 1] == us && us[0] == ts[0] && us[k] == ts[k];
    assert ts[k] <= ts[k + 1] < ts[k] + WRAPAMOUNT;
    MissedWrap(ts[0], ts[k], ts[k + 1]);
  }

  lemma ResultOfAfter(ts: seq<nat>)
    requires ts != []
    ensures Result(ts) == BitOr(After(ts).wrapcount, ts[|ts| - 1] % WRAPAMOUNT)
  {
    hide BitOr;
  }

  lemma ShowsElapsed(ts: seq<nat>, k: nat)
    requires Ticks(ts) && k < |ts| && ts[k] - Base(ts) < LONGCLOCK
    ensures Result(ts[..k + 1]) + Base(ts) == ts[k]
  {
    hide Result, After;
    var us := ts[..k + 1];
    assert us[0] == ts[0] && us[k] == ts[k];
    assert Ticks(us) by { TicksPrefix(ts, k + 1); }
    ClockIsExact(us);
    Increasing(ts, 0, k);
    assert Base(us) == Base(ts) <= ts[0];
  }

  lemma TicksPrefix(ts: seq<nat>, n: nat)
    requires Ticks(ts) && n <= |ts|
    ensures Ticks(ts[..n])
  {
  }

  /** Differences of results are the true elapsed ticks, for as long as the 64 bits last. */
  lemma DifferencesAreExact(ts: seq<nat>, i: nat, j: nat)
    requires Ticks(ts) && i <= j < |ts| && ts[j] - Base(ts) < LONGCLOCK
    ensures Result(ts[..i + 1]) <= Result(ts[..j + 1])
    ensures Result(ts[..j + 1]) + ts[i] == Result(ts[..i + 1]) + ts[j]
  {
    hide Result, After, Ticks, Base;
    Increasing(ts, i, j);
    ShowsElapsed(ts, i);
    ShowsElapsed(ts, j);
  }
}
