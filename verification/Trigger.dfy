/** GSource.c: a trigger that runs a function in a temporary child process, one child at a time. */
module Trigger {
  import opened Bytes

  /**
   * The flags of the source and of struct tempproc_track. `alive` counts the children that have been forked and
   * have not died; `unserved` counts the requests made since the last fork.
   */
  datatype State = State(manualTrigger: bool, isRunning: bool, runAgain: bool, alive: nat, unserved: nat)

  const INITIAL := State(false, false, false, 0, 0)

  datatype Event = Request | Dispatch(forked: bool) | Died

  /** The main loop dispatches the source only while it is triggered; only a living child can die. */
  predicate Enabled(s: State, e: Event) {
    match e
    case Request => true
    case Dispatch(_) => s.manualTrigger
    case Died => s.alive > 0
  }

  function Step(s: State, e: Event): State
    requires Enabled(s, e)
  {
    match e
    case Request => s.(manualTrigger := true, unserved := s.unserved + 1)
    case Dispatch(forked) =>
      var t := s.(manualTrigger := false);
      if s.isRunning then t.(runAgain := true)
      else if forked then t.(isRunning := true, alive := s.alive + 1, unserved := 0)
      else t
    case Died =>
      var t := s.(isRunning := false, alive := s.alive - 1);
      if s.runAgain then t.(runAgain := false, manualTrigger := true) else t
  }

  /** One child at most, the flag says whether there is one, and a second run is only ever owed while one runs. */
  ghost predicate Inv(s: State) {
    && s.alive == (if s.isRunning then 1 else 0)
    && (s.runAgain ==> s.isRunning)
  }

  /** Every request not yet followed by a fork is remembered in a flag. */
  ghost predicate Remembered(s: State) {
    s.unserved > 0 ==> s.manualTrigger || s.runAgain
  }

  ghost predicate Forks(es: seq<Event>) {
    forall i | 0 <= i < |es| :: es[i].Dispatch? ==> es[i].forked
  }

  ghost function Run(s: State, es: seq<Event>): (t: Option<State>)
    requires Inv(s)
    ensures t.Some? ==> Inv(t.value)
    ensures t.Some? && Remembered(s) && Forks(es) ==> Remembered(t.value)
  {
    if es == [] then Some(s)
    else
      var n := |es| - 1;
      match Run(s, es[..n])
      case None => None
      case Some(t) => if Enabled(t, es[n]) then Some(Step(t, es[n])) else None
  }

  /** The events that serve what is owed: let the child finish, then dispatch. */
  function Serve(s: State): seq<Event> {
    (if s.isRunning && s.manualTrigger then [Dispatch(true)] else [])
    + (if s.isRunning then [Died] else [])
    + [Dispatch(true)]
  }

  /** No request is lost: from every state reached with forks succeeding, what is owed can still be served. */
  lemma NothingIsLost(es: seq<Event>)
    requires Forks(es) && Run(INITIAL, es).Some? && Run(INITIAL, es).value.unserved > 0
    ensures var s := Run(INITIAL, es).value;
      Run(s, Serve(s)).Some? && Run(s, Serve(s)).value.unserved == 0 && Run(s, Serve(s)).value.alive == 1
  {
    hide Run;
    var s := Run(INITIAL, es).value;
    assert Remembered(s);
    var first := if s.isRunning && s.manualTrigger then [Dispatch(true)] else [];
    RunNone(s);
    if s.isRunning && s.manualTrigger {
      RunSnoc(s, [], Dispatch(true));
      assert [] + [Dispatch(true)] == [Dispatch(true)];
    }
    if s.isRunning {
      RunSnoc(s, first, Died);
      RunSnoc(s, first + [Died], Dispatch(true));
    } else {
      RunSnoc(s, first, Dispatch(true));
      assert first + [] + [Dispatch(true)] == first + [Dispatch(true)];
    }
  }

  lemma RunNone(s: State)
    requires Inv(s)
    ensures Run(s, []) == Some(s)
  {
  }

  lemma RunSnoc(s: State, es: seq<Event>, e: Event)
    requires Inv(s) && Run(s, es).Some? && Enabled(Run(s, es).value, e)
    ensures Run(s, es + [e]) == Some(Step(Run(s, es).value, e))
  {
    assert (es + [e])[..|es|] == es;
  }

  /** A flag is set only on behalf of a request that no fork has followed. */
  ghost predicate Owed(s: State) {
    s.manualTrigger || s.runAgain ==> s.unserved > 0
  }

  lemma {:induction false} AlwaysOwed(es: seq<Event>)
    requires Run(INITIAL, es).Some?
    ensures Owed(Run(INITIAL, es).value)
    decreases |es|
  {
    if es != [] {
      AlwaysOwed(es[..|es| - 1]);
    }
  }

  /** In any run, requests are forgotten if and only if its last event is a failed fork while no child runs. */
  lemma {:induction false} LostExactlyWhenForkFails(es: seq<Event>)
    requires Run(INITIAL, es).Some?
    ensures !Remembered(Run(INITIAL, es).value) <==>
      && es != [] && es[|es| - 1] == Dispatch(false)
      && !Run(INITIAL, es[..|es| - 1]).value.isRunning
    decreases |es|
  {
    if es != [] {
      var n := |es| - 1;
      LostExactlyWhenForkFails(es[..n]);
      AlwaysOwed(es[..n]);
      if n > 0 {
        var k := n - 1;
        assert es[..n][..k] == es[..k];
      }
    }
  }

  /** The shortest such run: a request, and a fork that fails. */
  lemma ShortestLoss()
    ensures var es := [Request, Dispatch(false)];
      Run(INITIAL, es).Some? && Run(INITIAL, es).value.unserved == 1 && !Remembered(Run(INITIAL, es).value)
    ensures !Enabled(Run(INITIAL, [Request, Dispatch(false)]).value, Dispatch(true))
  {
    hide Run;
    RunNone(INITIAL);
    RunSnoc(INITIAL, [], Request);
    assert [] + [Request] == [Request];
    RunSnoc(INITIAL, [Request], Dispatch(false));
    assert [Request] + [Dispatch(false)] == [Request, Dispatch(false)];
  }

  class TempProc {
    var manualTrigger: bool
    var isRunning: bool
    var runAgain: bool
    ghost var alive: nat
    ghost var unserved: nat

    ghost function Value(): State
      reads this
    {
      State(manualTrigger, isRunning, runAgain, alive, unserved)
    }

    /** G_main_add_tempproc_trigger */
    constructor ()
      ensures Value() == INITIAL
    {
      manualTrigger, isRunning, runAgain := false, false, false;
      alive, unserved := 0, 0;
    }

    /** G_main_set_trigger on behalf of a caller */
    method SetTrigger()
      modifies this
      ensures Value() == Step(old(Value()), Request)
    {
      manualTrigger := true;
      unserved := unserved + 1;
    }

    /** G_TRIG_dispatch and TempProcessTrigger; `forked` is whether fork(2) succeeds. */
    method DispatchTrigger(forked: bool)
      requires Enabled(Value(), Dispatch(forked))
      modifies this
      ensures Value() == Step(old(Value()), Dispatch(forked))
    {
      manualTrigger := false;
      if isRunning {
        runAgain := true;
        return;
      }
      isRunning := true;
      if forked {
        alive, unserved := alive + 1, 0;
      } else {
        isRunning := false;
      }
    }

    /** TempProcessDied */
    method ProcessDied()
      requires Enabled(Value(), Died)
      modifies this
      ensures Value() == Step(old(Value()), Died)
    {
      alive := alive - 1;
      isRunning := false;
      if runAgain {
        runAgain := false;
        manualTrigger := true;
      }
    }
  }
}
