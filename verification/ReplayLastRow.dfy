/**
  The last replayed row: in every configuration it can be lost, and it is the only
  one that can.
*/
module ReplayLastRow {
  import opened Replay
  import opened ReplayInvariant
  import opened ReplaySafety
  import opened ReplayCallbacks

  /** Every reply to row j's ranging message has been counted. */
  ghost predicate Complete(c: Config, events: seq<Event>, j: nat)
    requires Valid(c) && Live(c, j)
  {
    forall d :: 0 <= d < |c.addr| && !IsSender(c, j, d) ==> Counted(ToRanging, j, d) in events
  }

  lemma FirstState(c: Config) returns (s: State)
    requires Valid(c)
    ensures IsRun(c, [s], []) && s.log == Fetch(0)
  {
    var quiet := Drone([], [], Recv, 0, 0);
    s := State(Fetch(0), 1, 0, 1, 0, seq(|c.addr|, i => quiet), Idle, {}, []);
  }

  /** The log thread has not yet posted row k. */
  ghost predicate NotPosted(c: Config, log: LogPc, k: nat) {
    match log
    case Fetch(i) => i <= k
    case WaitAllocation(i) => i <= k
    case WaitTurn(i) => i <= k
    case Sending(i, j) => i <= k && j <= |c.addr|
    case Exited => false
  }

  lemma StepTowards(c: Config, s: State, a: Action, k: nat)
    requires Valid(c) && Inv(c, s) && Enabled(c, s, a) && Live(c, k)
    requires NotPosted(c, s.log, k) && s.log != Sending(k, |c.addr|)
    ensures NotPosted(c, Next(c, s, a).log, k)
  {
    hide Main, Past;
    if a.LogAct? {
      LogTowards(c, s, k);
    } else {
      hide NotPosted, Receive;
    }
  }

  lemma LogTowards(c: Config, s: State, k: nat)
    requires Valid(c) && LogOk(c, s) && Enabled(c, s, LogAct) && Live(c, k)
    requires NotPosted(c, s.log, k) && s.log != Sending(k, |c.addr|)
    ensures NotPosted(c, LogStep(c, s).log, k)
  {
    hide Deliver, Assignment;
  }

  /** Whatever steps are taken, the log thread gets to posting row k. */
  lemma {:induction false} ReachPosting(c: Config, run: seq<State>, acts: seq<Action>, k: nat)
      returns (run': seq<State>, acts': seq<Action>)
    requires Valid(c) && IsRun(c, run, acts) && Live(c, k) && NotPosted(c, run[|acts|].log, k)
    ensures IsRun(c, run', acts') && run <= run' && run'[|acts'|].log == Sending(k, |c.addr|)
    decreases Work(c, run[|acts|])
  {
    hide Inv, Enabled, Next, Work, Live, NotPosted;
    var s := run[|acts|];
    if s.log == Sending(k, |c.addr|) {
      run', acts' := run, acts;
    } else {
      RunKeepsInv(c, run, acts, |acts|);
      NotExited(c, s.log, k);
      NoDeadlock(c, run, acts, |acts|);
      var a :| Enabled(c, s, a);
      Extend(c, run, acts, a);
      StepUsesWork(c, s, a);
      StepTowards(c, s, a, k);
      run', acts' := ReachPosting(c, run + [Next(c, s, a)], acts + [a], k);
    }
  }

  lemma NotExited(c: Config, log: LogPc, k: nat)
    requires NotPosted(c, log, k)
    ensures log != Exited
  {
  }

  /** At that point no drone has seen, and nobody has counted, anything of row k's
      ranging half. */
  ghost predicate Untouched(c: Config, events: seq<Event>, k: nat)
    requires Valid(c)
  {
    && (forall d: nat :: Cast(k, d) !in events && Counted(ToRanging, k, d) !in events)
    && (forall d :: 0 <= d < |c.addr| ==> CallsOf(events, d) == RowsFor(c, d, k))
  }

  lemma UntouchedAtPosting(c: Config, s: State, k: nat)
    requires Valid(c) && Inv(c, s) && Calls(c, s) && Live(c, k) && s.log == Sending(k, |c.addr|)
    ensures Untouched(c, s.events, k)
  {
    hide CallsOf, RowsFor;
    assert s.phase == Assigning(k);
    forall d | 0 <= d < |c.addr| ensures CallsOf(s.events, d) == RowsFor(c, d, k) {
      assert CalledBack(c, s, d);
    }
  }

  /** In every configuration the last replayed row can be lost: a run has exited in
      which its ranging message never went out, no drone processed it, and no reply
      to it was counted. */
  lemma LastRowCanBeLost(c: Config, k: nat) returns (run: seq<State>, acts: seq<Action>)
    requires Valid(c) && Live(c, k) && forall j: nat :: Live(c, j) ==> j <= k
    ensures IsRun(c, run, acts) && run[|acts|].log == Exited && Untouched(c, run[|acts|].events, k)
  {
    hide Inv, Calls, Untouched;
    var s := FirstState(c);
    run, acts := ReachPosting(c, [s], [], k);
    RunKeepsInv(c, run, acts, |acts|);
    RunKeepsCalls(c, run, acts, |acts|);
    UntouchedAtPosting(c, run[|acts|], k);
    var events := run[|acts|].events;
    run, acts := LastRowNeedNotFinish(c, run, acts);
    ExitTouchesNothing(c, events, k);
  }

  lemma ExitTouchesNothing(c: Config, events: seq<Event>, k: nat)
    requires Valid(c) && Untouched(c, events, k)
    ensures Untouched(c, events + [Exit], k)
  {
    forall d | 0 <= d < |c.addr| ensures CallsOf(events + [Exit], d) == RowsFor(c, d, k) {
      CallsAppend(events, Exit, d);
    }
  }

  /** Row j is complete in every run that has exited. */
  ghost predicate AlwaysCompletes(c: Config, j: nat)
    requires Valid(c) && Live(c, j)
  {
    forall run: seq<State>, acts: seq<Action> ::
      IsRun(c, run, acts) && run[|acts|].log == Exited ==> Complete(c, run[|acts|].events, j)
  }

  /** Exactly the rows that are not the last replayed one are sure to complete. */
  lemma CompletesExactly(c: Config, j: nat)
    requires Valid(c) && Live(c, j)
    ensures AlwaysCompletes(c, j) <==> exists i: nat :: Live(c, i) && j < i
  {
    if i: nat :| Live(c, i) && j < i {
      forall run: seq<State>, acts: seq<Action> | IsRun(c, run, acts) && run[|acts|].log == Exited
        ensures Complete(c, run[|acts|].events, j)
      {
        ExitMeansDone(c, run, acts, |acts|, j);
      }
    } else {
      var run, acts := LastRowCanBeLost(c, j);
      var d := AReceiver(c, j);
      assert Counted(ToRanging, j, d) !in run[|acts|].events;
      assert !Complete(c, run[|acts|].events, j);
    }
  }

  lemma AReceiver(c: Config, k: nat) returns (d: nat)
    requires Valid(c) && Live(c, k)
    ensures d < |c.addr| && !IsSender(c, k, d)
  {
    d := if IsSender(c, k, 0) then 1 else 0;
    OnlySender(c, k, 0);
    OnlySender(c, k, 1);
  }
}
