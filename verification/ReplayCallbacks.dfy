/**
  When the drones run RxCallBack: every receiver processes every replayed row's
  ranging message once, in row order, before its reply to it is counted.
*/
module ReplayCallbacks {
  import opened Replay
  import opened ReplayInvariant
  import opened ReplaySafety

  /** The rows whose ranging message drone d has processed, in order. */
  function CallsOf(events: seq<Event>, d: nat): seq<nat> {
    if events == [] then []
    else
      var e := events[|events| - 1];
      CallsOf(events[..|events| - 1], d) + if e.RxCallback? && e.d == d then [e.line] else []
  }

  /** The replayed rows before line n in which drone d is a receiver. */
  ghost function RowsFor(c: Config, d: nat, n: nat): seq<nat>
    requires Valid(c) && d < |c.addr|
  {
    if n == 0 then []
    else RowsFor(c, d, n - 1) + if Live(c, n - 1) && !IsSender(c, n - 1, d) then [n - 1] else []
  }

  lemma CallsAppend(events: seq<Event>, e: Event, d: nat)
    ensures CallsOf(events + [e], d) == CallsOf(events, d) + if e.RxCallback? && e.d == d then [e.line] else []
  {
    assert (events + [e])[..|events|] == events;
  }

  lemma {:induction false} NoRowsBetween(c: Config, d: nat, a: nat, b: nat)
    requires Valid(c) && d < |c.addr| && a <= b && forall j: nat :: a <= j < b ==> !Live(c, j)
    ensures RowsFor(c, d, b) == RowsFor(c, d, a)
    decreases b
  {
    if a < b {
      NoRowsBetween(c, d, a, b - 1);
      assert !Live(c, b - 1);
    }
  }

  /** Drone d has processed the current row's ranging message. */
  ghost predicate Processed(c: Config, s: State, d: nat)
    requires Valid(c) && d < |c.addr| == |s.drones|
  {
    && s.phase.Ranged? && Live(c, s.phase.k) && !IsSender(c, s.phase.k, d)
    && d < CastsOf(s.drones[SenderOf(c, s.phase.k)].handler, |c.addr|)
    && s.drones[d].inbox == []
  }

  ghost predicate CalledBack(c: Config, s: State, d: nat)
    requires Valid(c) && d < |c.addr| == |s.drones|
  {
    CallsOf(s.events, d) ==
      RowsFor(c, d, if Current(s) < 0 then 0 else Current(s)) + if Processed(c, s, d) then [s.phase.k] else []
  }

  /** A reply to a ranging message is counted only after its drone processed all
      the rows it receives up to that one. */
  ghost predicate RepliesFollow(c: Config, events: seq<Event>)
    requires Valid(c)
  {
    forall p :: 0 <= p < |events| ==> Follows(c, events[..p], events[p])
  }

  ghost predicate Follows(c: Config, past: seq<Event>, e: Event)
    requires Valid(c)
  {
    e.Counted? && e.answers == ToRanging && e.d < |c.addr| ==> CallsOf(past, e.d) == RowsFor(c, e.d, e.line + 1)
  }

  /** Ranging messages go out only in their own half of their own round. */
  ghost predicate CastsInTime(s: State) {
    forall e :: e in s.events && e.Cast? ==> e.line < Current(s) || s.phase == Ranged(e.line)
  }

  ghost predicate Calls(c: Config, s: State)
    requires Valid(c)
  {
    && |s.drones| == |c.addr|
    && (forall d :: 0 <= d < |c.addr| ==> CalledBack(c, s, d))
    && RepliesFollow(c, s.events) && CastsInTime(s)
  }

  lemma FollowsAppend(c: Config, events: seq<Event>, e: Event)
    requires Valid(c) && RepliesFollow(c, events) && Follows(c, events, e)
    ensures RepliesFollow(c, events + [e])
  {
    var all := events + [e];
    forall p | 0 <= p < |all| ensures Follows(c, all[..p], all[p]) {
      assert all[..p] == if p < |events| then events[..p] else events;
    }
  }

  /** A step that is no callback and leaves round and drones' places as they are. */
  lemma OtherEvent(c: Config, s: State, t: State, e: Event)
    requires Valid(c) && Calls(c, s) && |t.drones| == |c.addr| && t.phase == s.phase
    requires t.events == s.events || t.events == s.events + [e]
    requires !e.RxCallback? && (e.Cast? ==> s.phase == Ranged(e.line)) && Follows(c, s.events, e)
    requires forall d :: 0 <= d < |c.addr| ==> (Processed(c, t, d) <==> Processed(c, s, d))
    ensures Calls(c, t)
  {
    hide Processed, Follows;
    forall d | 0 <= d < |c.addr| ensures CalledBack(c, t, d) {
      CallsAppend(s.events, e, d);
      assert CalledBack(c, s, d);
    }
    FollowsAppend(c, s.events, e);
  }

  lemma TakeRowKeepsCalls(c: Config, s: State, i: nat)
    requires Valid(c) && Inv(c, s) && Calls(c, s) && s.log == WaitTurn(i) && Enabled(c, s, LogAct)
    ensures Calls(c, LogStep(c, s))
  {
    hide CallsOf, RepliesFollow, Past;
    var t := LogStep(c, s);
    forall d | 0 <= d < |c.addr| ensures CalledBack(c, t, d) {
      assert CalledBack(c, s, d);
      if s.phase.Ranged? {
        var k := s.phase.k;
        OnlySender(c, k, d);
        assert CastDrone(c, k, d, |c.addr|, s.drones[d], d in s.counted);
        assert Processed(c, s, d) <==> !IsSender(c, k, d);
        NoRowsBetween(c, d, k + 1, i);
      } else {
        NoRowsBetween(c, d, 0, i);
      }
    }
  }

  lemma LogKeepsCalls(c: Config, s: State)
    requires Valid(c) && Inv(c, s) && Calls(c, s) && Enabled(c, s, LogAct)
    ensures Calls(c, LogStep(c, s))
  {
    hide Past, Calls, CalledBack, Live;
    var t := LogStep(c, s);
    match s.log
    case WaitTurn(i) => TakeRowKeepsCalls(c, s, i);
    case Sending(k, j) =>
      var e := if j < |c.addr| then Assigned(k, Assignment(c, k, j).address) else Exit;
      OtherEvent(c, s, t, e);
    case _ => OtherEvent(c, s, t, Exit);
  }

  lemma StartCastKeepsCalls(c: Config, s: State, d: nat)
    requires Valid(c) && Inv(c, s) && Calls(c, s) && s.phase.Assigning? && Enabled(c, s, HandlerAct(d))
    requires s.drones[d].handler.WaitResponse?
    ensures Calls(c, HandlerStep(c, s, d))
  {
    hide CallsOf, RepliesFollow, Past, RowsFor;
    var k := s.phase.k;
    var t := HandlerStep(c, s, d);
    StartCast(c, s, k, d);
    assert AssignDrone(c, k, d, SentOf(s.log, k, |c.addr|), s.drones[d], d in s.counted);
    OnlySender(c, k, d);
    forall e | 0 <= e < |c.addr| ensures CalledBack(c, t, e) {
      assert CalledBack(c, s, e);
      assert !Processed(c, t, e);
    }
  }

  /** Any other step of a handler in the assignment half. */
  lemma HandlerCallsAssigning(c: Config, s: State, d: nat)
    requires Valid(c) && Inv(c, s) && Calls(c, s) && s.phase.Assigning? && Enabled(c, s, HandlerAct(d))
    requires !s.drones[d].handler.WaitResponse?
    ensures Calls(c, HandlerStep(c, s, d))
  {
    hide Calls, Past, RowsFor, CallsOf;
    var k := s.phase.k;
    var t := HandlerStep(c, s, d);
    assert AssignDrone(c, k, d, SentOf(s.log, k, |c.addr|), s.drones[d], d in s.counted);
    HandlerWhileAssigning(c, s, k, d);
    CallsLength(c, s);
    OtherEvent(c, s, t, if s.drones[d].handler.Counting? then Counted(ToAssignment, k, d) else Exit);
  }

  lemma CallsLength(c: Config, s: State)
    requires Valid(c) && Calls(c, s)
    ensures |s.drones| == |c.addr|
  {
  }

  /** Counting a reply to the current row's ranging message. */
  lemma CountFollows(c: Config, s: State, d: nat)
    requires Valid(c) && Main(c, s) && Calls(c, s) && s.phase.Ranged? && d in Receivers(c, s.phase.k) && d < |c.addr|
    requires s.drones[d].handler.Counting?
    ensures Follows(c, s.events, Counted(ToRanging, s.phase.k, d))
  {
    hide CallsOf;
    var k := s.phase.k;
    var casts := CastsOf(s.drones[SenderOf(c, k)].handler, |c.addr|);
    assert CastDrone(c, k, d, casts, s.drones[d], d in s.counted);
    assert CalledBack(c, s, d) && Processed(c, s, d);
  }

  lemma CasterIsSender(c: Config, s: State, d: nat)
    requires Valid(c) && Main(c, s) && s.phase.Ranged? && d < |c.addr| && s.drones[d].handler.Casting?
    ensures d == SenderOf(c, s.phase.k) && s.drones[d].handler.next <= |c.addr|
  {
    var k := s.phase.k;
    OnlySender(c, k, d);
    assert CastDrone(c, k, d, CastsOf(s.drones[SenderOf(c, k)].handler, |c.addr|), s.drones[d], d in s.counted);
  }

  lemma CastKeepsProcessed(c: Config, s: State, d: nat)
    requires Valid(c) && Main(c, s) && s.phase.Ranged? && Enabled(c, s, HandlerAct(d)) && s.drones[d].handler.Casting?
    ensures var t := HandlerStep(c, s, d);
      |t.drones| == |c.addr| && forall e :: 0 <= e < |c.addr| ==> (Processed(c, t, e) <==> Processed(c, s, e))
  {
    CasterIsSender(c, s, d);
    hide Main, Live;
    OnlySender(c, s.phase.k, d);
  }

  lemma HandlerCallsRanged(c: Config, s: State, d: nat)
    requires Valid(c) && Inv(c, s) && Calls(c, s) && s.phase.Ranged? && Enabled(c, s, HandlerAct(d))
    ensures Calls(c, HandlerStep(c, s, d))
  {
    hide Calls, Past, RowsFor, CallsOf;
    var k := s.phase.k;
    var t := HandlerStep(c, s, d);
    var h := s.drones[d].handler;
    CallsLength(c, s);
    if h.Casting? {
      CastOn(c, s, k, d);
      CastKeepsProcessed(c, s, d);
      OtherEvent(c, s, t, Cast(k, if h.next < |c.addr| then h.next else 0));
    } else {
      HandlerWhileRanged(c, s, k, d);
      OtherKeepsProcessed(c, s, d);
      if h.Counting? {
        CountFollows(c, s, d);
        OtherEvent(c, s, t, Counted(ToRanging, k, d));
      } else {
        OtherEvent(c, s, t, Exit);
      }
    }
  }

  lemma OtherKeepsProcessed(c: Config, s: State, d: nat)
    requires Valid(c) && Main(c, s) && s.phase.Ranged? && Enabled(c, s, HandlerAct(d)) && !s.drones[d].handler.Casting?
    ensures var t := HandlerStep(c, s, d);
      && |t.drones| == |c.addr| && t.phase == s.phase
      && (s.drones[d].handler.Counting? || t.events == s.events)
      && forall e :: 0 <= e < |c.addr| ==> (Processed(c, t, e) <==> Processed(c, s, e))
  {
    var k := s.phase.k;
    OnlySender(c, k, d);
    assert CastDrone(c, k, d, CastsOf(s.drones[SenderOf(c, k)].handler, |c.addr|), s.drones[d], d in s.counted);
  }

  lemma DroneKeepsCalls(c: Config, s: State, d: nat, ch: Choice)
    requires Valid(c) && Inv(c, s) && Calls(c, s) && Enabled(c, s, DroneAct(d, ch))
    ensures Calls(c, DroneStep(c, s, d, ch))
  {
    hide Past, LogOk, Calls;
    CallsLength(c, s);
    match s.phase
    case Idle =>
      assert false;
    case Assigning(k) =>
      NothingReceived(c, s, d, ch);
      OtherEvent(c, s, DroneStep(c, s, d, ch), TxCallback(k, d, RowAt(c, k).txTime, ch.body));
    case Ranged(k) =>
      OnlySender(c, k, d);
      ReceiveWhileRanged(c, k, d, CastsOf(s.drones[SenderOf(c, k)].handler, |c.addr|), s.drones[d], d in s.counted, ch);
      if IsSender(c, k, d) {
        EchoIgnored(c, s, d, ch);
        OtherEvent(c, s, DroneStep(c, s, d, ch), Exit);
      } else {
        RangingReceived(c, s, d, ch);
      }
  }

  lemma NothingReceived(c: Config, s: State, d: nat, ch: Choice)
    requires Valid(c) && Main(c, s) && Enabled(c, s, DroneAct(d, ch)) && s.phase.Assigning?
    ensures var t := DroneStep(c, s, d, ch);
      && Live(c, s.phase.k) && t.phase == s.phase && |t.drones| == |s.drones|
      && (|| t.events == s.events
          || t.events == s.events + [TxCallback(s.phase.k, d, RowAt(c, s.phase.k).txTime, ch.body)])
  {
    hide Receive;
    var k := s.phase.k;
    ReceiveWhileAssigning(c, k, d, SentOf(s.log, k, |c.addr|), s.drones[d], d in s.counted, ch);
    assert s.events + [] == s.events;
  }

  lemma EchoIgnored(c: Config, s: State, d: nat, ch: Choice)
    requires Valid(c) && Enabled(c, s, DroneAct(d, ch)) && s.phase.Ranged? && Live(c, s.phase.k)
    requires IsSender(c, s.phase.k, d)
    requires Receive(c, d, s.drones[d].txTime, s.drones[d].rxTime, s.drones[d].inbox[0], ch).ran == []
    ensures var t := DroneStep(c, s, d, ch);
      && t.events == s.events && t.phase == s.phase && |t.drones| == |s.drones|
      && forall e :: 0 <= e < |c.addr| ==> (Processed(c, t, e) <==> Processed(c, s, e))
  {
    hide Receive, Live;
    assert s.events + [] == s.events;
  }

  lemma RangingReceived(c: Config, s: State, d: nat, ch: Choice)
    requires Valid(c) && Main(c, s) && Calls(c, s) && Enabled(c, s, DroneAct(d, ch)) && s.phase.Ranged?
    requires !IsSender(c, s.phase.k, d)
    requires s.drones[d].inbox[0].Ranging?
    requires Receive(c, d, s.drones[d].txTime, s.drones[d].rxTime, s.drones[d].inbox[0], ch).ran
          == [RxCallback(s.phase.k, d, RxTime(c, s.phase.k, d), s.drones[d].inbox[0].body)]
    ensures Calls(c, DroneStep(c, s, d, ch))
  {
    var t := DroneStep(c, s, d, ch);
    NowProcessed(c, s, d, ch);
    hide CallsOf, RowsFor, Receive, RepliesFollow, Processed, Main, Live;
    var e := RxCallback(s.phase.k, d, RxTime(c, s.phase.k, d), s.drones[d].inbox[0].body);
    FollowsAppend(c, s.events, e);
    forall x | 0 <= x < |c.addr| ensures CalledBack(c, t, x) {
      assert CalledBack(c, s, x);
      CallsAppend(s.events, e, x);
    }
  }

  lemma NowProcessed(c: Config, s: State, d: nat, ch: Choice)
    requires Valid(c) && Main(c, s) && Enabled(c, s, DroneAct(d, ch)) && s.phase.Ranged?
    requires !IsSender(c, s.phase.k, d)
    ensures var t := DroneStep(c, s, d, ch);
      && t.phase == s.phase && |t.drones| == |c.addr| == |s.drones|
      && !Processed(c, s, d) && Processed(c, t, d)
      && forall x :: 0 <= x < |c.addr| && x != d ==> (Processed(c, t, x) <==> Processed(c, s, x))
  {
    hide Receive;
    var k := s.phase.k;
    OnlySender(c, k, d);
    assert CastDrone(c, k, d, CastsOf(s.drones[SenderOf(c, k)].handler, |c.addr|), s.drones[d], d in s.counted);
  }

  lemma NextKeepsCalls(c: Config, s: State, a: Action)
    requires Valid(c) && Inv(c, s) && Calls(c, s) && Enabled(c, s, a)
    ensures Calls(c, Next(c, s, a))
  {
    hide Calls, Past, LogOk;
    match a
    case LogAct => LogKeepsCalls(c, s);
    case HandlerAct(d) =>
      match s.phase {
        case Idle => assert false;
        case Assigning(k) =>
          if s.drones[d].handler.WaitResponse? {
            StartCastKeepsCalls(c, s, d);
          } else {
            HandlerCallsAssigning(c, s, d);
          }
        case Ranged(k) => HandlerCallsRanged(c, s, d);
      }
    case DroneAct(d, ch) => DroneKeepsCalls(c, s, d, ch);
  }

  lemma {:induction false} RunKeepsCalls(c: Config, run: seq<State>, acts: seq<Action>, n: nat)
    requires Valid(c) && IsRun(c, run, acts) && n < |run|
    ensures Calls(c, run[n])
  {
    if n > 0 {
      RunKeepsInv(c, run, acts, n - 1);
      RunKeepsCalls(c, run, acts, n - 1);
      NextKeepsCalls(c, run[n - 1], acts[n - 1]);
    }
  }

  // ------------------------------------------------------------- the results

  ghost predicate Rising(s: seq<nat>) {
    forall i, j :: 0 <= i < j < |s| ==> s[i] < s[j]
  }

  /** RowsFor lists exactly those rows, in order. */
  lemma {:induction false} RowsForIs(c: Config, d: nat, n: nat)
    requires Valid(c) && d < |c.addr|
    ensures Rising(RowsFor(c, d, n))
    ensures forall j: nat :: j in RowsFor(c, d, n) <==> j < n && Live(c, j) && !IsSender(c, j, d)
  {
    if n > 0 {
      RowsForIs(c, d, n - 1);
      var before := RowsFor(c, d, n - 1);
      assert forall i :: 0 <= i < |before| ==> before[i] in before;
    }
  }

  /** Position q holds the one call of drone d for row k. */
  ghost predicate OnlyCall(events: seq<Event>, k: nat, d: nat, q: nat) {
    && q < |events| && IsCall(events[q], k, d)
    && forall i :: 0 <= i < |events| && IsCall(events[i], k, d) ==> i == q
  }

  predicate IsCall(e: Event, k: nat, d: nat) {
    e.RxCallback? && e.line == k && e.d == d
  }

  lemma {:induction false} CallListed(events: seq<Event>, k: nat, d: nat)
    ensures k in CallsOf(events, d) <==> exists i :: 0 <= i < |events| && IsCall(events[i], k, d)
  {
    if events != [] {
      var n := |events| - 1;
      CallListed(events[..n], k, d);
      if i :| 0 <= i < |events| && IsCall(events[i], k, d) {
        if i < n { assert IsCall(events[..n][i], k, d); }
      }
      if i :| 0 <= i < n && IsCall(events[..n][i], k, d) {
        assert IsCall(events[i], k, d);
      }
    }
  }

  lemma {:induction false} CallOnce(events: seq<Event>, k: nat, d: nat) returns (q: nat)
    requires Rising(CallsOf(events, d)) && k in CallsOf(events, d)
    ensures OnlyCall(events, k, d, q)
  {
    var n := |events| - 1;
    var (before, calls) := (CallsOf(events[..n], d), CallsOf(events, d));
    assert before == calls[..|before|];
    if IsCall(events[n], k, d) {
      q := n;
      assert calls[|before|] == k && k !in before;
      CallListed(events[..n], k, d);
      assert forall i :: 0 <= i < n ==> events[..n][i] == events[i];
    } else {
      q := CallOnce(events[..n], k, d);
      forall i | 0 <= i < |events| && IsCall(events[i], k, d) ensures i == q {
        assert i < n && IsCall(events[..n][i], k, d);
      }
    }
  }

  /** Whenever a reply to row k's ranging message is counted, its drone has run
      RxCallBack for row k exactly once, with its time, and for every earlier row it
      receives, in row order. */
  lemma CallbackBeforeReply(c: Config, run: seq<State>, acts: seq<Action>, n: nat, p: nat) returns (q: nat)
    requires Valid(c) && IsRun(c, run, acts) && n < |run| && p < |run[n].events|
    ensures var e := run[n].events[p];
      var past := run[n].events[..p];
      e.Counted? && e.answers == ToRanging ==>
        && Live(c, e.line) && e.d in Receivers(c, e.line)
        && CallsOf(past, e.d) == RowsFor(c, e.d, e.line + 1)
        && OnlyCall(past, e.line, e.d, q) && past[q].time == RxTime(c, e.line, e.d)
  {
    hide CallsOf, RowsFor, Calls, Inv, Live, IsRun, RxTime;
    var events := run[n].events;
    var e, past := events[p], events[..p];
    q := 0;
    if e.Counted? && e.answers == ToRanging {
      RunKeepsInv(c, run, acts, n);
      RunKeepsCalls(c, run, acts, n);
      FollowsAt(c, run[n], p);
      RowsForIs(c, e.d, e.line + 1);
      q := CallOnce(past, e.line, e.d);
      TimesMatch(c, run, acts, n, q);
    }
  }

  lemma FollowsAt(c: Config, s: State, p: nat)
    requires Valid(c) && Inv(c, s) && Calls(c, s) && p < |s.events|
    requires s.events[p].Counted? && s.events[p].answers == ToRanging
    ensures var e := s.events[p];
      && Live(c, e.line) && e.d in Receivers(c, e.line) && e.d < |c.addr| && !IsSender(c, e.line, e.d)
      && CallsOf(s.events[..p], e.d) == RowsFor(c, e.d, e.line + 1)
  {
    hide Main, LogOk, CallsOf, RowsFor, Live;
    assert Justified(c, s.events[..p], s.events[p]);
    assert Follows(c, s.events[..p], s.events[p]);
  }

  /** At exit each drone has processed every row it receives but the last replayed
      one exactly once, in row order, and that one at most once. */
  lemma CallbacksAtExit(c: Config, run: seq<State>, acts: seq<Action>, n: nat, d: nat, k: nat)
    requires Valid(c) && IsRun(c, run, acts) && n < |run| && run[n].log == Exited && d < |c.addr|
    requires Live(c, k) && forall j: nat :: Live(c, j) ==> j <= k
    ensures RowsFor(c, d, k) <= CallsOf(run[n].events, d) <= RowsFor(c, d, k + 1)
  {
    hide CallsOf;
    RunKeepsInv(c, run, acts, n);
    RunKeepsCalls(c, run, acts, n);
    assert Current(run[n]) == k && CalledBack(c, run[n], d);
  }
}
