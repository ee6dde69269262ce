/**
  What holds in every run of the replay protocol: the order of the rounds, the
  pairing of times with ranging messages, and progress up to the log thread's
  exit.
*/
module ReplaySafety {
  import opened Replay
  import opened ReplayInvariant

  // --------------------------------------------------------- preservation

  lemma SafeAppend(c: Config, past: seq<Event>, e: Event)
    requires Valid(c) && Safe(c, past) && Justified(c, past, e)
    ensures Safe(c, past + [e])
  {
    var all := past + [e];
    forall p | 0 <= p < |all| ensures Justified(c, all[..p], all[p]) {
      assert all[..p] == past[..p];
      assert past[..|past|] == past;
    }
  }

  predicate CountedNow(phase: Phase, e: Event, d: nat) {
    match phase
    case Idle => false
    case Assigning(k) => e == Counted(ToAssignment, k, d)
    case Ranged(k) => e == Counted(ToRanging, k, d)
  }

  /** One more justified event; a newly counted drone is the one it names. */
  lemma PastGrows(c: Config, s: State, t: State, e: Event)
    requires Valid(c) && Past(c, s) && Justified(c, s.events, e)
    requires t.phase == s.phase && t.log == s.log && t.events == s.events + [e]
    requires s.counted <= t.counted
    requires forall d :: d in t.counted ==> (d in s.counted || CountedNow(s.phase, e, d))
    requires e.Counted? ==> CountedNow(s.phase, e, e.d) && e.d in t.counted
    ensures Past(c, t)
  {
    SafeAppend(c, s.events, e);
  }

  lemma LogKeepsLogOk(c: Config, s: State)
    requires Valid(c) && LogOk(c, s) && Enabled(c, s, LogAct)
    ensures LogOk(c, LogStep(c, s))
  {
    hide Deliver, Assignment, ValidRow;
    if s.log.Fetch? {
      var i := s.log.i;
      if i < |c.lines| && Selected(c, i) && c.lines[i].Blank? {
        assert forall j: nat :: Live(c, j) ==> j < i;
      }
    }
  }

  lemma FetchKeepsPast(c: Config, s: State, i: nat)
    requires Valid(c) && LogOk(c, s) && Past(c, s) && s.log == Fetch(i) && Enabled(c, s, LogAct)
    ensures Past(c, LogStep(c, s))
  {
    if LogStep(c, s).log == Exited {
      forall j: nat | Live(c, j) ensures j <= Current(s) && AllAssigned(c, s.events, j) {
        assert j < i;
      }
      assert Justified(c, s.events, Exit);
      SafeAppend(c, s.events, Exit);
    }
  }

  lemma TakeRowKeepsPast(c: Config, s: State, i: nat)
    requires Valid(c) && Inv(c, s) && s.log == WaitTurn(i) && Enabled(c, s, LogAct)
    ensures Past(c, LogStep(c, s))
  {
    forall j: nat | Live(c, j) && j < i
      ensures Done(c, s.events, ToRanging, j) && AllAssigned(c, s.events, j)
    {
      if j == Current(s) {
        assert s.phase == Ranged(j) && s.counted == Receivers(c, j);
      }
    }
  }

  lemma SendKeepsPast(c: Config, s: State, k: nat, j: nat)
    requires Valid(c) && LogOk(c, s) && Past(c, s) && s.log == Sending(k, j) && s.phase == Assigning(k)
    requires Enabled(c, s, LogAct)
    ensures Past(c, LogStep(c, s))
  {
    if j < |c.addr| {
      var e := Assigned(k, Assignment(c, k, j).address);
      SafeAppend(c, s.events, e);
      forall d | 0 <= d < |c.addr| && Order(c, k, d) < j + 1
        ensures Assigned(k, c.addr[d]) in s.events + [e]
      {
        OrderIsPlace(c, k, d, j);
      }
    }
  }

  lemma DroneKeepsPast(c: Config, s: State, d: nat, ch: Choice)
    requires Valid(c) && Inv(c, s) && Enabled(c, s, DroneAct(d, ch))
    ensures Past(c, DroneStep(c, s, d, ch)) && LogOk(c, DroneStep(c, s, d, ch))
  {
    DroneKeepsMain(c, s, d, ch);
    var t := DroneStep(c, s, d, ch);
    var ran := Receive(c, d, s.drones[d].txTime, s.drones[d].rxTime, s.drones[d].inbox[0], ch).ran;
    if ran == [] {
      assert t.events == s.events;
    } else {
      assert ran == [ran[0]];
      PastGrows(c, s, t, ran[0]);
    }
  }

  lemma StartCastKeepsPast(c: Config, s: State, t: State, k: nat)
    requires Valid(c) && Live(c, k) && Past(c, s) && s.phase == Assigning(k)
    requires s.counted == Receivers(c, k) && SentOf(s.log, k, |c.addr|) == |c.addr|
    requires t.phase == Ranged(k) && t.counted == {} && t.events == s.events && t.log == s.log
    ensures Past(c, t)
  {
  }

  lemma HandlerKeepsPast(c: Config, s: State, d: nat)
    requires Valid(c) && Inv(c, s) && Enabled(c, s, HandlerAct(d))
    ensures Past(c, HandlerStep(c, s, d)) && LogOk(c, HandlerStep(c, s, d))
  {
    match s.phase
    case Idle => assert false;
    case Assigning(k) => HandlerPastAssigning(c, s, k, d);
    case Ranged(k) => HandlerPastRanged(c, s, k, d);
  }

  lemma CountKeepsPast(c: Config, s: State, d: nat, w: Answers, k: nat)
    requires Valid(c) && Past(c, s) && LogOk(c, s) && Enabled(c, s, HandlerAct(d))
    requires s.drones[d].handler == Counting(w, k) && Live(c, k) && d in Receivers(c, k)
    requires CountedNow(s.phase, Counted(w, k, d), d) && d !in s.counted
    ensures Past(c, HandlerStep(c, s, d)) && LogOk(c, HandlerStep(c, s, d))
  {
    PastGrows(c, s, HandlerStep(c, s, d), Counted(w, k, d));
  }

  lemma CastKeepsPast(c: Config, s: State, d: nat, k: nat)
    requires Valid(c) && Past(c, s) && LogOk(c, s) && Enabled(c, s, HandlerAct(d))
    requires s.drones[d].handler.Casting? && s.drones[d].handler.line == k && Live(c, k) && s.phase == Ranged(k)
    ensures Past(c, HandlerStep(c, s, d)) && LogOk(c, HandlerStep(c, s, d))
  {
    var h := s.drones[d].handler;
    if h.next < |c.addr| { PastGrows(c, s, HandlerStep(c, s, d), Cast(k, h.next)); }
  }

  /** Taking a message off the socket, or broadcast_sem, is not observed. */
  lemma SilentKeepsPast(c: Config, s: State, d: nat)
    requires Valid(c) && Past(c, s) && LogOk(c, s) && Enabled(c, s, HandlerAct(d))
    requires s.drones[d].handler.Recv? || s.drones[d].handler.WaitBroadcast?
    ensures Past(c, HandlerStep(c, s, d)) && LogOk(c, HandlerStep(c, s, d))
  {
  }

  lemma HandlerPastAssigning(c: Config, s: State, k: nat, d: nat)
    requires Valid(c) && Inv(c, s) && s.phase == Assigning(k) && Enabled(c, s, HandlerAct(d))
    ensures Past(c, HandlerStep(c, s, d)) && LogOk(c, HandlerStep(c, s, d))
  {
    assert AssignDrone(c, k, d, SentOf(s.log, k, |c.addr|), s.drones[d], d in s.counted);
    match s.drones[d].handler
    case WaitResponse(b, _) =>
      StartCast(c, s, k, d);
      StartCastKeepsPast(c, s, HandlerStep(c, s, d), k);
    case Counting(w, _) =>
      HandlerWhileAssigning(c, s, k, d);
      CountKeepsPast(c, s, d, w, k);
    case Casting(b, _, j) =>
      assert false;
    case _ =>
      SilentKeepsPast(c, s, d);
  }

  lemma HandlerPastRanged(c: Config, s: State, k: nat, d: nat)
    requires Valid(c) && Inv(c, s) && s.phase == Ranged(k) && Enabled(c, s, HandlerAct(d))
    ensures Past(c, HandlerStep(c, s, d)) && LogOk(c, HandlerStep(c, s, d))
  {
    assert CastDrone(c, k, d, CastsOf(s.drones[SenderOf(c, k)].handler, |c.addr|), s.drones[d], d in s.counted);
    match s.drones[d].handler
    case Casting(b, _, j) =>
      CastOn(c, s, k, d);
      CastKeepsPast(c, s, d, k);
    case Counting(w, _) =>
      HandlerWhileRanged(c, s, k, d);
      CountKeepsPast(c, s, d, w, k);
    case WaitResponse(b, _) =>
      assert false;
    case _ =>
      SilentKeepsPast(c, s, d);
  }

  lemma LogKeepsInv(c: Config, s: State)
    requires Valid(c) && Inv(c, s) && Enabled(c, s, LogAct)
    ensures Inv(c, LogStep(c, s))
  {
    LogKeepsMain(c, s);
    LogKeepsLogOk(c, s);
    match s.log
    case Fetch(i) => FetchKeepsPast(c, s, i);
    case WaitAllocation(i) =>
    case WaitTurn(i) => TakeRowKeepsPast(c, s, i);
    case Sending(k, j) => SendKeepsPast(c, s, k, j);
  }

  lemma NextKeepsInv(c: Config, s: State, a: Action)
    requires Valid(c) && Inv(c, s) && Enabled(c, s, a)
    ensures Inv(c, Next(c, s, a))
  {
    match a
    case LogAct =>
      LogKeepsInv(c, s);
    case HandlerAct(d) =>
      HandlerKeepsMain(c, s, d);
      HandlerKeepsPast(c, s, d);
    case DroneAct(d, ch) =>
      DroneKeepsMain(c, s, d, ch);
      DroneKeepsPast(c, s, d, ch);
  }

  lemma {:induction false} RunKeepsInv(c: Config, run: seq<State>, acts: seq<Action>, n: nat)
    requires Valid(c) && IsRun(c, run, acts) && n < |run|
    ensures Inv(c, run[n])
  {
    if n == 0 {
      InitInv(c, run[0]);
    } else {
      RunKeepsInv(c, run, acts, n - 1);
      NextKeepsInv(c, run[n - 1], acts[n - 1]);
    }
  }

  // ------------------------------------------------------------- the rounds

  ghost predicate Earlier(events: seq<Event>, p: nat, e: Event)
    requires p <= |events|
  {
    exists q :: 0 <= q < p && events[q] == e
  }

  /** The two-phase order of the rounds, for every run and every interleaving:
      a row's ranging message goes out only after all N-1 receivers' replies to
      that row's assignments were counted, and a row is assigned only after all
      N-1 replies to every earlier row's ranging message were counted. */
  lemma RoundOrder(c: Config, run: seq<State>, acts: seq<Action>, n: nat, p: nat)
    requires Valid(c) && IsRun(c, run, acts) && n < |run| && p < |run[n].events|
    ensures run[n].events[p].Cast? ==>
      var k := run[n].events[p].line;
      Live(c, k) && forall r :: 0 <= r < |c.addr| && !IsSender(c, k, r) ==>
        Earlier(run[n].events, p, Counted(ToAssignment, k, r))
    ensures run[n].events[p].Assigned? ==>
      var k := run[n].events[p].line;
      Live(c, k) && forall j: nat, r: nat :: Live(c, j) && j < k && r < |c.addr| && !IsSender(c, j, r) ==>
        Earlier(run[n].events, p, Counted(ToRanging, j, r))
  {
    RunKeepsInv(c, run, acts, n);
    var events := run[n].events;
    var past := events[..p];
    assert Justified(c, past, events[p]);
    if events[p].Cast? {
      var k := events[p].line;
      forall r | 0 <= r < |c.addr| && !IsSender(c, k, r)
        ensures Earlier(events, p, Counted(ToAssignment, k, r))
      {
        assert r in Receivers(c, k);
        assert Counted(ToAssignment, k, r) in past;
      }
    }
    if events[p].Assigned? {
      var k := events[p].line;
      forall j: nat, r: nat | Live(c, j) && j < k && r < |c.addr| && !IsSender(c, j, r)
        ensures Earlier(events, p, Counted(ToRanging, j, r))
      {
        assert r in Receivers(c, j);
        assert Counted(ToRanging, j, r) in past;
      }
    }
  }

  /** Every RxCallBack of every run gets the reception time that the row of its
      ranging message gave to that drone, never another row's; every TxCallBack is
      the sender's, with the row's transmission time. */
  lemma TimesMatch(c: Config, run: seq<State>, acts: seq<Action>, n: nat, p: nat)
    requires Valid(c) && IsRun(c, run, acts) && n < |run| && p < |run[n].events|
    ensures run[n].events[p].RxCallback? ==>
      var e := run[n].events[p];
      Live(c, e.line) && e.d < |c.addr| && !IsSender(c, e.line, e.d) && e.time == RxTime(c, e.line, e.d)
    ensures run[n].events[p].TxCallback? ==>
      var e := run[n].events[p];
      Live(c, e.line) && e.d < |c.addr| && IsSender(c, e.line, e.d) && e.time == RowAt(c, e.line).txTime
  {
    RunKeepsInv(c, run, acts, n);
    assert Justified(c, run[n].events[..p], run[n].events[p]);
  }

  /** When the log thread exits, every replayed row was assigned to every drone,
      and every row but the last has all its ranging replies counted. */
  lemma ExitMeansDone(c: Config, run: seq<State>, acts: seq<Action>, n: nat, j: nat)
    requires Valid(c) && IsRun(c, run, acts) && n < |run| && run[n].log == Exited && Live(c, j)
    ensures forall d :: 0 <= d < |c.addr| ==> Assigned(j, c.addr[d]) in run[n].events
    ensures (exists i: nat :: Live(c, i) && j < i) ==>
      forall r :: 0 <= r < |c.addr| && !IsSender(c, j, r) ==> Counted(ToRanging, j, r) in run[n].events
  {
    RunKeepsInv(c, run, acts, n);
    PastAtExit(c, run[n], j);
  }

  lemma PastAtExit(c: Config, s: State, j: nat)
    requires Valid(c) && LogOk(c, s) && Past(c, s) && s.log == Exited && Live(c, j)
    ensures AllAssigned(c, s.events, j)
    ensures (exists i: nat :: Live(c, i) && j < i) ==> Done(c, s.events, ToRanging, j)
  {
  }

  /** No reply is ever counted twice. */
  lemma CountedOnce(c: Config, run: seq<State>, acts: seq<Action>, n: nat, p: nat, q: nat)
    requires Valid(c) && IsRun(c, run, acts) && n < |run| && p < q < |run[n].events|
    ensures run[n].events[p].Counted? ==> run[n].events[p] != run[n].events[q]
  {
    RunKeepsInv(c, run, acts, n);
    var past := run[n].events[..q];
    assert past[p] in past;
    assert Justified(c, past, run[n].events[q]);
  }

  // --------------------------------------------------------------- progress

  /** Until the log thread exits, some thread or drone can always move. */
  lemma NoDeadlock(c: Config, run: seq<State>, acts: seq<Action>, n: nat)
    requires Valid(c) && IsRun(c, run, acts) && n < |run| && run[n].log != Exited
    ensures exists a :: Enabled(c, run[n], a)
  {
    RunKeepsInv(c, run, acts, n);
    InvMoves(c, run[n]);
  }

  lemma InvMoves(c: Config, s: State)
    requires Valid(c) && Inv(c, s) && s.log != Exited
    ensures exists a :: Enabled(c, s, a)
  {
    if d :| 0 <= d < |c.addr| && s.drones[d].inbox != [] {
      assert Enabled(c, s, DroneAct(d, Choice(0, false, 0, 0)));
    } else if d :| 0 <= d < |c.addr| && s.drones[d].handler == Recv && s.drones[d].outbox != [] {
      assert Enabled(c, s, HandlerAct(d));
    } else if d :| 0 <= d < |c.addr| && s.drones[d].handler.Counting? {
      assert Enabled(c, s, HandlerAct(d));
    } else if LogEnabled(c, s) {
      assert Enabled(c, s, LogAct);
    } else {
      match s.phase
      case Idle => assert false;
      case Assigning(k) =>
        var snd := SenderOf(c, k);
        AllCounted(c, s, k);
        assert AssignDrone(c, k, snd, |c.addr|, s.drones[snd], snd in s.counted);
        assert Enabled(c, s, HandlerAct(snd));
      case Ranged(k) =>
        var snd := SenderOf(c, k);
        if s.drones[snd].handler.Casting? {
          assert Enabled(c, s, HandlerAct(snd));
        } else {
          AllCounted(c, s, k);
          assert false;
        }
    }
  }

  /** With all channels drained and all rows sent, every reply has been counted. */
  lemma AllCounted(c: Config, s: State, k: nat)
    requires Valid(c) && Main(c, s) && Live(c, k) && Current(s) == k && !s.log.Sending?
    requires forall d :: 0 <= d < |c.addr| ==>
      s.drones[d].inbox == [] && !s.drones[d].handler.Counting?
        && (s.drones[d].handler == Recv ==> s.drones[d].outbox == [])
    requires s.phase.Ranged? ==> s.drones[SenderOf(c, k)].handler == Recv
    ensures s.counted == Receivers(c, k) && s.response == 1
  {
    forall r | r in Receivers(c, k) ensures r in s.counted {
      if s.phase.Assigning? {
        assert AssignDrone(c, k, r, |c.addr|, s.drones[r], r in s.counted);
      } else {
        assert CastDrone(c, k, r, |c.addr|, s.drones[r], r in s.counted);
      }
    }
  }

  /** What one message or program counter can still cause, in steps. */
  function DownWork(n: nat, m: Down): nat { if m.Assign? then 4 * n + 5 else 3 }

  function UpWork(n: nat, m: Up): nat { if m.RangingUp? then 4 * n + 4 else 2 }

  function HandlerWork(n: nat, pc: HandlerPc): nat {
    match pc
    case Recv => 0
    case Counting(_, _) => 1
    case WaitBroadcast(_, _) => 4 * n + 3
    case WaitResponse(_, _) => 4 * n + 2
    case Casting(_, _, j) => if j <= n then 4 * (n - j) + 1 else 0
  }

  function InboxWork(n: nat, q: seq<Down>): nat { if q == [] then 0 else DownWork(n, q[0]) + InboxWork(n, q[1..]) }

  function OutboxWork(n: nat, q: seq<Up>): nat { if q == [] then 0 else UpWork(n, q[0]) + OutboxWork(n, q[1..]) }

  function DroneWork(n: nat, dr: Drone): nat {
    InboxWork(n, dr.inbox) + OutboxWork(n, dr.outbox) + HandlerWork(n, dr.handler)
  }

  function DronesWork(n: nat, drones: seq<Drone>): nat {
    if drones == [] then 0 else DroneWork(n, drones[0]) + DronesWork(n, drones[1..])
  }

  /** Sending `left` assignments. */
  function SendWork(n: nat, left: nat): nat { if left == 0 then 0 else 4 * n + 6 + SendWork(n, left - 1) }

  function LinesWork(n: nat, left: nat): nat { if left == 0 then 0 else SendWork(n, n) + 4 + LinesWork(n, left - 1) }

  function LogWork(c: Config, log: LogPc): nat {
    var n := |c.addr|;
    match log
    case Exited => 0
    case Fetch(i) => LinesWork(n, if i < |c.lines| then |c.lines| - i else 0) + 1
    case WaitAllocation(i) => LinesWork(n, if i < |c.lines| then |c.lines| - i - 1 else 0) + SendWork(n, n) + 4
    case WaitTurn(i) => LinesWork(n, if i < |c.lines| then |c.lines| - i - 1 else 0) + SendWork(n, n) + 3
    case Sending(i, j) =>
      LinesWork(n, if i < |c.lines| then |c.lines| - i - 1 else 0) + SendWork(n, if j < n then n - j else 0) + 2
  }

  function Work(c: Config, s: State): nat {
    LogWork(c, s.log) + DronesWork(|c.addr|, s.drones)
  }

  lemma {:induction false} InboxPush(n: nat, q: seq<Down>, m: Down)
    ensures InboxWork(n, q + [m]) == InboxWork(n, q) + DownWork(n, m)
  {
    if q == [] {
      assert q + [m] == [m];
    } else {
      assert (q + [m])[1..] == q[1..] + [m];
      InboxPush(n, q[1..], m);
    }
  }

  lemma {:induction false} OutboxPush(n: nat, q: seq<Up>, m: Up)
    ensures OutboxWork(n, q + [m]) == OutboxWork(n, q) + UpWork(n, m)
  {
    if q == [] {
      assert q + [m] == [m];
    } else {
      assert (q + [m])[1..] == q[1..] + [m];
      OutboxPush(n, q[1..], m);
    }
  }

  lemma {:induction false} DronesUpdate(n: nat, drones: seq<Drone>, d: nat, dr: Drone)
    requires d < |drones|
    ensures DronesWork(n, drones[d := dr]) + DroneWork(n, drones[d]) == DronesWork(n, drones) + DroneWork(n, dr)
  {
    if d == 0 {
      assert drones[d := dr][1..] == drones[1..];
    } else {
      assert drones[d := dr][1..] == drones[1..][d - 1 := dr];
      DronesUpdate(n, drones[1..], d - 1, dr);
    }
  }

  lemma {:induction false} QuietWork(n: nat, drones: seq<Drone>)
    requires forall d :: 0 <= d < |drones| ==> Quiet(drones[d])
    ensures DronesWork(n, drones) == 0
  {
    if drones != [] {
      assert Quiet(drones[0]);
      QuietWork(n, drones[1..]);
    }
  }

  lemma {:induction false} LinesWorkIs(n: nat, row: nat, left: nat)
    requires row == SendWork(n, n) + 4
    ensures LinesWork(n, left) == left * row
  {
    if left > 0 {
      LinesWorkIs(n, row, left - 1);
    }
  }

  lemma {:induction false} SendWorkIs(n: nat, left: nat)
    ensures SendWork(n, left) == left * (4 * n + 6)
  {
    if left > 0 { SendWorkIs(n, left - 1); }
  }

  /** Every step uses up work: nothing can loop. */
  lemma StepUsesWork(c: Config, s: State, a: Action)
    requires Valid(c) && Enabled(c, s, a)
    ensures Work(c, Next(c, s, a)) < Work(c, s)
  {
    match a
    case LogAct => LogUsesWork(c, s);
    case HandlerAct(d) => HandlerUsesWork(c, s, d);
    case DroneAct(d, ch) => DroneUsesWork(c, s, d, ch);
  }

  lemma LogUsesWork(c: Config, s: State)
    requires Valid(c) && Enabled(c, s, LogAct)
    ensures Work(c, LogStep(c, s)) < Work(c, s)
  {
    if s.log.Sending? && s.log.next < |c.addr| {
      SendUsesWork(c, s, s.log.i, s.log.next);
    }
  }

  lemma SendUsesWork(c: Config, s: State, i: nat, j: nat)
    requires Valid(c) && Enabled(c, s, LogAct) && s.log == Sending(i, j) && j < |c.addr|
    ensures Work(c, LogStep(c, s)) < Work(c, s)
  {
    var m := Assignment(c, i, j);
    assert m.address == RowAddresses(RowAt(c, i))[j];
    assert m.address in c.addr;
    var d := Position(c.addr, m.address);
    assert Deliver(c, s.drones, m) == s.drones[d := Push(s.drones[d], m)];
    PushUsesWork(|c.addr|, s.drones, d, m);
  }

  lemma PushUsesWork(n: nat, drones: seq<Drone>, d: nat, m: Down)
    requires d < |drones|
    ensures DronesWork(n, drones[d := Push(drones[d], m)]) == DronesWork(n, drones) + DownWork(n, m)
  {
    InboxPush(n, drones[d].inbox, m);
    DronesUpdate(n, drones, d, Push(drones[d], m));
  }

  lemma HandlerUsesWork(c: Config, s: State, d: nat)
    requires Valid(c) && Enabled(c, s, HandlerAct(d))
    ensures Work(c, HandlerStep(c, s, d)) < Work(c, s)
  {
    var h := s.drones[d].handler;
    if h.Casting? && h.next < |c.addr| {
      CastUsesWork(c, s, d, h.body, h.line, h.next);
    } else {
      hide SendWork, LinesWork, InboxWork, LogWork, DronesWork;
      DronesUpdate(|c.addr|, s.drones, d, HandlerStep(c, s, d).drones[d]);
    }
  }

  lemma CastUsesWork(c: Config, s: State, d: nat, body: nat, line: nat, next: nat)
    requires Valid(c) && Enabled(c, s, HandlerAct(d)) && s.drones[d].handler == Casting(body, line, next)
    requires next < |c.addr|
    ensures Work(c, HandlerStep(c, s, d)) < Work(c, s)
  {
    hide SendWork, LinesWork, InboxWork, OutboxWork, LogWork, DronesWork;
    var n := |c.addr|;
    var mid := SetHandler(s, d, Casting(body, line, next + 1));
    assert DroneWork(n, mid.drones[d]) + 4 == DroneWork(n, s.drones[d]);
    DronesUpdate(n, s.drones, d, mid.drones[d]);
    PushUsesWork(n, mid.drones, next, Ranging(c.addr[d], body, line));
  }

  lemma DroneUsesWork(c: Config, s: State, d: nat, ch: Choice)
    requires Valid(c) && Enabled(c, s, DroneAct(d, ch))
    ensures Work(c, DroneStep(c, s, d, ch)) < Work(c, s)
  {
    var n := |c.addr|;
    var t := DroneStep(c, s, d, ch);
    var r := Receive(c, d, s.drones[d].txTime, s.drones[d].rxTime, s.drones[d].inbox[0], ch);
    if r.sent == [] {
      assert s.drones[d].outbox + r.sent == s.drones[d].outbox;
    } else {
      OutboxPush(n, s.drones[d].outbox, r.sent[0]);
    }
    DronesUpdate(n, s.drones, d, t.drones[d]);
  }

  lemma {:induction false} RunUsesWork(c: Config, run: seq<State>, acts: seq<Action>, n: nat)
    requires Valid(c) && IsRun(c, run, acts) && n < |run|
    ensures n + Work(c, run[n]) <= Work(c, run[0])
  {
    if n > 0 {
      RunUsesWork(c, run, acts, n - 1);
      StepUsesWork(c, run[n - 1], acts[n - 1]);
    }
  }

  /** No run is longer than this, whatever the interleaving. */
  lemma RunsAreBounded(c: Config, run: seq<State>, acts: seq<Action>)
    requires Valid(c) && IsRun(c, run, acts)
    ensures |acts| <= |c.lines| * (|c.addr| * (4 * |c.addr| + 6) + 4) + 1
  {
    RunUsesWork(c, run, acts, |acts|);
    QuietWork(|c.addr|, run[0].drones);
    SendWorkIs(|c.addr|, |c.addr|);
    LinesWorkIs(|c.addr|, |c.addr| * (4 * |c.addr| + 6) + 4, |c.lines|);
  }

  /** Total correctness: a run that cannot go on has exited, with every replayed
      row assigned to every drone and every row but the last fully answered. */
  lemma MaximalRunsFinish(c: Config, run: seq<State>, acts: seq<Action>)
    requires Valid(c) && IsRun(c, run, acts)
    requires forall a :: !Enabled(c, run[|acts|], a)
    ensures run[|acts|].log == Exited
    ensures forall j: nat, d: nat :: Live(c, j) && d < |c.addr| ==> Assigned(j, c.addr[d]) in run[|acts|].events
    ensures forall j: nat, i: nat, r: nat :: Live(c, j) && Live(c, i) && j < i && r < |c.addr| && !IsSender(c, j, r) ==>
      Counted(ToRanging, j, r) in run[|acts|].events
  {
    if run[|acts|].log != Exited {
      NoDeadlock(c, run, acts, |acts|);
    } else {
      forall j: nat, d: nat | Live(c, j) && d < |c.addr| ensures Assigned(j, c.addr[d]) in run[|acts|].events {
        ExitMeansDone(c, run, acts, |acts|, j);
      }
      forall j: nat, i: nat, r: nat | Live(c, j) && Live(c, i) && j < i && r < |c.addr| && !IsSender(c, j, r)
        ensures Counted(ToRanging, j, r) in run[|acts|].events
      {
        ExitMeansDone(c, run, acts, |acts|, j);
      }
    }
  }

  lemma Extend(c: Config, run: seq<State>, acts: seq<Action>, a: Action)
    requires Valid(c) && IsRun(c, run, acts) && Enabled(c, run[|acts|], a)
    ensures IsRun(c, run + [Next(c, run[|acts|], a)], acts + [a])
  {
  }

  /** The log thread has sent its last replayed row. */
  ghost predicate LastRowSent(c: Config, log: LogPc)
    requires Valid(c)
  {
    || (log.Sending? && log.next == |c.addr| && forall j: nat :: Live(c, j) ==> j <= log.i)
    || (log.Fetch? && forall j: nat :: Live(c, j) ==> j < log.i)
  }

  /** The last row is not covered.  From any run that is about to post the last
      replayed row, the log thread can go on alone to its exit: nothing is
      counted and no ranging message is sent on the way. */
  lemma {:induction false} LastRowNeedNotFinish(c: Config, run: seq<State>, acts: seq<Action>)
      returns (run': seq<State>, acts': seq<Action>)
    requires Valid(c) && IsRun(c, run, acts)
    requires LastRowSent(c, run[|acts|].log)
    ensures IsRun(c, run', acts') && run <= run' && run'[|acts'|].log == Exited
    ensures run'[|acts'|].events == run[|acts|].events + [Exit]
    decreases var log := run[|acts|].log; if log.Fetch? then |c.lines| - log.i else |c.lines| + 1
  {
    RunKeepsInv(c, run, acts, |acts|);
    var s := run[|acts|];
    var t := LogStep(c, s);
    Extend(c, run, acts, LogAct);
    if t.log == Exited {
      run', acts' := run + [t], acts + [LogAct];
    } else {
      if s.log.Fetch? && !t.log.Fetch? {
        assert Live(c, s.log.i);
      }
      run', acts' := LastRowNeedNotFinish(c, run + [t], acts + [LogAct]);
    }
  }

  /** Two drones, one row. */
  function Smallest(): (c: Config)
    ensures Valid(c) && Live(c, 0) && c.addr == [1, 2] && |c.lines| == 1 && c.rate == 1
    ensures Assignment(c, 0, 0) == Assign(1, TX, 100, 0) && Assignment(c, 0, 1) == Assign(2, RX, 200, 0)
  {
    var row := Row(1, 100, [(2, 200)]);
    assert RowAddresses(row) == [1, 2];
    var c := Config([1, 2], [Data(row)], 1, true);
    assert Selected(c, 0) && Valid(c);
    c
  }

  /** Such runs exist. */
  lemma LastRowMayBeLost() returns (c: Config, run: seq<State>, acts: seq<Action>)
    ensures Valid(c) && Live(c, 0) && IsRun(c, run, acts)
    ensures run[|acts|].log == Exited
    ensures run[|acts|].events == [Assigned(0, 1), Assigned(0, 2), Exit]
  {
    hide Smallest, Valid, ValidRow, Assignment;
    c := Smallest();
    var quiet := Drone([], [], Recv, 0, 0);
    var s0 := State(Fetch(0), 1, 0, 1, 0, [quiet, quiet], Idle, {}, []);
    var s1 := LogStep(c, s0);
    var s2 := LogStep(c, s1);
    var s3 := LogStep(c, s2);
    var s4 := LogStep(c, s3);
    var s5 := LogStep(c, s4);
    run := [s0, s1, s2, s3, s4, s5];
    acts := seq(5, i => LogAct);
    assert s5.log == Sending(0, 2);
    run, acts := LastRowNeedNotFinish(c, run, acts);
  }
}
