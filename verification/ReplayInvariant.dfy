/**
  The inductive invariant of the replay protocol: where, in every reachable
  state, the one outstanding message of each drone is, and what the semaphores
  and `response_count` say about it.
*/
module ReplayInvariant {
  import opened Replay

  // ------------------------------------------------------- rows and senders

  function SenderOf(c: Config, k: nat): (d: nat)
    requires Valid(c) && Live(c, k)
    ensures d < |c.addr| && IsSender(c, k, d)
  {
    assert RowAddresses(RowAt(c, k))[0] in c.addr;
    Position(c.addr, RowAt(c, k).txAddr)
  }

  function Receivers(c: Config, k: nat): set<nat>
    requires Valid(c) && Live(c, k)
  {
    set d: nat | 0 <= d < |c.addr| && !IsSender(c, k, d)
  }

  lemma OnlySender(c: Config, k: nat, d: nat)
    requires Valid(c) && Live(c, k) && d < |c.addr|
    ensures IsSender(c, k, d) <==> d == SenderOf(c, k)
    ensures Order(c, k, d) == 0 <==> d == SenderOf(c, k)
  {
  }

  /** A row's message j reaches exactly the drone whose place in the row is j. */
  lemma OrderIsPlace(c: Config, k: nat, d: nat, j: nat)
    requires Valid(c) && Live(c, k) && d < |c.addr| && j < |c.addr|
    ensures c.addr[d] == Assignment(c, k, j).address <==> Order(c, k, d) == j
  {
    var a := RowAddresses(RowAt(c, k));
    assert a[j] == Assignment(c, k, j).address;
  }

  function Below(n: nat): (s: set<nat>)
    ensures |s| == n && forall d: nat :: d in s <==> d < n
  {
    if n == 0 then {} else Below(n - 1) + {n - 1}
  }

  lemma ReceiverCount(c: Config, k: nat)
    requires Valid(c) && Live(c, k)
    ensures |Receivers(c, k)| == |c.addr| - 1
  {
    var all := Below(|c.addr|);
    forall d: nat | d < |c.addr| ensures IsSender(c, k, d) <==> d == SenderOf(c, k) {
      OnlySender(c, k, d);
    }
    assert Receivers(c, k) == all - {SenderOf(c, k)};
  }

  lemma SubsetCount(s: set<nat>, t: set<nat>)
    requires s <= t
    ensures |s| <= |t|
    ensures |s| == |t| ==> s == t
  {
    assert |t| == |s| + |t - s| by { assert t == s + (t - s); }
    if |s| == |t| { assert t - s == {}; }
  }

  // -------------------------------------------------- the state of a round

  /** How many of row k's assignments have been sent. */
  function SentOf(log: LogPc, k: nat, n: nat): nat {
    if log.Sending? && log.i == k then log.next else n
  }

  function CastsOf(pc: HandlerPc, n: nat): nat {
    if pc.Casting? then pc.next else n
  }

  /** A former sender's own ranging message, echoed back and not yet ignored. */
  ghost predicate Echo(c: Config, d: nat, q: seq<Down>)
    requires d < |c.addr|
  {
    q == [] || (|q| == 1 && q[0].Ranging? && q[0].src == c.addr[d])
  }

  /** Drone d's reply to this half of round k is on its way or counted. */
  ghost predicate Answering(w: Answers, k: nat, dr: Drone, counted: bool) {
    && dr.inbox == []
    && (|| (dr.outbox == [Reply(w, k)] && dr.handler == Recv && !counted)
        || (dr.outbox == [] && dr.handler == Counting(w, k) && !counted)
        || (dr.outbox == [] && dr.handler == Recv && counted))
  }

  ghost predicate Waiting(dr: Drone, counted: bool) {
    dr.outbox == [] && dr.handler == Recv && !counted
  }

  /** The sender between its assignment and its turn to broadcast. */
  ghost predicate Requesting(k: nat, dr: Drone, counted: bool) {
    && dr.inbox == [] && !counted
    && (|| (|dr.outbox| == 1 && dr.outbox[0].RangingUp? && dr.outbox[0].line == k && dr.handler == Recv)
        || (dr.outbox == [] && (dr.handler.WaitBroadcast? || dr.handler.WaitResponse?) && dr.handler.line == k))
  }

  /** Where drone d stands when `sent` assignments of row k are out. */
  ghost predicate AssignDrone(c: Config, k: nat, d: nat, sent: nat, dr: Drone, counted: bool)
    requires Valid(c) && Live(c, k) && d < |c.addr|
  {
    if sent <= Order(c, k, d) then
      Waiting(dr, counted) && Echo(c, d, dr.inbox)
    else
      || (&& Waiting(dr, counted) && |dr.inbox| > 0
          && Echo(c, d, dr.inbox[..|dr.inbox| - 1])
          && dr.inbox[|dr.inbox| - 1] == Assignment(c, k, Order(c, k, d)))
      || (if IsSender(c, k, d) then Requesting(k, dr, counted)
          else Answering(ToAssignment, k, dr, counted) && dr.rxTime == RxTime(c, k, d))
  }

  /** Where drone d stands when the broadcast of row k has reached `casts` drones. */
  ghost predicate CastDrone(c: Config, k: nat, d: nat, casts: nat, dr: Drone, counted: bool)
    requires Valid(c) && Live(c, k) && d < |c.addr|
  {
    if IsSender(c, k, d) then
      dr.outbox == [] && !counted && Echo(c, d, dr.inbox) && (d < casts || dr.inbox == [])
    else if casts <= d then
      Waiting(dr, counted) && dr.inbox == [] && dr.rxTime == RxTime(c, k, d)
    else
      || (&& Waiting(dr, counted) && |dr.inbox| == 1 && dr.rxTime == RxTime(c, k, d)
          && dr.inbox[0].Ranging? && dr.inbox[0].src == RowAt(c, k).txAddr && dr.inbox[0].line == k)
      || Answering(ToRanging, k, dr, counted)
  }

  ghost predicate AssignDrones(c: Config, s: State, k: nat)
    requires Valid(c) && Live(c, k) && |s.drones| == |c.addr|
  {
    forall d :: 0 <= d < |c.addr| ==>
      AssignDrone(c, k, d, SentOf(s.log, k, |c.addr|), s.drones[d], d in s.counted)
  }

  ghost predicate CastDrones(c: Config, s: State, k: nat)
    requires Valid(c) && Live(c, k) && |s.drones| == |c.addr|
  {
    forall d :: 0 <= d < |c.addr| ==>
      CastDrone(c, k, d, CastsOf(s.drones[SenderOf(c, k)].handler, |c.addr|), s.drones[d], d in s.counted)
  }

  /** `response_sem` is up exactly when all N-1 replies have been counted. */
  ghost predicate Replies(c: Config, s: State, k: nat)
    requires Valid(c) && Live(c, k)
  {
    && s.counted <= Receivers(c, k)
    && if s.counted == Receivers(c, k) then s.response == 1 && s.count == 0
       else s.response == 0 && s.count == |s.counted|
  }

  ghost predicate Main(c: Config, s: State)
    requires Valid(c)
  {
    && |s.drones| == |c.addr|
    && match s.phase
       case Idle =>
         && !s.log.Sending? && s.broadcast == 0 && s.response == 1 && s.count == 0
         && s.allocation == (if s.log.WaitTurn? then 0 else 1)
         && (forall d :: 0 <= d < |c.addr| ==> Quiet(s.drones[d]))
       case Assigning(k) =>
         && Live(c, k) && Replies(c, s, k)
         && s.allocation == 0 && !s.log.WaitTurn?
         && (s.log.Sending? ==>
               s.log.i == k && s.log.next <= |c.addr| && !s.drones[SenderOf(c, k)].handler.WaitResponse?)
         && s.broadcast == (if s.log.Sending? || s.drones[SenderOf(c, k)].handler.WaitResponse? then 0 else 1)
         && AssignDrones(c, s, k)
       case Ranged(k) =>
         && Live(c, k) && Replies(c, s, k)
         && s.broadcast == 0 && !s.log.Sending?
         && (var h := s.drones[SenderOf(c, k)].handler;
             || (h.Casting? && h.line == k && h.next <= |c.addr| && s.allocation == 0 && !s.log.WaitTurn?)
             || (h.Recv? && s.allocation == (if s.log.WaitTurn? then 0 else 1)))
         && CastDrones(c, s, k)
  }

  // --------------------------------------------------- where the log stands

  function Current(s: State): int {
    match s.phase case Idle => -1 case Assigning(k) => k case Ranged(k) => k
  }

  /** The current row is the last live row before line i. */
  ghost predicate Passed(c: Config, s: State, i: nat)
    requires Valid(c)
  {
    Current(s) < i && forall j: nat :: Live(c, j) && j < i ==> j <= Current(s)
  }

  ghost predicate LogOk(c: Config, s: State)
    requires Valid(c)
  {
    match s.log
    case Fetch(i) =>
      && Passed(c, s, i) && i <= |c.lines|
      && (forall j :: 0 <= j < i && Selected(c, j) ==> c.lines[j].Data?)
    case WaitAllocation(i) => Passed(c, s, i) && Live(c, i)
    case WaitTurn(i) => Passed(c, s, i) && Live(c, i)
    case Sending(i, j) => Live(c, i) && Current(s) == i
    case Exited => forall j: nat :: Live(c, j) ==> j <= Current(s)
  }

  // ---------------------------------------------------------------- history

  ghost predicate Done(c: Config, past: seq<Event>, w: Answers, k: nat)
    requires Valid(c) && Live(c, k)
  {
    forall r :: r in Receivers(c, k) ==> Counted(w, k, r) in past
  }

  ghost predicate AllAssigned(c: Config, past: seq<Event>, k: nat) {
    forall d :: 0 <= d < |c.addr| ==> Assigned(k, c.addr[d]) in past
  }

  /** What must already have happened when an event happens. */
  ghost predicate Justified(c: Config, past: seq<Event>, e: Event)
    requires Valid(c)
  {
    match e
    case Assigned(k, a) =>
      Live(c, k) && forall j: nat :: Live(c, j) && j < k ==> Done(c, past, ToRanging, j)
    case Counted(w, k, d) => Live(c, k) && d in Receivers(c, k) && e !in past
    case Cast(k, d) => Live(c, k) && Done(c, past, ToAssignment, k)
    case TxCallback(k, d, t, b) => Live(c, k) && d == SenderOf(c, k) && t == RowAt(c, k).txTime
    case RxCallback(k, d, t, b) => Live(c, k) && d in Receivers(c, k) && t == RxTime(c, k, d)
    case Exit =>
      && (forall j: nat :: Live(c, j) ==> AllAssigned(c, past, j))
      && (forall j: nat, i: nat :: Live(c, j) && Live(c, i) && j < i ==> Done(c, past, ToRanging, j))
  }

  ghost predicate Safe(c: Config, events: seq<Event>)
    requires Valid(c)
  {
    forall p :: 0 <= p < |events| ==> Justified(c, events[..p], events[p])
  }

  /** A counted reply belongs to a finished half, or to this one and is in `counted`. */
  ghost predicate Attributed(s: State, e: Event)
    requires e.Counted?
  {
    || e.line < Current(s)
    || (s.phase == Assigning(e.line) && e.answers == ToAssignment && e.d in s.counted)
    || (s.phase == Ranged(e.line) && (e.answers == ToAssignment || e.d in s.counted))
  }

  ghost predicate Past(c: Config, s: State)
    requires Valid(c)
  {
    && Safe(c, s.events)
    && (forall e :: e in s.events && e.Counted? ==> Attributed(s, e))
    && (forall j: nat :: Live(c, j) && j < Current(s) ==>
          Done(c, s.events, ToRanging, j) && AllAssigned(c, s.events, j))
    && (s.phase.Assigning? ==>
          && (forall d :: d in s.counted ==> Counted(ToAssignment, s.phase.k, d) in s.events)
          && (Live(c, s.phase.k) ==>
                forall d :: 0 <= d < |c.addr| && Order(c, s.phase.k, d) < SentOf(s.log, s.phase.k, |c.addr|) ==>
                  Assigned(s.phase.k, c.addr[d]) in s.events))
    && (s.phase.Ranged? ==>
          && (forall d :: d in s.counted ==> Counted(ToRanging, s.phase.k, d) in s.events)
          && (Live(c, s.phase.k) ==> Done(c, s.events, ToAssignment, s.phase.k) && AllAssigned(c, s.events, s.phase.k)))
  }

  ghost predicate Inv(c: Config, s: State)
    requires Valid(c)
  {
    Main(c, s) && LogOk(c, s) && Past(c, s)
  }

  // ------------------------------------------------------ preservation: Main

  lemma InitInv(c: Config, s: State)
    requires Valid(c) && Init(c, s)
    ensures Inv(c, s)
  {
  }

  lemma TakeRow(c: Config, s: State, i: nat)
    requires Valid(c) && Main(c, s) && LogOk(c, s) && s.log == WaitTurn(i) && Enabled(c, s, LogAct)
    ensures Main(c, LogStep(c, s))
  {
    var t := LogStep(c, s);
    ReceiverCount(c, i);
    assert t.counted == {} && Receivers(c, i) != {};
    forall d | 0 <= d < |c.addr| ensures AssignDrone(c, i, d, 0, t.drones[d], false) {
      if s.phase.Ranged? {
        var k := s.phase.k;
        OnlySender(c, k, d);
        OnlySender(c, k, SenderOf(c, k));
        assert CastDrone(c, k, d, |c.addr|, s.drones[d], d in s.counted);
      } else {
        assert Quiet(s.drones[d]);
      }
    }
  }

  lemma SendAssignment(c: Config, s: State, k: nat, j: nat)
    requires Valid(c) && Main(c, s) && s.log == Sending(k, j) && j < |c.addr| && Enabled(c, s, LogAct)
    requires s.phase == Assigning(k)
    ensures Main(c, LogStep(c, s))
  {
    var t := LogStep(c, s);
    forall d | 0 <= d < |c.addr| ensures AssignDrone(c, k, d, j + 1, t.drones[d], d in t.counted) {
      OrderIsPlace(c, k, d, j);
      assert AssignDrone(c, k, d, j, s.drones[d], d in s.counted);
    }
    OnlySender(c, k, SenderOf(c, k));
  }

  /** A step that leaves drones, replies and phase alone leaves every drone in place. */
  lemma SameRound(c: Config, s: State, t: State)
    requires Valid(c) && Main(c, s)
    requires t.drones == s.drones && t.counted == s.counted && t.phase == s.phase
    requires s.phase.Assigning? ==> SentOf(t.log, s.phase.k, |c.addr|) == SentOf(s.log, s.phase.k, |c.addr|)
    ensures s.phase.Assigning? ==> AssignDrones(c, t, s.phase.k)
    ensures s.phase.Ranged? ==> CastDrones(c, t, s.phase.k)
  {
  }

  /** A step of one drone or its handler leaves the other drones in place. */
  lemma OneDroneMoves(c: Config, s: State, t: State, k: nat, d: nat)
    requires Valid(c) && Live(c, k) && |s.drones| == |c.addr| && d < |c.addr|
    requires |t.drones| == |s.drones| && t.drones == s.drones[d := t.drones[d]] && t.log == s.log
    requires forall e :: e != d ==> (e in t.counted <==> e in s.counted)
    ensures (AssignDrones(c, s, k)
             && AssignDrone(c, k, d, SentOf(s.log, k, |c.addr|), t.drones[d], d in t.counted))
            ==> AssignDrones(c, t, k)
    ensures (CastDrones(c, s, k)
             && CastsOf(t.drones[SenderOf(c, k)].handler, |c.addr|) ==
               CastsOf(s.drones[SenderOf(c, k)].handler, |c.addr|)
             && CastDrone(c, k, d, CastsOf(s.drones[SenderOf(c, k)].handler, |c.addr|), t.drones[d], d in t.counted))
            ==> CastDrones(c, t, k)
  {
  }

  lemma PostBroadcast(c: Config, s: State, k: nat)
    requires Valid(c) && Main(c, s) && LogOk(c, s) && s.log == Sending(k, |c.addr|) && Enabled(c, s, LogAct)
    ensures Main(c, LogStep(c, s))
  {
    SameRound(c, s, LogStep(c, s));
  }

  lemma FetchLine(c: Config, s: State, i: nat)
    requires Valid(c) && Main(c, s) && s.log == Fetch(i) && Enabled(c, s, LogAct)
    ensures Main(c, LogStep(c, s))
  {
    SameRound(c, s, LogStep(c, s));
  }

  lemma TakeAllocation(c: Config, s: State, i: nat)
    requires Valid(c) && Main(c, s) && s.log == WaitAllocation(i) && Enabled(c, s, LogAct)
    ensures Main(c, LogStep(c, s))
  {
    SameRound(c, s, LogStep(c, s));
  }

  lemma LogKeepsMain(c: Config, s: State)
    requires Valid(c) && Main(c, s) && LogOk(c, s) && Enabled(c, s, LogAct)
    ensures Main(c, LogStep(c, s))
  {
    match s.log
    case Fetch(i) => FetchLine(c, s, i);
    case WaitAllocation(i) => TakeAllocation(c, s, i);
    case WaitTurn(i) => TakeRow(c, s, i);
    case Sending(k, j) => if j < |c.addr| { SendAssignment(c, s, k, j); } else { PostBroadcast(c, s, k); }
  }

  lemma ReceiveWhileAssigning(c: Config, k: nat, d: nat, sent: nat, dr: Drone, counted: bool, ch: Choice)
    requires Valid(c) && Live(c, k) && d < |c.addr| && dr.inbox != []
    requires AssignDrone(c, k, d, sent, dr, counted)
    ensures var r := Receive(c, d, dr.txTime, dr.rxTime, dr.inbox[0], ch);
            && AssignDrone(c, k, d, sent, AfterReceive(dr, r), counted)
            && r.ran ==
                 if IsSender(c, k, d) && dr.inbox[0].Assign? then [TxCallback(k, d, RowAt(c, k).txTime, ch.body)]
                 else []
  {
    OnlySender(c, k, d);
    OrderIsPlace(c, k, d, Order(c, k, d));
  }

  lemma ReceiveWhileRanged(c: Config, k: nat, d: nat, casts: nat, dr: Drone, counted: bool, ch: Choice)
    requires Valid(c) && Live(c, k) && d < |c.addr| && dr.inbox != []
    requires CastDrone(c, k, d, casts, dr, counted)
    ensures var r := Receive(c, d, dr.txTime, dr.rxTime, dr.inbox[0], ch);
            && CastDrone(c, k, d, casts, AfterReceive(dr, r), counted)
            && dr.inbox[0].Ranging?
            && r.ran ==
                 if IsSender(c, k, d) then [] else [RxCallback(k, d, RxTime(c, k, d), dr.inbox[0].body)]
  {
    OnlySender(c, k, d);
  }

  lemma DroneKeepsMain(c: Config, s: State, d: nat, ch: Choice)
    requires Valid(c) && Main(c, s) && Enabled(c, s, DroneAct(d, ch))
    ensures Main(c, DroneStep(c, s, d, ch))
    ensures var ran := Receive(c, d, s.drones[d].txTime, s.drones[d].rxTime, s.drones[d].inbox[0], ch).ran;
      |ran| <= 1 && forall e :: e in ran ==> Justified(c, s.events, e) && !e.Counted?
  {
    hide Receive, CastDrone, AssignDrone;
    var t := DroneStep(c, s, d, ch);
    match s.phase
    case Idle => assert false;
    case Assigning(k) =>
      ReceiveWhileAssigning(c, k, d, SentOf(s.log, k, |c.addr|), s.drones[d], d in s.counted, ch);
      OneDroneMoves(c, s, t, k, d);
    case Ranged(k) =>
      ReceiveWhileRanged(c, k, d, CastsOf(s.drones[SenderOf(c, k)].handler, |c.addr|), s.drones[d], d in s.counted, ch);
      OneDroneMoves(c, s, t, k, d);
  }

  lemma CountKeepsReplies(c: Config, s: State, k: nat, d: nat)
    requires Valid(c) && Live(c, k) && Replies(c, s, k)
    requires d in Receivers(c, k) && d !in s.counted && d < |s.drones| == |c.addr|
    requires s.log != Exited && s.drones[d].handler.Counting?
    ensures Replies(c, HandlerStep(c, s, d), k)
  {
    ReceiverCount(c, k);
    var more := s.counted + {d};
    SubsetCount(s.counted, Receivers(c, k));
    SubsetCount(more, Receivers(c, k));
    assert |more| == |s.counted| + 1;
  }

  lemma HandlerKeepsMain(c: Config, s: State, d: nat)
    requires Valid(c) && Main(c, s) && Enabled(c, s, HandlerAct(d))
    ensures Main(c, HandlerStep(c, s, d))
  {
    match s.phase
    case Idle => assert false;
    case Assigning(k) =>
      if s.drones[d].handler.WaitResponse? { StartCast(c, s, k, d); }
      else { HandlerWhileAssigning(c, s, k, d); }
    case Ranged(k) =>
      if s.drones[d].handler.Casting? { CastOn(c, s, k, d); }
      else { HandlerWhileRanged(c, s, k, d); }
  }

  lemma StartCast(c: Config, s: State, k: nat, d: nat)
    requires Valid(c) && Main(c, s) && s.phase == Assigning(k) && Enabled(c, s, HandlerAct(d))
    requires s.drones[d].handler.WaitResponse?
    ensures Main(c, HandlerStep(c, s, d))
    ensures s.drones[d].handler.line == k && s.counted == Receivers(c, k) && !s.log.Sending?
  {
    var t := HandlerStep(c, s, d);
    assert AssignDrone(c, k, d, SentOf(s.log, k, |c.addr|), s.drones[d], d in s.counted);
    OnlySender(c, k, d);
    ReceiverCount(c, k);
    forall e | 0 <= e < |c.addr| ensures CastDrone(c, k, e, 0, t.drones[e], false) {
      OnlySender(c, k, e);
      AssignedThenUncast(c, k, e, s.drones[e], t.drones[e]);
    }
    assert CastDrones(c, t, k);
  }

  /** Once every reply to row k's assignments is counted, no drone but the
      sender holds a message, and each receiver has row k's time. */
  lemma AssignedThenUncast(c: Config, k: nat, e: nat, before: Drone, after: Drone)
    requires Valid(c) && Live(c, k) && e < |c.addr|
    requires AssignDrone(c, k, e, |c.addr|, before, !IsSender(c, k, e))
    requires if IsSender(c, k, e) then before.handler.WaitResponse? && after == before.(handler := after.handler)
             else after == before
    ensures CastDrone(c, k, e, 0, after, false)
  {
  }

  /** The handler's own steps on one drone: taking a message, counting a reply,
      taking broadcast_sem. */
  ghost predicate HandlerMove(w: Answers, k: nat, before: Drone, after: Drone, counted: bool) {
    || (before.handler == Recv && before.outbox != [] && after == TakeUp(before) && !counted)
    || (before.handler == Counting(w, k) && after == before.(handler := Recv) && counted)
    || (before.handler.WaitBroadcast? && !counted &&
        after == before.(handler := WaitResponse(before.handler.body, before.handler.line)))
  }

  lemma MoveWhileAssigning(c: Config, k: nat, d: nat, sent: nat, dr: Drone, after: Drone, counted: bool)
    requires Valid(c) && Live(c, k) && d < |c.addr|
    requires AssignDrone(c, k, d, sent, dr, false) && HandlerMove(ToAssignment, k, dr, after, counted)
    ensures AssignDrone(c, k, d, sent, after, counted)
  {
  }

  lemma MoveWhileRanged(c: Config, k: nat, d: nat, casts: nat, dr: Drone, after: Drone, counted: bool)
    requires Valid(c) && Live(c, k) && d < |c.addr|
    requires CastDrone(c, k, d, casts, dr, false) && HandlerMove(ToRanging, k, dr, after, counted)
    requires !IsSender(c, k, d)
    ensures CastDrone(c, k, d, casts, after, counted)
  {
  }

  lemma HandlerWhileAssigning(c: Config, s: State, k: nat, d: nat)
    requires Valid(c) && Main(c, s) && s.phase == Assigning(k) && Enabled(c, s, HandlerAct(d))
    requires !s.drones[d].handler.WaitResponse?
    ensures Main(c, HandlerStep(c, s, d))
    ensures s.drones[d].handler.Counting? ==>
      s.drones[d].handler == Counting(ToAssignment, k) && d in Receivers(c, k) && d !in s.counted
  {
    var t := HandlerStep(c, s, d);
    var sent := SentOf(s.log, k, |c.addr|);
    assert AssignDrone(c, k, d, sent, s.drones[d], d in s.counted);
    OnlySender(c, k, d);
    if s.drones[d].handler.Counting? {
      CountKeepsReplies(c, s, k, d);
    }
    MoveWhileAssigning(c, k, d, sent, s.drones[d], t.drones[d], d in t.counted);
    OneDroneMoves(c, s, t, k, d);
  }

  lemma HandlerWhileRanged(c: Config, s: State, k: nat, d: nat)
    requires Valid(c) && Main(c, s) && s.phase == Ranged(k) && Enabled(c, s, HandlerAct(d))
    requires !s.drones[d].handler.Casting?
    ensures Main(c, HandlerStep(c, s, d))
    ensures s.drones[d].handler.Counting? ==>
      s.drones[d].handler == Counting(ToRanging, k) && d in Receivers(c, k) && d !in s.counted
  {
    var t := HandlerStep(c, s, d);
    var casts := CastsOf(s.drones[SenderOf(c, k)].handler, |c.addr|);
    assert CastDrone(c, k, d, casts, s.drones[d], d in s.counted);
    OnlySender(c, k, d);
    if s.drones[d].handler.Counting? {
      CountKeepsReplies(c, s, k, d);
    }
    MoveWhileRanged(c, k, d, casts, s.drones[d], t.drones[d], d in t.counted);
    OneDroneMoves(c, s, t, k, d);
  }

  lemma CastOn(c: Config, s: State, k: nat, d: nat)
    requires Valid(c) && Main(c, s) && s.phase == Ranged(k) && Enabled(c, s, HandlerAct(d))
    requires s.drones[d].handler.Casting?
    ensures Main(c, HandlerStep(c, s, d))
    ensures s.drones[d].handler.line == k
  {
    var t := HandlerStep(c, s, d);
    OnlySender(c, k, d);
    assert CastDrone(c, k, d, CastsOf(s.drones[SenderOf(c, k)].handler, |c.addr|), s.drones[d], d in s.counted);
    var h := s.drones[d].handler;
    if h.next < |c.addr| {
      var m := Ranging(c.addr[d], h.body, k);
      forall e | 0 <= e < |c.addr| ensures CastDrone(c, k, e, h.next + 1, t.drones[e], e in t.counted) {
        OnlySender(c, k, e);
        CastOne(c, k, e, h.next, s.drones[e], t.drones[e], m, e in s.counted);
      }
    }
    assert CastDrones(c, t, k);
  }

  lemma CastOne(c: Config, k: nat, e: nat, casts: nat, before: Drone, after: Drone, m: Down, counted: bool)
    requires Valid(c) && Live(c, k) && e < |c.addr|
    requires CastDrone(c, k, e, casts, before, counted)
    requires m.Ranging? && m.src == RowAt(c, k).txAddr && m.line == k
    requires after == (if e == casts then Push(before, m) else before).(handler := after.handler)
    requires IsSender(c, k, e) || after.handler == before.handler
    ensures CastDrone(c, k, e, casts + 1, after, counted)
  {
  }
}
