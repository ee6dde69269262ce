/**
  The replay protocol between the control center (center.c) and its N drones
  (drone.c), as a step relation over one shared state.

  Threads: the log thread `broadcast_flightLog`, one `handle_node_connection`
  thread per drone, and one `receive_from_center` thread inside each drone.
  They meet only at three semaphores, at the mutex-protected `response_count`,
  and at the two FIFO channels of each drone.  Every semaphore wait, every send
  and the critical section are steps of their own, so all interleavings of
  these are runs of the model.

  The `line` field of a message says which line of the flight log it belongs
  to.  No step looks at it; it is there so that properties can speak of rows.
*/
module Replay {
  import opened Common

  datatype Direction = TX | RX

  /** A parsed log line: one sender, and a reception time for each receiver. */
  datatype Row = Row(txAddr: nat, txTime: nat, rx: seq<(nat, nat)>)

  datatype Line = Blank | Data(row: Row)

  /** `addr[d]` is the address drone d registered with; `rate` is
      RANGING_PERIOD_RATE; `modified` selects MODIFIED_RANGING_MODE. */
  datatype Config = Config(addr: seq<nat>, lines: seq<Line>, rate: nat, modified: bool)

  /** Center to drone: a task assignment, or the sender's ranging message. */
  datatype Down =
    | Assign(address: nat, dir: Direction, time: nat, line: nat)
    | Ranging(src: nat, body: nat, line: nat)

  /** What a reply answers. */
  datatype Answers = ToAssignment | ToRanging

  /** Drone to center. */
  datatype Up =
    | RangingUp(body: nat, line: nat)
    | Reply(answers: Answers, line: nat)

  datatype LogPc =
    | Fetch(i: nat)
    | WaitAllocation(i: nat)
    | WaitTurn(i: nat)
    | Sending(i: nat, next: nat)
    | Exited

  datatype HandlerPc =
    | Recv
    | Counting(answers: Answers, line: nat)
    | WaitBroadcast(body: nat, line: nat)
    | WaitResponse(body: nat, line: nat)
    | Casting(body: nat, line: nat, next: nat)

  /** One drone, its two channels, and the center thread that serves it. */
  datatype Drone = Drone(inbox: seq<Down>, outbox: seq<Up>, handler: HandlerPc, txTime: nat, rxTime: nat)

  /** What an observer sees. */
  datatype Event =
    | Assigned(line: nat, address: nat)
    | Counted(answers: Answers, line: nat, d: nat)
    | Cast(line: nat, d: nat)
    | TxCallback(line: nat, d: nat, time: nat, body: nat)
    | RxCallback(line: nat, d: nat, time: nat, body: nat)
    | Exit

  /** History only: which half of which round the replies belong to, and whose
      replies of that half have been counted. */
  datatype Phase = Idle | Assigning(k: nat) | Ranged(k: nat)

  datatype State = State(
    log: LogPc, allocation: nat, broadcast: nat, response: nat, count: nat,
    drones: seq<Drone>,
    phase: Phase, counted: set<nat>, events: seq<Event>)

  /** The outcome of calls into code outside this repository: the generated
      message, the packet-loss draw, and the values the ranging library leaves in
      the two timestamp globals (it resets them through xTaskGetTickCount). */
  datatype Choice = Choice(body: nat, lost: bool, libTx: nat, libRx: nat)

  datatype Action = LogAct | HandlerAct(d: nat) | DroneAct(d: nat, choice: Choice)

  // ---------------------------------------------------------------- rows

  /** center.c:93: every `rate`-th group of N lines is replayed. */
  predicate Selected(c: Config, i: nat)
    requires |c.addr| > 0 && c.rate > 0
  {
    (i / |c.addr|) % c.rate == 0
  }

  /** Groups of N lines: group 0 and every rate-th after it are selected, all their
      lines, and no others. */
  lemma SelectedGroups(c: Config, q: nat, r: nat, j: nat)
    requires |c.addr| > 0 && r < c.rate && j < |c.addr|
    ensures Selected(c, (q * c.rate + r) * |c.addr| + j) <==> r == 0
  {
    var g := q * c.rate + r;
    QuotientIs(g, q, r, c.rate);
    GroupSelected(c, g, j);
  }

  lemma GroupSelected(c: Config, g: nat, j: nat)
    requires |c.addr| > 0 && c.rate > 0 && j < |c.addr|
    ensures Selected(c, g * |c.addr| + j) <==> g % c.rate == 0
  {
    QuotientIs(g * |c.addr| + j, g, j, |c.addr|);
  }

  function RowAddresses(r: Row): (a: seq<nat>)
    ensures |a| == 1 + |r.rx|
  {
    [r.txAddr] + seq(|r.rx|, j requires 0 <= j < |r.rx| => r.rx[j].0)
  }

  /** A row names every registered drone exactly once. */
  ghost predicate ValidRow(c: Config, r: Row) {
    var a := RowAddresses(r);
    && |a| == |c.addr|
    && Distinct(a)
    && (forall x :: x in a <==> x in c.addr)
  }

  ghost predicate Valid(c: Config) {
    && 2 <= |c.addr|
    && 1 <= c.rate
    && Distinct(c.addr)
    && (forall i :: 0 <= i < |c.lines| && c.lines[i].Data? ==> ValidRow(c, c.lines[i].row))
  }

  /** The lines the log thread replays: selected, and before the first selected
      line that is blank (center.c:94-96). */
  predicate Live(c: Config, i: nat)
    requires Valid(c)
  {
    && i < |c.lines|
    && Selected(c, i)
    && (forall j :: 0 <= j <= i && Selected(c, j) ==> c.lines[j].Data?)
  }

  function RowAt(c: Config, k: nat): (r: Row)
    requires Valid(c) && Live(c, k)
    ensures ValidRow(c, r)
  {
    c.lines[k].row
  }

  predicate IsSender(c: Config, k: nat, d: nat)
    requires Valid(c) && Live(c, k) && d < |c.addr|
  {
    c.addr[d] == RowAt(c, k).txAddr
  }

  function Position(s: seq<nat>, x: nat): (j: nat)
    requires x in s
    ensures j < |s| && s[j] == x && x !in s[..j]
  {
    if s[0] == x then 0 else 1 + Position(s[1..], x)
  }

  /** Which of the row's N messages goes to drone d. */
  function Order(c: Config, k: nat, d: nat): (j: nat)
    requires Valid(c) && Live(c, k) && d < |c.addr|
    ensures j < |c.addr| && RowAddresses(RowAt(c, k))[j] == c.addr[d]
  {
    assert c.addr[d] in c.addr;
    Position(RowAddresses(RowAt(c, k)), c.addr[d])
  }

  /** The reception time row k gives to receiver d. */
  function RxTime(c: Config, k: nat, d: nat): nat
    requires Valid(c) && Live(c, k) && d < |c.addr|
  {
    var j := Order(c, k, d);
    if j == 0 then RowAt(c, k).txTime else RowAt(c, k).rx[j - 1].1
  }

  /** The j-th assignment of row i, as center.c:102-150 builds it. */
  function Assignment(c: Config, i: nat, j: nat): Down
    requires Valid(c) && Live(c, i) && j < |c.addr|
  {
    var r := RowAt(c, i);
    if j == 0 then Assign(r.txAddr, TX, r.txTime, i)
    else Assign(r.rx[j - 1].0, RX, r.rx[j - 1].1, i)
  }

  // ------------------------------------------------------- the drone side

  /** What receive_from_center does with one message (drone.c:240-284): the
      drone after it, what it sends back, and the callback it ran, with its time
      and the ranging message it generated or processed. */
  datatype Received = Received(txTime: nat, rxTime: nat, sent: seq<Up>, ran: seq<Event>)

  function Receive(c: Config, d: nat, txTime: nat, rxTime: nat, m: Down, ch: Choice): Received
    requires d < |c.addr|
  {
    match m
    case Assign(address, dir, time, line) =>
      if address != c.addr[d] then Received(txTime, rxTime, [], [])
      else if dir == TX then
        Received(if c.modified then 0 else ch.libTx, ch.libRx, [RangingUp(ch.body, line)],
                 [TxCallback(line, d, time, ch.body)])
      else Received(txTime, time, [Reply(ToAssignment, line)], [])
    case Ranging(src, body, line) =>
      if src == c.addr[d] then Received(txTime, rxTime, [], [])
      else if ch.lost || rxTime == 0 then
        Received(txTime, rxTime, [Reply(ToRanging, line)], [RxCallback(line, d, rxTime, body)])
      else
        Received(ch.libTx, if c.modified then 0 else ch.libRx,
                 [Reply(ToRanging, line)], [RxCallback(line, d, rxTime, body)])
  }

  // ------------------------------------------------------------ the steps

  function Push(dr: Drone, m: Down): Drone {
    dr.(inbox := dr.inbox + [m])
  }

  /** The loop over droneNodeSet that sends to every node whose address matches. */
  function Deliver(c: Config, drones: seq<Drone>, m: Down): (r: seq<Drone>)
    requires m.Assign? && |drones| == |c.addr|
    ensures |r| == |drones|
    ensures forall d :: 0 <= d < |r| ==>
      r[d] == if c.addr[d] == m.address then Push(drones[d], m) else drones[d]
  {
    seq(|drones|, d requires 0 <= d < |drones| =>
      if c.addr[d] == m.address then Push(drones[d], m) else drones[d])
  }

  predicate LogEnabled(c: Config, s: State)
    requires Valid(c)
  {
    match s.log
    case Fetch(i) => true
    case WaitAllocation(i) => s.allocation > 0
    case WaitTurn(i) => s.response > 0
    case Sending(i, j) => Live(c, i) && j <= |c.addr|
    case Exited => false
  }

  predicate Enabled(c: Config, s: State, a: Action)
    requires Valid(c)
  {
    && s.log != Exited
    && |s.drones| == |c.addr|
    && match a
       case LogAct => LogEnabled(c, s)
       case HandlerAct(d) =>
         && d < |c.addr|
         && (match s.drones[d].handler
             case Recv => |s.drones[d].outbox| > 0
             case Counting(w, k) => true
             case WaitBroadcast(b, k) => s.broadcast > 0
             case WaitResponse(b, k) => s.response > 0
             case Casting(b, k, j) => j <= |c.addr|)
       case DroneAct(d, ch) => d < |c.addr| && |s.drones[d].inbox| > 0
  }

  function LogStep(c: Config, s: State): State
    requires Valid(c) && |s.drones| == |c.addr| && LogEnabled(c, s)
  {
    match s.log
    case Fetch(i) =>
      if |c.lines| <= i || (Selected(c, i) && c.lines[i].Blank?) then
        s.(log := Exited, events := s.events + [Exit])
      else if !Selected(c, i) then s.(log := Fetch(i + 1))
      else s.(log := WaitAllocation(i))
    case WaitAllocation(i) => s.(allocation := s.allocation - 1, log := WaitTurn(i))
    case WaitTurn(i) =>
      s.(response := s.response - 1, log := Sending(i, 0), phase := Assigning(i), counted := {})
    case Sending(i, j) =>
      if j < |c.addr| then
        var m := Assignment(c, i, j);
        s.(log := Sending(i, j + 1), drones := Deliver(c, s.drones, m),
           events := s.events + [Assigned(i, m.address)])
      else s.(broadcast := s.broadcast + 1, log := Fetch(i + 1))
  }

  function SetHandler(s: State, d: nat, pc: HandlerPc): State
    requires d < |s.drones|
  {
    s.(drones := s.drones[d := s.drones[d].(handler := pc)])
  }

  /** The handler takes the next message off its socket and looks at its size. */
  function TakeUp(dr: Drone): Drone
    requires dr.outbox != []
  {
    var pc := match dr.outbox[0]
      case RangingUp(b, k) => WaitBroadcast(b, k)
      case Reply(w, k) => Counting(w, k);
    dr.(outbox := dr.outbox[1..], handler := pc)
  }

  function HandlerStep(c: Config, s: State, d: nat): State
    requires Valid(c) && Enabled(c, s, HandlerAct(d))
  {
    var dr := s.drones[d];
    match dr.handler
    case Recv => s.(drones := s.drones[d := TakeUp(dr)])
    case Counting(w, k) =>
      var full := s.count + 1 == |c.addr| - 1;
      SetHandler(s, d, Recv).(
        count := if full then 0 else s.count + 1,
        response := if full then s.response + 1 else s.response,
        counted := s.counted + {d},
        events := s.events + [Counted(w, k, d)])
    case WaitBroadcast(b, k) =>
      SetHandler(s, d, WaitResponse(b, k)).(broadcast := s.broadcast - 1)
    case WaitResponse(b, k) =>
      SetHandler(s, d, Casting(b, k, 0)).(response := s.response - 1, phase := Ranged(k), counted := {})
    case Casting(b, k, j) =>
      if j < |c.addr| then
        var t := SetHandler(s, d, Casting(b, k, j + 1));
        t.(drones := t.drones[j := Push(t.drones[j], Ranging(c.addr[d], b, k))],
           events := s.events + [Cast(k, j)])
      else SetHandler(s, d, Recv).(allocation := s.allocation + 1)
  }

  function AfterReceive(dr: Drone, r: Received): Drone
    requires dr.inbox != []
  {
    dr.(inbox := dr.inbox[1..], outbox := dr.outbox + r.sent, txTime := r.txTime, rxTime := r.rxTime)
  }

  function DroneStep(c: Config, s: State, d: nat, ch: Choice): State
    requires Valid(c) && Enabled(c, s, DroneAct(d, ch))
  {
    var r := Receive(c, d, s.drones[d].txTime, s.drones[d].rxTime, s.drones[d].inbox[0], ch);
    s.(drones := s.drones[d := AfterReceive(s.drones[d], r)], events := s.events + r.ran)
  }

  function Next(c: Config, s: State, a: Action): State
    requires Valid(c) && Enabled(c, s, a)
  {
    match a
    case LogAct => LogStep(c, s)
    case HandlerAct(d) => HandlerStep(c, s, d)
    case DroneAct(d, ch) => DroneStep(c, s, d, ch)
  }

  /** All N drones registered; semaphores as droneNodeSet_init sets them. */
  predicate Init(c: Config, s: State) {
    && s.log == Fetch(0) && s.allocation == 1 && s.broadcast == 0 && s.response == 1 && s.count == 0
    && |s.drones| == |c.addr|
    && (forall d :: 0 <= d < |s.drones| ==> Quiet(s.drones[d]))
    && s.phase == Idle && s.counted == {} && s.events == []
  }

  predicate Quiet(dr: Drone) {
    dr.inbox == [] && dr.outbox == [] && dr.handler == Recv
  }

  /** A run: each state follows from the one before it by the action taken. */
  ghost predicate IsRun(c: Config, run: seq<State>, acts: seq<Action>)
    requires Valid(c)
  {
    && |run| == |acts| + 1
    && Init(c, run[0])
    && (forall n :: 0 <= n < |acts| ==> Enabled(c, run[n], acts[n]) && run[n + 1] == Next(c, run[n], acts[n]))
  }
}
