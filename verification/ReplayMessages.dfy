/**
  What the ranging messages say: the message that a row's sender generated when it
  was assigned is the one that the center passes on and that every receiver
  processes, and the sender generates one for each row.
*/
module ReplayMessages {
  import opened Replay
  import opened ReplayInvariant
  import opened ReplaySafety
  import opened ReplayCallbacks

  /** The ranging messages generated for row k so far. */
  function Bodies(events: seq<Event>, k: nat): seq<nat> {
    if events == [] then []
    else
      var e := events[|events| - 1];
      Bodies(events[..|events| - 1], k) + if e.TxCallback? && e.line == k then [e.body] else []
  }

  lemma BodiesAppend(events: seq<Event>, e: Event, k: nat)
    ensures Bodies(events + [e], k) == Bodies(events, k) + if e.TxCallback? && e.line == k then [e.body] else []
  {
    assert (events + [e])[..|events|] == events;
  }

  // ------------------------------------------------------------ the invariant

  /** A ranging message on its way to a drone: the sender's own. */
  ghost predicate Carried(c: Config, events: seq<Event>, m: Down)
    requires Valid(c)
  {
    m.Ranging? ==> Live(c, m.line) && m.src == RowAt(c, m.line).txAddr && Bodies(events, m.line) == [m.body]
  }

  ghost predicate Offered(events: seq<Event>, u: Up) {
    u.RangingUp? ==> Bodies(events, u.line) == [u.body]
  }

  /** The handler has a ranging message to pass on. */
  predicate Holding(pc: HandlerPc) {
    pc.WaitBroadcast? || pc.WaitResponse? || pc.Casting?
  }

  ghost predicate InTransit(c: Config, events: seq<Event>, dr: Drone)
    requires Valid(c)
  {
    && (forall m :: m in dr.inbox ==> Carried(c, events, m))
    && (forall u :: u in dr.outbox ==> Offered(events, u))
    && (Holding(dr.handler) ==> Bodies(events, dr.handler.line) == [dr.handler.body])
  }

  /** Whatever was processed had been generated. */
  ghost predicate Heard(events: seq<Event>) {
    forall p :: 0 <= p < |events| ==> HeardNow(events[..p], events[p])
  }

  ghost predicate HeardNow(past: seq<Event>, e: Event) {
    e.RxCallback? ==> Bodies(past, e.line) == [e.body]
  }

  /** No row has two messages, and none has one before its sender had its assignment. */
  ghost predicate Unsaid(c: Config, s: State)
    requires Valid(c) && |s.drones| == |c.addr|
  {
    && (forall k: nat :: |Bodies(s.events, k)| <= 1 && (Current(s) < k ==> Bodies(s.events, k) == []))
    && (s.phase.Assigning? && Live(c, s.phase.k) ==>
          var dr := s.drones[SenderOf(c, s.phase.k)];
          dr.outbox == [] && dr.handler == Recv ==> Bodies(s.events, s.phase.k) == [])
  }

  ghost predicate Messages(c: Config, s: State)
    requires Valid(c)
  {
    && |s.drones| == |c.addr|
    && (forall d :: 0 <= d < |c.addr| ==> InTransit(c, s.events, s.drones[d]))
    && Heard(s.events) && Unsaid(c, s)
  }

  // ------------------------------------------------------------ preservation

  lemma HeardAppend(events: seq<Event>, e: Event)
    requires Heard(events) && HeardNow(events, e)
    ensures Heard(events + [e])
  {
    var all := events + [e];
    forall p | 0 <= p < |all| ensures HeardNow(all[..p], all[p]) {
      assert all[..p] == if p < |events| then events[..p] else events;
    }
  }

  /** An event that generates nothing changes nothing. */
  lemma TransitStays(c: Config, events: seq<Event>, e: Event, dr: Drone)
    requires Valid(c) && InTransit(c, events, dr) && !e.TxCallback?
    ensures InTransit(c, events + [e], dr)
  {
    hide Bodies;
    forall k: nat ensures Bodies(events + [e], k) == Bodies(events, k) {
      BodiesAppend(events, e, k);
    }
  }

  /** A step that generates nothing and leaves every message as it should be. */
  lemma Silent(c: Config, s: State, t: State, e: Event)
    requires Valid(c) && Messages(c, s) && |t.drones| == |c.addr|
    requires t.events == s.events || t.events == s.events + [e]
    requires !e.TxCallback? && HeardNow(s.events, e)
    requires forall d :: 0 <= d < |c.addr| ==> InTransit(c, s.events, t.drones[d])
    requires Current(s) <= Current(t)
    requires t.phase.Assigning? && Live(c, t.phase.k) ==>
      var d := SenderOf(c, t.phase.k);
      || Current(s) < t.phase.k
      || (t.phase == s.phase
          && (t.drones[d].outbox == [] && t.drones[d].handler == Recv ==>
                s.drones[d].outbox == [] && s.drones[d].handler == Recv))
    ensures Messages(c, t)
  {
    hide Bodies, InTransit, Heard, HeardNow, Live;
    HeardAppend(s.events, e);
    forall d | 0 <= d < |c.addr| ensures InTransit(c, t.events, t.drones[d]) {
      TransitStays(c, s.events, e, t.drones[d]);
    }
    forall k: nat ensures Bodies(t.events, k) == Bodies(s.events, k) {
      BodiesAppend(s.events, e, k);
    }
  }

  lemma LogKeepsMessages(c: Config, s: State)
    requires Valid(c) && Inv(c, s) && Messages(c, s) && Enabled(c, s, LogAct)
    ensures Messages(c, LogStep(c, s))
  {
    hide Past, Messages, Bodies;
    var t := LogStep(c, s);
    LogTransit(c, s);
    LogAdvances(c, s);
    var e := match s.log
      case Sending(k, j) => if j < |c.addr| then Assigned(k, Assignment(c, k, j).address) else Exit
      case _ => Exit;
    Silent(c, s, t, e);
  }

  lemma LogTransit(c: Config, s: State)
    requires Valid(c) && Messages(c, s) && Enabled(c, s, LogAct)
    ensures var t := LogStep(c, s);
      |t.drones| == |c.addr| && forall d :: 0 <= d < |c.addr| ==> InTransit(c, s.events, t.drones[d])
  {
    hide Bodies, Heard, Unsaid, Live;
  }

  lemma LogAdvances(c: Config, s: State)
    requires Valid(c) && Main(c, s) && LogOk(c, s) && Enabled(c, s, LogAct)
    ensures var t := LogStep(c, s);
      && Current(s) <= Current(t)
      && (t.phase.Assigning? ==>
            || Current(s) < t.phase.k
            || (t.phase == s.phase && forall d :: 0 <= d < |c.addr| ==>
                  t.drones[d].outbox == s.drones[d].outbox && t.drones[d].handler == s.drones[d].handler))
  {
    hide Live, AssignDrones, CastDrones, Replies;
  }

  lemma HandlerKeepsMessages(c: Config, s: State, d: nat)
    requires Valid(c) && Inv(c, s) && Messages(c, s) && Enabled(c, s, HandlerAct(d))
    ensures Messages(c, HandlerStep(c, s, d))
  {
    hide Past, LogOk, Messages, Bodies, InTransit;
    var t := HandlerStep(c, s, d);
    HandlerTransit(c, s, d);
    HandlerStays(c, s, d);
    var e := match s.drones[d].handler
      case Counting(w, k) => Counted(w, k, d)
      case Casting(b, k, j) => Cast(k, j)
      case _ => Exit;
    Silent(c, s, t, e);
  }

  lemma HandlerStays(c: Config, s: State, d: nat)
    requires Valid(c) && Main(c, s) && Enabled(c, s, HandlerAct(d))
    ensures var t := HandlerStep(c, s, d);
      && Current(s) == Current(t) && |t.drones| == |c.addr|
      && (t.phase.Assigning? && Live(c, t.phase.k) ==>
            var x := SenderOf(c, t.phase.k);
            && t.phase == s.phase
            && (t.drones[x].outbox == [] && t.drones[x].handler == Recv ==>
                  s.drones[x].outbox == [] && s.drones[x].handler == Recv))
  {
    match s.phase
    case Idle => assert false;
    case Assigning(k) => StaysAssigning(c, s, d, k);
    case Ranged(k) => StaysRanged(c, s, d, k);
  }

  lemma StaysAssigning(c: Config, s: State, d: nat, k: nat)
    requires Valid(c) && Main(c, s) && Enabled(c, s, HandlerAct(d)) && s.phase == Assigning(k)
    ensures var t := HandlerStep(c, s, d);
      && Current(t) == k && |t.drones| == |c.addr| && Live(c, k)
      && (t.phase.Assigning? ==>
            var x := SenderOf(c, k);
            && t.phase == s.phase
            && (t.drones[x].outbox == [] && t.drones[x].handler == Recv ==>
                  s.drones[x].outbox == [] && s.drones[x].handler == Recv))
  {
    assert AssignDrone(c, k, d, SentOf(s.log, k, |c.addr|), s.drones[d], d in s.counted);
    OnlySender(c, k, d);
    hide Main, Live, Echo, Answering, SenderOf;
  }

  lemma StaysRanged(c: Config, s: State, d: nat, k: nat)
    requires Valid(c) && Main(c, s) && Enabled(c, s, HandlerAct(d)) && s.phase == Ranged(k)
    ensures HandlerStep(c, s, d).phase == s.phase && |HandlerStep(c, s, d).drones| == |c.addr|
  {
    assert CastDrone(c, k, d, CastsOf(s.drones[SenderOf(c, k)].handler, |c.addr|), s.drones[d], d in s.counted);
    OnlySender(c, k, d);
    hide Main, Live, Echo;
  }

  lemma HandlerTransit(c: Config, s: State, d: nat)
    requires Valid(c) && Main(c, s) && Messages(c, s) && Enabled(c, s, HandlerAct(d))
    ensures var t := HandlerStep(c, s, d);
      |t.drones| == |c.addr| && forall x :: 0 <= x < |c.addr| ==> InTransit(c, s.events, t.drones[x])
  {
    hide Bodies, Heard, Unsaid, Live, Main;
    var dr := s.drones[d];
    assert InTransit(c, s.events, dr);
    match dr.handler
    case Casting(b, k, j) =>
      MessageIsSenders(c, s, d);
      PushTransit(c, s, d);
    case Recv =>
      assert Offered(s.events, dr.outbox[0]);
    case _ =>
  }

  lemma MessageIsSenders(c: Config, s: State, d: nat)
    requires Valid(c) && Main(c, s) && d < |c.addr| && s.drones[d].handler.Casting?
    ensures var k := s.drones[d].handler.line; Live(c, k) && RowAt(c, k).txAddr == c.addr[d]
  {
    match s.phase
    case Idle => assert false;
    case Assigning(k) =>
      assert AssignDrone(c, k, d, SentOf(s.log, k, |c.addr|), s.drones[d], d in s.counted);
    case Ranged(k) =>
      assert CastDrone(c, k, d, CastsOf(s.drones[SenderOf(c, k)].handler, |c.addr|), s.drones[d], d in s.counted);
      OnlySender(c, k, d);
  }

  lemma PushTransit(c: Config, s: State, d: nat)
    requires Valid(c) && Messages(c, s) && Enabled(c, s, HandlerAct(d)) && s.drones[d].handler.Casting?
    requires Live(c, s.drones[d].handler.line) && RowAt(c, s.drones[d].handler.line).txAddr == c.addr[d]
    ensures var t := HandlerStep(c, s, d);
      |t.drones| == |c.addr| && forall x :: 0 <= x < |c.addr| ==> InTransit(c, s.events, t.drones[x])
  {
    hide Bodies, Heard, Unsaid, Live;
    var h := s.drones[d].handler;
    assert InTransit(c, s.events, s.drones[d]);
    assert Carried(c, s.events, Ranging(c.addr[d], h.body, h.line));
  }

  lemma DroneKeepsMessages(c: Config, s: State, d: nat, ch: Choice)
    requires Valid(c) && Inv(c, s) && Messages(c, s) && Enabled(c, s, DroneAct(d, ch))
    ensures Messages(c, DroneStep(c, s, d, ch))
  {
    hide Past, LogOk, Messages, Bodies, InTransit, Receive;
    match s.phase
    case Idle => assert false;
    case Assigning(k) =>
      OnlySender(c, k, d);
      ReceiveWhileAssigning(c, k, d, SentOf(s.log, k, |c.addr|), s.drones[d], d in s.counted, ch);
      if IsSender(c, k, d) && s.drones[d].inbox[0].Assign? {
        Generates(c, s, d, ch);
      } else {
        Receives(c, s, d, ch, Exit);
      }
    case Ranged(k) =>
      ReceiveWhileRanged(c, k, d, CastsOf(s.drones[SenderOf(c, k)].handler, |c.addr|), s.drones[d], d in s.counted, ch);
      var e := if IsSender(c, k, d) then Exit else RxCallback(k, d, RxTime(c, k, d), s.drones[d].inbox[0].body);
      LineIs(c, s, d);
      Receives(c, s, d, ch, e);
  }

  /** A receiver's message is of the current row, and as it was generated. */
  lemma LineIs(c: Config, s: State, d: nat)
    requires Valid(c) && Main(c, s) && Messages(c, s) && s.phase.Ranged? && d < |c.addr| && s.drones[d].inbox != []
    ensures var m := s.drones[d].inbox[0];
      && m.Ranging? && Bodies(s.events, m.line) == [m.body]
      && (Live(c, s.phase.k) && !IsSender(c, s.phase.k, d) ==> m.line == s.phase.k)
  {
    hide Bodies;
    var k := s.phase.k;
    assert CastDrone(c, k, d, CastsOf(s.drones[SenderOf(c, k)].handler, |c.addr|), s.drones[d], d in s.counted);
    assert InTransit(c, s.events, s.drones[d]);
    assert s.drones[d].inbox[0] in s.drones[d].inbox;
  }

  /** A drone takes a message without generating one. */
  lemma Receives(c: Config, s: State, d: nat, ch: Choice, e: Event)
    requires Valid(c) && Main(c, s) && Messages(c, s) && Enabled(c, s, DroneAct(d, ch))
    requires var r := Receive(c, d, s.drones[d].txTime, s.drones[d].rxTime, s.drones[d].inbox[0], ch);
      (r.ran == [] || r.ran == [e]) && !e.TxCallback? && HeardNow(s.events, e)
      && (s.phase.Assigning? && Live(c, s.phase.k) && IsSender(c, s.phase.k, d) ==> s.drones[d].inbox[0].Ranging?)
    ensures Messages(c, DroneStep(c, s, d, ch))
  {
    hide Main, Receive, Bodies, InTransit, Heard, HeardNow, Live;
    var t := DroneStep(c, s, d, ch);
    ReceiveTransit(c, s.events, s.drones[d], d, ch);
    assert forall x :: 0 <= x < |c.addr| && x != d ==> t.drones[x] == s.drones[x];
    assert s.events + [] == s.events;
    if s.phase.Assigning? {
      SenderUnmoved(c, s, d, ch);
    }
    Silent(c, s, t, e);
  }

  lemma SenderUnmoved(c: Config, s: State, d: nat, ch: Choice)
    requires Valid(c) && Main(c, s) && Enabled(c, s, DroneAct(d, ch)) && s.phase.Assigning?
    ensures Live(c, s.phase.k) && |s.drones| == |c.addr|
    ensures var (x, t) := (SenderOf(c, s.phase.k), DroneStep(c, s, d, ch));
      t.drones[x].outbox == [] && t.drones[x].handler == Recv ==>
        s.drones[x].outbox == [] && s.drones[x].handler == Recv
  {
  }

  lemma ReceiveTransit(c: Config, events: seq<Event>, dr: Drone, d: nat, ch: Choice)
    requires Valid(c) && d < |c.addr| && InTransit(c, events, dr) && dr.inbox != []
    requires var ran := Receive(c, d, dr.txTime, dr.rxTime, dr.inbox[0], ch).ran; ran == [] || !ran[0].TxCallback?
    ensures InTransit(c, events, AfterReceive(dr, Receive(c, d, dr.txTime, dr.rxTime, dr.inbox[0], ch)))
  {
    hide Bodies, Live;
  }

  /** With nothing generated for row k, a message generated for it disturbs none. */
  lemma OthersTransit(c: Config, events: seq<Event>, e: Event, dr: Drone)
    requires Valid(c) && InTransit(c, events, dr) && e.TxCallback? && Bodies(events, e.line) == []
    ensures InTransit(c, events + [e], dr)
  {
    hide Bodies, Live;
    forall k: nat ensures Bodies(events + [e], k) == Bodies(events, k) + if e.line == k then [e.body] else [] {
      BodiesAppend(events, e, k);
    }
  }

  /** The sender takes its assignment and generates its message. */
  lemma Generates(c: Config, s: State, d: nat, ch: Choice)
    requires Valid(c) && Main(c, s) && Messages(c, s) && Enabled(c, s, DroneAct(d, ch)) && s.phase.Assigning?
    requires Live(c, s.phase.k) && IsSender(c, s.phase.k, d) && s.drones[d].inbox[0].Assign?
    requires Receive(c, d, s.drones[d].txTime, s.drones[d].rxTime, s.drones[d].inbox[0], ch).ran
          == [TxCallback(s.phase.k, d, RowAt(c, s.phase.k).txTime, ch.body)]
    ensures Messages(c, DroneStep(c, s, d, ch))
  {
    var k := s.phase.k;
    var e := TxCallback(k, d, RowAt(c, k).txTime, ch.body);
    var t := DroneStep(c, s, d, ch);
    SenderWaits(c, s, d);
    SentNow(c, s.events, e, s.drones[d], d, ch);
    assert t.events == s.events + [e];
    hide Bodies, InTransit, Heard, Receive, Main;
    HeardAppend(s.events, e);
    forall x | 0 <= x < |c.addr| ensures InTransit(c, t.events, t.drones[x]) {
      if x != d {
        assert InTransit(c, s.events, s.drones[x]);
        OthersTransit(c, s.events, e, s.drones[x]);
      }
    }
    forall j: nat ensures Bodies(t.events, j) == Bodies(s.events, j) + if j == k then [ch.body] else [] {
      BodiesAppend(s.events, e, j);
    }
  }

  lemma SenderWaits(c: Config, s: State, d: nat)
    requires Valid(c) && Main(c, s) && Messages(c, s) && s.phase.Assigning? && d < |c.addr|
    requires Live(c, s.phase.k) && IsSender(c, s.phase.k, d) && s.drones[d].inbox != [] && s.drones[d].inbox[0].Assign?
    ensures d == SenderOf(c, s.phase.k) && s.drones[d].outbox == [] && s.drones[d].handler == Recv
    ensures s.drones[d].inbox == [Assignment(c, s.phase.k, 0)] && Bodies(s.events, s.phase.k) == []
  {
    hide Bodies, InTransit, Heard;
    var k := s.phase.k;
    OnlySender(c, k, d);
    assert AssignDrone(c, k, d, SentOf(s.log, k, |c.addr|), s.drones[d], d in s.counted);
  }

  lemma SentNow(c: Config, events: seq<Event>, e: Event, dr: Drone, d: nat, ch: Choice)
    requires Valid(c) && d < |c.addr| && InTransit(c, events, dr) && e.TxCallback? && Bodies(events, e.line) == []
    requires |dr.inbox| == 1 && dr.inbox[0].Assign? && dr.inbox[0].line == e.line
    requires dr.outbox == [] && dr.handler == Recv
    requires Receive(c, d, dr.txTime, dr.rxTime, dr.inbox[0], ch).ran == [e]
    ensures var after := AfterReceive(dr, Receive(c, d, dr.txTime, dr.rxTime, dr.inbox[0], ch));
      InTransit(c, events + [e], after) && after.outbox != []
  {
    hide Bodies, Live;
    BodiesAppend(events, e, e.line);
  }

  lemma NextKeepsMessages(c: Config, s: State, a: Action)
    requires Valid(c) && Inv(c, s) && Messages(c, s) && Enabled(c, s, a)
    ensures Messages(c, Next(c, s, a))
  {
    hide Inv, Messages;
    match a
    case LogAct => LogKeepsMessages(c, s);
    case HandlerAct(d) => HandlerKeepsMessages(c, s, d);
    case DroneAct(d, ch) => DroneKeepsMessages(c, s, d, ch);
  }

  lemma InitMessages(c: Config, s: State)
    requires Valid(c) && Init(c, s)
    ensures Messages(c, s)
  {
  }

  /** In every state of every run. */
  lemma {:induction false} RunKeepsMessages(c: Config, run: seq<State>, acts: seq<Action>, n: nat)
    requires Valid(c) && IsRun(c, run, acts) && n < |run|
    ensures Messages(c, run[n])
  {
    hide Messages;
    if n == 0 {
      InitMessages(c, run[0]);
    } else {
      RunKeepsInv(c, run, acts, n - 1);
      RunKeepsMessages(c, run, acts, n - 1);
      NextKeepsMessages(c, run[n - 1], acts[n - 1]);
    }
  }

  // ------------------------------------------------------------- the results

  /** Position q holds the one TxCallBack for row k. */
  ghost predicate OnlyGenerated(events: seq<Event>, k: nat, q: nat) {
    && q < |events| && IsGenerated(events[q], k)
    && forall i :: 0 <= i < |events| && IsGenerated(events[i], k) ==> i == q
  }

  predicate IsGenerated(e: Event, k: nat) {
    e.TxCallback? && e.line == k
  }

  lemma {:induction false} NoneGenerated(events: seq<Event>, k: nat)
    requires Bodies(events, k) == []
    ensures forall i :: 0 <= i < |events| ==> !IsGenerated(events[i], k)
  {
    if events != [] {
      NoneGenerated(events[..|events| - 1], k);
      forall i | 0 <= i < |events| ensures !IsGenerated(events[i], k) {
        assert i < |events| - 1 ==> events[..|events| - 1][i] == events[i];
      }
    }
  }

  lemma {:induction false} GeneratedAt(events: seq<Event>, k: nat) returns (q: nat)
    requires |Bodies(events, k)| == 1
    ensures OnlyGenerated(events, k, q) && events[q].body == Bodies(events, k)[0]
  {
    var n := |events| - 1;
    if IsGenerated(events[n], k) {
      q := n;
      NoneGenerated(events[..n], k);
      assert forall i :: 0 <= i < n ==> events[..n][i] == events[i];
    } else {
      q := GeneratedAt(events[..n], k);
      assert forall i :: 0 <= i < n ==> events[..n][i] == events[i];
    }
  }

  /** Every RxCallBack for row k processes the message that the sender of row k
      generated before, in its one TxCallBack for that row. */
  lemma ProcessedAsGenerated(c: Config, run: seq<State>, acts: seq<Action>, n: nat, p: nat) returns (q: nat)
    requires Valid(c) && IsRun(c, run, acts) && n < |run| && p < |run[n].events|
    ensures var e := run[n].events[p];
      e.RxCallback? ==>
        && Live(c, e.line) && OnlyGenerated(run[n].events[..p], e.line, q)
        && run[n].events[q] == TxCallback(e.line, SenderOf(c, e.line), RowAt(c, e.line).txTime, e.body)
  {
    hide Bodies, Inv, Live, IsRun;
    q := 0;
    var e := run[n].events[p];
    if e.RxCallback? {
      RunKeepsMessages(c, run, acts, n);
      assert HeardNow(run[n].events[..p], e);
      q := GeneratedAt(run[n].events[..p], e.line);
      TimesMatch(c, run, acts, n, p);
      TimesMatch(c, run, acts, n, q);
      OnlySender(c, e.line, run[n].events[q].d);
    }
  }

  lemma {:induction false} EventsGrow(c: Config, run: seq<State>, acts: seq<Action>, n: nat, m: nat)
    requires Valid(c) && IsRun(c, run, acts) && n <= m < |run|
    ensures run[n].events <= run[m].events
    decreases m
  {
    if n < m {
      EventsGrow(c, run, acts, n, m - 1);
      StepGrows(c, run[m - 1], acts[m - 1]);
    }
  }

  lemma StepGrows(c: Config, s: State, a: Action)
    requires Valid(c) && Enabled(c, s, a)
    ensures s.events <= Next(c, s, a).events
  {
    hide Receive, Live;
  }

  lemma {:induction false} GeneratedIsListed(events: seq<Event>, i: nat)
    requires i < |events| && events[i].TxCallback?
    ensures events[i].body in Bodies(events, events[i].line)
  {
    if i < |events| - 1 {
      GeneratedIsListed(events[..|events| - 1], i);
    }
  }

  /** The choice that the sender's library makes when it is assigned row k is what every
      ranging message of row k says from then on, on its way or processed. */
  lemma ChoiceArrives(c: Config, run: seq<State>, acts: seq<Action>, n: nat, m: nat, k: nat, d: nat, ch: Choice)
    requires Valid(c) && IsRun(c, run, acts) && n < m < |run| && Live(c, k)
    requires acts[n] == DroneAct(d, ch) && d < |c.addr| && |run[n].drones| == |c.addr| && IsSender(c, k, d)
    requires run[n].drones[d].inbox[0] == Assignment(c, k, 0)
    ensures forall x, i :: 0 <= x < |run[m].drones| && 0 <= i < |run[m].drones[x].inbox| ==>
      var msg := run[m].drones[x].inbox[i];
      msg.Ranging? && msg.line == k ==> msg == Ranging(c.addr[d], ch.body, k)
    ensures forall p :: 0 <= p < |run[m].events| ==>
      var e := run[m].events[p];
      e.RxCallback? && e.line == k ==> e.body == ch.body
  {
    hide Bodies, Inv, Live;
    var e := TxCallback(k, d, RowAt(c, k).txTime, ch.body);
    assert run[n + 1] == Next(c, run[n], acts[n]);
    assert run[n + 1].events == run[n].events + [e];
    var q := |run[n].events|;
    EventsGrow(c, run, acts, n + 1, m);
    assert run[m].events[q] == e;
    GeneratedIsListed(run[m].events, q);
    RunKeepsMessages(c, run, acts, m);
    forall x, i | 0 <= x < |run[m].drones| && 0 <= i < |run[m].drones[x].inbox|
      ensures var msg := run[m].drones[x].inbox[i];
        msg.Ranging? && msg.line == k ==> msg == Ranging(c.addr[d], ch.body, k)
    {
      assert InTransit(c, run[m].events, run[m].drones[x]);
      assert Carried(c, run[m].events, run[m].drones[x].inbox[i]);
    }
    forall p | 0 <= p < |run[m].events| && run[m].events[p].RxCallback? && run[m].events[p].line == k
      ensures run[m].events[p].body == ch.body
    {
      assert HeardNow(run[m].events[..p], run[m].events[p]);
      var at := GeneratedAt(run[m].events[..p], k);
      OnlyOne(c, run, acts, m, k, at, q);
    }
  }

  /** No row has two ranging messages. */
  lemma OnlyOne(c: Config, run: seq<State>, acts: seq<Action>, n: nat, k: nat, p: nat, q: nat)
    requires Valid(c) && IsRun(c, run, acts) && n < |run| && p < |run[n].events| && q < |run[n].events|
    requires IsGenerated(run[n].events[p], k) && IsGenerated(run[n].events[q], k)
    ensures p == q
  {
    hide Bodies, InTransit, Heard, Live;
    RunKeepsMessages(c, run, acts, n);
    GeneratedIsListed(run[n].events, p);
    var at := GeneratedAt(run[n].events, k);
  }
}
