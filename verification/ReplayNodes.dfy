/**
  The sequential code of the replay protocol in its own form: the drone's two
  timestamp globals and its callbacks (drone.c), and the center's loops and
  critical section (center.c).  Each method is proved equal to the step of the
  protocol model that stands for it.
*/
module ReplayNodes {
  import opened Replay
  import opened ReplayInvariant

  /** One drone process: its timestamp globals and what it has sent. */
  class DroneNode {
    const c: Config
    const d: nat
    var txTime: nat
    var rxTime: nat
    /** Messages sent to the center, oldest first. */
    var sent: seq<Up>

    constructor (c: Config, d: nat)
      ensures this.c == c && this.d == d
      ensures txTime == 0 && rxTime == 0 && sent == []
    {
      this.c, this.d := c, d;
      txTime, rxTime, sent := 0, 0, [];
    }

    method SendToCenter(m: Up)
      modifies this`sent
      ensures sent == old(sent) + [m]
    {
      sent := sent + [m];
    }

    /** TxCallBack (drone.c:140-173). */
    method TxCallBack(line: nat, ch: Choice)
      modifies this
      ensures sent == old(sent) + [RangingUp(ch.body, line)]
      ensures txTime == (if c.modified then 0 else ch.libTx) && rxTime == ch.libRx
    {
      txTime, rxTime := ch.libTx, ch.libRx;
      SendToCenter(RangingUp(ch.body, line));
      if c.modified {
        txTime := 0;
      }
    }

    /** RxCallBack (drone.c:175-238): one reply on every branch. */
    method RxCallBack(line: nat, timestamp: nat, ch: Choice)
      modifies this
      ensures sent == old(sent) + [Reply(ToRanging, line)]
      ensures ch.lost || timestamp == 0 ==> txTime == old(txTime) && rxTime == old(rxTime)
      ensures !(ch.lost || timestamp == 0) ==>
        txTime == ch.libTx && rxTime == if c.modified then 0 else ch.libRx
    {
      if ch.lost || timestamp == 0 {
        SendToCenter(Reply(ToRanging, line));
        return;
      }
      txTime, rxTime := ch.libTx, ch.libRx;
      SendToCenter(Reply(ToRanging, line));
      if c.modified {
        rxTime := 0;
      }
    }

    /** One turn of the loop in receive_from_center (drone.c:244-282). */
    method ReceiveFromCenter(m: Down, ch: Choice) returns (ran: seq<Event>)
      requires d < |c.addr|
      modifies this
      ensures var r := Receive(c, d, old(txTime), old(rxTime), m, ch);
              txTime == r.txTime && rxTime == r.rxTime && sent == old(sent) + r.sent && ran == r.ran
    {
      ran := [];
      match m
      case Assign(address, dir, time, line) =>
        if address == c.addr[d] {
          if dir == TX {
            txTime := time;
            ran := [TxCallback(line, d, txTime, ch.body)];
            TxCallBack(line, ch);
          } else {
            rxTime := time;
            SendToCenter(Reply(ToAssignment, line));
          }
        }
      case Ranging(src, body, line) =>
        if src != c.addr[d] {
          ran := [RxCallback(line, d, rxTime, body)];
          RxCallBack(line, rxTime, ch);
        }
    }
  }

  /** The center's shared state that its threads change between waits. */
  class Center {
    const c: Config
    var responseCount: nat
    var responseSem: nat
    /** sockets[d]: what has been sent to drone d, oldest first. */
    var sockets: array<seq<Down>>

    ghost predicate WellFormed()
      reads this
    {
      Valid(c) && sockets.Length == |c.addr|
    }

    constructor (c: Config)
      requires Valid(c)
      ensures this.c == c && WellFormed() && fresh(sockets)
      ensures responseCount == 0 && responseSem == 1
      ensures forall d :: 0 <= d < sockets.Length ==> sockets[d] == []
    {
      this.c := c;
      responseCount, responseSem := 0, 1;
      sockets := new seq<Down>[|c.addr|](d => []);
    }

    /** The critical section that counts one reply (center.c:193-200). */
    method CountResponse()
      requires WellFormed()
      modifies this`responseCount, this`responseSem
      ensures forall s: State, d: nat ::
        Enabled(c, s, HandlerAct(d)) && s.drones[d].handler.Counting?
        && s.count == old(responseCount) && s.response == old(responseSem) ==>
          HandlerStep(c, s, d).count == responseCount && HandlerStep(c, s, d).response == responseSem
      ensures responseSem - old(responseSem) == (if responseCount == 0 then 1 else 0)
    {
      responseCount := responseCount + 1;
      if responseCount == |c.addr| - 1 {
        responseSem := responseSem + 1;
        responseCount := 0;
      }
    }

    /** broadcast_rangingMessage (center.c:57-63). */
    method BroadcastRangingMessage(m: Down)
      requires WellFormed()
      modifies sockets
      ensures forall d :: 0 <= d < sockets.Length ==> sockets[d] == old(sockets[d]) + [m]
    {
      for i := 0 to sockets.Length
        invariant forall d :: 0 <= d < i ==> sockets[d] == old(sockets[d]) + [m]
        invariant forall d :: i <= d < sockets.Length ==> sockets[d] == old(sockets[d])
      {
        sockets[i] := sockets[i] + [m];
      }
    }

    /** Send to every node whose address matches (center.c:112-125, 136-149). */
    method SendToAddress(m: Down)
      requires WellFormed() && m.Assign?
      modifies sockets
      ensures forall d :: 0 <= d < sockets.Length ==>
        sockets[d] == if c.addr[d] == m.address then old(sockets[d]) + [m] else old(sockets[d])
    {
      for i := 0 to sockets.Length
        invariant forall d :: 0 <= d < i ==>
          sockets[d] == if c.addr[d] == m.address then old(sockets[d]) + [m] else old(sockets[d])
        invariant forall d :: i <= d < sockets.Length ==> sockets[d] == old(sockets[d])
      {
        if c.addr[i] == m.address {
          sockets[i] := sockets[i] + [m];
        }
      }
    }

    /** Message j of a row reaches the drone at place j in it, and no other. */
    method SendAssignment(ghost i: nat, ghost j: nat, m: Down)
      requires WellFormed() && Live(c, i) && j < |c.addr| && m == Assignment(c, i, j)
      modifies sockets
      ensures forall d :: 0 <= d < sockets.Length ==>
        sockets[d] == if Order(c, i, d) == j then old(sockets[d]) + [m] else old(sockets[d])
    {
      hide Order, Live, ValidRow;
      SendToAddress(m);
      forall d | 0 <= d < sockets.Length
        ensures sockets[d] == if Order(c, i, d) == j then old(sockets[d]) + [m] else old(sockets[d])
      {
        OrderIsPlace(c, i, d, j);
      }
    }

    lemma RowMessages(i: nat)
      requires WellFormed() && Live(c, i)
      ensures |RowAt(c, i).rx| + 1 == |c.addr|
      ensures Assignment(c, i, 0) == Assign(RowAt(c, i).txAddr, TX, RowAt(c, i).txTime, i)
      ensures forall j :: 0 <= j < |RowAt(c, i).rx| ==>
        Assignment(c, i, j + 1) == Assign(RowAt(c, i).rx[j].0, RX, RowAt(c, i).rx[j].1, i)
    {
    }

    /** One row's assignments (center.c:102-150): every drone is sent exactly the
        one message the row has for it. */
    method AssignRow(i: nat)
      requires WellFormed() && Live(c, i)
      modifies sockets
      ensures forall d :: 0 <= d < sockets.Length ==>
        sockets[d] == old(sockets[d]) + [Assignment(c, i, Order(c, i, d))]
    {
      RowMessages(i);
      hide Assignment, Order, ValidRow;
      var row := RowAt(c, i);
      SendAssignment(i, 0, Assign(row.txAddr, TX, row.txTime, i));
      for j := 0 to |row.rx|
        invariant forall d :: 0 <= d < sockets.Length ==>
          sockets[d] ==
            if Order(c, i, d) < j + 1 then old(sockets[d]) + [Assignment(c, i, Order(c, i, d))]
            else old(sockets[d])
      {
        SendAssignment(i, j + 1, Assign(row.rx[j].0, RX, row.rx[j].1, i));
      }
    }
  }
}
