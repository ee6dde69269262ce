/**
  The main loop of script/data_process.py (lines 50-150) over its numpy arrays,
  written and cleared in place.  DelayLineRing relates the arrays to the log.
*/
module DelayLine {
  import opened Common
  import opened DelayLineSpec
  import opened DelayLineRing
  import opened DelayLineJoin

  /** A line of the output file. */
  datatype OutRow = OutRow(row: Row, rx: seq<(nat, nat)>)

  /** The addresses other than src, in order. */
  function Without(addrs: seq<nat>, src: nat): seq<nat> {
    if addrs == [] then []
    else Without(addrs[..|addrs| - 1], src) + if addrs[|addrs| - 1] == src then [] else [addrs[|addrs| - 1]]
  }

  lemma {:induction false} WithoutCount(addrs: seq<nat>, src: nat)
    requires Distinct(addrs)
    ensures |Without(addrs, src)| == |addrs| - if src in addrs then 1 else 0
  {
    if addrs != [] {
      WithoutCount(addrs[..|addrs| - 1], src);
      assert addrs == addrs[..|addrs| - 1] + [addrs[|addrs| - 1]];
    }
  }

  lemma {:induction false} WithoutPrefix(addrs: seq<nat>, src: nat, n: nat)
    requires n <= |addrs|
    ensures Without(addrs[..n], src) <= Without(addrs, src)
    decreases |addrs|
  {
    if n < |addrs| {
      WithoutPrefix(addrs[..|addrs| - 1], src, n);
      assert addrs[..|addrs| - 1][..n] == addrs[..n];
    } else {
      assert addrs[..n] == addrs;
    }
  }

  lemma WithoutNext(addrs: seq<nat>, src: nat, n: nat)
    requires Distinct(addrs) && n < |addrs|
    ensures Without(addrs[..n + 1], src) == Without(addrs[..n], src) + if addrs[n] == src then [] else [addrs[n]]
    ensures src in addrs[..n + 1] <==> src in addrs[..n] || addrs[n] == src
    ensures addrs[n] == src ==> src !in addrs[..n]
  {
    var (s, t) := (addrs[..n + 1], addrs[..n]);
    assert s[..n] == t && s == t + [addrs[n]];
    if src in t {
      var k :| 0 <= k < n && t[k] == src;
      assert addrs[k] != addrs[n];
    }
  }

  /** The time of the last of the first n reports of message `number` of drone `addr`. */
  function LastHeard(rx: seq<Reception>, n: nat, addr: nat, number: nat, default: nat): nat
    requires n <= |rx|
  {
    if n == 0 then default
    else if rx[n - 1].addr == addr && rx[n - 1].number == number then rx[n - 1].time
    else LastHeard(rx, n - 1, addr, number, default)
  }

  ghost predicate HearsOf(r: Reception, addr: nat, number: nat) {
    r.addr == addr && r.number == number
  }

  /** It is that of the last report for that drone and number, at k; without one
      nothing changes. */
  lemma {:induction false} LastHeardIs(rx: seq<Reception>, n: nat, addr: nat, number: nat, default: nat)
      returns (k: int)
    requires n <= |rx|
    ensures -1 <= k < n && forall i :: k < i < n ==> !HearsOf(rx[i], addr, number)
    ensures k >= 0 ==> HearsOf(rx[k], addr, number)
    ensures LastHeard(rx, n, addr, number, default) == if k >= 0 then rx[k].time else default
  {
    k := n - 1;
    if n > 0 && !HearsOf(rx[n - 1], addr, number) {
      k := LastHeardIs(rx, n - 1, addr, number, default);
    }
  }

  function Cores(rows: seq<OutRow>): (r: seq<Row>)
    ensures |r| == |rows|
  {
    seq(|rows|, i requires 0 <= i < |rows| => rows[i].row)
  }

  class LogJoiner {
    const D: nat
    const addrs: seq<nat>
    const systemTime: array<nat>
    const srcAddr: array<nat>
    const msgSeq: array<nat>
    const filterId: array<nat>
    const txTime: array<nat>
    const rxAddr: array2<nat>
    const rxTime: array2<nat>
    var bufferPos: nat
    var outFile: seq<OutRow>

    /** The arrays, five slots a drone; the addresses that get_drones_addr found. */
    ghost predicate Shape() {
      && 0 < D <= |addrs| && Distinct(addrs)
      && systemTime.Length == srcAddr.Length == msgSeq.Length == filterId.Length == txTime.Length == 5 * D
      && rxAddr.Length0 == rxTime.Length0 == 5 * D && rxAddr.Length1 == rxTime.Length1 == D - 1
      && systemTime != srcAddr && systemTime != msgSeq && systemTime != filterId && systemTime != txTime
      && srcAddr != msgSeq && srcAddr != filterId && srcAddr != txTime
      && msgSeq != filterId && msgSeq != txTime && filterId != txTime && rxAddr != rxTime
    }

    ghost predicate Valid()
      reads this`bufferPos
    {
      Shape() && bufferPos < 5 * D
    }

    ghost function SlotAt(x: nat): Slot
      requires Shape() && x < 5 * D
      reads systemTime, srcAddr, msgSeq, filterId, txTime
    {
      Slot(systemTime[x], srcAddr[x], msgSeq[x], filterId[x], txTime[x])
    }

    ghost predicate Shows(slots: seq<Slot>)
      requires Shape()
      reads systemTime, srcAddr, msgSeq, filterId, txTime
    {
      |slots| == 5 * D && forall x :: 0 <= x < 5 * D ==> slots[x] == SlotAt(x)
    }

    /** The reception columns of an occupied slot name the other drones. */
    ghost predicate Addressed()
      requires Shape()
      reads systemTime, srcAddr, msgSeq, filterId, txTime, rxAddr
    {
      forall x :: 0 <= x < 5 * D ==> SlotAt(x) == EMPTY || AddressedAt(x, srcAddr[x])
    }

    ghost predicate AddressedAt(x: nat, src: nat)
      requires Shape() && x < 5 * D
      reads rxAddr
    {
      && D - 1 <= |Without(addrs, src)|
      && forall j :: 0 <= j < D - 1 ==> rxAddr[x, j] == Without(addrs, src)[j]
    }

    /** The reception columns of a row name the other drones. */
    ghost predicate NamesOthers(r: OutRow)
      requires 0 < D
    {
      && |r.rx| == D - 1 <= |Without(addrs, r.row.src)|
      && forall j :: 0 <= j < D - 1 ==> r.rx[j].0 == Without(addrs, r.row.src)[j]
    }

    /** The reception columns name the other drones, in the ring and in the output. */
    ghost predicate Named()
      requires Shape()
      reads this`outFile, systemTime, srcAddr, msgSeq, filterId, txTime, rxAddr
    {
      Addressed() && forall k :: 0 <= k < |outFile| ==> NamesOthers(outFile[k])
    }

    constructor (D: nat, addrs: seq<nat>)
      requires 0 < D <= |addrs| && Distinct(addrs)
      ensures Valid() && this.D == D && this.addrs == addrs && bufferPos == 0 && outFile == []
      ensures forall x :: 0 <= x < 5 * D ==> SlotAt(x) == EMPTY
      ensures fresh(systemTime) && fresh(srcAddr) && fresh(msgSeq) && fresh(filterId) && fresh(txTime)
      ensures fresh(rxAddr) && fresh(rxTime)
    {
      this.D, this.addrs := D, addrs;
      systemTime := new nat[5 * D](x => 0);
      srcAddr := new nat[5 * D](x => 0);
      msgSeq := new nat[5 * D](x => 0);
      filterId := new nat[5 * D](x => 0);
      txTime := new nat[5 * D](x => 0);
      rxAddr := new nat[5 * D, D - 1]((x, j) => 0);
      rxTime := new nat[5 * D, D - 1]((x, j) => 0);
      bufferPos, outFile := 0, [];
    }

    /** Lines 97-102: the addresses of the drones other than the line's source. */
    method FillAddresses(src: nat)
      requires Valid()
      modifies rxAddr
      ensures AddressedAt(bufferPos, src)
      ensures forall x, j :: 0 <= x < 5 * D && x != bufferPos && 0 <= j < D - 1 ==> rxAddr[x, j] == old(rxAddr[x, j])
    {
      var addrPos := 0;
      WithoutCount(addrs, src);
      assert addrs[..0] == [];
      for i := 0 to D - 1
        invariant addrPos <= |addrs| && i == |Without(addrs[..addrPos], src)|
          && addrPos == i + (if src in addrs[..addrPos] then 1 else 0)
        invariant |Without(addrs, src)| >= D - 1
        invariant forall j :: 0 <= j < i ==> rxAddr[bufferPos, j] == Without(addrs, src)[j]
        invariant forall x, j :: 0 <= x < 5 * D && x != bufferPos && 0 <= j < D - 1 ==>
          rxAddr[x, j] == old(rxAddr[x, j])
      {
        NextAddress(src, addrPos, i);
        if addrs[addrPos] == src {
          addrPos := addrPos + 1;
        }
        rxAddr[bufferPos, i] := addrs[addrPos];
        addrPos := addrPos + 1;
      }
    }

    lemma NextAddress(src: nat, n: nat, i: nat)
      requires 0 < D <= |addrs| && Distinct(addrs) && n <= |addrs| && i < D - 1
      requires i == |Without(addrs[..n], src)| && n == i + if src in addrs[..n] then 1 else 0
      ensures n < |addrs| && i < |Without(addrs, src)|
      ensures var m := if addrs[n] == src then n + 1 else n;
        && m < |addrs| && addrs[m] == Without(addrs, src)[i]
        && i + 1 == |Without(addrs[..m + 1], src)| && m + 1 == i + 1 + if src in addrs[..m + 1] then 1 else 0
    {
      hide Without;
      WithoutNext(addrs, src, n);
      if addrs[n] == src {
        WithoutNext(addrs, src, n + 1);
        WithoutPrefix(addrs, src, n + 2);
      } else {
        WithoutPrefix(addrs, src, n + 1);
      }
    }

    /** Lines 92-102: the line into the slot at bufferPos. */
    method StoreLine(l: Line)
      requires Valid()
      modifies systemTime, srcAddr, msgSeq, filterId, rxAddr
      ensures old(Addressed()) ==> Addressed()
      ensures forall x :: 0 <= x < 5 * D ==>
        SlotAt(x) == if x == bufferPos then Fill(old(SlotAt(x)), l) else old(SlotAt(x))
    {
      systemTime[bufferPos] := l.time;
      srcAddr[bufferPos] := l.src;
      msgSeq[bufferPos] := l.number;
      filterId[bufferPos] := l.filter;
      FillAddresses(l.src);
    }

    /** Lines 105-109. */
    method MarkTx(l: Line)
      requires Valid() && srcAddr[bufferPos] == l.src
      modifies txTime
      ensures Harmless(l) && old(Addressed()) ==> Addressed()
      ensures forall x :: 0 <= x < 5 * D ==> SlotAt(x) == Mark(old(SlotAt(x)), l)
    {
      for i := 0 to 5 * D
        invariant forall x :: 0 <= x < i ==> SlotAt(x) == Mark(old(SlotAt(x)), l)
        invariant forall x :: i <= x < 5 * D ==> SlotAt(x) == old(SlotAt(x))
      {
        if srcAddr[i] == srcAddr[bufferPos] && msgSeq[i] == l.txNumber {
          txTime[i] := l.txTime;
        }
      }
    }

    /** Lines 112-121: exactly the columns of the line's sender get the times that it
        reports, each in the slots of the message it is for; the last report counts. */
    method MarkRx(l: Line)
      requires Valid()
      modifies rxTime
      ensures forall x, j :: 0 <= x < 5 * D && 0 <= j < D - 1 ==>
        rxTime[x, j] ==
          if rxAddr[x, j] == srcAddr[bufferPos] then LastHeard(l.rx, |l.rx|, srcAddr[x], msgSeq[x], old(rxTime[x, j]))
          else old(rxTime[x, j])
    {
      for k := 0 to |l.rx|
        invariant forall x, j :: 0 <= x < 5 * D && 0 <= j < D - 1 ==>
          rxTime[x, j] ==
            if rxAddr[x, j] == srcAddr[bufferPos] then LastHeard(l.rx, k, srcAddr[x], msgSeq[x], old(rxTime[x, j]))
            else old(rxTime[x, j])
      {
        MarkHeard(l.rx[k]);
      }
    }

    /** Lines 117-121: one report of a reception. */
    method MarkHeard(r: Reception)
      requires Valid()
      modifies rxTime
      ensures forall x, j :: 0 <= x < 5 * D && 0 <= j < D - 1 ==>
        rxTime[x, j] ==
          if srcAddr[x] == r.addr && msgSeq[x] == r.number && rxAddr[x, j] == srcAddr[bufferPos] then r.time
          else old(rxTime[x, j])
    {
      for i := 0 to 5 * D
        invariant forall x, j :: i <= x < 5 * D && 0 <= j < D - 1 ==> rxTime[x, j] == old(rxTime[x, j])
        invariant forall x, j :: 0 <= x < i && 0 <= j < D - 1 ==>
          rxTime[x, j] ==
            if srcAddr[x] == r.addr && msgSeq[x] == r.number && rxAddr[x, j] == srcAddr[bufferPos] then r.time
            else old(rxTime[x, j])
      {
        if srcAddr[i] == r.addr && msgSeq[i] == r.number {
          MarkColumns(i, r.time);
        }
      }
    }

    method MarkColumns(i: nat, time: nat)
      requires Valid() && i < 5 * D
      modifies rxTime
      ensures forall x, j :: 0 <= x < 5 * D && x != i && 0 <= j < D - 1 ==> rxTime[x, j] == old(rxTime[x, j])
      ensures forall j :: 0 <= j < D - 1 ==>
        rxTime[i, j] == if rxAddr[i, j] == srcAddr[bufferPos] then time else old(rxTime[i, j])
    {
      for j := 0 to D - 1
        invariant forall x, k :: 0 <= x < 5 * D && x != i && 0 <= k < D - 1 ==> rxTime[x, k] == old(rxTime[x, k])
        invariant forall k :: 0 <= k < j ==>
          rxTime[i, k] == if rxAddr[i, k] == srcAddr[bufferPos] then time else old(rxTime[i, k])
        invariant forall k :: j <= k < D - 1 ==> rxTime[i, k] == old(rxTime[i, k])
      {
        if rxAddr[i, j] == srcAddr[bufferPos] {
          rxTime[i, j] := time;
        }
      }
    }

    /** The reception columns of slot p. */
    ghost function Columns(p: nat, n: nat): (rx: seq<(nat, nat)>)
      requires Shape() && p < 5 * D && n <= D - 1
      reads rxAddr, rxTime
      ensures |rx| == n
    {
      if n == 0 then [] else Columns(p, n - 1) + [(rxAddr[p, n - 1], rxTime[p, n - 1])]
    }

    /** Lines 128-148 for one slot. */
    method FlushSlot(p: nat)
      requires Valid() && p < 5 * D
      modifies this`outFile, systemTime, srcAddr, msgSeq, filterId, txTime, rxAddr, rxTime
      ensures old(Named()) ==> Named()
      ensures forall x :: 0 <= x < 5 * D ==> SlotAt(x) == if x == p then PutOut(old(SlotAt(x))) else old(SlotAt(x))
      ensures Cores(outFile) == Cores(old(outFile)) + RowOf(old(SlotAt(p)))
      ensures |outFile| > |old(outFile)| ==> outFile[|old(outFile)|].rx == old(Columns(p, D - 1))
    {
      if txTime[p] == 0 {
        return;
      }
      assert Addressed() ==> AddressedAt(p, srcAddr[p]);
      var rx: seq<(nat, nat)> := [];
      for j := 0 to D - 1
        invariant rx == Columns(p, j) && forall k :: 0 <= k < j ==> rx[k].0 == rxAddr[p, k]
      {
        rx := rx + [(rxAddr[p, j], rxTime[p, j])];
      }
      outFile := outFile + [OutRow(Row(systemTime[p], srcAddr[p], msgSeq[p], filterId[p], txTime[p]), rx)];
      Clear(p);
    }

    /** Lines 141-148. */
    method Clear(p: nat)
      requires Valid() && p < 5 * D
      modifies systemTime, srcAddr, msgSeq, filterId, txTime, rxAddr, rxTime
      ensures old(Addressed()) ==> Addressed()
      ensures forall x :: 0 <= x < 5 * D ==> SlotAt(x) == if x == p then EMPTY else old(SlotAt(x))
    {
      systemTime[p] := 0;
      srcAddr[p] := 0;
      msgSeq[p] := 0;
      filterId[p] := 0;
      txTime[p] := 0;
      ClearReceptions(p);
    }

    method ClearReceptions(p: nat)
      requires Valid() && p < 5 * D
      modifies rxAddr, rxTime
      ensures forall x, j :: 0 <= x < 5 * D && x != p && 0 <= j < D - 1 ==> rxAddr[x, j] == old(rxAddr[x, j])
    {
      for j := 0 to D - 1
        invariant forall x, j :: 0 <= x < 5 * D && x != p && 0 <= j < D - 1 ==> rxAddr[x, j] == old(rxAddr[x, j])
      {
        rxAddr[p, j] := 0;
        rxTime[p, j] := 0;
      }
    }

    /** The i slots from `base` on have been flushed. */
    ghost predicate FlushedTo(slots: seq<Slot>, base: nat, i: nat)
      requires Shape() && |slots| == 5 * D
      reads systemTime, srcAddr, msgSeq, filterId, txTime
    {
      forall x :: 0 <= x < 5 * D ==> SlotAt(x) == if base <= x < base + i then PutOut(slots[x]) else slots[x]
    }

    /** Lines 126-148: one turn of the flush. */
    method FlushNext(p: nat, ghost slots: seq<Slot>, ghost base: nat, ghost i: nat)
      requires Valid() && |slots| == 5 * D && FlushedTo(slots, base, i) && p == base + i < 5 * D
      modifies this`outFile, systemTime, srcAddr, msgSeq, filterId, txTime, rxAddr, rxTime
      ensures FlushedTo(slots, base, i + 1) && (old(Named()) ==> Named())
      ensures Cores(outFile) == Cores(old(outFile)) + RowOf(slots[p])
    {
      hide RowOf, PutOut, Named, Cores;
      assert slots[p] == SlotAt(p);
      FlushSlot(p);
    }

    /** Lines 124-148: the flush at the end of a block. */
    method FlushBlock(ghost slots: seq<Slot>, ghost q: nat)
      requires Valid() && Shows(slots) && q < 5 && (bufferPos + 1) % (5 * D) == q * D
      modifies this`outFile, systemTime, srcAddr, msgSeq, filterId, txTime, rxAddr, rxTime
      ensures Shows(FlushFifth(slots, D, q)) && (old(Named()) ==> Named())
      ensures q * D + D <= |slots| && Cores(outFile) == Cores(old(outFile)) + RowsFrom(slots, q * D, D)
    {
      hide RowOf, PutOut, Named, Cores;
      SlotIndex(q, D - 1, D);
      ghost var base := q * D;
      for i := 0 to D
        invariant FlushedTo(slots, base, i) && (old(Named()) ==> Named())
        invariant Cores(outFile) == Cores(old(outFile)) + RowsFrom(slots, base, i)
      {
        FlushPosition(bufferPos, q, i, D);
        var currentPos := (bufferPos + 1 + i) % (5 * D);
        FlushNext(currentPos, slots, base, i);
      }
    }

    lemma FlushPosition(p: nat, q: nat, i: nat, D: nat)
      requires 0 < D && p < 5 * D && (p + 1) % (5 * D) == q * D && i < D && q < 5
      ensures (p + 1 + i) % (5 * D) == q * D + i < 5 * D
    {
      SlotIndex(q, i, D);
      OnFrom(p, 5 * D, q * D, i);
    }

    lemma OnFrom(p: nat, n: nat, r: nat, i: nat)
      requires p < n && (p + 1) % n == r && r + i < n
      ensures (p + 1 + i) % n == r + i
    {
      if p + 1 < n {
        WrapOnce(p + 1, n);
        WrapOnce(p + 1 + i, n);
      } else {
        WrapOnce(i, n);
      }
    }

    lemma WrapOnce(i: nat, n: nat)
      requires i < n
      ensures (n + i) % n == i == i % n && n % n == 0
    {
      QuotientIs(n + i, 1, i, n);
      QuotientIs(i, 0, i, n);
      QuotientIs(n, 1, 0, n);
    }

    /** Lines 92-121: store the line and its reports. */
    method TakeLine(l: Line, ghost slots: seq<Slot>)
      requires Valid() && Shows(slots)
      modifies systemTime, srcAddr, msgSeq, filterId, txTime, rxAddr, rxTime
      ensures Shows(Store(slots, bufferPos, l)) && (Harmless(l) && old(Named()) ==> Named())
    {
      hide Addressed, NamesOthers, Mark, Harmless;
      StoreLine(l);
      assert SlotAt(bufferPos).src == l.src;
      MarkTx(l);
      MarkRx(l);
    }

    /** Lines 124-150: flush if a block is complete, and move on. */
    method EndLine(ghost m: nat, ghost i: nat, ghost slots: seq<Slot>) returns (ghost after: seq<Slot>)
      requires Valid() && i < D && bufferPos == m % 5 * D + i && Shows(slots)
      modifies this, systemTime, srcAddr, msgSeq, filterId, txTime, rxAddr, rxTime
      ensures Valid() && Shows(after) && (old(Named()) ==> Named())
      ensures i + 1 < D ==>
        bufferPos == m % 5 * D + (i + 1) && after == slots && outFile == old(outFile)
      ensures i + 1 == D ==>
        && bufferPos == (m + 1) % 5 * D
        && Joined(after, Cores(outFile)) == FlushIfSeen(Joined(slots, Cores(old(outFile))), D, (m + 1) % 5)
    {
      hide Named, Cores, FlushFifth, RowsFrom;
      after := slots;
      NextPosition(m, i, D);
      if (bufferPos + 1) % D == 0 && srcAddr[2 * D - 1] != 0 {
        assert slots[2 * D - 1] == SlotAt(2 * D - 1);
        FlushBlock(slots, (m + 1) % 5);
        after := FlushFifth(slots, D, (m + 1) % 5);
      }
      assert slots[2 * D - 1] == old(SlotAt(2 * D - 1));
      bufferPos := (bufferPos + 1) % (5 * D);
    }

    lemma NextPosition(m: nat, i: nat, D: nat)
      requires i < D
      ensures var p := m % 5 * D + i;
        && p < 5 * D && ((p + 1) % D == 0 <==> i + 1 == D)
        && (i + 1 < D ==> (p + 1) % (5 * D) == p + 1)
        && (i + 1 == D ==> (p + 1) % (5 * D) == (m + 1) % 5 * D)
    {
      var q := m % 5;
      SlotIndex(q, i, D);
      Multiple(q, i, D);
      if i + 1 < D {
        SlotIndex(q, i + 1, D);
        WrapOnce(q * D + i + 1, 5 * D);
      } else if q < 4 {
        SlotIndex(q + 1, 0, D);
        assert q * D + i + 1 == (q + 1) * D;
        WrapOnce((q + 1) * D, 5 * D);
      } else {
        assert q * D + i + 1 == 5 * D;
        WrapOnce(0, 5 * D);
      }
    }

    lemma {:induction false} Multiple(q: nat, i: nat, D: nat)
      requires i < D
      ensures (q * D + i + 1) % D == 0 <==> i + 1 == D
    {
      if q == 0 {
        if i + 1 < D { WrapOnce(i + 1, D); } else { WrapOnce(0, D); }
      } else {
        Multiple(q - 1, i, D);
        assert q * D + i + 1 == (q - 1) * D + i + 1 + D;
        ModAdd((q - 1) * D + i + 1, D);
      }
    }

    lemma ModAdd(x: nat, n: nat)
      requires n > 0
      ensures (x + n) % n == x % n
    {
      var q := x / n;
      assert x == q * n + x % n;
      assert x + n == (q + 1) * n + x % n;
      QuotientIs(x + n, q + 1, x % n, n);
    }

    /** The main loop: the output file is JoinedRows of the log, and its reception
        columns name the drones other than the source. */
    method Run(lines: seq<Line>)
      requires Valid() && bufferPos == 0 && outFile == []
      requires forall x :: 0 <= x < 5 * D ==> SlotAt(x) == EMPTY
      modifies this, systemTime, srcAddr, msgSeq, filterId, txTime, rxAddr, rxTime
      ensures Valid() && Cores(outFile) == JoinedRows(lines, D)
      ensures Regular(lines, D) ==>
        var m := BlocksOut(|lines|, D);
        ((m + 4) * D <= |lines| || m == 0) && Cores(outFile) == Output(lines, D, m)
      ensures (forall x :: 0 <= x < |lines| ==> Harmless(lines[x])) ==>
        forall k :: 0 <= k < |outFile| ==> NamesOthers(outFile[k])
    {
      hide Addressed, NamesOthers, Join, Output, Harmless, Regular;
      ghost var m, i := 0, 0;
      ghost var slots := Join(lines, D, 0, 0).slots;
      ghost var harmless := forall x :: 0 <= x < |lines| ==> Harmless(lines[x]);
      Starts(lines);
      var n := 0;
      while n < |lines|
        invariant Valid() && n == m * D + i && i < D && n <= |lines| && bufferPos == m % 5 * D + i
        invariant Shows(slots) && Joined(slots, Cores(outFile)) == Join(lines, D, m, i) && (harmless ==> Named())
        decreases |lines| - n
      {
        slots := ProcessLine(lines[n], lines, m, i, slots);
        n := n + 1;
        if i + 1 < D {
          i := i + 1;
        } else {
          MulOrder(m, m, D);
          m, i := m + 1, 0;
        }
      }
      QuotientIs(|lines|, m, i, D);
      if Regular(lines, D) {
        RegularIsDelayLine(lines, D);
      }
    }

    lemma Starts(lines: seq<Line>)
      requires Valid() && outFile == []
      requires forall x :: 0 <= x < 5 * D ==> SlotAt(x) == EMPTY
      ensures Shows(Join(lines, D, 0, 0).slots)
      ensures Joined(Join(lines, D, 0, 0).slots, Cores(outFile)) == Join(lines, D, 0, 0)
      ensures Named()
    {
    }

    /** One turn of the main loop. */
    method ProcessLine(l: Line, ghost lines: seq<Line>, ghost m: nat, ghost i: nat, ghost slots: seq<Slot>)
        returns (ghost after: seq<Slot>)
      requires Valid() && i < D && m * D + i < |lines| && bufferPos == m % 5 * D + i && l == lines[m * D + i]
      requires Shows(slots) && Joined(slots, Cores(outFile)) == Join(lines, D, m, i)
      modifies this, systemTime, srcAddr, msgSeq, filterId, txTime, rxAddr, rxTime
      ensures Valid() && Shows(after) && (Harmless(l) && old(Named()) ==> Named())
      ensures i + 1 < D ==>
        bufferPos == m % 5 * D + (i + 1) && Joined(after, Cores(outFile)) == Join(lines, D, m, i + 1)
      ensures i + 1 == D ==>
        && (m + 1) * D <= |lines| && bufferPos == (m + 1) % 5 * D
        && Joined(after, Cores(outFile)) == Join(lines, D, m + 1, 0)
    {
      hide Named, Cores, Shows, Store, Harmless, FlushIfSeen;
      ghost var mid := Store(slots, bufferPos, l);
      TakeLine(l, slots);
      after := EndLine(m, i, mid);
      MulOrder(m, m, D);
    }
  }
}
