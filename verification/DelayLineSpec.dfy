/**
  What script/data_process.py makes of the sniffer's log, in closed form: which
  lines come out of its ring of 5 * D slots, in which order, and with which
  transmission time.  D is the number of drones; a block is D lines.
*/
module DelayLineSpec {
  datatype Reception = Reception(addr: nat, time: nat, number: nat)

  /** A log line: a message, and what its sender reports of earlier ones. */
  datatype Line = Line(time: nat, src: nat, number: nat, filter: nat, txTime: nat, txNumber: nat, rx: seq<Reception>)

  /** The part of an output row that comes before the reception columns. */
  datatype Row = Row(time: nat, src: nat, number: nat, filter: nat, txTime: nat)

  /** Line l reports the transmission time of message x. */
  predicate Reports(l: Line, x: Line) {
    l.src == x.src && l.txNumber == x.number
  }

  /** The last report of message t among lines first..last-1, or `default`. */
  function Report(lines: seq<Line>, t: nat, first: nat, last: nat, default: nat): nat
    requires t < |lines| && last <= |lines|
    decreases last
  {
    if last <= first then default
    else if Reports(lines[last - 1], lines[t]) then lines[last - 1].txTime
    else Report(lines, t, first, last - 1, default)
  }

  /** The transmission time of line j of block k once n lines have been read. */
  function TxAt(lines: seq<Line>, D: nat, k: nat, j: nat, n: nat): nat
    requires j < D && k * D + j < |lines| && n <= |lines|
    decreases k, 1
  {
    Report(lines, k * D + j, k * D + j, n, Inherited(lines, D, k, j))
  }

  /** What the slot's transmission time is when that line moves in.  Its previous
      tenant, five blocks earlier, leaves 0 behind if it was put out; if it was
      passed over it stays, and late reports can still reach it. */
  function Inherited(lines: seq<Line>, D: nat, k: nat, j: nat): nat
    requires j < D && k * D + j < |lines|
    decreases k, 0
  {
    if k < 5 then 0
    else
      TenantBefore(lines, D, k, j);
      if Final(lines, D, k - 5, j) == 0 then Report(lines, (k - 5) * D + j, k * D, k * D + j, 0) else 0
  }

  /** The transmission time with which the line leaves the ring, four blocks later. */
  function Final(lines: seq<Line>, D: nat, k: nat, j: nat): nat
    requires j < D && (k + 5) * D <= |lines|
    decreases k, 2
  {
    IndexBounds(lines, D, k, j);
    TxAt(lines, D, k, j, (k + 5) * D)
  }

  lemma TenantBefore(lines: seq<Line>, D: nat, k: nat, j: nat)
    requires j < D && k * D + j < |lines| && 5 <= k
    ensures (k - 5 + 5) * D == k * D <= |lines| && (k - 5) * D + j < |lines|
  {
    assert k * D == (k - 5) * D + 5 * D;
  }

  lemma IndexBounds(lines: seq<Line>, D: nat, k: nat, j: nat)
    requires j < D && (k + 5) * D <= |lines|
    ensures k * D + j < k * D + D <= (k + 5) * D && k * D + j < |lines|
  {
    assert (k + 5) * D == k * D + 5 * D;
  }

  /** What comes out of the first n lines of block k. */
  function BlockRows(lines: seq<Line>, D: nat, k: nat, n: nat): seq<Row>
    requires n <= D && (k + 5) * D <= |lines|
  {
    if n == 0 then []
    else
      var tx := Final(lines, D, k, n - 1);
      IndexBounds(lines, D, k, n - 1);
      var l := lines[k * D + n - 1];
      BlockRows(lines, D, k, n - 1) + if tx == 0 then [] else [Row(l.time, l.src, l.number, l.filter, tx)]
  }

  /** What comes out of the first m blocks. */
  function Output(lines: seq<Line>, D: nat, m: nat): seq<Row>
    requires (m + 4) * D <= |lines| || m == 0
    decreases m
  {
    if m == 0 then []
    else
      BlocksBefore(lines, D, m);
      Output(lines, D, m - 1) + BlockRows(lines, D, m - 1, D)
  }

  lemma BlocksBefore(lines: seq<Line>, D: nat, m: nat)
    requires (m + 4) * D <= |lines| && m > 0
    ensures (m - 1 + 5) * D <= |lines| && (m - 1 + 4) * D <= |lines|
  {
    assert (m + 4) * D == (m - 1 + 4) * D + D;
  }

  /** How many blocks a log of n lines puts out: all whole ones but the last four. */
  function BlocksOut(n: nat, D: nat): nat
    requires D > 0
  {
    if n / D < 4 then 0 else n / D - 4
  }

  // -------------------------------------------------- order and multiplicity

  /** The lines that come out of the first n lines of block k. */
  function BlockLines(lines: seq<Line>, D: nat, k: nat, n: nat): seq<nat>
    requires n <= D && (k + 5) * D <= |lines|
  {
    if n == 0 then []
    else BlockLines(lines, D, k, n - 1) + if Final(lines, D, k, n - 1) == 0 then [] else [k * D + n - 1]
  }

  function OutputLines(lines: seq<Line>, D: nat, m: nat): seq<nat>
    requires (m + 4) * D <= |lines| || m == 0
    decreases m
  {
    if m == 0 then []
    else
      BlocksBefore(lines, D, m);
      OutputLines(lines, D, m - 1) + BlockLines(lines, D, m - 1, D)
  }

  ghost predicate Increasing(s: seq<nat>, lo: nat, hi: nat) {
    && (forall i :: 0 <= i < |s| ==> lo <= s[i] < hi)
    && (forall i, j :: 0 <= i < j < |s| ==> s[i] < s[j])
  }

  /** Rows r are those of the lines s. */
  ghost predicate RowsOf(lines: seq<Line>, s: seq<nat>, r: seq<Row>) {
    && |r| == |s|
    && forall i :: 0 <= i < |s| ==>
         && s[i] < |lines| && r[i].time == lines[s[i]].time && r[i].src == lines[s[i]].src
         && r[i].number == lines[s[i]].number && r[i].filter == lines[s[i]].filter && r[i].txTime != 0
  }

  lemma NothingInOrder(lines: seq<Line>, lo: nat)
    ensures Increasing([], lo, lo) && RowsOf(lines, [], [])
  {
  }

  lemma OneMoreInOrder(lines: seq<Line>, s: seq<nat>, r: seq<Row>, lo: nat, t: nat, tx: nat)
    requires Increasing(s, lo, t) && RowsOf(lines, s, r) && lo <= t < |lines|
    ensures Increasing(s, lo, t + 1)
    ensures var l := lines[t];
      tx != 0 ==>
        && Increasing(s + [t], lo, t + 1)
        && RowsOf(lines, s + [t], r + [Row(l.time, l.src, l.number, l.filter, tx)])
  {
  }

  lemma BothInOrder(lines: seq<Line>, s: seq<nat>, r: seq<Row>, t: seq<nat>, q: seq<Row>, lo: nat, mid: nat, hi: nat)
    requires Increasing(s, lo, mid) && RowsOf(lines, s, r) && Increasing(t, mid, hi) && RowsOf(lines, t, q)
    requires lo <= mid <= hi
    ensures Increasing(s + t, lo, hi) && RowsOf(lines, s + t, r + q)
  {
  }

  lemma {:induction false} BlockInOrder(lines: seq<Line>, D: nat, k: nat, n: nat)
    requires n <= D && (k + 5) * D <= |lines|
    ensures Increasing(BlockLines(lines, D, k, n), k * D, k * D + n)
    ensures RowsOf(lines, BlockLines(lines, D, k, n), BlockRows(lines, D, k, n))
  {
    hide Final, Increasing, RowsOf, Report, Inherited, TxAt;
    if n == 0 {
      NothingInOrder(lines, k * D);
    } else {
      IndexBounds(lines, D, k, n - 1);
      BlockInOrder(lines, D, k, n - 1);
      var t := k * D + n - 1;
      var (s, r) := (BlockLines(lines, D, k, n - 1), BlockRows(lines, D, k, n - 1));
      OneMoreInOrder(lines, s, r, k * D, t, Final(lines, D, k, n - 1));
      assert s + [] == s && r + [] == r;
    }
  }

  /** The output rows are those of some of the input lines, in input order, each
      line at most once, none of the last four whole blocks or after. */
  lemma {:induction false} OutputInOrder(lines: seq<Line>, D: nat, m: nat)
    requires (m + 4) * D <= |lines| || m == 0
    ensures Increasing(OutputLines(lines, D, m), 0, m * D)
    ensures RowsOf(lines, OutputLines(lines, D, m), Output(lines, D, m))
    decreases m
  {
    hide BlockLines, BlockRows, Increasing, RowsOf;
    if m == 0 {
      NothingInOrder(lines, 0);
    } else {
      BlocksBefore(lines, D, m);
      OutputInOrder(lines, D, m - 1);
      BlockInOrder(lines, D, m - 1, D);
      assert m * D == (m - 1) * D + D;
      BothInOrder(lines, OutputLines(lines, D, m - 1), Output(lines, D, m - 1),
                  BlockLines(lines, D, m - 1, D), BlockRows(lines, D, m - 1, D), 0, (m - 1) * D, m * D);
    }
  }

  // ------------------------------------------------------ whose time it is

  predicate Reported(lines: seq<Line>, t: nat, first: nat, last: nat)
    requires t < |lines| && last <= |lines|
  {
    exists i :: first <= i < last && Reports(lines[i], lines[t])
  }

  lemma {:induction false} ReportDefault(lines: seq<Line>, t: nat, first: nat, last: nat, d: nat, e: nat)
    requires t < |lines| && last <= |lines|
    ensures Reported(lines, t, first, last) ==> Report(lines, t, first, last, d) == Report(lines, t, first, last, e)
    ensures !Reported(lines, t, first, last) ==> Report(lines, t, first, last, d) == d
    decreases last
  {
    if first < last && !Reports(lines[last - 1], lines[t]) {
      ReportDefault(lines, t, first, last - 1, d, e);
    }
  }

  /** The last report that a line got for itself while it was in the ring. */
  function OwnTime(lines: seq<Line>, D: nat, k: nat, j: nat): nat
    requires j < D && (k + 5) * D <= |lines|
  {
    IndexBounds(lines, D, k, j);
    Report(lines, k * D + j, k * D + j, (k + 5) * D, 0)
  }

  /** A line leaves with its own transmission time exactly if it got a report while
      in the ring, or nothing was left in its slot. */
  lemma TimeIsOwn(lines: seq<Line>, D: nat, k: nat, j: nat)
    requires j < D && (k + 5) * D <= |lines| && k * D + j < |lines|
    ensures Final(lines, D, k, j) == OwnTime(lines, D, k, j)
        <==> Reported(lines, k * D + j, k * D + j, (k + 5) * D) || Inherited(lines, D, k, j) == 0
  {
    hide Inherited, Report, Reported;
    IndexBounds(lines, D, k, j);
    ReportDefault(lines, k * D + j, k * D + j, (k + 5) * D, Inherited(lines, D, k, j), 0);
    ReportDefault(lines, k * D + j, k * D + j, (k + 5) * D, 0, 0);
  }

  /** Line i reports `tx` as the transmission time of message `number` of drone `src`. */
  ghost predicate ReportedBy(lines: seq<Line>, i: nat, src: nat, number: nat, tx: nat) {
    i < |lines| && lines[i].src == src && lines[i].txNumber == number && lines[i].txTime == tx
  }

  lemma {:induction false} ReportFrom(lines: seq<Line>, t: nat, first: nat, last: nat, default: nat) returns (i: nat)
    requires t < |lines| && last <= |lines|
    ensures var tx := Report(lines, t, first, last, default);
      tx == default || (first <= i < last && ReportedBy(lines, i, lines[t].src, lines[t].number, tx))
    decreases last
  {
    i := 0;
    if first < last {
      if Reports(lines[last - 1], lines[t]) {
        i := last - 1;
      } else {
        i := ReportFrom(lines, t, first, last - 1, default);
      }
    }
  }

  /** The time with which a line leaves was reported by some line, after it by its own
      drone for its own number, or before it, but after it had left, for the line five
      blocks earlier at its place. */
  lemma TimeWasReported(lines: seq<Line>, D: nat, k: nat, j: nat) returns (i: nat, t: nat)
    requires j < D && (k + 5) * D <= |lines| && Final(lines, D, k, j) != 0
    ensures t < |lines| && ReportedBy(lines, i, lines[t].src, lines[t].number, Final(lines, D, k, j))
    ensures || (t == k * D + j <= i < (k + 5) * D)
            || (k >= 5 && t == (k - 5) * D + j && k * D <= i < k * D + j)
  {
    hide Report, ReportedBy;
    IndexBounds(lines, D, k, j);
    t := k * D + j;
    i := ReportFrom(lines, t, t, (k + 5) * D, Inherited(lines, D, k, j));
    if !(t <= i < (k + 5) * D && ReportedBy(lines, i, lines[t].src, lines[t].number, Final(lines, D, k, j))) {
      TenantBefore(lines, D, k, j);
      t := (k - 5) * D + j;
      i := ReportFrom(lines, t, k * D, k * D + j, 0);
    }
  }

  /** The last report that arrives for line j of block k-5 after it left the ring and
      before line j of block k takes its slot. */
  function LateTime(lines: seq<Line>, D: nat, k: nat, j: nat): nat
    requires j < D && 5 <= k && k * D + j < |lines|
  {
    TenantBefore(lines, D, k, j);
    Report(lines, (k - 5) * D + j, k * D, k * D + j, 0)
  }

  predicate OwnReport(lines: seq<Line>, D: nat, k: nat, j: nat)
    requires j < D && (k + 5) * D <= |lines|
  {
    IndexBounds(lines, D, k, j);
    Reported(lines, k * D + j, k * D + j, (k + 5) * D)
  }

  /** Read off the log: line j of block k is passed over.  Its own last report says
      0; or it has none, and its slot came to it empty. */
  predicate PassedOver(lines: seq<Line>, D: nat, k: nat, j: nat)
    requires j < D && (k + 5) * D <= |lines|
    decreases k, 0
  {
    if OwnReport(lines, D, k, j) then OwnTime(lines, D, k, j) == 0 else !SlotMarked(lines, D, k, j)
  }

  /** Read off the log: the slot of line j of block k was marked for its previous
      tenant, which had been passed over. */
  predicate SlotMarked(lines: seq<Line>, D: nat, k: nat, j: nat)
    requires j < D && (k + 5) * D <= |lines|
    decreases k, -1
  {
    IndexBounds(lines, D, k, j);
    if k < 5 then false
    else
      TenantBefore(lines, D, k, j);
      PassedOver(lines, D, k - 5, j) && LateTime(lines, D, k, j) != 0
  }

  lemma {:induction false} FinalFromLog(lines: seq<Line>, D: nat, k: nat, j: nat)
    requires j < D && (k + 5) * D <= |lines|
    ensures Final(lines, D, k, j) == 0 <==> PassedOver(lines, D, k, j)
    ensures k * D + j < |lines| && (Inherited(lines, D, k, j) != 0 <==> SlotMarked(lines, D, k, j))
    decreases k
  {
    hide Report, Reported;
    IndexBounds(lines, D, k, j);
    var t := k * D + j;
    if k >= 5 {
      TenantBefore(lines, D, k, j);
      FinalFromLog(lines, D, k - 5, j);
    }
    ReportDefault(lines, t, t, (k + 5) * D, Inherited(lines, D, k, j), 0);
  }

  /** Exactly when a line leaves with its own transmission time, in terms of the log
      alone: it was reported while in the ring, or its slot was not marked by a late
      report for a line that had been passed over. */
  lemma OwnTimeFromLog(lines: seq<Line>, D: nat, k: nat, j: nat)
    requires j < D && (k + 5) * D <= |lines|
    ensures Final(lines, D, k, j) == OwnTime(lines, D, k, j)
        <==> OwnReport(lines, D, k, j) || !SlotMarked(lines, D, k, j)
  {
    hide Final, OwnTime, Inherited, SlotMarked, Reported;
    IndexBounds(lines, D, k, j);
    FinalFromLog(lines, D, k, j);
    TimeIsOwn(lines, D, k, j);
  }

  /** A late report that reaches another line: line j of block k, which comes out
      without a report of its own, in the slot of a line that was reported, if at
      all, as 0 until it was too late. */
  ghost predicate Leaks(lines: seq<Line>, D: nat, k: nat, j: nat) {
    && j < D && 5 <= k && (k + 5) * D <= |lines|
    && !OwnReport(lines, D, k, j)
    && LeftUntimed(lines, D, k, j)
  }

  ghost predicate LeftUntimed(lines: seq<Line>, D: nat, k: nat, j: nat)
    requires j < D && 5 <= k && (k + 5) * D <= |lines|
  {
    IndexBounds(lines, D, k, j);
    TenantBefore(lines, D, k, j);
    OwnTime(lines, D, k - 5, j) == 0 && LateTime(lines, D, k, j) != 0
  }

  /** Line j of block k, if it comes out, comes out with its own time. */
  ghost predicate Own(lines: seq<Line>, D: nat, k: nat, j: nat) {
    j < D && (k + 5) * D <= |lines| ==> Final(lines, D, k, j) == OwnTime(lines, D, k, j)
  }

  /** All lines at place j of their blocks come out with their own time if and only
      if the log holds no such report for that place. */
  lemma OwnTimesExactly(lines: seq<Line>, D: nat, j: nat)
    ensures (forall k: nat :: Own(lines, D, k, j)) <==> (forall k: nat :: !Leaks(lines, D, k, j))
  {
    hide Own, Leaks;
    if forall k: nat :: Own(lines, D, k, j) {
      forall k: nat ensures !Leaks(lines, D, k, j) {
        assert Own(lines, D, k, j);
        assert k >= 5 ==> Own(lines, D, k - 5, j);
        OwnOrLeak(lines, D, k, j);
      }
    }
    if forall k: nat :: !Leaks(lines, D, k, j) {
      forall k: nat ensures Own(lines, D, k, j) {
        NoLeakOwn(lines, D, k, j);
      }
    }
  }

  /** If the line before it in its slot had its own time, a line has it unless it leaks. */
  lemma OwnOrLeak(lines: seq<Line>, D: nat, k: nat, j: nat)
    requires k >= 5 ==> Own(lines, D, k - 5, j)
    ensures Own(lines, D, k, j) <==> !Leaks(lines, D, k, j)
  {
    hide Final, OwnTime, Reported, Report;
    if j < D && (k + 5) * D <= |lines| {
      IndexBounds(lines, D, k, j);
      if k >= 5 {
        TenantBefore(lines, D, k, j);
      }
      TimeIsOwn(lines, D, k, j);
    }
  }

  lemma {:induction false} NoLeakOwn(lines: seq<Line>, D: nat, k: nat, j: nat)
    requires forall i: nat :: !Leaks(lines, D, i, j)
    ensures Own(lines, D, k, j)
    decreases k
  {
    hide Own, Leaks;
    if k >= 5 {
      NoLeakOwn(lines, D, k - 5, j);
    }
    assert !Leaks(lines, D, k, j);
    OwnOrLeak(lines, D, k, j);
  }

  /** No line reports a message of exactly five blocks earlier and a later place
      in its block: reports that late find the message's slot not yet refilled. */
  ghost predicate NoneTooLate(lines: seq<Line>, D: nat) {
    forall k: nat, j: nat, i: nat :: !TooLate(lines, D, k, j, i)
  }

  ghost predicate TooLate(lines: seq<Line>, D: nat, k: nat, j: nat, i: nat) {
    && i < j < D && (k + 5) * D + i < |lines| && k * D + j < |lines|
    && Reports(lines[(k + 5) * D + i], lines[k * D + j])
  }

  /** Without reports that late every line leaves with its own time. */
  lemma NoneTooLateOwn(lines: seq<Line>, D: nat, k: nat, j: nat)
    requires NoneTooLate(lines, D) && j < D && (k + 5) * D <= |lines| && k * D + j < |lines|
    ensures Final(lines, D, k, j) == OwnTime(lines, D, k, j)
  {
    hide Final, Report;
    TimeIsOwn(lines, D, k, j);
    if k >= 5 {
      TenantBefore(lines, D, k, j);
      var t := (k - 5) * D + j;
      forall i | k * D <= i < k * D + j ensures !Reports(lines[i], lines[t]) {
        assert !TooLate(lines, D, k - 5, j, i - k * D);
      }
      ReportDefault(lines, t, k * D, k * D + j, 0, 0);
    }
  }

  /** With one, a line can leave with the time of another drone's message: line 11
      of this log gets the time that line 10 reports for line 1. */
  lemma LateReportLeaks() returns (lines: seq<Line>)
    ensures |lines| == 50 && lines[11].src != lines[1].src && Reports(lines[10], lines[1])
    ensures Final(lines, 2, 5, 1) == lines[10].txTime != 0
    ensures OwnTime(lines, 2, 5, 1) == 0
  {
    lines := seq(50, i requires 0 <= i < 50 =>
      var (time, number) := if i == 10 then (77, 2) else (0, 1000);
      Line(i + 1, if i == 1 || i == 10 then 2 else 1, i + 1, 0, time, number, []));
    assert forall i :: 0 <= i < 50 && i != 10 ==> !Reports(lines[i], lines[1]) && !Reports(lines[i], lines[11]);
    assert !Reports(lines[10], lines[11]);
    ReportDefault(lines, 1, 1, 10, 0, 0);
    assert Inherited(lines, 2, 0, 1) == 0;
    assert Final(lines, 2, 0, 1) == 0;
    assert Report(lines, 1, 10, 11, 0) == 77;
    assert Inherited(lines, 2, 5, 1) == 77;
    ReportDefault(lines, 11, 11, 20, 77, 0);
    ReportDefault(lines, 11, 11, 20, 0, 0);
  }
}
