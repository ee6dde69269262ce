/**
  The main loop of script/data_process.py as a function of the log, whatever
  addresses it holds, and when the ring is the delay line of DelayLineSpec.
*/
module DelayLineJoin {
  import opened DelayLineSpec
  import opened DelayLineRing

  /** The ring, and what has been put out. */
  datatype Joined = Joined(slots: seq<Slot>, rows: seq<Row>)

  /** Lines 124-148: fifth q is flushed if line 124 sees an address other than 0. */
  function FlushIfSeen(s: Joined, D: nat, q: nat): (r: Joined)
    requires 0 < D && |s.slots| == 5 * D && q < 5
    ensures |r.slots| == 5 * D
  {
    SlotIndex(q, D - 1, D);
    if s.slots[2 * D - 1].src == 0 then s
    else Joined(FlushFifth(s.slots, D, q), s.rows + RowsFrom(s.slots, q * D, D))
  }

  /** After i lines of block m. */
  function Join(lines: seq<Line>, D: nat, m: nat, i: nat): (r: Joined)
    requires 0 < D && i <= D && m * D + i <= |lines|
    ensures |r.slots| == 5 * D
    decreases m, i
  {
    if i > 0 then
      var before := Join(lines, D, m, i - 1);
      before.(slots := Store(before.slots, m % 5 * D + (i - 1), lines[m * D + (i - 1)]))
    else if m > 0 then
      MulOrder(m - 1, m, D);
      FlushIfSeen(Join(lines, D, m - 1, D), D, m % 5)
    else
      Joined(seq(5 * D, x => EMPTY), [])
  }

  /** The output file, without the reception columns. */
  function JoinedRows(lines: seq<Line>, D: nat): seq<Row>
    requires 0 < D
  {
    BlockAndPlace(|lines|, D);
    Join(lines, D, |lines| / D, |lines| % D).rows
  }

  lemma BlockAndPlace(n: nat, D: nat)
    requires 0 < D
    ensures n / D * D + n % D == n && n / D >= 0 && n % D < D
  {
  }

  // ------------------------------------------------------- the delay line

  /** How many blocks are out when m have been read. */
  function Out(m: nat): nat { if m < 4 then 0 else m - 4 }

  ghost predicate BlocksFit(n: nat, m: nat, D: nat) {
    (Out(m) + 4) * D <= n || Out(m) == 0
  }

  lemma FitsMore(n: nat, m: nat, D: nat)
    requires m * D <= n
    ensures BlocksFit(n, m, D)
  {
  }

  lemma OneMoreBlock(lines: seq<Line>, D: nat, m: nat)
    requires 0 < D && (m + 1) * D <= |lines| && BlocksFit(|lines|, m, D) && (m >= 4 ==> (m - 4 + 5) * D <= |lines|)
    ensures BlocksFit(|lines|, m + 1, D)
    ensures Output(lines, D, Out(m + 1)) ==
      Output(lines, D, Out(m)) + if m < 4 then [] else BlockRows(lines, D, m - 4, D)
  {
    hide BlockRows;
    if m >= 4 {
      assert (Out(m + 1) + 4) * D == (m - 4 + 5) * D;
    } else {
      assert Output(lines, D, 0) + [] == Output(lines, D, 0);
    }
  }

  /** The end of block m. */
  lemma FlushIsDelay(lines: seq<Line>, D: nat, m: nat, s: Joined)
    requires 0 < D && m * D + D <= |lines| && Regular(lines, D) && |s.slots| == 5 * D
    requires Ring(lines, D, m, D, s.slots) && BlocksFit(|lines|, m, D) && s.rows == Output(lines, D, Out(m))
    ensures (m + 1) * D <= |lines| && Ring(lines, D, m + 1, 0, FlushIfSeen(s, D, (m + 1) % 5).slots)
    ensures BlocksFit(|lines|, m + 1, D) && FlushIfSeen(s, D, (m + 1) % 5).rows == Output(lines, D, Out(m + 1))
  {
    hide Ring, Output, FlushFifth, RowsFrom, BlockRows;
    MulOrder(m, m, D);
    var k := Youngest(m, 1);
    FlushCondition(lines, D, m, s.slots);
    RowsAreBlock(lines, D, m, s.slots, D);
    RingFlushes(lines, D, m, s.slots);
    OneMoreBlock(lines, D, m);
    if k >= 0 {
      MulOrder(k, m, D);
      assert Visible(lines, D, k);
    } else {
      RingSkipsFlush(lines, D, s.slots);
      assert s.rows + [] == s.rows;
    }
  }

  /** On a regular log the slots belong to whom they should, and the output is that
      of the delay line. */
  lemma {:induction false} JoinIsDelay(lines: seq<Line>, D: nat, m: nat, i: nat)
    requires 0 < D && i <= D && m * D + i <= |lines| && Regular(lines, D)
    ensures Ring(lines, D, m, i, Join(lines, D, m, i).slots)
    ensures BlocksFit(|lines|, m, D) && Join(lines, D, m, i).rows == Output(lines, D, Out(m))
    decreases m, i
  {
    hide Ring, Output, Store, FlushIfSeen;
    if i > 0 {
      JoinIsDelay(lines, D, m, i - 1);
      RingTakesLine(lines, D, m, i - 1, Join(lines, D, m, i - 1).slots);
    } else if m > 0 {
      MulOrder(m - 1, m, D);
      JoinIsDelay(lines, D, m - 1, D);
      FlushIsDelay(lines, D, m - 1, Join(lines, D, m - 1, D));
    } else {
      RingStarts(lines, D, Join(lines, D, 0, 0).slots);
      NoOutput(lines, D);
    }
  }

  lemma NoOutput(lines: seq<Line>, D: nat)
    ensures Output(lines, D, 0) == []
  {
  }

  /** The output of a regular log. */
  lemma RegularIsDelayLine(lines: seq<Line>, D: nat)
    requires 0 < D && Regular(lines, D)
    ensures var m := BlocksOut(|lines|, D);
      ((m + 4) * D <= |lines| || m == 0) && JoinedRows(lines, D) == Output(lines, D, m)
  {
    hide Regular, Output, Join;
    BlockAndPlace(|lines|, D);
    JoinIsDelay(lines, D, |lines| / D, |lines| % D);
  }

  // ------------------------------------------------- why it must be regular

  /** If drone 0 sends every line in the slot that line 124 looks at, nothing is ever
      put out. */
  ghost predicate NeverSeen(lines: seq<Line>, D: nat) {
    forall k: nat :: Unseen(lines, D, k)
  }

  ghost predicate Unseen(lines: seq<Line>, D: nat, k: nat) {
    k % 5 == 1 && 0 < D && k * D + D <= |lines| ==> lines[k * D + (D - 1)].src == 0
  }

  lemma {:induction false} NeverSeenStays(lines: seq<Line>, D: nat, m: nat, i: nat)
    requires 0 < D && i <= D && m * D + i <= |lines| && NeverSeen(lines, D)
    ensures Join(lines, D, m, i).slots[2 * D - 1].src == 0 && Join(lines, D, m, i).rows == []
    decreases m, i
  {
    hide FlushFifth;
    if i > 0 {
      NeverSeenStays(lines, D, m, i - 1);
      if m % 5 * D + (i - 1) == 2 * D - 1 {
        SlotsApart(m % 5, i - 1, 1, D - 1, D);
        assert Unseen(lines, D, m);
      }
    } else if m > 0 {
      MulOrder(m - 1, m, D);
      NeverSeenStays(lines, D, m - 1, D);
    }
  }

  /** Then the output is the delay line's only if that is empty too. */
  lemma NeverSeenIsLost(lines: seq<Line>, D: nat)
    requires 0 < D && NeverSeen(lines, D)
    ensures JoinedRows(lines, D) == []
  {
    hide NeverSeen;
    BlockAndPlace(|lines|, D);
    NeverSeenStays(lines, D, |lines| / D, |lines| % D);
  }

  /** A first line in which drone 0 reports its message 0 marks all the slots that
      are still clear; those of the third fifth are put out after two blocks. */
  lemma ClearSlotsPutOut(lines: seq<Line>, D: nat)
    requires 0 < D && 2 * D <= |lines| && !Harmless(lines[0])
    requires forall x :: 0 < x < |lines| ==> lines[x].src != 0
    ensures Join(lines, D, 2, 0).rows == seq(D, x => Row(0, 0, 0, 0, lines[0].txTime))
    ensures Output(lines, D, Out(2)) == []
  {
    hide Output, Store;
    NoOutput(lines, D);
    MulOrder(1, 2, D);
    StillMarked(lines, D, 1, D);
    var s := Join(lines, D, 1, D);
    MarkedRows(s.slots, D, D, lines[0].txTime);
    LastSeen(lines, D);
    assert [] + RowsFrom(s.slots, 2 * D, D) == RowsFrom(s.slots, 2 * D, D);
  }

  lemma LastSeen(lines: seq<Line>, D: nat)
    requires 0 < D && 2 * D <= |lines| && forall x :: 0 < x < |lines| ==> lines[x].src != 0
    ensures 1 * D + D <= |lines| && Join(lines, D, 1, D).slots[2 * D - 1].src != 0
  {
    assert 1 % 5 * D + (D - 1) == 2 * D - 1;
  }

  /** The slots that the first two blocks do not reach hold nothing but that time. */
  lemma {:induction false} StillMarked(lines: seq<Line>, D: nat, m: nat, i: nat)
    requires 0 < D && m < 2 && i <= D && 2 * D <= |lines| && m * D + i <= |lines| && !Harmless(lines[0])
    requires forall x :: 0 < x < |lines| ==> lines[x].src != 0
    ensures var s := Join(lines, D, m, i);
      && s.rows == []
      && (forall x :: m * D + i <= x < 5 * D ==>
            s.slots[x] == Slot(0, 0, 0, 0, if m == 0 && i == 0 then 0 else lines[0].txTime))
    decreases m, i
  {
    if i > 0 {
      StillMarked(lines, D, m, i - 1);
    } else if m > 0 {
      StillMarked(lines, D, 0, D);
    }
  }

  lemma {:induction false} MarkedRows(slots: seq<Slot>, D: nat, n: nat, t: nat)
    requires |slots| == 5 * D && n <= D && t != 0
    requires forall x :: 2 * D <= x < 5 * D ==> slots[x] == Slot(0, 0, 0, 0, t)
    ensures RowsFrom(slots, 2 * D, n) == seq(n, x => Row(0, 0, 0, 0, t))
  {
    if n > 0 {
      MarkedRows(slots, D, n - 1, t);
    }
  }
}
