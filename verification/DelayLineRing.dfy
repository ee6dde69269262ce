/**
  The ring of 5 * D slots as a value: what one line and one flush do to it, and
  the invariant that says whom each slot belongs to.
*/
module DelayLineRing {
  import opened DelayLineSpec

  /** Slot x of the numpy arrays. */
  datatype Slot = Slot(time: nat, src: nat, number: nat, filter: nat, tx: nat)

  const EMPTY: Slot := Slot(0, 0, 0, 0, 0)

  /** Storing a line leaves the slot's transmission time alone. */
  function Fill(s: Slot, l: Line): Slot {
    Slot(l.time, l.src, l.number, l.filter, s.tx)
  }

  /** Line l reports a transmission time. */
  function Mark(s: Slot, l: Line): Slot {
    if s.src == l.src && s.number == l.txNumber then s.(tx := l.txTime) else s
  }

  /** Line l leaves a cleared slot, which has address and number 0, as it is. */
  predicate Harmless(l: Line) {
    l.src != 0 || l.txNumber != 0 || l.txTime == 0
  }

  /** No report is for message 0 of drone 0, and drone 0 never sends the line in the
      slot that line 124 looks at: so if 0 is no address. */
  ghost predicate Regular(lines: seq<Line>, D: nat) {
    && (forall x :: 0 <= x < |lines| ==> Harmless(lines[x]))
    && (forall k: nat :: Visible(lines, D, k))
  }

  ghost predicate Visible(lines: seq<Line>, D: nat, k: nat) {
    k % 5 == 1 && 0 < D && k * D + D <= |lines| ==> lines[k * D + (D - 1)].src != 0
  }

  /** A slot with a transmission time is put out and cleared. */
  function PutOut(s: Slot): Slot {
    if s.tx == 0 then s else EMPTY
  }

  /** Line l stored at p, and its report made. */
  function Store(slots: seq<Slot>, p: nat, l: Line): (after: seq<Slot>)
    ensures |after| == |slots|
  {
    seq(|slots|, x requires 0 <= x < |slots| => Mark(if x == p then Fill(slots[x], l) else slots[x], l))
  }

  /** The ring after fifth q has been flushed. */
  function FlushFifth(slots: seq<Slot>, D: nat, q: nat): (after: seq<Slot>)
    ensures |after| == |slots|
  {
    seq(|slots|, x requires 0 <= x < |slots| => if q * D <= x < q * D + D then PutOut(slots[x]) else slots[x])
  }

  function RowOf(s: Slot): seq<Row> {
    if s.tx == 0 then [] else [Row(s.time, s.src, s.number, s.filter, s.tx)]
  }

  function RowsFrom(slots: seq<Slot>, base: nat, n: nat): seq<Row>
    requires base + n <= |slots|
  {
    if n == 0 then [] else RowsFrom(slots, base, n - 1) + RowOf(slots[base + n - 1])
  }

  /** The youngest block up to m whose lines go to the q-th fifth of the ring. */
  function Youngest(m: int, q: nat): (k: int)
    requires q < 5
    ensures m - 5 < k <= m && k % 5 == q
  {
    m - (m - q) % 5
  }

  /** The slot of line j of block k, n lines having been read, before its flush... */
  ghost predicate Lives(lines: seq<Line>, D: nat, k: nat, j: nat, n: nat, s: Slot)
    requires j < D && k * D + j < n <= |lines|
  {
    var l := lines[k * D + j];
    s == Slot(l.time, l.src, l.number, l.filter, TxAt(lines, D, k, j, n))
  }

  /** ... and after it. */
  ghost predicate Passed(lines: seq<Line>, D: nat, k: nat, j: nat, n: nat, s: Slot)
    requires j < D && k * D + j < n <= |lines| && (k + 5) * D <= n
  {
    if Final(lines, D, k, j) == 0 then
      var l := lines[k * D + j];
      s.src == l.src && s.number == l.number && s.tx == Report(lines, k * D + j, (k + 5) * D, n, 0)
    else s == EMPTY
  }

  /** Slot j of fifth q after i lines of block m. */
  ghost predicate Tenant(lines: seq<Line>, D: nat, m: nat, i: nat, q: nat, j: nat, s: Slot)
    requires q < 5 && j < D && i <= D && m * D + i <= |lines|
  {
    var k := Youngest(if j < i then m else m - 1, q);
    if k < 0 then s == EMPTY
    else
      TenantIndex(lines, D, m, i, q, j);
      if k + 5 == m then Passed(lines, D, k, j, m * D + i, s) else Lives(lines, D, k, j, m * D + i, s)
  }

  lemma TenantIndex(lines: seq<Line>, D: nat, m: nat, i: nat, q: nat, j: nat)
    requires q < 5 && j < D && i <= D && m * D + i <= |lines|
    ensures var k := Youngest(if j < i then m else m - 1, q);
      0 <= k ==> k * D + j < m * D + i && (k + 5 == m ==> (k + 5) * D == m * D <= m * D + i)
  {
    var k := Youngest(if j < i then m else m - 1, q);
    if 0 <= k < m {
      MulOrder(k, k, D);
      MulOrder(k + 1, m, D);
    }
  }

  lemma MulOrder(a: nat, b: nat, D: nat)
    requires a <= b
    ensures a * D <= b * D && (a + 1) * D == a * D + D
  {
  }

  lemma SlotIndex(q: nat, j: nat, D: nat)
    requires q < 5 && j < D
    ensures q * D + j < 5 * D
  {
    MulOrder(q + 1, 5, D);
    MulOrder(q, q, D);
  }

  lemma SlotsApart(q: nat, j: nat, r: nat, i: nat, D: nat)
    requires j < D && i < D && q * D + j == r * D + i
    ensures q == r && j == i
  {
    if q < r {
      MulOrder(q + 1, r, D);
      MulOrder(q, q, D);
    } else if r < q {
      MulOrder(r + 1, q, D);
      MulOrder(r, r, D);
    }
  }

  ghost predicate Ring(lines: seq<Line>, D: nat, m: nat, i: nat, slots: seq<Slot>)
    requires i <= D && m * D + i <= |lines|
  {
    && |slots| == 5 * D
    && forall q: nat, j: nat :: q < 5 && j < D ==> Holds(lines, D, m, i, slots, q, j)
  }

  ghost predicate Holds(lines: seq<Line>, D: nat, m: nat, i: nat, slots: seq<Slot>, q: nat, j: nat)
    requires q < 5 && j < D && i <= D && m * D + i <= |lines| && |slots| == 5 * D
  {
    SlotIndex(q, j, D);
    Tenant(lines, D, m, i, q, j, slots[q * D + j])
  }

  lemma RingStarts(lines: seq<Line>, D: nat, slots: seq<Slot>)
    requires |slots| == 5 * D && forall x :: 0 <= x < |slots| ==> slots[x] == EMPTY
    ensures Ring(lines, D, 0, 0, slots)
  {
    forall q: nat, j: nat | q < 5 && j < D ensures Holds(lines, D, 0, 0, slots, q, j) {
      SlotIndex(q, j, D);
    }
  }

  // -------------------------------------------------------------- one line

  /** Slot j of fifth q is clear after i lines of block m. */
  ghost predicate Clear(lines: seq<Line>, D: nat, m: nat, i: nat, q: nat, j: nat)
    requires q < 5 && j < D && i <= D && m * D + i <= |lines|
  {
    var k := Youngest(if j < i then m else m - 1, q);
    k < 0 || (k + 5 == m && (TenantIndex(lines, D, m, i, q, j); Final(lines, D, k, j) != 0))
  }

  /** A slot that line i of block m does not move into: it stays what it should be,
      unless it is clear and the line marks it. */
  lemma TenantStays(lines: seq<Line>, D: nat, m: nat, i: nat, q: nat, j: nat, s: Slot)
    requires q < 5 && j < D && i < D && m * D + i < |lines|
    requires Tenant(lines, D, m, i, q, j, s) && !(q == m % 5 && j == i)
    ensures Tenant(lines, D, m, i + 1, q, j, Mark(s, lines[m * D + i]))
        <==> Harmless(lines[m * D + i]) || !Clear(lines, D, m, i, q, j)
  {
    hide Final, Inherited;
    var k := Youngest(if j < i then m else m - 1, q);
    assert k == Youngest(if j < i + 1 then m else m - 1, q);
    if k >= 0 {
      TenantIndex(lines, D, m, i, q, j);
    }
  }

  /** What the slot that it moves into has been left with. */
  lemma LeftBehind(lines: seq<Line>, D: nat, m: nat, i: nat, s: Slot)
    requires i < D && m * D + i < |lines| && Tenant(lines, D, m, i, m % 5, i, s)
    ensures s.tx == Inherited(lines, D, m, i)
  {
    hide Final;
    assert Youngest(m - 1, m % 5) == m - 5;
    if m >= 5 {
      TenantIndex(lines, D, m, i, m % 5, i);
    }
  }

  lemma TenantMovesIn(lines: seq<Line>, D: nat, m: nat, i: nat, s: Slot)
    requires i < D && m * D + i < |lines| && Tenant(lines, D, m, i, m % 5, i, s)
    ensures Tenant(lines, D, m, i + 1, m % 5, i, Mark(Fill(s, lines[m * D + i]), lines[m * D + i]))
  {
    LeftBehind(lines, D, m, i, s);
    hide Tenant, Inherited;
    OneReport(lines, m * D + i, s.tx);
    var after := Mark(Fill(s, lines[m * D + i]), lines[m * D + i]);
    assert Lives(lines, D, m, i, m * D + i + 1, after);
    NewTenant(lines, D, m, i, after);
  }

  lemma NewTenant(lines: seq<Line>, D: nat, m: nat, i: nat, s: Slot)
    requires i < D && m * D + i < |lines| && Lives(lines, D, m, i, m * D + i + 1, s)
    ensures Tenant(lines, D, m, i + 1, m % 5, i, s)
  {
    hide Lives, Passed;
    assert Youngest(m, m % 5) == m && m * D + (i + 1) == m * D + i + 1;
  }

  lemma OneReport(lines: seq<Line>, t: nat, d: nat)
    requires t < |lines|
    ensures Report(lines, t, t, t + 1, d) == if Reports(lines[t], lines[t]) then lines[t].txTime else d
  {
    assert Report(lines, t, t, t, d) == d;
  }

  /** Besides the slot that line i of block m moves into none is clear. */
  ghost predicate NoneClear(lines: seq<Line>, D: nat, m: nat, i: nat)
    requires i <= D && m * D + i <= |lines|
  {
    forall q: nat, j: nat :: q < 5 && j < D && !(q == m % 5 && j == i) ==> !Clear(lines, D, m, i, q, j)
  }

  /** Storing a line keeps the ring as it should be if and only if the line is
      harmless, or there is no other slot that it could harm. */
  lemma RingTakesLine(lines: seq<Line>, D: nat, m: nat, i: nat, slots: seq<Slot>)
    requires i < D && m * D + i < |lines| && Ring(lines, D, m, i, slots)
    ensures Ring(lines, D, m, i + 1, Store(slots, m % 5 * D + i, lines[m * D + i]))
        <==> Harmless(lines[m * D + i]) || NoneClear(lines, D, m, i)
  {
    hide Tenant, Clear, Harmless;
    var l := lines[m * D + i];
    var next, after := i + 1, Store(slots, m % 5 * D + i, l);
    forall q: nat, j: nat | q < 5 && j < D
      ensures Holds(lines, D, m, next, after, q, j)
          <==> (q == m % 5 && j == i) || Harmless(l) || !Clear(lines, D, m, i, q, j)
    {
      SlotIndex(q, j, D);
      assert Holds(lines, D, m, i, slots, q, j);
      if q == m % 5 && j == i {
        TenantMovesIn(lines, D, m, i, slots[q * D + j]);
      } else {
        if q * D + j == m % 5 * D + i {
          SlotsApart(q, j, m % 5, i, D);
        }
        TenantStays(lines, D, m, i, q, j, slots[q * D + j]);
      }
    }
  }

  // ------------------------------------------------------------ one flush

  /** The fifth that is flushed at the end of block m holds block m-4. */
  lemma FlushedTenant(lines: seq<Line>, D: nat, m: nat, j: nat, s: Slot)
    requires j < D && m * D + D <= |lines| && Tenant(lines, D, m, D, (m + 1) % 5, j, s)
    ensures (m + 1) * D <= |lines|
    ensures Tenant(lines, D, m + 1, 0, (m + 1) % 5, j, PutOut(s))
    ensures m < 4 ==> RowOf(s) == []
    ensures m >= 4 ==>
      && (m - 4 + 5) * D <= |lines| && (m - 4) * D + j < |lines|
      && var l := lines[(m - 4) * D + j]; var tx := Final(lines, D, m - 4, j);
         RowOf(s) == if tx == 0 then [] else [Row(l.time, l.src, l.number, l.filter, tx)]
  {
    MulOrder(m, m, D);
    var k := Youngest(m, (m + 1) % 5);
    assert k == m - 4;
    if m >= 4 {
      TenantIndex(lines, D, m, D, (m + 1) % 5, j);
      assert (k + 5) * D == m * D + D;
      hide Inherited;
      assert s.tx == Final(lines, D, k, j);
    }
  }

  /** The other fifths stay as they are. */
  lemma UnflushedTenant(lines: seq<Line>, D: nat, m: nat, q: nat, j: nat, s: Slot)
    requires q < 5 && j < D && m * D + D <= |lines| && q != (m + 1) % 5 && Tenant(lines, D, m, D, q, j, s)
    ensures (m + 1) * D <= |lines|
    ensures Tenant(lines, D, m + 1, 0, q, j, s)
  {
    hide Final, Inherited;
    MulOrder(m, m, D);
    assert (m + 1) * D + 0 == m * D + D;
  }

  lemma RingFlushes(lines: seq<Line>, D: nat, m: nat, slots: seq<Slot>)
    requires m * D + D <= |lines| && Ring(lines, D, m, D, slots)
    ensures (m + 1) * D <= |lines| && Ring(lines, D, m + 1, 0, FlushFifth(slots, D, (m + 1) % 5))
  {
    hide Tenant;
    MulOrder(m, m, D);
    var next, after := m + 1, FlushFifth(slots, D, (m + 1) % 5);
    forall q: nat, j: nat | q < 5 && j < D ensures Holds(lines, D, next, 0, after, q, j) {
      SlotIndex(q, j, D);
      assert Holds(lines, D, m, D, slots, q, j);
      if q == (m + 1) % 5 {
        FlushedTenant(lines, D, m, j, slots[q * D + j]);
      } else {
        var x := q * D + j;
        var r := (m + 1) % 5;
        if r * D <= x < r * D + D {
          SlotsApart(q, j, r, x - r * D, D);
        }
        UnflushedTenant(lines, D, m, q, j, slots[x]);
      }
    }
  }

  /** Without a flush nothing is lost if the fifth was still empty. */
  lemma RingSkipsFlush(lines: seq<Line>, D: nat, slots: seq<Slot>)
    requires D <= |lines| && Ring(lines, D, 0, D, slots)
    ensures Ring(lines, D, 1, 0, slots)
  {
    hide Tenant;
    forall x | D <= x < 2 * D ensures PutOut(slots[x]) == slots[x] {
      SlotIndex(1, x - D, D);
      assert Holds(lines, D, 0, D, slots, 1, x - D);
      StillEmpty(lines, D, x - D, slots[1 * D + (x - D)]);
    }
    RingFlushes(lines, D, 0, slots);
    assert FlushFifth(slots, D, 1) == slots;
  }

  lemma StillEmpty(lines: seq<Line>, D: nat, j: nat, s: Slot)
    requires j < D <= |lines| && Tenant(lines, D, 0, D, 1, j, s)
    ensures s == EMPTY
  {
  }

  /** The flush condition: there is a line in the last slot of the second fifth, and
      its address is not 0. */
  lemma FlushCondition(lines: seq<Line>, D: nat, m: nat, slots: seq<Slot>)
    requires 0 < D && m * D + D <= |lines| && Ring(lines, D, m, D, slots)
    ensures var k := Youngest(m, 1);
      && (k >= 0 <==> m >= 1) && (k >= 0 ==> k * D + (D - 1) < |lines|)
      && (slots[2 * D - 1].src != 0 <==> m >= 1 && lines[k * D + (D - 1)].src != 0)
  {
    SlotIndex(1, D - 1, D);
    assert Holds(lines, D, m, D, slots, 1, D - 1);
    assert 1 * D + (D - 1) == 2 * D - 1;
    TenantIndex(lines, D, m, D, 1, D - 1);
    hide Final, TxAt, Report;
  }

  /** What the flush at the end of block m puts out: block m-4, if there is one. */
  lemma {:induction false} RowsAreBlock(lines: seq<Line>, D: nat, m: nat, slots: seq<Slot>, n: nat)
    requires n <= D && m * D + D <= |lines| && Ring(lines, D, m, D, slots)
    ensures var q := (m + 1) % 5; q * D + n <= |slots|
    ensures m >= 4 ==> (m - 4 + 5) * D <= |lines|
    ensures RowsFrom(slots, (m + 1) % 5 * D, n) == if m < 4 then [] else BlockRows(lines, D, m - 4, n)
    decreases n
  {
    hide Tenant, Final, RowOf;
    var q := (m + 1) % 5;
    MulOrder(q, 4, D);
    MulOrder(m, m, D);
    if n > 0 {
      RowsAreBlock(lines, D, m, slots, n - 1);
      assert Holds(lines, D, m, D, slots, q, n - 1);
      FlushedTenant(lines, D, m, n - 1, slots[q * D + (n - 1)]);
    }
  }
}
