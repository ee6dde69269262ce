/**
  analyze_records (analyze_sniffer_binary.py:118-160): receiver timestamps of few
  bits are unwrapped into continuous ticks, and each source gets the differences
  between its records.  Times in milliseconds are real numbers here; how a float
  rounds them is not modelled.
*/
module Unwrap {
  import opened Common
  import opened Wire
  import opened Analyzer

  datatype Analyzed = Analyzed(record: Record, continuous: int, ms: real, delta: Option<real>)

  datatype Outcome = Done(records: seq<Analyzed>) | BadBits | BadRate

  // ---------------------------------------------------------------- sorting

  ghost predicate SortedBy<T(!new)>(s: seq<T>, key: T -> int) {
    forall i, j :: 0 <= i < j < |s| ==> key(s[i]) <= key(s[j])
  }

  /** Insert x behind everything that does not come after it. */
  function Insert<T>(s: seq<T>, x: T, key: T -> int): (r: seq<T>)
    ensures multiset(r) == multiset(s) + multiset{x}
  {
    if s == [] || key(s[|s| - 1]) <= key(x) then s + [x]
    else
      assert s == s[..|s| - 1] + [s[|s| - 1]];
      Insert(s[..|s| - 1], x, key) + [s[|s| - 1]]
  }

  /** sorted(s, key=key), a stable sort. */
  function SortBy<T>(s: seq<T>, key: T -> int): (r: seq<T>)
    ensures multiset(r) == multiset(s)
  {
    if s == [] then []
    else
      assert s == s[..|s| - 1] + [s[|s| - 1]];
      Insert(SortBy(s[..|s| - 1], key), s[|s| - 1], key)
  }

  lemma InsertMembers<T>(s: seq<T>, x: T, key: T -> int, y: T)
    requires y in Insert(s, x, key)
    ensures y in s || y == x
  {
    assert y in multiset(Insert(s, x, key));
  }

  lemma {:induction false} InsertSorts<T(!new)>(s: seq<T>, x: T, key: T -> int)
    requires SortedBy(s, key)
    ensures SortedBy(Insert(s, x, key), key)
  {
    if s != [] && key(s[|s| - 1]) > key(x) {
      var t := s[..|s| - 1];
      InsertSorts(t, x, key);
      var r := Insert(t, x, key);
      forall i | 0 <= i < |r| ensures key(r[i]) <= key(s[|s| - 1]) {
        InsertMembers(t, x, key, r[i]);
      }
    }
  }

  lemma {:induction false} SortSorts<T(!new)>(s: seq<T>, key: T -> int)
    ensures SortedBy(SortBy(s, key), key)
  {
    if s != [] {
      SortSorts(s[..|s| - 1], key);
      InsertSorts(SortBy(s[..|s| - 1], key), s[|s| - 1], key);
    }
  }

  /** Stability: what is in order already stays as it is. */
  lemma {:induction false} SortKeepsSorted<T(!new)>(s: seq<T>, key: T -> int)
    requires SortedBy(s, key)
    ensures SortBy(s, key) == s
  {
    if s != [] {
      SortKeepsSorted(s[..|s| - 1], key);
    }
  }

  // -------------------------------------------------------------- unwrapping

  function Pow2(n: nat): (w: nat)
    ensures w >= 1
  {
    if n == 0 then 1 else 2 * Pow2(n - 1)
  }

  /** The value of the n lowest binary digits of v. */
  function LowBits(v: nat, n: nat): nat {
    if n == 0 then 0 else v % 2 + 2 * LowBits(v / 2, n - 1)
  }

  /** v & ((1 << n) - 1) and the period 1 << n belong together. */
  lemma {:induction false} MaskIsLowBits(v: nat, n: nat)
    ensures v % Pow2(n) == LowBits(v, n) < Pow2(n)
    decreases n
  {
    if n > 0 {
      MaskIsLowBits(v / 2, n - 1);
      var w := Pow2(n - 1);
      var q := v / 2 / w;
      assert v / 2 == q * w + LowBits(v / 2, n - 1);
      assert q * (2 * w) == 2 * (q * w);
      QuotientIs(v, q, LowBits(v, n), 2 * w);
    }
  }

  lemma {:induction false} Pow2Sum(m: nat, n: nat)
    ensures Pow2(m + n) == Pow2(m) * Pow2(n)
  {
    if n > 0 {
      Pow2Sum(m, n - 1);
    }
  }

  /** The period of the receiver's clock. */
  lemma FortyBits()
    ensures Pow2(40) == 0x100_0000_0000
  {
    assert Pow2(5) == 32;
    Pow2Sum(5, 5);
    Pow2Sum(10, 10);
    Pow2Sum(20, 20);
  }

  /** How often c decreases. */
  function Wraps(c: seq<nat>): nat {
    if |c| < 2 then 0
    else Wraps(c[..|c| - 1]) + if c[|c| - 1] < c[|c| - 2] then 1 else 0
  }

  function Unwrapped(c: seq<nat>, w: nat): (u: seq<int>)
    ensures |u| == |c|
  {
    seq(|c|, i requires 0 <= i < |c| => c[i] + Wraps(c[..i + 1]) * w)
  }

  ghost predicate Clock(c: seq<nat>, w: nat) {
    forall i :: 0 <= i < |c| ==> c[i] < w
  }

  /** Times that read c on a clock of period w. */
  ghost predicate Reads(t: seq<int>, c: seq<nat>, w: nat)
    requires w > 0
  {
    |t| == |c| && forall i :: 0 <= i < |c| ==> t[i] % w == c[i]
  }

  ghost predicate Rising(t: seq<int>) {
    forall i :: 0 < i < |t| ==> t[i - 1] <= t[i]
  }

  lemma MultipleGrows(q: int, w: int)
    requires w > 0
    ensures q >= 1 ==> q * w >= w
    ensures q <= -1 ==> q * w <= -w
  {
  }

  lemma MultipleBelow(q: int, w: int)
    requires w > 0 && -w < q * w < w
    ensures q == 0
  {
    MultipleGrows(q, w);
  }

  /** Two readings of the same tick less than a period apart are the same time. */
  lemma ModInjective(a: int, b: int, w: int)
    requires w > 0 && a % w == b % w && -w < a - b < w
    ensures a == b
  {
    assert (a / w - b / w) * w == (a / w) * w - (b / w) * w;
    MultipleBelow(a / w - b / w, w);
  }

  /** A gap below one period can be read off the clock. */
  lemma SameGap(a: int, b: int, w: int)
    requires w > 0 && 0 <= b - a < w
    ensures b - a == b % w - a % w + if b % w < a % w then w else 0
  {
    var e := if b % w < a % w then 1 else 0;
    var q := a / w - b / w + e;
    assert q * w == (a / w) * w - (b / w) * w + e * w;
    MultipleBelow(q, w);
  }

  /** From one record to the next the unwrapped time grows by less than a period. */
  lemma UnwrapStep(c: seq<nat>, w: nat, i: nat)
    requires Clock(c, w) && 0 < i < |c|
    ensures var u := Unwrapped(c, w);
            0 <= u[i] - u[i - 1] < w && u[i] == u[i - 1] + c[i] - c[i - 1] + if c[i] < c[i - 1] then w else 0
  {
    var p := c[..i + 1];
    assert p[..|p| - 1] == c[..i];
    var n := Wraps(c[..i]);
    assert (n + 1) * w == n * w + w;
  }

  lemma UnwrapReads(c: seq<nat>, w: nat)
    requires Clock(c, w) && w > 0
    ensures var u := Unwrapped(c, w); Reads(u, c, w) && Rising(u) && (c != [] ==> u[0] == c[0])
  {
    var u := Unwrapped(c, w);
    forall i | 0 <= i < |c| ensures u[i] % w == c[i] && (i > 0 ==> u[i - 1] <= u[i]) {
      QuotientIs(u[i], Wraps(c[..i + 1]), c[i], w);
      if i > 0 { UnwrapStep(c, w, i); }
    }
  }

  lemma {:induction false} UnwrapBelow(c: seq<nat>, w: nat, t: seq<int>, i: nat)
    requires Clock(c, w) && w > 0 && Reads(t, c, w) && Rising(t) && i < |c| && t[0] == c[0]
    ensures Unwrapped(c, w)[i] <= t[i]
  {
    var u := Unwrapped(c, w);
    UnwrapReads(c, w);
    if i > 0 {
      UnwrapBelow(c, w, t, i - 1);
      UnwrapStep(c, w, i);
      if t[i] < u[i] {
        ModInjective(t[i], u[i], w);
      }
    }
  }

  /** The unwrapped ticks are the least times that start at the first reading,
      never go back, and show every reading. */
  lemma LeastUnwrapping(c: seq<nat>, w: nat, t: seq<int>)
    requires Clock(c, w) && w > 0 && Reads(t, c, w) && Rising(t) && (c != [] ==> t[0] == c[0])
    ensures var u := Unwrapped(c, w);
      && Reads(u, c, w) && Rising(u) && (c != [] ==> u[0] == c[0])
      && forall i :: 0 <= i < |c| ==> u[i] <= t[i]
  {
    UnwrapReads(c, w);
    forall i | 0 <= i < |c| ensures Unwrapped(c, w)[i] <= t[i] {
      UnwrapBelow(c, w, t, i);
    }
  }

  /** Elapsed ticks are the true ones if and only if time never went back and no
      gap between records reached a whole period. */
  lemma ExactUnwrapping(c: seq<nat>, w: nat, t: seq<int>)
    requires Clock(c, w) && w > 0 && Reads(t, c, w)
    ensures (forall i :: 0 <= i < |c| ==> Unwrapped(c, w)[i] - Unwrapped(c, w)[0] == t[i] - t[0])
        <==> (forall i :: 0 < i < |t| ==> 0 <= t[i] - t[i - 1] < w)
  {
    var u := Unwrapped(c, w);
    if forall i :: 0 <= i < |c| ==> u[i] - u[0] == t[i] - t[0] {
      forall i | 0 < i < |t| ensures 0 <= t[i] - t[i - 1] < w {
        UnwrapStep(c, w, i);
        assert u[i - 1] - u[0] == t[i - 1] - t[0];
      }
    }
    if forall i :: 0 < i < |t| ==> 0 <= t[i] - t[i - 1] < w {
      forall i | 0 <= i < |c| ensures u[i] - u[0] == t[i] - t[0] {
        SmallGapsExact(c, w, t, i);
      }
    }
  }

  lemma {:induction false} SmallGapsExact(c: seq<nat>, w: nat, t: seq<int>, i: nat)
    requires Clock(c, w) && w > 0 && Reads(t, c, w) && i < |c|
    requires forall j :: 0 < j < |t| ==> 0 <= t[j] - t[j - 1] < w
    ensures Unwrapped(c, w)[i] - Unwrapped(c, w)[0] == t[i] - t[0]
  {
    if i > 0 {
      SmallGapsExact(c, w, t, i - 1);
      UnwrapStep(c, w, i);
      SameGap(t[i - 1], t[i], w);
    }
  }

  /** The rule in section 11 of Docs/binary_sniffer_phase_implementation.md, which
      counts a wrap only for a drop of more than half a period, loses one whenever
      a gap of half a period or more crosses it; the code does not. */
  lemma HalfRangeLosesWrap(a: int, b: int, w: nat)
    requires w > 0 && w <= 2 * (b - a) && b - a < w && b % w < a % w
    ensures 2 * (a % w - b % w) <= w
    ensures var step := (documented: bool) => b % w - a % w + if documented && 2 * (a % w - b % w) <= w then 0 else w;
            step(false) == b - a && step(true) == b - a - w
  {
    SameGap(a, b, w);
  }

  // ------------------------------------------------------------- the program

  function ArrivalOf(r: Record): int { r.arrival }

  function ContinuousOf(a: Analyzed): int { a.continuous }

  function Ticks(records: seq<Record>, w: nat): (c: seq<nat>)
    requires w > 0
    ensures |c| == |records| && Clock(c, w)
  {
    seq(|records|, i requires 0 <= i < |records| => records[i].meta.rxTime % w)
  }

  /** The records of one source, in order. */
  function Group(a: seq<Analyzed>, source: nat): (g: seq<Analyzed>) {
    if a == [] then []
    else Group(a[..|a| - 1], source) + if a[|a| - 1].record.meta.sender == source then [a[|a| - 1]] else []
  }

  /** Ticks of a clock of hz in milliseconds. */
  function Ms(ticks: int, hz: real): real
    requires hz > 0.0
  {
    ticks as real * 1000.0 / hz
  }

  /** n times hz ticks are n seconds. */
  lemma MsOfSeconds(n: int, hz: int)
    requires hz > 0
    ensures Ms(n * hz, hz as real) == 1000.0 * n as real
  {
    var (x, h) := (n as real, hz as real);
    assert (n * hz) as real == x * h;
    assert x * h * 1000.0 == (x * 1000.0) * h;
    RealQuotient(x * 1000.0, h);
  }

  lemma RealQuotient(x: real, h: real)
    requires h > 0.0
    ensures x * h / h == x
  {
  }

  lemma MsApart(a: int, b: int, hz: real)
    requires hz > 0.0
    ensures Ms(a, hz) - Ms(b, hz) == Ms(a - b, hz)
    ensures a >= b ==> Ms(a - b, hz) >= 0.0
  {
  }

  /** Each record with its masked, unwrapped and elapsed time, in order of arrival. */
  ghost predicate Timed(ordered: seq<Record>, w: nat, hz: real, a: seq<Analyzed>)
    requires w > 0 && hz > 0.0
  {
    var c := Ticks(ordered, w);
    var u := Unwrapped(c, w);
    && |a| == |ordered|
    && forall i :: 0 <= i < |a| ==>
         && a[i].record == ordered[i].(meta := ordered[i].meta.(rxTime := c[i]))
         && a[i].continuous == u[i] && a[i].ms == Ms(u[i] - u[0], hz)
  }

  /** The p-th difference within a source. */
  function DeltaAt(g: seq<Analyzed>, p: nat): Option<real>
    requires p < |g|
  {
    if p == 0 then None else Some(g[p].ms - g[p - 1].ms)
  }

  ghost predicate DistinctArrivals(a: seq<Analyzed>) {
    forall i, j :: 0 <= i < j < |a| ==> a[i].record.arrival != a[j].record.arrival
  }

  /** Every record has the difference to the one before it from the same source. */
  ghost predicate HasDeltas(a: seq<Analyzed>) {
    forall source: nat, p: nat :: p < |Group(a, source)| ==> Group(a, source)[p].delta == DeltaAt(Group(a, source), p)
  }

  lemma {:induction false} GroupIn(a: seq<Analyzed>, source: nat, x: Analyzed)
    requires x in Group(a, source)
    ensures x in a && x.record.meta.sender == source
  {
    var b := a[..|a| - 1];
    if x in Group(b, source) {
      GroupIn(b, source, x);
    }
  }

  lemma {:induction false} GroupHas(a: seq<Analyzed>, i: nat)
    requires i < |a|
    ensures a[i] in Group(a, a[i].record.meta.sender)
  {
    if i < |a| - 1 {
      GroupHas(a[..|a| - 1], i);
    }
  }

  lemma {:induction false} GroupDistinct(a: seq<Analyzed>, source: nat)
    requires DistinctArrivals(a)
    ensures DistinctArrivals(Group(a, source))
  {
    if a != [] {
      var b := a[..|a| - 1];
      GroupDistinct(b, source);
      forall x | x in Group(b, source) ensures x.record.arrival != a[|a| - 1].record.arrival {
        GroupIn(b, source, x);
      }
    }
  }

  lemma {:induction false} GroupSorted(a: seq<Analyzed>, source: nat)
    requires SortedBy(a, ContinuousOf)
    ensures SortedBy(Group(a, source), ContinuousOf)
  {
    if a != [] {
      var b := a[..|a| - 1];
      GroupSorted(b, source);
      forall x | x in Group(b, source) ensures x.continuous <= a[|a| - 1].continuous {
        GroupIn(b, source, x);
        var i :| 0 <= i < |b| && b[i] == x;
        assert ContinuousOf(a[i]) <= ContinuousOf(a[|a| - 1]);
      }
    }
  }

  /** Records of different sources have different arrival numbers. */
  lemma GroupsApart(a: seq<Analyzed>, s: nat, t: nat, x: Analyzed, y: Analyzed)
    requires DistinctArrivals(a) && s != t && x in Group(a, s) && y in Group(a, t)
    ensures x.record.arrival != y.record.arrival
  {
    GroupIn(a, s, x);
    GroupIn(a, t, y);
    var i :| 0 <= i < |a| && a[i] == x;
    var j :| 0 <= j < |a| && a[j] == y;
  }

  /** The sources in the order in which they first appear. */
  function Sources(a: seq<Analyzed>): (s: seq<nat>)
    ensures forall i :: 0 <= i < |a| ==> a[i].record.meta.sender in s
  {
    if a == [] then []
    else
      var before := Sources(a[..|a| - 1]);
      var x := a[|a| - 1].record.meta.sender;
      if x in before then before else before + [x]
  }

  /** An entry of delta_by_arrival. */
  datatype Entry = Entry(arrival: nat, delta: Option<real>)

  function Entries(g: seq<Analyzed>): (e: seq<Entry>)
    ensures |e| == |g| && forall p :: 0 <= p < |g| ==> e[p] == Entry(g[p].record.arrival, DeltaAt(g, p))
  {
    seq(|g|, p requires 0 <= p < |g| => Entry(g[p].record.arrival, DeltaAt(g, p)))
  }

  /** The entries of one source after the other. */
  function Listing(a: seq<Analyzed>, order: seq<nat>): seq<Entry> {
    if order == [] then [] else Listing(a, order[..|order| - 1]) + Entries(Group(a, order[|order| - 1]))
  }

  /** x is at k, and behind it is nothing for its arrival number. */
  ghost predicate LastAt(e: seq<Entry>, k: nat, x: Entry) {
    k < |e| && e[k] == x && forall j :: k < j < |e| ==> e[j].arrival != x.arrival
  }

  /** Every record has the difference listed last for its arrival number. */
  ghost predicate HasLastDelta(a: seq<Analyzed>) {
    forall x :: x in a ==> exists k: nat :: LastAt(Listing(a, Sources(a)), k, Entry(x.record.arrival, x.delta))
  }

  /** The dictionary: a later entry replaces an earlier one. */
  function Written(e: seq<Entry>): map<nat, Option<real>> {
    if e == [] then map[] else Written(e[..|e| - 1])[e[|e| - 1].arrival := e[|e| - 1].delta]
  }

  lemma WrittenAppend(e: seq<Entry>, x: Entry)
    ensures Written(e + [x]) == Written(e)[x.arrival := x.delta]
  {
    assert (e + [x])[..|e|] == e;
  }

  lemma {:induction false} WrittenIsLast(e: seq<Entry>, i: nat) returns (k: nat)
    requires i < |e|
    ensures e[i].arrival in Written(e) && LastAt(e, k, Entry(e[i].arrival, Written(e)[e[i].arrival]))
  {
    if e[|e| - 1].arrival == e[i].arrival {
      k := |e| - 1;
    } else {
      k := WrittenIsLast(e[..|e| - 1], i);
    }
  }

  lemma {:induction false} EntryOf(a: seq<Analyzed>, order: seq<nat>, k: nat) returns (source: nat, p: nat)
    requires k < |Listing(a, order)|
    ensures source in order && p < |Group(a, source)| && Listing(a, order)[k] == Entries(Group(a, source))[p]
  {
    hide Group, Entries;
    var before := Listing(a, order[..|order| - 1]);
    if k < |before| {
      source, p := EntryOf(a, order[..|order| - 1], k);
    } else {
      source, p := order[|order| - 1], k - |before|;
    }
  }

  lemma {:induction false} EntryIn(a: seq<Analyzed>, order: seq<nat>, source: nat, p: nat) returns (k: nat)
    requires source in order && p < |Group(a, source)|
    ensures k < |Listing(a, order)| && Listing(a, order)[k] == Entries(Group(a, source))[p]
  {
    hide Group, Entries;
    var before := Listing(a, order[..|order| - 1]);
    if source == order[|order| - 1] {
      k := |before| + p;
    } else {
      k := EntryIn(a, order[..|order| - 1], source, p);
    }
  }

  /** With distinct arrival numbers no entry replaces another. */
  lemma LastIsOnly(a: seq<Analyzed>)
    requires HasLastDelta(a) && DistinctArrivals(a)
    ensures HasDeltas(a)
  {
    hide Group, DeltaAt, Listing, Sources, DistinctArrivals;
    forall source: nat, p: nat | p < |Group(a, source)|
      ensures Group(a, source)[p].delta == DeltaAt(Group(a, source), p) {
      var g := Group(a, source);
      GroupIn(a, source, g[p]);
      var k: nat :| LastAt(Listing(a, Sources(a)), k, Entry(g[p].record.arrival, g[p].delta));
      var t, q := EntryOf(a, Sources(a), k);
      if t != source {
        GroupsApart(a, source, t, g[p], Group(a, t)[q]);
      } else {
        GroupDistinct(a, source);
        SameArrival(g, p, q);
      }
    }
  }

  lemma SameArrival(g: seq<Analyzed>, p: nat, q: nat)
    requires DistinctArrivals(g) && p < |g| && q < |g| && g[p].record.arrival == g[q].record.arrival
    ensures p == q
  {
  }

  function WithDeltas(a: seq<Analyzed>, deltas: map<nat, Option<real>>): (r: seq<Analyzed>)
    requires forall x :: x in a ==> x.record.arrival in deltas
    ensures |r| == |a| && forall i :: 0 <= i < |a| ==> r[i] == a[i].(delta := deltas[a[i].record.arrival])
  {
    seq(|a|, i requires 0 <= i < |a| => a[i].(delta := deltas[a[i].record.arrival]))
  }

  lemma {:induction false} GroupWithDeltas(a: seq<Analyzed>, deltas: map<nat, Option<real>>, source: nat)
    requires forall x :: x in a ==> x.record.arrival in deltas
    requires forall x :: x in Group(a, source) ==> x.record.arrival in deltas
    ensures Group(WithDeltas(a, deltas), source) == WithDeltas(Group(a, source), deltas)
  {
    if a != [] {
      var b := a[..|a| - 1];
      GroupWithDeltas(b, deltas, source);
      assert WithDeltas(a, deltas)[..|a| - 1] == WithDeltas(b, deltas);
    }
  }

  lemma NoWraps()
    ensures Wraps([]) == 0
  {
  }

  lemma WrapsNext(c: seq<nat>, w: nat, i: nat)
    requires i < |c|
    ensures Wraps(c[..i + 1]) == Wraps(c[..i]) + if i > 0 && c[i] < c[i - 1] then 1 else 0
    ensures Unwrapped(c, w)[i] == c[i] + Wraps(c[..i + 1]) * w
  {
    assert c[..i + 1][..i] == c[..i];
  }

  /** Lines 128-147: mask, count the wraps, and set time zero. */
  method UnwrapRecords(ordered: seq<Record>, w: nat, hz: real) returns (a: seq<Analyzed>)
    requires w > 0 && hz > 0.0
    ensures Timed(ordered, w, hz, a)
  {
    hide Ms, Wraps, Unwrapped;
    ghost var c := Ticks(ordered, w);
    ghost var u := Unwrapped(c, w);
    var wrapCount := 0;
    var previous: Option<nat> := None;
    var firstContinuous: Option<int> := None;
    a := [];
    assert c[..0] == [];
    NoWraps();
    for i := 0 to |ordered|
      invariant |a| == i && wrapCount == Wraps(c[..i])
      invariant previous == if i == 0 then None else Some(c[i - 1])
      invariant firstContinuous == if i == 0 then None else Some(u[0])
      invariant forall k :: 0 <= k < i ==>
        && a[k].record == ordered[k].(meta := ordered[k].meta.(rxTime := c[k]))
        && a[k].continuous == u[k] && a[k].ms == Ms(u[k] - u[0], hz)
    {
      var record := ordered[i];
      var current := record.meta.rxTime % w;
      WrapsNext(c, w, i);
      if previous.Some? && current < previous.value {
        wrapCount := wrapCount + 1;
      }
      var continuous := current + wrapCount * w;
      if firstContinuous == None {
        firstContinuous := Some(continuous);
      }
      a := a + [Analyzed(record.(meta := record.meta.(rxTime := current)), continuous,
                            Ms(continuous - firstContinuous.value, hz), None)];
      previous := Some(current);
    }
  }

  lemma GroupStep(a: seq<Analyzed>, i: nat, source: nat)
    requires i < |a|
    ensures Group(a[..i + 1], source) ==
      Group(a[..i], source) + if a[i].record.meta.sender == source then [a[i]] else []
  {
    assert a[..i + 1][..i] == a[..i];
  }

  /** Lines 149-151: the records by source; `order` is the dictionary's. */
  method GroupRecords(a: seq<Analyzed>) returns (groups: map<nat, seq<Analyzed>>, order: seq<nat>)
    ensures order == Sources(a) && forall s :: s in order <==> s in groups
    ensures forall s :: s in groups ==> groups[s] == Group(a, s)
  {
    hide Group, Sources;
    groups, order := map[], [];
    GroupNone();
    for i := 0 to |a|
      invariant order == Sources(a[..i]) && forall s :: s in order <==> s in groups
      invariant forall s: nat :: Group(a[..i], s) == if s in groups then groups[s] else []
    {
      var source := a[i].record.meta.sender;
      SourcesStep(a, i);
      if source !in groups {
        order := order + [source];
      }
      forall s: nat ensures Group(a[..i + 1], s) == Group(a[..i], s) + if source == s then [a[i]] else [] {
        GroupStep(a, i, s);
      }
      groups := groups[source := (if source in groups then groups[source] else []) + [a[i]]];
    }
    assert a[..|a|] == a;
  }

  lemma SourcesStep(a: seq<Analyzed>, i: nat)
    requires i < |a|
    ensures var s := Sources(a[..i]); var x := a[i].record.meta.sender;
      Sources(a[..i + 1]) == if x in s then s else s + [x]
  {
    assert a[..i + 1][..i] == a[..i];
  }

  lemma GroupNone()
    ensures Sources([]) == [] && forall s: nat :: Group([], s) == []
  {
  }

  /** Lines 154-160: the differences within one source, written over the entries
      that are there. */
  method AddDeltas(chronological: seq<Analyzed>, before: map<nat, Option<real>>, ghost e: seq<Entry>)
      returns (deltas: map<nat, Option<real>>)
    requires before == Written(e)
    ensures deltas == Written(e + Entries(chronological))
  {
    hide DeltaAt, Written;
    ghost var entries := Entries(chronological);
    deltas := before;
    var previous: Option<real> := None;
    assert e + entries[..0] == e;
    for i := 0 to |chronological|
      invariant previous == if i == 0 then None else Some(chronological[i - 1].ms)
      invariant deltas == Written(e + entries[..i])
    {
      var record := chronological[i];
      deltas := deltas[record.record.arrival := if previous.None? then None else Some(record.ms - previous.value)];
      DeltaIs(chronological, i);
      previous := Some(record.ms);
      WrittenAppend(e + entries[..i], entries[i]);
      assert e + entries[..i + 1] == e + entries[..i] + [entries[i]];
    }
    assert entries[..|chronological|] == entries;
  }

  lemma TimedSorted(ordered: seq<Record>, w: nat, hz: real, a: seq<Analyzed>)
    requires w > 0 && hz > 0.0 && Timed(ordered, w, hz, a)
    ensures SortedBy(a, ContinuousOf)
  {
    var c := Ticks(ordered, w);
    UnwrapReads(c, w);
    RisingSorted(Unwrapped(c, w));
  }

  lemma RisingSorted(t: seq<int>)
    requires Rising(t)
    ensures forall i, j :: 0 <= i < j < |t| ==> t[i] <= t[j]
  {
    forall i, j | 0 <= i < j < |t| ensures t[i] <= t[j] {
      RisingBetween(t, i, j);
    }
  }

  lemma {:induction false} RisingBetween(t: seq<int>, i: nat, j: nat)
    requires Rising(t) && i <= j < |t|
    ensures t[i] <= t[j]
    decreases j
  {
    if i < j { RisingBetween(t, i, j - 1); }
  }

  lemma {:induction false} SourcesKept(a: seq<Analyzed>, r: seq<Analyzed>)
    requires |r| == |a| && forall i :: 0 <= i < |a| ==> r[i].record == a[i].record
    ensures Sources(r) == Sources(a)
  {
    if a != [] {
      SourcesKept(a[..|a| - 1], r[..|a| - 1]);
    }
  }

  /** The list is read off the times, not off the differences. */
  lemma {:induction false} ListingKept(a: seq<Analyzed>, deltas: map<nat, Option<real>>, order: seq<nat>)
    requires forall x :: x in a ==> x.record.arrival in deltas
    ensures Listing(WithDeltas(a, deltas), order) == Listing(a, order)
  {
    hide Group, Entries, WithDeltas;
    if order != [] {
      ListingKept(a, deltas, order[..|order| - 1]);
      var s := order[|order| - 1];
      forall x | x in Group(a, s) ensures x.record.arrival in deltas {
        GroupIn(a, s, x);
      }
      GroupWithDeltas(a, deltas, s);
      EntriesKept(Group(a, s), deltas);
    }
  }

  lemma EntriesKept(g: seq<Analyzed>, deltas: map<nat, Option<real>>)
    requires forall x :: x in g ==> x.record.arrival in deltas
    ensures Entries(WithDeltas(g, deltas)) == Entries(g)
  {
    hide DeltaAt;
    var h := WithDeltas(g, deltas);
    forall p | 0 <= p < |g| ensures Entries(h)[p] == Entries(g)[p] {
      DeltaIs(g, p);
      DeltaIs(h, p);
    }
  }

  /** Every record has an entry. */
  lemma EntryFor(a: seq<Analyzed>, x: Analyzed) returns (i: nat)
    requires x in a
    ensures i < |Listing(a, Sources(a))| && Listing(a, Sources(a))[i].arrival == x.record.arrival
  {
    hide Group, Listing;
    var k :| 0 <= k < |a| && a[k] == x;
    GroupHas(a, k);
    var g := Group(a, x.record.meta.sender);
    var p :| 0 <= p < |g| && g[p] == x;
    i := EntryIn(a, Sources(a), x.record.meta.sender, p);
  }

  lemma AllWritten(a: seq<Analyzed>, deltas: map<nat, Option<real>>)
    requires deltas == Written(Listing(a, Sources(a)))
    ensures forall x :: x in a ==> x.record.arrival in deltas
  {
    hide Listing, Sources, Written;
    forall x | x in a ensures x.record.arrival in deltas {
      var i := EntryFor(a, x);
      var k := WrittenIsLast(Listing(a, Sources(a)), i);
    }
  }

  /** Recording the differences in the records. */
  lemma DeltasInPlace(a: seq<Analyzed>, deltas: map<nat, Option<real>>)
    requires deltas == Written(Listing(a, Sources(a))) && forall x :: x in a ==> x.record.arrival in deltas
    ensures HasLastDelta(WithDeltas(a, deltas))
  {
    hide Listing, Sources, Written, LastAt;
    var r := WithDeltas(a, deltas);
    SourcesKept(a, r);
    ListingKept(a, deltas, Sources(a));
    forall x | x in r ensures exists k: nat :: LastAt(Listing(r, Sources(r)), k, Entry(x.record.arrival, x.delta)) {
      var n :| 0 <= n < |r| && r[n] == x;
      var i := EntryFor(a, a[n]);
      var k := WrittenIsLast(Listing(a, Sources(a)), i);
    }
  }

  lemma DeltaIs(g: seq<Analyzed>, p: nat)
    requires p < |g|
    ensures DeltaAt(g, p) == if p == 0 then None else Some(g[p].ms - g[p - 1].ms)
  {
  }

  /** The records with their timestamps cut to so many bits, in some order. */
  ghost predicate Masked(records: seq<Record>, bits: nat, a: seq<Analyzed>) {
    exists ordered: seq<Record> :: multiset(ordered) == multiset(records) && MaskedAs(ordered, bits, a)
  }

  ghost predicate MaskedAs(ordered: seq<Record>, bits: nat, a: seq<Analyzed>) {
    && |a| == |ordered|
    && forall i :: 0 <= i < |a| ==>
         a[i].record == ordered[i].(meta := ordered[i].meta.(rxTime := LowBits(ordered[i].meta.rxTime, bits)))
  }

  lemma TimedIsMasked(records: seq<Record>, bits: nat, hz: real, a: seq<Analyzed>)
    requires hz > 0.0 && Timed(SortBy(records, ArrivalOf), Pow2(bits), hz, a)
    ensures Masked(records, bits, a)
    ensures forall i, j :: 0 <= i < j < |a| ==> a[i].record.arrival <= a[j].record.arrival
  {
    hide Ms, LowBits, Pow2, Unwrapped, SortBy;
    var ordered := SortBy(records, ArrivalOf);
    SortSorts(records, ArrivalOf);
    forall i | 0 <= i < |a|
      ensures a[i].record == ordered[i].(meta := ordered[i].meta.(rxTime := LowBits(ordered[i].meta.rxTime, bits)))
    {
      MaskIsLowBits(ordered[i].meta.rxTime, bits);
    }
    assert MaskedAs(ordered, bits, a);
    forall i, j | 0 <= i < j < |a| ensures a[i].record.arrival <= a[j].record.arrival {
      assert ArrivalOf(ordered[i]) <= ArrivalOf(ordered[j]);
    }
  }

  /** analyze_records: every record in order of arrival, with its unwrapped time and
      the difference listed last for its arrival number; if no two arrival numbers
      are equal, that is the difference to the record before it from its source. */
  method AnalyzeRecords(records: seq<Record>, bits: int, tickHz: real) returns (r: Outcome)
    ensures if !(1 <= bits <= 64) then r == BadBits
            else if tickHz <= 0.0 then r == BadRate
            else r.Done? && Timed(SortBy(records, ArrivalOf), Pow2(bits), tickHz, r.records) && HasLastDelta(r.records)
                 && (DistinctArrivals(r.records) ==> HasDeltas(r.records))
    ensures r.Done? ==>
      && (forall i, j :: 0 <= i < j < |r.records| ==> r.records[i].record.arrival <= r.records[j].record.arrival)
      && Masked(records, bits, r.records)
  {
    hide Timed, Group, HasDeltas, HasLastDelta, DistinctArrivals, SortBy, Sources, Written, Entries, Pow2, Masked;
    if !(1 <= bits <= 64) {
      return BadBits;
    }
    if tickHz <= 0.0 {
      return BadRate;
    }
    var ordered := SortBy(records, ArrivalOf);
    var analyzed := UnwrapRecords(ordered, Pow2(bits), tickHz);
    TimedSorted(ordered, Pow2(bits), tickHz, analyzed);
    var groups, order := GroupRecords(analyzed);
    var deltas: map<nat, Option<real>> := map[];
    NothingWritten();
    for j := 0 to |order|
      invariant deltas == Written(Listing(analyzed, order[..j]))
    {
      var group := groups[order[j]];
      var chronological := SortBy(group, ContinuousOf);
      GroupSorted(analyzed, order[j]);
      SortKeepsSorted(group, ContinuousOf);
      deltas := AddDeltas(chronological, deltas, Listing(analyzed, order[..j]));
      assert order[..j + 1][..j] == order[..j];
    }
    assert order[..|order|] == order;
    AllWritten(analyzed, deltas);
    r := Done(WithDeltas(analyzed, deltas));
    DeltasKeepTimes(ordered, Pow2(bits), tickHz, analyzed, deltas);
    DeltasInPlace(analyzed, deltas);
    TimedIsMasked(records, bits, tickHz, r.records);
    if DistinctArrivals(r.records) {
      LastIsOnly(r.records);
    }
  }

  lemma NothingWritten()
    ensures Written([]) == map[]
  {
  }

  lemma DeltasKeepTimes(ordered: seq<Record>, w: nat, hz: real, a: seq<Analyzed>, deltas: map<nat, Option<real>>)
    requires w > 0 && hz > 0.0 && Timed(ordered, w, hz, a) && forall x :: x in a ==> x.record.arrival in deltas
    ensures Timed(ordered, w, hz, WithDeltas(a, deltas))
  {
    var r := WithDeltas(a, deltas);
    assert forall i :: 0 <= i < |a| ==> r[i].record == a[i].record;
  }

  // ------------------------------------------------------ what it amounts to

  function Sum(s: seq<real>): real {
    if s == [] then 0.0 else Sum(s[..|s| - 1]) + s[|s| - 1]
  }

  /** The differences in g after its first record. */
  function Differences(g: seq<Analyzed>): (d: seq<real>)
    requires forall p :: 0 < p < |g| ==> g[p].delta.Some?
    ensures |d| == if g == [] then 0 else |g| - 1
  {
    if g == [] then [] else seq(|g| - 1, p requires 0 <= p < |g| - 1 => g[p + 1].delta.value)
  }

  lemma {:induction false} DifferencesSum(g: seq<Analyzed>)
    requires g != [] && (forall p :: 0 < p < |g| ==> g[p].delta.Some?)
    requires forall p :: 0 <= p < |g| ==> g[p].delta == DeltaAt(g, p)
    ensures Sum(Differences(g)) == g[|g| - 1].ms - g[0].ms
  {
    if |g| > 1 {
      var b := g[..|g| - 1];
      forall p | 0 <= p < |b| ensures b[p].delta == DeltaAt(b, p) {
        assert g[p].delta == DeltaAt(g, p);
      }
      DifferencesSum(b);
      assert Differences(g)[..|g| - 2] == Differences(b);
    }
  }

  /** Each source's differences are none below zero, and add up to the time from
      its first record to its last. */
  lemma SourceDifferences(ordered: seq<Record>, w: nat, hz: real, a: seq<Analyzed>, source: nat)
    requires w > 0 && hz > 0.0 && Timed(ordered, w, hz, a) && HasDeltas(a) && Group(a, source) != []
    ensures var g := Group(a, source);
      && g[0].delta == None && (forall p :: 0 < p < |g| ==> g[p].delta.Some? && g[p].delta.value >= 0.0)
      && Sum(Differences(g)) == Ms(g[|g| - 1].continuous - g[0].continuous, hz)
  {
    hide DeltaAt, Group, Timed, Ms;
    var g := Group(a, source);
    TimedSorted(ordered, w, hz, a);
    GroupSorted(a, source);
    forall p: nat | p < |g| ensures g[p].delta == DeltaAt(g, p) {
      assert Group(a, source)[p].delta == DeltaAt(Group(a, source), p);
    }
    forall p: nat | p < |g| ensures NextAfter(g, p, hz) {
      SameZero(ordered, w, hz, a, source, g[p], g[0]);
      DeltaIs(g, p);
      if p > 0 {
        SameZero(ordered, w, hz, a, source, g[p], g[p - 1]);
        assert ContinuousOf(g[p - 1]) <= ContinuousOf(g[p]);
      }
    }
    assert NextAfter(g, 0, hz) && NextAfter(g, |g| - 1, hz);
    forall p | 0 < p < |g| ensures g[p].delta.Some? && g[p].delta.value >= 0.0 {
      assert NextAfter(g, p, hz);
    }
    DifferencesSum(g);
  }

  ghost predicate NextAfter(g: seq<Analyzed>, p: nat, hz: real)
    requires p < |g| && hz > 0.0
  {
    && g[p].ms - g[0].ms == Ms(g[p].continuous - g[0].continuous, hz)
    && if p == 0 then g[p].delta == None else g[p].delta.Some? && g[p].delta.value >= 0.0
  }

  lemma SameZero(ordered: seq<Record>, w: nat, hz: real, a: seq<Analyzed>, source: nat, x: Analyzed, y: Analyzed)
    requires w > 0 && hz > 0.0 && Timed(ordered, w, hz, a) && x in Group(a, source) && y in Group(a, source)
    ensures x.ms - y.ms == Ms(x.continuous - y.continuous, hz)
    ensures x.continuous >= y.continuous ==> x.ms >= y.ms
  {
    hide Ms, Unwrapped, Group;
    GroupIn(a, source, x);
    GroupIn(a, source, y);
    var i :| 0 <= i < |a| && a[i] == x;
    var j :| 0 <= j < |a| && a[j] == y;
    var u := Unwrapped(Ticks(ordered, w), w);
    MsApart(u[i] - u[0], u[j] - u[0], hz);
    assert u[i] - u[0] - (u[j] - u[0]) == x.continuous - y.continuous;
  }

  /** With 40 bits the analyzer changes exactly the timestamps that parse_binary has
      reported. */
  lemma MaskedAreReported(data: seq<byte>, max: nat, i: nat)
    requires i < |Parse(data, max, 0, 0, {}).records|
    ensures var p := Parse(data, max, 0, 0, {});
      var r := p.records[i];
      LowBits(r.meta.rxTime, 40) != r.meta.rxTime <==> ParseError(r.offset, TimestampHighBits) in p.errors
  {
    hide Parse, LowBits, Pow2, Repeats;
    var p := Parse(data, max, 0, 0, {});
    var v := p.records[i].meta.rxTime;
    FortyBits();
    MaskIsLowBits(v, 40);
    BelowPeriod(v, 0x100_0000_0000);
    DiagnosticsTrue(data, max, 0, 0, {});
    ParseIsSound(data, max, 0, 0, {});
    if ParseError(p.records[i].offset, TimestampHighBits) in p.errors {
      assert True(data, max, {}, p.records, ParseError(p.records[i].offset, TimestampHighBits));
      var j: nat :| j < |p.records| && p.records[j].offset == p.records[i].offset
        && p.records[j].meta.rxTime >= 0x100_0000_0000;
      assert RecordAt(data, max, p.records[i].offset) && RecordAt(data, max, p.records[j].offset);
      assert j == i;
    }
  }

  lemma BelowPeriod(v: nat, w: nat)
    requires w > 0
    ensures v % w == v <==> v < w
  {
    if v < w { QuotientIs(v, 0, v, w); }
  }

  /** The records of parse_binary are in order of arrival, each with its own
      number: sorting leaves them as they are. */
  lemma ParsedInOrder(data: seq<byte>, max: nat)
    ensures var records := Parse(data, max, 0, 0, {}).records;
      && SortBy(records, ArrivalOf) == records
      && forall i, j :: 0 <= i < j < |records| ==> records[i].arrival != records[j].arrival
  {
    var records := Parse(data, max, 0, 0, {}).records;
    ParseIsSound(data, max, 0, 0, {});
    forall i | 0 <= i < |records| ensures records[i].arrival == i {
      assert RecordAt(data, max, records[i].offset);
    }
    SortKeepsSorted(records, ArrivalOf);
  }
}
