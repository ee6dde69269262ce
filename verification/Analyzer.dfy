/**
  parse_binary (analyze_sniffer_binary.py:54-111): the batch parser that searches
  for the next magic after corrupt bytes.
*/
module Analyzer {
  import opened Wire

  datatype Kind = TruncatedMeta | MagicMismatch | InvalidLength | TruncatedPayload | DuplicateRecord | TimestampHighBits

  datatype ParseError = ParseError(offset: nat, kind: Kind)

  /** PacketRecord before any timestamp analysis. */
  datatype Record = Record(arrival: nat, offset: nat, meta: Meta, payload: seq<byte>)

  datatype Parsed = Parsed(records: seq<Record>, errors: seq<ParseError>, consumed: nat, resyncs: nat)

  /** Source, sequence, timestamp and payload. */
  type Identity = (nat, nat, nat, seq<byte>)

  function Join(a: Parsed, b: Parsed): Parsed {
    Parsed(a.records + b.records, a.errors + b.errors, b.consumed, a.resyncs + b.resyncs)
  }

  /** Whether a whole record with an allowed length starts at `offset`. */
  predicate RecordAt(data: seq<byte>, max: nat, offset: nat) {
    offset + META <= |data| && MagicAt(data, offset)
    && LengthAt(data, offset) <= max && offset + META + LengthAt(data, offset) <= |data|
  }

  function EndOf(data: seq<byte>, offset: nat): nat
    requires offset + META <= |data|
  {
    offset + META + LengthAt(data, offset)
  }

  function MakeRecord(data: seq<byte>, arrival: nat, offset: nat): Record
    requires offset + META <= |data| && EndOf(data, offset) <= |data|
  {
    Record(arrival, offset, DecodeMeta(data, offset), data[offset + META..EndOf(data, offset)])
  }

  function IdentityOf(r: Record): Identity {
    (r.meta.sender, r.meta.sequence, r.meta.rxTime, r.payload)
  }

  /** The diagnostics that come with an accepted record. */
  function Remarks(r: Record, seen: set<Identity>): seq<ParseError> {
    (if IdentityOf(r) in seen then [ParseError(r.offset, DuplicateRecord)] else [])
    + (if r.meta.rxTime >= 0x100_0000_0000 then [ParseError(r.offset, TimestampHighBits)] else [])
  }

  /** Parsing from `offset` on. */
  function Parse(data: seq<byte>, max: nat, offset: nat, arrival: nat, seen: set<Identity>): (p: Parsed)
    requires offset <= |data|
    ensures offset <= p.consumed <= |data|
    decreases |data| - offset
  {
    if offset == |data| then Parsed([], [], offset, 0)
    else if |data| < offset + META then Parsed([], [ParseError(offset, TruncatedMeta)], offset, 0)
    else if !MagicAt(data, offset) then
      Search(data, max, offset, offset + 1, MagicMismatch, arrival, seen)
    else if LengthAt(data, offset) > max then
      Search(data, max, offset, offset + 1, InvalidLength, arrival, seen)
    else if EndOf(data, offset) > |data| then
      Search(data, max, offset, offset + META, TruncatedPayload, arrival, seen)
    else
      var r := MakeRecord(data, arrival, offset);
      Join(Parsed([r], Remarks(r, seen), offset, 0),
           Parse(data, max, EndOf(data, offset), arrival + 1, seen + {IdentityOf(r)}))
  }

  /** Report a fault at `offset` and go on at the next magic from `from` on. */
  function Search(data: seq<byte>, max: nat, offset: nat, from: nat, kind: Kind, arrival: nat,
          seen: set<Identity>): (p: Parsed)
    requires offset < from <= |data|
    ensures offset <= p.consumed <= |data|
    decreases |data| - offset, 0
  {
    var next := FindMagic(data, from);
    if next == -1 then Parsed([], [ParseError(offset, kind)], offset, 0)
    else Join(Parsed([], [ParseError(offset, kind)], offset, 1), Parse(data, max, next, arrival, seen))
  }

  lemma JoinAssociates(a: Parsed, b: Parsed, c: Parsed)
    ensures Join(Join(a, b), c) == Join(a, Join(b, c))
  {
    assert a.records + b.records + c.records == a.records + (b.records + c.records);
    assert a.errors + b.errors + c.errors == a.errors + (b.errors + c.errors);
  }

  /** The fault at `offset` and where the search after it starts. */
  function FaultAt(data: seq<byte>, max: nat, offset: nat): (Kind, nat)
    requires offset + META <= |data| && !RecordAt(data, max, offset)
  {
    if !MagicAt(data, offset) then (MagicMismatch, offset + 1)
    else if LengthAt(data, offset) > max then (InvalidLength, offset + 1)
    else (TruncatedPayload, offset + META)
  }

  lemma FaultStep(acc: Parsed, data: seq<byte>, max: nat, offset: nat, arrival: nat, seen: set<Identity>)
    requires offset + META <= |data| && !RecordAt(data, max, offset)
    ensures var (kind, from) := FaultAt(data, max, offset);
            var p := Join(acc, Parse(data, max, offset, arrival, seen));
            var errors := acc.errors + [ParseError(offset, kind)];
            var next := FindMagic(data, from);
            p == if next == -1 then Parsed(acc.records, errors, offset, acc.resyncs)
                 else Join(Parsed(acc.records, errors, offset, acc.resyncs + 1), Parse(data, max, next, arrival, seen))
  {
    var (kind, from) := FaultAt(data, max, offset);
    var next := FindMagic(data, from);
    assert acc.records + [] == acc.records;
    if next != -1 {
      JoinAssociates(acc, Parsed([], [ParseError(offset, kind)], offset, 1), Parse(data, max, next, arrival, seen));
    }
  }

  lemma RecordStep(acc: Parsed, data: seq<byte>, max: nat, offset: nat, arrival: nat, seen: set<Identity>)
    requires RecordAt(data, max, offset)
    ensures var r := MakeRecord(data, arrival, offset);
            Join(acc, Parse(data, max, offset, arrival, seen)) ==
            Join(Parsed(acc.records + [r], acc.errors + Remarks(r, seen), offset, acc.resyncs),
                 Parse(data, max, EndOf(data, offset), arrival + 1, seen + {IdentityOf(r)}))
  {
    var r := MakeRecord(data, arrival, offset);
    JoinAssociates(acc, Parsed([r], Remarks(r, seen), offset, 0),
                   Parse(data, max, EndOf(data, offset), arrival + 1, seen + {IdentityOf(r)}));
  }

  lemma EndStep(acc: Parsed, data: seq<byte>, max: nat, offset: nat, arrival: nat, seen: set<Identity>)
    requires offset <= |data| < offset + META
    ensures Join(acc, Parse(data, max, offset, arrival, seen)) ==
      var last := if offset == |data| then [] else [ParseError(offset, TruncatedMeta)];
      Parsed(acc.records, acc.errors + last, offset, acc.resyncs)
  {
    assert acc.records + [] == acc.records;
  }

  /** parse_binary itself. */
  method ParseBinary(data: seq<byte>, max: nat) returns (p: Parsed)
    ensures p == Parse(data, max, 0, 0, {})
  {
    hide Parse, Search, FindMagic, Join;
    var records: seq<Record>, errors: seq<ParseError> := [], [];
    var offset: nat, resyncs: nat := 0, 0;
    var seen: set<Identity> := {};
    ghost var whole := Parse(data, max, 0, 0, {});
    JoinNothing(whole);
    while offset < |data|
      invariant offset <= |data|
      invariant whole == Join(Parsed(records, errors, 0, resyncs), Parse(data, max, offset, |records|, seen))
      decreases |data| - offset
    {
      ghost var acc := Parsed(records, errors, 0, resyncs);
      if |data| - offset < META {
        EndStep(acc, data, max, offset, |records|, seen);
        errors := errors + [ParseError(offset, TruncatedMeta)];
        return Parsed(records, errors, offset, resyncs);
      }
      if !MagicAt(data, offset) {
        FaultStep(acc, data, max, offset, |records|, seen);
        errors := errors + [ParseError(offset, MagicMismatch)];
        var next := FindMagic(data, offset + 1);
        if next == -1 {
          return Parsed(records, errors, offset, resyncs);
        }
        JoinConsumed(records, errors, offset, resyncs + 1, Parse(data, max, next, |records|, seen));
        resyncs, offset := resyncs + 1, next;
      } else if LengthAt(data, offset) > max {
        FaultStep(acc, data, max, offset, |records|, seen);
        errors := errors + [ParseError(offset, InvalidLength)];
        var next := FindMagic(data, offset + 1);
        if next == -1 {
          return Parsed(records, errors, offset, resyncs);
        }
        JoinConsumed(records, errors, offset, resyncs + 1, Parse(data, max, next, |records|, seen));
        resyncs, offset := resyncs + 1, next;
      } else if EndOf(data, offset) > |data| {
        FaultStep(acc, data, max, offset, |records|, seen);
        errors := errors + [ParseError(offset, TruncatedPayload)];
        var next := FindMagic(data, offset + META);
        if next == -1 {
          return Parsed(records, errors, offset, resyncs);
        }
        JoinConsumed(records, errors, offset, resyncs + 1, Parse(data, max, next, |records|, seen));
        resyncs, offset := resyncs + 1, next;
      } else {
        RecordStep(acc, data, max, offset, |records|, seen);
        var r := MakeRecord(data, |records|, offset);
        JoinConsumed(records + [r], errors + Remarks(r, seen), offset, resyncs,
                     Parse(data, max, EndOf(data, offset), |records| + 1, seen + {IdentityOf(r)}));
        records, errors := records + [r], errors + Remarks(r, seen);
        seen := seen + {IdentityOf(r)};
        offset := EndOf(data, offset);
      }
    }
    EndStep(Parsed(records, errors, 0, resyncs), data, max, offset, |records|, seen);
    assert errors + [] == errors;
    p := Parsed(records, errors, offset, resyncs);
  }

  lemma JoinNothing(p: Parsed)
    ensures Join(Parsed([], [], 0, 0), p) == p
  {
    assert [] + p.records == p.records && [] + p.errors == p.errors;
  }

  lemma JoinConsumed(records: seq<Record>, errors: seq<ParseError>, consumed: nat, resyncs: nat, rest: Parsed)
    ensures Join(Parsed(records, errors, consumed, resyncs), rest) == Join(Parsed(records, errors, 0, resyncs), rest)
  {
  }

  // ------------------------------------------------------------------ sound

  /** Records are real, in order and disjoint, and numbered in order of arrival. */
  ghost predicate Sound(data: seq<byte>, max: nat, offset: nat, arrival: nat, records: seq<Record>) {
    && (forall i :: 0 <= i < |records| ==>
          RecordAt(data, max, records[i].offset) && records[i] == MakeRecord(data, arrival + i, records[i].offset))
    && (forall i :: 0 <= i < |records| ==> offset <= records[i].offset)
    && (forall i, j :: 0 <= i < j < |records| ==> RecordAt(data, max, records[i].offset) ==>
          EndOf(data, records[i].offset) <= records[j].offset)
  }

  lemma {:induction false} ParseIsSound(data: seq<byte>, max: nat, offset: nat, arrival: nat, seen: set<Identity>)
    requires offset <= |data|
    ensures Sound(data, max, offset, arrival, Parse(data, max, offset, arrival, seen).records)
    decreases |data| - offset
  {
    var p := Parse(data, max, offset, arrival, seen);
    if |data| < offset + META {
    } else if RecordAt(data, max, offset) {
      var r := MakeRecord(data, arrival, offset);
      var rest := Parse(data, max, EndOf(data, offset), arrival + 1, seen + {IdentityOf(r)}).records;
      ParseIsSound(data, max, EndOf(data, offset), arrival + 1, seen + {IdentityOf(r)});
      SoundCons(data, max, offset, arrival, rest);
    } else {
      var from := if !MagicAt(data, offset) || LengthAt(data, offset) > max then offset + 1 else offset + META;
      var next := FindMagic(data, from);
      if next != -1 {
        ParseIsSound(data, max, next, arrival, seen);
        assert p.records == Parse(data, max, next, arrival, seen).records;
      }
    }
  }

  lemma SoundCons(data: seq<byte>, max: nat, offset: nat, arrival: nat, rest: seq<Record>)
    requires RecordAt(data, max, offset) && Sound(data, max, EndOf(data, offset), arrival + 1, rest)
    ensures Sound(data, max, offset, arrival, [MakeRecord(data, arrival, offset)] + rest)
  {
    var all := [MakeRecord(data, arrival, offset)] + rest;
    forall i | 0 <= i < |all|
      ensures RecordAt(data, max, all[i].offset) && all[i] == MakeRecord(data, arrival + i, all[i].offset)
    {
      if i > 0 { assert all[i] == rest[i - 1]; }
    }
  }

  /** An accepted record has as many payload bytes as its decoded meta declares. */
  lemma PayloadsAsDeclared(data: seq<byte>, max: nat)
    ensures forall r :: r in Parse(data, max, 0, 0, {}).records ==> |r.payload| == r.meta.length <= max
  {
    hide Parse, DecodeMeta;
    var records := Parse(data, max, 0, 0, {}).records;
    ParseIsSound(data, max, 0, 0, {});
    forall r | r in records ensures |r.payload| == r.meta.length <= max {
      var i :| 0 <= i < |records| && records[i] == r;
      LengthIsDecoded(data, r.offset);
    }
  }

  // ------------------------------------------------------------- diagnostics

  /** The meta at `offset` is whole and starts with the magic, but is over-long. */
  predicate OverlongAt(data: seq<byte>, max: nat, offset: nat) {
    offset + META <= |data| && MagicAt(data, offset) && LengthAt(data, offset) > max
  }

  /** ... or its length is allowed and reaches past the end. */
  predicate TruncatedAt(data: seq<byte>, max: nat, offset: nat) {
    offset + META <= |data| && MagicAt(data, offset) && LengthAt(data, offset) <= max && EndOf(data, offset) > |data|
  }

  /** Record i repeats a record seen before. */
  ghost predicate Repeats(records: seq<Record>, seen: set<Identity>, i: nat)
    requires i < |records|
  {
    IdentityOf(records[i]) in seen || exists j :: 0 <= j < i && IdentityOf(records[j]) == IdentityOf(records[i])
  }

  /** What a diagnostic says is so. */
  ghost predicate True(data: seq<byte>, max: nat, seen: set<Identity>, records: seq<Record>, e: ParseError) {
    match e.kind
    case TruncatedMeta => e.offset < |data| < e.offset + META
    case MagicMismatch => e.offset + META <= |data| && !MagicAt(data, e.offset)
    case InvalidLength => OverlongAt(data, max, e.offset)
    case TruncatedPayload => TruncatedAt(data, max, e.offset)
    case DuplicateRecord => exists i: nat :: i < |records| && records[i].offset == e.offset && Repeats(records, seen, i)
    case TimestampHighBits =>
      exists i: nat :: i < |records| && records[i].offset == e.offset && records[i].meta.rxTime >= 0x100_0000_0000
  }

  /** Every diagnostic of the parse is true of the data, and every repeated record
      and every timestamp of more than 40 bits has its diagnostic. */
  ghost predicate Diagnosed(data: seq<byte>, max: nat, seen: set<Identity>, p: Parsed) {
    && (forall e :: e in p.errors ==> True(data, max, seen, p.records, e))
    && (forall i: nat :: i < |p.records| && Repeats(p.records, seen, i) ==>
          ParseError(p.records[i].offset, DuplicateRecord) in p.errors)
    && (forall i: nat :: i < |p.records| && p.records[i].meta.rxTime >= 0x100_0000_0000 ==>
          ParseError(p.records[i].offset, TimestampHighBits) in p.errors)
  }

  lemma {:induction false} DiagnosticsTrue(data: seq<byte>, max: nat, offset: nat, arrival: nat, seen: set<Identity>)
    requires offset <= |data|
    ensures Diagnosed(data, max, seen, Parse(data, max, offset, arrival, seen))
    decreases |data| - offset
  {
    hide Diagnosed, FindMagic, Remarks, IdentityOf;
    var p := Parse(data, max, offset, arrival, seen);
    if offset == |data| {
      NothingDiagnosed(data, max, seen, p);
    } else if |data| < offset + META {
      FaultDiagnosed(data, max, seen, Parsed([], [ParseError(offset, TruncatedMeta)], offset, 0));
    } else if RecordAt(data, max, offset) {
      var r := MakeRecord(data, arrival, offset);
      var rest := Parse(data, max, EndOf(data, offset), arrival + 1, seen + {IdentityOf(r)});
      DiagnosticsTrue(data, max, EndOf(data, offset), arrival + 1, seen + {IdentityOf(r)});
      RecordDiagnosed(data, max, seen, r, rest);
    } else {
      var (kind, from) := FaultAt(data, max, offset);
      var fault := Parsed([], [ParseError(offset, kind)], offset, 0);
      FaultDiagnosed(data, max, seen, fault);
      var next := FindMagic(data, from);
      assert p == Search(data, max, offset, from, kind, arrival, seen);
      if next != -1 {
        DiagnosticsTrue(data, max, next, arrival, seen);
        FaultThen(data, max, seen, Parsed([], [ParseError(offset, kind)], offset, 1),
          Parse(data, max, next, arrival, seen));
      }
    }
  }

  lemma NothingDiagnosed(data: seq<byte>, max: nat, seen: set<Identity>, p: Parsed)
    requires p.records == [] && p.errors == []
    ensures Diagnosed(data, max, seen, p)
  {
  }

  lemma FaultDiagnosed(data: seq<byte>, max: nat, seen: set<Identity>, p: Parsed)
    requires p.records == [] && |p.errors| == 1 && True(data, max, seen, [], p.errors[0])
    ensures Diagnosed(data, max, seen, p)
  {
  }

  lemma FaultThen(data: seq<byte>, max: nat, seen: set<Identity>, fault: Parsed, rest: Parsed)
    requires fault.records == [] && Diagnosed(data, max, seen, fault) && Diagnosed(data, max, seen, rest)
    requires forall e :: e in fault.errors ==> e.kind != DuplicateRecord && e.kind != TimestampHighBits
    ensures Diagnosed(data, max, seen, Join(fault, rest))
  {
    assert [] + rest.records == rest.records;
  }

  /** A record in front moves the others up by one. */
  lemma RecordDiagnosed(data: seq<byte>, max: nat, seen: set<Identity>, r: Record, rest: Parsed)
    requires Diagnosed(data, max, seen + {IdentityOf(r)}, rest)
    ensures Diagnosed(data, max, seen, Join(Parsed([r], Remarks(r, seen), r.offset, 0), rest))
  {
    hide IdentityOf;
    var all := [r] + rest.records;
    forall i: nat | i < |rest.records|
      ensures Repeats(all, seen, i + 1) <==> Repeats(rest.records, seen + {IdentityOf(r)}, i)
    {
      RepeatsLater(r, rest.records, seen, i);
    }
    var p := Join(Parsed([r], Remarks(r, seen), r.offset, 0), rest);
    forall e | e in p.errors ensures True(data, max, seen, all, e) {
      if e in rest.errors {
        TrueLater(data, max, seen, r, rest.records, e);
      } else {
        assert all[0] == r;
      }
    }
    forall i: nat | i < |all|
      ensures Repeats(all, seen, i) ==> ParseError(all[i].offset, DuplicateRecord) in p.errors
      ensures all[i].meta.rxTime >= 0x100_0000_0000 ==> ParseError(all[i].offset, TimestampHighBits) in p.errors
    {
      if i > 0 { assert all[i] == rest.records[i - 1]; }
    }
  }

  lemma RepeatsLater(r: Record, records: seq<Record>, seen: set<Identity>, i: nat)
    requires i < |records|
    ensures Repeats([r] + records, seen, i + 1) <==> Repeats(records, seen + {IdentityOf(r)}, i)
  {
    var all := [r] + records;
    assert all[0] == r && all[i + 1] == records[i];
    if j :| 0 <= j < i && IdentityOf(records[j]) == IdentityOf(records[i]) {
      assert all[j + 1] == records[j];
    }
    if j :| 0 <= j < i + 1 && IdentityOf(all[j]) == IdentityOf(all[i + 1]) {
      if j > 0 { assert all[j] == records[j - 1]; }
    }
  }

  lemma TrueLater(data: seq<byte>, max: nat, seen: set<Identity>, r: Record, records: seq<Record>, e: ParseError)
    requires True(data, max, seen + {IdentityOf(r)}, records, e)
    ensures True(data, max, seen, [r] + records, e)
  {
    var all := [r] + records;
    if e.kind == DuplicateRecord {
      var i: nat :| i < |records| && records[i].offset == e.offset && Repeats(records, seen + {IdentityOf(r)}, i);
      RepeatsLater(r, records, seen, i);
      assert all[i + 1] == records[i];
    } else if e.kind == TimestampHighBits {
      var i: nat :| i < |records| && records[i].offset == e.offset && records[i].meta.rxTime >= 0x100_0000_0000;
      assert all[i + 1] == records[i];
    }
  }

  /** Diagnostics about the stream, not about an accepted record. */
  predicate Framing(e: ParseError) {
    e.kind != DuplicateRecord && e.kind != TimestampHighBits
  }

  function Faults(errors: seq<ParseError>): nat {
    if errors == [] then 0 else Faults(errors[..|errors| - 1]) + if Framing(errors[|errors| - 1]) then 1 else 0
  }

  lemma {:induction false} FaultsAppend(a: seq<ParseError>, b: seq<ParseError>)
    ensures Faults(a + b) == Faults(a) + Faults(b)
  {
    if b == [] {
      assert a + b == a;
    } else {
      assert (a + b)[..|a + b| - 1] == a + b[..|b| - 1];
      FaultsAppend(a, b[..|b| - 1]);
    }
  }

  lemma NoFaults(r: Record, seen: set<Identity>)
    ensures Faults(Remarks(r, seen)) == 0
  {
    hide IdentityOf;
    var repeated := ParseError(r.offset, DuplicateRecord);
    var late := ParseError(r.offset, TimestampHighBits);
    assert [repeated][..0] == [] && [late][..0] == [];
    FaultsAppend([repeated], [late]);
    assert Remarks(r, seen) in {[], [] + [], [repeated] + [], [] + [late], [repeated] + [late]};
  }

  lemma NoneIsNone()
    ensures Faults([]) == 0
  {
  }

  lemma OneFault(offset: nat, kind: Kind)
    requires kind != DuplicateRecord && kind != TimestampHighBits
    ensures Faults([ParseError(offset, kind)]) == 1
  {
    assert [ParseError(offset, kind)][..0] == [];
  }

  /** Every fault is resynchronized from, but for one at which parsing gives up: then
      bytes are left over. */
  lemma {:induction false} FaultsAreResyncs(data: seq<byte>, max: nat, offset: nat, arrival: nat, seen: set<Identity>)
    requires offset <= |data|
    ensures var p := Parse(data, max, offset, arrival, seen);
      Faults(p.errors) == p.resyncs + if p.consumed < |data| then 1 else 0
    decreases |data| - offset
  {
    hide FindMagic, Remarks, IdentityOf, Faults;
    if offset == |data| {
      NoneIsNone();
    } else if |data| < offset + META {
      OneFault(offset, TruncatedMeta);
    } else if RecordAt(data, max, offset) {
      var r := MakeRecord(data, arrival, offset);
      FaultsAreResyncs(data, max, EndOf(data, offset), arrival + 1, seen + {IdentityOf(r)});
      NoFaults(r, seen);
      FaultsAppend(Remarks(r, seen), Parse(data, max, EndOf(data, offset), arrival + 1, seen + {IdentityOf(r)}).errors);
    } else {
      var (kind, from) := FaultAt(data, max, offset);
      OneFault(offset, kind);
      var next := FindMagic(data, from);
      assert Parse(data, max, offset, arrival, seen) == Search(data, max, offset, from, kind, arrival, seen);
      if next != -1 {
        FaultsAreResyncs(data, max, next, arrival, seen);
        FaultsAppend([ParseError(offset, kind)], Parse(data, max, next, arrival, seen).errors);
      }
    }
  }

  // --------------------------------------------------------- misses nothing

  /** What became of the magic at m: it is in an accepted record, or starts an
      over-long meta, or lies in the header of a truncated one (both reported), or
      is too close to the end for a header. */
  ghost predicate Accounted(data: seq<byte>, max: nat, p: Parsed, m: nat) {
    || (exists r :: r in p.records && r.offset <= m < r.offset + META + |r.payload|)
    || (OverlongAt(data, max, m) && ParseError(m, InvalidLength) in p.errors)
    || (exists t: nat ::
          TruncatedAt(data, max, t) && ParseError(t, TruncatedPayload) in p.errors && t <= m < t + META)
    || m + META > |data|
  }

  lemma AccountedLater(data: seq<byte>, max: nat, a: Parsed, b: Parsed, m: nat)
    requires Accounted(data, max, b, m)
    ensures Accounted(data, max, Join(a, b), m)
  {
    var j := Join(a, b);
    if r :| r in b.records && r.offset <= m < r.offset + META + |r.payload| {
      assert r in j.records;
    } else if t: nat :| TruncatedAt(data, max, t) && ParseError(t, TruncatedPayload) in b.errors && t <= m < t + META {
      assert ParseError(t, TruncatedPayload) in j.errors;
    }
  }

  /** Every occurrence of the magic from `offset` on is accounted for. */
  lemma {:induction false} NothingMissed(data: seq<byte>, max: nat, offset: nat, arrival: nat, seen: set<Identity>,
      m: nat)
    requires offset <= m && MagicAt(data, m)
    ensures Accounted(data, max, Parse(data, max, offset, arrival, seen), m)
    decreases |data| - offset
  {
    if |data| < offset + META {
    } else if RecordAt(data, max, offset) {
      var r := MakeRecord(data, arrival, offset);
      var head := Parsed([r], Remarks(r, seen), offset, 0);
      var rest := Parse(data, max, EndOf(data, offset), arrival + 1, seen + {IdentityOf(r)});
      if m < EndOf(data, offset) {
        assert r in Join(head, rest).records;
      } else {
        NothingMissed(data, max, EndOf(data, offset), arrival + 1, seen + {IdentityOf(r)}, m);
        AccountedLater(data, max, head, rest, m);
      }
    } else {
      var p := Parse(data, max, offset, arrival, seen);
      var (kind, from) := FaultAt(data, max, offset);
      assert p == Search(data, max, offset, from, kind, arrival, seen);
      assert ParseError(offset, kind) in p.errors;
      if from <= m {
        var next := FindMagic(data, from);
        NothingMissed(data, max, next, arrival, seen, m);
        AccountedLater(data, max, Parsed([], [ParseError(offset, kind)], offset, 1),
          Parse(data, max, next, arrival, seen), m);
      } else if kind == TruncatedPayload {
        assert TruncatedAt(data, max, offset);
      }
    }
  }

  // ----------------------------------------------------- a well-formed file

  /** Record r is frame f, found at `offset`. */
  ghost predicate Holds(data: seq<byte>, offset: nat, f: seq<byte>, r: Record) {
    && r.offset == offset && META <= |f| && offset + |f| <= |data| && data[offset..offset + |f|] == f
    && r.payload == f[META..] && r.meta == DecodeMeta(f, 0)
  }

  /** The records of p begin with these frames, one after the other. */
  ghost predicate Begins(data: seq<byte>, start: nat, frames: seq<seq<byte>>, p: Parsed) {
    && |frames| <= |p.records|
    && (forall i :: 0 <= i < |frames| ==> Holds(data, start + |Concat(frames[..i])|, frames[i], p.records[i]))
  }

  /** p parses `data` from `start` on into exactly these frames, to the end. */
  ghost predicate Clean(data: seq<byte>, start: nat, frames: seq<seq<byte>>, p: Parsed) {
    && Begins(data, start, frames, p) && |p.records| == |frames|
    && p.consumed == |data| && p.resyncs == 0
    && (forall e :: e in p.errors ==> !Framing(e))
  }

  /** Whole frames are parsed back, even where payloads contain the magic: to
      exactly those frames with no framing diagnostic if nothing follows them. */
  lemma {:induction false} FramesParseBack(pre: seq<byte>, frames: seq<seq<byte>>, tail: seq<byte>, max: nat,
          arrival: nat, seen: set<Identity>)
    requires forall f :: f in frames ==> IsFrame(f, max)
    ensures var data := pre + Concat(frames) + tail;
            var p := Parse(data, max, |pre|, arrival, seen);
            Begins(data, |pre|, frames, p) && (tail == [] ==> Clean(data, |pre|, frames, p))
    decreases |frames|
  {
    hide Begins, Clean, Search, FindMagic, Framing;
    var data := pre + Concat(frames) + tail;
    if frames == [] {
      CleanEnd(data, max, |pre|, arrival, seen);
    } else {
      var f := frames[0];
      assert IsFrame(f, max);
      var pre' := pre + f;
      assert data == pre' + Concat(frames[1..]) + tail;
      assert data[|pre|..|pre| + |f|] == f;
      FrameHere(data, f, |pre|, max);
      var r := MakeRecord(data, arrival, |pre|);
      FramesParseBack(pre', frames[1..], tail, max, arrival + 1, seen + {IdentityOf(r)});
      CleanCons(data, |pre|, frames, r, seen, Parse(data, max, |pre'|, arrival + 1, seen + {IdentityOf(r)}));
    }
  }

  lemma CleanEnd(data: seq<byte>, max: nat, offset: nat, arrival: nat, seen: set<Identity>)
    requires offset <= |data|
    ensures Begins(data, offset, [], Parse(data, max, offset, arrival, seen))
    ensures offset == |data| ==> Clean(data, offset, [], Parse(data, max, offset, arrival, seen))
  {
  }

  lemma FrameHere(data: seq<byte>, f: seq<byte>, at: nat, max: nat)
    requires IsFrame(f, max) && at + |f| <= |data| && data[at..at + |f|] == f
    ensures RecordAt(data, max, at) && EndOf(data, at) == at + |f|
    ensures data[at + META..at + |f|] == f[META..] && DecodeMeta(data, at) == DecodeMeta(f, 0)
  {
    forall i | 0 <= i < |f| ensures data[at + i] == f[i] {
      assert data[at..at + |f|][i] == f[i];
    }
    forall i: nat, n: nat | i + n <= |f| ensures Le(data, at + i, n) == Le(f, i, n) {
      LeSame(data, f, at, i, n);
    }
  }

  lemma {:induction false} LeSame(data: seq<byte>, f: seq<byte>, at: nat, i: nat, n: nat)
    requires at + |f| <= |data| && i + n <= |f| && forall j :: 0 <= j < |f| ==> data[at + j] == f[j]
    ensures Le(data, at + i, n) == Le(f, i, n)
    decreases n
  {
    if n > 0 {
      LeSame(data, f, at, i + 1, n - 1);
    }
  }

  lemma CleanCons(data: seq<byte>, start: nat, frames: seq<seq<byte>>, r: Record, seen: set<Identity>, rest: Parsed)
    requires frames != [] && Begins(data, start + |frames[0]|, frames[1..], rest)
    requires Holds(data, start, frames[0], r)
    ensures var p := Join(Parsed([r], Remarks(r, seen), start, 0), rest);
      && Begins(data, start, frames, p)
      && (Clean(data, start + |frames[0]|, frames[1..], rest) ==> Clean(data, start, frames, p))
  {
    hide Holds;
    var p := Join(Parsed([r], Remarks(r, seen), start, 0), rest);
    forall i | 0 <= i < |frames|
      ensures Holds(data, start + |Concat(frames[..i])|, frames[i], p.records[i])
    {
      if i > 0 {
        assert Holds(data, start + |frames[0]| + |Concat(frames[1..][..i - 1])|, frames[1..][i - 1],
          rest.records[i - 1]);
        assert frames[..i][1..] == frames[1..][..i - 1];
      }
    }
  }
}
