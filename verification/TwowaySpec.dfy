/**
  What twoway_transport.c makes of its byte stream: the frames it writes and the
  bytes it keeps, as a function of the whole stream; and how that compares with
  the batch parser.
*/
module TwowaySpec {
  import opened Wire
  import opened Analyzer

  datatype Drained = Drained(frames: seq<seq<byte>>, rest: seq<byte>)

  /** parse_sniffer_stream on a buffer b, run to the point where it waits. */
  function Drain(b: seq<byte>): Drained
    decreases |b|
  {
    if |b| < 4 then Drained([], b)
    else if !MagicAt(b, 0) then Drain(b[1..])
    else if |b| < META then Drained([], b)
    else if LengthAt(b, 0) > MAX_MESSAGE_SIZE then Drain(b[1..])
    else if |b| < META + LengthAt(b, 0) then Drained([], b)
    else
      var n := META + LengthAt(b, 0);
      var d := Drain(b[n..]);
      Drained([b[..n]] + d.frames, d.rest)
  }

  /** The parser waits on b: too short to judge, or the start of a frame. */
  predicate Waits(b: seq<byte>) {
    || |b| < 4
    || (MagicAt(b, 0) && (|b| < META || |b| < META + LengthAt(b, 0) <= META + MAX_MESSAGE_SIZE))
  }

  lemma {:induction false} DrainWaits(b: seq<byte>)
    ensures Waits(Drain(b).rest) && |Drain(b).rest| <= META + MAX_MESSAGE_SIZE - 1
    ensures |Drain(b).rest| <= |b| && b[|b| - |Drain(b).rest|..] == Drain(b).rest
    ensures Waits(b) ==> Drain(b) == Drained([], b)
    decreases |b|
  {
    if !Waits(b) {
      var n := if MagicAt(b, 0) && LengthAt(b, 0) <= MAX_MESSAGE_SIZE then META + LengthAt(b, 0) else 1;
      DrainWaits(b[n..]);
    }
  }

  /** Parsing in two goes is parsing at once. */
  lemma {:induction false} DrainAppend(a: seq<byte>, c: seq<byte>)
    ensures var (d, e) := (Drain(a), Drain(Drain(a).rest + c));
            Drain(a + c) == Drained(d.frames + e.frames, e.rest)
    decreases |a|
  {
    if Waits(a) {
      assert Drain(a) == Drained([], a);
      assert [] + Drain(a + c).frames == Drain(a + c).frames;
    } else {
      var s := a + c;
      if MagicAt(a, 0) && LengthAt(a, 0) <= MAX_MESSAGE_SIZE {
        var n := META + LengthAt(a, 0);
        assert LengthAt(s, 0) == LengthAt(a, 0) && s[n..] == a[n..] + c && s[..n] == a[..n];
        DrainAppend(a[n..], c);
        var (d, e) := (Drain(a[n..]), Drain(Drain(a).rest + c));
        assert [a[..n]] + (d.frames + e.frames) == [a[..n]] + d.frames + e.frames;
      } else {
        assert s[1..] == a[1..] + c;
        assert MagicAt(a, 0) ==> LengthAt(s, 0) == LengthAt(a, 0);
        DrainAppend(a[1..], c);
      }
    }
  }

  // ------------------------------------------------ incremental equals batch

  /** Junk before position k is dropped byte by byte. */
  lemma {:induction false} DrainSkips(b: seq<byte>, k: nat)
    requires k <= |b| && forall i: nat :: i < k ==> !MagicAt(b, i) && i + 4 <= |b|
    ensures Drain(b) == Drain(b[k..])
    decreases k
  {
    if k == 0 {
      assert b[0..] == b;
    } else {
      var c := b[1..];
      forall i: nat | i < k - 1 ensures !MagicAt(c, i) && i + 4 <= |c| {
        assert !MagicAt(b, i + 1);
      }
      assert !MagicAt(b, 0);
      DrainSkips(c, k - 1);
      assert c[k - 1..] == b[k..];
    }
  }

  lemma {:induction false} NoMagicNoFrames(b: seq<byte>)
    requires forall i: nat :: !MagicAt(b, i)
    ensures Drain(b).frames == []
    decreases |b|
  {
    if 4 <= |b| {
      var c := b[1..];
      assert forall i: nat :: MagicAt(c, i) <==> MagicAt(b, i + 1);
      NoMagicNoFrames(c);
    }
  }

  lemma {:induction false} TooShortForFrames(b: seq<byte>)
    requires |b| < META
    ensures Drain(b).frames == []
    decreases |b|
  {
    if 4 <= |b| && !MagicAt(b, 0) {
      TooShortForFrames(b[1..]);
    }
  }

  /** The first truncated-payload diagnostic, or -1. */
  function FirstTruncation(errors: seq<ParseError>): (t: int)
    ensures t >= -1
  {
    if errors == [] then -1
    else if errors[0].kind == TruncatedPayload then errors[0].offset
    else FirstTruncation(errors[1..])
  }

  /** The bytes of the records that start before `limit` (all, if it is -1). */
  function FramesBefore(data: seq<byte>, records: seq<Record>, limit: int): seq<seq<byte>> {
    if records == [] then []
    else
      var (r, more) := (records[0], FramesBefore(data, records[1..], limit));
      if limit != -1 && limit <= r.offset then more
      else if r.offset + META + |r.payload| <= |data| then [data[r.offset..r.offset + META + |r.payload|]] + more
      else more
  }

  /** Draining data[offset..] against the parse p of it. */
  ghost predicate Agrees(data: seq<byte>, offset: nat, p: Parsed)
    requires offset <= |data| && p.consumed <= |data|
  {
    var (d, t) := (Drain(data[offset..]), FirstTruncation(p.errors));
    && (t != -1 ==> offset <= t <= |data|)
    && d.frames == FramesBefore(data, p.records, t)
    && (t != -1 ==> d.rest == data[t..])
    && (t == -1 ==> d.rest == Drain(data[p.consumed..]).rest && Drain(data[p.consumed..]).frames == [])
  }

  lemma {:induction false} FramesBeforeNone(data: seq<byte>, records: seq<Record>, limit: int)
    requires limit != -1 && forall r :: r in records ==> limit <= r.offset
    ensures FramesBefore(data, records, limit) == []
  {
    if records != [] {
      FramesBeforeNone(data, records[1..], limit);
    }
  }

  lemma {:induction false} FirstTruncationSkips(a: seq<ParseError>, b: seq<ParseError>)
    requires forall e :: e in a ==> e.kind != TruncatedPayload
    ensures FirstTruncation(a + b) == FirstTruncation(b)
  {
    if a == [] {
      assert a + b == b;
    } else {
      assert (a + b)[1..] == a[1..] + b;
      FirstTruncationSkips(a[1..], b);
    }
  }

  lemma AgreesAfterFault(data: seq<byte>, offset: nat, kind: Kind, next: nat, rest: Parsed)
    requires offset < next <= |data| && rest.consumed <= |data| && kind != TruncatedPayload
    requires Agrees(data, next, rest) && Drain(data[offset..]) == Drain(data[next..])
    ensures Agrees(data, offset, Join(Parsed([], [ParseError(offset, kind)], offset, 1), rest))
  {
    FirstTruncationSkips([ParseError(offset, kind)], rest.errors);
    assert [] + rest.records == rest.records;
  }

  lemma AgreesAfterRecord(data: seq<byte>, offset: nat, arrival: nat, seen: set<Identity>, rest: Parsed)
    requires RecordAt(data, MAX_MESSAGE_SIZE, offset) && rest.consumed <= |data|
    requires Agrees(data, EndOf(data, offset), rest)
    ensures var r := MakeRecord(data, arrival, offset);
            Agrees(data, offset, Join(Parsed([r], Remarks(r, seen), offset, 0), rest))
  {
    hide Drain;
    var r := MakeRecord(data, arrival, offset);
    DrainRecord(data, offset);
    FirstTruncationSkips(Remarks(r, seen), rest.errors);
    assert ([r] + rest.records)[1..] == rest.records;
  }

  lemma DrainRecord(data: seq<byte>, offset: nat)
    requires RecordAt(data, MAX_MESSAGE_SIZE, offset)
    ensures var d := Drain(data[EndOf(data, offset)..]);
            Drain(data[offset..]) == Drained([data[offset..EndOf(data, offset)]] + d.frames, d.rest)
  {
    var b := data[offset..];
    var n := META + LengthAt(data, offset);
    assert LengthAt(b, 0) == LengthAt(data, offset) && MagicAt(b, 0);
    assert b[n..] == data[EndOf(data, offset)..] && b[..n] == data[offset..offset + n];
  }

  /** For every stream: the frames written are the batch records before the first
      truncated-payload diagnostic, and what stays in the buffer is everything
      from there on, or, without one, what is kept of the unparsed remainder. */
  lemma {:induction false} DrainIsParse(data: seq<byte>, offset: nat, arrival: nat, seen: set<Identity>)
    requires offset <= |data|
    ensures Agrees(data, offset, Parse(data, MAX_MESSAGE_SIZE, offset, arrival, seen))
    decreases |data| - offset
  {
    hide Drain, Agrees, FirstTruncation, FramesBefore, Remarks;
    var max := MAX_MESSAGE_SIZE;
    if |data| < offset + META {
      ShortHere(data, offset, arrival, seen);
    } else if RecordAt(data, max, offset) {
      var r := MakeRecord(data, arrival, offset);
      DrainIsParse(data, EndOf(data, offset), arrival + 1, seen + {IdentityOf(r)});
      AgreesAfterRecord(data, offset, arrival, seen,
              Parse(data, max, EndOf(data, offset), arrival + 1, seen + {IdentityOf(r)}));
    } else {
      var (kind, from) := FaultAt(data, max, offset);
      if kind == TruncatedPayload {
        TruncatedHere(data, offset, arrival, seen);
      } else {
        FaultHere(data, offset, arrival, seen, kind);
        var next := FindMagic(data, from);
        if next != -1 {
          DrainIsParse(data, next, arrival, seen);
          AgreesAfterFault(data, offset, kind, next, Parse(data, max, next, arrival, seen));
        }
      }
    }
  }

  lemma ShortHere(data: seq<byte>, offset: nat, arrival: nat, seen: set<Identity>)
    requires offset <= |data| < offset + META
    ensures Agrees(data, offset, Parse(data, MAX_MESSAGE_SIZE, offset, arrival, seen))
  {
    TooShortForFrames(data[offset..]);
  }

  lemma TruncatedHere(data: seq<byte>, offset: nat, arrival: nat, seen: set<Identity>)
    requires offset + META <= |data| && !RecordAt(data, MAX_MESSAGE_SIZE, offset)
    requires FaultAt(data, MAX_MESSAGE_SIZE, offset).0 == TruncatedPayload
    ensures Agrees(data, offset, Parse(data, MAX_MESSAGE_SIZE, offset, arrival, seen))
  {
    var max := MAX_MESSAGE_SIZE;
    var p := Parse(data, max, offset, arrival, seen);
    var b := data[offset..];
    assert LengthAt(b, 0) == LengthAt(data, offset) && MagicAt(b, 0);
    ParseIsSound(data, max, offset, arrival, seen);
    assert EndOf(data, offset) > |data|;
    assert p == Search(data, max, offset, offset + META, TruncatedPayload, arrival, seen);
    assert p.errors[0] == ParseError(offset, TruncatedPayload);
    FramesBeforeNone(data, p.records, offset);
  }

  /** A mismatch or an over-long length: both parsers move on to the next magic. */
  lemma FaultHere(data: seq<byte>, offset: nat, arrival: nat, seen: set<Identity>, kind: Kind)
    requires offset + META <= |data| && !RecordAt(data, MAX_MESSAGE_SIZE, offset)
    requires kind == FaultAt(data, MAX_MESSAGE_SIZE, offset).0 && kind != TruncatedPayload
    ensures var next := FindMagic(data, offset + 1);
            if next == -1 then Agrees(data, offset, Parse(data, MAX_MESSAGE_SIZE, offset, arrival, seen))
            else Drain(data[offset..]) == Drain(data[next..])
  {
    var b := data[offset..];
    var c := data[offset + 1..];
    assert MagicAt(data, offset) ==> LengthAt(b, 0) == LengthAt(data, offset);
    assert b[1..] == c && Drain(b) == Drain(c);
    assert forall i: nat :: MagicAt(c, i) <==> MagicAt(data, offset + 1 + i);
    var next := FindMagic(data, offset + 1);
    if next == -1 {
      NoMagicNoFrames(c);
    } else {
      DrainSkips(c, next - offset - 1);
      assert c[next - offset - 1..] == data[next..];
    }
  }
}
