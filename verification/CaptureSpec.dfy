/**
  What sniffer_capture computes, as a function of the bytes its transport
  delivered and of how the capture ended, with no mention of how the bytes were
  cut into reads.
*/
module CaptureSpec {
  import opened Wire

  /** SnifferStats. */
  datatype Stats = Stats(
    records: nat, received: nat, stored: nat, magicErrors: nat, invalidLengths: nat,
    truncatedMeta: nat, truncatedPayload: nat, readTimeouts: nat, transportErrors: nat,
    writeFailures: nat, resyncs: nat, discarded: nat)

  const ZERO: Stats := Stats(0, 0, 0, 0, 0, 0, 0, 0, 0, 0, 0, 0)

  datatype Options = Options(maxPayload: nat, maxRecords: nat, flushEachRecord: bool)

  /** How the reading ended.  `extra` bytes came together with the final EOF or
      error status, so no element they complete is accepted.  A stop is
      `resyncing` when read_next_meta's own loop saw it. */
  datatype End = Eof(extra: nat) | Failed(extra: nat) | Stopped(resyncing: bool)

  function Extra(end: End): nat {
    if end.Stopped? then 0 else end.extra
  }

  datatype Outcome = Outcome(stats: Stats, frames: seq<seq<byte>>, ok: bool)

  function Bit(b: bool): nat { if b then 1 else 0 }

  /** `received` and `transportErrors` after n more bytes and the end. */
  function Ended(st: Stats, n: nat, end: End): Stats {
    st.(received := st.received + n + Extra(end), transportErrors := st.transportErrors + Bit(end.Failed?))
  }

  /** A meta found after skipping k bytes. */
  function Synced(st: Stats, k: nat): Stats {
    if k == 0 then st
    else st.(magicErrors := st.magicErrors + 1, resyncs := st.resyncs + 1, discarded := st.discarded + k)
  }

  predicate MetaReady(s: seq<byte>) {
    var k := FindMagic(s, 0);
    k != -1 && k + META <= |s|
  }

  /** The counters when s holds no whole meta and nothing more comes. */
  function NoMeta(st: Stats, s: seq<byte>, end: End): Stats {
    var k := FindMagic(s, 0);
    var e := Ended(st, |s|, end);
    if |s| < 4 then
      e.(truncatedMeta := st.truncatedMeta + Bit(!end.Stopped? && |s| + Extra(end) > 0))
    else if k == -1 then
      e.(magicErrors := st.magicErrors + 1,
         truncatedMeta := st.truncatedMeta + Bit(end.Eof? && end.extra > 0),
         discarded := st.discarded + (if end == Stopped(true) then |s| - 4 else |s|))
    else
      var early := end == Stopped(true) && k > 0 && |s| == k + 4;
      Synced(e, k).(resyncs := st.resyncs + Bit(k > 0 && !early),
                    truncatedMeta := st.truncatedMeta + Bit(!end.Stopped?))
  }

  predicate AtLimit(o: Options, st: Stats) {
    o.maxRecords != 0 && st.records >= o.maxRecords
  }

  /** The counters after skipping k bytes and reading a meta. */
  function MetaRead(st: Stats, k: nat): Stats {
    Synced(st, k).(received := st.received + k + META)
  }

  function Overlong(st: Stats, k: nat): Stats {
    MetaRead(st, k).(invalidLengths := st.invalidLengths + 1)
  }

  /** The counters after a record with n payload bytes has been written. */
  function Kept(st: Stats, k: nat, n: nat): Stats {
    MetaRead(st, k).(received := st.received + k + META + n, stored := st.stored + META + n, records := st.records + 1)
  }

  function CutShort(st: Stats, k: nat, n: nat, end: End): Stats {
    Ended(MetaRead(st, k), n, end).(truncatedPayload := st.truncatedPayload + Bit(!end.Stopped?))
  }

  function Prepend(f: seq<byte>, r: Outcome): Outcome {
    r.(frames := [f] + r.frames)
  }

  /** Capture of the stream s, starting with counters st. */
  function Capture(o: Options, st: Stats, s: seq<byte>, end: End): Outcome
    decreases |s|
  {
    if AtLimit(o, st) then Outcome(st, [], true)
    else if !MetaReady(s) then Outcome(NoMeta(st, s, end), [], !end.Failed?)
    else
      var k := FindMagic(s, 0);
      var n := LengthAt(s, k);
      if n > o.maxPayload then
        Capture(o, Overlong(st, k), s[k + META..], end)
      else if |s| < k + META + n then
        Outcome(CutShort(st, k, |s| - k - META, end), [], !end.Failed?)
      else
        Prepend(s[k..k + META + n], Capture(o, Kept(st, k, n), s[k + META + n..], end))
  }

  /** Unfolding at a stream whose first element is a record f. */
  lemma CaptureStep(o: Options, st: Stats, s: seq<byte>, k: nat, f: seq<byte>, rest: seq<byte>, end: End)
    requires !AtLimit(o, st) && MetaReady(s) && k == FindMagic(s, 0)
    requires LengthAt(s, k) <= o.maxPayload && k + META + LengthAt(s, k) <= |s|
    requires f == s[k..k + META + LengthAt(s, k)] && rest == s[k + META + LengthAt(s, k)..]
    ensures Capture(o, st, s, end) == Prepend(f, Capture(o, Kept(st, k, |f| - META), rest, end))
  {
    hide Kept, Overlong, NoMeta, CutShort, FindMagic, LengthAt, MetaReady, AtLimit, Prepend;
  }

  // ---------------------------------------------------- reading piece by piece

  /** After `seen`, capturing goes on from counters st with `frames` written. */
  ghost predicate Resumes(o: Options, st0: Stats, seen: seq<byte>, st: Stats, frames: seq<seq<byte>>) {
    forall rest: seq<byte>, end: End :: Resumed(o, st0, seen, st, frames, rest, end)
  }

  ghost predicate Resumed(o: Options, st0: Stats, seen: seq<byte>, st: Stats, frames: seq<seq<byte>>,
          rest: seq<byte>, end: End) {
    var r := Capture(o, st, rest, end);
    Capture(o, st0, seen + rest, end) == r.(frames := frames + r.frames)
  }

  /** `u` is junk of length |u| - 18 followed by one meta. */
  predicate MetaUnit(u: seq<byte>) {
    META <= |u| && FindMagic(u, 0) == |u| - META
  }

  lemma UnitThen(u: seq<byte>, rest: seq<byte>)
    requires MetaUnit(u)
    ensures FindMagic(u + rest, 0) == |u| - META && MetaReady(u + rest)
    ensures LengthAt(u + rest, |u| - META) == LengthAt(u, |u| - META)
  {
    FindMagicPrefix(u, rest);
  }

  lemma CaptureOverlong(o: Options, st: Stats, u: seq<byte>, rest: seq<byte>, end: End)
    requires !AtLimit(o, st) && MetaUnit(u) && LengthAt(u, |u| - META) > o.maxPayload
    ensures Capture(o, st, u + rest, end) == Capture(o, Overlong(st, |u| - META), rest, end)
  {
    UnitThen(u, rest);
    assert (u + rest)[|u|..] == rest;
  }

  lemma RecordParts(u: seq<byte>, payload: seq<byte>, rest: seq<byte>)
    requires MetaUnit(u) && LengthAt(u, |u| - META) == |payload|
    ensures var (s, k) := (u + (payload + rest), |u| - META);
      && FindMagic(s, 0) == k && MetaReady(s) && LengthAt(s, k) == |payload| && k + META + |payload| <= |s|
      && s[k..k + META + |payload|] == u[k..] + payload
      && s[k + META + |payload|..] == rest
  {
    UnitThen(u, payload + rest);
  }

  lemma CaptureRecord(o: Options, st: Stats, u: seq<byte>, payload: seq<byte>, rest: seq<byte>, end: End)
    requires !AtLimit(o, st) && MetaUnit(u) && LengthAt(u, |u| - META) == |payload| <= o.maxPayload
    ensures Capture(o, st, u + (payload + rest), end) ==
      Prepend(u[|u| - META..] + payload, Capture(o, Kept(st, |u| - META, |payload|), rest, end))
  {
    RecordParts(u, payload, rest);
    CaptureStep(o, st, u + (payload + rest), |u| - META, u[|u| - META..] + payload, rest, end);
  }

  /** Skipping a meta whose length is too large. */
  lemma ResumesAfterOverlong(o: Options, st0: Stats, seen: seq<byte>, st: Stats, frames: seq<seq<byte>>, u: seq<byte>)
    requires Resumes(o, st0, seen, st, frames) && !AtLimit(o, st)
    requires MetaUnit(u) && LengthAt(u, |u| - META) > o.maxPayload
    ensures Resumes(o, st0, seen + u, Overlong(st, |u| - META), frames)
  {
    var st' := Overlong(st, |u| - META);
    var all := seen + u;
    forall rest: seq<byte>, end: End ensures Resumed(o, st0, all, st', frames, rest, end) {
      assert seen + u + rest == seen + (u + rest);
      assert Resumed(o, st0, seen, st, frames, u + rest, end);
      CaptureOverlong(o, st, u, rest, end);
    }
  }

  /** Keeping a record. */
  lemma ResumesAfterRecord(o: Options, st0: Stats, seen: seq<byte>, st: Stats, frames: seq<seq<byte>>, u: seq<byte>,
          payload: seq<byte>)
    requires Resumes(o, st0, seen, st, frames) && !AtLimit(o, st)
    requires MetaUnit(u) && LengthAt(u, |u| - META) == |payload| <= o.maxPayload
    ensures Resumes(o, st0, seen + u + payload, Kept(st, |u| - META, |payload|), frames + [u[|u| - META..] + payload])
  {
    var f := u[|u| - META..] + payload;
    var st' := Kept(st, |u| - META, |payload|);
    forall rest: seq<byte>, end: End
      ensures Resumed(o, st0, seen + u + payload, st', frames + [f], rest, end)
    {
      var s := u + (payload + rest);
      assert seen + u + payload + rest == seen + s;
      assert Resumed(o, st0, seen, st, frames, s, end);
      CaptureRecord(o, st, u, payload, rest, end);
      var r := Capture(o, st', rest, end);
      assert frames + ([f] + r.frames) == frames + [f] + r.frames;
    }
  }

  /** A payload that never completes. */
  lemma ResumesIntoTruncated(o: Options, st0: Stats, seen: seq<byte>, st: Stats, frames: seq<seq<byte>>,
          u: seq<byte>, part: seq<byte>, end: End)
    requires Resumes(o, st0, seen, st, frames) && !AtLimit(o, st)
    requires MetaUnit(u) && |part| < LengthAt(u, |u| - META) <= o.maxPayload
    ensures Capture(o, st0, seen + u + part, end) ==
      Outcome(CutShort(st, |u| - META, |part|, end), frames, !end.Failed?)
  {
    assert seen + u + part == seen + (u + part);
    assert Resumed(o, st0, seen, st, frames, u + part, end);
    UnitThen(u, part);
    assert frames + [] == frames;
  }

  lemma ResumesIntoNoMeta(o: Options, st0: Stats, seen: seq<byte>, st: Stats, frames: seq<seq<byte>>, s: seq<byte>,
          end: End)
    requires Resumes(o, st0, seen, st, frames) && !AtLimit(o, st) && !MetaReady(s)
    ensures Capture(o, st0, seen + s, end) == Outcome(NoMeta(st, s, end), frames, !end.Failed?)
  {
    assert Resumed(o, st0, seen, st, frames, s, end);
    assert frames + [] == frames;
  }

  // ----------------------------------------------------- laws of the capture

  /** Everything written is a whole record with an allowed length. */
  lemma {:induction false} FramesAreWhole(o: Options, st: Stats, s: seq<byte>, end: End)
    ensures forall f :: f in Capture(o, st, s, end).frames ==> IsFrame(f, o.maxPayload)
    decreases |s|
  {
    if !AtLimit(o, st) && MetaReady(s) {
      var k := FindMagic(s, 0);
      var n := LengthAt(s, k);
      if n > o.maxPayload {
        FramesAreWhole(o, Overlong(st, k), s[k + META..], end);
      } else if k + META + n <= |s| {
        FramesAreWhole(o, Kept(st, k, n), s[k + META + n..], end);
        assert IsFrame(s[k..k + META + n], o.maxPayload);
      }
    }
  }

  /** Where every byte of a stream went: `tail` are those of the one element the
      end of the stream cut short. */
  ghost predicate Balanced(st: Stats, r: Stats, tail: nat) {
    && r.received - st.received ==
         (r.stored - st.stored) + (r.discarded - st.discarded) + 18 * (r.invalidLengths - st.invalidLengths) + tail
    && r.truncatedMeta + r.truncatedPayload <= st.truncatedMeta + st.truncatedPayload + 1
    && (tail == 0 <==> r.truncatedMeta == st.truncatedMeta && r.truncatedPayload == st.truncatedPayload)
    && r.truncatedMeta >= st.truncatedMeta && r.truncatedPayload >= st.truncatedPayload
    && r.resyncs - st.resyncs <= r.magicErrors - st.magicErrors <= r.resyncs - st.resyncs + 1
  }

  lemma BalanceNoMeta(st: Stats, s: seq<byte>) returns (tail: nat)
    requires !MetaReady(s)
    ensures Balanced(st, NoMeta(st, s, Eof(0)), tail)
  {
    var k := FindMagic(s, 0);
    tail := if |s| < 4 then |s| else if k == -1 then 0 else |s| - k;
  }

  /** A whole element, skipped or kept, leaves the balance alone. */
  lemma BalanceStep(st: Stats, k: nat, n: nat, r: Stats, tail: nat)
    ensures Balanced(Overlong(st, k), r, tail) ==> Balanced(st, r, tail)
    ensures Balanced(Kept(st, k, n), r, tail) ==> Balanced(st, r, tail)
    ensures Balanced(st, CutShort(st, k, n, Eof(0)), META + n)
  {
  }

  lemma {:induction false} BytesBalance(o: Options, st: Stats, s: seq<byte>) returns (tail: nat)
    ensures Balanced(st, Capture(o, st, s, Eof(0)).stats, tail)
    decreases |s|
  {
    if AtLimit(o, st) {
      tail := 0;
    } else if !MetaReady(s) {
      tail := BalanceNoMeta(st, s);
    } else {
      var k := FindMagic(s, 0);
      var n := LengthAt(s, k);
      if n > o.maxPayload {
        tail := BytesBalance(o, Overlong(st, k), s[k + META..]);
        BalanceStep(st, k, n, Capture(o, st, s, Eof(0)).stats, tail);
      } else if |s| < k + META + n {
        tail := |s| - k;
        BalanceStep(st, k, |s| - k - META, st, tail);
      } else {
        tail := BytesBalance(o, Kept(st, k, n), s[k + META + n..]);
        BalanceStep(st, k, n, Capture(o, st, s, Eof(0)).stats, tail);
      }
    }
  }

  /** Byte conservation of a capture that ran to EOF without a record limit. */
  lemma Conservation(maxPayload: nat, flush: bool, s: seq<byte>) returns (tail: nat)
    ensures var r := Capture(Options(maxPayload, 0, flush), ZERO, s, Eof(0)).stats;
      && r.received == |s| == r.stored + r.discarded + 18 * r.invalidLengths + tail
      && (tail == 0 <==> r.truncatedMeta == 0 && r.truncatedPayload == 0)
      && r.truncatedMeta + r.truncatedPayload <= 1
      && (r.magicErrors == r.resyncs || r.magicErrors == r.resyncs + 1)
  {
    tail := BytesBalance(Options(maxPayload, 0, flush), ZERO, s);
    AllReceived(Options(maxPayload, 0, flush), ZERO, s, Eof(0));
  }

  lemma {:induction false} AllReceived(o: Options, st: Stats, s: seq<byte>, end: End)
    requires o.maxRecords == 0
    ensures Capture(o, st, s, end).stats.received == st.received + |s| + Extra(end)
    decreases |s|
  {
    if MetaReady(s) {
      var k := FindMagic(s, 0);
      var n := LengthAt(s, k);
      if n > o.maxPayload {
        AllReceived(o, Overlong(st, k), s[k + META..], end);
      } else if k + META + n <= |s| {
        AllReceived(o, Kept(st, k, n), s[k + META + n..], end);
      }
    }
  }

  /** `stored` is the size of the file. */
  lemma {:induction false} StoredIsFile(o: Options, st: Stats, s: seq<byte>, end: End)
    ensures var r := Capture(o, st, s, end);
            r.stats.stored == st.stored + |Concat(r.frames)| && r.stats.records == st.records + |r.frames|
    decreases |s|
  {
    if !AtLimit(o, st) && MetaReady(s) {
      var k := FindMagic(s, 0);
      var n := LengthAt(s, k);
      if n > o.maxPayload {
        StoredIsFile(o, Overlong(st, k), s[k + META..], end);
      } else if k + META + n <= |s| {
        var rest := Capture(o, Kept(st, k, n), s[k + META + n..], end);
        StoredIsFile(o, Kept(st, k, n), s[k + META + n..], end);
        var f := s[k..k + META + n];
        assert ([f] + rest.frames)[1..] == rest.frames;
      }
    }
  }
}
