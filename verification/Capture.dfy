/**
  sniffer_capture.c in its own form: loops over partial reads, a window shifted
  in place, and counters updated on the way.  It is proved equal to
  CaptureSpec.Capture of the delivered bytes, whatever the schedule of reads.
*/
module SnifferCapture {
  import opened Wire
  import opened CaptureSpec
  import opened Transport
  import L = CaptureLaws

  /** ExactResult. */
  datatype ExactResult = ExactError | ExactEof | ExactOk | ExactStopped

  /** All counters but read_timeouts, the one that depends on the schedule. */
  ghost function Plain(st: Stats): Stats {
    st.(readTimeouts := 0)
  }

  ghost predicate Matches(result: ExactResult, end: End) {
    && (result == ExactEof <==> end.Eof?)
    && (result == ExactError <==> end.Failed?)
    && (result == ExactStopped <==> end.Stopped?)
  }

  /** From `before` to `after` the source handed over u and `extra` bytes more. */
  ghost predicate Took(before: seq<byte>, after: seq<byte>, u: seq<byte>, extra: nat) {
    before + u <= after && |after| == |before| + |u| + extra
  }

  lemma TookLength(before: seq<byte>, after: seq<byte>, u: seq<byte>, extra: nat)
    requires Took(before, after, u, extra)
    ensures |after| == |before| + |u| + extra
  {
  }

  lemma TookParts(before: seq<byte>, after: seq<byte>, u: seq<byte>, extra: seq<byte>)
    requires after == before + (u + extra)
    ensures Took(before, after, u, |extra|)
  {
  }

  lemma TookAll(before: seq<byte>, after: seq<byte>, u: seq<byte>)
    requires after == before + u
    ensures Took(before, after, u, 0)
  {
  }

  lemma TookThen(before: seq<byte>, mid: seq<byte>, after: seq<byte>, u: seq<byte>, v: seq<byte>, extra: nat)
    requires Took(before, mid, u, 0) && Took(mid, after, v, extra)
    ensures Took(before, after, u + v, extra)
  {
    assert mid == before + u;
    assert before + (u + v) == mid + v;
  }

  ghost function ExtraOf(result: ExactResult, end: End): nat {
    if result == ExactOk then 0 else Extra(end)
  }

  /** The end after n bytes have been counted, or without counting any. */
  lemma EndedNow(st: Stats, n: nat, end: End)
    ensures Ended(st.(received := st.received + n), 0, end) == Ended(st, n, end)
    ensures end.Stopped? ==> Ended(st, n, end) == st.(received := st.received + n)
  {
  }

  lemma EndedHere(st: Stats)
    ensures forall n: nat ::
      && Ended(st, 0, Eof(n)) == st.(received := st.received + n)
      && Ended(st, 0, Failed(n)) == st.(received := st.received + n, transportErrors := st.transportErrors + 1)
  {
  }

  /** Shifting the window by one byte. */
  lemma ShiftWindow(u: seq<byte>, window: seq<byte>, b: byte)
    requires 4 <= |u| && window == u[|u| - 4..] && FindMagic(u, 0) == -1
    ensures var v := u + [b];
      && v[|v| - 4..] == window[1..] + [b]
      && v[4..] == u[4..] + [b] && v[..4] == u[..4]
      && FindMagic(v, 0) == if MagicAt(window[1..] + [b], 0) then |v| - 4 else -1
  {
    FindMagicByte(u, b);
    var v := u + [b];
    assert v[|v| - 4..] == window[1..] + [b];
    assert MagicAt(v, |v| - 4) <==> MagicAt(v[|v| - 4..], 0);
  }

  lemma MagicFirst(u: seq<byte>)
    requires MagicAt(u, 0)
    ensures FindMagic(u, 0) == 0
  {
  }

  lemma NoMetaShort(st: Stats, u: seq<byte>, end: End)
    requires |u| < 4
    ensures !MetaReady(u)
    ensures NoMeta(st, u, end) ==
      Ended(st, |u|, end).(truncatedMeta := st.truncatedMeta + Bit(!end.Stopped? && |u| + Extra(end) > 0))
  {
  }

  lemma NoMetaLost(st: Stats, u: seq<byte>, end: End)
    requires 4 <= |u| && FindMagic(u, 0) == -1
    ensures !MetaReady(u)
    ensures NoMeta(st, u, end) == Ended(st, |u|, end).(
      magicErrors := st.magicErrors + 1,
      truncatedMeta := st.truncatedMeta + Bit(end.Eof? && end.extra > 0),
      discarded := st.discarded + (if end == Stopped(true) then |u| - 4 else |u|))
  {
  }

  /** A stop seen after the magic was found but before it was counted. */
  lemma NoMetaEarly(st: Stats, u: seq<byte>)
    requires 4 < |u| && FindMagic(u, 0) == |u| - 4
    ensures !MetaReady(u)
    ensures NoMeta(st, u, Stopped(true)) ==
      st.(received := st.received + |u|, magicErrors := st.magicErrors + 1, discarded := st.discarded + |u| - 4)
  {
  }

  /** Magic found, the rest of the meta cut short. */
  lemma NoMetaCut(st: Stats, u: seq<byte>, tail: seq<byte>, end: End)
    requires 4 <= |u| && FindMagic(u, 0) == |u| - 4 && |tail| < META - 4 && end != Stopped(true)
    ensures FindMagic(u + tail, 0) == |u| - 4 && !MetaReady(u + tail)
    ensures NoMeta(st, u + tail, end) ==
      Ended(Synced(st, |u| - 4).(received := st.received + |u|), |tail|, end)
        .(truncatedMeta := st.truncatedMeta + Bit(!end.Stopped?))
  {
    FindMagicPrefix(u, tail);
  }

  lemma MetaComplete(u: seq<byte>, tail: seq<byte>, raw: seq<byte>)
    requires 4 <= |u| && FindMagic(u, 0) == |u| - 4 && |tail| == META - 4 && raw == u[|u| - 4..] + tail
    ensures MetaUnit(u + tail) && (u + tail)[|u| - 4..] == raw
  {
    FindMagicPrefix(u, tail);
  }

  /** What a capture started from: counters, delivered bytes and file contents. */
  datatype Ghosts = Ghosts(st: Stats, before: seq<byte>, base: seq<byte>, faults: nat)

  class Session {
    const source: ByteSource
    const output: OutputFile
    /** `running` is a NULL pointer. */
    const noFlag: bool
    /** How many more times the flag will be found set. */
    var checks: nat
    var stats: Stats

    ghost function Repr(): set<object> {
      {this} + source.Repr()
    }

    /** read_timeouts has counted the statuses since the session began. */
    ghost const timeoutsBefore: nat

    ghost predicate Sourced()
      reads Repr()
    {
      source.Valid() && source.InBounds() && this !in source.Repr() && (output as object) !in Repr()
    }

    ghost predicate Valid()
      reads Repr()
    {
      Sourced() && stats.readTimeouts + timeoutsBefore == Timeouts(source.given)
    }

    constructor (source: ByteSource, output: OutputFile, noFlag: bool, checks: nat)
      requires source.Valid() && source.InBounds() && (output as object) !in source.Repr()
      ensures Valid() && this.source == source && this.output == output && this.noFlag == noFlag
      ensures stats == ZERO && fresh(this) && timeoutsBefore == Timeouts(source.given)
    {
      this.source, this.output, this.noFlag, this.checks, stats := source, output, noFlag, checks, ZERO;
      timeoutsBefore := Timeouts(source.given);
    }

    /** The reading did end like this: by a cleared flag, or by the status and the
        bytes of the last read. */
    ghost predicate Truly(end: End)
      reads this`checks, source, source.upstream
    {
      if end.Stopped? then Cleared()
      else
        && source.given != [] && Extra(end) == source.latest
        && (end.Eof? <==> source.given[|source.given| - 1] == IoEof)
        && (Extra(end) == 0 ==> source.delivered == source.upstream.sent)
        && (source.upstream.calm ==> end == Eof(0) && (source.upstream.rest == [] || source.upstream.script == []))
    }

    lemma StoppedTruly(end: End)
      requires end.Stopped? && Cleared()
      ensures Truly(end)
    {
    }

    predicate Cleared()
      reads this`checks
    {
      !noFlag && checks == 0
    }

    /** is_running: once clear, the flag stays clear. */
    method IsRunning() returns (set_: bool)
      modifies this`checks
      ensures !set_ <==> old(Cleared())
      ensures !set_ ==> Cleared()
    {
      set_ := noFlag || checks > 0;
      checks := if checks > 0 then checks - 1 else 0;
    }

    /** read_exact (sniffer_capture.c:45-86). */
    method ReadExact(buffer: array<byte>, at: nat, length: nat)
        returns (result: ExactResult, total: nat, ghost end: End)
      requires Valid() && buffer !in Repr() && at + length <= buffer.Length
      modifies source.Repr(), this`checks, this`stats, buffer
      ensures Valid() && total <= length && source.Horizon() == old(source.Horizon())
      ensures source.delivered == old(source.delivered) + buffer[at..at + total]
      ensures ExtraOf(result, end) <= total
      ensures Took(old(source.delivered), source.delivered, buffer[at..at + (total - ExtraOf(result, end))],
        ExtraOf(result, end))
      ensures forall i :: 0 <= i < buffer.Length && !(at <= i < at + length) ==> buffer[i] == old(buffer[i])
      ensures if result == ExactOk then
                total == length && Plain(stats) == Plain(old(stats)).(received := old(stats).received + length)
              else
                && Matches(result, end) && Extra(end) <= total && total - Extra(end) < length
                && end != Stopped(true)
                && Plain(stats) == Ended(Plain(old(stats)), total - Extra(end), end)
      ensures result != ExactOk ==> Truly(end)
    {
      hide Truly, ByteSource.Valid, ByteSource.Lossless, Ended, Took;
      total := 0;
      end := Stopped(false);
      while total < length
        invariant Valid() && total <= length && source.Horizon() == old(source.Horizon())
        invariant source.delivered == old(source.delivered) + buffer[at..at + total]
        invariant forall i :: 0 <= i < buffer.Length && !(at <= i < at + length) ==> buffer[i] == old(buffer[i])
        invariant Plain(stats) == Plain(old(stats)).(received := old(stats).received + total)
        decreases |source.upstream.script|, source.length - source.offset
      {
        var run := IsRunning();
        if !run {
          EndedNow(Plain(old(stats)), total, Stopped(false));
          StoppedTruly(Stopped(false));
          TookAll(old(source.delivered), source.delivered, buffer[at..at + total]);
          return ExactStopped, total, Stopped(false);
        }
        var received;
        result, received, end := ReadOnce(buffer, at, total, length - total, old(source.delivered));
        total := total + received;
        if result != ExactOk {
          EndedNow(Plain(old(stats)), total - received, end);
          return;
        }
      }
      TookAll(old(source.delivered), source.delivered, buffer[at..at + total]);
      result := ExactOk;
    }

    /** One turn of read_exact's loop (sniffer_capture.c:50-82). */
    method ReadOnce(buffer: array<byte>, at: nat, total: nat, capacity: nat, ghost before: seq<byte>)
        returns (result: ExactResult, received: nat, ghost end: End)
      requires Valid() && buffer !in Repr() && 0 < capacity && at + total + capacity <= buffer.Length
      requires source.delivered == before + buffer[at..at + total]
      modifies source.Repr(), this`stats, buffer
      ensures Valid() && received <= capacity && source.Horizon() == old(source.Horizon())
      ensures source.delivered == before + buffer[at..at + (total + received)]
      ensures forall i :: 0 <= i < buffer.Length && !(at + total <= i < at + total + received) ==>
        buffer[i] == old(buffer[i])
      ensures result == ExactOk ==>
        && Plain(stats) == Plain(old(stats)).(received := old(stats).received + received)
        && (|source.upstream.script| < |old(source.upstream.script)|
            || (source.upstream.script == old(source.upstream.script)
              && source.length - source.offset < old(source.length - source.offset)))
      ensures result != ExactOk ==>
        && Matches(result, end) && !end.Stopped? && Extra(end) == received
        && Plain(stats) == Ended(Plain(old(stats)), 0, end)
        && Truly(end) && Took(before, source.delivered, buffer[at..at + total], received)
    {
      hide ByteSource.Valid, ByteSource.Lossless, Ended, Took, Timeouts;
      var status;
      status, received := ReadChunk(buffer, at, total, capacity, before);
      EndedHere(Plain(stats));
      end := Stopped(false);
      if received > capacity {
        stats := stats.(transportErrors := stats.transportErrors + 1);
        return ExactError, 0, Failed(0);
      }
      stats := stats.(received := stats.received + received);
      match status
      case IoData =>
        if received == 0 {
          stats := stats.(transportErrors := stats.transportErrors + 1);
          return ExactError, 0, Failed(0);
        }
        result := ExactOk;
      case IoTimeout =>
        stats := stats.(readTimeouts := stats.readTimeouts + 1);
        result := ExactOk;
      case IoInterrupted =>
        result := ExactOk;
      case IoEof =>
        result, end := ExactEof, Eof(received);
      case IoError =>
        stats := stats.(transportErrors := stats.transportErrors + 1);
        result, end := ExactError, Failed(received);
    }

    /** transport->read behind the `total` bytes that are there already. */
    method ReadChunk(buffer: array<byte>, at: nat, total: nat, capacity: nat, ghost before: seq<byte>)
        returns (status: IoStatus, received: nat)
      requires Valid() && buffer !in Repr() && 0 < capacity && at + total + capacity <= buffer.Length
      requires source.delivered == before + buffer[at..at + total]
      modifies source.Repr(), buffer
      ensures Sourced() && source.Horizon() == old(source.Horizon())
      ensures Timeouts(source.given) ==
        Timeouts(old(source.given)) + if received <= capacity && status == IoTimeout then 1 else 0
      ensures source.delivered == before + buffer[at..at + (total + if received > capacity then 0 else received)]
      ensures forall i ::
        0 <= i < buffer.Length && !(at + total <= i < at + total + received <= at + total + capacity) ==>
          buffer[i] == old(buffer[i])
      ensures Took(before, source.delivered, buffer[at..at + total], if received > capacity then 0 else received)
      ensures source.latest == (if received > capacity then 0 else received)
      ensures source.given != []
        && source.given[|source.given| - 1] == (if received > capacity then IoError else status)
      ensures received == 0 || received > capacity ==> source.delivered == source.upstream.sent
      ensures
        && source.upstream.calm
        && (status in {IoError, IoEof} || received > capacity || (status == IoData && received == 0)) ==>
        status == IoEof && received == 0 && (source.upstream.rest == [] || source.upstream.script == [])
      ensures || |source.upstream.script| < |old(source.upstream.script)|
              || (status == IoEof && received == 0)
              || (source.upstream.script == old(source.upstream.script)
                && source.length - source.offset < old(source.length - source.offset))
    {
      hide ByteSource.Valid, ByteSource.Lossless, Took, Timeouts;
      ghost var had := buffer[at..at + total];
      status, received := source.Read(buffer, at + total, capacity);
      TimeoutsAppend(old(source.given), if received > capacity then IoError else status);
      assert buffer[at..at + total] == had;
      if received <= capacity {
        assert buffer[at..at + (total + received)] == had + buffer[at + total..at + total + received];
        TookParts(before, source.delivered, had, buffer[at + total..at + total + received]);
      } else {
        TookAll(before, source.delivered, had);
      }
    }

    /** read_next_meta (sniffer_capture.c:93-136).  `u` are the bytes it consumed,
        not counting those that came with the final status. */
    method ReadNextMeta(raw: array<byte>) returns (result: ExactResult, ghost u: seq<byte>, ghost end: End)
      requires Valid() && raw !in Repr() && raw.Length == META
      modifies source.Repr(), this`checks, this`stats, raw
      ensures Valid() && source.Horizon() == old(source.Horizon())
      ensures Took(old(source.delivered), source.delivered, u, ExtraOf(result, end))
      ensures result == ExactOk ==>
        && MetaUnit(u) && u[|u| - META..] == raw[..]
        && Plain(stats) == MetaRead(Plain(old(stats)), |u| - META)
      ensures result != ExactOk ==>
        && Matches(result, end) && !MetaReady(u)
        && Plain(stats) == NoMeta(Plain(old(stats)), u, end)
      ensures result != ExactOk ==> Truly(end)
    {
      hide Truly, ByteSource.Valid, ByteSource.Lossless, NoMeta, FindMagic, Took, MetaReady, MetaUnit, MetaRead,
        Matches;
      ghost var before := source.delivered;
      result, u, end := ReadWindow(raw);
      if result != ExactOk {
        return;
      }
      ghost var mid, v := source.delivered, [];
      if !MagicAt(raw[..4], 0) {
        result, v, end := Resynchronize(raw, Plain(old(stats)));
        TookThen(before, mid, source.delivered, u, v, ExtraOf(result, end));
        u, mid := u + v, source.delivered;
        if result != ExactOk {
          return;
        }
      } else {
        MagicFirst(u);
      }
      ghost var tail;
      result, tail, end := ReadRest(raw, Plain(old(stats)), u);
      TookThen(before, mid, source.delivered, u, tail, ExtraOf(result, end));
      u := u + tail;
    }

    /** Lines 97-103: the first four bytes. */
    method ReadWindow(raw: array<byte>) returns (result: ExactResult, ghost u: seq<byte>, ghost end: End)
      requires Valid() && raw !in Repr() && raw.Length == META
      modifies source.Repr(), this`checks, this`stats, raw
      ensures Valid() && source.Horizon() == old(source.Horizon())
      ensures Took(old(source.delivered), source.delivered, u, ExtraOf(result, end))
      ensures result == ExactOk ==>
        u == raw[..4] && Plain(stats) == Plain(old(stats)).(received := old(stats).received + 4)
      ensures result != ExactOk ==>
        && Matches(result, end) && !MetaReady(u)
        && Plain(stats) == NoMeta(Plain(old(stats)), u, end)
      ensures result != ExactOk ==> Truly(end)
    {
      hide Truly, ByteSource.Valid, ByteSource.Lossless, NoMeta, FindMagic, Took;
      var count;
      result, count, end := ReadExact(raw, 0, 4);
      u := raw[..count - ExtraOf(result, end)];
      assert u == raw[0..0 + (count - ExtraOf(result, end))];
      if result != ExactOk {
        NoMetaShort(Plain(old(stats)), u, end);
        if (result == ExactEof || result == ExactError) && count > 0 {
          stats := stats.(truncatedMeta := stats.truncatedMeta + 1);
        }
      }
    }

    /** Lines 129-135: the other 14 bytes of the meta. */
    method ReadRest(raw: array<byte>, ghost st: Stats, ghost u: seq<byte>) returns (result: ExactResult,
            ghost tail: seq<byte>, ghost end: End)
      requires Valid() && raw !in Repr() && raw.Length == META
      requires 4 <= |u| && FindMagic(u, 0) == |u| - 4 && u[|u| - 4..] == raw[..4]
      requires Plain(stats) == Synced(st, |u| - 4).(received := st.received + |u|)
      modifies source.Repr(), this`checks, this`stats, raw
      ensures Valid() && source.Horizon() == old(source.Horizon())
      ensures Took(old(source.delivered), source.delivered, tail, ExtraOf(result, end))
      ensures result == ExactOk ==>
        && MetaUnit(u + tail) && (u + tail)[|u| - 4..] == raw[..]
        && Plain(stats) == MetaRead(st, |u| - 4)
      ensures result != ExactOk ==>
        && Matches(result, end) && !MetaReady(u + tail)
        && Plain(stats) == NoMeta(st, u + tail, end)
      ensures result != ExactOk ==> Truly(end)
    {
      hide Truly, ByteSource.Valid, ByteSource.Lossless, NoMeta, FindMagic;
      ghost var head := raw[..4];
      var count;
      result, count, end := ReadExact(raw, 4, META - 4);
      assert raw[..4] == head;
      tail := raw[4..4 + (count - if result == ExactOk then 0 else Extra(end))];
      if result == ExactOk {
        assert raw[..] == head + tail;
        MetaComplete(u, tail, raw[..]);
      } else {
        NoMetaCut(st, u, tail, end);
      }
      if result == ExactEof || result == ExactError {
        stats := stats.(truncatedMeta := stats.truncatedMeta + 1);
      }
    }

    /** The scan for the magic (sniffer_capture.c:106-127), byte by byte.  `st` are
        the counters before the first four bytes, `v` the bytes read after them. */
    method Resynchronize(raw: array<byte>, ghost st: Stats) returns (result: ExactResult, ghost v: seq<byte>,
            ghost end: End)
      requires Valid() && raw !in Repr() && raw.Length == META && !MagicAt(raw[..4], 0)
      requires Plain(stats) == st.(received := st.received + 4)
      modifies source.Repr(), this`checks, this`stats, raw
      ensures Valid() && source.Horizon() == old(source.Horizon())
      ensures Took(old(source.delivered), source.delivered, v, ExtraOf(result, end))
      ensures result == ExactOk ==>
        var u := old(raw[..4]) + v;
        && FindMagic(u, 0) == |u| - 4 > 0 && u[|u| - 4..] == raw[..4]
        && Plain(stats) == Synced(st, |u| - 4).(received := st.received + |u|)
      ensures result != ExactOk ==>
        var u := old(raw[..4]) + v;
        Matches(result, end) && !MetaReady(u) && Plain(stats) == NoMeta(st, u, end)
      ensures result != ExactOk ==> Truly(end)
    {
      hide Truly, ByteSource.Valid, ByteSource.Lossless, NoMeta, FindMagic, Took, MetaReady;
      stats := stats.(magicErrors := stats.magicErrors + 1);
      var discarded;
      ghost var u := raw[..4];
      NoMagicYet(u, source.delivered);
      result, discarded, v, end := Scan(raw, u, st);
      if result != ExactOk {
        return;
      }
      u := u + v;
      stats := stats.(discarded := stats.discarded + discarded);
      var run := IsRunning();
      if !run {
        StoppedTruly(Stopped(true));
        if MagicAt(raw[..4], 0) { NoMetaEarly(st, u); } else { NoMetaLost(st, u, Stopped(true)); }
        return ExactStopped, v, Stopped(true);
      }
      stats := stats.(resyncs := stats.resyncs + 1);
    }

    /** Lines 109-120: the loop of the scan, left with ExactOk when the magic is in
        the window or the flag is cleared. */
    method Scan(raw: array<byte>, ghost head: seq<byte>, ghost st: Stats)
        returns (result: ExactResult, discarded: nat, ghost v: seq<byte>, ghost end: End)
      requires Valid() && raw !in Repr() && raw.Length == META
      requires raw[..4] == head && !MagicAt(head, 0) && FindMagic(head, 0) == -1
      requires Plain(stats) == st.(received := st.received + 4, magicErrors := st.magicErrors + 1)
      modifies source.Repr(), this`checks, this`stats, raw
      ensures Valid() && source.Horizon() == old(source.Horizon())
      ensures Took(old(source.delivered), source.delivered, v, ExtraOf(result, end))
      ensures result == ExactOk ==>
        var u := head + v;
        && |v| == discarded && raw[..4] == u[discarded..]
        && FindMagic(u, 0) == (if MagicAt(raw[..4], 0) then discarded else -1)
        && (if MagicAt(raw[..4], 0) then discarded > 0 else Cleared())
        && Plain(stats) == st.(received := st.received + |u|, magicErrors := st.magicErrors + 1)
      ensures result != ExactOk ==>
        Matches(result, end) && !MetaReady(head + v) && Plain(stats) == NoMeta(st, head + v, end)
      ensures result != ExactOk ==> Truly(end)
    {
      hide Truly, ByteSource.Valid, ByteSource.Lossless, NoMeta, FindMagic, Took, MetaReady;
      discarded := 0;
      ghost var before := source.delivered;
      ghost var u := head;
      v, end := [], Stopped(true);
      NoMagicYet(u, before);
      while true
        invariant Valid() && source.Horizon() == old(source.Horizon())
        invariant Took(before, source.delivered, v, 0) && |before| + |v| == |source.delivered|
        invariant |v| == discarded && u == head + v && raw[..4] == u[discarded..]
        invariant FindMagic(u, 0) == if MagicAt(raw[..4], 0) then discarded else -1
        invariant discarded == 0 ==> !MagicAt(raw[..4], 0)
        invariant Plain(stats) == st.(received := st.received + |u|, magicErrors := st.magicErrors + 1)
        decreases |source.Horizon()| - |source.delivered|
      {
        var run := IsRunning();
        if !run || MagicAt(raw[..4], 0) {
          return ExactOk, discarded, v, end;
        }
        ghost var w;
        ghost var mid := source.delivered;
        result, w, end := ShiftAndRead(raw, u, discarded, st);
        TookThen(before, mid, source.delivered, v, w, ExtraOf(result, end));
        if result != ExactOk {
          assert v + w == v;
          return;
        }
        v, u := v + w, u + w;
        discarded := discarded + 1;
      }
    }

    /** Lines 110-119: drop the oldest byte of the window and read one more. */
    method ShiftAndRead(raw: array<byte>, ghost u: seq<byte>, discarded: nat, ghost st: Stats)
        returns (result: ExactResult, ghost w: seq<byte>, ghost end: End)
      requires Valid() && raw !in Repr() && raw.Length == META
      requires |u| == discarded + 4 && raw[..4] == u[discarded..] && FindMagic(u, 0) == -1
      requires Plain(stats) == st.(received := st.received + |u|, magicErrors := st.magicErrors + 1)
      modifies source.Repr(), this`checks, this`stats, raw
      ensures Valid() && source.Horizon() == old(source.Horizon())
      ensures Took(old(source.delivered), source.delivered, w, ExtraOf(result, end))
      ensures if result == ExactOk then
                && |w| == 1 && raw[..4] == (u + w)[discarded + 1..]
                && FindMagic(u + w, 0) == (if MagicAt(raw[..4], 0) then discarded + 1 else -1)
                && |source.delivered| == |old(source.delivered)| + 1
                && Plain(stats) == Plain(old(stats)).(received := old(stats).received + 1)
              else
                w == [] && Matches(result, end) && !MetaReady(u) && Plain(stats) == NoMeta(st, u, end)
      ensures result != ExactOk ==> Truly(end)
    {
      hide Truly, ByteSource.Valid, ByteSource.Lossless, NoMeta, FindMagic;
      ghost var window := raw[..4];
      raw[0], raw[1], raw[2] := raw[1], raw[2], raw[3];
      assert raw[..3] == window[1..];
      var count;
      result, count, end := ReadExact(raw, 3, 1);
      w := raw[3..3 + (count - ExtraOf(result, end))];
      if result != ExactOk {
        NoMetaLost(st, u, end);
        if result == ExactEof && count > 0 {
          stats := stats.(truncatedMeta := stats.truncatedMeta + 1);
        }
        stats := stats.(discarded := stats.discarded + discarded + 4);
      } else {
        assert w == [raw[3]] && raw[..4] == window[1..] + [raw[3]];
        ShiftWindow(u, window, raw[3]);
      }
    }

    /** Short writes and failed flushes. */
    ghost function Faults(f: OutputFile): nat
      reads f
    {
      f.faults + f.flushFaults
    }

    /** write_file_all (sniffer_capture.c:138-151); n bytes reach the file. */
    method WriteFileAll(data: seq<byte>) returns (ok: bool, ghost n: nat)
      requires Valid()
      modifies output, this`stats
      ensures n <= |data| && (ok ==> n == |data|)
      ensures if ok then output.faults >= old(output.faults) else output.faults > old(output.faults)
      ensures output.flushFaults == old(output.flushFaults) && output.flushed == old(output.flushed)
      ensures output.contents == old(output.contents) + data[..n]
      ensures stats == old(stats).(stored := old(stats).stored + n,
        writeFailures := old(stats).writeFailures + Bit(!ok))
    {
      hide ByteSource.Valid, ByteSource.Lossless;
      var total := 0;
      while total < |data|
        invariant total <= |data| && output.contents == old(output.contents) + data[..total]
        invariant stats == old(stats).(stored := old(stats).stored + total)
        invariant output.faults >= old(output.faults) && output.flushFaults == old(output.flushFaults)
        invariant output.flushed == old(output.flushed)
      {
        var written := output.Fwrite(data[total..]);
        assert data[..total] + data[total..][..written] == data[..total + written];
        if written == 0 {
          stats := stats.(writeFailures := stats.writeFailures + 1);
          return false, total;
        }
        total := total + written;
        stats := stats.(stored := stats.stored + written);
      }
      ok, n := true, total;
    }

    /** Lines 234-244: store one record. */
    method Store(raw: seq<byte>, payload: seq<byte>, flush: bool) returns (ok: bool, ghost n: nat)
      requires Valid()
      modifies output, this`stats
      ensures n <= |raw| + |payload| && (ok ==> n == |raw| + |payload|)
      ensures output.contents == old(output.contents) + (raw + payload)[..n]
      ensures ok && flush ==> output.flushed == |output.contents|
      ensures Faults(output) >= old(Faults(output)) + Bit(!ok) && (ok ==> output.flushFaults == old(output.flushFaults))
      ensures stats == old(stats).(stored := old(stats).stored + n,
        writeFailures := old(stats).writeFailures + Bit(!ok),
                                   records := old(stats).records + Bit(ok))
    {
      hide ByteSource.Valid, ByteSource.Lossless;
      ghost var base := output.contents;
      ok, n := WriteFileAll(raw);
      assert (raw + payload)[..n] == raw[..n];
      if ok {
        ghost var m;
        ok, m := WriteFileAll(payload);
        assert base + (raw + payload)[..n + m] == base + raw[..n] + payload[..m];
        n := n + m;
        if ok && flush {
          ok := output.Fflush();
          if !ok {
            stats := stats.(writeFailures := stats.writeFailures + 1);
          }
        }
      }
      if ok {
        stats := stats.(records := stats.records + 1);
      }
    }

    /** Between two records: the bytes seen so far have been dealt with. */
    ghost predicate At(o: Options, c: Ghosts, seen: seq<byte>, frames: seq<seq<byte>>)
      reads Repr(), output
    {
      && Took(c.before, source.delivered, seen, 0)
      && Resumes(o, c.st, seen, Plain(stats), frames)
      && output.contents == c.base + Concat(frames)
      && stats.writeFailures == c.st.writeFailures && OnDisk(o, c, frames)
    }

    /** With flush_each_record all records written have been flushed. */
    ghost predicate OnDisk(o: Options, c: Ghosts, frames: seq<seq<byte>>)
      reads output
    {
      Faults(output) >= c.faults && (o.flushEachRecord && frames != [] ==> output.flushed == |output.contents|)
    }

    /** At the end: the result is that of the delivered bytes; or a write failed,
        and the file is a prefix of what it should have been. */
    ghost predicate Finished(o: Options, c: Ghosts, seen: seq<byte>, end: End, ok: bool)
      reads Repr(), output
    {
      var r := Capture(o, c.st, seen, end);
      && Took(c.before, source.delivered, seen, Extra(end))
      && (stats.writeFailures == c.st.writeFailures ==>
            && r.stats == Plain(stats) && r.ok == ok && output.contents == c.base + Concat(r.frames)
            && OnDisk(o, c, r.frames))
      && (stats.writeFailures != c.st.writeFailures ==>
            && !ok && stats.writeFailures == c.st.writeFailures + 1 && Faults(output) > c.faults
            && c.base <= output.contents <= c.base + Concat(r.frames))
    }

    /** One turn of the loop in sniffer_capture (lines 196-244). */
    method CaptureOne(o: Options, raw: array<byte>, payload: array<byte>, ghost c: Ghosts, ghost seen: seq<byte>,
            ghost frames: seq<seq<byte>>)
        returns (go: bool, ok: bool, ghost seen': seq<byte>, ghost frames': seq<seq<byte>>, ghost end: End)
      requires Valid() && raw !in Repr() && payload !in Repr() && raw != payload
      requires raw.Length == META && payload.Length == o.maxPayload
      requires At(o, c, seen, frames) && !AtLimit(o, stats)
      modifies Repr(), output, raw, payload
      ensures Valid() && source.Horizon() == old(source.Horizon())
      ensures go ==> At(o, c, seen', frames') && |source.delivered| > |old(source.delivered)|
      ensures !go ==> Finished(o, c, seen', end, ok)
      ensures stats.stored - |output.contents| == old(stats.stored - |output.contents|)
      ensures !go && stats.writeFailures == c.st.writeFailures ==> Truly(end)
    {
      hide Truly, ByteSource.Valid, ByteSource.Lossless, NoMeta, FindMagic, Took, Resumes, Capture, Concat,
          MetaRead, CutShort, Kept, Overlong;
      go, ok, seen', frames', end := false, true, seen, frames, Stopped(false);
      ghost var st := Plain(stats);
      var result;
      ghost var u;
      ghost var mid := source.delivered;
      result, u, end := ReadNextMeta(raw);
      TookThen(c.before, mid, source.delivered, seen, u, ExtraOf(result, end));
      if result != ExactOk {
        seen', ok := seen + u, result != ExactError;
        ResumesIntoNoMeta(o, c.st, seen, st, frames, u, end);
        NoMetaKeeps(st, u, end);
        return;
      }
      TookLength(mid, source.delivered, u, 0);
      MetaReadKeeps(st, |u| - META);
      ghost var meta := raw[..];
      assert LengthAt(u, |u| - META) == LengthAt(meta, 0);
      var n := LengthAt(raw[..], 0);
      if n > o.maxPayload {
        stats := stats.(invalidLengths := stats.invalidLengths + 1);
        OverlongIs(st, |u| - META);
        ResumesAfterOverlong(o, c.st, seen, st, frames, u);
        return true, true, seen + u, frames, Stopped(false);
      }
      go, ok, seen', frames', end := KeepRecord(o, raw, payload, n, c, seen, frames, u, st);
    }

    /** Lines 217-244: the payload of the meta in `raw`, and both to the file. */
    method KeepRecord(o: Options, raw: array<byte>, payload: array<byte>, n: nat,
                      ghost c: Ghosts, ghost seen: seq<byte>, ghost frames: seq<seq<byte>>, ghost u: seq<byte>,
                      ghost st: Stats)
        returns (go: bool, ok: bool, ghost seen': seq<byte>, ghost frames': seq<seq<byte>>, ghost end: End)
      requires Valid() && raw !in Repr() && payload !in Repr() && raw != payload
      requires raw.Length == META && payload.Length == o.maxPayload
      requires MetaUnit(u) && raw[..] == u[|u| - META..] && n == LengthAt(u, |u| - META) <= o.maxPayload
      requires Resumes(o, c.st, seen, st, frames) && !AtLimit(o, st) && st.writeFailures == c.st.writeFailures
      requires Took(c.before, source.delivered, seen + u, 0) && Plain(stats) == MetaRead(st, |u| - META)
      requires output.contents == c.base + Concat(frames) && OnDisk(o, c, frames)
      modifies Repr(), output, payload
      ensures Valid() && source.Horizon() == old(source.Horizon())
      ensures go ==> At(o, c, seen', frames') && |source.delivered| >= |old(source.delivered)|
      ensures !go ==> Finished(o, c, seen', end, ok)
      ensures stats.stored - |output.contents| == old(stats.stored - |output.contents|)
      ensures !go && stats.writeFailures == c.st.writeFailures ==> Truly(end)
    {
      hide Truly, ByteSource.Valid, ByteSource.Lossless, NoMeta, FindMagic, Took, Resumes, Capture, Concat,
          MetaRead, CutShort, Kept, Overlong;
      go, frames' := false, frames;
      MetaReadKeeps(st, |u| - META);
      ghost var meta, mid := raw[..], source.delivered;
      var result, count;
      result, count, end := ReadExact(payload, 0, n);
      ghost var part := payload[0..0 + (count - ExtraOf(result, end))];
      TookThen(c.before, mid, source.delivered, seen + u, part, ExtraOf(result, end));
      TookLength(mid, source.delivered, part, ExtraOf(result, end));
      seen' := seen + u + part;
      if result != ExactOk {
        ok := result != ExactError;
        if result == ExactEof || result == ExactError {
          stats := stats.(truncatedPayload := stats.truncatedPayload + 1);
        }
        CutShortIs(st, |u| - META, |part|, end);
        ResumesIntoTruncated(o, c.st, seen, st, frames, u, part, end);
        return;
      }
      assert raw[..] == meta && payload[..n] == part;
      ghost var f := meta + part;
      frames' := frames + [f];
      ResumesAfterRecord(o, c.st, seen, st, frames, u, part);
      KeptIs(st, |u| - META, |part|);
      ConcatOne(frames, f);
      assert c.base + Concat(frames) + f == c.base + Concat(frames');
      ghost var stored;
      ok, stored := Store(raw[..], payload[..n], o.flushEachRecord);
      end, go := Stopped(false), ok;
      if ok {
        assert f[..stored] == f;
      } else {
        ResumesToNothing(o, c.st, seen', Kept(st, |u| - META, |part|), frames', end);
      }
    }

    lemma NothingToFlush(o: Options, c: Ghosts)
      requires c.faults == Faults(output)
      ensures OnDisk(o, c, [])
    {
    }

    /** sniffer_capture (sniffer_capture.c:175-249), with a fresh output file or an
        already used one.  `seen` are the bytes delivered during the call, but for
        those that came together with the final status. */
    method Run(o: Options) returns (status: int, ghost seen: seq<byte>, ghost end: End)
      requires Valid()
      modifies Repr(), output
      ensures Valid() && source.Horizon() == old(source.Horizon())
      ensures o.maxPayload == 0 || o.maxPayload > UINT16_MAX ==>
        status == -1 && stats == old(stats) && output.contents == old(output.contents)
      ensures 0 < o.maxPayload <= UINT16_MAX ==>
        && (var c := Ghosts(Plain(old(stats)), old(source.delivered), old(output.contents), old(Faults(output)));
            Finished(o, c, seen, end, status == 0))
        && stats.stored - old(stats.stored) == |output.contents| - |old(output.contents)|
        && (stats.writeFailures == old(stats.writeFailures) ==> Truly(end) || (end.Stopped? && AtLimit(o, stats)))
        && status in {0, -1}
    {
      hide ByteSource.Valid, ByteSource.Lossless, NoMeta, FindMagic, Took, Resumes, Capture, Concat, OnDisk;
      seen, end := [], Stopped(false);
      if o.maxPayload == 0 || o.maxPayload > UINT16_MAX {
        return -1, seen, end;
      }
      ghost var c := Ghosts(Plain(stats), source.delivered, output.contents, Faults(output));
      ghost var frames := [];
      var raw := new byte[META];
      var payload := new byte[o.maxPayload];
      Start(o, c);
      NothingToFlush(o, c);
      while true
        invariant Valid() && fresh(raw) && fresh(payload) && raw != payload
        invariant source.Horizon() == old(source.Horizon())
        invariant At(o, c, seen, frames) && end == Stopped(false)
        invariant stats.stored - |output.contents| == old(stats.stored - |output.contents|)
        decreases |source.Horizon()| - |source.delivered|
      {
        var run := IsRunning();
        if !run || AtLimit(o, stats) {
          ResumesToNothing(o, c.st, seen, Plain(stats), frames, end);
          return 0, seen, end;
        }
        var go, ok;
        go, ok, seen, frames, end := CaptureOne(o, raw, payload, c, seen, frames);
        if !go {
          return if ok then 0 else -1, seen, end;
        }
        end := Stopped(false);
      }
    }
  }

  /** A whole capture of an endpoint that has `wire` to give, with a staging
      buffer of the given capacity, or none if that is 0.  With no write failure,
      counters (but read_timeouts) and file are those of CaptureSpec.Capture on the
      n bytes the endpoint got to deliver.  If it keeps the transport contract and
      has reads enough to bring the whole wire, these are Capture(wire, EOF), with or
      without a record limit: nothing tells how the wire was cut into reads. */
  method CaptureStream(o: Options, wire: seq<byte>, script: seq<ReadEvent>, capacity: nat, noFlag: bool, checks: nat,
                       accepts: seq<nat>, flushes: seq<bool>)
      returns (stats: Stats, file: seq<byte>, status: int, ghost n: nat, ghost end: End)
    ensures o.maxPayload == 0 || o.maxPayload > UINT16_MAX ==> status == -1 && file == [] && stats == ZERO
    ensures n + Extra(end) <= |wire|
    ensures 0 < o.maxPayload <= UINT16_MAX && stats.writeFailures == 0 ==>
      var r := Capture(o, ZERO, wire[..n], end);
      Plain(stats) == r.stats && file == Concat(r.frames) && (status == 0 <==> r.ok)
    ensures stats.writeFailures != 0 ==>
      stats.writeFailures == 1 && status == -1 && file <= Concat(Capture(o, ZERO, wire[..n], end).frames)
    ensures stats.stored == |file|
    ensures o.maxRecords != 0 && stats.writeFailures == 0 ==> stats.records <= o.maxRecords
    ensures 0 < o.maxPayload <= UINT16_MAX && stats.writeFailures == 0 && noFlag && !AtLimit(o, stats) ==>
      !end.Stopped? && (Calm(script) ==> end == Eof(0) && (n == |wire| || n >= Bringing(script)))
    ensures 0 < o.maxPayload <= UINT16_MAX && stats.writeFailures == 0 && noFlag ==>
      Calm(script) && Bringing(script) >= |wire| ==>
        var r := Capture(o, ZERO, wire, Eof(0));
        Plain(stats) == r.stats && file == Concat(r.frames) && (status == 0 <==> r.ok)
  {
    hide ByteSource.Valid, ByteSource.Lossless, NoMeta, FindMagic, Took, Resumes, Capture, Concat, Calm,
      Endpoint.Flowing;
    var endpoint := new Endpoint(wire, script);
    var staging: array?<byte> := null;
    if capacity > 0 {
      staging := new byte[capacity];
    }
    var output := new OutputFile([], accepts, flushes);
    var source := new ByteSource(endpoint, staging);
    assert source.Horizon() == wire;
    var session := new Session(source, output, noFlag, checks);
    ghost var seen;
    status, seen, end := session.Run(o);
    stats, file := session.stats, output.contents;
    if o.maxPayload == 0 || o.maxPayload > UINT16_MAX {
      n, end := 0, Stopped(false);
      return;
    }
    n := |seen|;
    if stats.writeFailures == 0 && noFlag && !AtLimit(o, stats) && endpoint.calm {
      source.DeliveredEnough();
    }
    source.DeliveredIsPrefix();
    TookPrefix(source.delivered, seen, Extra(end), wire);
    assert [] + file == file;
    WholeWire(o, wire, n, end);
  }

  /** The bytes delivered decide, if they are all there are or reach the limit. */
  lemma WholeWire(o: Options, wire: seq<byte>, n: nat, end: End)
    requires n <= |wire|
    ensures var r := Capture(o, ZERO, wire[..n], end);
      && (o.maxRecords != 0 ==> r.stats.records <= o.maxRecords)
      && (AtLimit(o, r.stats) || (n == |wire| && end == Eof(0)) ==> Capture(o, ZERO, wire, Eof(0)) == r)
  {
    hide Capture;
    if o.maxRecords != 0 {
      L.LimitIsPrefix(o, ZERO, wire[..n], end);
    }
    assert wire[..n] + wire[n..] == wire && wire[..|wire|] == wire;
    if AtLimit(o, Capture(o, ZERO, wire[..n], end).stats) {
      L.LimitIgnoresRest(o, ZERO, wire[..n], wire[n..], end, Eof(0));
    }
  }

  lemma TookPrefix(delivered: seq<byte>, seen: seq<byte>, extra: nat, wire: seq<byte>)
    requires Took([], delivered, seen, extra) && delivered <= wire
    ensures |seen| + extra == |delivered| <= |wire| && wire[..|seen|] == seen
  {
    assert [] + seen == seen;
  }

  lemma NoMetaKeeps(st: Stats, u: seq<byte>, end: End)
    ensures var r := NoMeta(st, u, end); r.stored == st.stored && r.writeFailures == st.writeFailures
  {
  }

  lemma MetaReadKeeps(st: Stats, k: nat)
    ensures MetaRead(st, k).stored == st.stored && MetaRead(st, k).records == st.records
    ensures MetaRead(st, k).writeFailures == st.writeFailures
    ensures MetaRead(st, k).invalidLengths == st.invalidLengths
    ensures MetaRead(st, k).truncatedPayload == st.truncatedPayload
    ensures MetaRead(st, k).received == st.received + k + META
  {
  }

  lemma OverlongIs(st: Stats, k: nat)
    ensures Overlong(st, k) == MetaRead(st, k).(invalidLengths := st.invalidLengths + 1)
  {
  }

  lemma CutShortIs(st: Stats, k: nat, n: nat, end: End)
    ensures CutShort(st, k, n, end) ==
      Ended(MetaRead(st, k), n, end).(truncatedPayload := st.truncatedPayload + Bit(!end.Stopped?))
  {
  }

  lemma KeptIs(st: Stats, k: nat, n: nat)
    ensures Kept(st, k, n) ==
      MetaRead(st, k).(received := st.received + k + META + n, stored := st.stored + META + n,
        records := st.records + 1)
  {
  }

  /** Stopping between two records. */
  lemma ResumesToNothing(o: Options, st0: Stats, seen: seq<byte>, st: Stats, frames: seq<seq<byte>>, end: End)
    requires Resumes(o, st0, seen, st, frames) && end == Stopped(false)
    ensures Capture(o, st0, seen, end) == Outcome(st, frames, true)
  {
    assert Resumed(o, st0, seen, st, frames, [], end);
    assert seen + [] == seen && frames + [] == frames;
  }

  lemma Start(o: Options, c: Ghosts)
    ensures Took(c.before, c.before, [], 0) && Resumes(o, c.st, [], c.st, []) && c.base == c.base + Concat([])
  {
    forall rest: seq<byte>, end: End ensures Resumed(o, c.st, [], c.st, [], rest, end) {
      assert [] + rest == rest;
      var r := Capture(o, c.st, rest, end);
      assert [] + r.frames == r.frames;
    }
  }

  lemma NoMagicYet(u: seq<byte>, before: seq<byte>)
    requires |u| == 4 && !MagicAt(u, 0)
    ensures FindMagic(u, 0) == -1 && Took(before, before, [], 0)
  {
  }
}
