/**
  ground_control_windows.c in its own form: a four-byte window shifted in place,
  payloads read and written in pieces.  Its file is proved to be what GroundSpec
  says of the bytes received.
*/
module GroundControl {
  import opened Wire
  import opened GroundSpec
  import opened Transport

  /** After the bytes u, four bytes w are in the window of read_next_meta. */
  ghost predicate WindowIs(u: seq<byte>, w: seq<byte>) {
    |w| == 4 && forall rest: seq<byte>, failed: bool :: Store(u + rest, failed) == FromWindow(w, rest, failed)
  }

  /** After the bytes u, an accepted meta has been read. */
  ghost predicate MetaIs(u: seq<byte>, meta: seq<byte>) {
    && |meta| == META && MagicAt(meta, 0) && LengthAt(meta, 0) <= MAX_MESSAGE_SIZE
    && forall rest: seq<byte>, failed: bool :: Store(u + rest, failed) == FromMeta(meta, rest, failed)
  }

  ghost predicate Nothing(u: seq<byte>) {
    forall failed: bool :: Store(u, failed) == Ground([], [])
  }

  /** After the bytes `seen`, `frames` are on file and a new record is awaited. */
  ghost predicate Stored(seen: seq<byte>, frames: seq<seq<byte>>) {
    forall rest: seq<byte>, failed: bool :: StoredThen(seen, frames, rest, failed)
  }

  ghost predicate StoredThen(seen: seq<byte>, frames: seq<seq<byte>>, rest: seq<byte>, failed: bool) {
    var g := Store(rest, failed);
    Store(seen + rest, failed) == Ground(frames + g.frames, g.partial)
  }

  lemma WindowStarts(u: seq<byte>)
    requires |u| == 4
    ensures WindowIs(u, u)
  {
    forall rest: seq<byte>, failed: bool ensures Store(u + rest, failed) == FromWindow(u, rest, failed) {
      assert (u + rest)[..4] == u && (u + rest)[4..] == rest;
    }
  }

  lemma WindowSlides(u: seq<byte>, w: seq<byte>, b: byte)
    requires WindowIs(u, w) && !MagicAt(w, 0)
    ensures WindowIs(u + [b], w[1..] + [b])
  {
    forall rest: seq<byte>, failed: bool
      ensures Store(u + [b] + rest, failed) == FromWindow(w[1..] + [b], rest, failed) {
      assert u + [b] + rest == u + ([b] + rest) && ([b] + rest)[1..] == rest;
    }
  }

  lemma WindowEnds(u: seq<byte>, w: seq<byte>, tail: seq<byte>)
    requires WindowIs(u, w) && MagicAt(w, 0) && |tail| <= META - 4
    requires |tail| == META - 4 ==> LengthAt(w + tail, 0) > MAX_MESSAGE_SIZE
    ensures Nothing(u + tail)
  {
    forall failed: bool ensures Store(u + tail, failed) == Ground([], []) {
      assert tail[..|tail|] == tail;
      assert Store(u + tail, failed) == FromWindow(w, tail, failed);
    }
  }

  lemma WindowWaits(u: seq<byte>, w: seq<byte>)
    requires WindowIs(u, w)
    ensures Nothing(u)
  {
    forall failed: bool ensures Store(u, failed) == Ground([], []) {
      assert u + [] == u;
      assert Store(u + [], failed) == FromWindow(w, [], failed);
    }
  }

  lemma WindowToMeta(u: seq<byte>, w: seq<byte>, tail: seq<byte>)
    requires WindowIs(u, w) && MagicAt(w, 0) && |tail| == META - 4 && LengthAt(w + tail, 0) <= MAX_MESSAGE_SIZE
    ensures MetaIs(u + tail, w + tail)
  {
    forall rest: seq<byte>, failed: bool ensures Store(u + tail + rest, failed) == FromMeta(w + tail, rest, failed) {
      assert u + tail + rest == u + (tail + rest) && (tail + rest)[..META - 4] == tail
        && (tail + rest)[META - 4..] == rest;
    }
  }

  /** An over-long meta leaves its last three magic bytes in the window. */
  lemma WindowAfterOverlong(u: seq<byte>, w: seq<byte>, tail: seq<byte>, b: byte)
    requires WindowIs(u, w) && MagicAt(w, 0) && |tail| == META - 4 && LengthAt(w + tail, 0) > MAX_MESSAGE_SIZE
    ensures WindowIs(u + tail + [b], w[1..] + [b])
  {
    forall rest: seq<byte>, failed: bool
      ensures Store(u + tail + [b] + rest, failed) == FromWindow(w[1..] + [b], rest, failed)
    {
      var t := tail + [b] + rest;
      assert u + tail + [b] + rest == u + t && t[..META - 4] == tail && t[META - 4] == b && t[META - 3..] == rest;
    }
  }

  lemma ShortIsNothing(u: seq<byte>)
    requires |u| < 4
    ensures Nothing(u)
  {
  }

  lemma StoredStart()
    ensures Stored([], []) && Concat([]) == []
  {
    forall rest: seq<byte>, failed: bool ensures StoredThen([], [], rest, failed) {
      assert [] + rest == rest;
      assert [] + Store(rest, failed).frames == Store(rest, failed).frames;
    }
  }

  lemma StoredEnd(seen: seq<byte>, frames: seq<seq<byte>>, u: seq<byte>, failed: bool)
    requires Stored(seen, frames) && Nothing(u)
    ensures Store(seen + u, failed) == Ground(frames, [])
  {
    assert StoredThen(seen, frames, u, failed);
    assert frames + [] == frames;
  }

  lemma StoredRecord(seen: seq<byte>, frames: seq<seq<byte>>, u: seq<byte>, meta: seq<byte>, payload: seq<byte>)
    requires Stored(seen, frames) && MetaIs(u, meta) && |payload| == LengthAt(meta, 0)
    ensures Stored(seen + u + payload, frames + [meta + payload])
  {
    hide Store, FromMeta;
    forall rest: seq<byte>, failed: bool
      ensures StoredThen(seen + u + payload, frames + [meta + payload], rest, failed) {
      var t := u + payload + rest;
      assert StoredThen(seen, frames, t, failed);
      assert seen + u + payload + rest == seen + t;
      assert t == u + (payload + rest) && (payload + rest)[..|payload|] == payload
        && (payload + rest)[|payload|..] == rest;
      StoreAfterPayload(meta, payload + rest, failed);
      assert frames + ([meta + payload] + Store(rest, failed).frames) ==
        frames + [meta + payload] + Store(rest, failed).frames;
    }
  }

  /** A payload cut short after `got` was written and `part` was read. */
  lemma StoredPartial(seen: seq<byte>, frames: seq<seq<byte>>, u: seq<byte>, meta: seq<byte>, got: seq<byte>,
          part: seq<byte>, failed: bool)
    requires Stored(seen, frames) && MetaIs(u, meta) && |got| + |part| < LengthAt(meta, 0)
    requires failed ==> |got| % MAX_TRANSFER_SIZE == 0 && |part| < MAX_TRANSFER_SIZE
    ensures Store(seen + u + (got + part), failed) == Ground(frames, meta + if failed then got else got + part)
  {
    hide Store;
    var s := got + part;
    assert StoredThen(seen, frames, u + s, failed);
    assert seen + u + s == seen + (u + s) && frames + [] == frames;
    assert Store(u + s, failed) == FromMeta(meta, s, failed);
    if failed {
      assert |s| - |s| % MAX_TRANSFER_SIZE == |got|;
      assert s[..|got|] == got;
    }
  }

  /** Stopping between two records. */
  lemma StoredStop(seen: seq<byte>, frames: seq<seq<byte>>)
    requires Stored(seen, frames)
    ensures Store(seen, false) == Ground(frames, []) && Concat(frames) + [] == Concat(frames)
  {
    ShortIsNothing([]);
    StoredEnd(seen, frames, [], false);
    assert seen + [] == seen;
  }

  lemma MetaFacts(u: seq<byte>, meta: seq<byte>)
    requires MetaIs(u, meta)
    ensures |meta| == META && LengthAt(meta, 0) <= MAX_MESSAGE_SIZE
  {
  }

  /** What the file holds once s of a payload is written, whole or not. */
  lemma GroundSoFar(seen: seq<byte>, frames: seq<seq<byte>>, u: seq<byte>, meta: seq<byte>, s: seq<byte>)
    requires |meta| == META && Stored(seen, frames) && MetaIs(u, meta) && |s| <= LengthAt(meta, 0)
    ensures var g := Store(seen + u + s, false); Concat(g.frames) + g.partial == Concat(frames) + (meta + s)
  {
    hide Stored, MetaIs;
    if |s| == LengthAt(meta, 0) {
      StoredRecord(seen, frames, u, meta, s);
      assert Nothing([]);
      StoredEnd(seen + u + s, frames + [meta + s], [], false);
      assert seen + u + s + [] == seen + u + s;
      ConcatOne(frames, meta + s);
      assert Concat(frames) + (meta + s) + [] == Concat(frames) + (meta + s);
    } else {
      assert s + [] == s;
      StoredPartial(seen, frames, u, meta, s, [], false);
    }
  }

  /** What a run started from: bytes sent by the device, contents of the file. */
  datatype Start = Start(sent: seq<byte>, file: seq<byte>)

  class GroundReader {
    const device: Endpoint
    const output: OutputFile
    /** How many more times keep_running will be found set. */
    var checks: nat

    /** A bulk transfer never hands over more than was asked for. */
    ghost predicate Valid()
      reads device`script
    {
      (output as object) !in {this, device} && Orderly(device.script)
    }

    constructor (device: Endpoint, output: OutputFile, checks: nat)
      requires Orderly(device.script)
      requires (output as object) != device
      ensures Valid() && this.device == device && this.output == output && this.checks == checks && fresh(this)
    {
      this.device, this.output, this.checks := device, output, checks;
    }

    /** keep_running: once clear, the flag stays clear. */
    method KeepRunning() returns (set_: bool)
      modifies this`checks
      ensures !set_ <==> old(checks) == 0
      ensures !set_ ==> checks == 0
    {
      set_ := checks > 0;
      checks := if checks > 0 then checks - 1 else 0;
    }

    /** Since `before` the device has sent u; or u, and the bytes that came with a
        transfer that failed. */
    ghost predicate Got(before: seq<byte>, u: seq<byte>, failed: bool)
      reads device
    {
      if failed then
        && before + u <= device.sent && |device.sent| == |before| + |u| + device.latest
        && device.reported != [] && device.reported[|device.reported| - 1] !in {IoData, IoTimeout}
      else device.sent == before + u
    }

    lemma GotThen(before: seq<byte>, mid: seq<byte>, u: seq<byte>, v: seq<byte>, failed: bool)
      requires mid == before + u && Got(mid, v, failed)
      ensures Got(before, u + v, failed)
    {
      assert before + u + v == before + (u + v);
    }

    /** libusb_bulk_transfer on the IN endpoint. */
    method Transfer(buffer: array<byte>, at: nat, capacity: nat) returns (status: IoStatus, transferred: nat)
      requires Valid() && (buffer as object) !in {this, device, output} && at + capacity <= buffer.Length
      modifies device, buffer
      ensures Valid() && transferred <= capacity
      ensures device.sent == old(device.sent) + buffer[at..at + transferred]
      ensures device.sent + device.rest == old(device.sent + device.rest)
      ensures forall i :: 0 <= i < buffer.Length && !(at <= i < at + transferred) ==> buffer[i] == old(buffer[i])
      ensures |device.script| < |old(device.script)| || (status == IoEof && transferred == 0)
      ensures device.latest == transferred && device.reported != [] && device.reported[|device.reported| - 1] == status
    {
      status, transferred := device.Read(buffer, at, capacity);
    }

    /** read_exact_usb (lines 100-148): -1 after a failed transfer, else the bytes
        read, fewer than `length` only after a stop.  `part` are the bytes that
        arrived before the failing transfer; those that came with it are lost. */
    method ReadExactUsb(buffer: array<byte>, at: nat, length: nat) returns (received: int, ghost part: seq<byte>)
      requires Valid() && (buffer as object) !in {this, device, output} && at + length <= buffer.Length
      modifies this`checks, device, buffer
      ensures Valid() && -1 <= received <= length
      ensures device.sent + device.rest == old(device.sent + device.rest)
      ensures received >= 0 ==> part == buffer[at..at + received] && device.sent == old(device.sent) + part
      ensures received == -1 ==> |part| < length
      ensures Got(old(device.sent), part, received == -1)
      ensures 0 <= received < length ==> checks == 0
      ensures forall i :: 0 <= i < buffer.Length && !(at <= i < at + length) ==> buffer[i] == old(buffer[i])
    {
      received, part := 0, [];
      hide Valid;
      var total: nat := 0;
      while true
        invariant Valid() && total <= length
        invariant device.sent + device.rest == old(device.sent + device.rest)
        invariant part == buffer[at..at + total] && device.sent == old(device.sent) + part
        invariant forall i :: 0 <= i < buffer.Length && !(at <= i < at + length) ==> buffer[i] == old(buffer[i])
        decreases |device.script|
      {
        var run := KeepRunning();
        if !run || total >= length {
          return total, part;
        }
        var status, transferred := Transfer(buffer, at + total, length - total);
        ghost var before := part;
        assert buffer[at..at + total] == before;
        part := buffer[at..at + (total + transferred)];
        assert part == before + buffer[at + total..at + total + transferred];
        total := total + transferred;
        if status != IoData {
          run := KeepRunning();
          if !run {
            return total, part;
          }
          if status != IoTimeout {
            return -1, before;
          }
        }
      }
    }

    /** read_next_meta (lines 159-219).  `u` are the bytes it read. */
    method ReadNextMeta(raw: array<byte>) returns (received: int, ghost u: seq<byte>)
      requires Valid() && (raw as object) !in {this, device, output} && raw.Length == META
      modifies this`checks, device, raw
      ensures Valid() && device.sent + device.rest == old(device.sent + device.rest)
      ensures Got(old(device.sent), u, received == -1)
      ensures received >= -1 && (received == META ==> MetaIs(u, raw[..]) && |u| >= META)
      ensures received != META ==> Nothing(u) && (received == -1 || checks == 0)
    {
      hide Store, FromWindow, FromMeta, WindowIs, Nothing, MetaIs, MagicAt, LengthAt;
      ghost var before := device.sent;
      var window := new byte[4];
      ghost var part;
      received, u := ReadExactUsb(window, 0, 4);
      if received != 4 {
        ShortIsNothing(u);
        return;
      }
      assert u == window[..];
      WindowStarts(u);
      while true
        invariant Valid() && fresh(window) && device.sent + device.rest == old(device.sent + device.rest)
        invariant device.sent == old(device.sent) + u && WindowIs(u, window[..]) && 4 <= |u|
        decreases |device.rest|
      {
        ghost var w, start := window[..], u;
        var run := KeepRunning();
        if !run {
          WindowWaits(u, w);
          return 0, u;
        }
        ghost var tail := [];
        var matched := MagicAt(window[..], 0);
        if matched {
          received, tail := ReadRest(raw, window[..]);
          u := start + tail;
          GotThen(before, before + start, start, tail, received == -1);
          if received != META {
            WindowEnds(start, w, tail);
            return if received < 0 then -1 else received, u;
          }
          if LengthAt(raw[..], 0) <= MAX_MESSAGE_SIZE {
            WindowToMeta(start, w, tail);
            return META, u;
          }
        }
        assert u == start + tail;
        received, part := Slide(window, start, tail);
        GotThen(before, before + u, u, part, received == -1);
        if received != 1 {
          assert u + part == u;
          return;
        }
        u := u + part;
      }
    }

    /** Lines 205-213: drop the oldest byte of the window and read one more. */
    method Slide(window: array<byte>, ghost u: seq<byte>, ghost tail: seq<byte>) returns (received: int,
            ghost part: seq<byte>)
      requires Valid() && (window as object) !in {this, device, output} && window.Length == 4
      requires WindowIs(u, window[..])
      requires
        if MagicAt(window[..], 0) then |tail| == META - 4 && LengthAt(window[..] + tail, 0) > MAX_MESSAGE_SIZE
        else tail == []
      modifies this`checks, device, window
      ensures Valid() && device.sent + device.rest == old(device.sent + device.rest)
      ensures Got(old(device.sent), part, received == -1)
      ensures received == 1 ==> |part| == 1 && WindowIs(u + tail + part, window[..])
      ensures received != 1 ==> part == [] && Nothing(u + tail) && (received == -1 || (received == 0 && checks == 0))
    {
      hide Store, FromWindow, FromMeta, Nothing, LengthAt;
      ghost var w := window[..];
      window[0] := window[1];
      window[1] := window[2];
      window[2] := window[3];
      assert window[..3] == w[1..];
      received, part := ReadExactUsb(window, 3, 1);
      assert window[..3] == w[1..];
      assert window[..] == window[..3] + window[3..];
      if received == 1 {
        assert part == [part[0]] && window[..] == w[1..] + [part[0]];
        assert u + tail + part == u + tail + [part[0]];
      }
      if MagicAt(w, 0) {
        if received == 1 {
          WindowAfterOverlong(u, w, tail, part[0]);
        } else {
          WindowEnds(u, w, tail);
        }
      } else {
        assert u + tail == u;
        if received == 1 {
          WindowSlides(u, w, part[0]);
          assert WindowIs(u + tail + part, window[..]);
        } else {
          WindowWaits(u, w);
        }
      }
    }

    /** Lines 180-192: the window and the other 14 bytes into meta->raw. */
    method ReadRest(raw: array<byte>, window: seq<byte>) returns (received: int, ghost tail: seq<byte>)
      requires Valid() && (raw as object) !in {this, device, output} && raw.Length == META && |window| == 4
      modifies this`checks, device, raw
      ensures Valid() && device.sent + device.rest == old(device.sent + device.rest)
      ensures -1 <= received <= META && |tail| <= META - 4
      ensures Got(old(device.sent), tail, received == -1)
      ensures received == META ==> |tail| == META - 4 && raw[..] == window + tail
      ensures received != META ==> |tail| < META - 4 && (received == -1 || checks == 0)
    {
      forall i | 0 <= i < 4 {
        raw[i] := window[i];
      }
      assert raw[..4] == window;
      received, tail := ReadExactUsb(raw, 4, META - 4);
      assert raw[..4] == window;
      if received == META - 4 {
        assert raw[..] == raw[..4] + raw[4..];
      }
      received := if received < 0 then -1 else 4 + received;
    }

    /** write_binary (lines 150-157): all of the data, or less and a failure. */
    method WriteBinary(data: seq<byte>) returns (ok: bool, ghost n: nat)
      modifies output`contents, output`accepts, output`faults
      ensures n <= |data| && output.contents == old(output.contents) + data[..n]
      ensures ok <==> n == |data|
      ensures output.faults == old(output.faults) + if ok then 0 else 1
    {
      var written := output.Fwrite(data);
      ok, n := written == |data|, written;
    }

    /** Between two records: everything received has been dealt with. */
    ghost predicate Between(c: Start, seen: seq<byte>, frames: seq<seq<byte>>)
      reads device, output
    {
      && device.sent == c.sent + seen && Stored(seen, frames)
      && output.contents == c.file + Concat(frames)
      && (output.contents != c.file ==> output.tried == |output.contents|)
    }

    /** At the end: the file holds what GroundSpec says; or, if a write was cut
        short, a prefix of it.  Bytes that came with a failed transfer are not
        in `seen`. */
    ghost predicate Finished(c: Start, seen: seq<byte>, status: int, lost: bool)
      reads this`checks, device, output
    {
      var g := Store(seen, status == -1 && !lost);
      && Got(c.sent, seen, status == -1 && !lost)
      && status in {0, -1} && (lost ==> status == -1) && (status == 0 ==> checks == 0)
      && (status == 0 && output.contents != c.file ==> output.tried == |output.contents|)
      && if lost then
           c.file <= output.contents < c.file + (Concat(g.frames) + g.partial)
         else
           output.contents == c.file + (Concat(g.frames) + g.partial)
    }

    /** One turn of the payload loop (lines 252-275): at most 256 bytes, written as
        they came.  -1 if the transfer or the write failed. */
    method StorePiece(payload: array<byte>, chunk: nat, meta: seq<byte>, ghost c: Start,
                      ghost seen: seq<byte>, ghost frames: seq<seq<byte>>, ghost u: seq<byte>, ghost got: seq<byte>)
        returns (received: int, ghost part: seq<byte>, ghost lost: bool)
      requires Valid() && (payload as object) !in {this, device, output} && chunk <= payload.Length == MAX_TRANSFER_SIZE
      requires |meta| == META && Stored(seen, frames) && MetaIs(u, meta)
      requires |got| + chunk <= LengthAt(meta, 0) && |got| % MAX_TRANSFER_SIZE == 0
      requires device.sent == c.sent + (seen + u + got)
      requires output.contents == c.file + (Concat(frames) + (meta + got))
      modifies this`checks, device, output, payload
      ensures output.faults == old(output.faults) + if lost then 1 else 0
      ensures Valid() && device.sent + device.rest == old(device.sent + device.rest)
      ensures received >= 0 ==>
        && received == |part| <= chunk && (received < chunk ==> checks == 0)
        && device.sent == c.sent + (seen + u + (got + part))
        && output.contents == c.file + (Concat(frames) + (meta + (got + part)))
      ensures received < 0 ==> Finished(c, seen + u + (got + part), -1, lost)
      ensures received >= 0 ==> !lost
    {
      hide Stored, MetaIs, Store, Concat, LengthAt;
      lost := false;
      received, part := ReadExactUsb(payload, 0, chunk);
      GotThen(c.sent, c.sent + (seen + u + got), seen + u + got, part, received == -1);
      assert seen + u + got + part == seen + u + (got + part);
      if received < 0 {
        StoredPartial(seen, frames, u, meta, got, part, true);
        return;
      }
      if received > 0 {
        ghost var before, n := output.contents, 0;
        var written;
        written, n := WriteBinary(payload[..received]);
        assert payload[..received] == part && part == part[..n] + part[n..];
        assert before + part == c.file + (Concat(frames) + (meta + (got + part)));
        if !written {
          GroundSoFar(seen, frames, u, meta, got + part);
          received, lost := -1, true;
        }
      } else {
        assert part == [] && got + part == got;
      }
    }

    /** Lines 250-276: the payload, piece by piece. */
    method StorePayload(payload: array<byte>, meta: seq<byte>, ghost c: Start, ghost seen: seq<byte>,
            ghost frames: seq<seq<byte>>, ghost u: seq<byte>)
        returns (go: bool, status: int, ghost seen': seq<byte>, ghost frames': seq<seq<byte>>, ghost lost: bool)
      requires Valid() && (payload as object) !in {this, device, output} && payload.Length == MAX_TRANSFER_SIZE
      requires |meta| == META && Stored(seen, frames) && MetaIs(u, meta) && device.sent == c.sent + (seen + u)
      requires output.contents == c.file + (Concat(frames) + meta)
      modifies this`checks, device, output, payload
      ensures output.faults == old(output.faults) + if lost then 1 else 0
      ensures Valid() && device.sent + device.rest == old(device.sent + device.rest)
      ensures go ==> Between(c, seen', frames') && seen + u <= seen' && !lost
      ensures !go ==> Finished(c, seen', status, lost)
    {
      hide Stored, MetaIs, Store, Concat, LengthAt;
      go, status, frames', lost := false, 0, frames, false;
      var remaining: nat := LengthAt(meta, 0);
      ghost var got := [];
      assert meta + got == meta && seen + u + got == seen + u;
      while true
        invariant Valid() && device.sent + device.rest == old(device.sent + device.rest)
        invariant remaining + |got| == LengthAt(meta, 0)
        invariant remaining > 0 ==> |got| % MAX_TRANSFER_SIZE == 0
        invariant device.sent == c.sent + (seen + u + got)
        invariant output.contents == c.file + (Concat(frames) + (meta + got)) && output.faults == old(output.faults)
        invariant !lost
        decreases remaining
      {
        var run := KeepRunning();
        if !run || remaining == 0 {
          break;
        }
        var chunk := if remaining > MAX_TRANSFER_SIZE then MAX_TRANSFER_SIZE else remaining;
        var received;
        ghost var part;
        received, part, lost := StorePiece(payload, chunk, meta, c, seen, frames, u, got);
        got := got + part;
        if received < 0 {
          return false, -1, seen + u + got, frames, lost;
        }
        remaining := remaining - received;
        if received != chunk {
          run := KeepRunning();
          if run {
            assert false;
          }
          break;
        }
      }
      var flushed := output.Fflush();
      seen' := seen + u + got;
      if remaining == 0 {
        StoredRecord(seen, frames, u, meta, got);
        ConcatOne(frames, meta + got);
        assert c.file + (Concat(frames) + (meta + got)) == c.file + Concat(frames + [meta + got]);
        go, frames' := true, frames + [meta + got];
      } else {
        StoredPartial(seen, frames, u, meta, got, [], false);
        assert got + [] == got;
        lost := false;
      }
    }

    /** One turn of the main loop (lines 226-277). */
    method StoreOne(raw: array<byte>, payload: array<byte>, ghost c: Start, ghost seen: seq<byte>,
            ghost frames: seq<seq<byte>>)
        returns (go: bool, status: int, ghost seen': seq<byte>, ghost frames': seq<seq<byte>>, ghost lost: bool)
      requires Valid() && raw != payload && {raw as object, payload} !! {this, device, output}
      requires raw.Length == META && payload.Length == MAX_TRANSFER_SIZE && Between(c, seen, frames)
      modifies this`checks, device, output, raw, payload
      ensures output.faults == old(output.faults) + if lost then 1 else 0
      ensures Valid() && device.sent + device.rest == old(device.sent + device.rest)
      ensures go ==> Between(c, seen', frames') && |seen| < |seen'| && !lost
      ensures !go ==> Finished(c, seen', status, lost)
    {
      hide Stored, MetaIs, Nothing, Store, Concat, LengthAt;
      frames', lost := frames, false;
      var received;
      ghost var u;
      received, u := ReadNextMeta(raw);
      seen' := seen + u;
      GotThen(c.sent, c.sent + seen, seen, u, received == -1);
      if received < 0 {
        StoredEnd(seen, frames, u, true);
        assert Concat(frames) + [] == Concat(frames);
        return false, -1, seen', frames, false;
      }
      if received != META {
        StoredEnd(seen, frames, u, false);
        assert Concat(frames) + [] == Concat(frames);
        var run := KeepRunning();
        if run {
          assert false;
        }
        return false, 0, seen', frames, false;
      }
      var meta := raw[..];
      MetaFacts(u, meta);
      var ok;
      ghost var n;
      ok, n := WriteBinary(meta);
      assert meta == meta[..n] + meta[n..];
      if !ok {
        GroundSoFar(seen, frames, u, meta, []);
        assert seen + u + [] == seen' && meta + [] == meta;
        assert c.file + Concat(frames) + meta == c.file + (Concat(frames) + meta);
        return false, -1, seen', frames, true;
      }
      assert c.file + Concat(frames) + meta == c.file + (Concat(frames) + meta);
      go, status, seen', frames', lost := StorePayload(payload, meta, c, seen, frames, u);
    }

    /** store_sniffer_binary_data (lines 221-280).  `seen` are the bytes received,
        but for those that came with a failed transfer. */
    method StoreSnifferBinaryData() returns (status: int, ghost seen: seq<byte>, ghost lost: bool)
      requires Valid()
      modifies this`checks, device, output
      ensures output.faults == old(output.faults) + if lost then 1 else 0
      ensures Valid() && device.sent + device.rest == old(device.sent + device.rest)
      ensures Finished(Start(old(device.sent), old(output.contents)), seen, status, lost)
    {
      hide Stored, MetaIs, Nothing, Store, Concat, LengthAt;
      ghost var c := Start(device.sent, output.contents);
      ghost var frames := [];
      seen, lost, status := [], false, 0;
      var raw := new byte[META];
      var payload := new byte[MAX_TRANSFER_SIZE];
      StoredStart();
      while true
        invariant Valid() && fresh(raw) && fresh(payload) && raw != payload && lost == false && status == 0
        invariant device.sent + device.rest == old(device.sent + device.rest)
        invariant Between(c, seen, frames) && output.faults == old(output.faults)
        decreases |device.sent + device.rest| - |seen|
      {
        var run := KeepRunning();
        if !run {
          StoredStop(seen, frames);
          return;
        }
        var go;
        go, status, seen, frames, lost := StoreOne(raw, payload, c, seen, frames);
        if !go {
          return;
        }
        lost, status := false, 0;
      }
    }
  }
}
