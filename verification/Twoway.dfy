/**
  twoway_transport.c's receive side: a bounded buffer that is appended to packet
  by packet, parsed and shifted in place, with downlink ACKs cut out of the
  packets on the way in.
*/
module Twoway {
  import opened Wire
  import opened Transport
  import opened TwowaySpec

  const STREAM_BUFFER_SIZE: nat := 8192
  const USB_PACKET_SIZE: nat := 64
  const ACK_SIZE: nat := 4
  /** The longest buffer the parser can be waiting on. */
  const WAITING_MAX: nat := META + MAX_MESSAGE_SIZE - 1

  /** One transfer of rx_thread_main: it succeeds, times out or fails.  Each way the
      device may have sent some bytes. */
  datatype RxEvent = Packet(data: seq<byte>) | TimedOut(data: seq<byte>) | Broken(data: seq<byte>)

  predicate AckAt(ack: seq<byte>, data: seq<byte>, i: nat) {
    |ack| == ACK_SIZE && i + ACK_SIZE <= |data| && data[i..i + ACK_SIZE] == ack
  }

  /** The first ACK at or after `from`, or -1. */
  function SeekAck(ack: seq<byte>, data: seq<byte>, from: nat): (k: int)
    ensures k == -1 || (from <= k && AckAt(ack, data, k))
    ensures forall i: nat :: from <= i && AckAt(ack, data, i) ==> k != -1 && k <= i
    decreases |data| - from
  {
    if |data| < from + ACK_SIZE then -1
    else if AckAt(ack, data, from) then from
    else SeekAck(ack, data, from + 1)
  }

  /** The packet without its ACKs, as dispatch_usb_in_packet passes it on. */
  function Strip(ack: seq<byte>, data: seq<byte>): (s: seq<byte>)
    ensures |s| <= |data|
    decreases |data|
  {
    var k := SeekAck(ack, data, 0);
    if k == -1 then data else data[..k] + Strip(ack, data[k + ACK_SIZE..])
  }

  /** These pieces with an ACK between each and the next. */
  function Between(ack: seq<byte>, pieces: seq<seq<byte>>): seq<byte> {
    if pieces == [] then []
    else if |pieces| == 1 then pieces[0]
    else pieces[0] + ack + Between(ack, pieces[1..])
  }

  lemma SeeksEnd(ack: seq<byte>, piece: seq<byte>, rest: seq<byte>)
    requires |ack| == ACK_SIZE && SeekAck(ack, piece + ack, 0) == |piece|
    ensures SeekAck(ack, piece + ack + rest, 0) == |piece|
  {
    var (a, b) := (piece + ack, piece + ack + rest);
    assert b[|piece|..|piece| + ACK_SIZE] == ack;
    assert AckAt(ack, b, |piece|);
    var k := SeekAck(ack, b, 0);
    assert a[k..k + ACK_SIZE] == b[k..k + ACK_SIZE];
    assert AckAt(ack, a, k);
  }

  /** What is passed on of a packet is what stands between its ACKs, all of it. */
  lemma {:induction false} StripJoins(ack: seq<byte>, pieces: seq<seq<byte>>)
    requires |ack| == ACK_SIZE && pieces != [] && SeekAck(ack, pieces[|pieces| - 1], 0) == -1
    requires forall i :: 0 <= i < |pieces| - 1 ==> SeekAck(ack, pieces[i] + ack, 0) == |pieces[i]|
    ensures Strip(ack, Between(ack, pieces)) == Concat(pieces)
  {
    hide SeekAck;
    if |pieces| > 1 {
      var rest := Between(ack, pieces[1..]);
      StripJoins(ack, pieces[1..]);
      SeeksEnd(ack, pieces[0], rest);
      var all := pieces[0] + ack + rest;
      assert all[..|pieces[0]|] == pieces[0] && all[|pieces[0]| + ACK_SIZE..] == rest;
    } else {
      assert Concat(pieces) == pieces[0] + Concat([]);
    }
  }

  function StripAll(ack: seq<byte>, packets: seq<seq<byte>>): seq<byte> {
    if packets == [] then [] else Strip(ack, packets[0]) + StripAll(ack, packets[1..])
  }

  lemma {:induction false} StripAllAppend(ack: seq<byte>, packets: seq<seq<byte>>, p: seq<byte>)
    ensures StripAll(ack, packets + [p]) == StripAll(ack, packets) + Strip(ack, p)
  {
    if packets == [] {
      assert packets + [p] == [p];
    } else {
      assert (packets + [p])[1..] == packets[1..] + [p];
      StripAllAppend(ack, packets[1..], p);
    }
  }

  /** Packets in which no ACK occurs are passed on as they are. */
  lemma {:induction false} NoAckNoStrip(ack: seq<byte>, packets: seq<seq<byte>>)
    requires forall p, i: nat :: p in packets ==> !AckAt(ack, p, i)
    ensures StripAll(ack, packets) == Concat(packets)
  {
    if packets != [] {
      assert Strip(ack, packets[0]) == packets[0];
      NoAckNoStrip(ack, packets[1..]);
    }
  }

  /** keep_running: never cleared from outside, or found set this many more times. */
  datatype Running = Always | Until(checks: nat)

  class RxContext {
    const ack: seq<byte>
    const logFile: OutputFile
    const stream: array<byte>
    var streamLen: nat
    var packetCount: nat
    var keepRunning: Running
    var ackReceived: bool
    /** All bytes appended so far, and what the file held at the start. */
    ghost var fed: seq<byte>
    ghost const base: seq<byte>
    ghost var frames: seq<seq<byte>>
    /** Bytes thrown away by the overflow and oversize branches. */
    ghost var dropped: nat
    /** A write has failed. */
    ghost var failed: bool
    ghost const baseFaults: nat

    ghost predicate Shape()
      reads `streamLen
    {
      stream.Length == STREAM_BUFFER_SIZE && streamLen <= STREAM_BUFFER_SIZE && |ack| == ACK_SIZE
    }

    ghost function Buffer(): seq<byte>
      requires Shape()
      reads `streamLen, stream
    {
      stream[..streamLen]
    }

    /** What has been written, and flushed frame by frame, and what is buffered
        together stand for all that was fed, so long as no write failed and nothing
        was dropped. */
    ghost predicate Valid()
      reads `streamLen, `packetCount, `fed, `frames, `dropped, `failed, stream, logFile
    {
      && Shape()
      && (failed <==> logFile.faults > baseFaults)
      && if failed then
           dropped == 0 ==> base <= logFile.contents < base + Concat(Drain(fed).frames)
         else
           && packetCount == |frames|
           && logFile.contents == base + Concat(frames)
           && (frames != [] ==> logFile.tried == |logFile.contents|)
           && logFile.faults == baseFaults
           && (dropped == 0 ==> Drain(fed) == Drained(frames + Drain(Buffer()).frames, Drain(Buffer()).rest))
    }

    ghost predicate Halted()
      reads `keepRunning
    {
      keepRunning == Until(0)
    }

    constructor (ack: seq<byte>, logFile: OutputFile, keepRunning: Running)
      requires |ack| == ACK_SIZE
      ensures Valid() && fresh(stream) && this.ack == ack && this.logFile == logFile && this.keepRunning == keepRunning
      ensures fed == [] && frames == [] && streamLen == 0 && dropped == 0 && base == logFile.contents && !failed
    {
      this.ack, this.logFile, this.keepRunning := ack, logFile, keepRunning;
      stream := new byte[STREAM_BUFFER_SIZE];
      streamLen, packetCount, ackReceived, fed, frames, dropped, failed := 0, 0, false, [], [], 0, false;
      base, baseFaults := logFile.contents, logFile.faults;
      new;
      assert Buffer() == [];
    }

    method IsRunning() returns (set_: bool)
      modifies this`keepRunning
      ensures !set_ <==> old(Halted())
      ensures !set_ ==> Halted()
      ensures old(keepRunning) == Always ==> keepRunning == Always
    {
      match keepRunning {
        case Always => set_ := true;
        case Until(n) =>
          set_ := n > 0;
          keepRunning := Until(if n > 0 then n - 1 else 0);
      }
    }

    /** consume_stream (lines 251-259). */
    method ConsumeStream(count: nat)
      requires Shape()
      modifies this`streamLen, stream
      ensures Shape()
      ensures Buffer() == if count >= old(streamLen) then [] else old(Buffer())[count..]
    {
      if count >= streamLen {
        streamLen := 0;
        return;
      }
      forall i | 0 <= i < streamLen - count {
        stream[i] := stream[i + count];
      }
      streamLen := streamLen - count;
    }

    /** parse_sniffer_stream (lines 261-305).  It stops only where it has to wait
        for more bytes, or when the flag is clear: also because a write failed. */
    method ParseSnifferStream()
      requires Valid() && (failed ==> Halted())
      modifies this`streamLen, this`packetCount, this`keepRunning, this`frames, this`failed, stream, logFile
      ensures Valid() && (failed ==> Halted()) && streamLen <= old(streamLen)
      ensures Halted() || Waits(Buffer())
      ensures old(failed) ==> failed
      ensures !failed && old(keepRunning) == Always ==> keepRunning == Always
    {
      while true
        invariant Valid() && (failed ==> Halted()) && streamLen <= old(streamLen) && (old(failed) ==> failed)
        invariant !failed && old(keepRunning) == Always ==> keepRunning == Always
        decreases streamLen
      {
        var run := IsRunning();
        if !run || streamLen < 4 {
          return;
        }
        ghost var b := Buffer();
        if !MagicAt(stream[..streamLen], 0) {
          ConsumeStream(1);
          assert Buffer() == b[1..];
          continue;
        }
        if streamLen < META {
          return;
        }
        var length := LengthAt(stream[..streamLen], 0);
        if length > MAX_MESSAGE_SIZE {
          ConsumeStream(1);
          assert Buffer() == b[1..];
          continue;
        }
        var frameLength := META + length;
        if streamLen < frameLength {
          return;
        }
        var kept := WriteFrame(frameLength);
        if !kept {
          return;
        }
      }
    }

    /** Lines 289-303: one whole frame leaves the buffer for the file, or the write
        comes up short and everything stops. */
    method WriteFrame(frameLength: nat) returns (kept: bool)
      requires Valid() && !failed && META <= streamLen && MagicAt(Buffer(), 0)
      requires LengthAt(Buffer(), 0) <= MAX_MESSAGE_SIZE
      requires frameLength == META + LengthAt(Buffer(), 0) <= streamLen
      modifies this`streamLen, this`packetCount, this`keepRunning, this`frames, this`failed, stream, logFile
      ensures Valid() && kept == !failed
      ensures kept ==> streamLen == old(streamLen) - frameLength && keepRunning == old(keepRunning)
      ensures !kept ==> Halted() && streamLen == old(streamLen)
    {
      hide Drain, Concat, MagicAt, LengthAt;
      ghost var b := Buffer();
      ghost var f := b[..frameLength];
      packetCount := packetCount + 1;
      assert stream[..frameLength] == f;
      FileGrows(base, frames, f);
      if dropped == 0 {
        FrameTaken(fed, frames, b, frameLength);
        FileCut(base, frames, f, Drain(b[frameLength..]).frames);
      }
      var written := logFile.Fwrite(stream[..frameLength]);
      if written != frameLength {
        keepRunning, failed := Until(0), true;
        return false;
      }
      assert f[..frameLength] == f;
      var _ := logFile.Fflush();
      ConsumeStream(frameLength);
      assert Buffer() == b[frameLength..];
      frames := frames + [f];
      kept := true;
    }

    /** append_sniffer_bytes (lines 307-325).  Data that does not fit resets the
        buffer; data longer than the buffer keeps only its end. */
    method AppendSnifferBytes(data: seq<byte>)
      requires Valid() && (failed ==> Halted())
      modifies this`streamLen, this`packetCount, this`keepRunning, this`fed, this`frames, this`dropped, this`failed,
          stream, logFile
      ensures Shape() && Valid() && (failed ==> Halted()) && fed == old(fed) + data
      ensures old(streamLen) + |data| <= STREAM_BUFFER_SIZE ==>
        dropped == old(dropped) && streamLen <= old(streamLen) + |data|
      ensures data == [] || Halted() || Waits(Buffer())
      ensures data == [] ==> Buffer() == old(Buffer())
      ensures old(failed) ==> failed
      ensures !failed && old(keepRunning) == Always ==> keepRunning == Always
    {
      hide Drain, Waits;
      ghost var b := Buffer();
      if |data| <= 0 {
        assert fed + data == fed;
        return;
      }
      if failed && dropped == 0 {
        FailedGrows(base, logFile.contents, fed, data);
      }
      fed := fed + data;
      var bytes := data;
      if streamLen + |bytes| > STREAM_BUFFER_SIZE {
        dropped := dropped + streamLen + (if |bytes| > STREAM_BUFFER_SIZE then |bytes| - STREAM_BUFFER_SIZE else 0);
        streamLen := 0;
      }
      if |bytes| > STREAM_BUFFER_SIZE {
        bytes := bytes[|bytes| - STREAM_BUFFER_SIZE..];
      }
      forall i | 0 <= i < |bytes| {
        stream[streamLen + i] := bytes[i];
      }
      streamLen := streamLen + |bytes|;
      if !failed && dropped == 0 {
        assert Buffer() == b + data;
        Appended(old(fed), data, b, frames);
      }
      ParseSnifferStream();
    }

    /** find_downlink_ack (lines 102-113). */
    method FindDownlinkAck(data: seq<byte>) returns (k: int)
      requires |ack| == ACK_SIZE
      ensures k == SeekAck(ack, data, 0)
    {
      var i := 0;
      while i + ACK_SIZE <= |data|
        invariant SeekAck(ack, data, 0) == SeekAck(ack, data, i)
        decreases |data| - i
      {
        if data[i..i + ACK_SIZE] == ack {
          return i;
        }
        i := i + 1;
      }
      return -1;
    }

    /** dispatch_usb_in_packet (lines 327-344). */
    method DispatchUsbInPacket(data: seq<byte>)
      requires Shape() && Valid() && (failed ==> Halted()) && streamLen + |data| <= STREAM_BUFFER_SIZE
      requires Halted() || Waits(Buffer())
      modifies this, stream, logFile
      ensures Shape() && Valid() && (failed ==> Halted()) && fed == old(fed) + Strip(ack, data)
      ensures streamLen <= old(streamLen) + |data| && dropped == old(dropped)
      ensures ackReceived == (old(ackReceived) || SeekAck(ack, data, 0) != -1)
      ensures Halted() || Waits(Buffer())
      ensures old(failed) ==> failed
      ensures !failed && old(keepRunning) == Always ==> keepRunning == Always
    {
      hide Drain, Waits, RxContext.Valid, Strip, SeekAck;
      var offset := 0;
      assert data[0..] == data;
      while offset < |data|
        invariant offset <= |data| && Shape() && Valid() && (failed ==> Halted()) && dropped == old(dropped)
        invariant (old(failed) ==> failed)
        invariant streamLen + (|data| - offset) <= old(streamLen) + |data|
        invariant fed + Strip(ack, data[offset..]) == old(fed) + Strip(ack, data)
        invariant if offset == 0 then ackReceived == old(ackReceived) else ackReceived && SeekAck(ack, data, 0) != -1
        invariant Halted() || Waits(Buffer())
        invariant !failed && old(keepRunning) == Always ==> keepRunning == Always
        decreases |data| - offset
      {
        ghost var before := fed;
        var k := FindDownlinkAck(data[offset..]);
        StripStep(ack, data, offset);
        if k < 0 {
          AppendSnifferBytes(data[offset..]);
          return;
        }
        if k > 0 {
          AppendSnifferBytes(data[offset..offset + k]);
        }
        assert fed == before + data[offset..offset + k];
        ackReceived := true;
        offset := offset + k + ACK_SIZE;
        assert fed + Strip(ack, data[offset..]) ==
          before + (data[offset - ACK_SIZE - k..offset - ACK_SIZE] + Strip(ack, data[offset..]));
      }
      StripNothing(ack, data[offset..]);
    }

    /** rx_thread_main (lines 346-379) on a script of transfers, each at most one
        USB packet.  `taken` transfers are made, all of them if the flag is still set
        at the end, and `received` are their packets.  The file is exactly the frames in them, ACKs
        removed, but for what a stop left unparsed or a failed write cut off; the
        buffer never outgrows 4113 bytes while running, 4177 ever. */
    method RxThreadMain(script: seq<RxEvent>) returns (ghost received: seq<seq<byte>>, ghost taken: nat)
      requires Shape() && Valid() && fed == [] && frames == [] && streamLen == 0 && dropped == 0 && !failed
      requires forall e :: e in script && e.Packet? ==> |e.data| <= USB_PACKET_SIZE
      modifies this, stream, logFile
      ensures Shape() && streamLen <= WAITING_MAX + USB_PACKET_SIZE && dropped == 0
      ensures !Halted() ==> streamLen <= WAITING_MAX && Waits(Buffer()) && !failed
      ensures taken <= |script| && received == PacketsOf(script[..taken]) && (!Halted() ==> taken == |script|)
      ensures Valid() && fed == StripAll(ack, received)
      ensures fed == StripAll(ack, ChunksOf(script[..taken])) <==> NothingLost(ack, script[..taken])
      ensures !failed && Waits(Buffer()) ==>
        logFile.contents == base + Concat(Drain(fed).frames) && Buffer() == Drain(fed).rest
      ensures failed ==> base <= logFile.contents < base + Concat(Drain(fed).frames)
      ensures failed <==> logFile.faults > baseFaults
      ensures !failed && logFile.contents != base ==> logFile.tried == |logFile.contents|
      ensures ackReceived == (old(ackReceived) || AnyAck(ack, received))
      ensures !failed && old(keepRunning) == Always && (forall e :: e in script ==> !e.Broken?) ==>
        keepRunning == Always
    {
      hide Drain, Waits, RxContext.Valid, PacketsOf, AnyAck, SeekAck, NothingLost, StripAll, ChunksOf;
      NoAck(ack);
      NothingStripped(ack);
      received, taken := [], 0;
      var at := 0;
      NoPackets(script);
      EmptyWaits(Buffer());
      while at < |script|
        invariant taken == at <= |script| && Shape() && Valid() && (failed ==> Halted()) && dropped == 0
        invariant fed == StripAll(ack, received) && received == PacketsOf(script[..at])
        invariant ackReceived == (old(ackReceived) || AnyAck(ack, received))
        invariant Halted() || Waits(Buffer())
        invariant streamLen <= WAITING_MAX + USB_PACKET_SIZE
        invariant !failed && old(keepRunning) == Always && (forall e :: e in script ==> !e.Broken?) ==>
          keepRunning == Always
        decreases |script| - at
      {
        PacketsStep(script, at);
        var run := IsRunning();
        if !run {
          break;
        }
        WaitingIsShort(Buffer());
        match script[at] {
        case TimedOut(_) =>
        case Broken(_) =>
          assert script[at] in script;
          keepRunning := Until(0);
          taken := at + 1;
          break;
        case Packet(data) =>
          if |data| > 0 {
            assert script[at] in script;
            StripAllAppend(ack, received, data);
            AnyAckAppend(ack, received, data);
            DispatchUsbInPacket(data);
            received := received + [data];
          }
        }
        at := at + 1;
        taken := at;
      }
      assert taken == |script| ==> script[..taken] == script;
      LostExactly(ack, script[..taken]);
      WaitingIsShort(Buffer());
      Settled();
    }

    lemma Settled()
      requires Shape() && Valid() && dropped == 0
      ensures failed <==> logFile.faults > baseFaults
      ensures !failed && logFile.contents != base ==> logFile.tried == |logFile.contents|
      ensures failed ==> base <= logFile.contents < base + Concat(Drain(fed).frames)
      ensures !failed && Waits(Buffer()) ==>
        logFile.contents == base + Concat(Drain(fed).frames) && Buffer() == Drain(fed).rest
    {
      DrainWaits(Buffer());
      assert frames + [] == frames;
    }
  }

  /** The packets with data in a script. */
  function PacketsOf(script: seq<RxEvent>): seq<seq<byte>> {
    if script == [] then []
    else
      var e := script[|script| - 1];
      PacketsOf(script[..|script| - 1]) + if e.Packet? && e.data != [] then [e.data] else []
  }

  /** One of the packets has an ACK in it. */
  ghost predicate AnyAck(ack: seq<byte>, packets: seq<seq<byte>>) {
    exists p :: p in packets && SeekAck(ack, p, 0) != -1
  }

  lemma NoAck(ack: seq<byte>)
    ensures !AnyAck(ack, [])
  {
  }

  lemma AnyAckAppend(ack: seq<byte>, packets: seq<seq<byte>>, p: seq<byte>)
    ensures AnyAck(ack, packets + [p]) <==> AnyAck(ack, packets) || SeekAck(ack, p, 0) != -1
  {
    assert p in packets + [p];
    if q :| q in packets && SeekAck(ack, q, 0) != -1 {
      assert q in packets + [p];
    }
  }

  lemma NothingStripped(ack: seq<byte>)
    ensures StripAll(ack, []) == []
  {
  }

  /** All data the device sent, whatever became of the transfer. */
  function ChunksOf(script: seq<RxEvent>): seq<seq<byte>> {
    if script == [] then []
    else ChunksOf(script[..|script| - 1]) + [script[|script| - 1].data]
  }

  /** Transfers that time out or fail bring nothing but ACKs. */
  ghost predicate NothingLost(ack: seq<byte>, script: seq<RxEvent>) {
    forall e :: e in script ==> e.Packet? || Strip(ack, e.data) == []
  }

  /** What is passed on is what the device sent, ACKs removed, if and only if no
      transfer that timed out or failed brought any of it. */
  lemma LostExactly(ack: seq<byte>, script: seq<RxEvent>)
    ensures StripAll(ack, PacketsOf(script)) == StripAll(ack, ChunksOf(script)) <==> NothingLost(ack, script)
  {
    LostBytes(ack, script);
  }

  lemma {:induction false} LostBytes(ack: seq<byte>, script: seq<RxEvent>)
    ensures |StripAll(ack, PacketsOf(script))| <= |StripAll(ack, ChunksOf(script))|
    ensures NothingLost(ack, script) ==> StripAll(ack, PacketsOf(script)) == StripAll(ack, ChunksOf(script))
    ensures !NothingLost(ack, script) ==> |StripAll(ack, PacketsOf(script))| < |StripAll(ack, ChunksOf(script))|
  {
    hide Strip, StripAll;
    if script != [] {
      var before, e := script[..|script| - 1], script[|script| - 1];
      LostBytes(ack, before);
      assert script == before + [e];
      StripAllAppend(ack, ChunksOf(before), e.data);
      StripAllAppend(ack, PacketsOf(before), e.data);
      StripNothing(ack, []);
      assert PacketsOf(before) + [] == PacketsOf(before);
    }
  }

  lemma NoPackets(script: seq<RxEvent>)
    ensures PacketsOf(script[..0]) == []
  {
  }

  lemma PacketsStep(script: seq<RxEvent>, at: nat)
    requires at < |script|
    ensures PacketsOf(script[..at + 1]) ==
      PacketsOf(script[..at]) + if script[at].Packet? && script[at].data != [] then [script[at].data] else []
  {
    assert script[..at + 1][..at] == script[..at];
  }

  lemma FileGrows(base: seq<byte>, frames: seq<seq<byte>>, f: seq<byte>)
    ensures base + Concat(frames) + f == base + Concat(frames + [f])
  {
    ConcatOne(frames, f);
  }

  /** A file that ends inside a frame. */
  lemma FileCut(base: seq<byte>, frames: seq<seq<byte>>, f: seq<byte>, more: seq<seq<byte>>)
    ensures forall n: nat :: n < |f| ==> base <= base + Concat(frames) + f[..n] < base + Concat(frames + [f] + more)
  {
    hide Concat;
    ConcatOne(frames, f);
    ConcatAppend(frames + [f], more);
    forall n: nat | n < |f| ensures base <= base + Concat(frames) + f[..n] < base + Concat(frames + [f] + more) {
      assert base + (Concat(frames) + f + Concat(more)) == base + Concat(frames) + f[..n] + (f[n..] + Concat(more));
    }
  }

  /** More bytes can only add frames. */
  lemma FailedGrows(base: seq<byte>, file: seq<byte>, fed: seq<byte>, data: seq<byte>)
    requires base <= file < base + Concat(Drain(fed).frames)
    ensures base <= file < base + Concat(Drain(fed + data).frames)
  {
    hide Drain, Concat;
    DrainAppend(fed, data);
    var more := Drain(Drain(fed).rest + data).frames;
    ConcatAppend(Drain(fed).frames, more);
    assert base + (Concat(Drain(fed).frames) + Concat(more)) == base + Concat(Drain(fed).frames) + Concat(more);
  }

  lemma StripStep(ack: seq<byte>, data: seq<byte>, offset: nat)
    requires offset <= |data|
    ensures var (tail, k) := (data[offset..], SeekAck(ack, data[offset..], 0));
            if k == -1 then
              Strip(ack, tail) == tail
            else
              offset + k + ACK_SIZE <= |data|
              && Strip(ack, tail) == data[offset..offset + k] + Strip(ack, data[offset + k + ACK_SIZE..])
  {
    var (tail, k) := (data[offset..], SeekAck(ack, data[offset..], 0));
    if k != -1 {
      assert tail[k + ACK_SIZE..] == data[offset + k + ACK_SIZE..] && tail[..k] == data[offset..offset + k];
    }
  }

  lemma StripNothing(ack: seq<byte>, data: seq<byte>)
    requires data == []
    ensures Strip(ack, data) == []
  {
  }

  lemma FrameTaken(fed: seq<byte>, frames: seq<seq<byte>>, b: seq<byte>, n: nat)
    requires Drain(fed) == Drained(frames + Drain(b).frames, Drain(b).rest)
    requires META <= |b| && MagicAt(b, 0) && LengthAt(b, 0) <= MAX_MESSAGE_SIZE && n == META + LengthAt(b, 0) <= |b|
    ensures Drain(fed) == Drained(frames + [b[..n]] + Drain(b[n..]).frames, Drain(b[n..]).rest)
  {
    assert frames + ([b[..n]] + Drain(b[n..]).frames) == frames + [b[..n]] + Drain(b[n..]).frames;
  }

  lemma EmptyWaits(b: seq<byte>)
    requires b == []
    ensures Waits(b)
  {
  }

  lemma WaitingIsShort(b: seq<byte>)
    ensures Waits(b) ==> |b| <= WAITING_MAX
  {
  }

  lemma Appended(fed: seq<byte>, data: seq<byte>, b: seq<byte>, frames: seq<seq<byte>>)
    requires Drain(fed) == Drained(frames + Drain(b).frames, Drain(b).rest)
    ensures Drain(fed + data) == Drained(frames + Drain(b + data).frames, Drain(b + data).rest)
  {
    hide Drain;
    DrainAppend(fed, data);
    DrainAppend(b, data);
    var e := Drain(Drain(b).rest + data);
    assert frames + Drain(b).frames + e.frames == frames + (Drain(b).frames + e.frames);
  }
}
