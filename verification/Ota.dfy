/**
  The senders in their own form: ground_ota.c, which fills one message buffer and
  broadcasts it over USB, and the packet builder of ota_flasher.c.
*/
module Ota {
  import opened Common
  import opened Wire
  import opened OtaSpec
  import C = Crc32
  import L = OtaLaws

  function Fault(ok: bool): nat { if ok then 0 else 1 }

  /** What of `plan` went out before a failure: its first transfers, the last of
      them perhaps only in part. */
  ghost predicate Interrupted(log: seq<seq<byte>>, plan: seq<seq<byte>>) {
    && |log| <= |plan|
    && (forall i :: 0 <= i < |log| - 1 ==> log[i] == plan[i])
    && (log != [] ==> log[|log| - 1] <= plan[|log| - 1])
  }

  /** From `before` to `after` the link carried out `plan`, or was interrupted in it. */
  ghost predicate Went(before: seq<seq<byte>>, after: seq<seq<byte>>, plan: seq<seq<byte>>, ok: bool) {
    if ok then after == before + plan else before <= after && Interrupted(after[|before|..], plan)
  }

  /** The bulk OUT endpoint: each transfer moves all of its bytes, or, when the
      script says so, fails after some of them. */
  datatype LinkEvent = Moves | Fails(moved: nat)

  class Link {
    var script: seq<LinkEvent>
    var acks: seq<bool>
    /** Every transfer begun so far, with the bytes that went through. */
    ghost var log: seq<seq<byte>>
    /** How many transfers have failed and acknowledgements been missed. */
    ghost var faults: nat
    /** How many acknowledgements have been waited for. */
    ghost var awaited: nat

    constructor (script: seq<LinkEvent>, acks: seq<bool>)
      ensures log == [] && faults == 0 && awaited == 0
    {
      this.script, this.acks, log, faults, awaited := script, acks, [], 0, 0;
    }

    /** bulkWriteExact (ground_ota.c:827-850). */
    method BulkWriteExact(data: seq<byte>) returns (ok: bool)
      modifies this`script, this`log, this`faults
      ensures Went(old(log), log, [data], ok) && faults == old(faults) + Fault(ok)
    {
      var e := if script == [] then Fails(0) else script[0];
      script := if script == [] then [] else script[1..];
      ok := e.Moves?;
      ghost var k := if ok || e.moved > |data| then |data| else e.moved;
      log := log + [data[..k]];
      assert data[..|data|] == data;
      faults := faults + Fault(ok);
    }

    /** waitForLocalTxAck, reduced to its answer. */
    method WaitForLocalTxAck() returns (ok: bool)
      modifies this`acks, this`faults, this`awaited
      ensures faults == old(faults) + Fault(ok) && awaited == old(awaited) + 1
    {
      ok := acks != [] && acks[0];
      faults, awaited := faults + Fault(ok), awaited + 1;
      acks := if acks == [] then [] else acks[1..];
    }
  }

  datatype Options = Options(imageType: byte, dryRun: bool, waitForLocalAck: bool)

  datatype Image = Image(data: seq<byte>, size: nat, crc32: nat)

  /** An image that was read whole, with its size and CRC. */
  ghost predicate Loaded(image: Image) {
    1 <= |image.data| <= IMAGE_MAX && image.size == |image.data| && image.crc32 == CrcOf(image.data)
  }

  /** readImage (ground_ota.c:573-638) of a file of which `readable` bytes can be read. */
  method ReadImage(contents: seq<byte>, readable: nat) returns (image: Option<Image>)
    ensures image.Some? <==> 1 <= |contents| <= IMAGE_MAX && |contents| <= readable
    ensures image.Some? ==> Loaded(image.value) && image.value.data == contents
  {
    if |contents| <= 0 {
      return None;
    }
    if |contents| > IMAGE_MAX {
      return None;
    }
    var bytesRead := if readable < |contents| then readable else |contents|;
    if bytesRead != |contents| {
      return None;
    }
    var crc := C.Crc32IsoHdlc(AsBv8(contents));
    image := Some(Image(contents, |contents|, crc as nat));
  }

  // ------------------------------------------------- writing into the buffer

  method PutU16Le(destination: array<byte>, at: nat, value: nat)
    requires at + 2 <= destination.Length
    modifies destination
    ensures destination[..] == old(destination[..at]) + Put16(value) + old(destination[at + 2..])
  {
    destination[at] := value % 256;
    destination[at + 1] := value / 256 % 256;
  }

  method PutU32Le(destination: array<byte>, at: nat, value: nat)
    requires at + 4 <= destination.Length
    modifies destination
    ensures destination[..] == old(destination[..at]) + Put32(value) + old(destination[at + 4..])
  {
    destination[at] := value % 256;
    destination[at + 1] := value / 256 % 256;
    destination[at + 2] := value / 65536 % 256;
    destination[at + 3] := value / 16777216 % 256;
  }

  /** serializeOtaMessage (lines 426-443): what was in the buffer before does not
      matter, and what lies behind the message stays. */
  method SerializeOtaMessage(output: array<byte>, command: byte, imageType: byte, chunkIndex: nat,
          body: seq<byte>) returns (length: nat)
    requires output.Length == MESSAGE_MAX && |body| <= DATA_MAX
    modifies output
    ensures length == HEADER_SIZE + |body|
    ensures output[..] == Serialize(command, imageType, chunkIndex, body) + old(output[..])[length..]
  {
    hide Put16;
    ghost var before := output[..];
    FillHeader(output, command, imageType, |body|, chunkIndex);
    ghost var header := output[..HEADER_SIZE];
    assert output[HEADER_SIZE..] == before[HEADER_SIZE..];
    forall i | 0 <= i < |body| {
      output[HEADER_SIZE + i] := body[i];
    }
    length := HEADER_SIZE + |body|;
    assert output[..HEADER_SIZE] == header && output[HEADER_SIZE..length] == body
      && output[length..] == before[length..];
  }

  method FillHeader(output: array<byte>, command: byte, imageType: byte, payloadLength: nat, chunkIndex: nat)
    requires output.Length == MESSAGE_MAX
    modifies output
    ensures output[..HEADER_SIZE] == [command, imageType] + Put16(payloadLength) + Put16(chunkIndex)
    ensures output[HEADER_SIZE..] == old(output[HEADER_SIZE..])
  {
    hide Put16;
    output[0] := command;
    output[1] := imageType;
    PutU16Le(output, 2, payloadLength);
    PutU16Le(output, 4, chunkIndex);
  }

  method BuildStartMessage(output: array<byte>, imageType: byte, imageSize: nat, imageCrc32: nat) returns (length: nat)
    requires output.Length == MESSAGE_MAX
    modifies output
    ensures length <= MESSAGE_MAX
    ensures output[..length] == Serialize(START, imageType, 0, Put32(imageSize) + Put32(imageCrc32))
  {
    var body := new byte[8];
    PutU32Le(body, 0, imageSize);
    PutU32Le(body, 4, imageCrc32);
    assert body[..] == Put32(imageSize) + Put32(imageCrc32);
    length := SerializeOtaMessage(output, START, imageType, 0, body[..]);
  }

  method BuildDataMessage(output: array<byte>, imageType: byte, chunkIndex: nat, data: seq<byte>) returns (length: nat)
    requires output.Length == MESSAGE_MAX && |data| <= DATA_MAX
    modifies output
    ensures length <= MESSAGE_MAX && output[..length] == Serialize(DATA, imageType, chunkIndex, data)
  {
    length := SerializeOtaMessage(output, DATA, imageType, chunkIndex, data);
  }

  method BuildEndMessage(output: array<byte>, imageType: byte) returns (length: nat)
    requires output.Length == MESSAGE_MAX
    modifies output
    ensures length <= MESSAGE_MAX && output[..length] == Serialize(END, imageType, 0, [])
  {
    length := SerializeOtaMessage(output, END, imageType, 0, []);
  }

  // ------------------------------------------------------------ the broadcast

  lemma InterruptedEarlier(t: seq<seq<byte>>, a: seq<seq<byte>>, b: seq<seq<byte>>)
    requires Interrupted(t, a)
    ensures Interrupted(t, a + b)
  {
  }

  lemma InterruptedLater(a: seq<seq<byte>>, t: seq<seq<byte>>, b: seq<seq<byte>>)
    requires Interrupted(t, b)
    ensures Interrupted(a + t, a + b)
  {
    var (s, p) := (a + t, a + b);
    forall i | 0 <= i < |s| - 1 ensures s[i] == p[i] {
      if i >= |a| { assert t[i - |a|] == b[i - |a|]; }
    }
  }

  lemma WentThen(before: seq<seq<byte>>, mid: seq<seq<byte>>, after: seq<seq<byte>>, a: seq<seq<byte>>,
          b: seq<seq<byte>>, ok: bool)
    requires Went(before, mid, a, true) && Went(mid, after, b, ok)
    ensures Went(before, after, a + b, ok)
  {
    if ok {
      assert before + a + b == before + (a + b);
    } else {
      InterruptedLater(a, after[|mid|..], b);
      assert after[|before|..] == a + after[|mid|..];
    }
  }

  lemma WentShort(before: seq<seq<byte>>, after: seq<seq<byte>>, a: seq<seq<byte>>, b: seq<seq<byte>>)
    requires Went(before, after, a, false)
    ensures Went(before, after, a + b, false)
  {
    InterruptedEarlier(after[|before|..], a, b);
  }

  /** The transfers of packets; none in a dry run. */
  function Plan(o: Options, packets: seq<Packet>): seq<seq<byte>> {
    if o.dryRun then [] else AllTransfers(packets)
  }

  lemma {:induction false} PlanAppend(o: Options, a: seq<Packet>, b: seq<Packet>)
    ensures Plan(o, a + b) == Plan(o, a) + Plan(o, b)
  {
    hide Transfers;
    if b == [] {
      assert a + b == a;
    } else {
      var c := b[..|b| - 1];
      assert (a + b)[..|a + b| - 1] == a + c;
      PlanAppend(o, a, c);
    }
  }

  /** The metadata holds 16 bits of the number. */
  lemma NumberWraps(o: Options, n: nat, message: seq<byte>)
    ensures Plan(o, [Packet(n % 65536, message)]) == Plan(o, [Packet(n, message)])
  {
    SameLowBytes(n / 65536, n % 65536);
    hide Put16, Put32;
    PlanOne(o, Packet(n, message));
    PlanOne(o, Packet(n % 65536, message));
  }

  /** How many acknowledgements n packets are to be waited for. */
  function Awaited(o: Options, n: nat): nat {
    if o.waitForLocalAck && !o.dryRun then n else 0
  }

  class Broadcaster {
    const handle: Link
    const options: Options

    constructor (handle: Link, options: Options)
      ensures this.handle == handle && this.options == options
    {
      this.handle, this.options := handle, options;
    }

    /** writePayloadPackets (lines 852-871). */
    method WritePayloadPackets(payload: seq<byte>) returns (ok: bool)
      modifies handle`script, handle`log, handle`faults
      ensures Went(old(handle.log), handle.log, Fragments(payload), ok)
      ensures handle.faults == old(handle.faults) + Fault(ok)
    {
      hide Fragments;
      var offset := 0;
      ghost var sent := [];
      FragmentsOfNothing();
      assert payload[0..] == payload && [] + Fragments(payload) == Fragments(payload);
      while offset < |payload|
        invariant offset <= |payload|
        invariant Fragments(payload) == sent + Fragments(payload[offset..])
        invariant handle.log == old(handle.log) + sent && handle.faults == old(handle.faults)
      {
        var remaining := |payload| - offset;
        var packetLength := if remaining > USB_PACKET then USB_PACKET else remaining;
        var piece := payload[offset..offset + packetLength];
        ghost var before := handle.log;
        FirstFragment(payload[offset..], packetLength);
        assert payload[offset..][..packetLength] == piece
          && payload[offset..][packetLength..] == payload[offset + packetLength..];
        ok := handle.BulkWriteExact(piece);
        if !ok {
          WentThen(old(handle.log), before, handle.log, sent, [piece], false);
          WentShort(old(handle.log), handle.log, sent + [piece], Fragments(payload[offset + packetLength..]));
          assert sent + [piece] + Fragments(payload[offset + packetLength..]) == Fragments(payload);
          return;
        }
        sent := sent + [piece];
        offset := offset + packetLength;
      }
      ok := true;
      assert payload[offset..] == [] && sent + [] == sent;
    }

    lemma FragmentsOfNothing()
      ensures Fragments([]) == []
    {
    }

    lemma FirstFragment(m: seq<byte>, n: nat)
      requires m != [] && n == (if |m| > USB_PACKET then USB_PACKET else |m|)
      ensures Fragments(m) == [m[..n]] + Fragments(m[n..])
    {
      assert |m| <= USB_PACKET ==> m[..n] == m;
    }

    /** Lines 935-941. */
    method FillMetadata(metadata: array<byte>, sequence: nat, length: nat)
      requires metadata.Length == 20
      modifies metadata
      ensures metadata[..] == Metadata(sequence, length)
    {
      hide Put16, Put32;
      PutU32Le(metadata, 0, 0xCCCD);
      PutU16Le(metadata, 4, 0xFFFF);
      PutU16Le(metadata, 6, sequence);
      assert metadata[..8] == Put32(0xCCCD) + Put16(0xFFFF) + Put16(sequence);
      PutU16Le(metadata, 8, length);
      assert metadata[..10] == Put32(0xCCCD) + Put16(0xFFFF) + Put16(sequence) + Put16(length);
      forall i | 10 <= i < 18 {
        metadata[i] := 0;
      }
      assert metadata[10..18] == [0, 0, 0, 0, 0, 0, 0, 0];
      ghost var (first, zeros) := (metadata[..10], metadata[10..18]);
      metadata[18] := 11;
      metadata[19] := 0;
      assert metadata[..10] == first && metadata[10..18] == zeros && metadata[18..] == [11, 0];
      assert metadata[..] == metadata[..10] + metadata[10..18] + metadata[18..];
    }

    /** sendOtaPayload (lines 921-965).  It can fail after the whole packet has gone
        out, when the relay does not acknowledge it. */
    method SendOtaPayload(sequence: nat, payload: seq<byte>) returns (ok: bool)
      modifies handle
      ensures |payload| > MESSAGE_MAX ==> !ok && handle.log == old(handle.log)
      ensures |payload| <= MESSAGE_MAX ==>
        Went(old(handle.log), handle.log, Plan(options, [Packet(sequence, payload)]), ok)
          && handle.faults == old(handle.faults) + Fault(ok)
      ensures ok ==> handle.awaited == old(handle.awaited) + Awaited(options, 1)
    {
      if |payload| > MESSAGE_MAX {
        return false;
      }
      hide Metadata, Fragments;
      ghost var p := Packet(sequence, payload);
      PlanOne(options, p);
      var metadata := new byte[20];
      FillMetadata(metadata, sequence, |payload|);
      if options.dryRun {
        WentNowhere(handle.log);
        return true;
      }
      ok := handle.BulkWriteExact(metadata[..]);
      ghost var mid := handle.log;
      if !ok {
        WentShort(old(handle.log), mid, [Metadata(sequence, |payload|)], Fragments(payload));
        return;
      }
      ok := WritePayloadPackets(payload);
      WentThen(old(handle.log), mid, handle.log, [Metadata(sequence, |payload|)], Fragments(payload), ok);
      if ok && options.waitForLocalAck {
        ok := handle.WaitForLocalTxAck();
        WentUnheard(old(handle.log), handle.log, Transfers(p));
      }
    }

    /** sendRepeated (lines 967-994).  The counter is a uint16 and may wrap, as the
        number in the metadata does; BroadcastNumbers in OtaLaws shows that in a
        broadcast it never comes to that. */
    method SendRepeated(sequence: nat, message: seq<byte>) returns (ok: bool, next: nat)
      requires sequence < 65536
      modifies handle
      ensures |message| > MESSAGE_MAX ==> !ok && next == sequence && handle.log == old(handle.log)
      ensures |message| <= MESSAGE_MAX ==>
        && Went(old(handle.log), handle.log, Plan(options, Repeated(sequence, REPEATS, message)), ok)
        && handle.faults == old(handle.faults) + Fault(ok)
      ensures ok ==> next == (sequence + REPEATS) % 65536
      ensures ok ==> handle.awaited == old(handle.awaited) + Awaited(options, REPEATS)
    {
      hide Plan, Went;
      ok, next := true, sequence;
      if |message| > MESSAGE_MAX {
        ok := SendOtaPayload(next, message);
        return;
      }
      WentNowhere(handle.log);
      PlanNothing(options);
      for repeat := 0 to REPEATS
        invariant ok && next == (sequence + repeat) % 65536
        invariant handle.faults == old(handle.faults)
        invariant handle.awaited == old(handle.awaited) + Awaited(options, repeat)
        invariant Went(old(handle.log), handle.log, Plan(options, Repeated(sequence, repeat, message)), true)
      {
        ghost var mid := handle.log;
        ghost var before, one := Repeated(sequence, repeat, message), [Packet(sequence + repeat, message)];
        NumberWraps(options, sequence + repeat, message);
        ok := SendOtaPayload(next, message);
        WentThen(old(handle.log), mid, handle.log, Plan(options, before), Plan(options, one), ok);
        PlanAppend(options, before, one);
        assert before + one == Repeated(sequence, repeat + 1, message);
        if !ok {
          ghost var rest := Repeated(sequence + repeat + 1, REPEATS - repeat - 1, message);
          WentShort(old(handle.log), handle.log, Plan(options, before + one), Plan(options, rest));
          PlanAppend(options, before + one, rest);
          assert before + one + rest == Repeated(sequence, REPEATS, message);
          return;
        }
        next := (next + 1) % 65536;
      }
    }

    /** Lines 1033-1046: one chunk, three times. */
    method SendChunk(message: array<byte>, image: Image, chunkIndex: nat, sequence: nat) returns (ok: bool, next: nat)
      requires Loaded(image) && message.Length == MESSAGE_MAX && chunkIndex < ChunkCount(image.size)
      requires sequence + REPEATS < 65536
      modifies handle, message
      ensures Went(old(handle.log), handle.log,
                   Plan(options, Repeated(sequence, REPEATS,
                     DataMessage(options.imageType, image.data, chunkIndex))), ok)
      ensures handle.faults == old(handle.faults) + Fault(ok)
      ensures ok ==> next == sequence + REPEATS && handle.awaited == old(handle.awaited) + Awaited(options, REPEATS)
    {
      hide Plan, Went, Serialize, CrcOf;
      ChunksFit(image.size);
      var offset := chunkIndex * DATA_MAX;
      var remaining := image.size - offset;
      var chunkLength := if remaining > DATA_MAX then DATA_MAX else remaining;
      assert image.data[offset..offset + chunkLength] == Chunk(image.data, chunkIndex);
      var length := BuildDataMessage(message, options.imageType, chunkIndex % 65536,
        image.data[offset..offset + chunkLength]);
      ok, next := SendRepeated(sequence, message[..length]);
    }

    /** The DATA loop of broadcastImage (lines 1032-1058). */
    method BroadcastData(message: array<byte>, image: Image, sequence: nat) returns (ok: bool, next: nat)
      requires Loaded(image) && message.Length == MESSAGE_MAX && sequence == 121
      modifies handle, message
      ensures Went(old(handle.log), handle.log,
        Plan(options, DataPackets(options.imageType, image.data, 121, ChunkCount(image.size))), ok)
      ensures handle.faults == old(handle.faults) + Fault(ok)
      ensures ok ==> next == 121 + REPEATS * ChunkCount(image.size)
      ensures ok ==> handle.awaited == old(handle.awaited) + Awaited(options, REPEATS * ChunkCount(image.size))
    {
      hide Plan, Went, DataMessage, CrcOf;
      ok, next := true, sequence;
      var totalChunks := (image.size + DATA_MAX - 1) / DATA_MAX;
      L.BroadcastNumbers(options.imageType, image.data);
      WentNowhere(handle.log);
      PlanNothing(options);
      for chunkIndex := 0 to totalChunks
        invariant ok && next == 121 + REPEATS * chunkIndex
        invariant handle.awaited == old(handle.awaited) + Awaited(options, REPEATS * chunkIndex)
        invariant handle.faults == old(handle.faults)
        invariant Went(old(handle.log), handle.log,
          Plan(options, DataPackets(options.imageType, image.data, 121, chunkIndex)), true)
      {
        ghost var mid := handle.log;
        ghost var before := DataPackets(options.imageType, image.data, 121, chunkIndex);
        ghost var three := Repeated(next, REPEATS, DataMessage(options.imageType, image.data, chunkIndex));
        ok, next := SendChunk(message, image, chunkIndex, next);
        WentThen(old(handle.log), mid, handle.log, Plan(options, before), Plan(options, three), ok);
        PlanAppend(options, before, three);
        if !ok {
          DataPrefix(options, image.data, 121, chunkIndex + 1, totalChunks);
          ghost var rest := DataRest(options, image.data, 121, chunkIndex + 1, totalChunks);
          WentShort(old(handle.log), handle.log, Plan(options, before + three), rest);
          return;
        }
      }
    }

    /** broadcastImage (lines 996-1077): the whole broadcast goes out, or a part of
        it that ends in a failed transfer or an unacknowledged packet. */
    method BroadcastImage(image: Image) returns (ok: bool)
      requires Loaded(image)
      modifies handle
      ensures Went(old(handle.log), handle.log, Plan(options, Broadcast(options.imageType, image.data)), ok)
      ensures handle.faults == old(handle.faults) + Fault(ok)
      ensures ok ==>
        handle.awaited == old(handle.awaited) + Awaited(options, |Broadcast(options.imageType, image.data)|)
    {
      hide Plan, Went, Serialize, CrcOf, DataPackets;
      var message := new byte[MESSAGE_MAX];
      var sequence := 1;
      var startRoundDuration := (REPEATS - 1) * 3 + 250;
      var startRounds := (10000 + startRoundDuration - 1) / startRoundDuration;
      var length := BuildStartMessage(message, options.imageType, image.size, image.crc32);
      ghost var start := StartMessage(options.imageType, image.data);
      assert message[..length] == start;
      L.BroadcastNumbers(options.imageType, image.data);
      ghost var n := ChunkCount(image.size);
      ghost var starts := Repeated(1, 120, start);
      ghost var datas := DataPackets(options.imageType, image.data, 121, n);
      ghost var ends := Repeated(121 + n * REPEATS, REPEATS, EndMessage(options.imageType));
      ghost var log0 := handle.log;
      PlanAppend(options, starts, datas);
      PlanAppend(options, starts + datas, ends);
      ok, sequence := BroadcastStarts(message, length, sequence, startRounds);
      if !ok {
        WentShort(log0, handle.log, Plan(options, starts), Plan(options, datas));
        WentShort(log0, handle.log, Plan(options, starts + datas), Plan(options, ends));
        return;
      }
      ghost var mid := handle.log;
      ok, sequence := BroadcastData(message, image, sequence);
      WentThen(log0, mid, handle.log, Plan(options, starts), Plan(options, datas), ok);
      if !ok {
        WentShort(log0, handle.log, Plan(options, starts + datas), Plan(options, ends));
        return;
      }
      mid := handle.log;
      length := BuildEndMessage(message, options.imageType);
      ok, sequence := SendRepeated(sequence, message[..length]);
      WentThen(log0, mid, handle.log, Plan(options, starts + datas), Plan(options, ends), ok);
    }

    /** The START loop (lines 1022-1028). */
    method BroadcastStarts(message: array<byte>, length: nat, sequence: nat, startRounds: nat)
        returns (ok: bool, next: nat)
      requires length <= message.Length == MESSAGE_MAX && sequence == 1 && startRounds == START_ROUNDS
      modifies handle
      ensures Went(old(handle.log), handle.log, Plan(options, Repeated(1, 120, message[..length])), ok)
      ensures handle.faults == old(handle.faults) + Fault(ok)
      ensures ok ==> next == 121 && handle.awaited == old(handle.awaited) + Awaited(options, 120)
    {
      hide Plan, Went;
      ok, next := true, sequence;
      ghost var m := message[..length];
      WentNowhere(handle.log);
      PlanNothing(options);
      assert Repeated(1, 0, m) == [];
      for round := 0 to startRounds
        invariant ok && next == 1 + REPEATS * round
        invariant handle.awaited == old(handle.awaited) + Awaited(options, REPEATS * round)
        invariant handle.faults == old(handle.faults)
        invariant Went(old(handle.log), handle.log, Plan(options, Repeated(1, REPEATS * round, m)), true)
      {
        ghost var mid := handle.log;
        ghost var before, three := Repeated(1, REPEATS * round, m), Repeated(next, REPEATS, m);
        ok, next := SendRepeated(next, message[..length]);
        WentThen(old(handle.log), mid, handle.log, Plan(options, before), Plan(options, three), ok);
        PlanAppend(options, before, three);
        assert before + three == Repeated(1, REPEATS * (round + 1), m);
        if !ok {
          ghost var rest := Repeated(1 + REPEATS * (round + 1), 120 - REPEATS * (round + 1), m);
          WentShort(old(handle.log), handle.log, Plan(options, before + three), Plan(options, rest));
          PlanAppend(options, before + three, rest);
          assert before + three + rest == Repeated(1, 120, m);
          return;
        }
      }
    }
  }

  /** The plan for the chunks from m on. */
  ghost function DataRest(o: Options, image: seq<byte>, first: nat, m: nat, n: nat): seq<seq<byte>>
    requires m <= n <= ChunkCount(|image|)
    decreases n
  {
    if m == n then []
    else DataRest(o, image, first, m, n - 1)
         + Plan(o, Repeated(first + (n - 1) * REPEATS, REPEATS, DataMessage(o.imageType, image, n - 1)))
  }

  lemma {:induction false} DataPrefix(o: Options, image: seq<byte>, first: nat, m: nat, n: nat)
    requires m <= n <= ChunkCount(|image|)
    ensures Plan(o, DataPackets(o.imageType, image, first, n))
         == Plan(o, DataPackets(o.imageType, image, first, m)) + DataRest(o, image, first, m, n)
    decreases n
  {
    hide Plan, Repeated, DataMessage;
    var all := Plan(o, DataPackets(o.imageType, image, first, m));
    if m == n {
      assert all + [] == all;
    } else {
      var more := Repeated(first + (n - 1) * REPEATS, REPEATS, DataMessage(o.imageType, image, n - 1));
      DataPrefix(o, image, first, m, n - 1);
      PlanAppend(o, DataPackets(o.imageType, image, first, n - 1), more);
      assert all + DataRest(o, image, first, m, n - 1) + Plan(o, more) ==
        all + (DataRest(o, image, first, m, n - 1) + Plan(o, more));
    }
  }

  lemma PlanOne(o: Options, p: Packet)
    ensures Plan(o, [p]) == if o.dryRun then [] else Transfers(p)
  {
    assert [p][..0] == [];
    assert AllTransfers([p]) == AllTransfers([]) + Transfers(p);
  }

  lemma PlanNothing(o: Options)
    ensures Plan(o, []) == []
  {
  }

  lemma WentNowhere(log: seq<seq<byte>>)
    ensures Went(log, log, [], true)
  {
    assert log + [] == log;
  }

  /** Everything went out, but it is not known to have. */
  lemma WentUnheard(before: seq<seq<byte>>, after: seq<seq<byte>>, plan: seq<seq<byte>>)
    requires Went(before, after, plan, true)
    ensures Went(before, after, plan, false)
  {
    assert after[|before|..] == plan;
  }
}
