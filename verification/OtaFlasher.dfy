/**
  ota_flasher.c: the other sender.  It reads the image twice, once for the CRC and
  once to pack it, and reuses one message buffer for every packet.
*/
module OtaFlasher {
  import opened Common
  import opened Wire
  import opened OtaSpec
  import C = Crc32
  import G = Ota
  import L = OtaLaws

  /** UWB_Packet_t with the fields that main sets. */
  datatype UwbPacket = UwbPacket(packetType: nat, destAddress: nat, length: nat, payload: seq<byte>)

  predicate Framed(p: UwbPacket) {
    p.packetType == 11 && p.destAddress == 0xFFFF && p.length == 8 + |p.payload|
  }

  function Payloads(packets: seq<UwbPacket>): (m: seq<seq<byte>>)
    ensures |m| == |packets|
  {
    seq(|packets|, i requires 0 <= i < |packets| => packets[i].payload)
  }

  /** memcpy of header and body into the packet, after setting the header (lines
      71-79, 97-103 and 113-120). */
  method Pack(message: array<byte>, command: byte, payloadLength: nat, chunkIndex: nat) returns (p: UwbPacket)
    requires message.Length == MESSAGE_MAX && payloadLength <= DATA_MAX
    modifies message
    ensures Framed(p)
    ensures p.payload == Serialize(command, FIRMWARE, chunkIndex,
      old(message[HEADER_SIZE..HEADER_SIZE + payloadLength]))
  {
    ghost var body := message[HEADER_SIZE..HEADER_SIZE + payloadLength];
    G.FillHeader(message, command, FIRMWARE, payloadLength, chunkIndex);
    assert message[HEADER_SIZE..HEADER_SIZE + payloadLength] == message[HEADER_SIZE..][..payloadLength];
    assert message[..HEADER_SIZE + payloadLength] == message[..HEADER_SIZE] + body;
    p := UwbPacket(11, 0xFFFF, 8 + HEADER_SIZE + payloadLength, message[..HEADER_SIZE + payloadLength]);
  }

  method CopyBody(message: array<byte>, body: seq<byte>)
    requires message.Length == MESSAGE_MAX && |body| <= DATA_MAX
    modifies message
    ensures message[HEADER_SIZE..HEADER_SIZE + |body|] == body
  {
    forall i | 0 <= i < |body| {
      message[HEADER_SIZE + i] := body[i];
    }
  }

  /** Lines 90-104: one packet for every 224 bytes that fread returns. */
  method PackChunks(message: array<byte>, contents: seq<byte>) returns (packets: seq<UwbPacket>)
    requires message.Length == MESSAGE_MAX
    modifies message
    ensures |packets| == ChunkCount(|contents|) && forall p :: p in packets ==> Framed(p)
    ensures forall i :: 0 <= i < |packets| ==> packets[i].payload == DataMessage(FIRMWARE, contents, i)
  {
    hide Serialize;
    packets := [];
    var position := 0;
    while true
      invariant position == (if |packets| * DATA_MAX <= |contents| then |packets| * DATA_MAX else |contents|)
      invariant |packets| <= ChunkCount(|contents|) && forall p :: p in packets ==> Framed(p)
      invariant forall i :: 0 <= i < |packets| ==> packets[i].payload == DataMessage(FIRMWARE, contents, i)
      decreases |contents| - position
    {
      var bytesRead := if |contents| - position < DATA_MAX then |contents| - position else DATA_MAX;
      if bytesRead == 0 {
        break;
      }
      var body := contents[position..position + bytesRead];
      assert body == Chunk(contents, |packets|);
      CopyBody(message, body);
      var p := Pack(message, DATA, bytesRead, |packets| % 65536);
      IndexWraps(DATA, FIRMWARE, |packets|, body);
      packets := packets + [p];
      position := position + bytesRead;
    }
  }

  /** The index field holds 16 bits. */
  lemma IndexWraps(command: byte, imageType: byte, i: nat, body: seq<byte>)
    ensures Serialize(command, imageType, i % 65536, body) == Serialize(command, imageType, i, body)
  {
    SameLowBytes(i / 65536, i % 65536);
  }

  /** The DATA messages of an image. */
  function ChunkMessages(image: seq<byte>): (m: seq<seq<byte>>)
    ensures |m| == ChunkCount(|image|)
  {
    seq(ChunkCount(|image|), i requires 0 <= i < ChunkCount(|image|) => DataMessage(FIRMWARE, image, i))
  }

  /** Whatever arrives of these messages, in whatever order, gives no image. */
  ghost predicate Useless(sent: seq<seq<byte>>) {
    forall received: seq<seq<byte>> :: (forall m :: m in received ==> m in sent) ==> Update(received) == None
  }

  ghost predicate NoEnd(sent: seq<seq<byte>>) {
    forall m :: m in sent ==> |m| > 0 && m[0] != END
  }

  lemma {:induction false} NeverEnded(received: seq<seq<byte>>)
    requires NoEnd(received)
    ensures !TakeAll(received).ended
  {
    if received != [] {
      var m := received[|received| - 1];
      assert m in received;
      NeverEnded(received[..|received| - 1]);
    }
  }

  /** Without an END message there is no image. */
  lemma NoEndUseless(sent: seq<seq<byte>>)
    requires NoEnd(sent)
    ensures Useless(sent)
  {
    hide TakeAll;
    forall received: seq<seq<byte>> | forall m :: m in received ==> m in sent ensures Update(received) == None {
      NeverEnded(received);
    }
  }

  /** The packets printed before the second reading failed. */
  lemma StopsShort(contents: seq<byte>, part: seq<byte>, start: UwbPacket, chunks: seq<UwbPacket>)
    requires start.payload == StartMessage(FIRMWARE, contents) && |chunks| == ChunkCount(|part|)
    requires forall i :: 0 <= i < |chunks| ==> chunks[i].payload == DataMessage(FIRMWARE, part, i)
    ensures Payloads([start] + chunks) == [StartMessage(FIRMWARE, contents)] + ChunkMessages(part)
    ensures Useless(Payloads([start] + chunks))
  {
    hide Useless, CrcOf, Chunk, Put16, Put32;
    var sent := Payloads([start] + chunks);
    assert forall i :: 0 < i < |sent| ==> sent[i] == DataMessage(FIRMWARE, part, i - 1);
    NoEndUseless(sent);
  }

  /** main (lines 34-122) on a file whose first reading goes as `grants` says, which
      can or cannot be opened again, and of which `readable` bytes can then be read.
      The packets are those of the whole image; or they stop before the END packet,
      with nothing, with the START packet, or behind what could be read. */
  method FlashImage(contents: seq<byte>, grants: seq<nat>, reopened: bool, readable: nat)
      returns (packets: seq<UwbPacket>, ok: bool)
    ensures forall p :: p in packets ==> Framed(p)
    ensures ok <==>
      |contents| <= 0xFFFF_FFFF && C.LeftOver(|contents|, grants) == 0 && reopened && |contents| <= readable
    ensures ok ==> Payloads(packets) == Messages(FIRMWARE, contents)
    ensures !ok ==> Useless(Payloads(packets))
    ensures !ok ==>
      var stopped := |contents| > 0xFFFF_FFFF || C.LeftOver(|contents|, grants) != 0;
      var part := if !stopped && reopened then contents[..readable] else [];
      Payloads(packets) == if stopped then [] else [StartMessage(FIRMWARE, contents)] + ChunkMessages(part)
  {
    hide Serialize, AsBv8, C.Crc, Messages, Useless, ChunkMessages, StartMessage;
    packets, ok := [], false;
    NoEndUseless(Payloads(packets));
    if |contents| > 0xFFFF_FFFF {
      return;
    }
    var file := new C.InputFile(AsBv8(contents), grants);
    var checksum := new C.FileCrc();
    var crc := checksum.Crc32File(file);
    if file.Failed() {
      return;
    }
    packets, ok := PrintImage(contents, crc as nat, reopened, readable);
  }

  /** Lines 67-122, the size and CRC being known. */
  method PrintImage(contents: seq<byte>, crc: nat, reopened: bool, readable: nat)
      returns (packets: seq<UwbPacket>, ok: bool)
    requires |contents| <= 0xFFFF_FFFF && crc == CrcOf(contents)
    ensures forall p :: p in packets ==> Framed(p)
    ensures ok <==> reopened && |contents| <= readable
    ensures ok ==> Payloads(packets) == Messages(FIRMWARE, contents)
    ensures !ok ==> Useless(Payloads(packets))
    ensures !ok ==>
      Payloads(packets) == [StartMessage(FIRMWARE, contents)] +
        ChunkMessages(if reopened then contents[..readable] else [])
  {
    hide Serialize, CrcOf, Messages, Useless, ChunkMessages, DataMessage, Payloads, Put32;
    var message := new byte[MESSAGE_MAX];
    var startInfo := new byte[8];
    G.PutU32Le(startInfo, 0, |contents|);
    G.PutU32Le(startInfo, 4, crc);
    assert startInfo[..] == Put32(|contents|) + Put32(CrcOf(contents));
    CopyBody(message, startInfo[..]);
    var start := Pack(message, START, 8, 0);
    packets, ok := [start], false;
    if !reopened {
      StopsShort(contents, [], start, []);
      assert [start] + [] == [start];
      return;
    }
    var part := if readable < |contents| then contents[..readable] else contents;
    var chunks := PackChunks(message, part);
    packets := packets + chunks;
    if readable < |contents| {
      StopsShort(contents, part, start, chunks);
      return;
    }
    var end := Pack(message, END, 0, 0);
    AllPayloads(contents, start, chunks, end);
    packets, ok := packets + [end], true;
  }

  lemma AllPayloads(contents: seq<byte>, start: UwbPacket, chunks: seq<UwbPacket>, end: UwbPacket)
    requires start.payload == StartMessage(FIRMWARE, contents) && end.payload == EndMessage(FIRMWARE)
    requires |chunks| == ChunkCount(|contents|)
    requires forall i :: 0 <= i < |chunks| ==> chunks[i].payload == DataMessage(FIRMWARE, contents, i)
    ensures Payloads([start] + chunks + [end]) == Messages(FIRMWARE, contents)
  {
    hide StartMessage, DataMessage, EndMessage;
  }

  /** The two senders agree: without its repeats ground_ota's broadcast of a
      firmware image is the sequence of messages that ota_flasher packs. */
  lemma SendersAgree(image: seq<byte>, packets: seq<UwbPacket>)
    requires |image| <= IMAGE_MAX && Payloads(packets) == Messages(FIRMWARE, image)
    ensures L.Collapse(L.MessagesOf(Broadcast(FIRMWARE, image))) == Payloads(packets)
    ensures Update(Payloads(packets)) == Some(image)
  {
    hide Messages, Update, Broadcast;
    L.CollapseBroadcast(FIRMWARE, image);
    L.LossTolerance(FIRMWARE, image, Payloads(packets));
  }
}
