/**
  The over-the-air update: the messages that carry an image, the packets that
  carry the messages, and a receiver written from the message format
  (ota/ota_flasher.h:59-74), since the repository has none.
*/
module OtaSpec {
  import opened Common
  import opened Wire
  import C = Crc32

  const HEADER_SIZE: nat := 6
  const DATA_MAX: nat := 224
  const MESSAGE_MAX: nat := 230
  const IMAGE_MAX: nat := 262112
  const USB_PACKET: nat := 64
  const START_ROUNDS: nat := 40
  const REPEATS: nat := 3

  const START: byte := 0
  const DATA: byte := 1
  const END: byte := 2
  const FIRMWARE: byte := 1

  // ---------------------------------------------------------------- formats

  /** putU16Le and putU32Le of the values they are given as uint16 and uint32. */
  function Put16(v: nat): (s: seq<byte>)
    ensures |s| == 2
  {
    [v % 256, v / 256 % 256]
  }

  lemma SameLowBytes(q: nat, r: nat)
    requires r < 65536
    ensures Put16(65536 * q + r) == Put16(r)
  {
    assert (65536 * q + r) / 256 == 256 * q + r / 256;
  }

  function Put32(v: nat): (s: seq<byte>)
    ensures |s| == 4
  {
    [v % 256, v / 256 % 256, v / 65536 % 256, v / 16777216 % 256]
  }

  function Serialize(command: byte, imageType: byte, chunkIndex: nat, body: seq<byte>): (m: seq<byte>)
    ensures |m| == HEADER_SIZE + |body|
  {
    [command, imageType] + Put16(|body|) + Put16(chunkIndex) + body
  }

  function AsBv8(s: seq<byte>): (r: seq<bv8>)
    ensures |r| == |s|
  {
    seq(|s|, i requires 0 <= i < |s| => s[i] as bv8)
  }

  function CrcOf(image: seq<byte>): (c: nat)
    ensures c < 0x1_0000_0000
  {
    C.Crc(AsBv8(image)) as nat
  }

  function StartMessage(imageType: byte, image: seq<byte>): seq<byte> {
    Serialize(START, imageType, 0, Put32(|image|) + Put32(CrcOf(image)))
  }

  function ChunkCount(size: nat): nat {
    (size + DATA_MAX - 1) / DATA_MAX
  }

  /** The i-th piece of the image; all but the last are full. */
  function Chunk(image: seq<byte>, i: nat): (c: seq<byte>)
    requires i < ChunkCount(|image|)
    ensures 0 < |c| <= DATA_MAX
  {
    image[i * DATA_MAX..if (i + 1) * DATA_MAX <= |image| then (i + 1) * DATA_MAX else |image|]
  }

  function DataMessage(imageType: byte, image: seq<byte>, i: nat): seq<byte>
    requires i < ChunkCount(|image|)
  {
    Serialize(DATA, imageType, i, Chunk(image, i))
  }

  function EndMessage(imageType: byte): seq<byte> {
    Serialize(END, imageType, 0, [])
  }

  /** The messages of one update, each once. */
  function Messages(imageType: byte, image: seq<byte>): (m: seq<seq<byte>>)
    ensures |m| == ChunkCount(|image|) + 2
  {
    [StartMessage(imageType, image)]
    + seq(ChunkCount(|image|), i requires 0 <= i < ChunkCount(|image|) => DataMessage(imageType, image, i))
    + [EndMessage(imageType)]
  }

  // ------------------------------------------------------- what is broadcast

  /** A message with the sequence number it goes out under. */
  datatype Packet = Packet(sequence: nat, message: seq<byte>)

  function Repeated(first: nat, n: nat, m: seq<byte>): (p: seq<Packet>)
    ensures |p| == n && forall i :: 0 <= i < n ==> p[i] == Packet(first + i, m)
  {
    seq(n, i requires 0 <= i < n => Packet(first + i, m))
  }

  /** DATA packets of the first n chunks. */
  function DataPackets(imageType: byte, image: seq<byte>, first: nat, n: nat): (p: seq<Packet>)
    requires n <= ChunkCount(|image|)
    ensures |p| == n * REPEATS
  {
    if n == 0 then []
    else DataPackets(imageType, image, first, n - 1)
         + Repeated(first + (n - 1) * REPEATS, REPEATS, DataMessage(imageType, image, n - 1))
  }

  /** START 120 times, every DATA three times, END three times. */
  function Broadcast(imageType: byte, image: seq<byte>): seq<Packet> {
    var s := START_ROUNDS * REPEATS;
    var n := ChunkCount(|image|);
    Repeated(1, s, StartMessage(imageType, image))
    + DataPackets(imageType, image, s + 1, n)
    + Repeated(s + 1 + n * REPEATS, REPEATS, EndMessage(imageType))
  }

  // ---------------------------------------------------------- the USB link

  function Metadata(sequence: nat, length: nat): (s: seq<byte>)
    ensures |s| == 20
  {
    Put32(0xCCCD) + Put16(0xFFFF) + Put16(sequence) + Put16(length) + [0, 0, 0, 0, 0, 0, 0, 0] + [11, 0]
  }

  /** A message in pieces of at most 64 bytes. */
  function Fragments(m: seq<byte>): seq<seq<byte>> {
    if m == [] then []
    else if |m| <= USB_PACKET then [m]
    else [m[..USB_PACKET]] + Fragments(m[USB_PACKET..])
  }

  /** The bulk transfers that carry one packet. */
  function Transfers(p: Packet): seq<seq<byte>> {
    [Metadata(p.sequence, |p.message|)] + Fragments(p.message)
  }

  function AllTransfers(packets: seq<Packet>): seq<seq<byte>> {
    if packets == [] then [] else AllTransfers(packets[..|packets| - 1]) + Transfers(packets[|packets| - 1])
  }

  // ------------------------------------------------------------ the receiver

  datatype Message = Message(command: byte, imageType: byte, chunkIndex: nat, body: seq<byte>)

  function Decode(m: seq<byte>): Option<Message> {
    if |m| < HEADER_SIZE || |m| != HEADER_SIZE + Le(m, 2, 2) then None
    else Some(Message(m[0], m[1], Le(m, 4, 2), m[HEADER_SIZE..]))
  }

  /** OTA_Start_Info_t. */
  datatype Announced = Announced(size: nat, crc: nat)

  /** What the receiver has gathered so far. */
  datatype Receiver = Receiver(start: Option<Announced>, chunks: map<nat, seq<byte>>, ended: bool)

  const FRESH: Receiver := Receiver(None, map[], false)

  function Take(r: Receiver, m: seq<byte>): Receiver {
    match Decode(m)
    case None => r
    case Some(x) =>
      if x.command == START && |x.body| == 8 then r.(start := Some(Announced(Le(x.body, 0, 4), Le(x.body, 4, 4))))
      else if x.command == DATA then r.(chunks := r.chunks[x.chunkIndex := x.body])
      else if x.command == END then r.(ended := true)
      else r
  }

  function TakeAll(received: seq<seq<byte>>): Receiver {
    if received == [] then FRESH
    else Take(TakeAll(received[..|received| - 1]), received[|received| - 1])
  }

  /** The chunks 0 to n-1 end to end, if all are there. */
  function Assemble(chunks: map<nat, seq<byte>>, n: nat): Option<seq<byte>> {
    if n == 0 then Some([])
    else
      var before := Assemble(chunks, n - 1);
      if before.None? || n - 1 !in chunks then None
      else Some(before.value + chunks[n - 1])
  }

  /** The image, if it is complete and its size and CRC are as announced. */
  function Finish(r: Receiver): Option<seq<byte>> {
    if !r.ended || r.start.None? then None
    else
      var Announced(size, crc) := r.start.value;
      var image := Assemble(r.chunks, ChunkCount(size));
      if image.Some? && |image.value| == size && CrcOf(image.value) == crc then image else None
  }

  function Update(received: seq<seq<byte>>): Option<seq<byte>> {
    Finish(TakeAll(received))
  }

  // ------------------------------------------------------------- round trips

  lemma Get16(v: nat, s: seq<byte>, i: nat)
    requires v < 65536 && i + 2 <= |s| && s[i..i + 2] == Put16(v)
    ensures Le(s, i, 2) == v
  {
    assert s[i] == s[i..i + 2][0] && s[i + 1] == s[i..i + 2][1];
    assert Le(s, i + 1, 1) == s[i + 1];
  }

  lemma Get32(v: nat, s: seq<byte>, i: nat)
    requires v < 0x1_0000_0000 && i + 4 <= |s| && s[i..i + 4] == Put32(v)
    ensures Le(s, i, 4) == v
  {
    var t := s[i..i + 4];
    assert s[i] == t[0] && s[i + 1] == t[1] && s[i + 2] == t[2] && s[i + 3] == t[3];
    assert Le(s, i + 3, 1) == s[i + 3];
    assert Le(s, i + 2, 2) == (s[i + 2] as int) + 256 * Le(s, i + 3, 1);
    assert Le(s, i + 1, 3) == (s[i + 1] as int) + 256 * Le(s, i + 2, 2);
    FourBytes(v);
  }

  lemma FourBytes(v: nat)
    requires v < 0x1_0000_0000
    ensures v == v % 256 + 256 * (v / 256 % 256 + 256 * (v / 65536 % 256 + 256 * (v / 16777216 % 256)))
  {
    var a, b := v / 256, v / 65536;
    assert b == a / 256 && v / 16777216 == b / 256 < 256;
  }

  lemma DecodeSerialize(command: byte, imageType: byte, chunkIndex: nat, body: seq<byte>)
    requires |body| < 65536 && chunkIndex < 65536
    ensures Decode(Serialize(command, imageType, chunkIndex, body)) ==
      Some(Message(command, imageType, chunkIndex, body))
  {
    var m := Serialize(command, imageType, chunkIndex, body);
    assert m[2..4] == Put16(|body|) && m[4..6] == Put16(chunkIndex) && m[6..] == body;
    Get16(|body|, m, 2);
    Get16(chunkIndex, m, 4);
  }

  lemma ChunksFit(size: nat)
    requires size <= IMAGE_MAX
    ensures ChunkCount(size) <= 1171 && (size == 0 <==> ChunkCount(size) == 0)
  {
  }

  /** The chunks before the n-th are the image up to there. */
  lemma {:induction false} ChunksJoin(image: seq<byte>, chunks: map<nat, seq<byte>>, n: nat)
    requires n <= ChunkCount(|image|)
    requires forall i :: 0 <= i < n ==> i in chunks && chunks[i] == Chunk(image, i)
    ensures Assemble(chunks, n) == Some(image[..if n * DATA_MAX <= |image| then n * DATA_MAX else |image|])
  {
    if n > 0 {
      ChunksJoin(image, chunks, n - 1);
      var lo := (n - 1) * DATA_MAX;
      assert lo <= |image|;
      assert image[..lo] + Chunk(image, n - 1) == image[..if n * DATA_MAX <= |image| then n * DATA_MAX else |image|];
    }
  }

  lemma {:induction false} MissingChunk(chunks: map<nat, seq<byte>>, n: nat, i: nat)
    requires i < n && i !in chunks
    ensures Assemble(chunks, n) == None
  {
    if i < n - 1 {
      MissingChunk(chunks, n - 1, i);
    }
  }
}
