/**
  The laws of the update broadcast: what may be lost on the way, what damage is
  refused, and that both senders and the USB link carry the same messages.
*/
module OtaLaws {
  import opened Common
  import opened Wire
  import opened OtaSpec
  import C = Crc32
  import D = Crc32Detects

  // ---------------------------------------------------------- loss tolerance

  /** The state of a receiver that got `received`, all of them messages of `image`. */
  ghost predicate Gathered(imageType: byte, image: seq<byte>, received: seq<seq<byte>>, r: Receiver) {
    var n := ChunkCount(|image|);
    && r.start == (if StartMessage(imageType, image) in received then Some(Announced(|image|, CrcOf(image))) else None)
    && (r.ended <==> EndMessage(imageType) in received)
    && (forall i: nat :: i in r.chunks ==> i < n && r.chunks[i] == Chunk(image, i))
    && (forall i: nat :: i < n ==> (i in r.chunks <==> DataMessage(imageType, image, i) in received))
  }

  lemma MessageKinds(imageType: byte, image: seq<byte>, m: seq<byte>) returns (i: nat)
    requires m in Messages(imageType, image)
    ensures || m == StartMessage(imageType, image)
            || m == EndMessage(imageType)
            || (i < ChunkCount(|image|) && m == DataMessage(imageType, image, i))
  {
    var all := Messages(imageType, image);
    var k :| 0 <= k < |all| && all[k] == m;
    i := if k == 0 then 0 else k - 1;
  }

  lemma TakeStart(imageType: byte, image: seq<byte>, r: Receiver)
    requires |image| <= IMAGE_MAX
    ensures Take(r, StartMessage(imageType, image)) == r.(start := Some(Announced(|image|, CrcOf(image))))
  {
    hide Serialize, Decode, CrcOf, Put32, Le;
    var body := Put32(|image|) + Put32(CrcOf(image));
    DecodeSerialize(START, imageType, 0, body);
    assert body[0..4] == Put32(|image|) && body[4..8] == Put32(CrcOf(image));
    Get32(|image|, body, 0);
    Get32(CrcOf(image), body, 4);
  }

  lemma TakeData(imageType: byte, image: seq<byte>, r: Receiver, i: nat)
    requires |image| <= IMAGE_MAX && i < ChunkCount(|image|)
    ensures Take(r, DataMessage(imageType, image, i)) == r.(chunks := r.chunks[i := Chunk(image, i)])
  {
    hide Serialize, Decode, Le;
    ChunksFit(|image|);
    DecodeSerialize(DATA, imageType, i, Chunk(image, i));
  }

  lemma TakeEnd(imageType: byte, r: Receiver)
    ensures Take(r, EndMessage(imageType)) == r.(ended := true)
  {
    hide Serialize, Decode, Le;
    DecodeSerialize(END, imageType, 0, []);
  }

  /** No two of the messages are alike. */
  lemma MessagesDiffer(imageType: byte, image: seq<byte>)
    requires |image| <= IMAGE_MAX
    ensures StartMessage(imageType, image) != EndMessage(imageType)
    ensures forall i: nat :: i < ChunkCount(|image|) ==>
      DataMessage(imageType, image, i) != StartMessage(imageType, image)
        && DataMessage(imageType, image, i) != EndMessage(imageType)
    ensures forall i: nat, j: nat :: i < j < ChunkCount(|image|) ==>
      DataMessage(imageType, image, i) != DataMessage(imageType, image, j)
  {
    hide Serialize, Decode, CrcOf, Put32, Chunk;
    ChunksFit(|image|);
    DecodeSerialize(START, imageType, 0, Put32(|image|) + Put32(CrcOf(image)));
    DecodeSerialize(END, imageType, 0, []);
    forall i: nat | i < ChunkCount(|image|)
      ensures Decode(DataMessage(imageType, image, i)) == Some(Message(DATA, imageType, i, Chunk(image, i)))
    {
      DecodeSerialize(DATA, imageType, i, Chunk(image, i));
    }
  }

  lemma {:induction false} TakeAllGathers(imageType: byte, image: seq<byte>, received: seq<seq<byte>>)
    requires |image| <= IMAGE_MAX && forall m :: m in received ==> m in Messages(imageType, image)
    ensures Gathered(imageType, image, received, TakeAll(received))
  {
    if received != [] {
      var (rest, m) := (received[..|received| - 1], received[|received| - 1]);
      TakeAllGathers(imageType, image, rest);
      assert received == rest + [m];
      GatherOne(imageType, image, rest, m, TakeAll(rest));
    }
  }

  lemma GatherOne(imageType: byte, image: seq<byte>, rest: seq<seq<byte>>, m: seq<byte>, r: Receiver)
    requires |image| <= IMAGE_MAX && m in Messages(imageType, image) && Gathered(imageType, image, rest, r)
    ensures Gathered(imageType, image, rest + [m], Take(r, m))
  {
    hide Messages, StartMessage, DataMessage, EndMessage, Take, CrcOf, Chunk;
    var i := MessageKinds(imageType, image, m);
    MessagesDiffer(imageType, image);
    if m == StartMessage(imageType, image) {
      TakeStart(imageType, image, r);
    } else if m == EndMessage(imageType) {
      TakeEnd(imageType, r);
    } else {
      TakeData(imageType, image, r, i);
    }
  }

  /** Whatever subset of the messages arrives, however often and in whatever order:
      the image comes out if each message arrived at least once, and nothing comes
      out otherwise. */
  lemma LossTolerance(imageType: byte, image: seq<byte>, received: seq<seq<byte>>)
    requires |image| <= IMAGE_MAX && forall m :: m in received ==> m in Messages(imageType, image)
    ensures Update(received) ==
      if forall m :: m in Messages(imageType, image) ==> m in received then Some(image) else None
  {
    hide Messages, StartMessage, DataMessage, EndMessage, Take, TakeAll, CrcOf, Chunk;
    TakeAllGathers(imageType, image, received);
    var r := TakeAll(received);
    var n := ChunkCount(|image|);
    AllMessages(imageType, image, received);
    if r.ended && r.start.Some? {
      if forall i: nat :: i < n ==> DataMessage(imageType, image, i) in received {
        ChunksJoin(image, r.chunks, n);
        assert image[..|image|] == image;
      } else {
        var i: nat :| i < n && DataMessage(imageType, image, i) !in received;
        MissingChunk(r.chunks, n, i);
      }
    }
  }

  lemma AllMessages(imageType: byte, image: seq<byte>, received: seq<seq<byte>>)
    ensures (forall m :: m in Messages(imageType, image) ==> m in received) <==>
      && StartMessage(imageType, image) in received && EndMessage(imageType) in received
      && (forall i: nat :: i < ChunkCount(|image|) ==> DataMessage(imageType, image, i) in received)
  {
    hide StartMessage, DataMessage, EndMessage;
    var all := Messages(imageType, image);
    assert all[0] == StartMessage(imageType, image) && all[|all| - 1] == EndMessage(imageType);
    assert forall i: nat :: i < ChunkCount(|image|) ==> all[i + 1] == DataMessage(imageType, image, i);
  }

  // ------------------------------------------------------------------ damage

  lemma OneMore(x: bv8)
    requires x != 0xFF
    ensures (x + 1) as int == (x as int) + 1
  {
  }

  lemma {:induction false} EveryByte(a: nat) returns (x: bv8)
    requires a < 256
    ensures x as int == a
  {
    x := 0;
    if a > 0 {
      x := EveryByte(a - 1);
      OneMore(x);
      x := x + 1;
    }
  }

  lemma BackAgain(x: bv8)
    ensures (x as int) as bv8 == x
  {
  }

  lemma ByteRound(a: nat)
    requires a < 256
    ensures (a as bv8) as int == a
  {
    var x := EveryByte(a);
    BackAgain(x);
  }

  lemma SameBits(a: byte, b: byte)
    requires a as bv8 == b as bv8
    ensures a == b
  {
    ByteRound(a);
    ByteRound(b);
  }

  lemma SameWords(x: bv32, y: bv32)
    requires x as nat == y as nat
    ensures x == y
  {
    assert (x as nat) as bv32 == x && (y as nat) as bv32 == y;
  }

  /** A receiver never takes an image that differs from the announced one only
      within four consecutive bytes. */
  lemma DamageRefused(image: seq<byte>, r: Receiver, k: nat)
    requires r.start == Some(Announced(|image|, CrcOf(image)))
    requires var a := Assemble(r.chunks, ChunkCount(|image|));
      && a.Some? && |a.value| == |image| && a.value != image
      && forall i :: 0 <= i < |image| && !(k <= i < k + 4) ==> a.value[i] == image[i]
    ensures Finish(r) == None
  {
    hide Assemble, CrcOf;
    CrcDiffers(image, Assemble(r.chunks, ChunkCount(|image|)).value, k);
  }

  lemma CrcDiffers(a: seq<byte>, b: seq<byte>, k: nat)
    requires |a| == |b| && a != b && forall i :: 0 <= i < |a| && !(k <= i < k + 4) ==> a[i] == b[i]
    ensures CrcOf(a) != CrcOf(b)
  {
    hide C.Crc;
    var i :| 0 <= i < |a| && a[i] != b[i];
    if AsBv8(a)[i] == AsBv8(b)[i] {
      SameBits(a[i], b[i]);
      assert false;
    }
    D.FourBytesDetected(AsBv8(a), AsBv8(b), k);
    if CrcOf(a) == CrcOf(b) {
      SameWords(C.Crc(AsBv8(a)), C.Crc(AsBv8(b)));
      assert false;
    }
  }

  // ------------------------------------------------------- what is broadcast

  function MessagesOf(packets: seq<Packet>): (m: seq<seq<byte>>)
    ensures |m| == |packets|
  {
    seq(|packets|, i requires 0 <= i < |packets| => packets[i].message)
  }

  function Copies(m: seq<byte>, n: nat): (s: seq<seq<byte>>)
    ensures |s| == n && forall i :: 0 <= i < n ==> s[i] == m
  {
    seq(n, i => m)
  }

  lemma {:induction false} DataNumbers(imageType: byte, image: seq<byte>, first: nat, n: nat)
    requires n <= ChunkCount(|image|)
    ensures forall i :: 0 <= i < n * REPEATS ==> DataPackets(imageType, image, first, n)[i].sequence == first + i
  {
    if n > 0 {
      DataNumbers(imageType, image, first, n - 1);
    }
  }

  lemma {:induction false} DataSizes(imageType: byte, image: seq<byte>, first: nat, n: nat)
    requires n <= ChunkCount(|image|)
    ensures forall p :: p in DataPackets(imageType, image, first, n) ==> |p.message| <= MESSAGE_MAX
  {
    if n > 0 {
      DataSizes(imageType, image, first, n - 1);
    }
  }

  /** Sequence numbers run 1, 2, 3, ... and stop at 3636 at the latest, so none
      comes twice; no message exceeds 230 bytes; chunk indices fit 16 bits. */
  lemma BroadcastNumbers(imageType: byte, image: seq<byte>)
    requires |image| <= IMAGE_MAX
    ensures var b := Broadcast(imageType, image);
      && |b| == 123 + 3 * ChunkCount(|image|) <= 3636 && ChunkCount(|image|) <= 1171
      && (forall i :: 0 <= i < |b| ==> b[i].sequence == i + 1)
      && (forall p :: p in b ==> |p.message| <= MESSAGE_MAX)
  {
    ChunksFit(|image|);
    DataNumbers(imageType, image, START_ROUNDS * REPEATS + 1, ChunkCount(|image|));
    DataSizes(imageType, image, START_ROUNDS * REPEATS + 1, ChunkCount(|image|));
  }

  /** The messages without repetitions of the one before. */
  function Collapse(s: seq<seq<byte>>): seq<seq<byte>> {
    if |s| <= 1 then s
    else Collapse(s[..|s| - 1]) + if s[|s| - 1] == s[|s| - 2] then [] else [s[|s| - 1]]
  }

  lemma {:induction false} CollapseCopies(s: seq<seq<byte>>, m: seq<byte>, n: nat)
    requires n > 0 && (s == [] || s[|s| - 1] != m)
    ensures Collapse(s + Copies(m, n)) == Collapse(s) + [m]
    decreases n
  {
    var t := s + Copies(m, n);
    assert t[..|t| - 1] == s + Copies(m, n - 1);
    if n == 1 {
      assert t[..|t| - 1] == s;
    } else {
      CollapseCopies(s, m, n - 1);
    }
  }

  lemma {:induction false} CollapseData(imageType: byte, image: seq<byte>, first: nat, n: nat)
    requires |image| <= IMAGE_MAX && n <= ChunkCount(|image|)
    ensures var start := StartMessage(imageType, image);
            var s := Copies(start, 120) + MessagesOf(DataPackets(imageType, image, first, n));
      && Collapse(s) == [start] + seq(n, i requires 0 <= i < n => DataMessage(imageType, image, i))
      && s[|s| - 1] == if n == 0 then start else DataMessage(imageType, image, n - 1)
  {
    hide StartMessage, DataMessage, Collapse;
    var start := StartMessage(imageType, image);
    if n == 0 {
      assert Copies(start, 120) + MessagesOf([]) == [] + Copies(start, 120);
      CollapseCopies([], start, 120);
      CollapseNothing();
    } else {
      CollapseData(imageType, image, first, n - 1);
      MessagesDiffer(imageType, image);
      var before := Copies(start, 120) + MessagesOf(DataPackets(imageType, image, first, n - 1));
      var m := DataMessage(imageType, image, n - 1);
      assert Copies(start, 120) + MessagesOf(DataPackets(imageType, image, first, n)) == before + Copies(m, 3);
      CollapseCopies(before, m, 3);
    }
  }

  lemma CollapseNothing()
    ensures Collapse([]) == []
  {
  }

  /** Without its repeats the broadcast is each message once, in order. */
  lemma CollapseBroadcast(imageType: byte, image: seq<byte>)
    requires |image| <= IMAGE_MAX
    ensures Collapse(MessagesOf(Broadcast(imageType, image))) == Messages(imageType, image)
  {
    hide StartMessage, DataMessage, EndMessage, Collapse, DataPackets;
    var n := ChunkCount(|image|);
    var start := StartMessage(imageType, image);
    var before := Copies(start, 120) + MessagesOf(DataPackets(imageType, image, 121, n));
    var end := EndMessage(imageType);
    MessagesDiffer(imageType, image);
    CollapseData(imageType, image, 121, n);
    assert MessagesOf(Broadcast(imageType, image)) == before + Copies(end, 3);
    CollapseCopies(before, end, 3);
  }

  lemma {:induction false} CollapseMembers(s: seq<seq<byte>>, m: seq<byte>)
    ensures m in Collapse(s) <==> m in s
  {
    if |s| > 1 {
      CollapseMembers(s[..|s| - 1], m);
      assert s == s[..|s| - 1] + [s[|s| - 1]];
    }
  }

  /** A receiver of the broadcast gets the image if it gets at least one packet of
      each START, DATA and END group, and nothing otherwise. */
  lemma BroadcastTolerance(imageType: byte, image: seq<byte>, received: seq<Packet>)
    requires |image| <= IMAGE_MAX && forall p :: p in received ==> p in Broadcast(imageType, image)
    ensures Update(MessagesOf(received)) ==
      if forall p :: p in Broadcast(imageType, image) ==> p.message in MessagesOf(received) then Some(image) else None
  {
    hide Messages, Broadcast, Update, Collapse;
    var all := Broadcast(imageType, image);
    var got := MessagesOf(received);
    CollapseBroadcast(imageType, image);
    forall m ensures m in Messages(imageType, image) <==> m in MessagesOf(all) {
      CollapseMembers(MessagesOf(all), m);
    }
    forall m | m in got ensures m in Messages(imageType, image) {
      var i :| 0 <= i < |got| && got[i] == m;
      assert received[i] in all;
      var j :| 0 <= j < |all| && all[j] == received[i];
      assert MessagesOf(all)[j] == m;
    }
    LossTolerance(imageType, image, got);
    if forall p :: p in all ==> p.message in got {
      forall m | m in Messages(imageType, image) ensures m in got {
        var j :| 0 <= j < |all| && MessagesOf(all)[j] == m;
        assert all[j] in all;
      }
    } else {
      var p :| p in all && p.message !in got;
      var j :| 0 <= j < |all| && all[j] == p;
      assert MessagesOf(all)[j] == p.message;
    }
  }

  // -------------------------------------------------------------- USB link

  /** The fragments of a message, none longer than a USB packet, restore it. */
  lemma {:induction false} FragmentsJoin(m: seq<byte>)
    ensures Concat(Fragments(m)) == m
    ensures forall f :: f in Fragments(m) ==> 0 < |f| <= USB_PACKET
  {
    if |m| > USB_PACKET {
      FragmentsJoin(m[USB_PACKET..]);
      assert m == m[..USB_PACKET] + m[USB_PACKET..];
    }
  }

  /** What the relay is told to send: to whom, of which type, when, and what. */
  datatype Relayed = Relayed(dest: nat, uwbType: nat, time: nat, flags: nat, packet: Packet)

  /** The relay's reading of the bulk OUT stream: 20 bytes of metadata, then as
      many bytes of message as they say. */
  function ReadDownlink(s: seq<byte>): Option<seq<Relayed>>
    decreases |s|
  {
    if s == [] then Some([])
    else if |s| < 20 || Le(s, 0, 4) != 0xCCCD || |s| < 20 + Le(s, 8, 2) then None
    else
      var n := 20 + Le(s, 8, 2);
      var rest := ReadDownlink(s[n..]);
      var first := Relayed(Le(s, 4, 2), s[18], Le(s, 10, 8), s[19], Packet(Le(s, 6, 2), s[20..n]));
      if rest.None? then None else Some([first] + rest.value)
  }

  /** To everyone, as an update message (type 11), at once. */
  function ToAll(packets: seq<Packet>): (r: seq<Relayed>)
    ensures |r| == |packets|
  {
    seq(|packets|, i requires 0 <= i < |packets| => Relayed(0xFFFF, 11, 0, 0, packets[i]))
  }

  lemma {:induction false} TransfersFirst(p: Packet, rest: seq<Packet>)
    ensures AllTransfers([p] + rest) == Transfers(p) + AllTransfers(rest)
  {
    hide Transfers;
    if rest == [] {
      assert [p] + rest == [p] && [p][..0] == [];
      assert AllTransfers([p]) == AllTransfers([]) + Transfers(p);
    } else {
      assert ([p] + rest)[..|rest|] == [p] + rest[..|rest| - 1];
      TransfersFirst(p, rest[..|rest| - 1]);
    }
  }

  lemma {:induction false} ZeroField(s: seq<byte>, i: nat, n: nat)
    requires i + n <= |s| && forall j :: i <= j < i + n ==> s[j] == 0
    ensures Le(s, i, n) == 0
    decreases n
  {
    if n > 0 { ZeroField(s, i + 1, n - 1); }
  }

  lemma ReadMetadata(p: Packet, rest: seq<byte>)
    requires p.sequence < 65536 && |p.message| < 65536
    ensures var s := Metadata(p.sequence, |p.message|) + p.message + rest;
      && Le(s, 0, 4) == 0xCCCD && Le(s, 6, 2) == p.sequence && Le(s, 8, 2) == |p.message|
      && Le(s, 4, 2) == 0xFFFF && Le(s, 10, 8) == 0 && s[18] == 11 && s[19] == 0
      && s[20..20 + |p.message|] == p.message && s[20 + |p.message|..] == rest
  {
    hide Le, Put16, Put32;
    var s := Metadata(p.sequence, |p.message|) + p.message + rest;
    assert s[0..4] == Put32(0xCCCD) && s[6..8] == Put16(p.sequence) && s[8..10] == Put16(|p.message|);
    assert s[4..6] == Put16(0xFFFF) && s[10..18] == [0, 0, 0, 0, 0, 0, 0, 0] && s[18..20] == [11, 0];
    assert s[18] == s[18..20][0] && s[19] == s[18..20][1];
    assert forall i :: 10 <= i < 18 ==> s[i] == s[10..18][i - 10];
    ZeroField(s, 10, 8);
    Get32(0xCCCD, s, 0);
    Get16(0xFFFF, s, 4);
    Get16(p.sequence, s, 6);
    Get16(|p.message|, s, 8);
  }

  lemma ReadFirst(p: Packet, tail: seq<byte>, rest: seq<Relayed>)
    requires p.sequence < 65536 && |p.message| < 65536 && ReadDownlink(tail) == Some(rest)
    ensures ReadDownlink(Metadata(p.sequence, |p.message|) + p.message + tail) ==
      Some([Relayed(0xFFFF, 11, 0, 0, p)] + rest)
  {
    hide Metadata, Le;
    ReadMetadata(p, tail);
  }

  lemma TransfersJoined(p: Packet, rest: seq<Packet>)
    ensures Concat(AllTransfers([p] + rest)) ==
      Metadata(p.sequence, |p.message|) + p.message + Concat(AllTransfers(rest))
  {
    hide Metadata, Fragments, AllTransfers;
    TransfersFirst(p, rest);
    ConcatAppend(Transfers(p), AllTransfers(rest));
    FragmentsJoin(p.message);
    assert Transfers(p)[1..] == Fragments(p.message);
  }

  lemma ReadNothing()
    ensures ReadDownlink(Concat(AllTransfers([]))) == Some(ToAll([]))
  {
  }

  lemma ToAllFirst(p: Packet, rest: seq<Packet>)
    ensures ToAll([p] + rest) == [Relayed(0xFFFF, 11, 0, 0, p)] + ToAll(rest)
  {
  }

  /** The transfers of any packets, as one stream of bytes, tell the relay to send
      these packets, as update messages, to everyone. */
  lemma {:induction false} DownlinkRoundTrip(packets: seq<Packet>)
    requires forall p :: p in packets ==> p.sequence < 65536 && |p.message| < 65536
    ensures ReadDownlink(Concat(AllTransfers(packets))) == Some(ToAll(packets))
  {
    hide ReadDownlink, AllTransfers, Concat, ToAll;
    if packets == [] {
      ReadNothing();
    } else {
      var (p, rest) := (packets[0], packets[1..]);
      assert p in packets && packets == [p] + rest;
      DownlinkRoundTrip(rest);
      TransfersJoined(p, rest);
      ReadFirst(p, Concat(AllTransfers(rest)), ToAll(rest));
      ToAllFirst(p, rest);
    }
  }
}
