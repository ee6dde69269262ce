/**
  Records as the sniffer sends them, written from the format ("<IHHHQ" and the
  payload), and what parse_binary makes of them field by field.
*/
module Records {
  import opened Wire
  import opened Analyzer

  const MAGIC: nat := 0x0000_BBBB

  /** v in n bytes, the lowest first. */
  function PutLe(v: nat, n: nat): (s: seq<byte>)
    ensures |s| == n
  {
    if n == 0 then [] else [v % 256] + PutLe(v / 256, n - 1)
  }

  predicate InRange(m: Meta) {
    && m.magic == MAGIC && m.sender < 0x1_0000 && m.sequence < 0x1_0000 && m.length < 0x1_0000
    && m.rxTime < 0x1_0000_0000_0000_0000
  }

  /** Magic, sender, sequence and length in 16 bits, time in 64. */
  function EncodeMeta(m: Meta): (s: seq<byte>)
    ensures |s| == META
  {
    [0xBB, 0xBB, 0, 0] + PutLe(m.sender, 2) + PutLe(m.sequence, 2) + PutLe(m.length, 2) + PutLe(m.rxTime, 8)
  }

  // ------------------------------------------------------ little-endian fields

  /** v has at most n bytes. */
  predicate Fits(v: nat, n: nat) {
    if n == 0 then v == 0 else Fits(v / 256, n - 1)
  }

  lemma ShortFits(v: nat)
    ensures Fits(v, 2) <==> v < 0x1_0000
  {
    assert Fits(v, 2) <==> Fits(v / 256 / 256, 0);
  }

  lemma LongFits(v: nat)
    ensures Fits(v, 8) <==> v < 0x1_0000_0000_0000_0000
  {
    var a := v / 256 / 256;
    var b := a / 256 / 256;
    var c := b / 256 / 256;
    assert Fits(v, 8) <==> Fits(a, 6);
    assert Fits(a, 6) <==> Fits(b, 4);
    assert Fits(b, 4) <==> Fits(c, 2);
    ShortFits(c);
  }

  lemma {:induction false} GetPut(v: nat, n: nat, s: seq<byte>, i: nat)
    requires Fits(v, n) && i + n <= |s| && s[i..i + n] == PutLe(v, n)
    ensures Le(s, i, n) == v
  {
    if n > 0 {
      assert s[i] == s[i..i + n][0] && s[i + 1..i + n] == s[i..i + n][1..];
      GetPut(v / 256, n - 1, s, i + 1);
    }
  }

  lemma {:induction false} PutGet(s: seq<byte>, i: nat, n: nat)
    requires i + n <= |s|
    ensures Fits(Le(s, i, n), n) && PutLe(Le(s, i, n), n) == s[i..i + n]
    decreases n
  {
    if n > 0 {
      PutGet(s, i + 1, n - 1);
      var (low, high) := (s[i] as int, Le(s, i + 1, n - 1));
      assert (low + 256 * high) / 256 == high && (low + 256 * high) % 256 == low;
      assert s[i..i + n] == [s[i]] + s[i + 1..i + n];
    }
  }

  lemma MagicValue(s: seq<byte>, i: nat)
    requires i + 4 <= |s|
    ensures MagicAt(s, i) <==> Le(s, i, 4) == MAGIC
  {
    assert Le(s, i + 3, 1) == s[i + 3];
    assert Le(s, i + 2, 2) == (s[i + 2] as int) + 256 * Le(s, i + 3, 1);
    assert Le(s, i + 1, 3) == (s[i + 1] as int) + 256 * Le(s, i + 2, 2);
  }

  // -------------------------------------------------------------- round trips

  lemma MetaParts(m: Meta, s: seq<byte>, i: nat)
    requires i + META <= |s| && s[i..i + META] == EncodeMeta(m)
    ensures s[i] == 0xBB && s[i + 1] == 0xBB && s[i + 2] == 0 && s[i + 3] == 0
    ensures s[i + 4..i + 6] == PutLe(m.sender, 2) && s[i + 6..i + 8] == PutLe(m.sequence, 2)
    ensures s[i + 8..i + 10] == PutLe(m.length, 2) && s[i + 10..i + 18] == PutLe(m.rxTime, 8)
  {
    hide PutLe;
    var t := s[i..i + META];
    assert t[0] == s[i] && t[1] == s[i + 1] && t[2] == s[i + 2] && t[3] == s[i + 3];
    assert t[4..6] == s[i + 4..i + 6] && t[6..8] == s[i + 6..i + 8] && t[8..10] == s[i + 8..i + 10];
    assert t[10..18] == s[i + 10..i + 18];
  }

  /** A meta read back has the fields it was sent with. */
  lemma DecodeEncode(m: Meta, s: seq<byte>, i: nat)
    requires InRange(m) && i + META <= |s| && s[i..i + META] == EncodeMeta(m)
    ensures DecodeMeta(s, i) == m && MagicAt(s, i) && LengthAt(s, i) == m.length
  {
    hide Le, PutLe, LengthAt, Fits, EncodeMeta;
    MetaParts(m, s, i);
    MagicValue(s, i);
    ShortFits(m.sender);
    ShortFits(m.sequence);
    ShortFits(m.length);
    LongFits(m.rxTime);
    GetPut(m.sender, 2, s, i + 4);
    GetPut(m.sequence, 2, s, i + 6);
    GetPut(m.length, 2, s, i + 8);
    GetPut(m.rxTime, 8, s, i + 10);
    LengthIsDecoded(s, i);
  }

  /** Every meta that starts with the magic is one that was sent. */
  lemma EncodeDecode(s: seq<byte>, i: nat)
    requires i + META <= |s| && MagicAt(s, i)
    ensures InRange(DecodeMeta(s, i)) && EncodeMeta(DecodeMeta(s, i)) == s[i..i + META]
  {
    hide Le, PutLe, Fits;
    var m := DecodeMeta(s, i);
    MagicValue(s, i);
    PutGet(s, i + 4, 2);
    PutGet(s, i + 6, 2);
    PutGet(s, i + 8, 2);
    PutGet(s, i + 10, 8);
    ShortFits(m.sender);
    ShortFits(m.sequence);
    ShortFits(m.length);
    LongFits(m.rxTime);
    assert s[i..i + META] ==
      s[i..i + 4] + s[i + 4..i + 6] + s[i + 6..i + 8] + s[i + 8..i + 10] + s[i + 10..i + 18];
    assert s[i..i + 4] == [0xBB, 0xBB, 0, 0];
  }

  // ------------------------------------------------------- records in a file

  /** A record as it is sent. */
  datatype Sent = Sent(meta: Meta, payload: seq<byte>)

  predicate Sendable(r: Sent, max: nat) {
    InRange(r.meta) && r.meta.length == |r.payload| <= max
  }

  function EncodeRecord(r: Sent): seq<byte> {
    EncodeMeta(r.meta) + r.payload
  }

  function EncodeAll(records: seq<Sent>): (frames: seq<seq<byte>>)
    ensures |frames| == |records|
  {
    seq(|records|, i requires 0 <= i < |records| => EncodeRecord(records[i]))
  }

  lemma EncodedIsFrame(r: Sent, max: nat)
    requires Sendable(r, max)
    ensures var f := EncodeRecord(r); IsFrame(f, max) && DecodeMeta(f, 0) == r.meta && f[META..] == r.payload
  {
    hide EncodeMeta, DecodeMeta;
    DecodeEncode(r.meta, EncodeRecord(r), 0);
  }

  lemma AllFrames(records: seq<Sent>, max: nat)
    requires forall r :: r in records ==> Sendable(r, max)
    ensures forall f :: f in EncodeAll(records) ==> IsFrame(f, max)
  {
    hide IsFrame, Sendable, EncodeRecord;
    forall f | f in EncodeAll(records) ensures IsFrame(f, max) {
      var i :| 0 <= i < |records| && EncodeAll(records)[i] == f;
      EncodedIsFrame(records[i], max);
    }
  }

  lemma ReadAs(data: seq<byte>, offset: nat, sent: Sent, max: nat, r: Record)
    requires Sendable(sent, max) && Holds(data, offset, EncodeRecord(sent), r)
    ensures r.meta == sent.meta && r.payload == sent.payload && r.offset == offset
  {
    hide Sendable, EncodeRecord, DecodeMeta;
    EncodedIsFrame(sent, max);
  }

  lemma ArrivalIs(data: seq<byte>, max: nat, i: nat)
    requires i < |Parse(data, max, 0, 0, {}).records|
    ensures Parse(data, max, 0, 0, {}).records[i].arrival == i
  {
    hide Parse;
    ParseIsSound(data, max, 0, 0, {});
  }

  /** What is sent, payload and all, is what parse_binary reads, each field in its
      place; what else the file holds comes after. */
  lemma RecordsReadBack(records: seq<Sent>, tail: seq<byte>, max: nat)
    requires forall r :: r in records ==> Sendable(r, max)
    ensures var p := Parse(Concat(EncodeAll(records)) + tail, max, 0, 0, {});
      && |records| <= |p.records| && (tail == [] ==> |records| == |p.records|)
      && (forall i :: 0 <= i < |records| ==>
            && p.records[i].meta == records[i].meta && p.records[i].payload == records[i].payload
            && p.records[i].arrival == i && p.records[i].offset == |Concat(EncodeAll(records)[..i])|)
  {
    hide Parse, EncodeRecord, IsFrame, Sendable, Holds, Concat;
    var frames := EncodeAll(records);
    var data := Concat(frames) + tail;
    AllFrames(records, max);
    assert [] + Concat(frames) + tail == data;
    FramesParseBack([], frames, tail, max, 0, {});
    var p := Parse(data, max, 0, 0, {});
    forall i | 0 <= i < |records|
      ensures p.records[i].meta == records[i].meta && p.records[i].payload == records[i].payload
      ensures p.records[i].arrival == i && p.records[i].offset == |Concat(EncodeAll(records)[..i])|
    {
      ReadAs(data, 0 + |Concat(frames[..i])|, records[i], max, p.records[i]);
      ArrivalIs(data, max, i);
    }
  }

  /** A record is reported as a duplicate of another exactly if the two are the same
      bytes. */
  lemma SameIdentity(data: seq<byte>, max: nat, a: nat, b: nat, i: nat, j: nat)
    requires RecordAt(data, max, a) && RecordAt(data, max, b)
    ensures IdentityOf(MakeRecord(data, i, a)) == IdentityOf(MakeRecord(data, j, b))
        <==> data[a..EndOf(data, a)] == data[b..EndOf(data, b)]
  {
    hide EncodeMeta, LengthAt, MagicAt;
    EncodeDecode(data, a);
    EncodeDecode(data, b);
    LengthIsDecoded(data, a);
    LengthIsDecoded(data, b);
    var (f, g) := (data[a..EndOf(data, a)], data[b..EndOf(data, b)]);
    assert f == data[a..a + META] + data[a + META..EndOf(data, a)];
    assert g == data[b..b + META] + data[b + META..EndOf(data, b)];
    if f == g {
      assert data[a..a + META] == f[..META] && data[b..b + META] == g[..META];
      assert data[a + META..EndOf(data, a)] == f[META..] && data[b + META..EndOf(data, b)] == g[META..];
      DecodeEncode(DecodeMeta(data, a), data, b);
    }
  }
}
