/**
  Resynchronization compared: after an over-long meta the capture resumes 18 bytes
  later, twoway 1 byte later.  Exactly when do they accept the same records?
*/
module Resync {
  import opened Wire
  import CS = CaptureSpec
  import GS = GroundSpec
  import opened Analyzer
  import TS = TwowaySpec

  // ------------------------------------------------------ where records are

  /** Where the capture, from `at` on, accepts records. */
  function CapturePlaces(data: seq<byte>, at: nat): (places: seq<nat>)
    decreases |data| - at
  {
    var k := FindMagic(data, at);
    if k == -1 || k + META > |data| then []
    else if LengthAt(data, k) > MAX_MESSAGE_SIZE then CapturePlaces(data, k + META)
    else if EndOf(data, k) > |data| then []
    else [k] + CapturePlaces(data, EndOf(data, k))
  }

  /** Where twoway does. */
  function DrainPlaces(data: seq<byte>, at: nat): (places: seq<nat>)
    decreases |data| - at
  {
    var k := FindMagic(data, at);
    if k == -1 || k + META > |data| then []
    else if LengthAt(data, k) > MAX_MESSAGE_SIZE then DrainPlaces(data, k + 1)
    else if EndOf(data, k) > |data| then []
    else [k] + DrainPlaces(data, EndOf(data, k))
  }

  function FrameFrom(data: seq<byte>, p: nat): seq<byte> {
    if p + META <= |data| && EndOf(data, p) <= |data| then data[p..EndOf(data, p)] else []
  }

  /** The records at these places. */
  function FramesAt(data: seq<byte>, places: seq<nat>): (frames: seq<seq<byte>>)
    ensures |frames| == |places|
  {
    seq(|places|, i requires 0 <= i < |places| => FrameFrom(data, places[i]))
  }

  lemma FramesCons(data: seq<byte>, k: nat, places: seq<nat>)
    ensures FramesAt(data, [k] + places) == [FrameFrom(data, k)] + FramesAt(data, places)
  {
    hide FrameFrom;
    assert ([k] + places)[1..] == places;
  }

  /** Both, unfolded in terms of the tail they look at. */
  lemma PlacesOfTail(data: seq<byte>, at: nat)
    requires at <= |data|
    ensures var s := data[at..];
      var k := FindMagic(s, 0);
      if !CS.MetaReady(s) then CapturePlaces(data, at) == [] == DrainPlaces(data, at)
      else
        var n := LengthAt(s, k);
        if n > MAX_MESSAGE_SIZE then
          CapturePlaces(data, at) == CapturePlaces(data, at + k + META)
            && DrainPlaces(data, at) == DrainPlaces(data, at + k + 1)
        else if |s| < k + META + n then
          CapturePlaces(data, at) == [] == DrainPlaces(data, at)
        else
          var next := at + k + META + n;
          && CapturePlaces(data, at) == [at + k] + CapturePlaces(data, next)
          && DrainPlaces(data, at) == [at + k] + DrainPlaces(data, next)
          && FrameFrom(data, at + k) == s[k..k + META + n] && s[k + META + n..] == data[next..]
  {
    hide FindMagic, LengthAt, CapturePlaces, DrainPlaces, FrameFrom;
    var s := data[at..];
    var k := FindMagic(s, 0);
    FindMagicSuffix(data, at);
    CapturePlacesAre(data, at);
    DrainPlacesAre(data, at);
    if CS.MetaReady(s) {
      SameLength(data, at, k);
      if k + META + LengthAt(s, k) <= |s| {
        TailOfTail(data, at, k, META + LengthAt(s, k));
        FrameIs(data, at + k);
      }
    }
  }

  lemma CapturePlacesAre(data: seq<byte>, at: nat)
    ensures var k := FindMagic(data, at);
      CapturePlaces(data, at) ==
        if k == -1 || k + META > |data| then []
        else if LengthAt(data, k) > MAX_MESSAGE_SIZE then CapturePlaces(data, k + META)
        else if k + META + LengthAt(data, k) > |data| then []
        else [k] + CapturePlaces(data, k + META + LengthAt(data, k))
  {
    hide FindMagic, LengthAt;
  }

  lemma DrainPlacesAre(data: seq<byte>, at: nat)
    ensures var k := FindMagic(data, at);
      DrainPlaces(data, at) ==
        if k == -1 || k + META > |data| then []
        else if LengthAt(data, k) > MAX_MESSAGE_SIZE then DrainPlaces(data, k + 1)
        else if k + META + LengthAt(data, k) > |data| then []
        else [k] + DrainPlaces(data, k + META + LengthAt(data, k))
  {
    hide FindMagic, LengthAt;
  }

  lemma FrameIs(data: seq<byte>, p: nat)
    requires p + META <= |data| && p + META + LengthAt(data, p) <= |data|
    ensures FrameFrom(data, p) == data[p..p + META + LengthAt(data, p)]
  {
  }

  lemma TailOfTail(data: seq<byte>, at: nat, k: nat, n: nat)
    requires at + k + n <= |data|
    ensures data[at..][k..k + n] == data[at + k..at + k + n] && data[at..][k + n..] == data[at + k + n..]
  {
  }

  lemma {:induction false} CaptureFrames(o: CS.Options, st: CS.Stats, data: seq<byte>, at: nat, end: CS.End)
    requires at <= |data| && o.maxPayload == MAX_MESSAGE_SIZE && o.maxRecords == 0
    ensures CS.Capture(o, st, data[at..], end).frames == FramesAt(data, CapturePlaces(data, at))
    decreases |data| - at
  {
    hide FindMagic, LengthAt, CS.Capture, CS.Kept, CS.Overlong, FramesAt, FrameFrom, CapturePlaces, DrainPlaces;
    var s := data[at..];
    PlacesOfTail(data, at);
    GS.CaptureSkips(o, st, s, end);
    NoFrames(data);
    if CS.MetaReady(s) {
      var k := FindMagic(s, 0);
      var n := LengthAt(s, k);
      if n > MAX_MESSAGE_SIZE {
        CaptureFrames(o, CS.Overlong(st, k), data, at + k + META, end);
        assert s[k + META..] == data[at + k + META..];
      } else if k + META + n <= |s| {
        CS.CaptureStep(o, st, s, k, s[k..k + META + n], s[k + META + n..], end);
        CaptureFrames(o, CS.Kept(st, k, n), data, at + k + META + n, end);
        FramesCons(data, at + k, CapturePlaces(data, at + k + META + n));
      }
    }
  }

  lemma NoFrames(data: seq<byte>)
    ensures FramesAt(data, []) == []
  {
  }

  lemma SameLength(data: seq<byte>, at: nat, k: nat)
    requires at + k + META <= |data|
    ensures LengthAt(data[at..], k) == LengthAt(data, at + k)
  {
  }

  lemma {:induction false} DrainFrames(data: seq<byte>, at: nat)
    requires at <= |data|
    ensures TS.Drain(data[at..]).frames == FramesAt(data, DrainPlaces(data, at))
    decreases |data| - at
  {
    hide FindMagic, LengthAt, TS.Drain, FramesAt, FrameFrom, CapturePlaces, DrainPlaces;
    var s := data[at..];
    PlacesOfTail(data, at);
    NoFrames(data);
    if !CS.MetaReady(s) {
      NothingDrains(s);
    } else {
      var k := FindMagic(s, 0);
      var n := LengthAt(s, k);
      DrainsAtMeta(s, k);
      if n > MAX_MESSAGE_SIZE {
        DrainFrames(data, at + k + 1);
        assert s[k + 1..] == data[at + k + 1..];
      } else if k + META + n <= |s| {
        DrainFrames(data, at + k + META + n);
        FramesCons(data, at + k, DrainPlaces(data, at + k + META + n));
      }
    }
  }

  lemma NothingDrains(s: seq<byte>)
    requires !CS.MetaReady(s)
    ensures TS.Drain(s).frames == []
  {
    var k := FindMagic(s, 0);
    if k == -1 {
      if 4 <= |s| {
        TS.DrainSkips(s, |s| - 3);
      }
    } else {
      TS.DrainSkips(s, k);
    }
  }

  lemma DrainsAtMeta(s: seq<byte>, k: nat)
    requires CS.MetaReady(s) && k == FindMagic(s, 0)
    ensures var n := LengthAt(s, k);
      TS.Drain(s).frames ==
        if n > MAX_MESSAGE_SIZE then TS.Drain(s[k + 1..]).frames
        else if |s| < k + META + n then []
        else [s[k..k + META + n]] + TS.Drain(s[k + META + n..]).frames
  {
    hide TS.Drain, FindMagic;
    DrainsToMagic(s, k);
    if LengthAt(s, k) > MAX_MESSAGE_SIZE {
      DrainsOverlong(s, k);
    } else if k + META + LengthAt(s, k) <= |s| {
      TS.DrainRecord(s, k);
    } else {
      DrainsShort(s, k);
    }
  }

  lemma DrainsToMagic(s: seq<byte>, k: nat)
    requires k + 4 <= |s| && k == FindMagic(s, 0)
    ensures TS.Drain(s) == TS.Drain(s[k..]) && MagicAt(s, k)
  {
    hide TS.Drain;
    TS.DrainSkips(s, k);
  }

  lemma DrainsOverlong(s: seq<byte>, k: nat)
    requires k + META <= |s| && MagicAt(s, k) && LengthAt(s, k) > MAX_MESSAGE_SIZE
    ensures TS.Drain(s[k..]) == TS.Drain(s[k + 1..])
  {
    var t := s[k..];
    assert MagicAt(t, 0) && LengthAt(t, 0) == LengthAt(s, k) && t[1..] == s[k + 1..];
  }

  lemma DrainsShort(s: seq<byte>, k: nat)
    requires k + META <= |s| < k + META + LengthAt(s, k) && MagicAt(s, k) && LengthAt(s, k) <= MAX_MESSAGE_SIZE
    ensures TS.Drain(s[k..]).frames == []
  {
    var t := s[k..];
    assert MagicAt(t, 0) && LengthAt(t, 0) == LengthAt(s, k);
  }

  // -------------------------------------------------- the exact condition

  /** A whole meta of an allowed length starts at i. */
  predicate AllowedAt(data: seq<byte>, i: nat) {
    i + META <= |data| && MagicAt(data, i) && LengthAt(data, i) <= MAX_MESSAGE_SIZE
  }

  /** The first such meta in from..upto-1, or -1. */
  function FirstAllowed(data: seq<byte>, from: nat, upto: nat): (i: int)
    ensures i == -1 || (from <= i < upto && AllowedAt(data, i))
    ensures forall j: nat :: from <= j < (if i == -1 then upto else i) ==> !AllowedAt(data, j)
    decreases upto - from
  {
    if upto <= from then -1 else if AllowedAt(data, from) then from else FirstAllowed(data, from + 1, upto)
  }

  /** Reading the bytes from `at` on record by record: no over-long meta on the way
      hides, in its bytes 1 to 17, the start of a meta of an allowed length; unless
      the hidden one is cut off by the end of the stream, and the next one on the
      capture's way is so too, or there is none. */
  predicate NoneHidden(data: seq<byte>, at: nat)
    decreases |data| - at
  {
    var k := FindMagic(data, at);
    if k == -1 || k + META > |data| then true
    else if LengthAt(data, k) <= MAX_MESSAGE_SIZE then EndOf(data, k) > |data| || NoneHidden(data, EndOf(data, k))
    else
      var i := FirstAllowed(data, k + 1, k + META);
      if i == -1 then NoneHidden(data, k + META)
      else
        var p := NextOnStride(data, k + META);
        EndOf(data, i) > |data| && (p == -1 || EndOf(data, p) > |data|)
  }

  /** The first meta of an allowed length if the walk from `at` on resumes 18 bytes
      after each over-long one, or -1. */
  function NextOnStride(data: seq<byte>, at: nat): (p: int)
    ensures p == -1 || (at <= p && AllowedAt(data, p))
    decreases |data| - at
  {
    var k := FindMagic(data, at);
    if k == -1 || k + META > |data| then -1
    else if LengthAt(data, k) <= MAX_MESSAGE_SIZE then k
    else NextOnStride(data, k + META)
  }

  lemma {:induction false} NoneOnStride(data: seq<byte>, at: nat)
    ensures var p := NextOnStride(data, at); CapturePlaces(data, at) == [] <==> p == -1 || EndOf(data, p) > |data|
    decreases |data| - at
  {
    hide FindMagic, LengthAt;
    var k := FindMagic(data, at);
    if k != -1 && k + META <= |data| && LengthAt(data, k) > MAX_MESSAGE_SIZE {
      NoneOnStride(data, k + META);
    }
  }

  /** Over a stretch in which no allowed meta starts twoway goes without stopping. */
  lemma {:induction false} DrainPasses(data: seq<byte>, a: nat, b: nat)
    requires a <= b && forall i: nat :: a <= i < b ==> !AllowedAt(data, i)
    ensures DrainPlaces(data, a) == DrainPlaces(data, b)
    decreases b - a
  {
    if a < b {
      DrainPasses(data, a + 1, b);
      DrainOne(data, a);
    }
  }

  lemma DrainOne(data: seq<byte>, a: nat)
    requires !AllowedAt(data, a)
    ensures DrainPlaces(data, a) == DrainPlaces(data, a + 1)
  {
    var k, m := FindMagic(data, a), FindMagic(data, a + 1);
    if MagicAt(data, a) {
      assert k == a;
    } else {
      assert k == m;
    }
  }

  lemma {:induction false} PlacesFrom(data: seq<byte>, at: nat)
    ensures forall p :: p in CapturePlaces(data, at) ==> at <= p
    decreases |data| - at
  {
    hide LengthAt;
    var k := FindMagic(data, at);
    if k != -1 && k + META <= |data| {
      if LengthAt(data, k) > MAX_MESSAGE_SIZE {
        PlacesFrom(data, k + META);
      } else if EndOf(data, k) <= |data| {
        PlacesFrom(data, EndOf(data, k));
      }
    }
  }

  /** The two programs accept records at the same places if and only if no
      over-long meta on the way hides one. */
  lemma {:induction false} SamePlacesExactly(data: seq<byte>, at: nat)
    ensures DrainPlaces(data, at) == CapturePlaces(data, at) <==> NoneHidden(data, at)
    decreases |data| - at
  {
    hide FindMagic, LengthAt;
    var k := FindMagic(data, at);
    if k != -1 && k + META <= |data| {
      if LengthAt(data, k) <= MAX_MESSAGE_SIZE {
        if EndOf(data, k) <= |data| {
          SamePlacesExactly(data, EndOf(data, k));
          ConsEqual(k, DrainPlaces(data, EndOf(data, k)), CapturePlaces(data, EndOf(data, k)));
        }
      } else {
        var i := FirstAllowed(data, k + 1, k + META);
        DrainPasses(data, k + 1, if i == -1 then k + META else i);
        if i == -1 {
          SamePlacesExactly(data, k + META);
        } else {
          DrainsHidden(data, i);
          PlacesFrom(data, k + META);
          NoneOnStride(data, k + META);
          var kept := CapturePlaces(data, k + META);
          assert kept != [] ==> kept[0] in kept && kept[0] != i;
        }
      }
    }
  }

  lemma ConsEqual(k: nat, a: seq<nat>, b: seq<nat>)
    ensures [k] + a == [k] + b <==> a == b
  {
    assert ([k] + a)[1..] == a && ([k] + b)[1..] == b;
  }

  lemma DrainsHidden(data: seq<byte>, i: nat)
    requires AllowedAt(data, i)
    ensures
      if EndOf(data, i) > |data| then DrainPlaces(data, i) == []
      else DrainPlaces(data, i) != [] && DrainPlaces(data, i)[0] == i
  {
    assert FindMagic(data, i) == i;
  }

  /** Capture and twoway write the same records of every stream in which no
      over-long meta hides another. */
  lemma OnlyHiddenSeparates(o: CS.Options, st: CS.Stats, data: seq<byte>, end: CS.End)
    requires o.maxPayload == MAX_MESSAGE_SIZE && o.maxRecords == 0 && NoneHidden(data, 0)
    ensures TS.Drain(data).frames == CS.Capture(o, st, data, end).frames
  {
    hide NoneHidden, CapturePlaces, DrainPlaces, FramesAt, TS.Drain, CS.Capture;
    assert data[0..] == data;
    SamePlacesExactly(data, 0);
    CaptureFrames(o, st, data, 0, end);
    DrainFrames(data, 0);
  }

  /** A stream with a hidden one: the timestamp of an over-long meta holds a record
      that only twoway can see. */
  lemma OverlongSeparates() returns (s: seq<byte>)
    ensures CS.Capture(CS.Options(MAX_MESSAGE_SIZE, 0, false), CS.ZERO, s, CS.Eof(0)).frames == []
    ensures |s| == 28 && TS.Drain(s).frames == [s[10..]]
  {
    hide CS.Capture, TS.Drain, FindMagic, FramesAt, CapturePlaces, DrainPlaces;
    s := [0xBB, 0xBB, 0, 0, 0, 0, 0, 0, 0xFF, 0xFF, 0xBB, 0xBB, 0, 0, 0, 0, 0, 0, 0, 0, 0, 0, 0, 0, 0, 0, 0, 0];
    ExamplePlaces(s);
    ExampleFrames(s);
  }

  lemma ExampleFrames(s: seq<byte>)
    requires |s| == 28 && LengthAt(s, 10) == 0 && CapturePlaces(s, 0) == [] && DrainPlaces(s, 0) == [10]
    ensures CS.Capture(CS.Options(MAX_MESSAGE_SIZE, 0, false), CS.ZERO, s, CS.Eof(0)).frames == []
    ensures TS.Drain(s).frames == [s[10..]]
  {
    hide CS.Capture, TS.Drain, FramesAt, CapturePlaces, DrainPlaces;
    assert s[0..] == s && s[10..28] == s[10..] && [10] + [] == [10];
    CaptureFrames(CS.Options(MAX_MESSAGE_SIZE, 0, false), CS.ZERO, s, 0, CS.Eof(0));
    DrainFrames(s, 0);
    NoFrames(s);
    FramesCons(s, 10, []);
  }

  lemma ExamplePlaces(s: seq<byte>)
    requires |s| == 28 && MagicAt(s, 0) && LengthAt(s, 0) > MAX_MESSAGE_SIZE && MagicAt(s, 10) && LengthAt(s, 10) == 0
    requires forall i :: 1 <= i < 28 && i != 10 ==> !MagicAt(s, i)
    ensures CapturePlaces(s, 0) == [] && DrainPlaces(s, 0) == [10]
  {
    hide LengthAt, MagicAt;
    assert FindMagic(s, 0) == 0 && FindMagic(s, 1) == 10;
    assert CapturePlaces(s, 18) == [] && DrainPlaces(s, 28) == [];
    assert DrainPlaces(s, 1) == [10] + DrainPlaces(s, 28);
  }
}
