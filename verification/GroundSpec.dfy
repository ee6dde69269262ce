/**
  What ground_control_windows.c writes to its file, as a function of the stream;
  and its agreement with sniffer_capture although its search window still holds
  old bytes after an over-long meta.
*/
module GroundSpec {
  import opened Wire
  import opened CaptureSpec

  const MAX_TRANSFER_SIZE: nat := 256

  /** Whole records, then what was written of an unfinished one. */
  datatype Ground = Ground(frames: seq<seq<byte>>, partial: seq<byte>)

  /** read_next_meta with four bytes already in its window. */
  function FromWindow(w: seq<byte>, s: seq<byte>, failed: bool): Ground
    requires |w| == 4
    decreases |s|, 0
  {
    if MagicAt(w, 0) then
      if |s| < META - 4 then Ground([], [])
      else if LengthAt(w + s[..META - 4], 0) <= MAX_MESSAGE_SIZE then FromMeta(w + s[..META - 4], s[META - 4..], failed)
      else if |s| == META - 4 then Ground([], [])
      else FromWindow(w[1..] + [s[META - 4]], s[META - 3..], failed)
    else if s == [] then Ground([], [])
    else FromWindow(w[1..] + [s[0]], s[1..], failed)
  }

  /** The payload loop after a meta has been written.  A failed transfer loses the
      piece being read; a stop does not. */
  function FromMeta(meta: seq<byte>, s: seq<byte>, failed: bool): Ground
    requires |meta| == META
    decreases |s|, 1
  {
    var n := LengthAt(meta, 0);
    if |s| < n then
      Ground([], meta + if failed then s[..|s| - |s| % MAX_TRANSFER_SIZE] else s)
    else if |s| < n + 4 then Ground([meta + s[..n]], [])
    else
      var g := FromWindow(s[n..n + 4], s[n + 4..], failed);
      Ground([meta + s[..n]] + g.frames, g.partial)
  }

  /** store_sniffer_binary_data on the stream s, which ended by a failed transfer
      or by a stop. */
  function Store(s: seq<byte>, failed: bool): Ground {
    if |s| < 4 then Ground([], []) else FromWindow(s[..4], s[4..], failed)
  }

  // ------------------------------------------------------- the stale window

  /** A window that is no magic is the same as starting one byte later. */
  lemma SlideOne(s: seq<byte>, failed: bool)
    requires !MagicAt(s, 0)
    ensures Store(s, failed) == if s == [] then Ground([], []) else Store(s[1..], failed)
  {
    if 4 < |s| {
      assert s[..4][1..] + [s[4..][0]] == s[1..][..4];
      assert s[4..][1..] == s[1..][4..];
    }
  }

  /** After an over-long meta the window holds BB 00 00 and one new byte; no mix
      of old and new bytes can look like the magic. */
  lemma StaleWindow(w: seq<byte>, s: seq<byte>, failed: bool)
    requires |w| == 4 && w[0] == 0xBB && w[1] == 0 && w[2] == 0
    ensures FromWindow(w, s, failed) == Store(w[3..] + s, failed)
  {
    var t := w + s;
    assert t[..4] == w && t[4..] == s;
    SlideOne(t, failed);
    SlideOne(t[1..], failed);
    SlideOne(t[1..][1..], failed);
    assert t[1..][1..][1..] == w[3..] + s;
  }

  /** Store unfolded at a meta. */
  lemma StoreAtMeta(s: seq<byte>, failed: bool)
    requires META <= |s| && MagicAt(s, 0)
    ensures LengthAt(s, 0) <= MAX_MESSAGE_SIZE ==> Store(s, failed) == FromMeta(s[..META], s[META..], failed)
    ensures LengthAt(s, 0) > MAX_MESSAGE_SIZE ==> Store(s, failed) == Store(s[META..], failed)
  {
    var w, t := s[..4], s[4..];
    assert w + t[..META - 4] == s[..META] && t[META - 4..] == s[META..];
    if LengthAt(s, 0) > MAX_MESSAGE_SIZE && META < |s| {
      var w' := w[1..] + [t[META - 4]];
      StaleWindow(w', t[META - 3..], failed);
      assert w'[3..] + t[META - 3..] == s[META..];
    }
  }

  lemma StoreAfterPayload(meta: seq<byte>, s: seq<byte>, failed: bool)
    requires |meta| == META && LengthAt(meta, 0) <= |s|
    ensures var n := LengthAt(meta, 0);
            FromMeta(meta, s, failed) ==
              Ground([meta + s[..n]] + Store(s[n..], failed).frames, Store(s[n..], failed).partial)
  {
    var n := LengthAt(meta, 0);
    var r := s[n..];
    if |r| < 4 {
      assert [meta + s[..n]] + [] == [meta + s[..n]];
    } else {
      assert r[..4] == s[n..n + 4] && r[4..] == s[n + 4..];
    }
  }

  // ------------------------------------------------- agreement with capture

  lemma {:induction false} StoreSkips(s: seq<byte>, k: nat, failed: bool)
    requires k <= |s| && forall i: nat :: i < k ==> !MagicAt(s, i)
    ensures Store(s, failed) == Store(s[k..], failed)
    decreases k
  {
    if k == 0 {
      assert s[0..] == s;
    } else {
      assert !MagicAt(s, 0);
      SlideOne(s, failed);
      var c := s[1..];
      forall i: nat | i < k - 1 ensures !MagicAt(c, i) {
        assert !MagicAt(s, i + 1);
      }
      StoreSkips(c, k - 1, failed);
      assert c[k - 1..] == s[k..];
    }
  }

  /** At most the meta and part of the payload of one record: whole 256-byte
      pieces if a transfer failed. */
  predicate OnePartial(p: seq<byte>, failed: bool) {
    p == [] || (META <= |p| && MagicAt(p, 0) && LengthAt(p, 0) <= MAX_MESSAGE_SIZE && |p| < META + LengthAt(p, 0)
                && (failed ==> (|p| - META) % MAX_TRANSFER_SIZE == 0))
  }

  /** Without a whole meta nothing is written. */
  lemma StoreNothing(s: seq<byte>, failed: bool)
    requires !MetaReady(s)
    ensures Store(s, failed) == Ground([], []) && OnePartial([], failed)
  {
    var k := FindMagic(s, 0);
    StoreSkips(s, if k == -1 then |s| else k, failed);
  }

  /** On every stream the two programs keep the same records; ground_control's
      file holds at most one unfinished record more. */
  lemma {:induction false} GroundAgreesWithCapture(o: Options, st: Stats, s: seq<byte>, end: End, failed: bool)
    requires o.maxPayload == MAX_MESSAGE_SIZE && o.maxRecords == 0
    ensures Store(s, failed).frames == Capture(o, st, s, end).frames
    ensures OnePartial(Store(s, failed).partial, failed)
    decreases |s|
  {
    hide Store, FromMeta, FromWindow, FindMagic, OnePartial, LengthAt, Capture;
    CaptureSkips(o, st, s, end);
    if !MetaReady(s) {
      StoreNothing(s, failed);
    } else {
      var k := FindMagic(s, 0);
      var n := LengthAt(s, k);
      StoreAtRecord(s, k, failed);
      if n > MAX_MESSAGE_SIZE {
        GroundAgreesWithCapture(o, Overlong(st, k), s[k + META..], end, failed);
      } else if |s| < k + META + n {
        GroundPartial(s, k, failed);
      } else {
        var rest := s[k + META + n..];
        GroundRecord(s, k, failed);
        CaptureStep(o, st, s, k, s[k..k + META + n], rest, end);
        GroundAgreesWithCapture(o, Kept(st, k, n), rest, end, failed);
      }
    }
  }

  /** The frames of a capture whose stream does not start with a whole record. */
  lemma CaptureSkips(o: Options, st: Stats, s: seq<byte>, end: End)
    requires o.maxPayload == MAX_MESSAGE_SIZE && o.maxRecords == 0
    ensures var k, r := FindMagic(s, 0), Capture(o, st, s, end).frames;
      if !MetaReady(s) then r == []
      else if LengthAt(s, k) > MAX_MESSAGE_SIZE then r == Capture(o, Overlong(st, k), s[k + META..], end).frames
      else |s| < k + META + LengthAt(s, k) ==> r == []
  {
    hide FindMagic, LengthAt, Kept, Overlong, NoMeta, CutShort;
  }

  /** Store unfolded at the first meta. */
  lemma StoreAtRecord(s: seq<byte>, k: nat, failed: bool)
    requires MetaReady(s) && k == FindMagic(s, 0)
    ensures LengthAt(s, k) <= MAX_MESSAGE_SIZE ==> Store(s, failed) == FromMeta(s[k..][..META], s[k..][META..], failed)
    ensures LengthAt(s, k) > MAX_MESSAGE_SIZE ==> Store(s, failed) == Store(s[k + META..], failed)
  {
    hide FromMeta, FromWindow, Store;
    StoreSkips(s, k, failed);
    var t := s[k..];
    assert MagicAt(t, 0) && LengthAt(t, 0) == LengthAt(s, k);
    StoreAtMeta(t, failed);
    assert t[META..] == s[k + META..];
  }

  lemma GroundPartial(s: seq<byte>, k: nat, failed: bool)
    requires k + META <= |s| < k + META + LengthAt(s, k) && MagicAt(s, k) && LengthAt(s, k) <= MAX_MESSAGE_SIZE
    ensures var g := FromMeta(s[k..][..META], s[k..][META..], failed);
            g.frames == [] && OnePartial(g.partial, failed)
  {
    var meta := s[k..][..META];
    assert LengthAt(meta, 0) == LengthAt(s, k) && MagicAt(meta, 0);
  }

  lemma GroundRecord(s: seq<byte>, k: nat, failed: bool)
    requires k + META <= |s| && k + META + LengthAt(s, k) <= |s|
    ensures var n := LengthAt(s, k);
            var rest := Store(s[k + META + n..], failed);
            FromMeta(s[k..][..META], s[k..][META..], failed) == Ground([s[k..k + META + n]] + rest.frames, rest.partial)
  {
    hide FromMeta, FromWindow, Store;
    var n := LengthAt(s, k);
    var meta, body := s[k..][..META], s[k..][META..];
    assert LengthAt(meta, 0) == n;
    StoreAfterPayload(meta, body, failed);
    assert meta + body[..n] == s[k..k + META + n] && body[n..] == s[k + META + n..];
  }
}
