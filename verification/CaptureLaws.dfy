/**
  Further laws of the capture: what a record limit does, and what each counter
  counts.
*/
module CaptureLaws {
  import opened Wire
  import opened CaptureSpec

  // ------------------------------------------------------------ the limit

  function Unlimited(o: Options): Options { o.(maxRecords := 0) }

  /** With a limit the records are the first ones of those that are kept without it:
      as many as the limit leaves room for, or all if there are fewer. */
  lemma {:induction false} LimitIsPrefix(o: Options, st: Stats, s: seq<byte>, end: End)
    requires o.maxRecords != 0 && st.records <= o.maxRecords
    ensures var (r, all) := (Capture(o, st, s, end), Capture(Unlimited(o), st, s, end).frames);
      var room := o.maxRecords - st.records;
      && r.frames == all[..if room < |all| then room else |all|]
      && r.stats.records == st.records + |r.frames| <= o.maxRecords
    decreases |s|
  {
    hide FindMagic, LengthAt;
    if !AtLimit(o, st) && MetaReady(s) {
      var k := FindMagic(s, 0);
      var n := LengthAt(s, k);
      if n > o.maxPayload {
        LimitIsPrefix(o, Overlong(st, k), s[k + META..], end);
      } else if k + META + n <= |s| {
        LimitIsPrefix(o, Kept(st, k, n), s[k + META + n..], end);
      }
    }
  }

  /** Capture, unfolded once. */
  lemma Unfolded(o: Options, st: Stats, s: seq<byte>, end: End)
    ensures Capture(o, st, s, end) ==
      if AtLimit(o, st) then Outcome(st, [], true)
      else if !MetaReady(s) then Outcome(NoMeta(st, s, end), [], !end.Failed?)
      else
        var (k, n) := (FindMagic(s, 0), LengthAt(s, FindMagic(s, 0)));
        if n > o.maxPayload then Capture(o, Overlong(st, k), s[k + META..], end)
        else if |s| < k + META + n then Outcome(CutShort(st, k, |s| - k - META, end), [], !end.Failed?)
        else Prepend(s[k..k + META + n], Capture(o, Kept(st, k, n), s[k + META + n..], end))
  {
    hide FindMagic, LengthAt, NoMeta, CutShort, Overlong, Kept, AtLimit, Prepend;
  }

  /** What the limit says the outcome is: that of all bytes up to the record that
      reached it, and of a stop there. */
  ghost predicate StopsAt(o: Options, st: Stats, s: seq<byte>, end: End, cut: nat) {
    cut <= |s| && Capture(o, st, s, end) == Capture(Unlimited(o), st, s[..cut], Stopped(false))
  }

  /** Counters and all: the limit does nothing as long as it is not reached, and then
      it is a stop behind the last record. */
  lemma {:induction false} LimitIsStop(o: Options, st: Stats, s: seq<byte>, end: End) returns (cut: nat)
    requires o.maxRecords != 0 && st.records <= o.maxRecords
    ensures var all := Capture(Unlimited(o), st, s, end);
      if |all.frames| < o.maxRecords - st.records then Capture(o, st, s, end) == all else StopsAt(o, st, s, end, cut)
    decreases |s|
  {
    hide FindMagic, LengthAt, Kept, Overlong, NoMeta, CutShort, StopsAt, Capture;
    cut := 0;
    Unfolded(o, st, s, end);
    Unfolded(Unlimited(o), st, s, end);
    if AtLimit(o, st) {
      NothingStops(o, st, s, end);
    } else if MetaReady(s) {
      var k := FindMagic(s, 0);
      var n := LengthAt(s, k);
      RecordsAfter(st, k, n);
      if n > o.maxPayload {
        cut := LimitIsStop(o, Overlong(st, k), s[k + META..], end);
        if |Capture(Unlimited(o), st, s, end).frames| >= o.maxRecords - st.records {
          cut := StopsLater(o, st, s, end, META, cut);
        }
      } else if k + META + n <= |s| {
        cut := LimitIsStop(o, Kept(st, k, n), s[k + META + n..], end);
        if |Capture(Unlimited(o), st, s, end).frames| >= o.maxRecords - st.records {
          cut := StopsLater(o, st, s, end, META + n, cut);
        }
      }
    }
  }

  lemma RecordsAfter(st: Stats, k: nat, n: nat)
    ensures Overlong(st, k).records == st.records && Kept(st, k, n).records == st.records + 1
  {
  }

  /** The same cut, seen from before the first element. */
  lemma StopsLater(o: Options, st: Stats, s: seq<byte>, end: End, n: nat, cut: nat) returns (cut': nat)
    requires !AtLimit(o, st) && o.maxRecords != 0 && MetaReady(s)
    requires var k := FindMagic(s, 0);
      var m := LengthAt(s, k);
      if m > o.maxPayload then n == META && StopsAt(o, Overlong(st, k), s[k + META..], end, cut)
      else n == META + m && k + n <= |s| && StopsAt(o, Kept(st, k, m), s[k + META + m..], end, cut)
    ensures StopsAt(o, st, s, end, cut')
  {
    hide FindMagic, LengthAt, Kept, Overlong, NoMeta, CutShort, Capture;
    var k := FindMagic(s, 0);
    cut' := k + n + cut;
    CutBehind(s, k, n, cut);
    Unfolded(o, st, s, end);
    Unfolded(Unlimited(o), st, s[..cut'], Stopped(false));
  }

  /** Once the limit is reached, what follows does not matter. */
  lemma {:induction false} LimitIgnoresRest(o: Options, st: Stats, u: seq<byte>, v: seq<byte>, e: End, f: End)
    requires AtLimit(o, Capture(o, st, u, e).stats)
    ensures Capture(o, st, u + v, f) == Capture(o, st, u, e)
    decreases |u|
  {
    hide FindMagic, LengthAt, Kept, Overlong, NoMeta, CutShort, Capture;
    Unfolded(o, st, u, e);
    Unfolded(o, st, u + v, f);
    RecordsUnread(st, u, e);
    if !AtLimit(o, st) && MetaReady(u) {
      var k := FindMagic(u, 0);
      var n := LengthAt(u, k);
      RecordsAfter(st, k, n);
      FirstElement(u, v);
      RecordsCut(st, k, |u| - k - META, e);
      if n > o.maxPayload {
        LimitIgnoresRest(o, Overlong(st, k), u[k + META..], v, e, f);
      } else if k + META + n <= |u| {
        LimitIgnoresRest(o, Kept(st, k, n), u[k + META + n..], v, e, f);
      }
    }
  }

  lemma RecordsUnread(st: Stats, s: seq<byte>, end: End)
    ensures NoMeta(st, s, end).records == st.records
  {
  }

  lemma RecordsCut(st: Stats, k: nat, n: nat, end: End)
    ensures CutShort(st, k, n, end).records == st.records
  {
  }

  /** The first element of u is that of u + v. */
  lemma FirstElement(u: seq<byte>, v: seq<byte>)
    requires MetaReady(u)
    ensures var k := FindMagic(u, 0);
      && MetaReady(u + v) && FindMagic(u + v, 0) == k && LengthAt(u + v, k) == LengthAt(u, k)
      && (u + v)[k + META..] == u[k + META..] + v
      && var n := k + META + LengthAt(u, k);
         n <= |u| ==> (u + v)[k..n] == u[k..n] && (u + v)[n..] == u[n..] + v
  {
    FindMagicPrefix(u, v);
  }

  /** How the reading ended decides about success and the error counter, and about no
      other counter but those of cut-off elements. */
  lemma {:induction false} EndDecides(o: Options, st: Stats, s: seq<byte>, end: End)
    requires o.maxRecords == 0
    ensures var r := Capture(o, st, s, end);
      && r.ok == !end.Failed? && r.stats.transportErrors == st.transportErrors + (if end.Failed? then 1 else 0)
      && r.stats.writeFailures == st.writeFailures && r.stats.readTimeouts == st.readTimeouts
      && r.frames == Capture(o, st, s, Eof(0)).frames
    decreases |s|
  {
    hide FindMagic, LengthAt;
    if MetaReady(s) {
      var k := FindMagic(s, 0);
      var n := LengthAt(s, k);
      if n > o.maxPayload {
        EndDecides(o, Overlong(st, k), s[k + META..], end);
      } else if k + META + n <= |s| {
        EndDecides(o, Kept(st, k, n), s[k + META + n..], end);
      }
    }
  }

  lemma NothingStops(o: Options, st: Stats, s: seq<byte>, end: End)
    requires AtLimit(o, st)
    ensures StopsAt(o, st, s, end, 0)
  {
  }

  /** A stream cut behind its first element has that element too. */
  lemma CutBehind(s: seq<byte>, k: nat, n: nat, cut: nat)
    requires MetaReady(s) && k == FindMagic(s, 0) && META <= n && k + n + cut <= |s|
    ensures var t := s[..k + n + cut];
      && MetaReady(t) && FindMagic(t, 0) == k && LengthAt(t, k) == LengthAt(s, k)
      && t[k..k + n] == s[k..k + n] && t[k + n..] == s[k + n..][..cut]
      && t[k + META..] == s[k + META..][..n - META + cut]
  {
    var t := s[..k + n + cut];
    assert MagicAt(t, k);
    assert t + s[k + n + cut..] == s;
    FindMagicPrefix(t, s[k + n + cut..]);
  }

  // ---------------------------------------------------------- the counters

  /** A stream falls into junk, over-long metas, records, and the beginning of one
      that the end of the stream cuts short. */
  datatype Piece = Junk(bytes: seq<byte>) | TooLong(bytes: seq<byte>) | Whole(bytes: seq<byte>) | Cut(bytes: seq<byte>)

  function JunkOf(b: seq<byte>): seq<Piece> {
    if b == [] then [] else [Junk(b)]
  }

  function Pieces(max: nat, s: seq<byte>): (p: seq<Piece>)
    decreases |s|
  {
    var k := FindMagic(s, 0);
    if |s| < 4 then if s == [] then [] else [Cut(s)]
    else if k == -1 then [Junk(s)]
    else if |s| < k + META then JunkOf(s[..k]) + [Cut(s[k..])]
    else
      var end := k + META + LengthAt(s, k);
      if LengthAt(s, k) > max then JunkOf(s[..k]) + [TooLong(s[k..k + META])] + Pieces(max, s[k + META..])
      else if |s| < end then JunkOf(s[..k]) + [Cut(s[k..])]
      else JunkOf(s[..k]) + [Whole(s[k..end])] + Pieces(max, s[end..])
  }

  function BytesOf(p: seq<Piece>): seq<byte> {
    if p == [] then [] else p[0].bytes + BytesOf(p[1..])
  }

  lemma {:induction false} BytesAppend(a: seq<Piece>, b: seq<Piece>)
    ensures BytesOf(a + b) == BytesOf(a) + BytesOf(b)
  {
    if a == [] {
      assert a + b == b;
    } else {
      assert (a + b)[1..] == a[1..] + b;
      BytesAppend(a[1..], b);
    }
  }

  /** What each piece is. */
  ghost predicate Proper(max: nat, p: Piece) {
    match p
    case Junk(b) => b != [] && FindMagic(b, 0) == -1
    case TooLong(b) => |b| == META && MagicAt(b, 0) && LengthAt(b, 0) > max
    case Whole(b) => IsFrame(b, max)
    case Cut(b) =>
      && b != [] && (4 <= |b| ==> MagicAt(b, 0))
      && (META <= |b| ==> LengthAt(b, 0) <= max && |b| < META + LengthAt(b, 0))
  }

  lemma JunkIsProper(max: nat, s: seq<byte>, k: nat)
    requires k + 4 <= |s| && k == FindMagic(s, 0)
    ensures forall p :: p in JunkOf(s[..k]) ==> Proper(max, p)
    ensures BytesOf(JunkOf(s[..k])) == s[..k]
  {
    var b := s[..k];
    assert forall i: nat :: MagicAt(b, i) ==> MagicAt(s, i);
    assert BytesOf([Junk(b)]) == b + BytesOf([Junk(b)][1..]);
  }

  lemma OnePiece(p: Piece)
    ensures BytesOf([p]) == p.bytes
  {
    assert [p][1..] == [];
  }

  /** Every byte of the stream is in one piece, in order. */
  lemma {:induction false} PiecesAreStream(max: nat, s: seq<byte>)
    ensures BytesOf(Pieces(max, s)) == s && forall p :: p in Pieces(max, s) ==> Proper(max, p)
    decreases |s|
  {
    hide FindMagic, LengthAt, BytesOf, Proper;
    var k := FindMagic(s, 0);
    if |s| < 4 {
      if s == [] { NoPieces(); } else { ShortCut(max, s); OnePiece(Cut(s)); }
    } else if k == -1 {
      OnePiece(Junk(s));
      OnlyJunk(max, s);
    } else {
      JunkIsProper(max, s, k);
      var n := if |s| < k + META then |s| - k
        else if LengthAt(s, k) > max then META
        else if |s| < k + META + LengthAt(s, k) then |s| - k
        else META + LengthAt(s, k);
      var p := if |s| < k + META then Cut(s[k..])
        else if LengthAt(s, k) > max then TooLong(s[k..k + META])
        else if |s| < k + META + LengthAt(s, k) then Cut(s[k..])
        else Whole(s[k..k + n]);
      PieceIsProper(max, s, k, n, p);
      OnePiece(p);
      BytesAppend(JunkOf(s[..k]), [p]);
      assert s == s[..k] + s[k..k + n] + s[k + n..];
      if !p.Cut? {
        PiecesAreStream(max, s[k + n..]);
        BytesAppend(JunkOf(s[..k]) + [p], Pieces(max, s[k + n..]));
      }
    }
  }

  lemma NoPieces()
    ensures BytesOf([]) == []
  {
  }

  lemma ShortCut(max: nat, s: seq<byte>)
    requires 0 < |s| < 4
    ensures Proper(max, Cut(s))
  {
  }

  lemma OnlyJunk(max: nat, s: seq<byte>)
    requires 4 <= |s| && FindMagic(s, 0) == -1
    ensures Proper(max, Junk(s))
  {
  }

  lemma PieceIsProper(max: nat, s: seq<byte>, k: nat, n: nat, p: Piece)
    requires 4 <= n && k + n <= |s| && MagicAt(s, k)
    requires if |s| < k + META then n == |s| - k && p == Cut(s[k..])
             else if LengthAt(s, k) > max then n == META && p == TooLong(s[k..k + META])
             else if |s| < k + META + LengthAt(s, k) then n == |s| - k && p == Cut(s[k..])
             else n == META + LengthAt(s, k) && p == Whole(s[k..k + n])
    ensures Proper(max, p) && p.bytes == s[k..k + n]
  {
    var b := s[k..k + n];
    assert MagicAt(b, 0);
    assert META <= |b| ==> LengthAt(b, 0) == LengthAt(s, k);
  }

  /** How many pieces of each kind there are; `lost` are the bytes of the junk. */
  datatype Census = Census(junk: nat, lost: nat, tooLong: nat, whole: nat, kept: nat, metaCut: nat, payloadCut: nat)

  function Count(p: seq<Piece>): Census {
    if p == [] then Census(0, 0, 0, 0, 0, 0, 0)
    else
      var c := Count(p[1..]);
      match p[0]
      case Junk(b) => c.(junk := c.junk + 1, lost := c.lost + |b|)
      case TooLong(b) => c.(tooLong := c.tooLong + 1)
      case Whole(b) => c.(whole := c.whole + 1, kept := c.kept + |b|)
      case Cut(b) => if |b| < META then c.(metaCut := c.metaCut + 1) else c.(payloadCut := c.payloadCut + 1)
  }

  /** Each counter grows by the pieces it is named after; only the junk that another
      piece follows is resynchronized from. */
  ghost predicate Counts(st: Stats, r: Stats, p: seq<Piece>) {
    var c := Count(p);
    && r.records == st.records + c.whole && r.stored == st.stored + c.kept
    && r.received == st.received + |BytesOf(p)|
    && r.magicErrors == st.magicErrors + c.junk && r.discarded == st.discarded + c.lost
    && r.resyncs == st.resyncs + c.junk - (if p != [] && p[|p| - 1].Junk? then 1 else 0)
    && r.invalidLengths == st.invalidLengths + c.tooLong
    && r.truncatedMeta == st.truncatedMeta + c.metaCut && r.truncatedPayload == st.truncatedPayload + c.payloadCut
    && r.readTimeouts == st.readTimeouts && r.transportErrors == st.transportErrors
    && r.writeFailures == st.writeFailures
  }

  lemma CountsFirst(st: Stats, mid: Stats, r: Stats, k: nat, junk: seq<byte>, p: Piece, rest: seq<Piece>)
    requires k == |junk| && Counts(mid, r, rest)
    requires if p.TooLong? then |p.bytes| == META && mid == Overlong(st, k)
             else p.Whole? && META <= |p.bytes| && mid == Kept(st, k, |p.bytes| - META)
    ensures Counts(st, r, JunkOf(junk) + [p] + rest)
  {
    var all := JunkOf(junk) + [p] + rest;
    if junk == [] {
      assert all[1..] == rest;
    } else {
      assert all[1..] == [p] + rest && all[1..][1..] == rest;
    }
    assert rest != [] ==> all[|all| - 1] == rest[|rest| - 1];
  }

  lemma CensusLast(junk: seq<byte>, cut: seq<byte>)
    ensures var p := JunkOf(junk) + [Cut(cut)];
      && |BytesOf(p)| == |junk| + |cut| && !p[|p| - 1].Junk?
      && Count(p) == Census(if junk == [] then 0 else 1, |junk|, 0, 0, 0,
                            if |cut| < META then 1 else 0, if |cut| < META then 0 else 1)
  {
    var c := Cut(cut);
    assert [c][1..] == [] && BytesOf([]) == [] && BytesOf([c]) == c.bytes;
    assert Count([c]) == Census(0, 0, 0, 0, 0, if |cut| < META then 1 else 0, if |cut| < META then 0 else 1);
    if junk == [] {
      assert JunkOf(junk) + [c] == [c];
    } else {
      assert JunkOf(junk) + [c] == [Junk(junk), c] && [Junk(junk), c][1..] == [c];
    }
  }

  lemma MetaCut(st: Stats, s: seq<byte>, k: nat)
    requires k == FindMagic(s, 0) && k + 4 <= |s| && !MetaReady(s)
    ensures Counts(st, NoMeta(st, s, Eof(0)), JunkOf(s[..k]) + [Cut(s[k..])])
  {
    hide FindMagic, Count, BytesOf, JunkOf;
    CensusLast(s[..k], s[k..]);
  }

  lemma PayloadCut(st: Stats, s: seq<byte>, k: nat)
    requires k + META <= |s|
    ensures Counts(st, CutShort(st, k, |s| - k - META, Eof(0)), JunkOf(s[..k]) + [Cut(s[k..])])
  {
    hide Count, BytesOf, JunkOf;
    CensusLast(s[..k], s[k..]);
  }

  /** The counters of a capture that runs to EOF without a limit. */
  lemma {:induction false} CountersCount(o: Options, st: Stats, s: seq<byte>)
    requires o.maxRecords == 0
    ensures Counts(st, Capture(o, st, s, Eof(0)).stats, Pieces(o.maxPayload, s))
    decreases |s|
  {
    hide FindMagic, LengthAt, Counts, Overlong, Kept, CutShort, NoMeta;
    var k := FindMagic(s, 0);
    if |s| < 4 || k == -1 {
      CountsNothing(o, st, s);
    } else if !MetaReady(s) {
      MetaCut(st, s, k);
    } else {
      var n := LengthAt(s, k);
      if n > o.maxPayload {
        CountersCount(o, Overlong(st, k), s[k + META..]);
        CountsFirst(st, Overlong(st, k), Capture(o, st, s, Eof(0)).stats, k, s[..k], TooLong(s[k..k + META]),
                    Pieces(o.maxPayload, s[k + META..]));
      } else if |s| < k + META + n {
        PayloadCut(st, s, k);
      } else {
        CountersCount(o, Kept(st, k, n), s[k + META + n..]);
        CountsFirst(st, Kept(st, k, n), Capture(o, st, s, Eof(0)).stats, k, s[..k], Whole(s[k..k + META + n]),
                    Pieces(o.maxPayload, s[k + META + n..]));
      }
    }
  }

  lemma CountsNothing(o: Options, st: Stats, s: seq<byte>)
    requires o.maxRecords == 0 && (|s| < 4 || FindMagic(s, 0) == -1)
    ensures Counts(st, Capture(o, st, s, Eof(0)).stats, Pieces(o.maxPayload, s))
  {
    var p := Pieces(o.maxPayload, s);
    if p != [] {
      assert p[1..] == [];
    }
  }
}
