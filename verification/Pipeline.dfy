/**
  How the four readers of the wire format relate to each other.
*/
module Pipeline {
  import opened Wire
  import CS = CaptureSpec
  import GS = GroundSpec
  import opened Analyzer
  import TS = TwowaySpec
  import T = Twoway

  lemma FramesWithin(frames: seq<seq<byte>>, small: nat, max: nat)
    requires small <= max && forall f :: f in frames ==> IsFrame(f, small)
    ensures forall f :: f in frames ==> IsFrame(f, max)
  {
    forall f | f in frames ensures IsFrame(f, max) {
      assert IsFrame(f, small);
    }
  }

  /** Capture feeds the analyzer: from any stream, however corrupt, the file parses
      to its end without a framing diagnostic, into exactly the captured records. */
  lemma CaptureFeedsAnalyzer(o: CS.Options, s: seq<byte>, end: CS.End)
    requires o.maxPayload <= MAX_MESSAGE_SIZE
    ensures var frames := CS.Capture(o, CS.ZERO, s, end).frames;
            Clean(Concat(frames), 0, frames, Parse(Concat(frames), MAX_MESSAGE_SIZE, 0, 0, {}))
  {
    hide *;
    var frames := CS.Capture(o, CS.ZERO, s, end).frames;
    CS.FramesAreWhole(o, CS.ZERO, s, end);
    FramesWithin(frames, o.maxPayload, MAX_MESSAGE_SIZE);
    FramesParseBack([], frames, [], MAX_MESSAGE_SIZE, 0, {});
    assert [] + Concat(frames) + [] == Concat(frames);
  }

  /** So does ground_control, whose unfinished record at the end of the file can
      only add to what the analyzer reads before it. */
  lemma GroundFeedsAnalyzer(s: seq<byte>, failed: bool)
    ensures var g := GS.Store(s, failed);
            var file := Concat(g.frames) + g.partial;
            var p := Parse(file, MAX_MESSAGE_SIZE, 0, 0, {});
            Begins(file, 0, g.frames, p) && (g.partial == [] ==> Clean(file, 0, g.frames, p))
  {
    hide CS.Capture, GS.Store, IsFrame, Concat, Begins, Clean, Parse;
    var o := CS.Options(MAX_MESSAGE_SIZE, 0, false);
    var g := GS.Store(s, failed);
    GS.GroundAgreesWithCapture(o, CS.ZERO, s, CS.Eof(0), failed);
    CS.FramesAreWhole(o, CS.ZERO, s, CS.Eof(0));
    FramesParseBack([], g.frames, g.partial, MAX_MESSAGE_SIZE, 0, {});
    assert [] + Concat(g.frames) == Concat(g.frames);
  }

  /** Incremental equals batch: however a stream is cut into packets, if no packet
      contains an ACK, what twoway is fed is the stream, so that the frames it
      writes are the analyzer's records before its first truncated payload. */
  lemma TwowayIsBatch(ack: seq<byte>, packets: seq<seq<byte>>)
    requires forall p :: p in packets ==> T.SeekAck(ack, p, 0) == -1
    ensures var data := T.StripAll(ack, packets);
      data == Concat(packets) && TS.Agrees(data, 0, Parse(data, MAX_MESSAGE_SIZE, 0, 0, {}))
  {
    hide TS.Agrees, T.SeekAck;
    T.NoAckNoStrip(ack, packets);
    TS.DrainIsParse(Concat(packets), 0, 0, {});
  }
}
