/**
  The byte sources the capture reads from: an upstream endpoint that may cut the
  stream anywhere and time out at will, and the staging buffer of
  sniffer_buffered_transport.c in front of it.
*/
module Transport {
  import opened Wire

  /** SnifferIoStatus. */
  datatype IoStatus = IoError | IoEof | IoData | IoTimeout | IoInterrupted

  /** One upstream read: the status it reports, how many bytes it would like to
      hand over, and whether it claims more bytes than the caller has room for. */
  datatype ReadEvent = ReadEvent(status: IoStatus, want: nat, overrun: bool)

  /** No read claims more than it was asked for. */
  ghost predicate Orderly(script: seq<ReadEvent>) {
    forall e :: e in script ==> !e.overrun
  }

  /** Reads that keep the transport contract and never fail: data is at least one
      byte.  A read that times out or is interrupted may bring some or none. */
  ghost predicate Calm(script: seq<ReadEvent>) {
    forall e :: e in script ==>
      !e.overrun && e.status in {IoData, IoTimeout, IoInterrupted} && (e.status == IoData ==> e.want > 0)
  }

  /** How many reads bring bytes as long as there are any. */
  function Bringing(script: seq<ReadEvent>): nat {
    if script == [] then 0 else Bringing(script[1..]) + if script[0].want > 0 then 1 else 0
  }

  /** An arbitrary endpoint: `rest` are the bytes it still has to give, `script`
      its behaviour, read by read.  It reports EOF when the script has run out, or
      when it would bring data and there is none left. */
  class Endpoint {
    var rest: seq<byte>
    var script: seq<ReadEvent>
    /** The bytes given and the statuses reported so far; an overrun is an error. */
    ghost var sent: seq<byte>
    ghost var reported: seq<IoStatus>
    /** How many bytes the last read gave. */
    ghost var latest: nat
    /** How many reads were to bring bytes, and whether all were calm. */
    ghost const planned: nat
    ghost const calm: bool

    /** A calm endpoint has given a byte for every read done so far that was to bring
        some, or it has nothing left. */
    ghost predicate Flowing()
      reads this
    {
      calm ==> Calm(script) && (rest == [] || |sent| + Bringing(script) >= planned)
    }

    constructor (wire: seq<byte>, script: seq<ReadEvent>)
      ensures rest == wire && this.script == script && sent == [] && reported == []
      ensures Flowing() && planned == Bringing(script) && calm == Calm(script)
    {
      rest, this.script := wire, script;
      planned, calm := Bringing(script), Calm(script);
      sent, reported, latest := [], [], 0;
    }

    /** A calm endpoint never fails; it ends only when it has nothing left or the
        script has run out, and data is always at least one byte. */
    ghost predicate Explained(status: IoStatus, received: nat, capacity: nat)
      reads this
    {
      && received <= capacity && status != IoError
      && (status == IoEof ==> received == 0 && (rest == [] || script == []))
      && (status == IoData ==> received > 0)
    }

    method Read(buffer: array<byte>, at: nat, capacity: nat) returns (status: IoStatus, received: nat)
      requires at + capacity <= buffer.Length
      modifies this, buffer
      ensures received <= capacity ==> sent == old(sent) + buffer[at..at + received]
      ensures sent + rest == old(sent + rest)
      ensures received > capacity ==> sent == old(sent)
      ensures latest == if received > capacity then 0 else received
      ensures forall i :: 0 <= i < buffer.Length && !(at <= i < at + received <= at + capacity) ==>
        buffer[i] == old(buffer[i])
      ensures |script| < |old(script)| || (status == IoEof && received == 0)
      ensures Orderly(old(script)) ==> Orderly(script) && received <= capacity
      ensures old(Flowing()) && 0 < capacity ==> Flowing() && (calm ==> Explained(status, received, capacity))
      ensures reported == old(reported) + [if received > capacity then IoError else status]
    {
      if script == [] {
        status, received := IoEof, 0;
      } else {
        var e := script[0];
        script, status := script[1..], e.status;
        if rest == [] && e.status == IoData && e.want > 0 {
          status := IoEof;
        }
        if e.overrun {
          received := capacity + 1;
        } else {
          received := if e.want < capacity then e.want else capacity;
          received := if |rest| < received then |rest| else received;
          forall i | 0 <= i < received {
            buffer[at + i] := rest[i];
          }
          assert buffer[at..at + received] == rest[..received];
          assert sent + rest[..received] + rest[received..] == sent + rest;
          sent, rest := sent + rest[..received], rest[received..];
        }
      }
      reported := reported + [if received > capacity then IoError else status];
      latest := if received > capacity then 0 else received;
    }
  }

  /** The statuses that are news: everything but plain data. */
  ghost function Notable(s: seq<IoStatus>): seq<IoStatus> {
    if s == [] then []
    else Notable(s[..|s| - 1]) + if s[|s| - 1] == IoData then [] else [s[|s| - 1]]
  }

  /** How many reads timed out. */
  ghost function Timeouts(s: seq<IoStatus>): nat {
    if s == [] then 0 else Timeouts(s[..|s| - 1]) + if s[|s| - 1] == IoTimeout then 1 else 0
  }

  lemma TimeoutsAppend(s: seq<IoStatus>, x: IoStatus)
    ensures Timeouts(s + [x]) == Timeouts(s) + if x == IoTimeout then 1 else 0
  {
    assert (s + [x])[..|s|] == s;
  }

  lemma NotableAppend(s: seq<IoStatus>, x: IoStatus)
    ensures Notable(s + [x]) == Notable(s) + if x == IoData then [] else [x]
  {
    assert (s + [x])[..|s|] == s;
  }

  /** A status passed on as it came, or data that was staged before. */
  lemma StatusPassedOn(given: seq<IoStatus>, before: seq<IoStatus>, after: seq<IoStatus>, x: IoStatus)
    requires Notable(given) == Notable(before) && (after == before + [x] || (after == before && x == IoData))
    ensures Notable(given + [x]) == Notable(after)
  {
    NotableAppend(given, x);
    NotableAppend(before, x);
  }

  /** SnifferTransport: reads go straight upstream, or through the staging buffer
      of SnifferBufferedTransport when there is one. */
  class ByteSource {
    const upstream: Endpoint
    const staging: array?<byte>
    var offset: nat
    var length: nat
    var pendingStatus: IoStatus
    /** All bytes and statuses handed to the caller so far. */
    ghost var delivered: seq<byte>
    ghost var given: seq<IoStatus>
    /** How many bytes the last read handed over. */
    ghost var latest: nat

    ghost function Repr(): set<object> {
      {this, upstream} + if staging == null then {} else {staging}
    }

    /** All the bytes the endpoint will ever have given. */
    ghost function Horizon(): seq<byte>
      reads upstream
    {
      upstream.sent + upstream.rest
    }

    ghost function Staged(): seq<byte>
      requires staging != null ==> offset <= length <= staging.Length
      reads this`offset, this`length, staging
    {
      if staging == null then [] else staging[offset..length]
    }

    ghost predicate InBounds()
      reads this, upstream
    {
      offset <= length && |delivered| <= |Horizon()|
    }

    /** No byte is lost, repeated or reordered between upstream and caller. */
    ghost predicate Lossless()
      reads this`offset, this`length, this`pendingStatus, this`delivered, upstream, staging
    {
      && (staging == null ==> offset == length == 0)
      && (staging != null ==> offset <= length <= staging.Length && 1 <= staging.Length)
      && (offset < length ==> pendingStatus == IoData)
      && delivered + Staged() == upstream.sent && upstream.Flowing()
    }

    /** And every status that is news has been passed on once. */
    ghost predicate Valid()
      reads Repr()
    {
      Lossless() && Notable(given) == Notable(upstream.reported)
    }

    constructor (upstream: Endpoint, staging: array?<byte>)
      requires upstream.sent == [] && upstream.reported == [] && upstream.Flowing()
      requires (staging != null ==> 1 <= staging.Length)
      ensures Valid() && InBounds() && this.upstream == upstream && this.staging == staging
      ensures delivered == [] && given == []
    {
      this.upstream, this.staging := upstream, staging;
      offset, length, pendingStatus, delivered, given, latest := 0, 0, IoData, [], [], 0;
    }

    lemma DeliveredIsPrefix()
      requires Valid()
      ensures delivered <= Horizon()
    {
      assert delivered <= upstream.sent <= Horizon();
    }

    /** How much a calm endpoint has delivered when it has come to its end. */
    lemma DeliveredEnough()
      requires Valid() && upstream.calm && delivered == upstream.sent && (upstream.rest == [] || upstream.script == [])
      ensures delivered == Horizon() || |delivered| >= upstream.planned
    {
    }

    /** Whatever the capacity of the staging buffer, the caller gets the next
        bytes of the stream, and each upstream status exactly once. */
    method Read(buffer: array<byte>, at: nat, capacity: nat) returns (status: IoStatus, received: nat)
      requires Valid() && buffer !in Repr() && 0 < capacity && at + capacity <= buffer.Length
      modifies Repr(), buffer
      ensures upstream.calm ==> upstream.Explained(status, received, capacity)
      ensures Valid() && Horizon() == old(Horizon()) && InBounds()
      ensures received <= capacity ==> delivered == old(delivered) + buffer[at..at + received]
      ensures received > capacity ==> delivered == old(delivered)
      ensures forall i :: 0 <= i < buffer.Length && !(at <= i < at + received <= at + capacity) ==>
        buffer[i] == old(buffer[i])
      ensures given == old(given) + [if received > capacity then IoError else status]
      ensures latest == if received > capacity then 0 else received
      ensures received == 0 || received > capacity ==> delivered == upstream.sent
      ensures || |upstream.script| < |old(upstream.script)|
              || (status == IoEof && received == 0)
              || (upstream.script == old(upstream.script) && length - offset < old(length - offset))
    {
      hide Lossless, Orderly, Endpoint.Flowing, Endpoint.Explained, Notable, Calm;
      status, received := Dispatch(buffer, at, capacity);
      ghost var x := if received > capacity then IoError else status;
      StatusPassedOn(given, old(upstream.reported), upstream.reported, x);
      given := given + [x];
      latest := if received > capacity then 0 else received;
    }

    method Dispatch(buffer: array<byte>, at: nat, capacity: nat) returns (status: IoStatus, received: nat)
      requires Lossless() && buffer !in Repr() && 0 < capacity && at + capacity <= buffer.Length
      modifies this`offset, this`length, this`pendingStatus, this`delivered, upstream, buffer, Repr() - {this}
      ensures upstream.calm ==> upstream.Explained(status, received, capacity)
      ensures Lossless() && InBounds()
      ensures received <= capacity ==> delivered == old(delivered) + buffer[at..at + received]
      ensures received > capacity ==> delivered == old(delivered)
      ensures forall i :: 0 <= i < buffer.Length && !(at <= i < at + received <= at + capacity) ==>
        buffer[i] == old(buffer[i])
      ensures received == 0 || received > capacity ==> delivered == upstream.sent
      ensures Horizon() == old(Horizon())
      ensures Progress(old(upstream.script), old(upstream.reported), old(length - offset), status, received, capacity)
    {
      if staging == null {
        status, received := DirectRead(buffer, at, capacity);
      } else {
        status, received := BufferedRead(buffer, at, capacity);
      }
      if received <= capacity {
        delivered := delivered + buffer[at..at + received];
      }
      assert delivered + Staged() == upstream.sent;
    }

    /** A read took one upstream read, whose status it passes on, or it passed on
        staged bytes as plain data. */
    ghost predicate Progress(script: seq<ReadEvent>, reported: seq<IoStatus>, staged: int, status: IoStatus,
            received: nat, capacity: nat)
      reads this, upstream
    {
      || (upstream.reported == reported && status == IoData && received <= capacity
          && upstream.script == script && length - offset < staged)
      || (upstream.reported == reported + [if received > capacity then IoError else status]
          && (|upstream.script| < |script| || (status == IoEof && received == 0)))
    }

    /** transport->read without a staging buffer. */
    method DirectRead(buffer: array<byte>, at: nat, capacity: nat) returns (status: IoStatus, received: nat)
      requires Lossless() && staging == null && buffer !in Repr() && 0 < capacity && at + capacity <= buffer.Length
      modifies upstream, buffer
      ensures upstream.calm ==> upstream.Explained(status, received, capacity)
      ensures upstream.Flowing()
      ensures received <= capacity ==> delivered + buffer[at..at + received] == upstream.sent
      ensures received > capacity ==> delivered == upstream.sent
      ensures forall i :: 0 <= i < buffer.Length && !(at <= i < at + received <= at + capacity) ==>
        buffer[i] == old(buffer[i])
      ensures Horizon() == old(Horizon())
      ensures Progress(old(upstream.script), old(upstream.reported), old(length - offset), status, received, capacity)
    {
      assert delivered + Staged() == delivered;
      status, received := upstream.Read(buffer, at, capacity);
    }

    /** buffered_read (sniffer_buffered_transport.c:5-40). */
    method BufferedRead(buffer: array<byte>, at: nat, capacity: nat) returns (status: IoStatus, received: nat)
      requires Lossless() && staging != null && buffer !in Repr() && at + capacity <= buffer.Length
      modifies this`offset, this`length, this`pendingStatus, upstream, staging, buffer
      ensures 0 < capacity && upstream.calm ==> upstream.Explained(status, received, capacity)
      ensures upstream.Flowing()
      ensures received <= capacity && offset <= length <= staging.Length
      ensures offset < length ==> pendingStatus == IoData
      ensures delivered + (buffer[at..at + received] + Staged()) == upstream.sent
      ensures forall i :: 0 <= i < buffer.Length && !(at <= i < at + received <= at + capacity) ==>
        buffer[i] == old(buffer[i])
      ensures 0 < capacity && received == 0 ==> Staged() == []
      ensures Horizon() == old(Horizon())
      ensures 0 < capacity ==>
        Progress(old(upstream.script), old(upstream.reported), old(length - offset), status, received, capacity)
      ensures capacity == 0 ==>
        status == IoError && received == 0 && Staged() == old(Staged())
        && upstream.sent == old(upstream.sent) && upstream.script == old(upstream.script)
    {
      if capacity == 0 {
        assert buffer[at..at + 0] + Staged() == Staged();
        return IoError, 0;
      }
      if offset == length {
        status := Refill();
        if offset == length {
          assert buffer[at..at + 0] + Staged() == Staged();
          return status, 0;
        }
      }
      status := pendingStatus;
      received := TakeStaged(buffer, at, capacity, upstream.sent);
      pendingStatus := IoData;
    }

    /** Lines 13-30: one upstream read into the empty staging buffer. */
    method Refill() returns (status: IoStatus)
      requires Lossless() && staging != null && offset == length
      modifies this`offset, this`length, this`pendingStatus, upstream, staging
      ensures offset <= length <= staging.Length
      ensures upstream.Flowing() && (upstream.calm ==> upstream.Explained(status, length - offset, staging.Length))
      ensures delivered + Staged() == upstream.sent
      ensures upstream.reported == old(upstream.reported) + [status]
      ensures offset < length ==> pendingStatus == status
      ensures Horizon() == old(Horizon())
      ensures |upstream.script| < |old(upstream.script)| || (status == IoEof && offset == length)
    {
      assert delivered + Staged() == delivered;
      offset, length := 0, 0;
      var received;
      status, received := upstream.Read(staging, 0, staging.Length);
      if received > staging.Length {
        assert delivered + Staged() == delivered;
        return IoError;
      }
      length := received;
      pendingStatus := status;
    }

    /** Lines 32-36: hand over what fits. */
    method TakeStaged(buffer: array<byte>, at: nat, capacity: nat, ghost sent: seq<byte>) returns (chunk: nat)
      requires staging != null && offset < length <= staging.Length && delivered + Staged() == sent
      requires buffer !in Repr() && 0 < capacity && at + capacity <= buffer.Length
      modifies this`offset, buffer
      ensures 0 < chunk <= capacity && offset == old(offset) + chunk && offset <= length
      ensures delivered + (buffer[at..at + chunk] + Staged()) == sent
      ensures forall i :: 0 <= i < buffer.Length && !(at <= i < at + chunk) ==> buffer[i] == old(buffer[i])
    {
      var available := length - offset;
      chunk := if capacity < available then capacity else available;
      ghost var all := Staged();
      forall i | 0 <= i < chunk {
        buffer[at + i] := staging[offset + i];
      }
      offset := offset + chunk;
      assert all[..chunk] == buffer[at..at + chunk] && all[chunk..] == Staged();
      assert all == all[..chunk] + all[chunk..];
    }
  }

  /** A file that accepts as many bytes of each fwrite as `accepts` says, and none
      after that; `flushes` says which fflush calls succeed. */
  class OutputFile {
    var contents: seq<byte>
    var accepts: seq<nat>
    var flushes: seq<bool>
    /** How many writes have come up short. */
    ghost var faults: nat
    /** How long the file was at the last fflush and at the last that succeeded, and
        how many have failed. */
    ghost var tried: nat
    ghost var flushed: nat
    ghost var flushFaults: nat

    constructor (contents: seq<byte>, accepts: seq<nat>, flushes: seq<bool>)
      ensures this.contents == contents && this.accepts == accepts && this.flushes == flushes
    {
      this.contents, this.accepts, this.flushes, faults := contents, accepts, flushes, 0;
      tried, flushed, flushFaults := 0, 0, 0;
    }

    method Fwrite(data: seq<byte>) returns (written: nat)
      modifies this`contents, this`accepts, this`faults
      ensures written <= |data| && contents == old(contents) + data[..written]
      ensures faults == old(faults) + if written < |data| then 1 else 0
    {
      written := if accepts == [] then 0 else if accepts[0] < |data| then accepts[0] else |data|;
      accepts := if accepts == [] then [] else accepts[1..];
      contents := contents + data[..written];
      faults := faults + if written < |data| then 1 else 0;
    }

    method Fflush() returns (ok: bool)
      modifies this`flushes, this`tried, this`flushed, this`flushFaults
      ensures tried == |contents| && flushed == (if ok then |contents| else old(flushed))
      ensures flushFaults == old(flushFaults) + if ok then 0 else 1
    {
      ok := flushes != [] && flushes[0];
      flushes := if flushes == [] then [] else flushes[1..];
      tried, flushed := |contents|, if ok then |contents| else flushed;
      flushFaults := flushFaults + if ok then 0 else 1;
    }
  }
}
