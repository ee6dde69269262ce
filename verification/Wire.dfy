/**
  The sniffer wire format: an 18-byte little-endian meta that starts with the
  magic bytes BB BB 00 00, followed by `length` payload bytes.
*/
module Wire {
  type byte = x: int | 0 <= x < 256

  const META: nat := 18
  const UINT16_MAX: nat := 0xFFFF
  /** The longest payload that three of the four parsers accept, and the capture by default. */
  const MAX_MESSAGE_SIZE: nat := 4096

  /** memcmp(window, magic, 4) == 0. */
  predicate MagicAt(s: seq<byte>, i: nat) {
    i + 4 <= |s| && s[i] == 0xBB && s[i + 1] == 0xBB && s[i + 2] == 0 && s[i + 3] == 0
  }

  /** The first magic at or after `from`, or -1: Python's data.find(MAGIC_BYTES, from). */
  function FindMagic(s: seq<byte>, from: nat): (k: int)
    ensures k == -1 || (from <= k && MagicAt(s, k))
    ensures forall i: nat :: from <= i && MagicAt(s, i) ==> k != -1 && k <= i
    decreases |s| - from
  {
    if |s| < from + 4 then -1
    else if MagicAt(s, from) then from
    else FindMagic(s, from + 1)
  }

  /** Little-endian value of s[i..i+n]. */
  function Le(s: seq<byte>, i: nat, n: nat): (v: nat)
    requires i + n <= |s|
    decreases n
  {
    if n == 0 then 0 else (s[i] as int) + 256 * Le(s, i + 1, n - 1)
  }

  datatype Meta = Meta(magic: nat, sender: nat, sequence: nat, length: nat, rxTime: nat)

  function DecodeMeta(s: seq<byte>, i: nat): Meta
    requires i + META <= |s|
  {
    Meta(Le(s, i, 4), Le(s, i + 4, 2), Le(s, i + 6, 2), Le(s, i + 8, 2), Le(s, i + 10, 8))
  }

  /** Payload length of the meta at i: its bytes 8 and 9. */
  function LengthAt(s: seq<byte>, i: nat): (n: nat)
    requires i + META <= |s|
    ensures n <= UINT16_MAX
  {
    (s[i + 8] as int) + 256 * (s[i + 9] as int)
  }

  lemma LengthIsDecoded(s: seq<byte>, i: nat)
    requires i + META <= |s|
    ensures DecodeMeta(s, i).length == LengthAt(s, i)
  {
    assert Le(s, i + 9, 1) == (s[i + 9] as int) + 256 * Le(s, i + 10, 0);
  }

  /** One whole record whose payload is at most `max` bytes. */
  predicate IsFrame(f: seq<byte>, max: nat) {
    META <= |f| && MagicAt(f, 0) && LengthAt(f, 0) <= max && |f| == META + LengthAt(f, 0)
  }

  function Concat(parts: seq<seq<byte>>): (s: seq<byte>) {
    if parts == [] then [] else parts[0] + Concat(parts[1..])
  }

  lemma {:induction false} ConcatAppend(a: seq<seq<byte>>, b: seq<seq<byte>>)
    ensures Concat(a + b) == Concat(a) + Concat(b)
  {
    if a == [] {
      assert a + b == b;
    } else {
      assert (a + b)[1..] == a[1..] + b;
      ConcatAppend(a[1..], b);
    }
  }

  lemma ConcatOne(a: seq<seq<byte>>, f: seq<byte>)
    ensures Concat(a + [f]) == Concat(a) + f
  {
    ConcatAppend(a, [f]);
    assert Concat([f]) == f + Concat([]);
  }

  /** A search in the tail of s is a search in s. */
  lemma {:induction false} FindMagicSuffix(s: seq<byte>, at: nat)
    requires at <= |s|
    ensures var k := FindMagic(s[at..], 0);
            FindMagic(s, at) == if k == -1 then -1 else at + k
  {
    var t := s[at..];
    assert forall i: nat :: MagicAt(t, i) <==> MagicAt(s, at + i);
    var k, m := FindMagic(t, 0), FindMagic(s, at);
    if m != -1 {
      assert MagicAt(t, m - at);
    }
  }

  /** More bytes after a found magic do not move it. */
  lemma FindMagicPrefix(s: seq<byte>, rest: seq<byte>)
    requires FindMagic(s, 0) != -1
    ensures FindMagic(s + rest, 0) == FindMagic(s, 0)
  {
    var k := FindMagic(s, 0);
    assert MagicAt(s + rest, k);
    var m := FindMagic(s + rest, 0);
    assert MagicAt(s, m);
  }

  /** One more byte can complete a magic only at the last window. */
  lemma FindMagicByte(s: seq<byte>, b: byte)
    requires 4 <= |s| && FindMagic(s, 0) == -1
    ensures FindMagic(s + [b], 0) == if MagicAt(s + [b], |s| - 3) then |s| - 3 else -1
  {
    assert forall i: nat :: i + 4 <= |s| ==> (MagicAt(s + [b], i) <==> MagicAt(s, i));
  }
}
