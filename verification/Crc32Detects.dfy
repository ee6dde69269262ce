/**
  What the CRC detects: every error whose wrong bits lie within 32 consecutive
  bits, in the order the CRC takes them.
*/
module Crc32Detects {
  import opened Crc32

  function BitOf(b: bool): bv32 { if b then 1 else 0 }

  function LowBits(b: bv8, n: nat): (s: seq<bool>)
    ensures |s| == n
    decreases n
  {
    if n == 0 then [] else [b & 1 != 0] + LowBits(b >> 1, n - 1)
  }

  /** The bits of a byte, least significant first. */
  function BitsOf(b: bv8): (s: seq<bool>)
    ensures |s| == 8
  {
    LowBits(b, 8)
  }

  function Bits(data: seq<bv8>): (s: seq<bool>)
    ensures |s| == 8 * |data|
  {
    if data == [] then [] else Bits(data[..|data| - 1]) + BitsOf(data[|data| - 1])
  }

  /** The register when bits are taken one at a time. */
  function Feed(c: bv32, bits: seq<bool>): bv32 {
    if bits == [] then c else BitStep(Xor(Feed(c, bits[..|bits| - 1]), BitOf(bits[|bits| - 1])))
  }

  lemma {:induction false} FeedAppend(c: bv32, a: seq<bool>, b: seq<bool>)
    ensures Feed(c, a + b) == Feed(Feed(c, a), b)
  {
    hide BitStep, Xor, BitOf;
    if b == [] {
      assert a + b == a;
    } else {
      assert (a + b)[..|a + b| - 1] == a + b[..|b| - 1];
      FeedAppend(c, a, b[..|b| - 1]);
    }
  }

  // ------------------------------------------- few bits, packed into a word

  function Pack(bits: seq<bool>): bv32 {
    if bits == [] then 0 else Xor(Double(Pack(bits[1..])), BitOf(bits[0]))
  }

  function Double(w: bv32): bv32 { w << 1 }

  predicate TopBit(w: bv32) { w & 0x8000_0000 != 0 }

  /** The k top bits of w are zero. */
  predicate TopFree(w: bv32, k: nat)
    decreases k
  {
    k == 0 || (!TopBit(w) && TopFree(Double(w), k - 1))
  }

  lemma OneTopFree()
    ensures TopFree(1, 31)
  {
    assert TopFree(1 << 28, 3);
    assert TopFree(1 << 25, 6);
    assert TopFree(1 << 22, 9);
    assert TopFree(1 << 19, 12);
    assert TopFree(1 << 16, 15);
    assert TopFree(1 << 13, 18);
    assert TopFree(1 << 10, 21);
    assert TopFree(1 << 7, 24);
    assert TopFree(1 << 4, 27);
    assert TopFree(1 << 1, 30);
  }

  lemma {:induction false} TopFreeFewer(w: bv32, k: nat, m: nat)
    requires TopFree(w, k) && m <= k
    ensures TopFree(w, m)
    decreases k
  {
    if m > 0 {
      TopFreeFewer(Double(w), k - 1, m - 1);
    }
  }

  lemma {:induction false} ZeroTopFree(k: nat)
    ensures TopFree(0, k)
    decreases k
  {
    if k > 0 {
      ZeroTopFree(k - 1);
      assert 0 << 1 == 0 as bv32;
    }
  }

  lemma DoubleRaw(y: bv32, z: bv32)
    ensures (y ^ z) << 1 == (y << 1) ^ (z << 1)
  {
  }

  lemma XorDouble(y: bv32, z: bv32)
    ensures Double(Xor(y, z)) == Xor(Double(y), Double(z))
    ensures !TopBit(y) && !TopBit(z) ==> !TopBit(Xor(y, z))
  {
    DoubleRaw(y, z);
  }

  lemma {:induction false} XorTopFree(y: bv32, z: bv32, k: nat)
    requires TopFree(y, k) && TopFree(z, k)
    ensures TopFree(Xor(y, z), k)
    decreases k
  {
    if k > 0 {
      hide Xor, Double, TopBit;
      XorTopFree(Double(y), Double(z), k - 1);
      XorDouble(y, z);
    }
  }

  lemma {:induction false} PackTopFree(bits: seq<bool>)
    requires |bits| <= 32
    ensures TopFree(Pack(bits), 32 - |bits|)
    decreases |bits|
  {
    hide Xor, Double, TopBit;
    ZeroTopFree(32 - |bits|);
    if bits != [] {
      PackTopFree(bits[1..]);
      OneTopFree();
      TopFreeFewer(1, 31, 32 - |bits|);
      XorTopFree(Double(Pack(bits[1..])), BitOf(bits[0]), 32 - |bits|);
    }
  }

  lemma ShiftIn(w: bv32)
    requires !TopBit(w)
    ensures BitStep(Double(w)) == w
  {
  }

  lemma XorRegroup(x: bv32, b: bv32, w: bv32)
    ensures (x ^ b) ^ w == x ^ (w ^ b)
  {
  }

  lemma XorAssociates(x: bv32, b: bv32, w: bv32)
    ensures Xor(Xor(x, b), w) == Xor(x, Xor(w, b))
  {
    XorRegroup(x, b, w);
  }

  /** Up to 32 bits act on the register as one word. */
  lemma {:induction false} FeedPacked(c: bv32, bits: seq<bool>)
    requires |bits| <= 32
    ensures Feed(c, bits) == BitSteps(Xor(c, Pack(bits)), |bits|)
    decreases |bits|
  {
    hide BitStep, Xor, BitOf, TopFree, Double, TopBit;
    if bits == [] {
      XorZero(c);
    } else {
      var (b, rest) := (BitOf(bits[0]), bits[1..]);
      var w := Pack(rest);
      assert bits == [bits[0]] + rest;
      FeedAppend(c, [bits[0]], rest);
      FeedOne(c, bits[0]);
      FeedPacked(BitStep(Xor(c, b)), rest);
      PackTopFree(rest);
      TopBitFree(w, 32 - |rest|);
      ShiftIn(w);
      BitStepLinear(Xor(c, b), Double(w));
      XorAssociates(c, b, Double(w));
      BitStepsFirst(Xor(c, Pack(bits)), |rest|);
    }
  }

  lemma XorZero(c: bv32)
    ensures Xor(c, 0) == c
  {
  }

  lemma FeedOne(c: bv32, b: bool)
    ensures Feed(c, [b]) == BitStep(Xor(c, BitOf(b)))
  {
    assert [b][..0] == [];
  }

  lemma TopBitFree(w: bv32, k: nat)
    requires TopFree(w, k) && k > 0
    ensures !TopBit(w)
  {
  }

  lemma BitStepsFirst(x: bv32, n: nat)
    ensures BitSteps(BitStep(x), n) == BitSteps(x, n + 1)
  {
    hide BitStep;
    BitStepsAdd(x, 1, n);
    assert BitSteps(x, 1) == BitStep(BitSteps(x, 0));
  }

  lemma PairInjective(p: bv32, b: bool, q: bv32, d: bool)
    requires !TopBit(p) && !TopBit(q)
    requires Xor(Double(p), BitOf(b)) == Xor(Double(q), BitOf(d))
    ensures p == q && b == d
  {
  }

  lemma {:induction false} PackInjective(u: seq<bool>, v: seq<bool>)
    requires |u| == |v| <= 32 && Pack(u) == Pack(v)
    ensures u == v
  {
    hide Xor, BitOf, TopFree, Double, TopBit;
    if u != [] {
      PackTopFree(u[1..]);
      PackTopFree(v[1..]);
      TopBitFree(Pack(u[1..]), 33 - |u|);
      TopBitFree(Pack(v[1..]), 33 - |v|);
      PairInjective(Pack(u[1..]), u[0], Pack(v[1..]), v[0]);
      PackInjective(u[1..], v[1..]);
      assert u == [u[0]] + u[1..] && v == [v[0]] + v[1..];
    }
  }

  // ------------------------------------------------------------------ bursts

  lemma XorCancel(x: bv32, y: bv32, b: bv32)
    requires Xor(x, b) == Xor(y, b) || Xor(b, x) == Xor(b, y)
    ensures x == y
  {
  }

  /** Equal bits preserve a difference. */
  lemma {:induction false} FeedInjective(c: bv32, d: bv32, bits: seq<bool>)
    requires Feed(c, bits) == Feed(d, bits)
    ensures c == d
    decreases |bits|
  {
    hide BitStep, Xor, BitOf;
    if bits != [] {
      var rest := bits[..|bits| - 1];
      var b := BitOf(bits[|bits| - 1]);
      BitStepInjective(Xor(Feed(c, rest), b), Xor(Feed(d, rest), b));
      XorCancel(Feed(c, rest), Feed(d, rest), b);
      FeedInjective(c, d, rest);
    }
  }

  lemma WindowDetected(c: bv32, p: seq<bool>, u: seq<bool>, v: seq<bool>, q: seq<bool>)
    requires |u| == |v| <= 32 && u != v
    ensures Feed(c, p + u + q) != Feed(c, p + v + q)
  {
    hide BitStep, Xor, Feed, Pack;
    if Feed(c, p + u + q) == Feed(c, p + v + q) {
      FeedAppend(c, p + u, q);
      FeedAppend(c, p + v, q);
      FeedAppend(c, p, u);
      FeedAppend(c, p, v);
      FeedInjective(Feed(c, p + u), Feed(c, p + v), q);
      var start := Feed(c, p);
      FeedPacked(start, u);
      FeedPacked(start, v);
      BitStepsInjective(Xor(start, Pack(u)), Xor(start, Pack(v)), |u|);
      XorCancel(Pack(u), Pack(v), start);
      PackInjective(u, v);
      assert false;
    }
  }

  predicate FitsIn(b: bv8, n: nat)
    decreases n
  {
    if n == 0 then b == 0 else FitsIn(b >> 1, n - 1)
  }

  lemma ByteFits(b: bv8)
    ensures FitsIn(b, 8)
  {
    assert FitsIn(b >> 7 >> 1, 0);
    assert FitsIn(b >> 4 >> 1 >> 1, 2);
    assert FitsIn(b >> 2 >> 1 >> 1, 4);
    assert FitsIn(b >> 1 >> 1, 6);
  }

  lemma PackMore(b: bv8, w: bv32)
    requires w == (b >> 1) as bv32
    ensures Xor(Double(w), BitOf(b & 1 != 0)) == b as bv32
  {
  }

  lemma {:induction false} PackLow(b: bv8, n: nat)
    requires FitsIn(b, n)
    ensures Pack(LowBits(b, n)) == b as bv32
    decreases n
  {
    hide Xor, Double, BitOf;
    if n > 0 {
      PackLow(b >> 1, n - 1);
      PackMore(b, Pack(LowBits(b >> 1, n - 1)));
    }
  }

  lemma PackByte(b: bv8)
    ensures Pack(BitsOf(b)) == b as bv32
  {
    ByteFits(b);
    PackLow(b, 8);
  }

  /** Byte by byte is bit by bit. */
  lemma {:induction false} RegisterIsFeed(c: bv32, data: seq<bv8>)
    ensures Register(c, data) == Feed(c, Bits(data))
  {
    hide BitStep, BitSteps, Xor, BitsOf, Pack, Feed;
    if data == [] {
      FeedNothing(c);
    } else {
      var (rest, b) := (data[..|data| - 1], data[|data| - 1]);
      RegisterIsFeed(c, rest);
      FeedAppend(c, Bits(rest), BitsOf(b));
      FeedPacked(Register(c, rest), BitsOf(b));
      PackByte(b);
    }
  }

  lemma FeedNothing(c: bv32)
    ensures Feed(c, []) == c
  {
  }

  lemma BitsOfInjective(a: bv8, b: bv8)
    requires BitsOf(a) == BitsOf(b)
    ensures a == b
  {
    PackByte(a);
    PackByte(b);
    SameByte(a, b);
  }

  lemma SameByte(a: bv8, b: bv8)
    requires a as bv32 == b as bv32
    ensures a == b
  {
  }

  lemma {:induction false} BitsInjective(a: seq<bv8>, b: seq<bv8>)
    requires |a| == |b| && Bits(a) == Bits(b)
    ensures a == b
  {
    hide BitsOf;
    if a != [] {
      var n := |a| - 1;
      assert Bits(a)[..8 * n] == Bits(a[..n]) && Bits(b)[..8 * n] == Bits(b[..n]);
      assert Bits(a)[8 * n..] == BitsOf(a[n]) && Bits(b)[8 * n..] == BitsOf(b[n]);
      BitsOfInjective(a[n], b[n]);
      BitsInjective(a[..n], b[..n]);
      assert a == a[..n] + [a[n]] && b == b[..n] + [b[n]];
    }
  }

  /** Two different inputs of equal length that agree on all bits but those in one
      window of 32 have different CRCs. */
  lemma BurstDetected(a: seq<bv8>, b: seq<bv8>, i: nat)
    requires |a| == |b| && a != b
    requires forall j :: 0 <= j < 8 * |a| && !(i <= j < i + 32) ==> Bits(a)[j] == Bits(b)[j]
    ensures Crc(a) != Crc(b)
  {
    hide Bits, Register, Feed, Crc;
    var p, u, v, q := WindowOf(Bits(a), Bits(b), i);
    if u == v {
      BitsInjective(a, b);
      assert false;
    }
    WindowDetected(ONES, p, u, v, q);
    RegisterIsFeed(ONES, a);
    RegisterIsFeed(ONES, b);
    if Crc(a) == Crc(b) {
      SameRegister(a, b);
      assert false;
    }
  }

  lemma WindowOf(x: seq<bool>, y: seq<bool>, i: nat) returns (p: seq<bool>, u: seq<bool>, v: seq<bool>, q: seq<bool>)
    requires |x| == |y| && forall j :: 0 <= j < |x| && !(i <= j < i + 32) ==> x[j] == y[j]
    ensures x == p + u + q && y == p + v + q && |u| == |v| <= 32
  {
    var from := if i < |x| then i else |x|;
    var to := if i + 32 < |x| then i + 32 else |x|;
    p, q, u, v := x[..from], x[to..], x[from..to], y[from..to];
    assert y[..from] == p && y[to..] == q;
  }

  lemma SameRegister(a: seq<bv8>, b: seq<bv8>)
    requires Crc(a) == Crc(b)
    ensures Register(ONES, a) == Register(ONES, b)
  {
    hide Register;
  }

  lemma {:induction false} BitAt(data: seq<bv8>, k: nat, j: nat)
    requires k < |data| && j < 8
    ensures Bits(data)[8 * k + j] == BitsOf(data[k])[j]
  {
    hide BitsOf;
    if k < |data| - 1 {
      BitAt(data[..|data| - 1], k, j);
    }
  }

  /** In particular: damage within four consecutive bytes. */
  lemma FourBytesDetected(a: seq<bv8>, b: seq<bv8>, k: nat)
    requires |a| == |b| && a != b
    requires forall i :: 0 <= i < |a| && !(k <= i < k + 4) ==> a[i] == b[i]
    ensures Crc(a) != Crc(b)
  {
    hide Bits, Crc;
    forall j | 0 <= j < 8 * |a| && !(8 * k <= j < 8 * k + 32) ensures Bits(a)[j] == Bits(b)[j] {
      BitAt(a, j / 8, j % 8);
      BitAt(b, j / 8, j % 8);
    }
    BurstDetected(a, b, 8 * k);
  }

  /** 32 is the most: these two differ only within 33 consecutive bits. */
  lemma LongerBurstMayPass() returns (a: seq<bv8>, b: seq<bv8>)
    ensures |a| == |b| && a != b && Crc(a) == Crc(b)
    ensures forall j :: 33 <= j < 8 * |a| ==> Bits(a)[j] == Bits(b)[j]
  {
    hide ByteStep, BitsOf, Bits, Register;
    a, b := [0, 0, 0, 0, 0], [0x41, 0x06, 0x71, 0xDB, 0x01];
    RegisterOfFive(a);
    RegisterOfFive(b);
    FiveZeros();
    FiveDamaged();
    assert b[4] == 0x01 && a[4] == 0;
    forall j | 33 <= j < 40 ensures Bits(a)[j] == Bits(b)[j] {
      BitAt(a, 4, j - 32);
      BitAt(b, 4, j - 32);
      OnlyLowest(0, j - 32);
      OnlyLowest(1, j - 32);
    }
  }

  lemma FiveZeros()
    ensures ByteStep(ByteStep(ByteStep(ByteStep(ByteStep(ONES, 0), 0), 0), 0), 0) == 0x39DD_08E2
  {
    assert ByteStep(ONES, 0) == 0x2DFD_1072;
    assert ByteStep(0x2DFD_1072, 0) == 0xBE26_ED00;
    assert ByteStep(0xBE26_ED00, 0) == 0xBE_26ED;
    assert ByteStep(0xBE_26ED, 0) == 0xDEBB_20E3;
    assert ByteStep(0xDEBB_20E3, 0) == 0x39DD_08E2;
  }

  lemma FiveDamaged()
    ensures ByteStep(ByteStep(ByteStep(ByteStep(ByteStep(ONES, 0x41), 0x06), 0x71), 0xDB), 0x01) == 0x39DD_08E2
  {
    assert BitSteps(0xFFFF_FFBE, 8) == 0x2C26_6174;
    assert ByteStep(ONES, 0x41) == 0x2C26_6174;
    assert BitSteps(0x2C26_6172, 8) == 0xBE27_3671;
    assert ByteStep(0x2C26_6174, 0x06) == 0xBE27_3671;
    assert BitSteps(0xBE27_3600, 8) == 0xBE_2736;
    assert ByteStep(0xBE27_3671, 0x71) == 0xBE_2736;
    assert BitSteps(0xBE_27ED, 8) == 0xDEBB_20E2;
    assert ByteStep(0xBE_2736, 0xDB) == 0xDEBB_20E2;
    assert BitSteps(0xDEBB_20E3, 8) == 0x39DD_08E2;
    assert ByteStep(0xDEBB_20E2, 0x01) == 0x39DD_08E2;
  }

  lemma RegisterOfFive(d: seq<bv8>)
    requires |d| == 5
    ensures Register(ONES, d) == ByteStep(ByteStep(ByteStep(ByteStep(ByteStep(ONES, d[0]), d[1]), d[2]), d[3]), d[4])
  {
    hide ByteStep;
    assert d[..4][..3] == d[..3] && d[..3][..2] == d[..2] && d[..2][..1] == d[..1] && d[..1][..0] == [];
    assert Register(ONES, d[..1]) == ByteStep(ONES, d[0]);
    assert Register(ONES, d[..2]) == ByteStep(Register(ONES, d[..1]), d[1]);
    assert Register(ONES, d[..3]) == ByteStep(Register(ONES, d[..2]), d[2]);
  }

  lemma OnlyLowest(b: bv8, j: nat)
    requires b <= 1 && 1 <= j < 8
    ensures !BitsOf(b)[j]
  {
    assert LowBits(b, 8)[1..] == LowBits(0, 7);
    NoBits(7, j - 1);
  }

  lemma {:induction false} NoBits(n: nat, j: nat)
    requires j < n
    ensures !LowBits(0, n)[j]
  {
    if j > 0 {
      assert 0 >> 1 == 0 as bv8;
      NoBits(n - 1, j - 1);
    }
  }

  // ------------------------------------------------------ which code it is

  /** The CRC as it is appended to a message, lowest byte first. */
  function Appended(c: bv32): (s: seq<bv8>)
    ensures |s| == 4
  {
    [(c & 0xFF) as bv8, ((c >> 8) & 0xFF) as bv8, ((c >> 16) & 0xFF) as bv8, (c >> 24) as bv8]
  }

  lemma FirstByte(r: bv32)
    ensures ByteStep(r, ((r ^ ONES) & 0xFF) as bv8) == 0x2D02_EF8D ^ (r >> 8)
  {
    hide ByteStep, BitSteps;
    var b := ((r ^ ONES) & 0xFF) as bv8;
    assert Index(r, b) == 0xFF;
    LookUps();
    TableStep(r, b);
  }

  lemma SecondByte(r: bv32)
    ensures ByteStep(0x2D02_EF8D ^ (r >> 8), (((r ^ ONES) >> 8) & 0xFF) as bv8) == 0xBE26_12FF ^ (r >> 16)
  {
    hide ByteStep, BitSteps;
    var (c, b) := (0x2D02_EF8D ^ (r >> 8), (((r ^ ONES) >> 8) & 0xFF) as bv8);
    assert Index(c, b) == 0x72;
    LookUps();
    TableStep(c, b);
  }

  lemma ThirdByte(r: bv32)
    ensures ByteStep(0xBE26_12FF ^ (r >> 16), (((r ^ ONES) >> 16) & 0xFF) as bv8) == 0xBE_2612 ^ (r >> 24)
  {
    hide ByteStep, BitSteps;
    var (c, b) := (0xBE26_12FF ^ (r >> 16), (((r ^ ONES) >> 16) & 0xFF) as bv8);
    assert Index(c, b) == 0;
    LookUps();
    TableStep(c, b);
  }

  lemma FourthByte(r: bv32)
    ensures ByteStep(0xBE_2612 ^ (r >> 24), ((r ^ ONES) >> 24) as bv8) == 0xDEBB_20E3
  {
    hide ByteStep, BitSteps;
    var (c, b) := (0xBE_2612 ^ (r >> 24), ((r ^ ONES) >> 24) as bv8);
    assert Index(c, b) == 0xED;
    LookUps();
    TableStep(c, b);
  }

  lemma LookUps()
    ensures BitSteps(0xFF, 8) == 0x2D02_EF8D && BitSteps(0x72, 8) == 0xBE0B_1010
    ensures BitSteps(0, 8) == 0 && BitSteps(0xED, 8) == 0xDEBB_9EC5
  {
  }

  lemma RegisterNext(data: seq<bv8>, b: bv8)
    ensures Register(ONES, data + [b]) == ByteStep(Register(ONES, data), b)
  {
    hide ByteStep;
    assert (data + [b])[..|data|] == data;
  }

  /** A message with its CRC behind it leaves the same register whatever it is: the
      complement is part of the CRC. */
  lemma Residue(data: seq<bv8>)
    ensures Register(ONES, data + Appended(Crc(data))) == 0xDEBB_20E3
  {
    hide ByteStep, Register;
    var (r, a) := (Register(ONES, data), Appended(Crc(data)));
    RegisterNext(data, a[0]);
    RegisterNext(data + [a[0]], a[1]);
    RegisterNext(data + [a[0]] + [a[1]], a[2]);
    RegisterNext(data + [a[0]] + [a[1]] + [a[2]], a[3]);
    assert data + a == data + [a[0]] + [a[1]] + [a[2]] + [a[3]];
    FirstByte(r);
    SecondByte(r);
    ThirdByte(r);
    FourthByte(r);
  }

  /** The check value of the code: the CRC of the digits from 1 to 9. */
  lemma CheckValue()
    ensures Crc([0x31, 0x32, 0x33, 0x34, 0x35, 0x36, 0x37, 0x38, 0x39]) == 0xCBF4_3926
  {
    hide ByteStep, Register;
    FirstDigits();
    LastDigits();
    var d: seq<bv8> := [0x31, 0x32, 0x33, 0x34, 0x35, 0x36, 0x37, 0x38, 0x39];
    RegisterOfNone();
    forall i | 0 <= i < 9 ensures Register(ONES, d[..i + 1]) == ByteStep(Register(ONES, d[..i]), d[i]) {
      RegisterNext(d[..i], d[i]);
      assert d[..i] + [d[i]] == d[..i + 1];
    }
    assert d[..0] == [] && d[..9] == d;
    assert Register(ONES, d[..0 + 1]) == 0x7C23_1048;
    assert Register(ONES, d[..1 + 1]) == 0xB0AC_BB32;
    assert Register(ONES, d[..2 + 1]) == 0x77B7_9C2D;
    assert Register(ONES, d[..3 + 1]) == 0x641C_1F5C;
    assert Register(ONES, d[..4 + 1]) == 0x340A_C5E3;
    assert Register(ONES, d[..5 + 1]) == 0xF68D_2C9E;
    assert Register(ONES, d[..6 + 1]) == 0xAFFC_9660;
    assert Register(ONES, d[..7 + 1]) == 0x651F_2550;
    assert Register(ONES, d[..8 + 1]) == 0x340B_C6D9;
  }

  lemma RegisterOfNone()
    ensures Register(ONES, []) == ONES
  {
  }

  lemma FirstDigits()
    ensures ByteStep(ONES, 0x31) == 0x7C23_1048 && ByteStep(0x7C23_1048, 0x32) == 0xB0AC_BB32
    ensures ByteStep(0xB0AC_BB32, 0x33) == 0x77B7_9C2D && ByteStep(0x77B7_9C2D, 0x34) == 0x641C_1F5C
  {
    assert BitSteps(0xFFFF_FFCE, 8) == 0x7C23_1048;
    assert BitSteps(0x7C23_107A, 8) == 0xB0AC_BB32;
    assert BitSteps(0xB0AC_BB01, 8) == 0x77B7_9C2D;
    assert BitSteps(0x77B7_9C19, 8) == 0x641C_1F5C;
  }

  lemma LastDigits()
    ensures ByteStep(0x641C_1F5C, 0x35) == 0x340A_C5E3 && ByteStep(0x340A_C5E3, 0x36) == 0xF68D_2C9E
    ensures ByteStep(0xF68D_2C9E, 0x37) == 0xAFFC_9660 && ByteStep(0xAFFC_9660, 0x38) == 0x651F_2550
    ensures ByteStep(0x651F_2550, 0x39) == 0x340B_C6D9
  {
    assert BitSteps(0x641C_1F69, 8) == 0x340A_C5E3;
    assert BitSteps(0x340A_C5D5, 8) == 0xF68D_2C9E;
    assert BitSteps(0xF68D_2CA9, 8) == 0xAFFC_9660;
    assert BitSteps(0xAFFC_9658, 8) == 0x651F_2550;
    assert BitSteps(0x651F_2569, 8) == 0x340B_C6D9;
  }
}
