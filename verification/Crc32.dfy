/**
  CRC-32/ISO-HDLC, the CRC of section 8 of RFC 1952: bit by bit as in
  ground_ota.c, by table as in ota_flasher.c, and what it detects.
*/
module Crc32 {
  const POLY: bv32 := 0xEDB88320
  const ONES: bv32 := 0xFFFF_FFFF

  function Xor(x: bv32, y: bv32): bv32 { x ^ y }

  function BitStep(c: bv32): bv32 {
    if c & 1 != 0 then (c >> 1) ^ POLY else c >> 1
  }

  function BitSteps(c: bv32, n: nat): bv32 {
    if n == 0 then c else BitStep(BitSteps(c, n - 1))
  }

  function ByteStep(c: bv32, b: bv8): bv32 {
    BitSteps(Xor(c, b as bv32), 8)
  }

  /** The register after the bytes of data. */
  function Register(c: bv32, data: seq<bv8>): bv32 {
    if data == [] then c else ByteStep(Register(c, data[..|data| - 1]), data[|data| - 1])
  }

  function Crc(data: seq<bv8>): bv32 {
    Register(ONES, data) ^ ONES
  }

  /** crc32IsoHdlc (ground_ota.c:405-424). */
  method Crc32IsoHdlc(data: seq<bv8>) returns (crc: bv32)
    ensures crc == Crc(data)
  {
    crc := ONES;
    for i := 0 to |data|
      invariant crc == Register(ONES, data[..i])
    {
      ghost var start := Xor(crc, data[i] as bv32);
      crc := crc ^ (data[i] as bv32);
      for bit := 0 to 8
        invariant crc == BitSteps(start, bit)
      {
        if crc & 1 != 0 {
          crc := (crc >> 1) ^ POLY;
        } else {
          crc := crc >> 1;
        }
      }
      assert data[..i + 1][..i] == data[..i];
    }
    assert data[..|data|] == data;
    crc := crc ^ ONES;
  }

  // --------------------------------------------------------------- linearity

  lemma StepEvenEven(x: bv32, y: bv32)
    requires x & 1 == 0 && y & 1 == 0
    ensures BitStep(x ^ y) == BitStep(x) ^ BitStep(y)
  {
  }

  lemma StepEvenOdd(x: bv32, y: bv32)
    requires x & 1 == 0 && y & 1 != 0
    ensures BitStep(x ^ y) == BitStep(x) ^ BitStep(y)
  {
  }

  lemma StepOddOdd(x: bv32, y: bv32)
    requires x & 1 != 0 && y & 1 != 0
    ensures BitStep(x ^ y) == BitStep(x) ^ BitStep(y)
  {
  }

  lemma BitStepLinear(x: bv32, y: bv32)
    ensures BitStep(Xor(x, y)) == Xor(BitStep(x), BitStep(y))
  {
    hide BitStep;
    if x & 1 == 0 {
      if y & 1 == 0 { StepEvenEven(x, y); } else { StepEvenOdd(x, y); }
    } else {
      if y & 1 == 0 { StepEvenOdd(y, x); } else { StepOddOdd(x, y); }
    }
  }

  lemma {:induction false} BitStepsLinear(x: bv32, y: bv32, n: nat)
    ensures BitSteps(Xor(x, y), n) == Xor(BitSteps(x, n), BitSteps(y, n))
  {
    hide BitStep, Xor;
    if n > 0 {
      BitStepsLinear(x, y, n - 1);
      BitStepLinear(BitSteps(x, n - 1), BitSteps(y, n - 1));
    }
  }

  lemma {:induction false} BitStepsAdd(x: bv32, m: nat, n: nat)
    ensures BitSteps(BitSteps(x, m), n) == BitSteps(x, m + n)
  {
    hide BitStep;
    if n > 0 {
      BitStepsAdd(x, m, n - 1);
    }
  }

  /** A step forgets nothing: the polynomial has its top bit set. */
  lemma BitStepInjective(x: bv32, y: bv32)
    requires BitStep(x) == BitStep(y)
    ensures x == y
  {
  }

  lemma {:induction false} BitStepsInjective(x: bv32, y: bv32, n: nat)
    requires BitSteps(x, n) == BitSteps(y, n)
    ensures x == y
  {
    hide BitStep;
    if n > 0 {
      BitStepInjective(BitSteps(x, n - 1), BitSteps(y, n - 1));
      BitStepsInjective(x, y, n - 1);
    }
  }

  // --------------------------------------------------- the table, byte by byte

  lemma LowBitsShift(y: bv32)
    requires y & 0xFF == 0
    ensures BitSteps(y, 8) == y >> 8
  {
    assert BitSteps(y, 1) == y >> 1;
    assert BitSteps(y, 2) == y >> 2;
    assert BitSteps(y, 3) == y >> 3;
    assert BitSteps(y, 4) == y >> 4;
    assert BitSteps(y, 5) == y >> 5;
    assert BitSteps(y, 6) == y >> 6;
    assert BitSteps(y, 7) == y >> 7;
  }

  /** The table entry for byte b. */
  function Index(c: bv32, b: bv8): bv32 { (c ^ (b as bv32)) & 0xFF }

  lemma SplitLow(c: bv32, b: bv8)
    ensures var hi := c & 0xFFFF_FF00;
      Xor(c, b as bv32) == Xor(Index(c, b), hi) && hi >> 8 == c >> 8 && hi & 0xFF == 0
  {
  }

  /** One look-up does the work of eight bit steps. */
  lemma TableStep(c: bv32, b: bv8)
    ensures ByteStep(c, b) == Xor(BitSteps(Index(c, b), 8), c >> 8)
  {
    hide BitStep, BitSteps, Xor, Index;
    SplitLow(c, b);
    BitStepsLinear(Index(c, b), c & 0xFFFF_FF00, 8);
    LowBitsShift(c & 0xFFFF_FF00);
  }

  lemma WordIndex(c: bv32, b: bv8)
    ensures 0 <= Index(c, b) as int < 256 && ((Index(c, b) as int) as bv32) == Index(c, b)
  {
    hide Index;
    assert Index(c, b) <= 0xFF by { IndexBelow(c, b); }
  }

  lemma IndexBelow(c: bv32, b: bv8)
    ensures Index(c, b) <= 0xFF
  {
  }

  /** The branch-free step of the table build. */
  lemma BranchFree(v: bv32)
    ensures (v >> 1) ^ (POLY & (0 - (v & 1))) == BitStep(v)
  {
  }

  const BUFFER_SIZE: nat := 65536

  function Min(x: nat, y: nat): nat { if x < y then x else y }

  /** How many of `left` bytes one read of up to `limit` brings. */
  function Taken(limit: nat, left: nat, grants: seq<nat>): nat {
    if grants == [] then 0 else Min(grants[0], Min(limit, left))
  }

  /** How many of n bytes are left when reads bring no more. */
  function LeftOver(n: nat, grants: seq<nat>): nat
    decreases |grants|
  {
    var k := Taken(BUFFER_SIZE, n, grants);
    if k == 0 then n else LeftOver(n - k, grants[1..])
  }

  /** A file that is read in pieces: each fread hands over as many bytes as
      `grants` says, at most what was asked for, and nothing once that runs out
      (a read error, unless the end has been reached). */
  class InputFile {
    var rest: seq<bv8>
    var grants: seq<nat>
    ghost var taken: seq<bv8>

    constructor (contents: seq<bv8>, grants: seq<nat>)
      ensures rest == contents && taken == [] && this.grants == grants
    {
      rest, this.grants, taken := contents, grants, [];
    }

    method Fread(limit: nat) returns (chunk: seq<bv8>)
      modifies this
      ensures |chunk| <= limit && taken == old(taken) + chunk && taken + rest == old(taken + rest)
      ensures |chunk| == Taken(limit, |old(rest)|, old(grants)) && |rest| == |old(rest)| - |chunk|
      ensures grants == if old(grants) == [] then [] else old(grants)[1..]
    {
      var n := Taken(limit, |rest|, grants);
      chunk := rest[..n];
      grants := if grants == [] then [] else grants[1..];
      assert taken + rest == taken + chunk + rest[n..];
      taken, rest := taken + chunk, rest[n..];
    }

    predicate Failed()
      reads this
    {
      rest != []
    }
  }

  /** The two static variables of crc32_file (ota_flasher.c:7-32). */
  class FileCrc {
    const table: array<bv32>
    var initialized: bool

    ghost predicate Valid()
      reads this, table
    {
      table.Length == 256 && (initialized ==> forall i :: 0 <= i < 256 ==> table[i] == BitSteps(i as bv32, 8))
    }

    constructor ()
      ensures Valid() && fresh(table) && !initialized
    {
      table, initialized := new bv32[256], false;
    }

    /** Lines 14-24. */
    method BuildTable()
      requires Valid()
      modifies this`initialized, table
      ensures Valid() && initialized
    {
      hide BitSteps;
      for i := 0 to 256
        invariant forall j :: 0 <= j < i ==> table[j] == BitSteps(j as bv32, 8)
      {
        var value := TableEntry(i as bv32);
        table[i] := value;
      }
      initialized := true;
    }

    static method TableEntry(i: bv32) returns (value: bv32)
      ensures value == BitSteps(i, 8)
    {
      hide BitStep;
      value := i;
      for bit := 0 to 8
        invariant value == BitSteps(i, bit)
      {
        BranchFree(value);
        value := (value >> 1) ^ (POLY & (0 - (value & 1)));
      }
    }

    /** Whatever the sizes of the reads, and whether or not the table was there
        already: the CRC of the bytes read, which are the whole file unless
        reading failed. */
    method Crc32File(file: InputFile) returns (crc: bv32)
      requires Valid() && file != (this as object) && file.taken == []
      modifies this`initialized, table, file
      ensures Valid() && crc == Crc(file.taken) && file.taken + file.rest == old(file.rest)
      ensures !file.Failed() ==> crc == Crc(old(file.rest))
      ensures |file.rest| == LeftOver(|old(file.rest)|, old(file.grants))
    {
      hide BitSteps;
      crc := ONES;
      if !initialized {
        BuildTable();
      }
      var buffer := file.Fread(BUFFER_SIZE);
      while buffer != []
        invariant Valid() && initialized
        invariant |buffer| <= |file.taken| && file.taken == file.taken[..|file.taken| - |buffer|] + buffer
        invariant crc == Register(ONES, file.taken[..|file.taken| - |buffer|])
        invariant file.taken + file.rest == old(file.rest)
        invariant LeftOver(|old(file.rest)|, old(file.grants)) ==
          if buffer == [] then |file.rest| else LeftOver(|file.rest|, file.grants)
        decreases |file.rest| + |buffer|
      {
        ghost var before := file.taken[..|file.taken| - |buffer|];
        crc := AddBytes(crc, buffer, before);
        buffer := file.Fread(BUFFER_SIZE);
      }
      assert file.taken[..|file.taken|] == file.taken;
      crc := crc ^ ONES;
    }

    /** Lines 27-29: one buffer of bytes, one look-up each. */
    method AddBytes(start: bv32, buffer: seq<bv8>, ghost before: seq<bv8>) returns (crc: bv32)
      requires Valid() && initialized && start == Register(ONES, before)
      ensures crc == Register(ONES, before + buffer)
    {
      hide BitSteps, ByteStep, Xor, Index;
      crc := start;
      assert before + [] == before;
      for i := 0 to |buffer|
        invariant crc == Register(ONES, before + buffer[..i])
      {
        WordIndex(crc, buffer[i]);
        TableStep(crc, buffer[i]);
        assert (before + buffer[..i + 1])[..|before| + i] == before + buffer[..i];
        crc := Xor(table[Index(crc, buffer[i]) as int], crc >> 8);
      }
      assert buffer[..|buffer|] == buffer;
    }
  }
}
