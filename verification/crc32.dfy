/** `CRC32`: a resumable, table-driven CRC-32 with the reflected polynomial 0xEDB88320,
    initial state 0xFFFFFFFF and final XOR 0xFFFFFFFF (the frame check sequence of
    IEEE 802.3, clause 3.2.9). The accumulator's only state is the 32-bit register. */
module Crc32 {
  import opened Primitives

  const Polynomial: bv32 := 0xEDB8_8320

  /** The register of a fresh accumulator. */
  const InitialState: bv32 := 0xFFFF_FFFF

  datatype Crc = Crc(state: bv32)

  const Initial := Crc(InitialState)

  // ---------------------------------------------------------------------------------------
  // The lookup table

  /** One shift of the reflected register: drop the low bit and, if it was set, fold in
      the polynomial. */
  function Round(c: bv32): bv32 {
    if c & 1 != 0 then Polynomial ^ (c >> 1) else c >> 1
  }

  /** `n` consecutive rounds. */
  function Rounds(c: bv32, n: nat): bv32 {
    if n == 0 then c else Round(Rounds(c, n - 1))
  }

  /** Entry `i` of the lookup table (for `i` below 256): eight rounds starting from `i`. */
  function TableEntry(i: bv32): bv32 {
    Rounds(i, 8)
  }

  /** The static initialiser's nested loops. */
  method GenerateLookupTable() returns (table: seq<bv32>)
    ensures |table| == 0x100
    ensures forall i | 0 <= i < 0x100 :: table[i] == TableEntry(i as bv32)
  {
    table := [];
    var i := 0;
    while i < 0x100
      invariant 0 <= i <= 0x100
      invariant |table| == i
      invariant forall k | 0 <= k < i :: table[k] == TableEntry(k as bv32)
    {
      var c: bv32 := i as bv32;
      var j := 0;
      while j < 8
        invariant 0 <= j <= 8
        invariant c == Rounds(i as bv32, j)
      {
        ghost var before := c;
        if c & 1 != 0 {
          c := Polynomial ^ (c >> 1);
        } else {
          c := c >> 1;
        }
        assert c == Round(before);
        j := j + 1;
      }
      table := table + [c];
      i := i + 1;
    }
  }

  // ---------------------------------------------------------------------------------------
  // Processing bytes

  /** One iteration of `Update`'s loop: a table lookup on the low byte of `state ^ b`. */
  function Step(c: Crc, b: byte): Crc {
    Crc(TableEntry((c.state ^ (b as bv32)) & 0xFF) ^ (c.state >> 8))
  }

  /** The register after processing `data` from `state`, one byte at a time. */
  function Feed(c: Crc, data: Bytes): Crc {
    if |data| == 0 then c else Step(Feed(c, data[..|data| - 1]), data[|data| - 1])
  }

  /** C#'s `Update(buffer, offset, count)`. The checks come before the loop, so a
      rejected call leaves the register as it was. */
  method Update(c: Crc, buffer: Option<Bytes>, offset: int32, count: int32) returns (r: Result<Crc>)
    ensures buffer.None? ==> r == Err(ArgumentNull("buffer"))
    ensures buffer.Some? && offset < 0 ==> r == Err(ArgumentOutOfRange("offset"))
    ensures buffer.Some? && 0 <= offset && (count < 0 || offset + count > |buffer.value|) ==>
      r == Err(ArgumentOutOfRange("count"))
    ensures r.Ok? <==> buffer.Some? && Fits(buffer.value, offset, count)
    ensures r.Ok? ==> r.value == Feed(c, buffer.value[offset..offset + count])
  {
    if buffer.None? {
      return Err(ArgumentNull("buffer"));
    }
    if offset < 0 {
      return Err(ArgumentOutOfRange("offset"));
    }
    var data := buffer.value;
    if count < 0 || offset + count > |data| {
      return Err(ArgumentOutOfRange("count"));
    }
    var crc := FeedLoop(c, data, offset, count);
    return Ok(crc);
  }

  /** `Update`'s loop over a range the checks have accepted. */
  method FeedLoop(c: Crc, data: Bytes, offset: int, count: int) returns (crc: Crc)
    requires Fits(data, offset, count)
    ensures crc == Feed(c, data[offset..offset + count])
  {
    crc := c;
    var i := 0;
    ghost var fed: Bytes := [];
    while i < count
      invariant 0 <= i <= count
      invariant fed == data[offset..offset + i]
      invariant crc == Feed(c, fed)
    {
      FeedByte(c, fed, data[offset + i]);
      SliceGrows(data, offset, offset + i);
      crc := Step(crc, data[offset + i]);
      fed := fed + [data[offset + i]];
      i := i + 1;
    }
  }

  /** C#'s `Value`: the register with the final XOR applied. The XOR is taken on `uint`s
      and then widened, so the `long` is never negative. */
  function Value(c: Crc): (v: int)
    ensures 0 <= v < 0x1_0000_0000
  {
    (c.state ^ 0xFFFF_FFFF) as int
  }

  /** The CRC-32 of a whole message. */
  function Checksum(data: Bytes): (v: int)
    ensures 0 <= v < 0x1_0000_0000
  {
    Value(Feed(Initial, data))
  }

  // ---------------------------------------------------------------------------------------
  // Properties of the accumulator

  /** Resumability: processing `a + b` in one call leaves the register where processing
      `a` and then `b` does. */
  lemma {:induction false} FeedSplit(state: Crc, a: Bytes, b: Bytes)
    ensures Feed(state, a + b) == Feed(Feed(state, a), b)
  {
    if |b| == 0 {
      assert a + b == a;
    } else {
      assert (a + b)[..|a + b| - 1] == a + b[..|b| - 1];
      FeedSplit(state, a, b[..|b| - 1]);
    }
  }

  lemma FreshValueIsZero()
    ensures Value(Initial) == 0
  {
  }

  // The register values of the check computation below, three bytes at a time.

  lemma CheckSteps1()
    ensures Step(Crc(0xFFFF_FFFF), 0x31) == Crc(0x7C23_1048)
    ensures Step(Crc(0x7C23_1048), 0x32) == Crc(0xB0AC_BB32)
    ensures Step(Crc(0xB0AC_BB32), 0x33) == Crc(0x77B7_9C2D)
  {
    assert TableEntry(0xCE) == 0x7CDC_EFB7;
    assert TableEntry(0x7A) == 0xB0D0_9822;
    assert TableEntry(0x01) == 0x7707_3096;
  }

  lemma CheckSteps2()
    ensures Step(Crc(0x77B7_9C2D), 0x34) == Crc(0x641C_1F5C)
    ensures Step(Crc(0x641C_1F5C), 0x35) == Crc(0x340A_C5E3)
    ensures Step(Crc(0x340A_C5E3), 0x36) == Crc(0xF68D_2C9E)
  {
    assert TableEntry(0x19) == 0x646B_A8C0;
    assert TableEntry(0x69) == 0x346E_D9FC;
    assert TableEntry(0xD5) == 0xF6B9_265B;
  }

  lemma CheckSteps3()
    ensures Step(Crc(0xF68D_2C9E), 0x37) == Crc(0xAFFC_9660)
    ensures Step(Crc(0xAFFC_9660), 0x38) == Crc(0x651F_2550)
    ensures Step(Crc(0x651F_2550), 0x39) == Crc(0x340B_C6D9)
  {
    assert TableEntry(0xA9) == 0xAF0A_1B4C;
    assert TableEntry(0x58) == 0x65B0_D9C6;
    assert TableEntry(0x69) == 0x346E_D9FC;
  }

  /** The check value of CRC-32/ISO-HDLC: the CRC of ASCII "123456789". */
  lemma CheckValue()
    ensures Checksum([0x31, 0x32, 0x33, 0x34, 0x35, 0x36, 0x37, 0x38, 0x39]) == 0xCBF4_3926
  {
    CheckRegister([0x31, 0x32, 0x33, 0x34, 0x35, 0x36, 0x37, 0x38, 0x39]);
  }

  /** The register after the nine check bytes, computed one prefix at a time. */
  lemma CheckRegister(d: Bytes)
    requires |d| == 9 && d[0] == 0x31 && d[1] == 0x32 && d[2] == 0x33 && d[3] == 0x34
    requires d[4] == 0x35 && d[5] == 0x36 && d[6] == 0x37 && d[7] == 0x38 && d[8] == 0x39
    ensures Feed(Initial, d) == Crc(0x340B_C6D9)
  {
    CheckSteps1();
    CheckSteps2();
    CheckSteps3();
    assert Feed(Initial, d[..0]) == Initial;
    FeedSnoc(Initial, d, 0);
    assert Feed(Initial, d[..1]) == Crc(0x7C23_1048);
    FeedSnoc(Initial, d, 1);
    assert Feed(Initial, d[..2]) == Crc(0xB0AC_BB32);
    FeedSnoc(Initial, d, 2);
    assert Feed(Initial, d[..3]) == Crc(0x77B7_9C2D);
    FeedSnoc(Initial, d, 3);
    assert Feed(Initial, d[..4]) == Crc(0x641C_1F5C);
    FeedSnoc(Initial, d, 4);
    assert Feed(Initial, d[..5]) == Crc(0x340A_C5E3);
    FeedSnoc(Initial, d, 5);
    assert Feed(Initial, d[..6]) == Crc(0xF68D_2C9E);
    FeedSnoc(Initial, d, 6);
    assert Feed(Initial, d[..7]) == Crc(0xAFFC_9660);
    FeedSnoc(Initial, d, 7);
    assert Feed(Initial, d[..8]) == Crc(0x651F_2550);
    FeedSnoc(Initial, d, 8);
    assert Feed(Initial, d[..9]) == Crc(0x340B_C6D9);
    assert d[..9] == d;
  }

  lemma FeedSnoc(state: Crc, data: Bytes, k: int)
    requires 0 <= k < |data|
    ensures Feed(state, data[..k + 1]) == Step(Feed(state, data[..k]), data[k])
  {
    assert data[..k + 1][..k] == data[..k];
  }

  lemma FeedByte(state: Crc, data: Bytes, b: byte)
    ensures Feed(state, data + [b]) == Step(Feed(state, data), b)
  {
    assert (data + [b])[..|data|] == data;
  }

  lemma TableSpotValues()
    ensures TableEntry(0) == 0 && TableEntry(1) == 0x7707_3096
    ensures TableEntry(0x80) == 0xEDB8_8320 && TableEntry(0xFF) == 0x2D02_EF8D
  {
  }
}
