/** `BigEndian`: packs and unpacks 16-, 24-, 32- and 64-bit integers at an offset in a byte
    array, most significant byte first. Shifts are written as multiplication and division by
    powers of two (`/` by a positive divisor is C#'s arithmetic `>>`), `(byte)` casts as
    `% 0x100`, and `|` of byte fields as `+`, since the fields occupy disjoint bits. An index
    outside the array raises `IndexOutOfRange`; a write stores its bytes in order, so the
    bytes before the first bad index are already stored when it raises. */
module BigEndian {
  import opened Primitives
  import opened Radix

  // ---------------------------------------------------------------------------------------
  // Reads

  function ReadU16(buffer: Bytes, offset: int): (r: Result<uint16>)
    ensures r.Ok? <==> Fits(buffer, offset, 2)
    ensures r.Err? ==> r.error == IndexOutOfRange
    ensures r.Ok? ==> r.value == FromBigEndian(buffer[offset..offset + 2])
  {
    if Fits(buffer, offset, 2) then
      BigEndian2(buffer[offset..offset + 2]);
      Ok((buffer[offset] as int) * 0x100 + buffer[offset + 1])
    else
      Err(IndexOutOfRange)
  }

  function ReadS16(buffer: Bytes, offset: int): (r: Result<int16>)
    ensures r.Ok? <==> Fits(buffer, offset, 2)
    ensures r.Err? ==> r.error == IndexOutOfRange
    ensures r.Ok? ==> r.value == Signed(FromBigEndian(buffer[offset..offset + 2]), 2)
  {
    if Fits(buffer, offset, 2) then
      BigEndian2(buffer[offset..offset + 2]);
      // (short) ((b0 << 8) | b1)
      Ok(Wrap((buffer[offset] as int) * 0x100 + buffer[offset + 1], 2))
    else
      Err(IndexOutOfRange)
  }

  function ReadU24(buffer: Bytes, offset: int): (r: Result<uint32>)
    ensures r.Ok? <==> Fits(buffer, offset, 3)
    ensures r.Err? ==> r.error == IndexOutOfRange
    ensures r.Ok? ==> r.value < 0x100_0000
    ensures r.Ok? ==> r.value == FromBigEndian(buffer[offset..offset + 3])
  {
    if Fits(buffer, offset, 3) then
      BigEndian3(buffer[offset..offset + 3]);
      Ok((buffer[offset] as int) * 0x1_0000 + (buffer[offset + 1] as int) * 0x100 + buffer[offset + 2])
    else
      Err(IndexOutOfRange)
  }

  /** The high byte goes through `(b0 << 24) >> 8`: shifted into the top of an `int`, which
      makes bit 23 the sign bit, then arithmetically back down, which copies it upwards. */
  function ReadS24(buffer: Bytes, offset: int): (r: Result<int32>)
    ensures r.Ok? <==> Fits(buffer, offset, 3)
    ensures r.Err? ==> r.error == IndexOutOfRange
    ensures r.Ok? ==> -0x80_0000 <= r.value < 0x80_0000
    ensures r.Ok? ==> r.value == Signed(FromBigEndian(buffer[offset..offset + 3]), 3)
    ensures r.Ok? ==> (r.value < 0 <==> buffer[offset] >= 0x80)
  {
    if Fits(buffer, offset, 3) then
      BigEndian3(buffer[offset..offset + 3]);
      Pow256Values();
      SignedTopByteShifted(buffer[offset]);
      SignedTopByte(buffer[offset], (buffer[offset + 1] as int) * 0x100 + buffer[offset + 2], 0x1_0000, 3);
      Ok(Wrap((buffer[offset] as int) * 0x100_0000, 4) / 0x100 +
         (buffer[offset + 1] as int) * 0x100 + buffer[offset + 2])
    else
      Err(IndexOutOfRange)
  }

  function ReadU32(buffer: Bytes, offset: int): (r: Result<uint32>)
    ensures r.Ok? <==> Fits(buffer, offset, 4)
    ensures r.Err? ==> r.error == IndexOutOfRange
    ensures r.Ok? ==> r.value == FromBigEndian(buffer[offset..offset + 4])
  {
    if Fits(buffer, offset, 4) then
      BigEndian4(buffer[offset..offset + 4]);
      Ok((buffer[offset] as int) * 0x100_0000 + (buffer[offset + 1] as int) * 0x1_0000 +
         (buffer[offset + 2] as int) * 0x100 + buffer[offset + 3])
    else
      Err(IndexOutOfRange)
  }

  function ReadS32(buffer: Bytes, offset: int): (r: Result<int32>)
    ensures r.Ok? <==> Fits(buffer, offset, 4)
    ensures r.Err? ==> r.error == IndexOutOfRange
    ensures r.Ok? ==> r.value == Signed(FromBigEndian(buffer[offset..offset + 4]), 4)
  {
    if Fits(buffer, offset, 4) then
      BigEndian4(buffer[offset..offset + 4]);
      Pow256Values();
      SignedTopByte(buffer[offset], (buffer[offset + 1] as int) * 0x1_0000 +
        (buffer[offset + 2] as int) * 0x100 + buffer[offset + 3], 0x100_0000, 4);
      // b0 << 24 overflows into the sign bit of the int
      Ok(Wrap((buffer[offset] as int) * 0x100_0000, 4) + (buffer[offset + 1] as int) * 0x1_0000 +
         (buffer[offset + 2] as int) * 0x100 + buffer[offset + 3])
    else
      Err(IndexOutOfRange)
  }

  function ReadU64(buffer: Bytes, offset: int): (r: Result<uint64>)
    ensures r.Ok? <==> Fits(buffer, offset, 8)
    ensures r.Err? ==> r.error == IndexOutOfRange
    ensures r.Ok? ==> r.value == FromBigEndian(buffer[offset..offset + 8])
  {
    if Fits(buffer, offset, 8) then
      BigEndian8(buffer[offset..offset + 8]);
      Ok((buffer[offset] as int) * 0x100_0000_0000_0000 + (buffer[offset + 1] as int) * 0x1_0000_0000_0000 +
         (buffer[offset + 2] as int) * 0x100_0000_0000 + (buffer[offset + 3] as int) * 0x1_0000_0000 +
         (buffer[offset + 4] as int) * 0x100_0000 + (buffer[offset + 5] as int) * 0x1_0000 +
         (buffer[offset + 6] as int) * 0x100 + buffer[offset + 7])
    else
      Err(IndexOutOfRange)
  }

  function ReadS64(buffer: Bytes, offset: int): (r: Result<int64>)
    ensures r.Ok? <==> Fits(buffer, offset, 8)
    ensures r.Err? ==> r.error == IndexOutOfRange
    ensures r.Ok? ==> r.value == Signed(FromBigEndian(buffer[offset..offset + 8]), 8)
  {
    if Fits(buffer, offset, 8) then
      BigEndian8(buffer[offset..offset + 8]);
      Pow256Values();
      SignedTopByte(buffer[offset], (buffer[offset + 1] as int) * 0x1_0000_0000_0000 +
        (buffer[offset + 2] as int) * 0x100_0000_0000 + (buffer[offset + 3] as int) * 0x1_0000_0000 +
        (buffer[offset + 4] as int) * 0x100_0000 + (buffer[offset + 5] as int) * 0x1_0000 +
        (buffer[offset + 6] as int) * 0x100 + buffer[offset + 7], 0x100_0000_0000_0000, 8);
      // (long) b0 << 56 overflows into the sign bit of the long
      Ok(Wrap((buffer[offset] as int) * 0x100_0000_0000_0000, 8) + (buffer[offset + 1] as int) * 0x1_0000_0000_0000 +
         (buffer[offset + 2] as int) * 0x100_0000_0000 + (buffer[offset + 3] as int) * 0x1_0000_0000 +
         (buffer[offset + 4] as int) * 0x100_0000 + (buffer[offset + 5] as int) * 0x1_0000 +
         (buffer[offset + 6] as int) * 0x100 + buffer[offset + 7])
    else
      Err(IndexOutOfRange)
  }

  // ---------------------------------------------------------------------------------------
  // Writes. `(byte) (value >> k)` is `(value / 2^k) % 0x100` for signed and unsigned values.

  function WriteU16(buffer: Bytes, offset: int, value: uint16): (r: Store)
    ensures r == StoreBytes(buffer, offset, ToBigEndian(value, 2))
    ensures r.Done? <==> Fits(buffer, offset, 2)
    ensures r.Done? ==> r.buffer == Overwrite(buffer, offset, ToBigEndian(value, 2))
    ensures Confined(buffer, r.buffer, offset, 2)
  {
    BigEndianBytes(value, 2);
    StoreIsOverwrite(buffer, offset, ToBigEndian(value, 2));
    StoreBytes(buffer, offset, [(value / 0x100) % 0x100, value % 0x100])
  }

  function WriteS16(buffer: Bytes, offset: int, value: int16): (r: Store)
    ensures r == StoreBytes(buffer, offset, ToBigEndian(value, 2))
    ensures r.Done? <==> Fits(buffer, offset, 2)
    ensures r.Done? ==> r.buffer == Overwrite(buffer, offset, ToBigEndian(value, 2))
    ensures Confined(buffer, r.buffer, offset, 2)
  {
    BigEndianBytes(value, 2);
    StoreIsOverwrite(buffer, offset, ToBigEndian(value, 2));
    StoreBytes(buffer, offset, [(value / 0x100) % 0x100, value % 0x100])
  }

  /** Bits above the low 24 of `value` are dropped. */
  function WriteU24(buffer: Bytes, offset: int, value: uint32): (r: Store)
    ensures r == StoreBytes(buffer, offset, ToBigEndian(value, 3))
    ensures r.Done? <==> Fits(buffer, offset, 3)
    ensures r.Done? ==> r.buffer == Overwrite(buffer, offset, ToBigEndian(value, 3))
    ensures Confined(buffer, r.buffer, offset, 3)
  {
    BigEndianBytes(value, 3);
    StoreIsOverwrite(buffer, offset, ToBigEndian(value, 3));
    StoreBytes(buffer, offset, [(value / 0x1_0000) % 0x100, (value / 0x100) % 0x100, value % 0x100])
  }

  function WriteS24(buffer: Bytes, offset: int, value: int32): (r: Store)
    ensures r == StoreBytes(buffer, offset, ToBigEndian(value, 3))
    ensures r.Done? <==> Fits(buffer, offset, 3)
    ensures r.Done? ==> r.buffer == Overwrite(buffer, offset, ToBigEndian(value, 3))
    ensures Confined(buffer, r.buffer, offset, 3)
  {
    BigEndianBytes(value, 3);
    StoreIsOverwrite(buffer, offset, ToBigEndian(value, 3));
    StoreBytes(buffer, offset, [(value / 0x1_0000) % 0x100, (value / 0x100) % 0x100, value % 0x100])
  }

  function WriteU32(buffer: Bytes, offset: int, value: uint32): (r: Store)
    ensures r == StoreBytes(buffer, offset, ToBigEndian(value, 4))
    ensures r.Done? <==> Fits(buffer, offset, 4)
    ensures r.Done? ==> r.buffer == Overwrite(buffer, offset, ToBigEndian(value, 4))
    ensures Confined(buffer, r.buffer, offset, 4)
  {
    BigEndianBytes(value, 4);
    StoreIsOverwrite(buffer, offset, ToBigEndian(value, 4));
    StoreBytes(buffer, offset, [(value / 0x100_0000) % 0x100, (value / 0x1_0000) % 0x100,
                                (value / 0x100) % 0x100, value % 0x100])
  }

  function WriteS32(buffer: Bytes, offset: int, value: int32): (r: Store)
    ensures r == StoreBytes(buffer, offset, ToBigEndian(value, 4))
    ensures r.Done? <==> Fits(buffer, offset, 4)
    ensures r.Done? ==> r.buffer == Overwrite(buffer, offset, ToBigEndian(value, 4))
    ensures Confined(buffer, r.buffer, offset, 4)
  {
    BigEndianBytes(value, 4);
    StoreIsOverwrite(buffer, offset, ToBigEndian(value, 4));
    StoreBytes(buffer, offset, [(value / 0x100_0000) % 0x100, (value / 0x1_0000) % 0x100,
                                (value / 0x100) % 0x100, value % 0x100])
  }

  function WriteU64(buffer: Bytes, offset: int, value: uint64): (r: Store)
    ensures r == StoreBytes(buffer, offset, ToBigEndian(value, 8))
    ensures r.Done? <==> Fits(buffer, offset, 8)
    ensures r.Done? ==> r.buffer == Overwrite(buffer, offset, ToBigEndian(value, 8))
    ensures Confined(buffer, r.buffer, offset, 8)
  {
    BigEndianBytes(value, 8);
    StoreIsOverwrite(buffer, offset, ToBigEndian(value, 8));
    StoreBytes(buffer, offset, [(value / 0x100_0000_0000_0000) % 0x100, (value / 0x1_0000_0000_0000) % 0x100,
                                (value / 0x100_0000_0000) % 0x100, (value / 0x1_0000_0000) % 0x100,
                                (value / 0x100_0000) % 0x100, (value / 0x1_0000) % 0x100,
                                (value / 0x100) % 0x100, value % 0x100])
  }

  function WriteS64(buffer: Bytes, offset: int, value: int64): (r: Store)
    ensures r == StoreBytes(buffer, offset, ToBigEndian(value, 8))
    ensures r.Done? <==> Fits(buffer, offset, 8)
    ensures r.Done? ==> r.buffer == Overwrite(buffer, offset, ToBigEndian(value, 8))
    ensures Confined(buffer, r.buffer, offset, 8)
  {
    BigEndianBytes(value, 8);
    StoreIsOverwrite(buffer, offset, ToBigEndian(value, 8));
    StoreBytes(buffer, offset, [(value / 0x100_0000_0000_0000) % 0x100, (value / 0x1_0000_0000_0000) % 0x100,
                                (value / 0x100_0000_0000) % 0x100, (value / 0x1_0000_0000) % 0x100,
                                (value / 0x100_0000) % 0x100, (value / 0x1_0000) % 0x100,
                                (value / 0x100) % 0x100, value % 0x100])
  }

  // ---------------------------------------------------------------------------------------
  // Round trips: a read at the offset of a completed write returns the value written, cut
  // to the field's width where the write discards bits.

  lemma U16RoundTrip(buffer: Bytes, offset: int, value: uint16)
    requires Fits(buffer, offset, 2)
    ensures ReadU16(WriteU16(buffer, offset, value).buffer, offset) == Ok(value)
  {
    StoredWindow(buffer, offset, ToBigEndian(value, 2));
    BigEndianRoundTrip(value, 2);
    Pow256Values();
    DivModUnique(value, Pow256(2), 0, value);
  }

  lemma S16RoundTrip(buffer: Bytes, offset: int, value: int16)
    requires Fits(buffer, offset, 2)
    ensures ReadS16(WriteS16(buffer, offset, value).buffer, offset) == Ok(value)
  {
    StoredWindow(buffer, offset, ToBigEndian(value, 2));
    BigEndianRoundTrip(value, 2);
    SignedRoundTrip(value, 2);
  }

  /** `WriteU24` keeps `value & 0xFFFFFF`. */
  lemma U24RoundTrip(buffer: Bytes, offset: int, value: uint32)
    requires Fits(buffer, offset, 3)
    ensures ReadU24(WriteU24(buffer, offset, value).buffer, offset) == Ok(value % 0x100_0000)
  {
    StoredWindow(buffer, offset, ToBigEndian(value, 3));
    BigEndianRoundTrip(value, 3);
  }

  /** A 24-bit signed value survives the trip; a wider one comes back as its low 24 bits
      read in two's complement. */
  lemma S24RoundTrip(buffer: Bytes, offset: int, value: int32)
    requires Fits(buffer, offset, 3)
    ensures ReadS24(WriteS24(buffer, offset, value).buffer, offset) == Ok(Wrap(value, 3))
    ensures -0x80_0000 <= value < 0x80_0000 ==>
      ReadS24(WriteS24(buffer, offset, value).buffer, offset) == Ok(value)
  {
    StoredWindow(buffer, offset, ToBigEndian(value, 3));
    BigEndianRoundTrip(value, 3);
    if -0x80_0000 <= value < 0x80_0000 {
      SignedRoundTrip(value, 3);
    }
  }

  lemma U32RoundTrip(buffer: Bytes, offset: int, value: uint32)
    requires Fits(buffer, offset, 4)
    ensures ReadU32(WriteU32(buffer, offset, value).buffer, offset) == Ok(value)
  {
    StoredWindow(buffer, offset, ToBigEndian(value, 4));
    BigEndianRoundTrip(value, 4);
    Pow256Values();
    DivModUnique(value, Pow256(4), 0, value);
  }

  lemma S32RoundTrip(buffer: Bytes, offset: int, value: int32)
    requires Fits(buffer, offset, 4)
    ensures ReadS32(WriteS32(buffer, offset, value).buffer, offset) == Ok(value)
  {
    StoredWindow(buffer, offset, ToBigEndian(value, 4));
    BigEndianRoundTrip(value, 4);
    SignedRoundTrip(value, 4);
  }

  lemma U64RoundTrip(buffer: Bytes, offset: int, value: uint64)
    requires Fits(buffer, offset, 8)
    ensures ReadU64(WriteU64(buffer, offset, value).buffer, offset) == Ok(value)
  {
    StoredWindow(buffer, offset, ToBigEndian(value, 8));
    BigEndianRoundTrip(value, 8);
    Pow256Values();
    DivModUnique(value, Pow256(8), 0, value);
  }

  lemma S64RoundTrip(buffer: Bytes, offset: int, value: int64)
    requires Fits(buffer, offset, 8)
    ensures ReadS64(WriteS64(buffer, offset, value).buffer, offset) == Ok(value)
  {
    StoredWindow(buffer, offset, ToBigEndian(value, 8));
    BigEndianRoundTrip(value, 8);
    SignedRoundTrip(value, 8);
  }

  // ---------------------------------------------------------------------------------------
  // Layout and sign facts

  /** Byte `k` of a 32-bit write is `(value >> (24 - 8k)) & 0xFF`: most significant first. */
  lemma U32MostSignificantFirst(buffer: Bytes, offset: int, value: uint32, k: nat)
    requires Fits(buffer, offset, 4) && k < 4
    ensures WriteU32(buffer, offset, value).buffer[offset + k] == (value / Pow256(3 - k)) % 0x100
  {
    BigEndianDigit(value, 4, k);
  }

  /** The signed reads are the two's-complement reading of the unsigned ones, and the 24-bit
      one sign-extends bit 23: it is the unsigned read less 2^24 exactly when the first byte
      has its top bit set. */
  lemma SignedReadsAreTwosComplement(buffer: Bytes, offset: int)
    requires Fits(buffer, offset, 2)
    ensures ReadS16(buffer, offset).value == Signed(ReadU16(buffer, offset).value, 2)
    ensures Fits(buffer, offset, 3) ==>
      (ReadS24(buffer, offset).value ==
         if buffer[offset] >= 0x80 then ReadU24(buffer, offset).value - 0x100_0000
         else ReadU24(buffer, offset).value)
    ensures Fits(buffer, offset, 4) ==> ReadS32(buffer, offset).value == Signed(ReadU32(buffer, offset).value, 4)
    ensures Fits(buffer, offset, 8) ==> ReadS64(buffer, offset).value == Signed(ReadU64(buffer, offset).value, 8)
  {
  }

  /** `80 00 00` is the most negative 24-bit value, not 2^23. */
  lemma S24Minimum()
    ensures ReadS24([0x80, 0x00, 0x00], 0) == Ok(-0x80_0000)
    ensures ReadU24([0x80, 0x00, 0x00], 0) == Ok(0x80_0000)
  {
  }
}
