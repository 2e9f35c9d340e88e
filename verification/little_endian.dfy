/** `LittleEndian`: the same sixteen functions as `BigEndian`, with the least significant
    byte first. The notational conventions are those of the `BigEndian` module. */
module LittleEndian {
  import opened Primitives
  import opened Radix
  import BigEndian

  // ---------------------------------------------------------------------------------------
  // Reads

  function ReadU16(buffer: Bytes, offset: int): (r: Result<uint16>)
    ensures r.Ok? <==> Fits(buffer, offset, 2)
    ensures r.Err? ==> r.error == IndexOutOfRange
    ensures r.Ok? ==> r.value == FromLittleEndian(buffer[offset..offset + 2])
  {
    if Fits(buffer, offset, 2) then
      LittleEndian2(buffer[offset..offset + 2]);
      Ok((buffer[offset] as int) + (buffer[offset + 1] as int) * 0x100)
    else
      Err(IndexOutOfRange)
  }

  function ReadS16(buffer: Bytes, offset: int): (r: Result<int16>)
    ensures r.Ok? <==> Fits(buffer, offset, 2)
    ensures r.Err? ==> r.error == IndexOutOfRange
    ensures r.Ok? ==> r.value == Signed(FromLittleEndian(buffer[offset..offset + 2]), 2)
  {
    if Fits(buffer, offset, 2) then
      LittleEndian2(buffer[offset..offset + 2]);
      // (short) (b0 | (b1 << 8))
      Ok(Wrap((buffer[offset] as int) + (buffer[offset + 1] as int) * 0x100, 2))
    else
      Err(IndexOutOfRange)
  }

  function ReadU24(buffer: Bytes, offset: int): (r: Result<uint32>)
    ensures r.Ok? <==> Fits(buffer, offset, 3)
    ensures r.Err? ==> r.error == IndexOutOfRange
    ensures r.Ok? ==> r.value < 0x100_0000
    ensures r.Ok? ==> r.value == FromLittleEndian(buffer[offset..offset + 3])
  {
    if Fits(buffer, offset, 3) then
      LittleEndian3(buffer[offset..offset + 3]);
      Pow256Values();
      Ok((buffer[offset] as int) + (buffer[offset + 1] as int) * 0x100 + (buffer[offset + 2] as int) * 0x1_0000)
    else
      Err(IndexOutOfRange)
  }

  /** The high byte, here the last one, goes through `(b2 << 24) >> 8`, which sign-extends
      bit 23. */
  function ReadS24(buffer: Bytes, offset: int): (r: Result<int32>)
    ensures r.Ok? <==> Fits(buffer, offset, 3)
    ensures r.Err? ==> r.error == IndexOutOfRange
    ensures r.Ok? ==> -0x80_0000 <= r.value < 0x80_0000
    ensures r.Ok? ==> r.value == Signed(FromLittleEndian(buffer[offset..offset + 3]), 3)
    ensures r.Ok? ==> (r.value < 0 <==> buffer[offset + 2] >= 0x80)
  {
    if Fits(buffer, offset, 3) then
      LittleEndian3(buffer[offset..offset + 3]);
      Pow256Values();
      SignedTopByteShifted(buffer[offset + 2]);
      SignedTopByte(buffer[offset + 2], (buffer[offset] as int) + (buffer[offset + 1] as int) * 0x100, 0x1_0000, 3);
      Ok((buffer[offset] as int) + (buffer[offset + 1] as int) * 0x100 +
         Wrap((buffer[offset + 2] as int) * 0x100_0000, 4) / 0x100)
    else
      Err(IndexOutOfRange)
  }

  function ReadU32(buffer: Bytes, offset: int): (r: Result<uint32>)
    ensures r.Ok? <==> Fits(buffer, offset, 4)
    ensures r.Err? ==> r.error == IndexOutOfRange
    ensures r.Ok? ==> r.value == FromLittleEndian(buffer[offset..offset + 4])
  {
    if Fits(buffer, offset, 4) then
      LittleEndian4(buffer[offset..offset + 4]);
      Ok((buffer[offset] as int) + (buffer[offset + 1] as int) * 0x100 +
         (buffer[offset + 2] as int) * 0x1_0000 + (buffer[offset + 3] as int) * 0x100_0000)
    else
      Err(IndexOutOfRange)
  }

  function ReadS32(buffer: Bytes, offset: int): (r: Result<int32>)
    ensures r.Ok? <==> Fits(buffer, offset, 4)
    ensures r.Err? ==> r.error == IndexOutOfRange
    ensures r.Ok? ==> r.value == Signed(FromLittleEndian(buffer[offset..offset + 4]), 4)
  {
    if Fits(buffer, offset, 4) then
      LittleEndian4(buffer[offset..offset + 4]);
      Pow256Values();
      SignedTopByte(buffer[offset + 3], (buffer[offset] as int) + (buffer[offset + 1] as int) * 0x100 +
        (buffer[offset + 2] as int) * 0x1_0000, 0x100_0000, 4);
      // b3 << 24 overflows into the sign bit of the int
      Ok((buffer[offset] as int) + (buffer[offset + 1] as int) * 0x100 +
         (buffer[offset + 2] as int) * 0x1_0000 + Wrap((buffer[offset + 3] as int) * 0x100_0000, 4))
    else
      Err(IndexOutOfRange)
  }

  function ReadU64(buffer: Bytes, offset: int): (r: Result<uint64>)
    ensures r.Ok? <==> Fits(buffer, offset, 8)
    ensures r.Err? ==> r.error == IndexOutOfRange
    ensures r.Ok? ==> r.value == FromLittleEndian(buffer[offset..offset + 8])
  {
    if Fits(buffer, offset, 8) then
      LittleEndian8(buffer[offset..offset + 8]);
      Ok((buffer[offset] as int) + (buffer[offset + 1] as int) * 0x100 +
         (buffer[offset + 2] as int) * 0x1_0000 + (buffer[offset + 3] as int) * 0x100_0000 +
         (buffer[offset + 4] as int) * 0x1_0000_0000 + (buffer[offset + 5] as int) * 0x100_0000_0000 +
         (buffer[offset + 6] as int) * 0x1_0000_0000_0000 + (buffer[offset + 7] as int) * 0x100_0000_0000_0000)
    else
      Err(IndexOutOfRange)
  }

  function ReadS64(buffer: Bytes, offset: int): (r: Result<int64>)
    ensures r.Ok? <==> Fits(buffer, offset, 8)
    ensures r.Err? ==> r.error == IndexOutOfRange
    ensures r.Ok? ==> r.value == Signed(FromLittleEndian(buffer[offset..offset + 8]), 8)
  {
    if Fits(buffer, offset, 8) then
      LittleEndian8(buffer[offset..offset + 8]);
      Pow256Values();
      SignedTopByte(buffer[offset + 7], (buffer[offset] as int) + (buffer[offset + 1] as int) * 0x100 +
        (buffer[offset + 2] as int) * 0x1_0000 + (buffer[offset + 3] as int) * 0x100_0000 +
        (buffer[offset + 4] as int) * 0x1_0000_0000 + (buffer[offset + 5] as int) * 0x100_0000_0000 +
        (buffer[offset + 6] as int) * 0x1_0000_0000_0000, 0x100_0000_0000_0000, 8);
      // (long) b7 << 56 overflows into the sign bit of the long
      Ok((buffer[offset] as int) + (buffer[offset + 1] as int) * 0x100 +
         (buffer[offset + 2] as int) * 0x1_0000 + (buffer[offset + 3] as int) * 0x100_0000 +
         (buffer[offset + 4] as int) * 0x1_0000_0000 + (buffer[offset + 5] as int) * 0x100_0000_0000 +
         (buffer[offset + 6] as int) * 0x1_0000_0000_0000 +
         Wrap((buffer[offset + 7] as int) * 0x100_0000_0000_0000, 8))
    else
      Err(IndexOutOfRange)
  }

  // ---------------------------------------------------------------------------------------
  // Writes

  function WriteU16(buffer: Bytes, offset: int, value: uint16): (r: Store)
    ensures r == StoreBytes(buffer, offset, ToLittleEndian(value, 2))
    ensures r.Done? <==> Fits(buffer, offset, 2)
    ensures r.Done? ==> r.buffer == Overwrite(buffer, offset, ToLittleEndian(value, 2))
    ensures Confined(buffer, r.buffer, offset, 2)
  {
    LittleEndianBytes(value, 2);
    StoreIsOverwrite(buffer, offset, ToLittleEndian(value, 2));
    StoreBytes(buffer, offset, [value % 0x100, (value / 0x100) % 0x100])
  }

  function WriteS16(buffer: Bytes, offset: int, value: int16): (r: Store)
    ensures r == StoreBytes(buffer, offset, ToLittleEndian(value, 2))
    ensures r.Done? <==> Fits(buffer, offset, 2)
    ensures r.Done? ==> r.buffer == Overwrite(buffer, offset, ToLittleEndian(value, 2))
    ensures Confined(buffer, r.buffer, offset, 2)
  {
    LittleEndianBytes(value, 2);
    StoreIsOverwrite(buffer, offset, ToLittleEndian(value, 2));
    StoreBytes(buffer, offset, [value % 0x100, (value / 0x100) % 0x100])
  }

  /** Bits above the low 24 of `value` are dropped. */
  function WriteU24(buffer: Bytes, offset: int, value: uint32): (r: Store)
    ensures r == StoreBytes(buffer, offset, ToLittleEndian(value, 3))
    ensures r.Done? <==> Fits(buffer, offset, 3)
    ensures r.Done? ==> r.buffer == Overwrite(buffer, offset, ToLittleEndian(value, 3))
    ensures Confined(buffer, r.buffer, offset, 3)
  {
    LittleEndianBytes(value, 3);
    StoreIsOverwrite(buffer, offset, ToLittleEndian(value, 3));
    StoreBytes(buffer, offset, [value % 0x100, (value / 0x100) % 0x100, (value / 0x1_0000) % 0x100])
  }

  function WriteS24(buffer: Bytes, offset: int, value: int32): (r: Store)
    ensures r == StoreBytes(buffer, offset, ToLittleEndian(value, 3))
    ensures r.Done? <==> Fits(buffer, offset, 3)
    ensures r.Done? ==> r.buffer == Overwrite(buffer, offset, ToLittleEndian(value, 3))
    ensures Confined(buffer, r.buffer, offset, 3)
  {
    LittleEndianBytes(value, 3);
    StoreIsOverwrite(buffer, offset, ToLittleEndian(value, 3));
    StoreBytes(buffer, offset, [value % 0x100, (value / 0x100) % 0x100, (value / 0x1_0000) % 0x100])
  }

  function WriteU32(buffer: Bytes, offset: int, value: uint32): (r: Store)
    ensures r == StoreBytes(buffer, offset, ToLittleEndian(value, 4))
    ensures r.Done? <==> Fits(buffer, offset, 4)
    ensures r.Done? ==> r.buffer == Overwrite(buffer, offset, ToLittleEndian(value, 4))
    ensures Confined(buffer, r.buffer, offset, 4)
  {
    LittleEndianBytes(value, 4);
    StoreIsOverwrite(buffer, offset, ToLittleEndian(value, 4));
    StoreBytes(buffer, offset, [value % 0x100, (value / 0x100) % 0x100,
                                (value / 0x1_0000) % 0x100, (value / 0x100_0000) % 0x100])
  }

  function WriteS32(buffer: Bytes, offset: int, value: int32): (r: Store)
    ensures r == StoreBytes(buffer, offset, ToLittleEndian(value, 4))
    ensures r.Done? <==> Fits(buffer, offset, 4)
    ensures r.Done? ==> r.buffer == Overwrite(buffer, offset, ToLittleEndian(value, 4))
    ensures Confined(buffer, r.buffer, offset, 4)
  {
    LittleEndianBytes(value, 4);
    StoreIsOverwrite(buffer, offset, ToLittleEndian(value, 4));
    StoreBytes(buffer, offset, [value % 0x100, (value / 0x100) % 0x100,
                                (value / 0x1_0000) % 0x100, (value / 0x100_0000) % 0x100])
  }

  function WriteU64(buffer: Bytes, offset: int, value: uint64): (r: Store)
    ensures r == StoreBytes(buffer, offset, ToLittleEndian(value, 8))
    ensures r.Done? <==> Fits(buffer, offset, 8)
    ensures r.Done? ==> r.buffer == Overwrite(buffer, offset, ToLittleEndian(value, 8))
    ensures Confined(buffer, r.buffer, offset, 8)
  {
    LittleEndianBytes(value, 8);
    StoreIsOverwrite(buffer, offset, ToLittleEndian(value, 8));
    StoreBytes(buffer, offset, [value % 0x100, (value / 0x100) % 0x100,
                                (value / 0x1_0000) % 0x100, (value / 0x100_0000) % 0x100,
                                (value / 0x1_0000_0000) % 0x100, (value / 0x100_0000_0000) % 0x100,
                                (value / 0x1_0000_0000_0000) % 0x100, (value / 0x100_0000_0000_0000) % 0x100])
  }

  function WriteS64(buffer: Bytes, offset: int, value: int64): (r: Store)
    ensures r == StoreBytes(buffer, offset, ToLittleEndian(value, 8))
    ensures r.Done? <==> Fits(buffer, offset, 8)
    ensures r.Done? ==> r.buffer == Overwrite(buffer, offset, ToLittleEndian(value, 8))
    ensures Confined(buffer, r.buffer, offset, 8)
  {
    LittleEndianBytes(value, 8);
    StoreIsOverwrite(buffer, offset, ToLittleEndian(value, 8));
    StoreBytes(buffer, offset, [value % 0x100, (value / 0x100) % 0x100,
                                (value / 0x1_0000) % 0x100, (value / 0x100_0000) % 0x100,
                                (value / 0x1_0000_0000) % 0x100, (value / 0x100_0000_0000) % 0x100,
                                (value / 0x1_0000_0000_0000) % 0x100, (value / 0x100_0000_0000_0000) % 0x100])
  }

  // ---------------------------------------------------------------------------------------
  // Round trips

  lemma U16RoundTrip(buffer: Bytes, offset: int, value: uint16)
    requires Fits(buffer, offset, 2)
    ensures ReadU16(WriteU16(buffer, offset, value).buffer, offset) == Ok(value)
  {
    StoredWindow(buffer, offset, ToLittleEndian(value, 2));
    LittleEndianRoundTrip(value, 2);
    Pow256Values();
    DivModUnique(value, Pow256(2), 0, value);
  }

  lemma S16RoundTrip(buffer: Bytes, offset: int, value: int16)
    requires Fits(buffer, offset, 2)
    ensures ReadS16(WriteS16(buffer, offset, value).buffer, offset) == Ok(value)
  {
    StoredWindow(buffer, offset, ToLittleEndian(value, 2));
    LittleEndianRoundTrip(value, 2);
    SignedRoundTrip(value, 2);
  }

  /** `WriteU24` keeps `value & 0xFFFFFF`. */
  lemma U24RoundTrip(buffer: Bytes, offset: int, value: uint32)
    requires Fits(buffer, offset, 3)
    ensures ReadU24(WriteU24(buffer, offset, value).buffer, offset) == Ok(value % 0x100_0000)
  {
    StoredWindow(buffer, offset, ToLittleEndian(value, 3));
    LittleEndianRoundTrip(value, 3);
  }

  lemma S24RoundTrip(buffer: Bytes, offset: int, value: int32)
    requires Fits(buffer, offset, 3)
    ensures ReadS24(WriteS24(buffer, offset, value).buffer, offset) == Ok(Wrap(value, 3))
    ensures -0x80_0000 <= value < 0x80_0000 ==>
      ReadS24(WriteS24(buffer, offset, value).buffer, offset) == Ok(value)
  {
    StoredWindow(buffer, offset, ToLittleEndian(value, 3));
    LittleEndianRoundTrip(value, 3);
    if -0x80_0000 <= value < 0x80_0000 {
      SignedRoundTrip(value, 3);
    }
  }

  lemma U32RoundTrip(buffer: Bytes, offset: int, value: uint32)
    requires Fits(buffer, offset, 4)
    ensures ReadU32(WriteU32(buffer, offset, value).buffer, offset) == Ok(value)
  {
    StoredWindow(buffer, offset, ToLittleEndian(value, 4));
    LittleEndianRoundTrip(value, 4);
    Pow256Values();
    DivModUnique(value, Pow256(4), 0, value);
  }

  lemma S32RoundTrip(buffer: Bytes, offset: int, value: int32)
    requires Fits(buffer, offset, 4)
    ensures ReadS32(WriteS32(buffer, offset, value).buffer, offset) == Ok(value)
  {
    StoredWindow(buffer, offset, ToLittleEndian(value, 4));
    LittleEndianRoundTrip(value, 4);
    SignedRoundTrip(value, 4);
  }

  lemma U64RoundTrip(buffer: Bytes, offset: int, value: uint64)
    requires Fits(buffer, offset, 8)
    ensures ReadU64(WriteU64(buffer, offset, value).buffer, offset) == Ok(value)
  {
    StoredWindow(buffer, offset, ToLittleEndian(value, 8));
    LittleEndianRoundTrip(value, 8);
    Pow256Values();
    DivModUnique(value, Pow256(8), 0, value);
  }

  lemma S64RoundTrip(buffer: Bytes, offset: int, value: int64)
    requires Fits(buffer, offset, 8)
    ensures ReadS64(WriteS64(buffer, offset, value).buffer, offset) == Ok(value)
  {
    StoredWindow(buffer, offset, ToLittleEndian(value, 8));
    LittleEndianRoundTrip(value, 8);
    SignedRoundTrip(value, 8);
  }

  // ---------------------------------------------------------------------------------------
  // Layout and sign facts

  /** The four bytes `WriteU32` stores are those `BigEndian.WriteU32` stores for the same
      value, in reverse order. */
  lemma U32MirrorsBigEndian(buffer: Bytes, offset: int, value: uint32)
    requires Fits(buffer, offset, 4)
    ensures WriteU32(buffer, offset, value).buffer[offset..offset + 4] ==
      Reverse(BigEndian.WriteU32(buffer, offset, value).buffer[offset..offset + 4])
  {
    StoredWindow(buffer, offset, ToLittleEndian(value, 4));
    StoredWindow(buffer, offset, ToBigEndian(value, 4));
    LittleEndianIsReversed(value, 4);
  }

  lemma SignedReadsAreTwosComplement(buffer: Bytes, offset: int)
    requires Fits(buffer, offset, 2)
    ensures ReadS16(buffer, offset).value == Signed(ReadU16(buffer, offset).value, 2)
    ensures Fits(buffer, offset, 3) ==>
      (ReadS24(buffer, offset).value ==
         if buffer[offset + 2] >= 0x80 then ReadU24(buffer, offset).value - 0x100_0000
         else ReadU24(buffer, offset).value)
    ensures Fits(buffer, offset, 4) ==> ReadS32(buffer, offset).value == Signed(ReadU32(buffer, offset).value, 4)
    ensures Fits(buffer, offset, 8) ==> ReadS64(buffer, offset).value == Signed(ReadU64(buffer, offset).value, 8)
  {
  }

  /** `00 00 80` is the most negative 24-bit value. */
  lemma S24Minimum()
    ensures ReadS24([0x00, 0x00, 0x80], 0) == Ok(-0x80_0000)
    ensures ReadU24([0x00, 0x00, 0x80], 0) == Ok(0x80_0000)
  {
  }
}
