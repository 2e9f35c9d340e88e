/** The unchecked 32-bit `int` arithmetic of the original's bounds checks and capacity
    doubling. Each check here is written as the original computes it, with the sum wrapping
    modulo 2^32, and comes with an input that shows where it goes wrong. The rest of the
    model uses the checks as evidently intended, comparing the exact sums. */
module Overflow {
  import opened Primitives
  import ValidationUtilities
  import Crc32
  import ProtocolReader
  import ProtocolWriter
  import Radix

  /** C#'s unchecked `a + b` on two `int`s. */
  function AddInt(a: int32, b: int32): (s: int32)
    ensures -0x8000_0000 <= a + b < 0x8000_0000 ==> s == a + b
    ensures a + b >= 0x8000_0000 ==> s == a + b - 0x1_0000_0000 && s < 0
    ensures a + b < -0x8000_0000 ==> s == a + b + 0x1_0000_0000 && s >= 0
  {
    var sum := a + b;
    if sum >= 0x8000_0000 then sum - 0x1_0000_0000
    else if sum < -0x8000_0000 then sum + 0x1_0000_0000
    else sum
  }

  /** The wrapped sum is the two's-complement narrowing the codecs use. */
  lemma AddIntIsWrap(a: int32, b: int32)
    ensures AddInt(a, b) == Wrap(a + b, 4)
  {
    Pow256Values();
    var sum := a + b;
    if sum >= 0x8000_0000 {
      Radix.DivModUnique(sum, 0x1_0000_0000, 0, sum);
    } else if sum >= 0 {
      Radix.DivModUnique(sum, 0x1_0000_0000, 0, sum);
    } else if sum >= -0x8000_0000 {
      Radix.DivModUnique(sum, 0x1_0000_0000, -1, sum + 0x1_0000_0000);
    } else {
      Radix.DivModUnique(sum, 0x1_0000_0000, -1, sum + 0x1_0000_0000);
    }
  }

  // ---------------------------------------------------------------------------------------
  // ValidateArraySlice

  /** `ValidateArraySlice` as written: the count check compares the wrapped `offset + count`
      with the length. */
  function ValidateArraySliceAsWritten<T>(items: Option<seq<T>>, offset: int32, count: int32,
                                          nameOfArray: string, nameOfOffset: string, nameOfCount: string): (r: Check)
    requires items.Some? ==> |items.value| < 0x8000_0000
    ensures offset + count < 0x8000_0000 ==>
      r == ValidationUtilities.ValidateArraySlice(items, offset, count, nameOfArray, nameOfOffset, nameOfCount)
    ensures r == Pass <==>
      items.Some? && (ValidationUtilities.InBounds(|items.value|, offset, count) || SliceSumWraps(|items.value|, offset, count))
  {
    if items.None? then
      Fail(ArgumentNull(nameOfArray))
    else if offset < 0 || offset > |items.value| then
      Fail(ArgumentOutOfRange(nameOfOffset))
    else if count < 0 || AddInt(offset, count) > |items.value| then
      Fail(ArgumentOutOfRange(nameOfCount))
    else
      Pass
  }

  /** The arguments the wrapped sum lets through although they are out of bounds: a valid
      offset and a count that takes the end past `int.MaxValue`. */
  predicate SliceSumWraps(length: int, offset: int, count: int) {
    0 <= offset <= length && 0 <= count && offset + count >= 0x8000_0000
  }

  /** The written check passes exactly the intended slices and the wrapping ones, and the
      wrapping ones are all out of bounds. */
  lemma ValidateArraySliceWrongfulPasses<T>(items: seq<T>, offset: int32, count: int32)
    requires |items| < 0x8000_0000
    ensures SliceSumWraps(|items|, offset, count) ==> !ValidationUtilities.InBounds(|items|, offset, count)
    ensures ValidateArraySliceAsWritten(Some(items), offset, count, "array", "offset", "count") !=
            ValidationUtilities.ValidateArraySlice(Some(items), offset, count, "array", "offset", "count")
        <==> SliceSumWraps(|items|, offset, count)
  {
  }

  /** Ten elements, offset 1, count `int.MaxValue`: the end, 2^31, wraps to -2^31 and the
      slice is accepted. */
  lemma ValidateArraySliceCounterexample()
    ensures var items: seq<byte> := seq(10, _ => 0);
      && ValidateArraySliceAsWritten(Some(items), 1, 0x7FFF_FFFF, "array", "offset", "count") == Pass
      && ValidationUtilities.ValidateArraySlice(Some(items), 1, 0x7FFF_FFFF, "array", "offset", "count")
         == Fail(ArgumentOutOfRange("count"))
  {
  }

  // ---------------------------------------------------------------------------------------
  // CRC32.Update

  /** What a call to `Update` leaves behind: the register, and the exception if one was
      thrown. */
  datatype Attempt = Attempt(crc: Crc32.Crc, thrown: Option<Error>)

  /** The bytes from `offset` to the end of the array, none if `offset` is past it. */
  function Tail(data: Bytes, offset: int): (t: Bytes)
    requires 0 <= offset
    ensures offset <= |data| ==> t == data[offset..]
    ensures |t| == if offset <= |data| then |data| - offset else 0
  {
    if offset <= |data| then data[offset..] else []
  }

  /** `CRC32.Update` as written: the count check wraps like the one above, and a call it
      lets through runs the loop until `buffer[offset + i]` is out of range, with every byte
      before that already folded into the register. */
  method UpdateAsWritten(c: Crc32.Crc, buffer: Option<Bytes>, offset: int32, count: int32) returns (a: Attempt)
    requires buffer.Some? ==> |buffer.value| < 0x8000_0000
    ensures a.thrown.None? <==> buffer.Some? && Fits(buffer.value, offset, count)
    ensures a.thrown.None? ==> a.crc == Crc32.Feed(c, buffer.value[offset..offset + count])
    ensures buffer.Some? && 0 <= offset && 0 <= count && offset + count >= 0x8000_0000 ==>
      a == Attempt(Crc32.Feed(c, Tail(buffer.value, offset)), Some(IndexOutOfRange))
    ensures a.thrown.Some? && !(buffer.Some? && 0 <= offset && 0 <= count && offset + count >= 0x8000_0000) ==>
      a.crc == c && a.thrown != Some(IndexOutOfRange)
  {
    if buffer.None? {
      return Attempt(c, Some(ArgumentNull("buffer")));
    }
    if offset < 0 {
      return Attempt(c, Some(ArgumentOutOfRange("offset")));
    }
    var data := buffer.value;
    if count < 0 || AddInt(offset, count) > |data| {
      return Attempt(c, Some(ArgumentOutOfRange("count")));
    }
    a := LoopAsWritten(c, data, offset, count);
  }

  /** `Update`'s loop once the check has let the call through: it folds in bytes until it
      has taken `count` of them or reaches the end of the array, where the index throws. */
  method LoopAsWritten(c: Crc32.Crc, data: Bytes, offset: int, count: int) returns (a: Attempt)
    requires 0 <= offset && 0 <= count
    ensures offset + count <= |data| ==> a == Attempt(Crc32.Feed(c, data[offset..offset + count]), None)
    ensures offset + count > |data| && count > 0 ==>
      a == Attempt(Crc32.Feed(c, Tail(data, offset)), Some(IndexOutOfRange))
    ensures count == 0 ==> a == Attempt(c, None)
  {
    var crc := c;
    var i := 0;
    ghost var fed: Bytes := [];
    while i < count
      invariant 0 <= i <= count
      invariant i > 0 ==> offset + i <= |data|
      invariant fed == if i == 0 then [] else data[offset..offset + i]
      invariant crc == Crc32.Feed(c, fed)
    {
      // the index `offset + i` stays below 2^31 up to the first one out of range
      if offset + i >= |data| {
        assert fed == Tail(data, offset);
        return Attempt(crc, Some(IndexOutOfRange));
      }
      Crc32.FeedByte(c, fed, data[offset + i]);
      SliceGrows(data, offset, offset + i);
      crc := Crc32.Step(crc, data[offset + i]);
      fed := fed + [data[offset + i]];
      i := i + 1;
    }
    return Attempt(crc, None);
  }

  /** A two-byte buffer, offset 1, count `int.MaxValue`: the call passes the check, takes in
      the last byte and then throws `IndexOutOfRangeException` with the register of a fresh
      accumulator changed, where the intended check throws `ArgumentOutOfRangeException`
      first. */
  lemma UpdateCounterexample()
    ensures var data: Bytes := [0, 0];
      && !Fits(data, 1, 0x7FFF_FFFF) && 1 + 0x7FFF_FFFF >= 0x8000_0000
      && Crc32.Feed(Crc32.Initial, Tail(data, 1)) != Crc32.Initial
  {
    var data: Bytes := [0, 0];
    assert Tail(data, 1) == [0];
    Crc32.FeedByte(Crc32.Initial, [], 0);
    assert [] + [0 as byte] == [0];
    Crc32.TableSpotValues();
  }

  // ---------------------------------------------------------------------------------------
  // ProtocolReader.Slice

  /** `ProtocolReader.Slice` as written: `ThrowIfNotAvailable`, the range constructor and
      the parent's `_position += bytes` all use the wrapped `_position + bytes`. */
  function SliceAsWritten(r: ProtocolReader.Reader, bytes: int32): (d: Result<ProtocolReader.Decoded<ProtocolReader.Reader>>)
    requires r.Valid()
    ensures r.position + bytes < 0x8000_0000 ==> d == ProtocolReader.Slice(r, bytes)
    ensures r.position + bytes >= 0x8000_0000 ==>
      && d.Ok?
      && d.value.next.Position() < 0
      && d.value.value.end < d.value.value.position
  {
    var past := AddInt(r.position, bytes);
    if past > r.end then
      Err(IndexOutOfRange)
    else
      match ValidateArraySliceAsWritten(Some(r.buffer), r.position, bytes, "data", "offset", "count")
      case Fail(e) => Err(e)
      case Pass =>
        Ok(ProtocolReader.Decoded(ProtocolReader.Reader(r.buffer, r.position, r.position, past), r.(position := past)))
  }

  /** A reader at position 1 of a two-byte array, asked for an `int.MaxValue`-byte slice:
      the intended check throws, while the written one hands out a child whose end lies
      before its start and moves the parent to position -2^31, where the next one-byte
      read passes the availability check and indexes outside the array. */
  lemma SliceCounterexample()
    ensures var r := ProtocolReader.Reader([0, 0], 0, 1, 2);
      && ProtocolReader.Slice(r, 0x7FFF_FFFF) == Err(IndexOutOfRange)
      && SliceAsWritten(r, 0x7FFF_FFFF).Ok?
      && SliceAsWritten(r, 0x7FFF_FFFF).value.next.Position() == -0x8000_0000
      && ProtocolReader.ThrowIfNotAvailable(SliceAsWritten(r, 0x7FFF_FFFF).value.next, 1) == Pass
      && !Fits(r.buffer, SliceAsWritten(r, 0x7FFF_FFFF).value.next.position, 1)
  {
  }

  // ---------------------------------------------------------------------------------------
  // ProtocolWriter.GrowToAccommodate

  /** The capacity after `n` rounds of the written loop's `capacity *= 2`. */
  function DoublingsAsWritten(capacity: int32, n: nat): int32 {
    if n == 0 then capacity else
      var c := DoublingsAsWritten(capacity, n - 1);
      AddInt(c, c)
  }

  /** From a 2^30-byte array, the first doubling wraps to -2^31 and the second to zero,
      which doubles to zero for ever. */
  lemma {:induction false} DoublingWrapsToZero(n: nat)
    requires n >= 2
    ensures DoublingsAsWritten(0x4000_0000, n) == 0
  {
    if n == 2 {
      assert DoublingsAsWritten(0x4000_0000, 1) == -0x8000_0000;
    } else {
      DoublingWrapsToZero(n - 1);
    }
  }

  /** So once more than 2^30 bytes are needed and the array has reached 2^30 bytes, no number
      of rounds makes the capacity enough: the do-while loop never ends. */
  lemma GrowthNeverEnds(needed: int32, n: nat)
    requires 0x4000_0000 < needed && n >= 1
    ensures DoublingsAsWritten(0x4000_0000, n) < needed
  {
    if n >= 2 {
      DoublingWrapsToZero(n);
    }
  }

  function Pow2(n: nat): (p: nat)
    ensures p > 0
  {
    if n == 0 then 1 else 2 * Pow2(n - 1)
  }

  /** While the capacity stays within 2^30 bytes the written rounds double exactly, as the
      model's `ProtocolWriter.NewCapacity` does. */
  lemma {:induction false} DoublingExactBelowLimit(capacity: int32, n: nat)
    requires 0 < capacity && capacity * Pow2(n) <= ProtocolWriter.MaxCapacity
    ensures DoublingsAsWritten(capacity, n) == capacity * Pow2(n)
  {
    if n > 0 {
      assert capacity * Pow2(n) == 2 * (capacity * Pow2(n - 1));
      DoublingExactBelowLimit(capacity, n - 1);
    }
  }
}
