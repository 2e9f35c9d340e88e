/** `ProtocolReader`: a cursor over a window of a byte array. Each read checks that enough
    bytes remain in the window, decodes them and advances the cursor. The reader is a value
    here: an operation returns what it read together with the advanced reader, and a failed
    operation returns only the exception, so the reader it was called on is unchanged. */
module ProtocolReader {
  import opened Primitives
  import opened Fields
  import ValidationUtilities
  import ArrayExtensions

  /** `buffer` is the wrapped array, `origin` the index of the window's first byte (the
      original position), `position` the cursor and `end` the index just past the window. */
  datatype Reader = Reader(buffer: Bytes, origin: int, position: int, end: int)
  {
    /** What every constructor establishes: the window lies inside the array, the cursor
        inside the window, and all indices are `int`s. */
    predicate Valid() {
      0 <= origin <= position <= end <= |buffer| < 0x8000_0000
    }

    /** C#'s `Available`: the bytes left in the window. */
    function Available(): int {
      end - position
    }

    /** C#'s `Position`: the bytes consumed since construction. */
    function Position(): int {
      position - origin
    }

    /** The unread part of the window. */
    function Remaining(): Bytes
      requires Valid()
    {
      buffer[position..end]
    }
  }

  /** A value read and the reader after the read. */
  datatype Decoded<+T> = Decoded(value: T, next: Reader)

  // ---------------------------------------------------------------------------------------
  // Constructors

  /** The `ArraySegment<byte>` constructor: the window is the segment. */
  function FromSegment(data: Segment): (r: Reader)
    requires data.WellFormed() && |data.source| < 0x8000_0000
    ensures r.Valid()
    ensures r.Position() == 0 && r.Available() == data.count
    ensures r.Remaining() == data.Contents()
  {
    Reader(data.source, data.offset, data.offset, data.offset + data.count)
  }

  /** The `byte[]` constructor: the window is the whole array. */
  function FromArray(data: Option<Bytes>): (r: Result<Reader>)
    requires data.Some? ==> |data.value| < 0x8000_0000
    ensures r.Ok? <==> data.Some?
    ensures data.None? ==> r == Err(ArgumentNull("data"))
    ensures r.Ok? ==> r.value.Valid() && r.value.Position() == 0 && r.value.Remaining() == data.value
  {
    match data
    case None => Err(ArgumentNull("data"))
    case Some(d) => Ok(Reader(d, 0, 0, |d|))
  }

  /** The `(byte[], int, int)` constructor: the window is the validated slice. */
  function FromRange(data: Option<Bytes>, offset: int32, count: int32): (r: Result<Reader>)
    requires data.Some? ==> |data.value| < 0x8000_0000
    ensures r.Ok? <==> data.Some? && ValidationUtilities.InBounds(|data.value|, offset, count)
    ensures r.Err? ==>
      Fail(r.error) == ValidationUtilities.ValidateArraySlice(data, offset, count, "data", "offset", "count")
    ensures r.Ok? ==>
      r.value.Valid() && r.value.Position() == 0 && r.value.Remaining() == data.value[offset..offset + count]
  {
    match ValidationUtilities.ValidateArraySlice(data, offset, count, "data", "offset", "count")
    case Fail(e) => Err(e)
    case Pass => Ok(Reader(data.value, offset, offset, offset + count))
  }

  // ---------------------------------------------------------------------------------------
  // Reads

  /** `ThrowIfNotAvailable`: only an excess is rejected, so a negative count passes. */
  function ThrowIfNotAvailable(r: Reader, bytes: int32): (c: Check)
    ensures c == Pass <==> bytes <= r.Available()
    ensures c.Fail? ==> c.error == IndexOutOfRange
  {
    if r.position + bytes > r.end then Fail(IndexOutOfRange) else Pass
  }

  /** The reader advanced past `bytes` bytes. */
  function Skip(r: Reader, bytes: int): Reader {
    r.(position := r.position + bytes)
  }

  /** The `Read*` members for the fixed-width fields (`ReadU8` to `ReadS64LE`): check that
      the field is available, decode it at the cursor, advance. The decoding is stated
      through the field's layout; `ReadFieldIsCodecRead` shows it is what the field's
      `BigEndian` or `LittleEndian` function returns. */
  function ReadField(r: Reader, k: Kind): (d: Result<Decoded<int>>)
    requires r.Valid()
    ensures d.Ok? <==> Width(k) <= r.Available()
    ensures d.Err? ==> d.error == IndexOutOfRange
    ensures d.Ok? ==>
      && d.value.value == Decode(k, r.Remaining()[..Width(k)])
      && d.value.next.Valid()
      && d.value.next.Remaining() == r.Remaining()[Width(k)..]
      && d.value.next.Position() == r.Position() + Width(k)
  {
    match ThrowIfNotAvailable(r, Width(k))
    case Fail(e) => Err(e)
    case Pass =>
      Ok(Decoded(Decode(k, r.Remaining()[..Width(k)]), Skip(r, Width(k))))
  }

  /** Each fixed-width read returns what the codec call of its C# member returns at the
      cursor. */
  lemma ReadFieldIsCodecRead(r: Reader, k: Kind)
    requires r.Valid() && Width(k) <= r.Available()
    ensures ReadAt(k, r.buffer, r.position).Ok?
    ensures ReadField(r, k).value.value == ReadAt(k, r.buffer, r.position).value
  {
    SliceSplit(r.buffer, r.position, r.end, Width(k));
  }

  /** `Read(int)`: a copy of the next `bytes` bytes. A negative count passes the
      availability check and is then rejected by the slice's own validation. */
  function Read(r: Reader, bytes: int32): (d: Result<Decoded<Bytes>>)
    requires r.Valid()
    ensures d.Ok? <==> 0 <= bytes <= r.Available()
    ensures bytes > r.Available() ==> d == Err(IndexOutOfRange)
    ensures bytes < 0 ==> d == Err(ArgumentOutOfRange("count"))
    ensures d.Ok? ==>
      && d.value.value == r.Remaining()[..bytes]
      && d.value.next.Valid()
      && d.value.next.Remaining() == r.Remaining()[bytes..]
      && d.value.next.Position() == r.Position() + bytes
  {
    match ThrowIfNotAvailable(r, bytes)
    case Fail(e) => Err(e)
    case Pass =>
      match ArrayExtensions.Slice(Some(r.buffer), r.position, bytes)
      case Err(e) => Err(e)
      case Ok(data) =>
        SliceSplit(r.buffer, r.position, r.end, bytes);
        Ok(Decoded(data, Skip(r, bytes)))
  }

  /** `Slice(int)`: a new reader over the next `bytes` bytes, built with the range
      constructor, while this reader skips them. */
  function Slice(r: Reader, bytes: int32): (d: Result<Decoded<Reader>>)
    requires r.Valid()
    ensures d.Ok? <==> 0 <= bytes <= r.Available()
    ensures bytes > r.Available() ==> d == Err(IndexOutOfRange)
    ensures bytes < 0 ==> d == Err(ArgumentOutOfRange("count"))
    ensures d.Ok? ==>
      && d.value.value.Valid()
      && d.value.value.Position() == 0
      && d.value.value.Remaining() == r.Remaining()[..bytes]
      && d.value.next.Valid()
      && d.value.next.Remaining() == r.Remaining()[bytes..]
      && d.value.next.Position() == r.Position() + bytes
  {
    match ThrowIfNotAvailable(r, bytes)
    case Fail(e) => Err(e)
    case Pass =>
      match FromRange(Some(r.buffer), r.position, bytes)
      case Err(e) => Err(e)
      case Ok(child) =>
        SliceSplit(r.buffer, r.position, r.end, bytes);
        Ok(Decoded(child, Skip(r, bytes)))
  }

  // ---------------------------------------------------------------------------------------
  // Properties

  /** A read consumes exactly what it returns: `Position + Available` is the same before and
      after every successful operation, and the window never moves. */
  lemma ConsumptionIsConserved(r: Reader, k: Kind, bytes: int32)
    requires r.Valid()
    ensures ReadField(r, k).Ok? ==> Conserves(r, ReadField(r, k).value.next)
    ensures Read(r, bytes).Ok? ==> Conserves(r, Read(r, bytes).value.next)
    ensures Slice(r, bytes).Ok? ==> Conserves(r, Slice(r, bytes).value.next)
  {
  }

  predicate Conserves(before: Reader, after: Reader) {
    && after.buffer == before.buffer
    && after.origin == before.origin
    && after.end == before.end
    && after.Position() + after.Available() == before.Position() + before.Available()
  }

  /** Reading everything from a slice gives the bytes the parent's `Read` of the same
      count gives. */
  lemma SliceMatchesRead(r: Reader, bytes: int32)
    requires r.Valid() && Slice(r, bytes).Ok?
    ensures Read(Slice(r, bytes).value.value, bytes).Ok?
    ensures Read(Slice(r, bytes).value.value, bytes).value.value == Read(r, bytes).value.value
    ensures Slice(r, bytes).value.next == Read(r, bytes).value.next
  {
  }

  /** A sliced-out reader cannot see past its own window: after it is used up, every
      further field read fails, whatever lies beyond in the array. */
  lemma SliceIsBounded(r: Reader, bytes: int32, k: Kind)
    requires r.Valid() && Slice(r, bytes).Ok?
    ensures var child := Read(Slice(r, bytes).value.value, bytes).value.next;
      child.Available() == 0 && ReadField(child, k).Err?
  {
  }
}
