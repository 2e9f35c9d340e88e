/** `ProtocolWriter`: an append-only byte stream over a growable array. Writes grow the array
    by doubling when needed and then store at the end of the written data; marks reserve a
    field to be filled in later through a placeholder. The writer is a value here: each
    operation returns the writer it leaves behind. */
module ProtocolWriter {
  import opened Primitives
  import opened Fields
  import ValidationUtilities
  import Radix

  /** The size of the array a new writer starts with. */
  const InitialCapacity := 1024

  /** The largest capacity the doubling reaches without leaving `int`: every operation
      here needs the written data to fit in it. */
  const MaxCapacity := 0x4000_0000

  /** A capacity the doubling can reach: the initial capacity times a power of two. */
  predicate Doubling(c: int)
    decreases c
  {
    c == InitialCapacity || (c > InitialCapacity && c % 2 == 0 && Doubling(c / 2))
  }

  /** `buffer` is the array (its length is the capacity), `used` the number of bytes written
      so far (`_bytesInBuffer`). */
  datatype Writer = Writer(buffer: Bytes, used: int)
  {
    predicate Valid() {
      Doubling(|buffer|) && |buffer| < 0x8000_0000 && 0 <= used <= |buffer|
    }

    /** C#'s `Position`: the number of bytes written so far. */
    function Position(): int {
      used
    }

    /** C#'s `ToArray`: a copy of the written bytes. */
    function ToArray(): Bytes
      requires Valid()
    {
      buffer[..used]
    }

    /** C#'s `Data`: the written bytes as a segment of the live array. */
    function Data(): (s: Segment)
      requires Valid()
      ensures s.WellFormed() && s.Contents() == ToArray()
    {
      Segment(buffer, 0, used)
    }
  }

  /** A writer fresh from the constructor: 1024 zero bytes, none written. */
  function New(): (w: Writer)
    ensures w.Valid() && w.ToArray() == [] && |w.buffer| == InitialCapacity
  {
    Writer(Zeros(InitialCapacity), 0)
  }

  /** C#'s `Reset`: forgets the written bytes but keeps the array and its contents. */
  function Reset(w: Writer): (r: Writer)
    requires w.Valid()
    ensures r.Valid() && r.ToArray() == [] && r.buffer == w.buffer
  {
    w.(used := 0)
  }

  // ---------------------------------------------------------------------------------------
  // Growth

  /** The capacity `GrowToAccommodate`'s do-while loop arrives at: double at least once,
      then until `needed` fits. */
  function NewCapacity(capacity: int, needed: int): (c: int)
    requires Doubling(capacity) && capacity < needed <= MaxCapacity
    decreases needed - capacity
    ensures Doubling(c)
    ensures needed <= c < 2 * needed
    ensures c >= 2 * capacity
  {
    var doubled := capacity * 2;
    DoublingDoubles(capacity);
    if needed > doubled then NewCapacity(doubled, needed) else doubled
  }

  lemma DoublingDoubles(c: int)
    requires Doubling(c)
    ensures Doubling(c * 2)
  {
    assert (c * 2) / 2 == c && (c * 2) % 2 == 0;
    DoublingAtLeastInitial(c);
  }

  /** `GrowToAccommodate(requiredBytes)`: when the written bytes and `requiredBytes` more do
      not fit, a new array of the doubled capacity receives a copy of the written bytes
      only; the rest of it is zero. */
  function Grow(w: Writer, requiredBytes: int): (r: Writer)
    requires w.Valid() && w.used + requiredBytes <= MaxCapacity
    ensures r.Valid() && r.used == w.used && r.ToArray() == w.ToArray()
    ensures r.used + requiredBytes <= |r.buffer| && |w.buffer| <= |r.buffer|
    ensures w.used + requiredBytes <= |w.buffer| ==> r == w
    ensures w.used + requiredBytes > |w.buffer| ==>
      |r.buffer| < 2 * (w.used + requiredBytes) && r.buffer[w.used..] == Zeros(|r.buffer| - w.used)
  {
    if w.used + requiredBytes <= |w.buffer| then w
    else
      var capacity := NewCapacity(|w.buffer|, w.used + requiredBytes);
      Writer(w.buffer[..w.used] + Zeros(capacity - w.used), w.used)
  }

  /** `GrowToAccommodate` as evidently intended, for every request: when the written bytes
      and `requiredBytes` more cannot fit in the largest capacity the doubling reaches
      without leaving `int`, it fails instead of doubling for ever; otherwise it grows as
      `Grow` does, to a capacity that holds the data and is still a valid `int`. */
  function GrowChecked(w: Writer, requiredBytes: int32): (r: Result<Writer>)
    requires w.Valid()
    ensures r.Ok? <==> w.used + requiredBytes <= MaxCapacity
    ensures r.Err? ==> r.error == OutOfMemory
    ensures r.Ok? ==> r.value.Valid() && r.value.ToArray() == w.ToArray()
    ensures r.Ok? ==> r.value.used + requiredBytes <= |r.value.buffer| <= MaxCapacity
    ensures r.Ok? && w.used + requiredBytes <= |w.buffer| ==> r.value == w
  {
    if w.used + requiredBytes > MaxCapacity then Err(OutOfMemory)
    else
      var g := Grow(w, requiredBytes);
      MaxCapacityIsReached();
      DoublingBelow(|g.buffer|, MaxCapacity);
      Ok(g)
  }

  /** Reachable capacities are powers of two apart: one below twice another is at most it. */
  lemma {:induction false} DoublingBelow(c: int, bound: int)
    requires Doubling(c) && Doubling(bound) && c < 2 * bound
    ensures c <= bound
    decreases bound
  {
    DoublingAtLeastInitial(bound);
    if c > InitialCapacity {
      DoublingAtLeastInitial(c / 2);
      if bound > InitialCapacity {
        DoublingBelow(c / 2, bound / 2);
      }
    }
  }

  /** 2^30 is 1024 doubled twenty times. */
  lemma MaxCapacityIsReached()
    ensures Doubling(MaxCapacity)
  {
    DoublingDoubles(0x400); DoublingDoubles(0x800); DoublingDoubles(0x1000);
    DoublingDoubles(0x2000); DoublingDoubles(0x4000); DoublingDoubles(0x8000);
    DoublingDoubles(0x10000); DoublingDoubles(0x20000); DoublingDoubles(0x40000);
    DoublingDoubles(0x80000); DoublingDoubles(0x100000); DoublingDoubles(0x200000);
    DoublingDoubles(0x400000); DoublingDoubles(0x800000); DoublingDoubles(0x1000000);
    DoublingDoubles(0x2000000); DoublingDoubles(0x4000000); DoublingDoubles(0x8000000);
    DoublingDoubles(0x10000000); DoublingDoubles(0x20000000);
  }

  /** `GrowToAccommodate` with its loop: the same result as `Grow`. */
  method GrowToAccommodate(w: Writer, requiredBytes: int32) returns (r: Writer)
    requires w.Valid() && w.used + requiredBytes <= MaxCapacity
    ensures r == Grow(w, requiredBytes)
  {
    var needed := w.used + requiredBytes;
    var capacity := |w.buffer|;
    if needed <= capacity {
      return w;
    }
    ghost var previous := capacity;
    capacity := capacity * 2;
    DoublingDoubles(previous);
    while needed > capacity
      invariant capacity == previous * 2 && Doubling(previous) && previous < needed
      invariant NewCapacity(|w.buffer|, needed) == NewCapacity(previous, needed)
      decreases needed - capacity
    {
      DoublingDoubles(capacity);
      previous := capacity;
      capacity := capacity * 2;
    }
    var newBuffer := Zeros(capacity);
    ZerosSuffix(capacity, w.used);
    newBuffer := w.buffer[..w.used] + newBuffer[w.used..];
    return Writer(newBuffer, w.used);
  }

  // ---------------------------------------------------------------------------------------
  // Writes

  /** The `Write*` members for the fixed-width fields (`WriteU8` to `WriteS64LE`): grow,
      store the field's encoding at the end of the written data, advance.
      `WriteFieldIsCodecWrite` shows the store is the field's `BigEndian` or `LittleEndian`
      function. */
  function WriteField(w: Writer, k: Kind, v: int): (r: Writer)
    requires w.Valid() && InRange(k, v) && w.used + Width(k) <= MaxCapacity
    ensures r.Valid() && |w.buffer| <= |r.buffer|
    ensures r.ToArray() == w.ToArray() + Encode(k, v)
  {
    var g := Grow(w, Width(k));
    var stored := StoreBytes(g.buffer, g.used, Encode(k, v)).buffer;
    Appended(g.buffer, g.used, Encode(k, v));
    Writer(stored, g.used + Width(k))
  }

  /** Each fixed-width write stores what the codec call of its C# member stores, at the end
      of the written data of the grown writer. */
  lemma WriteFieldIsCodecWrite(w: Writer, k: Kind, v: int)
    requires w.Valid() && InRange(k, v) && w.used + Width(k) <= MaxCapacity
    ensures WriteAt(k, Grow(w, Width(k)).buffer, w.used, v).Done?
    ensures WriteField(w, k, v).buffer == WriteAt(k, Grow(w, Width(k)).buffer, w.used, v).buffer
  {
  }

  /** After a completed store at the end of the written data, the written prefix extended by
      the stored range is the old prefix followed by the data. */
  lemma Appended(buffer: Bytes, used: int, data: Bytes)
    requires 0 <= used && used + |data| <= |buffer|
    ensures StoreBytes(buffer, used, data).buffer[..used + |data|] == buffer[..used] + data
  {
    StoreIsOverwrite(buffer, used, data);
    var o := Overwrite(buffer, used, data);
    assert o[..used + |data|] == buffer[..used] + data;
  }

  /** The outcome of a bulk write: the writer after it, and the exception if the copy threw. */
  datatype Copy = Copied(writer: Writer) | CopyFailed(writer: Writer, error: Error)

  /** `Array.Copy(source, offset, destination, destinationIndex, count)` as .NET checks it:
      null source, negative length, negative source index, then a source range that runs
      past the end. The destination range always fits here. */
  function CopyCheck(data: Option<Bytes>, offset: int, count: int): (c: Check)
    ensures c == Pass <==> data.Some? && ValidationUtilities.InBounds(|data.value|, offset, count)
  {
    if data.None? then Fail(ArgumentNull("sourceArray"))
    else if count < 0 then Fail(ArgumentOutOfRange("length"))
    else if offset < 0 then Fail(ArgumentOutOfRange("srcIndex"))
    else if offset + count > |data.value| then Fail(Argument)
    else Pass
  }

  /** `Write(byte[], int, int)`: grow for `count` bytes first, then copy, then advance. A
      failed copy leaves the writer grown but with nothing more written. */
  function WriteBytes(w: Writer, data: Option<Bytes>, offset: int32, count: int32): (r: Copy)
    requires w.Valid() && w.used + count <= MaxCapacity
    ensures r.writer.Valid() && |w.buffer| <= |r.writer.buffer|
    ensures r.Copied? <==> data.Some? && ValidationUtilities.InBounds(|data.value|, offset, count)
    ensures r.CopyFailed? ==> Fail(r.error) == CopyCheck(data, offset, count)
    ensures r.CopyFailed? ==> r.writer.ToArray() == w.ToArray()
    ensures r.Copied? ==> r.writer.ToArray() == w.ToArray() + data.value[offset..offset + count]
  {
    var g := Grow(w, count);
    match CopyCheck(data, offset, count)
    case Fail(e) => CopyFailed(g, e)
    case Pass =>
      var slice := data.value[offset..offset + count];
      var copied := g.buffer[..g.used] + slice + g.buffer[g.used + count..];
      assert copied[..g.used + count] == g.buffer[..g.used] + slice;
      Copied(Writer(copied, g.used + count))
  }

  /** `Write(byte[])`: reading the length of a null array throws before anything else. */
  function WriteArray(w: Writer, data: Option<Bytes>): (r: Copy)
    requires w.Valid() && (data.Some? ==> w.used + |data.value| <= MaxCapacity)
    ensures r.Copied? <==> data.Some?
    ensures data.None? ==> r == CopyFailed(w, NullReference)
    ensures r.Copied? ==> r.writer.Valid() && r.writer.ToArray() == w.ToArray() + data.value
  {
    match data
    case None => CopyFailed(w, NullReference)
    case Some(d) =>
      assert d[0..|d|] == d;
      WriteBytes(w, data, 0, |d|)
  }

  /** `Write(ArraySegment<byte>)`: a well-formed segment is always copied. */
  function WriteSegment(w: Writer, data: Segment): (r: Copy)
    requires w.Valid() && data.WellFormed() && |data.source| < 0x8000_0000
    requires w.used + data.count <= MaxCapacity
    ensures r.Copied?
    ensures r.writer.Valid() && r.writer.ToArray() == w.ToArray() + data.Contents()
  {
    WriteBytes(w, Some(data.source), data.offset, data.count)
  }

  // ---------------------------------------------------------------------------------------
  // Marks

  /** What a `Mark*` member hands out: the field it reserved, the reserved bytes' position
      and size, and the largest length `Close` may store. Setting its value writes through
      the writer's array as it is at that time. */
  datatype Placeholder = Placeholder(kind: Kind, position: int, size: int, maxValue: nat)

  /** `p` was handed out by this writer, or by the writer this one grew from: its bytes are
      inside the array, and size and maximum are those of its field. */
  predicate Issued(w: Writer, p: Placeholder) {
    && p.size == Width(p.kind)
    && p.maxValue == MaxValue(p.kind)
    && 0 <= p.position
    && p.position + p.size <= |w.buffer|
  }

  datatype Marked = Marked(placeholder: Placeholder, writer: Writer)

  /** The `Mark*` members (`MarkU8` to `MarkS64LE`): grow, then skip the field's bytes
      without storing into them. */
  function Mark(w: Writer, k: Kind): (r: Marked)
    requires w.Valid() && w.used + Width(k) <= MaxCapacity
    ensures r.writer.Valid() && |w.buffer| <= |r.writer.buffer|
    ensures r.placeholder.position == w.used && r.placeholder.kind == k
    ensures Issued(r.writer, r.placeholder)
    ensures r.writer.used == w.used + Width(k)
    ensures r.writer.ToArray()[..w.used] == w.ToArray()
    ensures w.used + Width(k) <= |w.buffer| ==>
      r.writer.ToArray() == w.ToArray() + w.buffer[w.used..w.used + Width(k)]
    ensures w.used + Width(k) > |w.buffer| ==>
      r.writer.ToArray() == w.ToArray() + Zeros(Width(k))
  {
    var g := Grow(w, Width(k));
    var r := Marked(Placeholder(k, g.used, Width(k), MaxValue(k)), g.(used := g.used + Width(k)));
    assert r.writer.ToArray() == g.buffer[..w.used] + g.buffer[w.used..w.used + Width(k)];
    r
  }

  /** A placeholder stays usable through every later operation on its writer, since none of
      them shrinks the array. */
  lemma IssuedIsKept(w: Writer, later: Writer, p: Placeholder)
    requires Issued(w, p) && |w.buffer| <= |later.buffer|
    ensures Issued(later, p)
  {
  }

  // ---------------------------------------------------------------------------------------
  // Properties

  /** After a `Reset`, a reserved field shows whatever the array held there before, until
      its placeholder is set. */
  lemma MarkAfterResetShowsStaleBytes(w: Writer, k: Kind)
    requires w.Valid() && Width(k) <= |w.buffer|
    ensures Mark(Reset(w), k).writer.ToArray() == w.buffer[..Width(k)]
  {
  }

  /** Doubling never leaves the reachable capacities, and every capacity is at least the
      initial one. */
  lemma {:induction false} DoublingAtLeastInitial(c: int)
    requires Doubling(c)
    ensures c >= InitialCapacity && c % InitialCapacity == 0
    decreases c
  {
    if c != InitialCapacity {
      DoublingAtLeastInitial(c / 2);
      var q := (c / 2) / InitialCapacity;
      assert c / 2 == InitialCapacity * q;
      Radix.DivModUnique(c, InitialCapacity, 2 * q, 0);
    }
  }
}
