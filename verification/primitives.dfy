/** Machine-level vocabulary shared by every part of the codec: the C# integer types as
    subset types of `int`, byte sequences, the exceptions the library raises, and the
    byte-by-byte array store that all encoders go through. */
module Primitives {

  type byte = x: int | 0 <= x < 0x100
  type int8 = x: int | -0x80 <= x < 0x80
  type uint16 = x: int | 0 <= x < 0x1_0000
  type int16 = x: int | -0x8000 <= x < 0x8000
  type uint32 = x: int | 0 <= x < 0x1_0000_0000
  type int32 = x: int | -0x8000_0000 <= x < 0x8000_0000
  type uint64 = x: int | 0 <= x < 0x1_0000_0000_0000_0000
  type int64 = x: int | -0x8000_0000_0000_0000 <= x < 0x8000_0000_0000_0000

  type Bytes = seq<byte>

  /** The exceptions raised by the modelled code. Argument exceptions carry the
      parameter name they report. */
  datatype Error =
    | ArgumentNull(param: string)
    | ArgumentOutOfRange(param: string)
    | Argument
    | IndexOutOfRange
    | NullReference
    | InvalidOperation
    // The array the data needs cannot be allocated (.NET's `OutOfMemoryException`).
    | OutOfMemory

  datatype Option<+T> = None | Some(value: T)

  /** A value or the exception that replaced it. */
  datatype Result<+T> = Ok(value: T) | Err(error: Error)

  /** The outcome of a validation that returns nothing when it succeeds. */
  datatype Check = Pass | Fail(error: Error)

  /** An `ArraySegment<byte>`: a non-null array with an offset and a count. */
  datatype Segment = Segment(source: Bytes, offset: int, count: int)
  {
    /** What the `ArraySegment` constructor demands of its arguments. */
    predicate WellFormed() {
      0 <= offset && 0 <= count && offset + count <= |source|
    }

    function Contents(): Bytes
      requires WellFormed()
    {
      source[offset..offset + count]
    }
  }

  /** 256 to the power `n`: the number of values an `n`-byte field can hold. */
  function Pow256(n: nat): (p: nat)
    ensures p > 0
  {
    if n == 0 then 1 else 0x100 * Pow256(n - 1)
  }

  lemma Pow256Values()
    ensures Pow256(1) == 0x100 && Pow256(2) == 0x1_0000 && Pow256(3) == 0x100_0000
    ensures Pow256(4) == 0x1_0000_0000 && Pow256(5) == 0x100_0000_0000
    ensures Pow256(6) == 0x1_0000_0000_0000 && Pow256(7) == 0x100_0000_0000_0000
    ensures Pow256(8) == 0x1_0000_0000_0000_0000
  {
    assert Pow256(4) == 0x1_0000_0000;
    assert Pow256(8) == Pow256(4) * Pow256(4) by {
      assert Pow256(8) == 0x100 * (0x100 * (0x100 * (0x100 * Pow256(4))));
    }
  }

  /** The two's-complement reading of an `n`-byte unsigned value. */
  function Signed(u: int, n: nat): int {
    if u >= Pow256(n) / 2 then u - Pow256(n) else u
  }

  /** C#'s unchecked narrowing to a signed `n`-byte integer (`(short)x`, or the
      wrap-around of `int`/`long` arithmetic). */
  function Wrap(x: int, n: nat): int {
    Signed(x % Pow256(n), n)
  }

  function Zeros(n: nat): (z: Bytes)
    ensures |z| == n
    ensures forall i | 0 <= i < n :: z[i] == 0
  {
    seq(n, _ => 0)
  }

  /** `width` bytes starting at `offset` lie inside `buffer`. */
  predicate Fits(buffer: Bytes, offset: int, width: int) {
    0 <= offset && 0 <= width && offset + width <= |buffer|
  }

  /** `after` differs from `before` at most in the `width` bytes starting at `offset`. */
  predicate Confined(before: Bytes, after: Bytes, offset: int, width: int) {
    |after| == |before| &&
    forall i | 0 <= i < |before| && !(offset <= i < offset + width) :: after[i] == before[i]
  }

  /** The buffer with `data` laid over it from `offset` on. */
  function Overwrite(buffer: Bytes, offset: int, data: Bytes): (r: Bytes)
    requires 0 <= offset && offset + |data| <= |buffer|
  {
    buffer[..offset] + data + buffer[offset + |data|..]
  }

  /** The state of an array after a sequence of element stores: the whole array, whether
      every store happened (`Done`) or an `IndexOutOfRangeException` stopped them. */
  datatype Store = Done(buffer: Bytes) | OutOfRange(buffer: Bytes)

  /** Stores `data[0]`, `data[1]`, ... at `offset`, `offset + 1`, ... one at a time, as the
      endian encoders' `buffer[offset + k] = ...` statements do. The first index outside the
      array raises, and the stores before it stay done. */
  function StoreBytes(buffer: Bytes, offset: int, data: Bytes): (r: Store)
    decreases |data|
    ensures |r.buffer| == |buffer|
    ensures r.Done? <==> |data| == 0 || (0 <= offset && offset + |data| <= |buffer|)
    ensures forall i | 0 <= i < |buffer| ::
      r.buffer[i] == if 0 <= offset <= i < offset + |data| then data[i - offset] else buffer[i]
  {
    if |data| == 0 then Done(buffer)
    else if !(0 <= offset < |buffer|) then OutOfRange(buffer)
    else StoreBytes(buffer[offset := data[0]], offset + 1, data[1..])
  }

  /** A completed store is the overwrite of the stored range and nothing else. */
  lemma StoreIsOverwrite(buffer: Bytes, offset: int, data: Bytes)
    ensures Fits(buffer, offset, |data|) ==>
      StoreBytes(buffer, offset, data) == Done(Overwrite(buffer, offset, data))
  {
    if Fits(buffer, offset, |data|) {
      var r := StoreBytes(buffer, offset, data);
      var o := Overwrite(buffer, offset, data);
      assert |o| == |buffer|;
      forall i | 0 <= i < |buffer|
        ensures r.buffer[i] == o[i]
      {
        if i < offset {
          assert o[i] == buffer[..offset][i];
        } else if i < offset + |data| {
          assert o[i] == (buffer[..offset] + data)[i];
        } else {
          assert o[i] == buffer[offset + |data|..][i - offset - |data|];
        }
      }
      assert r.buffer == o;
    }
  }

  /** The `k`-byte window of an overwritten buffer at the overwrite's offset is the data. */
  lemma OverwriteWindow(buffer: Bytes, offset: int, data: Bytes)
    requires 0 <= offset && offset + |data| <= |buffer|
    ensures Overwrite(buffer, offset, data)[offset..offset + |data|] == data
  {
    var o := Overwrite(buffer, offset, data);
    assert o == buffer[..offset] + data + buffer[offset + |data|..];
    assert o[offset..offset + |data|] == data;
  }

  /** After a completed store the stored window holds the data. */
  lemma StoredWindow(buffer: Bytes, offset: int, data: Bytes)
    requires Fits(buffer, offset, |data|)
    ensures StoreBytes(buffer, offset, data).buffer[offset..offset + |data|] == data
  {
    StoreIsOverwrite(buffer, offset, data);
    OverwriteWindow(buffer, offset, data);
  }

  /** A prefix of a buffer changed only inside a window is the old bytes around the new
      window. */
  lemma ConfinedPrefix(before: Bytes, after: Bytes, offset: int, width: int, used: int)
    requires Confined(before, after, offset, width)
    requires 0 <= offset && 0 <= width && offset + width <= used <= |before|
    ensures after[..used] == before[..offset] + after[offset..offset + width] + before[offset + width..used]
  {
    var whole := before[..offset] + after[offset..offset + width] + before[offset + width..used];
    assert |whole| == used;
    forall i | 0 <= i < used
      ensures after[i] == whole[i]
    {
      if i < offset {
        assert whole[i] == before[..offset][i];
      } else if i < offset + width {
        assert whole[i] == (before[..offset] + after[offset..offset + width])[i];
      } else {
        assert whole[i] == before[offset + width..used][i - offset - width];
      }
    }
  }

  /** The same, stated on the prefixes themselves: around the window, the prefix of `used`
      bytes is the old one; inside, it is the new window. */
  lemma ConfinedUsed(before: Bytes, after: Bytes, offset: int, width: int, used: int)
    requires Confined(before, after, offset, width)
    requires 0 <= offset && 0 <= width && offset + width <= used <= |before|
    ensures after[..used][..offset] == before[..used][..offset]
    ensures after[..used][offset..offset + width] == after[offset..offset + width]
    ensures after[..used][offset + width..] == before[..used][offset + width..]
    ensures after[..used] == before[..used][..offset] + after[offset..offset + width] + before[..used][offset + width..]
  {
    ConfinedPrefix(before, after, offset, width, used);
    PrefixSlice(before, used, 0, offset);
    PrefixSlice(before, used, offset + width, used);
    PrefixSlice(after, used, 0, offset);
    PrefixSlice(after, used, offset, offset + width);
  }

  lemma ZerosSuffix(n: nat, k: nat)
    requires k <= n
    ensures Zeros(n)[k..] == Zeros(n - k)
  {
  }

  /** The front and back of a slice are slices of the whole. */
  lemma SliceSplit(s: Bytes, lo: int, hi: int, n: int)
    requires 0 <= lo && 0 <= n && lo + n <= hi <= |s|
    ensures s[lo..hi][..n] == s[lo..lo + n]
    ensures s[lo..hi][n..] == s[lo + n..hi]
  {
  }

  lemma ConcatAssoc(a: Bytes, b: Bytes, c: Bytes)
    ensures (a + b) + c == a + (b + c)
  {
  }

  /** The parts of a concatenation. */
  lemma ConcatParts(a: Bytes, b: Bytes, n: int)
    requires 0 <= n <= |a|
    ensures (a + b)[..n] == a[..n] && (a + b)[|a|..] == b
  {
  }

  /** A slice extended by the next element. */
  lemma SliceGrows(data: Bytes, lo: int, hi: int)
    requires 0 <= lo <= hi < |data|
    ensures data[lo..hi] + [data[hi]] == data[lo..hi + 1]
  {
  }

  /** Slicing a prefix is slicing the whole, inside the prefix. */
  lemma PrefixSlice(s: Bytes, used: int, lo: int, hi: int)
    requires 0 <= lo <= hi <= used <= |s|
    ensures s[..used][lo..hi] == s[lo..hi]
    ensures s[..used][lo..] == s[lo..used]
  {
  }
}
