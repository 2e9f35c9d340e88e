/** `ValidationUtilities`: the argument check shared by every API that takes an array with
    an offset and a count. */
module ValidationUtilities {
  import opened Primitives

  /** `count` elements from `offset` lie inside an array of `length` elements. */
  predicate InBounds(length: int, offset: int, count: int) {
    0 <= offset && 0 <= count && offset + count <= length
  }

  /** `ValidateArraySlice`: returns normally (`Pass`) or names the first offending argument
      with the caller's parameter names. The null check comes first, then the offset,
      then the count. `offset + count` is compared without wrap-around here; the 32-bit
      wrap of the original is modelled in module `Overflow`. */
  function ValidateArraySlice<T>(items: Option<seq<T>>, offset: int32, count: int32,
                                 nameOfArray: string, nameOfOffset: string, nameOfCount: string): (r: Check)
    ensures r == Pass <==> items.Some? && InBounds(|items.value|, offset, count)
    ensures items.None? ==> r == Fail(ArgumentNull(nameOfArray))
    ensures items.Some? && !(0 <= offset <= |items.value|) ==> r == Fail(ArgumentOutOfRange(nameOfOffset))
    ensures items.Some? && 0 <= offset <= |items.value| && !InBounds(|items.value|, offset, count) ==>
      r == Fail(ArgumentOutOfRange(nameOfCount))
  {
    if items.None? then
      Fail(ArgumentNull(nameOfArray))
    else if offset < 0 || offset > |items.value| then
      Fail(ArgumentOutOfRange(nameOfOffset))
    else if count < 0 || offset + count > |items.value| then
      Fail(ArgumentOutOfRange(nameOfCount))
    else
      Pass
  }

  /** An empty slice at the very end of the array is accepted. */
  lemma EmptySliceAtEnd<T>(items: seq<T>)
    requires |items| < 0x8000_0000
    ensures ValidateArraySlice(Some(items), |items|, 0, "array", "offset", "count") == Pass
  {
  }

  /** When the offset and the count are both wrong, the offset is the one reported. */
  lemma OffsetReportedFirst<T>(items: seq<T>, offset: int32, count: int32, a: string, o: string, c: string)
    requires offset < 0 || offset > |items|
    ensures ValidateArraySlice(Some(items), offset, count, a, o, c) == Fail(ArgumentOutOfRange(o))
  {
  }

  /** A slice that passes also passes when shrunk from either end. */
  lemma SubSliceValid<T>(items: seq<T>, offset: int32, count: int32, skip: int32, keep: int32)
    requires ValidateArraySlice(Some(items), offset, count, "array", "offset", "count") == Pass
    requires 0 <= skip && 0 <= keep && skip + keep <= count
    requires offset + skip < 0x8000_0000
    ensures ValidateArraySlice(Some(items), offset + skip, keep, "array", "offset", "count") == Pass
  {
  }
}
