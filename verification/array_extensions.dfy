/** `ArrayExtensions.Slice`: a copy of a validated sub-range of an array. */
module ArrayExtensions {
  import opened Primitives
  import opened ValidationUtilities

  /** `array.Slice(offset, count)`. Validation happens before anything is copied; the
      result is a new array, so the source is left as it was. */
  function Slice<T>(items: Option<seq<T>>, offset: int32, count: int32): (r: Result<seq<T>>)
    ensures r.Ok? <==> items.Some? && InBounds(|items.value|, offset, count)
    ensures r.Err? ==>
      Fail(r.error) == ValidateArraySlice(items, offset, count, "array", "offset", "count")
    ensures r.Ok? ==> |r.value| == count
    ensures r.Ok? ==> forall i | 0 <= i < count :: r.value[i] == items.value[offset + i]
  {
    match ValidateArraySlice(items, offset, count, "array", "offset", "count")
    case Fail(e) => Err(e)
    case Pass => Ok(items.value[offset..offset + count])
  }

  /** Slicing a slice is slicing the original at the summed offset. */
  lemma SliceOfSlice<T>(items: seq<T>, offset: int32, count: int32, skip: int32, keep: int32)
    requires Slice(Some(items), offset, count).Ok?
    requires 0 <= skip && 0 <= keep && skip + keep <= count
    requires offset + skip < 0x8000_0000
    ensures Slice(Some(Slice(Some(items), offset, count).value), skip, keep) ==
      Slice(Some(items), offset + skip, keep)
  {
    var outer := Slice(Some(items), offset, count).value;
    assert outer[skip..skip + keep] == items[offset + skip..offset + skip + keep];
  }

  /** The whole array, sliced, is a copy of itself. */
  lemma WholeSlice<T>(items: seq<T>)
    requires |items| < 0x8000_0000
    ensures Slice(Some(items), 0, |items|) == Ok(items)
  {
    assert items[0..|items|] == items;
  }
}
