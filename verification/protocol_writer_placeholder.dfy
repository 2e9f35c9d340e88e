/** `ProtocolWriterPlaceholder<T>`: a handle on a field reserved by a `Mark*` call. Setting its
    value stores the field into the writer's current array; `Close` stores the number of
    bytes written since the mark, which makes length prefixes possible. */
module ProtocolWriterPlaceholder {
  import opened Primitives
  import opened Fields
  import opened ProtocolWriter
  import Radix

  const ULongRange := 0x1_0000_0000_0000_0000

  /** The `Value` setter: the field's codec stores `v` at the placeholder's position in the
      array the writer has now, which may be a grown copy of the one it had at the mark. The
      write position and every other byte stay as they were. The codec call itself is
      `Fields.WriteAt`; `SetValueIsCodecWrite` shows this is its result. */
  function SetValue(w: Writer, p: Placeholder, v: int): (r: Writer)
    requires w.Valid() && Issued(w, p) && InRange(p.kind, v)
    ensures r.Valid() && r.used == w.used && |r.buffer| == |w.buffer|
    ensures r.buffer[p.position..p.position + p.size] == Encode(p.kind, v)
    ensures Decode(p.kind, r.buffer[p.position..p.position + p.size]) == Retained(p.kind, v)
    ensures Confined(w.buffer, r.buffer, p.position, p.size)
  {
    StoredWindow(w.buffer, p.position, Encode(p.kind, v));
    DecodeEncode(p.kind, v);
    w.(buffer := StoreBytes(w.buffer, p.position, Encode(p.kind, v)).buffer)
  }

  /** The setter's store is the codec's: `WriteAt` for the placeholder's field, which
      completes. */
  lemma SetValueIsCodecWrite(w: Writer, p: Placeholder, v: int)
    requires w.Valid() && Issued(w, p) && InRange(p.kind, v)
    ensures WriteAt(p.kind, w.buffer, p.position, v).Done?
    ensures SetValue(w, p, v).buffer == WriteAt(p.kind, w.buffer, p.position, v).buffer
  {
  }

  /** The distance `Close` computes, as a mathematical integer: bytes written since the
      placeholder's position, less its own size unless `includeSelf`. */
  function Distance(w: Writer, p: Placeholder, includeSelf: bool): int {
    w.used - p.position - (if includeSelf then 0 else p.size)
  }

  /** `Close`'s two `ulong` steps compute the distance modulo 2^64: subtracting the size after
      the cast is subtracting it before. */
  lemma ULongDistance(x: int, size: int, includeSelf: bool)
    requires -0x8000_0000 < x < 0x8000_0000 && 0 <= size <= 8
    ensures (if includeSelf then x % ULongRange else (x % ULongRange - size) % ULongRange)
         == (x - (if includeSelf then 0 else size)) % ULongRange
  {
    if x >= 0 {
      Radix.DivModUnique(x, ULongRange, 0, x);
    } else {
      Radix.DivModUnique(x, ULongRange, -1, x + ULongRange);
    }
    if !includeSelf {
      if x - size >= 0 {
        Radix.DivModUnique(x - size, ULongRange, 0, x - size);
        Radix.DivModUnique(x % ULongRange - size, ULongRange, 0, x - size);
      } else {
        Radix.DivModUnique(x - size, ULongRange, -1, x - size + ULongRange);
        if x >= 0 {
          Radix.DivModUnique(x % ULongRange - size, ULongRange, -1, x - size + ULongRange);
        } else {
          Radix.DivModUnique(x % ULongRange - size, ULongRange, 0, x - size + ULongRange);
        }
      }
    }
  }

  /** `Close(includeSelf)`: the distance is computed in `ulong` (the `int` difference is cast,
      then the size subtracted, both modulo 2^64), rejected when above the placeholder's
      maximum, and otherwise stored as the value. */
  function Close(w: Writer, p: Placeholder, includeSelf: bool): (r: Result<Writer>)
    requires w.Valid() && Issued(w, p)
    ensures r.Ok? <==> Distance(w, p, includeSelf) % ULongRange <= p.maxValue
    ensures r.Err? ==> r.error == InvalidOperation
    ensures r.Ok? ==> Distance(w, p, includeSelf) % ULongRange <= MaxValue(p.kind)
    ensures r.Ok? ==> r.value == SetValue(w, p, Distance(w, p, includeSelf) % ULongRange)
  {
    var x := w.used - p.position;
    var delta := if includeSelf then x % ULongRange else (x % ULongRange - p.size) % ULongRange;
    ULongDistance(x, p.size, includeSelf);
    assert delta == Distance(w, p, includeSelf) % ULongRange;
    if delta > p.maxValue then
      Err(InvalidOperation)
    else
      MaxValueRetained(p.kind, delta);
      Ok(SetValue(w, p, delta))
  }

  // ---------------------------------------------------------------------------------------
  // Properties

  /** When the writer has not been reset since the mark, `Close` fails exactly when the
      number of bytes written after the placeholder (plus its own size with `includeSelf`)
      exceeds the field's maximum. */
  lemma CloseAcceptsDistance(w: Writer, p: Placeholder, includeSelf: bool)
    requires w.Valid() && Issued(w, p) && p.position + p.size <= w.used
    ensures Close(w, p, includeSelf).Ok? <==> Distance(w, p, includeSelf) <= MaxValue(p.kind)
  {
    var n := Distance(w, p, includeSelf);
    Radix.DivModUnique(n, ULongRange, 0, n);
  }

  /** A value up to the field's maximum set through a placeholder inside the written data
      reads back from the written data, which is otherwise unchanged. */
  lemma SetValueReadsBack(w: Writer, p: Placeholder, v: int)
    requires w.Valid() && Issued(w, p) && p.position + p.size <= w.used
    requires 0 <= v <= MaxValue(p.kind)
    ensures InRange(p.kind, v)
    ensures Decode(p.kind, SetValue(w, p, v).ToArray()[p.position..p.position + p.size]) == v
    ensures SetValue(w, p, v).ToArray()[..p.position] == w.ToArray()[..p.position]
    ensures SetValue(w, p, v).ToArray()[p.position + p.size..] == w.ToArray()[p.position + p.size..]
  {
    MaxValueRetained(p.kind, v);
    ConfinedUsed(w.buffer, SetValue(w, p, v).buffer, p.position, p.size, w.used);
  }

  /** ... and when that number fits, it is what the reserved field decodes to afterwards. */
  lemma CloseRecordsDistance(w: Writer, p: Placeholder, includeSelf: bool)
    requires w.Valid() && Issued(w, p) && p.position + p.size <= w.used
    requires Distance(w, p, includeSelf) <= MaxValue(p.kind)
    ensures Close(w, p, includeSelf).Ok? && InRange(p.kind, Distance(w, p, includeSelf))
    ensures Close(w, p, includeSelf).value == SetValue(w, p, Distance(w, p, includeSelf))
    ensures Decode(p.kind, Close(w, p, includeSelf).value.ToArray()[p.position..p.position + p.size])
        == Distance(w, p, includeSelf)
  {
    var n := Distance(w, p, includeSelf);
    CloseAcceptsDistance(w, p, includeSelf);
    Radix.DivModUnique(n, ULongRange, 0, n);
    SetValueReadsBack(w, p, n);
  }

  /** Setting a placeholder whose bytes sit between `before` and `after` in the written data
      replaces just those bytes with the encoded value. */
  lemma SetValueSplices(w: Writer, p: Placeholder, v: int, before: Bytes, after: Bytes)
    requires w.Valid() && Issued(w, p) && InRange(p.kind, v)
    requires p.position == |before| && |w.ToArray()| == |before| + p.size + |after|
    requires w.ToArray()[..|before|] == before && w.ToArray()[|before| + p.size..] == after
    ensures SetValue(w, p, v).ToArray() == before + Encode(p.kind, v) + after
  {
    ConfinedUsed(w.buffer, SetValue(w, p, v).buffer, p.position, p.size, w.used);
  }

  /** The usual length prefix: mark a field, write a payload, close. The written bytes are
      the encoded payload length followed by the payload. */
  lemma LengthPrefix(w: Writer, k: Kind, payload: Bytes)
    requires w.Valid() && w.used + Width(k) + |payload| <= MaxCapacity
    requires |payload| <= MaxValue(k)
    ensures var m := Mark(w, k);
      var c := WriteArray(m.writer, Some(payload));
      c.Copied? && Close(c.writer, m.placeholder, false).Ok? &&
      Close(c.writer, m.placeholder, false).value.ToArray() == w.ToArray() + Encode(k, |payload|) + payload
  {
    var m := Mark(w, k);
    var p := m.placeholder;
    var c := WriteArray(m.writer, Some(payload));
    var x := c.writer;
    assert x.ToArray() == m.writer.ToArray() + payload;
    IssuedIsKept(m.writer, x, p);
    var n := Distance(x, p, false);
    assert n == |payload|;
    Radix.DivModUnique(n, ULongRange, 0, n);
    MaxValueRetained(k, n);
    CloseAcceptsDistance(x, p, false);
    assert Close(x, p, false).value == SetValue(x, p, n);
    ConcatParts(m.writer.ToArray(), payload, w.used);
    SetValueSplices(x, p, n, w.ToArray(), payload);
  }

  /** ... and when the payload is longer than the field can count, `Close` throws instead
      of storing a truncated length. */
  lemma LengthPrefixOverflow(w: Writer, k: Kind, payload: Bytes)
    requires w.Valid() && w.used + Width(k) + |payload| <= MaxCapacity
    requires |payload| > MaxValue(k)
    ensures var m := Mark(w, k);
      var c := WriteArray(m.writer, Some(payload));
      c.Copied? && Close(c.writer, m.placeholder, false) == Err(InvalidOperation)
  {
    var m := Mark(w, k);
    var p := m.placeholder;
    var x := WriteArray(m.writer, Some(payload)).writer;
    IssuedIsKept(m.writer, x, p);
    assert Distance(x, p, false) == |payload|;
    CloseAcceptsDistance(x, p, false);
  }

  /** A `ulong` placeholder closed after a `Reset` has moved the writer back before it does
      not fail: the negative distance wraps to a value just under 2^64, which is stored. */
  lemma ResetWrapsULongDistance(w: Writer, p: Placeholder)
    requires w.Valid() && Issued(w, p) && p.kind.U64? && 1 <= p.position
    ensures Close(Reset(w), p, true).Ok?
    ensures Decode(p.kind, Close(Reset(w), p, true).value.buffer[p.position..p.position + p.size])
      == ULongRange - p.position
  {
    ResetDistanceWraps(w, p);
  }

  /** The wrapped distance of a placeholder past the write position of a reset writer, and
      that the `ulong` field keeps it. */
  lemma ResetDistanceWraps(w: Writer, p: Placeholder)
    requires w.Valid() && Issued(w, p) && p.kind.U64? && 1 <= p.position
    ensures Distance(Reset(w), p, true) % ULongRange == ULongRange - p.position
    ensures InRange(p.kind, ULongRange - p.position) && Retained(p.kind, ULongRange - p.position) == ULongRange - p.position
  {
    Radix.DivModUnique(-p.position, ULongRange, -1, ULongRange - p.position);
  }
}
