/** A message as the two streams see it: a sequence of fixed-width fields written one after
    the other by `ProtocolWriter` and read back in the same order by a `ProtocolReader` over
    the written bytes. */
module RoundTrip {
  import opened Primitives
  import opened Fields
  import ProtocolReader
  import ProtocolWriter

  /** One `Write*` call: the field and the argument. */
  datatype Field = Field(kind: Kind, value: int)

  /** Every argument has the C# type of its `Write*` member. */
  predicate Writable(fields: seq<Field>) {
    forall i | 0 <= i < |fields| :: InRange(fields[i].kind, fields[i].value)
  }

  function Kinds(fields: seq<Field>): (ks: seq<Kind>)
    ensures |ks| == |fields|
    ensures forall i | 0 <= i < |fields| :: ks[i] == fields[i].kind
  {
    if |fields| == 0 then [] else [fields[0].kind] + Kinds(fields[1..])
  }

  /** The values a reader gets back: what each field retains of its argument. */
  function Retain(fields: seq<Field>): (vs: seq<int>)
    ensures |vs| == |fields|
    ensures forall i | 0 <= i < |fields| :: vs[i] == Retained(fields[i].kind, fields[i].value)
  {
    if |fields| == 0 then [] else [Retained(fields[0].kind, fields[0].value)] + Retain(fields[1..])
  }

  /** The bytes the fields occupy together. */
  function TotalWidth(ks: seq<Kind>): nat {
    if |ks| == 0 then 0 else Width(ks[0]) + TotalWidth(ks[1..])
  }

  /** The fields' encodings, one after the other. */
  function EncodeAll(fields: seq<Field>): (bytes: Bytes)
    requires Writable(fields)
    ensures |bytes| == TotalWidth(Kinds(fields))
  {
    if |fields| == 0 then [] else
      assert Kinds(fields)[1..] == Kinds(fields[1..]);
      Encode(fields[0].kind, fields[0].value) + EncodeAll(fields[1..])
  }

  /** The `Write*` calls in order. */
  function WriteFields(w: ProtocolWriter.Writer, fields: seq<Field>): (r: ProtocolWriter.Writer)
    requires w.Valid() && Writable(fields)
    requires w.used + TotalWidth(Kinds(fields)) <= ProtocolWriter.MaxCapacity
    decreases |fields|
    ensures r.Valid() && |w.buffer| <= |r.buffer|
    ensures r.ToArray() == w.ToArray() + EncodeAll(fields)
  {
    if |fields| == 0 then w else
      assert Kinds(fields)[1..] == Kinds(fields[1..]);
      var next := ProtocolWriter.WriteField(w, fields[0].kind, fields[0].value);
      var r := WriteFields(next, fields[1..]);
      ConcatAssoc(w.ToArray(), Encode(fields[0].kind, fields[0].value), EncodeAll(fields[1..]));
      r
  }

  /** The `Read*` calls in order, stopping at the first that throws. */
  function ReadFields(r: ProtocolReader.Reader, ks: seq<Kind>): (d: Result<ProtocolReader.Decoded<seq<int>>>)
    requires r.Valid()
    decreases |ks|
    ensures d.Ok? <==> TotalWidth(ks) <= r.Available()
    ensures d.Err? ==> d.error == IndexOutOfRange
    ensures d.Ok? ==>
      && |d.value.value| == |ks|
      && d.value.next.Valid()
      && ProtocolReader.Conserves(r, d.value.next)
      && d.value.next.Remaining() == r.Remaining()[TotalWidth(ks)..]
  {
    if |ks| == 0 then Ok(ProtocolReader.Decoded([], r)) else
      match ProtocolReader.ReadField(r, ks[0])
      case Err(e) => Err(e)
      case Ok(first) =>
        match ReadFields(first.next, ks[1..])
        case Err(e) => Err(e)
        case Ok(rest) =>
          assert r.Remaining()[Width(ks[0])..][TotalWidth(ks[1..])..] == r.Remaining()[TotalWidth(ks)..];
          Ok(ProtocolReader.Decoded([first.value] + rest.value, rest.next))
  }

  // ---------------------------------------------------------------------------------------
  // Properties

  /** A reader positioned on the encoded fields reads back, in order, what each field
      retains of its argument, and stops right after them. */
  lemma {:induction false} ReadEncoded(r: ProtocolReader.Reader, fields: seq<Field>, rest: Bytes)
    requires r.Valid() && Writable(fields)
    requires r.Remaining() == EncodeAll(fields) + rest
    decreases |fields|
    ensures ReadFields(r, Kinds(fields)).Ok?
    ensures ReadFields(r, Kinds(fields)).value.value == Retain(fields)
    ensures ReadFields(r, Kinds(fields)).value.next.Remaining() == rest
  {
    if |fields| > 0 {
      var k, v := fields[0].kind, fields[0].value;
      var bytes := EncodeAll(fields);
      assert Kinds(fields)[1..] == Kinds(fields[1..]);
      assert Writable(fields[1..]) by {
        forall i | 0 <= i < |fields[1..]|
          ensures InRange(fields[1..][i].kind, fields[1..][i].value)
        {
          assert fields[1..][i] == fields[i + 1];
        }
      }
      var tail := EncodeAll(fields[1..]) + rest;
      ConcatAssoc(Encode(k, v), EncodeAll(fields[1..]), rest);
      ConcatParts(Encode(k, v), tail, Width(k));
      assert r.Remaining()[..Width(k)] == Encode(k, v);
      DecodeEncode(k, v);
      var first := ProtocolReader.ReadField(r, k).value;
      ReadEncoded(first.next, fields[1..], rest);
    }
  }

  /** A fresh writer's array after the `Write*` calls holds the fields' encodings. */
  lemma WrittenFromNew(fields: seq<Field>)
    requires Writable(fields) && TotalWidth(Kinds(fields)) <= ProtocolWriter.MaxCapacity
    ensures WriteFields(ProtocolWriter.New(), fields).ToArray() == EncodeAll(fields)
  {
    assert [] + EncodeAll(fields) == EncodeAll(fields);
  }

  /** A reader over exactly the encoded fields reads them all and ends at the end. */
  lemma ReadWhole(fields: seq<Field>, data: Bytes)
    requires Writable(fields) && data == EncodeAll(fields) && |data| < 0x8000_0000
    ensures ReadFields(ProtocolReader.Reader(data, 0, 0, |data|), Kinds(fields))
        == Ok(ProtocolReader.Decoded(Retain(fields), ProtocolReader.Reader(data, 0, |data|, |data|)))
  {
    var reader := ProtocolReader.Reader(data, 0, 0, |data|);
    assert reader.Remaining() == EncodeAll(fields) + [];
    ReadEncoded(reader, fields, []);
  }

  /** What a fresh writer produces from a list of fields, a reader over the resulting array
      reads back as the retained values, ending with its cursor at the end of the array. */
  lemma WriteThenRead(fields: seq<Field>)
    requires Writable(fields) && TotalWidth(Kinds(fields)) <= ProtocolWriter.MaxCapacity
    ensures var data := WriteFields(ProtocolWriter.New(), fields).ToArray();
      ReadFields(ProtocolReader.Reader(data, 0, 0, |data|), Kinds(fields))
        == Ok(ProtocolReader.Decoded(Retain(fields), ProtocolReader.Reader(data, 0, |data|, |data|)))
  {
    WrittenFromNew(fields);
    ReadWhole(fields, WriteFields(ProtocolWriter.New(), fields).ToArray());
  }
}
