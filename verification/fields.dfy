/** The fixed-width integer fields the reader decodes and the writer encodes or reserves:
    one tag per width, signedness and byte order, standing for the families of `Read*`,
    `Write*` and `Mark*` members. Every field operation dispatches to the `BigEndian` or
    `LittleEndian` function for its tag, as the C# members do. */
module Fields {
  import opened Primitives
  import opened Radix
  import BigEndian
  import LittleEndian

  datatype Order = Big | Little

  datatype Kind =
    | U8 | S8
    | U16(order: Order) | S16(order: Order)
    | U24(order: Order) | S24(order: Order)
    | U32(order: Order) | S32(order: Order)
    | U64(order: Order) | S64(order: Order)

  /** The number of bytes the field occupies. */
  function Width(k: Kind): (w: nat)
    ensures w in {1, 2, 3, 4, 8}
  {
    match k
    case U8 | S8 => 1
    case U16(_) | S16(_) => 2
    case U24(_) | S24(_) => 3
    case U32(_) | S32(_) => 4
    case U64(_) | S64(_) => 8
  }

  predicate Signedness(k: Kind) {
    k.S8? || k.S16? || k.S24? || k.S32? || k.S64?
  }

  /** Least significant byte first? The single-byte fields have no byte order. */
  predicate LeastFirst(k: Kind) {
    !(k.U8? || k.S8?) && k.order == Little
  }

  /** The values of the C# parameter type of the `Write*` member (a 24-bit field is
      written from a `uint` or an `int`). */
  predicate InRange(k: Kind, v: int) {
    match k
    case U8 => 0 <= v < 0x100
    case S8 => -0x80 <= v < 0x80
    case U16(_) => 0 <= v < 0x1_0000
    case S16(_) => -0x8000 <= v < 0x8000
    case U24(_) | U32(_) => 0 <= v < 0x1_0000_0000
    case S24(_) | S32(_) => -0x8000_0000 <= v < 0x8000_0000
    case U64(_) => 0 <= v < 0x1_0000_0000_0000_0000
    case S64(_) => -0x8000_0000_0000_0000 <= v < 0x8000_0000_0000_0000
  }

  /** The `maxValue` the `Mark*` member gives its placeholder: the largest value of the
      field's C# type, or of the 24-bit range for the 24-bit fields. */
  function MaxValue(k: Kind): nat {
    match k
    case U8 => 0xFF
    case S8 => 0x7F
    case U16(_) => 0xFFFF
    case S16(_) => 0x7FFF
    case U24(_) => 0xFF_FFFF
    case S24(_) => 0x7F_FFFF
    case U32(_) => 0xFFFF_FFFF
    case S32(_) => 0x7FFF_FFFF
    case U64(_) => 0xFFFF_FFFF_FFFF_FFFF
    case S64(_) => 0x7FFF_FFFF_FFFF_FFFF
  }

  // ---------------------------------------------------------------------------------------
  // Reference layout

  /** The bytes of a field holding `v`: the low `Width(k)` bytes of its two's-complement
      representation, in the field's byte order. */
  function Encode(k: Kind, v: int): (bytes: Bytes)
    ensures |bytes| == Width(k)
  {
    if LeastFirst(k) then ToLittleEndian(v, Width(k)) else ToBigEndian(v, Width(k))
  }

  /** The value a field's bytes stand for. */
  function Decode(k: Kind, bytes: Bytes): int
    requires |bytes| == Width(k)
  {
    var u := if LeastFirst(k) then FromLittleEndian(bytes) else FromBigEndian(bytes);
    if Signedness(k) then Signed(u, Width(k)) else u
  }

  /** What survives an encode: the value itself, except that the 24-bit fields keep only
      the low 24 bits of their 32-bit argument. */
  function Retained(k: Kind, v: int): int {
    match k
    case U24(_) => v % 0x100_0000
    case S24(_) => Wrap(v, 3)
    case _ => v
  }

  // ---------------------------------------------------------------------------------------
  // The codec calls

  /** Reads a field at `offset`: an index into the array for the single-byte fields (with
      the `(sbyte)` cast for `S8`), the endian function otherwise. */
  function ReadAt(k: Kind, buffer: Bytes, offset: int): (r: Result<int>)
    ensures r.Ok? <==> Fits(buffer, offset, Width(k))
    ensures r.Err? ==> r.error == IndexOutOfRange
    ensures r.Ok? ==> r.value == Decode(k, buffer[offset..offset + Width(k)])
  {
    if !Fits(buffer, offset, Width(k)) then
      Err(IndexOutOfRange)
    else if k.U8? || k.S8? then
      var window := buffer[offset..offset + 1];
      assert window[..0] == [];
      if k.U8? then Ok(buffer[offset]) else Ok(Wrap(buffer[offset], 1))
    else if k.order == Big then
      Ok(ReadBig(k, buffer, offset))
    else
      Ok(ReadLittle(k, buffer, offset))
  }

  function ReadBig(k: Kind, buffer: Bytes, offset: int): (v: int)
    requires !(k.U8? || k.S8?) && k.order == Big && Fits(buffer, offset, Width(k))
    ensures v == Decode(k, buffer[offset..offset + Width(k)])
  {
    match k
    case U16(_) => BigEndian.ReadU16(buffer, offset).value
    case S16(_) => BigEndian.ReadS16(buffer, offset).value
    case U24(_) => BigEndian.ReadU24(buffer, offset).value
    case S24(_) => BigEndian.ReadS24(buffer, offset).value
    case U32(_) => BigEndian.ReadU32(buffer, offset).value
    case S32(_) => BigEndian.ReadS32(buffer, offset).value
    case U64(_) => BigEndian.ReadU64(buffer, offset).value
    case S64(_) => BigEndian.ReadS64(buffer, offset).value
  }

  function ReadLittle(k: Kind, buffer: Bytes, offset: int): (v: int)
    requires !(k.U8? || k.S8?) && k.order == Little && Fits(buffer, offset, Width(k))
    ensures v == Decode(k, buffer[offset..offset + Width(k)])
  {
    match k
    case U16(_) => LittleEndian.ReadU16(buffer, offset).value
    case S16(_) => LittleEndian.ReadS16(buffer, offset).value
    case U24(_) => LittleEndian.ReadU24(buffer, offset).value
    case S24(_) => LittleEndian.ReadS24(buffer, offset).value
    case U32(_) => LittleEndian.ReadU32(buffer, offset).value
    case S32(_) => LittleEndian.ReadS32(buffer, offset).value
    case U64(_) => LittleEndian.ReadU64(buffer, offset).value
    case S64(_) => LittleEndian.ReadS64(buffer, offset).value
  }

  /** Stores a field at `offset`: one array store for the single-byte fields (with the
      `(byte)` cast for `S8`), the endian function otherwise. */
  function WriteAt(k: Kind, buffer: Bytes, offset: int, v: int): (r: Store)
    requires InRange(k, v)
    ensures r == StoreBytes(buffer, offset, Encode(k, v))
  {
    if k.U8? || k.S8? then
      assert Encode(k, v) == [v % 0x100] by {
        assert ToBigEndian(v, 1) == ToBigEndian(v / 0x100, 0) + [v % 0x100];
      }
      if k.U8? then StoreBytes(buffer, offset, [v]) else StoreBytes(buffer, offset, [v % 0x100])
    else if k.order == Big then WriteBig(k, buffer, offset, v)
    else WriteLittle(k, buffer, offset, v)
  }

  function WriteBig(k: Kind, buffer: Bytes, offset: int, v: int): (r: Store)
    requires !(k.U8? || k.S8?) && k.order == Big && InRange(k, v)
    ensures r == StoreBytes(buffer, offset, ToBigEndian(v, Width(k)))
  {
    match k
    case U16(_) => BigEndian.WriteU16(buffer, offset, v)
    case S16(_) => BigEndian.WriteS16(buffer, offset, v)
    case U24(_) => BigEndian.WriteU24(buffer, offset, v)
    case S24(_) => BigEndian.WriteS24(buffer, offset, v)
    case U32(_) => BigEndian.WriteU32(buffer, offset, v)
    case S32(_) => BigEndian.WriteS32(buffer, offset, v)
    case U64(_) => BigEndian.WriteU64(buffer, offset, v)
    case S64(_) => BigEndian.WriteS64(buffer, offset, v)
  }

  function WriteLittle(k: Kind, buffer: Bytes, offset: int, v: int): (r: Store)
    requires !(k.U8? || k.S8?) && k.order == Little && InRange(k, v)
    ensures r == StoreBytes(buffer, offset, ToLittleEndian(v, Width(k)))
  {
    match k
    case U16(_) => LittleEndian.WriteU16(buffer, offset, v)
    case S16(_) => LittleEndian.WriteS16(buffer, offset, v)
    case U24(_) => LittleEndian.WriteU24(buffer, offset, v)
    case S24(_) => LittleEndian.WriteS24(buffer, offset, v)
    case U32(_) => LittleEndian.WriteU32(buffer, offset, v)
    case S32(_) => LittleEndian.WriteS32(buffer, offset, v)
    case U64(_) => LittleEndian.WriteU64(buffer, offset, v)
    case S64(_) => LittleEndian.WriteS64(buffer, offset, v)
  }

  // ---------------------------------------------------------------------------------------
  // Properties

  /** Decoding an encoded in-range value gives back what the field retains. */
  lemma DecodeEncode(k: Kind, v: int)
    requires InRange(k, v)
    ensures Decode(k, Encode(k, v)) == Retained(k, v)
  {
    var w := Width(k);
    Pow256Values();
    if LeastFirst(k) {
      LittleEndianRoundTrip(v, w);
    } else {
      BigEndianRoundTrip(v, w);
    }
    if Signedness(k) {
      if !k.S24? {
        SignedRoundTrip(v, w);
      }
    } else if !k.U24? {
      DivModUnique(v, Pow256(w), 0, v);
    }
  }

  /** A field read back from where it was just written holds the retained value. */
  lemma ReadAfterWrite(k: Kind, buffer: Bytes, offset: int, v: int)
    requires InRange(k, v) && Fits(buffer, offset, Width(k))
    ensures ReadAt(k, WriteAt(k, buffer, offset, v).buffer, offset) == Ok(Retained(k, v))
  {
    WriteAtWindow(k, buffer, offset, v);
  }

  /** A field stored inside the array changes just its own bytes, to the encoding of the
      value. */
  lemma WriteAtWindow(k: Kind, buffer: Bytes, offset: int, v: int)
    requires InRange(k, v) && Fits(buffer, offset, Width(k))
    ensures WriteAt(k, buffer, offset, v).Done?
    ensures WriteAt(k, buffer, offset, v).buffer[offset..offset + Width(k)] == Encode(k, v)
    ensures Decode(k, WriteAt(k, buffer, offset, v).buffer[offset..offset + Width(k)]) == Retained(k, v)
    ensures Confined(buffer, WriteAt(k, buffer, offset, v).buffer, offset, Width(k))
  {
    StoredWindow(buffer, offset, Encode(k, v));
    DecodeEncode(k, v);
  }

  /** A value up to the placeholder maximum survives the field unchanged. */
  lemma MaxValueRetained(k: Kind, v: int)
    requires 0 <= v <= MaxValue(k)
    ensures InRange(k, v) && Retained(k, v) == v
  {
    if k.S24? {
      Pow256Values();
      assert v % Pow256(3) == v;
    }
  }

  /** Decoded values lie in the range of the C# return type, and the signed fields are the
      two's-complement reading of the unsigned ones. */
  lemma DecodeRange(k: Kind, bytes: Bytes)
    requires |bytes| == Width(k)
    ensures Signedness(k) ==> -(Pow256(Width(k)) / 2) <= Decode(k, bytes) < Pow256(Width(k)) / 2
    ensures !Signedness(k) ==> 0 <= Decode(k, bytes) < Pow256(Width(k))
  {
    if Signedness(k) {
      var u := if LeastFirst(k) then FromLittleEndian(bytes) else FromBigEndian(bytes);
      SignedRange(u, Width(k));
    }
  }
}
