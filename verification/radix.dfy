/** Reference definitions of base-256 positional notation, independent of the shift-and-mask
    code the codecs are written with: the value a byte string denotes when read most- or
    least-significant byte first, and the byte string of a given width that denotes a value. */
module Radix {
  import opened Primitives

  /** The value of `s` read with the most significant byte first. */
  function FromBigEndian(s: Bytes): (v: nat)
    ensures v < Pow256(|s|)
  {
    if |s| == 0 then 0 else FromBigEndian(s[..|s| - 1]) * 0x100 + s[|s| - 1]
  }

  /** The value of `s` read with the least significant byte first. */
  function FromLittleEndian(s: Bytes): (v: nat)
    ensures v < Pow256(|s|)
  {
    if |s| == 0 then 0 else s[0] + 0x100 * FromLittleEndian(s[1..])
  }

  /** The `width` low-order bytes of `v`, most significant first. Negative values are taken
      in two's complement, because Dafny's `/` and `%` by a positive divisor are the
      arithmetic right shift and the low-byte mask. */
  function ToBigEndian(v: int, width: nat): (s: Bytes)
    decreases width
    ensures |s| == width
  {
    if width == 0 then [] else ToBigEndian(v / 0x100, width - 1) + [v % 0x100]
  }

  /** The `width` low-order bytes of `v`, least significant first. */
  function ToLittleEndian(v: int, width: nat): (s: Bytes)
    decreases width
    ensures |s| == width
  {
    if width == 0 then [] else [v % 0x100] + ToLittleEndian(v / 0x100, width - 1)
  }

  function Reverse(s: Bytes): (r: Bytes)
    ensures |r| == |s|
  {
    if |s| == 0 then [] else [s[|s| - 1]] + Reverse(s[..|s| - 1])
  }

  // ---------------------------------------------------------------------------------------
  // Arithmetic facts behind the round trips

  /** Euclidean division is unique. */
  lemma DivModUnique(v: int, d: int, q: int, m: int)
    requires d > 0 && 0 <= m < d && v == d * q + m
    ensures v / d == q && v % d == m
  {
    var q0, m0 := v / d, v % d;
    assert d * q0 + m0 == d * q + m;
    if q0 > q {
      assert d * q0 - d * q == d * (q0 - q);
      MulAtLeast(d, q0 - q);
      assert false;
    } else if q0 < q {
      assert d * q - d * q0 == d * (q - q0);
      MulAtLeast(d, q - q0);
      assert false;
    }
  }

  lemma MulAtLeast(d: int, k: int)
    requires d > 0 && k >= 1
    ensures d * k >= d
  {
  }

  /** Peeling the low byte off a value and reducing the rest modulo `p` is reducing the value
      modulo `256 * p`. */
  lemma ModOfShifted(v: int, p: int)
    requires p > 0
    ensures ((v / 0x100) % p) * 0x100 + v % 0x100 == v % (0x100 * p)
  {
    var q, r := v / 0x100, v % 0x100;
    var t, s := q / p, q % p;
    assert v == 0x100 * q + r;
    assert q == p * t + s;
    assert v == (0x100 * p) * t + (s * 0x100 + r) by {
      assert 0x100 * q == 0x100 * (p * t) + 0x100 * s;
      assert 0x100 * (p * t) == (0x100 * p) * t;
    }
    assert 0 <= s * 0x100 + r < 0x100 * p by {
      assert s <= p - 1;
      assert s * 0x100 <= (p - 1) * 0x100;
    }
    DivModUnique(v, 0x100 * p, t, s * 0x100 + r);
  }

  /** The high-order quotient of the same peeling. */
  lemma DivOfShifted(v: int, p: int)
    requires p > 0
    ensures (v / 0x100) / p == v / (0x100 * p)
  {
    var q, r := v / 0x100, v % 0x100;
    var t, s := q / p, q % p;
    assert v == (0x100 * p) * t + (s * 0x100 + r) by {
      assert v == 0x100 * q + r;
      assert 0x100 * q == 0x100 * (p * t) + 0x100 * s;
      assert 0x100 * (p * t) == (0x100 * p) * t;
    }
    assert 0 <= s * 0x100 + r < 0x100 * p by {
      assert s * 0x100 <= (p - 1) * 0x100;
    }
    DivModUnique(v, 0x100 * p, t, s * 0x100 + r);
  }

  // ---------------------------------------------------------------------------------------
  // Round trips

  /** Encoding `v` in `width` big-endian bytes and reading them back yields `v` reduced
      modulo `256^width`: exactly the bits that fit. */
  lemma {:induction false} BigEndianRoundTrip(v: int, width: nat)
    decreases width
    ensures FromBigEndian(ToBigEndian(v, width)) == v % Pow256(width)
  {
    if width > 0 {
      var s := ToBigEndian(v, width);
      assert s[..width - 1] == ToBigEndian(v / 0x100, width - 1);
      BigEndianRoundTrip(v / 0x100, width - 1);
      ModOfShifted(v, Pow256(width - 1));
    }
  }

  /** Reading bytes as a big-endian value and encoding it back at the same width gives the
      same bytes. */
  lemma {:induction false} BigEndianBytesRoundTrip(s: Bytes)
    ensures ToBigEndian(FromBigEndian(s), |s|) == s
  {
    if |s| > 0 {
      var init := s[..|s| - 1];
      var v := FromBigEndian(s);
      DivModUnique(v, 0x100, FromBigEndian(init), s[|s| - 1]);
      BigEndianBytesRoundTrip(init);
      assert s == init + [s[|s| - 1]];
    }
  }

  lemma {:induction false} LittleEndianRoundTrip(v: int, width: nat)
    decreases width
    ensures FromLittleEndian(ToLittleEndian(v, width)) == v % Pow256(width)
  {
    if width > 0 {
      var s := ToLittleEndian(v, width);
      assert s[1..] == ToLittleEndian(v / 0x100, width - 1);
      LittleEndianRoundTrip(v / 0x100, width - 1);
      ModOfShifted(v, Pow256(width - 1));
    }
  }

  lemma {:induction false} LittleEndianBytesRoundTrip(s: Bytes)
    ensures ToLittleEndian(FromLittleEndian(s), |s|) == s
  {
    if |s| > 0 {
      var v := FromLittleEndian(s);
      DivModUnique(v, 0x100, FromLittleEndian(s[1..]), s[0]);
      LittleEndianBytesRoundTrip(s[1..]);
      assert s == [s[0]] + s[1..];
    }
  }

  /** Byte `k` of the big-endian encoding is `(v >> (8 * (width - 1 - k))) & 0xFF`. */
  lemma {:induction false} BigEndianDigit(v: int, width: nat, k: nat)
    decreases width
    requires k < width
    ensures ToBigEndian(v, width)[k] == (v / Pow256(width - 1 - k)) % 0x100
  {
    if k < width - 1 {
      BigEndianDigit(v / 0x100, width - 1, k);
      DivOfShifted(v, Pow256(width - 2 - k));
    }
  }

  /** The little-endian encoding is the big-endian encoding backwards. */
  lemma {:induction false} LittleEndianIsReversed(v: int, width: nat)
    decreases width
    ensures ToLittleEndian(v, width) == Reverse(ToBigEndian(v, width))
  {
    if width > 0 {
      var b := ToBigEndian(v, width);
      assert b[..width - 1] == ToBigEndian(v / 0x100, width - 1);
      LittleEndianIsReversed(v / 0x100, width - 1);
    }
  }

  // ---------------------------------------------------------------------------------------
  // Two's complement

  /** Reading back the low bytes of an in-range signed value as two's complement gives the
      value; the reading of any `width`-byte pattern is in the signed range. */
  lemma SignedRoundTrip(v: int, width: nat)
    requires width > 0
    requires -(Pow256(width) / 2) <= v < Pow256(width) / 2
    ensures Signed(v % Pow256(width), width) == v
  {
    var p := Pow256(width);
    assert p == 0x100 * Pow256(width - 1);
    if v < 0 {
      DivModUnique(v, p, -1, v + p);
    } else {
      DivModUnique(v, p, 0, v);
    }
  }

  /** A byte shifted into the top of a `width`-byte integer: its high bit becomes the sign
      bit, both when the shift wraps (`Wrap`) and when the value is read as two's complement
      with lower bytes added (`Signed`). */
  lemma SignedTopByte(b: byte, low: int, p: int, width: nat)
    requires width > 0 && p == Pow256(width - 1) && 0 <= low < p
    ensures Wrap(b * p, width) == (if b >= 0x80 then b - 0x100 else b) * p
    ensures Signed(b * p + low, width) == (if b >= 0x80 then b - 0x100 else b) * p + low
  {
    var whole := Pow256(width);
    assert whole == 0x100 * p;
    DivModUnique(whole, 2, 0x80 * p, 0);
    MulBelow(b, 0x100, p);
    DivModUnique(b * p, whole, 0, b * p);
    if b >= 0x80 {
      MulBelow(0x80, b, p);
      assert b * p - whole == (b - 0x100) * p;
    } else {
      MulBelow(b, 0x7F, p);
    }
  }

  /** C#'s `(b << 24) >> 8` on an `int`: the byte lands in bits 16 to 23 with its top bit
      copied upwards. */
  lemma SignedTopByteShifted(b: byte)
    ensures Wrap(b * 0x100_0000, 4) / 0x100 == (if b >= 0x80 then b - 0x100 else b) * 0x1_0000
  {
    Pow256Values();
    SignedTopByte(b, 0, 0x100_0000, 4);
    var s := if b >= 0x80 then b - 0x100 else b;
    DivModUnique(s * 0x100_0000, 0x100, s * 0x1_0000, 0);
  }

  /** Multiplication by a positive number keeps the order. */
  lemma MulBelow(a: int, c: int, p: int)
    requires 0 <= a <= c && p > 0
    ensures 0 <= a * p <= c * p
    ensures a < c ==> a * p + p <= c * p
  {
    assert c * p == a * p + (c - a) * p;
    if a < c {
      MulAtLeast(p, c - a);
    }
  }

  lemma SignedRange(u: int, width: nat)
    requires width > 0 && 0 <= u < Pow256(width)
    ensures -(Pow256(width) / 2) <= Signed(u, width) < Pow256(width) / 2
  {
    HalfPow256(width);
  }

  lemma HalfPow256(width: nat)
    requires width > 0
    ensures Pow256(width) / 2 * 2 == Pow256(width)
  {
    var p := Pow256(width - 1);
    assert Pow256(width) == 2 * (0x80 * p) + 0;
    DivModUnique(Pow256(width), 2, 0x80 * p, 0);
  }

  // ---------------------------------------------------------------------------------------
  // The fixed widths the codecs use, spelled out

  lemma BigEndian2(s: Bytes)
    requires |s| == 2
    ensures FromBigEndian(s) == (s[0] as int) * 0x100 + s[1]
  {
    assert s[..1][..0] == [];
  }

  lemma BigEndian3(s: Bytes)
    requires |s| == 3
    ensures FromBigEndian(s) == (s[0] as int) * 0x1_0000 + (s[1] as int) * 0x100 + s[2]
  {
    BigEndian2(s[..2]);
  }

  lemma BigEndian4(s: Bytes)
    requires |s| == 4
    ensures FromBigEndian(s) == (s[0] as int) * 0x100_0000 + (s[1] as int) * 0x1_0000 + (s[2] as int) * 0x100 + s[3]
  {
    BigEndian3(s[..3]);
  }

  lemma BigEndian8(s: Bytes)
    requires |s| == 8
    ensures FromBigEndian(s) ==
      (s[0] as int) * 0x100_0000_0000_0000 + (s[1] as int) * 0x1_0000_0000_0000 + (s[2] as int) * 0x100_0000_0000 +
      (s[3] as int) * 0x1_0000_0000 + (s[4] as int) * 0x100_0000 + (s[5] as int) * 0x1_0000 + (s[6] as int) * 0x100 + s[7]
  {
    var t := s[..4];
    BigEndian4(t);
    assert FromBigEndian(s[..5]) == FromBigEndian(t) * 0x100 + s[4] by { assert s[..5][..4] == t; }
    assert FromBigEndian(s[..6]) == FromBigEndian(s[..5]) * 0x100 + s[5] by { assert s[..6][..5] == s[..5]; }
    assert FromBigEndian(s[..7]) == FromBigEndian(s[..6]) * 0x100 + s[6] by { assert s[..7][..6] == s[..6]; }
  }

  lemma LittleEndian2(s: Bytes)
    requires |s| == 2
    ensures FromLittleEndian(s) == (s[0] as int) + (s[1] as int) * 0x100
  {
    assert s[1..][1..] == [];
  }

  lemma LittleEndian3(s: Bytes)
    requires |s| == 3
    ensures FromLittleEndian(s) == (s[0] as int) + (s[1] as int) * 0x100 + (s[2] as int) * 0x1_0000
  {
    LittleEndian2(s[1..]);
  }

  lemma LittleEndian4(s: Bytes)
    requires |s| == 4
    ensures FromLittleEndian(s) == (s[0] as int) + (s[1] as int) * 0x100 + (s[2] as int) * 0x1_0000 + (s[3] as int) * 0x100_0000
  {
    LittleEndian3(s[1..]);
  }

  lemma LittleEndian8(s: Bytes)
    requires |s| == 8
    ensures FromLittleEndian(s) ==
      (s[0] as int) + (s[1] as int) * 0x100 + (s[2] as int) * 0x1_0000 + (s[3] as int) * 0x100_0000 + (s[4] as int) * 0x1_0000_0000 +
      (s[5] as int) * 0x100_0000_0000 + (s[6] as int) * 0x1_0000_0000_0000 + (s[7] as int) * 0x100_0000_0000_0000
  {
    var t := s[4..];
    LittleEndian4(t);
    assert FromLittleEndian(s[3..]) == s[3] + 0x100 * FromLittleEndian(t) by { assert s[3..][1..] == t; }
    assert FromLittleEndian(s[2..]) == s[2] + 0x100 * FromLittleEndian(s[3..]) by { assert s[2..][1..] == s[3..]; }
    assert FromLittleEndian(s[1..]) == s[1] + 0x100 * FromLittleEndian(s[2..]) by { assert s[1..][1..] == s[2..]; }
  }

  /** The explicit byte lists the encoders store are the reference encodings. */
  lemma BigEndianBytes(v: int, width: nat)
    requires width in {2, 3, 4, 8}
    ensures width == 2 ==> ToBigEndian(v, 2) == [(v / 0x100) % 0x100, v % 0x100]
    ensures width == 3 ==> (ToBigEndian(v, 3) ==
      [(v / 0x1_0000) % 0x100, (v / 0x100) % 0x100, v % 0x100])
    ensures width == 4 ==> (ToBigEndian(v, 4) ==
      [(v / 0x100_0000) % 0x100, (v / 0x1_0000) % 0x100, (v / 0x100) % 0x100, v % 0x100])
    ensures width == 8 ==> (ToBigEndian(v, 8) ==
      [(v / 0x100_0000_0000_0000) % 0x100, (v / 0x1_0000_0000_0000) % 0x100,
       (v / 0x100_0000_0000) % 0x100, (v / 0x1_0000_0000) % 0x100,
       (v / 0x100_0000) % 0x100, (v / 0x1_0000) % 0x100, (v / 0x100) % 0x100, v % 0x100])
  {
    var s := ToBigEndian(v, width);
    Pow256Values();
    forall k | 0 <= k < width
      ensures s[k] == (v / Pow256(width - 1 - k)) % 0x100
    {
      BigEndianDigit(v, width, k);
    }
  }

  lemma LittleEndianBytes(v: int, width: nat)
    requires width in {2, 3, 4, 8}
    ensures width == 2 ==> ToLittleEndian(v, 2) == [v % 0x100, (v / 0x100) % 0x100]
    ensures width == 3 ==> (ToLittleEndian(v, 3) ==
      [v % 0x100, (v / 0x100) % 0x100, (v / 0x1_0000) % 0x100])
    ensures width == 4 ==> (ToLittleEndian(v, 4) ==
      [v % 0x100, (v / 0x100) % 0x100, (v / 0x1_0000) % 0x100, (v / 0x100_0000) % 0x100])
    ensures width == 8 ==> (ToLittleEndian(v, 8) ==
      [v % 0x100, (v / 0x100) % 0x100, (v / 0x1_0000) % 0x100, (v / 0x100_0000) % 0x100,
       (v / 0x1_0000_0000) % 0x100, (v / 0x100_0000_0000) % 0x100,
       (v / 0x1_0000_0000_0000) % 0x100, (v / 0x100_0000_0000_0000) % 0x100])
  {
    var b := ToBigEndian(v, width);
    LittleEndianIsReversed(v, width);
    BigEndianBytes(v, width);
    ReverseIndex(b);
  }

  lemma {:induction false} ReverseIndex(s: Bytes)
    ensures forall i | 0 <= i < |s| :: Reverse(s)[i] == s[|s| - 1 - i]
  {
    if |s| > 0 {
      ReverseIndex(s[..|s| - 1]);
    }
  }
}
