/** ZigZag: the signed-integer encoding of the sdk writer and reader, and
    the 32-bit round trip that the writer's sign extension breaks. */
module SdkZigZag {
  import opened Bits
  import opened KotlinInt
  import opened Wrappers
  import opened SdkWriter
  import opened SdkReader
  import opened SdkCodec

  const TWO_30: int := 0x4000_0000

  /** The ZigZag map on unbounded integers: `0, -1, 1, -2, 2, …` go to
      `0, 1, 2, 3, 4, …`. */
  function ZigZagRef(v: int): nat {
    if v >= 0 then 2 * v else -2 * v - 1
  }

  /** Its inverse: even numbers are the non-negatives, odd the negatives. */
  function UnZigZagRef(n: nat): int {
    if n % 2 == 0 then n / 2 else -(n / 2) - 1
  }

  lemma ZigZagRefInverse(v: int)
    ensures UnZigZagRef(ZigZagRef(v)) == v
  {
  }

  // ---- 64 bits ------------------------------------------------------------

  /** `(v shl 1) xor (v shr 63)` computes the ZigZag image as a pattern. */
  lemma ZigZag64Pattern(v: Long)
    ensures U64(ZigZag64(v)) == ZigZagRef(v)
  {
    LShlOne(v);
    LShrSign(v);
    if v < 0 {
      var a := 2 * v + TWO_64;
      assert Xor(a, TWO_64 - 1) == TWO_64 - 1 - a by {
        assert Pow2(64) == TWO_64 by { Pow2Values(); }
        XorAllOnes(a, 64);
      }
    }
  }

  /** `(z ushr 1) xor -(z and 1)` inverts ZigZag on the pattern of `z`. */
  lemma UnZigZag64Value(z: Long)
    ensures UnZigZag64(z) == UnZigZagRef(U64(z))
  {
    var n := U64(z);
    assert Pow2(1) == 2;
    assert LAnd(z, 1) == n % 2 by {
      AndLowMask(n, 1);
    }
    assert U64(LUshr(z, 1)) == n / 2;
    if n % 2 == 1 {
      assert LNeg(LAnd(z, 1)) == -1;
      assert Xor(n / 2, TWO_64 - 1) == TWO_64 - 1 - n / 2 by {
        assert Pow2(64) == TWO_64 by { Pow2Values(); }
        XorAllOnes(n / 2, 64);
      }
    } else {
      assert LNeg(LAnd(z, 1)) == 0;
    }
  }

  /** `readSInt64` inverts `writeSInt64` for every Long. */
  lemma SInt64RoundTrip(w: Writer, fieldNumber: Int, v: Long, bytes: ByteArray)
    requires ValidTag(fieldNumber, VARINT) && v != 0
    requires WriteSInt64(w, fieldNumber, v).buffer <= bytes
    ensures var t := ReadTag(bytes, |w.buffer|);
      t.Success? && t.value.0 == Some(Tag(fieldNumber, VARINT))
      && Yields(ReadSInt64(bytes, t.value.1), v, |WriteSInt64(w, fieldNumber, v).buffer|)
  {
    var z := ZigZag64(v);
    VarIntField(w, fieldNumber, z, bytes);
    var t := ReadTag(bytes, |w.buffer|);
    ReadSInt64Of(bytes, t.value.1, z, |WriteSInt64(w, fieldNumber, v).buffer|);
    assert UnZigZag64(z) == v by {
      ZigZag64Pattern(v);
      UnZigZag64Value(z);
      ZigZagRefInverse(v);
    }
  }

  /** `readSInt64` decodes whatever varint it finds. */
  lemma ReadSInt64Of(bytes: ByteArray, pos: Int, z: Long, next: int)
    requires Yields(ReadVarInt(bytes, pos), z, next)
    ensures Yields(ReadSInt64(bytes, pos), UnZigZag64(z), next)
  {
  }

  // ---- 32 bits ------------------------------------------------------------

  /** `(v shl 1) xor (v shr 31)` on Int computes the ZigZag image as a
      32-bit pattern. */
  lemma ZigZag32Pattern(v: Int)
    ensures U32(ZigZag32(v)) == ZigZagRef(v)
  {
    ShlOne(v);
    ShrSign(v);
    if v < 0 {
      var a := 2 * v + TWO_32;
      assert Xor(a, TWO_32 - 1) == TWO_32 - 1 - a by {
        assert Pow2(32) == TWO_32 by { Pow2Values(); }
        XorAllOnes(a, 32);
      }
    }
  }

  /** What `readSInt32` returns for the varint `writeSInt32` wrote: the
      value itself for `-2^30 <= v < 2^30`, and otherwise `v` with bit 31
      flipped. */
  function SInt32AsRead(v: Int): Int {
    if -TWO_30 <= v < TWO_30 then v
    else if v >= 0 then v - TWO_31
    else v + TWO_31
  }

  /** The Long that `writeSInt32` hands to `writeVarInt`: the 32-bit
      ZigZag image, sign-extended. */
  lemma SInt32WrittenLong(v: Int)
    ensures ToLong(ZigZag32(v)) == if ZigZagRef(v) < TWO_31 then ZigZagRef(v) else ZigZagRef(v) - TWO_32
  {
    ZigZag32Pattern(v);
  }

  /** The low 32 bits of a Long, in the three ranges the decoder meets. */
  lemma ToIntOfHigh(x: Long, low: int, q: int)
    requires 0 <= low < TWO_32
    requires U64(x) == q * TWO_32 + low
    ensures ToInt(x) == FromU32(low)
  {
    LemmaModUnique(U64(x), TWO_32, q, low);
  }

  /** The decode of a sign-extended image of a large non-negative value. */
  lemma DecodeHighPositive(v: Int, z: Long)
    requires v >= TWO_30 && U64(z) == 2 * v - TWO_32 + TWO_64
    ensures ToInt(UnZigZag64(z)) == v - TWO_31
  {
    UnZigZag64Value(z);
    var d := TWO_63 - TWO_31 + v;
    assert UnZigZagRef(U64(z)) == d;
    ToIntOfHigh(d, v + TWO_31, TWO_31 - 1);
  }

  /** The decode of a sign-extended image of a large negative value. */
  lemma DecodeHighNegative(v: Int, z: Long)
    requires v < -TWO_30 && U64(z) == -2 * v - 1 - TWO_32 + TWO_64
    ensures ToInt(UnZigZag64(z)) == v + TWO_31
  {
    UnZigZag64Value(z);
    var d := -TWO_63 + TWO_31 + v;
    assert UnZigZagRef(U64(z)) == d;
    ToIntOfHigh(d, v + TWO_31, TWO_31);
  }

  /** `readSInt32` applied to what `writeSInt32` wrote. */
  lemma SInt32DecodeAsWritten(v: Int)
    ensures ToInt(UnZigZag64(ToLong(ZigZag32(v)))) == SInt32AsRead(v)
  {
    var zz := ZigZagRef(v);
    var z := ToLong(ZigZag32(v));
    assert z == if zz < TWO_31 then zz else zz - TWO_32 by {
      SInt32WrittenLong(v);
    }
    if zz < TWO_31 {
      assert UnZigZag64(z) == v by {
        UnZigZag64Value(z);
      }
    } else if v >= 0 {
      DecodeHighPositive(v, z);
    } else {
      DecodeHighNegative(v, z);
    }
  }

  /** `readSInt32` after `writeSInt32`, as written: the reader returns
      `SInt32AsRead(v)`, which is `v` exactly when `|v| <= 2^30` on the
      negative side and `< 2^30` on the positive side. */
  lemma SInt32RoundTripAsWritten(w: Writer, fieldNumber: Int, v: Int, bytes: ByteArray)
    requires ValidTag(fieldNumber, VARINT) && v != 0
    requires WriteSInt32(w, fieldNumber, v).buffer <= bytes
    ensures var t := ReadTag(bytes, |w.buffer|);
      t.Success? && t.value.0 == Some(Tag(fieldNumber, VARINT))
      && Yields(ReadSInt32(bytes, t.value.1), SInt32AsRead(v), |WriteSInt32(w, fieldNumber, v).buffer|)
    ensures SInt32AsRead(v) == v <==> -TWO_30 <= v < TWO_30
  {
    VarIntField(w, fieldNumber, ToLong(ZigZag32(v)), bytes);
    SInt32DecodeAsWritten(v);
  }

  /** The smallest positive value the writer loses: `2^30` reads back as
      `-2^30`. */
  lemma SInt32Counterexample()
    ensures SInt32AsRead(TWO_30) == -TWO_30
    ensures ToInt(UnZigZag64(ToLong(ZigZag32(TWO_30)))) == -TWO_30
  {
    SInt32DecodeAsWritten(TWO_30);
  }

  /** `writeSInt32` with the ZigZag image zero-extended
      (`.toLong() and 0xFFFFFFFFL`), as varint sint32 is meant to be. */
  function WriteSInt32Fixed(w: Writer, fieldNumber: Int, value: Int): (r: Writer)
    ensures w.buffer <= r.buffer
    ensures r == w <==> value == 0
  {
    if value == 0 then w
    else Append(WriteTag(w, fieldNumber, VARINT), VarInt(LAnd(ToLong(ZigZag32(value)), 0xFFFF_FFFF)))
  }

  /** Zero extension hands the varint writer exactly the ZigZag number. */
  lemma ZeroExtended(v: Int)
    ensures LAnd(ToLong(ZigZag32(v)), 0xFFFF_FFFF) == ZigZagRef(v)
  {
    var z := ToLong(ZigZag32(v));
    assert U64(z) % TWO_32 == ZigZagRef(v) by {
      ZigZag32Pattern(v);
      U64OfInt(ZigZag32(v));
    }
    assert And(U64(z), TWO_32 - 1) == U64(z) % TWO_32 by {
      assert Pow2(32) == TWO_32 by { Pow2Values(); }
      AndLowMask(U64(z), 32);
    }
  }

  /** `readSInt32` decodes whatever varint it finds. */
  lemma ReadSInt32Of(bytes: ByteArray, pos: Int, z: Long, next: int)
    requires Yields(ReadVarInt(bytes, pos), z, next)
    ensures Yields(ReadSInt32(bytes, pos), ToInt(UnZigZag64(z)), next)
  {
  }

  lemma FixedDecode(v: Int)
    ensures ToInt(UnZigZag64(LAnd(ToLong(ZigZag32(v)), 0xFFFF_FFFF))) == v
  {
    var z := LAnd(ToLong(ZigZag32(v)), 0xFFFF_FFFF);
    assert z == ZigZagRef(v) by {
      ZeroExtended(v);
    }
    assert UnZigZag64(z) == v by {
      UnZigZag64Value(z);
      ZigZagRefInverse(v);
    }
  }

  /** With zero extension `readSInt32` inverts the writer for every Int. */
  lemma SInt32RoundTripFixed(w: Writer, fieldNumber: Int, v: Int, bytes: ByteArray)
    requires ValidTag(fieldNumber, VARINT) && v != 0
    requires WriteSInt32Fixed(w, fieldNumber, v).buffer <= bytes
    ensures var t := ReadTag(bytes, |w.buffer|);
      t.Success? && t.value.0 == Some(Tag(fieldNumber, VARINT))
      && Yields(ReadSInt32(bytes, t.value.1), v, |WriteSInt32Fixed(w, fieldNumber, v).buffer|)
  {
    var z := LAnd(ToLong(ZigZag32(v)), 0xFFFF_FFFF);
    VarIntField(w, fieldNumber, z, bytes);
    var t := ReadTag(bytes, |w.buffer|);
    ReadSInt32Of(bytes, t.value.1, z, |WriteSInt32Fixed(w, fieldNumber, v).buffer|);
    FixedDecode(v);
  }
}
