/** Kotlin's fixed-width integers. `Int` and `Long` are the signed values;
    `U32`/`U64` give their two's complement bit patterns, and every Kotlin
    bit operation the codec uses is defined on those patterns through
    `Bits`. A `Byte` is likewise its 8-bit pattern, `0 .. 255`. */
module KotlinInt {
  import opened Bits

  const TWO_31: int := 0x8000_0000
  const TWO_32: int := 0x1_0000_0000
  const TWO_63: int := 0x8000_0000_0000_0000
  const TWO_64: int := 0x1_0000_0000_0000_0000
  const INT_MAX: int := 0x7FFF_FFFF

  type Byte = x: int | 0 <= x < 0x100
  type Int = x: int | -TWO_31 <= x < TWO_31
  type Long = x: int | -TWO_63 <= x < TWO_63

  /** A `ByteArray`: arrays are indexed by `Int`, so their size is at most
      `Int.MAX_VALUE`. */
  type ByteArray = s: seq<Byte> | |s| <= INT_MAX

  lemma Pow2Eight()
    ensures Pow2(1) == 2 && Pow2(7) == 128 && Pow2(8) == 256
  {
  }

  lemma Pow2Sixteen()
    ensures Pow2(16) == 0x1_0000
  {
    Pow2Eight();
    Pow2Add(8, 8);
  }

  lemma Pow2ThirtyTwo()
    ensures Pow2(32) == TWO_32
  {
    Pow2Sixteen();
    Pow2Add(16, 16);
  }

  lemma Pow2SixtyFour()
    ensures Pow2(64) == TWO_64
  {
    Pow2ThirtyTwo();
    Pow2Add(32, 32);
  }

  lemma Pow2Values()
    ensures Pow2(7) == 128 && Pow2(8) == 256
    ensures Pow2(16) == 0x1_0000 && Pow2(24) == 0x100_0000
    ensures Pow2(32) == TWO_32 && Pow2(64) == TWO_64
  {
    Pow2Eight();
    Pow2Sixteen();
    Pow2ThirtyTwo();
    Pow2SixtyFour();
    Pow2Add(16, 8);
  }

  lemma Pow2OddValues()
    ensures Pow2(1) == 2 && Pow2(31) == TWO_31 && Pow2(63) == TWO_63
  {
    Pow2Eight();
    Pow2Sixteen();
    Pow2ThirtyTwo();
    Pow2Add(8, 7);
    Pow2Add(16, 15);
    Pow2Add(32, 31);
  }

  // ---- Bit patterns -------------------------------------------------------

  function U32(x: Int): (p: nat)
    ensures p < TWO_32
    ensures x >= 0 ==> p == x
  {
    if x >= 0 then x else x + TWO_32
  }

  function FromU32(p: nat): (x: Int)
    requires p < TWO_32
    ensures U32(x) == p
  {
    if p < TWO_31 then p else p - TWO_32
  }

  function U64(x: Long): (p: nat)
    ensures p < TWO_64
    ensures x >= 0 ==> p == x
  {
    if x >= 0 then x else x + TWO_64
  }

  function FromU64(p: nat): (x: Long)
    requires p < TWO_64
    ensures U64(x) == p
  {
    if p < TWO_63 then p else p - TWO_64
  }

  /** An Int is determined by its pattern. */
  lemma U32Inverse(x: Int)
    ensures FromU32(U32(x)) == x
  {
  }

  /** A Long is determined by its pattern. */
  lemma U64Inverse(x: Long)
    ensures FromU64(U64(x)) == x
  {
  }

  /** The low 32 bits of a sign-extended Int are its own pattern. */
  lemma U64OfInt(x: Int)
    ensures U64(x) % TWO_32 == U32(x)
  {
    if x < 0 {
      assert U64(x) == U32(x) + (TWO_32 - 1) * TWO_32;
    }
  }

  // ---- Int operators -------------------------------------------------------

  /** `x shl k`: the pattern shifted left, bits above 32 dropped. */
  function Shl(x: Int, k: nat): Int
    requires k < 32
  {
    FromU32((U32(x) * Pow2(k)) % TWO_32)
  }

  /** `x shr k`: arithmetic shift, i.e. rounding toward negative infinity. */
  function Shr(x: Int, k: nat): Int {
    DivShrinks(x, Pow2(k));
    x / Pow2(k)
  }

  /** `x ushr k`: logical shift of the pattern. */
  function Ushr(x: Int, k: nat): Int {
    DivShrinks(U32(x), Pow2(k));
    FromU32(U32(x) / Pow2(k))
  }

  function IntAnd(x: Int, y: Int): Int {
    AndBound(U32(x), U32(y));
    FromU32(And(U32(x), U32(y)))
  }

  function IntOr(x: Int, y: Int): Int {
    Pow2Values();
    OrBound(U32(x), U32(y), 32);
    FromU32(Or(U32(x), U32(y)))
  }

  function IntXor(x: Int, y: Int): Int {
    Pow2Values();
    XorBound(U32(x), U32(y), 32);
    FromU32(Xor(U32(x), U32(y)))
  }

  /** `x.inv()` on Int: bitwise complement. */
  function IntInv(x: Int): Int {
    -(x as int) - 1
  }

  /** `a + b` on Int, wrapping around on overflow. */
  function IntAdd(a: Int, b: Int): (r: Int)
    ensures -TWO_31 <= a + b < TWO_31 ==> r == a + b
  {
    var s := a + b;
    if s >= TWO_31 then s - TWO_32 else if s < -TWO_31 then s + TWO_32 else s
  }

  // ---- Long operators ------------------------------------------------------

  function LShl(x: Long, k: nat): Long
    requires k < 64
  {
    FromU64((U64(x) * Pow2(k)) % TWO_64)
  }

  function LShr(x: Long, k: nat): Long {
    DivShrinks(x, Pow2(k));
    x / Pow2(k)
  }

  function LUshr(x: Long, k: nat): Long {
    DivShrinks(U64(x), Pow2(k));
    FromU64(U64(x) / Pow2(k))
  }

  function LAnd(x: Long, y: Long): Long {
    AndBound(U64(x), U64(y));
    FromU64(And(U64(x), U64(y)))
  }

  function LOr(x: Long, y: Long): Long {
    Pow2Values();
    OrBound(U64(x), U64(y), 64);
    FromU64(Or(U64(x), U64(y)))
  }

  function LXor(x: Long, y: Long): Long {
    Pow2Values();
    XorBound(U64(x), U64(y), 64);
    FromU64(Xor(U64(x), U64(y)))
  }

  /** Unary minus with wrap-around (`-Long.MIN_VALUE == Long.MIN_VALUE`). */
  function LNeg(x: Long): Long {
    FromU64((TWO_64 - U64(x)) % TWO_64)
  }

  /** `x.inv()`: bitwise complement. */
  function LInv(x: Long): Long {
    -(x as int) - 1
  }

  // ---- Shift facts ---------------------------------------------------------

  /** `x shl 1` doubles the pattern, dropping bit 31. */
  lemma ShlOne(x: Int)
    ensures U32(Shl(x, 1)) == if x >= 0 then 2 * x else 2 * x + TWO_32
  {
    assert Pow2(1) == 2;
    var d := U32(x) * Pow2(1);
    assert d == if x >= 0 then 2 * x else 2 * x + 2 * TWO_32;
  }

  /** `x shr 31` is the sign: `0` or `-1`. */
  lemma ShrSign(x: Int)
    ensures Shr(x, 31) == if x >= 0 then 0 else -1
  {
    assert Pow2(31) == TWO_31 by { Pow2OddValues(); }
  }

  lemma LShlOne(x: Long)
    ensures U64(LShl(x, 1)) == if x >= 0 then 2 * x else 2 * x + TWO_64
  {
    assert Pow2(1) == 2;
    var d := U64(x) * Pow2(1);
    assert d == if x >= 0 then 2 * x else 2 * x + 2 * TWO_64;
  }

  lemma LShrSign(x: Long)
    ensures LShr(x, 63) == if x >= 0 then 0 else -1
  {
    assert Pow2(63) == TWO_63 by { Pow2OddValues(); }
  }

  // ---- Conversions ---------------------------------------------------------

  /** `Int.toLong()`: sign extension keeps the value. */
  function ToLong(x: Int): Long {
    x
  }

  /** `Long.toInt()`: keeps the low 32 bits of the pattern. */
  function ToInt(x: Long): (r: Int)
    ensures -TWO_31 <= x < TWO_31 ==> r == x
  {
    var r := FromU32(U64(x) % TWO_32);
    assert -TWO_31 <= x < TWO_31 ==> r == x by {
      if 0 > x >= -TWO_31 {
        assert U64(x) % TWO_32 == x + TWO_32 by {
          LemmaModUnique(x + TWO_64, TWO_32, TWO_32 - 1, x + TWO_32);
        }
      }
    }
    r
  }

  /** `Long.toByte()` / `Int.toByte()`: the low 8 bits. */
  function LongToByte(x: Long): Byte {
    U64(x) % 256
  }

  function IntToByte(x: Int): Byte {
    U32(x) % 256
  }

  /** `Byte.toInt()`: sign extension. */
  function ByteToInt(b: Byte): (r: Int)
    ensures -128 <= r < 128
  {
    if b < 0x80 then b else b - 256
  }

  /** `Byte.toLong()`: sign extension. */
  function ByteToLong(b: Byte): (r: Long)
    ensures -128 <= r < 128
  {
    if b < 0x80 then b else b - 256
  }

  /** The unsigned value of a byte, `b.toInt() and 0xFF`. */
  function UByte(b: Byte): (r: nat)
    ensures r < 256
  {
    b
  }

  /** The test `(b and 0x80.toByte()) != 0.toByte()`: the top bit of the
      byte is set (`HighBitIff` shows it is the masked test). */
  predicate HighBit(b: Byte) {
    b >= 0x80
  }

  /** Masking the byte's pattern with `0x80` leaves a non-zero value
      exactly when the top bit is set. */
  lemma HighBitIff(b: Byte)
    ensures HighBit(b) <==> And(b, 0x80) != 0
  {
    Pow2Values();
    AndHighMaskZero(b, 8, 7);
  }
}
