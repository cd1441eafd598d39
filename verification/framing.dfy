/** gRPC message framing (the Length-Prefixed-Message of the gRPC over
    HTTP/2 protocol): a compressed-flag byte, the payload length as four
    big-endian bytes, then the payload. This is the sdk's `Framer`. */
module Framing {
  import opened Bits
  import opened KotlinInt
  import opened Wrappers

  datatype FrameError =
    | NegativeArraySize   // `ByteArray(5 + size)` after the size wrapped
    | InvalidFrame        // "Invalid gRPC frame"
    | Compressed          // "Compressed gRPC not supported"
    | Corrupted           // "Corrupted gRPC frame"
    | IndexOutOfBounds    // an index or range end outside the array
    | IllegalRange        // `copyOfRange` with its end before its start

  const HEADER_SIZE: int := 5

  // ---- Arithmetic reference ----------------------------------------------

  /** The four bytes of `n` in big-endian order. */
  function BigEndian(n: nat): (r: seq<Byte>)
    requires n < TWO_32
    ensures |r| == 4
  {
    [(n / 0x100_0000) % 256, (n / 0x1_0000) % 256, (n / 0x100) % 256, n % 256]
  }

  /** The number four big-endian bytes spell. */
  function FromBigEndian(b1: Byte, b2: Byte, b3: Byte, b4: Byte): (n: nat)
    ensures n < TWO_32
  {
    b1 * 0x100_0000 + b2 * 0x1_0000 + b3 * 0x100 + b4
  }

  lemma BigEndianRoundTrip(n: nat)
    requires n < TWO_32
    ensures var b := BigEndian(n); FromBigEndian(b[0], b[1], b[2], b[3]) == n
  {
    var b := BigEndian(n);
    assert n == (n / 0x100) * 0x100 + n % 0x100;
    assert n / 0x100 == (n / 0x1_0000) * 0x100 + (n / 0x100) % 0x100 by {
      ModMulSplit(n, 0x100, 0x100);
    }
    assert n / 0x1_0000 == (n / 0x100_0000) * 0x100 + (n / 0x1_0000) % 0x100 by {
      ModMulSplit(n, 0x1_0000, 0x100);
    }
    assert n / 0x100_0000 < 256;
    LemmaModUnique(n / 0x100_0000, 256, 0, n / 0x100_0000);
  }

  // ---- Kotlin byte arithmetic -------------------------------------------

  /** `(size ushr k).toByte()`: byte `k / 8` of the size, counted from the
      least significant end. */
  lemma ShiftedByte(size: Int, k: nat, d: nat)
    requires size >= 0 && d == Pow2(k)
    ensures IntToByte(Ushr(size, k)) == (size / d) % 256
  {
    DivShrinks(size, d);
  }

  /** `b.toInt() and 0xFF`: the unsigned value of the byte. */
  lemma UnsignedByte(b: Byte)
    ensures IntAnd(ByteToInt(b), 0xFF) == b
  {
    var x := U32(ByteToInt(b));
    assert And(x, 0xFF) == x % 256 by {
      Pow2Eight();
      AndLowMask(x, 8);
    }
    if b < 128 {
      ModOfSmall(x, 256);
    } else {
      LemmaModUnique(x, 256, TWO_32 / 256 - 1, b);
    }
  }

  /** `(b.toInt() and 0xFF) shl k` for a shift that keeps all eight
      bits, with `p = 2^k`. */
  lemma ShiftedUnsigned(b: Byte, k: nat, p: nat)
    requires k < 32 && p == Pow2(k) && p <= 0x100_0000
    ensures U32(Shl(IntAnd(ByteToInt(b), 0xFF), k)) == b * p
  {
    assert 0 <= b * p < TWO_32 by {
      MulMono(p, b, 255);
      MulMono(255, p, 0x100_0000);
      MulNonNeg(b, p);
    }
    assert U32(IntAnd(ByteToInt(b), 0xFF)) == b by {
      UnsignedByte(b);
    }
    ModOfSmall(b * p, TWO_32);
  }

  /** `or` of a byte placed at bit `k` onto bits that are all at or above
      bit `k + 8`. */
  lemma OrPlaced(high: nat, b: Byte, k: nat)
    requires high % Pow2(k + 8) == 0
    ensures Or(high, b * Pow2(k)) == high + b * Pow2(k)
  {
    var p := Pow2(k);
    assert b * p < Pow2(k + 8) by {
      Pow2Add(k, 8);
      Pow2Eight();
      MulMono(p, b, 255);
    }
    OrComm(high, b * p);
    OrDisjoint(b * p, high, k + 8);
  }


  /** `(b.toInt() and 0xFF) shl k`, the decoder's placement of one byte. */
  function Placed(b: Byte, k: nat): Int
    requires k < 32
  {
    Shl(IntAnd(ByteToInt(b), 0xFF), k)
  }

  /** The length field as a signed Int: the big-endian number, negative
      when the first byte is 0x80 or more. `DecodeLengthValue` proves that
      the decoder's shifts and ors compute exactly this, so `Unframe`
      reads the length through it. */
  function HeaderLength(b1: Byte, b2: Byte, b3: Byte, b4: Byte): (r: Int)
    ensures r < 0 <==> b1 >= 0x80
  {
    FromU32(FromBigEndian(b1, b2, b3, b4))
  }

  /** The length field as the decoder computes it:
      `(b1 shl 24) or (b2 shl 16) or (b3 shl 8) or b4`, on unsigned bytes. */
  function DecodeLength(b1: Byte, b2: Byte, b3: Byte, b4: Byte): Int {
    IntOr(IntOr(IntOr(Placed(b1, 24), Placed(b2, 16)), Placed(b3, 8)), IntAnd(ByteToInt(b4), 0xFF))
  }

  /** The Int `or` of bits above `k + 8` with a byte placed at `k`. */
  lemma OrOfPlaced(x: Int, y: Int, hx: nat, b: Byte, k: nat, p: nat)
    requires p == Pow2(k) && U32(x) == hx && U32(y) == b * p && hx % (p * 256) == 0
    ensures U32(IntOr(x, y)) == hx + b * p
  {
    assert p * 256 == Pow2(k + 8) by {
      Pow2Add(k, 8);
      Pow2Eight();
    }
    OrPlaced(hx, b, k);
  }

  lemma TopTwo(b1: Byte, b2: Byte)
    ensures U32(IntOr(Placed(b1, 24), Placed(b2, 16))) == b1 * 0x100_0000 + b2 * 0x1_0000
  {
    Pow2Values();
    ShiftedUnsigned(b1, 24, 0x100_0000);
    ShiftedUnsigned(b2, 16, 0x1_0000);
    ModOfMultiple(b1, 0x100_0000);
    OrOfPlaced(Placed(b1, 24), Placed(b2, 16), b1 * 0x100_0000, b2, 16, 0x1_0000);
  }

  lemma TopThree(b1: Byte, b2: Byte, b3: Byte)
    ensures U32(IntOr(IntOr(Placed(b1, 24), Placed(b2, 16)), Placed(b3, 8)))
         == b1 * 0x100_0000 + b2 * 0x1_0000 + b3 * 0x100
  {
    var h2 := b1 * 0x100_0000 + b2 * 0x1_0000;
    TopTwo(b1, b2);
    Pow2Eight();
    ShiftedUnsigned(b3, 8, 0x100);
    ModOfMultiple(b1 * 0x100 + b2, 0x1_0000);
    OrOfPlaced(IntOr(Placed(b1, 24), Placed(b2, 16)), Placed(b3, 8), h2, b3, 8, 0x100);
  }

  /** The decoded length is the big-endian number, read as a signed Int:
      a first byte of 0x80 or more gives a negative length. */
  lemma DecodeLengthValue(b1: Byte, b2: Byte, b3: Byte, b4: Byte)
    ensures DecodeLength(b1, b2, b3, b4) == HeaderLength(b1, b2, b3, b4)
  {
    var h3 := b1 * 0x100_0000 + b2 * 0x1_0000 + b3 * 0x100;
    TopThree(b1, b2, b3);
    UnsignedByte(b4);
    assert Pow2(0) == 1;
    ModOfMultiple(b1 * 0x1_0000 + b2 * 0x100 + b3, 0x100);
    OrOfPlaced(IntOr(IntOr(Placed(b1, 24), Placed(b2, 16)), Placed(b3, 8)), IntAnd(ByteToInt(b4), 0xFF), h3, b4, 0, 1);
  }

  // ---- frame / unframe ---------------------------------------------------

  /** `frame`: the array of `5 + size` bytes. `5 + size` is Int arithmetic,
      so a payload within five bytes of `Int.MAX_VALUE` makes the size
      wrap negative and the allocation throw. */
  function Frame(data: ByteArray): (r: Result<ByteArray, FrameError>)
    ensures r.Success? <==> |data| <= INT_MAX - HEADER_SIZE
    ensures r.Success? ==> |r.value| == HEADER_SIZE + |data|
    ensures r.Success? ==> r.value[0] == 0
    ensures r.Success? ==> r.value[5..] == data
  {
    var size := IntAdd(HEADER_SIZE, |data|);
    if size < 0 then Failure(NegativeArraySize)
    else
      var n: Int := |data|;
      Success([0, IntToByte(Ushr(n, 24)), IntToByte(Ushr(n, 16)), IntToByte(Ushr(n, 8)), IntToByte(n)] + data)
  }

  /** Bytes 1 to 4 of a frame are the payload size, big-endian. */
  lemma FrameHeader(data: ByteArray)
    requires Frame(data).Success?
    ensures Frame(data).value[1..5] == BigEndian(|data|)
  {
    var n: Int := |data|;
    Pow2Values();
    assert Pow2(0) == 1;
    ShiftedByte(n, 24, 0x100_0000);
    ShiftedByte(n, 16, 0x1_0000);
    ShiftedByte(n, 8, 0x100);
    ShiftedByte(n, 0, 1);
  }

  /** `unframe`: every `require` of the source in order, then
      `copyOfRange(5, 5 + length)`. */
  function Unframe(data: ByteArray): (r: Result<ByteArray, FrameError>)
    ensures |data| < HEADER_SIZE <==> r == Failure(InvalidFrame)
    ensures |data| >= HEADER_SIZE && data[0] != 0 <==> r == Failure(Compressed)
    ensures r.Success? ==> data[0] == 0 && |data| >= HEADER_SIZE + |r.value|
    ensures r.Success? ==> r.value == data[HEADER_SIZE..HEADER_SIZE + |r.value|]
  {
    if |data| < HEADER_SIZE then Failure(InvalidFrame)
    else if ByteToInt(data[0]) != 0 then Failure(Compressed)
    else
      var length := HeaderLength(data[1], data[2], data[3], data[4]);
      var end := IntAdd(HEADER_SIZE, length);
      if !(|data| >= end) then Failure(Corrupted)
      else if HEADER_SIZE > end then Failure(IllegalRange)
      else Success(data[HEADER_SIZE..end])
  }

  /** `unframe` recovers the payload of every frame. */
  lemma UnframeFrame(data: ByteArray)
    requires Frame(data).Success?
    ensures Unframe(Frame(data).value) == Success(data)
  {
    var f := Frame(data).value;
    FrameHeader(data);
    BigEndianRoundTrip(|data|);
    assert FromBigEndian(f[1], f[2], f[3], f[4]) == |data|;
    UnframeLength(f);
    assert f[HEADER_SIZE..HEADER_SIZE + |data|] == data;
  }

  /** A declared length beyond the bytes present is "Corrupted gRPC frame",
      unless `5 + length` leaves the Int range: a length with its top bit
      set is negative, and one within five of `Int.MAX_VALUE` wraps; either
      passes the size check and fails in `copyOfRange`. Bytes after the
      payload are dropped without complaint. */
  lemma UnframeLength(data: ByteArray)
    requires |data| >= HEADER_SIZE && data[0] == 0
    ensures var n := FromBigEndian(data[1], data[2], data[3], data[4]);
      && (HEADER_SIZE + n <= |data| ==> Unframe(data) == Success(data[HEADER_SIZE..HEADER_SIZE + n]))
      && (|data| < HEADER_SIZE + n < TWO_31 ==> Unframe(data) == Failure(Corrupted))
      && (HEADER_SIZE + n >= TWO_31 ==> Unframe(data) == Failure(IllegalRange))
  {
  }
}
