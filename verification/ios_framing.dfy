/** The runtime's iOS transport frames and unframes gRPC messages with its
    own private helpers instead of the sdk's `Framer`: the same header, an
    arithmetic `shr` in place of `ushr`, and an `unframe` with no checks of
    its own. */
module IosFraming {
  import opened Bits
  import opened KotlinInt
  import opened Wrappers
  import opened Framing

  /** `((size shr k) and 0xFF).toByte()`. */
  function HeaderByte(size: Int, k: nat): Byte {
    IntToByte(IntAnd(Shr(size, k), 0xFF))
  }

  /** The private `frame`. */
  function IosFrame(data: ByteArray): (r: Result<ByteArray, FrameError>)
    ensures r.Success? <==> |data| <= INT_MAX - HEADER_SIZE
  {
    var size := IntAdd(HEADER_SIZE, |data|);
    if size < 0 then Failure(NegativeArraySize)
    else
      var n: Int := |data|;
      Success([0, HeaderByte(n, 24), HeaderByte(n, 16), HeaderByte(n, 8), IntToByte(IntAnd(n, 0xFF))] + data)
  }

  /** The private `unframe`: the four length bytes are read by index (an
      array shorter than five bytes fails there), then
      `copyOfRange(5, 5 + length)`, whose own checks are the only ones. */
  function IosUnframe(data: ByteArray): (r: Result<ByteArray, FrameError>)
    ensures |data| < HEADER_SIZE ==> r == Failure(IndexOutOfBounds)
    ensures r.Success? ==> |data| >= HEADER_SIZE + |r.value|
    ensures r.Success? ==> r.value == data[HEADER_SIZE..HEADER_SIZE + |r.value|]
  {
    if |data| < HEADER_SIZE then Failure(IndexOutOfBounds)
    else
      var length := HeaderLength(data[1], data[2], data[3], data[4]);
      var end := IntAdd(HEADER_SIZE, length);
      if end > |data| then Failure(IndexOutOfBounds)
      else if HEADER_SIZE > end then Failure(IllegalRange)
      else Success(data[HEADER_SIZE..end])
  }

  /** For a non-negative size, `(size shr k) and 0xFF` is the byte that
      `(size ushr k).toByte()` keeps. */
  lemma HeaderByteAgrees(n: Int, k: nat, d: nat)
    requires n >= 0 && d == Pow2(k)
    ensures HeaderByte(n, k) == IntToByte(Ushr(n, k))
  {
    Pow2Values();
    DivShrinks(n, d);
    var q := n / d;
    AndLowMask(q, 8);
    assert U32(IntAnd(Shr(n, k), 0xFF)) == q % 256;
    LemmaModUnique(q % 256, 256, 0, q % 256);
  }

  /** Both `frame`s write the same bytes. */
  lemma IosFrameIsFrame(data: ByteArray)
    ensures IosFrame(data) == Frame(data)
  {
    if IntAdd(HEADER_SIZE, |data|) >= 0 {
      var n: Int := |data|;
      Pow2Values();
      assert Pow2(0) == 1;
      HeaderByteAgrees(n, 24, 0x100_0000);
      HeaderByteAgrees(n, 16, 0x1_0000);
      HeaderByteAgrees(n, 8, 0x100);
      AndLowMask(n, 8);
      LemmaModUnique(n % 256, 256, 0, n % 256);
      assert IntToByte(IntAnd(n, 0xFF)) == IntToByte(n);
      assert Ushr(n, 0) == n;
    }
  }

  /** The iOS `unframe` recovers the payload of every frame. */
  lemma IosUnframeFrame(data: ByteArray)
    requires IosFrame(data).Success?
    ensures IosUnframe(IosFrame(data).value) == Success(data)
  {
    IosFrameIsFrame(data);
    UnframeFrame(data);
    IosUnframeAgrees(Frame(data).value);
  }

  /** Wherever `Framer.unframe` accepts its input, the iOS `unframe`
      returns the same payload; where the sdk reports a corrupted frame,
      the iOS helper fails in `copyOfRange` instead. */
  lemma IosUnframeAgrees(data: ByteArray)
    ensures Unframe(data).Success? ==> IosUnframe(data) == Unframe(data)
    ensures Unframe(data) == Failure(Corrupted) ==> IosUnframe(data) == Failure(IndexOutOfBounds)
    ensures Unframe(data) == Failure(IllegalRange) ==> IosUnframe(data) == Failure(IllegalRange)
  {
  }

  /** The flag byte is never read: a compressed frame is unframed as if it
      were not. */
  lemma IosUnframeIgnoresFlag(data: ByteArray, flag: Byte)
    requires |data| >= 1
    ensures IosUnframe(data[0 := flag]) == IosUnframe(data)
  {
    var d := data[0 := flag];
    if |data| >= HEADER_SIZE {
      assert d[1..5] == data[1..5];
      assert d[HEADER_SIZE..] == data[HEADER_SIZE..];
    }
  }

  /** The iOS `unframe` takes bytes `[5, 5 + L)` for the big-endian length
      `L`, whatever the flag byte says, and otherwise fails in
      `copyOfRange`. */
  lemma IosUnframeLength(data: ByteArray)
    requires |data| >= HEADER_SIZE
    ensures var n := FromBigEndian(data[1], data[2], data[3], data[4]);
      && (HEADER_SIZE + n <= |data| ==> IosUnframe(data) == Success(data[HEADER_SIZE..HEADER_SIZE + n]))
      && (|data| < HEADER_SIZE + n < TWO_31 ==> IosUnframe(data) == Failure(IndexOutOfBounds))
      && (HEADER_SIZE + n >= TWO_31 ==> IosUnframe(data) == Failure(IllegalRange))
  {
  }
}
