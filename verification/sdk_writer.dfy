/** The sdk's `ProtoWriter`: an append-only byte buffer that writes
    protobuf fields, omitting every field that holds its default value.
    A `String` is represented by its UTF-8 encoding. */
module SdkWriter {
  import opened Bits
  import opened KotlinInt

  /** Wire types the writer emits. */
  const VARINT: Int := 0
  const LENGTH_DELIMITED: Int := 2

  /** `writeVarInt`, exactly as the loop runs: emit the low seven bits with
      the continuation bit while `v and 0x7F.inv()` is non-zero, shifting
      with `ushr`; a negative Long is therefore not sign-preserving and
      runs to ten bytes. */
  function VarInt(v: Long): (r: seq<Byte>)
    ensures r == Groups(U64(v))
    decreases U64(v)
  {
    VarIntStep(v);
    if LAnd(v, LInv(0x7F)) == 0 then [LongToByte(v)]
    else [LongToByte(LOr(LAnd(v, 0x7F), 0x80))] + VarInt(LUshr(v, 7))
  }

  /** Base-128 digits of `u`, least significant first, with the high bit
      of every byte but the last set: the reference the loop is checked
      against. */
  function Groups(u: nat): (r: seq<Byte>)
    ensures |r| >= 1
    decreases u
  {
    if u < 128 then [u]
    else [u % 128 + 128] + Groups(u / 128)
  }

  /** Every byte of a varint but the last carries the continuation bit. */
  lemma {:induction false} GroupsContinuation(u: nat)
    ensures forall i :: 0 <= i < |Groups(u)| - 1 ==> HighBit(Groups(u)[i])
    ensures !HighBit(Groups(u)[|Groups(u)| - 1])
    decreases u
  {
    HighBitIff(Groups(u)[0]);
    if u >= 128 {
      GroupsContinuation(u / 128);
      forall i | 1 <= i < |Groups(u)| {
        HighBitIff(Groups(u)[i]);
      }
    } else {
      assert |Groups(u)| == 1;
    }
  }

  /** What one iteration of the `writeVarInt` loop computes, in arithmetic. */
  lemma VarIntStep(v: Long)
    ensures LAnd(v, LInv(0x7F)) == 0 <==> U64(v) < 128
    ensures U64(v) < 128 ==> LongToByte(v) == U64(v)
    ensures U64(v) >= 128 ==> LongToByte(LOr(LAnd(v, 0x7F), 0x80)) == U64(v) % 128 + 128
    ensures U64(LUshr(v, 7)) == U64(v) / 128
  {
    VarIntLoopTest(v);
    VarIntEmitted(v);
    Pow2Eight();
  }

  /** The loop test `v and 0x7F.inv() != 0`: some bit above the low seven
      is set. */
  lemma VarIntLoopTest(v: Long)
    ensures LAnd(v, LInv(0x7F)) == 0 <==> U64(v) < 128
  {
    var u := U64(v);
    Pow2Eight();
    Pow2SixtyFour();
    assert U64(LInv(0x7F)) == Pow2(64) - Pow2(7);
    AndHighMaskZero(u, 64, 7);
  }

  /** The byte each iteration emits: the value itself on the last
      iteration, else its low seven bits with the continuation bit. */
  lemma VarIntEmitted(v: Long)
    ensures U64(v) < 128 ==> LongToByte(v) == U64(v)
    ensures U64(v) >= 128 ==> LongToByte(LOr(LAnd(v, 0x7F), 0x80)) == U64(v) % 128 + 128
  {
    if U64(v) >= 128 {
      VarIntContinued(v);
    }
  }

  lemma VarIntContinued(v: Long)
    ensures U64(LOr(LAnd(v, 0x7F), 0x80)) == U64(v) % 128 + 128
  {
    var u := U64(v);
    assert U64(LAnd(v, 0x7F)) == u % 128 by {
      Pow2Eight();
      AndLowMask(u, 7);
    }
    Pow2Eight();
    OrDisjoint(u % 128, 128, 7);
  }

  /** The key of a tag: `(fieldNumber shl 3) or wireType`, on Int. */
  function TagKey(fieldNumber: Int, wireType: Int): Int {
    IntOr(Shl(fieldNumber, 3), wireType)
  }

  datatype Writer = Writer(buffer: seq<Byte>)

  const Empty: Writer := Writer([])

  /** Appends raw bytes; every write goes through here, so no write
      disturbs the bytes already in the buffer. */
  function Append(w: Writer, bytes: seq<Byte>): (r: Writer)
    ensures |r.buffer| == |w.buffer| + |bytes|
    ensures r.buffer[..|w.buffer|] == w.buffer
    ensures r.buffer[|w.buffer|..] == bytes
  {
    Writer(w.buffer + bytes)
  }

  /** `writeTag`: the varint of the key, which `toLong()` sign-extends. */
  function WriteTag(w: Writer, fieldNumber: Int, wireType: Int): (r: Writer)
    ensures w.buffer < r.buffer
  {
    Append(w, VarInt(ToLong(TagKey(fieldNumber, wireType))))
  }

  function WriteInt64(w: Writer, fieldNumber: Int, value: Long): (r: Writer)
    ensures w.buffer <= r.buffer
    ensures r == w <==> value == 0
  {
    if value == 0 then w
    else Append(WriteTag(w, fieldNumber, VARINT), VarInt(value))
  }

  /** `writeUInt64` delegates to `writeInt64`. */
  function WriteUInt64(w: Writer, fieldNumber: Int, value: Long): Writer {
    WriteInt64(w, fieldNumber, value)
  }

  /** ZigZag on Long: `(value shl 1) xor (value shr 63)`. */
  function ZigZag64(value: Long): Long {
    LXor(LShl(value, 1), LShr(value, 63))
  }

  function WriteSInt64(w: Writer, fieldNumber: Int, value: Long): (r: Writer)
    ensures w.buffer <= r.buffer
    ensures r == w <==> value == 0
  {
    if value == 0 then w
    else Append(WriteTag(w, fieldNumber, VARINT), VarInt(ZigZag64(value)))
  }

  function WriteInt32(w: Writer, fieldNumber: Int, value: Int): (r: Writer)
    ensures w.buffer <= r.buffer
    ensures r == w <==> value == 0
  {
    if value == 0 then w
    else Append(WriteTag(w, fieldNumber, VARINT), VarInt(ToLong(value)))
  }

  /** `writeUInt32` delegates to `writeInt32`. */
  function WriteUInt32(w: Writer, fieldNumber: Int, value: Int): Writer {
    WriteInt32(w, fieldNumber, value)
  }

  /** ZigZag on Int as written: `(value shl 1) xor (value shr 31)`, an Int. */
  function ZigZag32(value: Int): Int {
    IntXor(Shl(value, 1), Shr(value, 31))
  }

  /** `writeSInt32`: the Int ZigZag image goes through `toLong()`, which
      sign-extends it. */
  function WriteSInt32(w: Writer, fieldNumber: Int, value: Int): (r: Writer)
    ensures w.buffer <= r.buffer
    ensures r == w <==> value == 0
  {
    if value == 0 then w
    else Append(WriteTag(w, fieldNumber, VARINT), VarInt(ToLong(ZigZag32(value))))
  }

  function WriteBool(w: Writer, fieldNumber: Int, value: bool): (r: Writer)
    ensures w.buffer <= r.buffer
    ensures r == w <==> !value
  {
    if !value then w
    else Append(WriteTag(w, fieldNumber, VARINT), VarInt(1))
  }

  /** The shape shared by `writeString`, `writeBytes` and `writeObject`:
      nothing for an empty payload, else a wire-type-2 tag, the byte count
      as a varint, and the bytes. */
  function WriteLengthDelimited(w: Writer, fieldNumber: Int, bytes: ByteArray): (r: Writer)
    ensures w.buffer <= r.buffer
    ensures r == w <==> |bytes| == 0
  {
    if |bytes| == 0 then w
    else Append(Append(WriteTag(w, fieldNumber, LENGTH_DELIMITED), VarInt(ToLong(|bytes|))), bytes)
  }

  /** `writeString`, with the string given as its UTF-8 encoding
      (`encodeToByteArray` is empty exactly when the string is). */
  function WriteString(w: Writer, fieldNumber: Int, utf8: ByteArray): (r: Writer)
    ensures w.buffer <= r.buffer
    ensures r == w <==> |utf8| == 0
  {
    WriteLengthDelimited(w, fieldNumber, utf8)
  }

  function WriteBytes(w: Writer, fieldNumber: Int, value: ByteArray): (r: Writer)
    ensures w.buffer <= r.buffer
    ensures r == w <==> |value| == 0
  {
    WriteLengthDelimited(w, fieldNumber, value)
  }

  /** `writeObject(tag) { … }`, given the bytes the nested encoder returned. */
  function WriteObject(w: Writer, tag: Int, encoded: ByteArray): (r: Writer)
    ensures w.buffer <= r.buffer
    ensures r == w <==> |encoded| == 0
  {
    WriteLengthDelimited(w, tag, encoded)
  }

  /** `writeEnum`: its own zero test, then `writeInt32`, which tests again. */
  function WriteEnum(w: Writer, fieldNumber: Int, value: Int): (r: Writer)
    ensures r == WriteInt32(w, fieldNumber, value)
  {
    if value == 0 then w else WriteInt32(w, fieldNumber, value)
  }

  function ToByteArray(w: Writer): seq<Byte> {
    w.buffer
  }
}
