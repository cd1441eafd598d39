/** The runtime's `ProtoWriter`: the same append-only buffer as the sdk
    writer, but with 32-bit varints and no default omission — every
    write emits its field. */
module RuntimeWriter {
  import opened Bits
  import opened KotlinInt
  import W = SdkWriter

  /** `writeVarInt` on an Int, exactly as the loop runs: the loop test
      `v and 0x7F.inv()`, the emitted bytes, and `ushr 7` on 32 bits. A
      negative Int is therefore written as its 32-bit pattern. */
  function VarInt(v: Int): (r: seq<Byte>)
    ensures r == W.Groups(U32(v))
    decreases U32(v)
  {
    VarIntStep(v);
    if IntAnd(v, IntInv(0x7F)) == 0 then [IntToByte(v)]
    else [IntToByte(IntOr(IntAnd(v, 0x7F), 0x80))] + VarInt(Ushr(v, 7))
  }

  /** What one iteration of the 32-bit loop computes, in arithmetic. */
  lemma VarIntStep(v: Int)
    ensures IntAnd(v, IntInv(0x7F)) == 0 <==> U32(v) < 128
    ensures U32(v) < 128 ==> IntToByte(v) == U32(v)
    ensures U32(v) >= 128 ==> IntToByte(IntOr(IntAnd(v, 0x7F), 0x80)) == U32(v) % 128 + 128
    ensures U32(Ushr(v, 7)) == U32(v) / 128
  {
    LoopTest(v);
    if U32(v) >= 128 {
      Continued(v);
    } else {
      ModOfSmall(U32(v), 256);
    }
    Pow2Eight();
  }

  /** The loop test: some bit above the low seven is set. */
  lemma LoopTest(v: Int)
    ensures IntAnd(v, IntInv(0x7F)) == 0 <==> U32(v) < 128
  {
    Pow2Eight();
    Pow2ThirtyTwo();
    assert U32(IntInv(0x7F)) == Pow2(32) - Pow2(7);
    AndHighMaskZero(U32(v), 32, 7);
  }

  /** The byte of an iteration that is not the last: the low seven bits
      with the continuation bit. */
  lemma Continued(v: Int)
    ensures U32(IntOr(IntAnd(v, 0x7F), 0x80)) == U32(v) % 128 + 128
  {
    var u := U32(v);
    assert U32(IntAnd(v, 0x7F)) == u % 128 by {
      Pow2Eight();
      AndLowMask(u, 7);
    }
    Pow2Eight();
    OrDisjoint(u % 128, 128, 7);
  }

  /** `writeTag`: the 32-bit varint of `(tag shl 3) or wireType`. */
  function WriteTag(w: W.Writer, tag: Int, wireType: Int): (r: W.Writer)
    ensures w.buffer < r.buffer
  {
    W.Append(w, VarInt(W.TagKey(tag, wireType)))
  }

  /** `writeInt32`: tag and value, even when the value is zero. */
  function WriteInt32(w: W.Writer, tag: Int, value: Int): (r: W.Writer)
    ensures w.buffer < r.buffer
  {
    W.Append(WriteTag(w, tag, W.VARINT), VarInt(value))
  }

  /** `writeBool`: an Int32 field holding `1` or `0`. */
  function WriteBool(w: W.Writer, tag: Int, value: bool): (r: W.Writer)
    ensures w.buffer < r.buffer
    ensures r.buffer[|r.buffer| - 1] == if value then 1 else 0
  {
    WriteInt32(w, tag, if value then 1 else 0)
  }

  /** `writeString`, with the string given as its UTF-8 encoding: tag,
      byte count, bytes — also for the empty string. */
  function WriteString(w: W.Writer, tag: Int, utf8: ByteArray): (r: W.Writer)
    ensures w.buffer < r.buffer
    ensures |r.buffer| > |w.buffer| + |utf8|
    ensures r.buffer[|r.buffer| - |utf8|..] == utf8
  {
    W.Append(W.Append(WriteTag(w, tag, W.LENGTH_DELIMITED), VarInt(|utf8|)), utf8)
  }

  function ToByteArray(w: W.Writer): seq<Byte> {
    w.buffer
  }
}
