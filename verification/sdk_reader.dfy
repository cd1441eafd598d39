/** The sdk's `ProtoReader`: a cursor over an immutable byte array. The
    mutable `pos` becomes an explicit argument and result, so each read is
    a function `(bytes, pos) -> Result<(value, pos')>`; an exception
    thrown by the source becomes a `Failure`. */
module SdkReader {
  import opened Bits
  import opened KotlinInt
  import opened Wrappers

  datatype ReadError =
    | PrematureEnd        // "Malformed varint: premature end of stream"
    | MalformedVarint     // "Malformed varint": a tenth continuation byte
    | IndexOutOfBounds    // array access or range end outside the array
    | IllegalRange        // a range whose start lies after its end
    | OutOfFuel           // a group skip that does not come back (see README)

  datatype Tag = Tag(fieldNumber: Int, wireType: Int)

  /** One varint group added into `result` at `shift`:
      `result or ((b.toLong() and 0x7F) shl shift)`. */
  function AddGroup(result: Long, b: Byte, shift: nat): Long
    requires shift < 64
  {
    LOr(result, LShl(LAnd(ByteToLong(b), 0x7F), shift))
  }

  /** The `readVarInt` loop from the given shift on. */
  function ReadVarIntLoop(bytes: ByteArray, pos: Int, shift: nat, result: Long): (r: Result<(Long, Int), ReadError>)
    ensures r.Success? ==> pos < r.value.1 <= |bytes| && 7 * (r.value.1 - pos - 1) + shift < 64
    decreases 64 - shift
  {
    if shift >= 64 then Failure(MalformedVarint)
    else if pos >= |bytes| then Failure(PrematureEnd)
    else if pos < 0 then Failure(IndexOutOfBounds)
    else
      var b := bytes[pos];
      var result' := AddGroup(result, b, shift);
      if !HighBit(b) then Success((result', pos + 1))
      else ReadVarIntLoop(bytes, pos + 1, shift + 7, result')
  }

  /** `readVarInt`: at most ten bytes. */
  function ReadVarInt(bytes: ByteArray, pos: Int): (r: Result<(Long, Int), ReadError>)
    ensures r.Success? ==> pos < r.value.1 <= |bytes| && r.value.1 <= pos + 10
  {
    ReadVarIntLoop(bytes, pos, 0, 0)
  }

  /** `readTag`: `None` exactly at (or past) the end of the array, else
      the key split into `key ushr 3` and `key and 7`. */
  function ReadTag(bytes: ByteArray, pos: Int): (r: Result<(Option<Tag>, Int), ReadError>)
    ensures r.Success? && r.value.0.None? <==> pos >= |bytes|
    ensures r.Success? && r.value.0.None? ==> r.value.1 == pos
    ensures r.Success? && r.value.0.Some? ==> pos < r.value.1 <= |bytes|
    ensures r.Success? && r.value.0.Some? ==>
      0 <= r.value.0.value.fieldNumber < 0x2000_0000 && 0 <= r.value.0.value.wireType < 8
  {
    if pos >= |bytes| then Success((None, pos))
    else
      var v :- ReadVarInt(bytes, pos);
      var key := ToInt(v.0);
      TagParts(key);
      Success((Some(Tag(Ushr(key, 3), IntAnd(key, 7))), v.1))
  }

  /** The two halves of a key are a 29-bit field number and a 3-bit wire type. */
  lemma TagParts(key: Int)
    ensures 0 <= Ushr(key, 3) < 0x2000_0000
    ensures 0 <= IntAnd(key, 7) < 8
  {
    assert Pow2(3) == 8;
    DivShrinks(U32(key), 8);
    assert U32(key) / 8 < 0x2000_0000;
    AndBound(U32(key), 7);
  }

  function ReadInt64(bytes: ByteArray, pos: Int): Result<(Long, Int), ReadError> {
    ReadVarInt(bytes, pos)
  }

  function ReadUInt64(bytes: ByteArray, pos: Int): Result<(Long, Int), ReadError> {
    ReadVarInt(bytes, pos)
  }

  /** Inverse ZigZag on Long: `(z ushr 1) xor -(z and 1)`. */
  function UnZigZag64(z: Long): Long {
    LXor(LUshr(z, 1), LNeg(LAnd(z, 1)))
  }

  function ReadSInt64(bytes: ByteArray, pos: Int): Result<(Long, Int), ReadError> {
    var v :- ReadVarInt(bytes, pos);
    Success((UnZigZag64(v.0), v.1))
  }

  /** `readInt32`/`readUInt32`: the low 32 bits of the varint. */
  function ReadInt32(bytes: ByteArray, pos: Int): Result<(Int, Int), ReadError> {
    var v :- ReadVarInt(bytes, pos);
    Success((ToInt(v.0), v.1))
  }

  function ReadUInt32(bytes: ByteArray, pos: Int): Result<(Int, Int), ReadError> {
    ReadInt32(bytes, pos)
  }

  /** `readSInt32`: the 64-bit inverse ZigZag, then `toInt()`. */
  function ReadSInt32(bytes: ByteArray, pos: Int): Result<(Int, Int), ReadError> {
    var v :- ReadVarInt(bytes, pos);
    Success((ToInt(UnZigZag64(v.0)), v.1))
  }

  function ReadBool(bytes: ByteArray, pos: Int): Result<(bool, Int), ReadError> {
    var v :- ReadVarInt(bytes, pos);
    Success((v.0 != 0, v.1))
  }

  function ReadEnum(bytes: ByteArray, pos: Int): Result<(Int, Int), ReadError> {
    ReadInt32(bytes, pos)
  }

  /** The part shared by `readString`, `readBytes` and `readObject`: a
      varint length `len` (truncated to Int), then the bytes
      `[pos, pos + len)` as `copyOfRange`/`decodeToString` take them. */
  function ReadLengthDelimited(bytes: ByteArray, pos: Int): (r: Result<(ByteArray, Int), ReadError>)
    ensures r.Success? <==>
              (ReadVarInt(bytes, pos).Success?
               && 0 <= ToInt(ReadVarInt(bytes, pos).value.0)
               && ReadVarInt(bytes, pos).value.1 + ToInt(ReadVarInt(bytes, pos).value.0) <= |bytes|)
    ensures r.Success? ==> |r.value.0| == ToInt(ReadVarInt(bytes, pos).value.0)
    ensures r.Success? ==> pos < r.value.1 <= |bytes|
    ensures r.Success? ==> r.value.1 - |r.value.0| >= 0
    ensures r.Success? ==> r.value.0 == bytes[r.value.1 - |r.value.0| .. r.value.1]
  {
    var v :- ReadVarInt(bytes, pos);
    var len := ToInt(v.0);
    var end := IntAdd(v.1, len);
    if end > |bytes| then Failure(IndexOutOfBounds)
    else if v.1 > end then Failure(IllegalRange)
    else Success((bytes[v.1..end], end))
  }

  /** `readString`, returning the UTF-8 bytes that `decodeToString` decodes. */
  function ReadString(bytes: ByteArray, pos: Int): Result<(ByteArray, Int), ReadError> {
    ReadLengthDelimited(bytes, pos)
  }

  function ReadBytes(bytes: ByteArray, pos: Int): Result<(ByteArray, Int), ReadError> {
    ReadLengthDelimited(bytes, pos)
  }

  /** `readObject`: a fresh reader over exactly the record's bytes; the
      returned array is that reader's whole buffer, read from position 0. */
  function ReadObject(bytes: ByteArray, pos: Int): Result<(ByteArray, Int), ReadError> {
    ReadLengthDelimited(bytes, pos)
  }

  /** `skip(wireType)`. Only the varint and length reads can fail; the
      fixed-width and length skips move `pos` with no bounds check, so an
      overrun shows up later as end of input to `readTag`. As written,
      `pos += readVarInt().toInt()` reads `pos` before the length is read,
      so a length skip is counted from the start of the length rather than
      from its end (README, "Findings"). A group skip
      loops over nested fields until an end-group tag or the end; `fuel`
      bounds that loop and its nesting (see README). */
  function Skip(bytes: ByteArray, pos: Int, wireType: Int, fuel: nat, variant: Variant): (r: Result<Int, ReadError>)
    decreases fuel, 1
  {
    if wireType == 0 then
      var v :- ReadVarInt(bytes, pos);
      Success(v.1)
    else if wireType == 1 then Success(IntAdd(pos, 8))
    else if wireType == 2 then
      var v :- ReadVarInt(bytes, pos);
      Success(IntAdd(if variant == AsWritten then pos else v.1, ToInt(v.0)))
    else if wireType == 3 then SkipGroup(bytes, pos, fuel, variant)
    else if wireType == 5 then Success(IntAdd(pos, 4))
    else Success(pos)
  }

  /** The `while (true)` loop of a group skip. */
  function SkipGroup(bytes: ByteArray, pos: Int, fuel: nat, variant: Variant): (r: Result<Int, ReadError>)
    decreases fuel, 0
  {
    if fuel == 0 then Failure(OutOfFuel)
    else
      var t :- ReadTag(bytes, pos);
      match t.0
      case None => Success(t.1)
      case Some(tag) =>
        if tag.wireType == 4 then Success(t.1)
        else
          var next :- Skip(bytes, t.1, tag.wireType, fuel - 1, variant);
          SkipGroup(bytes, next, fuel - 1, variant)
  }
}
