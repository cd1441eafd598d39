/** The runtime's `ProtoReader`: every read looks its field up by number,
    rescanning the whole array from position 0 (`find`), and then reads
    the value at the position `find` stopped. The cursor is reset by every
    lookup, so a read depends only on the array and the field number; it
    becomes a function of those, with the source's exceptions as
    `Failure`s. Each read takes a `Variant`: the code as written, or with
    its three defects corrected (README, "Findings") — the field number
    taken with `ushr` instead of `shr`, a length-delimited skip counted
    from after the length, and the default value for an absent field. */
module RuntimeReader {
  import opened Bits
  import opened KotlinInt
  import opened Wrappers

  datatype ReadError =
    | IndexOutOfBounds      // `bytes[pos++]` outside the array, or a range end past it
    | IllegalRange          // `copyOfRange` with its end before its start
    | UnsupportedWireType   // "Unsupported wire type"
    | OutOfFuel             // a `find` loop that does not end (see README)

  /** Some byte at or after `pos` ends a varint. */
  predicate Terminated(bytes: seq<Byte>, pos: int) {
    exists i :: pos <= i < |bytes| && 0 <= i && !HighBit(bytes[i])
  }

  /** Past a continuation byte, the search for a terminator moves on one. */
  lemma TerminatedStep(bytes: seq<Byte>, pos: int)
    requires 0 <= pos < |bytes|
    ensures Terminated(bytes, pos) <==> !HighBit(bytes[pos]) || Terminated(bytes, pos + 1)
  {
    if Terminated(bytes, pos) && HighBit(bytes[pos]) {
      var i :| pos <= i < |bytes| && 0 <= i && !HighBit(bytes[i]);
      assert pos + 1 <= i;
    }
    if !HighBit(bytes[pos]) {
      assert pos <= pos < |bytes|;
    }
  }

  /** The test `b and 0x80 == 0` on the sign-extended byte: the byte has
      no continuation bit. */
  lemma EndBit(b: Byte)
    ensures IntAnd(ByteToInt(b), 0x80) == 0 <==> !HighBit(b)
  {
    var a := U32(ByteToInt(b));
    Pow2Eight();
    assert And(a, 0x80) == And(a % Pow2(8), 0x80) by {
      AndMaskLow(a, 0x80, 8);
    }
    if b < 128 {
      ModOfSmall(a, 256);
    } else {
      LemmaModUnique(a, 256, TWO_32 / 256 - 1, b);
    }
    HighBitIff(b);
  }

  /** One group added into the result: `result or ((b and 0x7F) shl shift)`,
      where `shl` uses only the low five bits of `shift`. */
  function AddGroup(result: Int, b: Byte, shift: Int): Int {
    IntOr(result, Shl(IntAnd(ByteToInt(b), 0x7F), U32(shift) % 32))
  }

  /** The `readVarInt` loop: `result or ((b and 0x7F) shl shift)` until a
      byte without the continuation bit. There is no limit on the number
      of bytes; `shift` is an Int that grows by 7, and `shl` uses only its
      low five bits. Running off either end of the array is an index
      error. */
  function ReadVarIntLoop(bytes: ByteArray, pos: Int, shift: Int, result: Int): (r: Result<(Int, Int), ReadError>)
    ensures r.Success? <==> 0 <= pos && Terminated(bytes, pos)
    ensures r.Failure? ==> r.error == IndexOutOfBounds
    ensures r.Success? ==> pos < r.value.1 <= |bytes| && !HighBit(bytes[r.value.1 - 1])
    decreases |bytes| - pos
  {
    if pos < 0 || pos >= |bytes| then Failure(IndexOutOfBounds)
    else
      var result' := AddGroup(result, bytes[pos], shift);
      EndBit(bytes[pos]);
      TerminatedStep(bytes, pos);
      if IntAnd(ByteToInt(bytes[pos]), 0x80) == 0 then Success((result', pos + 1))
      else ReadVarIntLoop(bytes, pos + 1, IntAdd(shift, 7), result')
  }

  function ReadVarInt(bytes: ByteArray, pos: Int): (r: Result<(Int, Int), ReadError>)
    ensures r.Success? <==> 0 <= pos && Terminated(bytes, pos)
    ensures r.Success? ==> pos < r.value.1 <= |bytes|
  {
    ReadVarIntLoop(bytes, pos, 0, 0)
  }

  /** The field number of a key: `key shr 3` as written, `key ushr 3`
      corrected. */
  function FieldOf(key: Int, variant: Variant): Int {
    if variant == AsWritten then Shr(key, 3) else Ushr(key, 3)
  }

  /** `skip(wire)`: a varint, or a length-delimited record; any other
      wire type throws. As written, `pos += readVarInt()` reads `pos`
      before the length is read, so the skip is counted from the start of
      the length rather than from its end. */
  function Skip(bytes: ByteArray, pos: Int, wire: Int, variant: Variant): (r: Result<Int, ReadError>)
    ensures wire != 0 && wire != 2 ==> r == Failure(UnsupportedWireType)
    ensures wire == 0 && r.Success? ==> pos < r.value <= |bytes|
  {
    if wire == 0 then
      var v :- ReadVarInt(bytes, pos);
      Success(v.1)
    else if wire == 2 then
      var v :- ReadVarInt(bytes, pos);
      Success(IntAdd(if variant == AsWritten then pos else v.1, v.0))
    else Failure(UnsupportedWireType)
  }

  /** The `while (pos < bytes.size)` loop of `find` from `pos`: read a key,
      then take the turn `ScanKey`. The flag tells whether the field was
      found, the position is where `find` left the cursor. A negative
      length can send `pos` back, so the loop need not end; `fuel` bounds
      its iterations. */
  function Scan(bytes: ByteArray, tag: Int, pos: Int, fuel: nat, variant: Variant): (r: Result<(bool, Int), ReadError>)
    ensures r.Success? && r.value.0 ==> 0 < r.value.1 <= |bytes|
    ensures r.Success? && !r.value.0 ==> r.value.1 >= |bytes|
    decreases fuel, 1
  {
    if pos >= |bytes| then Success((false, pos))
    else if fuel == 0 then Failure(OutOfFuel)
    else
      var k :- ReadVarInt(bytes, pos);
      ScanKey(bytes, tag, k.0, k.1, fuel - 1, variant)
  }

  /** The rest of a turn of the loop, once the key `key` is read and the
      cursor is at `next`: stop on a matching field number, else skip the
      field and go on with the loop. */
  function ScanKey(bytes: ByteArray, tag: Int, key: Int, next: Int, fuel: nat, variant: Variant): (r: Result<(bool, Int), ReadError>)
    requires 0 < next <= |bytes|
    ensures r.Success? && r.value.0 ==> 0 < r.value.1 <= |bytes|
    ensures r.Success? && !r.value.0 ==> r.value.1 >= |bytes|
    decreases fuel + 1, 0
  {
    if FieldOf(key, variant) == tag then Success((true, next))
    else
      var after :- Skip(bytes, next, IntAnd(key, 7), variant);
      Scan(bytes, tag, after, fuel, variant)
  }

  /** `find(tag)`: the scan always starts at position 0. */
  function Find(bytes: ByteArray, tag: Int, fuel: nat, variant: Variant): (r: Result<(bool, Int), ReadError>)
    ensures r.Success? && !r.value.0 ==> r.value.1 >= |bytes|
  {
    Scan(bytes, tag, 0, fuel, variant)
  }

  /** Where `find(tag)?.let { … } ?: default` runs its block: `Some(pos)`
      to read the value at `pos`, `None` for the default. As written,
      `find` returns a non-null Boolean, so the block runs whether or not
      the field was found (from the end of the array when it was not),
      and the default is never taken. */
  function Located(bytes: ByteArray, tag: Int, fuel: nat, variant: Variant): (r: Result<Option<Int>, ReadError>)
    ensures variant == AsWritten && r.Success? ==> r.value.Some?
  {
    var f :- Find(bytes, tag, fuel, variant);
    if f.0 || variant == AsWritten then Success(Some(f.1)) else Success(None)
  }

  /** `readInt32(tag)`. As written, a read succeeds only when the field
      is present; corrected, an absent field reads as `0`. */
  function ReadInt32(bytes: ByteArray, tag: Int, fuel: nat, variant: Variant): (r: Result<Int, ReadError>)
    ensures variant == AsWritten && r.Success? ==>
      Find(bytes, tag, fuel, variant).Success? && Find(bytes, tag, fuel, variant).value.0
    ensures (variant == Corrected && Find(bytes, tag, fuel, variant).Success?
             && !Find(bytes, tag, fuel, variant).value.0) ==> r == Success(0)
  {
    var at :- Located(bytes, tag, fuel, variant);
    match at
    case None => Success(0)
    case Some(p) =>
      var v :- ReadVarInt(bytes, p);
      Success(v.0)
  }

  /** `readBool(tag)`: `readInt32(tag) != 0`. */
  function ReadBool(bytes: ByteArray, tag: Int, fuel: nat, variant: Variant): Result<bool, ReadError> {
    var v :- ReadInt32(bytes, tag, fuel, variant);
    Success(v != 0)
  }

  /** `readString(tag)`, returning the UTF-8 bytes `decodeToString`
      decodes: a varint length, then `copyOfRange(pos, pos + len)`. */
  function ReadString(bytes: ByteArray, tag: Int, fuel: nat, variant: Variant): (r: Result<ByteArray, ReadError>)
    ensures variant == AsWritten && r.Success? ==>
      Find(bytes, tag, fuel, variant).Success? && Find(bytes, tag, fuel, variant).value.0
    ensures (variant == Corrected && Find(bytes, tag, fuel, variant).Success?
             && !Find(bytes, tag, fuel, variant).value.0) ==> r == Success([])
  {
    var at :- Located(bytes, tag, fuel, variant);
    match at
    case None => Success([])
    case Some(p) =>
      var len :- ReadVarInt(bytes, p);
      var end := IntAdd(len.1, len.0);
      if end > |bytes| then Failure(IndexOutOfBounds)
      else if len.1 > end then Failure(IllegalRange)
      else Success(bytes[len.1..end])
  }
}
