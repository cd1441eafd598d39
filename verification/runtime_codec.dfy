/** Round trips between the runtime `ProtoWriter` and `ProtoReader`. A
    message is a list of fields written one after another; every read
    looks its field up from the start of the array. */
module RuntimeCodec {
  import opened Bits
  import opened KotlinInt
  import opened Wrappers
  import W = SdkWriter
  import C = SdkCodec
  import opened RuntimeWriter
  import opened RuntimeReader

  /** A read that succeeds with `value` and leaves the cursor at `next`. */
  predicate Yields<T(==)>(r: Result<(T, Int), ReadError>, value: T, next: int) {
    r.Success? && r.value.0 == value && r.value.1 == next
  }

  // ---- Varints -------------------------------------------------------------

  /** The low seven bits of a varint byte, as the reader extracts them
      with `b.toInt() and 0x7F`, and its continuation bit. */
  lemma GroupBits(b: Byte, x: nat)
    requires b == W.Groups(x)[0]
    ensures U32(IntAnd(ByteToInt(b), 0x7F)) == x % 128
    ensures !HighBit(b) <==> x < 128
  {
    C.GroupsHead(x);
    var a := U32(ByteToInt(b));
    assert U32(IntAnd(ByteToInt(b), 0x7F)) == a % 128 by {
      Pow2Eight();
      AndLowMask(a, 7);
    }
    if x < 128 {
      ModOfSmall(x, 128);
    } else {
      LemmaModUnique(a, 128, TWO_32 / 128 - 1, x % 128);
    }
  }

  /** A group `c` shifted left by `s` bits, when it fits in 32 bits. */
  lemma ShiftedGroup(low: Int, c: nat, s: nat)
    requires s < 32 && U32(low) == c && c * Pow2(s) < TWO_32
    ensures U32(Shl(low, s)) == c * Pow2(s)
  {
    MulNonNeg(c, Pow2(s));
    ModOfSmall(c * Pow2(s), TWO_32);
  }

  /** One iteration of the 32-bit `readVarInt` loop on the group of `u` at
      `shift = 7k`, where `x = u / 2^(7k)` holds the groups still to come. */
  lemma AccumulateGroup(result: Int, b: Byte, k: nat, u: nat, x: nat)
    requires 7 * k < 32 && u < TWO_32
    requires x == u / Pow2(7 * k)
    requires U32(result) == u % Pow2(7 * k)
    requires b == W.Groups(x)[0]
    ensures U32(AddGroup(result, b, 7 * k)) == u % Pow2(7 * k + 7)
    ensures !HighBit(b) <==> u < Pow2(7 * k + 7)
  {
    var s := 7 * k;
    var p := Pow2(s);
    var c := x % 128;
    var low := IntAnd(ByteToInt(b), 0x7F);
    assert U32(low) == c && (!HighBit(b) <==> x < 128) by {
      GroupBits(b, x);
    }
    assert U32(s) % 32 == s by {
      ModOfSmall(s, 32);
    }
    assert Pow2(s + 7) == p * 128 by {
      Pow2Add(s, 7);
      Pow2Eight();
    }
    C.DigitSplit(u, p);
    assert U32(Shl(low, s)) == c * p by {
      ShiftedGroup(low, c, s);
    }
    assert Or(u % p, c * p) == u % p + c * p by {
      OrDisjoint(u % p, c * p, s);
    }
  }

  /** One turn of the loop at an in-range position, on to `next` with
      `shift'` and `result'`. */
  lemma LoopStep(bytes: ByteArray, pos: Int, shift: Int, result: Int, next: Int, shift': Int, result': Int)
    requires 0 <= pos < |bytes| && next == pos + 1
    requires shift' == IntAdd(shift, 7) && result' == AddGroup(result, bytes[pos], shift)
    ensures !HighBit(bytes[pos]) ==> Yields(ReadVarIntLoop(bytes, pos, shift, result), result', next)
    ensures HighBit(bytes[pos]) ==>
      ReadVarIntLoop(bytes, pos, shift, result) == ReadVarIntLoop(bytes, next, shift', result')
  {
    EndBit(bytes[pos]);
  }

  /** The loop, entered at `shift = 7k` after `k` groups of `u` have been
      accumulated, reads the remaining groups `x = u / 2^(7k)` and returns
      `u` at `end`, right after them. */
  lemma ReadGroups(bytes: ByteArray, pos: Int, k: nat, u: nat, x: nat, result: Int, shift: Int, end: int)
    requires u < TWO_32
    requires k == 0 || Pow2(7 * k) <= u
    requires x == u / Pow2(7 * k) && shift == 7 * k
    requires U32(result) == u % Pow2(7 * k)
    requires C.HasAt(bytes, pos, W.Groups(x)) && end == pos + |W.Groups(x)|
    ensures 7 * k < 32
    ensures Yields(ReadVarIntLoop(bytes, pos, shift, result), FromU32(u), end)
    decreases 32 - 7 * k, 1
  {
    assert 7 * k < 32 by {
      Pow2ThirtyTwo();
      if 7 * k >= 32 {
        Pow2Monotone(32, 7 * k);
      }
    }
    if u < Pow2(7 * k + 7) {
      LastGroup(bytes, pos, k, u, x, result, shift, end);
    } else {
      MoreGroups(bytes, pos, k, u, x, result, shift, end);
    }
  }

  /** The group read at shift `7k` is the last one. */
  lemma LastGroup(bytes: ByteArray, pos: Int, k: nat, u: nat, x: nat, result: Int, shift: Int, end: int)
    requires 7 * k < 32 && u < TWO_32
    requires x == u / Pow2(7 * k) && shift == 7 * k
    requires U32(result) == u % Pow2(7 * k)
    requires C.HasAt(bytes, pos, W.Groups(x)) && end == pos + |W.Groups(x)|
    requires u < Pow2(7 * k + 7)
    ensures Yields(ReadVarIntLoop(bytes, pos, shift, result), FromU32(u), end)
  {
    var p := Pow2(7 * k);
    C.HasAtTail(bytes, pos, W.Groups(x));
    var b := bytes[pos];
    var result' := AddGroup(result, b, shift);
    AccumulateGroup(result, b, k, u, x);
    assert result' == FromU32(u) by {
      ModOfSmall(u, Pow2(7 * k + 7));
      U32Inverse(result');
    }
    assert !HighBit(b) && |W.Groups(x)| == 1 by {
      Pow2Add(7 * k, 7);
      Pow2Eight();
      C.DigitSplit(u, p);
    }
    LoopStep(bytes, pos, shift, result, end, IntAdd(shift, 7), result');
  }

  /** More groups follow the one read at shift `7k`. */
  lemma MoreGroups(bytes: ByteArray, pos: Int, k: nat, u: nat, x: nat, result: Int, shift: Int, end: int)
    requires 7 * k < 32 && u < TWO_32
    requires x == u / Pow2(7 * k) && shift == 7 * k
    requires U32(result) == u % Pow2(7 * k)
    requires C.HasAt(bytes, pos, W.Groups(x)) && end == pos + |W.Groups(x)|
    requires Pow2(7 * k + 7) <= u
    ensures Yields(ReadVarIntLoop(bytes, pos, shift, result), FromU32(u), end)
    decreases 32 - 7 * k, 0
  {
    var p := Pow2(7 * k);
    var g := W.Groups(x);
    C.HasAtTail(bytes, pos, g);
    var b := bytes[pos];
    var result' := AddGroup(result, b, shift);
    AccumulateGroup(result, b, k, u, x);
    var p' := Pow2(7 * k + 7);
    assert u / p' == x / 128 && x >= 128 by {
      Pow2Add(7 * k, 7);
      Pow2Eight();
      C.DigitSplit(u, p);
    }
    var rest := W.Groups(x / 128);
    assert C.HasAt(bytes, pos + 1, rest) && |g| == 1 + |rest| by {
      assert g == [x % 128 + 128] + rest;
    }
    var shift' := IntAdd(shift, 7);
    assert shift' == 7 * (k + 1);
    ReadGroups(bytes, pos + 1, k + 1, u, x / 128, result', shift', end);
    LoopStep(bytes, pos, shift, result, pos + 1, shift', result');
  }

  /** The bytes `writeVarInt` emits for `v`: the base-128 groups of its
      32-bit pattern (`VarInt`'s contract). */
  function Groups32(v: Int): seq<Byte> {
    W.Groups(U32(v))
  }

  /** `readVarInt` inverts `writeVarInt` for every Int and stops right
      after its last byte. */
  lemma VarIntRoundTrip(bytes: ByteArray, pos: Int, v: Int)
    requires C.HasAt(bytes, pos, VarInt(v))
    ensures Yields(ReadVarInt(bytes, pos), v, pos + |VarInt(v)|)
  {
    GroupsRoundTrip(bytes, pos, v);
  }

  lemma GroupsRoundTrip(bytes: ByteArray, pos: Int, v: Int)
    requires C.HasAt(bytes, pos, Groups32(v))
    ensures Yields(ReadVarInt(bytes, pos), v, pos + |Groups32(v)|)
  {
    var u := U32(v);
    assert Pow2(0) == 1;
    assert u / Pow2(0) == u;
    assert 0 == u % Pow2(0);
    ReadGroups(bytes, pos, 0, u, u, 0, 0, pos + |Groups32(v)|);
    U32Inverse(v);
  }

  /** `writeVarInt` emits one to five bytes, at most `k` for a value below
      `2^(7k)`, and all five for every negative Int. */
  lemma VarIntLength(v: Int, k: nat)
    requires k >= 1
    ensures 1 <= |VarInt(v)| <= 5
    ensures v < 0 ==> |VarInt(v)| == 5
    ensures 0 <= v < Pow2(7 * k) ==> |VarInt(v)| <= k
  {
    var u := U32(v);
    assert u < Pow2(35) by {
      Pow2ThirtyTwo();
      Pow2Add(32, 3);
    }
    C.GroupsLength(u, 5);
    C.GroupsLength(u, k);
    if v < 0 {
      assert Pow2(28) <= u by {
        Pow2OddValues();
        Pow2Monotone(28, 31);
      }
    }
  }

  // ---- Keys ----------------------------------------------------------------

  /** The two halves of a written key as the reader splits them. With
      `shr`, a field number of `2^28` or more comes back `2^29` too small:
      the key's top bit is set, so the shift copies it. */
  lemma KeyFields(n: Int, wt: Int)
    requires C.ValidTag(n, wt)
    ensures FieldOf(W.TagKey(n, wt), Corrected) == n
    ensures IntAnd(W.TagKey(n, wt), 7) == wt
    ensures n < 0x1000_0000 ==> FieldOf(W.TagKey(n, wt), AsWritten) == n
    ensures n >= 0x1000_0000 ==> FieldOf(W.TagKey(n, wt), AsWritten) == n - 0x2000_0000
  {
    var key := W.TagKey(n, wt);
    C.TagKeySplit(n, wt);
    C.TagKeyPattern(n, wt);
    assert Pow2(3) == 8;
    if n < 0x1000_0000 {
      assert key == n * 8 + wt;
      LemmaModUnique(key, 8, n, wt);
    } else {
      assert key == (n - 0x2000_0000) * 8 + wt;
      LemmaModUnique(key, 8, n - 0x2000_0000, wt);
    }
  }

  // ---- Messages ------------------------------------------------------------

  /** One call on the runtime writer. */
  datatype Field =
    | Int32Field(number: Int, value: Int)
    | BoolField(number: Int, flag: bool)
    | StringField(number: Int, utf8: ByteArray)

  function WireOf(f: Field): Int {
    if f.StringField? then W.LENGTH_DELIMITED else W.VARINT
  }

  function Key(f: Field): Int {
    W.TagKey(f.number, WireOf(f))
  }

  /** The bytes after the key: a varint, or a length and the bytes. */
  function Payload(f: Field): seq<Byte> {
    match f
    case Int32Field(_, v) => Groups32(v)
    case BoolField(_, b) => Groups32(if b then 1 else 0)
    case StringField(_, s) => Groups32(|s|) + s
  }

  function FieldBytes(f: Field): seq<Byte> {
    Groups32(Key(f)) + Payload(f)
  }

  /** The reference encoding of a message: its fields' bytes in order. */
  function Encode(fs: seq<Field>): seq<Byte>
    decreases |fs|
  {
    if fs == [] then [] else FieldBytes(fs[0]) + Encode(fs[1..])
  }

  lemma EncodeCons(fs: seq<Field>, f: Field)
    requires fs != [] && f == fs[0]
    ensures Encode(fs) == FieldBytes(f) + Encode(fs[1..])
  {
  }

  function WriteField(w: W.Writer, f: Field): (r: W.Writer)
    ensures r.buffer == w.buffer + FieldBytes(f)
  {
    match f
    case Int32Field(n, v) => WriteInt32(w, n, v)
    case BoolField(n, b) => WriteBool(w, n, b)
    case StringField(n, s) => WriteString(w, n, s)
  }

  /** The fields written one after another on one writer. */
  function WriteFields(w: W.Writer, fs: seq<Field>): (r: W.Writer)
    ensures r.buffer == w.buffer + Encode(fs)
    decreases |fs|
  {
    if fs == [] then w
    else
      var w' := WriteField(w, fs[0]);
      Associate(w.buffer, FieldBytes(fs[0]), Encode(fs[1..]), Encode(fs));
      WriteFields(w', fs[1..])
  }

  lemma Associate(a: seq<Byte>, b: seq<Byte>, c: seq<Byte>, bc: seq<Byte>)
    requires bc == b + c
    ensures (a + b) + c == a + bc
  {
  }

  /** What `readInt32` gives for a field: the value, `1`/`0` for a
      Boolean, and the length for a string. */
  function Int32View(f: Field): Int {
    match f
    case Int32Field(_, v) => v
    case BoolField(_, b) => if b then 1 else 0
    case StringField(_, s) => |s|
  }

  /** The first field numbered `tag` in a message, and where in the
      encoding its payload starts. */
  datatype Hit = Hit(field: Field, offset: nat)

  /** The reference lookup: the first field numbered `tag`, with the
      offset of its payload in the encoding (`LookupPayload`). */
  function Lookup(fs: seq<Field>, tag: Int): (r: Option<Hit>)
    ensures r.None? <==> forall i :: 0 <= i < |fs| ==> fs[i].number != tag
    ensures r.Some? ==> r.value.field in fs && r.value.field.number == tag
    decreases |fs|
  {
    if fs == [] then None
    else if fs[0].number == tag then Some(Hit(fs[0], |Groups32(Key(fs[0]))|))
    else
      var rest := Lookup(fs[1..], tag);
      if rest.None? then None
      else Some(Hit(rest.value.field, |FieldBytes(fs[0])| + rest.value.offset))
  }

  /** The offset `Lookup` reports is where the field's payload lies in
      the encoding. */
  lemma {:induction false} LookupPayload(fs: seq<Field>, tag: Int)
    requires Lookup(fs, tag).Some?
    ensures C.HasAt(Encode(fs), Lookup(fs, tag).value.offset, Payload(Lookup(fs, tag).value.field))
    decreases |fs|, 1
  {
    if fs[0].number == tag {
      PayloadHere(fs, fs[0], tag);
    } else {
      LookupPayloadPast(fs, fs[0], tag);
    }
  }

  /** `LookupPayload` past a first field with another number. */
  lemma {:induction false} LookupPayloadPast(fs: seq<Field>, f: Field, tag: Int)
    requires fs != [] && f == fs[0] && f.number != tag && Lookup(fs, tag).Some?
    ensures C.HasAt(Encode(fs), Lookup(fs, tag).value.offset, Payload(Lookup(fs, tag).value.field))
    decreases |fs|, 0
  {
    LookupPayload(fs[1..], tag);
    LookupPast(fs, f, tag);
    PayloadPast(fs, f, Lookup(fs[1..], tag).value.offset, Payload(Lookup(fs[1..], tag).value.field),
                Lookup(fs, tag).value.offset, Payload(Lookup(fs, tag).value.field));
  }

  lemma PayloadHere(fs: seq<Field>, f: Field, tag: Int)
    requires fs != [] && f == fs[0] && f.number == tag
    ensures C.HasAt(Encode(fs), Lookup(fs, tag).value.offset, Payload(Lookup(fs, tag).value.field))
  {
    EncodeCons(fs, f);
    LookupHere(fs, f, tag);
    PayloadAt(f, Encode(fs[1..]), Encode(fs));
  }

  lemma PayloadPast(fs: seq<Field>, f: Field, off: int, p: seq<Byte>, off': int, p': seq<Byte>)
    requires fs != [] && f == fs[0]
    requires C.HasAt(Encode(fs[1..]), off, p) && off' == |FieldBytes(f)| + off && p' == p
    ensures C.HasAt(Encode(fs), off', p')
  {
    EncodeCons(fs, f);
    HasAtShift(FieldBytes(f), Encode(fs[1..]), Encode(fs), off, p);
  }

  lemma PayloadAt(f: Field, rest: seq<Byte>, whole: seq<Byte>)
    requires whole == FieldBytes(f) + rest
    ensures C.HasAt(whole, |Groups32(Key(f))|, Payload(f))
  {
    var k := Groups32(Key(f));
    var p := Payload(f);
    assert whole == k + p + rest;
    assert whole[|k|..|k| + |p|] == p;
  }

  lemma LookupHere(fs: seq<Field>, f: Field, tag: Int)
    requires fs != [] && f == fs[0] && f.number == tag
    ensures Lookup(fs, tag).Some? && Lookup(fs, tag).value.offset == |Groups32(Key(f))|
  {
  }

  lemma LookupPast(fs: seq<Field>, f: Field, tag: Int)
    requires fs != [] && f == fs[0] && f.number != tag
    ensures Lookup(fs[1..], tag).None? ==> Lookup(fs, tag).None?
    ensures Lookup(fs[1..], tag).Some? ==> Lookup(fs, tag).Some?
    ensures Lookup(fs[1..], tag).Some? ==> Lookup(fs, tag).value.field == Lookup(fs[1..], tag).value.field
    ensures Lookup(fs[1..], tag).Some? ==>
      Lookup(fs, tag).value.offset == |FieldBytes(f)| + Lookup(fs[1..], tag).value.offset
  {
  }

  lemma HasAtSplit(bytes: seq<Byte>, pos: int, a: seq<Byte>, b: seq<Byte>)
    ensures C.HasAt(bytes, pos, a + b) <==> C.HasAt(bytes, pos, a) && C.HasAt(bytes, pos + |a|, b)
  {
    if 0 <= pos && pos + |a| + |b| <= |bytes| {
      var s := bytes[pos..pos + |a| + |b|];
      assert s[..|a|] == bytes[pos..pos + |a|];
      assert s[|a|..] == bytes[pos + |a|..pos + |a| + |b|];
      if s == a + b {
        assert s[..|a|] == a && s[|a|..] == b;
      }
    }
  }

  lemma HasAtShift(a: seq<Byte>, b: seq<Byte>, whole: seq<Byte>, off: int, s: seq<Byte>)
    requires whole == a + b && C.HasAt(b, off, s)
    ensures C.HasAt(whole, |a| + off, s)
  {
    assert whole[|a| + off..|a| + off + |s|] == b[off..off + |s|];
  }

  // ---- Scanning ------------------------------------------------------------

  /** Field numbers the reader recovers from a key: below `2^29` (the
      key's range), and below `2^28` with `shr`. */
  predicate NumberFits(n: Int, variant: Variant) {
    0 <= n < if variant == AsWritten then 0x1000_0000 else 0x2000_0000
  }

  /** Fields `find` can step over: as written, a string's skip lands
      inside its own bytes, so only varint fields are skipped correctly. */
  predicate Skippable(f: Field, variant: Variant) {
    variant == Corrected || !f.StringField?
  }

  /** Every field up to the first one numbered `tag` has a recoverable
      number, and every field before it can be skipped. */
  predicate Readable(fs: seq<Field>, tag: Int, variant: Variant)
    decreases |fs|
  {
    fs == []
    || (NumberFits(fs[0].number, variant)
        && (fs[0].number == tag || (Skippable(fs[0], variant) && Readable(fs[1..], tag, variant))))
  }

  /** Reading a field's key: the reader gets the number back and the wire
      type the writer chose. */
  lemma KeyAt(bytes: ByteArray, pos: Int, f: Field, variant: Variant)
    requires C.HasAt(bytes, pos, Groups32(Key(f))) && NumberFits(f.number, variant)
    ensures Yields(ReadVarInt(bytes, pos), Key(f), pos + |Groups32(Key(f))|)
    ensures FieldOf(Key(f), variant) == f.number && IntAnd(Key(f), 7) == WireOf(f)
  {
    GroupsRoundTrip(bytes, pos, Key(f));
    KeyFields(f.number, WireOf(f));
  }

  /** `skip` over a payload ends right after it, at `end`. */
  lemma SkipPayload(bytes: ByteArray, at: Int, f: Field, variant: Variant, end: int)
    requires C.HasAt(bytes, at, Payload(f)) && Skippable(f, variant) && end == at + |Payload(f)|
    ensures Skip(bytes, at, WireOf(f), variant) == Success(end)
  {
    if f.Int32Field? {
      SkipInt32Payload(bytes, at, f, variant, end);
    } else if f.BoolField? {
      SkipBoolPayload(bytes, at, f, variant, end);
    } else {
      SkipStringPayload(bytes, at, f, end);
    }
  }

  lemma SkipInt32Payload(bytes: ByteArray, at: Int, f: Field, variant: Variant, end: int)
    requires f.Int32Field? && C.HasAt(bytes, at, Payload(f)) && end == at + |Payload(f)|
    ensures Skip(bytes, at, WireOf(f), variant) == Success(end)
  {
    assert Payload(f) == Groups32(f.value) && WireOf(f) == W.VARINT;
    SkipGroups32(bytes, at, f.value, variant, end);
  }

  lemma SkipBoolPayload(bytes: ByteArray, at: Int, f: Field, variant: Variant, end: int)
    requires f.BoolField? && C.HasAt(bytes, at, Payload(f)) && end == at + |Payload(f)|
    ensures Skip(bytes, at, WireOf(f), variant) == Success(end)
  {
    assert Payload(f) == Groups32(if f.flag then 1 else 0) && WireOf(f) == W.VARINT;
    SkipGroups32(bytes, at, if f.flag then 1 else 0, variant, end);
  }

  lemma SkipStringPayload(bytes: ByteArray, at: Int, f: Field, end: int)
    requires f.StringField? && C.HasAt(bytes, at, Payload(f)) && end == at + |Payload(f)|
    ensures Skip(bytes, at, WireOf(f), Corrected) == Success(end)
  {
    assert Payload(f) == Groups32(|f.utf8|) + f.utf8 && WireOf(f) == W.LENGTH_DELIMITED;
    SkipString(bytes, at, f.utf8, end);
  }

  lemma SkipGroups32(bytes: ByteArray, at: Int, v: Int, variant: Variant, end: int)
    requires C.HasAt(bytes, at, Groups32(v)) && end == at + |Groups32(v)|
    ensures Skip(bytes, at, W.VARINT, variant) == Success(end)
  {
    GroupsRoundTrip(bytes, at, v);
    SkipVarInt(bytes, at, variant, v, end);
  }

  /** `skip` of a varint field ends where reading the varint does. */
  lemma SkipVarInt(bytes: ByteArray, at: Int, variant: Variant, v: Int, end: int)
    requires Yields(ReadVarInt(bytes, at), v, end)
    ensures Skip(bytes, at, W.VARINT, variant) == Success(end)
  {
  }

  /** The corrected skip of a length-delimited payload. */
  lemma SkipString(bytes: ByteArray, at: Int, s: ByteArray, end: int)
    requires C.HasAt(bytes, at, Groups32(|s|) + s) && end == at + |Groups32(|s|) + s|
    ensures Skip(bytes, at, W.LENGTH_DELIMITED, Corrected) == Success(end)
  {
    var n := |Groups32(|s|)|;
    HasAtSplit(bytes, at, Groups32(|s|), s);
    GroupsRoundTrip(bytes, at, |s|);
    SkipLength(bytes, at, |s|, at + n, end);
  }

  /** The corrected `skip` of a length-delimited field: past the length,
      then past that many bytes, when they are in the array. */
  lemma SkipLength(bytes: ByteArray, at: Int, len: Int, next: int, end: int)
    requires Yields(ReadVarInt(bytes, at), len, next) && end == next + len && end <= |bytes|
    ensures Skip(bytes, at, W.LENGTH_DELIMITED, Corrected) == Success(end)
  {
  }

  /** The `find` loop stops at the payload of a field numbered `tag`. */
  lemma ScanMatch(bytes: ByteArray, tag: Int, pos: Int, f: Field, fuel: nat, variant: Variant)
    requires C.HasAt(bytes, pos, FieldBytes(f)) && NumberFits(f.number, variant) && fuel > 0
    requires f.number == tag
    ensures Yields(Scan(bytes, tag, pos, fuel, variant), true, pos + |Groups32(Key(f))|)
  {
    var k := Key(f);
    var next := pos + |Groups32(k)|;
    HasAtSplit(bytes, pos, Groups32(k), Payload(f));
    KeyAt(bytes, pos, f, variant);
    ScanFound(bytes, tag, pos, fuel, variant, k, next);
  }

  /** The `find` loop steps over a field with another number: it goes on
      at `after`, the end of the field. */
  lemma ScanPast(bytes: ByteArray, tag: Int, pos: Int, f: Field, fuel: nat, fuel': nat, variant: Variant, after: int)
    requires C.HasAt(bytes, pos, FieldBytes(f)) && NumberFits(f.number, variant) && fuel == fuel' + 1
    requires f.number != tag && Skippable(f, variant) && after == pos + |FieldBytes(f)|
    ensures Scan(bytes, tag, pos, fuel, variant) == Scan(bytes, tag, after, fuel', variant)
  {
    var next := pos + |Groups32(Key(f))|;
    KeyOfField(bytes, pos, f, variant, next);
    SkipOfField(bytes, pos, f, variant, next, after);
    ScanTurn(bytes, tag, pos, fuel, fuel', variant, Key(f), next, after);
  }

  /** The key at the start of a field's bytes reads back. */
  lemma KeyOfField(bytes: ByteArray, pos: Int, f: Field, variant: Variant, next: int)
    requires C.HasAt(bytes, pos, FieldBytes(f)) && NumberFits(f.number, variant)
    requires next == pos + |Groups32(Key(f))|
    ensures Yields(ReadVarInt(bytes, pos), Key(f), next)
    ensures FieldOf(Key(f), variant) == f.number
  {
    HasAtSplit(bytes, pos, Groups32(Key(f)), Payload(f));
    KeyAt(bytes, pos, f, variant);
  }

  /** Past its key, `skip` with the key's wire type ends at the end of
      the field. */
  lemma SkipOfField(bytes: ByteArray, pos: Int, f: Field, variant: Variant, next: int, after: int)
    requires C.HasAt(bytes, pos, FieldBytes(f)) && NumberFits(f.number, variant) && Skippable(f, variant)
    requires next == pos + |Groups32(Key(f))| && after == pos + |FieldBytes(f)|
    ensures Skip(bytes, next, IntAnd(Key(f), 7), variant) == Success(after)
  {
    HasAtSplit(bytes, pos, Groups32(Key(f)), Payload(f));
    KeyFields(f.number, WireOf(f));
    SkipPayload(bytes, next, f, variant, after);
  }

  /** One turn of the `find` loop that finds its field. */
  lemma ScanFound(bytes: ByteArray, tag: Int, pos: Int, fuel: nat, variant: Variant, key: Int, next: Int)
    requires 0 <= pos < |bytes| && fuel > 0 && Yields(ReadVarInt(bytes, pos), key, next)
    requires FieldOf(key, variant) == tag
    ensures Yields(Scan(bytes, tag, pos, fuel, variant), true, next)
  {
  }

  /** One turn of the `find` loop that skips a field. */
  lemma ScanTurn(bytes: ByteArray, tag: Int, pos: Int, fuel: nat, fuel': nat, variant: Variant, key: Int, next: Int, after: Int)
    requires 0 <= pos < |bytes| && fuel == fuel' + 1 && Yields(ReadVarInt(bytes, pos), key, next)
    requires FieldOf(key, variant) != tag && Skip(bytes, next, IntAnd(key, 7), variant) == Success(after)
    ensures Scan(bytes, tag, pos, fuel, variant) == Scan(bytes, tag, after, fuel', variant)
  {
    assert Scan(bytes, tag, pos, fuel, variant) == ScanKey(bytes, tag, key, next, fuel', variant);
  }

  /** The `find` loop over encoded fields that run to the end of the
      array stops at the payload of the first field numbered `tag`, or at
      the end when there is none. */
  lemma {:induction false} ScanFields(bytes: ByteArray, tag: Int, pos: Int, fs: seq<Field>, fuel: nat, variant: Variant)
    requires C.HasAt(bytes, pos, Encode(fs)) && pos + |Encode(fs)| == |bytes|
    requires fuel >= |fs| && Readable(fs, tag, variant)
    ensures Lookup(fs, tag).None? ==> Yields(Scan(bytes, tag, pos, fuel, variant), false, |bytes|)
    ensures Lookup(fs, tag).Some? ==>
      Yields(Scan(bytes, tag, pos, fuel, variant), true, pos + Lookup(fs, tag).value.offset)
    decreases |fs|, 3
  {
    if fs != [] {
      ScanCons(bytes, tag, pos, fs, fs[0], fuel, fuel - 1, variant, pos + |FieldBytes(fs[0])|);
    }
  }

  /** `ScanFields` on a message whose first field is `f`. */
  lemma {:induction false} ScanCons(bytes: ByteArray, tag: Int, pos: Int, fs: seq<Field>, f: Field, fuel: nat, fuel': nat, variant: Variant, after: int)
    requires fs != [] && f == fs[0] && fuel == fuel' + 1 && after == pos + |FieldBytes(f)|
    requires C.HasAt(bytes, pos, Encode(fs)) && pos + |Encode(fs)| == |bytes|
    requires fuel >= |fs| && Readable(fs, tag, variant)
    ensures Lookup(fs, tag).None? ==> Yields(Scan(bytes, tag, pos, fuel, variant), false, |bytes|)
    ensures Lookup(fs, tag).Some? ==>
      Yields(Scan(bytes, tag, pos, fuel, variant), true, pos + Lookup(fs, tag).value.offset)
    decreases |fs|, 2
  {
    if f.number == tag {
      ScanHere(bytes, tag, pos, fs, f, fuel, variant);
    } else {
      ScanOver(bytes, tag, pos, fs, f, fuel, fuel', variant, after);
    }
  }

  /** `ScanCons` when the first field is the one looked for. */
  lemma ScanHere(bytes: ByteArray, tag: Int, pos: Int, fs: seq<Field>, f: Field, fuel: nat, variant: Variant)
    requires fs != [] && f == fs[0] && f.number == tag
    requires C.HasAt(bytes, pos, Encode(fs)) && pos + |Encode(fs)| == |bytes|
    requires fuel >= |fs| && Readable(fs, tag, variant)
    ensures Lookup(fs, tag).None? ==> Yields(Scan(bytes, tag, pos, fuel, variant), false, |bytes|)
    ensures Lookup(fs, tag).Some? ==>
      Yields(Scan(bytes, tag, pos, fuel, variant), true, pos + Lookup(fs, tag).value.offset)
  {
    EncodeCons(fs, f);
    HasAtSplit(bytes, pos, FieldBytes(f), Encode(fs[1..]));
    ReadableCons(fs, f, tag, variant);
    ScanMatch(bytes, tag, pos, f, fuel, variant);
    LookupHere(fs, f, tag);
  }

  /** `ScanCons` when the first field has another number. */
  lemma {:induction false} ScanOver(bytes: ByteArray, tag: Int, pos: Int, fs: seq<Field>, f: Field, fuel: nat, fuel': nat, variant: Variant, after: int)
    requires fs != [] && f == fs[0] && f.number != tag && fuel == fuel' + 1 && after == pos + |FieldBytes(f)|
    requires C.HasAt(bytes, pos, Encode(fs)) && pos + |Encode(fs)| == |bytes|
    requires fuel >= |fs| && Readable(fs, tag, variant)
    ensures Lookup(fs, tag).None? ==> Yields(Scan(bytes, tag, pos, fuel, variant), false, |bytes|)
    ensures Lookup(fs, tag).Some? ==>
      Yields(Scan(bytes, tag, pos, fuel, variant), true, pos + Lookup(fs, tag).value.offset)
    decreases |fs|, 1
  {
    ConsAt(bytes, pos, fs, f, after);
    ReadableCons(fs, f, tag, variant);
    ScanPast(bytes, tag, pos, f, fuel, fuel', variant, after);
    ScanStep(bytes, tag, pos, fs, f, fuel, fuel', variant, after);
  }

  /** The encoding of a message at `pos` is its first field's bytes, then
      from `after` the rest's encoding. */
  lemma ConsAt(bytes: seq<Byte>, pos: int, fs: seq<Field>, f: Field, after: int)
    requires fs != [] && f == fs[0] && after == pos + |FieldBytes(f)|
    requires C.HasAt(bytes, pos, Encode(fs)) && pos + |Encode(fs)| == |bytes|
    ensures C.HasAt(bytes, pos, FieldBytes(f))
    ensures C.HasAt(bytes, after, Encode(fs[1..])) && after + |Encode(fs[1..])| == |bytes|
  {
    EncodeCons(fs, f);
    HasAtParts(bytes, pos, FieldBytes(f), Encode(fs[1..]), Encode(fs), after);
  }

  /** The two parts of `c = a + b` at `pos`: `a` at `pos`, `b` at `mid`. */
  lemma HasAtParts(bytes: seq<Byte>, pos: int, a: seq<Byte>, b: seq<Byte>, c: seq<Byte>, mid: int)
    requires c == a + b && C.HasAt(bytes, pos, c) && mid == pos + |a|
    ensures C.HasAt(bytes, pos, a) && C.HasAt(bytes, mid, b)
  {
    HasAtSplit(bytes, pos, a, b);
  }

  /** What `Readable` demands of a message's first field and the rest. */
  lemma ReadableCons(fs: seq<Field>, f: Field, tag: Int, variant: Variant)
    requires fs != [] && f == fs[0] && Readable(fs, tag, variant)
    ensures NumberFits(f.number, variant)
    ensures f.number != tag ==> Skippable(f, variant) && Readable(fs[1..], tag, variant)
  {
  }

  /** `ScanCons` when the first field has another number, once the loop
      is known to step over it. */
  lemma {:induction false} ScanStep(bytes: ByteArray, tag: Int, pos: Int, fs: seq<Field>, f: Field, fuel: nat, fuel': nat, variant: Variant, after: int)
    requires fs != [] && f == fs[0] && fuel == fuel' + 1 && fuel' >= |fs| - 1 && after == pos + |FieldBytes(f)|
    requires C.HasAt(bytes, after, Encode(fs[1..])) && after + |Encode(fs[1..])| == |bytes|
    requires f.number != tag && Readable(fs[1..], tag, variant)
    requires Scan(bytes, tag, pos, fuel, variant) == Scan(bytes, tag, after, fuel', variant)
    ensures Lookup(fs, tag).None? ==> Yields(Scan(bytes, tag, pos, fuel, variant), false, |bytes|)
    ensures Lookup(fs, tag).Some? ==>
      Yields(Scan(bytes, tag, pos, fuel, variant), true, pos + Lookup(fs, tag).value.offset)
    decreases |fs|, 0
  {
    ScanFields(bytes, tag, after, fs[1..], fuel', variant);
    LookupPast(fs, f, tag);
    Chain(Scan(bytes, tag, pos, fuel, variant), Scan(bytes, tag, after, fuel', variant),
          Lookup(fs, tag), Lookup(fs[1..], tag), pos, |FieldBytes(f)|, |bytes|);
  }

  /** The step of `ScanFields` past a field of `n` bytes, stated on the
      values involved. */
  lemma Chain(r: Result<(bool, Int), ReadError>, r': Result<(bool, Int), ReadError>,
              h: Option<Hit>, h': Option<Hit>, pos: int, n: int, end: int)
    requires r == r'
    requires h'.None? ==> h.None? && Yields(r', false, end)
    requires h'.Some? ==> h.Some? && h.value.offset == n + h'.value.offset
    requires h'.Some? ==> Yields(r', true, pos + n + h'.value.offset)
    ensures h.None? ==> Yields(r, false, end)
    ensures h.Some? ==> Yields(r, true, pos + h.value.offset)
  {
  }

  // ---- Reads ---------------------------------------------------------------

  /** `find` over the array `toByteArray` returns for a message: it stops
      at the payload `Lookup` reports, or at the end. */
  lemma FindFields(bytes: ByteArray, fs: seq<Field>, tag: Int, fuel: nat, variant: Variant)
    requires bytes == Encode(fs) && fuel >= |fs| && Readable(fs, tag, variant)
    ensures Lookup(fs, tag).None? ==> Yields(Find(bytes, tag, fuel, variant), false, |bytes|)
    ensures Lookup(fs, tag).Some? ==> Yields(Find(bytes, tag, fuel, variant), true, Lookup(fs, tag).value.offset)
  {
    assert bytes[0..|bytes|] == bytes;
    ScanFields(bytes, tag, 0, fs, fuel, variant);
  }

  /** A read of an absent field: as written, the block runs at the end of
      the array and the first byte read is out of bounds; corrected, the
      default is returned. */
  lemma ReadMissing(bytes: ByteArray, tag: Int, fuel: nat, variant: Variant)
    requires Yields(Find(bytes, tag, fuel, variant), false, |bytes|)
    ensures variant == AsWritten ==> ReadInt32(bytes, tag, fuel, variant) == Failure(IndexOutOfBounds)
    ensures variant == AsWritten ==> ReadString(bytes, tag, fuel, variant) == Failure(IndexOutOfBounds)
    ensures variant == Corrected ==> ReadInt32(bytes, tag, fuel, variant) == Success(0)
    ensures variant == Corrected ==> ReadString(bytes, tag, fuel, variant) == Success([])
  {
  }

  /** A read of a found field reads the varint at its payload. */
  lemma ReadInt32Found(bytes: ByteArray, tag: Int, fuel: nat, variant: Variant, at: Int, v: Int, next: Int)
    requires Yields(Find(bytes, tag, fuel, variant), true, at) && Yields(ReadVarInt(bytes, at), v, next)
    ensures ReadInt32(bytes, tag, fuel, variant) == Success(v)
  {
  }

  /** A string read of a found field: the length, then that many bytes. */
  lemma ReadStringFound(bytes: ByteArray, tag: Int, fuel: nat, variant: Variant, at: Int, s: ByteArray, next: Int)
    requires Yields(Find(bytes, tag, fuel, variant), true, at) && Yields(ReadVarInt(bytes, at), |s|, next)
    requires C.HasAt(bytes, next, s)
    ensures ReadString(bytes, tag, fuel, variant) == Success(s)
  {
  }

  /** Every payload starts with the varint `readInt32` takes from it. */
  lemma PayloadView(f: Field)
    ensures Payload(f) == Groups32(Int32View(f)) + (if f.StringField? then f.utf8 else [])
  {
  }

  /** `readInt32` at a payload yields the field's `Int32View`. */
  lemma ReadInt32Payload(bytes: ByteArray, tag: Int, fuel: nat, variant: Variant, at: Int, f: Field)
    requires Yields(Find(bytes, tag, fuel, variant), true, at) && C.HasAt(bytes, at, Payload(f))
    ensures ReadInt32(bytes, tag, fuel, variant) == Success(Int32View(f))
  {
    var g := Groups32(Int32View(f));
    PayloadView(f);
    HasAtSplit(bytes, at, g, if f.StringField? then f.utf8 else []);
    GroupsRoundTrip(bytes, at, Int32View(f));
    ReadInt32Found(bytes, tag, fuel, variant, at, Int32View(f), at + |g|);
  }

  /** `readString` at a string's payload yields its bytes. */
  lemma ReadStringPayload(bytes: ByteArray, tag: Int, fuel: nat, variant: Variant, at: Int, s: ByteArray)
    requires Yields(Find(bytes, tag, fuel, variant), true, at) && C.HasAt(bytes, at, Groups32(|s|) + s)
    ensures ReadString(bytes, tag, fuel, variant) == Success(s)
  {
    var g := Groups32(|s|);
    HasAtSplit(bytes, at, g, s);
    GroupsRoundTrip(bytes, at, |s|);
    ReadStringFound(bytes, tag, fuel, variant, at, s, at + |g|);
  }

  /** The round trip of the runtime writer and reader: reading field
      `tag` back from what `WriteFields` wrote yields the first field so
      numbered (its `Int32View`); for an absent field the corrected read
      returns `0`, and the read as written fails. */
  lemma ReadInt32Fields(fs: seq<Field>, tag: Int, fuel: nat, variant: Variant, bytes: ByteArray)
    requires bytes == ToByteArray(WriteFields(W.Empty, fs)) && fuel >= |fs| && Readable(fs, tag, variant)
    ensures Lookup(fs, tag).Some? ==>
      ReadInt32(bytes, tag, fuel, variant) == Success(Int32View(Lookup(fs, tag).value.field))
    ensures Lookup(fs, tag).None? && variant == Corrected ==> ReadInt32(bytes, tag, fuel, variant) == Success(0)
    ensures Lookup(fs, tag).None? && variant == AsWritten ==>
      ReadInt32(bytes, tag, fuel, variant) == Failure(IndexOutOfBounds)
  {
    Written(fs, bytes);
    if Lookup(fs, tag).Some? {
      ReadInt32Present(fs, tag, fuel, variant, bytes, Lookup(fs, tag).value);
    } else {
      FindFields(bytes, fs, tag, fuel, variant);
      ReadMissing(bytes, tag, fuel, variant);
    }
  }

  /** What `toByteArray` returns after `WriteFields` on a new writer. */
  lemma Written(fs: seq<Field>, bytes: seq<Byte>)
    requires bytes == ToByteArray(WriteFields(W.Empty, fs))
    ensures bytes == Encode(fs)
  {
    assert W.Empty.buffer + Encode(fs) == Encode(fs);
  }

  /** `ReadInt32Fields` for a field that is present. */
  lemma ReadInt32Present(fs: seq<Field>, tag: Int, fuel: nat, variant: Variant, bytes: ByteArray, h: Hit)
    requires bytes == Encode(fs) && fuel >= |fs| && Readable(fs, tag, variant) && Lookup(fs, tag) == Some(h)
    ensures ReadInt32(bytes, tag, fuel, variant) == Success(Int32View(h.field))
  {
    FindFields(bytes, fs, tag, fuel, variant);
    LookupPayload(fs, tag);
    ReadInt32Payload(bytes, tag, fuel, variant, h.offset, h.field);
  }

  /** `readBool` reads the same varint: a written Boolean comes back. */
  lemma ReadBoolFields(fs: seq<Field>, tag: Int, fuel: nat, variant: Variant, bytes: ByteArray)
    requires bytes == ToByteArray(WriteFields(W.Empty, fs)) && fuel >= |fs| && Readable(fs, tag, variant)
    ensures Lookup(fs, tag).Some? && Lookup(fs, tag).value.field.BoolField? ==>
      ReadBool(bytes, tag, fuel, variant) == Success(Lookup(fs, tag).value.field.flag)
    ensures Lookup(fs, tag).None? && variant == Corrected ==> ReadBool(bytes, tag, fuel, variant) == Success(false)
    ensures Lookup(fs, tag).None? && variant == AsWritten ==>
      ReadBool(bytes, tag, fuel, variant) == Failure(IndexOutOfBounds)
  {
    ReadInt32Fields(fs, tag, fuel, variant, bytes);
  }

  /** `readString` of a written string field yields its bytes; for an
      absent field the corrected read returns the empty string, and the
      read as written fails. */
  lemma ReadStringFields(fs: seq<Field>, tag: Int, fuel: nat, variant: Variant, bytes: ByteArray)
    requires bytes == ToByteArray(WriteFields(W.Empty, fs)) && fuel >= |fs| && Readable(fs, tag, variant)
    ensures Lookup(fs, tag).Some? && Lookup(fs, tag).value.field.StringField? ==>
      ReadString(bytes, tag, fuel, variant) == Success(Lookup(fs, tag).value.field.utf8)
    ensures Lookup(fs, tag).None? && variant == Corrected ==> ReadString(bytes, tag, fuel, variant) == Success([])
    ensures Lookup(fs, tag).None? && variant == AsWritten ==>
      ReadString(bytes, tag, fuel, variant) == Failure(IndexOutOfBounds)
  {
    Written(fs, bytes);
    if Lookup(fs, tag).Some? {
      if Lookup(fs, tag).value.field.StringField? {
        ReadStringPresent(fs, tag, fuel, variant, bytes, Lookup(fs, tag).value);
      }
    } else {
      FindFields(bytes, fs, tag, fuel, variant);
      ReadMissing(bytes, tag, fuel, variant);
    }
  }

  /** `ReadStringFields` for a string field that is present. */
  lemma ReadStringPresent(fs: seq<Field>, tag: Int, fuel: nat, variant: Variant, bytes: ByteArray, h: Hit)
    requires bytes == Encode(fs) && fuel >= |fs| && Readable(fs, tag, variant) && Lookup(fs, tag) == Some(h)
    requires h.field.StringField?
    ensures ReadString(bytes, tag, fuel, variant) == Success(h.field.utf8)
  {
    FindFields(bytes, fs, tag, fuel, variant);
    LookupPayload(fs, tag);
    ReadStringPayload(bytes, tag, fuel, variant, h.offset, h.field.utf8);
  }

  // ---- Defects of the reader as written ------------------------------------

  /** `shr 3` on a key with bit 31 set: a field numbered `2^28` or more
      is seen under the number `n - 2^29`, so the scan steps over it,
      and reading it fails at the end of the array; the corrected read
      finds it. */
  lemma HighFieldNumber(n: Int, v: Int, fuel: nat, bytes: ByteArray)
    requires 0x1000_0000 <= n < 0x2000_0000 && fuel >= 1
    requires bytes == ToByteArray(WriteFields(W.Empty, [Int32Field(n, v)]))
    ensures ReadInt32(bytes, n, fuel, AsWritten) == Failure(IndexOutOfBounds)
    ensures ReadInt32(bytes, n, fuel, Corrected) == Success(v)
  {
    var fs := [Int32Field(n, v)];
    assert fs[1..] == [];
    HighFieldScan(bytes, Int32Field(n, v), fuel, fuel - 1);
    ReadMissing(bytes, n, fuel, AsWritten);
    ReadInt32Fields(fs, n, fuel, Corrected, bytes);
  }

  /** The as-written scan over the one field `f` numbered `2^28` or more
      runs to the end without finding it. */
  lemma HighFieldScan(bytes: ByteArray, f: Field, fuel: nat, fuel': nat)
    requires f.Int32Field? && 0x1000_0000 <= f.number < 0x2000_0000 && fuel == fuel' + 1
    requires bytes == FieldBytes(f)
    ensures Yields(Find(bytes, f.number, fuel, AsWritten), false, |bytes|)
  {
    var g := Groups32(Key(f));
    assert bytes[0..|bytes|] == bytes;
    HasAtSplit(bytes, 0, g, Payload(f));
    GroupsRoundTrip(bytes, 0, Key(f));
    KeyFields(f.number, WireOf(f));
    SkipInt32Payload(bytes, |g|, f, AsWritten, |bytes|);
    ScanTurn(bytes, f.number, 0, fuel, fuel', AsWritten, Key(f), |g|, |bytes|);
  }

  /** `pos += readVarInt()` as written: the skip of a length-delimited
      payload is counted from the start of the length, so it stops
      `|Groups32(|s|)|` bytes short of the payload's end, inside the
      field. */
  lemma SkipLengthAsWritten(bytes: ByteArray, at: Int, s: ByteArray, end: int)
    requires C.HasAt(bytes, at, Groups32(|s|) + s) && end == at + |s|
    ensures Skip(bytes, at, W.LENGTH_DELIMITED, AsWritten) == Success(end)
    ensures end < at + |Groups32(|s|) + s|
  {
    HasAtSplit(bytes, at, Groups32(|s|), s);
    GroupsRoundTrip(bytes, at, |s|);
    SkipFromLength(bytes, at, |s|, at + |Groups32(|s|)|, end);
  }

  /** The as-written `skip` of a length-delimited field adds the length
      to the position of the length itself. */
  lemma SkipFromLength(bytes: ByteArray, at: Int, len: Int, next: int, end: int)
    requires Yields(ReadVarInt(bytes, at), len, next) && end == at + len && 0 <= len && end <= |bytes|
    ensures Skip(bytes, at, W.LENGTH_DELIMITED, AsWritten) == Success(end)
  {
  }

  /** A read whose scan fails with `error` fails with it. */
  lemma ReadFails(bytes: ByteArray, tag: Int, fuel: nat, variant: Variant, error: ReadError)
    requires Find(bytes, tag, fuel, variant) == Failure(error)
    ensures ReadInt32(bytes, tag, fuel, variant) == Failure(error)
  {
  }

  /** A message where the as-written skip goes wrong: an empty string
      numbered 1 before the Int32 `5` numbered 2. */
  lemma SkippedStringExample(bytes: ByteArray)
    requires bytes == ToByteArray(WriteFields(W.Empty, [StringField(1, []), Int32Field(2, 5)]))
    ensures bytes == [10, 0, 16, 5]
    ensures ReadInt32(bytes, 2, 3, AsWritten) == Failure(UnsupportedWireType)
    ensures ReadInt32(bytes, 2, 3, Corrected) == Success(5)
  {
    ExampleBytes();
    ExampleScan(bytes);
    ReadFails(bytes, 2, 3, AsWritten, UnsupportedWireType);
    ExampleCorrected(bytes);
  }

  /** The corrected read of the example finds the Int32. */
  lemma ExampleCorrected(bytes: ByteArray)
    requires bytes == ToByteArray(WriteFields(W.Empty, [StringField(1, []), Int32Field(2, 5)]))
    ensures ReadInt32(bytes, 2, 3, Corrected) == Success(5)
  {
    var fs := [StringField(1, []), Int32Field(2, 5)];
    assert fs[1..] == [Int32Field(2, 5)];
    assert Readable(fs, 2, Corrected);
    ReadInt32Fields(fs, 2, 3, Corrected, bytes);
  }

  /** A varint below 128 is its one byte. */
  lemma SmallGroups(v: Int)
    requires 0 <= v < 128
    ensures Groups32(v) == [v as Byte]
  {
  }

  lemma ExampleBytes()
    ensures Encode([StringField(1, []), Int32Field(2, 5)]) == [10, 0, 16, 5]
  {
    var f1, f2 := StringField(1, []), Int32Field(2, 5);
    C.TagKeyPattern(1, 2);
    C.TagKeyPattern(2, 0);
    SmallGroups(0);
    SmallGroups(5);
    assert FieldBytes(f1) == [10, 0];
    assert FieldBytes(f2) == [16, 5];
    EncodeCons([f1, f2], f1);
    assert [f1, f2][1..] == [f2];
    EncodeCons([f2], f2);
    assert [f2][1..] == [];
  }

  /** One byte below 128 reads as a varint of itself. */
  lemma ReadByteAt(bytes: ByteArray, pos: Int, b: Byte)
    requires 0 <= pos < |bytes| && bytes[pos] == b && b < 128
    ensures Yields(ReadVarInt(bytes, pos), b as Int, pos + 1)
  {
    SmallGroups(b as Int);
    assert bytes[pos..pos + 1] == [b];
    GroupsRoundTrip(bytes, pos, b as Int);
  }

  /** One turn of the `find` loop on a key of an unknown wire type. */
  lemma ScanUnsupported(bytes: ByteArray, tag: Int, pos: Int, fuel: nat, variant: Variant, key: Int, next: Int)
    requires 0 <= pos < |bytes| && fuel > 0 && Yields(ReadVarInt(bytes, pos), key, next)
    requires FieldOf(key, variant) != tag && IntAnd(key, 7) != 0 && IntAnd(key, 7) != 2
    ensures Scan(bytes, tag, pos, fuel, variant) == Failure(UnsupportedWireType)
  {
  }

  /** The as-written scan of `[10, 0, 16, 5]` for field 2: key 10 (field
      1, length-delimited) is skipped to position 1, the length byte `0`
      is taken for a key (field 0, varint) and `16` skipped as its value,
      and the byte `5` is taken for a key of wire type 5. */
  lemma ExampleScan(bytes: ByteArray)
    requires bytes == [10, 0, 16, 5]
    ensures Find(bytes, 2, 3, AsWritten) == Failure(UnsupportedWireType)
  {
    ExampleFirstKey(bytes);
    ExampleLengthAsKey(bytes);
    ExampleValueAsKey(bytes);
  }

  /** Key 10 is field 1, length-delimited; its length `0` is added to
      position 1, the position of the length. */
  lemma ExampleFirstKey(bytes: ByteArray)
    requires bytes == [10, 0, 16, 5]
    ensures Scan(bytes, 2, 0, 3, AsWritten) == Scan(bytes, 2, 1, 2, AsWritten)
  {
    assert Pow2(3) == 8;
    assert FieldOf(10, AsWritten) == 1 && IntAnd(10, 7) == 2;
    ReadByteAt(bytes, 0, 10);
    ReadByteAt(bytes, 1, 0);
    assert Skip(bytes, 1, 2, AsWritten) == Success(1);
    ScanTurn(bytes, 2, 0, 3, 2, AsWritten, 10, 1, 1);
  }

  /** The length byte `0` read as a key: field 0, a varint, `16`. */
  lemma ExampleLengthAsKey(bytes: ByteArray)
    requires bytes == [10, 0, 16, 5]
    ensures Scan(bytes, 2, 1, 2, AsWritten) == Scan(bytes, 2, 3, 1, AsWritten)
  {
    assert Pow2(3) == 8;
    assert FieldOf(0, AsWritten) == 0 && IntAnd(0, 7) == 0;
    ReadByteAt(bytes, 1, 0);
    ReadByteAt(bytes, 2, 16);
    assert Skip(bytes, 2, 0, AsWritten) == Success(3);
    ScanTurn(bytes, 2, 1, 2, 1, AsWritten, 0, 2, 3);
  }

  /** The value byte `5` read as a key: wire type 5. */
  lemma ExampleValueAsKey(bytes: ByteArray)
    requires bytes == [10, 0, 16, 5]
    ensures Scan(bytes, 2, 3, 1, AsWritten) == Failure(UnsupportedWireType)
  {
    assert Pow2(3) == 8;
    assert FieldOf(5, AsWritten) == 0 && IntAnd(5, 7) == 5;
    ReadByteAt(bytes, 3, 5);
    ScanUnsupported(bytes, 2, 3, 1, AsWritten, 5, 4);
  }

  /** As written, reading any field of the empty message fails: the block
      runs at position 0 of an empty array. Corrected, it is the
      default. */
  lemma EmptyMessage(tag: Int, fuel: nat)
    ensures ReadInt32([], tag, fuel, AsWritten) == Failure(IndexOutOfBounds)
    ensures ReadInt32([], tag, fuel, Corrected) == Success(0)
    ensures ReadString([], tag, fuel, Corrected) == Success([])
  {
  }
}
