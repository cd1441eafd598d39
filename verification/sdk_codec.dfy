/** Round trips between the sdk `ProtoWriter` and `ProtoReader`. */
module SdkCodec {
  import opened Bits
  import opened KotlinInt
  import opened Wrappers
  import opened SdkWriter
  import opened SdkReader

  /** A read that succeeds with `value` and leaves the cursor at `next`. */
  predicate Yields<T(==)>(r: Result<(T, Int), ReadError>, value: T, next: int) {
    r.Success? && r.value.0 == value && r.value.1 == next
  }

  /** `bytes` holds `s` at `pos`. */
  predicate HasAt(bytes: seq<Byte>, pos: int, s: seq<Byte>) {
    0 <= pos && pos + |s| <= |bytes| && bytes[pos..pos + |s|] == s
  }

  /** `Byte.toLong()` of a byte, as a Long pattern. */
  lemma ByteSignExtend(h: Byte)
    ensures U64(ByteToLong(h)) == if h < 128 then h else TWO_64 - 256 + h
  {
  }

  /** `y and 0x7F` keeps the low seven bits of the pattern. */
  lemma LowSeven(y: Long)
    ensures U64(LAnd(y, 0x7F)) == U64(y) % 128
  {
    Pow2Eight();
    AndLowMask(U64(y), 7);
  }

  lemma SignExtendedLowSeven(m: nat)
    requires m < 128
    ensures (TWO_64 - 128 + m) % 128 == m
  {
    LemmaModUnique(TWO_64 - 128 + m, 128, TWO_64 / 128 - 1, m);
  }

  /** The first byte of `Groups(x)`: the low seven bits of `x`, plus the
      continuation bit when more groups follow. */
  lemma GroupsHead(x: nat)
    ensures Groups(x)[0] == if x < 128 then x else x % 128 + 128
  {
  }

  /** The low seven bits of a varint byte, as the reader extracts them
      with `b.toLong() and 0x7F`, and its continuation bit. */
  lemma GroupBits(b: Byte, x: nat)
    requires b == Groups(x)[0]
    ensures U64(LAnd(ByteToLong(b), 0x7F)) == x % 128
    ensures !HighBit(b) <==> x < 128
  {
    GroupsHead(x);
    LowSeven(ByteToLong(b));
    ByteSignExtend(b);
    if x < 128 {
      LemmaModUnique(x, 128, 0, x);
    } else {
      SignExtendedLowSeven(x % 128);
    }
  }

  /** Base-`p` arithmetic for one more base-128 digit `c` of `u`. */
  lemma DigitSplit(u: nat, p: nat)
    requires p > 0
    ensures (u / p) % 128 * p <= u
    ensures ((u / p) % 128 * p) % p == 0
    ensures u % p + (u / p) % 128 * p == u % (p * 128)
    ensures u < p * 128 <==> u / p < 128
    ensures u / (p * 128) == u / p / 128
  {
    var x := u / p;
    var c := x % 128;
    assert c * p <= u by {
      assert u == p * x + u % p;
      MulMono(p, c, x);
      assert c * p == p * c;
    }
    assert (c * p) % p == 0 by {
      LemmaModUnique(c * p, p, c, 0);
    }
    assert u % (p * 128) == u % p + p * c && u / (p * 128) == x / 128 by {
      ModMulSplit(u, p, 128);
    }
    assert c * p == p * c;
    DivLowerBound(u, p * 128);
  }

  /** A group `c` shifted left by `s` bits, when it fits in 64 bits. */
  lemma ShiftedGroup(low: Long, c: nat, s: nat)
    requires s < 64 && U64(low) == c && c * Pow2(s) < TWO_64
    ensures U64(LShl(low, s)) == c * Pow2(s)
  {
    MulNonNeg(c, Pow2(s));
    ModOfSmall(c * Pow2(s), TWO_64);
  }

  /** One iteration of the `readVarInt` loop on the group of `u` at
      `shift = 7k`, where `x = u / 2^(7k)` holds the groups still to
      come: the accumulator gains that group, and the loop stops exactly
      when no higher bits remain. */
  lemma AccumulateGroup(result: Long, b: Byte, k: nat, u: nat, x: nat)
    requires 7 * k < 64 && u < TWO_64
    requires x == u / Pow2(7 * k)
    requires U64(result) == u % Pow2(7 * k)
    requires b == Groups(x)[0]
    ensures U64(AddGroup(result, b, 7 * k)) == u % Pow2(7 * k + 7)
    ensures !HighBit(b) <==> u < Pow2(7 * k + 7)
  {
    var s := 7 * k;
    var p := Pow2(s);
    var c := x % 128;
    var low := LAnd(ByteToLong(b), 0x7F);
    assert U64(low) == c && (!HighBit(b) <==> x < 128) by {
      GroupBits(b, x);
    }
    assert Pow2(s + 7) == p * 128 by {
      Pow2Add(s, 7);
      Pow2Eight();
    }
    DigitSplit(u, p);
    assert U64(LShl(low, s)) == c * p by {
      ShiftedGroup(low, c, s);
    }
    assert Or(u % p, c * p) == u % p + c * p by {
      OrDisjoint(u % p, c * p, s);
    }
  }

  /** `u / d` is zero exactly when `u < d`. */
  lemma DivLowerBound(u: nat, d: nat)
    requires d > 0
    ensures u / d == 0 <==> u < d
  {
    if u >= d {
      assert u == d * (u / d) + u % d;
    }
  }

  /** One turn of the `readVarInt` loop at an in-range position. */
  lemma LoopStep(bytes: ByteArray, pos: Int, shift: nat, result: Long)
    requires shift < 64 && 0 <= pos < |bytes|
    ensures !HighBit(bytes[pos]) ==>
      Yields(ReadVarIntLoop(bytes, pos, shift, result), AddGroup(result, bytes[pos], shift), pos + 1)
    ensures HighBit(bytes[pos]) ==>
      ReadVarIntLoop(bytes, pos, shift, result)
      == ReadVarIntLoop(bytes, pos + 1, shift + 7, AddGroup(result, bytes[pos], shift))
  {
  }

  lemma HasAtTail(bytes: seq<Byte>, pos: int, s: seq<Byte>)
    requires |s| >= 1 && HasAt(bytes, pos, s)
    ensures bytes[pos] == s[0] && HasAt(bytes, pos + 1, s[1..])
  {
    assert bytes[pos..pos + |s|][1..] == bytes[pos + 1..pos + |s|];
  }

  /** The `readVarInt` loop, entered after `k` groups of `u` have been
      accumulated, reads the remaining groups `x = u / 2^(7k)` and returns
      `u`. */
  lemma ReadGroups(bytes: ByteArray, pos: Int, k: nat, u: nat, x: nat, result: Long)
    requires u < TWO_64
    requires k == 0 || Pow2(7 * k) <= u
    requires x == u / Pow2(7 * k)
    requires U64(result) == u % Pow2(7 * k)
    requires HasAt(bytes, pos, Groups(x))
    ensures 7 * k < 64
    ensures Yields(ReadVarIntLoop(bytes, pos, 7 * k, result), FromU64(u), pos + |Groups(x)|)
    decreases 64 - 7 * k, 1
  {
    assert 7 * k < 64 by {
      Pow2SixtyFour();
      if 7 * k >= 64 {
        Pow2Monotone(64, 7 * k);
      }
    }
    if u < Pow2(7 * k + 7) {
      LastGroup(bytes, pos, k, u, x, result);
    } else {
      MoreGroups(bytes, pos, k, u, x, result);
    }
  }

  /** The group read at shift `7k` is the last one. */
  lemma LastGroup(bytes: ByteArray, pos: Int, k: nat, u: nat, x: nat, result: Long)
    requires 7 * k < 64 && u < TWO_64
    requires x == u / Pow2(7 * k)
    requires U64(result) == u % Pow2(7 * k)
    requires HasAt(bytes, pos, Groups(x))
    requires u < Pow2(7 * k + 7)
    ensures Yields(ReadVarIntLoop(bytes, pos, 7 * k, result), FromU64(u), pos + |Groups(x)|)
  {
    var p := Pow2(7 * k);
    HasAtTail(bytes, pos, Groups(x));
    var b := bytes[pos];
    var result' := AddGroup(result, b, 7 * k);
    AccumulateGroup(result, b, k, u, x);
    LoopStep(bytes, pos, 7 * k, result);
    ModOfSmall(u, Pow2(7 * k + 7));
    U64Inverse(result');
    Pow2Add(7 * k, 7);
    Pow2Eight();
    DigitSplit(u, p);
  }

  /** More groups follow the one read at shift `7k`. */
  lemma MoreGroups(bytes: ByteArray, pos: Int, k: nat, u: nat, x: nat, result: Long)
    requires 7 * k < 64 && u < TWO_64
    requires x == u / Pow2(7 * k)
    requires U64(result) == u % Pow2(7 * k)
    requires HasAt(bytes, pos, Groups(x))
    requires Pow2(7 * k + 7) <= u
    ensures Yields(ReadVarIntLoop(bytes, pos, 7 * k, result), FromU64(u), pos + |Groups(x)|)
    decreases 64 - 7 * k, 0
  {
    var p := Pow2(7 * k);
    var g := Groups(x);
    HasAtTail(bytes, pos, g);
    var b := bytes[pos];
    var result' := AddGroup(result, b, 7 * k);
    AccumulateGroup(result, b, k, u, x);
    var p' := Pow2(7 * k + 7);
    assert u / p' == x / 128 && x >= 128 by {
      Pow2Add(7 * k, 7);
      Pow2Eight();
      DigitSplit(u, p);
    }
    var rest := Groups(x / 128);
    assert HasAt(bytes, pos + 1, rest) && |g| == 1 + |rest| by {
      assert g == [x % 128 + 128] + rest;
    }
    assert 7 * (k + 1) == 7 * k + 7;
    ReadGroups(bytes, pos + 1, k + 1, u, x / 128, result');
    LoopStep(bytes, pos, 7 * k, result);
  }

  lemma GroupsRoundTrip(bytes: ByteArray, pos: Int, u: nat)
    requires u < TWO_64
    requires HasAt(bytes, pos, Groups(u))
    ensures Yields(ReadVarInt(bytes, pos), FromU64(u), pos + |Groups(u)|)
  {
    assert Pow2(0) == 1;
    assert u / Pow2(0) == u;
    assert 0 == u % Pow2(0);
    ReadGroups(bytes, pos, 0, u, u, 0);
  }

  /** `readVarInt` inverts `writeVarInt` for every Long and stops right
      after its last byte. */
  lemma VarIntRoundTrip(bytes: ByteArray, pos: Int, v: Long)
    requires HasAt(bytes, pos, VarInt(v))
    ensures Yields(ReadVarInt(bytes, pos), v, pos + |VarInt(v)|)
  {
    GroupsRoundTrip(bytes, pos, U64(v));
  }

  // ---- Varint lengths ------------------------------------------------------

  /** `Groups(u)` has exactly `n` bytes when `2^(7(n-1)) <= u < 2^(7n)`. */
  lemma {:induction false} GroupsLength(u: nat, n: nat)
    requires n >= 1
    ensures u < Pow2(7 * n) ==> |Groups(u)| <= n
    ensures Pow2(7 * (n - 1)) <= u ==> |Groups(u)| >= n
    decreases n
  {
    var p := Pow2(7 * (n - 1));
    assert Pow2(7 * n) == p * 128 by {
      Pow2Add(7 * (n - 1), 7);
      Pow2Eight();
    }
    if n > 1 {
      var q := Pow2(7 * (n - 2));
      assert p == q * 128 by {
        Pow2Add(7 * (n - 2), 7);
        Pow2Eight();
      }
      assert u < p * 128 ==> u / 128 < p by {
        DivBounds(u, 128, p);
      }
      assert q * 128 <= u ==> q <= u / 128 by {
        DivBounds(u, 128, q);
      }
      GroupsLength(u / 128, n - 1);
    } else {
      assert p == 1;
    }
  }

  /** Bounds on `u` in units of `d` carry over to `u / d`. */
  lemma DivBounds(u: nat, d: nat, m: nat)
    requires d > 0
    ensures u < m * d ==> u / d < m
    ensures m * d <= u ==> m <= u / d
  {
    assert u == d * (u / d) + u % d;
    if u < m * d && u / d >= m {
      MulMono(d, m, u / d);
    }
    if m * d <= u && u / d < m {
      MulMono(d, u / d + 1, m);
    }
  }

  /** `writeVarInt` emits between one and ten bytes; every negative Long
      takes all ten, because `ushr` shifts in zeros. */
  lemma VarIntLength(v: Long)
    ensures 1 <= |VarInt(v)| <= 10
    ensures v < 0 ==> |VarInt(v)| == 10
    ensures 0 <= v < 128 ==> |VarInt(v)| == 1
  {
    GroupsBounds(U64(v));
  }

  /** The byte counts of base-128 digit strings of 64-bit patterns. */
  lemma GroupsBounds(u: nat)
    requires u < TWO_64
    ensures 1 <= |Groups(u)| <= 10
    ensures u >= TWO_63 ==> |Groups(u)| == 10
    ensures u < 128 ==> |Groups(u)| == 1
  {
    assert u < Pow2(70) by {
      Pow2SixtyFour();
      Pow2Add(64, 6);
    }
    GroupsLength(u, 10);
    if u >= TWO_63 {
      assert Pow2(63) <= u by {
        Pow2OddValues();
      }
    }
    if u < 128 {
      assert u < Pow2(7) by {
        Pow2Eight();
      }
      GroupsLength(u, 1);
    }
  }

  // ---- Tags ---------------------------------------------------------------

  /** Field numbers and wire types that fit a key: 29 and 3 bits. */
  predicate ValidTag(fieldNumber: Int, wireType: Int) {
    0 <= fieldNumber < 0x2000_0000 && 0 <= wireType < 8
  }

  /** The pattern of `(fieldNumber shl 3) or wireType`. */
  lemma TagKeyPattern(fieldNumber: Int, wireType: Int)
    requires ValidTag(fieldNumber, wireType)
    ensures U32(TagKey(fieldNumber, wireType)) == fieldNumber * 8 + wireType
  {
    Pow2Values();
    assert Pow2(3) == 8;
    var f8 := fieldNumber * 8;
    LemmaModUnique(f8, TWO_32, 0, f8);
    assert U32(Shl(fieldNumber, 3)) == f8;
    OrComm(f8, wireType);
    LemmaModUnique(f8, 8, fieldNumber, 0);
    OrDisjoint(wireType, f8, 3);
  }

  /** Splitting a key recovers its two halves. */
  lemma TagKeySplit(fieldNumber: Int, wireType: Int)
    requires ValidTag(fieldNumber, wireType)
    ensures Ushr(TagKey(fieldNumber, wireType), 3) == fieldNumber
    ensures IntAnd(TagKey(fieldNumber, wireType), 7) == wireType
  {
    TagKeyPattern(fieldNumber, wireType);
    var k := fieldNumber * 8 + wireType;
    assert Pow2(3) == 8;
    LemmaModUnique(k, 8, fieldNumber, wireType);
    AndLowMask(k, 3);
  }

  /** `readTag` at the start of a tag written by `writeTag` returns that
      field number and wire type and stops after the tag. */
  lemma TagRoundTrip(w: Writer, fieldNumber: Int, wireType: Int, bytes: ByteArray)
    requires ValidTag(fieldNumber, wireType)
    requires WriteTag(w, fieldNumber, wireType).buffer <= bytes
    ensures Yields(ReadTag(bytes, |w.buffer|), Some(Tag(fieldNumber, wireType)),
                   |WriteTag(w, fieldNumber, wireType).buffer|)
  {
    var key := TagKey(fieldNumber, wireType);
    var enc := VarInt(ToLong(key));
    var w' := WriteTag(w, fieldNumber, wireType);
    assert w'.buffer == w.buffer + enc;
    assert HasAt(bytes, |w.buffer|, enc) by {
      assert bytes[|w.buffer|..|w.buffer| + |enc|] == w'.buffer[|w.buffer|..];
    }
    VarIntRoundTrip(bytes, |w.buffer|, ToLong(key));
    TagKeySplit(fieldNumber, wireType);
  }

  // ---- Fields -------------------------------------------------------------

  /** A varint appended to the buffer reads back at the position where it
      was appended. */
  lemma AppendedVarInt(w: Writer, v: Long, bytes: ByteArray)
    requires Append(w, VarInt(v)).buffer <= bytes
    ensures Yields(ReadVarInt(bytes, |w.buffer|), v, |w.buffer| + |VarInt(v)|)
  {
    var enc := VarInt(v);
    assert bytes[|w.buffer|..|w.buffer| + |enc|] == Append(w, enc).buffer[|w.buffer|..];
    VarIntRoundTrip(bytes, |w.buffer|, v);
  }

  /** Reading a varint field: its tag, then the varint read by `read`. */
  predicate VarIntFieldAt(bytes: ByteArray, pos: Int, fieldNumber: Int, v: Long, next: int) {
    var t := ReadTag(bytes, pos);
    t.Success? && t.value.0 == Some(Tag(fieldNumber, VARINT))
    && Yields(ReadVarInt(bytes, t.value.1), v, next)
  }

  /** The common step of every varint field: tag, then value. */
  lemma VarIntField(w: Writer, fieldNumber: Int, v: Long, bytes: ByteArray)
    requires ValidTag(fieldNumber, VARINT)
    requires Append(WriteTag(w, fieldNumber, VARINT), VarInt(v)).buffer <= bytes
    ensures VarIntFieldAt(bytes, |w.buffer|, fieldNumber, v,
                          |Append(WriteTag(w, fieldNumber, VARINT), VarInt(v)).buffer|)
  {
    var wt := WriteTag(w, fieldNumber, VARINT);
    TagRoundTrip(w, fieldNumber, VARINT, bytes);
    AppendedVarInt(wt, v, bytes);
  }

  /** `readInt64` reads back what a non-default `writeInt64` wrote, for
      every Long, whatever follows in the buffer. */
  lemma Int64RoundTrip(w: Writer, fieldNumber: Int, v: Long, bytes: ByteArray)
    requires ValidTag(fieldNumber, VARINT) && v != 0
    requires WriteInt64(w, fieldNumber, v).buffer <= bytes
    ensures var t := ReadTag(bytes, |w.buffer|);
      t.Success? && t.value.0 == Some(Tag(fieldNumber, VARINT))
      && Yields(ReadInt64(bytes, t.value.1), v, |WriteInt64(w, fieldNumber, v).buffer|)
  {
    VarIntField(w, fieldNumber, v, bytes);
  }

  /** `readInt32` reads back every Int `writeInt32` wrote: the sign
      extension of the writer and the truncation of the reader cancel. */
  lemma Int32RoundTrip(w: Writer, fieldNumber: Int, v: Int, bytes: ByteArray)
    requires ValidTag(fieldNumber, VARINT) && v != 0
    requires WriteInt32(w, fieldNumber, v).buffer <= bytes
    ensures var t := ReadTag(bytes, |w.buffer|);
      t.Success? && t.value.0 == Some(Tag(fieldNumber, VARINT))
      && Yields(ReadInt32(bytes, t.value.1), v, |WriteInt32(w, fieldNumber, v).buffer|)
  {
    VarIntField(w, fieldNumber, ToLong(v), bytes);
  }

  /** Enums travel as Int32. */
  lemma EnumRoundTrip(w: Writer, fieldNumber: Int, v: Int, bytes: ByteArray)
    requires ValidTag(fieldNumber, VARINT) && v != 0
    requires WriteEnum(w, fieldNumber, v).buffer <= bytes
    ensures var t := ReadTag(bytes, |w.buffer|);
      t.Success? && t.value.0 == Some(Tag(fieldNumber, VARINT))
      && Yields(ReadEnum(bytes, t.value.1), v, |WriteEnum(w, fieldNumber, v).buffer|)
  {
    Int32RoundTrip(w, fieldNumber, v, bytes);
  }

  lemma BoolRoundTrip(w: Writer, fieldNumber: Int, bytes: ByteArray)
    requires ValidTag(fieldNumber, VARINT)
    requires WriteBool(w, fieldNumber, true).buffer <= bytes
    ensures var t := ReadTag(bytes, |w.buffer|);
      t.Success? && t.value.0 == Some(Tag(fieldNumber, VARINT))
      && Yields(ReadBool(bytes, t.value.1), true, |WriteBool(w, fieldNumber, true).buffer|)
  {
    VarIntField(w, fieldNumber, 1, bytes);
  }

  // ---- Varint errors ------------------------------------------------------

  /** Some byte in `[pos, pos + n)` of the array ends a varint. */
  predicate TerminatorWithin(bytes: seq<Byte>, pos: int, n: int) {
    exists i :: pos <= i < pos + n && 0 <= i < |bytes| && !HighBit(bytes[i])
  }

  /** From the `j`-th group on, the loop succeeds exactly when one of the
      next `10 - j` bytes ends the varint. */
  lemma {:induction false} LoopSucceeds(bytes: ByteArray, pos: Int, j: nat, result: Long)
    requires 0 <= pos && j <= 10
    ensures ReadVarIntLoop(bytes, pos, 7 * j, result).Success? <==> TerminatorWithin(bytes, pos, 10 - j)
    decreases 10 - j
  {
    if j < 10 && pos < |bytes| {
      var result' := AddGroup(result, bytes[pos], 7 * j);
      if HighBit(bytes[pos]) {
        assert ReadVarIntLoop(bytes, pos, 7 * j, result) == ReadVarIntLoop(bytes, pos + 1, 7 * (j + 1), result') by {
          LoopStep(bytes, pos, 7 * j, result);
          assert 7 * j + 7 == 7 * (j + 1);
        }
        LoopSucceeds(bytes, pos + 1, j + 1, result');
        TerminatorShift(bytes, pos, 10 - j);
      } else {
        assert ReadVarIntLoop(bytes, pos, 7 * j, result).Success? by {
          LoopStep(bytes, pos, 7 * j, result);
        }
        assert TerminatorWithin(bytes, pos, 10 - j);
      }
    }
  }

  /** Past a continuation byte, the search for a terminator moves on one. */
  lemma TerminatorShift(bytes: seq<Byte>, pos: int, n: int)
    requires 0 <= pos < |bytes| && HighBit(bytes[pos])
    ensures TerminatorWithin(bytes, pos, n) <==> TerminatorWithin(bytes, pos + 1, n - 1)
  {
    if TerminatorWithin(bytes, pos, n) {
      var i :| pos <= i < pos + n && 0 <= i < |bytes| && !HighBit(bytes[i]);
      assert i != pos;
    }
  }

  /** The buffer ends while every byte so far asked for more. */
  lemma {:induction false} LoopEndsEarly(bytes: ByteArray, pos: Int, j: nat, result: Long)
    requires 0 <= pos <= |bytes| && j + (|bytes| - pos) <= 9
    requires forall i :: pos <= i < |bytes| ==> HighBit(bytes[i])
    ensures ReadVarIntLoop(bytes, pos, 7 * j, result) == Failure(PrematureEnd)
    decreases |bytes| - pos
  {
    if pos < |bytes| {
      LoopStep(bytes, pos, 7 * j, result);
      LoopEndsEarly(bytes, pos + 1, j + 1, AddGroup(result, bytes[pos], 7 * j));
      assert 7 * j + 7 == 7 * (j + 1);
    }
  }

  /** Ten bytes, all with the continuation bit. */
  lemma {:induction false} LoopTooLong(bytes: ByteArray, pos: Int, j: nat, result: Long)
    requires 0 <= pos && j <= 10 && pos + (10 - j) <= |bytes|
    requires forall i :: pos <= i < pos + (10 - j) ==> HighBit(bytes[i])
    ensures ReadVarIntLoop(bytes, pos, 7 * j, result) == Failure(MalformedVarint)
    decreases 10 - j
  {
    if j < 10 {
      LoopStep(bytes, pos, 7 * j, result);
      LoopTooLong(bytes, pos + 1, j + 1, AddGroup(result, bytes[pos], 7 * j));
      assert 7 * j + 7 == 7 * (j + 1);
    }
  }

  /** How `readVarInt` fails: an index error before the array, "premature
      end of stream" when the array runs out first, "Malformed varint"
      after ten continuation bytes; and it succeeds exactly when one of
      the next ten bytes ends the varint. */
  lemma ReadVarIntOutcome(bytes: ByteArray, pos: Int)
    ensures ReadVarInt(bytes, pos).Success? <==> 0 <= pos && TerminatorWithin(bytes, pos, 10)
    ensures pos < 0 ==> ReadVarInt(bytes, pos) == Failure(IndexOutOfBounds)
    ensures 0 <= pos && |bytes| - pos < 10 && (forall i :: pos <= i < |bytes| ==> HighBit(bytes[i]))
            ==> ReadVarInt(bytes, pos) == Failure(PrematureEnd)
    ensures 0 <= pos && pos + 10 <= |bytes| && (forall i :: pos <= i < pos + 10 ==> HighBit(bytes[i]))
            ==> ReadVarInt(bytes, pos) == Failure(MalformedVarint)
  {
    if 0 <= pos {
      LoopSucceeds(bytes, pos, 0, 0);
      if |bytes| - pos < 10 && (forall i :: pos <= i < |bytes| ==> HighBit(bytes[i])) {
        if pos <= |bytes| {
          LoopEndsEarly(bytes, pos, 0, 0);
        }
      }
      if pos + 10 <= |bytes| && (forall i :: pos <= i < pos + 10 ==> HighBit(bytes[i])) {
        LoopTooLong(bytes, pos, 0, 0);
      }
    }
  }

  // ---- Length-delimited records ------------------------------------------

  /** What a writer appended sits in any array that starts with its buffer. */
  lemma AppendedAt(w: Writer, s: seq<Byte>, bytes: seq<Byte>)
    requires Append(w, s).buffer <= bytes
    ensures HasAt(bytes, |w.buffer|, s)
  {
    var b := Append(w, s).buffer;
    assert bytes[|w.buffer|..|b|] == b[|w.buffer|..];
  }

  /** A varint length `n` followed by `n` bytes is read as one record. */
  lemma RecordAt(bytes: ByteArray, pos: Int, data: ByteArray, next: Int)
    requires Yields(ReadVarInt(bytes, pos), |data| as Long, next)
    requires HasAt(bytes, next, data)
    ensures Yields(ReadLengthDelimited(bytes, pos), data, next + |data|)
  {
    assert ToInt(|data|) == |data|;
    assert IntAdd(next, |data|) == next + |data|;
  }

  /** `readString`/`readBytes`/`readObject` read back what a non-empty
      `writeString`/`writeBytes`/`writeObject` wrote, and stop right after it. */
  lemma LengthDelimitedRoundTrip(w: Writer, fieldNumber: Int, data: ByteArray, bytes: ByteArray)
    requires ValidTag(fieldNumber, LENGTH_DELIMITED) && |data| > 0
    requires WriteLengthDelimited(w, fieldNumber, data).buffer <= bytes
    ensures var t := ReadTag(bytes, |w.buffer|);
      t.Success? && t.value.0 == Some(Tag(fieldNumber, LENGTH_DELIMITED))
      && Yields(ReadLengthDelimited(bytes, t.value.1), data, |WriteLengthDelimited(w, fieldNumber, data).buffer|)
  {
    var wt := WriteTag(w, fieldNumber, LENGTH_DELIMITED);
    var wl := Append(wt, VarInt(ToLong(|data|)));
    var w' := Append(wl, data);
    assert w' == WriteLengthDelimited(w, fieldNumber, data);
    assert wl.buffer <= w'.buffer;
    TagRoundTrip(w, fieldNumber, LENGTH_DELIMITED, bytes);
    AppendedVarInt(wt, ToLong(|data|), bytes);
    AppendedAt(wl, data, bytes);
    RecordAt(bytes, |wt.buffer|, data, |wl.buffer|);
  }

  // ---- Skipping unknown fields -------------------------------------------

  /** Skipping a varint field lands exactly where reading it would. */
  lemma SkipVarIntField(w: Writer, fieldNumber: Int, v: Long, bytes: ByteArray, fuel: nat, variant: Variant)
    requires ValidTag(fieldNumber, VARINT)
    requires Append(WriteTag(w, fieldNumber, VARINT), VarInt(v)).buffer <= bytes
    ensures var t := ReadTag(bytes, |w.buffer|);
      t.Success? && t.value.0 == Some(Tag(fieldNumber, VARINT))
      && Skip(bytes, t.value.1, VARINT, fuel, variant)
         == Success(|Append(WriteTag(w, fieldNumber, VARINT), VarInt(v)).buffer|)
  {
    VarIntField(w, fieldNumber, v, bytes);
  }

  /** Corrected, skipping a length-delimited field lands right after its
      payload. */
  lemma SkipLengthDelimitedField(w: Writer, fieldNumber: Int, data: ByteArray, bytes: ByteArray, fuel: nat)
    requires ValidTag(fieldNumber, LENGTH_DELIMITED) && |data| > 0
    requires WriteLengthDelimited(w, fieldNumber, data).buffer <= bytes
    ensures var t := ReadTag(bytes, |w.buffer|);
      t.Success? && t.value.0 == Some(Tag(fieldNumber, LENGTH_DELIMITED))
      && Skip(bytes, t.value.1, LENGTH_DELIMITED, fuel, Corrected)
         == Success(|WriteLengthDelimited(w, fieldNumber, data).buffer|)
  {
    LengthDelimitedRoundTrip(w, fieldNumber, data, bytes);
  }

  /** A length `n` read at `pos` and ending at `next`, followed by its
      payload: as written, the skip counts the payload from `pos`, where
      the length starts, and so stops `next - pos` bytes (the length's own
      size) short of the record's end, where the corrected skip stops. */
  lemma SkipLengthAsWritten(bytes: ByteArray, pos: Int, next: Int, data: ByteArray, fuel: nat)
    requires Yields(ReadVarInt(bytes, pos), |data| as Long, next) && HasAt(bytes, next, data)
    ensures Skip(bytes, pos, LENGTH_DELIMITED, fuel, AsWritten) == Success(pos + |data|)
    ensures Skip(bytes, pos, LENGTH_DELIMITED, fuel, Corrected) == Success(next + |data|)
    ensures pos + |data| < next + |data|
  {
    assert ToInt(|data|) == |data| && pos < next && next + |data| <= |bytes|;
    assert IntAdd(pos, |data|) == pos + |data| && IntAdd(next, |data|) == next + |data|;
  }

  /** Fixed-width skips never fail, even past the end of the array, and
      the end-group, 6 and 7 wire types move nothing. */
  lemma SkipWithoutBoundsCheck(bytes: ByteArray, pos: Int, fuel: nat, variant: Variant)
    ensures pos + 8 < TWO_31 ==> Skip(bytes, pos, 1, fuel, variant) == Success(pos + 8)
    ensures pos + 4 < TWO_31 ==> Skip(bytes, pos, 5, fuel, variant) == Success(pos + 4)
    ensures forall wt :: 4 == wt || 6 <= wt < 8 ==> Skip(bytes, pos, wt, fuel, variant) == Success(pos)
  {
  }

  /** A group skip stops at the end of the array, or right after the first
      end-group tag it meets. */
  lemma SkipGroupStops(bytes: ByteArray, pos: Int, fuel: nat, variant: Variant)
    requires fuel > 0
    ensures pos >= |bytes| ==> SkipGroup(bytes, pos, fuel, variant) == Success(pos)
    ensures var t := ReadTag(bytes, pos);
      t.Success? && t.value.0.Some? && t.value.0.value.wireType == 4
      ==> SkipGroup(bytes, pos, fuel, variant) == Success(t.value.1)
  {
  }
}
