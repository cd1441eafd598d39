/** `ProtoAny`, the sdk's `google.protobuf.Any`: a type URL (field 1, a
    string) and the packed message bytes (field 2), written and read with
    the sdk codec. The URL is held as its UTF-8 bytes. */
module SdkProtoAny {
  import opened KotlinInt
  import opened Wrappers
  import opened SdkWriter
  import opened SdkReader
  import opened SdkCodec

  datatype ProtoAny = ProtoAny(typeUrl: ByteArray, value: ByteArray)

  /** What `decode` starts from: `""` and an empty array. */
  const Default: ProtoAny := ProtoAny([], [])

  /** `encode`, continuing an existing writer. */
  function EncodeOnto(w: Writer, a: ProtoAny): (r: Writer)
    ensures w.buffer <= r.buffer
  {
    WriteBytes(WriteString(w, 1, a.typeUrl), 2, a.value)
  }

  /** `encode`: field 1 then field 2, each omitted when empty. */
  function Encode(a: ProtoAny): (r: seq<Byte>)
    ensures r == [] <==> a == Default
  {
    ToByteArray(EncodeOnto(Empty, a))
  }

  /** The loop of `decode(reader)` from `pos`: a field 1 or 2 replaces
      what was read so far, anything else (or the end) stops the loop with
      the reader just past that tag. No wire type is checked and nothing is
      skipped. */
  function DecodeLoop(bytes: ByteArray, pos: Int, acc: ProtoAny): (r: Result<(ProtoAny, Int), ReadError>)
    ensures r.Success? && pos >= |bytes| ==> r.value == (acc, pos)
    decreases |bytes| - pos
  {
    var t :- ReadTag(bytes, pos);
    match t.0
    case None => Success((acc, t.1))
    case Some(tag) =>
      if tag.fieldNumber == 1 then
        var s :- ReadString(bytes, t.1);
        DecodeLoop(bytes, s.1, acc.(typeUrl := s.0))
      else if tag.fieldNumber == 2 then
        var v :- ReadBytes(bytes, t.1);
        DecodeLoop(bytes, v.1, acc.(value := v.0))
      else Success((acc, t.1))
  }

  /** `decode(bytes)`: a fresh reader, starting from the defaults. */
  function Decode(bytes: ByteArray): Result<ProtoAny, ReadError> {
    var r :- DecodeLoop(bytes, 0, Default);
    Success(r.0)
  }

  /** The fields of `b` that `encode` writes, laid over `a`: what reading
      `b`'s encoding after `a` has been read leaves. */
  function Merge(a: ProtoAny, b: ProtoAny): (r: ProtoAny)
    ensures |b.typeUrl| > 0 ==> r.typeUrl == b.typeUrl
    ensures |b.typeUrl| == 0 ==> r.typeUrl == a.typeUrl
    ensures |b.value| > 0 ==> r.value == b.value
    ensures |b.value| == 0 ==> r.value == a.value
  {
    ProtoAny(if |b.typeUrl| > 0 then b.typeUrl else a.typeUrl,
             if |b.value| > 0 then b.value else a.value)
  }

  /** A length-delimited write adds the same bytes whatever came before. */
  lemma LengthDelimitedAppends(w: Writer, fieldNumber: Int, data: ByteArray)
    ensures WriteLengthDelimited(w, fieldNumber, data).buffer
         == w.buffer + WriteLengthDelimited(Empty, fieldNumber, data).buffer
  {
    if |data| > 0 {
      var tag := VarInt(ToLong(TagKey(fieldNumber, LENGTH_DELIMITED)));
      var len := VarInt(ToLong(|data|));
      assert WriteLengthDelimited(w, fieldNumber, data).buffer == w.buffer + tag + len + data;
      assert WriteLengthDelimited(Empty, fieldNumber, data).buffer == tag + len + data;
    }
  }

  /** Every write appends: encoding onto a writer adds exactly `encode`'s
      bytes to it. */
  lemma EncodeOntoAppends(w: Writer, a: ProtoAny)
    ensures EncodeOnto(w, a).buffer == w.buffer + Encode(a)
  {
    var s := WriteString(w, 1, a.typeUrl);
    var s0 := WriteString(Empty, 1, a.typeUrl);
    var u := WriteLengthDelimited(Empty, 1, a.typeUrl).buffer;
    var v := WriteLengthDelimited(Empty, 2, a.value).buffer;
    var x := w.buffer;
    var e := EncodeOnto(w, a).buffer;
    var ea := Encode(a);
    assert s.buffer == x + u by {
      LengthDelimitedAppends(w, 1, a.typeUrl);
    }
    assert e == s.buffer + v by {
      LengthDelimitedAppends(s, 2, a.value);
    }
    assert ea == s0.buffer + v by {
      LengthDelimitedAppends(s0, 2, a.value);
    }
    assert s0.buffer == u;
    ConcatAssoc(x, u, v, e, ea);
  }

  lemma ConcatAssoc(x: seq<Byte>, u: seq<Byte>, v: seq<Byte>, e: seq<Byte>, ea: seq<Byte>)
    requires e == (x + u) + v && ea == u + v
    ensures e == x + ea
  {
  }

  /** Reading across one string field 1 replaces the type URL. */
  lemma TypeUrlAcross(w: Writer, url: ByteArray, bytes: ByteArray, acc: ProtoAny)
    requires WriteString(w, 1, url).buffer <= bytes
    ensures DecodeLoop(bytes, |w.buffer|, acc)
         == DecodeLoop(bytes, |WriteString(w, 1, url).buffer|, Merge(acc, ProtoAny(url, [])))
  {
    if |url| > 0 {
      LengthDelimitedRoundTrip(w, 1, url, bytes);
    } else {
      assert Merge(acc, ProtoAny(url, [])) == acc;
    }
  }

  /** Reading across one bytes field 2 replaces the value. */
  lemma ValueAcross(w: Writer, value: ByteArray, bytes: ByteArray, acc: ProtoAny)
    requires WriteBytes(w, 2, value).buffer <= bytes
    ensures DecodeLoop(bytes, |w.buffer|, acc)
         == DecodeLoop(bytes, |WriteBytes(w, 2, value).buffer|, Merge(acc, ProtoAny([], value)))
  {
    if |value| > 0 {
      LengthDelimitedRoundTrip(w, 2, value, bytes);
    } else {
      assert Merge(acc, ProtoAny([], value)) == acc;
    }
  }

  /** Reading across one encoded `ProtoAny` merges it into what was read. */
  lemma DecodeAcross(w: Writer, a: ProtoAny, bytes: ByteArray, acc: ProtoAny)
    requires EncodeOnto(w, a).buffer <= bytes
    ensures DecodeLoop(bytes, |w.buffer|, acc) == DecodeLoop(bytes, |EncodeOnto(w, a).buffer|, Merge(acc, a))
  {
    var w1 := WriteString(w, 1, a.typeUrl);
    var acc1 := Merge(acc, ProtoAny(a.typeUrl, []));
    assert w1.buffer <= EncodeOnto(w, a).buffer;
    TypeUrlAcross(w, a.typeUrl, bytes, acc);
    ValueAcross(w1, a.value, bytes, acc1);
    assert Merge(acc1, ProtoAny([], a.value)) == Merge(acc, a);
  }

  /** `decode(encode(a)) == a` for every `ProtoAny`. */
  lemma RoundTrip(a: ProtoAny)
    requires |Encode(a)| <= INT_MAX
    ensures Decode(Encode(a)) == Success(a)
  {
    DecodeAcross(Empty, a, Encode(a), Default);
    assert Merge(Default, a) == a;
  }

  /** Decoding two encodings one after the other keeps, per field, the
      later non-empty value: a repeated field 1 or 2 is overwritten, and a
      field absent from both decodes to its default. */
  lemma LastWins(a: ProtoAny, b: ProtoAny)
    requires |Encode(a) + Encode(b)| <= INT_MAX
    ensures Decode(Encode(a) + Encode(b)) == Success(Merge(Merge(Default, a), b))
  {
    var bytes := Encode(a) + Encode(b);
    var wa := EncodeOnto(Empty, a);
    EncodeOntoAppends(wa, b);
    var wb := EncodeOnto(wa, b);
    assert wb.buffer == bytes;
    DecodeAcross(Empty, a, bytes, Default);
    DecodeAcross(wa, b, bytes, Merge(Default, a));
  }

  /** Decoding stops at the first tag whose field number is neither 1 nor
      2, whatever follows it, and consumes just that tag. */
  lemma StopsAtOtherField(a: ProtoAny, fieldNumber: Int, wireType: Int, bytes: ByteArray)
    requires ValidTag(fieldNumber, wireType) && fieldNumber != 1 && fieldNumber != 2
    requires WriteTag(Writer(Encode(a)), fieldNumber, wireType).buffer <= bytes
    ensures DecodeLoop(bytes, 0, Default) == Success((a, |WriteTag(Writer(Encode(a)), fieldNumber, wireType).buffer|))
  {
    var wa := Writer(Encode(a));
    var wt := WriteTag(wa, fieldNumber, wireType);
    assert DecodeLoop(bytes, 0, Default) == DecodeLoop(bytes, |wa.buffer|, a) by {
      assert EncodeOnto(Empty, a) == wa;
      assert wa.buffer <= wt.buffer;
      DecodeAcross(Empty, a, bytes, Default);
      assert Merge(Default, a) == a;
    }
    assert DecodeLoop(bytes, |wa.buffer|, a) == Success((a, |wt.buffer|)) by {
      TagRoundTrip(wa, fieldNumber, wireType, bytes);
    }
  }

  /** A varint length followed by that many bytes is one length-delimited
      record. */
  lemma LengthThenBytes(w: Writer, data: ByteArray, bytes: ByteArray)
    requires Append(Append(w, VarInt(|data|)), data).buffer <= bytes
    ensures Yields(ReadLengthDelimited(bytes, |w.buffer|), data, |Append(Append(w, VarInt(|data|)), data).buffer|)
  {
    var wl := Append(w, VarInt(|data|));
    assert wl.buffer <= Append(wl, data).buffer;
    AppendedVarInt(w, |data|, bytes);
    AppendedAt(wl, data, bytes);
    RecordAt(bytes, |w.buffer|, data, |wl.buffer|);
  }

  /** One step of the loop over a field 1. */
  lemma TypeUrlStep(bytes: ByteArray, pos: Int, acc: ProtoAny, wireType: Int, tagEnd: Int, url: ByteArray, next: Int)
    requires Yields(ReadTag(bytes, pos), Some(Tag(1, wireType)), tagEnd)
    requires Yields(ReadString(bytes, tagEnd), url, next)
    ensures DecodeLoop(bytes, pos, acc) == DecodeLoop(bytes, next, acc.(typeUrl := url))
  {
  }

  /** Field 1 is read as a string whatever wire type its tag carries: a
      tag of any wire type, a length and that many bytes replace the type
      URL just as a string field does. */
  lemma WireTypeNotChecked(w: Writer, wireType: Int, url: ByteArray, bytes: ByteArray, acc: ProtoAny)
    requires ValidTag(1, wireType) && |url| > 0
    requires Append(Append(WriteTag(w, 1, wireType), VarInt(|url|)), url).buffer <= bytes
    ensures DecodeLoop(bytes, |w.buffer|, acc)
         == DecodeLoop(bytes, |Append(Append(WriteTag(w, 1, wireType), VarInt(|url|)), url).buffer|, acc.(typeUrl := url))
  {
    var wt := WriteTag(w, 1, wireType);
    var wl := Append(wt, VarInt(|url|));
    var wu := Append(wl, url);
    assert Yields(ReadTag(bytes, |w.buffer|), Some(Tag(1, wireType)), |wt.buffer|) by {
      assert wt.buffer <= bytes;
      TagRoundTrip(w, 1, wireType, bytes);
    }
    assert Yields(ReadString(bytes, |wt.buffer|), url, |wu.buffer|) by {
      LengthThenBytes(wt, url, bytes);
    }
    TypeUrlStep(bytes, |w.buffer|, acc, wireType, |wt.buffer|, url, |wu.buffer|);
  }
}
