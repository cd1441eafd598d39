/** The older `protokit-codegen` template `KotlinGenerator`: data classes
    whose `encode`/`decode` call the runtime's `ProtoWriter`/`ProtoReader`
    for `string`, `int32` and `bool` fields only — any other field type
    stops generation with "Unsupported proto type" — and the same
    `<Service>Client` template as the plugin. */
module CodegenGenerator {
  import opened Wrappers
  import opened KotlinInt
  import opened Naming
  import opened TypeRegistry
  import opened RuntimeCodec
  import opened RuntimeReader
  import W = SdkWriter
  import PluginGenerator

  // ---------------------------------------------------------------------
  // The parsed schema
  // ---------------------------------------------------------------------

  datatype ProtoField = ProtoField(fieldType: string, name: string, index: Int)

  datatype ProtoMessage = ProtoMessage(name: string, fields: seq<ProtoField>)

  datatype ProtoRpc = ProtoRpc(name: string, requestType: string, responseType: string)

  datatype ProtoService = ProtoService(name: string, rpcs: seq<ProtoRpc>)

  datatype ProtoFile = ProtoFile(pkg: string, messages: seq<ProtoMessage>, services: seq<ProtoService>)

  // ---------------------------------------------------------------------
  // Field types
  // ---------------------------------------------------------------------

  /** The three field types the template handles. */
  datatype Basic = StringB | Int32B | BoolB

  function BasicName(b: Basic): string {
    match b
    case StringB => "string"
    case Int32B => "int32"
    case BoolB => "bool"
  }

  /** Which handled type a type name is, if any. */
  function BasicOf(t: string): (r: Option<Basic>)
    ensures r.Some? ==> BasicName(r.value) == t
    ensures r.None? ==> forall b: Basic :: BasicName(b) != t
  {
    if t == "string" then Some(StringB)
    else if t == "int32" then Some(Int32B)
    else if t == "bool" then Some(BoolB)
    else None
  }

  predicate Supported(f: ProtoField) {
    BasicOf(f.fieldType).Some?
  }

  /** The Kotlin class the runtime's `write<Kind>` takes and
      `read<Kind>` returns. */
  function KotlinName(b: Basic): string {
    match b
    case StringB => "String"
    case Int32B => "Int"
    case BoolB => "Boolean"
  }

  /** `mapType(type)`: a handled type's Kotlin class, any other name as
      it is. */
  function MapType(t: string): (r: string)
    ensures BasicOf(t).Some? ==> r == KotlinName(BasicOf(t).value)
    ensures BasicOf(t).None? ==> r == t
  {
    if t == "string" then "String" else if t == "int32" then "Int" else if t == "bool" then "Boolean" else t
  }

  datatype GenError = Unsupported(fieldType: string)

  // ---------------------------------------------------------------------
  // Messages
  // ---------------------------------------------------------------------

  /** `write<Kind>(index, name)` in `encode`. */
  datatype WriteCall = WriteCall(kind: Basic, index: Int, value: string)

  /** `reader.read<Kind>(index)` in `decode`. */
  datatype ReadCall = ReadCall(kind: Basic, index: Int)

  /** `protoWriteLine(f)`. */
  function WriteLine(f: ProtoField): (r: Result<WriteCall, GenError>)
    ensures r.Success? <==> Supported(f)
    ensures r.Failure? ==> r.error == Unsupported(f.fieldType)
    ensures r.Success? ==> BasicName(r.value.kind) == f.fieldType && r.value.index == f.index && r.value.value == f.name
  {
    match BasicOf(f.fieldType)
    case Some(b) => Success(WriteCall(b, f.index, f.name))
    case None => Failure(Unsupported(f.fieldType))
  }

  /** `protoReadLine(f)`. */
  function ReadLine(f: ProtoField): (r: Result<ReadCall, GenError>)
    ensures r.Success? <==> Supported(f)
    ensures r.Failure? ==> r.error == Unsupported(f.fieldType)
    ensures r.Success? ==> BasicName(r.value.kind) == f.fieldType && r.value.index == f.index
  {
    match BasicOf(f.fieldType)
    case Some(b) => Success(ReadCall(b, f.index))
    case None => Failure(Unsupported(f.fieldType))
  }

  /** The first field the template cannot handle, if any. */
  predicate FirstUnsupported(fs: seq<ProtoField>, i: int) {
    0 <= i < |fs| && !Supported(fs[i]) && forall j :: 0 <= j < i ==> Supported(fs[j])
  }

  /** The body of `encode`: one write per field, in order; the first
      unhandled field type is the error. */
  function EncodeLines(fs: seq<ProtoField>): (r: Result<seq<WriteCall>, GenError>)
    ensures r.Success? <==> forall i :: 0 <= i < |fs| ==> Supported(fs[i])
    ensures r.Failure? ==> exists i :: FirstUnsupported(fs, i) && r.error == Unsupported(fs[i].fieldType)
    ensures r.Success? ==> |r.value| == |fs| && forall i :: 0 <= i < |fs| ==> WriteLine(fs[i]) == Success(r.value[i])
    decreases |fs|
  {
    if |fs| == 0 then Success([])
    else
      var w :- WriteLine(fs[0]);
      var rest := EncodeLines(fs[1..]);
      assert forall j :: 1 <= j < |fs| ==> fs[1..][j - 1] == fs[j];
      if rest.Failure? then
        var i :| FirstUnsupported(fs[1..], i) && rest.error == Unsupported(fs[1..][i].fieldType);
        assert FirstUnsupported(fs, i + 1);
        Failure(rest.error)
      else Success([w] + rest.value)
  }

  /** The arguments of the constructor call in `decode`: one read per
      field, in order. */
  function DecodeLines(fs: seq<ProtoField>): (r: Result<seq<(string, ReadCall)>, GenError>)
    ensures r.Success? <==> forall i :: 0 <= i < |fs| ==> Supported(fs[i])
    ensures r.Success? ==> |r.value| == |fs|
    ensures r.Success? ==> forall i :: 0 <= i < |fs| ==> r.value[i].0 == fs[i].name && ReadLine(fs[i]) == Success(r.value[i].1)
    decreases |fs|
  {
    if |fs| == 0 then Success([])
    else
      var c :- ReadLine(fs[0]);
      var rest :- DecodeLines(fs[1..]);
      assert forall j :: 1 <= j < |fs| ==> fs[1..][j - 1] == fs[j];
      Success([(fs[0].name, c)] + rest)
  }

  /** What the message template emits. */
  datatype MessageCode = MessageCode(pkg: string, name: string, props: seq<(string, string)>,
                                     writes: seq<WriteCall>, decoded: seq<(string, ReadCall)>)

  /** `generateMessage(pkg, msg)`: the properties, then `encode` — whose
      first unhandled field stops generation — then `decode`. */
  function GenerateMessage(pkg: string, msg: ProtoMessage): (r: Result<MessageCode, GenError>)
    ensures r.Success? <==> forall i :: 0 <= i < |msg.fields| ==> Supported(msg.fields[i])
    ensures r.Failure? ==> exists i :: FirstUnsupported(msg.fields, i) && r.error == Unsupported(msg.fields[i].fieldType)
    ensures r.Success? ==> r.value.name == msg.name
                           && |r.value.props| == |r.value.writes| == |r.value.decoded| == |msg.fields|
  {
    var fs := msg.fields;
    var ws :- EncodeLines(fs);
    Success(MessageCode(pkg, msg.name, seq(|fs|, i requires 0 <= i < |fs| => (fs[i].name, MapType(fs[i].fieldType))),
                        ws, DecodeLines(fs).value))
  }

  /** In generated code, field `i` is written and read under its own
      number with the same kind, the read is passed to the property of
      the same name, and the property's class is the class that read
      returns. */
  lemma EncoderMatchesDecoder(pkg: string, msg: ProtoMessage, code: MessageCode, i: nat)
    requires GenerateMessage(pkg, msg) == Success(code) && i < |msg.fields|
    ensures code.writes[i].index == code.decoded[i].1.index == msg.fields[i].index
    ensures code.writes[i].kind == code.decoded[i].1.kind
    ensures code.decoded[i].0 == code.props[i].0 == code.writes[i].value == msg.fields[i].name
    ensures code.props[i].1 == KotlinName(code.decoded[i].1.kind)
  {
  }

  // ---------------------------------------------------------------------
  // The round trip through the runtime
  // ---------------------------------------------------------------------

  /** A property value of a generated message: an `Int`, a `Boolean`, or
      a `String` as its UTF-8 bytes. */
  datatype Value = IntValue(v: Int) | BoolValue(b: bool) | StringValue(utf8: ByteArray)

  predicate HasKind(v: Value, k: Basic) {
    match k
    case Int32B => v.IntValue?
    case BoolB => v.BoolValue?
    case StringB => v.StringValue?
  }

  /** The runtime writer call one `write<Kind>` line makes. */
  function Written(w: WriteCall, v: Value): (f: Field)
    requires HasKind(v, w.kind)
    ensures f.number == w.index
    ensures f.StringField? <==> w.kind == StringB
  {
    match w.kind
    case Int32B => Int32Field(w.index, v.v)
    case BoolB => BoolField(w.index, v.b)
    case StringB => StringField(w.index, v.utf8)
  }

  /** The fields `encode` writes for an instance with these values. */
  function EncodedFields(ws: seq<WriteCall>, vs: seq<Value>): (fs: seq<Field>)
    requires |ws| == |vs| && forall i :: 0 <= i < |ws| ==> HasKind(vs[i], ws[i].kind)
    ensures |fs| == |ws|
    ensures forall i :: 0 <= i < |ws| ==> fs[i] == Written(ws[i], vs[i])
  {
    seq(|ws|, i requires 0 <= i < |ws| => Written(ws[i], vs[i]))
  }

  /** What one `reader.read<Kind>(index)` returns. */
  function ReadValue(bytes: ByteArray, c: ReadCall, fuel: nat, variant: Variant): Result<Value, ReadError> {
    match c.kind
    case Int32B =>
      var v :- ReadInt32(bytes, c.index, fuel, variant);
      Success(IntValue(v))
    case BoolB =>
      var b :- ReadBool(bytes, c.index, fuel, variant);
      Success(BoolValue(b))
    case StringB =>
      var s :- ReadString(bytes, c.index, fuel, variant);
      Success(StringValue(s))
  }

  /** Every field can be reached: its number is recovered from its key
      and it can be stepped over. */
  lemma {:induction false} AllReadable(fs: seq<Field>, tag: Int, variant: Variant)
    requires forall i :: 0 <= i < |fs| ==> NumberFits(fs[i].number, variant) && Skippable(fs[i], variant)
    ensures Readable(fs, tag, variant)
    decreases |fs|
  {
    if |fs| > 0 {
      assert forall i :: 1 <= i < |fs| ==> fs[1..][i - 1] == fs[i];
      AllReadable(fs[1..], tag, variant);
    }
  }

  /** With distinct numbers, looking up a field's number finds that
      field. */
  lemma {:induction false} LookupOwn(fs: seq<Field>, i: nat)
    requires i < |fs| && forall j, k :: 0 <= j < k < |fs| ==> fs[j].number != fs[k].number
    ensures Lookup(fs, fs[i].number).Some? && Lookup(fs, fs[i].number).value.field == fs[i]
    decreases |fs|
  {
    if i > 0 {
      assert fs[0].number != fs[i].number;
      assert forall j :: 1 <= j < |fs| ==> fs[1..][j - 1] == fs[j];
      LookupOwn(fs[1..], i - 1);
    }
  }

  /** The generated `decode` gives back what the generated `encode`
      wrote: with distinct field numbers that the reader can recover, the
      read for property `i` returns the value property `i` had. As
      written the reader cannot step over a string, so there it needs a
      message without string fields. */
  lemma GeneratedRoundTrip(pkg: string, msg: ProtoMessage, code: MessageCode, values: seq<Value>,
                           i: nat, fuel: nat, variant: Variant, bytes: ByteArray)
    requires GenerateMessage(pkg, msg) == Success(code) && i < |msg.fields|
    requires |values| == |msg.fields| && forall j :: 0 <= j < |values| ==> HasKind(values[j], code.writes[j].kind)
    requires forall j, k :: 0 <= j < k < |msg.fields| ==> msg.fields[j].index != msg.fields[k].index
    requires forall j :: 0 <= j < |msg.fields| ==> NumberFits(msg.fields[j].index, variant)
    requires variant == Corrected || forall j :: 0 <= j < |msg.fields| ==> msg.fields[j].fieldType != "string"
    requires fuel >= |msg.fields|
    requires bytes == W.ToByteArray(WriteFields(W.Empty, EncodedFields(code.writes, values)))
    ensures ReadValue(bytes, code.decoded[i].1, fuel, variant) == Success(values[i])
  {
    var fs := EncodedFields(code.writes, values);
    forall j | 0 <= j < |fs| ensures NumberFits(fs[j].number, variant) && Skippable(fs[j], variant) {
      EncoderMatchesDecoder(pkg, msg, code, j);
    }
    forall j, k | 0 <= j < k < |fs| ensures fs[j].number != fs[k].number {
      EncoderMatchesDecoder(pkg, msg, code, j);
      EncoderMatchesDecoder(pkg, msg, code, k);
    }
    EncoderMatchesDecoder(pkg, msg, code, i);
    var tag := code.decoded[i].1.index;
    AllReadable(fs, tag, variant);
    LookupOwn(fs, i);
    match code.decoded[i].1.kind
    case Int32B =>
      ReadInt32Fields(fs, tag, fuel, variant, bytes);
    case BoolB =>
      ReadBoolFields(fs, tag, fuel, variant, bytes);
    case StringB =>
      ReadStringFields(fs, tag, fuel, variant, bytes);
  }

  // ---------------------------------------------------------------------
  // Services and files
  // ---------------------------------------------------------------------

  /** `generateService(pkg, svc)`: the plugin's client template, with the
      same path. */
  function GenerateService(pkg: string, svc: ProtoService, variant: Variant): (c: PluginGenerator.ClientCode)
    ensures c.className == svc.name + "Client" && |c.stubs| == |svc.rpcs|
    ensures forall i :: 0 <= i < |svc.rpcs| ==>
              c.stubs[i].name == LowercaseFirst(svc.rpcs[i].name)
              && c.stubs[i].requestType == svc.rpcs[i].requestType
              && c.stubs[i].responseType == svc.rpcs[i].responseType
              && c.stubs[i].path == PluginGenerator.TemplatePath(pkg, svc.name, svc.rpcs[i].name, variant)
  {
    PluginGenerator.ClientCode(pkg, svc.name + "Client",
      seq(|svc.rpcs|, i requires 0 <= i < |svc.rpcs| =>
            PluginGenerator.Stub(LowercaseFirst(svc.rpcs[i].name), svc.rpcs[i].requestType, svc.rpcs[i].responseType,
                                 PluginGenerator.TemplatePath(pkg, svc.name, svc.rpcs[i].name, variant))))
  }

  datatype FileContent = MessageFile(message: MessageCode) | ClientFile(client: PluginGenerator.ClientCode)

  /** The generated messages, in order; the first message with an
      unhandled field stops generation. */
  function GenerateMessages(pkg: string, ms: seq<ProtoMessage>): (r: Result<seq<MessageCode>, GenError>)
    ensures r.Success? <==> forall i :: 0 <= i < |ms| ==> GenerateMessage(pkg, ms[i]).Success?
    ensures r.Failure? ==> exists i :: 0 <= i < |ms| && GenerateMessage(pkg, ms[i]) == Failure(r.error)
    ensures r.Success? ==> |r.value| == |ms| && forall i :: 0 <= i < |ms| ==> GenerateMessage(pkg, ms[i]) == Success(r.value[i])
    decreases |ms|
  {
    if |ms| == 0 then Success([])
    else
      var c :- GenerateMessage(pkg, ms[0]);
      var rest := GenerateMessages(pkg, ms[1..]);
      assert forall j :: 1 <= j < |ms| ==> ms[1..][j - 1] == ms[j];
      if rest.Failure? then
        var i :| 0 <= i < |ms[1..]| && GenerateMessage(pkg, ms[1..][i]) == Failure(rest.error);
        assert GenerateMessage(pkg, ms[i + 1]) == Failure(rest.error);
        Failure(rest.error)
      else Success([c] + rest.value)
  }

  /** `generate(proto)`: `<Message>.kt` per message and
      `<Service>Client.kt` per service, or the error of a message the
      template cannot handle. */
  function Generate(proto: ProtoFile, variant: Variant): (r: Result<map<string, FileContent>, GenError>)
    ensures r.Success? <==> forall i, j :: 0 <= i < |proto.messages| && 0 <= j < |proto.messages[i].fields| ==>
                                            Supported(proto.messages[i].fields[j])
    ensures r.Success? ==> r.value.Keys == (set m | m in proto.messages :: m.name + ".kt")
                                           + (set s | s in proto.services :: s.name + "Client.kt")
  {
    var codes :- GenerateMessages(proto.pkg, proto.messages);
    var ms := seq(|codes|, i requires 0 <= i < |codes| => (proto.messages[i].name + ".kt", MessageFile(codes[i])));
    var ss := seq(|proto.services|, i requires 0 <= i < |proto.services| =>
                    (proto.services[i].name + "Client.kt", ClientFile(GenerateService(proto.pkg, proto.services[i], variant))));
    AssignKeys(map[], ms + ss);
    GeneratedNames(proto, ms, ss);
    Success(Assign(map[], ms + ss))
  }

  lemma GeneratedNames(proto: ProtoFile, ms: seq<(string, FileContent)>, ss: seq<(string, FileContent)>)
    requires |ms| == |proto.messages| && forall i :: 0 <= i < |ms| ==> ms[i].0 == proto.messages[i].name + ".kt"
    requires |ss| == |proto.services| && forall i :: 0 <= i < |ss| ==> ss[i].0 == proto.services[i].name + "Client.kt"
    ensures KeysOf(ms + ss) == (set m | m in proto.messages :: m.name + ".kt") + (set s | s in proto.services :: s.name + "Client.kt")
  {
    var writes := ms + ss;
    forall k | k in (set m | m in proto.messages :: m.name + ".kt") + (set s | s in proto.services :: s.name + "Client.kt")
      ensures k in KeysOf(writes)
    {
      if m :| m in proto.messages && k == m.name + ".kt" {
        var i :| 0 <= i < |proto.messages| && proto.messages[i] == m;
        assert writes[i].0 == k;
      } else {
        var s :| s in proto.services && k == s.name + "Client.kt";
        var i :| 0 <= i < |proto.services| && proto.services[i] == s;
        assert writes[|ms| + i].0 == k;
      }
    }
    forall k | k in KeysOf(writes)
      ensures k in (set m | m in proto.messages :: m.name + ".kt") + (set s | s in proto.services :: s.name + "Client.kt")
    {
      var i :| 0 <= i < |writes| && writes[i].0 == k;
      if i < |ms| {
        assert proto.messages[i] in proto.messages;
      } else {
        assert proto.services[i - |ms|] in proto.services;
      }
    }
  }
}
