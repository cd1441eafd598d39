/** The plugin's template `KotlinGenerator`: one data class per message
    and one `<Service>Client` per service, from the model its regular
    expression parser builds (`ProtoFile`, `ProtoMessage`, `ProtoField`,
    …). The emitted code is kept as data: property types, encoder lines,
    decoder variables and `when` cases, the `defaultInstance` arguments,
    and the client's stubs. */
module PluginGenerator {
  import opened Wrappers
  import opened Strings
  import opened Naming
  import opened TypeRegistry
  import MessageGen
  import FileGen

  // ---------------------------------------------------------------------
  // The parsed schema
  // ---------------------------------------------------------------------

  /** A field: its label (`repeated`, `optional`, `oneof` or none), its
      type name as written in the schema, its name and its number. */
  datatype ProtoField = ProtoField(fieldLabel: Option<string>, fieldType: string, name: string, index: int,
                                   keyType: Option<string>, valueType: Option<string>, oneofIndex: Option<int>)

  datatype ProtoOneOf = ProtoOneOf(name: string, fields: seq<ProtoField>)

  datatype ProtoEnum = ProtoEnum(name: string, fields: seq<ProtoField>)

  datatype ProtoMessage = ProtoMessage(name: string, fields: seq<ProtoField>, oneofs: seq<ProtoOneOf>, enums: seq<ProtoEnum>)

  datatype ProtoRpc = ProtoRpc(name: string, requestType: string, responseType: string)

  datatype ProtoService = ProtoService(name: string, rpcs: seq<ProtoRpc>)

  /** A schema file; `pkg` is "" when the file has no `package` line. */
  datatype ProtoFile = ProtoFile(pkg: string, javaPackage: Option<string>, outerClassName: Option<string>,
                                 messages: seq<ProtoMessage>, enums: seq<ProtoEnum>, services: seq<ProtoService>)

  predicate IsRepeated(f: ProtoField) {
    f.fieldLabel == Some("repeated")
  }

  // ---------------------------------------------------------------------
  // Types and defaults
  // ---------------------------------------------------------------------

  /** The seven scalar type names the templates know. */
  datatype Scalar = StringS | Int32S | Int64S | BoolS | FloatS | DoubleS | BytesS

  function ScalarName(s: Scalar): string {
    match s
    case StringS => "string"
    case Int32S => "int32"
    case Int64S => "int64"
    case BoolS => "bool"
    case FloatS => "float"
    case DoubleS => "double"
    case BytesS => "bytes"
  }

  /** Which scalar a type name is, if any. */
  function ScalarOf(t: string): (r: Option<Scalar>)
    ensures r.Some? ==> ScalarName(r.value) == t
    ensures r.None? ==> forall s: Scalar :: ScalarName(s) != t
  {
    if t == "string" then Some(StringS)
    else if t == "int32" then Some(Int32S)
    else if t == "int64" then Some(Int64S)
    else if t == "bool" then Some(BoolS)
    else if t == "float" then Some(FloatS)
    else if t == "double" then Some(DoubleS)
    else if t == "bytes" then Some(BytesS)
    else None
  }

  /** The Kotlin class of a scalar. */
  function KotlinName(s: Scalar): string {
    match s
    case StringS => "String"
    case Int32S => "Int"
    case Int64S => "Long"
    case BoolS => "Boolean"
    case FloatS => "Float"
    case DoubleS => "Double"
    case BytesS => "ByteArray"
  }

  /** A property or variable type: a class name, or a `List`/`MutableList`
      of one. */
  datatype KtType = Plain(name: string) | ListType(mutable: bool, element: string)

  /** The element class of `mapType`: a scalar's Kotlin class, any other
      name as it is. */
  function BaseType(t: string): string {
    match ScalarOf(t)
    case Some(s) => KotlinName(s)
    case None => t
  }

  /** `mapType(type, isMutable, isList)`: only a list is ever mutable. */
  function MapType(t: string, mutable: bool, isList: bool): (r: KtType)
    ensures r.ListType? <==> isList
    ensures r.ListType? ==> r.mutable == mutable && r.element == BaseType(t)
    ensures r.Plain? ==> r.name == BaseType(t)
  {
    if isList then ListType(mutable, BaseType(t)) else Plain(BaseType(t))
  }

  /** The read-only form of a type. */
  function Frozen(t: KtType): KtType {
    match t
    case ListType(_, e) => ListType(false, e)
    case Plain(_) => t
  }

  /** An initial value: a zero literal, `<Type>.defaultInstance`,
      `mutableListOf()` or `emptyList()`. */
  datatype Init = ZeroLiteral(text: string) | DefaultInstanceOf(typeName: string) | MutableListOf | EmptyListOf

  function ZeroText(s: Scalar): string {
    match s
    case StringS => "\"\""
    case Int32S => "0"
    case Int64S => "0L"
    case BoolS => "false"
    case FloatS => "0f"
    case DoubleS => "0.0"
    case BytesS => "ByteArray(0)"
  }

  /** `protoDefault(f)`. */
  function ProtoDefault(f: ProtoField): Init {
    match ScalarOf(f.fieldType)
    case Some(s) => ZeroLiteral(ZeroText(s))
    case None => DefaultInstanceOf(f.fieldType)
  }

  /** The class of a literal, as the Kotlin compiler reads it. */
  function LiteralClass(text: string): Option<string> {
    if text == "\"\"" then Some("String")
    else if text == "0" then Some("Int")
    else if text == "0L" then Some("Long")
    else if text == "false" then Some("Boolean")
    else if text == "0f" then Some("Float")
    else if text == "0.0" then Some("Double")
    else if text == "ByteArray(0)" then Some("ByteArray")
    else None
  }

  /** `x: t = init` type-checks. */
  predicate Fits(init: Init, t: KtType) {
    match init
    case ZeroLiteral(text) => t.Plain? && LiteralClass(text) == Some(t.name)
    case DefaultInstanceOf(n) => t == Plain(n)
    case MutableListOf => t.ListType? && t.mutable
    case EmptyListOf => t.ListType? && !t.mutable
  }

  // ---------------------------------------------------------------------
  // Messages
  // ---------------------------------------------------------------------

  /** `protoWriteRepeated(f, value)`: a scalar's own write call, or
      `writeObject(index, value.encode())` for any other type. */
  datatype WriteOp = WriteScalar(kind: Scalar, index: int, value: string) | WriteObject(index: int, value: string)

  function WriteFor(f: ProtoField, value: string): WriteOp {
    match ScalarOf(f.fieldType)
    case Some(s) => WriteScalar(s, f.index, value)
    case None => WriteObject(f.index, value)
  }

  /** An encoder line: one write, or a write of `it` for each element. */
  datatype EncodeLine = WriteOnce(op: WriteOp) | ForEachOf(collection: string, op: WriteOp)

  function EncodeLineFor(f: ProtoField): EncodeLine {
    if IsRepeated(f) then ForEachOf(f.name, WriteFor(f, "it")) else WriteOnce(WriteFor(f, f.name))
  }

  /** `protoReadSingle(type)`: a scalar's own read, or
      `<Type>.decode(reader.readBytes())`. */
  datatype ReadOp = ReadScalar(kind: Scalar) | DecodeBytes(typeName: string)

  function ReadSingle(t: string): ReadOp {
    match ScalarOf(t)
    case Some(s) => ReadScalar(s)
    case None => DecodeBytes(t)
  }

  /** A `when` arm of the decoder: the field number, the variable, whether
      the value is appended (`add`) or assigned, and the read. */
  datatype ReaderCase = ReaderCase(index: int, variable: string, append: bool, read: ReadOp)

  datatype DecoderVar = DecoderVar(name: string, varType: KtType, init: Init)

  /** What the message template emits. */
  datatype MessageCode = MessageCode(pkg: string, name: string, props: seq<(string, KtType)>, encoder: seq<EncodeLine>,
                                     defaults: seq<(string, Init)>, vars: seq<DecoderVar>, cases: seq<ReaderCase>,
                                     ctorArgs: seq<string>)

  /** `generateMessage(pkg, msg)`: every part has one entry per field, in
      declaration order. */
  function GenerateMessage(pkg: string, msg: ProtoMessage): (code: MessageCode)
    ensures code.name == msg.name && code.pkg == pkg
    ensures |code.props| == |code.encoder| == |code.defaults| == |code.vars| == |code.cases| == |code.ctorArgs| == |msg.fields|
  {
    var fs := msg.fields;
    MessageCode(pkg, msg.name,
                seq(|fs|, i requires 0 <= i < |fs| => (fs[i].name, MapType(fs[i].fieldType, false, IsRepeated(fs[i])))),
                seq(|fs|, i requires 0 <= i < |fs| => EncodeLineFor(fs[i])),
                seq(|fs|, i requires 0 <= i < |fs| => (fs[i].name, if IsRepeated(fs[i]) then EmptyListOf else ProtoDefault(fs[i]))),
                seq(|fs|, i requires 0 <= i < |fs| =>
                      DecoderVar(fs[i].name, MapType(fs[i].fieldType, true, IsRepeated(fs[i])),
                                 if IsRepeated(fs[i]) then MutableListOf else ProtoDefault(fs[i]))),
                seq(|fs|, i requires 0 <= i < |fs| => ReaderCase(fs[i].index, fs[i].name, IsRepeated(fs[i]), ReadSingle(fs[i].fieldType))),
                seq(|fs|, i requires 0 <= i < |fs| => fs[i].name))
  }

  /** Every initial value type-checks: each decoder variable against its
      mutable type, each `defaultInstance` argument against its
      property's type. */
  lemma DefaultsFit(pkg: string, msg: ProtoMessage, i: nat)
    requires i < |msg.fields|
    ensures var code := GenerateMessage(pkg, msg);
            Fits(code.vars[i].init, code.vars[i].varType) && Fits(code.defaults[i].1, code.props[i].1)
  {
    var f := msg.fields[i];
    match ScalarOf(f.fieldType)
    case Some(s) =>
      assert LiteralClass(ZeroText(s)) == Some(KotlinName(s)) by {
        match s
        case StringS =>
        case Int32S =>
        case Int64S =>
        case BoolS =>
        case FloatS =>
        case DoubleS =>
        case BytesS =>
      }
    case None =>
  }

  /** The constructor call at the end of `decode` passes each decoder
      variable to the property of the same name, in order, and each
      variable's type is the mutable form of the property's type. */
  lemma ConstructorMatchesVars(pkg: string, msg: ProtoMessage, i: nat)
    requires i < |msg.fields|
    ensures var code := GenerateMessage(pkg, msg);
            code.ctorArgs[i] == code.vars[i].name == code.props[i].0
            && Frozen(code.vars[i].varType) == code.props[i].1
  {
  }

  /** The wire shape of an encoder line and of a read: every scalar its
      own, a nested message length-delimited both ways. */
  function WriteShape(op: WriteOp): MessageGen.Shape {
    match op
    case WriteScalar(s, _, _) => ScalarShape(s)
    case WriteObject(_, _) => MessageGen.Delimited
  }

  function ReadShape(r: ReadOp): MessageGen.Shape {
    match r
    case ReadScalar(s) => ScalarShape(s)
    case DecodeBytes(_) => MessageGen.Delimited
  }

  function ScalarShape(s: Scalar): MessageGen.Shape {
    match s
    case StringS => MessageGen.Delimited
    case BytesS => MessageGen.Delimited
    case FloatS => MessageGen.Fixed32
    case DoubleS => MessageGen.Fixed64
    case _ => MessageGen.Varint
  }

  function LineOp(l: EncodeLine): WriteOp {
    match l
    case WriteOnce(op) => op
    case ForEachOf(_, op) => op
  }

  /** The encoder and the decoder agree field by field: the `when` arm
      for field `i` has the number the encoder writes it under, appends
      exactly when the encoder loops over a list, and reads the shape the
      encoder writes. */
  lemma WireAgreement(pkg: string, msg: ProtoMessage, i: nat)
    requires i < |msg.fields|
    ensures var code := GenerateMessage(pkg, msg);
            var op := LineOp(code.encoder[i]);
            code.cases[i].index == op.index == msg.fields[i].index
            && (code.cases[i].append <==> code.encoder[i].ForEachOf?)
            && WriteShape(op) == ReadShape(code.cases[i].read)
  {
  }

  /** Which `when` arm a tag reaches: Kotlin tries the arms in order, so
      the first one with that number; `None` is the `else -> skip`. */
  function Dispatch(cases: seq<ReaderCase>, tag: int): (r: Option<nat>)
    ensures r.Some? ==> r.value < |cases| && cases[r.value].index == tag
    ensures r.Some? ==> forall j :: 0 <= j < r.value ==> cases[j].index != tag
    ensures r.None? <==> forall j :: 0 <= j < |cases| ==> cases[j].index != tag
    decreases |cases|
  {
    if |cases| == 0 then None
    else if cases[0].index == tag then Some(0)
    else
      var rest := Dispatch(cases[1..], tag);
      assert forall j :: 1 <= j < |cases| ==> cases[1..][j - 1] == cases[j];
      if rest.None? then None else Some(rest.value + 1)
  }

  /** With distinct field numbers, a field's tag reaches that field's own
      arm; a number no field has is skipped. */
  lemma DispatchReachesField(pkg: string, msg: ProtoMessage, i: nat)
    requires forall j, k :: 0 <= j < k < |msg.fields| ==> msg.fields[j].index != msg.fields[k].index
    requires i < |msg.fields|
    ensures Dispatch(GenerateMessage(pkg, msg).cases, msg.fields[i].index) == Some(i)
    ensures GenerateMessage(pkg, msg).cases[i].variable == msg.fields[i].name
  {
    var cases := GenerateMessage(pkg, msg).cases;
    assert cases[i].index == msg.fields[i].index;
    var d := Dispatch(cases, msg.fields[i].index);
    assert cases[d.value].index == msg.fields[d.value].index;
  }

  /** A number no field has reaches no arm and is skipped. */
  lemma DispatchSkipsUnknown(pkg: string, msg: ProtoMessage, tag: int)
    requires forall j :: 0 <= j < |msg.fields| ==> msg.fields[j].index != tag
    ensures Dispatch(GenerateMessage(pkg, msg).cases, tag) == None
  {
    var cases := GenerateMessage(pkg, msg).cases;
    assert forall j :: 0 <= j < |cases| ==> cases[j].index == msg.fields[j].index;
  }

  // ---------------------------------------------------------------------
  // Services
  // ---------------------------------------------------------------------

  /** The path the service template writes: always `/<pkg>.<Service>/<Rpc>`
      as written; `Corrected` leaves out the package and its dot when
      there is no package, as `ProtoKitCodegen` does. Both templates write
      this path. */
  function TemplatePath(pkg: string, service: string, rpc: string, variant: Variant): string {
    if variant == AsWritten then "/" + pkg + "." + service + "/" + rpc else FileGen.UrlPath(pkg, service, rpc)
  }

  /** As written, the path is the gRPC path only when there is a package;
      without one it names the service `.<Service>`, which no server
      serves. */
  lemma TemplatePathAsWritten(pkg: string, service: string, rpc: string)
    requires Free(service, '/') && Free(rpc, '/')
    ensures TemplatePath(pkg, service, rpc, AsWritten) == FileGen.UrlPath(pkg, service, rpc) <==> |pkg| > 0
    ensures |pkg| == 0 ==> SplitOn(TemplatePath(pkg, service, rpc, AsWritten), '/') == ["", "." + service, rpc]
  {
    if |pkg| == 0 {
      var p := TemplatePath(pkg, service, rpc, AsWritten);
      assert p[1] == '.';
      assert FileGen.UrlPath(pkg, service, rpc) == "/" + service + "/" + rpc;
      if |service| > 0 {
        assert FileGen.UrlPath(pkg, service, rpc)[1] == service[0];
      } else {
        assert FileGen.UrlPath(pkg, service, rpc)[1] == '/';
      }
      FileGen.FreeAppend(".", service, '/');
      FileGen.PathNamesService("", "." + service, rpc);
      assert p == FileGen.UrlPath("", "." + service, rpc);
    }
  }

  /** Corrected, the path always splits into the service's full protobuf
      name and the method. */
  lemma TemplatePathCorrected(pkg: string, service: string, rpc: string)
    requires Free(pkg, '/') && Free(service, '/') && Free(rpc, '/')
    ensures SplitOn(TemplatePath(pkg, service, rpc, Corrected), '/') == ["", FileGen.ServiceFullName(pkg, service), rpc]
  {
    FileGen.PathNamesService(pkg, service, rpc);
  }

  /** A client method: `suspend fun <rpc>(request: Req): Response<Res>`
      calling `client.unary(path, request, encoder, decoder)`. */
  datatype Stub = Stub(name: string, requestType: string, responseType: string, path: string)

  datatype ClientCode = ClientCode(pkg: string, className: string, stubs: seq<Stub>)

  /** `generateService(pkg, svc)`: the method name with its first
      character lower-cased, the request and response types as written. */
  function GenerateService(pkg: string, svc: ProtoService, variant: Variant): (c: ClientCode)
    ensures c.className == svc.name + "Client" && |c.stubs| == |svc.rpcs|
    ensures forall i :: 0 <= i < |svc.rpcs| ==>
              c.stubs[i].name == LowercaseFirst(svc.rpcs[i].name)
              && c.stubs[i].path == TemplatePath(pkg, svc.name, svc.rpcs[i].name, variant)
  {
    ClientCode(pkg, svc.name + "Client",
               seq(|svc.rpcs|, i requires 0 <= i < |svc.rpcs| =>
                     Stub(LowercaseFirst(svc.rpcs[i].name), svc.rpcs[i].requestType, svc.rpcs[i].responseType,
                          TemplatePath(pkg, svc.name, svc.rpcs[i].name, variant))))
  }

  // ---------------------------------------------------------------------
  // Files
  // ---------------------------------------------------------------------

  datatype FileContent = MessageFile(message: MessageCode) | ClientFile(client: ClientCode)

  /** The writes into the output map, messages first. */
  function MessageWrites(proto: ProtoFile): seq<(string, FileContent)> {
    seq(|proto.messages|, i requires 0 <= i < |proto.messages| =>
          (proto.messages[i].name + ".kt", MessageFile(GenerateMessage(proto.pkg, proto.messages[i]))))
  }

  function ClientWrites(proto: ProtoFile, variant: Variant): seq<(string, FileContent)> {
    seq(|proto.services|, i requires 0 <= i < |proto.services| =>
          (proto.services[i].name + "Client.kt", ClientFile(GenerateService(proto.pkg, proto.services[i], variant))))
  }

  /** The names of the files: `<Message>.kt` and `<Service>Client.kt`. */
  function OutputNames(proto: ProtoFile): set<string> {
    (set m | m in proto.messages :: m.name + ".kt") + (set s | s in proto.services :: s.name + "Client.kt")
  }

  lemma WrittenNames(proto: ProtoFile, variant: Variant)
    ensures KeysOf(MessageWrites(proto) + ClientWrites(proto, variant)) == OutputNames(proto)
  {
    var ms := MessageWrites(proto);
    var writes := ms + ClientWrites(proto, variant);
    forall k | k in OutputNames(proto) ensures k in KeysOf(writes) {
      if m :| m in proto.messages && k == m.name + ".kt" {
        var i :| 0 <= i < |proto.messages| && proto.messages[i] == m;
        assert writes[i].0 == k;
      } else {
        var s :| s in proto.services && k == s.name + "Client.kt";
        var i :| 0 <= i < |proto.services| && proto.services[i] == s;
        assert writes[|ms| + i].0 == k;
      }
    }
    forall k | k in KeysOf(writes) ensures k in OutputNames(proto) {
      var i :| 0 <= i < |writes| && writes[i].0 == k;
      if i < |ms| {
        assert proto.messages[i] in proto.messages;
      } else {
        assert proto.services[i - |ms|] in proto.services;
      }
    }
  }

  /** `generate(proto)`: `<Message>.kt` per message and
      `<Service>Client.kt` per service — enums and oneofs get no file —
      each holding what was generated for one of them. */
  function Generate(proto: ProtoFile, variant: Variant): (files: map<string, FileContent>)
    ensures files.Keys == OutputNames(proto)
    ensures forall k :: k in files ==> (k, files[k]) in MessageWrites(proto) + ClientWrites(proto, variant)
  {
    var writes := MessageWrites(proto) + ClientWrites(proto, variant);
    AssignKeys(map[], writes);
    WrittenNames(proto, variant);
    forall k | k in Assign(map[], writes) {
      AssignFrom(map[], writes, k);
    }
    Assign(map[], writes)
  }

  /** Writing `a` then `b` is writing `a + b`. */
  lemma {:induction false} AssignAppend<V>(m: map<string, V>, a: seq<(string, V)>, b: seq<(string, V)>)
    ensures Assign(m, a + b) == Assign(Assign(m, a), b)
    decreases |a|
  {
    if |a| > 0 {
      assert (a + b)[0] == a[0] && (a + b)[1..] == a[1..] + b;
      AssignAppend(m[a[0].0 := a[0].1], a[1..], b);
    } else {
      assert a + b == b;
    }
  }

  /** A later entry of the same name replaces an earlier one: a message
      called `<Service>Client` loses its file to the service's client. */
  lemma ClientReplacesMessage(proto: ProtoFile, variant: Variant, mi: nat, si: nat)
    requires mi < |proto.messages| && si < |proto.services|
    requires proto.messages[mi].name + ".kt" == proto.services[si].name + "Client.kt"
    ensures Generate(proto, variant)[proto.messages[mi].name + ".kt"].ClientFile?
  {
    var k := proto.messages[mi].name + ".kt";
    var ms := MessageWrites(proto);
    var ss := ClientWrites(proto, variant);
    AssignAppend(map[], ms, ss);
    assert ss[si].0 == k;
    AssignKeys(Assign(map[], ms), ss);
    AssignFrom(Assign(map[], ms), ss, k);
  }
}
