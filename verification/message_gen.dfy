/** What `ProtoKitCodegen.generateMessage` emits for one top-level
    message, as data: the class with its oneof interfaces and case
    classes, the constructor parameters, the `encode()` statements and the
    companion's `decode(reader)` loop. The Kotlin text KotlinPoet renders
    from it is not modelled; the statements carry exactly the choices the
    generator makes (which write method, which read expression, which
    update, which number). */
module MessageGen {
  import opened Wrappers
  import opened Naming
  import opened Descriptor
  import opened TypeRegistry
  import opened KotlinTypes

  // ---------------------------------------------------------------------
  // Fields by oneof
  // ---------------------------------------------------------------------

  /** `fieldList.filter { it.hasOneofIndex() }.groupBy { it.oneofIndex }[i]`:
      the members of oneof `i`, in declaration order. */
  function Members(fields: seq<FieldDesc>, i: int): (ms: seq<FieldDesc>)
    ensures forall f :: f in ms <==> f in fields && f.oneofIndex == Some(i)
  {
    if |fields| == 0 then []
    else (if fields[0].oneofIndex == Some(i) then [fields[0]] else []) + Members(fields[1..], i)
  }

  /** `fieldList.filter { !it.hasOneofIndex() }`: the regular fields, in
      declaration order. */
  function Regular(fields: seq<FieldDesc>): (rs: seq<FieldDesc>)
    ensures forall f :: f in rs <==> f in fields && f.oneofIndex.None?
  {
    if |fields| == 0 then []
    else (if fields[0].oneofIndex.None? then [fields[0]] else []) + Regular(fields[1..])
  }

  /** Every field is a regular field or a member of the oneof its index
      names — and of no other. */
  lemma FieldsPartitioned(fields: seq<FieldDesc>, f: FieldDesc, i: int)
    requires f in fields
    ensures f.oneofIndex.None? ==> f in Regular(fields) && f !in Members(fields, i)
    ensures f.oneofIndex.Some? ==> f !in Regular(fields) && (f in Members(fields, i) <==> i == f.oneofIndex.value)
  {
  }

  /** The class of a oneof member's case: `<Message>.<Oneof>.<Field>`, the
      last two in Pascal case. */
  function CaseClass(cls: ClassName, oneof: string, field: string): ClassName {
    cls.Nested(ToPascalCase(oneof)).Nested(ToPascalCase(field))
  }

  /** The sealed interface of a oneof: `<Message>.<Oneof>`. */
  function OneofClass(cls: ClassName, oneof: string): ClassName {
    cls.Nested(ToPascalCase(oneof))
  }

  // ---------------------------------------------------------------------
  // encode()
  // ---------------------------------------------------------------------

  /** One write statement of `encode()`, on the value named `target`. */
  datatype WriteCall =
    | WriteEnum(number: int, target: string)
    | WriteObject(number: int, target: string, nullable: bool)
    | WriteScalar(scalar: Scalar, number: int, target: string)
    | WriteEntries(number: int, target: string, key: WriteCall, value: WriteCall)
    | ForEach(target: string, body: WriteCall)

  /** The field number a write statement writes under. */
  function CallNumber(w: WriteCall): int {
    match w
    case ForEach(_, body) => CallNumber(body)
    case WriteEnum(n, _) => n
    case WriteObject(n, _, _) => n
    case WriteScalar(_, n, _) => n
    case WriteEntries(n, _, _, _) => n
  }

  /** The `when (field.type)` of `writeField`: `writeEnum` of the ordinal,
      `writeObject` of the encoded message (behind `?.let` when the
      field's type is nullable), or the scalar method. */
  function WriteElement(reg: Registry, target: string, f: FieldDesc): (r: Result<WriteCall, GenError>)
    ensures r.Success? ==> CallNumber(r.value) == f.number && !r.value.ForEach? && !r.value.WriteEntries?
    ensures r.Success? && r.value.WriteObject? ==> f.kind == MESSAGE
    ensures r.Success? && r.value.WriteObject? && r.value.nullable ==> f.typeName == ANY_TYPE_NAME
  {
    if f.kind == ENUM then Success(WriteEnum(f.number, target))
    else if f.kind == MESSAGE then
      OnlyAnyNullable(reg, f, false);
      var t :- KotlinType(reg, f, false);
      Success(WriteObject(f.number, target, t.Named? && t.nullable))
    else Success(WriteScalar(MethodScalar(f.kind), f.number, target))
  }

  /** `writeField(valueIdentifier, field, isRepeated)`: a map writes each
      entry as an object holding key (field 1's write) and value (field
      2's); a repeated field loops over its elements; all under the
      field's own number. */
  function WriteField(reg: Registry, valueId: string, f: FieldDesc, isRepeated: bool): (r: Result<WriteCall, GenError>)
    ensures r.Success? ==> CallNumber(r.value) == f.number
    ensures r.Success? ==> (r.value.WriteEntries? <==> IsMap(reg, f))
    ensures r.Success? ==> (r.value.ForEach? <==> isRepeated && !IsMap(reg, f))
    ensures r.Success? && r.value.ForEach? ==> r.value.target == valueId && !r.value.body.ForEach?
  {
    if IsMap(reg, f) then
      var entry := reg.messages[f.typeName];
      if |entry.fields| == 0 then Failure(MissingMapEntryField(f.typeName, 0))
      else
        var k :- WriteElement(reg, "pair.first", entry.fields[0]);
        if |entry.fields| == 1 then Failure(MissingMapEntryField(f.typeName, 1))
        else
          var v :- WriteElement(reg, "pair.second", entry.fields[1]);
          Success(WriteEntries(f.number, valueId, k, v))
    else
      var call :- WriteElement(reg, if isRepeated then "value" else valueId, f);
      Success(if isRepeated then ForEach(valueId, call) else call)
  }

  /** An `is <Case> -> { … }` arm of a oneof's `when`. */
  datatype EncodeArm = EncodeArm(caseClass: ClassName, call: WriteCall)

  /** A statement of `encode()`: a oneof's `when`, whose `null -> {}` arm
      writes nothing, or a regular field's write. */
  datatype EncodeStmt = OneofWhen(oneof: string, arms: seq<EncodeArm>) | Write(call: WriteCall)

  /** The arm of one oneof member: its case class, written from
      `oneofValue` (an object case) or `oneofValue.value`. */
  function MemberArm(reg: Registry, cls: ClassName, oneof: string, f: FieldDesc): (r: Result<EncodeArm, GenError>)
    ensures r.Success? ==> r.value.caseClass == CaseClass(cls, oneof, f.name)
    ensures r.Success? ==> CallNumber(r.value.call) == f.number && !r.value.call.ForEach?
  {
    var call :- WriteField(reg, if IsFieldEmpty(reg, f) then "oneofValue" else "oneofValue.value", f, false);
    Success(EncodeArm(CaseClass(cls, oneof, f.name), call))
  }

  /** The arms for the members of one oneof, one per member in order. */
  function EncodeArms(reg: Registry, cls: ClassName, oneof: string, members: seq<FieldDesc>)
    : (r: Result<seq<EncodeArm>, GenError>)
    ensures r.Success? ==> |r.value| == |members|
    ensures r.Success? ==> forall j :: 0 <= j < |members| ==>
              r.value[j].caseClass == CaseClass(cls, oneof, members[j].name)
              && CallNumber(r.value[j].call) == members[j].number && !r.value[j].call.ForEach?
  {
    if |members| == 0 then Success([])
    else
      var arm :- MemberArm(reg, cls, oneof, members[0]);
      var rest :- EncodeArms(reg, cls, oneof, members[1..]);
      Success([arm] + rest)
  }

  /** The oneofs with their members, in declaration order. */
  function Groups(desc: MessageDesc): (gs: seq<(string, seq<FieldDesc>)>)
    ensures |gs| == |desc.oneofs|
    ensures forall i :: 0 <= i < |gs| ==> gs[i] == (desc.oneofs[i], Members(desc.fields, i))
  {
    seq(|desc.oneofs|, i requires 0 <= i < |desc.oneofs| => (desc.oneofs[i], Members(desc.fields, i)))
  }

  /** `s` is the `when` of oneof `oneof`: one arm per member, each under
      the member's number. */
  predicate WhenFor(s: EncodeStmt, oneof: string, members: seq<FieldDesc>) {
    s.OneofWhen? && s.oneof == oneof && |s.arms| == |members|
    && forall a :: 0 <= a < |s.arms| ==> CallNumber(s.arms[a].call) == members[a].number
  }

  /** The `when` statements of the oneofs. */
  function OneofWhens(reg: Registry, cls: ClassName, groups: seq<(string, seq<FieldDesc>)>)
    : (r: Result<seq<EncodeStmt>, GenError>)
    ensures r.Success? ==> |r.value| == |groups|
    ensures r.Success? ==> forall j :: 0 <= j < |groups| ==> WhenFor(r.value[j], groups[j].0, groups[j].1)
  {
    if |groups| == 0 then Success([])
    else
      var arms :- EncodeArms(reg, cls, groups[0].0, groups[0].1);
      var rest :- OneofWhens(reg, cls, groups[1..]);
      Success([OneofWhen(groups[0].0, arms)] + rest)
  }

  /** The writes of the regular fields, each looping exactly when the
      field is repeated and not a map. */
  function RegularWrites(reg: Registry, fs: seq<FieldDesc>): (r: Result<seq<EncodeStmt>, GenError>)
    ensures r.Success? ==> |r.value| == |fs|
    ensures r.Success? ==> forall j :: 0 <= j < |fs| ==>
              r.value[j].Write? && CallNumber(r.value[j].call) == fs[j].number
              && (r.value[j].call.ForEach? <==> fs[j].fieldLabel == REPEATED && !IsMap(reg, fs[j]))
              && (r.value[j].call.WriteEntries? <==> IsMap(reg, fs[j]))
  {
    if |fs| == 0 then Success([])
    else
      var w :- WriteField(reg, fs[0].name, fs[0], fs[0].fieldLabel == REPEATED);
      var rest :- RegularWrites(reg, fs[1..]);
      Success([Write(w)] + rest)
  }

  /** `generateEncodeMethod`: the oneofs' `when`s, then the regular
      fields' writes. */
  function EncodeMethod(reg: Registry, desc: MessageDesc, cls: ClassName): (r: Result<seq<EncodeStmt>, GenError>)
    ensures r.Success? ==> |r.value| == |desc.oneofs| + |Regular(desc.fields)|
  {
    var whens :- OneofWhens(reg, cls, Groups(desc));
    var writes :- RegularWrites(reg, Regular(desc.fields));
    Success(whens + writes)
  }

  /** `stmts` starts with one `when` per oneof, in declaration order,
      with one arm per member under the member's number. */
  predicate WhensFor(stmts: seq<EncodeStmt>, oneofs: seq<string>, fields: seq<FieldDesc>) {
    |oneofs| <= |stmts|
    && forall i :: 0 <= i < |oneofs| ==> WhenFor(stmts[i], oneofs[i], Members(fields, i))
  }

  /** From position `at` on, `stmts` holds one write per field of `fs`, in
      order, under the field's number; a repeated field loops and a map
      writes entries. */
  predicate WritesFor(reg: Registry, stmts: seq<EncodeStmt>, at: nat, fs: seq<FieldDesc>) {
    at + |fs| <= |stmts|
    && forall j :: 0 <= j < |fs| ==>
         stmts[at + j].Write? && CallNumber(stmts[at + j].call) == fs[j].number
         && (stmts[at + j].call.ForEach? <==> fs[j].fieldLabel == REPEATED && !IsMap(reg, fs[j]))
         && (stmts[at + j].call.WriteEntries? <==> IsMap(reg, fs[j]))
  }

  /** The encoder: the oneofs' `when`s, then the regular fields' writes. */
  lemma EncodeMethodShape(reg: Registry, desc: MessageDesc, cls: ClassName, stmts: seq<EncodeStmt>)
    requires EncodeMethod(reg, desc, cls) == Success(stmts)
    ensures |stmts| == |desc.oneofs| + |Regular(desc.fields)|
    ensures WhensFor(stmts, desc.oneofs, desc.fields)
    ensures WritesFor(reg, stmts, |desc.oneofs|, Regular(desc.fields))
  {
    var whens := OneofWhens(reg, cls, Groups(desc)).value;
    var writes := RegularWrites(reg, Regular(desc.fields)).value;
    WhensPrefix(reg, cls, desc, whens, writes, stmts);
    WritesSuffix(reg, Regular(desc.fields), whens, writes, stmts);
  }

  lemma WhensPrefix(reg: Registry, cls: ClassName, desc: MessageDesc, whens: seq<EncodeStmt>, writes: seq<EncodeStmt>,
                    stmts: seq<EncodeStmt>)
    requires OneofWhens(reg, cls, Groups(desc)) == Success(whens) && stmts == whens + writes
    ensures |whens| == |desc.oneofs|
    ensures WhensFor(stmts, desc.oneofs, desc.fields)
  {
    var gs := Groups(desc);
    forall i | 0 <= i < |desc.oneofs|
      ensures WhenFor(stmts[i], desc.oneofs[i], Members(desc.fields, i))
    {
      assert stmts[i] == whens[i] && gs[i] == (desc.oneofs[i], Members(desc.fields, i));
    }
  }

  lemma WritesSuffix(reg: Registry, rs: seq<FieldDesc>, whens: seq<EncodeStmt>, writes: seq<EncodeStmt>,
                     stmts: seq<EncodeStmt>)
    requires RegularWrites(reg, rs) == Success(writes) && stmts == whens + writes
    ensures WritesFor(reg, stmts, |whens|, rs)
  {
    forall j | 0 <= j < |rs|
      ensures stmts[|whens| + j] == writes[j]
    {
    }
  }

  /** The writes one statement performs when the oneofs hold the case
      classes `set` names: a oneof's `when` runs the first arm whose case
      matches, or none (`null -> {}`); a field write always runs. */
  function Executed(s: EncodeStmt, chosen: Option<ClassName>): seq<WriteCall> {
    match s
    case Write(call) => [call]
    case OneofWhen(_, arms) => FirstArm(arms, chosen)
  }

  function FirstArm(arms: seq<EncodeArm>, chosen: Option<ClassName>): (ws: seq<WriteCall>)
    ensures |ws| <= 1
    ensures chosen.None? ==> ws == []
    ensures |ws| == 1 ==> exists a :: 0 <= a < |arms| && arms[a].call == ws[0] && Some(arms[a].caseClass) == chosen
  {
    if |arms| == 0 || chosen.None? then []
    else if Some(arms[0].caseClass) == chosen then [arms[0].call]
    else FirstArm(arms[1..], chosen)
  }

  /** A oneof writes at most one of its members — the one it holds — and
      nothing when it is null. */
  lemma OneofWritesOne(oneof: string, arms: seq<EncodeArm>, chosen: Option<ClassName>)
    ensures |Executed(OneofWhen(oneof, arms), chosen)| <= 1
    ensures chosen.None? ==> Executed(OneofWhen(oneof, arms), chosen) == []
    ensures forall a :: 0 <= a < |arms| && Some(arms[a].caseClass) == chosen
              && (forall b :: 0 <= b < a ==> arms[b].caseClass != arms[a].caseClass)
              ==> Executed(OneofWhen(oneof, arms), chosen) == [arms[a].call]
  {
    forall a | 0 <= a < |arms| && Some(arms[a].caseClass) == chosen
               && (forall b :: 0 <= b < a ==> arms[b].caseClass != arms[a].caseClass)
      ensures FirstArm(arms, chosen) == [arms[a].call]
    {
      FirstArmAt(arms, chosen, a);
    }
  }

  lemma {:induction false} FirstArmAt(arms: seq<EncodeArm>, chosen: Option<ClassName>, a: nat)
    requires a < |arms| && Some(arms[a].caseClass) == chosen
    requires forall b :: 0 <= b < a ==> arms[b].caseClass != arms[a].caseClass
    ensures FirstArm(arms, chosen) == [arms[a].call]
    decreases a
  {
    if a > 0 {
      FirstArmAt(arms[1..], chosen, a - 1);
    }
  }

  // ---------------------------------------------------------------------
  // decode(reader)
  // ---------------------------------------------------------------------

  /** `var <name>: <type> = <init>`. */
  datatype VarDecl = VarDecl(name: string, varType: KType, init: DefaultValue)

  /** A read expression of the decode loop. `DecodeMessage` is
      `<T>.decode(reader)` on the enclosing reader; `DecodeObject`,
      `<T>.decode(reader.readObject())`, reads one length-delimited
      message and is what the `Corrected` variant emits. A map entry is
      read into `key` and `value`, started at their defaults, by tag 1 and
      2. */
  datatype ReadExpr =
    | ReadScalar(scalar: Scalar)
    | DecodeMessage(cls: ClassName)
    | DecodeObject(cls: ClassName)
    | EnumByOrdinal(cls: ClassName)
    | ReadEntry(keyVar: VarDecl, valueVar: VarDecl, key: ReadExpr, value: ReadExpr)

  /** How an arm stores what it read: `x = v`, `x.add(v)`, `x += v`. */
  datatype Update = Replace | Append | PutAll

  /** An arm `<number> -> …` of the decode loop's `when (tag)`. A oneof
      arm sets the oneof's variable to a new case (an object case reads
      nothing). */
  datatype DecodeArm =
    | FieldArm(number: int, variable: string, update: Update, read: ReadExpr)
    | OneofArm(number: int, variable: string, caseClass: ClassName, caseRead: Option<ReadExpr>)

  /** The companion's `decode(reader)`: the variables, the `when` arms
      (any other tag is skipped by its wire type, and the loop ends when
      `readTag` gives null), and the constructor call that returns. */
  datatype DecodeFunction = DecodeFunction(vars: seq<VarDecl>, arms: seq<DecodeArm>, result: ClassName,
                                           args: seq<string>)

  /** The read of a field that is not a map (`readFieldCode` past its map
      branch). */
  function ReadElement(reg: Registry, f: FieldDesc): (r: Result<ReadExpr, GenError>)
    ensures r.Success? ==> !r.value.ReadEntry?
    ensures r.Success? ==> (r.value.DecodeMessage? || r.value.DecodeObject? <==> f.kind == MESSAGE)
    ensures r.Success? && f.kind == MESSAGE ==> (r.value.DecodeMessage? <==> reg.variant == AsWritten)
  {
    if f.kind == MESSAGE then
      var c :- ResolveType(reg, f.typeName, None);
      Success(if reg.variant == AsWritten then DecodeMessage(c) else DecodeObject(c))
    else if f.kind == ENUM then
      var c :- ResolveType(reg, f.typeName, None);
      Success(EnumByOrdinal(c))
    else Success(ReadScalar(MethodScalar(f.kind)))
  }

  /** `readFieldCode(field)`. */
  function ReadFieldCode(reg: Registry, f: FieldDesc): (r: Result<ReadExpr, GenError>)
    ensures r.Success? ==> (r.value.ReadEntry? <==> IsMap(reg, f))
  {
    if IsMap(reg, f) then
      var entry := reg.messages[f.typeName];
      if |entry.fields| < 2 then Failure(MissingMapEntryField(f.typeName, |entry.fields|))
      else
        var kf := entry.fields[0];
        var vf := entry.fields[1];
        var kt :- KotlinType(reg, kf, false);
        var kd :- ProtoDefault(reg, kf);
        var vt :- KotlinType(reg, vf, false);
        var vd :- ProtoDefault(reg, vf);
        var kr :- ReadElement(reg, kf);
        var vr :- ReadElement(reg, vf);
        Success(ReadEntry(VarDecl("key", kt, kd), VarDecl("value", vt, vd), kr, vr))
    else ReadElement(reg, f)
  }

  /** The arm for one field. A oneof member whose type is not a
      field-less message gets its read through `"(%L)".format(read)`,
      which throws as written; `Corrected` keeps the read. */
  function DecodeArmFor(reg: Registry, cls: ClassName, oneofs: seq<string>, f: FieldDesc)
    : (r: Result<DecodeArm, GenError>)
    ensures r.Success? ==> r.value.number == f.number
    ensures r.Success? ==> (r.value.OneofArm? <==> f.oneofIndex.Some?)
    ensures r.Success? && r.value.OneofArm? ==>
              0 <= f.oneofIndex.value < |oneofs|
              && r.value.variable == oneofs[f.oneofIndex.value]
              && r.value.caseClass == CaseClass(cls, oneofs[f.oneofIndex.value], f.name)
              && (r.value.caseRead.None? <==> IsFieldEmpty(reg, f))
    ensures r.Success? && r.value.FieldArm? ==>
              r.value.variable == f.name
              && (r.value.update == PutAll <==> IsMap(reg, f))
              && (r.value.update == Append <==> f.fieldLabel == REPEATED && !IsMap(reg, f))
    ensures f.oneofIndex.Some? && !(0 <= f.oneofIndex.value < |oneofs|) ==>
              r == Failure(OneofOutOfRange(f.name, f.oneofIndex.value))
    ensures reg.variant == AsWritten && r.Success? && r.value.OneofArm? ==> r.value.caseRead.None?
  {
    match f.oneofIndex
    case Some(i) =>
      if !(0 <= i < |oneofs|) then Failure(OneofOutOfRange(f.name, i))
      else if IsFieldEmpty(reg, f) then Success(OneofArm(f.number, oneofs[i], CaseClass(cls, oneofs[i], f.name), None))
      else
        var read :- ReadFieldCode(reg, f);
        if reg.variant == AsWritten then Failure(FormatConversion(f.name))
        else Success(OneofArm(f.number, oneofs[i], CaseClass(cls, oneofs[i], f.name), Some(read)))
    case None =>
      var update := if IsMap(reg, f) then PutAll else if f.fieldLabel == REPEATED then Append else Replace;
      var read :- ReadFieldCode(reg, f);
      Success(FieldArm(f.number, f.name, update, read))
  }

  /** One arm per field, in declaration order. */
  function DecodeArms(reg: Registry, cls: ClassName, oneofs: seq<string>, fields: seq<FieldDesc>)
    : (r: Result<seq<DecodeArm>, GenError>)
    ensures r.Success? ==> |r.value| == |fields|
    ensures r.Success? ==> forall j :: 0 <= j < |fields| ==> DecodeArmFor(reg, cls, oneofs, fields[j]) == Success(r.value[j])
  {
    if |fields| == 0 then Success([])
    else
      var arm :- DecodeArmFor(reg, cls, oneofs, fields[0]);
      var rest :- DecodeArms(reg, cls, oneofs, fields[1..]);
      Success([arm] + rest)
  }
  /** As written, the arm of a oneof member whose type is not a
      field-less message fails once its read is built. */
  lemma OneofArmAsWritten(reg: Registry, cls: ClassName, oneofs: seq<string>, f: FieldDesc)
    requires reg.variant == AsWritten && f.oneofIndex.Some? && 0 <= f.oneofIndex.value < |oneofs|
    requires !IsFieldEmpty(reg, f) && ReadFieldCode(reg, f).Success?
    ensures DecodeArmFor(reg, cls, oneofs, f) == Failure(FormatConversion(f.name))
  {
  }

  /** Corrected, that member is assigned its case class built from the
      read. */
  lemma OneofArmCorrected(reg: Registry, cls: ClassName, oneofs: seq<string>, f: FieldDesc)
    requires reg.variant == Corrected && f.oneofIndex.Some? && 0 <= f.oneofIndex.value < |oneofs|
    requires !IsFieldEmpty(reg, f) && ReadFieldCode(reg, f).Success?
    ensures var i := f.oneofIndex.value;
            DecodeArmFor(reg, cls, oneofs, f)
            == Success(OneofArm(f.number, oneofs[i], CaseClass(cls, oneofs[i], f.name), Some(ReadFieldCode(reg, f).value)))
  {
  }

  /** As written, the decoder is generated only for messages whose oneof
      members are all of field-less message types: a member of any other
      type (an `int32`, say) makes generation fail. */
  lemma OneofMembersEmptyAsWritten(reg: Registry, desc: MessageDesc, cls: ClassName)
    requires reg.variant == AsWritten && DecodeCompanion(reg, desc, cls).Success?
    ensures forall f :: f in desc.fields && f.oneofIndex.Some? ==> IsFieldEmpty(reg, f)
  {
    var arms := DecodeArms(reg, cls, desc.oneofs, desc.fields).value;
    forall f | f in desc.fields && f.oneofIndex.Some?
      ensures IsFieldEmpty(reg, f)
    {
      var j :| 0 <= j < |desc.fields| && desc.fields[j] == f;
      assert DecodeArmFor(reg, cls, desc.oneofs, f) == Success(arms[j]);
    }
  }



  /** The variables of the regular fields, typed mutably and started at
      `protoDefault`. */
  function RegularVars(reg: Registry, fs: seq<FieldDesc>): (r: Result<seq<VarDecl>, GenError>)
    ensures r.Success? ==> |r.value| == |fs|
    ensures r.Success? ==> forall j :: 0 <= j < |fs| ==>
              r.value[j].name == fs[j].name
              && KotlinType(reg, fs[j], true) == Success(r.value[j].varType)
              && ProtoDefault(reg, fs[j]) == Success(r.value[j].init)
  {
    if |fs| == 0 then Success([])
    else
      var t :- KotlinType(reg, fs[0], true);
      var d :- ProtoDefault(reg, fs[0]);
      var rest :- RegularVars(reg, fs[1..]);
      Success([VarDecl(fs[0].name, t, d)] + rest)
  }

  /** `var <oneof>: <Message>.<Oneof>? = null`, one per oneof. */
  function OneofVars(cls: ClassName, oneofs: seq<string>): seq<VarDecl> {
    seq(|oneofs|, i requires 0 <= i < |oneofs| => VarDecl(oneofs[i], Named(OneofClass(cls, oneofs[i]), true), NullValue))
  }

  function Names(fs: seq<FieldDesc>): (ns: seq<string>)
    ensures |ns| == |fs| && forall j :: 0 <= j < |fs| ==> ns[j] == fs[j].name
  {
    seq(|fs|, j requires 0 <= j < |fs| => fs[j].name)
  }

  /** `generateDecodeCompanion`. */
  function DecodeCompanion(reg: Registry, desc: MessageDesc, cls: ClassName): (r: Result<DecodeFunction, GenError>)
    ensures r.Success? ==> r.value.result == cls && |r.value.arms| == |desc.fields|
    ensures r.Success? ==> r.value.args == desc.oneofs + Names(Regular(desc.fields))
  {
    var vars :- RegularVars(reg, Regular(desc.fields));
    var arms :- DecodeArms(reg, cls, desc.oneofs, desc.fields);
    Success(DecodeFunction(vars + OneofVars(cls, desc.oneofs), arms, cls, desc.oneofs + Names(Regular(desc.fields))))
  }

  // ---------------------------------------------------------------------
  // The message class
  // ---------------------------------------------------------------------

  /** A oneof case: an `object` for a field-less message type, else a
      `data class` holding `value`. */
  datatype CaseDecl = CaseObject(cls: ClassName) | CaseData(cls: ClassName, valueType: KType)

  datatype OneofDecl = OneofDecl(cls: ClassName, cases: seq<CaseDecl>)

  datatype Param = Param(name: string, paramType: KType)

  /** The generated class: `data` when it has fields or oneofs. */
  datatype MessageClass = MessageClass(cls: ClassName, isData: bool, oneofs: seq<OneofDecl>, params: seq<Param>,
                                       encode: seq<EncodeStmt>, decode: DecodeFunction)

  /** The case class of one oneof member; its type is resolved first,
      even for an object case. */
  function MemberCase(reg: Registry, cls: ClassName, oneof: string, f: FieldDesc): (r: Result<CaseDecl, GenError>)
    ensures r.Success? ==> r.value.cls == CaseClass(cls, oneof, f.name)
    ensures r.Success? ==> (r.value.CaseObject? <==> IsFieldEmpty(reg, f))
    ensures r.Success? ==> KotlinType(reg, f, false).Success?
  {
    var t :- KotlinType(reg, f, false);
    var c := CaseClass(cls, oneof, f.name);
    Success(if IsFieldEmpty(reg, f) then CaseObject(c) else CaseData(c, t))
  }

  /** The case classes of one oneof, one per member in order: each
      member's own case class, an `object` exactly when the member's
      message type has no fields. */
  function OneofCases(reg: Registry, cls: ClassName, oneof: string, members: seq<FieldDesc>)
    : (r: Result<seq<CaseDecl>, GenError>)
    ensures r.Success? ==> |r.value| == |members|
    ensures r.Success? ==> forall j :: 0 <= j < |members| ==>
              r.value[j].cls == CaseClass(cls, oneof, members[j].name)
              && (r.value[j].CaseObject? <==> IsFieldEmpty(reg, members[j]))
  {
    if |members| == 0 then Success([])
    else
      var c :- MemberCase(reg, cls, oneof, members[0]);
      var rest :- OneofCases(reg, cls, oneof, members[1..]);
      Success([c] + rest)
  }

  function OneofDecls(reg: Registry, cls: ClassName, groups: seq<(string, seq<FieldDesc>)>)
    : (r: Result<seq<OneofDecl>, GenError>)
    ensures r.Success? ==> |r.value| == |groups|
    ensures r.Success? ==> forall j :: 0 <= j < |groups| ==>
              r.value[j].cls == OneofClass(cls, groups[j].0) && |r.value[j].cases| == |groups[j].1|
  {
    if |groups| == 0 then Success([])
    else
      var cases :- OneofCases(reg, cls, groups[0].0, groups[0].1);
      var rest :- OneofDecls(reg, cls, groups[1..]);
      Success([OneofDecl(OneofClass(cls, groups[0].0), cases)] + rest)
  }

  /** The constructor parameters of the regular fields, typed read-only. */
  function RegularParams(reg: Registry, fs: seq<FieldDesc>): (r: Result<seq<Param>, GenError>)
    ensures r.Success? ==> |r.value| == |fs|
    ensures r.Success? ==> forall j :: 0 <= j < |fs| ==>
              r.value[j].name == fs[j].name && KotlinType(reg, fs[j], false) == Success(r.value[j].paramType)
  {
    if |fs| == 0 then Success([])
    else
      var t :- KotlinType(reg, fs[0], false);
      var rest :- RegularParams(reg, fs[1..]);
      Success([Param(fs[0].name, t)] + rest)
  }

  function OneofParams(cls: ClassName, oneofs: seq<string>): seq<Param> {
    seq(|oneofs|, i requires 0 <= i < |oneofs| => Param(oneofs[i], Named(OneofClass(cls, oneofs[i]), true)))
  }

  /** `generateMessage(descriptor, pkg)`. */
  function GenerateMessage(reg: Registry, desc: MessageDesc, pkg: string): (r: Result<MessageClass, GenError>)
    ensures r.Success? ==> ResolveType(reg, desc.name, Some(pkg)) == Success(r.value.cls)
    ensures r.Success? ==> |r.value.oneofs| == |desc.oneofs| && |r.value.encode| == |desc.oneofs| + |Regular(desc.fields)|
    ensures r.Success? ==> |r.value.decode.arms| == |desc.fields|
  {
    var cls :- ResolveType(reg, desc.name, Some(pkg));
    var oneofDecls :- OneofDecls(reg, cls, Groups(desc));
    var regular :- RegularParams(reg, Regular(desc.fields));
    var encode :- EncodeMethod(reg, desc, cls);
    var decode :- DecodeCompanion(reg, desc, cls);
    Success(MessageClass(cls, |desc.fields| > 0 || |desc.oneofs| > 0, oneofDecls, OneofParams(cls, desc.oneofs) + regular,
                         encode, decode))
  }
  /** As written, `generateMessage` succeeds only for messages whose
      oneof members are all of field-less message types. */
  lemma GeneratedOneofsEmptyAsWritten(reg: Registry, desc: MessageDesc, pkg: string)
    requires reg.variant == AsWritten && GenerateMessage(reg, desc, pkg).Success?
    ensures forall f :: f in desc.fields && f.oneofIndex.Some? ==> IsFieldEmpty(reg, f)
  {
    OneofMembersEmptyAsWritten(reg, desc, ResolveType(reg, desc.name, Some(pkg)).value);
  }



  /** The decoder's closing `return <Message>(…)` lines up with the
      primary constructor `params`: the same names in the same order; the
      last `no` variables (the oneofs, which lead the parameters) are
      typed exactly as their parameters and start at null; each other
      variable is the mutable form of its parameter's type. */
  predicate LinesUp(params: seq<Param>, vars: seq<VarDecl>, args: seq<string>, no: nat) {
    |params| == |args| == |vars| && no <= |params|
    && (forall p :: 0 <= p < |params| ==> params[p].name == args[p])
    && (forall i :: 0 <= i < no ==>
          vars[|vars| - no + i] == VarDecl(params[i].name, params[i].paramType, NullValue))
    && (forall j :: 0 <= j < |vars| - no ==>
          vars[j].name == params[no + j].name && Frozen(vars[j].varType) == params[no + j].paramType)
  }

  /** The decoder's closing `return <Message>(…)` matches the primary
      constructor (oneofs first, then the regular fields). */
  lemma ConstructorMatchesDecode(reg: Registry, desc: MessageDesc, pkg: string, mc: MessageClass)
    requires GenerateMessage(reg, desc, pkg) == Success(mc)
    ensures |mc.params| == |desc.oneofs| + |Regular(desc.fields)|
    ensures LinesUp(mc.params, mc.decode.vars, mc.decode.args, |desc.oneofs|)
  {
    var regular, vars := MessageParts(reg, desc, pkg, mc);
    PiecesLineUp(reg, Regular(desc.fields), desc.oneofs, mc.cls, regular, vars, mc.params, mc.decode.vars, mc.decode.args);
  }

  /** `LinesUp` for the pieces. */
  lemma PiecesLineUp(reg: Registry, rs: seq<FieldDesc>, oneofs: seq<string>, cls: ClassName,
                     regular: seq<Param>, vars: seq<VarDecl>,
                     params: seq<Param>, dvars: seq<VarDecl>, args: seq<string>)
    requires RegularParams(reg, rs) == Success(regular) && RegularVars(reg, rs) == Success(vars)
    requires params == OneofParams(cls, oneofs) + regular
    requires dvars == vars + OneofVars(cls, oneofs)
    requires args == oneofs + Names(rs)
    ensures |params| == |oneofs| + |rs|
    ensures LinesUp(params, dvars, args, |oneofs|)
  {
    ParamNamesMatch(reg, rs, oneofs, cls, regular, params, args);
    OneofVarsMatch(cls, oneofs, regular, vars, params, dvars);
    VarsFreezeToParams(reg, rs, regular, vars);
    RegularVarsMatch(oneofs, cls, regular, vars, params, dvars);
  }

  lemma ParamNamesMatch(reg: Registry, rs: seq<FieldDesc>, oneofs: seq<string>, cls: ClassName,
                        regular: seq<Param>, params: seq<Param>, args: seq<string>)
    requires RegularParams(reg, rs) == Success(regular)
    requires params == OneofParams(cls, oneofs) + regular
    requires args == oneofs + Names(rs)
    ensures |params| == |args| == |oneofs| + |rs|
    ensures forall p :: 0 <= p < |params| ==> params[p].name == args[p]
  {
    var no := |oneofs|;
    forall p | 0 <= p < |params|
      ensures params[p].name == args[p]
    {
      if p >= no {
        assert params[p] == regular[p - no];
        assert args[p] == Names(rs)[p - no];
      }
    }
  }

  lemma OneofVarsMatch(cls: ClassName, oneofs: seq<string>, regular: seq<Param>, vars: seq<VarDecl>,
                       params: seq<Param>, dvars: seq<VarDecl>)
    requires params == OneofParams(cls, oneofs) + regular
    requires dvars == vars + OneofVars(cls, oneofs)
    ensures forall i :: 0 <= i < |oneofs| ==>
              dvars[|dvars| - |oneofs| + i] == VarDecl(params[i].name, params[i].paramType, NullValue)
  {
    forall i | 0 <= i < |oneofs|
      ensures dvars[|dvars| - |oneofs| + i] == VarDecl(params[i].name, params[i].paramType, NullValue)
    {
      assert dvars[|vars| + i] == OneofVars(cls, oneofs)[i];
      assert params[i] == OneofParams(cls, oneofs)[i];
    }
  }

  lemma RegularVarsMatch(oneofs: seq<string>, cls: ClassName,
                         regular: seq<Param>, vars: seq<VarDecl>, params: seq<Param>, dvars: seq<VarDecl>)
    requires |vars| == |regular|
    requires forall j :: 0 <= j < |vars| ==>
               vars[j].name == regular[j].name && Frozen(vars[j].varType) == regular[j].paramType
    requires params == OneofParams(cls, oneofs) + regular
    requires dvars == vars + OneofVars(cls, oneofs)
    ensures forall j :: 0 <= j < |dvars| - |oneofs| ==>
              dvars[j].name == params[|oneofs| + j].name && Frozen(dvars[j].varType) == params[|oneofs| + j].paramType
  {
    var no := |oneofs|;
    forall j | 0 <= j < |dvars| - no
      ensures dvars[j].name == params[no + j].name
      ensures Frozen(dvars[j].varType) == params[no + j].paramType
    {
      assert params[no + j] == regular[j] && dvars[j] == vars[j];
    }
  }

  /** Each regular variable is named as its parameter and typed as the
      mutable form of its parameter's type. */
  lemma VarsFreezeToParams(reg: Registry, rs: seq<FieldDesc>, regular: seq<Param>, vars: seq<VarDecl>)
    requires RegularParams(reg, rs) == Success(regular) && RegularVars(reg, rs) == Success(vars)
    ensures |vars| == |regular| == |rs|
    ensures forall j :: 0 <= j < |vars| ==>
              vars[j].name == regular[j].name && Frozen(vars[j].varType) == regular[j].paramType
  {
    forall j | 0 <= j < |vars|
      ensures vars[j].name == regular[j].name && Frozen(vars[j].varType) == regular[j].paramType
    {
      FrozenParam(reg, rs[j], vars[j].varType, regular[j].paramType);
    }
  }

  lemma FrozenParam(reg: Registry, f: FieldDesc, mutableType: KType, paramType: KType)
    requires KotlinType(reg, f, true) == Success(mutableType) && KotlinType(reg, f, false) == Success(paramType)
    ensures Frozen(mutableType) == paramType
  {
    MutableMatchesFrozen(reg, f);
  }

  /** The pieces a generated message is assembled from. */
  lemma MessageParts(reg: Registry, desc: MessageDesc, pkg: string, mc: MessageClass)
    returns (regular: seq<Param>, vars: seq<VarDecl>)
    requires GenerateMessage(reg, desc, pkg) == Success(mc)
    ensures RegularParams(reg, Regular(desc.fields)) == Success(regular)
            && RegularVars(reg, Regular(desc.fields)) == Success(vars)
            && mc.params == OneofParams(mc.cls, desc.oneofs) + regular
            && mc.decode.vars == vars + OneofVars(mc.cls, desc.oneofs)
            && mc.decode.args == desc.oneofs + Names(Regular(desc.fields))
  {
    var cls := ResolveType(reg, desc.name, Some(pkg)).value;
    regular := RegularParams(reg, Regular(desc.fields)).value;
    var decls := OneofDecls(reg, cls, Groups(desc)).value;
    var encode := EncodeMethod(reg, desc, cls).value;
    var decode := DecodeCompanion(reg, desc, cls).value;
    assert mc == MessageClass(cls, |desc.fields| > 0 || |desc.oneofs| > 0, decls, OneofParams(cls, desc.oneofs) + regular,
                              encode, decode);
    vars := DecodeParts(reg, desc, cls, decode);
  }

  /** The variables and constructor arguments of the decoder. */
  lemma DecodeParts(reg: Registry, desc: MessageDesc, cls: ClassName, d: DecodeFunction) returns (vars: seq<VarDecl>)
    requires DecodeCompanion(reg, desc, cls) == Success(d)
    ensures RegularVars(reg, Regular(desc.fields)) == Success(vars)
            && d.vars == vars + OneofVars(cls, desc.oneofs)
            && d.args == desc.oneofs + Names(Regular(desc.fields))
  {
    vars := RegularVars(reg, Regular(desc.fields)).value;
  }

  // ---------------------------------------------------------------------
  // What the writes put on the wire and what the reads take off it
  // ---------------------------------------------------------------------

  /** The extent of one value on the wire: by the wire type it is tagged
      with, or — for `DecodeMessage` — everything left in the reader. */
  datatype Shape = Varint | Fixed64 | Fixed32 | Delimited | RestOfInput

  /** The wire type the sdk's `write<Suffix>` tags a value with. */
  function ScalarShape(s: Scalar): Shape {
    match s
    case DoubleScalar => Fixed64
    case FloatScalar => Fixed32
    case Int64Scalar | Int32Scalar | BoolScalar => Varint
    case StringScalar | BytesScalar => Delimited
  }

  function WriteShape(w: WriteCall): Shape {
    match w
    case ForEach(_, body) => WriteShape(body)
    case WriteEnum(_, _) => Varint
    case WriteObject(_, _, _) => Delimited
    case WriteScalar(s, _, _) => ScalarShape(s)
    case WriteEntries(_, _, _, _) => Delimited
  }

  function ReadShape(e: ReadExpr): Shape {
    match e
    case ReadScalar(s) => ScalarShape(s)
    case DecodeMessage(_) => RestOfInput
    case DecodeObject(_) => Delimited
    case EnumByOrdinal(_) => Varint
    case ReadEntry(_, _, _, _) => Delimited
  }

  /** A write and a read agree when the read takes off exactly what the
      write put on, entries included. */
  predicate Agree(w: WriteCall, e: ReadExpr) {
    match w
    case ForEach(_, body) => Agree(body, e)
    case WriteEntries(_, _, k, v) => e.ReadEntry? && Agree(k, e.key) && Agree(v, e.value)
    case _ => WriteShape(w) == ReadShape(e)
  }

  lemma ElementAgree(reg: Registry, f: FieldDesc, target: string)
    requires WriteElement(reg, target, f).Success? && ReadElement(reg, f).Success?
    requires reg.variant == Corrected || f.kind != MESSAGE
    ensures Agree(WriteElement(reg, target, f).value, ReadElement(reg, f).value)
  {
  }

  /** With the corrected read of message fields, what each field's
      encode writes, its decode arm reads back — scalars, enums, messages,
      lists and maps alike. */
  lemma FieldWireAgreement(reg: Registry, f: FieldDesc, valueId: string, isRepeated: bool)
    requires reg.variant == Corrected
    requires WriteField(reg, valueId, f, isRepeated).Success? && ReadFieldCode(reg, f).Success?
    ensures Agree(WriteField(reg, valueId, f, isRepeated).value, ReadFieldCode(reg, f).value)
  {
    if IsMap(reg, f) {
      var entry := reg.messages[f.typeName];
      ElementAgree(reg, entry.fields[0], "pair.first");
      ElementAgree(reg, entry.fields[1], "pair.second");
    } else {
      ElementAgree(reg, f, if isRepeated then "value" else valueId);
    }
  }

  /** As written, a field of any kind but message still agrees. */
  lemma ScalarFieldsAgree(reg: Registry, f: FieldDesc, valueId: string, isRepeated: bool)
    requires f.kind != MESSAGE
    requires WriteField(reg, valueId, f, isRepeated).Success? && ReadFieldCode(reg, f).Success?
    ensures Agree(WriteField(reg, valueId, f, isRepeated).value, ReadFieldCode(reg, f).value)
  {
    ElementAgree(reg, f, if isRepeated then "value" else valueId);
  }

  /** As written, a message field is written length-delimited but read
      as the whole rest of the enclosing input: the length is taken for a
      tag, and the following fields for the nested message's. */
  lemma MessageFieldMisread(reg: Registry, f: FieldDesc, valueId: string, isRepeated: bool)
    requires reg.variant == AsWritten && f.kind == MESSAGE && !IsMap(reg, f)
    requires WriteField(reg, valueId, f, isRepeated).Success? && ReadFieldCode(reg, f).Success?
    ensures WriteShape(WriteField(reg, valueId, f, isRepeated).value) == Delimited
    ensures ReadShape(ReadFieldCode(reg, f).value) == RestOfInput
    ensures !Agree(WriteField(reg, valueId, f, isRepeated).value, ReadFieldCode(reg, f).value)
  {
  }
}
