/** How `ProtoKitCodegen` types a field in Kotlin and what it starts a
    decoded field at: `isMap`, `isFieldEmpty`, `mapProtoTypeToKotlin`,
    `getPrimitiveTypeName`, `getProtoMethodSuffix` and `protoDefault`.
    Types and defaults are kept as data rather than rendered text. */
module KotlinTypes {
  import opened Wrappers
  import opened Descriptor
  import opened TypeRegistry

  /** A Kotlin type as KotlinPoet builds it: a class (possibly nullable),
      a `List`/`MutableList`, or a `Map`/`MutableMap`. */
  datatype KType =
    | Named(cls: ClassName, nullable: bool)
    | ListOf(mutable: bool, element: KType)
    | MapOf(mutable: bool, key: KType, value: KType)

  function KotlinClass(name: string): ClassName {
    ClassName("kotlin", [name])
  }

  const UNIT: KType := Named(KotlinClass("Unit"), false)

  /** The scalar methods of the sdk's `ProtoWriter`/`ProtoReader` the
      generator calls, by their suffix (`write<Suffix>`, `read<Suffix>`). */
  datatype Scalar = DoubleScalar | FloatScalar | Int64Scalar | BoolScalar | StringScalar | BytesScalar | Int32Scalar

  function SuffixText(s: Scalar): string {
    match s
    case DoubleScalar => "Double"
    case FloatScalar => "Float"
    case Int64Scalar => "Int64"
    case BoolScalar => "Bool"
    case StringScalar => "String"
    case BytesScalar => "Bytes"
    case Int32Scalar => "Int32"
  }

  /** `getProtoMethodSuffix`: every 64-bit integer kind uses `Int64`,
      every other kind not named uses `Int32`. */
  function MethodScalar(k: Kind): Scalar {
    match k
    case DOUBLE => DoubleScalar
    case FLOAT => FloatScalar
    case INT64 | UINT64 | SINT64 | FIXED64 | SFIXED64 => Int64Scalar
    case BOOL => BoolScalar
    case STRING => StringScalar
    case BYTES => BytesScalar
    case _ => Int32Scalar
  }

  /** `getPrimitiveTypeName`. */
  function PrimitiveClass(k: Kind): ClassName {
    match k
    case DOUBLE => KotlinClass("Double")
    case FLOAT => KotlinClass("Float")
    case INT64 | UINT64 | SINT64 | FIXED64 | SFIXED64 => KotlinClass("Long")
    case BOOL => KotlinClass("Boolean")
    case STRING => KotlinClass("String")
    case BYTES => KotlinClass("ByteArray")
    case _ => KotlinClass("Int")
  }

  /** The Kotlin type the sdk's `write<Suffix>` takes as its value and
      `read<Suffix>` returns. */
  function ScalarClass(s: Scalar): ClassName {
    match s
    case DoubleScalar => KotlinClass("Double")
    case FloatScalar => KotlinClass("Float")
    case Int64Scalar => KotlinClass("Long")
    case BoolScalar => KotlinClass("Boolean")
    case StringScalar => KotlinClass("String")
    case BytesScalar => KotlinClass("ByteArray")
    case Int32Scalar => KotlinClass("Int")
  }

  /** The two tables agree: the method chosen for a scalar field takes
      and returns exactly the Kotlin type the field is declared with. */
  lemma MethodFitsPrimitive(k: Kind)
    ensures ScalarClass(MethodScalar(k)) == PrimitiveClass(k)
  {
  }

  /** `isMap`: a repeated message field whose type is in the message map
      and marked as a map entry. */
  predicate IsMap(reg: Registry, f: FieldDesc) {
    f.fieldLabel == REPEATED && f.kind == MESSAGE && f.typeName in reg.messages && reg.messages[f.typeName].mapEntry
  }

  /** `isFieldEmpty`: a message field whose type is in the message map and
      has no fields. */
  predicate IsFieldEmpty(reg: Registry, f: FieldDesc) {
    f.kind == MESSAGE && f.typeName in reg.messages && |reg.messages[f.typeName].fields| == 0
  }

  /** The class behind a message or enum field, or the primitive class of
      a scalar one. */
  function BaseClass(reg: Registry, f: FieldDesc): Result<ClassName, GenError> {
    if f.kind == MESSAGE || f.kind == ENUM then ResolveType(reg, f.typeName, None) else Success(PrimitiveClass(f.kind))
  }

  /** `mapProtoTypeToKotlin` for a field that is not a map: `Unit` for a
      field-less message type, a list for a repeated field, nullable for
      `Any`, else the class itself. */
  function ElementType(reg: Registry, f: FieldDesc, mutable: bool): Result<KType, GenError> {
    if IsFieldEmpty(reg, f) then Success(UNIT)
    else
      var c :- BaseClass(reg, f);
      if f.fieldLabel == REPEATED then Success(ListOf(mutable, Named(c, false)))
      else Success(Named(c, f.typeName == ANY_TYPE_NAME))
  }

  /** `mapProtoTypeToKotlin(field, isMutable)`. A map's key and value
      types are those of the entry's first and second field, whose own
      type is found without a further map check (README, "Left out"). */
  function KotlinType(reg: Registry, f: FieldDesc, mutable: bool): Result<KType, GenError> {
    if IsMap(reg, f) then
      var entry := reg.messages[f.typeName];
      if |entry.fields| == 0 then Failure(MissingMapEntryField(f.typeName, 0))
      else
        var k :- ElementType(reg, entry.fields[0], false);
        if |entry.fields| == 1 then Failure(MissingMapEntryField(f.typeName, 1))
        else
          var v :- ElementType(reg, entry.fields[1], false);
          Success(MapOf(mutable, k, v))
    else ElementType(reg, f, mutable)
  }

  /** A map field that resolves is typed as a map, mutable as asked. */
  lemma MapTyped(reg: Registry, f: FieldDesc, mutable: bool)
    requires IsMap(reg, f) && KotlinType(reg, f, mutable).Success?
    ensures KotlinType(reg, f, mutable).value.MapOf? && KotlinType(reg, f, mutable).value.mutable == mutable
  {
  }

  /** The read-only view of a type: `MutableList`/`MutableMap` become
      `List`/`Map`. */
  function Frozen(t: KType): KType {
    match t
    case ListOf(_, e) => ListOf(false, e)
    case MapOf(_, k, v) => MapOf(false, k, v)
    case Named(_, _) => t
  }

  /** The decoder's variables (`isMutable = true`) and the constructor's
      parameters (`false`) are typed alike: resolving fails for both or
      neither, with the same error, and the decoder's type differs only
      by being mutable where the parameter is read-only. */
  lemma MutableMatchesFrozen(reg: Registry, f: FieldDesc)
    ensures KotlinType(reg, f, true).Success? <==> KotlinType(reg, f, false).Success?
    ensures KotlinType(reg, f, true).Failure? ==> KotlinType(reg, f, true).error == KotlinType(reg, f, false).error
    ensures KotlinType(reg, f, true).Success? ==>
              Frozen(KotlinType(reg, f, true).value) == KotlinType(reg, f, false).value
              && Frozen(KotlinType(reg, f, false).value) == KotlinType(reg, f, false).value
  {
  }

  /** Only a singular `Any` field is nullable; a list or map never is,
      and its elements are not. */
  lemma OnlyAnyNullable(reg: Registry, f: FieldDesc, mutable: bool)
    ensures var r := KotlinType(reg, f, mutable);
            r.Success? && r.value.Named? && r.value.nullable ==>
              f.typeName == ANY_TYPE_NAME && f.fieldLabel != REPEATED && !IsMap(reg, f)
    ensures var r := KotlinType(reg, f, mutable);
            r.Success? && r.value.ListOf? ==> r.value.element.Named? && !r.value.element.nullable
  {
  }

  // ---------------------------------------------------------------------
  // Defaults
  // ---------------------------------------------------------------------

  /** `protoDefault`'s initial values: `mutableMapOf()`,
      `mutableListOf()`, `null`, `Unit`, `<T>.decode(ByteArray(0))`,
      `<T>.values()[0]` and the primitive literals. */
  datatype DefaultValue =
    | EmptyMap
    | EmptyList
    | NullValue
    | UnitValue
    | DecodeEmpty(cls: ClassName)
    | FirstConstant(cls: ClassName)
    | Literal(text: string)

  /** The literal `protoDefault` writes for a primitive class. */
  function PrimitiveDefault(c: ClassName): string {
    if c == KotlinClass("Double") then "0.0"
    else if c == KotlinClass("Float") then "0.0f"
    else if c == KotlinClass("Long") then "0L"
    else if c == KotlinClass("Boolean") then "false"
    else if c == KotlinClass("String") then "\"\""
    else if c == KotlinClass("ByteArray") then "ByteArray(0)"
    else "0"
  }

  /** `protoDefault(field)`: the checks in the generator's order — map,
      repeated, `Any`, field-less message, message, enum, primitive. */
  function ProtoDefault(reg: Registry, f: FieldDesc): Result<DefaultValue, GenError> {
    if IsMap(reg, f) then Success(EmptyMap)
    else if f.fieldLabel == REPEATED then Success(EmptyList)
    else if f.typeName == ANY_TYPE_NAME then Success(NullValue)
    else if IsFieldEmpty(reg, f) then Success(UnitValue)
    else if f.kind == MESSAGE then
      var c :- ResolveType(reg, f.typeName, None);
      Success(DecodeEmpty(c))
    else if f.kind == ENUM then
      var c :- ResolveType(reg, f.typeName, None);
      Success(FirstConstant(c))
    else Success(Literal(PrimitiveDefault(PrimitiveClass(f.kind))))
  }

  /** The Kotlin type of a literal, as the compiler reads it. */
  function LiteralType(text: string): Option<ClassName> {
    if text == "0.0" then Some(KotlinClass("Double"))
    else if text == "0.0f" then Some(KotlinClass("Float"))
    else if text == "0L" then Some(KotlinClass("Long"))
    else if text == "false" then Some(KotlinClass("Boolean"))
    else if text == "\"\"" then Some(KotlinClass("String"))
    else if text == "ByteArray(0)" then Some(KotlinClass("ByteArray"))
    else if text == "0" then Some(KotlinClass("Int"))
    else None
  }

  /** `var x: t = d` type-checks: an empty mutable collection for a
      mutable collection, `null` for a nullable class, `Unit` for `Unit`, a
      decoded or first value of the class itself, a literal of the
      primitive type. */
  predicate DefaultFits(d: DefaultValue, t: KType) {
    match d
    case EmptyMap => t.MapOf? && t.mutable
    case EmptyList => t.ListOf? && t.mutable
    case NullValue => t.Named? && t.nullable
    case UnitValue => t == UNIT
    case DecodeEmpty(c) => t == Named(c, false)
    case FirstConstant(c) => t == Named(c, false)
    case Literal(text) => t.Named? && !t.nullable && LiteralType(text) == Some(t.cls)
  }

  /** Every decoder variable's default fits its declared mutable type —
      except for a repeated field of a field-less message type (declared
      `Unit`, started at `mutableListOf()`) and an `Any` that is itself
      field-less (declared `Unit`, started at `null`). */
  lemma DefaultFitsType(reg: Registry, f: FieldDesc)
    requires KotlinType(reg, f, true).Success? && ProtoDefault(reg, f).Success?
    requires !(f.fieldLabel == REPEATED && IsFieldEmpty(reg, f))
    requires !(f.typeName == ANY_TYPE_NAME && IsFieldEmpty(reg, f))
    ensures DefaultFits(ProtoDefault(reg, f).value, KotlinType(reg, f, true).value)
  {
    if !IsMap(reg, f) && f.fieldLabel != REPEATED && f.typeName != ANY_TYPE_NAME && !IsFieldEmpty(reg, f)
       && f.kind != MESSAGE && f.kind != ENUM {
      var c := PrimitiveClass(f.kind);
      assert LiteralType(PrimitiveDefault(c)) == Some(c);
    }
  }

  /** The two exceptions do occur: a repeated field of a field-less
      message type is declared `Unit` but started at `mutableListOf()`. */
  lemma RepeatedEmptyMisfit(reg: Registry, f: FieldDesc)
    requires f.fieldLabel == REPEATED && IsFieldEmpty(reg, f) && !IsMap(reg, f)
    ensures KotlinType(reg, f, true) == Success(UNIT)
    ensures ProtoDefault(reg, f) == Success(EmptyList)
    ensures !DefaultFits(EmptyList, UNIT)
  {
  }
}
