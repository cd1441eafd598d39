/** The parts of protobuf's `FileDescriptorSet` that the plugin's
    `ProtoKitCodegen` reads: files with their package, Java options and
    top-level declarations; messages with fields, oneofs, nested types and
    the `map_entry` option; enums, services and methods. */
module Descriptor {
  import opened Wrappers

  /** `FieldDescriptorProto.Type`. */
  datatype Kind =
    | DOUBLE | FLOAT | INT64 | UINT64 | INT32 | FIXED64 | FIXED32 | BOOL | STRING
    | GROUP | MESSAGE | BYTES | UINT32 | ENUM | SFIXED32 | SFIXED64 | SINT32 | SINT64

  /** `FieldDescriptorProto.Label`. */
  datatype Label = OPTIONAL | REQUIRED | REPEATED

  /** `FieldDescriptorProto`: `typeName` is the fully qualified name of a
      message or enum type (empty for scalars); `oneofIndex` is `None`
      when `hasOneofIndex()` is false. */
  datatype FieldDesc = FieldDesc(name: string, number: int, kind: Kind, fieldLabel: Label, typeName: string,
                                 oneofIndex: Option<int>)

  /** `DescriptorProto`; `mapEntry` is `options.mapEntry`, which protoc
      sets on the nested entry type it makes for each `map<K, V>` field. */
  datatype MessageDesc = MessageDesc(name: string, fields: seq<FieldDesc>, oneofs: seq<string>,
                                     nested: seq<MessageDesc>, mapEntry: bool)

  /** `EnumDescriptorProto`: the value names in declaration order. */
  datatype EnumDesc = EnumDesc(name: string, values: seq<string>)

  /** `MethodDescriptorProto`: input and output types fully qualified. */
  datatype MethodDesc = MethodDesc(name: string, inputType: string, outputType: string)

  datatype ServiceDesc = ServiceDesc(name: string, methods: seq<MethodDesc>)

  /** `FileDescriptorProto`; `javaPackage` and `javaMultipleFiles` are
      the file's options (an unset `java_package` reads as ""). */
  datatype FileDesc = FileDesc(name: string, pkg: string, javaPackage: string, javaMultipleFiles: bool,
                               messages: seq<MessageDesc>, enums: seq<EnumDesc>, services: seq<ServiceDesc>)
}
