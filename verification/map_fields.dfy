/** What becomes of a `map<K, V>` field. protoc describes it as a repeated
    message field whose type is a nested `<Name>Entry` message marked as a
    map entry. `ProtoKitCodegen` registers only top-level messages, so
    `isMap` never finds such an entry type; the `Corrected` registry also
    registers the nested entries, and then the field is a map. */
module MapFields {
  import opened Wrappers
  import opened Strings
  import opened Descriptor
  import opened TypeRegistry
  import opened KotlinTypes

  /** `f` is the field protoc makes for a map whose entry type is nested
      entry `ei` of top-level message `mi` of file `fi`. */
  predicate MapFieldOf(files: seq<FileDesc>, fi: nat, mi: nat, ei: nat, f: FieldDesc) {
    fi < |files| && mi < |files[fi].messages| && ei < |files[fi].messages[mi].nested|
    && files[fi].messages[mi].nested[ei].mapEntry
    && f.fieldLabel == REPEATED && f.kind == MESSAGE
    && f.typeName == Prefix(files[fi].pkg) + files[fi].messages[mi].name + "." + files[fi].messages[mi].nested[ei].name
  }

  /** No top-level message is a map entry (protoc only nests them). */
  predicate EntriesNested(files: seq<FileDesc>) {
    forall fi, mi :: 0 <= fi < |files| && 0 <= mi < |files[fi].messages| ==> !files[fi].messages[mi].mapEntry
  }

  /** As written, no field at all is taken for a map. */
  lemma NoFieldIsMap(files: seq<FileDesc>, f: FieldDesc)
    requires EntriesNested(files)
    ensures !IsMap(BuildRegistry(files, AsWritten), f)
  {
    var reg := BuildRegistry(files, AsWritten);
    if f.typeName in reg.messages {
      var _, _ := OnlyTopLevelWritten(files, (f.typeName, reg.messages[f.typeName]));
    }
  }

  /** As written, a map field is typed as a list of its entry type, which
      is not registered: generation stops with "type not found". */
  lemma MapFieldUnresolved(files: seq<FileDesc>, fi: nat, mi: nat, ei: nat, f: FieldDesc, mutable: bool)
    requires MapFieldOf(files, fi, mi, ei, f) && EntriesNested(files)
    requires f.typeName !in KeysOf(AllRegistrations(files)) && f.typeName != ANY_TYPE_NAME
    ensures var reg := BuildRegistry(files, AsWritten);
            KotlinType(reg, f, mutable) == Failure(TypeNotFound(f.typeName, reg.types.Keys))
  {
    NoFieldIsMap(files, f);
    var reg := BuildRegistry(files, AsWritten);
    assert f.typeName[0] == '.';
    assert StartsWith(f.typeName, ".");
    if f.typeName in reg.messages {
      var fj, mj := OnlyTopLevelWritten(files, (f.typeName, reg.messages[f.typeName]));
      assert DeclaredNames(files[fj])[mj] == files[fj].messages[mj].name;
      DeclarationWritten(files, fj, mj);
      assert false;
    }
  }

  /** With the entry types registered, a map field is a map — provided no
      other declaration overwrites its entry type with a message that is
      not an entry. */
  lemma MapFieldRecognised(files: seq<FileDesc>, fi: nat, mi: nat, ei: nat, f: FieldDesc)
    requires MapFieldOf(files, fi, mi, ei, f)
    requires forall w :: w in AllMessageWrites(files, Corrected) && w.0 == f.typeName ==> w.1.mapEntry
    ensures IsMap(BuildRegistry(files, Corrected), f)
  {
    EntryWritten(files, fi, mi, ei);
    var w := (f.typeName, files[fi].messages[mi].nested[ei]);
    var i :| 0 <= i < |AllMessageWrites(files, Corrected)| && AllMessageWrites(files, Corrected)[i] == w;
    assert f.typeName in KeysOf(AllMessageWrites(files, Corrected));
  }

  /** A recognised map field whose entry has a key and a value field
      that resolve is typed as a `Map`/`MutableMap`. */
  lemma MapFieldTyped(files: seq<FileDesc>, fi: nat, mi: nat, ei: nat, f: FieldDesc, mutable: bool)
    requires MapFieldOf(files, fi, mi, ei, f)
    requires forall w :: w in AllMessageWrites(files, Corrected) && w.0 == f.typeName ==> w.1.mapEntry
    requires KotlinType(BuildRegistry(files, Corrected), f, mutable).Success?
    ensures KotlinType(BuildRegistry(files, Corrected), f, mutable).value.MapOf?
    ensures KotlinType(BuildRegistry(files, Corrected), f, mutable).value.mutable == mutable
  {
    MapFieldRecognised(files, fi, mi, ei, f);
    MapTyped(BuildRegistry(files, Corrected), f, mutable);
  }
}
