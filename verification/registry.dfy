/** `buildTypeRegistry` and `resolveType` of `ProtoKitCodegen`: every
    top-level message, enum and service of every file in the descriptor
    set is registered under its fully qualified protobuf name
    (`.<package>.<Name>`, or `.<Name>` without a package) as a Kotlin class
    in the file's Java package; `.google.protobuf.Any` is then bound to the
    sdk's `ProtoAny`. Only top-level messages go into the message map that
    `isMap` and `isFieldEmpty` consult — the `Corrected` variant also
    registers the nested map-entry types protoc makes for `map<K, V>`
    fields (README, "Findings"). */
module TypeRegistry {
  import opened Wrappers
  import opened Strings
  import opened Descriptor

  /** KotlinPoet's `ClassName`: a package and the simple names from the
      outermost class inwards. */
  datatype ClassName = ClassName(packageName: string, simpleNames: seq<string>) {
    /** `nestedClass(name)`. */
    function Nested(name: string): ClassName {
      ClassName(packageName, simpleNames + [name])
    }
  }

  const ANY_TYPE_NAME: string := ".google.protobuf.Any"
  const PROTO_ANY_CLASS: ClassName := ClassName("com.fames.protokit.sdk.models", ["ProtoAny"])
  const PROTO_CLIENT_CLASS: ClassName := ClassName("com.fames.protokit.sdk", ["ProtoClient"])
  const RESPONSE_CLASS: ClassName := ClassName("com.fames.protokit.sdk.models", ["Response"])

  /** What generation throws: `resolveType`'s `IllegalStateException`
      (with the registered names it lists), an index beyond a map entry's
      fields, a field's oneof index beyond the message's oneofs, and the
      `UnknownFormatConversionException` of `"(%L)".format(…)` for a
      oneof member's read (`%L` is no conversion of `String.format`). */
  datatype GenError =
    | TypeNotFound(fqName: string, registered: set<string>)
    | MissingMapEntryField(typeName: string, position: nat)
    | OneofOutOfRange(fieldName: string, index: int)
    | FormatConversion(fieldName: string)

  /** Kotlin's `Char.isWhitespace()` on the JVM: `Character.isWhitespace`
      (the controls U+0009–U+000D and U+001C–U+001F, and the space,
      line and paragraph separators) or `Character.isSpaceChar` (which
      adds the no-break spaces U+00A0, U+2007 and U+202F). */
  predicate IsWhitespace(c: char) {
    var n := c as int;
    0x09 <= n <= 0x0D || 0x1C <= n <= 0x20 || n == 0xA0 || n == 0x1680 || 0x2000 <= n <= 0x200A
    || n == 0x2028 || n == 0x2029 || n == 0x202F || n == 0x205F || n == 0x3000
  }

  /** `isBlank()`. */
  predicate IsBlank(s: string) {
    forall i :: 0 <= i < |s| ==> IsWhitespace(s[i])
  }

  /** `javaPackage.takeIf { it.isNotBlank() } ?: package`. */
  function TargetPackage(f: FileDesc): string {
    if IsBlank(f.javaPackage) then f.pkg else f.javaPackage
  }

  /** A `java_package` of information separators only (U+001C–U+001F)
      is blank, so the file's classes go to its proto package. */
  lemma SeparatorsAreBlank(f: FileDesc)
    requires forall i :: 0 <= i < |f.javaPackage| ==> 0x1C <= f.javaPackage[i] as int <= 0x1F
    ensures TargetPackage(f) == f.pkg
  {
  }

  /** The prefix of the fully qualified names declared in a package. */
  function Prefix(pkg: string): string {
    if |pkg| > 0 then "." + pkg + "." else "."
  }

  /** The top-level declarations of a file in registration order:
      messages, enums, services. */
  function DeclaredNames(f: FileDesc): seq<string> {
    seq(|f.messages|, i requires 0 <= i < |f.messages| => f.messages[i].name)
    + seq(|f.enums|, i requires 0 <= i < |f.enums| => f.enums[i].name)
    + seq(|f.services|, i requires 0 <= i < |f.services| => f.services[i].name)
  }

  /** The writes a file makes into the type registry, in order. */
  function FileRegistrations(f: FileDesc): seq<(string, ClassName)> {
    var names := DeclaredNames(f);
    seq(|names|, i requires 0 <= i < |names| => (Prefix(f.pkg) + names[i], ClassName(TargetPackage(f), [names[i]])))
  }

  function AllRegistrations(files: seq<FileDesc>): seq<(string, ClassName)> {
    if |files| == 0 then [] else FileRegistrations(files[0]) + AllRegistrations(files[1..])
  }

  /** The message-map writes of a file: each top-level message under its
      qualified name; with `Corrected`, each nested map-entry type of it
      follows under `<message name>.<entry name>`. */
  function MessageWrites(prefix: string, ms: seq<MessageDesc>, variant: Variant): seq<(string, MessageDesc)> {
    if |ms| == 0 then []
    else
      [(prefix + ms[0].name, ms[0])]
      + (if variant == Corrected then EntryWrites(prefix + ms[0].name + ".", ms[0].nested) else [])
      + MessageWrites(prefix, ms[1..], variant)
  }

  function EntryWrites(prefix: string, ns: seq<MessageDesc>): seq<(string, MessageDesc)> {
    if |ns| == 0 then []
    else (if ns[0].mapEntry then [(prefix + ns[0].name, ns[0])] else []) + EntryWrites(prefix, ns[1..])
  }

  function AllMessageWrites(files: seq<FileDesc>, variant: Variant): seq<(string, MessageDesc)> {
    if |files| == 0 then []
    else MessageWrites(Prefix(files[0].pkg), files[0].messages, variant) + AllMessageWrites(files[1..], variant)
  }

  /** A sequence of `map[key] = value` writes, the later ones winning. */
  function Assign<V>(m: map<string, V>, writes: seq<(string, V)>): map<string, V>
    decreases |writes|
  {
    if |writes| == 0 then m else Assign(m[writes[0].0 := writes[0].1], writes[1..])
  }

  function KeysOf<V>(writes: seq<(string, V)>): set<string> {
    set i | 0 <= i < |writes| :: writes[i].0
  }

  /** Writing adds exactly the written keys. */
  lemma {:induction false} AssignKeys<V>(m: map<string, V>, writes: seq<(string, V)>)
    ensures Assign(m, writes).Keys == m.Keys + KeysOf(writes)
    decreases |writes|
  {
    if |writes| > 0 {
      AssignKeys(m[writes[0].0 := writes[0].1], writes[1..]);
      assert KeysOf(writes) == {writes[0].0} + KeysOf(writes[1..]) by {
        forall k | k in KeysOf(writes) ensures k in {writes[0].0} + KeysOf(writes[1..]) {
          var i :| 0 <= i < |writes| && writes[i].0 == k;
          if i > 0 {
            assert writes[1..][i - 1].0 == k;
          }
        }
        forall k | k in KeysOf(writes[1..]) ensures k in KeysOf(writes) {
          var i :| 0 <= i < |writes[1..]| && writes[1..][i].0 == k;
          assert writes[i + 1].0 == k;
        }
      }
    }
  }

  /** Every value in the map was either there before and never
      overwritten, or is one of the writes. */
  lemma {:induction false} AssignFrom<V>(m: map<string, V>, writes: seq<(string, V)>, k: string)
    requires k in Assign(m, writes)
    ensures (k in m && k !in KeysOf(writes) && Assign(m, writes)[k] == m[k]) || (k, Assign(m, writes)[k]) in writes
    decreases |writes|
  {
    if |writes| > 0 {
      var m' := m[writes[0].0 := writes[0].1];
      AssignFrom(m', writes[1..], k);
      if (k, Assign(m, writes)[k]) in writes[1..] {
      } else if k == writes[0].0 {
      } else {
        forall i | 0 < i < |writes| ensures writes[i].0 != k {
          assert writes[1..][i - 1] == writes[i];
        }
      }
    }
  }

  /** The last write to a key decides its value. */
  lemma {:induction false} AssignLast<V>(m: map<string, V>, writes: seq<(string, V)>, i: nat)
    requires i < |writes|
    requires forall j :: i < j < |writes| ==> writes[j].0 != writes[i].0
    ensures writes[i].0 in Assign(m, writes) && Assign(m, writes)[writes[i].0] == writes[i].1
    decreases |writes|
  {
    var m' := m[writes[0].0 := writes[0].1];
    if i == 0 {
      AssignUntouched(m', writes[1..], writes[0].0);
    } else {
      AssignLast(m', writes[1..], i - 1);
    }
  }

  lemma {:induction false} AssignUntouched<V>(m: map<string, V>, writes: seq<(string, V)>, k: string)
    requires k in m
    requires forall j :: 0 <= j < |writes| ==> writes[j].0 != k
    ensures k in Assign(m, writes) && Assign(m, writes)[k] == m[k]
    decreases |writes|
  {
    if |writes| > 0 {
      AssignUntouched(m[writes[0].0 := writes[0].1], writes[1..], k);
    }
  }

  /** The registry a descriptor set yields: the type registry and the
      message map, and which reading of the generator's defective lines
      everything built on it follows. */
  datatype Registry = Registry(types: map<string, ClassName>, messages: map<string, MessageDesc>, variant: Variant)

  /** `buildTypeRegistry()`: every name a file declares is registered, and
      nothing else but `Any`; every entry is one of the writes (the last
      one to its name); `Any` is the sdk's `ProtoAny` whatever the files
      declare. */
  function BuildRegistry(files: seq<FileDesc>, variant: Variant): (reg: Registry)
    ensures reg.variant == variant
    ensures reg.types.Keys == KeysOf(AllRegistrations(files)) + {ANY_TYPE_NAME}
    ensures ANY_TYPE_NAME in reg.types && reg.types[ANY_TYPE_NAME] == PROTO_ANY_CLASS
    ensures forall k :: k in reg.types && k != ANY_TYPE_NAME ==> (k, reg.types[k]) in AllRegistrations(files)
    ensures reg.messages.Keys == KeysOf(AllMessageWrites(files, variant))
    ensures forall k :: k in reg.messages ==> (k, reg.messages[k]) in AllMessageWrites(files, variant)
  {
    var types := Assign(map[], AllRegistrations(files));
    var messages := Assign(map[], AllMessageWrites(files, variant));
    AssignKeys(map[], AllRegistrations(files));
    AssignKeys(map[], AllMessageWrites(files, variant));
    forall k | k in types {
      AssignFrom(map[], AllRegistrations(files), k);
    }
    forall k | k in messages {
      AssignFrom(map[], AllMessageWrites(files, variant), k);
    }
    Registry(types[ANY_TYPE_NAME := PROTO_ANY_CLASS], messages, variant)
  }

  /** Among clashing names, the file and declaration registered last
      win. */
  lemma RegistryLastWins(files: seq<FileDesc>, variant: Variant, i: nat)
    requires i < |AllRegistrations(files)|
    requires AllRegistrations(files)[i].0 != ANY_TYPE_NAME
    requires forall j :: i < j < |AllRegistrations(files)| ==> AllRegistrations(files)[j].0 != AllRegistrations(files)[i].0
    ensures BuildRegistry(files, variant).types[AllRegistrations(files)[i].0] == AllRegistrations(files)[i].1
  {
    AssignLast(map[], AllRegistrations(files), i);
  }

  /** Each top-level declaration of each file is among the writes, as a
      class of that name in the file's target package. */
  lemma {:induction false} DeclarationWritten(files: seq<FileDesc>, fi: nat, k: nat)
    requires fi < |files| && k < |DeclaredNames(files[fi])|
    ensures (Prefix(files[fi].pkg) + DeclaredNames(files[fi])[k],
             ClassName(TargetPackage(files[fi]), [DeclaredNames(files[fi])[k]])) in AllRegistrations(files)
    decreases fi
  {
    if fi == 0 {
      assert FileRegistrations(files[0])[k] == AllRegistrations(files)[k];
    } else {
      DeclarationWritten(files[1..], fi - 1, k);
      assert files[1..][fi - 1] == files[fi];
    }
  }

  /** With `Corrected`, the map-entry types nested in a top-level message
      are written to the message map under `<message>.<entry>`. */
  lemma {:induction false} EntryWritten(files: seq<FileDesc>, fi: nat, mi: nat, ei: nat)
    requires fi < |files| && mi < |files[fi].messages| && ei < |files[fi].messages[mi].nested|
    requires files[fi].messages[mi].nested[ei].mapEntry
    ensures (Prefix(files[fi].pkg) + files[fi].messages[mi].name + "." + files[fi].messages[mi].nested[ei].name,
             files[fi].messages[mi].nested[ei]) in AllMessageWrites(files, Corrected)
    decreases fi
  {
    if fi == 0 {
      MessageWriteIn(Prefix(files[0].pkg), files[0].messages, mi, ei);
    } else {
      EntryWritten(files[1..], fi - 1, mi, ei);
      assert files[1..][fi - 1] == files[fi];
    }
  }

  lemma {:induction false} MessageWriteIn(prefix: string, ms: seq<MessageDesc>, mi: nat, ei: nat)
    requires mi < |ms| && ei < |ms[mi].nested| && ms[mi].nested[ei].mapEntry
    ensures (prefix + ms[mi].name + "." + ms[mi].nested[ei].name, ms[mi].nested[ei]) in MessageWrites(prefix, ms, Corrected)
    decreases mi
  {
    if mi == 0 {
      EntryIn(prefix + ms[0].name + ".", ms[0].nested, ei);
      assert prefix + ms[0].name + "." + ms[0].nested[ei].name == (prefix + ms[0].name + ".") + ms[0].nested[ei].name;
    } else {
      MessageWriteIn(prefix, ms[1..], mi - 1, ei);
      assert ms[1..][mi - 1] == ms[mi];
    }
  }

  lemma {:induction false} EntryIn(prefix: string, ns: seq<MessageDesc>, ei: nat)
    requires ei < |ns| && ns[ei].mapEntry
    ensures (prefix + ns[ei].name, ns[ei]) in EntryWrites(prefix, ns)
    decreases ei
  {
    if ei > 0 {
      EntryIn(prefix, ns[1..], ei - 1);
      assert ns[1..][ei - 1] == ns[ei];
    }
  }

  /** Without `Corrected`, only top-level messages reach the message map,
      each under the name it is registered under as a type. */
  lemma {:induction false} OnlyTopLevelWritten(files: seq<FileDesc>, w: (string, MessageDesc)) returns (fi: nat, mi: nat)
    requires w in AllMessageWrites(files, AsWritten)
    ensures fi < |files| && mi < |files[fi].messages|
    ensures w == (Prefix(files[fi].pkg) + files[fi].messages[mi].name, files[fi].messages[mi])
    decreases |files|
  {
    var here := MessageWrites(Prefix(files[0].pkg), files[0].messages, AsWritten);
    if w in here {
      fi := 0;
      mi := TopLevelWrite(Prefix(files[0].pkg), files[0].messages, w);
    } else {
      assert w in AllMessageWrites(files[1..], AsWritten);
      var f;
      f, mi := OnlyTopLevelWritten(files[1..], w);
      assert files[1..][f] == files[f + 1];
      fi := f + 1;
    }
  }

  lemma {:induction false} TopLevelWrite(prefix: string, ms: seq<MessageDesc>, w: (string, MessageDesc)) returns (mi: nat)
    requires w in MessageWrites(prefix, ms, AsWritten)
    ensures mi < |ms| && w == (prefix + ms[mi].name, ms[mi])
    decreases |ms|
  {
    if w == (prefix + ms[0].name, ms[0]) {
      mi := 0;
    } else {
      var m := TopLevelWrite(prefix, ms[1..], w);
      mi := m + 1;
    }
  }

  // ---------------------------------------------------------------------
  // Resolving names
  // ---------------------------------------------------------------------

  /** The fully qualified name `resolveType` looks up: a name starting
      with `.` as it is, otherwise qualified by the local package when
      there is a non-empty one. */
  function Qualify(protoName: string, localPackage: Option<string>): string {
    if StartsWith(protoName, ".") then protoName
    else if localPackage.None? || |localPackage.value| == 0 then "." + protoName
    else "." + localPackage.value + "." + protoName
  }

  /** `resolveType(protoName, localPackage)`. */
  function ResolveType(reg: Registry, protoName: string, localPackage: Option<string>): Result<ClassName, GenError> {
    var fqName := Qualify(protoName, localPackage);
    if fqName in reg.types then Success(reg.types[fqName]) else Failure(TypeNotFound(fqName, reg.types.Keys))
  }

  /** A qualified name stays as it is when qualified again. */
  lemma QualifyIdempotent(protoName: string, localPackage: Option<string>, other: Option<string>)
    ensures StartsWith(Qualify(protoName, localPackage), ".")
    ensures Qualify(Qualify(protoName, localPackage), other) == Qualify(protoName, localPackage)
  {
  }

  /** Every file's own top-level declaration resolves by its simple name
      in its package, to the same class as by its fully qualified name,
      and that class is one registered under that name. */
  lemma ResolveOwnDeclaration(files: seq<FileDesc>, variant: Variant, fi: nat, k: nat)
    requires fi < |files| && k < |DeclaredNames(files[fi])|
    requires !StartsWith(DeclaredNames(files[fi])[k], ".")
    ensures var reg := BuildRegistry(files, variant);
            var name := DeclaredNames(files[fi])[k];
            var r := ResolveType(reg, name, Some(files[fi].pkg));
            r.Success?
            && r == ResolveType(reg, Prefix(files[fi].pkg) + name, None)
            && ((Prefix(files[fi].pkg) + name, r.value) in AllRegistrations(files)
                || (Prefix(files[fi].pkg) + name == ANY_TYPE_NAME && r.value == PROTO_ANY_CLASS))
  {
    DeclarationWritten(files, fi, k);
    var name := DeclaredNames(files[fi])[k];
    var key := Prefix(files[fi].pkg) + name;
    var i :| 0 <= i < |AllRegistrations(files)| && AllRegistrations(files)[i] == (key, ClassName(TargetPackage(files[fi]), [name]));
    assert key in KeysOf(AllRegistrations(files));
    assert Qualify(name, Some(files[fi].pkg)) == key;
    assert StartsWith(key, ".");
  }

  /** `.google.protobuf.Any` always resolves to `ProtoAny`. */
  lemma ResolveAny(files: seq<FileDesc>, variant: Variant, localPackage: Option<string>)
    ensures ResolveType(BuildRegistry(files, variant), ANY_TYPE_NAME, localPackage) == Success(PROTO_ANY_CLASS)
  {
    assert StartsWith(ANY_TYPE_NAME, ".");
  }
}
