/** `generateEnum`, `generateService`, `generateFile` and `generate` of
    `ProtoKitCodegen`: the declarations made for each schema file, and the
    Kotlin files they are put in. Types are kept as data; KotlinPoet's
    rendering and the writing to disk are not modelled. */
module FileGen {
  import opened Wrappers
  import opened Strings
  import opened Naming
  import opened Descriptor
  import opened TypeRegistry
  import opened MessageGen

  // ---------------------------------------------------------------------
  // Enums
  // ---------------------------------------------------------------------

  /** An `enum class` and its constants in declaration order. */
  datatype EnumClass = EnumClass(cls: ClassName, constants: seq<string>)

  /** `generateEnum(descriptor, pkg)`. */
  function GenerateEnum(reg: Registry, e: EnumDesc, pkg: string): (r: Result<EnumClass, GenError>)
    ensures r.Success? <==> ResolveType(reg, e.name, Some(pkg)).Success?
    ensures r.Success? ==> r.value.constants == e.values
  {
    var cls :- ResolveType(reg, e.name, Some(pkg));
    Success(EnumClass(cls, e.values))
  }

  /** The generated decoder's `values().getOrElse(ordinal) { values()[0] }`:
      an ordinal out of range reads as the first constant; `None` where
      `values()[0]` throws because the enum has no constants. */
  function ConstantAt(constants: seq<string>, ordinal: int): (r: Option<string>)
    ensures r.Some? <==> |constants| > 0
    ensures r.Some? ==> r.value in constants
  {
    if 0 <= ordinal < |constants| then Some(constants[ordinal])
    else if |constants| > 0 then Some(constants[0])
    else None
  }

  /** The generated encoder writes `value.ordinal`: reading that ordinal
      back gives the constant written, for every constant of every
      generated enum. */
  lemma EnumOrdinalRoundTrip(reg: Registry, e: EnumDesc, pkg: string, ec: EnumClass, i: nat)
    requires GenerateEnum(reg, e, pkg) == Success(ec)
    requires i < |e.values|
    ensures ConstantAt(ec.constants, i) == Some(e.values[i])
  {
  }

  /** An ordinal the enum does not have (a newer sender's constant, say)
      reads as the first constant rather than failing. */
  lemma UnknownOrdinalIsFirst(constants: seq<string>, ordinal: int)
    requires |constants| > 0 && !(0 <= ordinal < |constants|)
    ensures ConstantAt(constants, ordinal) == Some(constants[0])
  {
  }

  // ---------------------------------------------------------------------
  // Services
  // ---------------------------------------------------------------------

  /** The service's full protobuf name without the leading dot. */
  function ServiceFullName(pkg: string, service: string): string {
    if |pkg| > 0 then pkg + "." + service else service
  }

  /** The `urlPath` each client method posts to: `/<package>.<Service>/<Method>`,
      or `/<Service>/<Method>` without a package. */
  function UrlPath(pkg: string, service: string, rpc: string): string {
    if |pkg| > 0 then "/" + pkg + "." + service + "/" + rpc else "/" + service + "/" + rpc
  }

  lemma FreeAppend(a: string, b: string, c: char)
    requires Free(a, c) && Free(b, c)
    ensures Free(a + b, c)
  {
    forall i | 0 <= i < |a + b| ensures (a + b)[i] != c {
      if i >= |a| {
        assert (a + b)[i] == b[i - |a|];
      }
    }
  }

  /** The service's full name holds no slash when its parts hold none. */
  lemma FullNameFree(pkg: string, service: string)
    requires Free(pkg, '/') && Free(service, '/')
    ensures Free(ServiceFullName(pkg, service), '/')
  {
    if |pkg| > 0 {
      FreeAppend(pkg, ".", '/');
      FreeAppend(pkg + ".", service, '/');
    }
  }

  /** The path is the slash-joined list of the empty string, the full
      name and the method. */
  lemma PathIsJoin(pkg: string, service: string, rpc: string)
    ensures UrlPath(pkg, service, rpc) == Join(["", ServiceFullName(pkg, service), rpc], '/')
  {
    var full := ServiceFullName(pkg, service);
    assert ["", full, rpc][1..] == [full, rpc] && [full, rpc][1..] == [rpc];
    assert Join([full, rpc], '/') == full + ['/'] + rpc;
    assert Join(["", full, rpc], '/') == "" + ['/'] + (full + ['/'] + rpc);
  }

  /** The path splits at `/` into the empty string, the service's full
      name and the method name, and a dot before that full name gives the
      name the service is registered under. */
  lemma PathNamesService(pkg: string, service: string, rpc: string)
    requires Free(pkg, '/') && Free(service, '/') && Free(rpc, '/')
    ensures SplitOn(UrlPath(pkg, service, rpc), '/') == ["", ServiceFullName(pkg, service), rpc]
    ensures "." + ServiceFullName(pkg, service) == Prefix(pkg) + service
  {
    var parts := ["", ServiceFullName(pkg, service), rpc];
    FullNameFree(pkg, service);
    PathIsJoin(pkg, service, rpc);
    assert forall i :: 0 <= i < |parts| ==> Free(parts[i], '/');
    JoinSplit(parts, '/');
    if |pkg| > 0 {
      assert "." + (pkg + "." + service) == ("." + pkg + ".") + service;
    }
  }

  /** One rpc: the abstract `suspend fun` of the interface and the
      client's override that calls
      `client.unary(path, request, { it.encode() }, { Res.decode(it) })`
      have the same name, request and response classes. */
  datatype RpcStub = RpcStub(name: string, request: ClassName, response: ClassName, path: string)

  /** The service interface and its `<Service>Client` implementation,
      which takes the sdk's `ProtoClient`. */
  datatype ServiceClasses = ServiceClasses(iface: ClassName, clientName: string, stubs: seq<RpcStub>)

  /** Both message types of a method resolve by their full names. */
  predicate Resolves(reg: Registry, m: MethodDesc) {
    ResolveType(reg, m.inputType, None).Success? && ResolveType(reg, m.outputType, None).Success?
  }

  /** `s` is what `generateService` makes for method `m`. */
  predicate StubFor(reg: Registry, pkg: string, service: string, m: MethodDesc, s: RpcStub) {
    s.name == LowercaseFirst(m.name)
    && ResolveType(reg, m.inputType, None) == Success(s.request)
    && ResolveType(reg, m.outputType, None) == Success(s.response)
    && s.path == UrlPath(pkg, service, m.name)
  }

  /** The per-method loop of `generateService`: request type first, then
      response type, method by method; the first one missing throws. */
  function Stubs(reg: Registry, pkg: string, service: string, methods: seq<MethodDesc>): (r: Result<seq<RpcStub>, GenError>)
    ensures r.Success? ==> |r.value| == |methods|
    ensures r.Success? ==> forall i :: 0 <= i < |methods| ==> StubFor(reg, pkg, service, methods[i], r.value[i])
    ensures r.Failure? <==> exists i :: 0 <= i < |methods| && !Resolves(reg, methods[i])
    decreases |methods|
  {
    if |methods| == 0 then Success([])
    else
      var m := methods[0];
      var req :- ResolveType(reg, m.inputType, None);
      var res :- ResolveType(reg, m.outputType, None);
      var rest :- Stubs(reg, pkg, service, methods[1..]);
      assert forall i :: 1 <= i < |methods| ==> methods[1..][i - 1] == methods[i];
      Success([RpcStub(LowercaseFirst(m.name), req, res, UrlPath(pkg, service, m.name))] + rest)
  }

  /** `generateService(descriptor, pkg)`: the interface is the class the
      service is registered as, the client is named `<Service>Client`, and
      there is one stub per method. */
  function GenerateService(reg: Registry, svc: ServiceDesc, pkg: string): (r: Result<ServiceClasses, GenError>)
    ensures r.Success? <==>
              ResolveType(reg, svc.name, Some(pkg)).Success? && forall i :: 0 <= i < |svc.methods| ==> Resolves(reg, svc.methods[i])
    ensures r.Success? ==> ResolveType(reg, svc.name, Some(pkg)) == Success(r.value.iface)
    ensures r.Success? ==> r.value.clientName == svc.name + "Client" && |r.value.stubs| == |svc.methods|
    ensures r.Success? ==> forall i :: 0 <= i < |svc.methods| ==> StubFor(reg, pkg, svc.name, svc.methods[i], r.value.stubs[i])
  {
    var iface :- ResolveType(reg, svc.name, Some(pkg));
    var stubs :- Stubs(reg, pkg, svc.name, svc.methods);
    Success(ServiceClasses(iface, svc.name + "Client", stubs))
  }

  /** Every client method posts to the path of the service its interface
      was resolved from: the name between the path's slashes, with a dot
      in front, looks up the interface's class. */
  lemma StubPathMatchesInterface(reg: Registry, svc: ServiceDesc, pkg: string, sc: ServiceClasses, k: nat)
    requires GenerateService(reg, svc, pkg) == Success(sc)
    requires k < |svc.methods|
    requires !StartsWith(svc.name, ".")
    requires Free(pkg, '/') && Free(svc.name, '/') && Free(svc.methods[k].name, '/')
    ensures |SplitOn(sc.stubs[k].path, '/')| == 3
    ensures ResolveType(reg, "." + SplitOn(sc.stubs[k].path, '/')[1], None) == Success(sc.iface)
  {
    PathNamesService(pkg, svc.name, svc.methods[k].name);
    var full := ServiceFullName(pkg, svc.name);
    assert Qualify(svc.name, Some(pkg)) == Prefix(pkg) + svc.name;
    assert StartsWith("." + full, ".");
  }

  // ---------------------------------------------------------------------
  // Files
  // ---------------------------------------------------------------------

  /** A top-level declaration of a generated Kotlin file. */
  datatype TypeDecl =
    | MessageType(message: MessageClass)
    | EnumType(enumClass: EnumClass)
    | ServiceInterface(service: ServiceClasses)
    | ServiceClient(service: ServiceClasses)

  /** A `FileSpec`: its package, its file name (without `.kt`) and its
      declarations in order. */
  datatype OutputFile = OutputFile(packageName: string, fileName: string, types: seq<TypeDecl>)

  /** The messages' declarations, each with the file name a one-type-per-file
      output gives it (the message's own name). */
  function MessageDecls(reg: Registry, ms: seq<MessageDesc>, pkg: string): (r: Result<seq<(string, TypeDecl)>, GenError>)
    ensures r.Success? ==> |r.value| == |ms|
    ensures r.Success? ==> forall i :: 0 <= i < |ms| ==>
              r.value[i].0 == ms[i].name && r.value[i].1.MessageType?
              && GenerateMessage(reg, ms[i], pkg) == Success(r.value[i].1.message)
    ensures r.Failure? <==> exists i :: 0 <= i < |ms| && GenerateMessage(reg, ms[i], pkg).Failure?
    decreases |ms|
  {
    if |ms| == 0 then Success([])
    else
      var mc :- GenerateMessage(reg, ms[0], pkg);
      var rest :- MessageDecls(reg, ms[1..], pkg);
      assert forall i :: 1 <= i < |ms| ==> ms[1..][i - 1] == ms[i];
      Success([(ms[0].name, MessageType(mc))] + rest)
  }

  function EnumDecls(reg: Registry, es: seq<EnumDesc>, pkg: string): (r: Result<seq<(string, TypeDecl)>, GenError>)
    ensures r.Success? ==> |r.value| == |es|
    ensures r.Success? ==> forall i :: 0 <= i < |es| ==>
              r.value[i].0 == es[i].name && r.value[i].1.EnumType?
              && GenerateEnum(reg, es[i], pkg) == Success(r.value[i].1.enumClass)
    ensures r.Failure? <==> exists i :: 0 <= i < |es| && GenerateEnum(reg, es[i], pkg).Failure?
    decreases |es|
  {
    if |es| == 0 then Success([])
    else
      var ec :- GenerateEnum(reg, es[0], pkg);
      var rest :- EnumDecls(reg, es[1..], pkg);
      assert forall i :: 1 <= i < |es| ==> es[1..][i - 1] == es[i];
      Success([(es[0].name, EnumType(ec))] + rest)
  }

  /** Two declarations per service: the interface (in a file named after
      the service) and the client (in a file named after the client). */
  function ServiceDecls(reg: Registry, ss: seq<ServiceDesc>, pkg: string): (r: Result<seq<(string, TypeDecl)>, GenError>)
    ensures r.Success? ==> |r.value| == 2 * |ss|
    ensures r.Failure? <==> exists i :: 0 <= i < |ss| && GenerateService(reg, ss[i], pkg).Failure?
    decreases |ss|
  {
    if |ss| == 0 then Success([])
    else
      var sc :- GenerateService(reg, ss[0], pkg);
      var rest :- ServiceDecls(reg, ss[1..], pkg);
      var here := [(ss[0].name, ServiceInterface(sc)), (sc.clientName, ServiceClient(sc))];
      assert forall i :: 1 <= i < |ss| ==> ss[1..][i - 1] == ss[i];
      Success(here + rest)
  }

  /** Everything a file declares, in generation order: messages, enums,
      services. */
  function NamedDecls(reg: Registry, f: FileDesc): (r: Result<seq<(string, TypeDecl)>, GenError>)
    ensures r.Success? ==> |r.value| == |f.messages| + |f.enums| + 2 * |f.services|
  {
    var ms :- MessageDecls(reg, f.messages, f.pkg);
    var es :- EnumDecls(reg, f.enums, f.pkg);
    var ss :- ServiceDecls(reg, f.services, f.pkg);
    Success(ms + es + ss)
  }

  function Types(named: seq<(string, TypeDecl)>): (ts: seq<TypeDecl>)
    ensures |ts| == |named|
    ensures forall i :: 0 <= i < |named| ==> ts[i] == named[i].1
  {
    seq(|named|, i requires 0 <= i < |named| => named[i].1)
  }

  /** The index of the last `c` in `s`, if any. */
  function LastIndex(s: string, c: char): (r: Option<nat>)
    ensures r.None? <==> Free(s, c)
    ensures r.Some? ==> r.value < |s| && s[r.value] == c && Free(s[r.value + 1..], c)
    decreases |s|
  {
    if |s| == 0 then None
    else if s[|s| - 1] == c then Some(|s| - 1)
    else
      var r := LastIndex(s[..|s| - 1], c);
      if r.Some? then
        assert s[r.value + 1..] == s[..|s| - 1][r.value + 1..] + [s[|s| - 1]];
        FreeAppend(s[..|s| - 1][r.value + 1..], [s[|s| - 1]], c);
        r
      else
        assert s == s[..|s| - 1] + [s[|s| - 1]];
        FreeAppend(s[..|s| - 1], [s[|s| - 1]], c);
        r
  }

  /** `substringAfterLast(c)`: the whole string when `c` is absent. */
  function AfterLast(s: string, c: char): string {
    match LastIndex(s, c)
    case None => s
    case Some(i) => s[i + 1..]
  }

  /** `substringBeforeLast(c)`: the whole string when `c` is absent. */
  function BeforeLast(s: string, c: char): string {
    match LastIndex(s, c)
    case None => s
    case Some(i) => s[..i]
  }

  /** The single output file's name: the schema file's base name without
      its extension, then `Protokit`. */
  function OutputName(fileName: string): string {
    BeforeLast(AfterLast(fileName, '/'), '.') + "Protokit"
  }

  /** A `c` with none after it is the last one. */
  lemma LastIndexAt(s: string, c: char, k: nat)
    requires k < |s| && s[k] == c && Free(s[k + 1..], c)
    ensures LastIndex(s, c) == Some(k)
  {
  }

  /** The name after the last `/` of a path in a directory. */
  lemma AfterDirectory(dir: string, name: string)
    requires |dir| == 0 || dir[|dir| - 1] == '/'
    requires Free(name, '/')
    ensures AfterLast(dir + name, '/') == name
  {
    if |dir| > 0 {
      assert (dir + name)[|dir|..] == name;
      LastIndexAt(dir + name, '/', |dir| - 1);
    } else {
      assert dir + name == name;
    }
  }

  /** The stem before the extension's dot. */
  lemma BeforeExtension(stem: string, ext: string)
    requires Free(ext, '.')
    ensures BeforeLast(stem + "." + ext, '.') == stem
  {
    var name := stem + "." + ext;
    assert name[|stem| + 1..] == ext;
    LastIndexAt(name, '.', |stem|);
    assert name[..|stem|] == stem;
  }

  /** `dir/stem.ext` gives `stemProtokit`, whatever directory it sits in,
      as long as the extension holds no dot and the name no slash. */
  lemma OutputNameOfPath(dir: string, stem: string, ext: string)
    requires |dir| == 0 || dir[|dir| - 1] == '/'
    requires Free(stem, '/') && Free(ext, '/') && Free(ext, '.')
    ensures OutputName(dir + stem + "." + ext) == stem + "Protokit"
  {
    var name := stem + "." + ext;
    FreeAppend(stem, ".", '/');
    FreeAppend(stem + ".", ext, '/');
    assert dir + name == dir + stem + "." + ext;
    AfterDirectory(dir, name);
    BeforeExtension(stem, ext);
  }

  /** `generateFile(file)`: with `java_multiple_files` one file per
      declaration (two per service), otherwise one file named after the
      schema file; all in the file's target package. */
  function GenerateFile(reg: Registry, f: FileDesc): (r: Result<seq<OutputFile>, GenError>)
    ensures r.Success? <==> NamedDecls(reg, f).Success?
    ensures r.Success? ==> forall o :: o in r.value ==> o.packageName == TargetPackage(f)
    ensures r.Success? && f.javaMultipleFiles ==>
              |r.value| == |f.messages| + |f.enums| + 2 * |f.services|
              && forall i :: 0 <= i < |r.value| ==> |r.value[i].types| == 1
    ensures r.Success? && !f.javaMultipleFiles ==> |r.value| == 1 && r.value[0].fileName == OutputName(f.name)
  {
    var named :- NamedDecls(reg, f);
    if f.javaMultipleFiles then
      Success(seq(|named|, i requires 0 <= i < |named| => OutputFile(TargetPackage(f), named[i].0, [named[i].1])))
    else
      Success([OutputFile(TargetPackage(f), OutputName(f.name), Types(named))])
  }

  /** All the declarations of a list of files, in order. */
  function AllTypes(os: seq<OutputFile>): seq<TypeDecl> {
    if |os| == 0 then [] else os[0].types + AllTypes(os[1..])
  }

  lemma {:induction false} AllTypesOfSingles(named: seq<(string, TypeDecl)>, pkg: string)
    ensures AllTypes(seq(|named|, i requires 0 <= i < |named| => OutputFile(pkg, named[i].0, [named[i].1]))) == Types(named)
    decreases |named|
  {
    var os := seq(|named|, i requires 0 <= i < |named| => OutputFile(pkg, named[i].0, [named[i].1]));
    if |named| > 0 {
      AllTypesOfSingles(named[1..], pkg);
      assert os[1..] == seq(|named[1..]|, i requires 0 <= i < |named[1..]| => OutputFile(pkg, named[1..][i].0, [named[1..][i].1]));
      assert Types(named) == [named[0].1] + Types(named[1..]);
    }
  }

  /** `java_multiple_files` changes only how declarations are spread over
      files: of two files that differ only in that option, both fail alike,
      or give the same declarations in the same order. */
  lemma FileModesAgree(reg: Registry, f: FileDesc, g: FileDesc)
    requires f.javaMultipleFiles && !g.javaMultipleFiles
    requires f.name == g.name && f.pkg == g.pkg && f.javaPackage == g.javaPackage
    requires f.messages == g.messages && f.enums == g.enums && f.services == g.services
    ensures GenerateFile(reg, f).Success? <==> GenerateFile(reg, g).Success?
    ensures GenerateFile(reg, f).Success? ==> AllTypes(GenerateFile(reg, f).value) == AllTypes(GenerateFile(reg, g).value)
  {
    assert NamedDecls(reg, f) == NamedDecls(reg, g);
    if NamedDecls(reg, f).Success? {
      var named := NamedDecls(reg, f).value;
      AllTypesOfSingles(named, TargetPackage(f));
      var single := [OutputFile(TargetPackage(g), OutputName(g.name), Types(named))];
      assert GenerateFile(reg, g) == Success(single);
      assert AllTypes(single) == Types(named) + AllTypes([]);
    }
  }

  /** The files `generate()` skips: the well-known types. */
  predicate WellKnown(f: FileDesc) {
    StartsWith(f.name, "google/protobuf")
  }

  /** The file loop of `generate()`; the first failure stops it. */
  function GenerateAll(reg: Registry, files: seq<FileDesc>): (r: Result<seq<OutputFile>, GenError>)
    ensures r.Success? ==> forall o :: o in r.value ==>
              exists f :: f in files && !WellKnown(f) && o.packageName == TargetPackage(f)
    ensures (forall i :: 0 <= i < |files| ==> WellKnown(files[i])) ==> r == Success([])
    decreases |files|
  {
    if |files| == 0 then Success([])
    else if WellKnown(files[0]) then
      assert forall i :: 1 <= i < |files| ==> files[1..][i - 1] == files[i];
      GenerateAll(reg, files[1..])
    else
      var out :- GenerateFile(reg, files[0]);
      var rest :- GenerateAll(reg, files[1..]);
      assert forall i :: 1 <= i < |files| ==> files[1..][i - 1] == files[i];
      assert forall o :: o in out ==> o.packageName == TargetPackage(files[0]);
      Success(out + rest)
  }

  /** `generate()`: the registry is built from every file, the well-known
      ones included, so their types resolve although no code is made for
      them. */
  function Generate(files: seq<FileDesc>, variant: Variant): (r: Result<seq<OutputFile>, GenError>)
    ensures r.Success? ==> forall o :: o in r.value ==>
              exists f :: f in files && !WellKnown(f) && o.packageName == TargetPackage(f)
  {
    GenerateAll(BuildRegistry(files, variant), files)
  }

  /** A well-known file in the set adds no output, yet its declarations
      still resolve for the files that use them. */
  lemma WellKnownRegisteredNotGenerated(files: seq<FileDesc>, variant: Variant, fi: nat, k: nat)
    requires fi < |files| && WellKnown(files[fi])
    requires k < |DeclaredNames(files[fi])|
    ensures Prefix(files[fi].pkg) + DeclaredNames(files[fi])[k] in BuildRegistry(files, variant).types
    ensures GenerateAll(BuildRegistry(files, variant), [files[fi]]) == Success([])
  {
    DeclarationWritten(files, fi, k);
    var key := Prefix(files[fi].pkg) + DeclaredNames(files[fi])[k];
    var i :| 0 <= i < |AllRegistrations(files)| && AllRegistrations(files)[i].0 == key;
    assert key in KeysOf(AllRegistrations(files));
  }
}
