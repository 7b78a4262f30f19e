/** `EsResolver::resolve_impl` and the tsconfig chain it depends on: the
    classification of a specifier (Node built-in, relative or absolute,
    bare), the tsconfig `paths` step for bare specifiers, and the
    `node_modules` search. The lookup of an `extends` target resolves it
    with `resolve_impl` again, so the three functions below are mutually
    recursive; `fuel` bounds the depth of the `extends` chain, which the
    Rust code does not (a cycle there overflows its stack). */
module EsResolver {
  import opened Wrappers
  import opened Utils
  import opened Types
  import opened Paths
  import opened FileSystems
  import opened TsconfigPaths
  import opened PackageExports
  import opened Probing

  /** The resolver's fields: the specifier, the importing file, the target
      environment and the options. */
  datatype Resolver = Resolver(target: string, from: Path, env: TargetEnv, options: EsResolveOptions)

  /** `EsResolver::new`: the environment's default options. */
  function NewResolver(target: string, from: Path, env: TargetEnv, extensions: seq<Extension>): (w: Resolver)
    ensures w.options == DefaultFor(env, extensions)
    ensures w.target == target && w.from == from && w.env == env
  {
    Resolver(target, from, env, DefaultFor(env, extensions))
  }

  /** `ok_with`: the cleaned path as a string. `PathClean::clean` writes
      a path with nothing left as ".", so the answer is never empty, and it
      reads back as the cleaned path. */
  function OkWith(p: Path): (s: string)
    ensures s != ""
    ensures WellFormed(p) ==> ToPath(s) == Clean(p)
    ensures Clean(p) == Path(false, []) <==> s == "."
  {
    var q := Clean(p);
    if q == Path(false, []) then
      assert ToPath(".") == q by { assert Split(".") == SplitFrom("", "."); }
      "."
    else
      assert WellFormed(p) ==> ToPath(PathString(q)) == q by {
        if WellFormed(p) {
          PathStringRoundTrip(q);
        }
      }
      PathStringOfCleanSegments(q);
      PathString(q)
  }

  /** A specifier starting with `.` or `/` is resolved against the
      importing file. */
  predicate IsRelative(target: string) {
    StartsWith(target, ".") || StartsWith(target, "/")
  }

  /** Errors that a package lookup may raise but that never leave
      `resolve_impl`: they are swallowed by the `node_modules` step. */
  predicate PackageOnlyError(e: EsResolverError) {
    e == InvalidExports || e == InvalidPackageJSON || e == InvalidModuleSpecifier
  }

  /** `load_as_relative`: the path as a file, else as a directory. */
  function LoadAsRelative(fs: FileSystem, c: Constants, opts: EsResolveOptions, absTo: Path): (r: Option<string>)
    ensures r.Some? ==> r.value != ""
    ensures LoadAsFile(fs, c, absTo, opts.extensions).Some? ==>
      r == Some(OkWith(LoadAsFile(fs, c, absTo, opts.extensions).value))
    ensures LoadAsFile(fs, c, absTo, opts.extensions).None? ==>
      (r.Some? <==> LoadAsDirectory(fs, c, opts, absTo).Some?)
    ensures r.Some? && LoadAsFile(fs, c, absTo, opts.extensions).None? ==>
      r.value == OkWith(LoadAsDirectory(fs, c, opts, absTo).value)
  {
    var asFile := LoadAsFile(fs, c, absTo, opts.extensions);
    if asFile.Some? then Some(OkWith(asFile.value))
    else
      var asDir := LoadAsDirectory(fs, c, opts, absTo);
      if asDir.Some? then Some(OkWith(asDir.value)) else None
  }

  /** `LoadAsRelative` for each candidate, in order. */
  function Loads(fs: FileSystem, c: Constants, opts: EsResolveOptions, candidates: seq<Path>): (r: seq<Option<string>>)
    ensures |r| == |candidates|
    ensures forall i :: 0 <= i < |candidates| ==> r[i] == LoadAsRelative(fs, c, opts, candidates[i])
  {
    seq(|candidates|, i requires 0 <= i < |candidates| => LoadAsRelative(fs, c, opts, candidates[i]))
  }

  /** The candidate loop of src/es_resolver.rs:101-106: the first
      candidate, in order, that loads. */
  function FirstRelative(fs: FileSystem, c: Constants, opts: EsResolveOptions, candidates: seq<Path>): (r: Option<string>)
    ensures r.None? <==> forall i :: 0 <= i < |candidates| ==> LoadAsRelative(fs, c, opts, candidates[i]).None?
    ensures r.Some? ==> exists i :: 0 <= i < |candidates| && LoadAsRelative(fs, c, opts, candidates[i]) == r
                          && forall j :: 0 <= j < i ==> LoadAsRelative(fs, c, opts, candidates[j]).None?
  {
    FirstLoadIsFirstRelative(fs, c, opts, candidates);
    FirstSome(Loads(fs, c, opts, candidates))
  }

  /** `FirstRelative`'s contract, read off the outcomes `Loads` lists. */
  lemma FirstLoadIsFirstRelative(fs: FileSystem, c: Constants, opts: EsResolveOptions, candidates: seq<Path>)
    ensures var r := FirstSome(Loads(fs, c, opts, candidates));
      && (r.None? <==> forall i :: 0 <= i < |candidates| ==> LoadAsRelative(fs, c, opts, candidates[i]).None?)
      && (r.Some? ==> exists i :: 0 <= i < |candidates| && LoadAsRelative(fs, c, opts, candidates[i]) == r
                                 && forall j :: 0 <= j < i ==> LoadAsRelative(fs, c, opts, candidates[j]).None?)
  {
    var f := p => LoadAsRelative(fs, c, opts, p);
    FirstSomeOfMap(f, candidates, Loads(fs, c, opts, candidates));
  }

  /** The `node_modules` step of src/es_resolver.rs:113-131: search from
      the importing file's directory. Only a found file counts; every error
      but an abort becomes "not found". */
  function ViaNodeModules(fs: FileSystem, c: Constants, w: Resolver, absFrom: Path): (r: Result<string, EsResolverError>)
    ensures r.Err? ==> r.error == ModuleNotFound || r.error.Panic?
    ensures r.Ok? ==> r.value != ""
    ensures Parent(absFrom).None? ==> r == Err(ModuleNotFound)
    ensures Parent(absFrom).Some? ==>
      var found := LoadNodeModules(fs, c, w.options, Parent(absFrom).value, w.target);
      && (r.Ok? <==> found.Ok? && found.value.Some?)
      && (r.Ok? ==> r.value == OkWith(found.value.value))
      && (found.Err? && found.error.Panic? ==> r == Err(found.error))
      && (found == Ok(None) || (found.Err? && !found.error.Panic?) ==> r == Err(ModuleNotFound))
  {
    match Parent(absFrom)
    case None => Err(ModuleNotFound)
    case Some(fromDir) =>
      var found := LoadNodeModules(fs, c, w.options, fromDir, w.target);
      if found.Ok? && found.value.Some? then Ok(OkWith(found.value.value))
      else if found.Err? && found.error.Panic? then Err(found.error)
      else Err(ModuleNotFound)
  }

  /** The file the `node_modules` step answers with is the one found by
      the nearest ancestor whose probe decides: every nearer directory's
      probe came back empty. */
  lemma NodeModulesAnswerIsNearestPackage(fs: FileSystem, c: Constants, w: Resolver, absFrom: Path, fromDir: Path)
    requires Parent(absFrom) == Some(fromDir)
    requires ViaNodeModules(fs, c, w, absFrom).Ok?
    ensures var found := LoadNodeModules(fs, c, w.options, fromDir, w.target);
      && found.Ok? && found.value.Some?
      && ViaNodeModules(fs, c, w, absFrom).value == OkWith(found.value.value)
      && exists k :: 0 <= k < |Ancestors(fromDir)|
           && ProbeNodeModules(fs, c, w.options, Ancestors(fromDir)[k], w.target) == Some(found)
           && forall i :: 0 <= i < k ==> ProbeNodeModules(fs, c, w.options, Ancestors(fromDir)[i], w.target).None?
  {
    DecisionComesFromNearestProbe(fs, c, w.options, fromDir, w.target);
  }

  /** `resolve_impl`. */
  function ResolveImpl(fs: FileSystem, c: Constants, w: Resolver, isTsconfig: bool, fuel: nat)
    : (r: Result<string, EsResolverError>)
    ensures r.Err? ==> !PackageOnlyError(r.error)
    ensures r.Ok? ==> r.value != ""
    ensures w.env.Node? && StartsWith(w.target, "node:") ==> r == Ok(w.target)
    ensures w.env.Node? && !StartsWith(w.target, "node:") && w.target in c.nodeCoreModules ==> r == Ok("node:" + w.target)
    ensures !Builtin(c, w) && !Exists(fs, w.from) ==> r == Err(IOError)
    ensures !Builtin(c, w) && Exists(fs, w.from) && IsRelative(w.target) ==>
      var loaded := LoadAsRelative(fs, c, w.options, WithFileName(Absolute(fs, w.from), w.target));
      && (r.Ok? <==> loaded.Some?)
      && (r.Ok? ==> r.value == loaded.value)
      && (r.Err? ==> r.error == ModuleNotFound)
    ensures !Builtin(c, w) && Exists(fs, w.from) && !IsRelative(w.target) && isTsconfig ==>
      r == ViaNodeModules(fs, c, w, Absolute(fs, w.from))
    decreases fuel, if isTsconfig then 0 else 4, 0, 0
  {
    if w.env.Node? && StartsWith(w.target, "node:") then Ok(w.target)
    else if w.env.Node? && w.target in c.nodeCoreModules then Ok("node:" + w.target)
    else
      var absFrom :- Canonicalize(fs, w.from);
      if IsRelative(w.target) then
        match LoadAsRelative(fs, c, w.options, WithFileName(absFrom, w.target))
        case Some(s) => Ok(s)
        case None => Err(ModuleNotFound)
      else
        var viaPaths :- if isTsconfig then Ok(None) else ViaTsconfigPaths(fs, c, w, fuel);
        if viaPaths.Some? then Ok(viaPaths.value)
        else ViaNodeModules(fs, c, w, absFrom)
  }

  /** The tsconfig step of src/es_resolver.rs:89-111: the nearest config,
      searched from the importing file itself; when it has `paths`, the
      first mapped candidate that loads. `baseUrl` defaults to ".". */
  function ViaTsconfigPaths(fs: FileSystem, c: Constants, w: Resolver, fuel: nat)
    : (r: Result<Option<string>, EsResolverError>)
    ensures r.Err? ==> !PackageOnlyError(r.error)
    ensures r.Ok? && r.value.Some? ==> r.value.value != ""
    ensures var ts := ResolveTsconfig(fs, c, w.options, w.from, c.tsconfigNames, fuel);
      && (ts.Err? ==> r == Err(ts.error))
      && (ts.Ok? && (ts.value.None? || ts.value.value.compilerOptions.paths.None?) ==> r == Ok(None))
      && (ts.Ok? && ts.value.Some? && ts.value.value.compilerOptions.paths.Some? ==>
            var o := ts.value.value.compilerOptions;
            var m := MatchTsconfigPaths(w.target, o.baseUrl.GetOr("."), o.paths.value);
            && (m.Err? ==> r == Err(m.error))
            && (m.Ok? ==> r == Ok(FirstRelative(fs, c, w.options, m.value))))
    decreases fuel, 3, 0, 0
  {
    var ts :- ResolveTsconfig(fs, c, w.options, w.from, c.tsconfigNames, fuel);
    if ts.None? || ts.value.compilerOptions.paths.None? then Ok(None)
    else
      var opts := ts.value.compilerOptions;
      var candidates :- MatchTsconfigPaths(w.target, opts.baseUrl.GetOr("."), opts.paths.value);
      Ok(FirstRelative(fs, c, w.options, candidates))
  }

  /** `resolve_tsconfig`: in `cur` and then in each parent, the config
      names in order; the first that parses is the config, and an error
      ends the search. */
  function ResolveTsconfig(fs: FileSystem, c: Constants, opts: EsResolveOptions, cur: Path, names: seq<string>, fuel: nat)
    : (r: Result<Option<TSConfig>, EsResolverError>)
    ensures r.Err? ==> !PackageOnlyError(r.error)
    decreases fuel, 2, |cur.segments|, |names|
  {
    if |names| == 0 then
      match Parent(cur)
      case None => Ok(None)
      case Some(parent) => ResolveTsconfig(fs, c, opts, parent, c.tsconfigNames, fuel)
    else
      var here :- ParseTsconfig(fs, c, opts, Join(cur, names[0]), fuel);
      if here.Some? then Ok(here) else ResolveTsconfig(fs, c, opts, cur, names[1..], fuel)
  }

  /** `parse_tsconfig`: nothing when the file cannot be read; its
      `baseUrl` rebased onto its directory; with `extends`, the target is
      resolved as a Node specifier from this file, parsed in turn, and
      merged under this config. */
  function ParseTsconfig(fs: FileSystem, c: Constants, opts: EsResolveOptions, path: Path, fuel: nat)
    : (r: Result<Option<TSConfig>, EsResolverError>)
    ensures r.Err? ==> !PackageOnlyError(r.error)
    ensures ReadTsconfig(fs, path).None? ==> r == Ok(None)
    ensures ReadTsconfig(fs, path) == Some(Unparsable) ==> r == Err(InvalidTSConfig)
    decreases fuel, 1, 0, 0
  {
    match ReadTsconfig(fs, path)
    case None => Ok(None)
    case Some(Unparsable) => Err(InvalidTSConfig)
    case Some(Document(t)) =>
      var own := RebaseBaseUrl(path, t.compilerOptions);
      match t.extendsRef
      case None => Ok(Some(t.(compilerOptions := own)))
      case Some(ext) =>
        if fuel == 0 then Err(Panic(ExtendsTooDeep))
        else
          var extPath :- ResolveImpl(fs, c, Resolver(ext, path, TargetEnv.Node, opts), true, fuel - 1);
          var parent :- ParseTsconfig(fs, c, opts, ToPath(extPath), fuel - 1);
          if parent.None? then Err(InvalidTSConfigExtend)
          else Ok(Some(t.(compilerOptions := MergeExtends(own, parent.value.compilerOptions))))
  }

  /** `EsResolver::resolve`. */
  function Resolve(fs: FileSystem, c: Constants, w: Resolver, fuel: nat): (r: Result<string, EsResolverError>)
    ensures r.Err? ==> !PackageOnlyError(r.error)
  {
    ResolveImpl(fs, c, w, false, fuel)
  }

  /** Under Node, a `node:` specifier is returned as it is, before any
      file is looked at. */
  lemma NodeSchemePassesThrough(fs: FileSystem, c: Constants, w: Resolver, isTsconfig: bool, fuel: nat)
    requires w.env.Node? && StartsWith(w.target, "node:")
    ensures ResolveImpl(fs, c, w, isTsconfig, fuel) == Ok(w.target)
  {
  }

  /** Under Node, a core module name gets the `node:` scheme. */
  lemma CoreModuleGetsScheme(fs: FileSystem, c: Constants, w: Resolver, isTsconfig: bool, fuel: nat)
    requires w.env.Node? && !StartsWith(w.target, "node:") && w.target in c.nodeCoreModules
    ensures ResolveImpl(fs, c, w, isTsconfig, fuel) == Ok("node:" + w.target)
  {
  }

  /** Not a built-in: an importing file that does not exist is an I/O
      error, whatever the specifier. */
  predicate Builtin(c: Constants, w: Resolver) {
    w.env.Node? && (StartsWith(w.target, "node:") || w.target in c.nodeCoreModules)
  }

  lemma MissingImporterIsIOError(fs: FileSystem, c: Constants, w: Resolver, isTsconfig: bool, fuel: nat)
    requires !Builtin(c, w) && !Exists(fs, w.from)
    ensures ResolveImpl(fs, c, w, isTsconfig, fuel) == Err(IOError)
  {
  }

  /** A relative or absolute specifier is resolved next to the importing
      file, as a file and then as a directory; tsconfig is never read, so
      the result is the same as in tsconfig mode and needs no fuel. When
      neither probe succeeds the result is `ModuleNotFound`. */
  lemma RelativeSkipsTsconfig(fs: FileSystem, c: Constants, w: Resolver, fuel: nat)
    requires !Builtin(c, w) && IsRelative(w.target) && Exists(fs, w.from)
    ensures var absTo := WithFileName(Absolute(fs, w.from), w.target);
      && ResolveImpl(fs, c, w, false, fuel) == ResolveImpl(fs, c, w, true, 0)
      && ResolveImpl(fs, c, w, false, fuel)
         == match LoadAsRelative(fs, c, w.options, absTo)
            case Some(s) => Ok(s)
            case None => Err(ModuleNotFound)
  {
  }

  /** A relative specifier that is not itself a file resolves to the first
      extension, in list order, under which something exists. */
  lemma RelativeTakesFirstExtension(fs: FileSystem, c: Constants, w: Resolver, fuel: nat, found: Path)
    requires !Builtin(c, w) && IsRelative(w.target) && Exists(fs, w.from)
    requires var absTo := WithFileName(Absolute(fs, w.from), w.target);
      !IsFile(fs, absTo) && FirstExtension(fs, absTo, w.options.extensions) == Some(found)
    ensures ResolveImpl(fs, c, w, false, fuel) == Ok(OkWith(found))
  {
    RelativeSkipsTsconfig(fs, c, w, fuel);
  }

  /** A bare specifier that the tsconfig step does not settle is resolved
      exactly as in tsconfig mode, from `node_modules`: a config without
      `paths`, or whose candidates all fail to load, falls through. */
  lemma UnsettledPathsFallThrough(fs: FileSystem, c: Constants, w: Resolver, fuel: nat)
    requires !Builtin(c, w) && !IsRelative(w.target)
    requires ViaTsconfigPaths(fs, c, w, fuel) == Ok(None)
    ensures ResolveImpl(fs, c, w, false, fuel) == ResolveImpl(fs, c, w, true, fuel)
  {
  }

  /** When the candidates of a config's `paths` all fail, the tsconfig
      step does not settle the specifier. */
  lemma FailedCandidatesDoNotSettle(fs: FileSystem, c: Constants, w: Resolver, fuel: nat, t: TSConfig)
    requires ResolveTsconfig(fs, c, w.options, w.from, c.tsconfigNames, fuel) == Ok(Some(t))
    requires t.compilerOptions.paths.Some?
    requires var m := MatchTsconfigPaths(w.target, t.compilerOptions.baseUrl.GetOr("."), t.compilerOptions.paths.value);
      m.Ok? && forall i :: 0 <= i < |m.value| ==> LoadAsRelative(fs, c, w.options, m.value[i]).None?
    ensures ViaTsconfigPaths(fs, c, w, fuel) == Ok(None)
  {
  }

  /** A config without `paths`, or no config at all, does not settle the
      specifier either. */
  lemma NoPathsDoNotSettle(fs: FileSystem, c: Constants, w: Resolver, fuel: nat)
    requires var ts := ResolveTsconfig(fs, c, w.options, w.from, c.tsconfigNames, fuel);
      ts == Ok(None) || (ts.Ok? && ts.value.Some? && ts.value.value.compilerOptions.paths.None?)
    ensures ViaTsconfigPaths(fs, c, w, fuel) == Ok(None)
  {
  }

  /** A mapped candidate that loads wins, ahead of `node_modules`. */
  lemma MappedCandidateWins(fs: FileSystem, c: Constants, w: Resolver, fuel: nat, s: string)
    requires !Builtin(c, w) && !IsRelative(w.target) && Exists(fs, w.from)
    requires ViaTsconfigPaths(fs, c, w, fuel) == Ok(Some(s))
    ensures ResolveImpl(fs, c, w, false, fuel) == Ok(s)
  {
  }

  /** An error of the tsconfig step (an unparsable config, a broken
      `extends`, a capture that aborts) ends the resolution. */
  lemma TsconfigErrorsPropagate(fs: FileSystem, c: Constants, w: Resolver, fuel: nat)
    requires !Builtin(c, w) && !IsRelative(w.target) && Exists(fs, w.from)
    requires ViaTsconfigPaths(fs, c, w, fuel).Err?
    ensures ResolveImpl(fs, c, w, false, fuel) == Err(ViaTsconfigPaths(fs, c, w, fuel).error)
  {
  }

  /** In tsconfig mode a bare specifier goes straight to `node_modules`:
      the file found there is the answer, and any failure of the search
      other than an abort is `ModuleNotFound`. */
  lemma BareSpecifierUsesNodeModules(fs: FileSystem, c: Constants, w: Resolver, fuel: nat, fromDir: Path)
    requires !Builtin(c, w) && !IsRelative(w.target) && Exists(fs, w.from)
    requires Parent(Absolute(fs, w.from)) == Some(fromDir)
    ensures var found := LoadNodeModules(fs, c, w.options, fromDir, w.target);
      ResolveImpl(fs, c, w, true, fuel)
      == if found.Ok? && found.value.Some? then Ok(OkWith(found.value.value))
         else if found.Err? && found.error.Panic? then found.PropagateFailure()
         else Err(ModuleNotFound)
  {
  }

  /** A config that does not extend another one has its own options, with
      `baseUrl` rebased onto its directory. */
  lemma ConfigWithoutExtends(fs: FileSystem, c: Constants, opts: EsResolveOptions, path: Path, fuel: nat, t: TSConfig)
    requires ReadTsconfig(fs, path) == Some(Document(t)) && t.extendsRef.None?
    ensures ParseTsconfig(fs, c, opts, path, fuel)
         == Ok(Some(t.(compilerOptions := RebaseBaseUrl(path, t.compilerOptions))))
  {
  }

  /** With `extends`, the target is resolved as a Node specifier from the
      config file, parsed, and merged under the config's own rebased
      options; a target that resolves to no readable config is
      `InvalidTSConfigExtend`. */
  lemma ConfigWithExtends(fs: FileSystem, c: Constants, opts: EsResolveOptions, path: Path, fuel: nat, t: TSConfig, extPath: string)
    requires ReadTsconfig(fs, path) == Some(Document(t)) && t.extendsRef.Some? && fuel > 0
    requires ResolveImpl(fs, c, Resolver(t.extendsRef.value, path, TargetEnv.Node, opts), true, fuel - 1) == Ok(extPath)
    ensures var parent := ParseTsconfig(fs, c, opts, ToPath(extPath), fuel - 1);
      && (parent == Ok(None) ==> ParseTsconfig(fs, c, opts, path, fuel) == Err(InvalidTSConfigExtend))
      && (parent.Ok? && parent.value.Some? ==>
            ParseTsconfig(fs, c, opts, path, fuel)
            == Ok(Some(t.(compilerOptions := MergeExtends(RebaseBaseUrl(path, t.compilerOptions),
                                                           parent.value.value.compilerOptions)))))
  {
  }

  /** The first config name that parses in the start directory is the
      config; nothing further up is read. */
  lemma NearestConfigWins(fs: FileSystem, c: Constants, opts: EsResolveOptions, cur: Path, fuel: nat, t: TSConfig)
    requires |c.tsconfigNames| > 0
    requires ParseTsconfig(fs, c, opts, Join(cur, c.tsconfigNames[0]), fuel) == Ok(Some(t))
    ensures ResolveTsconfig(fs, c, opts, cur, c.tsconfigNames, fuel) == Ok(Some(t))
  {
  }

  /** A package whose object `exports` has no key for the subpath, exact
      or pattern, resolves to the empty path, which `ok_with` writes as
      "." (src/es_resolver.rs:501 and 42-44). */
  lemma UncoveredSubpathResolvesToDot(fs: FileSystem, c: Constants, w: Resolver, fuel: nat, fromDir: Path, pj: PackageJSON)
    requires !Builtin(c, w) && !IsRelative(w.target) && Exists(fs, w.from)
    requires ViaTsconfigPaths(fs, c, w, fuel) == Ok(None)
    requires Parent(Absolute(fs, w.from)) == Some(fromDir)
    requires ParsePackageName(w.target).Ok?
    requires ReadPackageJson(fs, Join(Join(Join(fromDir, NodeModules), ParsePackageName(w.target).value.0), PackageJsonName)) == Ok(pj)
    requires pj.exports.Some? && pj.exports.value.Object?
    requires var sub := "." + ParsePackageName(w.target).value.1;
      && ExactMiss(pj.exports.value, sub)
      && forall i :: 0 <= i < |pj.exports.value.entries| && pj.exports.value.entries[i].1.Some? ==>
           |pj.exports.value.entries[i].0| == 0 || !MatchExportsPattern(pj.exports.value.entries[i].0, sub)
    ensures Resolve(fs, c, w, fuel) == Ok(".")
  {
    var nm := Join(fromDir, NodeModules);
    var pjPath := Join(Join(nm, ParsePackageName(w.target).value.0), PackageJsonName);
    NoMatchingKeyGivesEmptyPath(pjPath, pj.exports.value, "." + ParsePackageName(w.target).value.1, w.options.conditions);
    ExportsHideFiles(fs, c, w.options, nm, w.target, pj);
    assert LoadNodeModules(fs, c, w.options, fromDir, w.target) == Ok(Some(EmptyPath));
    UnsettledPathsFallThrough(fs, c, w, fuel);
  }

  /** One step of the name loop: a name that comes back empty passes the
      search on to the remaining names, and any other outcome ends it. */
  lemma ConfigNameStep(fs: FileSystem, c: Constants, opts: EsResolveOptions, cur: Path, names: seq<string>, fuel: nat)
    requires |names| > 0
    ensures var here := ParseTsconfig(fs, c, opts, Join(cur, names[0]), fuel);
      ResolveTsconfig(fs, c, opts, cur, names, fuel)
      == if here == Ok(None) then ResolveTsconfig(fs, c, opts, cur, names[1..], fuel) else here
  {
  }

  /** Names that come back empty are passed over. */
  lemma {:induction false} EmptyNamesSkipped(fs: FileSystem, c: Constants, opts: EsResolveOptions, cur: Path,
                                             names: seq<string>, fuel: nat, k: nat)
    requires k <= |names|
    requires forall j :: 0 <= j < k ==> ParseTsconfig(fs, c, opts, Join(cur, names[j]), fuel) == Ok(None)
    ensures ResolveTsconfig(fs, c, opts, cur, names, fuel) == ResolveTsconfig(fs, c, opts, cur, names[k..], fuel)
    decreases k
  {
    if k > 0 {
      ConfigNameStep(fs, c, opts, cur, names, fuel);
      var rest := names[1..];
      assert rest[k - 1..] == names[k..];
      assert forall j :: 0 <= j < k - 1 ==> rest[j] == names[j + 1];
      EmptyNamesSkipped(fs, c, opts, cur, rest, fuel, k - 1);
    }
  }

  /** Within one directory the config names are tried in order: the first
      name that does not come back empty decides, a parse error included. */
  lemma FirstConfigNameWins(fs: FileSystem, c: Constants, opts: EsResolveOptions, cur: Path,
                            names: seq<string>, fuel: nat, k: nat)
    requires k < |names|
    requires forall j :: 0 <= j < k ==> ParseTsconfig(fs, c, opts, Join(cur, names[j]), fuel) == Ok(None)
    requires ParseTsconfig(fs, c, opts, Join(cur, names[k]), fuel) != Ok(None)
    ensures ResolveTsconfig(fs, c, opts, cur, names, fuel) == ParseTsconfig(fs, c, opts, Join(cur, names[k]), fuel)
  {
    EmptyNamesSkipped(fs, c, opts, cur, names, fuel, k);
    ConfigNameStep(fs, c, opts, cur, names[k..], fuel);
    assert names[k..][0] == names[k];
  }

  /** When no config name parses in a directory, the search goes on in its
      parent with the full list of names, and ends with nothing at the
      root. */
  lemma {:induction false} NoConfigHereGoesUp(fs: FileSystem, c: Constants, opts: EsResolveOptions, cur: Path,
                                              names: seq<string>, fuel: nat)
    requires forall j :: 0 <= j < |names| ==> ParseTsconfig(fs, c, opts, Join(cur, names[j]), fuel) == Ok(None)
    ensures ResolveTsconfig(fs, c, opts, cur, names, fuel)
         == match Parent(cur)
            case None => Ok(None)
            case Some(parent) => ResolveTsconfig(fs, c, opts, parent, c.tsconfigNames, fuel)
    decreases |names|
  {
    if |names| > 0 {
      assert forall j :: 0 <= j < |names| - 1 ==> names[1..][j] == names[j + 1];
      NoConfigHereGoesUp(fs, c, opts, cur, names[1..], fuel);
    }
  }
}
