/** The file-system probes of the resolver: a path as a file, with each
    extension, as a directory with a `package.json`, as a directory index,
    and up the `node_modules` directories of every ancestor. The constant
    tables of src/data.rs are not part of this model and come in as
    `Constants`. */
module Probing {
  import opened Wrappers
  import opened Utils
  import opened Types
  import opened Paths
  import opened FileSystems
  import opened PackageExports

  /** The tables of src/data.rs: the Node core module names (searched with
      `binary_search`, which is membership for a sorted table), the
      extension rewrites, and the tsconfig file names in probe order. */
  datatype Constants = Constants(
    nodeCoreModules: set<string>,
    rewrittenExtensions: seq<(Extension, seq<Extension>)>,
    tsconfigNames: seq<string>)

  const NodeModules := "node_modules"
  const PackageJsonName := "package.json"

  /** `parse_package_name`: the package name and the rest of a bare
      specifier. A scoped name keeps its second segment. The first byte is
      read unconditionally, so an empty name aborts. */
  function ParsePackageName(name: string): (r: Result<(string, string), EsResolverError>)
    ensures |name| == 0 <==> r == Err(Panic(IndexOutOfBounds))
    ensures r.Err? ==> r.error == InvalidModuleSpecifier || r.error == Panic(IndexOutOfBounds)
    ensures r.Ok? ==> r.value.0 + r.value.1 == name
    ensures r.Ok? ==> r.value.1 == "" || r.value.1[0] == '/'
    ensures r.Ok? ==> ValidPackageName(r.value.0)
    ensures r.Ok? && name[0] != '@' ==> '/' !in r.value.0
    ensures |name| > 0 && name[0] == '@' && '/' !in name ==> r == Err(InvalidModuleSpecifier)
  {
    if |name| == 0 then Err(Panic(IndexOutOfBounds))
    else
      var sep := Separator(name);
      if sep.None? then Err(InvalidModuleSpecifier)
      else
        var pkg := match sep.value case Some(i) => name[..i] case None => name;
        if !ValidPackageName(pkg) then Err(InvalidModuleSpecifier)
        else
          assert name == pkg + name[|pkg|..];
          Ok((pkg, name[|pkg|..]))
  }

  /** Where the package name ends: the first `/`, or for a scoped name the
      `/` after it; `None` for a scoped name with no `/` at all. */
  function Separator(name: string): (r: Option<Option<nat>>)
    requires |name| > 0
    ensures r.None? <==> name[0] == '@' && '/' !in name
    ensures r.Some? && r.value.Some? ==> r.value.value < |name| && name[r.value.value] == '/'
    ensures r.Some? && r.value.None? ==> name[0] == '@' || '/' !in name
    ensures name[0] != '@' ==> r == Some(FindChar(name, '/'))
  {
    if name[0] == '@' then
      match FindChar(name, '/')
      case None => None
      // `name[i + 1..].find('/')` shifted back by `i + 1`
      case Some(i) => Some(FindCharFrom(name, '/', i + 1))
    else Some(FindChar(name, '/'))
  }

  /** The checks on the package-name part: not starting with `.`, no `%`
      and no backslash. */
  predicate ValidPackageName(pkg: string) {
    !StartsWith(pkg, ".") && '%' !in pkg && '\\' !in pkg
  }

  /** An unscoped specifier splits at its first `/`: the name is the text
      before it, the rest keeps the slash. */
  lemma ParseUnscoped(pkg: string, rest: string)
    requires |pkg| > 0 && pkg[0] != '@' && '/' !in pkg
    requires rest == "" || rest[0] == '/'
    ensures ParsePackageName(pkg + rest)
         == if ValidPackageName(pkg) then Ok((pkg, rest)) else Err(InvalidModuleSpecifier)
  {
    var name := pkg + rest;
    assert name[..|pkg|] == pkg && name[|pkg|..] == rest;
    if rest == "" {
      assert name == pkg;
    } else {
      FindCharUnique(name, '/', |pkg|);
    }
  }

  /** A scoped specifier `@scope/name/rest` keeps `@scope/name` as the
      package name. */
  lemma ParseScoped(scope: string, pkgName: string, rest: string)
    requires '/' !in scope && '/' !in pkgName
    requires rest == "" || rest[0] == '/'
    ensures var pkg := "@" + scope + "/" + pkgName;
      ParsePackageName(pkg + rest)
      == if '%' in pkg || '\\' in pkg then Err(InvalidModuleSpecifier) else Ok((pkg, rest))
  {
    var pkg := "@" + scope + "/" + pkgName;
    var name := pkg + rest;
    ScopedSeparator(scope, pkgName, rest);
    assert name[..|pkg|] == pkg && name[|pkg|..] == rest;
    assert !StartsWith(pkg, ".") by { assert pkg[0] == '@'; }
  }

  /** The name of a scoped specifier ends at its second `/`, or at its end. */
  lemma ScopedSeparator(scope: string, pkgName: string, rest: string)
    requires '/' !in scope && '/' !in pkgName
    requires rest == "" || rest[0] == '/'
    ensures var pkg := "@" + scope + "/" + pkgName;
      Separator(pkg + rest) == Some(if rest == "" then None else Some(|pkg|))
  {
    var pkg := "@" + scope + "/" + pkgName;
    var name := pkg + rest;
    assert name == "@" + scope + "/" + (pkgName + rest);
    assert name[0] == '@';
    ScopeSlash(scope, pkgName + rest);
    NameEndsAtSlash(scope, pkgName, rest);
  }

  /** The first `/` of a scoped name is the one after the scope. */
  lemma ScopeSlash(scope: string, tail: string)
    requires '/' !in scope
    ensures FindChar("@" + scope + "/" + tail, '/') == Some(|scope| + 1)
  {
    var name := "@" + scope + "/" + tail;
    var head := "@" + scope;
    assert head[1..] == scope;
    assert name[..|scope| + 1] == head;
    FindCharUnique(name, '/', |scope| + 1);
  }

  /** After the scope's slash, the next `/` is the one that starts `rest`. */
  lemma NameEndsAtSlash(scope: string, pkgName: string, rest: string)
    requires '/' !in pkgName
    requires rest == "" || rest[0] == '/'
    ensures var pkg := "@" + scope + "/" + pkgName;
      FindCharFrom(pkg + rest, '/', |scope| + 2) == if rest == "" then None else Some(|pkg|)
  {
    var pkg := "@" + scope + "/" + pkgName;
    var name := pkg + rest;
    var start := |scope| + 2;
    forall m | start <= m < |pkg|
      ensures name[m] != '/'
    {
      assert name[m] == pkgName[m - start];
    }
    if rest != "" {
      assert name[|pkg|] == rest[0];
    }
  }

  /** `@emotion/styled`, from the test suite, is one scoped package. */
  lemma ScopedExample()
    ensures ParsePackageName("@emotion/styled") == Ok(("@emotion/styled", ""))
  {
    var pkg := "@" + "emotion" + "/" + "styled";
    assert pkg == "@emotion/styled" && pkg + "" == pkg;
    assert '%' !in pkg && '\\' !in pkg;
    ParseScoped("emotion", "styled", "");
  }

  /** `react/jsx-runtime`, from the test suite, is the `/jsx-runtime` file
      of `react`. */
  lemma UnscopedExample()
    ensures ParsePackageName("react/jsx-runtime") == Ok(("react", "/jsx-runtime"))
  {
    var pkg, rest := "react", "/jsx-runtime";
    assert pkg[0] == 'r' && '%' !in pkg && '\\' !in pkg;
    assert ValidPackageName(pkg);
    ParseUnscoped(pkg, rest);
    assert pkg + rest == "react/jsx-runtime";
  }

  /** `try_extension`: the path with its extension replaced, if something
      exists there (a file or a directory), cleaned. */
  function TryExtension(fs: FileSystem, absTo: Path, ext: Extension): (r: Option<Path>)
    ensures r.Some? <==> Exists(fs, WithExtension(absTo, ExtensionToStr(ext)))
    ensures r.Some? ==> r.value == Clean(WithExtension(absTo, ExtensionToStr(ext)))
  {
    var candidate := WithExtension(absTo, ExtensionToStr(ext));
    if Exists(fs, candidate) then Some(Clean(candidate)) else None
  }

  /** The first present outcome, in order; none when every outcome is
      absent. */
  function FirstSome<T>(outcomes: seq<Option<T>>): (r: Option<T>)
    ensures r.None? <==> forall i :: 0 <= i < |outcomes| ==> outcomes[i].None?
    ensures r.Some? ==> exists i :: 0 <= i < |outcomes| && outcomes[i] == r
                          && forall j :: 0 <= j < i ==> outcomes[j].None?
  {
    if |outcomes| == 0 then None
    else if outcomes[0].Some? then outcomes[0]
    else
      var r := FirstSome(outcomes[1..]);
      assert forall i :: 1 <= i < |outcomes| ==> outcomes[i] == outcomes[1..][i - 1];
      r
  }

  /** `TryExtension` for each extension of the list, in order. */
  function Tries(fs: FileSystem, absTo: Path, exts: seq<Extension>): (r: seq<Option<Path>>)
    ensures |r| == |exts|
    ensures forall i :: 0 <= i < |exts| ==> r[i] == TryExtension(fs, absTo, exts[i])
  {
    seq(|exts|, i requires 0 <= i < |exts| => TryExtension(fs, absTo, exts[i]))
  }

  /** The first extension, in list order, that `TryExtension` accepts. */
  function FirstExtension(fs: FileSystem, absTo: Path, exts: seq<Extension>): (r: Option<Path>)
    ensures r.None? <==> forall i :: 0 <= i < |exts| ==> TryExtension(fs, absTo, exts[i]).None?
    ensures r.Some? ==> exists i :: 0 <= i < |exts| && TryExtension(fs, absTo, exts[i]) == r
                          && forall j :: 0 <= j < i ==> TryExtension(fs, absTo, exts[j]).None?
  {
    FirstTryIsFirstExtension(fs, absTo, exts);
    FirstSome(Tries(fs, absTo, exts))
  }

  /** `FirstExtension`'s contract, read off the outcomes `Tries` lists. */
  lemma FirstTryIsFirstExtension(fs: FileSystem, absTo: Path, exts: seq<Extension>)
    ensures var r := FirstSome(Tries(fs, absTo, exts));
      && (r.None? <==> forall i :: 0 <= i < |exts| ==> TryExtension(fs, absTo, exts[i]).None?)
      && (r.Some? ==> exists i :: 0 <= i < |exts| && TryExtension(fs, absTo, exts[i]) == r
                                 && forall j :: 0 <= j < i ==> TryExtension(fs, absTo, exts[j]).None?)
  {
    var f := e => TryExtension(fs, absTo, e);
    FirstSomeOfMap(f, exts, Tries(fs, absTo, exts));
  }

  /** `FirstSome` over outcomes computed by `f` from `xs`: none is present
      exactly when `f` fails everywhere, and a present one is `f` of the
      first element it does not fail on. */
  lemma FirstSomeOfMap<A, B>(f: A -> Option<B>, xs: seq<A>, o: seq<Option<B>>)
    requires |o| == |xs| && forall i :: 0 <= i < |xs| ==> o[i] == f(xs[i])
    ensures var r := FirstSome(o);
      && (r.None? <==> forall i :: 0 <= i < |xs| ==> f(xs[i]).None?)
      && (r.Some? ==> exists i :: 0 <= i < |xs| && f(xs[i]) == r && forall j :: 0 <= j < i ==> f(xs[j]).None?)
  {
    var r := FirstSome(o);
    if r.Some? {
      var i :| 0 <= i < |o| && o[i] == r && forall j :: 0 <= j < i ==> o[j].None?;
      assert f(xs[i]) == r;
    }
  }


  /** `Path::ends_with` with a one-component string: the last component
      equals it. */
  predicate EndsWithComponent(p: Path, s: string) {
    |p.segments| > 0 && Split(s) == [Last(p)]
  }

  /** One entry of the `REWRITTEN_EXTENSIONS` loop: when the path ends
      with the entry's extension, its replacements in order; else nothing. */
  function RewriteTry(fs: FileSystem, absTo: Path, entry: (Extension, seq<Extension>)): Option<Path> {
    if EndsWithComponent(absTo, ExtensionToStr(entry.0)) then FirstExtension(fs, absTo, entry.1) else None
  }

  /** `RewriteTry` for each entry of the table, in order. */
  function RewriteTries(fs: FileSystem, absTo: Path, table: seq<(Extension, seq<Extension>)>): (r: seq<Option<Path>>)
    ensures |r| == |table|
    ensures forall i :: 0 <= i < |table| ==> r[i] == RewriteTry(fs, absTo, table[i])
  {
    seq(|table|, i requires 0 <= i < |table| => RewriteTry(fs, absTo, table[i]))
  }

  /** The `REWRITTEN_EXTENSIONS` loop: for each rewritten extension the
      path ends with, its replacement extensions in order. The first entry
      in table order that matches and finds a file decides; nothing is
      found exactly when every matching entry finds nothing. */
  function FirstRewritten(fs: FileSystem, absTo: Path, table: seq<(Extension, seq<Extension>)>): (r: Option<Path>)
    ensures r.Some? ==> exists i :: 0 <= i < |table| && EndsWithComponent(absTo, ExtensionToStr(table[i].0))
                                    && FirstExtension(fs, absTo, table[i].1) == r
                                    && forall j :: 0 <= j < i && EndsWithComponent(absTo, ExtensionToStr(table[j].0)) ==>
                                         FirstExtension(fs, absTo, table[j].1).None?
    ensures r.None? <==> forall i :: 0 <= i < |table| && EndsWithComponent(absTo, ExtensionToStr(table[i].0)) ==>
                           FirstExtension(fs, absTo, table[i].1).None?
  {
    FirstTryIsFirstRewritten(fs, absTo, table);
    FirstSome(RewriteTries(fs, absTo, table))
  }

  /** `FirstRewritten`'s contract, read off the outcomes `RewriteTries`
      lists. */
  lemma FirstTryIsFirstRewritten(fs: FileSystem, absTo: Path, table: seq<(Extension, seq<Extension>)>)
    ensures var r := FirstSome(RewriteTries(fs, absTo, table));
      && (r.None? <==> forall i :: 0 <= i < |table| ==> RewriteTry(fs, absTo, table[i]).None?)
      && (r.Some? ==> exists i :: 0 <= i < |table| && RewriteTry(fs, absTo, table[i]) == r
                                 && forall j :: 0 <= j < i ==> RewriteTry(fs, absTo, table[j]).None?)
  {
    var f := entry => RewriteTry(fs, absTo, entry);
    FirstSomeOfMap(f, table, RewriteTries(fs, absTo, table));
  }

  /** `load_as_file`: the path itself when it is a file, else the first
      extension in list order that exists, else the extension rewrites. */
  function LoadAsFile(fs: FileSystem, c: Constants, absTo: Path, exts: seq<Extension>): (r: Option<Path>)
    ensures IsFile(fs, absTo) ==> r == Some(absTo)
    ensures !IsFile(fs, absTo) && FirstExtension(fs, absTo, exts).Some? ==> r == FirstExtension(fs, absTo, exts)
    ensures r.Some? && r.value != absTo ==>
      exists e :: Exists(fs, WithExtension(absTo, ExtensionToStr(e))) && r.value == Clean(WithExtension(absTo, ExtensionToStr(e)))
    ensures !IsFile(fs, absTo) && FirstExtension(fs, absTo, exts).None? ==> r == FirstRewritten(fs, absTo, c.rewrittenExtensions)
  {
    if IsFile(fs, absTo) then Some(absTo)
    else
      var viaList := FirstExtension(fs, absTo, exts);
      if viaList.Some? then viaList else FirstRewritten(fs, absTo, c.rewrittenExtensions)
  }

  /** A path is not rewritten by extension unless its last component is
      the extension's bare text: a name like `ts.js` is handled by the
      plain extension list, whose `with_extension` already replaces `.js`. */
  lemma RewriteNeedsBareExtensionName(absTo: Path, e: Extension)
    requires |absTo.segments| > 0 && '.' in Last(absTo)
    ensures !EndsWithComponent(absTo, ExtensionToStr(e))
  {
    var s := ExtensionToStr(e);
    SplitFromName(s, "");
    assert "" + s == s;
  }

  /** `load_index`: `index` inside the directory, as a file: the `index`
      file itself, else `index` with the first listed extension that exists,
      else an extension rewrite. */
  function LoadIndex(fs: FileSystem, c: Constants, opts: EsResolveOptions, absTo: Path): (r: Option<Path>)
    ensures IsFile(fs, Join(absTo, "index")) ==> r == Some(Join(absTo, "index"))
    ensures !IsFile(fs, Join(absTo, "index")) && FirstExtension(fs, Join(absTo, "index"), opts.extensions).Some? ==>
      r == FirstExtension(fs, Join(absTo, "index"), opts.extensions)
    ensures r.Some? && r.value != Join(absTo, "index") ==>
      exists e :: Exists(fs, WithExtension(Join(absTo, "index"), ExtensionToStr(e)))
                  && r.value == Clean(WithExtension(Join(absTo, "index"), ExtensionToStr(e)))
    ensures !IsFile(fs, Join(absTo, "index")) && FirstExtension(fs, Join(absTo, "index"), opts.extensions).None? ==> r.None?
  {
    forall i | 0 <= i < |c.rewrittenExtensions| {
      IndexIsNoExtensionName(absTo, c.rewrittenExtensions[i].0);
    }
    LoadAsFile(fs, c, Join(absTo, "index"), opts.extensions)
  }

  /** No extension is named `index`, so `index` is never rewritten. */
  lemma IndexIsNoExtensionName(absTo: Path, e: Extension)
    ensures !EndsWithComponent(Join(absTo, "index"), ExtensionToStr(e))
  {
    SplitFromName("index", "");
    assert "" + "index" == "index";
    var s := ExtensionToStr(e);
    SplitFromName(s, "");
    assert "" + s == s;
  }

  /** One main field of the `load_as_directory` loop: nothing when the
      field is absent, else its value, under the directory, as a file. */
  function MainFieldTry(fs: FileSystem, c: Constants, opts: EsResolveOptions, absTo: Path, pj: PackageJSON, field: MainField)
    : Option<Path>
  {
    match GetMainField(pj, field)
    case Some(path) => LoadAsFile(fs, c, Join(absTo, path), opts.extensions)
    case None => None
  }

  /** `MainFieldTry` for each field, in order. */
  function MainFieldTries(fs: FileSystem, c: Constants, opts: EsResolveOptions, absTo: Path, pj: PackageJSON,
                          fields: seq<MainField>): (r: seq<Option<Path>>)
    ensures |r| == |fields|
    ensures forall i :: 0 <= i < |fields| ==> r[i] == MainFieldTry(fs, c, opts, absTo, pj, fields[i])
  {
    seq(|fields|, i requires 0 <= i < |fields| => MainFieldTry(fs, c, opts, absTo, pj, fields[i]))
  }

  /** The main-field loop of `load_as_directory`: the configured fields in
      order; a present field is probed as a file and a failed probe moves
      on to the next field, so the result comes from the first present
      field that loads. */
  function FirstMainField(fs: FileSystem, c: Constants, opts: EsResolveOptions, absTo: Path,
                          pj: PackageJSON, fields: seq<MainField>): (r: Option<Path>)
    ensures r.Some? ==> exists i :: 0 <= i < |fields| && GetMainField(pj, fields[i]).Some?
                          && r == LoadAsFile(fs, c, Join(absTo, GetMainField(pj, fields[i]).value), opts.extensions)
                          && forall j :: 0 <= j < i && GetMainField(pj, fields[j]).Some? ==>
                               LoadAsFile(fs, c, Join(absTo, GetMainField(pj, fields[j]).value), opts.extensions).None?
    ensures r.None? <==> forall i :: 0 <= i < |fields| && GetMainField(pj, fields[i]).Some? ==>
                          LoadAsFile(fs, c, Join(absTo, GetMainField(pj, fields[i]).value), opts.extensions).None?
  {
    FirstTryIsFirstMainField(fs, c, opts, absTo, pj, fields);
    FirstSome(MainFieldTries(fs, c, opts, absTo, pj, fields))
  }

  /** `FirstMainField`'s contract, read off the outcomes `MainFieldTries`
      lists. */
  lemma FirstTryIsFirstMainField(fs: FileSystem, c: Constants, opts: EsResolveOptions, absTo: Path,
                                 pj: PackageJSON, fields: seq<MainField>)
    ensures var r := FirstSome(MainFieldTries(fs, c, opts, absTo, pj, fields));
      && (r.None? <==> forall i :: 0 <= i < |fields| ==> MainFieldTry(fs, c, opts, absTo, pj, fields[i]).None?)
      && (r.Some? ==> exists i :: 0 <= i < |fields| && MainFieldTry(fs, c, opts, absTo, pj, fields[i]) == r
                                 && forall j :: 0 <= j < i ==> MainFieldTry(fs, c, opts, absTo, pj, fields[j]).None?)
  {
    var f := field => MainFieldTry(fs, c, opts, absTo, pj, field);
    FirstSomeOfMap(f, fields, MainFieldTries(fs, c, opts, absTo, pj, fields));
  }

  /** `load_as_directory`: the main fields of a readable `package.json`,
      then the directory index. An unreadable or invalid `package.json` is
      ignored. */
  function LoadAsDirectory(fs: FileSystem, c: Constants, opts: EsResolveOptions, absTo: Path): (r: Option<Path>)
    ensures ReadPackageJson(fs, Join(absTo, PackageJsonName)).Err? ==> r == LoadIndex(fs, c, opts, absTo)
    ensures ReadPackageJson(fs, Join(absTo, PackageJsonName)).Ok? ==>
      var viaMain := FirstMainField(fs, c, opts, absTo, ReadPackageJson(fs, Join(absTo, PackageJsonName)).value, opts.mainFields);
      r == if viaMain.Some? then viaMain else LoadIndex(fs, c, opts, absTo)
  {
    var pj := ReadPackageJson(fs, Join(absTo, PackageJsonName));
    var viaMain := if pj.Ok? then FirstMainField(fs, c, opts, absTo, pj.value, opts.mainFields) else None;
    if viaMain.Some? then viaMain else LoadIndex(fs, c, opts, absTo)
  }

  /** The first configured main field that loads wins, whatever the
      fields after it name. */
  lemma {:induction false} FirstFieldThatLoadsWins(fs: FileSystem, c: Constants, opts: EsResolveOptions, absTo: Path,
                                                   pj: PackageJSON, i: nat)
    requires i < |opts.mainFields| && GetMainField(pj, opts.mainFields[i]).Some?
    requires LoadAsFile(fs, c, Join(absTo, GetMainField(pj, opts.mainFields[i]).value), opts.extensions).Some?
    requires forall j :: 0 <= j < i && GetMainField(pj, opts.mainFields[j]).Some? ==>
               LoadAsFile(fs, c, Join(absTo, GetMainField(pj, opts.mainFields[j]).value), opts.extensions).None?
    ensures FirstMainField(fs, c, opts, absTo, pj, opts.mainFields)
         == LoadAsFile(fs, c, Join(absTo, GetMainField(pj, opts.mainFields[i]).value), opts.extensions)
  {
    var fields := opts.mainFields;
    var r := FirstMainField(fs, c, opts, absTo, pj, fields);
    var k :| 0 <= k < |fields| && GetMainField(pj, fields[k]).Some?
             && r == LoadAsFile(fs, c, Join(absTo, GetMainField(pj, fields[k]).value), opts.extensions)
             && forall j :: 0 <= j < k && GetMainField(pj, fields[j]).Some? ==>
                  LoadAsFile(fs, c, Join(absTo, GetMainField(pj, fields[j]).value), opts.extensions).None?;
    if k < i {
      assert false;
    } else if k > i {
      assert false;
    }
  }

  /** In the browser the `browser` field of a package comes first: when it
      names a file, the package directory resolves to it even if `module`
      or `main` name files too. */
  lemma BrowserFieldWinsInBrowser(fs: FileSystem, c: Constants, exts: seq<Extension>, absTo: Path, pj: PackageJSON)
    requires ReadPackageJson(fs, Join(absTo, PackageJsonName)) == Ok(pj)
    requires pj.browser.Some? && LoadAsFile(fs, c, Join(absTo, pj.browser.value), exts).Some?
    ensures LoadAsDirectory(fs, c, DefaultFor(TargetEnv.Browser, exts), absTo)
         == LoadAsFile(fs, c, Join(absTo, pj.browser.value), exts)
  {
    FirstFieldThatLoadsWins(fs, c, DefaultFor(TargetEnv.Browser, exts), absTo, pj, 0);
  }

  /** Under Node the `main` field comes before `module`, and `browser` is
      never read: a `main` that names a file is the answer. */
  lemma MainFieldWinsInNode(fs: FileSystem, c: Constants, exts: seq<Extension>, absTo: Path, pj: PackageJSON)
    requires ReadPackageJson(fs, Join(absTo, PackageJsonName)) == Ok(pj)
    requires pj.main.Some? && LoadAsFile(fs, c, Join(absTo, pj.main.value), exts).Some?
    ensures LoadAsDirectory(fs, c, DefaultFor(TargetEnv.Node, exts), absTo)
         == LoadAsFile(fs, c, Join(absTo, pj.main.value), exts)
  {
    FirstFieldThatLoadsWins(fs, c, DefaultFor(TargetEnv.Node, exts), absTo, pj, 0);
  }

  /** When no main field names a file that loads, the directory falls back
      to its index. */
  lemma NoLoadingFieldFallsBackToIndex(fs: FileSystem, c: Constants, opts: EsResolveOptions, absTo: Path, pj: PackageJSON)
    requires ReadPackageJson(fs, Join(absTo, PackageJsonName)) == Ok(pj)
    requires forall j :: 0 <= j < |opts.mainFields| && GetMainField(pj, opts.mainFields[j]).Some? ==>
               LoadAsFile(fs, c, Join(absTo, GetMainField(pj, opts.mainFields[j]).value), opts.extensions).None?
    ensures LoadAsDirectory(fs, c, opts, absTo) == LoadIndex(fs, c, opts, absTo)
  {
  }

  /** `load_package_exports`: the `exports` of the package named by the
      specifier under one `node_modules` directory. No `exports` field
      means no answer; with one, there always is an answer or an error. */
  function LoadPackageExports(fs: FileSystem, opts: EsResolveOptions, nodeModulesDir: Path, name: string)
    : (r: Result<Option<Path>, EsResolverError>)
    ensures ParsePackageName(name).Err? ==> r == Err(ParsePackageName(name).error)
    ensures ParsePackageName(name).Ok? ==>
      var pjPath := Join(Join(nodeModulesDir, ParsePackageName(name).value.0), PackageJsonName);
      && (ReadPackageJson(fs, pjPath).Err? ==> r == Err(ReadPackageJson(fs, pjPath).error))
      && (ReadPackageJson(fs, pjPath).Ok? && ReadPackageJson(fs, pjPath).value.exports.None? ==> r == Ok(None))
      && (ReadPackageJson(fs, pjPath).Ok? && ReadPackageJson(fs, pjPath).value.exports.Some? ==>
            r == ResolveExports(pjPath, ReadPackageJson(fs, pjPath).value.exports.value,
                                "." + ParsePackageName(name).value.1, opts.conditions)
            && r != Ok(None))
  {
    var (pkg, rest) :- ParsePackageName(name);
    var pjPath := Join(Join(nodeModulesDir, pkg), PackageJsonName);
    var pj :- ReadPackageJson(fs, pjPath);
    match pj.exports
    case None => Ok(None)
    case Some(exports) => ResolveExports(pjPath, exports, "." + rest, opts.conditions)
  }

  /** The subpath handed to the `exports` lookup is "." or "./rest". */
  lemma PackageSubpathShape(name: string)
    requires ParsePackageName(name).Ok?
    ensures var sub := "." + ParsePackageName(name).value.1;
      sub == "." || StartsWith(sub, "./")
  {
  }

  /** An outcome of the exports lookup after which `load_node_modules`
      goes on to probe files: no answer, an I/O error or a bad specifier. */
  predicate ExportsFallThrough(viaExports: Result<Option<Path>, EsResolverError>) {
    viaExports == Ok(None) || viaExports == Err(IOError) || viaExports == Err(InvalidModuleSpecifier)
  }

  /** One step of `load_node_modules` at `dir`: the package probe in
      `dir/node_modules`. `None` when the search goes on to the parent. */
  function ProbeNodeModules(fs: FileSystem, c: Constants, opts: EsResolveOptions, dir: Path, name: string)
    : (r: Option<Result<Option<Path>, EsResolverError>>)
    ensures r.Some? ==> r.value != Ok(None)
    ensures var viaExports := LoadPackageExports(fs, opts, Join(dir, NodeModules), name);
      && (!ExportsFallThrough(viaExports) ==> r == Some(viaExports))
      && (r.None? <==> ExportsFallThrough(viaExports)
                       && LoadAsFile(fs, c, Join(Join(dir, NodeModules), name), opts.extensions).None?
                       && LoadAsDirectory(fs, c, opts, Join(Join(dir, NodeModules), name)).None?)
  {
    ProbePackage(fs, c, opts, Join(dir, NodeModules), name)
  }

  /** The package `name` under one `node_modules` directory, in the order
      LOAD_PACKAGE_EXPORTS, LOAD_AS_FILE, LOAD_AS_DIRECTORY. The exports
      lookup decides unless it falls through; then `nodeModulesDir/name`
      as a file decides, then as a directory; when all three come back
      empty the search goes on. */
  function ProbePackage(fs: FileSystem, c: Constants, opts: EsResolveOptions, nodeModulesDir: Path, name: string)
    : (r: Option<Result<Option<Path>, EsResolverError>>)
    ensures r.Some? ==> r.value != Ok(None)
    ensures var viaExports := LoadPackageExports(fs, opts, nodeModulesDir, name);
      var asFile := LoadAsFile(fs, c, Join(nodeModulesDir, name), opts.extensions);
      var asDir := LoadAsDirectory(fs, c, opts, Join(nodeModulesDir, name));
      && (!ExportsFallThrough(viaExports) ==> r == Some(viaExports))
      && (ExportsFallThrough(viaExports) && asFile.Some? ==> r == Some(Ok(asFile)))
      && (ExportsFallThrough(viaExports) && asFile.None? && asDir.Some? ==> r == Some(Ok(asDir)))
      && (r.None? <==> ExportsFallThrough(viaExports) && asFile.None? && asDir.None?)
  {
    var viaExports := LoadPackageExports(fs, opts, nodeModulesDir, name);
    if viaExports.Ok? && viaExports.value.Some? then Some(viaExports)
    else if viaExports.Err? && viaExports.error != InvalidModuleSpecifier && viaExports.error != IOError then Some(viaExports)
    else
      var moduleBase := Join(nodeModulesDir, name);
      var asFile := LoadAsFile(fs, c, moduleBase, opts.extensions);
      if asFile.Some? then Some(Ok(asFile))
      else
        var asDir := LoadAsDirectory(fs, c, opts, moduleBase);
        if asDir.Some? then Some(Ok(asDir)) else None
  }

  /** A package whose `package.json` has `exports` is answered by them
      alone: nothing under the package is probed as a file or directory. */
  lemma ExportsHideFiles(fs: FileSystem, c: Constants, opts: EsResolveOptions, nodeModulesDir: Path, name: string, pj: PackageJSON)
    requires ParsePackageName(name).Ok?
    requires ReadPackageJson(fs, Join(Join(nodeModulesDir, ParsePackageName(name).value.0), PackageJsonName)) == Ok(pj)
    requires pj.exports.Some?
    ensures ProbePackage(fs, c, opts, nodeModulesDir, name) == Some(LoadPackageExports(fs, opts, nodeModulesDir, name))
  {
  }

  /** Without a readable `package.json`, or without `exports` in it, the
      package is probed as a file first and as a directory second. */
  lemma NoExportsProbesFiles(fs: FileSystem, c: Constants, opts: EsResolveOptions, nodeModulesDir: Path, name: string)
    requires ParsePackageName(name).Ok?
    requires var pj := ReadPackageJson(fs, Join(Join(nodeModulesDir, ParsePackageName(name).value.0), PackageJsonName));
      pj == Err(IOError) || (pj.Ok? && pj.value.exports.None?)
    ensures var asFile := LoadAsFile(fs, c, Join(nodeModulesDir, name), opts.extensions);
      var asDir := LoadAsDirectory(fs, c, opts, Join(nodeModulesDir, name));
      ProbePackage(fs, c, opts, nodeModulesDir, name)
      == if asFile.Some? then Some(Ok(asFile)) else if asDir.Some? then Some(Ok(asDir)) else None
  {
  }

  /** `load_node_modules`: `ProbeNodeModules` at the start directory, then
      at each parent, until one decides. The answer is the first decision
      among the probes of the start directory and its ancestors, nearest
      first, so a nearer package hides one further up; with no decision it
      is `Ok(None)`. */
  function LoadNodeModules(fs: FileSystem, c: Constants, opts: EsResolveOptions, cur: Path, name: string)
    : (r: Result<Option<Path>, EsResolverError>)
    ensures r == FirstDecision(Probes(fs, c, opts, Ancestors(cur), name), Ok(None))
    decreases |cur.segments|
  {
    var dirs := Ancestors(cur);
    assert dirs[0] == cur && dirs[1..] == (if Parent(cur).None? then [] else Ancestors(Parent(cur).value));
    assert Probes(fs, c, opts, dirs, name)[1..] == Probes(fs, c, opts, dirs[1..], name);
    match ProbeNodeModules(fs, c, opts, cur, name)
    case Some(decided) => decided
    case None =>
      match Parent(cur)
      case None => Ok(None)
      case Some(parent) => LoadNodeModules(fs, c, opts, parent, name)
  }

  /** The directory and all its ancestors, nearest first. */
  function Ancestors(p: Path): (r: seq<Path>)
    ensures |r| == |p.segments| + 1 && r[0] == p
    decreases |p.segments|
  {
    match Parent(p)
    case None => [p]
    case Some(q) => [p] + Ancestors(q)
  }

  /** The `i`-th ancestor drops the last `i` components. */
  lemma {:induction false} AncestorsDropComponents(p: Path)
    ensures forall i :: 0 <= i < |Ancestors(p)| ==> Ancestors(p)[i] == Path(p.absolute, p.segments[..|p.segments| - i])
    decreases |p.segments|
  {
    assert p.segments[..|p.segments|] == p.segments;
    match Parent(p)
    case None =>
    case Some(q) =>
      AncestorsDropComponents(q);
      assert forall i :: 1 <= i < |Ancestors(p)| ==> Ancestors(p)[i] == Ancestors(q)[i - 1];
  }

  /** The probe outcome at each directory, in order. */
  function Probes(fs: FileSystem, c: Constants, opts: EsResolveOptions, dirs: seq<Path>, name: string)
    : seq<Option<Result<Option<Path>, EsResolverError>>>
  {
    seq(|dirs|, i requires 0 <= i < |dirs| => ProbeNodeModules(fs, c, opts, dirs[i], name))
  }

  /** The index of the outcome that `FirstDecision` returns, when one is decided. */
  lemma NearestDecided<R>(outcomes: seq<Option<R>>, otherwise: R) returns (k: nat)
    requires FirstDecision(outcomes, otherwise) != otherwise
    ensures k < |outcomes| && outcomes[k] == Some(FirstDecision(outcomes, otherwise))
    ensures forall i :: 0 <= i < k ==> outcomes[i].None?
  {
    var r := FirstDecision(outcomes, otherwise);
    k :| 0 <= k < |outcomes| && outcomes[k] == Some(r) && forall i :: 0 <= i < k ==> outcomes[i].None?;
  }

  /** The value of the first decided outcome, or `otherwise` when none is. */
  function FirstDecision<R(==)>(outcomes: seq<Option<R>>, otherwise: R): (r: R)
    ensures (forall i :: 0 <= i < |outcomes| ==> outcomes[i].None?) ==> r == otherwise
    ensures (exists i :: 0 <= i < |outcomes| && outcomes[i].Some?) ==>
      exists k :: 0 <= k < |outcomes| && outcomes[k] == Some(r) && forall i :: 0 <= i < k ==> outcomes[i].None?
  {
    if |outcomes| == 0 then otherwise
    else if outcomes[0].Some? then outcomes[0].value
    else
      var r := FirstDecision(outcomes[1..], otherwise);
      assert forall i :: 1 <= i < |outcomes| ==> outcomes[i] == outcomes[1..][i - 1];
      if exists i :: 0 <= i < |outcomes| && outcomes[i].Some? then
        assert exists i :: 0 <= i < |outcomes[1..]| && outcomes[1..][i].Some?;
        var k :| 0 <= k < |outcomes[1..]| && outcomes[1..][k] == Some(r) && forall i :: 0 <= i < k ==> outcomes[1..][i].None?;
        assert outcomes[k + 1] == Some(r);
        r
      else r
  }

  /** A decision of `load_node_modules` is the outcome of the probe at
      some ancestor, and the probes of all nearer directories came back
      empty. */
  lemma DecisionComesFromNearestProbe(fs: FileSystem, c: Constants, opts: EsResolveOptions, cur: Path, name: string)
    requires LoadNodeModules(fs, c, opts, cur, name) != Ok(None)
    ensures exists k :: 0 <= k < |Ancestors(cur)|
                && ProbeNodeModules(fs, c, opts, Ancestors(cur)[k], name) == Some(LoadNodeModules(fs, c, opts, cur, name))
                && (forall i :: 0 <= i < k ==> ProbeNodeModules(fs, c, opts, Ancestors(cur)[i], name).None?)
  {
    var all := Ancestors(cur);
    var ps := Probes(fs, c, opts, all, name);
    var k := NearestDecided(ps, Ok(None));
    assert ps[k] == ProbeNodeModules(fs, c, opts, all[k], name);
    forall i | 0 <= i < k
      ensures ProbeNodeModules(fs, c, opts, all[i], name).None?
    {
      assert ps[i].None?;
    }
  }
}
