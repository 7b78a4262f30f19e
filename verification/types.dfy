/** Domain values of the resolver: target environments and their default
    options, the error taxonomy, file extensions, and already-parsed
    `package.json` / `tsconfig.json` documents. */
module Types {
  import opened Wrappers

  datatype MainField = Main | Module | Browser | ReactNative

  datatype TargetEnv = Node | Browser

  /** File extensions the probe may append, named by their text without
      the dot. */
  datatype Extension = Mjs | Mts | Cjs | Cts | Json | Js | Jsx | Ts | Tsx | Node | Css

  /** Resolver options. `extensions` is read by the resolver (probe order)
      although the options record in src/types.rs does not declare it yet;
      its default value lives in a constant table outside this model. */
  datatype EsResolveOptions = EsResolveOptions(
    mainFields: seq<MainField>,
    conditions: seq<string>,
    extensions: seq<Extension>)

  /** Why the Rust code would abort instead of returning a value. */
  datatype PanicReason =
    | SliceOutOfRange   // `&target[i..j]` with `j < i`, or its end underflowing (overflow checks on)
    | IndexOutOfBounds  // `name.as_bytes()[0]` on an empty name
    | UnwrapNone        // `unwrap()` on `None`
    | ExtendsTooDeep    // the `extends` chain outran the fuel (a cycle overflows the stack)

  /** The error taxonomy. Messages are dropped; `Panic` stands for the
      aborts listed in `PanicReason`. */
  datatype EsResolverError =
    | IOError
    | InvalidPackageJSON
    | InvalidTSConfig
    | InvalidTSConfigExtend
    | InvalidExports
    | InvalidModuleSpecifier
    | ModuleNotFound
    | Panic(reason: PanicReason)

  /** Per-environment defaults. Node lists "main" before "module" and the
      CommonJS conditions; the browser prefers "browser", then "module",
      and the ESM conditions. Both end with "default". */
  function DefaultFor(env: TargetEnv, extensions: seq<Extension>): (o: EsResolveOptions)
    ensures o.extensions == extensions
    ensures env.Node? ==>
      o.mainFields == [Main, Module] && o.conditions == ["node", "require", "default"]
    ensures env.Browser? ==>
      o.mainFields == [MainField.Browser, Module, Main] && o.conditions == ["browser", "import", "default"]
  {
    match env
    case Node => EsResolveOptions([Main, Module], ["node", "require", "default"], extensions)
    case Browser => EsResolveOptions([MainField.Browser, Module, Main], ["browser", "import", "default"], extensions)
  }

  /** "default" closes the condition list in both environments, Node
      resolution never consults the "browser" field, and no condition is
      listed twice. */
  lemma DefaultConditionsShape(env: TargetEnv, extensions: seq<Extension>)
    ensures var o := DefaultFor(env, extensions);
      && |o.conditions| == 3
      && o.conditions[2] == "default"
      && "default" !in o.conditions[..2]
      && (env.Node? ==> MainField.Browser !in o.mainFields && "browser" !in o.conditions)
  {
  }

  /** `Extensions::from`: the extension named by `s`, if any. */
  function ExtensionFromStr(s: string): (r: Option<Extension>)
    ensures r.Some? ==> ExtensionToStr(r.value) == s
    ensures r.Some? <==> s in {"mjs", "mts", "cjs", "cts", "json", "js", "jsx", "ts", "tsx", "node", "css"}
  {
    match s
    case "mjs" => Some(Mjs)
    case "mts" => Some(Mts)
    case "cjs" => Some(Cjs)
    case "cts" => Some(Cts)
    case "json" => Some(Json)
    case "js" => Some(Js)
    case "jsx" => Some(Jsx)
    case "ts" => Some(Ts)
    case "tsx" => Some(Tsx)
    case "node" => Some(Extension.Node)
    case "css" => Some(Css)
    case _ => None
  }

  /** `Extensions::to_str`. */
  function ExtensionToStr(e: Extension): (s: string)
    ensures |s| > 0 && '.' !in s && '/' !in s
  {
    match e
    case Mjs => "mjs"
    case Mts => "mts"
    case Cjs => "cjs"
    case Cts => "cts"
    case Json => "json"
    case Js => "js"
    case Jsx => "jsx"
    case Ts => "ts"
    case Tsx => "tsx"
    case Node => "node"
    case Css => "css"
  }

  /** Parsing the text of an extension gives the extension back. */
  lemma ExtensionRoundTrip(e: Extension)
    ensures ExtensionFromStr(ExtensionToStr(e)) == Some(e)
  {
  }

  /** Distinct extensions have distinct texts. */
  lemma ExtensionToStrInjective(e1: Extension, e2: Extension)
    requires ExtensionToStr(e1) == ExtensionToStr(e2)
    ensures e1 == e2
  {
    ExtensionRoundTrip(e1);
    ExtensionRoundTrip(e2);
  }

  /** Ordered key/value entries standing for an `IndexMap`: iteration order
      is the sequence order. */
  type Entries<V> = seq<(string, V)>

  function Keys<V>(entries: Entries<V>): (ks: seq<string>)
    ensures |ks| == |entries|
    ensures forall i :: 0 <= i < |entries| ==> ks[i] == entries[i].0
  {
    if |entries| == 0 then [] else [entries[0].0] + Keys(entries[1..])
  }

  /** An `IndexMap` never holds a key twice. */
  predicate UniqueKeys<V>(entries: Entries<V>) {
    forall i, j :: 0 <= i < j < |entries| ==> entries[i].0 != entries[j].0
  }

  /** `IndexMap::get`: the value of the first entry with this key. */
  function Lookup<V>(entries: Entries<V>, key: string): (r: Option<V>)
    ensures r.None? <==> key !in Keys(entries)
    ensures r.Some? ==> exists i :: 0 <= i < |entries| && entries[i] == (key, r.value)
    ensures forall i :: 0 <= i < |entries| && entries[i].0 == key && UniqueKeys(entries) ==> r == Some(entries[i].1)
  {
    if |entries| == 0 then None
    else if entries[0].0 == key then Some(entries[0].1)
    else
      var r := Lookup(entries[1..], key);
      assert Keys(entries) == [entries[0].0] + Keys(entries[1..]);
      assert r.Some? ==> exists i :: 0 <= i < |entries[1..]| && entries[1..][i] == (key, r.value);
      r
  }

  /** The recursive `exports` value of a `package.json`: a target string, an
      ordered map from subpath or condition to an optional (JSON `null`)
      child, or an array of fallbacks. */
  datatype Exports =
    | String(target: string)
    | Object(entries: Entries<Option<Exports>>)
    | Array(items: seq<Exports>)

  /** A parsed `package.json`; fields not read by the resolver are absent. */
  datatype PackageJSON = PackageJSON(
    main: Option<string>,
    moduleField: Option<string>,  // the "module" field
    browser: Option<string>,
    reactNative: Option<string>,
    exports: Option<Exports>)

  /** `PackageJSON::get_main_field`. */
  function GetMainField(p: PackageJSON, field: MainField): (r: Option<string>)
    ensures field.Main? ==> r == p.main
    ensures field.Module? ==> r == p.moduleField
    ensures field.Browser? ==> r == p.browser
    ensures field.ReactNative? ==> r == p.reactNative
  {
    match field
    case Main => p.main
    case Module => p.moduleField
    case Browser => p.browser
    case ReactNative => p.reactNative
  }

  /** The package with one main field replaced. */
  function SetMainField(p: PackageJSON, field: MainField, v: Option<string>): PackageJSON {
    match field
    case Main => p.(main := v)
    case Module => p.(moduleField := v)
    case Browser => p.(browser := v)
    case ReactNative => p.(reactNative := v)
  }

  /** `GetMainField` reads exactly the named field: it sees a change to
      that field and no change to any other. */
  lemma GetMainFieldReadsOnlyItsField(p: PackageJSON, field: MainField, other: MainField, v: Option<string>)
    ensures GetMainField(SetMainField(p, field, v), field) == v
    ensures other != field ==> GetMainField(SetMainField(p, field, v), other) == GetMainField(p, other)
  {
  }

  /** `paths` of a tsconfig: ordered pattern keys to ordered template lists. */
  type TSConfigPaths = Entries<seq<string>>

  datatype TSConfigCompilerOptions = TSConfigCompilerOptions(
    baseUrl: Option<string>,
    paths: Option<TSConfigPaths>)

  /** A parsed `tsconfig.json`; a missing `compilerOptions` parses as the
      default. */
  datatype TSConfig = TSConfig(
    extendsRef: Option<string>,  // the "extends" field
    compilerOptions: TSConfigCompilerOptions)

  function DefaultCompilerOptions(): (o: TSConfigCompilerOptions)
    ensures o.baseUrl.None? && o.paths.None?
  {
    TSConfigCompilerOptions(None, None)
  }
}
