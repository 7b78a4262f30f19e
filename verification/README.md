# es_resolve in Dafny

A model of the resolution core of `es_resolve`, a Rust library that resolves
an ECMAScript `import` specifier, written in a file, to a file on disk. It
follows the Node module algorithm and adds esbuild's extension probing and
TypeScript's `tsconfig.json` `paths` mapping.

The model has these parts:

- **Key matching** (`Utils`): the one-`*` pattern match and the capture it
  extracts, the specificity comparison of pattern keys, and the best-key
  fold that both `exports` and `paths` use.
- **Domain values** (`Types`): the target environments and their default
  options, extensions and their names, the error taxonomy, parsed
  `package.json` and `tsconfig.json` documents, and order-preserving maps
  (`IndexMap`) as key/value sequences.
- **Paths and the file system** (`Paths`, `FileSystems`): paths as
  segment lists with `join`, `parent`, `with_file_name`, `with_extension`
  and `clean`. The file system is an abstract value that knows which paths
  are files or directories and what each readable JSON file parses to.
- **Package exports** (`PackageExports`): the sugar check, the condition
  and fallback walk of `resolve_package_target`, and the key selection of
  `load_package_exports`.
- **tsconfig** (`TsconfigPaths`): `match_tsconfig_paths`, the `baseUrl`
  rebase, and the `extends` merge.
- **Probing** (`Probing`): `parse_package_name`, `load_as_file`,
  `load_as_directory`, `load_index`, `load_package_exports`, and the
  `node_modules` walk up the directory tree.
- **Resolution** (`EsResolver`): `resolve_impl`, with its classification
  into Node built-ins, relative or absolute specifiers, and bare
  specifiers. It also covers the tsconfig `paths` step and the
  `resolve_tsconfig` / `parse_tsconfig` chain. `resolve_impl` is used
  again to find an `extends` target.

A Rust panic is modelled as the error `Panic(reason)` rather than as a
precondition. The panics are:

- an out-of-range slice;
- indexing an empty name;
- `unwrap` of `None`;
- an `extends` chain deeper than the fuel allows.

Each site that swallows errors re-raises panics, because in Rust a panic
cannot be swallowed.

### Behaviour of the code that the model keeps

Several choices of the Rust code differ from Node's documented algorithm
or from what a reader might expect. The model follows the code:

- A failing tsconfig mapping raises no error of its own. When no candidate
  loads, resolution falls through to `node_modules`
  (`EsResolver.UnsettledPathsFallThrough`).
- The `node_modules` walk has no "package not found" error. Failures of the
  walk become `ModuleNotFound` (`EsResolver.BareSpecifierUsesNodeModules`).
  An invalid `package.json` or `exports` in one `node_modules` directory
  stops the walk with that error, and `resolve_impl` then reports
  `ModuleNotFound`.
- A circular `extends` is not detected; the source recurses without bound.
  The model's fuel turns that into `Panic(ExtendsTooDeep)`.
- Subpaths that no `exports` key covers are not rejected.
  `load_package_exports` answers with the empty path
  (`PackageExports.NoMatchingKeyGivesEmptyPath`), which `ok_with` writes
  as `.` (`EsResolver.UncoveredSubpathResolvesToDot`). Only that one
  `node_modules` directory is consulted.
- `resolve_tsconfig` starts from the importing file itself, not its
  directory. Its first probe is therefore `<file>/tsconfig.json`.
- `load_as_directory` tries the index whether or not the directory exists.

### The match/extract gap

`match_exports_pattern` checks the text before the `*` as a prefix and the
text after it as a suffix, but it never checks that the two fit in the
target without overlapping. `extract_exports_pattern` then slices
`target[i .. |target| - (|pattern| - i) + 1]`.

- For `"*.js"` against `".js"` (`i` is 0), the intermediate value
  `|target| - (|pattern| - i)` is 3 - 4, which is -1, and the `+ 1` brings
  the end back to 0. With overflow checks on, as in a debug build, the
  `usize` subtraction panics (`Utils.StarFirstMatchUnderflows`). Without
  them, as in Cargo's default release profile, it wraps and the `+ 1`
  wraps back, so the slice is `[0..0]` and the capture is empty.
- For `"ab*b"` against `"ab"`, the slice is `[2..1]`, which is inverted in
  every build (`Utils.OverlappingMatchInvertsSlice`).

Both are matches that `load_package_exports` and `match_tsconfig_paths` go
on to slice. The model takes the overflow-checked build, so both paths end
in `Panic(SliceOutOfRange)`. `Utils.ExtractDefined` states exactly when
the slice is in range under that build, and
`TsconfigPaths.PanicsOnlyOnShortCapture` states exactly when `paths`
matching aborts.

### The rewritten-extension table

`load_as_file` rewrites an extension (for example `.js` to `.ts`) only when
`Path::ends_with` holds. That test compares whole components, so it holds
only when the last component is exactly the bare extension text, such as a
file named `js` (`Probing.RewriteNeedsBareExtensionName`). A specifier like
`./ts.js` still reaches `ts.ts`, because the main extension loop uses
`with_extension`, which replaces the final extension.

## Model

| member | source | states |
|---|---|---|
| Utils.FindChar | src/utils.rs:4 | `find('*')`: none exactly when the character is absent; otherwise the index of its first occurrence |
| Utils.SplitAtStar | src/utils.rs:4-7 | a key with a `*` is its prefix, the `*`, and its suffix, and the prefix holds no `*`; none exactly when there is no `*` |
| Utils.MatchExportsPattern | src/utils.rs:3-10 | without `*`, a match is equality; with one, the target starts with the text before it and ends with the text after it |
| Utils.MatchExportsPatternCover | src/utils.rs:3-10 | any target that is the prefix and suffix around some middle matches, and such a target is at least as long as prefix plus suffix |
| Utils.ExtractDefinedSplit | src/utils.rs:12-19 | the capture's slice is in range exactly when the target is at least as long as prefix and suffix together, and strictly longer than the suffix |
| Utils.ExtractExportsPattern | src/utils.rs:12-19 | without `*` the capture is the whole target; with one, it is the target with as many characters dropped at the front as the prefix has and as many at the back as the suffix has |
| Utils.ExtractCapturesMiddle | src/utils.rs:3-19 | a target built as prefix + middle + suffix matches its pattern, and the capture gives back exactly the middle |
| Utils.StarFirstMatchUnderflows | src/utils.rs:3-19 | `"*.js"` matches `".js"`, but the capture's slice is out of range |
| Utils.OverlappingMatchInvertsSlice | src/utils.rs:3-19 | `"ab*b"` matches `"ab"`, but the capture's slice is inverted |
| Utils.BaseLength | src/utils.rs:22-35 | a key's base length is its length without `*`; with one, it runs up to and including its first `*` |
| Utils.PatternKeyCompare | src/utils.rs:21-52 | the comparison is -1, 0 or 1: the longer base wins; at equal base a star-free first key always loses, a pattern key beats a star-free one, and between pattern keys the longer wins |
| Utils.PatternKeyCompareRanks | src/utils.rs:21-52 | the comparison is 1 exactly when the second key outranks the first, or both are star-less of equal length; -1 exactly when the first outranks the second; 0 exactly for equal-shaped pattern keys |
| Utils.RankLessTransitive | src/utils.rs:21-52 | "is not outranked by" is transitive, so the best-key fold keeps a maximum |
| Utils.EmptyKeyIsDisplaced | src/es_resolver.rs:468-476 | the empty initial best key loses to every non-empty key |
| Utils.SelectBest | src/es_resolver.rs:470-478 | the fold returns its start value or a key of the list that matches the target |
| Utils.SelectBestIsMostSpecific | src/es_resolver.rs:470-478 | the fold's result is never outranked by its start value, nor by any key of the list that matches |
| Utils.BestMatch | src/es_resolver.rs:748-756 | the best key is empty, or a listed key that matches |
| Utils.BestMatchIsMostSpecific | src/es_resolver.rs:748-756 | no matching key outranks the best key; an empty best key means no non-empty key matches |
| Utils.ReplaceFirstStar | src/es_resolver.rs:590 | `replacen('*', s, 1)`: a template without `*` is unchanged; otherwise its first `*` is replaced by `s` |
| Types.DefaultFor | src/types.rs:25-38 | Node uses main fields `main, module` and conditions `node, require, default`; the browser uses `browser, module, main` and `browser, import, default` |
| Types.DefaultConditionsShape | src/types.rs:25-38 | both condition lists end with a single `default`, and Node never consults `browser` |
| Types.ExtensionFromStr | src/types.rs:77-92 | exactly the eleven names parse, and each parses to the extension whose name it is |
| Types.ExtensionToStr | src/types.rs:94-108 | every extension name is non-empty and holds no `.` and no `/` |
| Types.ExtensionRoundTrip | src/types.rs:77-108 | parsing an extension's name gives that extension back |
| Types.ExtensionToStrInjective | src/types.rs:94-108 | distinct extensions have distinct names |
| Types.Keys | src/types.rs:136 | the keys of an ordered map, in insertion order |
| Types.Lookup | src/types.rs:136 | `IndexMap::get`: none exactly when the key is absent; otherwise a value stored under that key, and the only one when keys are unique |
| Types.GetMainField | src/types.rs:122-129 | each main field reads its own `package.json` field |
| Types.GetMainFieldReadsOnlyItsField | src/types.rs:122-129 | setting one field changes what that field reads and nothing any other field reads |
| Types.DefaultCompilerOptions | src/types.rs:155-162 | the default compiler options set neither `baseUrl` nor `paths` |
| Paths.PathStringRoundTrip | src/es_resolver.rs:688-691 | printing a well-formed path and parsing it back is the identity |
| Paths.Join | src/es_resolver.rs:243 | joining an absolute string replaces the path; joining a relative one appends its segments; well-formedness is kept |
| Paths.Parent | src/es_resolver.rs:340 | no parent exactly at the root; otherwise the path minus its last segment |
| Paths.WithExtension | src/es_resolver.rs:641 | a path with a file name keeps its parent and gets the stem plus `.ext` as its last segment; one without a file name is unchanged |
| Paths.Clean | src/es_resolver.rs:644 | a cleaned path keeps its absoluteness, has no `.` or empty segments, an absolute one has no `..`, and a well-formed path stays well-formed |
| Paths.PathStringOfCleanSegments | src/es_resolver.rs:42-44 | a path whose components are free of "" and `.` prints as neither "" nor `.` unless it is the empty relative path |
| FileSystems.Canonicalize | src/es_resolver.rs:69-77 | succeeds exactly when something is at the path, gives an absolute path of a file or directory, and otherwise fails with `IOError` |
| FileSystems.ReadPackageJson | src/es_resolver.rs:267-282 | an unreadable file is `IOError` and an unparsable one is `InvalidPackageJSON`; success returns the parsed document |
| FileSystems.ReadTsconfig | src/es_resolver.rs:680 | a tsconfig is read exactly when one is stored at the path |
| PackageExports.IsConditionalExportsMainSugar | src/es_resolver.rs:346-369 | a string or array is sugar; a non-empty object is sugar exactly when no key starts with `.`, and not sugar exactly when every key does; a mix of both, or an empty object, is `InvalidExports` |
| PackageExports.ResolvePackageTargetString | src/es_resolver.rs:574-600 | always a path: the target beside `package.json`, with the target's first `*` replaced by the capture in pattern mode |
| PackageExports.ResolvePackageTarget | src/es_resolver.rs:505-571 | success always carries a path; the only error is `InvalidExports` |
| PackageExports.ResolveConditions | src/es_resolver.rs:527-548 | the walk of a condition object always yields a path or `InvalidExports` |
| PackageExports.ResolveFallbacks | src/es_resolver.rs:549-570 | the walk of a fallback array always yields a path or `InvalidExports` |
| PackageExports.FirstEligible | src/es_resolver.rs:528-530 | the first entry whose key is `default` or a listed condition and whose value is not null; none when there is no such entry |
| PackageExports.ConditionsFollowFirstEligible | src/es_resolver.rs:527-548 | a condition object is decided by its first entry that is eligible and non-null: that entry's result, error included, is the object's; with no such entry it is `InvalidExports` |
| PackageExports.ObjectTargetFollowsFirstEligible | src/es_resolver.rs:515-548 | an object target resolves as its first eligible non-null condition's target, or fails with `InvalidExports` when none is eligible |
| PackageExports.FallbacksTakeFirstSuccess | src/es_resolver.rs:549-567 | an array answers with the first item that resolves, and fails with `InvalidExports` when every item fails |
| PackageExports.ConditionOrderIrrelevant | src/es_resolver.rs:529 | only the set of conditions matters, not their order, because the object's own key order drives the walk |
| PackageExports.ConditionsOrderIrrelevant | src/es_resolver.rs:528-529 | a condition object walks the same under two condition lists with the same members |
| PackageExports.FallbacksOrderIrrelevant | src/es_resolver.rs:549-567 | a fallback array walks the same under two condition lists with the same members |
| PackageExports.ResolvedTargetIsALeaf | src/es_resolver.rs:505-600 | a resolved path comes from some string leaf of the target tree |
| PackageExports.LiveKeys | src/es_resolver.rs:470-471 | the keys considered for pattern matching are exactly those whose value is not null |
| PackageExports.ExactTarget | src/es_resolver.rs:427-446 | the sugar check's error is the only error; a string or array is its own target; under sugar `.` is the whole value; otherwise an object yields exactly the non-null value stored at the subpath, and none exactly when no such value is stored |
| PackageExports.ExactKeyFound | src/es_resolver.rs:427-446 | a non-null value stored at the subpath is the exact target even for `.`, because a `.` key rules out sugar |
| PackageExports.PatternTarget | src/es_resolver.rs:466-501 | pattern matching always yields a path or an error: `InvalidExports`, or a slice or unwrap panic |
| PackageExports.ResolveExports | src/es_resolver.rs:413-501 | once `exports` is present there is always a path or an error, and the error is `InvalidExports` or a panic |
| PackageExports.StringOrArrayExportsMatchAnySubpath | src/es_resolver.rs:428-434 | a string or array `exports` answers every subpath without `*` or trailing `/` |
| PackageExports.ExactKeyWins | src/es_resolver.rs:428-463 | an exact non-null key is resolved without pattern matching |
| PackageExports.ExactHitResolves | src/es_resolver.rs:428-463 | a direct hit on a non-pattern subpath is resolved as it is, outside pattern mode |
| PackageExports.ExactMissGoesToPattern | src/es_resolver.rs:427-466 | after a direct miss, or for a pattern subpath, only the pattern keys decide |
| PackageExports.SugarAnswersRoot | src/es_resolver.rs:436-446 | for sugar `exports`, the root subpath `.` resolves the whole `exports` value |
| PackageExports.SugarRootIsExact | src/es_resolver.rs:436-446 | for sugar `exports`, the exact target of `.` is the whole value |
| PackageExports.MixedExportsRejected | src/es_resolver.rs:427-436 | an object mixing `.` keys and condition keys is `InvalidExports` for any plain subpath |
| PackageExports.PatternKeySelected | src/es_resolver.rs:466-492 | after an exact miss, the most specific matching non-null key is resolved with its capture in pattern mode |
| PackageExports.ChosenKeyResolves | src/es_resolver.rs:480-491 | the chosen key's non-null value is resolved in pattern mode with the segment its `*` captured |
| PackageExports.NoMatchingKeyGivesEmptyPath | src/es_resolver.rs:480-501 | after an exact miss with no matching key, the answer is the empty path |
| PackageExports.UniqueKeysNeverUnwrapNone | src/es_resolver.rs:485 | with unique keys, the `unwrap`s of the chosen key never panic |
| PackageExports.PatternTargetNeverUnwrapNone | src/es_resolver.rs:485 | with unique keys, the pattern branch never panics on `unwrap` |
| PackageExports.DualRootFollowsFirstEligible | src/es_resolver.rs:436-463 | for `{"import": "./<esm>", "default": "./<cjs>"}` the root resolves to the `<esm>` file beside `package.json` when `import` is a condition, and to `<cjs>` otherwise, whatever the names and the directory |
| PackageExports.SugarRootFollowsFirstEligible | src/es_resolver.rs:436-463 | for sugar `exports` the root's answer is the first eligible non-null condition's target, or `InvalidExports` when none is eligible |
| PackageExports.DualPackageInBrowser | src/types.rs:32-35 | under the browser defaults that package resolves to its ESM build |
| PackageExports.DualPackageInNode | src/types.rs:28-31 | under the Node defaults it resolves to its CommonJS build |
| PackageExports.LiveKeysIgnoreNull | src/es_resolver.rs:470-471 | appending a null entry does not change the candidate keys |
| PackageExports.NullEntryChangesNoPatternMatch | src/es_resolver.rs:466-501 | appending a null entry does not change pattern matching |
| PackageExports.LookupPrefix | src/es_resolver.rs:431 | lookup finds the first entry with the key, so appending entries does not change the lookup of a key already present |
| PackageExports.PatternSubstitutesCapture | src/es_resolver.rs:466-492 | a subpath built around the best key's `*` resolves to the key's string target beside `package.json`, with the middle substituted for its `*` |
| TsconfigPaths.JoinAll | src/es_resolver.rs:739-744 | each template joined onto the base directory, in order |
| TsconfigPaths.SubstituteAll | src/es_resolver.rs:771-786 | each template, with the capture substituted, joined onto the base directory, in order |
| TsconfigPaths.MatchTsconfigPaths | src/es_resolver.rs:733-790 | an exact key gives its templates under `baseUrl`; no matching key gives the target itself under `baseUrl`; every candidate is well-formed; the only error is the slice panic |
| TsconfigPaths.PatternKeyDecides | src/es_resolver.rs:746-787 | after an exact miss, the best key matches, no matching key outranks it, and its templates are used with the capture |
| TsconfigPaths.PatternSubstitutesCapture | src/es_resolver.rs:746-787 | a target built around the best key's `*` maps to each template with the middle substituted |
| TsconfigPaths.EmptyTemplatesYieldNothing | src/es_resolver.rs:771-786 | a best key with no templates yields no candidates and does not panic |
| TsconfigPaths.PanicsOnlyOnShortCapture | src/es_resolver.rs:733-790 | matching panics exactly when, after an exact miss, a pattern key with templates wins and the target is too short for the capture |
| TsconfigPaths.RebaseBaseUrl | src/es_resolver.rs:688-691 | `paths` is untouched, `baseUrl` stays present or absent, and a present one parses back as the directory of the config file joined with the old value |
| TsconfigPaths.RebasedRoundTrip | src/es_resolver.rs:688-691 | the rebased directory survives printing and parsing |
| TsconfigPaths.MergeExtends | src/es_resolver.rs:706-714 | each field is the extending config's when it sets it, and otherwise the extended config's |
| TsconfigPaths.MergeExtendsLaws | src/es_resolver.rs:706-714 | the empty options are an identity on both sides, merging a config with itself changes nothing, and merging is associative along a chain |
| TsconfigPaths.FieldsInheritSeparately | src/es_resolver.rs:706-714 | a config that sets only `baseUrl` keeps it and inherits `paths` |
| Probing.ParsePackageName | src/es_resolver.rs:603-637 | an empty name panics; otherwise the name splits into a package name and a rest that is empty or starts with `/`; the package name is valid and, unscoped, holds no `/`; a scope without `/` is `InvalidModuleSpecifier` |
| Probing.Separator | src/es_resolver.rs:604-615 | the split point is a `/` of the name; there is none for a scope without a slash; unscoped, it is the first `/` |
| Probing.ParseUnscoped | src/es_resolver.rs:603-637 | an unscoped name splits at its first `/` |
| Probing.ParseScoped | src/es_resolver.rs:603-637 | a scoped name splits at its second `/` |
| Probing.ScopedSeparator | src/es_resolver.rs:604-615 | the name of `@scope/name/rest` ends at the `/` that starts `rest`, or at the end when there is no rest |
| Probing.ScopedExample | src/es_resolver.rs:603-637 | `@emotion/styled` is a whole package name |
| Probing.UnscopedExample | src/es_resolver.rs:603-637 | `react/jsx-runtime` splits into `react` and `/jsx-runtime` |
| Probing.PackageSubpathShape | src/es_resolver.rs:384 | the exports subpath is `.` or starts with `./` |
| Probing.TryExtension | src/es_resolver.rs:639-647 | a hit exactly when the path with the extension exists, and then its cleaned form |
| Probing.FirstExtension | src/es_resolver.rs:172-184 | the first extension in list order that exists; none exactly when none does |
| Probing.FirstRewritten | src/es_resolver.rs:186-203 | the first table entry, in order, whose extension is the path's last component and whose replacements find a file decides; a rewrite only fires for such an entry; nothing is found exactly when every such entry finds nothing |
| Probing.LoadAsFile | src/es_resolver.rs:166-213 | an existing file is itself; otherwise the first listed extension that exists; when none exists, the `REWRITTEN_EXTENSIONS` fallback decides; any other hit is some extension of the path |
| Probing.RewriteNeedsBareExtensionName | src/es_resolver.rs:187 | a last component holding a dot never satisfies the component-wise `ends_with` |
| Probing.LoadIndex | src/es_resolver.rs:262-265 | the directory's `index` file itself, else `index` with the first listed extension that exists; any other hit is some extension of `index`; with neither `index` nor a listed extension of it present, nothing, since no extension is named `index` |
| Probing.IndexIsNoExtensionName | src/es_resolver.rs:186-203 | a path ending in `index` never ends with an extension's name, so `index` is never rewritten |
| Probing.FirstMainField | src/es_resolver.rs:240-250 | the result comes from a present main field whose file loads, and every present field before it fails to load; none exactly when every present field fails to load |
| Probing.FirstFieldThatLoadsWins | src/es_resolver.rs:240-250 | a present field whose file loads, with every earlier present field failing, is the answer whatever the later fields name |
| Probing.LoadAsDirectory | src/es_resolver.rs:230-254 | an unreadable or invalid `package.json` goes straight to the index; otherwise the main fields, then the index |
| Probing.BrowserFieldWinsInBrowser | src/types.rs:32-35 | under the browser defaults a `browser` field that names a file decides the directory, ahead of `module` and `main` |
| Probing.MainFieldWinsInNode | src/types.rs:28-31 | under the Node defaults a `main` field that names a file decides the directory |
| Probing.NoLoadingFieldFallsBackToIndex | src/es_resolver.rs:236-253 | when no present main field loads, the directory resolves as its index |
| Probing.LoadPackageExports | src/es_resolver.rs:377-412 | a name error, then a `package.json` read or parse error, propagates; no `exports` is no answer; otherwise the `exports` selection, which always answers or fails |
| Probing.ProbePackage | src/es_resolver.rs:306-336 | the exports lookup decides unless it gives no answer, `IOError` or `InvalidModuleSpecifier`; then the package as a file; then as a directory; nothing decides exactly when all three come back empty, and a decision is never "no answer" |
| Probing.ProbeNodeModules | src/es_resolver.rs:302-336 | at `<dir>/node_modules`: the exports lookup decides unless it falls through, and the search goes on exactly when it falls through and the package is neither a file nor a directory there |
| Probing.ExportsHideFiles | src/es_resolver.rs:306-320 | a package whose `package.json` has `exports` is answered by them alone, never probed as a file or directory |
| Probing.NoExportsProbesFiles | src/es_resolver.rs:306-336 | without a readable `package.json`, or without `exports`, the package is probed as a file and then as a directory |
| Probing.Ancestors | src/es_resolver.rs:297-341 | the start directory and then each parent, up to the root |
| Probing.AncestorsDropComponents | src/es_resolver.rs:340 | the i-th ancestor is the path with its last i components removed |
| Probing.FirstDecision | src/es_resolver.rs:299-343 | the first deciding outcome in order, or the fallback when none decides |
| Probing.LoadNodeModules | src/es_resolver.rs:292-344 | `load_node_modules` is the first decision among the probes at the start directory and each ancestor, nearest first, or no answer when none decides |
| EsResolver.NewResolver | src/es_resolver.rs:19-26 | a new resolver takes its environment's default options |
| EsResolver.OkWith | src/es_resolver.rs:42-44 | the answer is never empty: the empty relative path is written `.`, and for a well-formed path the string parses back to its cleaned form |
| EsResolver.LoadAsRelative | src/es_resolver.rs:139-153 | the file probe's hit wins; otherwise the directory probe decides; an answer is never empty |
| EsResolver.FirstRelative | src/es_resolver.rs:101-106 | the first candidate, in order, that loads; none exactly when none loads |
| EsResolver.ViaNodeModules | src/es_resolver.rs:119-136 | the walk from the importing file's directory answers exactly when it finds a file, and then with that file through `ok_with`; a panic propagates; every other outcome, and an importer without a parent, is `ModuleNotFound` |
| EsResolver.NodeModulesAnswerIsNearestPackage | src/es_resolver.rs:292-344 | the `node_modules` answer is the file found at the nearest ancestor whose probe decides, and every nearer probe came back empty |
| EsResolver.ResolveImpl | src/es_resolver.rs:58-137 | a `node:` specifier passes through and a core module gets the scheme, under Node; otherwise a missing importer is `IOError`; a relative specifier answers exactly when it loads next to the importer, else `ModuleNotFound`; in tsconfig mode a bare specifier goes to `node_modules`; an answer is never empty, and package-level errors never escape |
| EsResolver.ViaTsconfigPaths | src/es_resolver.rs:88-117 | a tsconfig search error propagates; no config, or one without `paths`, settles nothing; otherwise a mapping panic propagates and the answer is the first of `match_tsconfig_paths`'s candidates, in order, that loads; a mapped answer is never empty and no package-level error escapes |
| EsResolver.ResolveTsconfig | src/es_resolver.rs:651-676 | the tsconfig search never raises a package-level error |
| EsResolver.ParseTsconfig | src/es_resolver.rs:678-730 | an unreadable file is no config; an unparsable one is `InvalidTSConfig`; no package-level error escapes |
| EsResolver.Resolve | src/es_resolver.rs:50-52 | resolution never raises a package-level error |
| EsResolver.NodeSchemePassesThrough | src/es_resolver.rs:61-63 | under Node, a `node:` specifier is returned unchanged |
| EsResolver.CoreModuleGetsScheme | src/es_resolver.rs:64-66 | under Node, a core module name gets the `node:` prefix |
| EsResolver.MissingImporterIsIOError | src/es_resolver.rs:69-77 | when the specifier is not a built-in, a missing importing file is `IOError` |
| EsResolver.RelativeSkipsTsconfig | src/es_resolver.rs:80-87 | a relative specifier resolves next to the importing file without consulting tsconfig, and is `ModuleNotFound` when neither probe hits |
| EsResolver.RelativeTakesFirstExtension | src/es_resolver.rs:166-184 | a relative specifier that is not itself a file resolves to the first listed extension that exists |
| EsResolver.UnsettledPathsFallThrough | src/es_resolver.rs:88-131 | a tsconfig step that settles nothing leaves resolution exactly as in tsconfig mode |
| EsResolver.FailedCandidatesDoNotSettle | src/es_resolver.rs:97-106 | when no mapped candidate loads, the tsconfig step settles nothing |
| EsResolver.NoPathsDoNotSettle | src/es_resolver.rs:91-111 | no tsconfig, or one without `paths`, settles nothing |
| EsResolver.MappedCandidateWins | src/es_resolver.rs:101-104 | a mapped candidate that loads is the result, ahead of `node_modules` |
| EsResolver.TsconfigErrorsPropagate | src/es_resolver.rs:112-115 | a tsconfig error ends resolution with that error |
| EsResolver.BareSpecifierUsesNodeModules | src/es_resolver.rs:119-136 | a found package file is the result; a panic propagates; every other outcome is `ModuleNotFound` |
| EsResolver.ConfigWithoutExtends | src/es_resolver.rs:688-726 | a config without `extends` is itself, with `baseUrl` rebased |
| EsResolver.ConfigWithExtends | src/es_resolver.rs:693-723 | the `extends` target is resolved in tsconfig mode under Node; a target without a config is `InvalidTSConfigExtend`; otherwise the rebased options are merged over the parent's |
| EsResolver.NearestConfigWins | src/es_resolver.rs:654-667 | the first config name that parses in the start directory is the config |
| EsResolver.EmptyNamesSkipped | src/es_resolver.rs:654-667 | config names that come back empty are passed over: the search equals the search over the names that follow them |
| EsResolver.FirstConfigNameWins | src/es_resolver.rs:654-667 | within one directory the config names are tried in order, and the first that does not come back empty decides, a parse error included |
| EsResolver.NoConfigHereGoesUp | src/es_resolver.rs:654-671 | when no config name yields a config in a directory, the search restarts in its parent with the full list of names, and ends with nothing at the root |
| EsResolver.UncoveredSubpathResolvesToDot | src/es_resolver.rs:466-501 | a bare specifier whose package has object `exports` with no key for the subpath resolves to `.` |

## Left out

- File contents and JSON parsing: the file system holds each `package.json` and `tsconfig.json` as already parsed, or as unparsable. The stripping of comments from `tsconfig.json` is part of that parsing and is not modelled.
- Error messages and the `std::io::Error` and `serde_json::Error` payloads: errors are their variants only.
- `tracing` and `debug!` output: it has no effect on results.
- The constant tables in `src/data.rs` (Node core modules, rewritten extensions, tsconfig names, default extensions): `src/data.rs` is not part of this model, so they are a `Constants` parameter. Membership in the core-module list is set membership, which is what `binary_search` on a sorted list computes.
- `EsResolveOptions.extensions`: the resolver reads it, but the options record in `src/types.rs` does not declare it, and its default lives in `src/data.rs`. The model adds the field. `Types.DefaultFor` and `EsResolver.NewResolver` take the default extension list as a parameter.
- Paths are segment lists over `/`. Windows prefixes, symlinks (which `canonicalize` would resolve) and non-UTF-8 names are not modelled. Canonicalizing an existing path yields its cleaned absolute form. A trailing `/` is dropped: for `./foo/` where `foo` is a regular file, Rust's `is_file()` on `…/foo/` fails (`ENOTDIR`) and the probe goes on to `foo.js`, whereas the model answers `foo`.
- String lengths and indices count characters, whereas Rust counts UTF-8 bytes. For ASCII keys the two agree. The slice panic on a non-character boundary is not modelled.
- EsResolver.ParseTsconfig: a `fuel` parameter bounds the depth of the `extends` chain. Where the source recurses without limit, or overflows its stack on a cycle, the model stops with `Panic(ExtendsTooDeep)`. The model also stops with that panic on an acyclic chain longer than `fuel`, which the source resolves; a caller must pass at least the chain's depth to get the source's answer.
- Utils.ExtractDefined: assumes overflow-checked arithmetic, Rust's debug-build behaviour. In a release build `|target| - (|pattern| - i)` wraps, so a leading-`*` key whose target is exactly one character shorter than the key is not a panic but an empty capture.
- Utils.ExtractDefinedSplit: "in range exactly when" holds for the overflow-checked build only. A release build also accepts an empty prefix with `|target| == |suffix|`, capturing "".
- Utils.StarFirstMatchUnderflows: the panic it exhibits is that of an overflow-checked build. A release build captures "" for `"*.js"` against `".js"`.
- TsconfigPaths.PanicsOnlyOnShortCapture: "exactly when" assumes overflow checks. In a release build a leading-`*` key with a target one character shorter than the key, such as `"*-utils"` against `"-utils"` or `"*"` against the empty specifier, captures "" and does not abort.
- `add_extension` in `src/utils.rs` is not called by the resolution core.
- `parse_tsconfig` builds a copy of the options with only the `json` extension and never uses it. The `extends` lookup uses the resolver's own options, and the model does the same.
- The non-pattern `resolve_package_target` call passes the package subpath where the capture would go; the capture is unused when not in pattern mode.
- `internal` and `is_pathmap` of `resolve_package_target`: they are passed through and never read.
- es_resolve implements neither the `imports` field nor a resolution cache, so neither is modelled.
