/** The parts of tsconfig handling that need no file system: the `paths`
    mapping of a bare specifier to candidate locations, the rebasing of
    `baseUrl` onto the config file's directory, and the merge of a config
    with the one it `extends`. */
module TsconfigPaths {
  import opened Wrappers
  import opened Utils
  import opened Types
  import opened Paths

  /** Every template joined onto the base directory, in order. */
  function JoinAll(base: Path, templates: seq<string>): (r: seq<Path>)
    ensures |r| == |templates|
    ensures forall i :: 0 <= i < |r| ==> r[i] == Join(base, templates[i])
  {
    if |templates| == 0 then [] else [Join(base, templates[0])] + JoinAll(base, templates[1..])
  }

  /** Every template with its first `*` replaced by `captured`, joined onto
      the base directory, in order. */
  function SubstituteAll(base: Path, templates: seq<string>, captured: string): (r: seq<Path>)
    ensures |r| == |templates|
    ensures forall i :: 0 <= i < |r| ==> r[i] == Join(base, ReplaceFirstStar(templates[i], captured))
  {
    if |templates| == 0 then []
    else [Join(base, ReplaceFirstStar(templates[0], captured))] + SubstituteAll(base, templates[1..], captured)
  }

  /** `match_tsconfig_paths`: the candidate locations of `target`, relative
      to `baseUrl`. An exact key gives its templates; otherwise the most
      specific matching pattern key gives its templates with the captured
      segment substituted; when no key matches, the target itself under
      `baseUrl` (TypeScript's implicit `"*": ["*"]`). The source's optional
      result is always present; the only failure is the slice panic of the
      capture, which an empty template list never reaches. */
  function MatchTsconfigPaths(target: string, baseUrl: string, paths: TSConfigPaths): (r: Result<seq<Path>, EsResolverError>)
    ensures r.Err? ==> r.error == Panic(SliceOutOfRange)
    ensures Lookup(paths, target).Some? ==> r == Ok(JoinAll(ToPath(baseUrl), Lookup(paths, target).value))
    ensures Lookup(paths, target).None? && BestMatch(Keys(paths), target) == "" ==>
      r == Ok([Join(ToPath(baseUrl), target)])
    ensures r.Ok? ==> forall i :: 0 <= i < |r.value| ==> WellFormed(r.value[i])
  {
    var base := ToPath(baseUrl);
    match Lookup(paths, target)
    case Some(templates) => Ok(JoinAll(base, templates))
    case None =>
      var best := BestMatch(Keys(paths), target);
      if |best| == 0 then Ok([Join(base, target)])
      else
        var templates := Lookup(paths, best).value;
        if |templates| == 0 then Ok([])
        else if !ExtractDefined(best, target) then Err(Panic(SliceOutOfRange))
        else Ok(SubstituteAll(base, templates, ExtractExportsPattern(best, target)))
  }

  /** Without an exact key, the most specific matching pattern key decides:
      no matching key ranks above it, and every one of its templates is
      tried with the segment its `*` captured. */
  lemma PatternKeyDecides(target: string, baseUrl: string, paths: TSConfigPaths)
    requires Lookup(paths, target).None?
    requires var best := BestMatch(Keys(paths), target); best != "" && ExtractDefined(best, target)
    ensures var best := BestMatch(Keys(paths), target);
      && MatchExportsPattern(best, target)
      && (forall i :: 0 <= i < |paths| && MatchExportsPattern(paths[i].0, target) ==> !RankLess(best, paths[i].0))
      && Lookup(paths, best).Some?
      && MatchTsconfigPaths(target, baseUrl, paths)
         == Ok(SubstituteAll(ToPath(baseUrl), Lookup(paths, best).value, ExtractExportsPattern(best, target)))
  {
    var keys := Keys(paths);
    BestMatchIsMostSpecific(keys, target);
    forall i | 0 <= i < |paths| && MatchExportsPattern(paths[i].0, target)
      ensures !RankLess(BestMatch(keys, target), paths[i].0)
    {
      assert keys[i] == paths[i].0;
    }
  }

  /** A target built from the chosen key's parts around some middle maps to
      each template with that middle put into its `*`. */
  lemma PatternSubstitutesCapture(pre: string, mid: string, suf: string, baseUrl: string, paths: TSConfigPaths)
    requires '*' !in pre && |pre| + |mid| > 0
    requires Lookup(paths, pre + mid + suf).None?
    requires BestMatch(Keys(paths), pre + mid + suf) == pre + "*" + suf
    ensures Lookup(paths, pre + "*" + suf).Some?
    ensures MatchTsconfigPaths(pre + mid + suf, baseUrl, paths)
         == Ok(SubstituteAll(ToPath(baseUrl), Lookup(paths, pre + "*" + suf).value, mid))
  {
    ExtractCapturesMiddle(pre, mid, suf);
  }

  /** A pattern key with no templates yields no candidates and cannot
      panic: the capture is computed per template. */
  lemma EmptyTemplatesYieldNothing(target: string, baseUrl: string, paths: TSConfigPaths)
    requires Lookup(paths, target).None?
    requires var best := BestMatch(Keys(paths), target); best != "" && Lookup(paths, best) == Some([])
    ensures MatchTsconfigPaths(target, baseUrl, paths) == Ok([])
  {
  }

  /** The capture panics exactly when a pattern key with templates wins
      and the target is too short for the slice. */
  lemma PanicsOnlyOnShortCapture(target: string, baseUrl: string, paths: TSConfigPaths)
    ensures MatchTsconfigPaths(target, baseUrl, paths).Err? <==>
      var best := BestMatch(Keys(paths), target);
      && Lookup(paths, target).None? && best != ""
      && Lookup(paths, best).Some? && |Lookup(paths, best).value| > 0
      && !ExtractDefined(best, target)
  {
  }

  /** The `baseUrl` rewrite in src/es_resolver.rs:688-691: a configured
      base directory is taken relative to the directory of the config file
      that names it. Nothing else changes. */
  function RebaseBaseUrl(configPath: Path, opts: TSConfigCompilerOptions): (r: TSConfigCompilerOptions)
    ensures r.paths == opts.paths
    ensures r.baseUrl.Some? <==> opts.baseUrl.Some?
    ensures WellFormed(configPath) && r.baseUrl.Some? ==>
      ToPath(r.baseUrl.value) == WithFileName(configPath, opts.baseUrl.value)
  {
    match opts.baseUrl
    case None => opts
    case Some(url) =>
      RebasedRoundTrip(configPath, url);
      opts.(baseUrl := Some(PathString(WithFileName(configPath, url))))
  }

  /** The rebased directory survives its trip through a string. */
  lemma RebasedRoundTrip(p: Path, name: string)
    ensures WellFormed(p) ==> ToPath(PathString(WithFileName(p, name))) == WithFileName(p, name)
  {
    if WellFormed(p) {
      if FileName(p).Some? {
        assert Parent(p).value.segments == p.segments[..|p.segments| - 1];
      }
      PathStringRoundTrip(WithFileName(p, name));
    }
  }

  /** The `extends` merge (src/es_resolver.rs:706-714): each of `baseUrl`
      and `paths` comes from the extending config when it sets it, from the
      extended one otherwise; the two fields are chosen independently. */
  function MergeExtends(child: TSConfigCompilerOptions, parent: TSConfigCompilerOptions): (r: TSConfigCompilerOptions)
    ensures child.baseUrl.Some? ==> r.baseUrl == child.baseUrl
    ensures child.baseUrl.None? ==> r.baseUrl == parent.baseUrl
    ensures child.paths.Some? ==> r.paths == child.paths
    ensures child.paths.None? ==> r.paths == parent.paths
  {
    TSConfigCompilerOptions(child.baseUrl.Or(parent.baseUrl), child.paths.Or(parent.paths))
  }

  /** Extending the empty options, or being them, changes nothing; a config
      extending itself is itself; and a chain of `extends` merges the same
      however it is grouped. */
  lemma MergeExtendsLaws(a: TSConfigCompilerOptions, b: TSConfigCompilerOptions, c: TSConfigCompilerOptions)
    ensures MergeExtends(a, DefaultCompilerOptions()) == a
    ensures MergeExtends(DefaultCompilerOptions(), a) == a
    ensures MergeExtends(a, a) == a
    ensures MergeExtends(MergeExtends(a, b), c) == MergeExtends(a, MergeExtends(b, c))
  {
  }

  /** The fields are inherited separately: a config that sets only
      `baseUrl` keeps it and takes the extended config's `paths`. */
  lemma FieldsInheritSeparately(child: TSConfigCompilerOptions, parent: TSConfigCompilerOptions)
    requires child.baseUrl.Some? && child.paths.None? && parent.paths.Some?
    ensures MergeExtends(child, parent) == TSConfigCompilerOptions(child.baseUrl, parent.paths)
  {
  }
}
