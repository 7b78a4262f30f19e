/** Package `exports` resolution once the `package.json` has been read:
    the "conditional exports main sugar" test, the walk of a condition
    tree down to a target string, and the choice of the subpath key. */
module PackageExports {
  import opened Wrappers
  import opened Utils
  import opened Types
  import opened Paths

  /** A key that names a condition rather than a subpath. */
  predicate IsConditionKey(key: string) {
    !StartsWith(key, ".")
  }

  /** `is_conditional_exports_main_sugar`: is the whole `exports` value the
      target of the package root? Strings and arrays are; an object is
      when none of its keys starts with `.`, and is not when all do. An
      object mixing both kinds, and an empty object, are invalid. */
  function IsConditionalExportsMainSugar(exports: Exports): (r: Result<bool, EsResolverError>)
    ensures exports.String? || exports.Array? ==> r == Ok(true)
    ensures r.Err? ==> r.error == InvalidExports
    ensures exports.Object? ==>
      var o := exports.entries;
      && (r == Ok(true) <==> |o| > 0 && forall i :: 0 <= i < |o| ==> IsConditionKey(o[i].0))
      && (r == Ok(false) <==> |o| > 0 && forall i :: 0 <= i < |o| ==> !IsConditionKey(o[i].0))
      && (r.Err? <==> |o| == 0 || ((exists i :: 0 <= i < |o| && IsConditionKey(o[i].0))
                                   && (exists j :: 0 <= j < |o| && !IsConditionKey(o[j].0))))
  {
    match exports
    case String(_) => Ok(true)
    case Array(_) => Ok(true)
    case Object(o) =>
      var allConditions := forall i | 0 <= i < |o| :: IsConditionKey(o[i].0);
      var anyCondition := exists i | 0 <= i < |o| :: IsConditionKey(o[i].0);
      assert |o| > 0 ==> (allConditions ==> IsConditionKey(o[0].0));
      if allConditions == anyCondition then Ok(allConditions) else Err(InvalidExports)
  }

  /** `resolve_package_target_string`: the target is taken relative to the
      `package.json`'s directory; in pattern mode its first `*` is replaced
      by the captured segment. The target itself is not validated. */
  function ResolvePackageTargetString(pjPath: Path, target: string, subpath: string, pattern: bool)
    : (r: Result<Option<Path>, EsResolverError>)
    ensures r.Ok? && r.value.Some?
    ensures !pattern || '*' !in target ==> r.value.value == WithFileName(pjPath, target)
    ensures pattern ==> match SplitAtStar(target)
                        case None => true
                        case Some(parts) => r.value.value == WithFileName(pjPath, parts.0 + subpath + parts.1)
  {
    if !pattern then Ok(Some(WithFileName(pjPath, target)))
    else Ok(Some(WithFileName(pjPath, ReplaceFirstStar(target, subpath))))
  }

  /** A condition key the walk may take: "default" or a configured one. */
  predicate Eligible(key: string, conditions: seq<string>) {
    key == "default" || key in conditions
  }

  /** `resolve_package_target`. It never yields `Ok(None)`, and its only
      error is `InvalidExports`. */
  function ResolvePackageTarget(pjPath: Path, target: Exports, subpath: string, pattern: bool, conditions: seq<string>)
    : (r: Result<Option<Path>, EsResolverError>)
    ensures r.Ok? ==> r.value.Some?
    ensures r.Err? ==> r.error == InvalidExports
    decreases target, 1
  {
    match target
    case String(t) => ResolvePackageTargetString(pjPath, t, subpath, pattern)
    case Object(entries) => ResolveConditions(pjPath, target, entries, subpath, pattern, conditions)
    case Array(items) => ResolveFallbacks(pjPath, target, items, subpath, pattern, conditions)
  }

  /** The object case (src/es_resolver.rs:527-548): entries in map order;
      an eligible non-null entry decides, its error propagating; when no
      entry decides, the result is `InvalidExports`. `whole` is the object
      being walked and only bounds the recursion. */
  function ResolveConditions(pjPath: Path, ghost whole: Exports, entries: Entries<Option<Exports>>,
                             subpath: string, pattern: bool, conditions: seq<string>)
    : (r: Result<Option<Path>, EsResolverError>)
    requires forall i :: 0 <= i < |entries| && entries[i].1.Some? ==> entries[i].1.value < whole
    ensures r.Ok? ==> r.value.Some?
    ensures r.Err? ==> r.error == InvalidExports
    decreases whole, 0, |entries|
  {
    if |entries| == 0 then Err(InvalidExports)
    else
      var key := entries[0].0;
      var child := entries[0].1;
      if Eligible(key, conditions) && child.Some? then
        // The source continues past an `Ok(None)`, which the call never returns.
        var result :- ResolvePackageTarget(pjPath, child.value, subpath, pattern, conditions);
        Ok(result)
      else ResolveConditions(pjPath, whole, entries[1..], subpath, pattern, conditions)
  }

  /** The array case (src/es_resolver.rs:549-567): items in order, the
      first success wins and every error is swallowed; when none succeeds
      the result is `InvalidExports`. */
  function ResolveFallbacks(pjPath: Path, ghost whole: Exports, items: seq<Exports>,
                            subpath: string, pattern: bool, conditions: seq<string>)
    : (r: Result<Option<Path>, EsResolverError>)
    requires forall i :: 0 <= i < |items| ==> items[i] < whole
    ensures r.Ok? ==> r.value.Some?
    ensures r.Err? ==> r.error == InvalidExports
    decreases whole, 0, |items|
  {
    if |items| == 0 then Err(InvalidExports)
    else
      var result := ResolvePackageTarget(pjPath, items[0], subpath, pattern, conditions);
      if result.Ok? && result.value.Some? then result
      else ResolveFallbacks(pjPath, whole, items[1..], subpath, pattern, conditions)
  }

  /** Index of the first entry the object walk takes: eligible, not null. */
  function FirstEligible(entries: Entries<Option<Exports>>, conditions: seq<string>): (r: Option<nat>)
    ensures r.Some? ==> r.value < |entries| && Eligible(entries[r.value].0, conditions) && entries[r.value].1.Some?
    ensures r.Some? ==> forall j :: 0 <= j < r.value ==> !(Eligible(entries[j].0, conditions) && entries[j].1.Some?)
    ensures r.None? ==> forall j :: 0 <= j < |entries| ==> !(Eligible(entries[j].0, conditions) && entries[j].1.Some?)
  {
    if |entries| == 0 then None
    else if Eligible(entries[0].0, conditions) && entries[0].1.Some? then Some(0)
    else
      match FirstEligible(entries[1..], conditions)
      case None => None
      case Some(i) => Some(i + 1)
  }

  /** The object walk is decided by its first eligible non-null entry alone:
      whatever that entry gives, error included, is the result, and later
      entries are never looked at. */
  lemma {:induction false} ConditionsFollowFirstEligible(pjPath: Path, whole: Exports, entries: Entries<Option<Exports>>,
                                                        subpath: string, pattern: bool, conditions: seq<string>)
    requires forall i :: 0 <= i < |entries| && entries[i].1.Some? ==> entries[i].1.value < whole
    ensures ResolveConditions(pjPath, whole, entries, subpath, pattern, conditions)
         == match FirstEligible(entries, conditions)
            case None => Err(InvalidExports)
            case Some(i) => ResolvePackageTarget(pjPath, entries[i].1.value, subpath, pattern, conditions)
    decreases |entries|
  {
    if |entries| > 0 && !(Eligible(entries[0].0, conditions) && entries[0].1.Some?) {
      ConditionsFollowFirstEligible(pjPath, whole, entries[1..], subpath, pattern, conditions);
      var rest := FirstEligible(entries[1..], conditions);
      if rest.Some? {
        assert entries[1..][rest.value] == entries[rest.value + 1];
      }
    }
  }

  /** The array walk gives the first item that resolves, and fails only
      when every item fails. */
  lemma {:induction false} FallbacksTakeFirstSuccess(pjPath: Path, whole: Exports, items: seq<Exports>,
                                                    subpath: string, pattern: bool, conditions: seq<string>)
    requires forall i :: 0 <= i < |items| ==> items[i] < whole
    ensures var r := ResolveFallbacks(pjPath, whole, items, subpath, pattern, conditions);
      && (r.Ok? ==> exists i :: 0 <= i < |items|
                     && ResolvePackageTarget(pjPath, items[i], subpath, pattern, conditions) == r
                     && forall j :: 0 <= j < i ==> ResolvePackageTarget(pjPath, items[j], subpath, pattern, conditions).Err?)
      && (r.Err? <==> forall i :: 0 <= i < |items| ==> ResolvePackageTarget(pjPath, items[i], subpath, pattern, conditions).Err?)
    decreases |items|
  {
    if |items| > 0 {
      var r := ResolveFallbacks(pjPath, whole, items, subpath, pattern, conditions);
      var first := ResolvePackageTarget(pjPath, items[0], subpath, pattern, conditions);
      if !first.Ok? {
        FallbacksTakeFirstSuccess(pjPath, whole, items[1..], subpath, pattern, conditions);
        if r.Ok? {
          var i :| 0 <= i < |items[1..]|
                   && ResolvePackageTarget(pjPath, items[1..][i], subpath, pattern, conditions) == r
                   && forall j :: 0 <= j < i ==> ResolvePackageTarget(pjPath, items[1..][j], subpath, pattern, conditions).Err?;
          assert items[1..][i] == items[i + 1];
          forall j | 0 <= j < i + 1
            ensures ResolvePackageTarget(pjPath, items[j], subpath, pattern, conditions).Err?
          {
            if j > 0 { assert items[j] == items[1..][j - 1]; }
          }
        } else {
          forall i | 0 <= i < |items|
            ensures ResolvePackageTarget(pjPath, items[i], subpath, pattern, conditions).Err?
          {
            if i > 0 { assert items[i] == items[1..][i - 1]; }
          }
        }
      }
    }
  }

  /** Only membership in the condition list matters, never its order: the
      walk follows the order of the `exports` object itself. */
  lemma {:induction false} ConditionOrderIrrelevant(pjPath: Path, target: Exports, subpath: string, pattern: bool,
                                                   c1: seq<string>, c2: seq<string>)
    requires forall c :: c in c1 <==> c in c2
    ensures ResolvePackageTarget(pjPath, target, subpath, pattern, c1)
         == ResolvePackageTarget(pjPath, target, subpath, pattern, c2)
    decreases target, 1
  {
    match target
    case String(_) =>
    case Object(entries) => ConditionsOrderIrrelevant(pjPath, target, entries, subpath, pattern, c1, c2);
    case Array(items) => FallbacksOrderIrrelevant(pjPath, target, items, subpath, pattern, c1, c2);
  }

  lemma {:induction false} ConditionsOrderIrrelevant(pjPath: Path, whole: Exports, entries: Entries<Option<Exports>>,
                                                    subpath: string, pattern: bool, c1: seq<string>, c2: seq<string>)
    requires forall i :: 0 <= i < |entries| && entries[i].1.Some? ==> entries[i].1.value < whole
    requires forall c :: c in c1 <==> c in c2
    ensures ResolveConditions(pjPath, whole, entries, subpath, pattern, c1)
         == ResolveConditions(pjPath, whole, entries, subpath, pattern, c2)
    decreases whole, 0, |entries|
  {
    if |entries| > 0 {
      assert Eligible(entries[0].0, c1) == Eligible(entries[0].0, c2);
      if entries[0].1.Some? {
        ConditionOrderIrrelevant(pjPath, entries[0].1.value, subpath, pattern, c1, c2);
      }
      ConditionsOrderIrrelevant(pjPath, whole, entries[1..], subpath, pattern, c1, c2);
    }
  }

  lemma {:induction false} FallbacksOrderIrrelevant(pjPath: Path, whole: Exports, items: seq<Exports>,
                                                   subpath: string, pattern: bool, c1: seq<string>, c2: seq<string>)
    requires forall i :: 0 <= i < |items| ==> items[i] < whole
    requires forall c :: c in c1 <==> c in c2
    ensures ResolveFallbacks(pjPath, whole, items, subpath, pattern, c1)
         == ResolveFallbacks(pjPath, whole, items, subpath, pattern, c2)
    decreases whole, 0, |items|
  {
    if |items| > 0 {
      ConditionOrderIrrelevant(pjPath, items[0], subpath, pattern, c1, c2);
      FallbacksOrderIrrelevant(pjPath, whole, items[1..], subpath, pattern, c1, c2);
    }
  }

  /** `t` is one of the target strings of the tree. */
  predicate HasLeaf(e: Exports, t: string)
    decreases e
  {
    match e
    case String(s) => s == t
    case Object(entries) => exists i :: 0 <= i < |entries| && entries[i].1.Some? && HasLeaf(entries[i].1.value, t)
    case Array(items) => exists i :: 0 <= i < |items| && HasLeaf(items[i], t)
  }

  /** Whatever the walk resolves to is one of the tree's target strings,
      resolved against the `package.json`. */
  lemma {:induction false} ResolvedTargetIsALeaf(pjPath: Path, target: Exports, subpath: string, pattern: bool, conditions: seq<string>)
    ensures var r := ResolvePackageTarget(pjPath, target, subpath, pattern, conditions);
      r.Ok? ==> exists t :: HasLeaf(target, t) && r == ResolvePackageTargetString(pjPath, t, subpath, pattern)
    decreases target, 1
  {
    var r := ResolvePackageTarget(pjPath, target, subpath, pattern, conditions);
    match target
    case String(s) =>
      assert HasLeaf(target, s);
    case Object(entries) =>
      ConditionsFollowFirstEligible(pjPath, target, entries, subpath, pattern, conditions);
      var first := FirstEligible(entries, conditions);
      if first.Some? {
        var child := entries[first.value].1.value;
        ResolvedTargetIsALeaf(pjPath, child, subpath, pattern, conditions);
        if r.Ok? {
          var t :| HasLeaf(child, t) && r == ResolvePackageTargetString(pjPath, t, subpath, pattern);
          assert HasLeaf(target, t);
        }
      }
    case Array(items) =>
      FallbacksTakeFirstSuccess(pjPath, target, items, subpath, pattern, conditions);
      if r.Ok? {
        var i :| 0 <= i < |items| && ResolvePackageTarget(pjPath, items[i], subpath, pattern, conditions) == r
                 && forall j :: 0 <= j < i ==> ResolvePackageTarget(pjPath, items[j], subpath, pattern, conditions).Err?;
        ResolvedTargetIsALeaf(pjPath, items[i], subpath, pattern, conditions);
        var t :| HasLeaf(items[i], t) && r == ResolvePackageTargetString(pjPath, t, subpath, pattern);
        assert HasLeaf(target, t);
      }
  }

  /** `PathBuf::new()`: the empty relative path. */
  const EmptyPath := Path(false, [])

  /** A subpath the direct lookup applies to: no `*` and no trailing `/`. */
  predicate NonPatternSubpath(packageSubpath: string) {
    '*' !in packageSubpath && !EndsWith(packageSubpath, "/")
  }

  /** Keys of the non-null entries, in map order. */
  function LiveKeys(entries: Entries<Option<Exports>>): (ks: seq<string>)
    ensures forall k :: k in ks <==> exists i :: 0 <= i < |entries| && entries[i].0 == k && entries[i].1.Some?
  {
    if |entries| == 0 then []
    else
      var rest := LiveKeys(entries[1..]);
      assert forall i :: 1 <= i < |entries| ==> entries[i] == entries[1..][i - 1];
      if entries[0].1.Some? then [entries[0].0] + rest else rest
  }

  /** Lines 428-445: the target of a non-pattern subpath. A string or array
      `exports` is the target of every such subpath; an object gives the
      non-null value of the exact key; sugar makes the whole value the
      target of ".". The sugar test runs, and may fail, for every subpath. */
  function ExactTarget(exports: Exports, packageSubpath: string): (r: Result<Option<Exports>, EsResolverError>)
    ensures r.Err? <==> IsConditionalExportsMainSugar(exports).Err?
    ensures r.Err? ==> r.error == InvalidExports
    ensures r.Ok? && (exports.String? || exports.Array?) ==> r.value == Some(exports)
    ensures r == Ok(None) ==> exports.Object? && forall t :: Lookup(exports.entries, packageSubpath) != Some(Some(t))
    ensures r.Ok? && exports.Object? && Lookup(exports.entries, packageSubpath).Some? ==>
      (Lookup(exports.entries, packageSubpath).value.Some? ==> r.value.Some?)
    ensures IsConditionalExportsMainSugar(exports) == Ok(true) && packageSubpath == "." ==> r == Ok(Some(exports))
    ensures exports.Object? && IsConditionalExportsMainSugar(exports).Ok?
            && !(IsConditionalExportsMainSugar(exports).value && packageSubpath == ".")
            && Lookup(exports.entries, packageSubpath).Some? && Lookup(exports.entries, packageSubpath).value.Some? ==>
      r == Ok(Lookup(exports.entries, packageSubpath).value)
    ensures exports.Object? && IsConditionalExportsMainSugar(exports).Ok?
            && !(IsConditionalExportsMainSugar(exports).value && packageSubpath == ".")
            && !(Lookup(exports.entries, packageSubpath).Some? && Lookup(exports.entries, packageSubpath).value.Some?) ==>
      r == Ok(None)
  {
    var maybeTarget :=
      match exports
      case String(_) => Some(exports)
      case Object(o) =>
        var v := Lookup(o, packageSubpath);
        if v.Some? && v.value.Some? then v.value else None
      case Array(_) => Some(exports);
    var sugar :- IsConditionalExportsMainSugar(exports);
    Ok(if sugar && packageSubpath == "." then Some(exports) else maybeTarget)
  }

  /** Lines 466-501: the most specific non-null key matching the subpath,
      resolved in pattern mode with the captured segment; the empty path
      when no key matches or `exports` is not an object. */
  function PatternTarget(pjPath: Path, exports: Exports, packageSubpath: string, conditions: seq<string>)
    : (r: Result<Option<Path>, EsResolverError>)
    ensures r.Ok? ==> r.value.Some?
    ensures r.Err? ==> r.error == InvalidExports || r.error == Panic(SliceOutOfRange) || r.error == Panic(UnwrapNone)
  {
    match exports
    case Object(o) =>
      var best := BestMatch(LiveKeys(o), packageSubpath);
      if !ExtractDefined(best, packageSubpath) then Err(Panic(SliceOutOfRange))
      else
        var captured := ExtractExportsPattern(best, packageSubpath);
        if |best| > 0 then
          var v := Lookup(o, best);
          if v.Some? && v.value.Some? then ResolvePackageTarget(pjPath, v.value.value, captured, true, conditions)
          else Err(Panic(UnwrapNone))
        else Ok(Some(EmptyPath))
    case _ => Ok(Some(EmptyPath))
  }

  /** Lines 413-501 once an `exports` value is present: the direct lookup
      for a non-pattern subpath, then the pattern keys. The result is never
      `Ok(None)`: a package with `exports` always answers. */
  function ResolveExports(pjPath: Path, exports: Exports, packageSubpath: string, conditions: seq<string>)
    : (r: Result<Option<Path>, EsResolverError>)
    ensures r.Ok? ==> r.value.Some?
    ensures r.Err? ==> r.error == InvalidExports || r.error.Panic?
  {
    if NonPatternSubpath(packageSubpath) then
      var exact :- ExactTarget(exports, packageSubpath);
      if exact.Some? then ResolvePackageTarget(pjPath, exact.value, packageSubpath, false, conditions)
      else PatternTarget(pjPath, exports, packageSubpath, conditions)
    else PatternTarget(pjPath, exports, packageSubpath, conditions)
  }

  /** A string or array `exports` answers every non-pattern subpath with
      its own targets, whatever the subpath names. */
  lemma {:induction false} StringOrArrayExportsMatchAnySubpath(pjPath: Path, exports: Exports, packageSubpath: string, conditions: seq<string>)
    requires exports.String? || exports.Array?
    requires NonPatternSubpath(packageSubpath)
    ensures ResolveExports(pjPath, exports, packageSubpath, conditions)
         == ResolvePackageTarget(pjPath, exports, packageSubpath, false, conditions)
  {
  }

  /** A non-null exact key answers a non-pattern subpath, ahead of every
      pattern key that also matches. */
  lemma {:induction false} ExactKeyWins(pjPath: Path, o: Entries<Option<Exports>>, packageSubpath: string, t: Exports, conditions: seq<string>)
    requires NonPatternSubpath(packageSubpath)
    requires IsConditionalExportsMainSugar(Object(o)).Ok?
    requires Lookup(o, packageSubpath) == Some(Some(t))
    ensures ResolveExports(pjPath, Object(o), packageSubpath, conditions)
         == ResolvePackageTarget(pjPath, t, packageSubpath, false, conditions)
  {
    ExactKeyFound(o, packageSubpath, t);
    ExactHitResolves(pjPath, Object(o), packageSubpath, t, conditions);
  }

  lemma {:induction false} ExactKeyFound(o: Entries<Option<Exports>>, packageSubpath: string, t: Exports)
    requires IsConditionalExportsMainSugar(Object(o)).Ok?
    requires Lookup(o, packageSubpath) == Some(Some(t))
    ensures ExactTarget(Object(o), packageSubpath) == Ok(Some(t))
  {
    if packageSubpath == "." {
      var i :| 0 <= i < |o| && o[i] == (packageSubpath, Some(t));
      assert !IsConditionKey(o[i].0);
    }
  }

  /** Sugar: when `exports` is itself the root target, "." resolves it
      whole. */
  lemma {:induction false} SugarAnswersRoot(pjPath: Path, exports: Exports, conditions: seq<string>)
    requires IsConditionalExportsMainSugar(exports) == Ok(true)
    ensures ResolveExports(pjPath, exports, ".", conditions)
         == ResolvePackageTarget(pjPath, exports, ".", false, conditions)
  {
    SugarRootIsExact(exports);
    RootIsNonPattern();
    ExactHitResolves(pjPath, exports, ".", exports, conditions);
  }

  lemma RootIsNonPattern()
    ensures NonPatternSubpath(".")
  {
    assert "."[0] == '.';
  }

  /** A direct hit is resolved as it is, outside pattern mode. */
  lemma {:induction false} ExactHitResolves(pjPath: Path, exports: Exports, packageSubpath: string, t: Exports, conditions: seq<string>)
    requires NonPatternSubpath(packageSubpath)
    requires ExactTarget(exports, packageSubpath) == Ok(Some(t))
    ensures ResolveExports(pjPath, exports, packageSubpath, conditions)
         == ResolvePackageTarget(pjPath, t, packageSubpath, false, conditions)
  {
  }

  lemma {:induction false} SugarRootIsExact(exports: Exports)
    requires IsConditionalExportsMainSugar(exports) == Ok(true)
    ensures ExactTarget(exports, ".") == Ok(Some(exports))
  {
  }

  /** An object mixing subpath and condition keys (or an empty object)
      fails every non-pattern subpath. */
  lemma {:induction false} MixedExportsRejected(pjPath: Path, exports: Exports, packageSubpath: string, conditions: seq<string>)
    requires NonPatternSubpath(packageSubpath)
    requires IsConditionalExportsMainSugar(exports).Err?
    ensures ResolveExports(pjPath, exports, packageSubpath, conditions) == Err(InvalidExports)
  {
  }

  /** The direct lookup found nothing (or did not apply). */
  predicate ExactMiss(exports: Exports, packageSubpath: string) {
    !NonPatternSubpath(packageSubpath) || ExactTarget(exports, packageSubpath) == Ok(None)
  }

  /** After a direct miss, the most specific matching non-null key is taken
      and its target resolved with the segment its `*` captured. No
      matching non-null key ranks above the chosen one. */
  lemma {:induction false} PatternKeySelected(pjPath: Path, o: Entries<Option<Exports>>, packageSubpath: string, conditions: seq<string>)
    requires UniqueKeys(o)
    requires ExactMiss(Object(o), packageSubpath)
    requires var best := BestMatch(LiveKeys(o), packageSubpath); |best| > 0 && ExtractDefined(best, packageSubpath)
    ensures var best := BestMatch(LiveKeys(o), packageSubpath);
      && MatchExportsPattern(best, packageSubpath)
      && (forall i :: 0 <= i < |o| && o[i].1.Some? && MatchExportsPattern(o[i].0, packageSubpath) ==> !RankLess(best, o[i].0))
      && exists t :: Lookup(o, best) == Some(Some(t))
           && ResolveExports(pjPath, Object(o), packageSubpath, conditions)
              == ResolvePackageTarget(pjPath, t, ExtractExportsPattern(best, packageSubpath), true, conditions)
  {
    var keys := LiveKeys(o);
    var best := BestMatch(keys, packageSubpath);
    BestMatchIsMostSpecific(keys, packageSubpath);
    forall i | 0 <= i < |o| && o[i].1.Some? && MatchExportsPattern(o[i].0, packageSubpath)
      ensures !RankLess(best, o[i].0)
    {
      assert o[i].0 in keys;
    }
    var i :| 0 <= i < |o| && o[i].0 == best && o[i].1.Some?;
    assert Lookup(o, best) == Some(o[i].1);
    ExactMissGoesToPattern(pjPath, Object(o), packageSubpath, conditions);
    ChosenKeyResolves(pjPath, o, packageSubpath, conditions, o[i].1.value);
  }

  /** After a direct miss only the pattern keys are consulted. */
  lemma {:induction false} ExactMissGoesToPattern(pjPath: Path, exports: Exports, packageSubpath: string, conditions: seq<string>)
    requires ExactMiss(exports, packageSubpath)
    ensures ResolveExports(pjPath, exports, packageSubpath, conditions)
         == PatternTarget(pjPath, exports, packageSubpath, conditions)
  {
  }

  /** The chosen key's value is resolved in pattern mode with the capture. */
  lemma {:induction false} ChosenKeyResolves(pjPath: Path, o: Entries<Option<Exports>>, packageSubpath: string,
                                             conditions: seq<string>, t: Exports)
    requires var best := BestMatch(LiveKeys(o), packageSubpath);
      best != "" && ExtractDefined(best, packageSubpath) && Lookup(o, best) == Some(Some(t))
    ensures PatternTarget(pjPath, Object(o), packageSubpath, conditions)
         == ResolvePackageTarget(pjPath, t, ExtractExportsPattern(BestMatch(LiveKeys(o), packageSubpath), packageSubpath),
                                 true, conditions)
  {
  }

  /** With no matching non-null key the answer is the empty path, not an
      error. */
  lemma {:induction false} NoMatchingKeyGivesEmptyPath(pjPath: Path, exports: Exports, packageSubpath: string, conditions: seq<string>)
    requires ExactMiss(exports, packageSubpath)
    requires exports.Object? ==> forall i :: 0 <= i < |exports.entries| && exports.entries[i].1.Some?
                                   ==> |exports.entries[i].0| == 0 || !MatchExportsPattern(exports.entries[i].0, packageSubpath)
    ensures ResolveExports(pjPath, exports, packageSubpath, conditions) == Ok(Some(EmptyPath))
  {
    if exports.Object? {
      var keys := LiveKeys(exports.entries);
      BestMatchIsMostSpecific(keys, packageSubpath);
    }
  }

  /** Keys of an `IndexMap` are unique, so the `unwrap` of the chosen key's
      value never fails. */
  lemma {:induction false} UniqueKeysNeverUnwrapNone(pjPath: Path, o: Entries<Option<Exports>>, packageSubpath: string, conditions: seq<string>)
    requires UniqueKeys(o)
    ensures ResolveExports(pjPath, Object(o), packageSubpath, conditions) != Err(Panic(UnwrapNone))
  {
    PatternTargetNeverUnwrapNone(pjPath, o, packageSubpath, conditions);
  }

  lemma {:induction false} PatternTargetNeverUnwrapNone(pjPath: Path, o: Entries<Option<Exports>>, packageSubpath: string, conditions: seq<string>)
    requires UniqueKeys(o)
    ensures PatternTarget(pjPath, Object(o), packageSubpath, conditions) != Err(Panic(UnwrapNone))
  {
    var best := BestMatch(LiveKeys(o), packageSubpath);
    if best != "" {
      LiveKeyIsNotNull(o, best);
    }
  }

  /** With unique keys, a live key's value is not null. */
  lemma {:induction false} LiveKeyIsNotNull(o: Entries<Option<Exports>>, k: string)
    requires UniqueKeys(o) && k in LiveKeys(o)
    ensures Lookup(o, k).Some? && Lookup(o, k).value.Some?
  {
    var i :| 0 <= i < |o| && o[i].0 == k && o[i].1.Some?;
    assert Lookup(o, k) == Some(o[i].1);
  }


  /** A package whose root offers an ESM build `esm` and a CommonJS
      build `cjs`, both beside its `package.json`. */
  function DualExports(esm: string, cjs: string): Exports {
    Object([("import", Some(String("./" + esm))), ("default", Some(String("./" + cjs)))])
  }

  /** For sugar `exports`, the root follows the first eligible condition. */
  lemma {:induction false} SugarRootFollowsFirstEligible(pj: Path, o: Entries<Option<Exports>>, conditions: seq<string>)
    requires IsConditionalExportsMainSugar(Object(o)) == Ok(true)
    ensures ResolveExports(pj, Object(o), ".", conditions)
         == match FirstEligible(o, conditions)
            case None => Err(InvalidExports)
            case Some(i) => ResolvePackageTarget(pj, o[i].1.value, ".", false, conditions)
  {
    SugarAnswersRoot(pj, Object(o), conditions);
    ObjectTargetFollowsFirstEligible(pj, o, ".", conditions);
  }

  /** An object target is walked as a condition map. */
  lemma {:induction false} ObjectTargetFollowsFirstEligible(pj: Path, o: Entries<Option<Exports>>, subpath: string, conditions: seq<string>)
    ensures ResolvePackageTarget(pj, Object(o), subpath, false, conditions)
         == match FirstEligible(o, conditions)
            case None => Err(InvalidExports)
            case Some(i) => ResolvePackageTarget(pj, o[i].1.value, subpath, false, conditions)
  {
    ConditionsFollowFirstEligible(pj, Object(o), o, subpath, false, conditions);
  }

  /** `DualExports` is sugar: neither of its keys starts with `.`. */
  lemma DualExportsIsSugar(esm: string, cjs: string)
    ensures IsConditionalExportsMainSugar(DualExports(esm, cjs)) == Ok(true)
  {
    var o := DualExports(esm, cjs).entries;
    assert o[0].0[0] == 'i' && o[1].0[0] == 'd';
    assert IsConditionKey(o[0].0) && IsConditionKey(o[1].0);
  }

  /** The walk takes "import" when it is a condition and "default"
      otherwise. */
  lemma DualFirstEligible(esm: string, cjs: string, conditions: seq<string>)
    ensures FirstEligible(DualExports(esm, cjs).entries, conditions) == if "import" in conditions then Some(0) else Some(1)
  {
    var o := DualExports(esm, cjs).entries;
    assert o[0].0[0] == 'i';
    assert o[0].0 != "default";
    if "import" !in conditions {
      assert !Eligible(o[0].0, conditions);
      assert FirstEligible(o[1..], conditions) == Some(0);
    }
  }

  /** When the entry the walk takes is a string, the object resolves as
      that string. */
  lemma {:induction false} ChosenStringTarget(pj: Path, o: Entries<Option<Exports>>, conditions: seq<string>, i: nat, t: string)
    requires FirstEligible(o, conditions) == Some(i) && i < |o| && o[i].1 == Some(String(t))
    ensures ResolvePackageTarget(pj, Object(o), ".", false, conditions) == ResolvePackageTargetString(pj, t, ".", false)
  {
    ObjectTargetFollowsFirstEligible(pj, o, ".", conditions);
  }

  /** A "./name" target names a file beside the `package.json`. */
  lemma {:induction false} SiblingOfPackageJson(dir: seq<string>, name: string)
    requires ProperSegment(name)
    ensures ResolvePackageTargetString(Path(true, dir + ["package.json"]), "./" + name, ".", false)
         == Ok(Some(Path(true, dir + [name])))
  {
    assert Parent(Path(true, dir + ["package.json"])) == Some(Path(true, dir));
    SplitRelativeName(name);
  }

  /** The root of `DualExports` is the ESM build when "import" is among
      the conditions and the CommonJS build otherwise, wherever the package
      lives. */
  lemma {:induction false} DualRootFollowsFirstEligible(dir: seq<string>, esm: string, cjs: string, conditions: seq<string>)
    requires ProperSegment(esm) && ProperSegment(cjs)
    ensures ResolveExports(Path(true, dir + ["package.json"]), DualExports(esm, cjs), ".", conditions)
         == Ok(Some(Path(true, dir + [if "import" in conditions then esm else cjs])))
  {
    var pj := Path(true, dir + ["package.json"]);
    DualExportsIsSugar(esm, cjs);
    SugarAnswersRoot(pj, DualExports(esm, cjs), conditions);
    DualRootTarget(dir, esm, cjs, conditions);
  }

  lemma {:induction false} DualRootTarget(dir: seq<string>, esm: string, cjs: string, conditions: seq<string>)
    requires ProperSegment(esm) && ProperSegment(cjs)
    ensures ResolvePackageTarget(Path(true, dir + ["package.json"]), DualExports(esm, cjs), ".", false, conditions)
         == Ok(Some(Path(true, dir + [if "import" in conditions then esm else cjs])))
  {
    var pj := Path(true, dir + ["package.json"]);
    var o := DualExports(esm, cjs).entries;
    var name := if "import" in conditions then esm else cjs;
    DualFirstEligible(esm, cjs, conditions);
    ChosenStringTarget(pj, o, conditions, if "import" in conditions then 0 else 1, "./" + name);
    SiblingOfPackageJson(dir, name);
  }

  /** The browser's "import" condition picks the ESM build. */
  lemma {:induction false} DualPackageInBrowser(dir: seq<string>, esm: string, cjs: string)
    requires ProperSegment(esm) && ProperSegment(cjs)
    ensures ResolveExports(Path(true, dir + ["package.json"]), DualExports(esm, cjs), ".", ["browser", "import", "default"])
         == Ok(Some(Path(true, dir + [esm])))
  {
    var conditions := ["browser", "import", "default"];
    assert conditions[1] == "import";
    DualRootFollowsFirstEligible(dir, esm, cjs, conditions);
  }

  /** Node's conditions lack "import" and fall through to "default" and
      the CommonJS build. */
  lemma {:induction false} DualPackageInNode(dir: seq<string>, esm: string, cjs: string)
    requires ProperSegment(esm) && ProperSegment(cjs)
    ensures ResolveExports(Path(true, dir + ["package.json"]), DualExports(esm, cjs), ".", ["node", "require", "default"])
         == Ok(Some(Path(true, dir + [cjs])))
  {
    var conditions := ["node", "require", "default"];
    assert conditions[0][0] == 'n' && conditions[1][0] == 'r' && conditions[2][0] == 'd';
    assert "import" !in conditions;
    DualRootFollowsFirstEligible(dir, esm, cjs, conditions);
  }

  lemma {:induction false} LiveKeysIgnoreNull(o: Entries<Option<Exports>>, k: string)
    ensures LiveKeys(o + [(k, None)]) == LiveKeys(o)
    decreases |o|
  {
    if |o| > 0 {
      assert (o + [(k, None)])[1..] == o[1..] + [(k, None)];
      LiveKeysIgnoreNull(o[1..], k);
    } else {
      assert LiveKeys([(k, None)]) == LiveKeys([(k, None)][1..]);
    }
  }

  /** A null entry added after the others takes no part in the choice of a
      pattern key: it neither wins nor displaces the key that did. */
  lemma {:induction false} NullEntryChangesNoPatternMatch(pjPath: Path, o: Entries<Option<Exports>>, k: string,
                                                          packageSubpath: string, conditions: seq<string>)
    ensures PatternTarget(pjPath, Object(o + [(k, None)]), packageSubpath, conditions)
         == PatternTarget(pjPath, Object(o), packageSubpath, conditions)
  {
    var o' := o + [(k, None)];
    LiveKeysIgnoreNull(o, k);
    var best := BestMatch(LiveKeys(o), packageSubpath);
    if best != "" {
      assert best in LiveKeys(o);
      var i :| 0 <= i < |o| && o[i].0 == best && o[i].1.Some?;
      assert Keys(o)[i] == best;
      LookupPrefix(o, [(k, None)], best);
    }
    SameSelectionSamePatternTarget(pjPath, o', o, packageSubpath, conditions);
  }

  /** Pattern matching depends on the entries only through the live keys
      and the value of the chosen key. */
  lemma {:induction false} SameSelectionSamePatternTarget(pjPath: Path, o1: Entries<Option<Exports>>, o2: Entries<Option<Exports>>,
                                                          packageSubpath: string, conditions: seq<string>)
    requires LiveKeys(o1) == LiveKeys(o2)
    requires var best := BestMatch(LiveKeys(o1), packageSubpath);
      best != "" ==> Lookup(o1, best) == Lookup(o2, best)
    ensures PatternTarget(pjPath, Object(o1), packageSubpath, conditions)
         == PatternTarget(pjPath, Object(o2), packageSubpath, conditions)
  {
  }

  /** A key found in the first part of a list of entries is found there. */
  lemma {:induction false} LookupPrefix<V>(a: Entries<V>, b: Entries<V>, key: string)
    requires key in Keys(a)
    ensures Lookup(a + b, key) == Lookup(a, key)
    decreases |a|
  {
    if a[0].0 != key {
      assert (a + b)[1..] == a[1..] + b;
      assert Keys(a) == [a[0].0] + Keys(a[1..]);
      LookupPrefix(a[1..], b, key);
    }
  }

  /** A subpath built from the chosen key's parts around some middle
      resolves to the key's string target with that middle put into its
      first `*`. */
  lemma {:induction false} PatternSubstitutesCapture(pjPath: Path, o: Entries<Option<Exports>>, pre: string, mid: string, suf: string,
                                  t: string, conditions: seq<string>)
    requires '*' !in pre && |pre| + |mid| > 0
    requires ExactMiss(Object(o), pre + mid + suf)
    requires BestMatch(LiveKeys(o), pre + mid + suf) == pre + "*" + suf
    requires Lookup(o, pre + "*" + suf) == Some(Some(String(t)))
    ensures ResolveExports(pjPath, Object(o), pre + mid + suf, conditions)
         == Ok(Some(WithFileName(pjPath, ReplaceFirstStar(t, mid))))
  {
    ExtractCapturesMiddle(pre, mid, suf);
    ExactMissGoesToPattern(pjPath, Object(o), pre + mid + suf, conditions);
    ChosenKeyResolves(pjPath, o, pre + mid + suf, conditions, String(t));
  }
}
