/** String helpers behind subpath patterns: one-`*` matching, capture of the
    segment the `*` stands for, and the specificity order used to pick the
    best matching key (the PATTERN_KEY_COMPARE step of the Node.js ESM
    resolver algorithm).

    Strings are `seq<char>` and every index is a character index; the
    Rust code works on UTF-8 byte offsets, which coincide for ASCII keys. */
module Utils {
  import opened Wrappers

  predicate StartsWith(s: string, prefix: string) {
    |prefix| <= |s| && s[..|prefix|] == prefix
  }

  predicate EndsWith(s: string, suffix: string) {
    |suffix| <= |s| && s[|s| - |suffix|..] == suffix
  }

  /** Index of the first occurrence of `c`, like `str::find`. */
  function FindChar(s: string, c: char): (r: Option<nat>)
    ensures r.None? <==> c !in s
    ensures r.Some? ==> r.value < |s| && s[r.value] == c && c !in s[..r.value]
  {
    var r := FindCharFrom(s, c, 0);
    assert r.Some? ==> forall k :: 0 <= k < |s[..r.value]| ==> s[..r.value][k] != c;
    r
  }

  /** Index of the first occurrence of `c` at or after `from`. */
  function FindCharFrom(s: string, c: char, from: nat): (r: Option<nat>)
    requires from <= |s|
    ensures r.None? <==> forall k :: from <= k < |s| ==> s[k] != c
    ensures r.Some? ==> from <= r.value < |s| && s[r.value] == c && forall k :: from <= k < r.value ==> s[k] != c
    decreases |s| - from
  {
    if from == |s| then None
    else if s[from] == c then Some(from)
    else FindCharFrom(s, c, from + 1)
  }

  /** The first index found by `FindChar` is the only position of `c` that
      has no earlier `c`. */
  lemma FindCharUnique(s: string, c: char, i: nat)
    requires i < |s| && s[i] == c && c !in s[..i]
    ensures FindChar(s, c) == Some(i)
  {
    assert s[i] in s;
  }

  /** A pattern split around its first `*`: the text before it and after it. */
  function SplitAtStar(pattern: string): (r: Option<(string, string)>)
    ensures r.None? <==> '*' !in pattern
    ensures r.Some? ==> pattern == r.value.0 + "*" + r.value.1 && '*' !in r.value.0
  {
    match FindChar(pattern, '*')
    case None => None
    case Some(i) =>
      assert pattern == pattern[..i] + "*" + pattern[i + 1..];
      Some((pattern[..i], pattern[i + 1..]))
  }

  /** The split is determined by the decomposition: `pre` is the text before
      the first star. */
  lemma SplitAtStarOf(pre: string, suf: string)
    requires '*' !in pre
    ensures SplitAtStar(pre + "*" + suf) == Some((pre, suf))
  {
    var p := pre + "*" + suf;
    assert p[..|pre|] == pre;
    FindCharUnique(p, '*', |pre|);
    assert p[|pre| + 1..] == suf;
  }

  /** `match_exports_pattern`: a star-free pattern matches only itself; a
      pattern with a star matches every target that starts with the text
      before the first star and ends with the text after it. The two parts
      may overlap in the target: there is no length check. */
  function MatchExportsPattern(pattern: string, target: string): (r: bool)
    ensures '*' !in pattern ==> (r <==> target == pattern)
    ensures SplitAtStar(pattern).Some? ==>
      (r <==> StartsWith(target, SplitAtStar(pattern).value.0)
              && EndsWith(target, SplitAtStar(pattern).value.1))
  {
    match FindChar(pattern, '*')
    case Some(i) => StartsWith(target, pattern[..i]) && EndsWith(target, pattern[i + 1..])
    case None => pattern == target
  }

  /** When the slice in `extract_exports_pattern` is defined: the end index
      `|target| - (|pattern| - i) + 1` must not underflow (with overflow
      checks on) and must not fall before the start index `i`. */
  predicate ExtractDefined(pattern: string, target: string) {
    match FindChar(pattern, '*')
    case None => true
    case Some(i) => |target| >= |pattern| - i && |target| + 1 >= |pattern|
  }

  /** In terms of the split: the target is at least as long as the two
      fixed parts together, and strictly longer than the part after the
      star. */
  lemma ExtractDefinedSplit(pattern: string, target: string)
    requires SplitAtStar(pattern).Some?
    ensures ExtractDefined(pattern, target) <==>
      |target| >= |SplitAtStar(pattern).value.0| + |SplitAtStar(pattern).value.1|
      && |target| > |SplitAtStar(pattern).value.1|
  {
  }

  /** `extract_exports_pattern`: the segment of `target` that the first `*`
      of `pattern` stands for; the whole target for a star-free pattern. */
  function ExtractExportsPattern(pattern: string, target: string): (r: string)
    requires ExtractDefined(pattern, target)
    ensures '*' !in pattern ==> r == target
    ensures match SplitAtStar(pattern)
            case None => true
            case Some(parts) =>
              |r| + |parts.0| + |parts.1| == |target|
              && (MatchExportsPattern(pattern, target) ==> parts.0 + r + parts.1 == target)
  {
    match FindChar(pattern, '*')
    case Some(i) =>
      CaptureFillsGap(pattern, target, i);
      target[i..|target| - (|pattern| - i) + 1]
    case None => target
  }

  lemma SplitThree(s: string, i: nat, e: nat)
    requires i <= e <= |s|
    ensures s[..i] + s[i..e] + s[e..] == s
  {
    assert s[..i] + s[i..e] == s[..e];
  }

  /** The slice between the two fixed parts is what is left of the target,
      and on a match the parts and the slice put back give the target. */
  lemma CaptureFillsGap(pattern: string, target: string, i: nat)
    requires FindChar(pattern, '*') == Some(i) && ExtractDefined(pattern, target)
    ensures var e := |target| - (|pattern| - i) + 1;
      && i <= e <= |target|
      && |target[i..e]| + i + (|pattern| - i - 1) == |target|
      && (MatchExportsPattern(pattern, target) ==> pattern[..i] + target[i..e] + pattern[i + 1..] == target)
  {
    var e := |target| - (|pattern| - i) + 1;
    var pre, suf := pattern[..i], pattern[i + 1..];
    assert |pre| == i && |suf| == |pattern| - i - 1;
    if MatchExportsPattern(pattern, target) {
      assert StartsWith(target, pre) && EndsWith(target, suf);
      assert target[..i] == pre;
      assert |target| - |suf| == e;
      assert target[e..] == suf;
      SplitThree(target, i, e);
    }
  }

  /** Extraction inverts substitution: a target built from the pattern's
      two parts around some middle is matched, and the middle is what is
      captured. The target must be longer than the part after the star
      (see `StarFirstMatchUnderflows` for the one case that is not). */
  lemma ExtractCapturesMiddle(pre: string, mid: string, suf: string)
    requires '*' !in pre
    requires |pre| + |mid| > 0
    ensures var pattern := pre + "*" + suf;
      var target := pre + mid + suf;
      && MatchExportsPattern(pattern, target)
      && ExtractDefined(pattern, target)
      && ExtractExportsPattern(pattern, target) == mid
  {
    var target := pre + mid + suf;
    SplitAtStarOf(pre, suf);
    ExtractDefinedSplit(pre + "*" + suf, target);
    assert target[..|pre|] == pre;
    assert target[|target| - |suf|..] == suf;
    var r := ExtractExportsPattern(pre + "*" + suf, target);
    assert pre + r + suf == target;
    assert r == target[|pre|..|pre| + |r|];
  }

  /** Matching together with the length condition of Node's PATTERN_KEY
      matching is exactly "the target is the prefix, some middle, then the
      suffix". */
  lemma {:induction false} MatchExportsPatternCover(pre: string, suf: string, target: string)
    requires '*' !in pre
    ensures MatchExportsPattern(pre + "*" + suf, target) && |target| >= |pre| + |suf|
            <==> exists mid :: target == pre + mid + suf
  {
    SplitAtStarOf(pre, suf);
    var pattern := pre + "*" + suf;
    if MatchExportsPattern(pattern, target) && |target| >= |pre| + |suf| {
      assert StartsWith(target, pre) && EndsWith(target, suf);
      var e := |target| - |suf|;
      SplitThree(target, |pre|, e);
      assert target == pre + target[|pre|..e] + suf;
    }
    if exists mid :: target == pre + mid + suf {
      var mid :| target == pre + mid + suf;
      assert target[..|pre|] == pre;
      assert target[|target| - |suf|..] == suf;
      assert StartsWith(target, pre) && EndsWith(target, suf);
    }
  }

  /** `"*.js"` matches `".js"`, but computing the captured segment
      underflows: the suffix leaves nothing for the star. */
  lemma StarFirstMatchUnderflows()
    ensures MatchExportsPattern("*.js", ".js")
    ensures !ExtractDefined("*.js", ".js")
  {
    SplitAtStarOf("", ".js");
    assert "" + "*" + ".js" == "*.js";
    assert ".js"[3 - 3..] == ".js";
  }

  /** `"ab*b"` matches `"ab"` (prefix and suffix overlap), but the capture
      slice would end before it starts. */
  lemma OverlappingMatchInvertsSlice()
    ensures MatchExportsPattern("ab*b", "ab")
    ensures !ExtractDefined("ab*b", "ab")
  {
    SplitAtStarOf("ab", "b");
    assert "ab" + "*" + "b" == "ab*b";
    assert "ab"[..2] == "ab";
    assert "ab"[2 - 1..] == "b";
  }

  /** Length of a key up to and including its first star; the whole length
      for a star-free key. */
  function BaseLength(key: string): (n: nat)
    ensures '*' !in key ==> n == |key|
    ensures '*' in key ==> 1 <= n <= |key| && key[n - 1] == '*' && '*' !in key[..n - 1]
  {
    match FindChar(key, '*')
    case Some(i) => i + 1
    case None => |key|
  }

  /** `pattern_key_compare`: -1 when `a` is the more specific key, 1 when
      `b` is, 0 for two starred keys of the same shape. Its one oddity: a
      star-free `a` loses every tie of base length, even against an equally
      long star-free `b`. */
  function PatternKeyCompare(a: string, b: string): (r: int)
    ensures r == -1 || r == 0 || r == 1
    ensures BaseLength(a) > BaseLength(b) ==> r == -1
    ensures BaseLength(b) > BaseLength(a) ==> r == 1
    ensures BaseLength(a) == BaseLength(b) ==>
      && ('*' !in a ==> r == 1)
      && ('*' in a && '*' !in b ==> r == -1)
      && ('*' in a && '*' in b ==> (r == -1 <==> |a| > |b|) && (r == 1 <==> |b| > |a|))
  {
    var aIndex := FindChar(a, '*');
    var bIndex := FindChar(b, '*');
    var baseA := if aIndex.None? then |a| else aIndex.value + 1;
    var baseB := if bIndex.None? then |b| else bIndex.value + 1;
    if baseA > baseB then -1
    else if baseB > baseA then 1
    else if aIndex.None? then 1
    else if bIndex.None? then -1
    else if |a| > |b| then -1
    else if |b| > |a| then 1
    else 0
  }

  /** The specificity order the comparison is meant to implement, stated
      independently: keys rank by base length, then a starred key above a
      star-free one, then among starred keys by total length. */
  predicate RankLess(a: string, b: string) {
    || BaseLength(a) < BaseLength(b)
    || (BaseLength(a) == BaseLength(b) && '*' !in a && '*' in b)
    || (BaseLength(a) == BaseLength(b) && '*' in a && '*' in b && |a| < |b|)
  }

  lemma RankLessTransitive(a: string, b: string, c: string)
    requires !RankLess(a, b) && !RankLess(b, c)
    ensures !RankLess(a, c)
  {
  }

  /** The comparison agrees with the rank: -1 exactly when `a` ranks
      higher, 1 when `b` ranks higher or on a tie of two star-free keys,
      and 0 only for two starred keys of equal rank. */
  lemma PatternKeyCompareRanks(a: string, b: string)
    ensures PatternKeyCompare(a, b) == -1 <==> RankLess(b, a)
    ensures PatternKeyCompare(a, b) == 1 <==> RankLess(a, b) || ('*' !in a && '*' !in b && |a| == |b|)
    ensures PatternKeyCompare(a, b) == 0 <==> '*' in a && '*' in b && BaseLength(a) == BaseLength(b) && |a| == |b|
  {
  }

  /** The empty initial best key is displaced by any non-empty key. */
  lemma EmptyKeyIsDisplaced(key: string)
    requires |key| > 0
    ensures PatternKeyCompare("", key) == 1
  {
  }

  /** The loop at src/es_resolver.rs:470 and :750: walk the keys in order,
      keeping the current best and replacing it by a matching key that
      compares as more specific. */
  function SelectBest(keys: seq<string>, target: string, best: string): (r: string)
    ensures r == best || (r in keys && MatchExportsPattern(r, target))
  {
    if |keys| == 0 then best
    else
      var next :=
        if MatchExportsPattern(keys[0], target) && PatternKeyCompare(best, keys[0]) == 1
        then keys[0] else best;
      SelectBest(keys[1..], target, next)
  }

  /** The best matching key, or `""` when none matches. */
  function BestMatch(keys: seq<string>, target: string): (r: string)
    ensures r == "" || (r in keys && MatchExportsPattern(r, target))
  {
    SelectBest(keys, target, "")
  }

  lemma {:induction false} SelectBestIsMostSpecific(keys: seq<string>, target: string, best: string)
    ensures !RankLess(SelectBest(keys, target, best), best)
    ensures forall k :: k in keys && MatchExportsPattern(k, target) ==>
      !RankLess(SelectBest(keys, target, best), k)
  {
    if |keys| > 0 {
      var k0 := keys[0];
      var next := if MatchExportsPattern(k0, target) && PatternKeyCompare(best, k0) == 1 then k0 else best;
      var r := SelectBest(keys, target, best);
      assert r == SelectBest(keys[1..], target, next);
      SelectBestIsMostSpecific(keys[1..], target, next);
      PatternKeyCompareRanks(best, k0);
      RankLessTransitive(r, next, best);
      if MatchExportsPattern(k0, target) {
        RankLessTransitive(r, next, k0);
      }
      forall k | k in keys && MatchExportsPattern(k, target)
        ensures !RankLess(r, k)
      {
        if k != k0 {
          assert k in keys[1..];
        }
      }
    }
  }

  /** The key chosen by `BestMatch` matches and no matching key ranks above
      it; it is `""` only when no non-empty key matches. */
  lemma BestMatchIsMostSpecific(keys: seq<string>, target: string)
    ensures BestMatch(keys, target) == "" || MatchExportsPattern(BestMatch(keys, target), target)
    ensures forall k :: k in keys && MatchExportsPattern(k, target) ==> !RankLess(BestMatch(keys, target), k)
    ensures BestMatch(keys, target) == "" ==>
      forall k :: k in keys && MatchExportsPattern(k, target) ==> k == ""
  {
    SelectBestIsMostSpecific(keys, target, "");
  }

  /** `str::replacen(t, '*', s, 1)`: the first star of `t` replaced by `s`. */
  function ReplaceFirstStar(t: string, s: string): (r: string)
    ensures '*' !in t ==> r == t
    ensures match SplitAtStar(t)
            case None => true
            case Some(parts) => r == parts.0 + s + parts.1
  {
    match FindChar(t, '*')
    case None => t
    case Some(i) => t[..i] + s + t[i + 1..]
  }
}
