/** Paths as lists of components, with the handful of `std::path` and
    `path_clean` operations the resolver uses. The semantics follow Rust's
    for the cases the resolver meets: separators and `.` components vanish
    when a string is split, `join` with an absolute string replaces the
    path, and `with_extension` replaces the text after the last dot of the
    file name. Symbolic links and Windows prefixes are not modelled. */
module Paths {
  import opened Wrappers
  import opened Utils

  datatype Path = Path(absolute: bool, segments: seq<string>)

  /** A component as `Path::components` yields it for a normal name or `..`. */
  predicate ProperSegment(s: string) {
    s != "" && s != "." && '/' !in s
  }

  predicate WellFormed(p: Path) {
    forall i :: 0 <= i < |p.segments| ==> ProperSegment(p.segments[i])
  }

  function SegmentOf(cur: string): (r: seq<string>)
    requires '/' !in cur
    ensures forall i :: 0 <= i < |r| ==> ProperSegment(r[i])
  {
    if cur == "" || cur == "." then [] else [cur]
  }

  function SplitFrom(s: string, cur: string): (r: seq<string>)
    requires '/' !in cur
    ensures forall i :: 0 <= i < |r| ==> ProperSegment(r[i])
    decreases |s|
  {
    if |s| == 0 then SegmentOf(cur)
    else if s[0] == '/' then SegmentOf(cur) + SplitFrom(s[1..], "")
    else SplitFrom(s[1..], cur + [s[0]])
  }

  /** The components of a path string. */
  function Split(s: string): (r: seq<string>)
    ensures forall i :: 0 <= i < |r| ==> ProperSegment(r[i])
  {
    SplitFrom(s, "")
  }

  /** `PathBuf::from`. */
  function ToPath(s: string): (p: Path)
    ensures WellFormed(p)
    ensures p.absolute <==> StartsWith(s, "/")
  {
    Path(StartsWith(s, "/"), Split(s))
  }

  function Intercalate(segments: seq<string>): string {
    if |segments| == 0 then ""
    else if |segments| == 1 then segments[0]
    else segments[0] + "/" + Intercalate(segments[1..])
  }

  /** `to_string_lossy` of a path. */
  function PathString(p: Path): string {
    (if p.absolute then "/" else "") + Intercalate(p.segments)
  }

  lemma {:induction false} SplitFromName(a: string, cur: string)
    requires '/' !in a && '/' !in cur
    ensures SplitFrom(a, cur) == SegmentOf(cur + a)
    decreases |a|
  {
    if |a| == 0 {
      assert cur + a == cur;
    } else {
      assert a[0] in a;
      assert (cur + [a[0]]) + a[1..] == cur + a;
      SplitFromName(a[1..], cur + [a[0]]);
    }
  }

  lemma {:induction false} SplitFromNameThenSlash(a: string, cur: string, t: string)
    requires '/' !in a && '/' !in cur
    ensures SplitFrom(a + "/" + t, cur) == SegmentOf(cur + a) + SplitFrom(t, "")
    decreases |a|
  {
    var s := a + "/" + t;
    if |a| == 0 {
      assert s == "/" + t;
      assert s[1..] == t;
      assert cur + a == cur;
    } else {
      assert a[0] in a;
      assert s[0] == a[0];
      assert s[1..] == a[1..] + "/" + t;
      assert (cur + [a[0]]) + a[1..] == cur + a;
      SplitFromNameThenSlash(a[1..], cur + [a[0]], t);
    }
  }

  lemma {:induction false} SplitIntercalate(segments: seq<string>)
    requires forall i :: 0 <= i < |segments| ==> ProperSegment(segments[i])
    ensures Split(Intercalate(segments)) == segments
    decreases |segments|
  {
    if |segments| == 0 {
    } else if |segments| == 1 {
      SplitFromName(segments[0], "");
      assert "" + segments[0] == segments[0];
    } else {
      var a := segments[0];
      assert ProperSegment(a);
      SplitFromNameThenSlash(a, "", Intercalate(segments[1..]));
      assert "" + a == a;
      SplitIntercalate(segments[1..]);
      assert segments == [a] + segments[1..];
    }
  }

  /** A `./`-prefixed name splits to the name alone. */
  lemma SplitRelativeName(name: string)
    requires ProperSegment(name)
    ensures Split("./" + name) == [name]
  {
    assert "./" + name == "." + "/" + name;
    SplitFromNameThenSlash(".", "", name);
    SplitFromName(name, "");
    assert "" + name == name;
  }

  /** Printing a well-formed path and parsing it back gives the same path. */
  lemma PathStringRoundTrip(p: Path)
    requires WellFormed(p)
    ensures ToPath(PathString(p)) == p
  {
    var body := Intercalate(p.segments);
    SplitIntercalate(p.segments);
    if p.absolute {
      var s := "/" + body;
      assert s[1..] == body;
      assert SplitFrom(s, "") == SegmentOf("") + SplitFrom(body, "");
      assert StartsWith(s, "/");
    } else if |p.segments| > 0 {
      assert ProperSegment(p.segments[0]);
      IntercalateStartsWithFirst(p.segments);
      assert "" + body == body;
    } else {
      assert PathString(p) == "";
    }
  }

  lemma {:induction false} IntercalateStartsWithFirst(segments: seq<string>)
    requires |segments| > 0 && ProperSegment(segments[0])
    ensures |Intercalate(segments)| > 0 && Intercalate(segments)[0] == segments[0][0]
  {
  }

  /** Only the empty relative path is written as ".", or as nothing at
      all, once its components are free of "" and ".". */
  lemma PathStringOfCleanSegments(p: Path)
    requires forall i :: 0 <= i < |p.segments| ==> p.segments[i] != "." && p.segments[i] != ""
    requires p != Path(false, [])
    ensures PathString(p) != "." && PathString(p) != ""
  {
    if p.absolute {
      assert PathString(p)[0] == '/';
    } else if |p.segments| > 1 {
      assert |PathString(p)| >= |p.segments[0] + "/"| >= 2;
    }
  }

  /** `Path::join` with a string. */
  function Join(p: Path, s: string): (r: Path)
    ensures WellFormed(p) ==> WellFormed(r)
    ensures StartsWith(s, "/") ==> r == ToPath(s)
    ensures !StartsWith(s, "/") ==> r.absolute == p.absolute && r.segments == p.segments + Split(s)
  {
    if StartsWith(s, "/") then ToPath(s)
    else Path(p.absolute, p.segments + Split(s))
  }

  function Last(p: Path): string
    requires |p.segments| > 0
  {
    p.segments[|p.segments| - 1]
  }

  /** `Path::file_name`: the last component unless it is `..`. */
  function FileName(p: Path): Option<string> {
    if |p.segments| == 0 || Last(p) == ".." then None else Some(Last(p))
  }

  /** `Path::parent`: the path without its last component; none for the
      root or the empty path. */
  function Parent(p: Path): (r: Option<Path>)
    ensures r.None? <==> |p.segments| == 0
    ensures r.Some? ==> r.value.absolute == p.absolute && r.value.segments + [Last(p)] == p.segments
  {
    if |p.segments| == 0 then None
    else
      assert p.segments == p.segments[..|p.segments| - 1] + [Last(p)];
      Some(Path(p.absolute, p.segments[..|p.segments| - 1]))
  }

  /** `Path::with_file_name`: drop the file name, if any, then join. */
  function WithFileName(p: Path, name: string): Path {
    Join(if FileName(p).Some? then Parent(p).value else p, name)
  }

  /** Index of the last occurrence of `c`. */
  function FindLast(s: string, c: char): (r: Option<nat>)
    ensures r.None? <==> c !in s
    ensures r.Some? ==> r.value < |s| && s[r.value] == c && c !in s[r.value + 1..]
  {
    if |s| == 0 then None
    else if s[|s| - 1] == c then Some(|s| - 1)
    else
      var r := FindLast(s[..|s| - 1], c);
      assert s == s[..|s| - 1] + [s[|s| - 1]];
      r
  }

  /** `Path::file_stem` of a name: the text before its last dot, unless the
      only dot is the leading one. */
  function FileStem(name: string): string {
    match FindLast(name, '.')
    case Some(i) => if i > 0 then name[..i] else name
    case None => name
  }

  /** `Path::with_extension`: the file name's stem followed by `.ext`; a
      path without a file name is returned unchanged. */
  function WithExtension(p: Path, ext: string): (r: Path)
    ensures FileName(p).None? ==> r == p
    ensures FileName(p).Some? ==> Parent(r) == Parent(p) && Last(r) == FileStem(Last(p)) + "." + ext
  {
    if FileName(p).None? then p
    else Path(p.absolute, Parent(p).value.segments + [FileStem(Last(p)) + "." + ext])
  }

  function CleanFrom(absolute: bool, segments: seq<string>, acc: seq<string>): (r: seq<string>)
    requires forall i :: 0 <= i < |acc| ==> acc[i] != "." && acc[i] != ""
    requires absolute ==> ".." !in acc
    ensures forall i :: 0 <= i < |r| ==> r[i] != "." && r[i] != ""
    ensures absolute ==> ".." !in r
    ensures (forall i :: 0 <= i < |segments| ==> '/' !in segments[i]) && (forall i :: 0 <= i < |acc| ==> '/' !in acc[i]) ==>
      forall i :: 0 <= i < |r| ==> '/' !in r[i]
    decreases |segments|
  {
    if |segments| == 0 then acc
    else
      var s := segments[0];
      if s == "." || s == "" then CleanFrom(absolute, segments[1..], acc)
      else if s == ".." then
        if |acc| > 0 && acc[|acc| - 1] != ".." then CleanFrom(absolute, segments[1..], acc[..|acc| - 1])
        else if absolute then CleanFrom(absolute, segments[1..], acc)
        else CleanFrom(absolute, segments[1..], acc + [".."])
      else CleanFrom(absolute, segments[1..], acc + [s])
  }

  /** `PathClean::clean`: `.` components vanish and each `..` removes the
      component before it; at the root a `..` is dropped, at the start of a
      relative path it is kept. */
  function Clean(p: Path): (r: Path)
    ensures r.absolute == p.absolute
    ensures forall i :: 0 <= i < |r.segments| ==> r.segments[i] != "." && r.segments[i] != ""
    ensures p.absolute ==> ".." !in r.segments
    ensures WellFormed(p) ==> WellFormed(r)
  {
    Path(p.absolute, CleanFrom(p.absolute, p.segments, []))
  }
}
