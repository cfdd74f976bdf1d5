/**
 * `/`-separated path helpers standing for Go's `filepath.Dir`, `Base`, `Ext`
 * and `Join`. Path cleaning (`.`/`..` elements, repeated and trailing
 * separators) is not modelled.
 */
module Paths {
  import opened Wrappers
  import opened Text

  /** Index of the last `c` in `s`, if any. */
  function LastIndex(s: string, c: char): (r: Option<nat>)
    ensures r.None? ==> c !in s
    ensures r.Some? ==> r.value < |s| && s[r.value] == c && c !in s[r.value + 1..]
  {
    if s == [] then None
    else if s[|s| - 1] == c then Some(|s| - 1)
    else
      var r := LastIndex(s[..|s| - 1], c);
      assert s == s[..|s| - 1] + [s[|s| - 1]];
      r
  }

  /** `filepath.Dir`: everything before the last separator; `.` when there is none. */
  function Dir(p: string): string
  {
    match LastIndex(p, '/')
    case None => "."
    case Some(i) => if i == 0 then "/" else p[..i]
  }

  /** Everything after the last separator: the separator-free suffix that
      starts the path or follows a separator. */
  function LastName(p: string): (b: string)
    ensures FinalName(p, b)
  {
    match LastIndex(p, '/')
    case None => p
    case Some(i) => p[i + 1..]
  }

  /** The path without its trailing separators. */
  function TrimTrailingSeparators(p: string): (t: string)
    ensures |t| <= |p| && t == p[..|t|]
    ensures t == [] || t[|t| - 1] != '/'
    ensures forall k :: |t| <= k < |p| ==> p[k] == '/'
  {
    if p != [] && p[|p| - 1] == '/' then TrimTrailingSeparators(p[..|p| - 1]) else p
  }

  /** `filepath.Base`: the last element once trailing separators are dropped;
      `.` for the empty path and `/` for a path of separators only. */
  function Base(p: string): (b: string)
    ensures b != ""
    ensures p == "" ==> b == "."
    ensures p != "" && (forall k :: 0 <= k < |p| ==> p[k] == '/') ==> b == "/"
    ensures p != "" && p[|p| - 1] != '/' ==> b == LastName(p) && FinalName(p, b)
    ensures b == "/" || '/' !in b
  {
    if p == "" then "."
    else
      var t := TrimTrailingSeparators(p);
      if t == "" then "/"
      else
        var b := LastName(t);
        assert b != "" by {
          assert t[|t| - 1] != '/';
        }
        b
  }

  /** `Base` ignores a trailing separator, unless the path is a lone `/`. */
  lemma BaseTrailingSeparator(p: string)
    requires |p| > 1 && p[|p| - 1] == '/'
    ensures Base(p) == Base(p[..|p| - 1])
  {
    var q := p[..|p| - 1];
    assert TrimTrailingSeparators(p) == TrimTrailingSeparators(q);
    if TrimTrailingSeparators(q) == "" {
      assert forall k :: 0 <= k < |q| ==> q[k] == '/';
    }
  }

  /** `filepath.Ext`: the suffix of the last element starting at its last dot,
      or empty when that element has no dot. */
  function Ext(name: string): (e: string)
    ensures e != [] ==> e[0] == '.' && '.' !in e[1..] && '/' !in e
    ensures |e| <= |name| && e == name[|name| - |e|..]
  {
    match LastIndex(name, '.')
    case None => ""
    case Some(j) =>
      if '/' in name[j..] then "" else name[j..]
  }

  /** `Ext` is empty exactly when the last element has no dot. */
  lemma ExtEmptyIffNoDot(name: string)
    ensures Ext(name) == [] <==> '.' !in LastName(name)
  {
    match LastIndex(name, '.')
    case None => NoDotAnywhere(name);
    case Some(j) =>
      match LastIndex(name, '/')
      case None => DotInLastName(name, j);
      case Some(i) =>
        if i < j {
          DotInLastName(name, j);
        } else {
          DotBeforeSeparator(name, j, i);
        }
  }

  lemma NoDotAnywhere(name: string)
    requires LastIndex(name, '.').None?
    ensures Ext(name) == [] && '.' !in LastName(name)
  {
    assert forall k :: 0 <= k < |LastName(name)| ==> LastName(name)[k] in name;
  }

  lemma DotInLastName(name: string, j: nat)
    requires LastIndex(name, '.') == Some(j)
    requires LastIndex(name, '/').None? || LastIndex(name, '/').value < j
    ensures Ext(name) != [] && '.' in LastName(name)
  {
    match LastIndex(name, '/')
    case None =>
      assert name[0..] == name;
      NotInLaterSuffix(name, '/', 0, j);
      assert LastName(name)[j] == '.';
    case Some(i) =>
      NotInLaterSuffix(name, '/', i + 1, j);
      assert LastName(name)[j - i - 1] == '.';
  }

  lemma DotBeforeSeparator(name: string, j: nat, i: nat)
    requires LastIndex(name, '.') == Some(j) && LastIndex(name, '/') == Some(i) && j <= i
    ensures Ext(name) == [] && '.' !in LastName(name)
  {
    assert name[j..][i - j] == '/';
    NotInLaterSuffix(name, '.', j + 1, i + 1);
  }

  /** A character missing from a suffix is missing from every shorter suffix. */
  lemma NotInLaterSuffix(s: string, c: char, a: nat, b: nat)
    requires a <= b <= |s| && c !in s[a..]
    ensures c !in s[b..]
  {
    forall x | b <= x < |s|
      ensures s[x] != c
    {
      assert s[x] == s[a..][x - a];
    }
  }

  /** `strings.TrimSuffix(name, Ext(name))`. */
  function Stem(name: string): (s: string)
    ensures s + Ext(name) == name
  {
    name[..|name| - |Ext(name)|]
  }

  /** `filepath.Join(dir, file)` for a file name without separators. */
  function JoinPath(dir: string, file: string): string
  {
    if dir == "" || dir == "." then file
    else if dir[|dir| - 1] == '/' then dir + file
    else dir + "/" + file
  }

  /** Joining to a fixed directory keeps distinct file names distinct. */
  lemma JoinInjective(dir: string, x: string, y: string)
    requires JoinPath(dir, x) == JoinPath(dir, y)
    ensures x == y
  {
    var j := JoinPath(dir, x);
    if !(dir == "" || dir == ".") {
      var k := |j| - |x|;
      assert x == j[k..] == y;
    }
  }
  /** `a` is a separator-free suffix of `s` that is all of `s` or follows a separator. */
  predicate FinalName(s: string, a: string)
  {
    '/' !in a && |a| <= |s| && a == s[|s| - |a|..] && (|a| == |s| || s[|s| - |a| - 1] == '/')
  }

  /** The last element of a `/`-split: the separator-free suffix that starts
      the string or follows its last separator. */
  lemma {:induction false} SplitLast(s: string)
    ensures FinalName(s, Split(s, '/')[|Split(s, '/')| - 1])
    ensures |Split(s, '/')| == 1 ==> Split(s, '/')[0] == s
    ensures |Split(s, '/')| > 1 ==> |Split(s, '/')[|Split(s, '/')| - 1]| < |s|
  {
    if s != [] {
      var t := s[1..];
      var rest := Split(t, '/');
      var parts := Split(s, '/');
      SplitLast(t);
      if s[0] == '/' {
        assert parts == [""] + rest;
        FinalNameExtend(s, rest[|rest| - 1]);
      } else if |rest| > 1 {
        assert parts == [[s[0]] + rest[0]] + rest[1..];
        FinalNameExtend(s, rest[|rest| - 1]);
      } else {
        assert parts == [[s[0]] + rest[0]];
        assert s == [s[0]] + t;
      }
    }
  }

  lemma FinalNameExtend(s: string, a: string)
    requires s != [] && FinalName(s[1..], a) && (|a| == |s| - 1 ==> s[0] == '/')
    ensures FinalName(s, a)
  {
    var t := s[1..];
    assert s[|s| - |a|..] == t[|t| - |a|..];
    if |a| < |t| {
      assert s[|s| - |a| - 1] == t[|t| - |a| - 1];
    }
  }

  /** There is only one separator-free suffix that starts the string or follows a separator. */
  lemma MaximalSuffixUnique(s: string, a: string, b: string)
    requires FinalName(s, a) && FinalName(s, b)
    ensures a == b
  {
  }

  /** The `/`-separated parts that name something: empty and `.` parts dropped. */
  function NormalParts(parts: seq<string>): (r: seq<string>)
    ensures forall i :: 0 <= i < |r| ==> r[i] in parts && r[i] != "" && r[i] != "."
  {
    if parts == [] then []
    else (if parts[0] == "" || parts[0] == "." then [] else [parts[0]]) + NormalParts(parts[1..])
  }

  lemma {:induction false} NormalPartsLast(parts: seq<string>)
    requires parts != [] && parts[|parts| - 1] != "" && parts[|parts| - 1] != "."
    ensures NormalParts(parts) != [] && NormalParts(parts)[|NormalParts(parts)| - 1] == parts[|parts| - 1]
  {
    if |parts| > 1 {
      NormalPartsLast(parts[1..]);
    }
  }

  /** Rust's `Path::file_name`: the last component when it is a plain name;
      none for an empty path, a root, `.` or a path ending in `..`. A trailing
      separator or `.` element is not a component. */
  function FileName(path: string): (r: Option<string>)
    ensures r.Some? ==> r.value != "" && r.value != "." && r.value != ".." && '/' !in r.value
  {
    var cs := NormalParts(Split(path, '/'));
    if cs == [] || cs[|cs| - 1] == ".." then None else Some(cs[|cs| - 1])
  }

  lemma FileNameIsLastPart(path: string)
    requires var l := Split(path, '/')[|Split(path, '/')| - 1]; l != "" && l != "." && l != ".."
    ensures FileName(path) == Some(Split(path, '/')[|Split(path, '/')| - 1])
  {
    NormalPartsLast(Split(path, '/'));
  }

  /** The last element of a `/`-split is what follows the last separator. */
  lemma LastPartIsLastName(path: string)
    ensures Split(path, '/')[|Split(path, '/')| - 1] == LastName(path)
  {
    SplitLast(path);
    MaximalSuffixUnique(path, Split(path, '/')[|Split(path, '/')| - 1], LastName(path));
  }

  /** For a path that does not end in a separator, `.` or `..`, Rust's
      `file_name` and Go's `Base` agree. */
  lemma FileNameIsBase(path: string)
    requires path != [] && path[|path| - 1] != '/'
    requires Base(path) != "." && Base(path) != ".."
    ensures FileName(path) == Some(Base(path))
  {
    LastPartIsLastName(path);
    FileNameIsLastPart(path);
  }

  /** Rust's `Path::join(dir, name)`: an absolute `name` replaces `dir`;
      otherwise `name` follows `dir` and a separator, unless `dir` is empty or
      already ends in one. */
  function PathJoin(dir: string, name: string): string
  {
    if |name| > 0 && name[0] == '/' then name
    else if dir == "" || dir[|dir| - 1] == '/' then dir + name
    else dir + "/" + name
  }

  lemma {:induction false} LastIndexAfter(x: string, y: string, c: char)
    requires c !in y
    ensures LastIndex(x + [c] + y, c) == Some(|x|)
    decreases |y|
  {
    var s := x + [c] + y;
    if y != [] {
      assert s[..|s| - 1] == x + [c] + y[..|y| - 1];
      LastIndexAfter(x, y[..|y| - 1], c);
    }
  }

  /** Where a received file lands: an absolute name ignores the output directory;
      a plain name is placed directly in it, as the base name of the result
      below the directory and at most one added separator. */
  lemma PathJoinPlacement(dir: string, name: string)
    ensures |name| > 0 && name[0] == '/' ==> PathJoin(dir, name) == name
    ensures name != "" && '/' !in name ==>
      && Base(PathJoin(dir, name)) == name
      && (PathJoin(dir, name) == dir + name || PathJoin(dir, name) == dir + "/" + name)
      && (dir == "" || dir[|dir| - 1] == '/' <==> PathJoin(dir, name) == dir + name)
  {
    if name != "" && '/' !in name {
      if dir != "" && dir[|dir| - 1] == '/' {
        assert dir + name == dir[..|dir| - 1] + ['/'] + name;
        BaseAfterSeparator(dir[..|dir| - 1], name);
      } else if dir != "" {
        assert dir + "/" + name == dir + ['/'] + name;
        BaseAfterSeparator(dir, name);
      }
    }
  }

  lemma BaseAfterSeparator(x: string, name: string)
    requires name != "" && '/' !in name
    ensures Base(x + ['/'] + name) == name
  {
    LastIndexAfter(x, name, '/');
  }
}
