/**
 * The parts of Node's posix `path` module the extension uses. File-system paths
 * are lists of segments from the root (`path.join(dir, name)` is `dir + [name]`); paths the
 * source passes around as plain text (`deriveRuleId`'s argument) are strings split at `/`.
 */
module Paths {
  import opened Strings

  type Path = seq<string>

  /** `path.join(dir, name)` for a single segment. */
  function Join(dir: Path, name: string): (p: Path)
    ensures |p| == |dir| + 1 && p[..|dir|] == dir && p[|dir|] == name
  {
    dir + [name]
  }

  /** `path.basename(p)` of a segment path. */
  function Basename(p: Path): string {
    if p == [] then "" else p[|p| - 1]
  }

  /** The directory holding `p` (`path.dirname`); the root is its own parent. */
  function Parent(p: Path): (r: Path)
    ensures p != [] ==> r == p[..|p| - 1]
    ensures p == [] ==> r == []
  {
    if p == [] then [] else p[..|p| - 1]
  }

  /** `q` lies under `p` (or is `p`). */
  predicate IsPrefix(p: Path, q: Path) {
    |p| <= |q| && q[..|p|] == p
  }

  lemma PrefixTransitive(a: Path, b: Path, c: Path)
    requires IsPrefix(a, b) && IsPrefix(b, c)
    ensures IsPrefix(a, c)
  {
    assert c[..|a|] == c[..|b|][..|a|];
  }

  /** Index of the last occurrence of `c` in `s`, or -1. */
  function LastIndexOf(s: string, c: char): (r: int)
    ensures -1 <= r < |s|
    ensures r >= 0 ==> s[r] == c && c !in s[r + 1..]
    ensures r == -1 ==> c !in s
  {
    if s == [] then -1
    else if s[|s| - 1] == c then |s| - 1
    else (assert s[..|s| - 1] + [s[|s| - 1]] == s; LastIndexOf(s[..|s| - 1], c))
  }

  /** `path.basename(s)` of a textual path: the text after the last `/`, ignoring trailing `/`s. */
  function BaseOfText(s: string): (r: string)
    ensures '/' !in r
  {
    if s != [] && s[|s| - 1] == '/' then BaseOfText(s[..|s| - 1])
    else
      var k := LastIndexOf(s, '/');
      s[k + 1..]
  }

  /**
   * `path.extname(name)` for a base name: from the last `.` on, unless that dot is the first
   * character (a dot-file such as `.mdc`) or the name is `..`.
   */
  function Ext(name: string): (r: string)
    ensures r == [] || (r[0] == '.' && '.' !in r[1..] && EndsWith(name, r) && |r| < |name|)
  {
    var k := LastIndexOf(name, '.');
    if k <= 0 || name == ".." then [] else name[k..]
  }

  /** `path.parse(name).name`: the base name without its extension. */
  function Stem(name: string): (r: string)
    ensures r + Ext(name) == name
  {
    name[..|name| - |Ext(name)|]
  }

  /** `path.basename(name, suffix)`: strips `suffix` when the name ends with it and is longer. */
  function BasenameWithout(name: string, suffix: string): (r: string)
    ensures EndsWith(name, suffix) && name != suffix ==> r + suffix == name
    ensures !(EndsWith(name, suffix) && name != suffix) ==> r == name
  {
    if EndsWith(name, suffix) && name != suffix then name[..|name| - |suffix|] else name
  }

  /** A name `x + e` whose final part `e` is a dot and dot-free text has extension `e` and stem `x`. */
  lemma StemOfSuffixed(x: string, e: string)
    requires x != [] && e != [] && e[0] == '.' && '.' !in e[1..] && x + e != ".."
    ensures Ext(x + e) == e && Stem(x + e) == x
  {
    var name := x + e;
    assert name[|x|] == '.';
    assert name[|x| + 1..] == e[1..];
    assert forall i :: |x| < i < |name| ==> name[i] == e[1..][i - |x| - 1];
    var k := LastIndexOf(name, '.');
    assert k == |x|;
  }

  /** How many leading segments two paths share. */
  function CommonPrefixLength(a: Path, b: Path): (n: nat)
    ensures n <= |a| && n <= |b| && a[..n] == b[..n]
    ensures n < |a| && n < |b| ==> a[n] != b[n]
  {
    if a == [] || b == [] || a[0] != b[0] then 0
    else
      var n := CommonPrefixLength(a[1..], b[1..]);
      assert a[..n + 1] == [a[0]] + a[1..][..n];
      assert b[..n + 1] == [b[0]] + b[1..][..n];
      n + 1
  }

  function Ups(k: nat): (r: seq<string>)
    ensures |r| == k && forall i :: 0 <= i < k ==> r[i] == ".."
  {
    if k == 0 then [] else Ups(k - 1) + [".."]
  }

  /** `path.relative(from, to)` for absolute, normalised paths, written with `/` separators. */
  function Relative(from: Path, to: Path): string {
    var n := CommonPrefixLength(from, to);
    Strings.Join(Ups(|from| - n) + to[n..], "/")
  }

  /** A path below `from` is written relative to it as its remaining segments. */
  lemma RelativeBelow(from: Path, rest: Path)
    ensures Relative(from, from + rest) == Strings.Join(rest, "/")
  {
    var to := from + rest;
    var n := CommonPrefixLength(from, to);
    assert forall i :: 0 <= i < |from| ==> to[i] == from[i];
    assert n == |from|;
    assert Ups(|from| - n) + to[n..] == rest;
  }
}
