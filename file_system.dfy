/**
 * An in-memory stand-in for the parts of Node's `fs` module the extension calls.
 * The disk is a map from absolute paths to nodes: a file holds its text and its
 * modification time, a directory the names it lists, in `readdirSync` order.
 * Each primitive is a function on that map (None when the call would throw);
 * `FileStore` holds the current map and performs the primitives in place.
 */
module FileSystem {
  import opened Wrappers
  import opened Paths

  datatype Node = File(text: string, mtime: int) | Dir(children: seq<string>)

  type Tree = map<Path, Node>

  predicate IsDir(t: Tree, p: Path) {
    p in t && t[p].Dir?
  }

  predicate IsFile(t: Tree, p: Path) {
    p in t && t[p].File?
  }

  /** `fs.readdirSync(p)`: the listed names, or None when `p` is not a directory. */
  function ReadDir(t: Tree, p: Path): (r: Option<seq<string>>)
    ensures r.Some? <==> IsDir(t, p)
    ensures r.Some? ==> r.value == t[p].children
  {
    if IsDir(t, p) then Some(t[p].children) else None
  }

  /** `fs.readFileSync(p, 'utf8')`: fails unless `p` is a file. */
  function ReadFile(t: Tree, p: Path): (r: Result<string>)
    ensures r.Ok? <==> IsFile(t, p)
    ensures r.Ok? ==> r.value == t[p].text
  {
    if IsFile(t, p) then Ok(t[p].text) else Err("ENOENT: cannot read " + Basename(p))
  }

  /** `fs.statSync(p).mtime` for a file, or None when the call fails. */
  function Modified(t: Tree, p: Path): (r: Option<int>)
    ensures r.Some? <==> IsFile(t, p)
    ensures r.Some? ==> r.value == t[p].mtime
  {
    if IsFile(t, p) then Some(t[p].mtime) else None
  }

  /** `names` without any occurrence of `n`. */
  function Without(names: seq<string>, n: string): (r: seq<string>)
    ensures n !in r
    ensures forall m :: m in r <==> m in names && m != n
  {
    if names == [] then []
    else (if names[0] == n then [] else [names[0]]) + Without(names[1..], n)
  }

  /** Puts `node` at `p` and lists `p`'s name in its parent directory (once). */
  function AddEntry(t: Tree, p: Path, node: Node): (r: Tree)
    requires p != []
    ensures r.Keys == t.Keys + {p} && r[p] == node
    ensures forall q :: q in t && q != p && q != Parent(p) ==> r[q] == t[q]
    ensures IsDir(t, Parent(p)) ==>
      && IsDir(r, Parent(p))
      && Basename(p) in r[Parent(p)].children
      && forall m :: m in t[Parent(p)].children ==> m in r[Parent(p)].children
    ensures !IsDir(t, Parent(p)) && Parent(p) in t ==> r[Parent(p)] == t[Parent(p)]
    ensures IsFile(t, Parent(p)) ==> IsFile(r, Parent(p))
  {
    var q := Parent(p);
    var t1 := t[p := node];
    if IsDir(t, q) && Basename(p) !in t[q].children then t1[q := Dir(t[q].children + [Basename(p)])]
    else t1
  }

  /**
   * `fs.mkdirSync(p, { recursive: true })`: creates every missing directory on the way
   * to `p`. It fails when `p` or one of its ancestors is a file.
   */
  function MakeDirs(t: Tree, p: Path): Option<Tree>
    decreases |p|
  {
    if p == [] then (if IsFile(t, []) then None else Some(t))
    else
      match MakeDirs(t, Parent(p))
      case None => None
      case Some(t1) =>
        if p !in t1 then Some(AddEntry(t1, p, Dir([])))
        else if t1[p].Dir? then Some(t1)
        else None
  }

  /** The first `k` segments of `p` name an ancestor (or `p` itself when `k == |p|`). */
  predicate NoFileOnTheWay(t: Tree, p: Path) {
    forall k :: 0 <= k <= |p| ==> !IsFile(t, p[..k])
  }

  /** `mkdir -p` succeeds exactly when no file blocks the way to `p`. */
  lemma {:induction false} MakeDirsSucceeds(t: Tree, p: Path)
    ensures MakeDirs(t, p).Some? <==> NoFileOnTheWay(t, p)
    decreases |p|
  {
    if p != [] {
      var q := Parent(p);
      MakeDirsSucceeds(t, q);
      assert forall k :: 0 <= k <= |q| ==> q[..k] == p[..k];
      assert p[..|p|] == p;
      if MakeDirs(t, q).Some? {
        var t1 := MakeDirs(t, q).value;
        MakeDirsFrame(t, q);
        assert !IsPrefix(p, q);
        assert IsFile(t1, p) <==> IsFile(t, p);
      }
    }
  }

  /**
   * After `mkdir -p`: nothing disappears, every new path is on the way to `p`, files keep
   * their text and time, directories stay directories and keep every name they listed, and
   * nothing off the way to `p` changes at all.
   */
  lemma {:induction false} MakeDirsFrame(t: Tree, p: Path)
    requires MakeDirs(t, p).Some?
    ensures var r := MakeDirs(t, p).value;
      && t.Keys <= r.Keys
      && (forall q :: q in r && q !in t ==> IsPrefix(q, p))
      && (forall q :: q in t && !IsPrefix(q, Parent(p)) ==> r[q] == t[q])
      && (forall q :: IsFile(t, q) ==> r[q] == t[q])
      && (forall q :: IsDir(t, q) ==> IsDir(r, q) && forall m :: m in t[q].children ==> m in r[q].children)
    decreases |p|
  {
    if p != [] {
      var q := Parent(p);
      MakeDirsFrame(t, q);
      var t1 := MakeDirs(t, q).value;
      assert IsPrefix(q, p);
      forall x | IsPrefix(x, q) ensures IsPrefix(x, p) {
        PrefixTransitive(x, q, p);
      }
      forall x | IsPrefix(x, Parent(q)) ensures IsPrefix(x, q) {
        PrefixTransitive(x, Parent(q), q);
      }
    }
  }

  /** After a successful `mkdir -p`, `p` and each of its ancestors is a directory. */
  lemma {:induction false} MakeDirsCreates(t: Tree, p: Path)
    requires MakeDirs(t, p).Some?
    ensures forall k :: 1 <= k <= |p| ==> IsDir(MakeDirs(t, p).value, p[..k])
    decreases |p|
  {
    if p != [] {
      var q := Parent(p);
      MakeDirsCreates(t, q);
      assert forall k :: 1 <= k <= |q| ==> q[..k] == p[..k];
      assert p[..|p|] == p;
      var t1 := MakeDirs(t, q).value;
      forall k | 1 <= k <= |q| ensures IsDir(MakeDirs(t, p).value, p[..k]) {
        assert IsDir(t1, p[..k]);
      }
    }
  }

  /** When `p` and all its ancestors are directories already, `mkdir -p` changes nothing. */
  lemma {:induction false} MakeDirsExisting(t: Tree, p: Path)
    requires !IsFile(t, [])
    requires forall k :: 1 <= k <= |p| ==> IsDir(t, p[..k])
    ensures MakeDirs(t, p) == Some(t)
    decreases |p|
  {
    if p != [] {
      var q := Parent(p);
      assert forall k :: 1 <= k <= |q| ==> q[..k] == p[..k];
      MakeDirsExisting(t, q);
      assert p[..|p|] == p;
    }
  }

  /**
   * `fs.writeFileSync(p, text)`: creates or replaces the file `p` with modification time
   * `now`. It fails when the parent is not a directory or `p` is a directory.
   */
  function WriteText(t: Tree, p: Path, text: string, now: int): (r: Option<Tree>)
    ensures r.Some? <==> p != [] && IsDir(t, Parent(p)) && !IsDir(t, p)
    ensures r.Some? ==>
      && ReadFile(r.value, p) == Ok(text)
      && r.value.Keys == t.Keys + {p}
      && (forall q :: q in t && q != p && q != Parent(p) ==> r.value[q] == t[q])
      && IsDir(r.value, Parent(p)) && Basename(p) in r.value[Parent(p)].children
      && (forall m :: m in t[Parent(p)].children ==> m in r.value[Parent(p)].children)
  {
    if p != [] && IsDir(t, Parent(p)) && !IsDir(t, p) then Some(AddEntry(t, p, File(text, now)))
    else None
  }

  /** `fs.unlinkSync(p)`: removes the file `p` and its name from the parent's listing. */
  function Unlinked(t: Tree, p: Path): (r: Option<Tree>)
    ensures r.Some? <==> p != [] && IsFile(t, p)
    ensures r.Some? ==>
      && r.value.Keys == t.Keys - {p}
      && (forall q :: q in t && q != p && q != Parent(p) ==> r.value[q] == t[q])
      && (IsDir(t, Parent(p)) ==> r.value[Parent(p)] == Dir(Without(t[Parent(p)].children, Basename(p))))
      && (!IsDir(t, Parent(p)) && Parent(p) in t ==> r.value[Parent(p)] == t[Parent(p)])
  {
    if p == [] || !IsFile(t, p) then None
    else
      var q := Parent(p);
      var t1 := t - {p};
      if IsDir(t, q) then Some(t1[q := Dir(Without(t[q].children, Basename(p)))]) else Some(t1)
  }

  /** The disk the extension works on. */
  class FileStore {
    var tree: Tree

    constructor (initial: Tree)
      ensures tree == initial
    {
      tree := initial;
    }

    /** `fs.existsSync(p)`. */
    predicate Exists(p: Path)
      reads this
    {
      p in tree
    }

    method MakeDirectories(p: Path) returns (ok: bool)
      modifies this
      ensures ok <==> MakeDirs(old(tree), p).Some?
      ensures tree == if ok then MakeDirs(old(tree), p).value else old(tree)
    {
      var r := MakeDirs(tree, p);
      ok := r.Some?;
      if ok {
        tree := r.value;
      }
    }

    method WriteFile(p: Path, text: string, now: int) returns (ok: bool)
      modifies this
      ensures ok <==> WriteText(old(tree), p, text, now).Some?
      ensures tree == if ok then WriteText(old(tree), p, text, now).value else old(tree)
    {
      var r := WriteText(tree, p, text, now);
      ok := r.Some?;
      if ok {
        tree := r.value;
      }
    }

    method Unlink(p: Path) returns (ok: bool)
      modifies this
      ensures ok <==> p != [] && IsFile(old(tree), p)
      ensures tree == if ok then Unlinked(old(tree), p).value else old(tree)
    {
      var r := Unlinked(tree, p);
      ok := r.Some?;
      if ok {
        tree := r.value;
      }
    }
  }
}
