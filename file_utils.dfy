/**
 * The extension's file helpers over the in-memory disk: a collision-free file name, the
 * recursive `.mdc` collector, the listing of the registry's team and user directories,
 * and the create-if-absent set-up of the registry directory with its metadata file.
 * The registry directory's name (the user's setting, `.cursor-rules-registry` by
 * default) and the warning text written atop a fresh metadata file are inputs.
 */
module FileUtils {
  import opened Wrappers
  import opened Strings
  import opened Paths
  import opened FileSystem
  import MetadataService
  import Jsonc
  import Json

  /** The registry directory name used when the user configured none. */
  const DefaultRegistryDir: string := ".cursor-rules-registry"

  // ---------------------------------------------------------------- unique file names

  /** `${name}${sep}${k}${ext}` for the file name `filename` with stem `name` and extension `ext`. */
  function NumberedName(filename: string, sep: string, k: nat): string {
    Numbered(Stem(filename), sep, k, Ext(filename))
  }

  /**
   * The `n`-th name tried, counting from 1: first `filename` itself, then the numbered
   * names `name<sep>1.ext`, `name<sep>2.ext`, and so on.
   */
  function CandidateName(filename: string, sep: string, n: nat): string {
    if n <= 1 then filename else NumberedName(filename, sep, n - 1)
  }

  /** The `n`-th path tried in `basePath`. */
  function Candidate(basePath: Path, filename: string, sep: string, n: nat): Path {
    basePath + [CandidateName(filename, sep, n)]
  }

  /** Different attempts try different names. */
  lemma CandidateNameInjective(filename: string, sep: string, i: nat, j: nat)
    requires 1 <= i && 1 <= j && i != j
    ensures CandidateName(filename, sep, i) != CandidateName(filename, sep, j)
  {
    if i > 1 && j > 1 {
      NumberedNamesDistinct(filename, sep, i, j);
    } else if i > 1 {
      NumberedNotPlain(filename, sep, i);
    } else {
      NumberedNotPlain(filename, sep, j);
    }
  }

  lemma NumberedNamesDistinct(filename: string, sep: string, i: nat, j: nat)
    requires 1 < i && 1 < j && i != j
    ensures CandidateName(filename, sep, i) != CandidateName(filename, sep, j)
  {
    NumberedInjective(Stem(filename), sep, Ext(filename), i - 1, j - 1);
  }

  lemma NumberedNotPlain(filename: string, sep: string, i: nat)
    requires 1 < i
    ensures CandidateName(filename, sep, i) != CandidateName(filename, sep, 1)
  {
    var x := NumberedName(filename, sep, i - 1);
    assert |x| == |Stem(filename)| + |sep| + |NatToString(i - 1)| + |Ext(filename)|;
    assert |filename| == |Stem(filename)| + |Ext(filename)|;
  }

  /** Different attempts try different paths. */
  lemma CandidateInjective(basePath: Path, filename: string, sep: string, i: nat, j: nat)
    requires 1 <= i && 1 <= j && i != j
    ensures Candidate(basePath, filename, sep, i) != Candidate(basePath, filename, sep, j)
  {
    CandidateNameInjective(filename, sep, i, j);
    LastDiffers(basePath, CandidateName(filename, sep, i), CandidateName(filename, sep, j));
  }

  lemma LastDiffers(dir: Path, x: string, y: string)
    requires x != y
    ensures dir + [x] != dir + [y]
  {
    assert (dir + [x])[|dir|] == x;
    assert (dir + [y])[|dir|] == y;
  }

  /**
   * `createUniqueFilename(basePath, filename)`: the plain path when nothing exists there,
   * otherwise `name-k.ext` for the smallest `k >= 1` whose path does not exist.
   */
  method CreateUniqueFilename(store: FileStore, basePath: Path, filename: string) returns (p: Path)
    ensures p !in store.tree
    ensures basePath + [filename] !in store.tree ==> p == basePath + [filename]
    ensures exists n: nat :: n >= 1 && p == Candidate(basePath, filename, "-", n)
                             && forall j: nat :: 1 <= j < n ==> Candidate(basePath, filename, "-", j) in store.tree
  {
    var counter: nat := 1;
    p := basePath + [filename];
    ghost var seen: set<Path> := {};
    while store.Exists(p)
      invariant p == Candidate(basePath, filename, "-", counter)
      invariant Searching(store.tree, basePath, filename, "-", counter, seen)
      decreases store.tree.Keys - seen
    {
      SearchStep(store.tree, basePath, filename, "-", counter, seen);
      seen := seen + {p};
      p := basePath + [NumberedName(filename, "-", counter)];
      counter := counter + 1;
    }
  }

  /**
   * The state of a search for a free name before trying candidate `counter`: every earlier
   * candidate exists, and `seen` holds existing paths none of which is a candidate still to come.
   */
  ghost predicate Searching(t: Tree, basePath: Path, filename: string, sep: string, counter: nat, seen: set<Path>) {
    && counter >= 1
    && (forall j: nat :: 1 <= j < counter ==> Candidate(basePath, filename, sep, j) in t)
    && seen <= t.Keys
    && (forall k: nat :: k >= counter ==> Candidate(basePath, filename, sep, k) !in seen)
  }

  /** An existing candidate moves the search on and takes one more path out of the unseen ones. */
  lemma SearchStep(t: Tree, basePath: Path, filename: string, sep: string, counter: nat, seen: set<Path>)
    requires Searching(t, basePath, filename, sep, counter, seen)
    requires Candidate(basePath, filename, sep, counter) in t
    ensures Searching(t, basePath, filename, sep, counter + 1, seen + {Candidate(basePath, filename, sep, counter)})
    ensures t.Keys - (seen + {Candidate(basePath, filename, sep, counter)}) < t.Keys - seen
    ensures Candidate(basePath, filename, sep, counter + 1) == basePath + [NumberedName(filename, sep, counter)]
  {
    var c := Candidate(basePath, filename, sep, counter);
    StepUnseen(basePath, filename, sep, counter, seen);
    assert c in t.Keys - seen;
  }

  lemma StepUnseen(basePath: Path, filename: string, sep: string, counter: nat, seen: set<Path>)
    requires counter >= 1
    requires forall k: nat :: k >= counter ==> Candidate(basePath, filename, sep, k) !in seen
    ensures forall k: nat :: k >= counter + 1 ==>
      Candidate(basePath, filename, sep, k) !in seen + {Candidate(basePath, filename, sep, counter)}
  {
    forall k: nat | k >= counter + 1
      ensures Candidate(basePath, filename, sep, k) != Candidate(basePath, filename, sep, counter)
    {
      CandidateInjective(basePath, filename, sep, k, counter);
    }
  }

  // ---------------------------------------------------------------- collecting .mdc files

  /** The paths of the disk at or below `dir`. */
  function Under(t: Tree, dir: Path): set<Path> {
    set q | q in t && IsPrefix(dir, q)
  }

  lemma UnderShrinks(t: Tree, dir: Path, name: string)
    requires IsDir(t, dir)
    ensures Under(t, dir + [name]) < Under(t, dir)
  {
    var p := dir + [name];
    assert IsPrefix(dir, p);
    forall q | q in Under(t, p) ensures q in Under(t, dir) {
      PrefixTransitive(dir, p, q);
    }
    assert dir in Under(t, dir) && dir !in Under(t, p);
  }

  /** `p` is a file strictly below `dir` whose name ends in `ext`. */
  predicate FileBelow(t: Tree, dir: Path, p: Path, ext: string) {
    IsFile(t, p) && |p| > |dir| && p[..|dir|] == dir && EndsWith(p[|p| - 1], ext)
  }

  /** `p` is a `.mdc` file strictly below `dir`. */
  predicate MdcFileBelow(t: Tree, dir: Path, p: Path) {
    FileBelow(t, dir, p, ".mdc")
  }

  /**
   * What a recursive scan of an existing directory for files named `*ext` collects, depth
   * first in listing order: the matching files, and the collection of every subdirectory.
   */
  function ScanFiles(t: Tree, dir: Path, ext: string): (r: seq<Path>)
    requires IsDir(t, dir)
    ensures forall i :: 0 <= i < |r| ==> FileBelow(t, dir, r[i], ext)
    decreases Under(t, dir), |t[dir].children| + 1
  {
    ScanEntries(t, dir, t[dir].children, ext)
  }

  /** The collection of the listed entries `names` of `dir`. */
  function ScanEntries(t: Tree, dir: Path, names: seq<string>, ext: string): (r: seq<Path>)
    requires IsDir(t, dir)
    ensures forall i :: 0 <= i < |r| ==> FileBelow(t, dir, r[i], ext)
    decreases Under(t, dir), |names|
  {
    if names == [] then [] else EntryFiles(t, dir, names[0], ext) + ScanEntries(t, dir, names[1..], ext)
  }

  /** The collection of one listed entry: a subdirectory's collection, or a matching file. */
  function EntryFiles(t: Tree, dir: Path, name: string, ext: string): (r: seq<Path>)
    requires IsDir(t, dir)
    ensures forall i :: 0 <= i < |r| ==> FileBelow(t, dir, r[i], ext)
    decreases Under(t, dir), 0
  {
    var p := dir + [name];
    if IsDir(t, p) then
      UnderShrinks(t, dir, name);
      var files := ScanFiles(t, p, ext);
      ChildFilesBelow(t, dir, p, files, ext);
      files
    else if IsFile(t, p) && EndsWith(name, ext) then [p]
    else []
  }

  /** What `scanForMdcFiles(dir)` collects from an existing directory. */
  function MdcFiles(t: Tree, dir: Path): (r: seq<Path>)
    requires IsDir(t, dir)
    ensures forall i :: 0 <= i < |r| ==> MdcFileBelow(t, dir, r[i])
  {
    ScanFiles(t, dir, ".mdc")
  }

  /** A file below a subdirectory is below its parent. */
  lemma ChildFilesBelow(t: Tree, dir: Path, p: Path, files: seq<Path>, ext: string)
    requires |p| == |dir| + 1 && p[..|dir|] == dir
    requires forall i :: 0 <= i < |files| ==> FileBelow(t, p, files[i], ext)
    ensures forall i :: 0 <= i < |files| ==> FileBelow(t, dir, files[i], ext)
  {
    forall i | 0 <= i < |files| ensures FileBelow(t, dir, files[i], ext) {
      var f := files[i];
      assert FileBelow(t, p, f, ext);
      assert f[..|dir|] == f[..|p|][..|dir|];
    }
  }

  /**
   * `scanForMdcFiles(dir)`: nothing for a missing directory, an error when `dir` is a file
   * (listing it fails), otherwise the depth-first collection.
   */
  method ScanForMdcFiles(store: FileStore, dir: Path) returns (r: Result<seq<Path>>)
    ensures dir !in store.tree ==> r == Ok([])
    ensures IsFile(store.tree, dir) ==> r.Err?
    ensures IsDir(store.tree, dir) ==> r == Ok(MdcFiles(store.tree, dir))
    decreases Under(store.tree, dir)
  {
    if !store.Exists(dir) {
      return Ok([]);
    }
    if !IsDir(store.tree, dir) {
      return Err("ENOTDIR: cannot scan " + Basename(dir));
    }
    var items := store.tree[dir].children;
    var files: seq<Path> := [];
    var i := 0;
    while i < |items|
      invariant 0 <= i <= |items|
      invariant Collected(store.tree, dir, items, i, files, ".mdc")
    {
      var p := dir + [items[i]];
      EntryCases(store.tree, dir, items[i], ".mdc");
      var entry: seq<Path>;
      if IsDir(store.tree, p) {
        UnderShrinks(store.tree, dir, items[i]);
        var sub := ScanForMdcFiles(store, p);
        entry := sub.value;
      } else if IsFile(store.tree, p) && EndsWith(items[i], ".mdc") {
        entry := [p];
      } else {
        entry := [];
      }
      CollectStep(store.tree, dir, items, i, files, entry, ".mdc");
      files := files + entry;
      i := i + 1;
    }
    CollectDone(store.tree, dir, items, files, ".mdc");
    return Ok(files);
  }

  lemma EntryCases(t: Tree, dir: Path, name: string, ext: string)
    requires IsDir(t, dir)
    ensures IsDir(t, dir + [name]) ==> EntryFiles(t, dir, name, ext) == ScanFiles(t, dir + [name], ext)
    ensures !IsDir(t, dir + [name]) && IsFile(t, dir + [name]) && EndsWith(name, ext) ==>
      EntryFiles(t, dir, name, ext) == [dir + [name]]
    ensures !IsDir(t, dir + [name]) && !(IsFile(t, dir + [name]) && EndsWith(name, ext)) ==>
      EntryFiles(t, dir, name, ext) == []
  {
  }

  /** The scan of `dir` after its first `i` entries: what is collected and what is still to come make up the whole. */
  ghost predicate Collected(t: Tree, dir: Path, items: seq<string>, i: int, files: seq<Path>, ext: string)
    requires 0 <= i <= |items|
  {
    IsDir(t, dir) && items == t[dir].children && files + ScanEntries(t, dir, items[i..], ext) == ScanFiles(t, dir, ext)
  }

  lemma CollectStep(t: Tree, dir: Path, items: seq<string>, i: int, files: seq<Path>, entry: seq<Path>, ext: string)
    requires 0 <= i < |items| && Collected(t, dir, items, i, files, ext)
    requires entry == EntryFiles(t, dir, items[i], ext)
    ensures Collected(t, dir, items, i + 1, files + entry, ext)
  {
    assert items[i..][1..] == items[i + 1..];
    assert ScanEntries(t, dir, items[i..], ext) == entry + ScanEntries(t, dir, items[i + 1..], ext);
  }

  lemma CollectDone(t: Tree, dir: Path, items: seq<string>, files: seq<Path>, ext: string)
    requires Collected(t, dir, items, |items|, files, ext)
    ensures files == ScanFiles(t, dir, ext)
  {
    assert items[|items|..] == [];
  }

  /** `p` is reached from `dir` by following directory listings, one segment at a time. */
  predicate Reached(t: Tree, dir: Path, p: Path) {
    |p| > |dir| && p[..|dir|] == dir
    && forall k :: |dir| <= k < |p| ==> IsDir(t, p[..k]) && p[k] in t[p[..k]].children
  }

  /**
   * The collection holds exactly the `*ext` files reached by listings from `dir`: what the
   * collector returns is such a file, and every such file is returned.
   */
  lemma {:induction false} ScanFilesExactly(t: Tree, dir: Path, p: Path, ext: string)
    requires IsDir(t, dir)
    ensures p in ScanFiles(t, dir, ext) <==> Reached(t, dir, p) && IsFile(t, p) && EndsWith(p[|p| - 1], ext)
    decreases Under(t, dir), 1
  {
    ScanEntriesExactly(t, dir, t[dir].children, p, ext);
    if Reached(t, dir, p) {
      assert p[..|dir|] == dir;
    }
  }

  /** The `.mdc` collection holds exactly the `.mdc` files reached by listings from `dir`. */
  lemma MdcFilesExactly(t: Tree, dir: Path, p: Path)
    requires IsDir(t, dir)
    ensures p in MdcFiles(t, dir) <==> Reached(t, dir, p) && IsFile(t, p) && EndsWith(p[|p| - 1], ".mdc")
  {
    ScanFilesExactly(t, dir, p, ".mdc");
  }

  lemma {:induction false} ScanEntriesExactly(t: Tree, dir: Path, names: seq<string>, p: Path, ext: string)
    requires IsDir(t, dir)
    requires forall n :: n in names ==> n in t[dir].children
    ensures p in ScanEntries(t, dir, names, ext) <==>
      |p| > |dir| && p[|dir|] in names && Reached(t, dir, p) && IsFile(t, p) && EndsWith(p[|p| - 1], ext)
    decreases Under(t, dir), 0, |names|
  {
    if names != [] {
      ScanEntriesExactly(t, dir, names[1..], p, ext);
      EntryFilesExactly(t, dir, names[0], p, ext);
      assert forall n :: n in names <==> n == names[0] || n in names[1..];
    }
  }

  lemma {:induction false} EntryFilesExactly(t: Tree, dir: Path, name: string, p: Path, ext: string)
    requires IsDir(t, dir) && name in t[dir].children
    ensures p in EntryFiles(t, dir, name, ext) <==>
      |p| > |dir| && p[|dir|] == name && Reached(t, dir, p) && IsFile(t, p) && EndsWith(p[|p| - 1], ext)
    decreases Under(t, dir), 0, 0
  {
    var q := dir + [name];
    if IsDir(t, q) {
      UnderShrinks(t, dir, name);
      ScanFilesExactly(t, q, p, ext);
      ReachedStep(t, dir, q, p);
    } else {
      ReachedFirst(t, dir, q, p);
      if p == q {
        assert p[..|dir|] == dir;
      }
    }
  }

  /** Below a listed subdirectory `q` of `dir`, reaching from `dir` is reaching from `q`. */
  lemma ReachedStep(t: Tree, dir: Path, q: Path, p: Path)
    requires IsDir(t, dir) && IsDir(t, q) && |q| == |dir| + 1 && q[..|dir|] == dir
    requires q[|dir|] in t[dir].children
    ensures |p| > |dir| && p[|dir|] == q[|dir|] && Reached(t, dir, p) && IsFile(t, p)
      <==> Reached(t, q, p) && IsFile(t, p)
  {
    if |p| > |dir| && p[|dir|] == q[|dir|] && IsFile(t, p) {
      assert p[..|dir| + 1] == p[..|dir|] + [p[|dir|]];
      assert p != q;
      if Reached(t, dir, p) {
        assert p[..|p|] == p;
        assert p[..|q|] == q;
      }
      if Reached(t, q, p) {
        assert p[..|dir|] == q[..|dir|];
        forall k | |dir| <= k < |p| ensures IsDir(t, p[..k]) && p[k] in t[p[..k]].children {
          if k == |dir| { assert p[..k] == dir; }
        }
      }
    }
    if Reached(t, q, p) {
      assert p[..|dir|] == p[..|q|][..|dir|];
    }
  }

  /** An entry `q` of `dir` that is no directory is reached from `dir` only as `q` itself. */
  lemma ReachedFirst(t: Tree, dir: Path, q: Path, p: Path)
    requires IsDir(t, dir) && !IsDir(t, q) && |q| == |dir| + 1 && q[..|dir|] == dir
    ensures |p| > |dir| && p[|dir|] == q[|dir|] && Reached(t, dir, p) ==> p == q
  {
    if |p| > |dir| && p[|dir|] == q[|dir|] && Reached(t, dir, p) {
      assert p[..|dir| + 1] == p[..|dir|] + [p[|dir|]] == q;
      assert p[..|p|] == p;
    }
  }

  // ---------------------------------------------------------------- the registry's directories

  datatype Registry = Registry(teams: seq<string>, users: seq<string>)

  /** The names among `names` that are subdirectories of `p`, in order. */
  function Subdirectories(t: Tree, p: Path, names: seq<string>): (r: seq<string>)
    ensures forall n :: n in r <==> n in names && IsDir(t, p + [n])
    ensures |r| <= |names|
  {
    if names == [] then []
    else (if IsDir(t, p + [names[0]]) then [names[0]] else []) + Subdirectories(t, p, names[1..])
  }

  /** `readdirSync(p, { withFileTypes: true })` filtered to directories, or nothing if `p` is missing. */
  function ListSubdirectories(t: Tree, p: Path): (r: Result<seq<string>>)
    ensures r.Ok? <==> !IsFile(t, p)
    ensures r.Ok? ==> forall n :: n in r.value <==> IsDir(t, p) && n in t[p].children && IsDir(t, p + [n])
  {
    if p !in t then Ok([])
    else if IsDir(t, p) then Ok(Subdirectories(t, p, t[p].children))
    else Err("ENOTDIR: cannot list " + Basename(p))
  }

  function RegistryPath(root: Path, dirName: string): Path {
    root + [dirName]
  }

  function TeamsPath(root: Path, dirName: string): Path {
    RegistryPath(root, dirName) + ["teams"]
  }

  function UsersPath(root: Path, dirName: string): Path {
    RegistryPath(root, dirName) + ["users"]
  }

  /**
   * `scanRegistryDirectories(root)`: the subdirectory names of `teams/` and of `users/`
   * (none when the directory is missing); it fails when either of them is a file.
   */
  function ScanRegistryDirectories(t: Tree, root: Path, dirName: string): (r: Result<Registry>)
    ensures r.Ok? <==> !IsFile(t, TeamsPath(root, dirName)) && !IsFile(t, UsersPath(root, dirName))
    ensures r.Ok? ==> forall n :: n in r.value.teams <==>
      var p := TeamsPath(root, dirName); IsDir(t, p) && n in t[p].children && IsDir(t, p + [n])
    ensures r.Ok? ==> forall n :: n in r.value.users <==>
      var p := UsersPath(root, dirName); IsDir(t, p) && n in t[p].children && IsDir(t, p + [n])
  {
    match ListSubdirectories(t, TeamsPath(root, dirName))
    case Err(e) => Err("Failed to scan registry directories: " + e)
    case Ok(teams) =>
      match ListSubdirectories(t, UsersPath(root, dirName))
      case Err(e) => Err("Failed to scan registry directories: " + e)
      case Ok(users) => Ok(Registry(teams, users))
  }

  // ---------------------------------------------------------------- creating the registry

  /** `if (!fs.existsSync(p)) fs.mkdirSync(p, { recursive: true })`. */
  function EnsureDir(t: Tree, p: Path): (r: Option<Tree>)
    ensures p in t ==> r == Some(t)
    ensures p !in t ==> r == MakeDirs(t, p)
  {
    if p in t then Some(t) else MakeDirs(t, p)
  }

  /** The text of a fresh metadata file: the warning line, then an empty object. */
  function FreshMetadataText(warning: string): string {
    warning + "\n{\n\n}"
  }

  function MetadataFilePath(root: Path, dirName: string): Path {
    RegistryPath(root, dirName) + ["rules-metadata.jsonc"]
  }

  /**
   * `createRegistryStructure(root)`: creates the registry directory, `teams/`, `users/` and
   * the metadata file, each only when nothing exists at its path yet. A failing step ends
   * the run with an error and the disk as that step left it.
   */
  function RegistryOutcome(t: Tree, root: Path, dirName: string, warning: string, now: int): (Tree, Result<()>) {
    var fail := Err("Failed to create registry structure");
    match EnsureDir(t, RegistryPath(root, dirName))
    case None => (t, fail)
    case Some(t1) =>
      match EnsureDir(t1, TeamsPath(root, dirName))
      case None => (t1, fail)
      case Some(t2) =>
        match EnsureDir(t2, UsersPath(root, dirName))
        case None => (t2, fail)
        case Some(t3) =>
          var meta := MetadataFilePath(root, dirName);
          if meta in t3 then (t3, Ok(()))
          else
            match WriteText(t3, meta, FreshMetadataText(warning), now)
            case None => (t3, fail)
            case Some(t4) => (t4, Ok(()))
  }

  method CreateRegistryStructure(store: FileStore, root: Path, dirName: string, warning: string, now: int)
    returns (r: Result<()>)
    modifies store
    ensures (store.tree, r) == RegistryOutcome(old(store.tree), root, dirName, warning, now)
  {
    var fail := Err("Failed to create registry structure");
    var ok := true;
    if !store.Exists(RegistryPath(root, dirName)) {
      ok := store.MakeDirectories(RegistryPath(root, dirName));
      if !ok { return fail; }
    }
    if !store.Exists(TeamsPath(root, dirName)) {
      ok := store.MakeDirectories(TeamsPath(root, dirName));
      if !ok { return fail; }
    }
    if !store.Exists(UsersPath(root, dirName)) {
      ok := store.MakeDirectories(UsersPath(root, dirName));
      if !ok { return fail; }
    }
    var meta := MetadataFilePath(root, dirName);
    if !store.Exists(meta) {
      ok := store.WriteFile(meta, FreshMetadataText(warning), now);
      if !ok { return fail; }
    }
    return Ok(());
  }

  /** What `mkdir -p` and create-if-absent both keep: existing paths, and files untouched. */
  ghost predicate Keeps(t: Tree, r: Tree) {
    t.Keys <= r.Keys && forall q :: IsFile(t, q) ==> r[q] == t[q]
  }

  lemma EnsureDirKeeps(t: Tree, p: Path)
    requires p != [] && EnsureDir(t, p).Some?
    ensures Keeps(t, EnsureDir(t, p).value) && p in EnsureDir(t, p).value
  {
    if p !in t {
      MakeDirsFrame(t, p);
      MakeDirsCreates(t, p);
      assert p[..|p|] == p;
    }
  }

  /** A successful set-up leaves the registry, `teams/`, `users/` and the metadata file in place. */
  lemma {:induction false} RegistryPresent(t: Tree, root: Path, dirName: string, warning: string, now: int)
    requires RegistryOutcome(t, root, dirName, warning, now).1.Ok?
    ensures var r := RegistryOutcome(t, root, dirName, warning, now).0;
      && Keeps(t, r)
      && RegistryPath(root, dirName) in r && TeamsPath(root, dirName) in r
      && UsersPath(root, dirName) in r && MetadataFilePath(root, dirName) in r
  {
    var t1 := EnsureDir(t, RegistryPath(root, dirName)).value;
    EnsureDirKeeps(t, RegistryPath(root, dirName));
    var t2 := EnsureDir(t1, TeamsPath(root, dirName)).value;
    EnsureDirKeeps(t1, TeamsPath(root, dirName));
    var t3 := EnsureDir(t2, UsersPath(root, dirName)).value;
    EnsureDirKeeps(t2, UsersPath(root, dirName));
    var meta := MetadataFilePath(root, dirName);
    if meta !in t3 {
      var t4 := WriteText(t3, meta, FreshMetadataText(warning), now).value;
      assert Keeps(t3, t4);
    }
  }

  /** Setting up the registry a second time changes nothing. */
  lemma RegistryIdempotent(t: Tree, root: Path, dirName: string, warning: string, now1: int, now2: int)
    requires RegistryOutcome(t, root, dirName, warning, now1).1.Ok?
    ensures var r := RegistryOutcome(t, root, dirName, warning, now1).0;
      RegistryOutcome(r, root, dirName, warning, now2) == (r, Ok(()))
  {
    RegistryPresent(t, root, dirName, warning, now1);
  }

  /** The set-up never overwrites a file, the metadata file in particular. */
  lemma RegistryKeepsFiles(t: Tree, root: Path, dirName: string, warning: string, now: int)
    ensures var r := RegistryOutcome(t, root, dirName, warning, now).0;
      forall q :: IsFile(t, q) ==> q in r && r[q] == t[q]
  {
    var res := RegistryOutcome(t, root, dirName, warning, now);
    if res.1.Ok? {
      RegistryPresent(t, root, dirName, warning, now);
    } else {
      KeepsOnFailure(t, root, dirName, warning, now);
    }
  }

  lemma KeepsOnFailure(t: Tree, root: Path, dirName: string, warning: string, now: int)
    ensures Keeps(t, RegistryOutcome(t, root, dirName, warning, now).0)
  {
    var reg, teams, users := RegistryPath(root, dirName), TeamsPath(root, dirName), UsersPath(root, dirName);
    if EnsureDir(t, reg).Some? {
      var t1 := EnsureDir(t, reg).value;
      EnsureDirKeeps(t, reg);
      if EnsureDir(t1, teams).Some? {
        var t2 := EnsureDir(t1, teams).value;
        EnsureDirKeeps(t1, teams);
        if EnsureDir(t2, users).Some? {
          var t3 := EnsureDir(t2, users).value;
          EnsureDirKeeps(t2, users);
          var meta := MetadataFilePath(root, dirName);
          if meta !in t3 && WriteText(t3, meta, FreshMetadataText(warning), now).Some? {
            var t4 := WriteText(t3, meta, FreshMetadataText(warning), now).value;
            assert Keeps(t3, t4);
          }
        }
      }
    }
  }

  /**
   * When no metadata file existed, a successful set-up writes the warning and an empty object;
   * with the warning written as a `//` comment line, the metadata store then reads as empty.
   */
  lemma FreshRegistryLoadsEmpty(t: Tree, root: Path, dirName: string, comment: string, now: int)
    requires Jsonc.SingleLine(comment)
    requires MetadataFilePath(root, dirName) !in t
    requires RegistryOutcome(t, root, dirName, "//" + comment, now).1.Ok?
    ensures var r := RegistryOutcome(t, root, dirName, "//" + comment, now).0;
      && ReadFile(r, MetadataFilePath(root, dirName)) == Ok(FreshMetadataText("//" + comment))
      && MetadataService.Load(r, Some(root), dirName) == []
  {
    var warning := "//" + comment;
    var reg, teams, users := RegistryPath(root, dirName), TeamsPath(root, dirName), UsersPath(root, dirName);
    var meta := MetadataFilePath(root, dirName);
    var t1 := EnsureDir(t, reg).value;
    var t2 := EnsureDir(t1, teams).value;
    var t3 := EnsureDir(t2, users).value;
    assert meta !in t3 by {
      NotOnTheWay(t, reg, meta);
      NotOnTheWay(t1, teams, meta);
      NotOnTheWay(t2, users, meta);
    }
    assert MetadataService.MetaPath(root, dirName) == meta;
    WarningLoadsEmpty(comment);
  }

  /** `mkdir -p p` creates only ancestors of `p`, so it never creates the metadata path. */
  lemma NotOnTheWay(t: Tree, p: Path, meta: Path)
    requires EnsureDir(t, p).Some? && meta !in t
    requires !IsPrefix(meta, p)
    ensures meta !in EnsureDir(t, p).value
  {
    if p !in t {
      MakeDirsFrame(t, p);
    }
  }

  /** A comment line followed by an empty object reads as empty metadata. */
  lemma WarningLoadsEmpty(comment: string)
    requires Jsonc.SingleLine(comment)
    ensures MetadataService.LoadText(FreshMetadataText("//" + comment)) == []
  {
    var w := "\n\n";
    var e := "{" + w + "}";
    var body := "\n" + e;
    assert FreshMetadataText("//" + comment) == "" + "//" + comment + body;
    CommentThenEmpty(comment, body, e);
    EmptyBodyClean(body, e);
    EmptyBodyParses(body, e, w);
  }

  lemma CommentThenEmpty(comment: string, body: string, e: string)
    requires Jsonc.SingleLine(comment)
    requires e == "{\n\n}" && body == "\n" + e
    ensures Jsonc.StripComments("" + "//" + comment + body) == body
  {
    Jsonc.CommentRemoved("", comment, body);
    assert body == ['\n'] + e;
    Jsonc.BreakKept('\n', e);
    MetadataService.EmptyComments(e);
  }

  lemma EmptyBodyClean(body: string, e: string)
    requires e == "{\n\n}" && body == "\n" + e
    ensures Jsonc.CleanCommas(body) == body
  {
    Jsonc.OutsidePlain("\n", e);
    MetadataService.EmptyClean(e);
  }

  lemma EmptyBodyParses(body: string, e: string, w: string)
    requires w == "\n\n" && e == "{" + w + "}" && body == "\n" + e
    ensures Json.Parse(body) == Some(Json.JObj([]))
  {
    Json.SkipSpaceOver("\n", e);
    Json.SkipNone(e);
    Json.ParseEmptyObject(w);
  }
}
