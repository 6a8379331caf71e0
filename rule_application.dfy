/**
 * Applying registry rules to the open workspace: a rule file is copied, with its header
 * rewritten for the chosen configuration, into `.cursor/registry/applied/` under a name no
 * file there has yet; a rule counts as applied while that directory lists a `.mdc` file
 * whose stem is the rule file's stem or starts with it and `_`; removing a rule unlinks every
 * such file. The workspace root is an input, and so is the clock reading stored with an
 * applied rule.
 */
module RuleApplication {
  import opened Wrappers
  import opened Strings
  import opened Paths
  import opened FileSystem
  import opened RuleConfiguration
  import FileUtils
  import RuleDiscovery

  type Rule = RuleDiscovery.Rule
  type Decoder = RuleDiscovery.Decoder

  /** What `applyRule` returns: the copy's id and path, the rule it came from, when and how. */
  datatype AppliedRule = AppliedRule(id: string, originalPath: Path, appliedPath: Path, appliedAt: int, config: Config)

  const NoRoot: string := "No workspace root found"
  const ApplyPrefix: string := "Failed to apply rule: "
  /** The message of the `mkdir` that fails because a file stands on the way. */
  const CannotCreate: string := "ENOTDIR: cannot create directory"
  /** The message of the `writeFile` that fails because the applied directory is a file. */
  const CannotWrite: string := "ENOTDIR: cannot write file"
  const Separator: string := "_"
  const MdcExt: string := ".mdc"

  function ApplyFailed(message: string): string {
    ApplyPrefix + message
  }

  /** `<root>/.cursor/registry/applied`. */
  function AppliedDir(root: Path): Path {
    root + [".cursor", "registry", "applied"]
  }

  // ---------------------------------------------------------------- unique names

  /**
   * `n` is the first attempt whose name is free in `dir`: every earlier attempt
   * (`name.ext`, `name_1.ext`, ...) exists and this one does not.
   */
  predicate FirstFree(t: Tree, dir: Path, filename: string, n: nat) {
    && n >= 1
    && FileUtils.Candidate(dir, filename, Separator, n) !in t
    && forall j: nat :: 1 <= j < n ==> FileUtils.Candidate(dir, filename, Separator, j) in t
  }

  /** At most one attempt is the first free one, so `FirstFree` pins the name down. */
  lemma FirstFreeUnique(t: Tree, dir: Path, filename: string, n: nat, m: nat)
    requires FirstFree(t, dir, filename, n) && FirstFree(t, dir, filename, m)
    ensures n == m
  {
  }

  /**
   * `generateUniqueFilename(originalPath, appliedDir)`: the original base name when it is
   * free, otherwise `stem_k.ext` for the smallest `k >= 1` that is free.
   */
  method GenerateUniqueFilename(store: FileStore, originalPath: Path, appliedDir: Path) returns (name: string)
    ensures exists n: nat :: FirstFree(store.tree, appliedDir, Basename(originalPath), n)
                             && name == FileUtils.CandidateName(Basename(originalPath), Separator, n)
  {
    var originalName := Basename(originalPath);
    var counter: nat := 1;
    name := originalName;
    ghost var seen: set<Path> := {};
    while store.Exists(appliedDir + [name])
      invariant name == FileUtils.CandidateName(originalName, Separator, counter)
      invariant FileUtils.Searching(store.tree, appliedDir, originalName, Separator, counter, seen)
      decreases store.tree.Keys - seen
    {
      FileUtils.SearchStep(store.tree, appliedDir, originalName, Separator, counter, seen);
      seen := seen + {appliedDir + [name]};
      name := FileUtils.NumberedName(originalName, Separator, counter);
      counter := counter + 1;
    }
    SearchDone(store.tree, appliedDir, originalName, counter, seen);
  }

  lemma SearchDone(t: Tree, dir: Path, filename: string, counter: nat, seen: set<Path>)
    requires FileUtils.Searching(t, dir, filename, Separator, counter, seen)
    requires dir + [FileUtils.CandidateName(filename, Separator, counter)] !in t
    ensures FirstFree(t, dir, filename, counter)
  {
  }

  // ---------------------------------------------------------------- applying a rule

  /**
   * `ensureAppliedRulesDir()`: throws without a workspace; otherwise creates the applied
   * directory with `mkdir -p` when nothing is at its path.
   */
  method EnsureAppliedRulesDir(store: FileStore, root: Option<Path>) returns (r: Result<Path>)
    modifies store
    ensures root.None? ==> r == Err(NoRoot) && store.tree == old(store.tree)
    ensures root.Some? ==>
      match FileUtils.EnsureDir(old(store.tree), AppliedDir(root.value))
      case None => r == Err(CannotCreate) && store.tree == old(store.tree)
      case Some(t1) => r == Ok(AppliedDir(root.value)) && store.tree == t1
  {
    if root.None? {
      return Err(NoRoot);
    }
    var dir := AppliedDir(root.value);
    if !store.Exists(dir) {
      var made := store.MakeDirectories(dir);
      if !made {
        return Err(CannotCreate);
      }
    }
    r := Ok(dir);
  }

  /**
   * `applyRule(rulePath, config)`: creates the applied directory when nothing is at its path,
   * picks a free name, reads the rule, and writes it there with its header configured. Each
   * failure becomes an error prefixed with `Failed to apply rule: `, and leaves the disk as
   * the steps before it left it.
   */
  method ApplyRule(store: FileStore, root: Option<Path>, rulePath: Path, config: Config, now: int)
    returns (r: Result<AppliedRule>)
    modifies store
    ensures root.None? ==> r == Err(ApplyFailed(NoRoot)) && store.tree == old(store.tree)
    ensures root.Some? ==>
      match FileUtils.EnsureDir(old(store.tree), AppliedDir(root.value))
      case None => r == Err(ApplyFailed(CannotCreate)) && store.tree == old(store.tree)
      case Some(t1) => CopiedInto(t1, AppliedDir(root.value), rulePath, config, now, store.tree, r)
  {
    var dir := EnsureAppliedRulesDir(store, root);
    if dir.Err? {
      return Err(ApplyFailed(dir.message));
    }
    r := CopyInto(store, dir.value, rulePath, config, now);
  }

  /**
   * What the steps of `applyRule` after the directory is in place leave: the read error, the
   * write error when the applied directory is a file, or the configured copy under the first
   * free name.
   */
  ghost predicate CopiedInto(t1: Tree, dir: Path, rulePath: Path, config: Config, now: int, t: Tree, r: Result<AppliedRule>) {
    match ReadFile(t1, rulePath)
    case Err(e) => r == Err(ApplyFailed(e)) && t == t1
    case Ok(text) =>
      if !IsDir(t1, dir) then r == Err(ApplyFailed(CannotWrite)) && t == t1
      else exists n: nat :: (
        && FirstFree(t1, dir, Basename(rulePath), n)
        && var name := FileUtils.CandidateName(Basename(rulePath), Separator, n);
          && WriteText(t1, dir + [name], Configured(text, config), now) == Some(t)
          && r == Ok(AppliedRule(Stem(name), rulePath, dir + [name], now, config)))
  }

  method CopyInto(store: FileStore, dir: Path, rulePath: Path, config: Config, now: int) returns (r: Result<AppliedRule>)
    modifies store
    ensures CopiedInto(old(store.tree), dir, rulePath, config, now, store.tree, r)
  {
    var name := GenerateUniqueFilename(store, rulePath, dir);
    ghost var n: nat :| FirstFree(store.tree, dir, Basename(rulePath), n)
                        && name == FileUtils.CandidateName(Basename(rulePath), Separator, n);
    var content := ReadFile(store.tree, rulePath);
    if content.Err? {
      return Err(ApplyFailed(content.message));
    }
    var configured := ApplyConfigurationToRule(content.value, config);
    var written := store.WriteFile(dir + [name], configured, now);
    if !written {
      return Err(ApplyFailed(CannotWrite));
    }
    r := Ok(AppliedRule(Stem(name), rulePath, dir + [name], now, config));
  }

  /** Once `mkdir -p` has succeeded on the applied directory, it is a directory. */
  lemma CreatedIsDir(t: Tree, root: Path)
    requires FileUtils.EnsureDir(t, AppliedDir(root)).Some?
    requires !IsFile(t, AppliedDir(root))
    ensures IsDir(FileUtils.EnsureDir(t, AppliedDir(root)).value, AppliedDir(root))
  {
    var dir := AppliedDir(root);
    if dir !in t {
      MakeDirsCreates(t, dir);
      assert dir[..|dir|] == dir;
    }
  }

  /**
   * Applying never overwrites: the copy goes to a path that did not exist, every other path
   * but the directory keeps its node, the directory keeps its names and gains the copy's,
   * and the copy holds the configured text.
   */
  lemma AppliedCopy(t1: Tree, dir: Path, filename: string, n: nat, text: string, now: int)
    requires IsDir(t1, dir) && FirstFree(t1, dir, filename, n)
    ensures var p := dir + [FileUtils.CandidateName(filename, Separator, n)];
      && p !in t1
      && WriteText(t1, p, text, now).Some?
      && var t2 := WriteText(t1, p, text, now).value;
      && ReadFile(t2, p) == Ok(text)
      && (forall q :: q in t1 && q != dir ==> q in t2 && t2[q] == t1[q])
      && (forall m :: m in t1[dir].children ==> m in t2[dir].children)
      && FileUtils.CandidateName(filename, Separator, n) in t2[dir].children
  {
    var p := dir + [FileUtils.CandidateName(filename, Separator, n)];
    assert p == FileUtils.Candidate(dir, filename, Separator, n);
    assert Parent(p) == dir;
    assert Basename(p) == FileUtils.CandidateName(filename, Separator, n);
  }

  /**
   * A copy of a rule whose header has plain lines, configured with globs that carry none of
   * the characters the header syntax uses, reads back as the configuration recorded (with
   * the strategy pattern read whole).
   */
  lemma AppliedReadsBack(t1: Tree, dir: Path, filename: string, n: nat, text: string, config: Config, now: int)
    requires IsDir(t1, dir) && FirstFree(t1, dir, filename, n)
    requires Rereadable(text) && GlobsWritable(config)
    ensures var p := dir + [FileUtils.CandidateName(filename, Separator, n)];
      && WriteText(t1, p, Configured(text, config), now).Some?
      && match ReadFile(WriteText(t1, p, Configured(text, config), now).value, p)
         case Ok(copy) => ExtractConfigurationCorrected(copy) == Recorded(config)
         case Err(_) => false
  {
    AppliedCopy(t1, dir, filename, n, Configured(text, config), now);
    ReadBackCorrected(text, config);
  }

  // ---------------------------------------------------------------- recognising applied copies

  /**
   * The filter of `isRuleApplied` and `removeAppliedRule`: a `.mdc` file whose stem is the
   * rule's stem or starts with the rule's stem and `_`.
   */
  predicate MatchesRule(base: string, file: string) {
    EndsWith(file, MdcExt) && (Stem(file) == base || StartsWith(Stem(file), base + Separator))
  }

  /** A positive counter as `String(k)` writes it: decimal digits, no leading zero. */
  predicate IsCounter(s: string) {
    s != [] && s[0] != '0' && forall i :: 0 <= i < |s| ==> '0' <= s[i] <= '9'
  }

  /**
   * The names `generateUniqueFilename` makes for a rule file: the rule's own file name, or
   * the rule's stem followed by `_` and a counter. The filter above is coarser than this.
   */
  predicate MatchesGenerated(base: string, file: string) {
    && |file| > |MdcExt| && EndsWith(file, MdcExt)
    && (Stem(file) == base
        || (StartsWith(Stem(file), base + Separator) && IsCounter(Stem(file)[|base| + |Separator|..])))
  }

  /** `files.filter(...)`: the names that pass the filter, in listing order. */
  function Matching(files: seq<string>, base: string): (r: seq<string>)
    ensures forall f :: f in r <==> f in files && MatchesRule(base, f)
    ensures |r| <= |files|
  {
    if files == [] then []
    else (if MatchesRule(base, files[0]) then [files[0]] else []) + Matching(files[1..], base)
  }

  lemma {:induction false} NatToStringLeading(k: nat)
    requires k >= 1
    ensures NatToString(k)[0] != '0'
    decreases k
  {
    if k >= 10 {
      NatToStringLeading(k / 10);
      assert NatToString(k)[0] == NatToString(k / 10)[0];
    }
  }

  /** A counter is the formatted value it denotes. */
  lemma {:induction false} CounterValue(s: string)
    requires IsCounter(s)
    ensures DigitsValue(s) >= 1 && NatToString(DigitsValue(s)) == s
    decreases |s|
  {
    var d := s[|s| - 1] as int - '0' as int;
    if |s| == 1 {
      assert s[..0] == [];
      assert DigitsValue(s) == d;
      assert [DigitChar(d)] == s;
    } else {
      var p := s[..|s| - 1];
      assert p[0] == s[0];
      CounterValue(p);
      var v := DigitsValue(p);
      var n := v * 10 + d;
      assert DigitsValue(s) == n;
      assert n / 10 == v && n % 10 == d;
      assert NatToString(n) == NatToString(v) + [DigitChar(d)];
      assert s == p + [s[|s| - 1]];
    }
  }

  /** Every name `generateUniqueFilename` produces for a rule file `x.mdc` passes both filters. */
  lemma {:induction false} GeneratedMatches(x: string, n: nat)
    requires x != [] && n >= 1
    ensures MatchesRule(x, FileUtils.CandidateName(x + MdcExt, Separator, n))
    ensures MatchesGenerated(x, FileUtils.CandidateName(x + MdcExt, Separator, n))
  {
    GeneratedStem(x, n);
    StemMatches(x, FileUtils.CandidateName(x + MdcExt, Separator, n), n);
  }

  lemma StemMatches(x: string, name: string, n: nat)
    requires n >= 1 && |name| > |MdcExt| && EndsWith(name, MdcExt)
    requires Stem(name) == (if n == 1 then x else x + Separator + NatToString(n - 1))
    ensures MatchesRule(x, name) && MatchesGenerated(x, name)
  {
    if n > 1 {
      NumberedMatches(x, name, n - 1);
    }
  }

  lemma NumberedMatches(x: string, name: string, k: nat)
    requires |name| > |MdcExt| && EndsWith(name, MdcExt) && Stem(name) == x + Separator + NatToString(k) && k >= 1
    ensures MatchesRule(x, name) && MatchesGenerated(x, name)
  {
    CounterSuffix(x, k);
  }

  /** The stem of the `n`-th name tried for `x.mdc`, the applied rule's id, is `x` or `x_k`. */
  lemma {:induction false} GeneratedStem(x: string, n: nat)
    requires x != [] && n >= 1
    ensures var name := FileUtils.CandidateName(x + MdcExt, Separator, n);
      && |name| > |MdcExt| && EndsWith(name, MdcExt)
      && Stem(name) == (if n == 1 then x else x + Separator + NatToString(n - 1))
  {
    StemOfSuffixed(x, MdcExt);
    if n > 1 {
      var y := x + Separator + NatToString(n - 1);
      StemOfSuffixed(y, MdcExt);
      assert FileUtils.CandidateName(x + MdcExt, Separator, n) == y + MdcExt;
    }
  }

  lemma {:induction false} CounterSuffix(x: string, k: nat)
    requires k >= 1
    ensures var y := x + Separator + NatToString(k);
      StartsWith(y, x + Separator) && IsCounter(y[|x| + |Separator|..])
  {
    var y := x + Separator + NatToString(k);
    NatToStringLeading(k);
    assert y[|x| + |Separator|..] == NatToString(k);
    assert y[..|x + Separator|] == x + Separator;
  }

  /** Nothing but those generated names is accepted by the narrower test. */
  lemma {:induction false} GeneratedOnly(x: string, file: string)
    requires x != [] && MatchesGenerated(x, file)
    ensures exists n: nat :: n >= 1 && file == FileUtils.CandidateName(x + MdcExt, Separator, n)
  {
    var y := file[..|file| - |MdcExt|];
    SuffixedStem(file);
    if y == x {
      assert file == FileUtils.CandidateName(x + MdcExt, Separator, 1);
    } else {
      var s := y[|x| + |Separator|..];
      assert y[..|x + Separator|] == x + Separator;
      assert y == x + Separator + s;
      NumberedFile(x, s);
    }
  }

  /** A name `y.mdc` with a non-empty `y` has stem `y`. */
  lemma SuffixedStem(file: string)
    requires |file| > |MdcExt| && EndsWith(file, MdcExt)
    ensures file == file[..|file| - |MdcExt|] + MdcExt && Stem(file) == file[..|file| - |MdcExt|]
  {
    var y := file[..|file| - |MdcExt|];
    assert file == y + MdcExt;
    StemOfSuffixed(y, MdcExt);
  }

  lemma NumberedFile(x: string, s: string)
    requires x != [] && IsCounter(s)
    ensures exists n: nat :: n >= 1 && x + Separator + s + MdcExt == FileUtils.CandidateName(x + MdcExt, Separator, n)
  {
    StemOfSuffixed(x, MdcExt);
    CounterValue(s);
    var k := DigitsValue(s);
    assert x + Separator + s + MdcExt == FileUtils.NumberedName(x + MdcExt, Separator, k);
    assert x + Separator + s + MdcExt == FileUtils.CandidateName(x + MdcExt, Separator, k + 1);
  }

  /**
   * The filter takes the applied copy `x_w.mdc` of another rule `x_w` for a copy of `x`
   * whenever `w` does not start with a digit, although no name generated for `x.mdc` is
   * `x_w.mdc`.
   */
  lemma {:induction false} ForeignCopyMatches(x: string, w: string)
    requires x != [] && w != [] && !('0' <= w[0] <= '9')
    ensures var file := x + Separator + w + MdcExt;
      && FileUtils.CandidateName(x + Separator + w + MdcExt, Separator, 1) == file
      && MatchesRule(x, file)
      && !MatchesGenerated(x, file)
      && forall n: nat :: n >= 1 ==> FileUtils.CandidateName(x + MdcExt, Separator, n) != file
  {
    var file := x + Separator + w + MdcExt;
    ForeignStem(x, w);
    ForeignNotGenerated(x, w, file);
    forall n: nat | n >= 1 ensures FileUtils.CandidateName(x + MdcExt, Separator, n) != file {
      GeneratedMatches(x, n);
    }
  }

  lemma ForeignStem(x: string, w: string)
    requires x != []
    ensures var file := x + Separator + w + MdcExt;
      && |file| > |MdcExt| && EndsWith(file, MdcExt) && Stem(file) == x + Separator + w
      && StartsWith(Stem(file), x + Separator)
  {
    var y := x + Separator + w;
    StemOfSuffixed(y, MdcExt);
    assert y[..|x + Separator|] == x + Separator;
  }

  lemma ForeignNotGenerated(x: string, w: string, file: string)
    requires w != [] && !('0' <= w[0] <= '9')
    requires Stem(file) == x + Separator + w
    ensures !MatchesGenerated(x, file)
  {
    assert Stem(file)[|x| + |Separator|..] == w;
    assert |Stem(file)| != |x|;
  }

  /** For instance, `foo_bar.mdc`, the copy of the rule `foo_bar`, is taken for a copy of `foo`. */
  lemma OtherRuleMatches()
    ensures var file := "foo" + Separator + "bar" + MdcExt;
      && MatchesRule("foo", file) && !MatchesGenerated("foo", file)
      && FileUtils.CandidateName(file, Separator, 1) == file
      && forall n: nat :: n >= 1 ==> FileUtils.CandidateName("foo" + MdcExt, Separator, n) != file
  {
    ForeignCopyMatches("foo", "bar");
  }

  // ---------------------------------------------------------------- checking and removing

  /** `getRuleById(id)` as its contract describes it: nothing when discovery throws. */
  function Located(t: Tree, root: Option<Path>, dirName: string, cwd: Path, decode: Decoder, id: string): Option<Rule> {
    match RuleDiscovery.DiscoverOutcome(t, root, dirName, cwd, decode)
    case Err(_) => None
    case Ok(d) => RuleDiscovery.FindRule(d.allRules, id)
  }

  /** `path.parse(path.basename(rule.filePath)).name`. */
  function RuleBase(rule: Rule): string {
    Stem(Basename(rule.filePath))
  }

  /**
   * The applied directory and the names in it that match the rule with ID `id`, when there
   * is a workspace, the directory exists and can be listed, and the rule is found.
   */
  function Targets(t: Tree, root: Option<Path>, dirName: string, cwd: Path, decode: Decoder, id: string)
    : Option<(Path, seq<string>)>
  {
    if root.None? || !IsDir(t, AppliedDir(root.value)) then None
    else
      match Located(t, root, dirName, cwd, decode, id)
      case None => None
      case Some(rule) => Some((AppliedDir(root.value), Matching(t[AppliedDir(root.value)].children, RuleBase(rule))))
  }

  /**
   * `isRuleApplied(id)`: true exactly when there is a workspace, the applied directory lists
   * a name matching the rule's file, and the rule is found.
   */
  method IsRuleApplied(store: FileStore, root: Option<Path>, dirName: string, cwd: Path, decode: Decoder, id: string)
    returns (b: bool)
    ensures b <==> && root.Some? && IsDir(store.tree, AppliedDir(root.value))
                   && Located(store.tree, root, dirName, cwd, decode, id).Some?
                   && exists f :: f in store.tree[AppliedDir(root.value)].children
                                  && MatchesRule(RuleBase(Located(store.tree, root, dirName, cwd, decode, id).value), f)
  {
    if root.None? {
      return false;
    }
    var dir := AppliedDir(root.value);
    if !store.Exists(dir) {
      return false;
    }
    var rule := RuleDiscovery.GetRuleById(store, root, dirName, cwd, decode, id);
    if rule.None? {
      return false;
    }
    var files := ReadDir(store.tree, dir);
    if files.None? {
      return false;
    }
    var matching := Matching(files.value, RuleBase(rule.value));
    b := |matching| > 0;
    if b {
      assert matching[0] in matching;
    }
  }

  /**
   * Unlinking `dir/n` for each name in turn; the first unlink that throws ends the run,
   * with false and the files before it gone.
   */
  function Removal(t: Tree, dir: Path, names: seq<string>): (Tree, bool)
    decreases |names|
  {
    if names == [] then (t, true)
    else
      match Unlinked(t, dir + [names[0]])
      case None => (t, false)
      case Some(t1) => Removal(t1, dir, names[1..])
  }

  /** `names` without any of `gone`, removed one name at a time. */
  function WithoutAll(names: seq<string>, gone: seq<string>): (r: seq<string>)
    ensures forall m :: m in r <==> m in names && m !in gone
    decreases |gone|
  {
    if gone == [] then names else WithoutAll(Without(names, gone[0]), gone[1..])
  }

  predicate Distinct(names: seq<string>) {
    forall i, j :: 0 <= i < j < |names| ==> names[i] != names[j]
  }

  /** The run removes everything exactly when every name is a distinct file of `dir`. */
  lemma {:induction false} RemovalSucceeds(t: Tree, dir: Path, names: seq<string>)
    ensures Removal(t, dir, names).1 <==> Distinct(names) && forall i :: 0 <= i < |names| ==> IsFile(t, dir + [names[i]])
    decreases |names|
  {
    if names != [] {
      var p := dir + [names[0]];
      if IsFile(t, p) {
        var t1 := Unlinked(t, p).value;
        var rest := names[1..];
        RemovalSucceeds(t1, dir, rest);
        forall m ensures IsFile(t1, dir + [m]) <==> IsFile(t, dir + [m]) && m != names[0] {
          assert Parent(dir + [m]) == dir;
          if m != names[0] {
            FileUtils.LastDiffers(dir, m, names[0]);
          }
          assert dir + [m] != dir;
        }
        assert forall i :: 1 <= i < |names| ==> names[i] == rest[i - 1];
      } else {
        assert !IsFile(t, dir + [names[0]]);
      }
    }
  }

  /**
   * After a run that removed everything: none of the removed paths is left, every other
   * path but `dir` keeps its node, and `dir` lists what it listed without the removed names.
   */
  lemma RemovalEffect(t: Tree, dir: Path, names: seq<string>)
    requires Removal(t, dir, names).1
    ensures var t2 := Removal(t, dir, names).0;
      && t2.Keys <= t.Keys
      && (forall n :: n in names ==> dir + [n] !in t2)
      && (forall q :: q in t && q != dir && !(Parent(q) == dir && Basename(q) in names) ==> q in t2 && t2[q] == t[q])
  {
    RemovalShrinks(t, dir, names);
    RemovalGone(t, dir, names);
    RemovalFrame(t, dir, names);
  }

  lemma {:induction false} RemovalShrinks(t: Tree, dir: Path, names: seq<string>)
    ensures Removal(t, dir, names).0.Keys <= t.Keys
    decreases |names|
  {
    if names != [] && Unlinked(t, dir + [names[0]]).Some? {
      RemovalShrinks(Unlinked(t, dir + [names[0]]).value, dir, names[1..]);
    }
  }

  lemma {:induction false} RemovalGone(t: Tree, dir: Path, names: seq<string>)
    requires Removal(t, dir, names).1
    ensures forall n :: n in names ==> dir + [n] !in Removal(t, dir, names).0
    decreases |names|
  {
    if names != [] {
      var t1 := Unlinked(t, dir + [names[0]]).value;
      RemovalGone(t1, dir, names[1..]);
      RemovalShrinks(t1, dir, names[1..]);
      assert forall n :: n in names ==> n == names[0] || n in names[1..];
    }
  }

  lemma {:induction false} RemovalFrame(t: Tree, dir: Path, names: seq<string>)
    requires Removal(t, dir, names).1
    ensures var t2 := Removal(t, dir, names).0;
      forall q :: q in t && q != dir && !(Parent(q) == dir && Basename(q) in names) ==> q in t2 && t2[q] == t[q]
    decreases |names|
  {
    if names != [] {
      var p := dir + [names[0]];
      var t1 := Unlinked(t, p).value;
      assert Parent(p) == dir;
      RemovalFrame(t1, dir, names[1..]);
      assert forall n :: n in names[1..] ==> n in names;
      forall q | q in t && q != dir && !(Parent(q) == dir && Basename(q) in names) ensures q != p {
        assert Basename(p) == names[0];
      }
    }
  }

  /** After a run that removed everything, `dir` lists what it listed without the removed names. */
  lemma {:induction false} RemovalListing(t: Tree, dir: Path, names: seq<string>)
    requires Removal(t, dir, names).1 && IsDir(t, dir)
    ensures var t2 := Removal(t, dir, names).0;
      IsDir(t2, dir) && t2[dir].children == WithoutAll(t[dir].children, names)
    decreases |names|
  {
    if names != [] {
      var p := dir + [names[0]];
      assert Parent(p) == dir;
      RemovalListing(Unlinked(t, p).value, dir, names[1..]);
    }
  }

  /**
   * After `removeAppliedRule` succeeds, the applied directory lists nothing the filter
   * matches, and nothing outside the removed copies and the directory's listing changed.
   */
  lemma RemovedLeavesNoMatch(t: Tree, dir: Path, base: string)
    requires IsDir(t, dir) && Removal(t, dir, Matching(t[dir].children, base)).1
    ensures var t2 := Removal(t, dir, Matching(t[dir].children, base)).0;
      && IsDir(t2, dir)
      && (forall m :: m in t2[dir].children ==> !MatchesRule(base, m))
      && (forall m :: m in t[dir].children && !MatchesRule(base, m) ==> m in t2[dir].children)
      && (forall q :: q in t && q != dir && !(Parent(q) == dir && MatchesRule(base, Basename(q))) ==> q in t2 && t2[q] == t[q])
  {
    var names := Matching(t[dir].children, base);
    RemovalEffect(t, dir, names);
    RemovalListing(t, dir, names);
  }

  /**
   * `removeAppliedRule(id)`: false, with the disk unchanged, unless there is a workspace, the
   * applied directory can be listed, the rule is found and some name matches; otherwise the
   * matching files are unlinked in listing order, and the result says whether all went.
   */
  method RemoveAppliedRule(store: FileStore, root: Option<Path>, dirName: string, cwd: Path, decode: Decoder, id: string)
    returns (b: bool)
    modifies store
    ensures match Targets(old(store.tree), root, dirName, cwd, decode, id)
      case None => !b && store.tree == old(store.tree)
      case Some((dir, names)) =>
        if names == [] then !b && store.tree == old(store.tree)
        else (store.tree, b) == Removal(old(store.tree), dir, names)
  {
    if root.None? {
      return false;
    }
    var dir := AppliedDir(root.value);
    if !store.Exists(dir) {
      return false;
    }
    var rule := RuleDiscovery.GetRuleById(store, root, dirName, cwd, decode, id);
    if rule.None? {
      return false;
    }
    var files := ReadDir(store.tree, dir);
    if files.None? {
      return false;
    }
    var matching := Matching(files.value, RuleBase(rule.value));
    if |matching| == 0 {
      return false;
    }
    b := RemoveFiles(store, dir, matching);
  }

  /** The loop of `removeAppliedRule`: unlinks `dir/n` for each name, stopping at the first failure. */
  method RemoveFiles(store: FileStore, dir: Path, names: seq<string>) returns (b: bool)
    modifies store
    ensures (store.tree, b) == Removal(old(store.tree), dir, names)
  {
    var i := 0;
    while i < |names|
      invariant 0 <= i <= |names|
      invariant Removal(old(store.tree), dir, names) == Removal(store.tree, dir, names[i..])
    {
      assert names[i..][1..] == names[i + 1..];
      var ok := store.Unlink(dir + [names[i]]);
      if !ok {
        return false;
      }
      i := i + 1;
    }
    assert names[i..] == [];
    b := true;
  }

  /**
   * Applying a rule `x.mdc` into an existing applied directory makes `isRuleApplied` see it:
   * the directory then lists a name the filter matches against `x`.
   */
  lemma ApplyThenDetected(t1: Tree, dir: Path, x: string, n: nat, text: string, now: int)
    requires x != [] && IsDir(t1, dir) && FirstFree(t1, dir, x + MdcExt, n)
    ensures var p := dir + [FileUtils.CandidateName(x + MdcExt, Separator, n)];
      && WriteText(t1, p, text, now).Some?
      && exists f :: f in WriteText(t1, p, text, now).value[dir].children && MatchesRule(x, f)
  {
    AppliedCopy(t1, dir, x + MdcExt, n, text, now);
    GeneratedMatches(x, n);
  }
}
