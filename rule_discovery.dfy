/**
 * Rule discovery: the rules of every team directory and then of every user directory of the
 * registry, gathered into one list, with the tags of the metadata store laid over them; and
 * the look-ups built on it (a rule by ID, one team's or one user's rules).
 * The workspace root is an input: None when no folder is open.
 */
module RuleDiscovery {
  import opened Wrappers
  import opened FileSystem
  import opened Sequences
  import Paths
  import Strings
  import Json
  import FileUtils
  import MetadataService
  import MdcParser
  import Jsonc

  type Rule = MdcParser.Rule
  type Decoder = MdcParser.Decoder

  const NoWorkspace: string := "No workspace folder found"

  datatype Discovery = Discovery(
    allRules: seq<Rule>, teamRules: seq<Rule>, userRules: seq<Rule>, teams: seq<string>, users: seq<string>)

  /** Whether a registry directory belongs to a team (under `teams/`) or to a user (under `users/`). */
  datatype Owner = TeamOwner | UserOwner

  function TeamOf(owner: Owner, name: string): Option<string> {
    if owner.TeamOwner? then Some(name) else None
  }

  function UserOf(owner: Owner, name: string): Option<string> {
    if owner.UserOwner? then Some(name) else None
  }

  /** `parseMdcFilesInDirectory(base/name, team, user)` for the owner `name`. */
  function NamedRules(t: Tree, cwd: Paths.Path, base: Paths.Path, owner: Owner, name: string,
                      decode: Decoder): seq<Rule>
  {
    MdcParser.DirectoryRules(t, cwd, base + [name], TeamOf(owner, name), UserOf(owner, name), decode)
  }

  /** The rules of the owners `names`, one directory after another. */
  function OwnerRules(t: Tree, cwd: Paths.Path, base: Paths.Path, owner: Owner, names: seq<string>,
                      decode: Decoder): seq<Rule>
  {
    if names == [] then []
    else
      OwnerRules(t, cwd, base, owner, names[..|names| - 1], decode)
        + NamedRules(t, cwd, base, owner, names[|names| - 1], decode)
  }

  lemma OwnerRulesSnoc(t: Tree, cwd: Paths.Path, base: Paths.Path, owner: Owner, names: seq<string>,
                       i: nat, decode: Decoder)
    requires i < |names|
    ensures OwnerRules(t, cwd, base, owner, names[..i + 1], decode)
      == OwnerRules(t, cwd, base, owner, names[..i], decode) + NamedRules(t, cwd, base, owner, names[i], decode)
  {
    assert names[..i + 1][..i] == names[..i];
  }

  // ---------------------------------------------------------------- the tag overlay

  /** `metaMap[id]` when it is an object whose `tags` is an array: that array. */
  function TagsFor(meta: MetadataService.Meta, id: string): Option<seq<Json.Json>> {
    match Json.Lookup(meta, id)
    case None => None
    case Some(entry) =>
      match Json.Get(entry, "tags")
      case Some(JArr(items)) => Some(items)
      case _ => None
  }

  /** `rule.tags = meta.tags` when the metadata has a list of tags for the rule. */
  function Tagged(r: Rule, meta: MetadataService.Meta): Rule {
    if TagsFor(meta, r.id).Some? then r.(tags := TagsFor(meta, r.id)) else r
  }

  /** The overlay changes the tags and nothing else; the tags are the metadata's, when it has some. */
  lemma TaggedChangesOnlyTags(r: Rule, meta: MetadataService.Meta)
    ensures Tagged(r, meta).(tags := r.tags) == r
    ensures TagsFor(meta, r.id).Some? ==> Tagged(r, meta).tags == TagsFor(meta, r.id)
    ensures TagsFor(meta, r.id).None? ==> Tagged(r, meta) == r
  {
  }

  function Overlay(rules: seq<Rule>, meta: MetadataService.Meta): (r: seq<Rule>)
    ensures |r| == |rules|
    ensures forall i :: 0 <= i < |rules| ==> r[i] == Tagged(rules[i], meta)
  {
    seq(|rules|, i requires 0 <= i < |rules| => Tagged(rules[i], meta))
  }

  lemma OverlayAppend(a: seq<Rule>, b: seq<Rule>, meta: MetadataService.Meta)
    ensures Overlay(a + b, meta) == Overlay(a, meta) + Overlay(b, meta)
  {
    assert forall i :: 0 <= i < |a + b| ==> Overlay(a + b, meta)[i] == (Overlay(a, meta) + Overlay(b, meta))[i];
  }

  // ---------------------------------------------------------------- discovery

  /** The discovery result for the given team rules, user rules, metadata and scanned registry. */
  function Assemble(teamRules: seq<Rule>, userRules: seq<Rule>, meta: MetadataService.Meta,
                    reg: FileUtils.Registry): Discovery
  {
    Discovery(Overlay(teamRules + userRules, meta), Overlay(teamRules, meta), Overlay(userRules, meta),
              reg.teams, reg.users)
  }

  /** The rules of every scanned team, in scan order. */
  function TeamRulesOf(t: Tree, root: Paths.Path, dirName: string, cwd: Paths.Path, reg: FileUtils.Registry,
                       decode: Decoder): seq<Rule>
  {
    OwnerRules(t, cwd, FileUtils.TeamsPath(root, dirName), TeamOwner, reg.teams, decode)
  }

  /** The rules of every scanned user, in scan order. */
  function UserRulesOf(t: Tree, root: Paths.Path, dirName: string, cwd: Paths.Path, reg: FileUtils.Registry,
                       decode: Decoder): seq<Rule>
  {
    OwnerRules(t, cwd, FileUtils.UsersPath(root, dirName), UserOwner, reg.users, decode)
  }

  /**
   * What `discoverAllRules()` returns: it throws without a workspace and when the registry
   * cannot be listed; otherwise the team rules then the user rules, with the tags laid over
   * them. The team and user lists hold the very rule objects of `allRules`, so they carry the
   * tags too.
   */
  function DiscoverOutcome(t: Tree, root: Option<Paths.Path>, dirName: string, cwd: Paths.Path,
                           decode: Decoder): Result<Discovery>
  {
    if root.None? then Err(NoWorkspace)
    else
      match FileUtils.ScanRegistryDirectories(t, root.value, dirName)
      case Err(e) => Err(e)
      case Ok(reg) =>
        Ok(Assemble(TeamRulesOf(t, root.value, dirName, cwd, reg, decode), UserRulesOf(t, root.value, dirName, cwd, reg, decode),
                    MetadataService.Load(t, root, dirName), reg))
  }

  /** A successful discovery, spelled out. */
  lemma DiscoverShape(t: Tree, root: Option<Paths.Path>, dirName: string, cwd: Paths.Path, decode: Decoder)
    requires DiscoverOutcome(t, root, dirName, cwd, decode).Ok?
    ensures root.Some? && FileUtils.ScanRegistryDirectories(t, root.value, dirName).Ok?
    ensures var reg := FileUtils.ScanRegistryDirectories(t, root.value, dirName).value;
      DiscoverOutcome(t, root, dirName, cwd, decode)
        == Ok(Assemble(TeamRulesOf(t, root.value, dirName, cwd, reg, decode), UserRulesOf(t, root.value, dirName, cwd, reg, decode),
                       MetadataService.Load(t, root, dirName), reg))
  {
  }

  method DiscoverAllRules(store: FileStore, root: Option<Paths.Path>, dirName: string, cwd: Paths.Path,
                          decode: Decoder) returns (r: Result<Discovery>)
    ensures r == DiscoverOutcome(store.tree, root, dirName, cwd, decode)
  {
    if root.None? {
      return Err(NoWorkspace);
    }
    var scan := FileUtils.ScanRegistryDirectories(store.tree, root.value, dirName);
    if scan.Err? {
      return Err(scan.message);
    }
    var allRules, teamRules, userRules;
    teamRules, allRules := GatherRules(store, cwd, FileUtils.TeamsPath(root.value, dirName), TeamOwner,
                                       scan.value.teams, decode, []);
    EmptyAppend(teamRules);
    userRules, allRules := GatherRules(store, cwd, FileUtils.UsersPath(root.value, dirName), UserOwner,
                                       scan.value.users, decode, allRules);
    var meta := MetadataService.LoadRulesMetadata(store, root, dirName);
    allRules := OverlayTags(allRules, meta);
    OverlayAppend(teamRules, userRules, meta);
    AppendHalves(Overlay(teamRules, meta), Overlay(userRules, meta));
    // the team and user lists share their rule objects with allRules
    teamRules, userRules := allRules[..|teamRules|], allRules[|teamRules|..];
    return Ok(Discovery(allRules, teamRules, userRules, scan.value.teams, scan.value.users));
  }

  /**
   * The loop over the owners `names`: each owner directory's rules pushed onto the owners'
   * list and onto `allRules`.
   */
  method GatherRules(store: FileStore, cwd: Paths.Path, base: Paths.Path, owner: Owner, names: seq<string>,
                     decode: Decoder, allRules: seq<Rule>) returns (ownRules: seq<Rule>, allRules': seq<Rule>)
    ensures ownRules == OwnerRules(store.tree, cwd, base, owner, names, decode)
    ensures allRules' == allRules + ownRules
  {
    ownRules, allRules' := [], allRules;
    ghost var t := store.tree;
    for i := 0 to |names|
      invariant Gathered(t, cwd, base, owner, names, i, decode, ownRules)
      invariant allRules' == allRules + ownRules
    {
      var rules := MdcParser.ParseMdcFilesInDirectory(store, cwd, base + [names[i]], TeamOf(owner, names[i]),
                                                      UserOf(owner, names[i]), decode);
      GatherStep(t, cwd, base, owner, names, i, decode, ownRules, rules);
      AppendAssoc(allRules, ownRules, rules);
      ownRules := ownRules + rules;
      allRules' := allRules' + rules;
    }
    GatherDone(t, cwd, base, owner, names, decode, ownRules);
  }

  /** The owner loop's state: `ownRules` holds the rules of the first `i` owners. */
  ghost predicate Gathered(t: Tree, cwd: Paths.Path, base: Paths.Path, owner: Owner, names: seq<string>, i: nat,
                           decode: Decoder, ownRules: seq<Rule>)
  {
    i <= |names| && ownRules == OwnerRules(t, cwd, base, owner, names[..i], decode)
  }

  lemma GatherStep(t: Tree, cwd: Paths.Path, base: Paths.Path, owner: Owner, names: seq<string>, i: nat,
                   decode: Decoder, ownRules: seq<Rule>, rules: seq<Rule>)
    requires i < |names| && Gathered(t, cwd, base, owner, names, i, decode, ownRules)
    requires rules == MdcParser.DirectoryRules(t, cwd, base + [names[i]], TeamOf(owner, names[i]), UserOf(owner, names[i]), decode)
    ensures Gathered(t, cwd, base, owner, names, i + 1, decode, ownRules + rules)
  {
    OwnerRulesSnoc(t, cwd, base, owner, names, i, decode);
  }

  lemma GatherDone(t: Tree, cwd: Paths.Path, base: Paths.Path, owner: Owner, names: seq<string>,
                   decode: Decoder, ownRules: seq<Rule>)
    requires Gathered(t, cwd, base, owner, names, |names|, decode, ownRules)
    ensures ownRules == OwnerRules(t, cwd, base, owner, names, decode)
  {
    assert names[..|names|] == names;
  }

  /** The loop setting `rule.tags` from the metadata, rule by rule. */
  method OverlayTags(rules: seq<Rule>, meta: MetadataService.Meta) returns (tagged: seq<Rule>)
    ensures tagged == Overlay(rules, meta)
  {
    tagged := rules;
    for i := 0 to |rules|
      invariant TaggedUpTo(tagged, rules, i, meta)
    {
      var rule := tagged[i];
      var entry := Json.Lookup(meta, rule.id);
      if entry.Some? {
        var tags := Json.Get(entry.value, "tags");
        if tags.Some? && tags.value.JArr? {
          rule := rule.(tags := Some(tags.value.items));
        }
      }
      TagStep(tagged, rules, i, meta, rule);
      tagged := tagged[i := rule];
    }
    TagDone(tagged, rules, meta);
  }

  /** The overlay loop's state: the first `i` rules are tagged, the rest untouched. */
  ghost predicate TaggedUpTo(rules: seq<Rule>, found: seq<Rule>, i: nat, meta: MetadataService.Meta) {
    && |rules| == |found| && i <= |found|
    && (forall k :: 0 <= k < i ==> rules[k] == Tagged(found[k], meta))
    && (forall k :: i <= k < |found| ==> rules[k] == found[k])
  }

  lemma TagStep(rules: seq<Rule>, found: seq<Rule>, i: nat, meta: MetadataService.Meta, x: Rule)
    requires TaggedUpTo(rules, found, i, meta) && i < |found|
    requires x == Tagged(rules[i], meta)
    ensures TaggedUpTo(rules[i := x], found, i + 1, meta)
  {
  }

  lemma TagDone(rules: seq<Rule>, found: seq<Rule>, meta: MetadataService.Meta)
    requires TaggedUpTo(rules, found, |found|, meta)
    ensures rules == Overlay(found, meta)
  {
  }

  /** Discovery fails exactly without a workspace or when the registry cannot be listed. */
  lemma DiscoverFails(t: Tree, root: Option<Paths.Path>, dirName: string, cwd: Paths.Path, decode: Decoder)
    ensures DiscoverOutcome(t, root, dirName, cwd, decode).Err? <==>
      root.None? || FileUtils.ScanRegistryDirectories(t, root.value, dirName).Err?
    ensures root.None? ==> DiscoverOutcome(t, root, dirName, cwd, decode) == Err(NoWorkspace)
  {
  }

  /**
   * All the rules are the team rules followed by the user rules, and the teams and users are
   * the scanned directory names.
   */
  lemma DiscoverPartition(t: Tree, root: Option<Paths.Path>, dirName: string, cwd: Paths.Path, decode: Decoder)
    requires DiscoverOutcome(t, root, dirName, cwd, decode).Ok?
    ensures var d := DiscoverOutcome(t, root, dirName, cwd, decode).value;
      var reg := FileUtils.ScanRegistryDirectories(t, root.value, dirName).value;
      && d.allRules == d.teamRules + d.userRules
      && d.teams == reg.teams && d.users == reg.users
  {
    var reg := FileUtils.ScanRegistryDirectories(t, root.value, dirName).value;
    var meta := MetadataService.Load(t, root, dirName);
    OverlayAppend(OwnerRules(t, cwd, FileUtils.TeamsPath(root.value, dirName), TeamOwner, reg.teams, decode),
                  OwnerRules(t, cwd, FileUtils.UsersPath(root.value, dirName), UserOwner, reg.users, decode), meta);
  }

  /**
   * Every rule of an owner list comes from one of the owners' directories, is owned by that
   * owner alone, and has no tags yet.
   */
  lemma {:induction false} OwnerRulesSound(t: Tree, cwd: Paths.Path, base: Paths.Path, owner: Owner,
                                           names: seq<string>, decode: Decoder)
    ensures forall r :: r in OwnerRules(t, cwd, base, owner, names, decode) ==>
      exists n :: n in names && r.team == TeamOf(owner, n) && r.user == UserOf(owner, n)
        && FileUtils.MdcFileBelow(t, base + [n], r.filePath) && r.tags.None?
  {
    if names != [] {
      var init, n := names[..|names| - 1], names[|names| - 1];
      OwnerRulesSound(t, cwd, base, owner, init, decode);
      NamedRulesSound(t, cwd, base, owner, n, decode);
    }
  }

  lemma NamedRulesSound(t: Tree, cwd: Paths.Path, base: Paths.Path, owner: Owner, n: string, decode: Decoder)
    ensures forall r :: r in NamedRules(t, cwd, base, owner, n, decode) ==>
      r.team == TeamOf(owner, n) && r.user == UserOf(owner, n)
        && FileUtils.MdcFileBelow(t, base + [n], r.filePath) && r.tags.None?
  {
    var dir := base + [n];
    if IsDir(t, dir) {
      var files := FileUtils.MdcFiles(t, dir);
      MdcParser.RulesOfSound(t, cwd, files, TeamOf(owner, n), UserOf(owner, n), decode);
      forall r | r in NamedRules(t, cwd, base, owner, n, decode)
        ensures FileUtils.MdcFileBelow(t, dir, r.filePath)
      {
        var i :| 0 <= i < |files| && files[i] == r.filePath;
      }
    }
  }

  /** Every accepted `.mdc` file of an owner's directory gives a rule of that owner. */
  lemma {:induction false} OwnerRulesComplete(t: Tree, cwd: Paths.Path, base: Paths.Path, owner: Owner,
                                              names: seq<string>, n: string, f: Paths.Path, decode: Decoder)
    requires n in names && IsDir(t, base + [n]) && f in FileUtils.MdcFiles(t, base + [n])
    requires MdcParser.Accepted(t, f, decode)
    ensures exists r :: r in OwnerRules(t, cwd, base, owner, names, decode) && r.filePath == f
                        && r.team == TeamOf(owner, n) && r.user == UserOf(owner, n)
  {
    var init, last := names[..|names| - 1], names[|names| - 1];
    var prev := OwnerRules(t, cwd, base, owner, init, decode);
    var here := NamedRules(t, cwd, base, owner, last, decode);
    assert OwnerRules(t, cwd, base, owner, names, decode) == prev + here;
    var i :| 0 <= i < |names| && names[i] == n;
    if i < |names| - 1 {
      assert init[i] == n;
      OwnerRulesComplete(t, cwd, base, owner, init, n, f, decode);
      var r :| r in prev && r.filePath == f && r.team == TeamOf(owner, n) && r.user == UserOf(owner, n);
      assert r in prev + here;
    } else {
      NamedRulesComplete(t, cwd, base, owner, n, f, decode);
      var r :| r in here && r.filePath == f && r.team == TeamOf(owner, n) && r.user == UserOf(owner, n);
      assert r in prev + here;
    }
  }

  lemma NamedRulesComplete(t: Tree, cwd: Paths.Path, base: Paths.Path, owner: Owner, n: string,
                           f: Paths.Path, decode: Decoder)
    requires IsDir(t, base + [n]) && f in FileUtils.MdcFiles(t, base + [n]) && MdcParser.Accepted(t, f, decode)
    ensures exists r :: r in NamedRules(t, cwd, base, owner, n, decode) && r.filePath == f
                        && r.team == TeamOf(owner, n) && r.user == UserOf(owner, n)
  {
    var files := FileUtils.MdcFiles(t, base + [n]);
    MdcParser.RulesOfComplete(t, cwd, files, TeamOf(owner, n), UserOf(owner, n), decode);
    MdcParser.RulesOfSound(t, cwd, files, TeamOf(owner, n), UserOf(owner, n), decode);
  }

  /**
   * A team rule belongs to a scanned team and to no user, and lies in that team's directory;
   * a user rule belongs to a scanned user and to no team, and lies in that user's directory.
   */
  lemma DiscoverOwners(t: Tree, root: Option<Paths.Path>, dirName: string, cwd: Paths.Path, decode: Decoder)
    requires DiscoverOutcome(t, root, dirName, cwd, decode).Ok?
    ensures var d := DiscoverOutcome(t, root, dirName, cwd, decode).value;
      && (forall r :: r in d.teamRules ==>
            r.team.Some? && r.team.value in d.teams && r.user.None?
            && FileUtils.MdcFileBelow(t, FileUtils.TeamsPath(root.value, dirName) + [r.team.value], r.filePath))
      && (forall r :: r in d.userRules ==>
            r.user.Some? && r.user.value in d.users && r.team.None?
            && FileUtils.MdcFileBelow(t, FileUtils.UsersPath(root.value, dirName) + [r.user.value], r.filePath))
  {
    DiscoverShape(t, root, dirName, cwd, decode);
    var reg := FileUtils.ScanRegistryDirectories(t, root.value, dirName).value;
    var meta := MetadataService.Load(t, root, dirName);
    var teamsDir, usersDir := FileUtils.TeamsPath(root.value, dirName), FileUtils.UsersPath(root.value, dirName);
    var teamRules, userRules := TeamRulesOf(t, root.value, dirName, cwd, reg, decode), UserRulesOf(t, root.value, dirName, cwd, reg, decode);
    OwnerRulesSound(t, cwd, teamsDir, TeamOwner, reg.teams, decode);
    OwnerRulesSound(t, cwd, usersDir, UserOwner, reg.users, decode);
    OverlaidSound(teamRules, meta);
    OverlaidSound(userRules, meta);
  }

  /** An overlaid rule is one of the rules with its tags replaced at most. */
  lemma OverlaidSound(rules: seq<Rule>, meta: MetadataService.Meta)
    ensures forall r :: r in Overlay(rules, meta) ==>
      exists x :: x in rules && r == Tagged(x, meta) && r.(tags := x.tags) == x
  {
    forall r | r in Overlay(rules, meta)
      ensures exists x :: x in rules && r == Tagged(x, meta) && r.(tags := x.tags) == x
    {
      var i :| 0 <= i < |rules| && Overlay(rules, meta)[i] == r;
      TaggedChangesOnlyTags(rules[i], meta);
    }
  }

  /** Every accepted `.mdc` file in a scanned team's directory is discovered as a rule of that team. */
  lemma DiscoverTeamComplete(t: Tree, root: Option<Paths.Path>, dirName: string, cwd: Paths.Path,
                             decode: Decoder, n: string, f: Paths.Path)
    requires DiscoverOutcome(t, root, dirName, cwd, decode).Ok?
    requires n in DiscoverOutcome(t, root, dirName, cwd, decode).value.teams
    requires IsDir(t, FileUtils.TeamsPath(root.value, dirName) + [n])
    requires f in FileUtils.MdcFiles(t, FileUtils.TeamsPath(root.value, dirName) + [n]) && MdcParser.Accepted(t, f, decode)
    ensures exists r :: r in DiscoverOutcome(t, root, dirName, cwd, decode).value.teamRules
                        && r.filePath == f && r.team == Some(n) && r.user.None?
  {
    DiscoverShape(t, root, dirName, cwd, decode);
    var reg := FileUtils.ScanRegistryDirectories(t, root.value, dirName).value;
    var rules := TeamRulesOf(t, root.value, dirName, cwd, reg, decode);
    OwnerRulesComplete(t, cwd, FileUtils.TeamsPath(root.value, dirName), TeamOwner, reg.teams, n, f, decode);
    var x :| x in rules && x.filePath == f && x.team == Some(n) && x.user.None?;
    OverlaidMember(rules, MetadataService.Load(t, root, dirName), x);
  }

  /** Every accepted `.mdc` file in a scanned user's directory is discovered as a rule of that user. */
  lemma DiscoverUserComplete(t: Tree, root: Option<Paths.Path>, dirName: string, cwd: Paths.Path,
                             decode: Decoder, n: string, f: Paths.Path)
    requires DiscoverOutcome(t, root, dirName, cwd, decode).Ok?
    requires n in DiscoverOutcome(t, root, dirName, cwd, decode).value.users
    requires IsDir(t, FileUtils.UsersPath(root.value, dirName) + [n])
    requires f in FileUtils.MdcFiles(t, FileUtils.UsersPath(root.value, dirName) + [n]) && MdcParser.Accepted(t, f, decode)
    ensures exists r :: r in DiscoverOutcome(t, root, dirName, cwd, decode).value.userRules
                        && r.filePath == f && r.user == Some(n) && r.team.None?
  {
    DiscoverShape(t, root, dirName, cwd, decode);
    var reg := FileUtils.ScanRegistryDirectories(t, root.value, dirName).value;
    var rules := UserRulesOf(t, root.value, dirName, cwd, reg, decode);
    OwnerRulesComplete(t, cwd, FileUtils.UsersPath(root.value, dirName), UserOwner, reg.users, n, f, decode);
    var x :| x in rules && x.filePath == f && x.user == Some(n) && x.team.None?;
    OverlaidMember(rules, MetadataService.Load(t, root, dirName), x);
  }

  /** A rule's overlaid form is among the overlaid rules and differs from it in the tags at most. */
  lemma OverlaidMember(rules: seq<Rule>, meta: MetadataService.Meta, x: Rule)
    requires x in rules
    ensures Tagged(x, meta) in Overlay(rules, meta) && Tagged(x, meta).(tags := x.tags) == x
  {
    var i :| 0 <= i < |rules| && rules[i] == x;
    assert Overlay(rules, meta)[i] == Tagged(x, meta);
  }

  /**
   * A discovered rule's tags are exactly the array the metadata store holds for its ID under
   * `tags`, and none when the store has no such array.
   */
  lemma DiscoverTags(t: Tree, root: Option<Paths.Path>, dirName: string, cwd: Paths.Path, decode: Decoder)
    requires DiscoverOutcome(t, root, dirName, cwd, decode).Ok?
    ensures var d := DiscoverOutcome(t, root, dirName, cwd, decode).value;
      forall r :: r in d.allRules ==> r.tags == TagsFor(MetadataService.Load(t, root, dirName), r.id)
  {
    DiscoverShape(t, root, dirName, cwd, decode);
    var reg := FileUtils.ScanRegistryDirectories(t, root.value, dirName).value;
    var meta := MetadataService.Load(t, root, dirName);
    var teamRules, userRules := TeamRulesOf(t, root.value, dirName, cwd, reg, decode), UserRulesOf(t, root.value, dirName, cwd, reg, decode);
    OwnerRulesSound(t, cwd, FileUtils.TeamsPath(root.value, dirName), TeamOwner, reg.teams, decode);
    OwnerRulesSound(t, cwd, FileUtils.UsersPath(root.value, dirName), UserOwner, reg.users, decode);
    UntaggedOverlay(teamRules + userRules, meta);
  }

  /** Laid over rules without tags, the overlay leaves each rule with exactly the metadata's tags. */
  lemma UntaggedOverlay(rules: seq<Rule>, meta: MetadataService.Meta)
    requires forall x :: x in rules ==> x.tags.None?
    ensures forall r :: r in Overlay(rules, meta) ==> r.tags == TagsFor(meta, r.id)
  {
    forall r | r in Overlay(rules, meta) ensures r.tags == TagsFor(meta, r.id) {
      var i :| 0 <= i < |rules| && Overlay(rules, meta)[i] == r;
      TaggedChangesOnlyTags(rules[i], meta);
    }
  }

  /**
   * After `addTagToRule(id, tag)` succeeds, the metadata store hands discovery, for the rule
   * `id`, the tags it had plus the trimmed tag, once each and sorted.
   */
  lemma AddedTagDiscovered(t: Tree, root: Option<Paths.Path>, dirName: string, id: string, tag: string, now: int)
    requires Strings.Trim(tag) != [] && MetadataService.AddTagOutcome(t, root, dirName, id, tag, now).1.Ok?
    requires MetadataService.Storable(MetadataService.Load(t, root, dirName)) && MetadataService.PlainKey(id)
    requires Jsonc.SeparatorFree(Strings.Trim(tag))
    ensures var before := MetadataService.Load(t, root, dirName);
      var after := MetadataService.Load(MetadataService.AddTagOutcome(t, root, dirName, id, tag, now).0, root, dirName);
      TagsFor(after, id)
        == Some(MetadataService.Strs(MetadataService.SortTags(MetadataService.CurrentTags(before, id) + [Strings.Trim(tag)])))
  {
    MetadataService.AddTagThenLoad(t, root, dirName, id, tag, now);
    var before := MetadataService.Load(t, root, dirName);
    var after := MetadataService.Load(MetadataService.AddTagOutcome(t, root, dirName, id, tag, now).0, root, dirName);
    TagsForEntry(after, id, MetadataService.SortTags(MetadataService.CurrentTags(before, id) + [Strings.Trim(tag)]));
  }

  /** The tags the metadata store reads for an entry are the array the overlay sets. */
  lemma TagsForEntry(meta: MetadataService.Meta, id: string, ts: seq<string>)
    requires MetadataService.EntryTags(meta, id) == Some(ts)
    ensures TagsFor(meta, id) == Some(MetadataService.Strs(ts))
  {
    var entry := Json.Lookup(meta, id).value;
    assert MetadataService.TagList(Json.Get(entry, "tags")) == Some(ts);
  }

  // ---------------------------------------------------------------- look-ups

  /** `rules.find(r => r.id === id)`: the first rule with that ID. */
  function FindRule(rules: seq<Rule>, id: string): (r: Option<Rule>)
    ensures r.None? <==> forall i :: 0 <= i < |rules| ==> rules[i].id != id
    ensures r.Some? ==> exists i :: 0 <= i < |rules| && rules[i] == r.value && r.value.id == id
                                    && forall j :: 0 <= j < i ==> rules[j].id != id
  {
    if rules == [] then None
    else if rules[0].id == id then Some(rules[0])
    else
      var r := FindRule(rules[1..], id);
      assert forall i :: 1 <= i < |rules| ==> rules[i] == rules[1..][i - 1];
      if r.Some? then
        var i :| 0 <= i < |rules[1..]| && rules[1..][i] == r.value && r.value.id == id
                 && forall j :: 0 <= j < i ==> rules[1..][j].id != id;
        assert rules[i + 1] == r.value;
        r
      else r
  }

  /** `getRuleById(id)`: the first discovered rule with that ID; nothing when discovery throws. */
  method GetRuleById(store: FileStore, root: Option<Paths.Path>, dirName: string, cwd: Paths.Path,
                     decode: Decoder, id: string) returns (r: Option<Rule>)
    ensures DiscoverOutcome(store.tree, root, dirName, cwd, decode).Err? ==> r.None?
    ensures DiscoverOutcome(store.tree, root, dirName, cwd, decode).Ok? ==>
      r == FindRule(DiscoverOutcome(store.tree, root, dirName, cwd, decode).value.allRules, id)
  {
    var d := DiscoverAllRules(store, root, dirName, cwd, decode);
    if d.Err? {
      return None;
    }
    r := FindRule(d.value.allRules, id);
  }

  /** `getTeamRules(team)`: the rules of one team's directory, without tags. */
  method GetTeamRules(store: FileStore, root: Option<Paths.Path>, dirName: string, cwd: Paths.Path,
                      decode: Decoder, team: string) returns (r: Result<seq<Rule>>)
    ensures root.None? ==> r == Err(NoWorkspace)
    ensures root.Some? ==>
      r == Ok(NamedRules(store.tree, cwd, FileUtils.TeamsPath(root.value, dirName), TeamOwner, team, decode))
  {
    if root.None? {
      return Err(NoWorkspace);
    }
    var dir := FileUtils.TeamsPath(root.value, dirName) + [team];
    var rules := MdcParser.ParseMdcFilesInDirectory(store, cwd, dir, Some(team), None, decode);
    return Ok(rules);
  }

  /** `getUserRules(user)`: the rules of one user's directory, without tags. */
  method GetUserRules(store: FileStore, root: Option<Paths.Path>, dirName: string, cwd: Paths.Path,
                      decode: Decoder, user: string) returns (r: Result<seq<Rule>>)
    ensures root.None? ==> r == Err(NoWorkspace)
    ensures root.Some? ==>
      r == Ok(NamedRules(store.tree, cwd, FileUtils.UsersPath(root.value, dirName), UserOwner, user, decode))
  {
    if root.None? {
      return Err(NoWorkspace);
    }
    var dir := FileUtils.UsersPath(root.value, dirName) + [user];
    var rules := MdcParser.ParseMdcFilesInDirectory(store, cwd, dir, None, Some(user), decode);
    return Ok(rules);
  }

  /**
   * A single team's rules are among the discovered team rules, up to the tags the overlay
   * sets, whenever that team was scanned; likewise for users.
   */
  lemma {:induction false} OwnerRulesContain(t: Tree, cwd: Paths.Path, base: Paths.Path, owner: Owner,
                                             names: seq<string>, n: string, decode: Decoder)
    requires n in names
    ensures forall x :: x in NamedRules(t, cwd, base, owner, n, decode) ==> x in OwnerRules(t, cwd, base, owner, names, decode)
  {
    var init, last := names[..|names| - 1], names[|names| - 1];
    var before := OwnerRules(t, cwd, base, owner, init, decode);
    var mine := NamedRules(t, cwd, base, owner, n, decode);
    assert OwnerRules(t, cwd, base, owner, names, decode) == before + NamedRules(t, cwd, base, owner, last, decode);
    var i :| 0 <= i < |names| && names[i] == n;
    if i < |names| - 1 {
      assert init[i] == n;
      OwnerRulesContain(t, cwd, base, owner, init, n, decode);
      assert forall x :: x in mine ==> x in before;
    }
  }

  lemma SingleTeamDiscovered(t: Tree, root: Option<Paths.Path>, dirName: string, cwd: Paths.Path,
                             decode: Decoder, team: string)
    requires DiscoverOutcome(t, root, dirName, cwd, decode).Ok?
    requires team in DiscoverOutcome(t, root, dirName, cwd, decode).value.teams
    ensures forall x :: x in NamedRules(t, cwd, FileUtils.TeamsPath(root.value, dirName), TeamOwner, team, decode) ==>
      Tagged(x, MetadataService.Load(t, root, dirName)) in DiscoverOutcome(t, root, dirName, cwd, decode).value.teamRules
  {
    var reg := FileUtils.ScanRegistryDirectories(t, root.value, dirName).value;
    var teamsDir := FileUtils.TeamsPath(root.value, dirName);
    var rules := OwnerRules(t, cwd, teamsDir, TeamOwner, reg.teams, decode);
    var meta := MetadataService.Load(t, root, dirName);
    OwnerRulesContain(t, cwd, teamsDir, TeamOwner, reg.teams, team, decode);
    forall x | x in NamedRules(t, cwd, teamsDir, TeamOwner, team, decode) ensures Tagged(x, meta) in Overlay(rules, meta) {
      var i :| 0 <= i < |rules| && rules[i] == x;
      assert Overlay(rules, meta)[i] == Tagged(x, meta);
    }
  }

  lemma SingleUserDiscovered(t: Tree, root: Option<Paths.Path>, dirName: string, cwd: Paths.Path,
                             decode: Decoder, user: string)
    requires DiscoverOutcome(t, root, dirName, cwd, decode).Ok?
    requires user in DiscoverOutcome(t, root, dirName, cwd, decode).value.users
    ensures forall x :: x in NamedRules(t, cwd, FileUtils.UsersPath(root.value, dirName), UserOwner, user, decode) ==>
      Tagged(x, MetadataService.Load(t, root, dirName)) in DiscoverOutcome(t, root, dirName, cwd, decode).value.userRules
  {
    var reg := FileUtils.ScanRegistryDirectories(t, root.value, dirName).value;
    var usersDir := FileUtils.UsersPath(root.value, dirName);
    var rules := OwnerRules(t, cwd, usersDir, UserOwner, reg.users, decode);
    var meta := MetadataService.Load(t, root, dirName);
    OwnerRulesContain(t, cwd, usersDir, UserOwner, reg.users, user, decode);
    forall x | x in NamedRules(t, cwd, usersDir, UserOwner, user, decode) ensures Tagged(x, meta) in Overlay(rules, meta) {
      var i :| 0 <= i < |rules| && rules[i] == x;
      assert Overlay(rules, meta)[i] == Tagged(x, meta);
    }
  }
}
