/**
 * The Go team-directory parser: reads the `components.MemberInfo` and `components.TeamInfo`
 * variable literals of the Go sources under `go/src/samsaradev.io/team` of the workspace,
 * resolves the member variables each team lists, and names the teams whose members include
 * the user's e-mail address. The regular expressions of the parser are modelled as
 * deterministic scanners, one per pattern (`Pattern`), with the leftmost-match search that
 * `String.prototype.match` and a global `RegExp.prototype.exec` loop perform.
 */
module GoTeamParser {
  import opened Wrappers
  import opened Strings
  import opened Paths
  import opened FileSystem
  import FileUtils
  import Sequences

  datatype MemberInfo = MemberInfo(email: string, name: string, githubUsername: Option<string>,
                                   manager: Option<bool>, launchDarklyAccess: Option<bool>)

  datatype TeamInfo = TeamInfo(teamName: string, members: seq<MemberInfo>,
                               slackContactChannel: Option<string>, githubNameOverride: Option<string>)

  /** The parsed teams in file order, and the names of those the user belongs to. */
  datatype ParsedTeamData = ParsedTeamData(teams: seq<TeamInfo>, userTeams: seq<string>)

  const NoTeams: ParsedTeamData := ParsedTeamData([], [])

  /** A non-empty run of `\w` characters. */
  predicate IsWord(w: string) {
    w != [] && forall k :: 0 <= k < |w| ==> IsWordChar(w[k])
  }

  // ---------------------------------------------------------------- patterns

  /**
   * The regular expressions of the parser. A `\s*` or `\w+` run is greedy and what follows it
   * cannot extend it, and `[^c]+c` ends at the first `c`, so each pattern matches at a given
   * index in at most one way and backtracking never finds another.
   */
  datatype Pattern =
    | Quoted(key: string)   // key\s*"([^"]+)"
    | Flag(key: string)     // key\s*(true|false)
    | TeamNameRef           // TeamName:\s*teamnames\.(\w+)
    | MembersList           // Members:\s*\[\]components\.MemberInfo\s*{([^}]+)}
    | MemberVar             // var\s+(\w+)\s*=\s*components\.MemberInfo\s*{([^}]+)}
    | TeamVar               // var\s+(\w+)\s*=\s*components\.TeamInfo\s*{

  /** A match: the index just past it, and its capture groups. */
  datatype Hit = Hit(end: nat, groups: seq<string>)

  function Arity(p: Pattern): nat {
    if p.MemberVar? then 2 else 1
  }

  /** No character of `w` is `c`. */
  predicate Excludes(w: string, c: char) {
    forall k :: 0 <= k < |w| ==> w[k] != c
  }

  /** The index of the first `c` at or after `i`, or `|s|`. */
  function NextIndex(s: string, i: nat, c: char): (r: nat)
    requires i <= |s|
    ensures i <= r <= |s| && (r < |s| ==> s[r] == c)
    ensures forall k :: i <= k < r ==> s[k] != c
    decreases |s| - i
  {
    if i == |s| || s[i] == c then i else NextIndex(s, i + 1, c)
  }

  /** `[^c]+c` from `i`: the index of the first `c` after a non-empty run without one. */
  function UpTo(s: string, i: nat, c: char): (r: Option<nat>)
    requires i <= |s|
    ensures r.Some? ==> i < r.value < |s| && s[r.value] == c && Excludes(s[i..r.value], c)
  {
    var k := NextIndex(s, i, c);
    if i < k < |s| then Some(k) else None
  }

  /**
   * `var\s+(\w+)\s*=\s*` followed by `t` and `\s*{` at `i`: the bounds of the variable name
   * and the index of the opening brace.
   */
  function VarHead(s: string, i: nat, t: string): (r: Option<(nat, nat, nat)>)
    requires i <= |s|
    ensures r.Some? ==> i < r.value.0 < r.value.1 < r.value.2 < |s| && s[r.value.2] == '{'
    ensures r.Some? ==> IsWord(s[r.value.0..r.value.1])
  {
    if !OccursAt(s, "var", i) then None
    else
      var j := SkipSpaces(s, i + 3);
      if j == i + 3 then None
      else
        var w := WordEnd(s, j);
        if w == j then None
        else
          var e := SkipSpaces(s, w);
          if e == |s| || s[e] != '=' then None
          else
            var f := SkipSpaces(s, e + 1);
            if !OccursAt(s, t, f) then None
            else
              var g := SkipSpaces(s, f + |t|);
              if g == |s| || s[g] != '{' then None else Some((j, w, g))
  }

  /** What the groups of a match of `p` look like. */
  predicate Shaped(p: Pattern, groups: seq<string>) {
    |groups| == Arity(p) &&
    match p
    case Quoted(_) => groups[0] != [] && Excludes(groups[0], '"')
    case Flag(_) => groups[0] == "true" || groups[0] == "false"
    case TeamNameRef => IsWord(groups[0])
    case MembersList => groups[0] != [] && Excludes(groups[0], '}')
    case MemberVar => IsWord(groups[0]) && groups[1] != [] && Excludes(groups[1], '}')
    case TeamVar => IsWord(groups[0])
  }

  /** `key\s*"([^"]+)"` at `i`. */
  function MatchQuoted(s: string, i: nat, key: string): (r: Option<Hit>)
    requires i <= |s|
    ensures r.Some? ==> i < r.value.end <= |s| && Shaped(Quoted(key), r.value.groups)
  {
    if !OccursAt(s, key, i) then None
    else
      var j := SkipSpaces(s, i + |key|);
      if j == |s| || s[j] != '"' then None
      else
        match UpTo(s, j + 1, '"')
        case None => None
        case Some(k) => Some(Hit(k + 1, [s[j + 1..k]]))
  }

  /** `key\s*(true|false)` at `i`. */
  function MatchFlag(s: string, i: nat, key: string): (r: Option<Hit>)
    requires i <= |s|
    ensures r.Some? ==> i < r.value.end <= |s| && Shaped(Flag(key), r.value.groups)
  {
    if !OccursAt(s, key, i) then None
    else
      var j := SkipSpaces(s, i + |key|);
      if OccursAt(s, "true", j) then Some(Hit(j + 4, ["true"]))
      else if OccursAt(s, "false", j) then Some(Hit(j + 5, ["false"]))
      else None
  }

  /** `TeamName:\s*teamnames\.(\w+)` at `i`. */
  function MatchTeamName(s: string, i: nat): (r: Option<Hit>)
    requires i <= |s|
    ensures r.Some? ==> i < r.value.end <= |s| && Shaped(TeamNameRef, r.value.groups)
  {
    if !OccursAt(s, "TeamName:", i) then None
    else
      var j := SkipSpaces(s, i + 9);
      if !OccursAt(s, "teamnames.", j) then None
      else
        var w := WordEnd(s, j + 10);
        if w == j + 10 then None else Some(Hit(w, [s[j + 10..w]]))
  }

  /** `Members:\s*\[\]components\.MemberInfo\s*{([^}]+)}` at `i`. */
  function MatchMembersList(s: string, i: nat): (r: Option<Hit>)
    requires i <= |s|
    ensures r.Some? ==> i < r.value.end <= |s| && Shaped(MembersList, r.value.groups)
  {
    if !OccursAt(s, "Members:", i) then None
    else
      var j := SkipSpaces(s, i + 8);
      if !OccursAt(s, "[]components.MemberInfo", j) then None
      else
        var g := SkipSpaces(s, j + 23);
        if g == |s| || s[g] != '{' then None
        else
          match UpTo(s, g + 1, '}')
          case None => None
          case Some(k) => Some(Hit(k + 1, [s[g + 1..k]]))
  }

  /** `var\s+(\w+)\s*=\s*components\.MemberInfo\s*{([^}]+)}` at `i`. */
  function MatchMemberVar(s: string, i: nat): (r: Option<Hit>)
    requires i <= |s|
    ensures r.Some? ==> i < r.value.end <= |s| && Shaped(MemberVar, r.value.groups)
  {
    match VarHead(s, i, "components.MemberInfo")
    case None => None
    case Some((j, w, g)) =>
      match UpTo(s, g + 1, '}')
      case None => None
      case Some(k) => Some(Hit(k + 1, [s[j..w], s[g + 1..k]]))
  }

  /** `var\s+(\w+)\s*=\s*components\.TeamInfo\s*{` at `i`. */
  function MatchTeamVar(s: string, i: nat): (r: Option<Hit>)
    requires i <= |s|
    ensures r.Some? ==> i < r.value.end <= |s| && Shaped(TeamVar, r.value.groups)
  {
    match VarHead(s, i, "components.TeamInfo")
    case None => None
    case Some((j, w, g)) => Some(Hit(g + 1, [s[j..w]]))
  }

  /** What the first group of a match of `p` looks like. */
  predicate FirstShaped(p: Pattern, g: string) {
    match p
    case Quoted(_) => g != [] && Excludes(g, '"')
    case Flag(_) => g == "true" || g == "false"
    case MembersList => g != [] && Excludes(g, '}')
    case _ => IsWord(g)
  }

  /** The match of `p` at index `i` of `s`, if any. */
  function MatchAt(p: Pattern, s: string, i: nat): (r: Option<Hit>)
    requires i <= |s|
    ensures r.Some? ==> i < r.value.end <= |s| && Shaped(p, r.value.groups)
  {
    match p
    case Quoted(key) => MatchQuoted(s, i, key)
    case Flag(key) => MatchFlag(s, i, key)
    case TeamNameRef => MatchTeamName(s, i)
    case MembersList => MatchMembersList(s, i)
    case MemberVar => MatchMemberVar(s, i)
    case TeamVar => MatchTeamVar(s, i)
  }

  /** The first index from `from` through `last` at which `probe` finds something, with what it found. */
  function FirstHit(probe: nat -> Option<Hit>, last: nat, from: nat): (r: Option<(nat, Hit)>)
    ensures r.Some? ==> from <= r.value.0 <= last && probe(r.value.0) == Some(r.value.1)
    decreases last + 1 - from
  {
    if from > last then None
    else match probe(from) case Some(h) => Some((from, h)) case None => FirstHit(probe, last, from + 1)
  }

  /** `FirstHit` finds nothing only when the probe finds nothing anywhere in the range. */
  lemma {:induction false} FirstHitNone(probe: nat -> Option<Hit>, last: nat, from: nat)
    requires FirstHit(probe, last, from).None?
    ensures forall k :: from <= k <= last ==> probe(k).None?
    decreases last + 1 - from
  {
    if from <= last {
      FirstHitNone(probe, last, from + 1);
    }
  }

  /** `FirstHit` finds the first index at which the probe finds something. */
  lemma {:induction false} FirstHitLeftmost(probe: nat -> Option<Hit>, last: nat, from: nat, k: nat)
    requires FirstHit(probe, last, from).Some? && from <= k < FirstHit(probe, last, from).value.0
    ensures probe(k).None?
    decreases last + 1 - from
  {
    if k > from {
      FirstHitLeftmost(probe, last, from + 1, k);
    }
  }

  /** Trying `p` at an index of `s`; past the end nothing matches. */
  function Probe(p: Pattern, s: string): nat -> Option<Hit> {
    (i: nat) => if i <= |s| then MatchAt(p, s, i) else None
  }

  /** The leftmost match of `p` at or after `from`: the search of `match` and of `exec`. */
  function Search(p: Pattern, s: string, from: nat): (r: Option<(nat, Hit)>)
    ensures r.Some? ==> from <= r.value.0 <= |s| && MatchAt(p, s, r.value.0) == Some(r.value.1)
  {
    FirstHit(Probe(p, s), |s|, from)
  }

  /** The search finds none only when there is none. */
  lemma SearchNone(p: Pattern, s: string, from: nat)
    requires Search(p, s, from).None?
    ensures forall k :: from <= k <= |s| ==> MatchAt(p, s, k).None?
  {
    FirstHitNone(Probe(p, s), |s|, from);
    forall k | from <= k <= |s| ensures MatchAt(p, s, k).None? {
      assert Probe(p, s)(k) == MatchAt(p, s, k);
    }
  }

  /** The search finds the leftmost match. */
  lemma SearchLeftmost(p: Pattern, s: string, from: nat, k: nat)
    requires Search(p, s, from).Some? && from <= k < Search(p, s, from).value.0
    ensures MatchAt(p, s, k).None?
  {
    FirstHitLeftmost(Probe(p, s), |s|, from, k);
    assert Probe(p, s)(k) == MatchAt(p, s, k);
  }

  /** `s.match(p)[1]` for a pattern without the `g` flag: the first group of the leftmost match. */
  function Capture(p: Pattern, s: string): (r: Option<string>)
    ensures r.Some? ==> FirstShaped(p, r.value)
  {
    match Search(p, s, 0) case None => None case Some((_, h)) => Some(h.groups[0])
  }

  /** A capture is found exactly when the pattern matches somewhere, and it is the group of the leftmost match. */
  lemma CaptureFound(p: Pattern, s: string)
    ensures Capture(p, s).Some? <==> exists i :: 0 <= i <= |s| && MatchAt(p, s, i).Some?
    ensures Capture(p, s).Some? ==>
      exists i ::
        && 0 <= i <= |s| && MatchAt(p, s, i).Some?
        && MatchAt(p, s, i).value.groups[0] == Capture(p, s).value
        && forall k :: 0 <= k < i ==> MatchAt(p, s, k).None?
  {
    if Search(p, s, 0).None? {
      SearchNone(p, s, 0);
    } else {
      forall k | 0 <= k < Search(p, s, 0).value.0 ensures MatchAt(p, s, k).None? {
        SearchLeftmost(p, s, 0, k);
      }
    }
  }

  // ---------------------------------------------------------------- struct literals

  /** `m[1] === 'true'` of an optional `(true|false)` capture. */
  function FlagValue(c: Option<string>): Option<bool> {
    match c case None => None case Some(w) => Some(w == "true")
  }

  /**
   * `parseMemberInfoStruct(data)`: a member needs both a quoted `Name:` and a quoted `Email:`
   * field; `GithubUsername:`, `Manager:` and `LaunchDarklyAccess:` are taken when present.
   */
  function ParseMemberInfoStruct(data: string): (r: Option<MemberInfo>)
    ensures r.Some? ==> r.value.name != [] && Excludes(r.value.name, '"') && r.value.email != [] && Excludes(r.value.email, '"')
  {
    match (Capture(Quoted("Name:"), data), Capture(Quoted("Email:"), data))
    case (Some(name), Some(email)) =>
      Some(MemberInfo(email, name, Capture(Quoted("GithubUsername:"), data),
                      FlagValue(Capture(Flag("Manager:"), data)),
                      FlagValue(Capture(Flag("LaunchDarklyAccess:"), data))))
    case _ => None
  }

  /** A member is parsed exactly when the literal has a quoted `Name:` field and a quoted `Email:` field. */
  lemma MemberNeedsNameAndEmail(data: string)
    ensures ParseMemberInfoStruct(data).Some? <==>
      (exists i :: 0 <= i <= |data| && MatchAt(Quoted("Name:"), data, i).Some?) &&
      (exists i :: 0 <= i <= |data| && MatchAt(Quoted("Email:"), data, i).Some?)
  {
    CaptureFound(Quoted("Name:"), data);
    CaptureFound(Quoted("Email:"), data);
  }

  /**
   * The optional fields of a parsed member: each is set exactly when its pattern matches
   * somewhere in the literal, and a flag is true exactly when the first match reads `true`.
   */
  lemma MemberOptionalFields(data: string)
    requires ParseMemberInfoStruct(data).Some?
    ensures var m := ParseMemberInfoStruct(data).value;
      && (m.githubUsername.Some? <==> exists i :: 0 <= i <= |data| && MatchAt(Quoted("GithubUsername:"), data, i).Some?)
      && (m.manager.Some? <==> exists i :: 0 <= i <= |data| && MatchAt(Flag("Manager:"), data, i).Some?)
      && (m.launchDarklyAccess.Some? <==> exists i :: 0 <= i <= |data| && MatchAt(Flag("LaunchDarklyAccess:"), data, i).Some?)
      && (m.manager == Some(true) <==> Capture(Flag("Manager:"), data) == Some("true"))
      && (m.manager == Some(false) <==> Capture(Flag("Manager:"), data) == Some("false"))
      && (m.launchDarklyAccess == Some(true) <==> Capture(Flag("LaunchDarklyAccess:"), data) == Some("true"))
      && (m.launchDarklyAccess == Some(false) <==> Capture(Flag("LaunchDarklyAccess:"), data) == Some("false"))
  {
    CaptureFound(Quoted("GithubUsername:"), data);
    CaptureFound(Flag("Manager:"), data);
    CaptureFound(Flag("LaunchDarklyAccess:"), data);
  }

  /** Go keywords and the package name that the member list never resolves. */
  const SkipWords: seq<string> :=
    ["var", "const", "type", "func", "package", "import", "return", "if", "else", "for", "range", "components"]

  /** `text.split(',').map(ref => ref.trim())`. */
  function References(text: string): seq<string> {
    var pieces := Split(text, ',');
    seq(|pieces|, k requires 0 <= k < |pieces| => Trim(pieces[k]))
  }

  /** A reference that names a known member: not empty, no skip word, and defined. */
  predicate Resolvable(ref: string, mm: map<string, MemberInfo>) {
    ref != "" && ref !in SkipWords && ref in mm
  }

  /** The members the references name, in order; the others are passed over. */
  function Resolve(refs: seq<string>, mm: map<string, MemberInfo>): (r: seq<MemberInfo>)
    ensures |r| <= |refs|
  {
    if refs == [] then []
    else
      var last := refs[|refs| - 1];
      Resolve(refs[..|refs| - 1], mm) + (if Resolvable(last, mm) then [mm[last]] else [])
  }

  /** `parseMemberReferences(text, memberMap)`. */
  method ParseMemberReferences(text: string, mm: map<string, MemberInfo>) returns (members: seq<MemberInfo>)
    ensures members == Resolve(References(text), mm)
  {
    members := ResolveReferences(References(text), mm);
  }

  /** The loop of `parseMemberReferences` over the trimmed references. */
  method ResolveReferences(refs: seq<string>, mm: map<string, MemberInfo>) returns (members: seq<MemberInfo>)
    ensures members == Resolve(refs, mm)
  {
    members := [];
    var i := 0;
    while i < |refs|
      invariant 0 <= i <= |refs|
      invariant members == Resolve(refs[..i], mm)
    {
      var name := refs[i];
      ResolveStep(refs, i, mm);
      if name != "" && name !in SkipWords && name in mm {
        members := members + [mm[name]];
      } else {
        Sequences.AppendEmpty(members);
      }
      i := i + 1;
    }
    Sequences.TakeAll(refs);
  }

  /** One more reference adds its member when it resolves. */
  lemma ResolveStep(refs: seq<string>, i: nat, mm: map<string, MemberInfo>)
    requires i < |refs|
    ensures Resolve(refs[..i + 1], mm) == Resolve(refs[..i], mm) + (if Resolvable(refs[i], mm) then [mm[refs[i]]] else [])
  {
    assert refs[..i + 1][..i] == refs[..i];
  }

  /**
   * `parseTeamInfoStruct(data, memberMap)`: a team needs a `TeamName: teamnames.X` field and a
   * `Members: []components.MemberInfo{...}` list; its members are the resolved references of
   * that list, and the Slack channel and GitHub override are taken when present.
   */
  function ParseTeamInfoStruct(data: string, mm: map<string, MemberInfo>): (r: Option<TeamInfo>)
    ensures r.Some? ==> IsWord(r.value.teamName)
    ensures r.Some? ==> forall m :: m in r.value.members ==> m in mm.Values
  {
    match (Capture(TeamNameRef, data), Capture(MembersList, data))
    case (Some(teamName), Some(membersText)) =>
      var members := Resolve(References(membersText), mm);
      ResolvedDefined(References(membersText), mm);
      Some(TeamInfo(teamName, members, Capture(Quoted("SlackContactChannel:"), data),
                    Capture(Quoted("GithubNameOverride:"), data)))
    case _ => None
  }

  /** A team is parsed exactly when the literal has a `TeamName:` reference and a `Members:` list. */
  lemma TeamNeedsNameAndMembers(data: string, mm: map<string, MemberInfo>)
    ensures ParseTeamInfoStruct(data, mm).Some? <==>
      (exists i :: 0 <= i <= |data| && MatchAt(TeamNameRef, data, i).Some?) &&
      (exists i :: 0 <= i <= |data| && MatchAt(MembersList, data, i).Some?)
  {
    CaptureFound(TeamNameRef, data);
    CaptureFound(MembersList, data);
  }

  /** The optional fields of a parsed team are set exactly when their patterns match somewhere in the literal. */
  lemma TeamOptionalFields(data: string, mm: map<string, MemberInfo>)
    requires ParseTeamInfoStruct(data, mm).Some?
    ensures var t := ParseTeamInfoStruct(data, mm).value;
      && (t.slackContactChannel.Some? <==>
            exists i :: 0 <= i <= |data| && MatchAt(Quoted("SlackContactChannel:"), data, i).Some?)
      && (t.githubNameOverride.Some? <==>
            exists i :: 0 <= i <= |data| && MatchAt(Quoted("GithubNameOverride:"), data, i).Some?)
  {
    CaptureFound(Quoted("SlackContactChannel:"), data);
    CaptureFound(Quoted("GithubNameOverride:"), data);
  }

  // ---------------------------------------------------------------- resolving member lists

  /** Every resolved member is a defined member. */
  lemma {:induction false} ResolvedDefined(refs: seq<string>, mm: map<string, MemberInfo>)
    ensures forall m :: m in Resolve(refs, mm) ==> m in mm.Values
  {
    if refs != [] {
      ResolvedDefined(refs[..|refs| - 1], mm);
    }
  }

  /** A member is resolved exactly when some reference names it and is resolvable. */
  lemma {:induction false} ResolveIff(refs: seq<string>, mm: map<string, MemberInfo>, m: MemberInfo)
    ensures m in Resolve(refs, mm) <==> exists k :: 0 <= k < |refs| && Resolvable(refs[k], mm) && mm[refs[k]] == m
  {
    if refs != [] {
      var init := refs[..|refs| - 1];
      ResolveIff(init, mm, m);
      assert forall k :: 0 <= k < |init| ==> init[k] == refs[k];
    }
  }

  lemma {:induction false} ResolveAppend(a: seq<string>, b: seq<string>, mm: map<string, MemberInfo>)
    ensures Resolve(a + b, mm) == Resolve(a, mm) + Resolve(b, mm)
    decreases |b|
  {
    if b == [] {
      assert a + b == a;
    } else {
      var init := b[..|b| - 1];
      assert (a + b)[..|a + b| - 1] == a + init;
      ResolveAppend(a, init, mm);
    }
  }

  /** The `Members` list as gofmt lays it out: one indented name per line, each followed by a comma. */
  function MemberListText(names: seq<string>): string {
    Strings.Join(MemberLines(names), ",")
  }

  function MemberLines(names: seq<string>): (r: seq<string>)
    ensures |r| == |names| + 1 && r[|names|] == "\n\t"
    ensures forall k :: 0 <= k < |names| ==> r[k] == "\n\t\t" + names[k]
  {
    seq(|names|, k requires 0 <= k < |names| => "\n\t\t" + names[k]) + ["\n\t"]
  }

  /** The members `names` stand for. */
  function Lookups(names: seq<string>, mm: map<string, MemberInfo>): (r: seq<MemberInfo>)
    requires forall k :: 0 <= k < |names| ==> names[k] in mm
    ensures |r| == |names| && forall k :: 0 <= k < |names| ==> r[k] == mm[names[k]]
  {
    seq(|names|, k requires 0 <= k < |names| && names[k] in mm => mm[names[k]])
  }

  /** Splitting the list at its commas and trimming the pieces gives the names and a blank last piece. */
  lemma MemberListReferences(names: seq<string>)
    requires forall k :: 0 <= k < |names| ==> IsWord(names[k])
    ensures References(MemberListText(names)) == names + [""]
  {
    var lines := MemberLines(names);
    forall k | 0 <= k < |lines| ensures ',' !in lines[k] {
      if k < |names| {
        assert forall j :: 0 <= j < |names[k]| ==> IsWordChar(names[k][j]);
        assert forall j :: 0 <= j < |lines[k]| ==> lines[k][j] != ',';
      } else {
        assert lines[k] == "\n\t";
      }
    }
    SplitJoin(lines, ',');
    var refs := References(MemberListText(names));
    forall k | 0 <= k < |names| ensures refs[k] == names[k] {
      TrimIndented("\n\t\t", names[k]);
    }
    assert refs[|names|] == "" by {
      assert TrimStart("\n\t") == [];
    }
  }

  /** Listing defined member variables one per line resolves exactly those members, in order. */
  lemma MemberListRoundTrip(names: seq<string>, mm: map<string, MemberInfo>)
    requires forall k :: 0 <= k < |names| ==> IsWord(names[k]) && Resolvable(names[k], mm)
    ensures forall k :: 0 <= k < |names| ==> names[k] in mm
    ensures Resolve(References(MemberListText(names)), mm) == Lookups(names, mm)
  {
    MemberListReferences(names);
    ResolveAppend(names, [""], mm);
    assert Resolve([""], mm) == [] by {
      assert [""][..0] == [];
    }
    ResolveAll(names, mm);
  }

  /** References that are all resolvable resolve one for one. */
  lemma {:induction false} ResolveAll(names: seq<string>, mm: map<string, MemberInfo>)
    requires forall k :: 0 <= k < |names| ==> Resolvable(names[k], mm)
    ensures forall k :: 0 <= k < |names| ==> names[k] in mm
    ensures Resolve(names, mm) == Lookups(names, mm)
  {
    if names != [] {
      ResolveAll(names[..|names| - 1], mm);
    }
  }

  /** Trimming removes leading white space from a word. */
  lemma TrimIndented(pad: string, w: string)
    requires forall k :: 0 <= k < |pad| ==> IsSpace(pad[k])
    requires IsWord(w)
    ensures Trim(pad + w) == w
  {
    assert !IsSpace(w[0]) && !IsSpace(w[|w| - 1]) by {
      assert IsWordChar(w[0]) && IsWordChar(w[|w| - 1]);
    }
    TrimStartPad(pad, w);
    TrimNoop(w);
  }

  lemma {:induction false} TrimStartPad(pad: string, w: string)
    requires forall k :: 0 <= k < |pad| ==> IsSpace(pad[k])
    requires w != [] && !IsSpace(w[0])
    ensures TrimStart(pad + w) == w
  {
    if pad != [] {
      assert (pad + w)[1..] == pad[1..] + w;
      TrimStartPad(pad[1..], w);
    }
  }

  // ---------------------------------------------------------------- brace matching

  /** The number of `c` in `s`. */
  function Count(s: string, c: char): nat {
    if s == [] then 0 else Count(s[..|s| - 1], c) + (if s[|s| - 1] == c then 1 else 0)
  }

  /** The brace depth just before index `i`, inside a literal whose `{` ends just before `start`. */
  function Depth(s: string, start: nat, i: nat): int
    requires start <= i <= |s|
  {
    1 + Count(s[start..i], '{') - Count(s[start..i], '}')
  }

  lemma DepthStep(s: string, start: nat, i: nat)
    requires start <= i < |s|
    ensures Depth(s, start, i + 1) ==
      Depth(s, start, i) + (if s[i] == '{' then 1 else if s[i] == '}' then -1 else 0)
  {
    assert s[start..i + 1][..i - start] == s[start..i];
  }

  /** The literal is still open at every index from `start` through `i`. */
  predicate Open(s: string, start: nat, i: nat)
    requires start <= i <= |s|
  {
    forall k :: start <= k <= i ==> Depth(s, start, k) > 0
  }

  /** The `}` at `e` closes the literal opened just before `start`: the first to bring the depth to 0. */
  predicate ClosesAt(s: string, start: nat, e: nat) {
    start <= e < |s| && s[e] == '}' && Depth(s, start, e) == 1 && Open(s, start, e)
  }

  /** Only one brace closes a literal. */
  lemma ClosesUnique(s: string, start: nat, e1: nat, e2: nat)
    requires ClosesAt(s, start, e1) && ClosesAt(s, start, e2)
    ensures e1 == e2
  {
    if e1 < e2 {
      DepthStep(s, start, e1);
    } else if e2 < e1 {
      DepthStep(s, start, e2);
    }
  }

  function Close(s: string, start: nat, i: nat): (r: Option<nat>)
    requires start <= i <= |s| && Open(s, start, i)
    ensures r.Some? ==> i <= r.value && ClosesAt(s, start, r.value)
    ensures r.None? ==> forall e :: i <= e < |s| ==> !ClosesAt(s, start, e)
    decreases |s| - i
  {
    if i == |s| then None
    else if s[i] == '}' && Depth(s, start, i) == 1 then Some(i)
    else
      DepthStep(s, start, i);
      Close(s, start, i + 1)
  }

  /** The index of the brace that closes the literal opened just before `start`, if any. */
  function BraceEnd(s: string, start: nat): (r: Option<nat>)
    requires start <= |s|
    ensures r.Some? ==> ClosesAt(s, start, r.value)
    ensures r.None? ==> forall e :: !ClosesAt(s, start, e)
  {
    assert Depth(s, start, start) == 1 by { assert s[start..start] == []; }
    Close(s, start, start)
  }

  /**
   * The brace counting of `parseTeamDefinitions`: from `start`, the depth begins at 1 and the
   * scan stops at the first `}` that brings it to 0.
   */
  method MatchingBrace(content: string, start: nat) returns (endIndex: nat, braceCount: int)
    requires start <= |content|
    ensures braceCount == 0 <==> exists e :: ClosesAt(content, start, e)
    ensures braceCount == 0 ==> ClosesAt(content, start, endIndex) && BraceEnd(content, start) == Some(endIndex)
    ensures braceCount != 0 ==> endIndex == start && BraceEnd(content, start).None?
  {
    braceCount := 1;
    endIndex := start;
    assert content[start..start] == [];
    var i := start;
    while i < |content|
      invariant start <= i <= |content|
      invariant braceCount == Depth(content, start, i)
      invariant Open(content, start, i)
      invariant forall e :: start <= e < i ==> !ClosesAt(content, start, e)
    {
      DepthStep(content, start, i);
      if content[i] == '{' {
        braceCount := braceCount + 1;
      } else if content[i] == '}' {
        braceCount := braceCount - 1;
        if braceCount == 0 {
          endIndex := i;
          assert ClosesAt(content, start, i);
          var b := BraceEnd(content, start);
          ClosesUnique(content, start, b.value, i);
          return;
        }
      }
      i := i + 1;
    }
  }

  /** Every prefix of `body` closes no more braces than it opens. */
  predicate NeverBelow(body: string) {
    forall k :: 0 <= k <= |body| ==> Count(body[..k], '}') <= Count(body[..k], '{')
  }

  /** A literal whose body is balanced and never dips below its opening depth closes at the brace after the body. */
  lemma BalancedCloses(s: string, start: nat, e: nat)
    requires start <= e < |s| && s[e] == '}'
    requires Count(s[start..e], '{') == Count(s[start..e], '}') && NeverBelow(s[start..e])
    ensures BraceEnd(s, start) == Some(e)
  {
    var body := s[start..e];
    forall k | start <= k <= e ensures Depth(s, start, k) > 0 {
      assert s[start..k] == body[..k - start];
    }
    assert s[start..e] == body[..e - start];
    assert ClosesAt(s, start, e);
    ClosesUnique(s, start, BraceEnd(s, start).value, e);
  }

  // ---------------------------------------------------------------- member variables

  /** A definition names a variable and a member with a name and an address. */
  predicate WellDefined(d: (string, MemberInfo)) {
    IsWord(d.0) && d.1.name != [] && d.1.email != []
  }

  /** The definition a `MemberInfo` variable match gives, if its literal parses. */
  function DefAt(h: Hit): (r: seq<(string, MemberInfo)>)
    requires Shaped(MemberVar, h.groups)
    ensures |r| <= 1 && forall k :: 0 <= k < |r| ==> WellDefined(r[k])
  {
    match ParseMemberInfoStruct(h.groups[1]) case None => [] case Some(m) => [(h.groups[0], m)]
  }

  /** The member variables defined from `pos` on, in order: each name with the member it parses to. */
  function MemberDefs(s: string, pos: nat): (r: seq<(string, MemberInfo)>)
    ensures forall k :: 0 <= k < |r| ==> WellDefined(r[k])
    decreases |s| - pos
  {
    match Search(MemberVar, s, pos)
    case None => []
    case Some(found) => DefAt(found.1) + MemberDefs(s, found.1.end)
  }

  /** The map the definitions build when each one is set in turn. */
  function ToMap(defs: seq<(string, MemberInfo)>): map<string, MemberInfo> {
    if defs == [] then map[]
    else ToMap(defs[..|defs| - 1])[defs[|defs| - 1].0 := defs[|defs| - 1].1]
  }

  /** No definition of `v` comes after index `k`. */
  predicate LastOf(defs: seq<(string, MemberInfo)>, k: int, v: string) {
    0 <= k < |defs| && defs[k].0 == v && forall j :: k < j < |defs| ==> defs[j].0 != v
  }

  /** A variable is defined when some definition names it, and it keeps the last one. */
  lemma {:induction false} ToMapLast(defs: seq<(string, MemberInfo)>, v: string)
    ensures v in ToMap(defs) <==> exists k :: 0 <= k < |defs| && defs[k].0 == v
    ensures forall k :: LastOf(defs, k, v) ==> ToMap(defs)[v] == defs[k].1
  {
    if defs != [] {
      var init := defs[..|defs| - 1];
      ToMapLast(init, v);
      assert forall k :: 0 <= k < |init| ==> init[k] == defs[k];
      forall k | LastOf(defs, k, v) ensures ToMap(defs)[v] == defs[k].1 {
        if k < |init| {
          assert LastOf(init, k, v);
        }
      }
    }
  }

  /** Setting at most one more definition: the map is unchanged without one, and updated with one. */
  lemma ToMapExtend(done: seq<(string, MemberInfo)>, here: seq<(string, MemberInfo)>)
    requires |here| <= 1
    ensures ToMap(done + here) == if here == [] then ToMap(done) else ToMap(done)[here[0].0 := here[0].1]
  {
    if here == [] {
      assert done + here == done;
    } else {
      assert (done + here)[..|done|] == done;
    }
  }

  /** Setting the definitions of `b` after those of `a` overlays the two maps. */
  lemma {:induction false} ToMapAppend(a: seq<(string, MemberInfo)>, b: seq<(string, MemberInfo)>)
    ensures ToMap(a + b) == ToMap(a) + ToMap(b)
    decreases |b|
  {
    if b == [] {
      assert a + b == a;
    } else {
      var init := b[..|b| - 1];
      assert (a + b)[..|a + b| - 1] == a + init;
      ToMapAppend(a, init);
    }
  }

  /** One search step of `MemberDefs`. */
  lemma MemberDefsStep(s: string, pos: nat, h: Hit)
    requires Search(MemberVar, s, pos).Some? && Search(MemberVar, s, pos).value.1 == h
    ensures Shaped(MemberVar, h.groups) && pos < h.end <= |s|
    ensures MemberDefs(s, pos) == DefAt(h) + MemberDefs(s, h.end)
  {
  }

  /** The body of one iteration of `parseMemberInfoVariables`: parse the literal a match captured. */
  method DefinitionOf(h: Hit) returns (d: Option<(string, MemberInfo)>)
    requires Shaped(MemberVar, h.groups)
    ensures DefAt(h) == if d.Some? then [d.value] else []
  {
    var member := ParseMemberInfoStruct(h.groups[1]);
    d := if member.Some? then Some((h.groups[0], member.value)) else None;
  }

  /** `parseMemberInfoVariables(content)`: each definition that parses sets its variable. */
  method ParseMemberInfoVariables(content: string) returns (members: map<string, MemberInfo>)
    ensures members == ToMap(MemberDefs(content, 0))
  {
    members := map[];
    ghost var done: seq<(string, MemberInfo)> := [];
    var pos := 0;
    while true
      invariant pos <= |content|
      invariant done + MemberDefs(content, pos) == MemberDefs(content, 0)
      invariant members == ToMap(done)
      decreases |content| - pos
    {
      var m := Search(MemberVar, content, pos);
      if m.None? {
        Sequences.AppendEmpty(done);
        break;
      }
      var h := m.value.1;
      MemberDefsStep(content, pos, h);
      var d := DefinitionOf(h);
      ghost var here := DefAt(h);
      ToMapExtend(done, here);
      if d.Some? {
        members := members[d.value.0 := d.value.1];
      }
      Sequences.AppendAssoc(done, here, MemberDefs(content, h.end));
      done := done + here;
      pos := h.end;
    }
  }

  // ---------------------------------------------------------------- team definitions

  /** The team that the `TeamInfo` literal opened just before `start` gives, if it closes and parses. */
  function TeamAt(s: string, start: nat, mm: map<string, MemberInfo>): (r: seq<TeamInfo>)
    requires start <= |s|
    ensures |r| <= 1
    ensures forall k :: 0 <= k < |r| ==> forall m :: m in r[k].members ==> m in mm.Values
  {
    match BraceEnd(s, start)
    case None => []
    case Some(e) => match ParseTeamInfoStruct(s[start..e], mm) case None => [] case Some(t) => [t]
  }

  /**
   * The teams defined from `pos` on. The search resumes right after each `TeamInfo{` header,
   * so a header nested inside a literal is found as well.
   */
  function TeamDefs(s: string, pos: nat, mm: map<string, MemberInfo>): (r: seq<TeamInfo>)
    ensures forall k :: 0 <= k < |r| ==> forall m :: m in r[k].members ==> m in mm.Values
    decreases |s| - pos
  {
    match Search(TeamVar, s, pos)
    case None => []
    case Some((_, h)) => TeamAt(s, h.end, mm) + TeamDefs(s, h.end, mm)
  }

  /** One search step of `TeamDefs`. */
  lemma TeamDefsStep(s: string, pos: nat, h: Hit, mm: map<string, MemberInfo>)
    requires Search(TeamVar, s, pos).Some? && Search(TeamVar, s, pos).value.1 == h
    ensures pos < h.end <= |s|
    ensures TeamDefs(s, pos, mm) == TeamAt(s, h.end, mm) + TeamDefs(s, h.end, mm)
  {
  }

  /** `t` is the team of the `TeamInfo` literal that opens just before `start`: it closes, and it parses as `t`. */
  predicate LiteralTeam(s: string, start: nat, mm: map<string, MemberInfo>, t: TeamInfo)
    requires start <= |s|
  {
    match BraceEnd(s, start)
    case None => false
    case Some(e) => ParseTeamInfoStruct(s[start..e], mm) == Some(t)
  }

  /** A header `var <name> = components.TeamInfo{` at or after `pos` whose literal gives `t`. */
  predicate HeaderTeam(s: string, pos: nat, mm: map<string, MemberInfo>, t: TeamInfo) {
    exists k :: pos <= k <= |s| && MatchAt(TeamVar, s, k).Some? && LiteralTeam(s, MatchAt(TeamVar, s, k).value.end, mm, t)
  }

  /** A team comes from a header that closes and parses. */
  lemma TeamAtSound(s: string, start: nat, mm: map<string, MemberInfo>)
    requires start <= |s|
    ensures forall t :: t in TeamAt(s, start, mm) ==> LiteralTeam(s, start, mm, t)
  {
  }

  /** Every team `parseTeamDefinitions` reports comes from a header at or after `pos` whose literal closes and parses. */
  lemma {:induction false} TeamDefsSound(s: string, pos: nat, mm: map<string, MemberInfo>)
    ensures forall t :: t in TeamDefs(s, pos, mm) ==> HeaderTeam(s, pos, mm, t)
    decreases |s| - pos
  {
    match Search(TeamVar, s, pos)
    case None =>
    case Some((k, h)) =>
      TeamDefsStep(s, pos, h, mm);
      TeamAtSound(s, h.end, mm);
      TeamDefsSound(s, h.end, mm);
      forall t | t in TeamDefs(s, pos, mm) ensures HeaderTeam(s, pos, mm, t) {
        if t in TeamAt(s, h.end, mm) {
          assert pos <= k <= |s| && MatchAt(TeamVar, s, k) == Some(h);
        } else {
          assert t in TeamDefs(s, h.end, mm);
          var k' :| h.end <= k' <= |s| && MatchAt(TeamVar, s, k').Some?
                  && LiteralTeam(s, MatchAt(TeamVar, s, k').value.end, mm, t);
          assert pos <= k';
        }
      }
  }

  /** Without a header from `pos` on there is no team. */
  lemma TeamDefsNone(s: string, pos: nat, mm: map<string, MemberInfo>)
    requires forall k :: pos <= k <= |s| ==> MatchAt(TeamVar, s, k).None?
    ensures TeamDefs(s, pos, mm) == []
  {
    if Search(TeamVar, s, pos).Some? {
      assert false;
    }
  }

  /** The first header from `pos` on gives the first team when its literal closes and parses. */
  lemma TeamDefsFirst(s: string, pos: nat, k: nat, mm: map<string, MemberInfo>, t: TeamInfo)
    requires pos <= k <= |s| && MatchAt(TeamVar, s, k).Some?
    requires forall j :: pos <= j < k ==> MatchAt(TeamVar, s, j).None?
    requires LiteralTeam(s, MatchAt(TeamVar, s, k).value.end, mm, t)
    ensures TeamDefs(s, pos, mm) != [] && TeamDefs(s, pos, mm)[0] == t
  {
    var m := Search(TeamVar, s, pos);
    if m.None? {
      SearchNone(TeamVar, s, pos);
    } else if m.value.0 > k {
      SearchLeftmost(TeamVar, s, pos, k);
    }
    assert m.Some? && m.value.0 == k;
    var h := m.value.1;
    TeamDefsStep(s, pos, h, mm);
  }

  /** The body of one iteration of `parseTeamDefinitions`: find the closing brace and parse the literal. */
  method TeamOf(content: string, startIndex: nat, mm: map<string, MemberInfo>) returns (team: Option<TeamInfo>)
    requires startIndex <= |content|
    ensures TeamAt(content, startIndex, mm) == if team.Some? then [team.value] else []
  {
    var endIndex, braceCount := MatchingBrace(content, startIndex);
    team := None;
    if braceCount == 0 {
      team := ParseTeamInfoStruct(content[startIndex..endIndex], mm);
    }
  }

  /** `parseTeamDefinitions(content, memberMap)`. */
  method ParseTeamDefinitions(content: string, mm: map<string, MemberInfo>) returns (teams: seq<TeamInfo>)
    ensures teams == TeamDefs(content, 0, mm)
  {
    teams := [];
    var pos := 0;
    while true
      invariant pos <= |content|
      invariant teams + TeamDefs(content, pos, mm) == TeamDefs(content, 0, mm)
      decreases |content| - pos
    {
      var m := Search(TeamVar, content, pos);
      if m.None? {
        Sequences.AppendEmpty(teams);
        break;
      }
      var startIndex := m.value.1.end;
      TeamDefsStep(content, pos, m.value.1, mm);
      var team := TeamOf(content, startIndex, mm);
      if team.Some? {
        Sequences.AppendAssoc(teams, [team.value], TeamDefs(content, startIndex, mm));
        teams := teams + [team.value];
      } else {
        Sequences.EmptyAppend(TeamDefs(content, startIndex, mm));
      }
      pos := startIndex;
    }
  }

  // ---------------------------------------------------------------- the team directory

  /** `path.join(root, 'go', 'src', 'samsaradev.io', 'team')`. */
  function TeamDir(root: Path): Path {
    root + ["go", "src", "samsaradev.io", "team"]
  }

  /** What `scanGoFiles(dir)` collects: the `.go` files below a directory, nothing otherwise. */
  function GoFiles(t: Tree, dir: Path): (r: seq<Path>)
    ensures forall k :: 0 <= k < |r| ==> FileUtils.FileBelow(t, dir, r[k], ".go")
  {
    if IsDir(t, dir) then FileUtils.ScanFiles(t, dir, ".go") else []
  }

  /** `scanGoFiles(dir)`: a directory that cannot be listed contributes nothing. */
  method ScanGoFiles(store: FileStore, dir: Path) returns (files: seq<Path>)
    ensures files == GoFiles(store.tree, dir)
    decreases FileUtils.Under(store.tree, dir)
  {
    if !IsDir(store.tree, dir) {
      return [];
    }
    var entries := store.tree[dir].children;
    files := [];
    var i := 0;
    while i < |entries|
      invariant 0 <= i <= |entries|
      invariant FileUtils.Collected(store.tree, dir, entries, i, files, ".go")
    {
      var p := dir + [entries[i]];
      FileUtils.EntryCases(store.tree, dir, entries[i], ".go");
      var entry: seq<Path>;
      if IsDir(store.tree, p) {
        FileUtils.UnderShrinks(store.tree, dir, entries[i]);
        entry := ScanGoFiles(store, p);
      } else if IsFile(store.tree, p) && EndsWith(entries[i], ".go") {
        entry := [p];
      } else {
        entry := [];
      }
      FileUtils.CollectStep(store.tree, dir, entries, i, files, entry, ".go");
      files := files + entry;
      i := i + 1;
    }
    FileUtils.CollectDone(store.tree, dir, entries, files, ".go");
  }

  /** The texts of `files`, or None when one of them cannot be read. */
  function Texts(t: Tree, files: seq<Path>): (r: Option<seq<string>>)
    ensures r.Some? <==> forall k :: 0 <= k < |files| ==> IsFile(t, files[k])
    ensures r.Some? ==> |r.value| == |files| && forall k :: 0 <= k < |files| ==> r.value[k] == t[files[k]].text
  {
    if files == [] then Some([])
    else
      var last := files[|files| - 1];
      match Texts(t, files[..|files| - 1])
      case None => None
      case Some(cs) => if IsFile(t, last) then Some(cs + [t[last].text]) else None
  }

  /** The member variables of all the files, file by file. */
  function AllMembers(cs: seq<string>): seq<(string, MemberInfo)> {
    if cs == [] then [] else AllMembers(cs[..|cs| - 1]) + MemberDefs(cs[|cs| - 1], 0)
  }

  /** The teams of all the files, file by file. */
  function AllTeams(cs: seq<string>, mm: map<string, MemberInfo>): (r: seq<TeamInfo>)
    ensures forall k :: 0 <= k < |r| ==> forall m :: m in r[k].members ==> m in mm.Values
  {
    if cs == [] then [] else AllTeams(cs[..|cs| - 1], mm) + TeamDefs(cs[|cs| - 1], 0, mm)
  }

  /** Some member's e-mail address equals `email`, ignoring case. */
  predicate IsMember(team: TeamInfo, email: string) {
    exists m :: m in team.members && Lower(m.email) == Lower(email)
  }

  /** The names of the teams that `email` belongs to, in order. */
  function UserTeams(teams: seq<TeamInfo>, email: string): seq<string> {
    if teams == [] then []
    else
      var last := teams[|teams| - 1];
      UserTeams(teams[..|teams| - 1], email) + (if IsMember(last, email) then [last.teamName] else [])
  }

  /**
   * What `parseTeamMemberships(userEmail)` returns: nothing without a workspace root or a team
   * directory, nothing when a file cannot be read, and otherwise the teams of all the `.go`
   * files with the member variables of all of them, later definitions overriding earlier ones.
   */
  function Memberships(t: Tree, root: Option<Path>, email: string): ParsedTeamData {
    if root.None? || TeamDir(root.value) !in t then NoTeams
    else
      match Texts(t, GoFiles(t, TeamDir(root.value)))
      case None => NoTeams
      case Some(cs) =>
        var teams := AllTeams(cs, ToMap(AllMembers(cs)));
        ParsedTeamData(teams, UserTeams(teams, email))
  }

  /** `parseTeamMemberships(userEmail)`, for the workspace `root`. */
  method ParseTeamMemberships(store: FileStore, root: Option<Path>, userEmail: string) returns (r: ParsedTeamData)
    ensures r == Memberships(store.tree, root, userEmail)
  {
    if root.None? {
      return NoTeams;
    }
    var teamDir := TeamDir(root.value);
    if !store.Exists(teamDir) {
      return NoTeams;
    }
    var files := ScanGoFiles(store, teamDir);
    var ok, memberMap, cs := CollectMembers(store, files);
    if !ok {
      return NoTeams;
    }
    var teams, userTeams := CollectTeams(store, files, cs, memberMap, userEmail);
    return ParsedTeamData(teams, userTeams);
  }

  /** The first pass: the member variables of every file, or failure when one cannot be read. */
  method CollectMembers(store: FileStore, files: seq<Path>)
    returns (ok: bool, memberMap: map<string, MemberInfo>, ghost cs: seq<string>)
    ensures ok <==> Texts(store.tree, files).Some?
    ensures ok ==> Texts(store.tree, files) == Some(cs) && memberMap == ToMap(AllMembers(cs))
  {
    memberMap := map[];
    cs := [];
    var i := 0;
    while i < |files|
      invariant 0 <= i <= |files|
      invariant Texts(store.tree, files[..i]) == Some(cs)
      invariant memberMap == ToMap(AllMembers(cs))
    {
      var read := ReadFile(store.tree, files[i]);
      if read.Err? {
        TextsUnreadable(store.tree, files, i);
        return false, memberMap, cs;
      }
      TextsSnoc(store.tree, files, i, cs);
      var members := ParseMemberInfoVariables(read.value);
      AllMembersSnoc(cs, read.value);
      ToMapAppend(AllMembers(cs), MemberDefs(read.value, 0));
      memberMap := memberMap + members;
      cs := cs + [read.value];
      i := i + 1;
    }
    Sequences.TakeAll(files);
    return true, memberMap, cs;
  }

  /** Reading one more file extends the texts read so far. */
  lemma TextsSnoc(t: Tree, files: seq<Path>, i: nat, cs: seq<string>)
    requires i < |files| && Texts(t, files[..i]) == Some(cs) && IsFile(t, files[i])
    ensures Texts(t, files[..i + 1]) == Some(cs + [t[files[i]].text])
  {
    assert files[..i + 1][..i] == files[..i];
  }

  /** The member variables of one more file follow those of the files before it. */
  lemma AllMembersSnoc(cs: seq<string>, c: string)
    ensures AllMembers(cs + [c]) == AllMembers(cs) + MemberDefs(c, 0)
  {
    assert (cs + [c])[..|cs|] == cs;
  }

  /** The teams of one more file follow those of the files before it. */
  lemma AllTeamsSnoc(cs: seq<string>, j: nat, mm: map<string, MemberInfo>)
    requires j < |cs|
    ensures AllTeams(cs[..j + 1], mm) == AllTeams(cs[..j], mm) + TeamDefs(cs[j], 0, mm)
  {
    assert cs[..j + 1][..j] == cs[..j];
  }

  /** The second pass: the teams of every file, and the names of those the user belongs to. */
  method CollectTeams(store: FileStore, files: seq<Path>, ghost cs: seq<string>, memberMap: map<string, MemberInfo>,
                      userEmail: string) returns (teams: seq<TeamInfo>, userTeams: seq<string>)
    requires Texts(store.tree, files) == Some(cs)
    ensures teams == AllTeams(cs, memberMap) && userTeams == UserTeams(teams, userEmail)
  {
    teams := [];
    userTeams := [];
    var j := 0;
    while j < |files|
      invariant 0 <= j <= |files|
      invariant teams == AllTeams(cs[..j], memberMap)
      invariant userTeams == UserTeams(teams, userEmail)
    {
      var content := ReadFile(store.tree, files[j]).value;
      var parsedTeams := ParseTeamDefinitions(content, memberMap);
      AllTeamsSnoc(cs, j, memberMap);
      teams, userTeams := RecordTeams(teams, userTeams, parsedTeams, userEmail);
      j := j + 1;
    }
    Sequences.TakeAll(cs);
  }

  /** One more team adds its name when the user is one of its members. */
  lemma UserTeamsSnoc(teams: seq<TeamInfo>, team: TeamInfo, email: string)
    ensures UserTeams(teams + [team], email) ==
      UserTeams(teams, email) + (if IsMember(team, email) then [team.teamName] else [])
  {
    assert (teams + [team])[..|teams|] == teams;
  }

  /** Each parsed team is pushed, and its name too when the user is one of its members. */
  method RecordTeams(teams: seq<TeamInfo>, userTeams: seq<string>, parsed: seq<TeamInfo>, userEmail: string)
    returns (teams': seq<TeamInfo>, userTeams': seq<string>)
    requires userTeams == UserTeams(teams, userEmail)
    ensures teams' == teams + parsed && userTeams' == UserTeams(teams', userEmail)
  {
    teams', userTeams' := teams, userTeams;
    var k := 0;
    while k < |parsed|
      invariant 0 <= k <= |parsed|
      invariant teams' == teams + parsed[..k]
      invariant userTeams' == UserTeams(teams', userEmail)
    {
      var team := parsed[k];
      assert parsed[..k + 1] == parsed[..k] + [team];
      Sequences.AppendAssoc(teams, parsed[..k], [team]);
      UserTeamsSnoc(teams', team, userEmail);
      teams' := teams' + [team];
      if exists m :: m in team.members && Lower(m.email) == Lower(userEmail) {
        userTeams' := userTeams' + [team.teamName];
      } else {
        Sequences.AppendEmpty(userTeams');
      }
      k := k + 1;
    }
    Sequences.TakeAll(parsed);
  }

  /** A file that cannot be read leaves the whole list unread. */
  lemma TextsUnreadable(t: Tree, files: seq<Path>, i: nat)
    requires i < |files| && !IsFile(t, files[i])
    ensures Texts(t, files).None?
  {
  }

  // ---------------------------------------------------------------- what the result means

  /** A team is listed for the user exactly when one of its members has the user's address, ignoring case. */
  lemma {:induction false} UserTeamsIff(teams: seq<TeamInfo>, email: string, n: string)
    ensures n in UserTeams(teams, email) <==>
      exists k :: 0 <= k < |teams| && teams[k].teamName == n && IsMember(teams[k], email)
  {
    if teams != [] {
      var init := teams[..|teams| - 1];
      UserTeamsIff(init, email, n);
      assert forall k :: 0 <= k < |init| ==> init[k] == teams[k];
    }
  }

  /** The address is compared ignoring case. */
  lemma {:induction false} UserTeamsIgnoreCase(teams: seq<TeamInfo>, e1: string, e2: string)
    requires Lower(e1) == Lower(e2)
    ensures UserTeams(teams, e1) == UserTeams(teams, e2)
  {
    if teams != [] {
      UserTeamsIgnoreCase(teams[..|teams| - 1], e1, e2);
      assert IsMember(teams[|teams| - 1], e1) == IsMember(teams[|teams| - 1], e2);
    }
  }

  /** `a` is `b` with some elements left out. */
  predicate Subsequence(a: seq<string>, b: seq<string>) {
    if a == [] then true
    else if b == [] then false
    else if a[|a| - 1] == b[|b| - 1] then Subsequence(a[..|a| - 1], b[..|b| - 1])
    else Subsequence(a, b[..|b| - 1])
  }

  function Names(teams: seq<TeamInfo>): (r: seq<string>)
    ensures |r| == |teams| && forall k :: 0 <= k < |teams| ==> r[k] == teams[k].teamName
  {
    seq(|teams|, k requires 0 <= k < |teams| => teams[k].teamName)
  }

  /** Dropping the last element of a subsequence leaves a subsequence. */
  lemma {:induction false} SubsequenceInit(a: seq<string>, b: seq<string>)
    requires a != [] && Subsequence(a, b)
    ensures Subsequence(a[..|a| - 1], b)
    decreases |b|
  {
    var a1 := a[..|a| - 1];
    if a1 != [] {
      var b1 := b[..|b| - 1];
      if a[|a| - 1] == b[|b| - 1] {
        SubsequenceInit(a1, b1);
      } else {
        SubsequenceInit(a, b1);
        if a1[|a1| - 1] == b[|b| - 1] {
          SubsequenceInit(a1, b1);
        }
      }
    }
  }

  lemma SubsequenceSnoc(a: seq<string>, b: seq<string>, x: string)
    requires Subsequence(a, b)
    ensures Subsequence(a, b + [x])
  {
    assert (b + [x])[..|b|] == b;
    if a != [] && a[|a| - 1] == x {
      SubsequenceInit(a, b);
    }
  }

  /** The same element after both sides keeps a subsequence. */
  lemma SubsequenceBoth(a: seq<string>, b: seq<string>, x: string)
    requires Subsequence(a, b)
    ensures Subsequence(a + [x], b + [x])
  {
    assert (a + [x])[..|a|] == a;
    assert (b + [x])[..|b|] == b;
  }

  lemma NamesInit(teams: seq<TeamInfo>)
    requires teams != []
    ensures Names(teams) == Names(teams[..|teams| - 1]) + [teams[|teams| - 1].teamName]
  {
  }

  /** The user's teams are listed in the order of the teams and a team listed twice is named twice. */
  lemma {:induction false} UserTeamsInOrder(teams: seq<TeamInfo>, email: string)
    ensures Subsequence(UserTeams(teams, email), Names(teams))
  {
    if teams != [] {
      var init := teams[..|teams| - 1];
      var last := teams[|teams| - 1];
      UserTeamsInOrder(init, email);
      NamesInit(teams);
      if IsMember(last, email) {
        SubsequenceBoth(UserTeams(init, email), Names(init), last.teamName);
      } else {
        Sequences.AppendEmpty(UserTeams(init, email));
        SubsequenceSnoc(UserTeams(init, email), Names(init), last.teamName);
      }
    }
  }

  /** Every member of every team parsed from the directory is a defined member variable. */
  lemma TeamMembersDefined(t: Tree, root: Option<Path>, email: string, k: nat, m: MemberInfo)
    requires k < |Memberships(t, root, email).teams| && m in Memberships(t, root, email).teams[k].members
    ensures root.Some? && TeamDir(root.value) in t
    ensures exists cs :: Texts(t, GoFiles(t, TeamDir(root.value))) == Some(cs) && m in ToMap(AllMembers(cs)).Values
  {
  }

  /**
   * Across the files, a member variable defined more than once resolves to its last definition:
   * the one in the latest file, and the latest in that file.
   */
  lemma LaterDefinitionWins(cs: seq<string>, v: string, k: int)
    requires LastOf(AllMembers(cs), k, v)
    ensures v in ToMap(AllMembers(cs)) && ToMap(AllMembers(cs))[v] == AllMembers(cs)[k].1
  {
    ToMapLast(AllMembers(cs), v);
  }
}
