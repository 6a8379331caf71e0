/**
 * Rule identity: the owner of a rule (a team or a user email) is normalised into a
 * "source" that is appended to the file stem, giving IDs such as `clock.alicesmith`.
 */
module RuleId {
  import opened Wrappers
  import opened Strings
  import Paths
  import Sequences

  /** A JavaScript string argument is truthy when present and non-empty. */
  predicate Given(s: Option<string>) {
    s.Some? && s.value != ""
  }

  /** The part of an email before its first `@` (`email.split('@')[0]`). */
  function LocalPart(email: string): (r: string)
    ensures '@' !in r && StartsWith(email, r)
    ensures '@' !in email ==> r == email
  {
    var parts := Split(email, '@');
    JoinStartsWithFirst(parts, ['@']);
    SplitNoSeparator(email, '@');
    parts[0]
  }

  /** `getRuleSource(team, user)`. */
  function RuleSource(team: Option<string>, user: Option<string>): (r: string)
    ensures Given(team) ==> NoSpace(r) && r == RemoveSpaces(Lower(team.value))
    ensures !Given(team) && Given(user) ==> '@' !in r && '.' !in r
    ensures !Given(team) && Given(user) ==> r == RemoveChar(LocalPart(user.value), '.')
    ensures !Given(team) && !Given(user) ==> r == ""
  {
    if Given(team) then RemoveSpaces(Lower(team.value))
    else if Given(user) then RemoveChar(LocalPart(user.value), '.')
    else ""
  }

  /** `deriveRuleId(filePath, team, user)`: the extension-less base name, then `.source` if any. */
  function DeriveRuleId(filePath: string, team: Option<string>, user: Option<string>): (r: string)
    ensures var stem := Paths.Stem(Paths.BaseOfText(filePath));
      var source := RuleSource(team, user);
      StartsWith(r, stem) && '/' !in stem
      && (source != "" ==> r == stem + "." + source)
      && (source == "" ==> r == stem)
  {
    var stem := Paths.Stem(Paths.BaseOfText(filePath));
    var source := RuleSource(team, user);
    if source != "" then stem + "." + source else stem
  }

  /** When a team is given, the user never influences the source. */
  lemma TeamWins(team: string, user1: Option<string>, user2: Option<string>)
    requires team != ""
    ensures RuleSource(Some(team), user1) == RuleSource(Some(team), user2)
  {
  }

  /** A normalised team name normalises to itself. */
  lemma {:induction false} TeamSourceIdempotent(team: string)
    requires team != "" && RuleSource(Some(team), None) != ""
    ensures RuleSource(Some(RuleSource(Some(team), None)), None) == RuleSource(Some(team), None)
  {
    var t := RemoveSpaces(Lower(team));
    LowerNoUpper(team);
    RemoveSpacesKeepsLower(Lower(team));
    LowerOfLower(t);
    RemoveSpacesOfNoSpace(t);
  }

  /** For one file, distinct non-empty sources give distinct IDs. */
  lemma IdInjectiveInSource(filePath: string, team1: Option<string>, user1: Option<string>,
                            team2: Option<string>, user2: Option<string>)
    requires RuleSource(team1, user1) != "" && RuleSource(team2, user2) != ""
    requires DeriveRuleId(filePath, team1, user1) == DeriveRuleId(filePath, team2, user2)
    ensures RuleSource(team1, user1) == RuleSource(team2, user2)
  {
    var stem := Paths.Stem(Paths.BaseOfText(filePath));
    var id := DeriveRuleId(filePath, team1, user1);
    assert RuleSource(team1, user1) == id[|stem| + 1..];
    assert RuleSource(team2, user2) == id[|stem| + 1..];
  }

  // ---------------------------------------------------------------- the repository's own examples

  /** A two-word team name becomes both words lower-cased, run together. */
  lemma TeamSourceOfWords(a: string, b: string)
    requires NoSpace(a) && NoSpace(b)
    ensures RuleSource(Some(a + " " + b), None) == Lower(a) + Lower(b)
  {
    LowerWords(a, b);
    LowerKeepsNoSpace(a);
    LowerKeepsNoSpace(b);
    RemoveWords(Lower(a), Lower(b));
  }

  /** A dotted email `first.second@domain` becomes `firstsecond`. */
  lemma UserSourceOfEmail(first: string, second: string, domain: string)
    requires '.' !in first && '.' !in second && '@' !in first && '@' !in second && '@' !in domain
    ensures RuleSource(None, Some(first + "." + second + "@" + domain)) == first + second
  {
    assert '@' !in first + "." + second;
    LocalPartOf(first + "." + second, domain);
    DotsRemoved(first, second);
  }

  /** The ID of `dirs/stem.mdc` is the stem and the source, whatever the directories. */
  lemma IdOfMdcPath(dirs: string, stem: string, team: Option<string>, user: Option<string>)
    requires stem != [] && '/' !in stem && '.' !in stem
    ensures var source := RuleSource(team, user);
      DeriveRuleId(dirs + "/" + stem + ".mdc", team, user) == if source == "" then stem else stem + "." + source
  {
    assert dirs + "/" + stem + ".mdc" == dirs + "/" + (stem + ".mdc");
    BaseAfterDirectories(dirs, stem + ".mdc");
    Paths.StemOfSuffixed(stem, ".mdc");
  }

  // The repository's own examples. Literals are written as concatenations of short pieces so
  // that the verifier reasons about the pieces instead of evaluating every character.

  lemma ExampleTeamSource()
    ensures RuleSource(Some("Asset" + " " + ("Found" + "ations")), None) == "asset" + ("found" + "ations")
  {
    TeamSourceOfWords("Asset", ("Found" + "ations"));
    LowerWord1();
    LowerWord2();
  }

  lemma ExampleUserSource()
    ensures RuleSource(None, Some("john" + "." + "doe" + "@" + "example.com")) == "john" + "doe"
  {
    UserSourceOfEmail("john", "doe", "example.com");
  }

  lemma ExampleTeamId()
    ensures DeriveRuleId("some/dir" + "/" + "foo-bar" + ".mdc", Some("Asset" + " " + ("Found" + "ations")), None)
         == "foo-bar" + "." + ("asset" + ("found" + "ations"))
  {
    ExampleTeamSource();
    IdOfMdcPath("some/dir", "foo-bar", Some("Asset" + " " + ("Found" + "ations")), None);
  }

  lemma ExampleUserId()
    ensures DeriveRuleId("/abs/path" + "/" + "clock" + ".mdc", None, Some("alice" + "." + "smith" + "@" + "company.com"))
         == "clock" + "." + ("alice" + "smith")
  {
    UserSourceOfEmail("alice", "smith", "company.com");
    IdOfMdcPath("/abs/path", "clock", None, Some("alice" + "." + "smith" + "@" + "company.com"));
  }

  lemma ExampleOwnerlessId()
    ensures DeriveRuleId("only-file" + ".mdc", None, None) == "only-file"
  {
    var name := "only-file" + ".mdc";
    assert '/' !in name;
    BaseOfBareName(name);
    Paths.StemOfSuffixed("only-file", ".mdc");
    assert RuleSource(None, None) == "";
    assert Paths.Stem(Paths.BaseOfText(name)) == "only-file";
  }

  lemma LowerWord1() ensures Lower("Asset") == "asset" {}
  lemma LowerWord2()
    ensures Lower("Found" + "ations") == "found" + "ations"
  {
    LowerAppend("Found", "ations");
    assert Lower("Found") == "found";
    assert Lower("ations") == "ations";
  }
  lemma SpaceLowered() ensures Lower(" ") == " " {}
  lemma SpaceRemoved() ensures RemoveSpaces(" ") == "" {}
  lemma DotRemoved() ensures RemoveChar(".", '.') == "" {}

  lemma LowerKeepsNoSpace(a: string)
    requires NoSpace(a)
    ensures NoSpace(Lower(a))
  {
    forall i | 0 <= i < |a| ensures !IsSpace(Lower(a)[i]) {
      assert !IsSpace(a[i]);
    }
  }

  lemma LowerWords(a: string, b: string)
    ensures Lower(a + " " + b) == Lower(a) + " " + Lower(b)
  {
    LowerAppend(a + " ", b);
    LowerAppend(a, " ");
    SpaceLowered();
  }

  lemma RemoveWords(a: string, b: string)
    requires NoSpace(a) && NoSpace(b)
    ensures RemoveSpaces(a + " " + b) == a + b
  {
    RemoveSpacesAppend(a + " ", b);
    RemoveSpacesAppend(a, " ");
    SpaceRemoved();
    RemoveSpacesOfNoSpace(a);
    RemoveSpacesOfNoSpace(b);
    assert RemoveSpaces(a + " ") == a;
  }

  /** `first.second` loses its dot. */
  lemma DotsRemoved(first: string, second: string)
    requires '.' !in first && '.' !in second
    ensures RemoveChar(first + "." + second, '.') == first + second
  {
    RemoveCharAppend(first + ".", second, '.');
    RemoveCharAppend(first, ".", '.');
    RemoveCharAbsent(first, '.');
    RemoveCharAbsent(second, '.');
    DotRemoved();
    assert RemoveChar(first + ".", '.') == first;
  }

  // ---------------------------------------------------------------- helpers

  lemma JoinStartsWithFirst(parts: seq<string>, sep: string)
    requires parts != []
    ensures StartsWith(Join(parts, sep), parts[0])
  {
    if |parts| > 1 {
      assert Join(parts, sep) == parts[0] + (sep + Join(parts[1..], sep));
    }
  }

  lemma SplitNoSeparator(s: string, c: char)
    ensures c !in s ==> Split(s, c) == [s]
  {
    if c !in s {
      SplitJoin([s], c);
    }
  }

  lemma LocalPartOf(local: string, domain: string)
    requires '@' !in local && '@' !in domain
    ensures LocalPart(local + "@" + domain) == local
  {
    assert Join([local, domain], ['@']) == local + "@" + domain;
    SplitJoin([local, domain], '@');
  }

  /** A name without directories is its own base name. */
  lemma BaseOfBareName(name: string)
    requires name != [] && '/' !in name
    ensures Paths.BaseOfText(name) == name
  {
    assert name[|name| - 1] in name;
    assert name[0..] == name;
  }

  lemma BaseAfterDirectories(dirs: string, name: string)
    requires name != [] && '/' !in name
    ensures Paths.BaseOfText(dirs + "/" + name) == name
  {
    var s := dirs + "/" + name;
    assert s[|s| - 1] == name[|name| - 1];
    LastIndexOfAfter(dirs + "/", name, '/');
    assert s[|dirs| + 1..] == name;
  }

  lemma {:induction false} LastIndexOfAfter(a: string, b: string, c: char)
    requires a != [] && a[|a| - 1] == c && c !in b
    ensures Paths.LastIndexOf(a + b, c) == |a| - 1
    decreases |b|
  {
    if b == [] {
      assert a + b == a;
    } else {
      var s := a + b;
      assert s[|s| - 1] == b[|b| - 1];
      assert s[..|s| - 1] == a + b[..|b| - 1];
      LastIndexOfAfter(a, b[..|b| - 1], c);
    }
  }

  lemma {:induction false} RemoveSpacesAppend(a: string, b: string)
    ensures RemoveSpaces(a + b) == RemoveSpaces(a) + RemoveSpaces(b)
  {
    if a != [] {
      var head := if IsSpace(a[0]) then [] else [a[0]];
      assert (a + b)[0] == a[0];
      assert (a + b)[1..] == a[1..] + b;
      RemoveSpacesAppend(a[1..], b);
      Sequences.AppendAssoc(head, RemoveSpaces(a[1..]), RemoveSpaces(b));
    } else {
      Sequences.EmptyAppend(b);
      Sequences.EmptyAppend(RemoveSpaces(b));
    }
  }

  predicate NoUpper(s: string) {
    forall i :: 0 <= i < |s| ==> !('A' <= s[i] <= 'Z')
  }

  lemma LowerNoUpper(s: string)
    ensures NoUpper(Lower(s))
  {
  }

  lemma {:induction false} RemoveSpacesKeepsLower(s: string)
    requires NoUpper(s)
    ensures NoUpper(RemoveSpaces(s))
  {
    var r := RemoveSpaces(s);
    forall i | 0 <= i < |r| ensures !('A' <= r[i] <= 'Z') {
      assert r[i] in r;
      var j :| 0 <= j < |s| && s[j] == r[i];
    }
  }

  lemma LowerOfLower(s: string)
    requires NoUpper(s)
    ensures Lower(s) == s
  {
  }

  lemma {:induction false} RemoveSpacesOfNoSpace(s: string)
    requires NoSpace(s)
    ensures RemoveSpaces(s) == s
  {
    if s != [] {
      RemoveSpacesOfNoSpace(s[1..]);
    }
  }
}
