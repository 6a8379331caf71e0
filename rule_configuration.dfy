/**
 * How an applied rule records its configuration in its own frontmatter
 * (`applyConfigurationToRule` and `extractConfigurationFromRule` of
 * src/ruleApplication.ts): the writer rewrites the `applyStrategy:` and `globs:`
 * lines of the header, the reader pulls them back out with two regular expressions.
 */
module RuleConfiguration {
  import opened Wrappers
  import opened Strings
  import opened Sequences

  datatype Strategy = Always | AutoAttached | Manual

  /** The text a strategy is written as. */
  function StrategyName(s: Strategy): string {
    match s
    case Always => "Always"
    case AutoAttached => "Auto Attached"
    case Manual => "Manual"
  }

  /** `RuleApplicationConfig`: `globs` is optional. */
  datatype Config = Config(applyStrategy: Strategy, globs: Option<seq<string>>)

  /** `config.globs && config.globs.length > 0`. */
  predicate HasGlobs(c: Config) {
    c.globs.Some? && |c.globs.value| > 0
  }

  const StrategyKey := "applyStrategy:"
  const GlobsKey := "globs:"

  function StrategyLine(c: Config): string {
    "applyStrategy: " + StrategyName(c.applyStrategy)
  }

  function Quote(g: string): string {
    "\"" + g + "\""
  }

  function Quoted(gs: seq<string>): (r: seq<string>)
    ensures |r| == |gs| && forall k :: 0 <= k < |gs| ==> r[k] == Quote(gs[k])
  {
    seq(|gs|, k requires 0 <= k < |gs| => Quote(gs[k]))
  }

  /** `globs: ["a", "b"]`. */
  function GlobsLine(gs: seq<string>): string {
    "globs: [" + Join(Quoted(gs), ", ") + "]"
  }

  // ---------------------------------------------------------------- writing

  /**
   * Where the header `^---\n([\s\S]*?)\n---\n([\s\S]*)$` closes: the first `"\n---\n"`
   * after the opening `"---\n"`, or -1 when the text has no such header.
   */
  function HeaderEnd(content: string): (p: int)
    ensures p == -1 || (4 <= p && OccursAt(content, "\n---\n", p))
    ensures p == -1 <==> !StartsWith(content, "---\n") || forall i :: 4 <= i ==> !OccursAt(content, "\n---\n", i)
    ensures p != -1 ==> forall i :: 4 <= i < p ==> !OccursAt(content, "\n---\n", i)
  {
    if StartsWith(content, "---\n") then IndexOf(content, "\n---\n", 4) else -1
  }

  /** What one existing header line becomes. */
  function RewriteLine(line: string, c: Config): seq<string> {
    if StartsWith(line, StrategyKey) then [StrategyLine(c)]
    else if StartsWith(line, GlobsKey) then (if HasGlobs(c) then [GlobsLine(c.globs.value)] else [])
    else [line]
  }

  /** The existing header lines, each rewritten, in order. */
  function Rewritten(lines: seq<string>, c: Config): seq<string> {
    if lines == [] then [] else Rewritten(lines[..|lines| - 1], c) + RewriteLine(lines[|lines| - 1], c)
  }

  predicate SomeStartsWith(lines: seq<string>, key: string) {
    exists k :: 0 <= k < |lines| && StartsWith(lines[k], key)
  }

  /** The lines added at the end when the header lacked them. */
  function Appended(lines: seq<string>, c: Config): seq<string> {
    (if SomeStartsWith(lines, StrategyKey) then [] else [StrategyLine(c)])
    + (if !SomeStartsWith(lines, GlobsKey) && HasGlobs(c) then [GlobsLine(c.globs.value)] else [])
  }

  function NewLines(lines: seq<string>, c: Config): seq<string> {
    Rewritten(lines, c) + Appended(lines, c)
  }

  /** The lines of the header, `frontmatter.split('\n')`. */
  function HeaderLines(content: string): seq<string>
    requires HeaderEnd(content) != -1
  {
    Split(content[4..HeaderEnd(content)], '\n')
  }

  /** The configured rule text: the header rewritten, the body kept. */
  function Configured(content: string, c: Config): string {
    var p := HeaderEnd(content);
    if p == -1 then content
    else "---\n" + Join(NewLines(HeaderLines(content), c), "\n") + "\n---\n" + content[p + 5..]
  }

  /** The loop of `applyConfigurationToRule` after `i` header lines. */
  ghost predicate Rewriting(lines: seq<string>, i: nat, c: Config, newLines: seq<string>, hasStrategy: bool, hasGlobs: bool) {
    && i <= |lines|
    && newLines == Rewritten(lines[..i], c)
    && (hasStrategy <==> SomeStartsWith(lines[..i], StrategyKey))
    && (hasGlobs <==> SomeStartsWith(lines[..i], GlobsKey))
  }

  lemma RewriteStep(lines: seq<string>, i: nat, c: Config, newLines: seq<string>, hasStrategy: bool, hasGlobs: bool)
    requires Rewriting(lines, i, c, newLines, hasStrategy, hasGlobs) && i < |lines|
    ensures Rewriting(lines, i + 1, c, newLines + RewriteLine(lines[i], c),
                      hasStrategy || StartsWith(lines[i], StrategyKey),
                      hasGlobs || (!StartsWith(lines[i], StrategyKey) && StartsWith(lines[i], GlobsKey)))
  {
    var next := lines[..i + 1];
    assert next[..i] == lines[..i] && next[i] == lines[i];
    if SomeStartsWith(lines[..i], StrategyKey) {
      var k :| 0 <= k < i && StartsWith(lines[..i][k], StrategyKey);
      assert next[k] == lines[..i][k];
    }
    if SomeStartsWith(lines[..i], GlobsKey) {
      var k :| 0 <= k < i && StartsWith(lines[..i][k], GlobsKey);
      assert next[k] == lines[..i][k];
    }
    if SomeStartsWith(next, StrategyKey) {
      var k :| 0 <= k < i + 1 && StartsWith(next[k], StrategyKey);
      if k < i { assert lines[..i][k] == next[k]; }
    }
    if SomeStartsWith(next, GlobsKey) {
      var k :| 0 <= k < i + 1 && StartsWith(next[k], GlobsKey);
      if k < i { assert lines[..i][k] == next[k]; } else { assert !StartsWith(lines[i], StrategyKey) by { KeysDiffer(lines[i]); } }
    }
  }

  /** Neither key holds a line break. */
  lemma KeyChars()
    ensures StrategyKey != [] && '\n' !in StrategyKey
    ensures GlobsKey != [] && '\n' !in GlobsKey
  {
  }

  /** No line starts with both keys. */
  lemma KeysDiffer(line: string)
    ensures !(StartsWith(line, StrategyKey) && StartsWith(line, GlobsKey))
  {
    if StartsWith(line, StrategyKey) {
      assert line[0] == StrategyKey[0];
      assert line[..|GlobsKey|][0] != GlobsKey[0];
    }
  }

  /**
   * `applyConfigurationToRule`: a text without a header comes back unchanged; otherwise each
   * `applyStrategy:` line is replaced, each `globs:` line replaced or dropped, the missing
   * ones appended, and the body kept.
   */
  method ApplyConfigurationToRule(content: string, config: Config) returns (r: string)
    ensures r == Configured(content, config)
  {
    var p := HeaderEnd(content);
    if p == -1 {
      return content;
    }
    var frontmatter, body := content[4..p], content[p + 5..];
    var lines := Split(frontmatter, '\n');
    var newLines: seq<string> := [];
    var hasApplyStrategy, hasGlobs := false, false;
    for i := 0 to |lines|
      invariant Rewriting(lines, i, config, newLines, hasApplyStrategy, hasGlobs)
    {
      RewriteStep(lines, i, config, newLines, hasApplyStrategy, hasGlobs);
      var line := lines[i];
      if StartsWith(line, StrategyKey) {
        newLines := newLines + [StrategyLine(config)];
        hasApplyStrategy := true;
      } else if StartsWith(line, GlobsKey) {
        if config.globs.Some? && |config.globs.value| > 0 {
          newLines := newLines + [GlobsLine(config.globs.value)];
        }
        hasGlobs := true;
      } else {
        newLines := newLines + [line];
      }
    }
    assert lines[..|lines|] == lines;
    ghost var rewritten, appended := newLines, Appended(lines, config);
    if !hasApplyStrategy {
      newLines := newLines + [StrategyLine(config)];
    }
    if !hasGlobs && config.globs.Some? && |config.globs.value| > 0 {
      AppendAssoc(rewritten, if hasApplyStrategy then [] else [StrategyLine(config)], [GlobsLine(config.globs.value)]);
      newLines := newLines + [GlobsLine(config.globs.value)];
    }
    assert newLines == rewritten + appended;
    r := "---\n" + Join(newLines, "\n") + "\n---\n" + body;
  }

  /** The header lines that are neither an `applyStrategy:` nor a `globs:` line, in order. */
  function Others(lines: seq<string>): seq<string> {
    if lines == [] then []
    else
      var last := lines[|lines| - 1];
      Others(lines[..|lines| - 1]) + (if StartsWith(last, StrategyKey) || StartsWith(last, GlobsKey) then [] else [last])
  }

  lemma {:induction false} OthersAppend(a: seq<string>, b: seq<string>)
    ensures Others(a + b) == Others(a) + Others(b)
    decreases |b|
  {
    if b == [] {
      assert a + b == a;
    } else {
      var b0 := b[..|b| - 1];
      assert (a + b)[..|a + b| - 1] == a + b0;
      var last := b[|b| - 1];
      assert (a + b)[|a + b| - 1] == last;
      OthersAppend(a, b0);
      AppendAssoc(Others(a), Others(b0), if StartsWith(last, StrategyKey) || StartsWith(last, GlobsKey) then [] else [last]);
    }
  }

  /** A line is in the rewritten list exactly when some original line rewrites to it. */
  lemma {:induction false} RewrittenMember(lines: seq<string>, c: Config, l: string)
    ensures l in Rewritten(lines, c) <==> exists k :: 0 <= k < |lines| && l in RewriteLine(lines[k], c)
    decreases |lines|
  {
    if lines != [] {
      var init := lines[..|lines| - 1];
      RewrittenMember(init, c, l);
      if exists k :: 0 <= k < |lines| && l in RewriteLine(lines[k], c) {
        var k :| 0 <= k < |lines| && l in RewriteLine(lines[k], c);
        if k < |init| { assert init[k] == lines[k]; }
      }
      if exists k :: 0 <= k < |init| && l in RewriteLine(init[k], c) {
        var k :| 0 <= k < |init| && l in RewriteLine(init[k], c);
        assert lines[k] == init[k];
      }
    }
  }

  /**
   * After configuring, the header carries the chosen strategy: every `applyStrategy:` line
   * states it, and there is at least one.
   */
  lemma ConfiguredStrategy(lines: seq<string>, c: Config, l: string)
    ensures l in NewLines(lines, c) && StartsWith(l, StrategyKey) ==> l == StrategyLine(c)
    ensures StrategyLine(c) in NewLines(lines, c)
  {
    RewrittenMember(lines, c, l);
    RewrittenMember(lines, c, StrategyLine(c));
    KeysDiffer(l);
    if SomeStartsWith(lines, StrategyKey) {
      var k :| 0 <= k < |lines| && StartsWith(lines[k], StrategyKey);
      assert StrategyLine(c) in RewriteLine(lines[k], c);
    }
    if HasGlobs(c) {
      KeysDiffer(GlobsLine(c.globs.value));
      assert StartsWith(GlobsLine(c.globs.value), GlobsKey) by { assert GlobsLine(c.globs.value)[..6] == GlobsKey; }
    }
  }

  /**
   * After configuring, a `globs:` line is left exactly when the configuration has globs,
   * and every one lists them.
   */
  lemma ConfiguredGlobs(lines: seq<string>, c: Config, l: string)
    ensures l in NewLines(lines, c) && StartsWith(l, GlobsKey) ==> HasGlobs(c) && l == GlobsLine(c.globs.value)
    ensures HasGlobs(c) ==> GlobsLine(c.globs.value) in NewLines(lines, c)
  {
    RewrittenMember(lines, c, l);
    KeysDiffer(l);
    var s := StrategyLine(c);
    assert StartsWith(s, StrategyKey) by { assert s[..14] == StrategyKey; }
    KeysDiffer(s);
    if HasGlobs(c) {
      var g := GlobsLine(c.globs.value);
      RewrittenMember(lines, c, g);
      if SomeStartsWith(lines, GlobsKey) {
        var k :| 0 <= k < |lines| && StartsWith(lines[k], GlobsKey);
        KeysDiffer(lines[k]);
        assert g in RewriteLine(lines[k], c);
      }
    }
  }

  /** Configuring keeps every other header line, in order. */
  lemma {:induction false} ConfiguredOthers(lines: seq<string>, c: Config)
    ensures Others(NewLines(lines, c)) == Others(lines)
  {
    RewrittenOthers(lines, c);
    OthersAppend(Rewritten(lines, c), Appended(lines, c));
    AppendedKeyLines(lines, c);
    OthersNone(Appended(lines, c));
  }

  lemma AppendedKeyLines(lines: seq<string>, c: Config)
    ensures forall k :: 0 <= k < |Appended(lines, c)| ==>
      StartsWith(Appended(lines, c)[k], StrategyKey) || StartsWith(Appended(lines, c)[k], GlobsKey)
  {
    KeyLines(c);
    var x := if SomeStartsWith(lines, StrategyKey) then [] else [StrategyLine(c)];
    var y := if !SomeStartsWith(lines, GlobsKey) && HasGlobs(c) then [GlobsLine(c.globs.value)] else [];
    assert Appended(lines, c) == x + y;
    assert forall k :: 0 <= k < |x| ==> x[k] == StrategyLine(c);
    assert forall k :: 0 <= k < |y| ==> y[k] == GlobsLine(c.globs.value);
  }

  lemma {:induction false} RewrittenOthers(lines: seq<string>, c: Config)
    ensures Others(Rewritten(lines, c)) == Others(lines)
    decreases |lines|
  {
    if lines != [] {
      var init, last := lines[..|lines| - 1], lines[|lines| - 1];
      RewrittenOthers(init, c);
      var rl := RewriteLine(last, c);
      OthersAppend(Rewritten(init, c), rl);
      if StartsWith(last, StrategyKey) || StartsWith(last, GlobsKey) {
        KeyLinesOnly(rl, c);
        OthersNone(rl);
      } else {
        assert Others(rl) == Others([] + [last]);
      }
    }
  }

  lemma KeyLines(c: Config)
    ensures StartsWith(StrategyLine(c), StrategyKey)
    ensures HasGlobs(c) ==> StartsWith(GlobsLine(c.globs.value), GlobsKey)
  {
    assert StrategyLine(c)[..14] == StrategyKey;
    if HasGlobs(c) {
      assert GlobsLine(c.globs.value)[..6] == GlobsKey;
    }
  }

  /** Lists made only of generated lines. */
  lemma KeyLinesOnly(xs: seq<string>, c: Config)
    requires forall k :: 0 <= k < |xs| ==> xs[k] == StrategyLine(c) || (HasGlobs(c) && xs[k] == GlobsLine(c.globs.value))
    ensures forall k :: 0 <= k < |xs| ==> StartsWith(xs[k], StrategyKey) || StartsWith(xs[k], GlobsKey)
  {
    KeyLines(c);
  }

  lemma {:induction false} OthersNone(xs: seq<string>)
    requires forall k :: 0 <= k < |xs| ==> StartsWith(xs[k], StrategyKey) || StartsWith(xs[k], GlobsKey)
    ensures Others(xs) == []
    decreases |xs|
  {
    if xs != [] {
      OthersNone(xs[..|xs| - 1]);
    }
  }

  /** A text the header pattern does not match is returned as it was. */
  lemma ConfiguredWithoutHeader(content: string, c: Config)
    requires !StartsWith(content, "---\n") || forall i :: 4 <= i ==> !OccursAt(content, "\n---\n", i)
    ensures Configured(content, c) == content
  {
  }

  // ---------------------------------------------------------------- reading

  /**
   * The characters a strategy capture may run over: `\w` as written, `[\w ]` in the
   * corrected pattern.
   */
  predicate RunChar(c: char, phrase: bool) {
    IsWordChar(c) || (phrase && c == ' ')
  }

  /** Where a greedy run of `RunChar`s starting at `i` ends. */
  function RunEnd(s: string, i: nat, phrase: bool): (j: nat)
    requires i <= |s|
    ensures i <= j <= |s|
    ensures forall k :: i <= k < j ==> RunChar(s[k], phrase)
    ensures j < |s| ==> !RunChar(s[j], phrase)
    decreases |s| - i
  {
    if i == |s| || !RunChar(s[i], phrase) then i else RunEnd(s, i + 1, phrase)
  }

  /**
   * `^---\n([\s\S]*?)\n---`: the text between the opening line and the first later
   * `"\n---"`, when there is one.
   */
  function Frontmatter(content: string): (r: Option<string>)
    ensures r.Some? <==> StartsWith(content, "---\n") && exists q :: 4 <= q && OccursAt(content, "\n---", q)
  {
    if !StartsWith(content, "---\n") then None
    else
      var q := IndexOf(content, "\n---", 4);
      if q == -1 then None else Some(content[4..q])
  }

  /**
   * The strategy pattern tried at index `i` of the frontmatter: `applyStrategy:`, white
   * space, then a run that starts with a word character. As written (`phrase` false) the
   * run is `\w+`; corrected, it is `\w[\w ]*` with the trailing spaces trimmed.
   */
  function StrategyAt(fm: string, i: nat, phrase: bool): (r: Option<string>)
    ensures r.Some? ==> OccursAt(fm, StrategyKey, i) && r.value != []
    ensures r.Some? && !phrase ==> forall k :: 0 <= k < |r.value| ==> IsWordChar(r.value[k])
  {
    if !OccursAt(fm, StrategyKey, i) then None
    else
      var j := SkipSpaces(fm, i + |StrategyKey|);
      if j == |fm| || !IsWordChar(fm[j]) then None
      else
        var w := fm[j..RunEnd(fm, j, phrase)];
        Some(if phrase then TrimEnd(w) else w)
  }

  /** The leftmost match of the strategy pattern at or after `from`. */
  function StrategyCapture(fm: string, from: nat, phrase: bool): (r: Option<string>)
    ensures r.Some? ==>
      exists i :: from <= i && StrategyAt(fm, i, phrase) == r && forall k :: from <= k < i ==> StrategyAt(fm, k, phrase).None?
    ensures r.None? ==> forall i :: from <= i ==> StrategyAt(fm, i, phrase).None?
    decreases |fm| - from
  {
    if from + |StrategyKey| > |fm| then None
    else if StrategyAt(fm, from, phrase).Some? then StrategyAt(fm, from, phrase)
    else StrategyCapture(fm, from + 1, phrase)
  }

  /** The globs pattern `globs:\s*\[([^\]]*)\]` tried at index `i`. */
  function GlobsAt(fm: string, i: nat): (r: Option<string>)
    ensures r.Some? ==> OccursAt(fm, GlobsKey, i) && ']' !in r.value
  {
    if !OccursAt(fm, GlobsKey, i) then None
    else
      var j := SkipSpaces(fm, i + |GlobsKey|);
      if j == |fm| || fm[j] != '[' then None
      else
        var k := IndexOf(fm, "]", j + 1);
        if k == -1 then None
        else
          assert forall m :: j + 1 <= m < k ==> fm[m] != ']' by {
            forall m | j + 1 <= m < k ensures fm[m] != ']' {
              assert fm[m] == ']' ==> OccursAt(fm, "]", m);
            }
          }
          Some(fm[j + 1..k])
  }

  /** The leftmost match of the globs pattern at or after `from`. */
  function GlobsCapture(fm: string, from: nat): (r: Option<string>)
    ensures r.Some? ==>
      exists i :: from <= i && GlobsAt(fm, i) == r && forall k :: from <= k < i ==> GlobsAt(fm, k).None?
    ensures r.None? ==> forall i :: from <= i ==> GlobsAt(fm, i).None?
    decreases |fm| - from
  {
    if from + |GlobsKey| > |fm| then None
    else if GlobsAt(fm, from).Some? then GlobsAt(fm, from)
    else GlobsCapture(fm, from + 1)
  }

  /** The names `extractConfigurationFromRule` adopts; anything else leaves the default. */
  function ReadStrategy(w: string): (r: Option<Strategy>)
    ensures r.Some? ==> StrategyName(r.value) == w
    ensures forall s: Strategy :: w == StrategyName(s) ==> r == Some(s)
  {
    if w == "Always" then Some(Always)
    else if w == "Auto Attached" then Some(AutoAttached)
    else if w == "Manual" then Some(Manual)
    else None
  }

  /** `.map(g => g.trim().replace(/"/g, '')).filter(g => g)` over the comma-separated pieces. */
  function Items(pieces: seq<string>): (r: seq<string>)
    ensures forall k :: 0 <= k < |r| ==> r[k] != [] && '"' !in r[k]
  {
    if pieces == [] then []
    else
      var g := RemoveChar(Trim(pieces[0]), '"');
      (if g == [] then [] else [g]) + Items(pieces[1..])
  }

  /**
   * The configuration an applied rule's text records. `phrase` selects the strategy pattern:
   * false is the extension's `\w+`, true the corrected `\w[\w ]*`.
   */
  function ExtractWith(content: string, phrase: bool): Config {
    match Frontmatter(content)
    case None => Config(Always, None)
    case Some(fm) =>
      var strategy :=
        match StrategyCapture(fm, 0, phrase)
        case Some(w) => (match ReadStrategy(w) case Some(s) => s case None => Always)
        case None => Always;
      var globs :=
        match GlobsCapture(fm, 0)
        case Some(cap) => (var gs := Items(Split(cap, ',')); if gs == [] then None else Some(gs))
        case None => None;
      Config(strategy, globs)
  }

  /** `extractConfigurationFromRule` as the extension writes it. */
  function ExtractConfiguration(content: string): Config {
    ExtractWith(content, false)
  }

  /** `extractConfigurationFromRule` with the strategy pattern that reads `Auto Attached` whole. */
  function ExtractConfigurationCorrected(content: string): Config {
    ExtractWith(content, true)
  }

  /**
   * The extension's reader never reports `Auto Attached`: its `\w+` stops at the space,
   * captures `Auto`, and `Auto` is not an adopted name.
   */
  lemma NeverAutoAttached(content: string)
    ensures ExtractConfiguration(content).applyStrategy != AutoAttached
  {
    if fm :| Frontmatter(content) == Some(fm) {
      if w :| StrategyCapture(fm, 0, false) == Some(w) {
        var i :| 0 <= i && StrategyAt(fm, i, false) == Some(w);
        WordNotAutoAttached(w);
      }
    }
  }

  lemma WordNotAutoAttached(w: string)
    requires forall k :: 0 <= k < |w| ==> IsWordChar(w[k])
    ensures ReadStrategy(w) != Some(AutoAttached)
  {
    var name := StrategyName(AutoAttached);
    assert |name| == 13 && !IsWordChar(name[4]);
    assert w != name by {
      if |w| == 13 { assert IsWordChar(w[4]); }
    }
  }

  /** What reading back can at best recover: empty glob lists are not written. */
  function Recorded(c: Config): Config {
    Config(c.applyStrategy, if HasGlobs(c) then c.globs else None)
  }

  // ---------------------------------------------------------------- reading back what was written

  /** `key` occurs in `l` at most at its start. */
  ghost predicate KeyOnlyAtStart(l: string, key: string) {
    forall j :: OccursAt(l, key, j) ==> j == 0
  }

  /**
   * A header line that reads back as itself: no line break, not a `---` line, and neither
   * key anywhere but at its start.
   */
  ghost predicate PlainLine(l: string) {
    '\n' !in l && !StartsWith(l, "---") && KeyOnlyAtStart(l, StrategyKey) && KeyOnlyAtStart(l, GlobsKey)
  }

  /** Globs that survive being written as `"g"` items and read back. */
  ghost predicate Writable(gs: seq<string>) {
    forall k :: 0 <= k < |gs| ==>
      gs[k] != [] && '"' !in gs[k] && ',' !in gs[k] && ']' !in gs[k] && '\n' !in gs[k] && ':' !in gs[k]
  }

  ghost predicate GlobsWritable(c: Config) {
    c.globs.Some? ==> Writable(c.globs.value)
  }

  /** A rule text with a header made of plain lines. */
  ghost predicate Rereadable(content: string) {
    HeaderEnd(content) != -1 && forall k :: 0 <= k < |HeaderLines(content)| ==> PlainLine(HeaderLines(content)[k])
  }

  /** A colon of `a + b` with none in `b` lies in `a`. */
  lemma ColonIn(a: string, b: string, j: int)
    requires ':' !in b && 0 <= j < |a + b| && (a + b)[j] == ':'
    ensures j < |a|
  {
  }

  lemma StrategyLinePlain(c: Config)
    ensures PlainLine(StrategyLine(c))
  {
    var line, tail := StrategyLine(c), " " + StrategyName(c.applyStrategy);
    assert line == StrategyKey + tail;
    assert ':' !in tail && '\n' !in tail;
    assert '\n' !in StrategyKey;
    assert line[0] == 'a';
    forall j | OccursAt(line, StrategyKey, j) ensures j == 0 {
      assert line[j + 13] == StrategyKey[13] == ':';
      ColonIn(StrategyKey, tail, j + 13);
    }
    forall j | 0 <= j ensures !OccursAt(line, GlobsKey, j) {
      if j + 6 <= |line| {
        if j == 8 {
          assert line[8] == 'a' != GlobsKey[0];
        } else if j + 5 < 13 {
          assert line[j + 5] == StrategyKey[j + 5] != ':';
        } else {
          assert line[j + 5] != ':' by {
            if line[j + 5] == ':' { ColonIn(StrategyKey, tail, j + 5); }
          }
        }
        assert line[j..j + 6][5] == line[j + 5];
      }
    }
  }

  lemma GlobsLinePlain(gs: seq<string>)
    requires Writable(gs)
    ensures PlainLine(GlobsLine(gs))
  {
    var inner := Join(Quoted(gs), ", ");
    forall k | 0 <= k < |gs| ensures ':' !in Quote(gs[k]) && '\n' !in Quote(gs[k]) { }
    JoinNoChar(Quoted(gs), ", ", ':');
    JoinNoChar(Quoted(gs), ", ", '\n');
    var line, tail := GlobsLine(gs), " [" + inner + "]";
    assert line == GlobsKey + tail;
    assert ':' !in tail && '\n' !in tail;
    assert line[0] == 'g';
    forall j | OccursAt(line, GlobsKey, j) ensures j == 0 {
      assert line[j + 5] == GlobsKey[5] == ':';
      ColonIn(GlobsKey, tail, j + 5);
    }
    forall j | 0 <= j ensures !OccursAt(line, StrategyKey, j) {
      if j + 14 <= |line| {
        assert line[j + 13] != ':' by {
          if line[j + 13] == ':' { ColonIn(GlobsKey, tail, j + 13); }
        }
        assert line[j..j + 14][13] == line[j + 13];
      }
    }
  }

  /** Every configured header line is an original line or one of the two written lines. */
  lemma NewLineSource(lines: seq<string>, c: Config, l: string)
    requires l in NewLines(lines, c)
    ensures l in lines || l == StrategyLine(c) || (HasGlobs(c) && l == GlobsLine(c.globs.value))
  {
    RewrittenMember(lines, c, l);
    if l in Rewritten(lines, c) {
      var k :| 0 <= k < |lines| && l in RewriteLine(lines[k], c);
    }
  }

  lemma NewLinesPlain(lines: seq<string>, c: Config)
    requires forall k :: 0 <= k < |lines| ==> PlainLine(lines[k])
    requires GlobsWritable(c)
    ensures forall k :: 0 <= k < |NewLines(lines, c)| ==> PlainLine(NewLines(lines, c)[k])
  {
    StrategyLinePlain(c);
    if HasGlobs(c) { GlobsLinePlain(c.globs.value); }
    forall k | 0 <= k < |NewLines(lines, c)| ensures PlainLine(NewLines(lines, c)[k]) {
      NewLineSource(lines, c, NewLines(lines, c)[k]);
    }
  }

  /** Plain lines joined by line breaks contain no `\n---`. */
  lemma NoDelimiterInside(ls: seq<string>)
    requires forall k :: 0 <= k < |ls| ==> PlainLine(ls[k])
    ensures forall i :: !OccursAt(Join(ls, "\n"), "\n---", i)
  {
    forall k | 0 <= k < |ls| ensures '\n' !in ls[k] && !StartsWith(ls[k], "---") {
      assert PlainLine(ls[k]);
    }
    assert "\n" == ['\n'] && "\n---" == ['\n'] + "---";
    forall i | OccursAt(Join(ls, "\n"), "\n---", i) ensures false {
      JoinLineStart(ls, '\n', "---", i);
    }
  }

  /** The first `\n---` after the opening line is the one that closes a delimiter-free header. */
  lemma FirstDelimiter(fm: string, rest: string)
    requires forall i :: !OccursAt(fm, "\n---", i)
    ensures IndexOf("---\n" + fm + "\n---" + rest, "\n---", 4) == 4 + |fm|
  {
    var s, n := "---\n" + fm + "\n---" + rest, 4 + |fm|;
    assert s[n..n + 4] == "\n---";
    assert OccursAt(s, "\n---", n);
    forall i | 4 <= i < n ensures !OccursAt(s, "\n---", i) {
      if i + 4 <= n {
        assert s[i..i + 4] == fm[i - 4..i];
        assert !OccursAt(fm, "\n---", i - 4);
      } else if i + 4 <= |s| {
        assert s[n] == '\n';
        assert s[i..i + 4][n - i] == s[n];
      }
    }
  }

  /** Reading a configured text finds its whole new header. */
  lemma ConfiguredFrontmatter(content: string, c: Config)
    requires Rereadable(content) && GlobsWritable(c)
    ensures Frontmatter(Configured(content, c)) == Some(Join(NewLines(HeaderLines(content), c), "\n"))
  {
    var p := HeaderEnd(content);
    var lines := HeaderLines(content);
    NewLinesPlain(lines, c);
    var fm := Join(NewLines(lines, c), "\n");
    NoDelimiterInside(NewLines(lines, c));
    FrontmatterOf(fm, content[p + 5..]);
    assert Configured(content, c) == "---\n" + fm + "\n---\n" + content[p + 5..];
  }

  lemma FrontmatterOf(fm: string, body: string)
    requires forall i :: !OccursAt(fm, "\n---", i)
    ensures Frontmatter("---\n" + fm + "\n---\n" + body) == Some(fm)
  {
    var x := "---\n" + fm;
    var r := x + "\n---\n" + body;
    AppendAssoc(x, "\n---", "\n" + body);
    AppendAssoc(x, "\n---\n", body);
    AppendAssoc("\n---", "\n", body);
    assert r == x + "\n---" + ("\n" + body);
    FirstDelimiter(fm, "\n" + body);
    assert r[..4] == "---\n";
    assert r[4..4 + |fm|] == fm;
  }

  /** The first line that starts with `key`, or -1. */
  function FirstWith(ls: seq<string>, key: string): (m: int)
    ensures -1 <= m < |ls|
    ensures m >= 0 ==> StartsWith(ls[m], key) && forall k :: 0 <= k < m ==> !StartsWith(ls[k], key)
    ensures m == -1 ==> forall k :: 0 <= k < |ls| ==> !StartsWith(ls[k], key)
  {
    if ls == [] then -1
    else if StartsWith(ls[0], key) then 0
    else
      var m := FirstWith(ls[1..], key);
      if m == -1 then -1 else m + 1
  }

  /** Where line `m` starts in the lines joined by line breaks. */
  function LineStart(ls: seq<string>, m: nat): nat
    requires m <= |ls|
  {
    if m == 0 then 0 else |Join(ls[..m], "\n")| + 1
  }

  /** The first line of a join, and what follows it. */
  lemma JoinHead(ls: seq<string>)
    requires ls != []
    ensures OccursAt(Join(ls, "\n"), ls[0], 0)
    ensures |ls[0]| == |Join(ls, "\n")| || Join(ls, "\n")[|ls[0]|] == '\n'
  {
    if |ls| > 1 {
      assert Join(ls, "\n") == ls[0] + "\n" + Join(ls[1..], "\n");
      assert Join(ls, "\n")[..|ls[0]|] == ls[0];
    }
  }

  /** Joining splits at any line. */
  lemma JoinAt(ls: seq<string>, m: nat)
    requires 0 < m < |ls|
    ensures Join(ls, "\n") == Join(ls[..m], "\n") + "\n" + Join(ls[m..], "\n")
  {
    AppendHalves(ls[..m], ls[m..]);
    assert ls == ls[..m] + ls[m..];
    JoinAppend(ls[..m], ls[m..], "\n");
  }

  /** Line `m` sits at `LineStart(ls, m)`, followed by a line break or the end. */
  lemma LineAt(ls: seq<string>, m: nat)
    requires m < |ls|
    ensures var s, o := Join(ls, "\n"), LineStart(ls, m);
      OccursAt(s, ls[m], o) && (o + |ls[m]| == |s| || s[o + |ls[m]|] == '\n')
  {
    var b := Join(ls[m..], "\n");
    JoinHead(ls[m..]);
    assert ls[m..][0] == ls[m];
    if m > 0 {
      JoinAt(ls, m);
      var a := Join(ls[..m], "\n");
      Shifted(a, b, ls[m]);
    }
  }

  lemma Shifted(a: string, b: string, x: string)
    requires OccursAt(b, x, 0) && (|x| == |b| || b[|x|] == '\n')
    ensures var s := a + "\n" + b;
      OccursAt(s, x, |a| + 1) && (|a| + 1 + |x| == |s| || s[|a| + 1 + |x|] == '\n')
  {
    var s := a + "\n" + b;
    assert s[|a| + 1..] == b;
    assert s[|a| + 1..|a| + 1 + |x|] == b[..|x|];
  }

  /** Before the first line that starts with a key, the joined lines hold no occurrence of it. */
  lemma NoKeyBefore(ls: seq<string>, key: string, m: nat)
    requires key != [] && '\n' !in key
    requires forall k :: 0 <= k < |ls| ==> KeyOnlyAtStart(ls[k], key)
    requires m <= |ls| && forall k :: 0 <= k < m ==> !StartsWith(ls[k], key)
    ensures forall i :: 0 <= i < LineStart(ls, m) ==> !OccursAt(Join(ls, "\n"), key, i)
  {
    if 0 < m {
      var a := Join(ls[..m], "\n");
      forall k | 0 <= k < m ensures KeyOnlyAtStart(ls[..m][k], key) && !StartsWith(ls[..m][k], key) {
        assert ls[..m][k] == ls[k];
      }
      NoKeyAnywhere(ls[..m], key);
      if m < |ls| {
        JoinAt(ls, m);
        forall i | 0 <= i < |a| + 1 && OccursAt(Join(ls, "\n"), key, i) ensures false {
          OccursAcross(a, '\n', Join(ls[m..], "\n"), key, i);
        }
      } else {
        assert ls[..m] == ls;
      }
    }
  }

  /** With no line starting with a key, the joined lines hold no occurrence of it at all. */
  lemma NoKeyAnywhere(ls: seq<string>, key: string)
    requires key != [] && '\n' !in key
    requires forall k :: 0 <= k < |ls| ==> KeyOnlyAtStart(ls[k], key) && !StartsWith(ls[k], key)
    ensures forall i :: !OccursAt(Join(ls, "\n"), key, i)
  {
    forall i | OccursAt(Join(ls, "\n"), key, i) ensures false {
      JoinOccurrence(ls, '\n', key, i);
    }
  }

  /** A greedy run over `x` stops right after it when the next character cannot continue it. */
  lemma RunOver(s: string, i: nat, x: string, phrase: bool)
    requires OccursAt(s, x, i)
    requires forall k :: 0 <= k < |x| ==> RunChar(x[k], phrase)
    requires i + |x| == |s| || !RunChar(s[i + |x|], phrase)
    ensures RunEnd(s, i, phrase) == i + |x|
  {
    assert forall k :: i <= k < i + |x| ==> s[k] == s[i..i + |x|][k - i];
  }

  /** The text of an occurrence, piece by piece. */
  lemma Window(s: string, o: nat, x: string, a: nat, b: nat)
    requires OccursAt(s, x, o) && a <= b <= |x|
    ensures s[o + a..o + b] == x[a..b]
  {
    assert forall k :: a <= k < b ==> x[k] == s[o..o + |x|][k] == s[o + k];
  }

  lemma StrategyLineParts(c: Config)
    ensures var line, name := StrategyLine(c), StrategyName(c.applyStrategy);
      |line| == 15 + |name| && line[..14] == StrategyKey && line[14] == ' ' && line[15..] == name
  {
  }

  /** What the two capture patterns make of each strategy name. */
  lemma NameRuns(st: Strategy)
    ensures var name := StrategyName(st);
      && name != [] && IsWordChar(name[0]) && !IsSpace(name[0]) && !IsSpace(name[|name| - 1])
      && (forall k :: 0 <= k < |name| ==> RunChar(name[k], true))
      && (st != AutoAttached ==> forall k :: 0 <= k < |name| ==> RunChar(name[k], false))
      && (st == AutoAttached ==> name[..4] == "Auto" && name[4] == ' ')
  {
    var name := StrategyName(st);
    match st
    case Always => assert name == "Always";
    case Manual => assert name == "Manual";
    case AutoAttached =>
      assert name == "Auto Attached";
      assert name[..4] == "Auto";
  }

  lemma AutoRuns()
    ensures forall k :: 0 <= k < |"Auto"| ==> RunChar("Auto"[k], false)
  {
  }

  /**
   * The strategy pattern tried where a written `applyStrategy:` line starts: the corrected
   * pattern captures the whole name, the extension's only its first word.
   */
  lemma StrategyAtLine(s: string, o: nat, c: Config)
    requires OccursAt(s, StrategyLine(c), o)
    requires o + |StrategyLine(c)| == |s| || s[o + |StrategyLine(c)|] == '\n'
    ensures StrategyAt(s, o, true) == Some(StrategyName(c.applyStrategy))
    ensures StrategyAt(s, o, false) ==
      Some(if c.applyStrategy == AutoAttached then "Auto" else StrategyName(c.applyStrategy))
  {
    StrategyHead(s, o, c);
    StrategyPhraseAt(s, o, c);
    StrategyWordAt(s, o, c);
  }

  /** A written strategy line: the key, one space, and the name right after it. */
  lemma StrategyHead(s: string, o: nat, c: Config)
    requires OccursAt(s, StrategyLine(c), o)
    ensures OccursAt(s, StrategyKey, o) && o + 15 <= |s| && SkipSpaces(s, o + 14) == o + 15
    ensures OccursAt(s, StrategyName(c.applyStrategy), o + 15)
  {
    var line, name := StrategyLine(c), StrategyName(c.applyStrategy);
    StrategyLineParts(c);
    NameRuns(c.applyStrategy);
    Window(s, o, line, 0, 14);
    Window(s, o, line, 15, |line|);
    assert s[o + 14] == line[14];
    assert s[o + 15] == name[0];
  }

  /** The corrected pattern reads the whole name. */
  lemma StrategyPhraseAt(s: string, o: nat, c: Config)
    requires OccursAt(s, StrategyKey, o) && o + 15 <= |s| && SkipSpaces(s, o + 14) == o + 15
    requires OccursAt(s, StrategyName(c.applyStrategy), o + 15)
    requires o + 15 + |StrategyName(c.applyStrategy)| == |s| || s[o + 15 + |StrategyName(c.applyStrategy)|] == '\n'
    ensures StrategyAt(s, o, true) == Some(StrategyName(c.applyStrategy))
  {
    var name := StrategyName(c.applyStrategy);
    NameRuns(c.applyStrategy);
    assert s[o + 15] == name[0];
    RunOver(s, o + 15, name, true);
    assert TrimEnd(name) == name;
    assert s[o + 15..RunEnd(s, o + 15, true)] == name;
  }

  /** The extension's pattern reads the name's first word. */
  lemma StrategyWordAt(s: string, o: nat, c: Config)
    requires OccursAt(s, StrategyKey, o) && o + 15 <= |s| && SkipSpaces(s, o + 14) == o + 15
    requires OccursAt(s, StrategyName(c.applyStrategy), o + 15)
    requires o + 15 + |StrategyName(c.applyStrategy)| == |s| || s[o + 15 + |StrategyName(c.applyStrategy)|] == '\n'
    ensures StrategyAt(s, o, false) ==
      Some(if c.applyStrategy == AutoAttached then "Auto" else StrategyName(c.applyStrategy))
  {
    var name := StrategyName(c.applyStrategy);
    NameRuns(c.applyStrategy);
    assert s[o + 15] == name[0];
    if c.applyStrategy == AutoAttached {
      assert OccursAt(s, "Auto", o + 15) by {
        Window(s, o + 15, name, 0, 4);
      }
      assert s[o + 19] == name[4];
      AutoRuns();
      RunOver(s, o + 15, "Auto", false);
      assert s[o + 15..RunEnd(s, o + 15, false)] == "Auto";
    } else {
      RunOver(s, o + 15, name, false);
      assert s[o + 15..RunEnd(s, o + 15, false)] == name;
    }
  }

  lemma GlobsLineParts(gs: seq<string>)
    ensures var line, inner := GlobsLine(gs), Join(Quoted(gs), ", ");
      |line| == 9 + |inner| && line[..6] == GlobsKey && line[6] == ' ' && line[7] == '['
      && line[8..|line| - 1] == inner && line[|line| - 1] == ']'
  {
    var line, inner := GlobsLine(gs), Join(Quoted(gs), ", ");
    assert line == "globs: [" + inner + "]";
  }

  /** The globs pattern tried where a written `globs:` line starts captures its bracketed items. */
  lemma GlobsAtLine(s: string, o: nat, gs: seq<string>)
    requires Writable(gs) && OccursAt(s, GlobsLine(gs), o)
    ensures GlobsAt(s, o) == Some(Join(Quoted(gs), ", "))
  {
    var inner := Join(Quoted(gs), ", ");
    forall k | 0 <= k < |gs| ensures ']' !in Quote(gs[k]) { }
    JoinNoChar(Quoted(gs), ", ", ']');
    var line := GlobsLine(gs);
    GlobsLineParts(gs);
    Window(s, o, line, 0, 6);
    Window(s, o, line, 8, |line| - 1);
    assert OccursAt(s, GlobsKey, o);
    assert s[o + 6] == line[6] && s[o + 7] == line[7];
    assert s[o + |line| - 1] == line[|line| - 1];
    GlobsAtBracket(s, o, inner);
  }

  /** After `globs:`, one space and `[`, the pattern captures up to the first `]`. */
  lemma GlobsAtBracket(s: string, o: nat, inner: string)
    requires OccursAt(s, GlobsKey, o) && o + 9 + |inner| <= |s|
    requires s[o + 6] == ' ' && s[o + 7] == '[' && s[o + 8..o + 8 + |inner|] == inner
    requires ']' !in inner && s[o + 8 + |inner|] == ']'
    ensures GlobsAt(s, o) == Some(inner)
  {
    var e := o + 8 + |inner|;
    assert SkipSpaces(s, o + 6) == o + 7;
    assert OccursAt(s, "]", e);
    forall m | o + 8 <= m < e ensures !OccursAt(s, "]", m) {
      assert s[m] == inner[m - o - 8];
    }
    assert IndexOf(s, "]", o + 8) == e;
  }

  /** Each item prefixed with a space, as `, ` leaves them after splitting at `,`. */
  function Spaced(xs: seq<string>): (r: seq<string>)
    ensures |r| == |xs| && forall k :: 0 <= k < |xs| ==> r[k] == " " + xs[k]
  {
    seq(|xs|, k requires 0 <= k < |xs| => " " + xs[k])
  }

  lemma Regroup(a: string, b: string)
    ensures (" " + a) + "," + (" " + b) == " " + (a + ", " + b)
  {
  }

  lemma {:induction false} SpacedJoin(ys: seq<string>)
    requires ys != []
    ensures Join(Spaced(ys), ",") == " " + Join(ys, ", ")
    decreases |ys|
  {
    if |ys| > 1 {
      assert Spaced(ys)[1..] == Spaced(ys[1..]);
      SpacedJoin(ys[1..]);
      Regroup(ys[0], Join(ys[1..], ", "));
    }
  }

  /** Joining with `, ` is joining with `,` pieces that carry the space. */
  lemma CommaSpaceJoin(xs: seq<string>)
    requires xs != []
    ensures Join(xs, ", ") == Join([xs[0]] + Spaced(xs[1..]), ",")
  {
    var pieces := [xs[0]] + Spaced(xs[1..]);
    if |xs| > 1 {
      assert pieces[1..] == Spaced(xs[1..]);
      SpacedJoin(xs[1..]);
      AppendAssoc(xs[0], ",", " " + Join(xs[1..], ", "));
      AppendAssoc(xs[0], ", ", Join(xs[1..], ", "));
      AppendAssoc(",", " ", Join(xs[1..], ", "));
    }
  }

  lemma {:induction false} ItemsAppend(a: seq<string>, b: seq<string>)
    ensures Items(a + b) == Items(a) + Items(b)
    decreases |a|
  {
    if a == [] {
      assert a + b == b;
    } else {
      assert (a + b)[1..] == a[1..] + b;
      ItemsAppend(a[1..], b);
      var g := RemoveChar(Trim(a[0]), '"');
      AppendAssoc(if g == [] then [] else [g], Items(a[1..]), Items(b));
    }
  }

  /** A leading space changes no item: `trim` drops it. */
  lemma {:induction false} ItemsSpaced(xs: seq<string>)
    ensures Items(Spaced(xs)) == Items(xs)
    decreases |xs|
  {
    if xs != [] {
      var x := xs[0];
      assert (" " + x)[1..] == x;
      assert TrimStart(" " + x) == TrimStart(x);
      assert Spaced(xs)[1..] == Spaced(xs[1..]);
      ItemsSpaced(xs[1..]);
    }
  }

  lemma QuoteRead(g: string)
    requires '"' !in g
    ensures RemoveChar(Trim(Quote(g)), '"') == g
  {
    TrimNoop(Quote(g));
    RemoveCharAppend("\"" + g, "\"", '"');
    RemoveCharAppend("\"", g, '"');
    RemoveCharAbsent(g, '"');
    assert RemoveChar("\"", '"') == [];
  }

  lemma {:induction false} ItemsQuoted(gs: seq<string>)
    requires Writable(gs)
    ensures Items(Quoted(gs)) == gs
    decreases |gs|
  {
    if gs != [] {
      QuoteRead(gs[0]);
      assert Quoted(gs)[1..] == Quoted(gs[1..]);
      assert Writable(gs[1..]);
      ItemsQuoted(gs[1..]);
      ConsTail(gs);
    }
  }

  /** Reading the written items back: `split(',')`, `trim`, unquote, drop empties. */
  lemma GlobItemsRead(gs: seq<string>)
    requires Writable(gs) && gs != []
    ensures Items(Split(Join(Quoted(gs), ", "), ',')) == gs
  {
    var q := Quoted(gs);
    var pieces := [q[0]] + Spaced(q[1..]);
    CommaSpaceJoin(q);
    forall k | 0 <= k < |pieces| ensures ',' !in pieces[k] {
      if k > 0 { assert pieces[k] == " " + q[k]; }
    }
    SplitJoin(pieces, ',');
    ItemsAppend([q[0]], Spaced(q[1..]));
    ItemsSpaced(q[1..]);
    ItemsAppend([q[0]], q[1..]);
    assert [q[0]] + q[1..] == q;
    ItemsQuoted(gs);
  }

  /** The leftmost strategy match in configured lines is at the first written strategy line. */
  lemma StrategyFound(ls: seq<string>, c: Config, phrase: bool)
    requires forall k :: 0 <= k < |ls| ==> PlainLine(ls[k])
    requires StrategyLine(c) in ls
    requires forall l :: l in ls && StartsWith(l, StrategyKey) ==> l == StrategyLine(c)
    ensures StrategyCapture(Join(ls, "\n"), 0, phrase) ==
      Some(if c.applyStrategy == AutoAttached && !phrase then "Auto" else StrategyName(c.applyStrategy))
  {
    KeyLines(c);
    var s := Join(ls, "\n");
    var m := FirstWith(ls, StrategyKey);
    var k0 :| 0 <= k0 < |ls| && ls[k0] == StrategyLine(c);
    assert m >= 0 by { assert StartsWith(ls[k0], StrategyKey); }
    assert ls[m] == StrategyLine(c);
    var o := LineStart(ls, m);
    LineAt(ls, m);
    KeyChars();
    NoKeyBefore(ls, StrategyKey, m);
    StrategyAtLine(s, o, c);
    CaptureFirst(s, o, phrase);
  }

  lemma CaptureFirst(s: string, o: nat, phrase: bool)
    requires forall i :: 0 <= i < o ==> !OccursAt(s, StrategyKey, i)
    requires StrategyAt(s, o, phrase).Some?
    ensures StrategyCapture(s, 0, phrase) == StrategyAt(s, o, phrase)
  {
    var r := StrategyCapture(s, 0, phrase);
    var i :| 0 <= i && StrategyAt(s, i, phrase) == r && forall k :: 0 <= k < i ==> StrategyAt(s, k, phrase).None?;
  }

  /** The leftmost globs match in configured lines is at the first written globs line. */
  lemma GlobsFound(ls: seq<string>, gs: seq<string>)
    requires forall k :: 0 <= k < |ls| ==> PlainLine(ls[k])
    requires Writable(gs) && gs != [] && GlobsLine(gs) in ls
    requires forall l :: l in ls && StartsWith(l, GlobsKey) ==> l == GlobsLine(gs)
    ensures GlobsCapture(Join(ls, "\n"), 0) == Some(Join(Quoted(gs), ", "))
  {
    KeyLines(Config(Always, Some(gs)));
    var s := Join(ls, "\n");
    var m := FirstWith(ls, GlobsKey);
    var k0 :| 0 <= k0 < |ls| && ls[k0] == GlobsLine(gs);
    assert m >= 0 by { assert StartsWith(ls[k0], GlobsKey); }
    var o := LineStart(ls, m);
    LineAt(ls, m);
    KeyChars();
    NoKeyBefore(ls, GlobsKey, m);
    GlobsAtLine(s, o, gs);
    GlobsCaptureFirst(s, o);
  }

  /** Configured lines without a globs line hold no globs match. */
  lemma GlobsMissing(ls: seq<string>)
    requires forall k :: 0 <= k < |ls| ==> PlainLine(ls[k]) && !StartsWith(ls[k], GlobsKey)
    ensures GlobsCapture(Join(ls, "\n"), 0).None?
  {
    forall k | 0 <= k < |ls| ensures KeyOnlyAtStart(ls[k], GlobsKey) && !StartsWith(ls[k], GlobsKey) { }
    KeyChars();
    NoKeyAnywhere(ls, GlobsKey);
    NoGlobsMatch(Join(ls, "\n"));
  }

  lemma NoGlobsMatch(s: string)
    requires forall i :: !OccursAt(s, GlobsKey, i)
    ensures GlobsCapture(s, 0).None?
  {
  }

  lemma GlobsCaptureFirst(s: string, o: nat)
    requires forall i :: 0 <= i < o ==> !OccursAt(s, GlobsKey, i)
    requires GlobsAt(s, o).Some?
    ensures GlobsCapture(s, 0) == GlobsAt(s, o)
  {
    var r := GlobsCapture(s, 0);
    var i :| 0 <= i && GlobsAt(s, i) == r && forall k :: 0 <= k < i ==> GlobsAt(s, k).None?;
  }

  /** What both readers find in a configured text. */
  lemma ConfiguredCaptures(content: string, c: Config, phrase: bool)
    requires Rereadable(content) && GlobsWritable(c)
    ensures var fm := Join(NewLines(HeaderLines(content), c), "\n");
      && StrategyCapture(fm, 0, phrase) ==
        Some(if c.applyStrategy == AutoAttached && !phrase then "Auto" else StrategyName(c.applyStrategy))
      && GlobsCapture(fm, 0) == (if HasGlobs(c) then Some(Join(Quoted(c.globs.value), ", ")) else None)
  {
    var lines := HeaderLines(content);
    NewLinesPlain(lines, c);
    StrategyPart(lines, c, phrase);
    GlobsPart(lines, c);
  }

  lemma StrategyPart(lines: seq<string>, c: Config, phrase: bool)
    requires forall k :: 0 <= k < |NewLines(lines, c)| ==> PlainLine(NewLines(lines, c)[k])
    ensures StrategyCapture(Join(NewLines(lines, c), "\n"), 0, phrase) ==
      Some(if c.applyStrategy == AutoAttached && !phrase then "Auto" else StrategyName(c.applyStrategy))
  {
    var ls := NewLines(lines, c);
    forall l | l in ls && StartsWith(l, StrategyKey) ensures l == StrategyLine(c) {
      ConfiguredStrategy(lines, c, l);
    }
    ConfiguredStrategy(lines, c, StrategyLine(c));
    StrategyFound(ls, c, phrase);
  }

  lemma GlobsPart(lines: seq<string>, c: Config)
    requires forall k :: 0 <= k < |NewLines(lines, c)| ==> PlainLine(NewLines(lines, c)[k])
    requires GlobsWritable(c)
    ensures GlobsCapture(Join(NewLines(lines, c), "\n"), 0) ==
      (if HasGlobs(c) then Some(Join(Quoted(c.globs.value), ", ")) else None)
  {
    var ls := NewLines(lines, c);
    if HasGlobs(c) {
      forall l | l in ls && StartsWith(l, GlobsKey) ensures l == GlobsLine(c.globs.value) {
        ConfiguredGlobs(lines, c, l);
      }
      ConfiguredGlobs(lines, c, GlobsLine(c.globs.value));
      GlobsFound(ls, c.globs.value);
    } else {
      forall k | 0 <= k < |ls| ensures !StartsWith(ls[k], GlobsKey) {
        ConfiguredGlobs(lines, c, ls[k]);
      }
      GlobsMissing(ls);
    }
  }

  /**
   * Reading back a configured rule with the pattern as written: everything comes back
   * except `Auto Attached`, which is read as `Always`.
   */
  lemma ReadBackAsWritten(content: string, c: Config)
    requires Rereadable(content) && GlobsWritable(c)
    ensures ExtractConfiguration(Configured(content, c)) ==
      (var r := Recorded(c); if r.applyStrategy == AutoAttached then r.(applyStrategy := Always) else r)
  {
    ReadBack(content, c, false);
  }

  /** With the corrected pattern, reading back a configured rule gives the configuration written. */
  lemma ReadBackCorrected(content: string, c: Config)
    requires Rereadable(content) && GlobsWritable(c)
    ensures ExtractConfigurationCorrected(Configured(content, c)) == Recorded(c)
  {
    ReadBack(content, c, true);
  }

  lemma ReadBack(content: string, c: Config, phrase: bool)
    requires Rereadable(content) && GlobsWritable(c)
    ensures ExtractWith(Configured(content, c), phrase) ==
      (var r := Recorded(c); if r.applyStrategy == AutoAttached && !phrase then r.(applyStrategy := Always) else r)
  {
    ReadBackStrategy(content, c, phrase);
    ReadBackGlobs(content, c, phrase);
  }

  /** The strategy read back: the one written, except a truncated `Auto Attached` without the phrase pattern. */
  lemma ReadBackStrategy(content: string, c: Config, phrase: bool)
    requires Rereadable(content) && GlobsWritable(c)
    ensures ExtractWith(Configured(content, c), phrase).applyStrategy ==
      if c.applyStrategy == AutoAttached && !phrase then Always else c.applyStrategy
  {
    ConfiguredFrontmatter(content, c);
    ConfiguredCaptures(content, c, phrase);
    var w := if c.applyStrategy == AutoAttached && !phrase then "Auto" else StrategyName(c.applyStrategy);
    if c.applyStrategy == AutoAttached && !phrase {
      assert ReadStrategy(w) == None;
    } else {
      assert ReadStrategy(w) == Some(c.applyStrategy);
    }
  }

  /** The globs read back: the ones written, when there are any. */
  lemma ReadBackGlobs(content: string, c: Config, phrase: bool)
    requires Rereadable(content) && GlobsWritable(c)
    ensures ExtractWith(Configured(content, c), phrase).globs == Recorded(c).globs
  {
    ConfiguredFrontmatter(content, c);
    ConfiguredCaptures(content, c, phrase);
    if HasGlobs(c) {
      GlobItemsRead(c.globs.value);
    }
  }
}
