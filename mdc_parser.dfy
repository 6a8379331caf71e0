/**
 * Reading `.mdc` rule files: the optional YAML frontmatter between two `---` lines, the
 * rewrite of bare `key:` lines before decoding, the removal of `null` fields, the type check
 * of the decoded fields, building a rule (sanitised id, title from a `# ` heading), collecting
 * the rules of a directory, the search filter with the sort, and the preview.
 * Decoding YAML itself is an input: a function from text to a value or a failure.
 */
module MdcParser {
  import opened Wrappers
  import opened Strings
  import Paths
  import opened FileSystem
  import FileUtils
  import Json
  import MetadataService
  import Sequences

  /** A value as the YAML decoder hands it back. */
  datatype Yaml =
    | YNull
    | YBool(b: bool)
    | YNum(n: int)
    | YStr(s: string)
    | YList(items: seq<Yaml>)
    | YMap(fields: seq<(string, Yaml)>)

  /** JavaScript truthiness of a field that may be absent. */
  predicate Truthy(v: Option<Yaml>) {
    match v
    case None => false
    case Some(YNull) => false
    case Some(YBool(b)) => b
    case Some(YNum(n)) => n != 0
    case Some(YStr(s)) => s != ""
    case Some(_) => true
  }

  /** The frontmatter fields the extension reads; None is an absent field. */
  datatype RuleMetadata = RuleMetadata(
    description: Option<Yaml>, globs: Option<Yaml>, alwaysApply: Option<Yaml>, context: Option<Yaml>)

  const NoMetadata := RuleMetadata(None, None, None, None)

  datatype ParsedMdcFile = ParsedMdcFile(metadata: RuleMetadata, content: string)

  /** `yaml.load`: a value, or a failure for text it cannot decode. */
  type Decoder = string -> Result<Yaml>

  // ---------------------------------------------------------------- frontmatter

  function Lines(text: string): (r: seq<string>)
    ensures |r| >= 1
  {
    Split(text, '\n')
  }

  /** The first line, trimmed, starts with `---`. */
  predicate Opens(lines: seq<string>)
    requires |lines| >= 1
  {
    StartsWith(Trim(lines[0]), "---")
  }

  /** A line that closes the frontmatter: exactly `---` once trimmed. */
  predicate IsDelimiter(line: string) {
    Trim(line) == "---"
  }

  /** The first index `i >= 1` whose line is a delimiter, or -1. */
  function ClosingDelimiter(lines: seq<string>): (r: int)
    ensures r == -1 || (1 <= r < |lines| && IsDelimiter(lines[r]))
    ensures r == -1 ==> forall i :: 1 <= i < |lines| ==> !IsDelimiter(lines[i])
    ensures r != -1 ==> forall i :: 1 <= i < r ==> !IsDelimiter(lines[i])
  {
    ClosingFrom(lines, 1)
  }

  function ClosingFrom(lines: seq<string>, i: nat): (r: int)
    ensures r == -1 || (i <= r < |lines| && IsDelimiter(lines[r]))
    ensures r == -1 ==> forall k :: i <= k < |lines| ==> !IsDelimiter(lines[k])
    ensures r != -1 ==> forall k :: i <= k < r ==> !IsDelimiter(lines[k])
    decreases |lines| - i
  {
    if i >= |lines| then -1
    else if IsDelimiter(lines[i]) then i
    else ClosingFrom(lines, i + 1)
  }

  /** The loop that looks for the closing delimiter. */
  method FindClosingDelimiter(lines: seq<string>) returns (end: int)
    ensures end == ClosingDelimiter(lines)
  {
    end := -1;
    var i := 1;
    while i < |lines|
      invariant i >= 1
      invariant ClosingFrom(lines, i) == ClosingDelimiter(lines)
      decreases |lines| - i
    {
      if IsDelimiter(lines[i]) {
        end := i;
        return;
      }
      i := i + 1;
    }
  }

  /** The characterisation pins the index down: any index with these properties is the one found. */
  lemma ClosingUnique(lines: seq<string>, end: int)
    requires end == -1 || (1 <= end < |lines| && IsDelimiter(lines[end]))
    requires end == -1 ==> forall i :: 1 <= i < |lines| ==> !IsDelimiter(lines[i])
    requires end != -1 ==> forall i :: 1 <= i < end ==> !IsDelimiter(lines[i])
    ensures end == ClosingDelimiter(lines)
  {
  }

  // ---------------------------------------------------------------- pre-pass and clean-up

  /** A bare `key:` line (no space anywhere) gets an explicit `null`. */
  function PrepLine(line: string): string {
    if EndsWith(Trim(line), ":") && ' ' !in line then Trim(line) + " null" else line
  }

  function PrepLines(lines: seq<string>): (r: seq<string>)
    ensures |r| == |lines|
    ensures forall i :: 0 <= i < |lines| ==> r[i] == PrepLine(lines[i])
  {
    if lines == [] then [] else [PrepLine(lines[0])] + PrepLines(lines[1..])
  }

  /** The text handed to the decoder. */
  function Prepass(front: string): string {
    Join(PrepLines(Split(front, '\n')), "\n")
  }

  lemma TrimInside(line: string)
    ensures forall c :: c in Trim(line) ==> c in line
  {
    var s := TrimStart(line);
    assert forall c :: c in s ==> c in line;
    assert forall c :: c in TrimEnd(s) ==> c in s;
  }

  /** The rewrite adds no line break. */
  lemma PrepLineOneLine(line: string)
    requires '\n' !in line
    ensures '\n' !in PrepLine(line)
  {
    TrimInside(line);
  }

  /** The pre-pass keeps the lines apart: line `i` of its output is line `i` of the input, rewritten. */
  lemma PrepassLines(front: string)
    ensures var before, after := Split(front, '\n'), Split(Prepass(front), '\n');
      |after| == |before| && forall i :: 0 <= i < |before| ==> after[i] == PrepLine(before[i])
  {
    var before := Split(front, '\n');
    var lines := PrepLines(before);
    forall k | 0 <= k < |lines| ensures '\n' !in lines[k] {
      PrepLineOneLine(before[k]);
    }
    SplitJoin(lines, '\n');
  }

  /** A bare key line `key:` is handed to the decoder as `key: null`. */
  lemma BareKeyGetsNull(key: string)
    requires key != [] && NoSpace(key)
    ensures PrepLine(key + ":") == key + ": null"
  {
    var line := key + ":";
    assert line[0] == key[0] && line[|line| - 1] == ':';
    TrimNoop(line);
    assert ' ' !in line by {
      assert forall i :: 0 <= i < |line| ==> !IsSpace(line[i]) by {
        assert forall i :: 0 <= i < |key| ==> line[i] == key[i];
      }
    }
    assert line + " null" == key + ": null";
  }

  /** A line holding a space, such as an indented or valued one, is left alone. */
  lemma SpacedLineKept(line: string)
    requires ' ' in line
    ensures PrepLine(line) == line
  {
  }

  /** The decoded document read as metadata: the fields of a mapping, nothing otherwise. */
  function MetadataOf(doc: Yaml): RuleMetadata {
    match doc
    case YMap(fields) =>
      RuleMetadata(Field(fields, "description"), Field(fields, "globs"), Field(fields, "alwaysApply"), Field(fields, "context"))
    case _ => NoMetadata
  }

  function Field(fields: seq<(string, Yaml)>, key: string): (r: Option<Yaml>)
    ensures r.Some? <==> exists i :: 0 <= i < |fields| && fields[i].0 == key
    ensures r.Some? ==> exists i :: 0 <= i < |fields| && fields[i] == (key, r.value)
  {
    if fields == [] then None
    else if fields[0].0 == key then Some(fields[0].1)
    else
      var r := Field(fields[1..], key);
      assert forall i :: 1 <= i < |fields| ==> fields[i] == fields[1..][i - 1];
      r
  }

  /** A `null` description, globs or context becomes absent; everything else is kept. */
  function CleanNulls(m: RuleMetadata): (r: RuleMetadata)
    ensures r.description != Some(YNull) && r.globs != Some(YNull) && r.context != Some(YNull)
    ensures m.description != Some(YNull) ==> r.description == m.description
    ensures m.globs != Some(YNull) ==> r.globs == m.globs
    ensures m.context != Some(YNull) ==> r.context == m.context
    ensures r.alwaysApply == m.alwaysApply
  {
    RuleMetadata(
      if m.description == Some(YNull) then None else m.description,
      if m.globs == Some(YNull) then None else m.globs,
      m.alwaysApply,
      if m.context == Some(YNull) then None else m.context)
  }

  /** The metadata of a frontmatter text; a decoding failure gives no metadata, not an error. */
  function Decoded(decode: Decoder, front: string): (r: RuleMetadata)
    ensures decode(Prepass(front)).Err? ==> r == NoMetadata
    ensures decode(Prepass(front)).Ok? ==> r == CleanNulls(MetadataOf(decode(Prepass(front)).value))
  {
    match decode(Prepass(front))
    case Err(_) => NoMetadata
    case Ok(doc) => CleanNulls(MetadataOf(doc))
  }

  /** `parseMdcFile` on the text of a file. */
  function ParseText(text: string, decode: Decoder): ParsedMdcFile {
    ParseLines(text, Lines(text), ClosingDelimiter(Lines(text)), decode)
  }

  /** The outcome once the text is cut into lines and the closing delimiter, if any, is found. */
  function ParseLines(text: string, lines: seq<string>, end: int, decode: Decoder): ParsedMdcFile
    requires |lines| >= 1 && (end == -1 || 1 <= end < |lines|)
  {
    if !Opens(lines) || end == -1 then ParsedMdcFile(NoMetadata, Trim(text))
    else ParsedMdcFile(Decoded(decode, Join(lines[1..end], "\n")), Trim(Join(lines[end + 1..], "\n")))
  }

  /** `parseMdcFile(filePath)`: None when the file cannot be read. */
  function ParseOutcome(t: Tree, filePath: Paths.Path, decode: Decoder): (r: Option<ParsedMdcFile>)
    ensures r.Some? <==> IsFile(t, filePath)
  {
    match ReadFile(t, filePath)
    case Err(_) => None
    case Ok(text) => Some(ParseText(text, decode))
  }

  method ParseMdcFile(store: FileStore, filePath: Paths.Path, decode: Decoder) returns (r: Option<ParsedMdcFile>)
    ensures r == ParseOutcome(store.tree, filePath, decode)
  {
    var read := ReadFile(store.tree, filePath);
    if read.Err? {
      return None;
    }
    var text := read.value;
    assert ParseOutcome(store.tree, filePath, decode) == Some(ParseText(text, decode));
    var lines := Split(text, '\n');
    assert lines == Lines(text);
    if !StartsWith(Trim(lines[0]), "---") {
      return Some(ParsedMdcFile(NoMetadata, Trim(text)));
    }
    var end := FindClosingDelimiter(lines);
    assert ParseText(text, decode) == ParseLines(text, lines, end, decode);
    if end == -1 {
      return Some(ParsedMdcFile(NoMetadata, Trim(text)));
    }
    var front := Join(lines[1..end], "\n");
    var metadata := Decoded(decode, front);
    var content := Trim(Join(lines[end + 1..], "\n"));
    return Some(ParsedMdcFile(metadata, content));
  }

  /** Text whose first line does not open a frontmatter is all content. */
  lemma NoFrontmatter(text: string, decode: Decoder)
    requires !StartsWith(Trim(Lines(text)[0]), "---")
    ensures ParseText(text, decode) == ParsedMdcFile(NoMetadata, Trim(text))
  {
  }

  /** An opened frontmatter that is never closed leaves the whole text as content. */
  lemma UnclosedFrontmatter(text: string, decode: Decoder)
    requires forall i :: 1 <= i < |Lines(text)| ==> !IsDelimiter(Lines(text)[i])
    ensures ParseText(text, decode) == ParsedMdcFile(NoMetadata, Trim(text))
  {
  }

  /**
   * A file written as `---`, the frontmatter lines, `---`, then the body lines: the decoder
   * sees exactly the lines in between and the content is the body, trimmed.
   */
  lemma FrontmatterSplit(fm: seq<string>, body: seq<string>, open: string, close: string, decode: Decoder)
    requires StartsWith(Trim(open), "---") && IsDelimiter(close)
    requires '\n' !in open && '\n' !in close
    requires forall i :: 0 <= i < |fm| ==> '\n' !in fm[i] && !IsDelimiter(fm[i])
    requires forall i :: 0 <= i < |body| ==> '\n' !in body[i]
    ensures var text := Join([open] + fm + [close] + body, "\n");
      ParseText(text, decode) == ParsedMdcFile(Decoded(decode, Join(fm, "\n")), Trim(Join(body, "\n")))
  {
    var lines := [open] + fm + [close] + body;
    var text := Join(lines, "\n");
    FramedLines(open, fm, close, body);
    FramedClosing(open, fm, close, body);
    FramedSlices(open, fm, close, body);
    assert ParseText(text, decode) == ParseLines(text, lines, |fm| + 1, decode);
  }

  lemma FramedSlices(open: string, fm: seq<string>, close: string, body: seq<string>)
    ensures var lines := [open] + fm + [close] + body;
      lines[0] == open && lines[1..|fm| + 1] == fm && lines[|fm| + 2..] == body
  {
  }

  lemma FramedLines(open: string, fm: seq<string>, close: string, body: seq<string>)
    requires '\n' !in open && '\n' !in close
    requires forall i :: 0 <= i < |fm| ==> '\n' !in fm[i]
    requires forall i :: 0 <= i < |body| ==> '\n' !in body[i]
    ensures var lines := [open] + fm + [close] + body; Split(Join(lines, "\n"), '\n') == lines
  {
    var lines := [open] + fm + [close] + body;
    forall k | 0 <= k < |lines| ensures '\n' !in lines[k] {
      if 0 < k <= |fm| {
        assert lines[k] == fm[k - 1];
      } else if k > |fm| + 1 {
        assert lines[k] == body[k - |fm| - 2];
      }
    }
    SplitJoin(lines, '\n');
  }

  lemma FramedClosing(open: string, fm: seq<string>, close: string, body: seq<string>)
    requires IsDelimiter(close)
    requires forall i :: 0 <= i < |fm| ==> !IsDelimiter(fm[i])
    ensures ClosingDelimiter([open] + fm + [close] + body) == |fm| + 1
  {
    var lines := [open] + fm + [close] + body;
    assert lines[|fm| + 1] == close;
    forall i | 1 <= i < |fm| + 1 ensures !IsDelimiter(lines[i]) {
      assert lines[i] == fm[i - 1];
    }
    ClosingUnique(lines, |fm| + 1);
  }

  // ---------------------------------------------------------------- validation

  /** `validateMdcFile`: its checks, made in the order it makes them; the first failing one rejects. */
  function ValidateMdcFile(p: ParsedMdcFile): (ok: bool)
    ensures ok <==>
      && Trim(p.content) != ""
      && (Truthy(p.metadata.globs) ==> p.metadata.globs.value.YList?)
      && (p.metadata.alwaysApply.Some? ==> p.metadata.alwaysApply.value.YBool?)
      && (p.metadata.description.Some? ==> p.metadata.description.value.YStr?)
      && (p.metadata.context.Some? ==> p.metadata.context.value.YStr?)
  {
    var m := p.metadata;
    if p.content == "" || Trim(p.content) == "" then false
    else if Truthy(m.globs) && !m.globs.value.YList? then false
    else if m.alwaysApply.Some? && !m.alwaysApply.value.YBool? then false
    else if m.description.Some? && !m.description.value.YStr? then false
    else if m.context.Some? && !m.context.value.YStr? then false
    else true
  }

  /** A file without frontmatter is accepted exactly when it has non-blank text. */
  lemma ValidWithoutFrontmatter(text: string, decode: Decoder)
    requires !Opens(Lines(text)) || ClosingDelimiter(Lines(text)) == -1
    ensures ValidateMdcFile(ParseText(text, decode)) <==> exists i :: 0 <= i < |text| && !IsSpace(text[i])
  {
    var lines := Lines(text);
    assert ParseText(text, decode) == ParseLines(text, lines, ClosingDelimiter(lines), decode);
    assert ParseText(text, decode) == ParsedMdcFile(NoMetadata, Trim(text));
    TrimIdempotent(text);
    TrimEmptyIff(text);
  }

  // ---------------------------------------------------------------- rules

  datatype Rule = Rule(
    id: string,
    title: string,
    description: Option<Yaml>,
    content: string,
    metadata: RuleMetadata,
    filePath: Paths.Path,
    author: Option<string>,
    lastUpdated: Option<int>,
    team: Option<string>,
    user: Option<string>,
    tags: Option<seq<Json.Json>>)

  /**
   * What `replace(/[^a-zA-Z0-9]/g, '_')` makes of one character. Without the `u` flag the
   * expression works on UTF-16 code units, so a character above the basic plane, stored as
   * two units, becomes `__`.
   */
  function SanitiseChar(c: char): (r: string)
    ensures |r| == CodeUnits(c)
    ensures IsAlphaNum(c) ==> r == [c]
    ensures !IsAlphaNum(c) ==> forall i :: 0 <= i < |r| ==> r[i] == '_'
  {
    if IsAlphaNum(c) then [c] else if c as int >= 0x1_0000 then "__" else "_"
  }

  /** `s.replace(/[^a-zA-Z0-9]/g, '_')`: as many characters as `s` has code units, all of them word characters. */
  function Sanitise(s: string): (r: string)
    ensures |r| == Utf16Length(s)
    ensures forall i :: 0 <= i < |r| ==> IsWordChar(r[i])
  {
    if s == [] then []
    else
      var h, t := SanitiseChar(s[0]), Sanitise(s[1..]);
      assert forall i :: 0 <= i < |h + t| ==> (h + t)[i] == if i < |h| then h[i] else t[i - |h|];
      h + t
  }

  /** The replacement works character by character: sanitising a concatenation sanitises each part. */
  lemma {:induction false} SanitiseAppend(a: string, b: string)
    ensures Sanitise(a + b) == Sanitise(a) + Sanitise(b)
  {
    if a == [] {
      assert a + b == b;
    } else {
      var ab := a + b;
      assert ab[0] == a[0] && ab[1..] == a[1..] + b;
      SanitiseAppend(a[1..], b);
      Sequences.AppendAssoc(SanitiseChar(a[0]), Sanitise(a[1..]), Sanitise(b));
    }
  }

  /** In the basic plane each character is kept when it is a letter or digit, and is `_` otherwise. */
  lemma {:induction false} SanitiseBasicPlane(s: string)
    requires BasicPlane(s)
    ensures |Sanitise(s)| == |s|
    ensures forall i :: 0 <= i < |s| ==> Sanitise(s)[i] == if IsAlphaNum(s[i]) then s[i] else '_'
  {
    if s != [] {
      assert forall i :: 0 <= i < |s| - 1 ==> s[1..][i] == s[i + 1];
      SanitiseBasicPlane(s[1..]);
      var r := Sanitise(s);
      assert r == SanitiseChar(s[0]) + Sanitise(s[1..]);
      assert |SanitiseChar(s[0])| == 1;
      forall i | 0 <= i < |s| ensures r[i] == if IsAlphaNum(s[i]) then s[i] else '_' {
        if i > 0 {
          assert r[i] == Sanitise(s[1..])[i - 1];
        }
      }
    }
  }

  /** A character above the basic plane, such as U+1F600, becomes two underscores. */
  lemma SanitiseAstral(c: char)
    requires c as int >= 0x1_0000
    ensures Sanitise([c]) == "__"
  {
    assert [c][1..] == [];
  }

  /** A string of word characters is its own sanitised form. */
  lemma {:induction false} SanitiseWord(s: string)
    requires forall i :: 0 <= i < |s| ==> IsWordChar(s[i])
    ensures Sanitise(s) == s
  {
    if s != [] {
      assert forall i :: 0 <= i < |s| - 1 ==> s[1..][i] == s[i + 1];
      SanitiseWord(s[1..]);
      assert SanitiseChar(s[0]) == [s[0]];
      assert s == [s[0]] + s[1..];
    }
  }

  /** A sanitised id holds word characters only, so it needs no escaping in the metadata file. */
  lemma SanitisedIsWord(s: string)
    ensures forall i :: 0 <= i < |Sanitise(s)| ==> IsWordChar(Sanitise(s)[i])
    ensures MetadataService.PlainKey(Sanitise(s))
  {
    MetadataService.WordKeyPlain(Sanitise(s));
  }

  /** Sanitising twice is sanitising once. */
  lemma SanitiseIdempotent(s: string)
    ensures Sanitise(Sanitise(s)) == Sanitise(s)
  {
    SanitiseWord(Sanitise(s));
  }

  /** The trimmed first line of the content. */
  function FirstLine(content: string): string {
    Trim(Lines(content)[0])
  }

  /** The title: the text of a leading `# ` heading, or else the file name without `.mdc`. */
  function Title(filePath: Paths.Path, content: string): (r: string)
    ensures StartsWith(FirstLine(content), "# ") ==> r == Trim(FirstLine(content)[2..])
    ensures !StartsWith(FirstLine(content), "# ") ==> r == Paths.BasenameWithout(Paths.Basename(filePath), ".mdc")
  {
    var firstLine := FirstLine(content);
    if StartsWith(firstLine, "# ") then Trim(firstLine[2..])
    else Paths.BasenameWithout(Paths.Basename(filePath), ".mdc")
  }

  /** A content whose first line is `# ` and a heading without outer spaces is titled with the heading. */
  lemma TitleFromHeading(filePath: Paths.Path, heading: string, rest: string)
    requires heading != [] && !IsSpace(heading[0]) && !IsSpace(heading[|heading| - 1])
    requires '\n' !in heading
    ensures Title(filePath, "# " + heading + "\n" + rest) == heading
  {
    var line := "# " + heading;
    var content := line + "\n" + rest;
    assert '\n' !in line;
    FirstPiece(line, rest);
    assert Lines(content)[0] == line;
    TrimNoop(line);
    assert line[2..] == heading;
    TrimNoop(heading);
  }

  /** The first piece of `x + "\n" + y` split at line breaks is `x`. */
  lemma FirstPiece(x: string, y: string)
    requires '\n' !in x
    ensures Split(x + "\n" + y, '\n')[0] == x
  {
    SplitCons(x, '\n', y);
  }

  /**
   * `createRuleFromMdcFile`: the id is the path relative to the working directory with every
   * character outside `[a-zA-Z0-9]` replaced by `_`; description, content, metadata, team and
   * user are copied; the time is the file's modification time when it can be read.
   */
  function CreateRule(t: Tree, cwd: Paths.Path, filePath: Paths.Path, parsed: ParsedMdcFile,
                      team: Option<string>, user: Option<string>): (r: Rule)
    ensures r.id == Sanitise(Paths.Relative(cwd, filePath))
    ensures forall i :: 0 <= i < |r.id| ==> IsWordChar(r.id[i])
    ensures |r.id| == Utf16Length(Paths.Relative(cwd, filePath))
    ensures r.title == Title(filePath, parsed.content)
    ensures r.description == parsed.metadata.description && r.content == parsed.content
    ensures r.metadata == parsed.metadata && r.filePath == filePath
    ensures r.team == team && r.user == user && r.author.None? && r.tags.None?
    ensures r.lastUpdated == Modified(t, filePath)
  {
    var id := Sanitise(Paths.Relative(cwd, filePath));
    SanitisedIsWord(Paths.Relative(cwd, filePath));
    Rule(id, Title(filePath, parsed.content), parsed.metadata.description, parsed.content,
         parsed.metadata, filePath, None, Modified(t, filePath), team, user, None)
  }

  // ---------------------------------------------------------------- a directory's rules

  /** A file that reads, parses and validates. */
  predicate Accepted(t: Tree, f: Paths.Path, decode: Decoder) {
    ParseOutcome(t, f, decode).Some? && ValidateMdcFile(ParseOutcome(t, f, decode).value)
  }

  /** The rules of `files`, in order, skipping files that do not read or do not validate. */
  function RulesOf(t: Tree, cwd: Paths.Path, files: seq<Paths.Path>, team: Option<string>,
                   user: Option<string>, decode: Decoder): seq<Rule>
  {
    if files == [] then []
    else
      var f := files[|files| - 1];
      RulesOf(t, cwd, files[..|files| - 1], team, user, decode)
        + (if Accepted(t, f, decode) then [CreateRule(t, cwd, f, ParseOutcome(t, f, decode).value, team, user)] else [])
  }

  /** Every rule comes from an accepted file of the list and is built from it with the given team and user. */
  lemma {:induction false} RulesOfSound(t: Tree, cwd: Paths.Path, files: seq<Paths.Path>,
                                        team: Option<string>, user: Option<string>, decode: Decoder)
    ensures forall r :: r in RulesOf(t, cwd, files, team, user, decode) ==>
      r.filePath in files && Accepted(t, r.filePath, decode) && r.team == team && r.user == user
      && r == CreateRule(t, cwd, r.filePath, ParseOutcome(t, r.filePath, decode).value, team, user)
    ensures |RulesOf(t, cwd, files, team, user, decode)| <= |files|
  {
    if files != [] {
      var init := files[..|files| - 1];
      RulesOfSound(t, cwd, init, team, user, decode);
      assert files == init + [files[|files| - 1]];
    }
  }

  /** Every accepted file of the list gives a rule. */
  lemma {:induction false} RulesOfComplete(t: Tree, cwd: Paths.Path, files: seq<Paths.Path>,
                                           team: Option<string>, user: Option<string>, decode: Decoder)
    ensures forall f :: f in files && Accepted(t, f, decode) ==>
      exists r :: r in RulesOf(t, cwd, files, team, user, decode) && r.filePath == f
  {
    if files != [] {
      var init, f := files[..|files| - 1], files[|files| - 1];
      RulesOfComplete(t, cwd, init, team, user, decode);
      assert files == init + [f];
      var all := RulesOf(t, cwd, files, team, user, decode);
      var prev := RulesOf(t, cwd, init, team, user, decode);
      assert forall r :: r in prev ==> r in all;
      forall g | g in files && Accepted(t, g, decode)
        ensures exists r :: r in all && r.filePath == g
      {
        if g != f {
          assert g in init;
          var r :| r in prev && r.filePath == g;
          assert r in all;
        } else {
          var r := CreateRule(t, cwd, f, ParseOutcome(t, f, decode).value, team, user);
          assert r in all && r.filePath == g;
        }
      }
    }
  }

  /** One more file extends the rules by that file's rule, if it is accepted. */
  lemma RulesOfSnoc(t: Tree, cwd: Paths.Path, files: seq<Paths.Path>, i: nat,
                    team: Option<string>, user: Option<string>, decode: Decoder)
    requires i < |files|
    ensures RulesOf(t, cwd, files[..i + 1], team, user, decode)
      == RulesOf(t, cwd, files[..i], team, user, decode)
         + (if Accepted(t, files[i], decode) then [CreateRule(t, cwd, files[i], ParseOutcome(t, files[i], decode).value, team, user)] else [])
  {
    assert files[..i + 1][..i] == files[..i];
  }

  /** What `parseMdcFilesInDirectory(dir, team, user)` returns; any failure gives no rules. */
  function DirectoryRules(t: Tree, cwd: Paths.Path, dir: Paths.Path, team: Option<string>,
                          user: Option<string>, decode: Decoder): seq<Rule>
  {
    if IsDir(t, dir) then RulesOf(t, cwd, FileUtils.MdcFiles(t, dir), team, user, decode) else []
  }

  method ParseMdcFilesInDirectory(store: FileStore, cwd: Paths.Path, dir: Paths.Path, team: Option<string>,
                                  user: Option<string>, decode: Decoder) returns (rules: seq<Rule>)
    ensures rules == DirectoryRules(store.tree, cwd, dir, team, user, decode)
  {
    rules := [];
    var scan := FileUtils.ScanForMdcFiles(store, dir);
    if scan.Err? {
      return;
    }
    var files := scan.value;
    for i := 0 to |files|
      invariant rules == RulesOf(store.tree, cwd, files[..i], team, user, decode)
    {
      RulesOfSnoc(store.tree, cwd, files, i, team, user, decode);
      var parsed := ParseMdcFile(store, files[i], decode);
      if parsed.Some? && ValidateMdcFile(parsed.value) {
        var rule := CreateRule(store.tree, cwd, files[i], parsed.value, team, user);
        rules := rules + [rule];
      }
    }
    assert files[..|files|] == files;
  }

  // ---------------------------------------------------------------- search and sort

  /** The text of a string field, when it is a non-empty string (what `x && x.toLowerCase()` reads). */
  function TextOf(v: Option<Yaml>): Option<string> {
    if v.Some? && v.value.YStr? && v.value.s != "" then Some(v.value.s) else None
  }

  /** The lower-cased search term occurs in the title, description, content or context. */
  predicate Matches(r: Rule, term: string) {
    || Contains(Lower(r.title), term)
    || (TextOf(r.description).Some? && Contains(Lower(TextOf(r.description).value), term))
    || Contains(Lower(r.content), term)
    || (TextOf(r.metadata.context).Some? && Contains(Lower(TextOf(r.metadata.context).value), term))
  }

  /** A missing or blank search term keeps every rule. */
  predicate Blank(searchTerm: Option<string>) {
    searchTerm.None? || Trim(searchTerm.value) == ""
  }

  /** The rules the search keeps, in their order. */
  function FilterRules(rules: seq<Rule>, searchTerm: Option<string>): (r: seq<Rule>)
    ensures Blank(searchTerm) ==> r == rules
    ensures !Blank(searchTerm) ==> forall x :: x in r <==> x in rules && Matches(x, Trim(Lower(searchTerm.value)))
    ensures !Blank(searchTerm) ==>
      forall x :: multiset(r)[x] == (if Matches(x, Trim(Lower(searchTerm.value))) then multiset(rules)[x] else 0)
    ensures multiset(r) <= multiset(rules)
  {
    if Blank(searchTerm) then rules else KeepMatching(rules, Trim(Lower(searchTerm.value)))
  }

  /** `rules.filter(...)`: every occurrence of a matching rule is kept, and no other rule. */
  function KeepMatching(rules: seq<Rule>, term: string): (r: seq<Rule>)
    ensures forall x :: x in r <==> x in rules && Matches(x, term)
    ensures forall x :: multiset(r)[x] == (if Matches(x, term) then multiset(rules)[x] else 0)
    ensures multiset(r) <= multiset(rules)
  {
    if rules == [] then []
    else
      var rest := KeepMatching(rules[1..], term);
      assert rules == [rules[0]] + rules[1..];
      assert multiset(rules) == multiset([rules[0]]) + multiset(rules[1..]);
      (if Matches(rules[0], term) then [rules[0]] else []) + rest
  }

  /** The kept rules keep their order: filtering a concatenation filters each part. */
  lemma {:induction false} KeepMatchingAppend(a: seq<Rule>, b: seq<Rule>, term: string)
    ensures KeepMatching(a + b, term) == KeepMatching(a, term) + KeepMatching(b, term)
  {
    if a == [] {
      assert a + b == b;
    } else {
      var h := if Matches(a[0], term) then [a[0]] else [];
      var ab := a + b;
      assert ab[0] == a[0] && ab[1..] == a[1..] + b;
      assert KeepMatching(ab, term) == h + KeepMatching(a[1..] + b, term);
      assert KeepMatching(a, term) == h + KeepMatching(a[1..], term);
      KeepMatchingAppend(a[1..], b, term);
      Sequences.AppendAssoc(h, KeepMatching(a[1..], term), KeepMatching(b, term));
    }
  }

  /** A single rule is kept exactly when it matches. */
  lemma KeepMatchingOne(x: Rule, term: string)
    ensures KeepMatching([x], term) == if Matches(x, term) then [x] else []
  {
    assert [x][1..] == [];
  }

  /** Lower-casing keeps blankness, so the trimmed lower-cased term is empty exactly when the term is blank. */
  lemma LowerBlank(s: string)
    ensures Trim(Lower(s)) == "" <==> Trim(s) == ""
  {
    TrimEmptyIff(s);
    TrimEmptyIff(Lower(s));
    forall i | 0 <= i < |s| ensures IsSpace(Lower(s)[i]) <==> IsSpace(s[i]) {
      LowerCharSpace(s[i]);
    }
  }

  lemma LowerCharSpace(c: char)
    ensures IsSpace(LowerChar(c)) <==> IsSpace(c)
  {
    if 'A' <= c <= 'Z' {
      assert 'a' <= LowerChar(c) <= 'z';
    }
  }

  datatype SortKey = ByTitle | ByLastUpdated | ByAuthor

  /** The time a rule sorts by: its modification time, 0 when it has none. */
  function Time(r: Rule): int {
    r.lastUpdated.GetOr(0)
  }

  /** The comparator returns a negative number: `x` belongs strictly before `y`. */
  predicate Before(key: SortKey, x: Rule, y: Rule) {
    match key
    case ByTitle => Below(x.title, y.title)
    case ByLastUpdated => Time(y) < Time(x)
    case ByAuthor => Below(x.author.GetOr(""), y.author.GetOr(""))
  }

  lemma BeforeAsymmetric(key: SortKey, x: Rule, y: Rule)
    ensures Before(key, x, y) ==> !Before(key, y, x)
  {
    match key
    case ByTitle => if Below(x.title, y.title) { BelowAsymmetric(x.title, y.title); }
    case ByLastUpdated =>
    case ByAuthor => if Below(x.author.GetOr(""), y.author.GetOr("")) { BelowAsymmetric(x.author.GetOr(""), y.author.GetOr("")); }
  }

  /** "Not after" is transitive: the comparators are total preorders. */
  lemma NotBeforeTransitive(key: SortKey, x: Rule, y: Rule, z: Rule)
    requires !Before(key, y, x) && !Before(key, z, y)
    ensures !Before(key, z, x)
  {
    match key
    case ByTitle => NotBelowTransitive(x.title, y.title, z.title);
    case ByLastUpdated =>
    case ByAuthor => NotBelowTransitive(x.author.GetOr(""), y.author.GetOr(""), z.author.GetOr(""));
  }

  lemma NotBelowTransitive(a: string, b: string, c: string)
    requires !Below(b, a) && !Below(c, b)
    ensures !Below(c, a)
  {
    if a != b && b != c {
      BelowTotal(a, b);
      BelowTotal(b, c);
      BelowTransitive(a, b, c);
      BelowAsymmetric(a, c);
    }
  }

  ghost predicate SortedRange(key: SortKey, s: seq<Rule>, lo: int, hi: int)
    requires 0 <= lo <= hi <= |s|
  {
    forall k, l :: lo <= k < l < hi ==> !Before(key, s[l], s[k])
  }

  predicate SortedBy(key: SortKey, s: seq<Rule>) {
    forall k, l :: 0 <= k < l < |s| ==> !Before(key, s[l], s[k])
  }

  /** `array.sort(comparator)` in place: an insertion sort that moves each element left past every greater one. */
  method SortRules(a: array<Rule>, key: SortKey)
    modifies a
    ensures SortedBy(key, a[..])
    ensures multiset(a[..]) == old(multiset(a[..]))
  {
    if a.Length == 0 {
      return;
    }
    var i := 1;
    while i < a.Length
      invariant 1 <= i <= a.Length
      invariant SortedRange(key, a[..], 0, i)
      invariant multiset(a[..]) == old(multiset(a[..]))
    {
      InsertLast(a, i, key);
      i := i + 1;
    }
  }

  /** Moves `a[i]` left into the sorted prefix `a[..i]`. */
  method InsertLast(a: array<Rule>, i: int, key: SortKey)
    requires 1 <= i < a.Length
    requires SortedRange(key, a[..], 0, i)
    modifies a
    ensures SortedRange(key, a[..], 0, i + 1)
    ensures multiset(a[..]) == old(multiset(a[..]))
    ensures a[i + 1..] == old(a[i + 1..])
  {
    var j := i;
    while j > 0 && Before(key, a[j], a[j - 1])
      invariant 0 <= j <= i
      invariant Inserting(key, a[..], i, j)
      invariant multiset(a[..]) == old(multiset(a[..]))
      invariant a[i + 1..] == old(a[i + 1..])
    {
      ghost var s := a[..];
      SwapStep(key, s, i, j);
      SwapPermutes(s, j);
      a[j - 1], a[j] := a[j], a[j - 1];
      assert a[..] == s[j - 1 := s[j]][j := s[j - 1]];
      j := j - 1;
    }
    InsertedSorted(key, a[..], i, j);
  }

  /** The state of the inner loop: the element being moved sits at `j`, no greater than those after it. */
  ghost predicate Inserting(key: SortKey, s: seq<Rule>, i: int, j: int)
    requires 0 <= j <= i < |s|
  {
    && SortedRange(key, s, 0, j)
    && SortedRange(key, s, j + 1, i + 1)
    && (forall k, l :: 0 <= k < j < l <= i ==> !Before(key, s[l], s[k]))
    && (forall l :: j < l <= i ==> !Before(key, s[l], s[j]))
  }

  lemma SwapPermutes(s: seq<Rule>, j: int)
    requires 0 < j < |s|
    ensures multiset(s[j - 1 := s[j]][j := s[j - 1]]) == multiset(s)
  {
    var t := s[j - 1 := s[j]][j := s[j - 1]];
    assert s == s[..j - 1] + [s[j - 1], s[j]] + s[j + 1..];
    assert t == s[..j - 1] + [s[j], s[j - 1]] + s[j + 1..];
  }

  /** Swapping the moved element with a greater left neighbour keeps the loop's state. */
  lemma SwapStep(key: SortKey, s: seq<Rule>, i: int, j: int)
    requires 0 < j <= i < |s|
    requires Inserting(key, s, i, j) && Before(key, s[j], s[j - 1])
    ensures Inserting(key, s[j - 1 := s[j]][j := s[j - 1]], i, j - 1)
  {
    BeforeAsymmetric(key, s[j], s[j - 1]);
  }

  /** Where the moved element stops, the first `i + 1` elements are sorted. */
  lemma InsertedSorted(key: SortKey, s: seq<Rule>, i: int, j: int)
    requires 0 <= j <= i < |s|
    requires Inserting(key, s, i, j)
    requires j > 0 ==> !Before(key, s[j], s[j - 1])
    ensures SortedRange(key, s, 0, i + 1)
  {
    forall k | 0 <= k < j ensures !Before(key, s[j], s[k]) {
      if k < j - 1 {
        NotBeforeTransitive(key, s[k], s[j - 1], s[j]);
      }
    }
  }

  /**
   * `filterAndSortRules(rules, searchTerm, sortBy)`: a sorted copy of the rules the search
   * keeps; the input sequence itself is a value and stays as it was.
   */
  method FilterAndSortRules(rules: seq<Rule>, searchTerm: Option<string>, key: SortKey) returns (r: seq<Rule>)
    ensures multiset(r) == multiset(FilterRules(rules, searchTerm))
    ensures SortedBy(key, r)
  {
    var kept := FilterRules(rules, searchTerm);
    var a := new Rule[|kept|](i requires 0 <= i < |kept| => kept[i]);
    assert a[..] == kept;
    SortRules(a, key);
    r := a[..];
  }

  /** The result is drawn from the input, and with a blank search holds every rule. */
  lemma FilterAndSortContents(rules: seq<Rule>, searchTerm: Option<string>, r: seq<Rule>)
    requires multiset(r) == multiset(FilterRules(rules, searchTerm))
    ensures multiset(r) <= multiset(rules)
    ensures Blank(searchTerm) ==> multiset(r) == multiset(rules)
    ensures !Blank(searchTerm) ==> forall x :: x in r <==> x in rules && Matches(x, Trim(Lower(searchTerm.value)))
    ensures !Blank(searchTerm) ==>
      forall x :: multiset(r)[x] == (if Matches(x, Trim(Lower(searchTerm.value))) then multiset(rules)[x] else 0)
  {
    var kept := FilterRules(rules, searchTerm);
    assert forall x :: x in r <==> x in multiset(r);
    assert forall x :: x in kept <==> x in multiset(kept);
  }

  /** Rules sorted by time put the most recent first, a rule without a time counting as time 0. */
  lemma ByTimeDescending(s: seq<Rule>)
    requires SortedBy(ByLastUpdated, s)
    ensures forall k, l :: 0 <= k < l < |s| ==> s[k].lastUpdated.GetOr(0) >= s[l].lastUpdated.GetOr(0)
  {
  }

  /** Rules sorted by title have ascending titles. */
  lemma ByTitleAscending(s: seq<Rule>)
    requires SortedBy(ByTitle, s)
    ensures forall k, l :: 0 <= k < l < |s| ==> s[k].title == s[l].title || Below(s[k].title, s[l].title)
  {
    forall k, l | 0 <= k < l < |s| ensures s[k].title == s[l].title || Below(s[k].title, s[l].title) {
      if s[k].title != s[l].title {
        BelowTotal(s[k].title, s[l].title);
      }
    }
  }

  // ---------------------------------------------------------------- preview

  /** `lines.slice(0, n)`: a negative `n` counts from the end. */
  function SliceEnd(len: nat, n: int): (e: nat)
    ensures e <= len
  {
    if n < 0 then (if len + n < 0 then 0 else len + n) else if n > len then len else n
  }

  /** `getRulePreview(content, maxLines)`: the first lines joined and trimmed. */
  function RulePreview(content: string, maxLines: int): string {
    var lines := Lines(content);
    Trim(Join(lines[..SliceEnd(|lines|, maxLines)], "\n"))
  }

  const DefaultPreviewLines := 3

  /** The preview of `n` lines followed by more is those `n` lines, joined and trimmed. */
  lemma PreviewOfLines(first: seq<string>, more: seq<string>)
    requires forall i :: 0 <= i < |first| ==> '\n' !in first[i]
    requires forall i :: 0 <= i < |more| ==> '\n' !in more[i]
    requires |first| + |more| >= 1
    ensures RulePreview(Join(first + more, "\n"), |first|) == Trim(Join(first, "\n"))
  {
    var lines := first + more;
    forall k | 0 <= k < |lines| ensures '\n' !in lines[k] {
      if k >= |first| { assert lines[k] == more[k - |first|]; }
    }
    SplitJoin(lines, '\n');
    assert lines[..|first|] == first;
  }

  /** Three lines joined by newlines. */
  lemma JoinThree(a: string, b: string, c: string)
    ensures Join([a, b, c], "\n") == a + "\n" + b + "\n" + c
  {
    assert Join([c], "\n") == c;
    assert Join([b, c], "\n") == b + "\n" + c;
  }

  /** Four lines previewed with the default limit keep the first three, when the third ends the text trimmed. */
  lemma PreviewOfFour(a: string, b: string, c: string, d: string)
    requires '\n' !in a && '\n' !in b && '\n' !in c && '\n' !in d
    requires a != [] && !IsSpace(a[0]) && c != [] && !IsSpace(c[|c| - 1])
    ensures RulePreview(a + "\n" + b + "\n" + c + "\n" + d, DefaultPreviewLines) == a + "\n" + b + "\n" + c
  {
    var first, more := [a, b, c], [d];
    JoinThree(a, b, c);
    JoinAppend(first, more, "\n");
    assert Join(more, "\n") == d;
    assert first + more == [a, b, c, d];
    PreviewOfLines(first, more);
    var kept := a + "\n" + b + "\n" + c;
    assert kept[0] == a[0] && kept[|kept| - 1] == c[|c| - 1];
    TrimNoop(kept);
  }

  /** `getRulePreview("Line1\nLine2\nLine3\nLine4")` keeps the default three lines. */
  lemma PreviewDefaultExample(a: string, b: string, c: string, d: string)
    requires a == "Line1" && b == "Line2" && c == "Line3" && d == "Line4"
    ensures RulePreview(a + "\n" + b + "\n" + c + "\n" + d, DefaultPreviewLines) == a + "\n" + b + "\n" + c
  {
    PreviewOfFour(a, b, c, d);
  }

  /** `getRulePreview("A\nB\nC", 2)` is `"A\nB"`. */
  lemma PreviewExample(a: string, b: string, c: string)
    requires a == "A" && b == "B" && c == "C"
    ensures RulePreview(a + "\n" + b + "\n" + c, 2) == a + "\n" + b
  {
    var first, more := [a, b], [c];
    assert Join([b], "\n") == b;
    assert Join(first, "\n") == a + "\n" + b;
    JoinAppend(first, more, "\n");
    assert Join(more, "\n") == c;
    assert first + more == [a, b, c];
    PreviewOfLines(first, more);
    TrimNoop(a + "\n" + b);
  }
}
