/**
 * The rule metadata file `rules-metadata.jsonc` in the registry directory: a JSON object
 * mapping rule ids to entries such as `{"tags":["a","b"]}`. It is loaded leniently (comments
 * and trailing commas are cleaned away, anything unreadable counts as empty) and always
 * rewritten whole: one line per rule, sorted by id, each ending in a comma.
 */
module MetadataService {
  import opened Wrappers
  import opened Strings
  import opened Paths
  import opened FileSystem
  import opened Json
  import opened Jsonc
  import opened Sequences

  const MetaFilename: string := "rules-metadata.jsonc"

  /** The metadata document's members: rule id to entry, in file order. */
  type Meta = seq<Member>

  // ---------------------------------------------------------------- sets and sorting of tags

  /** `[...new Set(s)]`: each element once, where it first occurs. */
  function Dedup(s: seq<string>): (r: seq<string>)
    ensures forall x :: x in r <==> x in s
    ensures forall x :: multiset(r)[x] <= 1
  {
    if s == [] then []
    else
      var d := Dedup(s[..|s| - 1]);
      var x := s[|s| - 1];
      assert s == s[..|s| - 1] + [x];
      if x in d then d else d + [x]
  }

  /** Strictly ascending in character order (so without repetitions). */
  predicate Ascending(s: seq<string>) {
    forall i, j :: 0 <= i < j < |s| ==> Below(s[i], s[j])
  }

  /** No element sorts before an earlier one. */
  predicate Sorted(s: seq<string>) {
    forall i, j :: 0 <= i < j < |s| ==> !Below(s[j], s[i])
  }

  /** Puts `x` into sorted `s` before the first element that `x` sorts before. */
  function InsertString(x: string, s: seq<string>): (r: seq<string>)
    requires Sorted(s)
    ensures Sorted(r) && multiset(r) == multiset(s) + multiset{x}
  {
    if s == [] then [x]
    else if Below(x, s[0]) then
      InsertFront(x, s);
      [x] + s
    else
      var t := InsertString(x, s[1..]);
      InsertLater(x, s, t);
      [s[0]] + t
  }

  lemma InsertFront(x: string, s: seq<string>)
    requires Sorted(s) && s != [] && Below(x, s[0])
    ensures Sorted([x] + s)
  {
    forall i | 0 <= i < |s| ensures !Below(s[i], x) {
      if Below(s[i], x) {
        BelowTransitive(s[i], x, s[0]);
        if i == 0 { BelowIrreflexive(s[0]); }
      }
    }
  }

  lemma InsertLater(x: string, s: seq<string>, t: seq<string>)
    requires Sorted(s) && s != [] && !Below(x, s[0])
    requires Sorted(t) && multiset(t) == multiset(s[1..]) + multiset{x}
    ensures Sorted([s[0]] + t) && multiset([s[0]] + t) == multiset(s) + multiset{x}
  {
    forall i | 0 <= i < |t| ensures !Below(t[i], s[0]) {
      assert t[i] in multiset(t);
    }
    assert s == [s[0]] + s[1..];
  }

  /** `s.sort((a, b) => a.localeCompare(b))` as an insertion sort in character order. */
  function SortStrings(s: seq<string>): (r: seq<string>)
    ensures Sorted(r) && multiset(r) == multiset(s)
  {
    if s == [] then []
    else
      assert s == [s[0]] + s[1..];
      InsertString(s[0], SortStrings(s[1..]))
  }

  /** The tags as the metadata file stores them: each once, in ascending order. */
  function SortTags(tags: seq<string>): (r: seq<string>)
    ensures Ascending(r)
    ensures forall x :: x in r <==> x in tags
  {
    var d := Dedup(tags);
    var r := SortStrings(d);
    assert forall x :: x in r <==> x in d by {
      forall x ensures x in r <==> x in d {
        assert x in r <==> x in multiset(r);
        assert x in d <==> x in multiset(d);
      }
    }
    SortedDistinct(r);
    r
  }

  lemma SortedDistinct(r: seq<string>)
    requires Sorted(r) && forall x :: multiset(r)[x] <= 1
    ensures Ascending(r)
  {
    forall i, j | 0 <= i < j < |r| ensures Below(r[i], r[j]) {
      if r[i] == r[j] {
        TwoCopies(r, i, j);
      }
      BelowTotal(r[i], r[j]);
    }
  }

  lemma TwoCopies<T>(r: seq<T>, i: int, j: int)
    requires 0 <= i < j < |r| && r[i] == r[j]
    ensures multiset(r)[r[i]] >= 2
  {
    var x := r[i];
    assert r == r[..j] + r[j..];
    assert x in r[..j];
    assert x == r[j..][0];
    assert multiset(r) == multiset(r[..j]) + multiset(r[j..]);
  }

  lemma RepeatCounted<T>(r: seq<T>, i: int, j: int)
    requires 0 <= i < j < |r|
    ensures r[i] == r[j] ==> multiset(r)[r[i]] >= 2
  {
    if r[i] == r[j] {
      TwoCopies(r, i, j);
    }
  }

  /** Two ascending lists with the same elements are the same list. */
  lemma {:induction false} AscendingUnique(a: seq<string>, b: seq<string>)
    requires Ascending(a) && Ascending(b)
    requires forall x :: x in a <==> x in b
    ensures a == b
    decreases |a|
  {
    SameElementsEmpty(a, b);
    if a != [] {
      assert a[0] == b[0] by {
        if a[0] != b[0] {
          assert a[0] in a && b[0] in b;
          var i :| 0 <= i < |b| && b[i] == a[0];
          var j :| 0 <= j < |a| && a[j] == b[0];
          assert Below(b[0], b[i]) by { if i == 0 { } }
          assert Below(a[0], a[j]) by { if j == 0 { } }
          BelowAsymmetric(a[0], b[0]);
        }
      }
      forall x ensures x in a[1..] <==> x in b[1..] {
        if x in a[1..] {
          var i :| 1 <= i < |a| && a[i] == x;
          assert Below(a[0], x);
          BelowIrreflexive(x);
          assert x != b[0] && x in b;
        }
        if x in b[1..] {
          var i :| 1 <= i < |b| && b[i] == x;
          assert Below(b[0], x);
          BelowIrreflexive(x);
          assert x != a[0] && x in a;
        }
      }
      AscendingUnique(a[1..], b[1..]);
      assert a == [a[0]] + a[1..] && b == [b[0]] + b[1..];
    }
  }

  lemma SameElementsEmpty<T>(a: seq<T>, b: seq<T>)
    requires forall x :: x in a <==> x in b
    ensures a == [] <==> b == []
  {
    if a != [] { assert a[0] in b; }
    if b != [] { assert b[0] in a; }
  }

  /** The stored tags depend only on which tags there are. */
  lemma SortTagsBySet(s: seq<string>, t: seq<string>)
    requires forall x :: x in s <==> x in t
    ensures SortTags(s) == SortTags(t)
  {
    AscendingUnique(SortTags(s), SortTags(t));
  }

  /** Sorting stored tags again changes nothing. */
  lemma SortTagsIdempotent(tags: seq<string>)
    ensures SortTags(SortTags(tags)) == SortTags(tags)
  {
    SortTagsBySet(SortTags(tags), tags);
  }

  // ---------------------------------------------------------------- sorting of entries

  /** No entry's id sorts before an earlier entry's id. */
  predicate KeysSorted(ms: seq<Member>) {
    forall i, j :: 0 <= i < j < |ms| ==> !Below(ms[j].key, ms[i].key)
  }

  predicate KeysAscending(ms: seq<Member>) {
    forall i, j :: 0 <= i < j < |ms| ==> Below(ms[i].key, ms[j].key)
  }

  function InsertByKey(m: Member, s: seq<Member>): (r: seq<Member>)
    requires KeysSorted(s)
    ensures KeysSorted(r) && multiset(r) == multiset(s) + multiset{m}
  {
    if s == [] then [m]
    else if Below(m.key, s[0].key) then
      InsertMemberFront(m, s);
      [m] + s
    else
      var t := InsertByKey(m, s[1..]);
      InsertMemberLater(m, s, t);
      [s[0]] + t
  }

  lemma InsertMemberFront(m: Member, s: seq<Member>)
    requires KeysSorted(s) && s != [] && Below(m.key, s[0].key)
    ensures KeysSorted([m] + s)
  {
    forall i | 0 <= i < |s| ensures !Below(s[i].key, m.key) {
      if Below(s[i].key, m.key) {
        BelowTransitive(s[i].key, m.key, s[0].key);
        if i == 0 { BelowIrreflexive(s[0].key); }
      }
    }
  }

  lemma InsertMemberLater(m: Member, s: seq<Member>, t: seq<Member>)
    requires KeysSorted(s) && s != [] && !Below(m.key, s[0].key)
    requires KeysSorted(t) && multiset(t) == multiset(s[1..]) + multiset{m}
    ensures KeysSorted([s[0]] + t) && multiset([s[0]] + t) == multiset(s) + multiset{m}
  {
    forall i | 0 <= i < |t| ensures !Below(t[i].key, s[0].key) {
      assert t[i] in multiset(t);
    }
    assert s == [s[0]] + s[1..];
  }

  /** `Object.entries(map).sort(([a], [b]) => a.localeCompare(b))`. */
  function SortByKey(ms: seq<Member>): (r: seq<Member>)
    ensures KeysSorted(r) && multiset(r) == multiset(ms)
  {
    if ms == [] then []
    else
      assert ms == [ms[0]] + ms[1..];
      InsertByKey(ms[0], SortByKey(ms[1..]))
  }

  lemma {:induction false} DistinctKeysNoDup(ms: seq<Member>)
    requires DistinctKeys(ms)
    ensures forall x :: multiset(ms)[x] <= 1
  {
    if ms != [] {
      assert DistinctKeys(ms[1..]) by {
        assert forall i :: 0 <= i < |ms| - 1 ==> ms[1..][i] == ms[i + 1];
      }
      DistinctKeysNoDup(ms[1..]);
      assert ms[0] !in ms[1..];
      assert ms == [ms[0]] + ms[1..];
    }
  }

  /** Sorting a map's entries gives strictly ascending ids when the ids are distinct. */
  lemma SortByKeyAscending(ms: seq<Member>)
    requires DistinctKeys(ms)
    ensures KeysAscending(SortByKey(ms)) && DistinctKeys(SortByKey(ms))
  {
    var r := SortByKey(ms);
    DistinctKeysNoDup(ms);
    forall i, j | 0 <= i < j < |r| ensures r[i].key != r[j].key {
      assert r[i] in multiset(r) && r[j] in multiset(r);
      SameKeySameMember(ms, r[i], r[j]);
      RepeatCounted(r, i, j);
    }
    forall i, j | 0 <= i < j < |r| ensures Below(r[i].key, r[j].key) {
      BelowTotal(r[i].key, r[j].key);
    }
  }

  lemma SameKeySameMember(ms: seq<Member>, x: Member, y: Member)
    requires DistinctKeys(ms) && x in ms && y in ms
    ensures x.key == y.key ==> x == y
  {
    var p :| 0 <= p < |ms| && ms[p] == x;
    var q :| 0 <= q < |ms| && ms[q] == y;
    if p < q { } else if q < p { }
  }

  /** With distinct ids, an id has a value exactly when the document holds that member. */
  lemma LookupMember(ms: seq<Member>, k: string, v: Json)
    requires DistinctKeys(ms)
    ensures Lookup(ms, k) == Some(v) <==> Member(k, v) in ms
  {
    if Member(k, v) in ms {
      var i :| 0 <= i < |ms| && ms[i] == Member(k, v);
      var r := Lookup(ms, k);
      assert r.Some?;
      var j :| 0 <= j < |ms| && ms[j] == Member(k, r.value);
      if i < j { } else if j < i { }
    }
  }

  /** Sorting the entries changes no rule's entry. */
  lemma SortByKeyLookup(ms: seq<Member>, k: string)
    requires DistinctKeys(ms)
    ensures Lookup(SortByKey(ms), k) == Lookup(ms, k)
  {
    var r := SortByKey(ms);
    SortByKeyAscending(ms);
    assert forall x :: x in r <==> x in ms by {
      forall x ensures x in r <==> x in ms {
        assert x in r <==> x in multiset(r);
        assert x in ms <==> x in multiset(ms);
      }
    }
    match Lookup(ms, k)
    case Some(v) =>
      LookupMember(ms, k, v);
      LookupMember(r, k, v);
    case None =>
      if Lookup(r, k).Some? {
        var v := Lookup(r, k).value;
        LookupMember(r, k, v);
        LookupMember(ms, k, v);
      }
  }

  // ---------------------------------------------------------------- what can be stored

  /** A character `JSON.stringify` copies and that is no line break, quote or backslash. */
  predicate PlainChar(c: char) {
    ' ' <= c && c != '"' && c != '\\' && c != '\U{2028}' && c != '\U{2029}'
  }

  /** A rule id that reads back the same although the file writes it unescaped. */
  predicate PlainKey(k: string) {
    forall i :: 0 <= i < |k| ==> PlainChar(k[i])
  }

  predicate StorableEntry(m: Member) {
    PlainKey(m.key) && WellFormed(m.value) && NoSeparators(m.value)
  }

  /** Metadata whose saved file reads back as itself. */
  predicate Storable(meta: Meta) {
    DistinctKeys(meta) && forall i :: 0 <= i < |meta| ==> StorableEntry(meta[i])
  }

  /** Sanitised rule ids (letters, digits and `_`) are plain. */
  lemma WordKeyPlain(k: string)
    requires forall i :: 0 <= i < |k| ==> IsWordChar(k[i])
    ensures PlainKey(k)
  {
  }

  lemma {:induction false} PlainEscape(k: string)
    requires PlainKey(k)
    ensures Escape(k) == k
    decreases |k|
  {
    if k != [] {
      PlainEscape(k[1..]);
      assert k == [k[0]] + k[1..];
    }
  }

  lemma SortStorable(meta: Meta)
    requires Storable(meta)
    ensures Storable(SortByKey(meta))
  {
    var r := SortByKey(meta);
    SortByKeyAscending(meta);
    forall i | 0 <= i < |r| ensures StorableEntry(r[i]) {
      assert r[i] in multiset(r);
      assert r[i] in meta;
    }
  }

  // ---------------------------------------------------------------- the saved text

  /** One line of the saved file: `  "<id>": <JSON.stringify(entry)>,`. */
  function EntryLine(m: Member): string {
    "  \"" + m.key + "\": " + Print(m.value) + ","
  }

  function EntryLines(ms: seq<Member>): (r: seq<string>)
    ensures |r| == |ms| && forall i :: 0 <= i < |ms| ==> r[i] == EntryLine(ms[i])
  {
    if ms == [] then [] else [EntryLine(ms[0])] + EntryLines(ms[1..])
  }

  /** The whole file as written: the entries sorted by id, one per line, between braces. */
  function SaveText(meta: Meta): string {
    "{\n" + Strings.Join(EntryLines(SortByKey(meta)), "\n") + "\n}"
  }

  /** Each entry line preceded by its line break. */
  function Lines(ms: seq<Member>): string {
    if ms == [] then "" else "\n" + EntryLine(ms[0]) + Lines(ms[1..])
  }

  lemma {:induction false} JoinedLines(ms: seq<Member>)
    requires ms != []
    ensures "\n" + Strings.Join(EntryLines(ms), "\n") == Lines(ms)
    decreases |ms|
  {
    var el := EntryLines(ms);
    if |ms| == 1 {
      assert Lines(ms[1..]) == "";
    } else {
      assert el[1..] == EntryLines(ms[1..]);
      JoinedLines(ms[1..]);
    }
  }

  lemma SaveTextShape(meta: Meta)
    requires SortByKey(meta) != []
    ensures SaveText(meta) == "{" + (Lines(SortByKey(meta)) + "\n}")
  {
    var ms := SortByKey(meta);
    var j := Strings.Join(EntryLines(ms), "\n");
    JoinedLines(ms);
    OpenText(j);
  }

  lemma OpenText(j: string)
    ensures "{\n" + j + "\n}" == "{" + (("\n" + j) + "\n}")
  {
    assert "{\n" == "{" + "\n";
  }

  lemma SaveTextEmpty()
    ensures SaveText([]) == "{\n\n}"
  {
    assert SortByKey([]) == [];
  }

  // ---------------------------------------------------------------- comments are kept

  lemma EntryLineShape(m: Member)
    requires StorableEntry(m)
    ensures SingleLine(EntryLine(m))
    ensures SpaceRunEnd(EntryLine(m), 0) == 2 && EntryLine(m)[2] == '"'
  {
    var e := EntryLine(m);
    PrintSingleLine(m.value);
    SingleLineConcat("  \"", m.key);
    SingleLineConcat("  \"" + m.key, "\": ");
    SingleLineConcat("  \"" + m.key + "\": ", Print(m.value));
    SingleLineConcat("  \"" + m.key + "\": " + Print(m.value), ",");
    assert e[0] == ' ' && e[1] == ' ' && e[2] == '"';
    SpaceRunStop(e, 0, 2);
  }

  lemma {:induction false} LinesComments(ms: seq<Member>, tail: string)
    requires forall i :: 0 <= i < |ms| ==> StorableEntry(ms[i])
    ensures StripFrom(Lines(ms) + tail, false) == Lines(ms) + StripFrom(tail, false)
    decreases |ms|
  {
    if ms == [] {
      assert Lines(ms) + tail == tail && Lines(ms) + StripFrom(tail, false) == StripFrom(tail, false);
    } else {
      var e := EntryLine(ms[0]);
      var l := Lines(ms[1..]);
      LinesHead(ms, tail);
      LinesHead(ms, StripFrom(tail, false));
      BreakKept('\n', e + (l + tail));
      EntryLineShape(ms[0]);
      LineStartKept(e, l + tail);
      LinesComments(ms[1..], tail);
      calc {
        StripFrom(Lines(ms) + tail, false);
        StripFrom(['\n'] + (e + (l + tail)), false);
        ['\n'] + StripFrom(e + (l + tail), true);
        ['\n'] + (e + StripFrom(l + tail, false));
        ['\n'] + (e + (l + StripFrom(tail, false)));
        Lines(ms) + StripFrom(tail, false);
      }
    }
  }

  lemma LinesHead(ms: seq<Member>, tail: string)
    requires ms != []
    ensures Lines(ms) + tail == ['\n'] + (EntryLine(ms[0]) + (Lines(ms[1..]) + tail))
  {
    Regroup("\n", EntryLine(ms[0]), Lines(ms[1..]), tail);
  }

  lemma Regroup(a: string, b: string, c: string, d: string)
    ensures a + b + c + d == a + (b + (c + d))
  {
  }

  /** The saved file holds nothing the comment pass removes. */
  lemma CommentsKept(ms: seq<Member>)
    requires forall i :: 0 <= i < |ms| ==> StorableEntry(ms[i])
    ensures StripComments("{" + (Lines(ms) + "\n}")) == "{" + (Lines(ms) + "\n}")
  {
    var l := Lines(ms);
    assert StripFrom("{" + (l + "\n}"), true) == "{" + StripFrom(l + "\n}", false) by {
      OpenKept(l + "\n}");
    }
    assert StripFrom(l + "\n}", false) == l + "\n}" by {
      LinesComments(ms, "\n}");
      ClosingKept();
    }
  }

  lemma OpenKept(rest: string)
    ensures StripFrom("{" + rest, true) == "{" + StripFrom(rest, false)
  {
    SpaceRunStop("{", 0, 0);
    LineStartKept("{", rest);
  }

  lemma ClosingKept()
    ensures StripFrom("\n}", false) == "\n}"
  {
    BreakKept('\n', "}");
    SpaceRunStop("}", 0, 0);
    LineStartKept("}", "");
    assert "\n}" == ['\n'] + "}" && "}" + "" == "}";
  }

  // ---------------------------------------------------------------- commas: only the last goes

  /** An entry line read as JSON text: the member up to its comma. */
  function Head(m: Member): string {
    "\n  " + Quote(m.key) + ":" + " " + Print(m.value)
  }

  lemma EntryAsHead(m: Member)
    requires PlainKey(m.key)
    ensures "\n" + EntryLine(m) == Head(m) + ","
  {
    PlainEscape(m.key);
    EntryText(m.key, Print(m.value));
  }

  lemma EntryText(k: string, p: string)
    ensures "\n" + ("  \"" + k + "\": " + p + ",") == "\n  " + ("\"" + k + "\"") + ":" + " " + p + ","
  {
  }

  lemma HeadRegroup(w: string, q: string, p: string, y: string)
    ensures w + q + ":" + " " + p + y == w + (q + (": " + (p + y)))
  {
  }

  lemma HeadKept(m: Member, y: string)
    requires WellFormed(m.value)
    ensures CommasOutside(Head(m) + y) == Head(m) + CommasOutside(y)
  {
    var q, p := Quote(m.key), Print(m.value);
    HeadRegroup("\n  ", q, p, y);
    HeadRegroup("\n  ", q, p, CommasOutside(y));
    OutsidePlain("\n  ", q + (": " + (p + y)));
    StrKept(m.key, ": " + (p + y));
    OutsidePlain(": ", p + y);
    ValueKept(m.value, y);
  }

  lemma LinesAsHeads(ms: seq<Member>, tail: string)
    requires ms != [] && PlainKey(ms[0].key)
    ensures Lines(ms) + tail == Head(ms[0]) + ("," + (Lines(ms[1..]) + tail))
  {
    EntryAsHead(ms[0]);
    Regroup(Head(ms[0]), ",", Lines(ms[1..]), tail);
  }

  lemma LinesStart(ms: seq<Member>, tail: string)
    requires ms != []
    ensures var s := Lines(ms) + tail;
      |s| >= 4 && s[0] == '\n' && s[1] == ' ' && s[2] == ' ' && s[3] == '"'
  {
    LinesHead(ms, tail);
    var e := EntryLine(ms[0]);
    assert e[0] == ' ' && e[1] == ' ' && e[2] == '"';
  }

  /** Cleaning the comma-terminated lines leaves the object members, all commas but the last kept. */
  lemma {:induction false} LinesCommas(ms: seq<Member>)
    requires ms != [] && forall i :: 0 <= i < |ms| ==> StorableEntry(ms[i])
    ensures CommasOutside(Lines(ms) + "\n}") == PrintMembers(ms, "\n  ", " ") + "}"
    decreases |ms|
  {
    var h := Head(ms[0]);
    var y := "," + (Lines(ms[1..]) + "\n}");
    LinesAsHeads(ms, "\n}");
    HeadKept(ms[0], y);
    if |ms| == 1 {
      LastComma(ms, y);
    } else {
      LinesCommas(ms[1..]);
      InnerComma(ms, y);
    }
  }

  lemma LastComma(ms: seq<Member>, y: string)
    requires |ms| == 1 && y == "," + (Lines(ms[1..]) + "\n}")
    ensures Head(ms[0]) + CommasOutside(y) == PrintMembers(ms, "\n  ", " ") + "}"
  {
    assert Lines(ms[1..]) == "";
    assert y == [','] + "\n" + ['}'] + "";
    CleanCommaDropped("\n", '}', "");
    assert CommasOutside(y) == "}";
    assert PrintMembers(ms, "\n  ", " ") == Head(ms[0]) + "";
  }

  lemma InnerComma(ms: seq<Member>, y: string)
    requires |ms| > 1 && y == "," + (Lines(ms[1..]) + "\n}")
    requires CommasOutside(Lines(ms[1..]) + "\n}") == PrintMembers(ms[1..], "\n  ", " ") + "}"
    ensures Head(ms[0]) + CommasOutside(y) == PrintMembers(ms, "\n  ", " ") + "}"
  {
    assert CommasOutside(y) == [','] + CommasOutside(Lines(ms[1..]) + "\n}") by {
      LinesStart(ms[1..], "\n}");
      CommaBeforeLine(y, Lines(ms[1..]) + "\n}");
    }
    var pm := PrintMembers(ms[1..], "\n  ", " ");
    assert PrintMembers(ms, "\n  ", " ") == Head(ms[0]) + ("," + pm);
    MembersClosed(Head(ms[0]), pm);
  }

  lemma CommaBeforeLine(y: string, more: string)
    requires y == "," + more && |more| >= 4
    requires more[0] == '\n' && more[1] == ' ' && more[2] == ' ' && more[3] == '"'
    ensures CommasOutside(y) == [','] + CommasOutside(more)
  {
    assert y[1..] == more;
    SpaceRunStop(y, 1, 4);
    CleanCommaKept(y);
  }

  lemma MembersClosed(h: string, pm: string)
    ensures h + ([','] + (pm + "}")) == h + ("," + pm) + "}"
  {
  }

  // ---------------------------------------------------------------- loading

  /**
   * The text read back: line comments removed, trailing commas removed outside strings,
   * then `JSON.parse`; anything but an object counts as empty metadata.
   */
  function LoadText(raw: string): Meta {
    ObjectOrEmpty(Parse(CleanCommas(StripComments(raw))))
  }

  /** `JSON.parse`'s result taken as metadata: the members of an object, otherwise none. */
  function ObjectOrEmpty(p: Option<Json>): Meta {
    match p
    case Some(JObj(ms)) => ms
    case _ => []
  }

  /** The same with the comma clean-up as `loadRulesMetadata` writes it, blind to string literals. */
  function LoadTextAsWritten(raw: string): Meta {
    ObjectOrEmpty(Parse(StripTrailingCommas(StripComments(raw))))
  }

  lemma SortByKeyEmpty(meta: Meta)
    ensures SortByKey(meta) == [] <==> meta == []
  {
    if meta != [] {
      assert meta[0] in multiset(meta);
    }
  }

  /** The text a fresh registry starts with, `{`, an empty line and `}`, is empty metadata. */
  lemma EmptyObjectLoads()
    ensures LoadText("{\n\n}") == []
    ensures LoadTextAsWritten("{\n\n}") == []
  {
    EmptyLoads("{\n\n}", "\n\n");
  }

  lemma EmptyLoads(e: string, w: string)
    requires w == "\n\n" && e == "{" + w + "}"
    ensures LoadText(e) == [] && LoadTextAsWritten(e) == []
  {
    assert StripComments(e) == e by { EmptyComments(e); }
    assert CleanCommas(e) == e && StripTrailingCommas(e) == e by { EmptyClean(e); }
    assert Parse(e) == Some(JObj([])) by { ParseEmptyObject(w); }
  }

  lemma EmptyClean(e: string)
    requires e == "{\n\n}"
    ensures CleanCommas(e) == e && StripTrailingCommas(e) == e
  {
    OutsidePlain(e, "");
    NoCommaKept(e, "");
    assert e + "" == e;
  }

  lemma EmptyComments(e: string)
    requires e == "{\n\n}"
    ensures StripComments(e) == e
  {
    OpenKept("\n\n}");
    BreakKept('\n', "\n}");
    ClosingKept();
    assert "\n\n}" == ['\n'] + "\n}";
    assert e == "{" + "\n\n}";
  }

  /** Where no string of the file holds a comma before `}` or `]`, the loader as written loads what `LoadText` loads. */
  lemma AsWrittenLoadAgrees(raw: string)
    requires QuietOutside(StripComments(raw))
    ensures LoadTextAsWritten(raw) == LoadText(raw)
  {
    AsWrittenAgrees(StripComments(raw));
  }

  /** Saved metadata whose strings hold no such comma reloads under the loader as written, too. */
  lemma AsWrittenRoundTrip(meta: Meta)
    requires Storable(meta) && QuietOutside(StripComments(SaveText(meta)))
    ensures LoadTextAsWritten(SaveText(meta)) == SortByKey(meta)
  {
    AsWrittenLoadAgrees(SaveText(meta));
    SaveLoadRoundTrip(meta);
  }

  /** Saved storable metadata reads back as its entries sorted by id. */
  lemma SaveLoadRoundTrip(meta: Meta)
    requires Storable(meta)
    ensures LoadText(SaveText(meta)) == SortByKey(meta)
  {
    var ms := SortByKey(meta);
    SortStorable(meta);
    SortByKeyEmpty(meta);
    if ms == [] {
      SaveTextEmpty();
      EmptyObjectLoads();
    } else {
      var text := "{" + (Lines(ms) + "\n}");
      assert SaveText(meta) == text by { SaveTextShape(meta); }
      assert StripComments(text) == text by { CommentsKept(ms); }
      assert Parse(CleanCommas(text)) == Some(JObj(ms)) by { SavedObjectParses(ms); }
    }
  }

  lemma SavedObjectParses(ms: seq<Member>)
    requires ms != [] && Storable(ms)
    ensures Parse(CleanCommas("{" + (Lines(ms) + "\n}"))) == Some(JObj(ms))
  {
    var l := Lines(ms);
    var pm := PrintMembers(ms, "\n  ", " ");
    assert CleanCommas("{" + (l + "\n}")) == "{" + pm + "}" by {
      OutsidePlain("{", l + "\n}");
      LinesCommas(ms);
      AppendAssoc("{", pm, "}");
    }
    ParseObjectText(ms, "\n  ", " ");
  }

  /** After saving, every rule reads back with the entry it was saved with. */
  lemma SaveLoadLookup(meta: Meta, id: string)
    requires Storable(meta)
    ensures Lookup(LoadText(SaveText(meta)), id) == Lookup(meta, id)
  {
    SaveLoadRoundTrip(meta);
    SortByKeyLookup(meta, id);
  }

  // ---------------------------------------------------------------- the comma clean-up as written

  /** `JSON.stringify` of an entry whose one tag is `t`. */
  lemma TagsEntryText(t: string)
    requires PlainKey(t)
    ensures Print(JObj([Member("tags", JArr([JStr(t)]))])) == "{\"tags\":[\"" + t + "\"]}"
  {
    var arr := JArr([JStr(t)]);
    var ms := [Member("tags", arr)];
    assert Print(arr) == "[" + ("\"" + t + "\"") + "]" by {
      PlainEscape(t);
      assert PrintItems([JStr(t)]) == Print(JStr(t)) + "";
    }
    assert Quote("tags") == "\"tags\"" by { PlainEscape("tags"); }
    assert PrintMembers(ms, "", "") == "" + Quote("tags") + ":" + "" + Print(arr) + "";
    TagsText(t);
  }

  lemma TagsText(t: string)
    ensures "{" + ("" + "\"tags\"" + ":" + "" + ("[" + ("\"" + t + "\"") + "]") + "") + "}"
      == "{\"tags\":[\"" + t + "\"]}"
  {
  }

  lemma CommaBracketDropped(x1: string, x2: string)
    requires ',' !in x1 && ',' !in x2
    ensures StripTrailingCommas(x1 + ([','] + "" + [']'] + (x2 + ([','] + "\n" + ['}'] + ""))))
      == x1 + ("]" + (x2 + "}"))
  {
    var tail := [','] + "\n" + ['}'] + "";
    NoCommaKept(x1, [','] + "" + [']'] + (x2 + tail));
    TrailingCommaDropped("", ']', x2 + tail);
    NoCommaKept(x2, tail);
    TrailingCommaDropped("\n", '}', "");
  }

  /** The saved text of rule `r` tagged `a,]`, cut at its two commas. */
  lemma CommaTagText(meta: Meta, x1: string, x2: string)
    requires meta == [Member("r", JObj([Member("tags", JArr([JStr("a,]")]))]))]
    requires x1 == "{\n  \"r\": {\"tags\":[\"a" && x2 == "\"]}"
    ensures Storable(meta)
    ensures StripComments(SaveText(meta)) == x1 + ([','] + "" + [']'] + (x2 + ([','] + "\n" + ['}'] + "")))
  {
    var m := meta[0];
    assert PlainKey("a,]");
    var p := Print(m.value);
    assert p == "{\"tags\":[\"" + "a,]" + "\"]}" by { TagsEntryText("a,]"); }
    assert Storable(meta);
    assert SortByKey(meta) == meta;
    var text := "{" + (Lines(meta) + "\n}");
    assert SaveText(meta) == text by { SaveTextShape(meta); }
    assert StripComments(text) == text by { CommentsKept(meta); }
    assert Lines(meta) == "\n" + ("  \"" + "r" + "\": " + p + ",") + "" by {
      assert Lines(meta[1..]) == "";
    }
    CommaTagPieces(p, x1, x2);
  }

  lemma CommaTagPieces(p: string, x1: string, x2: string)
    requires p == "{\"tags\":[\"" + "a,]" + "\"]}"
    requires x1 == "{\n  \"r\": {\"tags\":[\"a" && x2 == "\"]}"
    ensures "{" + (("\n" + ("  \"" + "r" + "\": " + p + ",") + "") + "\n}")
      == x1 + ([','] + "" + [']'] + (x2 + ([','] + "\n" + ['}'] + "")))
  {
  }

  /** What the as-written clean-up leaves of that text parses as the tag `a]`. */
  lemma CutTagParses(x1: string, x2: string, ms: seq<Member>)
    requires x1 == "{\n  \"r\": {\"tags\":[\"a" && x2 == "\"]}"
    requires ms == [Member("r", JObj([Member("tags", JArr([JStr("a]")]))]))]
    ensures Parse(x1 + ("]" + (x2 + "}"))) == Some(JObj(ms))
  {
    var m := ms[0];
    assert PlainKey("a]");
    var p := Print(m.value);
    assert p == "{\"tags\":[\"" + "a]" + "\"]}" by { TagsEntryText("a]"); }
    assert PrintMembers(ms, "\n  ", " ") == "\n  " + "\"r\"" + ":" + " " + p + "" by {
      RuleMembersText(ms, p);
    }
    CutTagPieces(p, x1, x2);
    assert WellFormed(JObj(ms));
    ParseObjectText(ms, "\n  ", " ");
  }

  lemma RuleMembersText(ms: seq<Member>, p: string)
    requires |ms| == 1 && ms[0].key == "r" && Print(ms[0].value) == p
    ensures PrintMembers(ms, "\n  ", " ") == "\n  " + "\"r\"" + ":" + " " + p + ""
  {
    PlainEscape("r");
  }

  lemma CutTagPieces(p: string, x1: string, x2: string)
    requires p == "{\"tags\":[\"" + "a]" + "\"]}"
    requires x1 == "{\n  \"r\": {\"tags\":[\"a" && x2 == "\"]}"
    ensures x1 + ("]" + (x2 + "}")) == "{" + ("\n  " + "\"r\"" + ":" + " " + p + "") + "}"
  {
  }

  /**
   * The comma clean-up in `loadRulesMetadata` also edits string literals: a rule saved with the tag
   * `a,]` reads back with the tag `a]`, while the string-aware clean-up reads it back intact.
   */
  lemma AsWrittenDropsCommaInTag(meta: Meta)
    requires meta == [Member("r", JObj([Member("tags", JArr([JStr("a,]")]))]))]
    ensures LoadText(SaveText(meta)) == meta
    ensures LoadTextAsWritten(SaveText(meta)) == [Member("r", JObj([Member("tags", JArr([JStr("a]")]))]))]
  {
    CommaTagSteps(meta, "{\n  \"r\": {\"tags\":[\"a", "\"]}", [Member("r", JObj([Member("tags", JArr([JStr("a]")]))]))]);
  }

  lemma CommaTagSteps(meta: Meta, x1: string, x2: string, ms: seq<Member>)
    requires meta == [Member("r", JObj([Member("tags", JArr([JStr("a,]")]))]))]
    requires x1 == "{\n  \"r\": {\"tags\":[\"a" && x2 == "\"]}"
    requires ms == [Member("r", JObj([Member("tags", JArr([JStr("a]")]))]))]
    ensures LoadText(SaveText(meta)) == meta
    ensures LoadTextAsWritten(SaveText(meta)) == ms
  {
    CommaTagText(meta, x1, x2);
    CommaTagKept(meta);
    CommaTagCut(StripComments(SaveText(meta)), x1, x2, ms);
  }

  lemma CommaTagKept(meta: Meta)
    requires meta == [Member("r", JObj([Member("tags", JArr([JStr("a,]")]))]))]
    requires Storable(meta)
    ensures LoadText(SaveText(meta)) == meta
  {
    SaveLoadRoundTrip(meta);
    assert SortByKey(meta) == meta;
  }

  lemma CommaTagCut(uncommented: string, x1: string, x2: string, ms: seq<Member>)
    requires x1 == "{\n  \"r\": {\"tags\":[\"a" && x2 == "\"]}"
    requires ms == [Member("r", JObj([Member("tags", JArr([JStr("a]")]))]))]
    requires uncommented == x1 + ([','] + "" + [']'] + (x2 + ([','] + "\n" + ['}'] + "")))
    ensures ObjectOrEmpty(Parse(StripTrailingCommas(uncommented))) == ms
  {
    CommaBracketDropped(x1, x2);
    CutTagParses(x1, x2, ms);
  }

  // ---------------------------------------------------------------- merging an entry

  /** Tags as JSON strings. */
  function Strs(ts: seq<string>): (r: seq<Json>)
    ensures |r| == |ts| && forall i :: 0 <= i < |ts| ==> r[i] == JStr(ts[i])
  {
    if ts == [] then [] else [JStr(ts[0])] + Strs(ts[1..])
  }

  /** The strings of an array of strings; None for any other value. */
  function StrItems(items: seq<Json>): (r: Option<seq<string>>)
    ensures r.Some? <==> forall i :: 0 <= i < |items| ==> items[i].JStr?
    ensures r.Some? ==> Strs(r.value) == items
  {
    if items == [] then Some([])
    else if !items[0].JStr? then None
    else
      match StrItems(items[1..])
      case None => None
      case Some(rest) =>
        assert items == [items[0]] + items[1..];
        Some([items[0].s] + rest)
  }

  /** A `tags` value as a list of tags, when it is an array of strings. */
  function TagList(v: Option<Json>): (r: Option<seq<string>>)
    ensures r.Some? <==> v.Some? && v.value.JArr? && forall i :: 0 <= i < |v.value.items| ==> v.value.items[i].JStr?
    ensures r.Some? ==> v.value == JArr(Strs(r.value))
  {
    if v.Some? && v.value.JArr? then StrItems(v.value.items) else None
  }

  lemma {:induction false} StrsInjective(a: seq<string>, b: seq<string>)
    requires Strs(a) == Strs(b)
    ensures a == b
  {
    assert |a| == |b|;
    forall i | 0 <= i < |a| ensures a[i] == b[i] {
      assert Strs(a)[i] == JStr(a[i]) && Strs(b)[i] == JStr(b[i]);
    }
  }

  /** Reading stored tags gives back the tags stored. */
  lemma TagListStrs(ts: seq<string>)
    ensures TagList(Some(JArr(Strs(ts)))) == Some(ts)
  {
    var r := TagList(Some(JArr(Strs(ts))));
    StrsInjective(r.value, ts);
  }

  /** The tags value `saveRuleMetadata` writes: the tags once each, sorted. */
  function StoredTags(ts: seq<string>): Json {
    JArr(Strs(SortTags(ts)))
  }

  /**
   * `{...v}`: an object gives its members; an array gives its items, and a string its
   * characters, as members keyed by their indices "0", "1", …; any other value gives none.
   */
  function Spread(v: Json): seq<Member> {
    match v
    case JObj(ms) => ms
    case JArr(items) => seq(|items|, i requires 0 <= i < |items| => Member(NatToString(i), items[i]))
    case JStr(str) => seq(|str|, i requires 0 <= i < |str| => Member(NatToString(i), JStr([str[i]])))
    case _ => []
  }

  /** `map[ruleId] ?? {}`, spread into the new entry. */
  function Existing(meta: Meta, id: string): seq<Member> {
    match Lookup(meta, id)
    case Some(v) => Spread(v)
    case None => []
  }

  /**
   * What a stored entry that is not an object brings into the merged entry: the array's
   * items, or the string's characters, under their indices, and never a `tags` member.
   */
  lemma ExistingIndexed(meta: Meta, id: string)
    requires Lookup(meta, id).Some? && !Lookup(meta, id).value.JObj?
    ensures var v := Lookup(meta, id).value;
      && (v.JArr? ==> forall i :: 0 <= i < |v.items| ==> Lookup(Existing(meta, id), NatToString(i)) == Some(v.items[i]))
      && (v.JStr? ==> forall i :: 0 <= i < |v.s| ==> Lookup(Existing(meta, id), NatToString(i)) == Some(JStr([v.s[i]])))
      && (!v.JArr? && !v.JStr? ==> Existing(meta, id) == [])
      && Lookup(Existing(meta, id), "tags") == None
  {
    var ex := Existing(meta, id);
    SpreadIndexed(Lookup(meta, id).value);
    forall i | 0 <= i < |ex| ensures ex[i].key != "tags" {
      assert '0' <= ex[i].key[0] <= '9';
    }
    forall i | 0 <= i < |ex| ensures Lookup(ex, NatToString(i)) == Some(ex[i].value) {
      assert ex[i] == Member(NatToString(i), ex[i].value);
      LookupMember(ex, NatToString(i), ex[i].value);
    }
  }

  /**
   * A stored two-character string entry, such as `"ab"`, given the tag `t` becomes
   * `{"0":"a","1":"b","tags":[t]}`.
   */
  lemma StringEntrySpread(meta: Meta, id: string, a: char, b: char, t: string)
    requires meta == [Member(id, JStr([a, b]))]
    ensures Merge(meta, id, Some([t])) ==
      [Member(id, JObj([Member("0", JStr([a])), Member("1", JStr([b])), Member("tags", JArr([JStr(t)]))]))]
  {
    var ex := [Member("0", JStr([a])), Member("1", JStr([b]))];
    SpreadTwo(a, b);
    assert Existing(meta, id) == ex;
    assert Lookup(ex, "tags") == None by {
      assert ex[0].key != "tags" && ex[1].key != "tags";
    }
    SortSingle(t);
    assert StoredTags([t]) == JArr([JStr(t)]);
    var e := ex + [Member("tags", JArr([JStr(t)]))];
    assert MergedEntry(ex, Some([t])) == e;
    assert Put(meta, id, JObj(e)) == [Member(id, JObj(e))] + meta[1..];
    assert e == [Member("0", JStr([a])), Member("1", JStr([b])), Member("tags", JArr([JStr(t)]))];
  }

  lemma SpreadTwo(a: char, b: char)
    ensures Spread(JStr([a, b])) == [Member("0", JStr([a])), Member("1", JStr([b]))]
  {
    assert NatToString(0) == "0" && NatToString(1) == "1";
  }

  /** One tag sorts to itself. */
  lemma SortSingle(t: string)
    ensures SortTags([t]) == [t]
  {
    assert Dedup([t]) == [t];
    var r := SortStrings([t]);
    assert |r| == |multiset(r)| == 1;
    assert r[0] in multiset(r);
  }

  /** The members spread from an array or a string have the distinct keys "0", "1", …. */
  lemma SpreadIndexed(v: Json)
    requires !v.JObj?
    ensures DistinctKeys(Spread(v))
    ensures forall i :: 0 <= i < |Spread(v)| ==> Spread(v)[i].key == NatToString(i)
  {
    var ms := Spread(v);
    forall i, j | 0 <= i < j < |ms| ensures ms[i].key != ms[j].key {
      if ms[i].key == ms[j].key {
        NatToStringInjective(i, j);
      }
    }
  }

  /**
   * `{...existing, ...entry, ...(mergedTags ? {tags: mergedTags} : {})}` for an entry that
   * gives the tags `entryTags` (or, when None, no tags): the given tags, otherwise the tags
   * already stored, end up deduplicated and sorted; every other property is kept.
   */
  function MergedEntry(existing: seq<Member>, entryTags: Option<seq<string>>): (r: seq<Member>)
    ensures forall k :: k != "tags" ==> Lookup(r, k) == Lookup(existing, k)
    ensures entryTags.Some? ==> Lookup(r, "tags") == Some(StoredTags(entryTags.value))
    ensures entryTags.None? && TagList(Lookup(existing, "tags")).Some? ==>
      Lookup(r, "tags") == Some(StoredTags(TagList(Lookup(existing, "tags")).value))
    ensures entryTags.None? && TagList(Lookup(existing, "tags")).None? ==> r == existing
  {
    match ChosenTags(existing, entryTags)
    case None => existing
    case Some(ts) =>
      var r := Put(existing, "tags", StoredTags(ts));
      forall k | k != "tags" ensures Lookup(r, k) == Lookup(existing, k) {
        PutOther(existing, "tags", StoredTags(ts), k);
      }
      r
  }

  /** `entry.tags ?? existing.tags`, when that is a list of tags. */
  function ChosenTags(existing: seq<Member>, entryTags: Option<seq<string>>): Option<seq<string>> {
    if entryTags.Some? then entryTags else TagList(Lookup(existing, "tags"))
  }

  /** `map[ruleId] = merged`: the rule's entry is replaced and every other rule's kept. */
  function Merge(meta: Meta, id: string, entryTags: Option<seq<string>>): (r: Meta)
    ensures Lookup(r, id) == Some(JObj(MergedEntry(Existing(meta, id), entryTags)))
    ensures forall k :: k != id ==> Lookup(r, k) == Lookup(meta, k)
  {
    var v := JObj(MergedEntry(Existing(meta, id), entryTags));
    var r := Put(meta, id, v);
    forall k | k != id ensures Lookup(r, k) == Lookup(meta, k) {
      PutOther(meta, id, v, k);
    }
    r
  }

  /** The tags stored for a rule, when its entry has a list of tags. */
  function EntryTags(meta: Meta, id: string): Option<seq<string>> {
    match Lookup(meta, id)
    case Some(e) => TagList(Get(e, "tags"))
    case None => None
  }

  /** `(meta[ruleId] ?? {tags: []}).tags ?? []`. */
  function CurrentTags(meta: Meta, id: string): seq<string> {
    EntryTags(meta, id).GetOr([])
  }

  /** After a merge with tags, the rule's tags are those tags, once each and sorted. */
  lemma MergeTags(meta: Meta, id: string, ts: seq<string>)
    ensures EntryTags(Merge(meta, id, Some(ts)), id) == Some(SortTags(ts))
  {
    TagListStrs(SortTags(ts));
  }

  predicate TagsSeparatorFree(ts: seq<string>) {
    forall i :: 0 <= i < |ts| ==> SeparatorFree(ts[i])
  }

  lemma StrsStorable(ts: seq<string>)
    requires TagsSeparatorFree(ts)
    ensures WellFormed(StoredTags(ts)) && NoSeparators(StoredTags(ts))
  {
    var st := SortTags(ts);
    forall i | 0 <= i < |st| ensures SeparatorFree(st[i]) {
      assert st[i] in ts;
    }
  }

  /** Merging a plain id and tags without U+2028 or U+2029 keeps metadata storable. */
  lemma MergeStorable(meta: Meta, id: string, entryTags: Option<seq<string>>)
    requires Storable(meta) && PlainKey(id)
    requires entryTags.Some? ==> TagsSeparatorFree(entryTags.value)
    ensures Storable(Merge(meta, id, entryTags))
  {
    ExistingStorable(meta, id);
    MergedStorable(Existing(meta, id), entryTags);
    PutStorable(meta, id, JObj(MergedEntry(Existing(meta, id), entryTags)));
  }

  lemma ExistingStorable(meta: Meta, id: string)
    requires Storable(meta)
    ensures WellFormed(JObj(Existing(meta, id))) && NoSeparators(JObj(Existing(meta, id)))
  {
    if Lookup(meta, id).Some? {
      var v := Lookup(meta, id).value;
      var i :| 0 <= i < |meta| && meta[i] == Member(id, v);
      assert StorableEntry(meta[i]);
      if !v.JObj? {
        var ms := Spread(v);
        SpreadIndexed(v);
        forall k | 0 <= k < |ms| ensures WellFormed(ms[k].value) && SeparatorFree(ms[k].key) && NoSeparators(ms[k].value) {
          if v.JStr? {
            assert ms[k].value == JStr([v.s[k]]);
          }
        }
      }
    }
  }

  lemma MergedStorable(ex: seq<Member>, entryTags: Option<seq<string>>)
    requires WellFormed(JObj(ex)) && NoSeparators(JObj(ex))
    requires entryTags.Some? ==> TagsSeparatorFree(entryTags.value)
    ensures WellFormed(JObj(MergedEntry(ex, entryTags))) && NoSeparators(JObj(MergedEntry(ex, entryTags)))
  {
    var tags := ChosenTags(ex, entryTags);
    if tags.Some? {
      ChosenStorable(ex, entryTags);
      PutValueStorable(ex, "tags", StoredTags(tags.value));
    }
  }

  lemma ChosenStorable(ex: seq<Member>, entryTags: Option<seq<string>>)
    requires NoSeparators(JObj(ex))
    requires entryTags.Some? ==> TagsSeparatorFree(entryTags.value)
    requires ChosenTags(ex, entryTags).Some?
    ensures WellFormed(StoredTags(ChosenTags(ex, entryTags).value))
    ensures NoSeparators(StoredTags(ChosenTags(ex, entryTags).value))
  {
    if entryTags.None? {
      TagsFromStorable(ex);
    }
    StrsStorable(ChosenTags(ex, entryTags).value);
  }

  lemma PutValueStorable(ex: seq<Member>, key: string, v: Json)
    requires WellFormed(JObj(ex)) && NoSeparators(JObj(ex))
    requires WellFormed(v) && NoSeparators(v) && SeparatorFree(key)
    ensures WellFormed(JObj(Put(ex, key, v))) && NoSeparators(JObj(Put(ex, key, v)))
  {
    var me := Put(ex, key, v);
    PutDistinct(ex, key, v);
    PutMembers(ex, key, v);
    forall i | 0 <= i < |me| ensures WellFormed(me[i].value) && SeparatorFree(me[i].key) && NoSeparators(me[i].value) {
      assert me[i] in me;
      if me[i] != Member(key, v) {
        var j :| 0 <= j < |ex| && ex[j] == me[i];
      }
    }
  }

  lemma PutStorable(meta: Meta, id: string, v: Json)
    requires Storable(meta) && StorableEntry(Member(id, v))
    ensures Storable(Put(meta, id, v))
  {
    var r := Put(meta, id, v);
    PutDistinct(meta, id, v);
    PutMembers(meta, id, v);
    forall i | 0 <= i < |r| ensures StorableEntry(r[i]) {
      assert r[i] in r;
      if r[i] != Member(id, v) {
        var j :| 0 <= j < |meta| && meta[j] == r[i];
        assert StorableEntry(meta[j]);
      }
    }
  }

  /** Tags read from a storable entry have no U+2028 or U+2029. */
  lemma TagsFromStorable(ex: seq<Member>)
    requires NoSeparators(JObj(ex))
    requires TagList(Lookup(ex, "tags")).Some?
    ensures TagsSeparatorFree(TagList(Lookup(ex, "tags")).value)
  {
    var v := Lookup(ex, "tags").value;
    var ts := TagList(Lookup(ex, "tags")).value;
    var j :| 0 <= j < |ex| && ex[j] == Member("tags", v);
    assert NoSeparators(v);
    forall i | 0 <= i < |ts| ensures SeparatorFree(ts[i]) {
      assert v.items[i] == JStr(ts[i]);
      assert NoSeparators(v.items[i]);
    }
  }

  // ---------------------------------------------------------------- the file on disk

  /** `path.join(workspaceRoot, getRegistryDirName())`. */
  function MetaDir(root: Path, dirName: string): Path {
    root + [dirName]
  }

  /** `path.join(registryDir, META_FILENAME)`. */
  function MetaPath(root: Path, dirName: string): Path {
    MetaDir(root, dirName) + [MetaFilename]
  }

  /**
   * `loadRulesMetadata()`: without a workspace, or when the file cannot be read, the
   * metadata is empty; otherwise it is the file's text as `LoadText` reads it.
   */
  function Load(t: Tree, root: Option<Path>, dirName: string): (r: Meta)
    ensures root.None? || !IsFile(t, MetaPath(root.value, dirName)) ==> r == []
    ensures root.Some? && IsFile(t, MetaPath(root.value, dirName)) ==>
      r == LoadText(t[MetaPath(root.value, dirName)].text)
  {
    if root.None? then []
    else
      match ReadFile(t, MetaPath(root.value, dirName))
      case Ok(raw) => LoadText(raw)
      case Err(_) => []
  }

  /** The new disk and the outcome of `saveRuleMetadata(ruleId, entry)`. */
  function SaveOutcome(t: Tree, root: Option<Path>, dirName: string, id: string,
                       entryTags: Option<seq<string>>, now: int): (r: (Tree, Result<()>))
    ensures r.1.Ok? <==> root.Some? && NoFileOnTheWay(t, MetaDir(root.value, dirName))
                          && !IsDir(t, MetaPath(root.value, dirName))
    ensures r.1.Ok? ==>
      ReadFile(r.0, MetaPath(root.value, dirName)) == Ok(SaveText(Merge(Load(t, root, dirName), id, entryTags)))
    ensures root.None? ==> r.0 == t
  {
    if root.None? then (t, Err("No workspace"))
    else
      var dir := MetaDir(root.value, dirName);
      var text := SaveText(Merge(Load(t, root, dirName), id, entryTags));
      SaveCondition(t, dir);
      match MakeDirs(t, dir)
      case None => (t, Err("ENOTDIR: cannot create " + dirName))
      case Some(t1) =>
        match WriteText(t1, dir + [MetaFilename], text, now)
        case None => (t1, Err("EISDIR: cannot write " + MetaFilename))
        case Some(t2) => (t2, Ok(()))
  }

  /** After `mkdir -p` the registry directory exists and the file's path is as before. */
  lemma SaveCondition(t: Tree, dir: Path)
    requires dir != []
    ensures MakeDirs(t, dir).Some? <==> NoFileOnTheWay(t, dir)
    ensures MakeDirs(t, dir).Some? ==>
      var t1 := MakeDirs(t, dir).value;
      var p := dir + [MetaFilename];
      Parent(p) == dir && IsDir(t1, dir) && (IsDir(t1, p) <==> IsDir(t, p))
  {
    MakeDirsSucceeds(t, dir);
    if MakeDirs(t, dir).Some? {
      var t1 := MakeDirs(t, dir).value;
      var p := dir + [MetaFilename];
      assert Parent(p) == dir;
      MakeDirsCreates(t, dir);
      assert dir[..|dir|] == dir;
      MakeDirsFrame(t, dir);
      assert !IsPrefix(p, dir) && !IsPrefix(p, Parent(dir));
    }
  }

  /** What was saved is what the next load reads, when the merged metadata is storable. */
  lemma LoadAfterSave(t: Tree, root: Option<Path>, dirName: string, id: string,
                      entryTags: Option<seq<string>>, now: int)
    requires SaveOutcome(t, root, dirName, id, entryTags, now).1.Ok?
    requires Storable(Merge(Load(t, root, dirName), id, entryTags))
    ensures var merged := Merge(Load(t, root, dirName), id, entryTags);
      var after := Load(SaveOutcome(t, root, dirName, id, entryTags, now).0, root, dirName);
      after == SortByKey(merged) && forall k :: Lookup(after, k) == Lookup(merged, k)
  {
    var merged := Merge(Load(t, root, dirName), id, entryTags);
    SaveLoadRoundTrip(merged);
    forall k ensures Lookup(SortByKey(merged), k) == Lookup(merged, k) {
      SortByKeyLookup(merged, k);
    }
  }

  /**
   * After a successful save the rule reads back with its merged entry and every other
   * rule reads back unchanged.
   */
  lemma SaveThenLoad(t: Tree, root: Option<Path>, dirName: string, id: string,
                     entryTags: Option<seq<string>>, now: int)
    requires SaveOutcome(t, root, dirName, id, entryTags, now).1.Ok?
    requires Storable(Load(t, root, dirName)) && PlainKey(id)
    requires entryTags.Some? ==> TagsSeparatorFree(entryTags.value)
    ensures var before := Load(t, root, dirName);
      var after := Load(SaveOutcome(t, root, dirName, id, entryTags, now).0, root, dirName);
      && Lookup(after, id) == Some(JObj(MergedEntry(Existing(before, id), entryTags)))
      && forall k :: k != id ==> Lookup(after, k) == Lookup(before, k)
  {
    MergeStorable(Load(t, root, dirName), id, entryTags);
    LoadAfterSave(t, root, dirName, id, entryTags, now);
  }

  method LoadRulesMetadata(store: FileStore, root: Option<Path>, dirName: string) returns (meta: Meta)
    ensures meta == Load(store.tree, root, dirName)
  {
    if root.None? {
      return [];
    }
    var raw := ReadFile(store.tree, MetaPath(root.value, dirName));
    if raw.Err? {
      return [];
    }
    var noComments := StripComments(raw.value);
    var cleaned := CleanCommas(noComments);
    meta := ObjectOrEmpty(Parse(cleaned));
  }

  method SaveRuleMetadata(store: FileStore, root: Option<Path>, dirName: string, id: string,
                          entryTags: Option<seq<string>>, now: int) returns (r: Result<()>)
    modifies store
    ensures (store.tree, r) == SaveOutcome(old(store.tree), root, dirName, id, entryTags, now)
  {
    if root.None? {
      return Err("No workspace");
    }
    var meta := LoadRulesMetadata(store, root, dirName);
    var content := SaveText(Merge(meta, id, entryTags));
    var dir := MetaDir(root.value, dirName);
    var ok := store.MakeDirectories(dir);
    if !ok {
      return Err("ENOTDIR: cannot create " + dirName);
    }
    ok := store.WriteFile(dir + [MetaFilename], content, now);
    if !ok {
      return Err("EISDIR: cannot write " + MetaFilename);
    }
    return Ok(());
  }

  // ---------------------------------------------------------------- adding and removing tags

  /** The metadata `addTagToRule` saves for the trimmed, non-blank tag `tg`. */
  function Added(meta: Meta, id: string, tg: string): Meta {
    Merge(meta, id, Some(Dedup(CurrentTags(meta, id) + [tg])))
  }

  /** The metadata `removeTagFromRule` saves when the rule has the tags `ts`. */
  function Removed(meta: Meta, id: string, ts: seq<string>, tag: string): Meta {
    Merge(meta, id, Some(Without(ts, tag)))
  }

  function AddTagOutcome(t: Tree, root: Option<Path>, dirName: string, id: string,
                         tag: string, now: int): (r: (Tree, Result<()>))
    ensures Trim(tag) == [] ==> r == (t, Ok(()))
  {
    var tg := Trim(tag);
    if tg == [] then (t, Ok(()))
    else SaveOutcome(t, root, dirName, id, Some(Dedup(CurrentTags(Load(t, root, dirName), id) + [tg])), now)
  }

  function RemoveTagOutcome(t: Tree, root: Option<Path>, dirName: string, id: string,
                            tag: string, now: int): (r: (Tree, Result<()>))
    ensures EntryTags(Load(t, root, dirName), id).None? ==> r == (t, Ok(()))
  {
    match EntryTags(Load(t, root, dirName), id)
    case None => (t, Ok(()))
    case Some(ts) => SaveOutcome(t, root, dirName, id, Some(Without(ts, tag)), now)
  }

  method AddTagToRule(store: FileStore, root: Option<Path>, dirName: string, id: string,
                      tag: string, now: int) returns (r: Result<()>)
    modifies store
    ensures (store.tree, r) == AddTagOutcome(old(store.tree), root, dirName, id, tag, now)
  {
    var tg := Trim(tag);
    if tg == [] {
      return Ok(());
    }
    var meta := LoadRulesMetadata(store, root, dirName);
    var tags := Dedup(CurrentTags(meta, id) + [tg]);
    r := SaveRuleMetadata(store, root, dirName, id, Some(tags), now);
  }

  method RemoveTagFromRule(store: FileStore, root: Option<Path>, dirName: string, id: string,
                           tag: string, now: int) returns (r: Result<()>)
    modifies store
    ensures (store.tree, r) == RemoveTagOutcome(old(store.tree), root, dirName, id, tag, now)
  {
    var meta := LoadRulesMetadata(store, root, dirName);
    var entry := EntryTags(meta, id);
    if entry.None? {
      return Ok(());
    }
    var filtered := Without(entry.value, tag);
    r := SaveRuleMetadata(store, root, dirName, id, Some(filtered), now);
  }

  /** Adding a tag stores the old tags and the new one, once each and sorted. */
  lemma AddedTags(meta: Meta, id: string, tg: string)
    ensures EntryTags(Added(meta, id, tg), id) == Some(SortTags(CurrentTags(meta, id) + [tg]))
    ensures tg in CurrentTags(Added(meta, id, tg), id)
  {
    var x := CurrentTags(meta, id) + [tg];
    MergeTags(meta, id, Dedup(x));
    SortTagsBySet(Dedup(x), x);
  }

  /** Adding the same tag a second time stores the same tags. */
  lemma AddTagIdempotent(meta: Meta, id: string, tg: string)
    ensures CurrentTags(Added(Added(meta, id, tg), id, tg), id) == CurrentTags(Added(meta, id, tg), id)
  {
    var once := Added(meta, id, tg);
    AddedTags(meta, id, tg);
    AddedTags(once, id, tg);
    SortTagsBySet(CurrentTags(once, id) + [tg], CurrentTags(meta, id) + [tg]);
  }

  /** Removing a tag keeps every other tag, sorted, and drops that one. */
  lemma RemovedTags(meta: Meta, id: string, ts: seq<string>, tag: string)
    ensures EntryTags(Removed(meta, id, ts, tag), id) == Some(SortTags(Without(ts, tag)))
    ensures tag !in CurrentTags(Removed(meta, id, ts, tag), id)
    ensures forall x :: x in CurrentTags(Removed(meta, id, ts, tag), id) <==> x in ts && x != tag
  {
    MergeTags(meta, id, Without(ts, tag));
  }

  /** Removing a tag just added restores the tags as they were, sorted. */
  lemma AddThenRemove(meta: Meta, id: string, tg: string)
    requires tg !in CurrentTags(meta, id)
    ensures var added := Added(meta, id, tg);
      EntryTags(Removed(added, id, CurrentTags(added, id), tg), id) == Some(SortTags(CurrentTags(meta, id)))
  {
    var added := Added(meta, id, tg);
    var cur := CurrentTags(meta, id);
    var now := CurrentTags(added, id);
    assert forall x :: x in now <==> x in cur || x == tg by {
      AddedTags(meta, id, tg);
    }
    RemovedTags(added, id, now, tg);
    WithoutAdded(now, cur, tg);
    SortTagsBySet(Without(now, tg), cur);
  }

  lemma WithoutAdded(now: seq<string>, cur: seq<string>, tg: string)
    requires tg !in cur && forall x :: x in now <==> x in cur || x == tg
    ensures forall x :: x in Without(now, tg) <==> x in cur
  {
  }

  lemma CurrentTagsFree(meta: Meta, id: string)
    requires Storable(meta)
    ensures TagsSeparatorFree(CurrentTags(meta, id))
  {
    if EntryTags(meta, id).Some? {
      var e := Lookup(meta, id).value;
      ExistingStorable(meta, id);
      assert Existing(meta, id) == e.members;
      TagsFromStorable(e.members);
    }
  }

  /** After `addTagToRule` succeeds, the rule reads back with the tag added and nothing else changes. */
  lemma AddTagThenLoad(t: Tree, root: Option<Path>, dirName: string, id: string, tag: string, now: int)
    requires Trim(tag) != [] && AddTagOutcome(t, root, dirName, id, tag, now).1.Ok?
    requires Storable(Load(t, root, dirName)) && PlainKey(id) && SeparatorFree(Trim(tag))
    ensures var before := Load(t, root, dirName);
      var after := Load(AddTagOutcome(t, root, dirName, id, tag, now).0, root, dirName);
      && EntryTags(after, id) == Some(SortTags(CurrentTags(before, id) + [Trim(tag)]))
      && forall k :: k != id ==> Lookup(after, k) == Lookup(before, k)
  {
    var before := Load(t, root, dirName);
    var tg := Trim(tag);
    var tags := Dedup(CurrentTags(before, id) + [tg]);
    assert AddTagOutcome(t, root, dirName, id, tag, now) == SaveOutcome(t, root, dirName, id, Some(tags), now);
    CurrentTagsFree(before, id);
    AddedFree(CurrentTags(before, id), tg);
    SaveThenLoad(t, root, dirName, id, Some(tags), now);
    AddedTags(before, id, tg);
  }

  lemma AddedFree(cur: seq<string>, tg: string)
    requires TagsSeparatorFree(cur) && SeparatorFree(tg)
    ensures TagsSeparatorFree(Dedup(cur + [tg]))
  {
    var tags := Dedup(cur + [tg]);
    forall i | 0 <= i < |tags| ensures SeparatorFree(tags[i]) {
      assert tags[i] in cur + [tg];
    }
  }

  /** After `removeTagFromRule` succeeds, the rule reads back without the tag and nothing else changes. */
  lemma RemoveTagThenLoad(t: Tree, root: Option<Path>, dirName: string, id: string, tag: string, now: int)
    requires EntryTags(Load(t, root, dirName), id).Some?
    requires RemoveTagOutcome(t, root, dirName, id, tag, now).1.Ok?
    requires Storable(Load(t, root, dirName)) && PlainKey(id)
    ensures var before := Load(t, root, dirName);
      var after := Load(RemoveTagOutcome(t, root, dirName, id, tag, now).0, root, dirName);
      && EntryTags(after, id) == Some(SortTags(Without(CurrentTags(before, id), tag)))
      && tag !in CurrentTags(after, id)
      && forall k :: k != id ==> Lookup(after, k) == Lookup(before, k)
  {
    var before := Load(t, root, dirName);
    var ts := CurrentTags(before, id);
    assert TagsSeparatorFree(Without(ts, tag)) by {
      CurrentTagsFree(before, id);
      forall i | 0 <= i < |Without(ts, tag)| ensures SeparatorFree(Without(ts, tag)[i]) {
        assert Without(ts, tag)[i] in Without(ts, tag);
      }
    }
    SaveThenLoad(t, root, dirName, id, Some(Without(ts, tag)), now);
    RemovedTags(before, id, ts, tag);
  }
}
