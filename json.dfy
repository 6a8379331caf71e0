/**
 * JSON values as `JSON.stringify` writes them and `JSON.parse` reads them.
 * Numbers are kept as their source lexeme; an object keeps its members in insertion
 * order with one member per key (a repeated key keeps its first position and its last
 * value). A JavaScript object does the same for ordinary keys, but lists integer-like
 * keys such as "1" first, in ascending order; members here keep their text order.
 */
module Json {
  import opened Wrappers
  import opened Sequences

  datatype Json =
    | JNull
    | JBool(b: bool)
    | JNum(lexeme: string)
    | JStr(s: string)
    | JArr(items: seq<Json>)
    | JObj(members: seq<Member>)

  datatype Member = Member(key: string, value: Json)

  /** The white space JSON allows between tokens. */
  predicate IsJsonSpace(c: char) {
    c == ' ' || c == '\t' || c == '\n' || c == '\r'
  }

  predicate AllJsonSpace(w: string) {
    forall i :: 0 <= i < |w| ==> IsJsonSpace(w[i])
  }

  predicate IsDigit(c: char) {
    '0' <= c <= '9'
  }

  function Keys(ms: seq<Member>): seq<string> {
    if ms == [] then [] else [ms[0].key] + Keys(ms[1..])
  }

  predicate DistinctKeys(ms: seq<Member>) {
    forall i, j :: 0 <= i < j < |ms| ==> ms[i].key != ms[j].key
  }

  /** The value of `key` in an object, or None (`obj[key]` being `undefined`). */
  function Get(v: Json, key: string): (r: Option<Json>)
    ensures r.Some? ==> v.JObj? && exists i :: 0 <= i < |v.members| && v.members[i] == Member(key, r.value)
    ensures v.JObj? && (exists i :: 0 <= i < |v.members| && v.members[i].key == key) ==> r.Some?
  {
    if v.JObj? then Lookup(v.members, key) else None
  }

  /** The value of the first member named `key`. */
  function Lookup(ms: seq<Member>, key: string): (r: Option<Json>)
    ensures r.Some? ==> exists i :: 0 <= i < |ms| && ms[i] == Member(key, r.value)
    ensures r.None? ==> forall i :: 0 <= i < |ms| ==> ms[i].key != key
  {
    if ms == [] then None
    else if ms[0].key == key then Some(ms[0].value)
    else
      var r := Lookup(ms[1..], key);
      assert forall i :: 1 <= i < |ms| ==> ms[i] == ms[1..][i - 1];
      r
  }

  /** Setting a property: `obj[key] = value`. An existing member keeps its place. */
  function Put(ms: seq<Member>, key: string, value: Json): (r: seq<Member>)
    ensures Lookup(r, key) == Some(value)
    ensures Lookup(ms, key).None? ==> r == ms + [Member(key, value)]
  {
    if ms == [] then [Member(key, value)]
    else if ms[0].key == key then [Member(key, value)] + ms[1..]
    else
      var r := [ms[0]] + Put(ms[1..], key, value);
      assert Lookup(ms, key).None? ==> r == ms + [Member(key, value)] by {
        ConsAppend(ms, Member(key, value));
      }
      r
  }

  lemma ConsAppend<T>(xs: seq<T>, x: T)
    requires xs != []
    ensures [xs[0]] + (xs[1..] + [x]) == xs + [x]
  {
    assert xs == [xs[0]] + xs[1..];
  }

  /** Setting one property leaves every other property as it was. */
  lemma {:induction false} PutOther(ms: seq<Member>, key: string, value: Json, k: string)
    requires k != key
    ensures Lookup(Put(ms, key, value), k) == Lookup(ms, k)
  {
    if ms != [] && ms[0].key != key {
      PutOther(ms[1..], key, value, k);
      assert Put(ms, key, value)[1..] == Put(ms[1..], key, value);
    }
  }

  /** Every member after setting a property is the new one or an old one. */
  lemma {:induction false} PutMembers(ms: seq<Member>, key: string, value: Json)
    ensures forall x :: x in Put(ms, key, value) ==> x == Member(key, value) || x in ms
  {
    if ms != [] && ms[0].key != key {
      PutMembers(ms[1..], key, value);
      assert Put(ms, key, value) == [ms[0]] + Put(ms[1..], key, value);
    }
  }

  /** Setting a property keeps the keys distinct. */
  lemma {:induction false} PutDistinct(ms: seq<Member>, key: string, value: Json)
    requires DistinctKeys(ms)
    ensures DistinctKeys(Put(ms, key, value))
  {
    if ms != [] {
      assert DistinctKeys(ms[1..]) by {
        assert forall i :: 0 <= i < |ms| - 1 ==> ms[1..][i] == ms[i + 1];
      }
      if ms[0].key != key {
        var t := Put(ms[1..], key, value);
        PutDistinct(ms[1..], key, value);
        PutMembers(ms[1..], key, value);
        forall j | 0 <= j < |t| ensures t[j].key != ms[0].key {
          assert t[j] in t;
        }
        DistinctCons(ms[0], t);
      } else {
        forall j | 0 <= j < |ms[1..]| ensures ms[1..][j].key != key {
          assert ms[1..][j] == ms[j + 1];
        }
        DistinctCons(Member(key, value), ms[1..]);
      }
    }
  }

  /** A member whose key none of the others has can go in front. */
  lemma DistinctCons(x: Member, t: seq<Member>)
    requires DistinctKeys(t) && forall j :: 0 <= j < |t| ==> t[j].key != x.key
    ensures DistinctKeys([x] + t)
  {
    var s := [x] + t;
    forall i, j | 0 <= i < j < |s| ensures s[i].key != s[j].key {
      assert s[j] == t[j - 1];
      if i > 0 {
        assert s[i] == t[i - 1];
      }
    }
  }

  // ---------------------------------------------------------------- JSON.stringify

  function HexDigit(d: nat): (c: char)
    requires d < 16
  {
    if d < 10 then ('0' as int + d) as char else ('a' as int + d - 10) as char
  }

  /** How `JSON.stringify` writes one character of a string. */
  function EscapeChar(c: char): string {
    if c == '"' then "\\\""
    else if c == '\\' then "\\\\"
    else if c == '\U{0008}' then "\\b"
    else if c == '\U{000C}' then "\\f"
    else if c == '\n' then "\\n"
    else if c == '\r' then "\\r"
    else if c == '\t' then "\\t"
    else if c < ' ' then "\\u00" + [HexDigit(c as int / 16), HexDigit(c as int % 16)]
    else [c]
  }

  function Escape(s: string): string {
    if s == [] then "" else EscapeChar(s[0]) + Escape(s[1..])
  }

  /** A string literal: the text between double quotes, escaped. */
  function Quote(s: string): string {
    "\"" + Escape(s) + "\""
  }

  /** `JSON.stringify(v)` in its compact form. */
  function Print(v: Json): string {
    match v
    case JNull => "null"
    case JBool(b) => if b then "true" else "false"
    case JNum(l) => l
    case JStr(s) => Quote(s)
    case JArr(items) => "[" + PrintItems(items) + "]"
    case JObj(ms) => "{" + PrintMembers(ms, "", "") + "}"
  }

  function PrintItems(items: seq<Json>): string {
    if items == [] then ""
    else Print(items[0]) + (if |items| == 1 then "" else "," + PrintItems(items[1..]))
  }

  /**
   * Members separated by commas, each preceded by the white space `w1`, with `w2` after
   * its colon. `JSON.stringify` uses none; the metadata file uses a line break and indent.
   */
  function PrintMembers(ms: seq<Member>, w1: string, w2: string): string {
    if ms == [] then ""
    else
      w1 + Quote(ms[0].key) + ":" + w2 + Print(ms[0].value)
      + (if |ms| == 1 then "" else "," + PrintMembers(ms[1..], w1, w2))
  }

  // ---------------------------------------------------------------- JSON.parse

  function SkipSpace(s: string): (r: string)
    ensures |r| <= |s| && r == s[|s| - |r|..]
    ensures AllJsonSpace(s[..|s| - |r|])
    ensures r != [] ==> !IsJsonSpace(r[0])
  {
    if s != [] && IsJsonSpace(s[0]) then
      var r := SkipSpace(s[1..]);
      assert s[..|s| - |r|] == [s[0]] + s[1..][..|s| - 1 - |r|];
      r
    else s
  }

  function HexValue(c: char): (r: Option<nat>)
    ensures r.Some? ==> r.value < 16
  {
    if '0' <= c <= '9' then Some(c as int - '0' as int)
    else if 'a' <= c <= 'f' then Some(c as int - 'a' as int + 10)
    else if 'A' <= c <= 'F' then Some(c as int - 'A' as int + 10)
    else None
  }

  /** The four hex digits of a `\u` escape. */
  function HexQuad(s: string): (r: Option<nat>)
    requires |s| == 4
    ensures r.Some? ==> r.value < 0x1_0000
  {
    match (HexValue(s[0]), HexValue(s[1]), HexValue(s[2]), HexValue(s[3]))
    case (Some(a), Some(b), Some(c), Some(d)) => Some(((a * 16 + b) * 16 + c) * 16 + d)
    case _ => None
  }

  function SimpleEscape(e: char): Option<char> {
    if e == '"' then Some('"')
    else if e == '\\' then Some('\\')
    else if e == '/' then Some('/')
    else if e == 'b' then Some('\U{0008}')
    else if e == 'f' then Some('\U{000C}')
    else if e == 'n' then Some('\n')
    else if e == 'r' then Some('\r')
    else if e == 't' then Some('\t')
    else None
  }

  /** A string literal after its opening quote: its characters and the text after the closing quote. */
  function ParseString(s: string): (r: Option<(string, string)>)
    ensures r.Some? ==> |r.value.1| < |s|
  {
    if s == [] then None
    else if s[0] == '"' then Some(("", s[1..]))
    else if s[0] == '\\' then
      if |s| < 2 then None
      else if SimpleEscape(s[1]).Some? then
        Prepend(SimpleEscape(s[1]).value, ParseString(s[2..]))
      else if s[1] == 'u' && |s| >= 6 then
        match HexQuad(s[2..6])
        case None => None
        case Some(code) =>
          if code < 0xD800 || 0xE000 <= code then Prepend(code as char, ParseString(s[6..]))
          else if code < 0xDC00 then
            // A high surrogate escape is decoded together with the low one that follows it.
            match LowSurrogateEscape(s[6..])
            case None => None
            case Some(lo) => Prepend(SurrogatePair(code, lo), ParseString(s[12..]))
          else None
      else None
    else if s[0] < ' ' then None
    else Prepend(s[0], ParseString(s[1..]))
  }

  /** The code unit of a `\uDC00`..`\uDFFF` escape at the start of `s`, if there is one. */
  function LowSurrogateEscape(s: string): (r: Option<nat>)
    ensures r.Some? ==> |s| >= 6 && s[0] == '\\' && s[1] == 'u' && 0xDC00 <= r.value < 0xE000
    ensures r.Some? ==> HexQuad(s[2..6]) == Some(r.value)
  {
    if |s| >= 6 && s[0] == '\\' && s[1] == 'u' then
      match HexQuad(s[2..6])
      case Some(lo) => if 0xDC00 <= lo < 0xE000 then Some(lo) else None
      case None => None
    else None
  }

  /**
   * The character a UTF-16 surrogate pair stands for. It lies above the basic plane, and
   * its offset from 0x10000 splits back into the two halves: ten bits from each unit.
   */
  function SurrogatePair(hi: nat, lo: nat): (c: char)
    requires 0xD800 <= hi < 0xDC00 && 0xDC00 <= lo < 0xE000
    ensures 0x1_0000 <= c as int < 0x11_0000
    ensures (c as int - 0x1_0000) / 0x400 == hi - 0xD800
    ensures (c as int - 0x1_0000) % 0x400 == lo - 0xDC00
  {
    var h, l := hi - 0xD800, lo - 0xDC00;
    assert h * 0x400 <= 0x3FF * 0x400;
    (0x1_0000 + h * 0x400 + l) as char
  }

  function Prepend(c: char, r: Option<(string, string)>): (r': Option<(string, string)>)
    ensures r'.Some? <==> r.Some?
    ensures r'.Some? ==> r'.value == ([c] + r.value.0, r.value.1)
  {
    match r
    case None => None
    case Some((t, rest)) => Some(([c] + t, rest))
  }

  /** The end of the run of digits starting at `i`. */
  function DigitsEnd(s: string, i: nat): (j: nat)
    requires i <= |s|
    ensures i <= j <= |s|
    ensures forall k :: i <= k < j ==> IsDigit(s[k])
    ensures j < |s| ==> !IsDigit(s[j])
    decreases |s| - i
  {
    if i < |s| && IsDigit(s[i]) then DigitsEnd(s, i + 1) else i
  }

  /** Where a number's exponent part ends (`e`, an optional sign, digits), if it is well formed. */
  function ExponentEnd(s: string, i: nat): (r: Option<nat>)
    requires i <= |s|
    ensures r.Some? ==> i <= r.value <= |s|
  {
    if i < |s| && (s[i] == 'e' || s[i] == 'E') then
      var j := if i + 1 < |s| && (s[i + 1] == '+' || s[i + 1] == '-') then i + 2 else i + 1;
      var d := DigitsEnd(s, j);
      if d == j then None else Some(d)
    else Some(i)
  }

  /** Where a number's fraction part ends (`.` and digits), if it is well formed. */
  function FractionEnd(s: string, i: nat): (r: Option<nat>)
    requires i <= |s|
    ensures r.Some? ==> i <= r.value <= |s|
  {
    if i < |s| && s[i] == '.' then
      var d := DigitsEnd(s, i + 1);
      if d == i + 1 then None else Some(d)
    else Some(i)
  }

  /** The length of the number at the start of `s`: `-? (0 | [1-9][0-9]*) fraction? exponent?`. */
  function NumberEnd(s: string): (r: Option<nat>)
    ensures r.Some? ==> 0 < r.value <= |s|
  {
    var i0 := if s != [] && s[0] == '-' then 1 else 0;
    if i0 >= |s| || !IsDigit(s[i0]) then None
    else
      var i1 := if s[i0] == '0' then i0 + 1 else DigitsEnd(s, i0);
      match FractionEnd(s, i1)
      case None => None
      case Some(i2) => ExponentEnd(s, i2)
  }

  /** One value at the very start of `s` (no white space before it) and the text after it. */
  function ParseValue(s: string): (r: Option<(Json, string)>)
    ensures r.Some? ==> |r.value.1| < |s|
    decreases |s|, 1
  {
    if s == [] then None
    else if s[0] == 'n' then
      if |s| >= 4 && s[1] == 'u' && s[2] == 'l' && s[3] == 'l' then Some((JNull, s[4..])) else None
    else if s[0] == 't' then
      if |s| >= 4 && s[1] == 'r' && s[2] == 'u' && s[3] == 'e' then Some((JBool(true), s[4..])) else None
    else if s[0] == 'f' then
      if |s| >= 5 && s[1] == 'a' && s[2] == 'l' && s[3] == 's' && s[4] == 'e' then Some((JBool(false), s[5..]))
      else None
    else if s[0] == '"' then
      match ParseString(s[1..])
      case None => None
      case Some((str, rest)) => Some((JStr(str), rest))
    else if s[0] == '-' || IsDigit(s[0]) then
      match NumberEnd(s)
      case None => None
      case Some(n) => Some((JNum(s[..n]), s[n..]))
    else if s[0] == '[' then
      var t := SkipSpace(s[1..]);
      if t != [] && t[0] == ']' then Some((JArr([]), t[1..])) else ParseItems(t, [])
    else if s[0] == '{' then
      var t := SkipSpace(s[1..]);
      if t != [] && t[0] == '}' then Some((JObj([]), t[1..])) else ParseMembers(t, [])
    else None
  }

  /** The elements of an array after `[`, appended to `acc`, through the closing `]`. */
  function ParseItems(s: string, acc: seq<Json>): (r: Option<(Json, string)>)
    ensures r.Some? ==> |r.value.1| < |s|
    decreases |s|, 2
  {
    match ParseValue(s)
    case None => None
    case Some((v, rest)) =>
      var t := SkipSpace(rest);
      if t == [] then None
      else if t[0] == ',' then ParseItems(SkipSpace(t[1..]), acc + [v])
      else if t[0] == ']' then Some((JArr(acc + [v]), t[1..]))
      else None
  }

  /** The members of an object after `{`, put into `acc`, through the closing `}`. */
  function ParseMembers(s: string, acc: seq<Member>): (r: Option<(Json, string)>)
    ensures r.Some? ==> |r.value.1| < |s|
    decreases |s|, 2
  {
    if s == [] || s[0] != '"' then None
    else
      match ParseString(s[1..])
      case None => None
      case Some((key, r1)) => ParseMemberValue(SkipSpace(r1), key, acc)
  }

  /** A member after its key: the colon and the value. */
  function ParseMemberValue(s: string, key: string, acc: seq<Member>): (r: Option<(Json, string)>)
    ensures r.Some? ==> |r.value.1| < |s|
    decreases |s|, 3
  {
    if s == [] || s[0] != ':' then None
    else
      match ParseValue(SkipSpace(s[1..]))
      case None => None
      case Some((v, r4)) => ParseMemberEnd(SkipSpace(r4), Put(acc, key, v))
  }

  /** After a member: a comma and more members, or the closing brace. */
  function ParseMemberEnd(s: string, acc: seq<Member>): (r: Option<(Json, string)>)
    ensures r.Some? ==> |r.value.1| < |s|
    decreases |s|, 4
  {
    if s == [] then None
    else if s[0] == ',' then ParseMembers(SkipSpace(s[1..]), acc)
    else if s[0] == '}' then Some((JObj(acc), s[1..]))
    else None
  }

  /** `JSON.parse(text)`, None where it throws. */
  function Parse(text: string): Option<Json> {
    match ParseValue(SkipSpace(text))
    case None => None
    case Some((v, rest)) => if SkipSpace(rest) == [] then Some(v) else None
  }

  // ---------------------------------------------------------------- round trip

  /** A value `JSON.stringify` can have produced: complete number lexemes, one member per key. */
  predicate WellFormed(v: Json) {
    match v
    case JNum(l) => NumberEnd(l) == Some(|l|)
    case JArr(items) => forall i :: 0 <= i < |items| ==> WellFormed(items[i])
    case JObj(ms) => DistinctKeys(ms) && forall i :: 0 <= i < |ms| ==> WellFormed(ms[i].value)
    case _ => true
  }

  /** What follows a value in printed JSON: nothing, a separator, a closing bracket or white space. */
  predicate EndsValue(rest: string) {
    rest == [] || rest[0] == ',' || rest[0] == ']' || rest[0] == '}' || IsJsonSpace(rest[0])
  }

  lemma {:induction false} SkipSpaceOver(w: string, x: string)
    requires AllJsonSpace(w)
    requires x == [] || !IsJsonSpace(x[0])
    ensures SkipSpace(w + x) == x
    decreases |w|
  {
    if w == [] {
      EmptyAppend(x);
    } else {
      var s := w + x;
      assert s[0] == w[0];
      assert s[1..] == w[1..] + x;
      SkipSpaceOver(w[1..], x);
    }
  }

  /** `JSON.parse` reads the escaped pair `\uD83D\uDE00` as the one character U+1F600. */
  lemma SurrogatePairDecoded(e: string, rest: string)
    requires e == "\\uD83D\\uDE00"
    ensures ParseString(e + rest) == Prepend('\U{1F600}', ParseString(rest))
  {
    var s := e + rest;
    assert |e| == 12;
    assert e[0] == '\\';
    assert e[1] == 'u';
    assert s[0] == '\\' && s[1] == 'u' && s[12..] == rest;
    assert s[2..6] == ['D', '8', '3', 'D'];
    assert HexQuad(s[2..6]) == Some(0xD83D);
    assert s[6..][2..6] == ['D', 'E', '0', '0'];
    assert HexQuad(s[6..][2..6]) == Some(0xDE00);
    assert LowSurrogateEscape(s[6..]) == Some(0xDE00);
    assert SurrogatePair(0xD83D, 0xDE00) == '\U{1F600}';
  }

  lemma {:induction false} StringRoundTrip(s: string, rest: string)
    ensures ParseString(Escape(s) + "\"" + rest) == Some((s, rest))
    decreases |s|
  {
    if s == [] {
      assert Escape(s) + "\"" + rest == ['"'] + rest;
    } else {
      var c := s[0];
      var tail := Escape(s[1..]) + "\"" + rest;
      assert ParseString(tail) == Some((s[1..], rest)) by { StringRoundTrip(s[1..], rest); }
      assert Escape(s) + "\"" + rest == EscapeChar(c) + tail by { EscapeText(s, rest); }
      EscapeCharRoundTrip(c, tail);
      assert [c] + s[1..] == s;
    }
  }

  lemma EscapeText(s: string, rest: string)
    requires s != []
    ensures Escape(s) + "\"" + rest == EscapeChar(s[0]) + (Escape(s[1..]) + "\"" + rest)
  {
    var e, t := EscapeChar(s[0]), Escape(s[1..]);
    calc {
      Escape(s) + "\"" + rest;
      (e + t) + "\"" + rest;
      { AppendAssoc(e, t, "\""); }
      (e + (t + "\"")) + rest;
      { AppendAssoc(e, t + "\"", rest); }
      e + (t + "\"" + rest);
    }
  }

  lemma EscapeCharRoundTrip(c: char, tail: string)
    ensures ParseString(EscapeChar(c) + tail) == Prepend(c, ParseString(tail))
  {
    if c == '"' || c == '\\' || c == '\U{0008}' || c == '\U{000C}' || c == '\n' || c == '\r' || c == '\t' {
      EscapeSimpleRoundTrip(c, tail);
    } else if c < ' ' {
      EscapeControlRoundTrip(c, tail);
    } else {
      var t := EscapeChar(c) + tail;
      assert t[0] == c && t[1..] == tail;
    }
  }

  lemma EscapeSimpleRoundTrip(c: char, tail: string)
    requires c == '"' || c == '\\' || c == '\U{0008}' || c == '\U{000C}' || c == '\n' || c == '\r' || c == '\t'
    ensures ParseString(EscapeChar(c) + tail) == Prepend(c, ParseString(tail))
  {
    var t := EscapeChar(c) + tail;
    assert |EscapeChar(c)| == 2 && EscapeChar(c)[0] == '\\';
    assert t[0] == '\\' && t[1] == EscapeChar(c)[1] && t[2..] == tail;
    assert SimpleEscape(t[1]) == Some(c);
  }

  lemma EscapeControlRoundTrip(c: char, tail: string)
    requires c < ' ' && c != '\U{0008}' && c != '\U{000C}' && c != '\n' && c != '\r' && c != '\t'
    ensures ParseString(EscapeChar(c) + tail) == Prepend(c, ParseString(tail))
  {
    var hi, lo := c as int / 16, c as int % 16;
    var e := EscapeChar(c);
    assert e == ['\\', 'u', '0', '0', HexDigit(hi), HexDigit(lo)];
    var t := e + tail;
    assert t[0] == '\\' && t[1] == 'u' && t[6..] == tail;
    assert t[2..6] == ['0', '0', HexDigit(hi), HexDigit(lo)];
    assert HexValue(HexDigit(hi)) == Some(hi);
    assert HexValue(HexDigit(lo)) == Some(lo);
    assert HexQuad(t[2..6]) == Some(c as int);
    assert SimpleEscape('u').None?;
  }

  lemma {:induction false} DigitsEndAppend(l: string, rest: string, i: nat)
    requires i <= |l|
    requires rest == [] || !IsDigit(rest[0])
    ensures DigitsEnd(l + rest, i) == DigitsEnd(l, i)
    decreases |l| - i
  {
    var s := l + rest;
    if i < |l| {
      assert s[i] == l[i];
      if IsDigit(l[i]) {
        DigitsEndAppend(l, rest, i + 1);
      }
    } else if rest != [] {
      assert s[i] == rest[0];
    }
  }

  lemma FractionEndAppend(l: string, rest: string, i: nat)
    requires i <= |l| && EndsValue(rest)
    ensures FractionEnd(l + rest, i) == FractionEnd(l, i)
  {
    var s := l + rest;
    if i < |l| {
      assert s[i] == l[i];
      if l[i] == '.' {
        DigitsEndAppend(l, rest, i + 1);
      }
    } else if rest != [] {
      assert s[i] == rest[0];
    }
  }

  lemma ExponentEndAppend(l: string, rest: string, i: nat)
    requires i <= |l| && EndsValue(rest)
    ensures ExponentEnd(l + rest, i) == ExponentEnd(l, i)
  {
    var s := l + rest;
    assert forall k :: 0 <= k < |l| ==> s[k] == l[k];
    assert rest != [] ==> s[|l|] == rest[0];
    if i < |l| && (l[i] == 'e' || l[i] == 'E') {
      var j := if i + 1 < |l| && (l[i + 1] == '+' || l[i + 1] == '-') then i + 2 else i + 1;
      DigitsEndAppend(l, rest, j);
    }
  }

  lemma NumberRoundTrip(l: string, rest: string)
    requires NumberEnd(l) == Some(|l|)
    requires EndsValue(rest)
    ensures NumberEnd(l + rest) == Some(|l|)
  {
    var s := l + rest;
    assert forall k :: 0 <= k < |l| ==> s[k] == l[k];
    var i0 := if l != [] && l[0] == '-' then 1 else 0;
    var i1 := if l[i0] == '0' then i0 + 1 else DigitsEnd(l, i0);
    if l[i0] != '0' {
      DigitsEndAppend(l, rest, i0);
    }
    FractionEndAppend(l, rest, i1);
    var i2 := FractionEnd(l, i1).value;
    ExponentEndAppend(l, rest, i2);
  }

  /** The characters a value can start with. */
  predicate StartsValue(c: char) {
    c == 'n' || c == 't' || c == 'f' || c == '-' || IsDigit(c) || c == '"' || c == '[' || c == '{'
  }

  /** A printed value starts with a character that opens a value (and so not with white space). */
  lemma PrintStart(v: Json)
    requires WellFormed(v)
    ensures Print(v) != [] && StartsValue(Print(v)[0])
  {
    match v
    case JNum(l) =>
    case JStr(s) =>
    case JArr(items) =>
    case JObj(ms) =>
    case _ =>
  }

  /** The printed elements of an array start as the first element does. */
  lemma PrintItemsStart(items: seq<Json>, tail: string)
    requires items != [] && WellFormed(items[0])
    ensures var t := PrintItems(items) + tail; t != [] && StartsValue(t[0])
  {
    PrintStart(items[0]);
    var p := Print(items[0]);
    assert PrintItems(items) + tail == p + ((if |items| == 1 then "" else "," + PrintItems(items[1..])) + tail);
  }

  // Each step below is proved in a small context: one parser step on abstract text, or
  // one fact about printed text, so that the round-trip lemmas only chain equalities.

  lemma Cons(c: char, x: string)
    ensures ([c] + x)[0] == c && ([c] + x)[1..] == x
  {
  }

  lemma LiteralRoundTrip(v: Json, rest: string)
    requires v.JNull? || v.JBool?
    ensures ParseValue(Print(v) + rest) == Some((v, rest))
  {
    var w := Print(v);
    var s := w + rest;
    assert forall i :: 0 <= i < |w| ==> s[i] == w[i];
    assert s[|w|..] == rest;
  }

  lemma SkipNone(u: string)
    requires u != [] && !IsJsonSpace(u[0])
    ensures SkipSpace(u) == u
  {
  }

  lemma ParseValueArr(s: string)
    requires s != [] && s[0] == '['
    ensures ParseValue(s) == (var t := SkipSpace(s[1..]);
      if t != [] && t[0] == ']' then Some((JArr([]), t[1..])) else ParseItems(t, []))
  {
  }

  lemma ParseValueObj(s: string)
    requires s != [] && s[0] == '{'
    ensures ParseValue(s) == (var t := SkipSpace(s[1..]);
      if t != [] && t[0] == '}' then Some((JObj([]), t[1..])) else ParseMembers(t, []))
  {
  }

  lemma ParseItemsUnfold(s: string, acc: seq<Json>, v: Json, r1: string)
    requires ParseValue(s) == Some((v, r1))
    ensures ParseItems(s, acc) == (var t := SkipSpace(r1);
      if t == [] then None
      else if t[0] == ',' then ParseItems(SkipSpace(t[1..]), acc + [v])
      else if t[0] == ']' then Some((JArr(acc + [v]), t[1..]))
      else None)
  {
  }

  lemma ParseArrStep(s: string)
    requires s != [] && s[0] == '['
    requires s[1..] != [] && StartsValue(s[1..][0])
    ensures ParseValue(s) == ParseItems(s[1..], [])
  {
    var u := s[1..];
    assert u[0] != ']' && SkipSpace(u) == u by { SkipNone(u); }
    assert ParseValue(s) == (var t := SkipSpace(s[1..]);
      if t != [] && t[0] == ']' then Some((JArr([]), t[1..])) else ParseItems(t, [])) by { ParseValueArr(s); }
  }

  lemma ParseObjStep(s: string)
    requires s != [] && s[0] == '{'
    requires s[1..] != [] && s[1..][0] == '"'
    ensures ParseValue(s) == ParseMembers(s[1..], [])
  {
    var u := s[1..];
    assert u[0] != '}' && SkipSpace(u) == u by { SkipNone(u); }
    assert ParseValue(s) == (var t := SkipSpace(s[1..]);
      if t != [] && t[0] == '}' then Some((JObj([]), t[1..])) else ParseMembers(t, [])) by { ParseValueObj(s); }
  }

  lemma ItemsComma(s: string, acc: seq<Json>, v: Json, r1: string)
    requires ParseValue(s) == Some((v, r1))
    requires SkipSpace(r1) != [] && SkipSpace(r1)[0] == ','
    ensures ParseItems(s, acc) == ParseItems(SkipSpace(SkipSpace(r1)[1..]), acc + [v])
  {
  }

  lemma ItemsStep(s: string, acc: seq<Json>, v: Json, r1: string)
    requires ParseValue(s) == Some((v, r1))
    requires r1 != [] && r1[0] == ',' && r1[1..] != [] && StartsValue(r1[1..][0])
    ensures ParseItems(s, acc) == ParseItems(r1[1..], acc + [v])
  {
    assert SkipSpace(r1) == r1 by { SkipNone(r1); }
    assert SkipSpace(r1[1..]) == r1[1..] by { SkipNone(r1[1..]); }
    ItemsComma(s, acc, v, r1);
  }

  lemma ItemsLast(s: string, acc: seq<Json>, v: Json, r1: string)
    requires ParseValue(s) == Some((v, r1))
    requires r1 != [] && r1[0] == ']'
    ensures ParseItems(s, acc) == Some((JArr(acc + [v]), r1[1..]))
  {
    ParseItemsUnfold(s, acc, v, r1);
    SkipNone(r1);
  }

  lemma MembersKey(s: string, acc: seq<Member>, key: string, r1: string)
    requires s != [] && s[0] == '"' && ParseString(s[1..]) == Some((key, r1))
    ensures ParseMembers(s, acc) == ParseMemberValue(SkipSpace(r1), key, acc)
  {
  }

  lemma MembersColon(s: string, key: string, acc: seq<Member>, v: Json, r4: string)
    requires s != [] && s[0] == ':' && ParseValue(SkipSpace(s[1..])) == Some((v, r4))
    ensures ParseMemberValue(s, key, acc) == ParseMemberEnd(SkipSpace(r4), Put(acc, key, v))
  {
  }

  lemma MembersComma(s: string, acc: seq<Member>)
    requires s != [] && s[0] == ','
    ensures ParseMemberEnd(s, acc) == ParseMembers(SkipSpace(s[1..]), acc)
  {
  }

  lemma MembersClose(s: string, acc: seq<Member>)
    requires s != [] && s[0] == '}'
    ensures ParseMemberEnd(s, acc) == Some((JObj(acc), s[1..]))
  {
  }

  lemma MemberStep(s: string, acc: seq<Member>, key: string, r1: string, v: Json, r4: string)
    requires s != [] && s[0] == '"' && ParseString(s[1..]) == Some((key, r1))
    requires r1 != [] && r1[0] == ':' && ParseValue(SkipSpace(r1[1..])) == Some((v, r4))
    requires r4 != [] && r4[0] == ','
    ensures ParseMembers(s, acc) == ParseMembers(SkipSpace(r4[1..]), Put(acc, key, v))
  {
    assert ParseMembers(s, acc) == ParseMemberValue(r1, key, acc) by {
      SkipNone(r1);
      MembersKey(s, acc, key, r1);
    }
    assert ParseMemberValue(r1, key, acc) == ParseMemberEnd(r4, Put(acc, key, v)) by {
      SkipNone(r4);
      MembersColon(r1, key, acc, v, r4);
    }
    MembersComma(r4, Put(acc, key, v));
  }

  lemma MemberLast(s: string, acc: seq<Member>, key: string, r1: string, v: Json, r4: string)
    requires s != [] && s[0] == '"' && ParseString(s[1..]) == Some((key, r1))
    requires r1 != [] && r1[0] == ':' && ParseValue(SkipSpace(r1[1..])) == Some((v, r4))
    requires r4 != [] && r4[0] == '}'
    ensures ParseMembers(s, acc) == Some((JObj(Put(acc, key, v)), r4[1..]))
  {
    assert ParseMembers(s, acc) == ParseMemberValue(r1, key, acc) by {
      SkipNone(r1);
      MembersKey(s, acc, key, r1);
    }
    assert ParseMemberValue(r1, key, acc) == ParseMemberEnd(r4, Put(acc, key, v)) by {
      SkipNone(r4);
      MembersColon(r1, key, acc, v, r4);
    }
    MembersClose(r4, Put(acc, key, v));
  }

  lemma ArrText(items: seq<Json>, rest: string)
    ensures var s := Print(JArr(items)) + rest;
      s != [] && s[0] == '[' && s[1..] == PrintItems(items) + "]" + rest
  {
    assert Print(JArr(items)) + rest == ['['] + (PrintItems(items) + "]" + rest);
    Cons('[', PrintItems(items) + "]" + rest);
  }

  lemma ObjText(ms: seq<Member>, rest: string)
    ensures var s := Print(JObj(ms)) + rest;
      s != [] && s[0] == '{' && s[1..] == PrintMembers(ms, "", "") + "}" + rest
  {
    assert Print(JObj(ms)) + rest == ['{'] + (PrintMembers(ms, "", "") + "}" + rest);
    Cons('{', PrintMembers(ms, "", "") + "}" + rest);
  }

  /** The text after the first element of an array: its closing bracket, or a comma and the others. */
  function ItemsAfter(items: seq<Json>, rest: string): string
    requires items != []
  {
    if |items| == 1 then "]" + rest else "," + (PrintItems(items[1..]) + "]" + rest)
  }

  lemma ItemsText(items: seq<Json>, rest: string)
    requires items != []
    ensures PrintItems(items) + "]" + rest == Print(items[0]) + ItemsAfter(items, rest)
  {
  }

  /** The text after the first member of an object: its closing brace, or a comma and the others. */
  function MembersAfter(ms: seq<Member>, w1: string, w2: string, rest: string): string
    requires ms != []
  {
    if |ms| == 1 then "}" + rest else "," + (PrintMembers(ms[1..], w1, w2) + "}" + rest)
  }

  lemma AppendFirst<T>(acc: seq<T>, xs: seq<T>)
    requires xs != []
    ensures acc + [xs[0]] + xs[1..] == acc + xs
    ensures |xs| == 1 ==> acc + [xs[0]] == acc + xs
  {
    assert xs == [xs[0]] + xs[1..];
  }

  lemma MembersText(ms: seq<Member>, w1: string, w2: string, rest: string)
    requires ms != []
    ensures PrintMembers(ms, w1, w2) + "}" + rest
      == w1 + (['"'] + (Escape(ms[0].key) + "\"" + ([':'] + (w2 + (Print(ms[0].value) + MembersAfter(ms, w1, w2, rest))))))
  {
    var e, pv := Escape(ms[0].key), Print(ms[0].value);
    var t := if |ms| == 1 then "" else "," + PrintMembers(ms[1..], w1, w2);
    var g := "}" + rest;
    var after := MembersAfter(ms, w1, w2, rest);
    if |ms| == 1 {
      assert t + g == after;
    } else {
      var pm := PrintMembers(ms[1..], w1, w2);
      AppendAssoc(",", pm, g);
      AppendAssoc(pm, "}", rest);
    }
    var z := [':'] + (w2 + (pv + after));
    calc {
      PrintMembers(ms, w1, w2) + "}" + rest;
      (w1 + Quote(ms[0].key) + ":" + w2 + pv + t) + "}" + rest;
      { AppendAssoc(w1 + Quote(ms[0].key) + ":" + w2 + pv + t, "}", rest); }
      (w1 + Quote(ms[0].key) + ":" + w2 + pv + t) + g;
      { AppendAssoc(w1 + Quote(ms[0].key) + ":" + w2 + pv, t, g); }
      (w1 + Quote(ms[0].key) + ":" + w2 + pv) + after;
      { AppendAssoc(w1 + Quote(ms[0].key) + ":" + w2, pv, after); }
      (w1 + Quote(ms[0].key) + ":" + w2) + (pv + after);
      { AppendAssoc(w1 + Quote(ms[0].key) + ":", w2, pv + after); }
      (w1 + Quote(ms[0].key) + ":") + (w2 + (pv + after));
      { AppendAssoc(w1 + Quote(ms[0].key), ":", w2 + (pv + after)); }
      (w1 + Quote(ms[0].key)) + z;
      { AppendAssoc(w1, Quote(ms[0].key), z); }
      w1 + (Quote(ms[0].key) + z);
      { AppendAssoc(['"'] + e, "\"", z); AppendAssoc(['"'], e + "\"", z); AppendAssoc(['"'], e, "\""); }
      w1 + (['"'] + (e + "\"" + z));
    }
  }

  lemma NumRoundTrip(l: string, rest: string)
    requires NumberEnd(l) == Some(|l|) && EndsValue(rest)
    ensures ParseValue(Print(JNum(l)) + rest) == Some((JNum(l), rest))
  {
    var s := l + rest;
    NumberRoundTrip(l, rest);
    assert s[..|l|] == l && s[|l|..] == rest;
  }

  lemma StrText(str: string, rest: string)
    ensures var s := Print(JStr(str)) + rest;
      s != [] && s[0] == '"' && s[1..] == Escape(str) + "\"" + rest
  {
    var e := Escape(str);
    calc {
      Print(JStr(str)) + rest;
      (['"'] + e + ['"']) + rest;
      { AppendAssoc(['"'] + e, ['"'], rest); }
      (['"'] + e) + (['"'] + rest);
      { AppendAssoc(['"'], e, ['"'] + rest); }
      ['"'] + (e + (['"'] + rest));
      { AppendAssoc(e, ['"'], rest); }
      ['"'] + (e + ['"'] + rest);
    }
    Cons('"', e + "\"" + rest);
  }

  lemma ParseValueStr(s: string)
    requires s != [] && s[0] == '"'
    ensures ParseValue(s) == match ParseString(s[1..])
      case None => None
      case Some((str, rest)) => Some((JStr(str), rest))
  {
  }

  lemma StrRoundTrip(str: string, rest: string)
    ensures ParseValue(Print(JStr(str)) + rest) == Some((JStr(str), rest))
  {
    StrText(str, rest);
    StringRoundTrip(str, rest);
    ParseValueStr(Print(JStr(str)) + rest);
  }

  /** Parsing what `JSON.stringify` prints gives the value back. */
  lemma {:induction false} ValueRoundTrip(v: Json, rest: string)
    requires WellFormed(v)
    requires EndsValue(rest)
    ensures ParseValue(Print(v) + rest) == Some((v, rest))
    decreases v, 2
  {
    match v
    case JNull => LiteralRoundTrip(v, rest);
    case JBool(b) => LiteralRoundTrip(v, rest);
    case JNum(l) => NumRoundTrip(l, rest);
    case JStr(str) => StrRoundTrip(str, rest);
    case JArr(items) => ArrRoundTrip(items, rest);
    case JObj(ms) => ObjRoundTrip(ms, rest);
  }

  lemma EmptyArrRoundTrip(rest: string)
    ensures ParseValue(Print(JArr([])) + rest) == Some((JArr([]), rest))
  {
    var s := Print(JArr([])) + rest;
    assert s == ['['] + ([']'] + rest);
    Cons('[', [']'] + rest);
    Cons(']', rest);
    SkipNone(s[1..]);
    ParseValueArr(s);
  }

  lemma EmptyObjRoundTrip(rest: string)
    ensures ParseValue(Print(JObj([])) + rest) == Some((JObj([]), rest))
  {
    var s := Print(JObj([])) + rest;
    assert s == ['{'] + (['}'] + rest);
    Cons('{', ['}'] + rest);
    Cons('}', rest);
    SkipNone(s[1..]);
    ParseValueObj(s);
  }

  /** Reading a non-empty array starts with reading its elements. */
  lemma ArrOpen(items: seq<Json>, rest: string)
    requires items != [] && WellFormed(items[0])
    ensures ParseValue(Print(JArr(items)) + rest) == ParseItems(PrintItems(items) + "]" + rest, [])
  {
    ArrText(items, rest);
    PrintItemsStart(items, "]" + rest);
    ParseArrStep(Print(JArr(items)) + rest);
  }

  /** Reading a non-empty object starts with reading its members. */
  lemma ObjOpen(ms: seq<Member>, rest: string)
    requires ms != [] && WellFormed(ms[0].value)
    ensures ParseValue(Print(JObj(ms)) + rest) == ParseMembers(SkipSpace(PrintMembers(ms, "", "") + "}" + rest), [])
  {
    ObjText(ms, rest);
    var x, r1 := MemberHead(ms, "", "", rest);
    ParseObjStep(Print(JObj(ms)) + rest);
  }

  lemma {:induction false} ArrRoundTrip(items: seq<Json>, rest: string)
    requires WellFormed(JArr(items))
    ensures ParseValue(Print(JArr(items)) + rest) == Some((JArr(items), rest))
    decreases JArr(items), 1
  {
    if items == [] {
      EmptyArrRoundTrip(rest);
    } else {
      ArrOpen(items, rest);
      ItemsRoundTrip(items, [], rest);
      EmptyAppend(items);
    }
  }

  lemma {:induction false} ObjRoundTrip(ms: seq<Member>, rest: string)
    requires WellFormed(JObj(ms))
    ensures ParseValue(Print(JObj(ms)) + rest) == Some((JObj(ms), rest))
    decreases JObj(ms), 1
  {
    if ms == [] {
      EmptyObjRoundTrip(rest);
    } else {
      ObjOpen(ms, rest);
      MembersRoundTrip(ms, [], "", "", rest);
      EmptyAppend(ms);
    }
  }

  lemma {:induction false} ItemsRoundTrip(items: seq<Json>, acc: seq<Json>, rest: string)
    requires items != []
    requires forall i :: 0 <= i < |items| ==> WellFormed(items[i])
    ensures ParseItems(PrintItems(items) + "]" + rest, acc) == Some((JArr(acc + items), rest))
    decreases items
  {
    var s := PrintItems(items) + "]" + rest;
    var v := items[0];
    var after := ItemsAfter(items, rest);
    if |items| == 1 {
      assert ParseItems(s, acc) == Some((JArr(acc + [v]), rest)) by {
        ItemsText(items, rest);
        Cons(']', rest);
        ValueRoundTrip(v, after);
        ItemsLast(s, acc, v, after);
      }
      AppendFirst(acc, items);
    } else {
      var more := PrintItems(items[1..]) + "]" + rest;
      assert ParseItems(s, acc) == ParseItems(more, acc + [v]) by {
        ItemsText(items, rest);
        Cons(',', more);
        ValueRoundTrip(v, after);
        PrintItemsStart(items[1..], "]" + rest);
        ItemsStep(s, acc, v, after);
      }
      ItemsRoundTrip(items[1..], acc + [v], rest);
      AppendFirst(acc, items);
    }
  }

  /** Keys already read stay distinct from the keys still to come. */
  lemma KeysApart(ms: seq<Member>, acc: seq<Member>)
    requires ms != [] && DistinctKeys(ms)
    requires forall i, j :: 0 <= i < |acc| && 0 <= j < |ms| ==> acc[i].key != ms[j].key
    requires forall i :: 0 <= i < |ms| ==> WellFormed(ms[i].value)
    ensures Put(acc, ms[0].key, ms[0].value) == acc + [ms[0]]
    ensures DistinctKeys(ms[1..]) && forall i :: 0 <= i < |ms| - 1 ==> WellFormed(ms[1..][i].value)
    ensures forall i, j :: 0 <= i < |acc| + 1 && 0 <= j < |ms| - 1 ==> (acc + [ms[0]])[i].key != ms[1..][j].key
  {
    assert forall i :: 0 <= i < |ms| - 1 ==> ms[1..][i] == ms[i + 1];
    forall i, j | 0 <= i < |acc| + 1 && 0 <= j < |ms| - 1
      ensures (acc + [ms[0]])[i].key != ms[1..][j].key
    {
      assert ms[1..][j] == ms[j + 1];
      if i == |acc| {
        assert (acc + [ms[0]])[i] == ms[0];
      } else {
        assert (acc + [ms[0]])[i] == acc[i];
      }
    }
  }

  /** The first member's key and colon are read back, leaving its value and what follows. */
  lemma MemberHead(ms: seq<Member>, w1: string, w2: string, rest: string) returns (x: string, r1: string)
    requires ms != [] && WellFormed(ms[0].value)
    requires AllJsonSpace(w1) && AllJsonSpace(w2)
    ensures SkipSpace(PrintMembers(ms, w1, w2) + "}" + rest) == x
    ensures w1 == [] ==> PrintMembers(ms, w1, w2) + "}" + rest == x
    ensures x != [] && x[0] == '"' && ParseString(x[1..]) == Some((ms[0].key, r1))
    ensures r1 != [] && r1[0] == ':' && SkipSpace(r1[1..]) == Print(ms[0].value) + MembersAfter(ms, w1, w2, rest)
  {
    var m := ms[0];
    var after := MembersAfter(ms, w1, w2, rest);
    var r2 := w2 + (Print(m.value) + after);
    r1 := [':'] + r2;
    x := ['"'] + (Escape(m.key) + "\"" + r1);
    MembersText(ms, w1, w2, rest);
    SkipSpaceOver(w1, x);
    Cons('"', Escape(m.key) + "\"" + r1);
    StringRoundTrip(m.key, r1);
    Cons(':', r2);
    PrintStart(m.value);
    SkipSpaceOver(w2, Print(m.value) + after);
  }

  /** Reading the first of several members. */
  lemma {:induction false} MemberNext(ms: seq<Member>, acc: seq<Member>, w1: string, w2: string, rest: string)
    requires |ms| > 1 && WellFormed(ms[0].value)
    requires AllJsonSpace(w1) && AllJsonSpace(w2)
    ensures ParseMembers(SkipSpace(PrintMembers(ms, w1, w2) + "}" + rest), acc)
      == ParseMembers(SkipSpace(PrintMembers(ms[1..], w1, w2) + "}" + rest), Put(acc, ms[0].key, ms[0].value))
    decreases ms, 0
  {
    var x, r1 := MemberHead(ms, w1, w2, rest);
    var after := MembersAfter(ms, w1, w2, rest);
    Cons(',', PrintMembers(ms[1..], w1, w2) + "}" + rest);
    ValueRoundTrip(ms[0].value, after);
    MemberStep(x, acc, ms[0].key, r1, ms[0].value, after);
  }

  /** Reading the last member. */
  lemma {:induction false} MemberFinal(ms: seq<Member>, acc: seq<Member>, w1: string, w2: string, rest: string)
    requires |ms| == 1 && WellFormed(ms[0].value)
    requires AllJsonSpace(w1) && AllJsonSpace(w2)
    ensures ParseMembers(SkipSpace(PrintMembers(ms, w1, w2) + "}" + rest), acc)
      == Some((JObj(Put(acc, ms[0].key, ms[0].value)), rest))
    decreases ms, 0
  {
    var x, r1 := MemberHead(ms, w1, w2, rest);
    var after := MembersAfter(ms, w1, w2, rest);
    Cons('}', rest);
    ValueRoundTrip(ms[0].value, after);
    MemberLast(x, acc, ms[0].key, r1, ms[0].value, after);
  }

  lemma {:induction false} MembersRoundTrip(ms: seq<Member>, acc: seq<Member>, w1: string, w2: string, rest: string)
    requires ms != []
    requires DistinctKeys(ms) && forall i :: 0 <= i < |ms| ==> WellFormed(ms[i].value)
    requires forall i, j :: 0 <= i < |acc| && 0 <= j < |ms| ==> acc[i].key != ms[j].key
    requires AllJsonSpace(w1) && AllJsonSpace(w2)
    ensures ParseMembers(SkipSpace(PrintMembers(ms, w1, w2) + "}" + rest), acc) == Some((JObj(acc + ms), rest))
    decreases ms, 1
  {
    KeysApart(ms, acc);
    AppendFirst(acc, ms);
    if |ms| == 1 {
      MemberFinal(ms, acc, w1, w2, rest);
    } else {
      MemberNext(ms, acc, w1, w2, rest);
      MembersRoundTrip(ms[1..], acc + [ms[0]], w1, w2, rest);
    }
  }

  /** `JSON.parse(JSON.stringify(v))` is `v`. */
  lemma ParsePrint(v: Json)
    requires WellFormed(v)
    ensures Parse(Print(v)) == Some(v)
  {
    assert SkipSpace(Print(v)) == Print(v) by {
      PrintStart(v);
      SkipNone(Print(v));
    }
    assert ParseValue(Print(v)) == Some((v, "")) by {
      ValueRoundTrip(v, "");
      assert Print(v) + "" == Print(v);
    }
    ParseWhole(Print(v), v);
  }

  /** An object written with white space `w1` before each member and `w2` after each colon reads back. */
  lemma ParseObjectText(ms: seq<Member>, w1: string, w2: string)
    requires ms != [] && WellFormed(JObj(ms))
    requires AllJsonSpace(w1) && AllJsonSpace(w2)
    ensures Parse("{" + PrintMembers(ms, w1, w2) + "}") == Some(JObj(ms))
  {
    var pm := PrintMembers(ms, w1, w2);
    var s := "{" + pm + "}";
    assert ParseValue(s) == Some((JObj(ms), "")) by {
      ObjectTextOpen(ms, w1, w2);
      MembersRoundTrip(ms, [], w1, w2, "");
      EmptyAppend(ms);
    }
    assert SkipSpace(s) == s by { BracedText(pm); SkipNone(s); }
    ParseWhole(s, JObj(ms));
  }

  lemma ObjectTextOpen(ms: seq<Member>, w1: string, w2: string)
    requires ms != [] && WellFormed(ms[0].value)
    requires AllJsonSpace(w1) && AllJsonSpace(w2)
    ensures var pm := PrintMembers(ms, w1, w2);
      ParseValue("{" + pm + "}") == ParseMembers(SkipSpace(pm + "}" + ""), [])
  {
    var pm := PrintMembers(ms, w1, w2);
    var s := "{" + pm + "}";
    assert s != [] && s[0] == '{' && s[1..] == pm + "}" + "" by { BracedText(pm); }
    assert SkipSpace(pm + "}" + "") != [] && SkipSpace(pm + "}" + "")[0] == '"' by {
      var x, r1 := MemberHead(ms, w1, w2, "");
    }
    ParseObjSpaceStep(s);
  }

  lemma ParseWhole(text: string, v: Json)
    requires ParseValue(SkipSpace(text)) == Some((v, ""))
    ensures Parse(text) == Some(v)
  {
  }

  lemma ParseObjSpaceStep(s: string)
    requires s != [] && s[0] == '{'
    requires SkipSpace(s[1..]) != [] && SkipSpace(s[1..])[0] == '"'
    ensures ParseValue(s) == ParseMembers(SkipSpace(s[1..]), [])
  {
    ParseValueObj(s);
  }

  lemma BracedText(pm: string)
    ensures var s := "{" + pm + "}"; s != [] && s[0] == '{' && s[1..] == pm + "}" + ""
  {
    assert "{" + pm + "}" == ['{'] + (pm + "}") by { AppendAssoc("{", pm, "}"); }
    Cons('{', pm + "}");
    assert pm + "}" + "" == pm + "}";
  }

  /** An object holding only white space reads as the empty object. */
  lemma ParseEmptyObject(w: string)
    requires AllJsonSpace(w)
    ensures Parse("{" + w + "}") == Some(JObj([]))
  {
    var s := "{" + w + "}";
    assert s == ['{'] + (w + "}") by { AppendAssoc("{", w, "}"); }
    Cons('{', w + "}");
    SkipNone(s);
    SkipSpaceOver(w, "}");
    ParseValueObj(s);
  }
}
