/**
 * The two text clean-ups the metadata loader applies to a `.jsonc` file before handing it
 * to `JSON.parse`: dropping line comments, then dropping trailing commas. Each is a scan
 * that follows the regular expression it models position by position: where the expression
 * matches, the match is replaced; elsewhere one character is kept and the scan moves on.
 */
module Jsonc {
  import opened Strings
  import opened Wrappers
  import opened Sequences
  import opened Json

  // ---------------------------------------------------------------- scanning helpers

  /** The end of the run of `\s` characters starting at `i`. */
  function SpaceRunEnd(s: string, i: nat): (j: nat)
    requires i <= |s|
    ensures i <= j <= |s|
    ensures forall k :: i <= k < j ==> IsSpace(s[k])
    ensures j < |s| ==> !IsSpace(s[j])
    decreases |s| - i
  {
    if i < |s| && IsSpace(s[i]) then SpaceRunEnd(s, i + 1) else i
  }

  /** Where `.*` starting at `i` stops: the next line terminator, or the end. */
  function LineEnd(s: string, i: nat): (j: nat)
    requires i <= |s|
    ensures i <= j <= |s|
    ensures forall k :: i <= k < j ==> !IsLineTerminator(s[k])
    ensures j < |s| ==> IsLineTerminator(s[j])
    decreases |s| - i
  {
    if i < |s| && !IsLineTerminator(s[i]) then LineEnd(s, i + 1) else i
  }

  /** Text without any line terminator. */
  predicate SingleLine(s: string) {
    forall i :: 0 <= i < |s| ==> !IsLineTerminator(s[i])
  }

  predicate AllSpace(w: string) {
    forall i :: 0 <= i < |w| ==> IsSpace(w[i])
  }

  // ---------------------------------------------------------------- line comments

  /** `\s*\/\/` matches at the start of `s`. */
  predicate CommentAt(s: string) {
    var j := SpaceRunEnd(s, 0);
    j + 1 < |s| && s[j] == '/' && s[j + 1] == '/'
  }

  /**
   * `s.replace(/(^\s*\/\/.*$)/gm, '')`, where `lineStart` says whether `^` matches at the
   * start of `s` (it does at the start of the file and after each line terminator). A match
   * covers the white space before the `//` (line breaks included) and the comment up to,
   * not including, the next line terminator.
   */
  function StripFrom(s: string, lineStart: bool): (r: string)
    ensures |r| <= |s|
    decreases |s|
  {
    if s == [] then []
    else if lineStart && CommentAt(s) then StripFrom(s[LineEnd(s, SpaceRunEnd(s, 0))..], false)
    else [s[0]] + StripFrom(s[1..], IsLineTerminator(s[0]))
  }

  function StripComments(s: string): (r: string)
    ensures |r| <= |s|
  {
    StripFrom(s, true)
  }

  /** `^` matches at position `i` of `s`. */
  predicate LineStartAt(s: string, i: nat, lineStart: bool)
    requires i <= |s|
  {
    (i == 0 && lineStart) || (0 < i && IsLineTerminator(s[i - 1]))
  }

  /** Text in which no line starts with a comment is left exactly as it is. */
  lemma {:induction false} NoCommentKept(s: string, lineStart: bool)
    requires forall i :: 0 <= i < |s| && LineStartAt(s, i, lineStart) ==> !CommentAt(s[i..])
    ensures StripFrom(s, lineStart) == s
    decreases |s|
  {
    if s != [] {
      assert !(lineStart && CommentAt(s)) by {
        assert LineStartAt(s, 0, lineStart) <==> lineStart;
        assert s[0..] == s;
      }
      var t := s[1..];
      forall i | 0 <= i < |t| && LineStartAt(t, i, IsLineTerminator(s[0])) ensures !CommentAt(t[i..]) {
        assert LineStartAt(s, i + 1, lineStart);
        assert t[i..] == s[i + 1..];
      }
      NoCommentKept(t, IsLineTerminator(s[0]));
      assert s == [s[0]] + t;
    }
  }

  /** A comment line, with the white space before it, is removed up to its line break. */
  lemma CommentRemoved(w: string, c: string, rest: string)
    requires AllSpace(w) && SingleLine(c)
    requires rest == [] || IsLineTerminator(rest[0])
    ensures StripFrom(w + "//" + c + rest, true) == StripFrom(rest, false)
  {
    var s := w + "//" + c + rest;
    assert forall k :: 0 <= k < |w| ==> s[k] == w[k];
    assert s[|w|] == '/' && s[|w| + 1] == '/';
    assert SpaceRunEnd(s, 0) == |w| by { SpaceRunStop(s, 0, |w|); }
    assert forall k :: |w| + 2 <= k < |w| + 2 + |c| ==> s[k] == c[k - |w| - 2];
    assert LineEnd(s, |w|) == |w| + 2 + |c| by {
      LineEndStop(s, |w|, |w| + 2 + |c|);
      if rest != [] { assert s[|w| + 2 + |c|] == rest[0]; }
    }
    assert s[|w| + 2 + |c|..] == rest;
  }

  lemma {:induction false} SpaceRunStop(s: string, i: nat, j: nat)
    requires i <= j <= |s|
    requires forall k :: i <= k < j ==> IsSpace(s[k])
    requires j == |s| || !IsSpace(s[j])
    ensures SpaceRunEnd(s, i) == j
    decreases j - i
  {
    if i < j { SpaceRunStop(s, i + 1, j); }
  }

  lemma {:induction false} LineEndStop(s: string, i: nat, j: nat)
    requires i <= j <= |s|
    requires forall k :: i <= k < j ==> !IsLineTerminator(s[k])
    requires j == |s| || IsLineTerminator(s[j])
    ensures LineEnd(s, i) == j
    decreases j - i
  {
    if i < j { LineEndStop(s, i + 1, j); }
  }

  /** Inside a line, after its start, nothing is removed. */
  lemma {:induction false} LineKept(x: string, rest: string)
    requires SingleLine(x)
    ensures StripFrom(x + rest, false) == x + StripFrom(rest, false)
    decreases |x|
  {
    if x == [] {
      assert x + rest == rest;
    } else {
      var s := x + rest;
      assert s[0] == x[0] && s[1..] == x[1..] + rest;
      LineKept(x[1..], rest);
      assert [x[0]] + (x[1..] + StripFrom(rest, false)) == x + StripFrom(rest, false) by {
        ConsConcat(x, StripFrom(rest, false));
      }
    }
  }

  lemma ConsConcat(x: string, y: string)
    requires x != []
    ensures [x[0]] + (x[1..] + y) == x + y
  {
    assert x == [x[0]] + x[1..];
  }

  /** A line whose first non-blank character is not `/` is kept whole. */
  lemma LineStartKept(x: string, rest: string)
    requires SingleLine(x)
    requires SpaceRunEnd(x, 0) < |x| && x[SpaceRunEnd(x, 0)] != '/'
    ensures StripFrom(x + rest, true) == x + StripFrom(rest, false)
  {
    var s := x + rest;
    var j := SpaceRunEnd(x, 0);
    assert forall k :: 0 <= k <= j ==> s[k] == x[k];
    assert SpaceRunEnd(s, 0) == j by { SpaceRunStop(s, 0, j); }
    assert !CommentAt(s);
    assert s[1..] == x[1..] + rest;
    assert !IsLineTerminator(x[0]);
    LineKept(x[1..], rest);
    ConsConcat(x, StripFrom(rest, false));
  }

  /** A line break is kept, and `^` matches after it. */
  lemma BreakKept(c: char, rest: string)
    requires IsLineTerminator(c)
    ensures StripFrom([c] + rest, false) == [c] + StripFrom(rest, true)
  {
    assert ([c] + rest)[0] == c && ([c] + rest)[1..] == rest;
  }

  // ---------------------------------------------------------------- trailing commas

  /** `,\s*` at the start of `s` is followed by a closing brace or bracket. */
  predicate TrailingComma(s: string) {
    s != [] && s[0] == ',' && var j := SpaceRunEnd(s, 1); j < |s| && (s[j] == '}' || s[j] == ']')
  }

  /**
   * `s.replace(/,\s*([}\]])/g, '$1')`: every comma followed by white space and a closing
   * brace or bracket is dropped together with that white space, wherever it stands.
   */
  function StripTrailingCommas(s: string): (r: string)
    ensures |r| <= |s|
    decreases |s|
  {
    if s == [] then []
    else if TrailingComma(s) then
      var j := SpaceRunEnd(s, 1);
      [s[j]] + StripTrailingCommas(s[j + 1..])
    else [s[0]] + StripTrailingCommas(s[1..])
  }

  /** A trailing comma and the white space after it disappear; the bracket stays. */
  lemma TrailingCommaDropped(w: string, c: char, rest: string)
    requires AllSpace(w) && (c == '}' || c == ']')
    ensures StripTrailingCommas([','] + w + [c] + rest) == [c] + StripTrailingCommas(rest)
  {
    var s := [','] + w + [c] + rest;
    CommaText(w, c, rest);
    assert SpaceRunEnd(s, 1) == |w| + 1 by { SpaceRunStop(s, 1, |w| + 1); }
  }

  lemma CommaText(w: string, c: char, rest: string)
    ensures var s := [','] + w + [c] + rest;
      && s[0] == ','
      && (forall k :: 1 <= k < |w| + 1 ==> s[k] == w[k - 1])
      && s[|w| + 1] == c
      && s[|w| + 2..] == rest
  {
  }

  /** Text without commas passes through unchanged. */
  lemma {:induction false} NoCommaKept(x: string, rest: string)
    requires ',' !in x
    ensures StripTrailingCommas(x + rest) == x + StripTrailingCommas(rest)
    decreases |x|
  {
    if x == [] {
      assert x + rest == rest;
    } else {
      var s := x + rest;
      assert s[0] == x[0] && s[1..] == x[1..] + rest;
      NoCommaKept(x[1..], rest);
      ConsConcat(x, StripTrailingCommas(rest));
    }
  }

  // ---------------------------------------------------------------- trailing commas, string-aware

  /**
   * The same clean-up restricted to commas between tokens: string literals (with their
   * backslash escapes) are copied unchanged.
   */
  function CleanCommas(s: string): (r: string)
    ensures |r| <= |s|
  {
    CommasOutside(s)
  }

  function CommasOutside(s: string): (r: string)
    ensures |r| <= |s|
    decreases |s|
  {
    if s == [] then []
    else if s[0] == '"' then ['"'] + CommasInString(s[1..])
    else if TrailingComma(s) then
      var j := SpaceRunEnd(s, 1);
      [s[j]] + CommasOutside(s[j + 1..])
    else [s[0]] + CommasOutside(s[1..])
  }

  /** Inside a string literal, after its opening quote. */
  function CommasInString(s: string): (r: string)
    ensures |r| <= |s|
    decreases |s|
  {
    if s == [] then []
    else if s[0] == '\\' && |s| >= 2 then s[..2] + CommasInString(s[2..])
    else if s[0] == '"' then ['"'] + CommasOutside(s[1..])
    else [s[0]] + CommasInString(s[1..])
  }

  lemma CleanCommaDropped(w: string, c: char, rest: string)
    requires AllSpace(w) && (c == '}' || c == ']')
    ensures CommasOutside([','] + w + [c] + rest) == [c] + CommasOutside(rest)
  {
    var s := [','] + w + [c] + rest;
    CommaText(w, c, rest);
    assert SpaceRunEnd(s, 1) == |w| + 1 by { SpaceRunStop(s, 1, |w| + 1); }
  }

  /** A comma followed, after white space, by anything but a closing bracket is kept. */
  lemma CleanCommaKept(s: string)
    requires s != [] && s[0] == ',' && !TrailingComma(s)
    ensures CommasOutside(s) == [','] + CommasOutside(s[1..])
  {
  }

  lemma {:induction false} OutsidePlain(x: string, rest: string)
    requires ',' !in x && '"' !in x
    ensures CommasOutside(x + rest) == x + CommasOutside(rest)
    decreases |x|
  {
    if x == [] {
      assert x + rest == rest;
    } else {
      var s := x + rest;
      assert s[0] == x[0] && s[1..] == x[1..] + rest;
      OutsidePlain(x[1..], rest);
      ConsConcat(x, CommasOutside(rest));
    }
  }

  lemma {:induction false} InsidePlain(x: string, rest: string)
    requires '"' !in x && '\\' !in x
    ensures CommasInString(x + rest) == x + CommasInString(rest)
    decreases |x|
  {
    if x == [] {
      assert x + rest == rest;
    } else {
      var s := x + rest;
      assert s[0] == x[0] && s[1..] == x[1..] + rest;
      InsidePlain(x[1..], rest);
      ConsConcat(x, CommasInString(rest));
    }
  }

  /** A closing bracket outside a string is copied. */
  lemma CloseKept(c: char, rest: string)
    requires c == '}' || c == ']'
    ensures CommasOutside([c] + rest) == [c] + CommasOutside(rest)
  {
    assert ([c] + rest)[0] == c && ([c] + rest)[1..] == rest;
  }

  lemma Decompose(t: string, c: char, y: string)
    requires t != [] && t[0] == c && t[1..] == y
    ensures t == [c] + y
  {
  }

  // ---------------------------------------------------------------- where the two clean-ups agree

  /**
   * No string literal in `s` holds a comma followed by white space and a closing brace or
   * bracket: the shape the expression as written would also edit inside a string.
   */
  predicate QuietOutside(s: string)
    decreases |s|
  {
    if s == [] then true
    else if s[0] == '"' then QuietInString(s[1..])
    else if TrailingComma(s) then QuietOutside(s[SpaceRunEnd(s, 1) + 1..])
    else QuietOutside(s[1..])
  }

  /** The same, from inside a string literal. */
  predicate QuietInString(s: string)
    decreases |s|
  {
    if s == [] then true
    else if s[0] == '\\' && |s| >= 2 then !TrailingComma(s[1..]) && QuietInString(s[2..])
    else if s[0] == '"' then QuietOutside(s[1..])
    else !TrailingComma(s) && QuietInString(s[1..])
  }

  /** Where no string holds such a comma, the expression as written and the string-aware clean-up agree. */
  lemma {:induction false} AsWrittenAgrees(s: string)
    requires QuietOutside(s)
    ensures StripTrailingCommas(s) == CleanCommas(s)
  {
    AgreeOutside(s);
  }

  lemma {:induction false} AgreeOutside(s: string)
    requires QuietOutside(s)
    ensures StripTrailingCommas(s) == CommasOutside(s)
    decreases |s|, 1
  {
    if s == [] {
    } else if s[0] == '"' {
      AgreeInString(s[1..]);
    } else if TrailingComma(s) {
      AgreeOutside(s[SpaceRunEnd(s, 1) + 1..]);
    } else {
      AgreeOutside(s[1..]);
    }
  }

  /** A character that starts no trailing comma is copied by the expression as written. */
  lemma KeepOne(s: string)
    requires s != [] && !TrailingComma(s)
    ensures StripTrailingCommas(s) == [s[0]] + StripTrailingCommas(s[1..])
  {
  }

  /** So are two such characters. */
  lemma KeepTwo(s: string)
    requires |s| >= 2 && s[0] != ',' && !TrailingComma(s[1..])
    ensures StripTrailingCommas(s) == s[..2] + StripTrailingCommas(s[2..])
  {
    KeepOne(s);
    KeepOne(s[1..]);
    assert s[1..][1..] == s[2..];
    PairConcat(s[0], s[1], StripTrailingCommas(s[2..]));
    assert s[..2] == [s[0], s[1]];
  }

  lemma PairConcat(a: char, b: char, x: string)
    ensures [a] + ([b] + x) == [a, b] + x
  {
  }

  lemma {:induction false} AgreeInString(s: string)
    requires QuietInString(s)
    ensures StripTrailingCommas(s) == CommasInString(s)
    decreases |s|, 0
  {
    if s == [] {
    } else if s[0] == '\\' && |s| >= 2 {
      AgreeInString(s[2..]);
      KeepTwo(s);
    } else if s[0] == '"' {
      AgreeOutside(s[1..]);
    } else {
      AgreeInString(s[1..]);
    }
  }

  // ---------------------------------------------------------------- printed JSON is left alone

  predicate NumberChar(c: char) {
    IsDigit(c) || c == '-' || c == '+' || c == '.' || c == 'e' || c == 'E'
  }

  lemma FractionChars(s: string, i: nat)
    requires i <= |s| && FractionEnd(s, i).Some?
    ensures forall k :: i <= k < FractionEnd(s, i).value ==> NumberChar(s[k])
  {
  }

  lemma ExponentChars(s: string, i: nat)
    requires i <= |s| && ExponentEnd(s, i).Some?
    ensures forall k :: i <= k < ExponentEnd(s, i).value ==> NumberChar(s[k])
  {
  }

  /** A complete number lexeme is made of digits, signs, a point and exponent letters only. */
  lemma NumberChars(l: string)
    requires NumberEnd(l) == Some(|l|)
    ensures forall k :: 0 <= k < |l| ==> NumberChar(l[k])
    ensures ',' !in l && '"' !in l && SingleLine(l)
  {
    var i0 := if l != [] && l[0] == '-' then 1 else 0;
    var i1 := if l[i0] == '0' then i0 + 1 else DigitsEnd(l, i0);
    assert forall k :: 0 <= k < i1 ==> NumberChar(l[k]);
    FractionChars(l, i1);
    var i2 := FractionEnd(l, i1).value;
    ExponentChars(l, i2);
    assert forall k :: 0 <= k < |l| ==> NumberChar(l[k]);
  }

  function HexDigitIsPlain(d: nat): (c: char)
    requires d < 16
    ensures c == HexDigit(d) && c != '"' && c != '\\' && c != ',' && !IsLineTerminator(c)
  {
    HexDigit(d)
  }

  lemma EscapeCharKept(c: char, rest: string)
    ensures CommasInString(EscapeChar(c) + rest) == EscapeChar(c) + CommasInString(rest)
  {
    var e := EscapeChar(c);
    var s := e + rest;
    if c == '"' || c == '\\' || c == '\U{0008}' || c == '\U{000C}' || c == '\n' || c == '\r' || c == '\t' {
      assert |e| == 2 && e[0] == '\\';
      assert s[..2] == e && s[2..] == rest;
    } else if c < ' ' {
      var h1, h2 := HexDigitIsPlain(c as int / 16), HexDigitIsPlain(c as int % 16);
      var tail := ['0', '0', h1, h2];
      assert e == ['\\', 'u'] + tail;
      assert s[..2] == ['\\', 'u'] && s[2..] == tail + rest;
      InsidePlain(tail, rest);
      assert e + CommasInString(rest) == ['\\', 'u'] + (tail + CommasInString(rest));
    } else {
      assert e == [c];
      assert s[0] == c && s[1..] == rest;
    }
  }

  /** The escaped characters of a string literal are copied unchanged. */
  lemma {:induction false} EscapeKept(str: string, rest: string)
    ensures CommasInString(Escape(str) + rest) == Escape(str) + CommasInString(rest)
    decreases |str|
  {
    if str == [] {
      assert Escape(str) + rest == rest;
    } else {
      var e, t := EscapeChar(str[0]), Escape(str[1..]);
      assert Escape(str) + rest == e + (t + rest) by { AppendAssoc(e, t, rest); }
      EscapeCharKept(str[0], t + rest);
      EscapeKept(str[1..], rest);
      assert e + (t + CommasInString(rest)) == Escape(str) + CommasInString(rest) by {
        AppendAssoc(e, t, CommasInString(rest));
      }
    }
  }

  /** The body of a string literal and its closing quote are copied unchanged. */
  lemma StringBodyKept(str: string, rest: string)
    ensures CommasInString(Escape(str) + "\"" + rest) == Escape(str) + "\"" + CommasOutside(rest)
  {
    var e := Escape(str);
    assert e + "\"" + rest == e + (['"'] + rest) by { AppendAssoc(e, "\"", rest); }
    EscapeKept(str, ['"'] + rest);
    assert (['"'] + rest)[0] == '"' && (['"'] + rest)[1..] == rest;
    assert e + (['"'] + CommasOutside(rest)) == e + "\"" + CommasOutside(rest) by {
      AppendAssoc(e, "\"", CommasOutside(rest));
    }
  }

  lemma StrKept(str: string, rest: string)
    ensures CommasOutside(Print(JStr(str)) + rest) == Print(JStr(str)) + CommasOutside(rest)
  {
    var s := Print(JStr(str)) + rest;
    StrText(str, rest);
    StringBodyKept(str, rest);
    StrText(str, CommasOutside(rest));
    Decompose(Print(JStr(str)) + CommasOutside(rest), '"', Escape(str) + "\"" + CommasOutside(rest));
  }

  /** The string-aware clean-up leaves printed JSON unchanged. */
  lemma {:induction false} ValueKept(v: Json, rest: string)
    requires WellFormed(v)
    ensures CommasOutside(Print(v) + rest) == Print(v) + CommasOutside(rest)
    decreases v, 2
  {
    match v
    case JNull => OutsidePlain(Print(v), rest);
    case JBool(b) => OutsidePlain(Print(v), rest);
    case JNum(l) => NumberChars(l); OutsidePlain(l, rest);
    case JStr(str) => StrKept(str, rest);
    case JArr(items) => ArrKept(items, rest);
    case JObj(ms) => ObjKept(ms, rest);
  }

  lemma {:induction false} ArrKept(items: seq<Json>, rest: string)
    requires WellFormed(JArr(items))
    ensures CommasOutside(Print(JArr(items)) + rest) == Print(JArr(items)) + CommasOutside(rest)
    decreases JArr(items), 1
  {
    if items == [] {
      assert Print(JArr(items)) == "[]";
      OutsidePlain("[]", rest);
    } else {
      var s := Print(JArr(items)) + rest;
      ArrText(items, rest);
      assert CommasOutside(s) == ['['] + CommasOutside(s[1..]);
      ItemsKept(items, rest);
      ArrText(items, CommasOutside(rest));
      Decompose(Print(JArr(items)) + CommasOutside(rest), '[', PrintItems(items) + "]" + CommasOutside(rest));
    }
  }

  lemma {:induction false} ItemsKept(items: seq<Json>, rest: string)
    requires items != [] && forall i :: 0 <= i < |items| ==> WellFormed(items[i])
    ensures CommasOutside(PrintItems(items) + "]" + rest) == PrintItems(items) + "]" + CommasOutside(rest)
    decreases items
  {
    var after := ItemsAfter(items, rest);
    ItemsText(items, rest);
    ValueKept(items[0], after);
    assert CommasOutside(after) == ItemsAfter(items, CommasOutside(rest)) by {
      if |items| == 1 {
        CloseKept(']', rest);
      } else {
        var more := PrintItems(items[1..]) + "]" + rest;
        assert after == [','] + more;
        assert more != [] && StartsValue(more[0]) by {
          PrintItemsStart(items[1..], "]" + rest);
          AppendAssoc(PrintItems(items[1..]), "]", rest);
        }
        NotTrailing(after, more);
        CleanCommaKept(after);
        ItemsKept(items[1..], rest);
      }
    }
    ItemsText(items, CommasOutside(rest));
  }

  /** A comma directly followed by the start of a value is not a trailing comma. */
  lemma NotTrailing(s: string, more: string)
    requires s == [','] + more && more != [] && StartsValue(more[0])
    ensures !TrailingComma(s) && s[1..] == more
  {
    assert s[1] == more[0];
    assert SpaceRunEnd(s, 1) == 1;
  }

  lemma {:induction false} ObjKept(ms: seq<Member>, rest: string)
    requires WellFormed(JObj(ms))
    ensures CommasOutside(Print(JObj(ms)) + rest) == Print(JObj(ms)) + CommasOutside(rest)
    decreases JObj(ms), 1
  {
    if ms == [] {
      assert Print(JObj(ms)) == "{}";
      OutsidePlain("{}", rest);
    } else {
      var s := Print(JObj(ms)) + rest;
      ObjText(ms, rest);
      assert CommasOutside(s) == ['{'] + CommasOutside(s[1..]);
      MembersKept(ms, rest);
      ObjText(ms, CommasOutside(rest));
      Decompose(Print(JObj(ms)) + CommasOutside(rest), '{', PrintMembers(ms, "", "") + "}" + CommasOutside(rest));
    }
  }

  lemma {:induction false} MembersKept(ms: seq<Member>, rest: string)
    requires ms != [] && forall i :: 0 <= i < |ms| ==> WellFormed(ms[i].value)
    ensures CommasOutside(PrintMembers(ms, "", "") + "}" + rest) == PrintMembers(ms, "", "") + "}" + CommasOutside(rest)
    decreases ms
  {
    var m := ms[0];
    var after := MembersAfter(ms, "", "", rest);
    assert CommasOutside(after) == MembersAfter(ms, "", "", CommasOutside(rest)) by {
      if |ms| == 1 {
        CloseKept('}', rest);
      } else {
        var more := PrintMembers(ms[1..], "", "") + "}" + rest;
        assert after == [','] + more;
        assert more != [] && more[0] == '"' by {
          var x, r1 := MemberHead(ms[1..], "", "", rest);
        }
        NotTrailing(after, more);
        CleanCommaKept(after);
        MembersKept(ms[1..], rest);
      }
    }
    ValueKept(m.value, after);
    MemberFrontKept(m.key, Print(m.value) + after);
    MembersText(ms, "", "", rest);
    MembersText(ms, "", "", CommasOutside(rest));
    EmptyAppend(Print(m.value) + after);
    EmptyAppend(Print(m.value) + MembersAfter(ms, "", "", CommasOutside(rest)));
  }

  /** A member's key and colon are copied unchanged. */
  lemma MemberFrontKept(key: string, z: string)
    ensures var front := ['"'] + (Escape(key) + "\"" + ([':'] + z));
      CommasOutside([] + front) == [] + (['"'] + (Escape(key) + "\"" + ([':'] + CommasOutside(z))))
  {
    var front := ['"'] + (Escape(key) + "\"" + ([':'] + z));
    EmptyAppend(front);
    assert front[0] == '"' && front[1..] == Escape(key) + "\"" + ([':'] + z);
    StringBodyKept(key, [':'] + z);
    assert ([':'] + z)[0] == ':' && ([':'] + z)[1..] == z;
    EmptyAppend(['"'] + (Escape(key) + "\"" + ([':'] + CommasOutside(z))));
  }

  // ---------------------------------------------------------------- printed JSON fits on one line

  /** No U+2028 or U+2029: the only line terminators `JSON.stringify` writes unescaped. */
  predicate SeparatorFree(s: string) {
    '\U{2028}' !in s && '\U{2029}' !in s
  }

  predicate NoSeparators(v: Json) {
    match v
    case JStr(str) => SeparatorFree(str)
    case JArr(items) => forall i :: 0 <= i < |items| ==> NoSeparators(items[i])
    case JObj(ms) => forall i :: 0 <= i < |ms| ==> SeparatorFree(ms[i].key) && NoSeparators(ms[i].value)
    case _ => true
  }

  lemma SingleLineConcat(a: string, b: string)
    ensures SingleLine(a + b) <==> SingleLine(a) && SingleLine(b)
  {
    if SingleLine(a + b) {
      assert forall i :: 0 <= i < |a| ==> a[i] == (a + b)[i];
      assert forall i :: 0 <= i < |b| ==> b[i] == (a + b)[|a| + i];
    }
  }

  lemma {:induction false} EscapeSingleLine(str: string)
    requires SeparatorFree(str)
    ensures SingleLine(Escape(str))
    decreases |str|
  {
    if str != [] {
      var c := str[0];
      assert str == [c] + str[1..];
      EscapeSingleLine(str[1..]);
      if c < ' ' && !(c == '\U{0008}' || c == '\U{000C}' || c == '\n' || c == '\r' || c == '\t') {
        var h1, h2 := HexDigitIsPlain(c as int / 16), HexDigitIsPlain(c as int % 16);
        assert EscapeChar(c) == ['\\', 'u', '0', '0', h1, h2];
      }
      assert SingleLine(EscapeChar(c));
      SingleLineConcat(EscapeChar(c), Escape(str[1..]));
    }
  }

  lemma QuoteSingleLine(str: string)
    requires SeparatorFree(str)
    ensures SingleLine(Quote(str))
  {
    EscapeSingleLine(str);
    SingleLineConcat("\"", Escape(str));
    SingleLineConcat("\"" + Escape(str), "\"");
  }

  /** Printed JSON without U+2028 and U+2029 in its strings holds no line terminator. */
  lemma {:induction false} PrintSingleLine(v: Json)
    requires WellFormed(v) && NoSeparators(v)
    ensures SingleLine(Print(v))
    decreases v, 1
  {
    match v
    case JNull =>
    case JBool(b) =>
    case JNum(l) => NumberChars(l);
    case JStr(str) => QuoteSingleLine(str);
    case JArr(items) =>
      if items != [] { ItemsSingleLine(items); }
      SingleLineConcat("[", PrintItems(items));
      SingleLineConcat("[" + PrintItems(items), "]");
    case JObj(ms) =>
      if ms != [] { MembersSingleLine(ms); }
      SingleLineConcat("{", PrintMembers(ms, "", ""));
      SingleLineConcat("{" + PrintMembers(ms, "", ""), "}");
  }

  lemma {:induction false} ItemsSingleLine(items: seq<Json>)
    requires items != []
    requires forall i :: 0 <= i < |items| ==> WellFormed(items[i]) && NoSeparators(items[i])
    ensures SingleLine(PrintItems(items))
    decreases items
  {
    PrintSingleLine(items[0]);
    if |items| > 1 {
      ItemsSingleLine(items[1..]);
      SingleLineConcat(",", PrintItems(items[1..]));
    }
    SingleLineConcat(Print(items[0]), if |items| == 1 then "" else "," + PrintItems(items[1..]));
  }

  lemma {:induction false} MembersSingleLine(ms: seq<Member>)
    requires ms != []
    requires forall i :: 0 <= i < |ms| ==> WellFormed(ms[i].value) && SeparatorFree(ms[i].key) && NoSeparators(ms[i].value)
    ensures SingleLine(PrintMembers(ms, "", ""))
    decreases ms
  {
    var m := ms[0];
    PrintSingleLine(m.value);
    QuoteSingleLine(m.key);
    var t := if |ms| == 1 then "" else "," + PrintMembers(ms[1..], "", "");
    if |ms| > 1 {
      MembersSingleLine(ms[1..]);
      SingleLineConcat(",", PrintMembers(ms[1..], "", ""));
    }
    SingleLineConcat("", Quote(m.key));
    SingleLineConcat("" + Quote(m.key), ":");
    SingleLineConcat("" + Quote(m.key) + ":", "");
    SingleLineConcat("" + Quote(m.key) + ":" + "", Print(m.value));
    SingleLineConcat("" + Quote(m.key) + ":" + "" + Print(m.value), t);
  }
}
