/**
 * The JavaScript string primitives the extension relies on, over `seq<char>`:
 * `trim`, ASCII `toLowerCase`, `split` on one character, `join`, `startsWith`,
 * `endsWith`, `indexOf` / `includes`, and decimal formatting of counters.
 */
module Strings {

  /** ECMAScript WhiteSpace and LineTerminator code points: what `\s` and `trim()` treat as space. */
  predicate IsSpace(c: char) {
    c == '\t' || c == '\n' || c == '\U{000B}' || c == '\U{000C}' || c == '\r' || c == ' '
    || c == '\U{00A0}' || c == '\U{1680}' || ('\U{2000}' <= c <= '\U{200A}')
    || c == '\U{2028}' || c == '\U{2029}' || c == '\U{202F}' || c == '\U{205F}'
    || c == '\U{3000}' || c == '\U{FEFF}'
  }

  /** ECMAScript LineTerminator: where `^` and `$` of a multiline regex match and `.` stops. */
  predicate IsLineTerminator(c: char) {
    c == '\n' || c == '\r' || c == '\U{2028}' || c == '\U{2029}'
  }

  /** The regex class `\w`. */
  predicate IsWordChar(c: char) {
    ('a' <= c <= 'z') || ('A' <= c <= 'Z') || ('0' <= c <= '9') || c == '_'
  }

  /** The regex class `[a-zA-Z0-9]`. */
  predicate IsAlphaNum(c: char) {
    ('a' <= c <= 'z') || ('A' <= c <= 'Z') || ('0' <= c <= '9')
  }

  /** How many UTF-16 code units JavaScript stores for `c`: two above the basic plane, one otherwise. */
  function CodeUnits(c: char): nat {
    if c as int >= 0x1_0000 then 2 else 1
  }

  predicate BasicPlane(s: string) {
    forall i :: 0 <= i < |s| ==> s[i] as int < 0x1_0000
  }

  /** A JavaScript string's `length`: at least one code unit per character, exactly one in the basic plane. */
  function Utf16Length(s: string): (n: nat)
    ensures n >= |s|
    ensures BasicPlane(s) ==> n == |s|
  {
    if s == [] then 0
    else
      assert BasicPlane(s) ==> BasicPlane(s[1..]) by {
        assert forall i :: 0 <= i < |s| - 1 ==> s[1..][i] == s[i + 1];
      }
      CodeUnits(s[0]) + Utf16Length(s[1..])
  }

  predicate NoSpace(s: string) {
    forall i :: 0 <= i < |s| ==> !IsSpace(s[i])
  }

  // ---------------------------------------------------------------- trim

  /** The end of the whitespace run (`\s*`) that starts at `i`. */
  function SkipSpaces(s: string, i: nat): (j: nat)
    requires i <= |s|
    ensures i <= j <= |s|
    ensures forall k :: i <= k < j ==> IsSpace(s[k])
    ensures j < |s| ==> !IsSpace(s[j])
    decreases |s| - i
  {
    if i == |s| || !IsSpace(s[i]) then i else SkipSpaces(s, i + 1)
  }

  /** The end of the word-character run (`\w*`) that starts at `i`. */
  function WordEnd(s: string, i: nat): (j: nat)
    requires i <= |s|
    ensures i <= j <= |s|
    ensures forall k :: i <= k < j ==> IsWordChar(s[k])
    ensures j < |s| ==> !IsWordChar(s[j])
    decreases |s| - i
  {
    if i == |s| || !IsWordChar(s[i]) then i else WordEnd(s, i + 1)
  }

  /** `trimStart()`: drops the leading white space and nothing else. */
  function TrimStart(s: string): (r: string)
    ensures |r| <= |s| && r == s[|s| - |r|..]
    ensures forall i :: 0 <= i < |s| - |r| ==> IsSpace(s[i])
    ensures r != [] ==> !IsSpace(r[0])
  {
    if s != [] && IsSpace(s[0]) then TrimStart(s[1..]) else s
  }

  /** `trimEnd()`: drops the trailing white space and nothing else. */
  function TrimEnd(s: string): (r: string)
    ensures |r| <= |s| && r == s[..|r|]
    ensures forall i :: |r| <= i < |s| ==> IsSpace(s[i])
    ensures r != [] ==> !IsSpace(r[|r| - 1])
  {
    if s != [] && IsSpace(s[|s| - 1]) then TrimEnd(s[..|s| - 1]) else s
  }

  /** `trim()`. */
  function Trim(s: string): (r: string)
    ensures |r| <= |s|
    ensures r != [] ==> !IsSpace(r[0]) && !IsSpace(r[|r| - 1])
  {
    TrimEnd(TrimStart(s))
  }

  /** A string is blank exactly when it consists of white space only. */
  lemma TrimEmptyIff(s: string)
    ensures Trim(s) == [] <==> forall i :: 0 <= i < |s| ==> IsSpace(s[i])
  {
    var t := TrimStart(s);
    if t != [] {
      assert !IsSpace(t[0]) && t[0] == s[|s| - |t|];
      assert TrimEnd(t) != [] by { assert TrimEnd(t) == t[..|TrimEnd(t)|]; }
    }
  }

  /** Trimming a string that has no space at either end changes nothing. */
  lemma TrimNoop(s: string)
    requires s != [] ==> !IsSpace(s[0]) && !IsSpace(s[|s| - 1])
    ensures Trim(s) == s
  {
  }

  /** Trimming twice is trimming once. */
  lemma TrimIdempotent(s: string)
    ensures Trim(Trim(s)) == Trim(s)
  {
    TrimNoop(Trim(s));
  }

  // ---------------------------------------------------------------- case

  /** `toLowerCase()` on one character; only ASCII letters are mapped. */
  function LowerChar(c: char): (r: char)
    ensures 'A' <= c <= 'Z' ==> r as int == c as int + 32
    ensures !('A' <= c <= 'Z') ==> r == c
  {
    if 'A' <= c <= 'Z' then (c as int + 32) as char else c
  }

  /** `toLowerCase()`. */
  function Lower(s: string): (r: string)
    ensures |r| == |s|
    ensures forall i :: 0 <= i < |s| ==> r[i] == LowerChar(s[i])
  {
    if s == [] then [] else [LowerChar(s[0])] + Lower(s[1..])
  }

  lemma LowerAppend(a: string, b: string)
    ensures Lower(a + b) == Lower(a) + Lower(b)
  {
    assert forall i :: 0 <= i < |a + b| ==> Lower(a + b)[i] == (Lower(a) + Lower(b))[i];
  }

  // ---------------------------------------------------------------- prefixes and search

  predicate StartsWith(s: string, p: string) {
    |p| <= |s| && s[..|p|] == p
  }

  predicate EndsWith(s: string, p: string) {
    |p| <= |s| && s[|s| - |p|..] == p
  }

  /** `t` occurs in `s` at index `i`. */
  predicate OccursAt(s: string, t: string, i: int) {
    0 <= i && i + |t| <= |s| && s[i..i + |t|] == t
  }

  /** `s.indexOf(t, from)` for `0 <= from`: the first occurrence at or after `from`, or -1. */
  function IndexOf(s: string, t: string, from: nat): (r: int)
    ensures r == -1 || (from <= r && OccursAt(s, t, r))
    ensures r == -1 ==> forall i :: from <= i ==> !OccursAt(s, t, i)
    ensures r != -1 ==> forall i :: from <= i < r ==> !OccursAt(s, t, i)
    decreases |s| - from
  {
    if from + |t| > |s| then -1
    else if s[from..from + |t|] == t then from
    else IndexOf(s, t, from + 1)
  }

  /** `s.includes(t)`. */
  predicate Contains(s: string, t: string) {
    IndexOf(s, t, 0) != -1
  }

  lemma ContainsIff(s: string, t: string)
    ensures Contains(s, t) <==> exists i :: OccursAt(s, t, i)
  {
    if !Contains(s, t) {
      forall i | OccursAt(s, t, i) ensures false { }
    }
  }

  /** An occurrence of a text free of `c` in `a + [c] + b` lies wholly in `a` or wholly in `b`. */
  lemma OccursAcross(a: string, c: char, b: string, t: string, i: int)
    requires c !in t && OccursAt(a + [c] + b, t, i)
    ensures (i + |t| <= |a| && OccursAt(a, t, i)) || (i >= |a| + 1 && OccursAt(b, t, i - |a| - 1))
  {
    var s := a + [c] + b;
    OutsideOccurrence(s, t, i, |a|);
    if i + |t| <= |a| {
      assert s[i..i + |t|] == a[i..i + |t|];
    } else {
      assert s[i..i + |t|] == b[i - |a| - 1..i - |a| - 1 + |t|];
    }
  }

  /** A character absent from `t` is outside every occurrence of `t`. */
  lemma OutsideOccurrence(s: string, t: string, i: int, k: int)
    requires OccursAt(s, t, i) && 0 <= k < |s| && s[k] !in t
    ensures k < i || i + |t| <= k
  {
    assert forall j :: 0 <= j < |t| ==> t[j] == s[i + j];
  }

  /** `s.replace(/x/g, '')` for a single character `x`. */
  function RemoveChar(s: string, x: char): (r: string)
    ensures x !in r
    ensures forall c :: c in r <==> c in s && c != x
    ensures |r| <= |s|
  {
    if s == [] then [] else (if s[0] == x then [] else [s[0]]) + RemoveChar(s[1..], x)
  }

  lemma {:induction false} RemoveCharAppend(a: string, b: string, x: char)
    ensures RemoveChar(a + b, x) == RemoveChar(a, x) + RemoveChar(b, x)
  {
    if a != [] {
      assert (a + b)[1..] == a[1..] + b;
      RemoveCharAppend(a[1..], b, x);
    } else {
      assert a + b == b;
    }
  }

  lemma {:induction false} RemoveCharAbsent(s: string, x: char)
    requires x !in s
    ensures RemoveChar(s, x) == s
  {
    if s != [] {
      RemoveCharAbsent(s[1..], x);
    }
  }

  /** `s.replace(/\s+/g, '')`: every white-space run removed. */
  function RemoveSpaces(s: string): (r: string)
    ensures NoSpace(r)
    ensures forall c :: c in r <==> c in s && !IsSpace(c)
  {
    if s == [] then [] else (if IsSpace(s[0]) then [] else [s[0]]) + RemoveSpaces(s[1..])
  }

  // ---------------------------------------------------------------- split and join

  /** `parts.join(sep)`. */
  function Join(parts: seq<string>, sep: string): (r: string)
  {
    if parts == [] then []
    else if |parts| == 1 then parts[0]
    else parts[0] + sep + Join(parts[1..], sep)
  }

  /** The pieces of `s.split(c)` after the first one. */
  function SplitFrom(s: string, c: char, start: nat, i: nat): (r: seq<string>)
    requires start <= i <= |s|
    decreases |s| - i
  {
    if i == |s| then [s[start..]]
    else if s[i] == c then [s[start..i]] + SplitFrom(s, c, i + 1, i + 1)
    else SplitFrom(s, c, start, i + 1)
  }

  /**
   * `s.split(c)` for a one-character separator: never empty, no piece holds
   * the separator, and joining the pieces back gives `s` (so `"".split(c)` is `[""]`).
   */
  function Split(s: string, c: char): (r: seq<string>)
    ensures |r| >= 1
    ensures forall k :: 0 <= k < |r| ==> c !in r[k]
    ensures Join(r, [c]) == s
  {
    SplitFromProps(s, c, 0, 0);
    SplitFrom(s, c, 0, 0)
  }

  lemma {:induction false} SplitFromProps(s: string, c: char, start: nat, i: nat)
    requires start <= i <= |s|
    requires c !in s[start..i]
    ensures var r := SplitFrom(s, c, start, i);
      |r| >= 1 && (forall k :: 0 <= k < |r| ==> c !in r[k]) && Join(r, [c]) == s[start..]
    decreases |s| - i
  {
    if i == |s| {
    } else if s[i] == c {
      SplitFromProps(s, c, i + 1, i + 1);
      var rest := SplitFrom(s, c, i + 1, i + 1);
      assert SplitFrom(s, c, start, i) == [s[start..i]] + rest;
      assert s[start..] == s[start..i] + [c] + s[i + 1..];
    } else {
      assert s[start..i + 1] == s[start..i] + [s[i]];
      SplitFromProps(s, c, start, i + 1);
    }
  }

  /** Two separator-free piece lists with the same join are equal. */
  lemma {:induction false} JoinInjective(a: seq<string>, b: seq<string>, c: char)
    requires |a| >= 1 && |b| >= 1
    requires forall k :: 0 <= k < |a| ==> c !in a[k]
    requires forall k :: 0 <= k < |b| ==> c !in b[k]
    requires Join(a, [c]) == Join(b, [c])
    ensures a == b
    decreases |a|
  {
    var s := Join(a, [c]);
    if |a| > 1 && |b| > 1 {
      var ra, rb := Join(a[1..], [c]), Join(b[1..], [c]);
      assert s == a[0] + [c] + ra;
      assert s == b[0] + [c] + rb;
      FirstSeparator(a[0], c, ra);
      FirstSeparator(b[0], c, rb);
      assert |a[0]| == |b[0]|;
      assert a[0] == s[..|a[0]|] == b[0];
      assert ra == s[|a[0]| + 1..] == rb;
      JoinInjective(a[1..], b[1..], c);
      assert a == [a[0]] + a[1..];
      assert b == [b[0]] + b[1..];
    }
  }

  lemma FirstSeparator(x: string, c: char, y: string)
    requires c !in x
    ensures (x + [c] + y)[|x|] == c
    ensures forall i :: 0 <= i < |x| ==> (x + [c] + y)[i] != c
  {
    forall i | 0 <= i < |x| ensures (x + [c] + y)[i] != c {
      assert (x + [c] + y)[i] == x[i];
    }
  }

  /** Splitting text built by joining separator-free pieces gives the pieces back. */
  lemma SplitJoin(parts: seq<string>, c: char)
    requires |parts| >= 1
    requires forall k :: 0 <= k < |parts| ==> c !in parts[k]
    ensures Split(Join(parts, [c]), c) == parts
  {
    JoinInjective(Split(Join(parts, [c]), c), parts, c);
  }

  /** Splitting at the first separator: the text before it is the first piece. */
  lemma SplitCons(x: string, c: char, y: string)
    requires c !in x
    ensures Split(x + [c] + y, c) == [x] + Split(y, c)
  {
    var rest := Split(y, c);
    var parts := [x] + rest;
    assert parts[1..] == rest;
    assert Join(parts, [c]) == x + [c] + y;
    SplitJoin(parts, c);
  }

  /** Join distributes over concatenation of piece lists. */
  lemma {:induction false} JoinAppend(a: seq<string>, b: seq<string>, sep: string)
    requires a != [] && b != []
    ensures Join(a + b, sep) == Join(a, sep) + sep + Join(b, sep)
    decreases |a|
  {
    if |a| == 1 {
      assert (a + b)[1..] == b;
    } else {
      assert (a + b)[1..] == a[1..] + b;
      JoinAppend(a[1..], b, sep);
    }
  }

  /** Separator characters in a join come only from separators or from the pieces. */
  lemma {:induction false} JoinNoChar(parts: seq<string>, sep: string, x: char)
    requires x !in sep
    requires forall k :: 0 <= k < |parts| ==> x !in parts[k]
    ensures x !in Join(parts, sep)
    decreases |parts|
  {
    if |parts| > 1 { JoinNoChar(parts[1..], sep, x); }
  }

  /** An occurrence of a separator-free text in a join lies within one of the pieces. */
  lemma {:induction false} JoinOccurrence(parts: seq<string>, c: char, t: string, i: int)
    requires t != [] && c !in t && OccursAt(Join(parts, [c]), t, i)
    ensures exists k, j :: 0 <= k < |parts| && OccursAt(parts[k], t, j)
    decreases |parts|
  {
    if |parts| == 1 {
      assert OccursAt(parts[0], t, i);
    } else if |parts| > 1 {
      var rest := Join(parts[1..], [c]);
      OccursAcross(parts[0], c, rest, t, i);
      if i + |t| <= |parts[0]| {
        assert OccursAt(parts[0], t, i);
      } else {
        JoinOccurrence(parts[1..], c, t, i - |parts[0]| - 1);
        var k, j :| 0 <= k < |parts| - 1 && OccursAt(parts[1..][k], t, j);
        assert parts[k + 1] == parts[1..][k];
      }
    }
  }

  /** A join of separator-free pieces that starts with a separator-free text: so does its first piece. */
  lemma JoinStartsWith(parts: seq<string>, c: char, t: string)
    requires parts != [] && c !in t && c !in parts[0]
    requires StartsWith(Join(parts, [c]), t)
    ensures StartsWith(parts[0], t)
  {
    if |parts| > 1 {
      var s := Join(parts, [c]);
      assert s == parts[0] + [c] + Join(parts[1..], [c]);
      assert s[|parts[0]|] == c;
      assert |parts[0]| >= |t|;
      assert s[..|t|] == parts[0][..|t|];
    }
  }

  /**
   * A separator followed by a separator-free text occurs in a join of separator-free pieces
   * only where a later piece starts with that text.
   */
  lemma {:induction false} JoinLineStart(parts: seq<string>, c: char, t: string, i: int)
    requires c !in t && forall k :: 0 <= k < |parts| ==> c !in parts[k]
    requires OccursAt(Join(parts, [c]), [c] + t, i)
    ensures exists k :: 1 <= k < |parts| && StartsWith(parts[k], t)
    decreases |parts|
  {
    var s := Join(parts, [c]);
    assert s[i] == ([c] + t)[0] == c;
    if |parts| > 1 {
      var rest := Join(parts[1..], [c]);
      assert s == parts[0] + [c] + rest;
      assert i >= |parts[0]| by {
        assert forall j :: 0 <= j < |parts[0]| ==> s[j] == parts[0][j];
      }
      if i == |parts[0]| {
        assert rest[..|t|] == s[i + 1..i + 1 + |t|];
        assert s[i + 1..i + 1 + |t|] == ([c] + t)[1..];
        JoinStartsWith(parts[1..], c, t);
      } else {
        assert rest[i - |parts[0]| - 1..i - |parts[0]| - 1 + |t| + 1] == s[i..i + |t| + 1];
        forall k | 0 <= k < |parts[1..]| ensures c !in parts[1..][k] {
          assert parts[1..][k] == parts[k + 1];
        }
        JoinLineStart(parts[1..], c, t, i - |parts[0]| - 1);
        var k :| 1 <= k < |parts| - 1 && StartsWith(parts[1..][k], t);
        assert parts[k + 1] == parts[1..][k];
      }
    }
  }

  // ---------------------------------------------------------------- ordering

  /**
   * `a` sorts strictly before `b` when compared character by character, a proper prefix
   * first (JavaScript's default string comparison).
   */
  predicate Below(a: string, b: string) {
    if a == [] then b != []
    else b != [] && (a[0] < b[0] || (a[0] == b[0] && Below(a[1..], b[1..])))
  }

  lemma {:induction false} BelowIrreflexive(a: string)
    ensures !Below(a, a)
  {
    if a != [] { BelowIrreflexive(a[1..]); }
  }

  lemma {:induction false} BelowTotal(a: string, b: string)
    requires a != b
    ensures Below(a, b) || Below(b, a)
  {
    if a != [] && b != [] && a[0] == b[0] {
      assert a == [a[0]] + a[1..] && b == [b[0]] + b[1..];
      BelowTotal(a[1..], b[1..]);
    }
  }

  lemma {:induction false} BelowTransitive(a: string, b: string, c: string)
    requires Below(a, b) && Below(b, c)
    ensures Below(a, c)
  {
    if a != [] && a[0] == b[0] && b[0] == c[0] {
      BelowTransitive(a[1..], b[1..], c[1..]);
    }
  }

  lemma BelowAsymmetric(a: string, b: string)
    requires Below(a, b)
    ensures !Below(b, a)
  {
    if Below(b, a) {
      BelowTransitive(a, b, a);
      BelowIrreflexive(a);
    }
  }

  // ---------------------------------------------------------------- decimal numbers

  function DigitChar(d: nat): (c: char)
    requires d < 10
    ensures '0' <= c <= '9'
  {
    ('0' as int + d) as char
  }

  /** `String(n)` for a natural number: its decimal digits, without leading zeros. */
  function NatToString(n: nat): (r: string)
    ensures |r| >= 1
    ensures forall i :: 0 <= i < |r| ==> '0' <= r[i] <= '9'
    decreases n
  {
    if n < 10 then [DigitChar(n)] else NatToString(n / 10) + [DigitChar(n % 10)]
  }

  /** The value of a string of decimal digits. */
  function DigitsValue(s: string): nat
    requires forall i :: 0 <= i < |s| ==> '0' <= s[i] <= '9'
  {
    if s == [] then 0 else DigitsValue(s[..|s| - 1]) * 10 + (s[|s| - 1] as int - '0' as int)
  }

  /** Reading back a formatted number gives the number. */
  lemma {:induction false} NatToStringRoundTrip(n: nat)
    ensures DigitsValue(NatToString(n)) == n
    decreases n
  {
    if n >= 10 {
      var s := NatToString(n);
      assert s[..|s| - 1] == NatToString(n / 10);
      NatToStringRoundTrip(n / 10);
    }
  }

  /** Distinct numbers format to distinct strings. */
  lemma NatToStringInjective(a: nat, b: nat)
    requires NatToString(a) == NatToString(b)
    ensures a == b
  {
    NatToStringRoundTrip(a);
    NatToStringRoundTrip(b);
  }

  /** `${name}${sep}${k}${ext}`: the k-th numbered variant of a file name. */
  function Numbered(name: string, sep: string, k: nat, ext: string): (r: string)
    ensures |r| > |name| + |sep| + |ext|
    ensures r[..|name| + |sep|] == name + sep && EndsWith(r, ext)
  {
    name + sep + NatToString(k) + ext
  }

  /** Different counters give different numbered names. */
  lemma NumberedInjective(name: string, sep: string, ext: string, j: nat, k: nat)
    ensures Numbered(name, sep, j, ext) == Numbered(name, sep, k, ext) ==> j == k
  {
    var a, b := Numbered(name, sep, j, ext), Numbered(name, sep, k, ext);
    if a == b {
      var n := |name| + |sep|;
      assert a[n..|a| - |ext|] == NatToString(j);
      assert b[n..|b| - |ext|] == NatToString(k);
      NatToStringInjective(j, k);
    }
  }
}
