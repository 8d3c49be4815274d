/** Character classes of the regular expressions the source uses, and the
    string helpers (join, split, replace-all) its string building relies on. */
module Chars {

  /** ECMAScript's `\s`: white space and line terminators. */
  predicate IsJsSpace(c: char) {
    || c == '\t' || c == '\n' || c == '\U{000B}' || c == '\U{000C}' || c == '\r'
    || c == ' ' || c == '\U{00A0}' || c == '\U{1680}'
    || ('\U{2000}' <= c <= '\U{200A}')
    || c == '\U{2028}' || c == '\U{2029}' || c == '\U{202F}' || c == '\U{205F}'
    || c == '\U{3000}' || c == '\U{FEFF}'
  }

  /** The characters ECMAScript's `.` does not match. */
  predicate IsLineTerminator(c: char) {
    c == '\n' || c == '\r' || c == '\U{2028}' || c == '\U{2029}'
  }

  /** `[ \t\v\f\r\n]`, the class of `isBlank` in lib/js.js. */
  predicate IsBlankChar(c: char) {
    c == ' ' || c == '\t' || c == '\U{000B}' || c == '\U{000C}' || c == '\r' || c == '\n'
  }

  /** `[ \t\v\f]`, the horizontal white space trimmed from text lines. */
  predicate IsHSpace(c: char) {
    c == ' ' || c == '\t' || c == '\U{000B}' || c == '\U{000C}'
  }

  /** `/^[ \t\v\f\r\n]*$/.test(s)` */
  predicate IsBlank(s: string) {
    forall i | 0 <= i < |s| :: IsBlankChar(s[i])
  }

  /** `/^\s*$/.test(s)` */
  predicate AllJsSpace(s: string) {
    forall i | 0 <= i < |s| :: IsJsSpace(s[i])
  }

  predicate AllHSpace(s: string) {
    forall i | 0 <= i < |s| :: IsHSpace(s[i])
  }

  /** `/\n/.test(s)` */
  predicate HasNewline(s: string) {
    '\n' in s
  }

  /** `Array.prototype.join("")` */
  function Concat(ss: seq<string>): string {
    if ss == [] then "" else ss[0] + Concat(ss[1..])
  }

  lemma {:induction false} ConcatAppend(a: seq<string>, b: seq<string>)
    ensures Concat(a + b) == Concat(a) + Concat(b)
  {
    if a == [] {
      assert a + b == b;
    } else {
      assert (a + b)[1..] == a[1..] + b;
      ConcatAppend(a[1..], b);
    }
  }

  /** A character in none of the pieces is not in their concatenation. */
  lemma {:induction false} ConcatLacks(ss: seq<string>, ch: char)
    requires forall i | 0 <= i < |ss| :: ch !in ss[i]
    ensures ch !in Concat(ss)
  {
    if ss != [] {
      ConcatLacks(ss[1..], ch);
    }
  }

  /** `t.startsWith(p)` */
  predicate IsPrefix(p: string, t: string) {
    |p| <= |t| && t[..|p|] == p
  }

  /** A prefix of a prefix of `s` is a prefix of `s`. */
  lemma PrefixTransitive(p: string, a: string, s: string)
    requires IsPrefix(p, a) && IsPrefix(a, s)
    ensures IsPrefix(p, s)
  {
    assert s[..|p|] == s[..|a|][..|p|];
  }

  /** `s.endsWith(suffix)` */
  predicate EndsWith(s: string, suffix: string) {
    |suffix| <= |s| && s[|s| - |suffix|..] == suffix
  }

  /** `Array.prototype.join(sep)` */
  function Join(ss: seq<string>, sep: string): string {
    if ss == [] then ""
    else if |ss| == 1 then ss[0]
    else ss[0] + sep + Join(ss[1..], sep)
  }

  /** The index of the first occurrence of `c` in `s`. */
  function IndexOf(s: string, c: char): (i: nat)
    requires c in s
    ensures i < |s| && s[i] == c && c !in s[..i]
  {
    if s[0] == c then 0
    else
      assert c in s[1..] by { var k :| 0 <= k < |s| && s[k] == c; assert s[1..][k - 1] == c; }
      var j := IndexOf(s[1..], c);
      assert s[..j + 1] == [s[0]] + s[1..][..j];
      j + 1
  }

  /** `s.split(sep)` for a one-character separator (a regular expression
      matching one character never matches the empty string). */
  function Split(s: string, sep: char): (r: seq<string>)
    ensures |r| >= 1
    ensures forall k | 0 <= k < |r| :: sep !in r[k]
    ensures Join(r, [sep]) == s
    decreases |s|
  {
    if sep !in s then [s]
    else
      var i := IndexOf(s, sep);
      var rest := Split(s[i + 1..], sep);
      assert s == s[..i] + [sep] + s[i + 1..];
      [s[..i]] + rest
  }

  /** Splitting what a join of separator-free pieces produced gives the pieces back. */
  lemma {:induction false} SplitJoin(ss: seq<string>, sep: char)
    requires |ss| >= 1
    requires forall k | 0 <= k < |ss| :: sep !in ss[k]
    ensures Split(Join(ss, [sep]), sep) == ss
  {
    if |ss| == 1 {
    } else {
      var j := Join(ss, [sep]);
      var tail := Join(ss[1..], [sep]);
      assert j == ss[0] + [sep] + tail;
      assert sep in j by { assert j[|ss[0]|] == sep; }
      var i := IndexOf(j, sep);
      assert forall k | 0 <= k < |ss[0]| :: j[k] == ss[0][k];
      assert j[|ss[0]|] == sep;
      assert i == |ss[0]| by {
        assert i >= |ss[0]| by { assert j[i] == sep; }
        assert j[..i + 1][|ss[0]|] == sep;
      }
      assert j[..i] == ss[0];
      assert j[i + 1..] == tail;
      SplitJoin(ss[1..], sep);
    }
  }

  /** Replace every occurrence of the character `c` by `by`, as
      `s.replace(/c/g, by)` does. */
  function ReplaceAllChar(s: string, c: char, rep: string): string {
    if s == [] then ""
    else (if s[0] == c then rep else [s[0]]) + ReplaceAllChar(s[1..], c, rep)
  }

  lemma {:induction false} ReplaceAllCharAppend(a: string, b: string, c: char, rep: string)
    ensures ReplaceAllChar(a + b, c, rep) == ReplaceAllChar(a, c, rep) + ReplaceAllChar(b, c, rep)
  {
    if a == [] {
      assert a + b == b;
    } else {
      assert (a + b)[1..] == a[1..] + b;
      ReplaceAllCharAppend(a[1..], b, c, rep);
    }
  }

  /** Replacing a character that does not occur changes nothing. */
  lemma {:induction false} ReplaceAllCharAbsent(s: string, c: char, rep: string)
    requires c !in s
    ensures ReplaceAllChar(s, c, rep) == s
  {
    if s != [] {
      assert s == [s[0]] + s[1..];
      ReplaceAllCharAbsent(s[1..], c, rep);
    }
  }

  /** The start of the longest suffix of `s` whose characters satisfy `p`:
      where `/(\s*)$/` or `/([ \t\v\f]*)$/` begins to match. */
  function SuffixStart(s: string, p: char -> bool): (k: nat)
    ensures k <= |s|
    ensures forall i | k <= i < |s| :: p(s[i])
    ensures k > 0 ==> !p(s[k - 1])
  {
    if s == [] then 0
    else if p(s[|s| - 1]) then SuffixStart(s[..|s| - 1], p)
    else |s|
  }

  /** The end of the longest prefix of `s` whose characters satisfy `p`. */
  function PrefixEnd(s: string, p: char -> bool): (k: nat)
    ensures k <= |s|
    ensures forall i | 0 <= i < k :: p(s[i])
    ensures k < |s| ==> !p(s[k])
  {
    if s == [] then 0
    else if p(s[0]) then 1 + PrefixEnd(s[1..], p)
    else 0
  }
}
