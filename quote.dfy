/** String-literal quoting and object-key quoting of the emitted JavaScript
    (`quote` and `keyify` in lib/js.js), with a decoder for the literals they
    produce, so that each is shown to lose nothing. */
module Quoting {
  import opened Chars
  import opened Wrappers

  /** What `quote` puts in place of one character: only backslash, double
      quote, CR and LF are escaped; everything else, U+00A0 included, passes. */
  function EscapeChar(c: char): string {
    if c == '\n' then "\\n"
    else if c == '\r' then "\\r"
    else if c == '\\' || c == '"' then ['\\', c]
    else [c]
  }

  function EscapeBody(s: string): string {
    if s == [] then "" else EscapeChar(s[0]) + EscapeBody(s[1..])
  }

  /** `quote(string)` */
  function Quote(s: string): string {
    "\"" + EscapeBody(s) + "\""
  }

  /** Reads the body of a double-quoted JavaScript literal that uses only the
      four escapes `quote` writes; None for anything else. */
  function UnescapeBody(t: string): Option<string> {
    if t == [] then Some("")
    else if t[0] == '"' || t[0] == '\n' || t[0] == '\r' then None
    else if t[0] == '\\' then
      if |t| < 2 then None
      else
        var c := if t[1] == 'n' then '\n' else if t[1] == 'r' then '\r' else t[1];
        if t[1] in "nr\\\"" then
          match UnescapeBody(t[2..])
          case Some(rest) => Some([c] + rest)
          case None => None
        else None
    else
      match UnescapeBody(t[1..])
      case Some(rest) => Some([t[0]] + rest)
      case None => None
  }

  function Unquote(q: string): Option<string> {
    if |q| >= 2 && q[0] == '"' && q[|q| - 1] == '"' then UnescapeBody(q[1..|q| - 1]) else None
  }

  /** Decoding one escaped character followed by more text. */
  lemma UnescapeCons(c: char, t: string)
    ensures UnescapeBody(EscapeChar(c) + t) ==
      match UnescapeBody(t)
      case Some(rest) => Some([c] + rest)
      case None => None
  {
    var e := EscapeChar(c) + t;
    if c == '\n' || c == '\r' || c == '\\' || c == '"' {
      assert e[0] == '\\' && e[2..] == t;
      assert e[1] in "nr\\\"";
    } else {
      assert e[0] == c && e[1..] == t;
    }
  }

  lemma {:induction false} UnescapeEscapeBody(s: string)
    ensures UnescapeBody(EscapeBody(s)) == Some(s)
  {
    if s != [] {
      UnescapeEscapeBody(s[1..]);
      UnescapeCons(s[0], EscapeBody(s[1..]));
      assert s == [s[0]] + s[1..];
    }
  }

  /** Quoting round-trips: the emitted literal denotes exactly the text. */
  lemma QuoteRoundTrip(s: string)
    ensures Unquote(Quote(s)) == Some(s)
  {
    var q := Quote(s);
    assert q[1..|q| - 1] == EscapeBody(s);
    UnescapeEscapeBody(s);
  }

  /** The escaped body never holds a raw line break, so a literal stays on one line. */
  lemma {:induction false} EscapeBodyHasNoLineBreak(s: string)
    ensures '\n' !in EscapeBody(s) && '\r' !in EscapeBody(s)
  {
    if s != [] {
      EscapeBodyHasNoLineBreak(s[1..]);
    }
  }

  lemma {:induction false} EscapeBodyLength(s: string)
    ensures |EscapeBody(s)| >= |s|
  {
    if s != [] {
      EscapeBodyLength(s[1..]);
    }
  }

  lemma {:induction false} EscapeBodyAppend(a: string, b: string)
    ensures EscapeBody(a + b) == EscapeBody(a) + EscapeBody(b)
  {
    if a == [] {
      assert a + b == b;
    } else {
      assert (a + b)[1..] == a[1..] + b;
      EscapeBodyAppend(a[1..], b);
    }
  }

  /** Text without the four special characters is quoted verbatim. */
  lemma {:induction false} QuotePlain(s: string)
    requires forall i | 0 <= i < |s| :: s[i] !in "\\\"\r\n"
    ensures Quote(s) == "\"" + s + "\""
  {
    PlainBody(s);
  }

  lemma {:induction false} PlainBody(s: string)
    requires forall i | 0 <= i < |s| :: s[i] !in "\\\"\r\n"
    ensures EscapeBody(s) == s
  {
    if s != [] {
      assert s[0] !in "\\\"\r\n";
      PlainBody(s[1..]);
    }
  }

  /** `/^[$_a-zA-Z][$_0-9a-zA-Z]*$/` */
  predicate IsIdentStart(c: char) {
    c == '$' || c == '_' || ('a' <= c <= 'z') || ('A' <= c <= 'Z')
  }

  predicate IsIdentPart(c: char) {
    IsIdentStart(c) || ('0' <= c <= '9')
  }

  predicate IsPlainKey(name: string) {
    |name| >= 1 && IsIdentStart(name[0]) && forall i | 1 <= i < |name| :: IsIdentPart(name[i])
  }

  /** `keyify(name)`: a bare identifier key when the name is one, otherwise a
      quoted key. */
  function Keyify(name: string): string {
    if IsPlainKey(name) then name else Quote(name)
  }

  /** How an object-literal key written by Keyify reads back: a literal is
      decoded, a bare identifier stands for itself. */
  function KeyName(key: string): Option<string> {
    if |key| >= 1 && key[0] == '"' then Unquote(key)
    else if IsPlainKey(key) then Some(key)
    else None
  }

  /** Keyify loses nothing: the key reads back as the attribute name, and
      it is bare exactly when the name is an identifier. */
  lemma KeyifyRoundTrip(name: string)
    ensures KeyName(Keyify(name)) == Some(name)
    ensures (Keyify(name) == name) <==> IsPlainKey(name)
  {
    if IsPlainKey(name) {
      assert name[0] != '"';
    } else {
      QuoteRoundTrip(name);
      EscapeBodyLength(name);
      assert |Quote(name)| > |name|;
    }
  }
}
