/** The escaping functions of the runtime renderers: text and attribute
    escaping of lib/markup.js, the older HTML escaping of jsx.js and
    lib/jsx.js, and the script-body escaping of html.js. */
module Escapes {
  import opened Chars
  import opened Entities

  /** The entities of lib/markup.js's `escape`, in the order it replaces. */
  const MarkupText: seq<Entity> :=
    [Entity('&', "&amp;"), Entity('<', "&lt;"), Entity('>', "&gt;"), Entity('\r', "&#xD;")]

  /** The entities of lib/markup.js's `escapeAttr`, in the order it replaces. */
  const MarkupAttr: seq<Entity> :=
    [Entity('&', "&amp;"), Entity('<', "&lt;"), Entity('"', "&quot;"),
     Entity('\t', "&#x9;"), Entity('\n', "&#xA;"), Entity('\r', "&#xD;")]

  /** The entities of `escapeHtml` in jsx.js and `escape` in lib/jsx.js. */
  const LegacyText: seq<Entity> :=
    [Entity('&', "&amp;"), Entity('<', "&lt;"), Entity('>', "&gt;")]

  /** The one entity of `escapeAttr` in jsx.js and lib/jsx.js. */
  const LegacyAttr: seq<Entity> := [Entity('"', "&quot;")]

  /** The chain `escape` writes out, which escapes each character once. */
  lemma MarkupTextChain(text: string)
    ensures ChainSafe(MarkupText)
    ensures ReplaceChain(text, MarkupText) ==
      ReplaceAllChar(ReplaceAllChar(ReplaceAllChar(ReplaceAllChar(
        text, '&', "&amp;"), '<', "&lt;"), '>', "&gt;"), '\r', "&#xD;")
  {
    assert '<' !in "&amp;" && '>' !in "&amp;" && '>' !in "&lt;";
    assert '\r' !in "&amp;" && '\r' !in "&lt;" && '\r' !in "&gt;";
    var t1 := ReplaceAllChar(text, '&', "&amp;");
    var t2 := ReplaceAllChar(t1, '<', "&lt;");
    var t3 := ReplaceAllChar(t2, '>', "&gt;");
    assert MarkupText[..1][..0] == [];
    assert ReplaceChain(text, MarkupText[..1]) == t1;
    assert MarkupText[..2][..1] == MarkupText[..1];
    assert ReplaceChain(text, MarkupText[..2]) == t2;
    assert MarkupText[..3][..2] == MarkupText[..2];
    assert ReplaceChain(text, MarkupText[..3]) == t3;
  }

  /** No replacement of `escapeAttr` rewrites an earlier one's entity. */
  lemma MarkupAttrSafe()
    ensures ChainSafe(MarkupAttr)
  {
    MarkupAttrPlain();
    ChainSafeFromPlain(MarkupAttr);
  }

  /** The texts of `escapeAttr` are written with entity characters only. */
  lemma MarkupAttrPlain()
    ensures PlainTexts(MarkupAttr)
  {
    forall i, k | 0 <= i < |MarkupAttr| && 0 <= k < |MarkupAttr[i].text|
      ensures EntityChar(MarkupAttr[i].text[k])
    {
    }
  }

  /** The chain `escapeAttr` writes out. */
  lemma MarkupAttrChain(text: string)
    ensures ReplaceChain(text, MarkupAttr) ==
      ReplaceAllChar(ReplaceAllChar(ReplaceAllChar(ReplaceAllChar(ReplaceAllChar(ReplaceAllChar(
        text, '&', "&amp;"), '<', "&lt;"), '"', "&quot;"), '\t', "&#x9;"), '\n', "&#xA;"), '\r', "&#xD;")
  {
    var t1 := ReplaceAllChar(text, '&', "&amp;");
    var t2 := ReplaceAllChar(t1, '<', "&lt;");
    var t3 := ReplaceAllChar(t2, '"', "&quot;");
    var t4 := ReplaceAllChar(t3, '\t', "&#x9;");
    var t5 := ReplaceAllChar(t4, '\n', "&#xA;");
    assert MarkupAttr[..1][..0] == [];
    assert ReplaceChain(text, MarkupAttr[..1]) == t1;
    assert MarkupAttr[..2][..1] == MarkupAttr[..1];
    assert ReplaceChain(text, MarkupAttr[..2]) == t2;
    assert MarkupAttr[..3][..2] == MarkupAttr[..2];
    assert ReplaceChain(text, MarkupAttr[..3]) == t3;
    assert MarkupAttr[..4][..3] == MarkupAttr[..3];
    assert ReplaceChain(text, MarkupAttr[..4]) == t4;
    assert MarkupAttr[..5][..4] == MarkupAttr[..4];
    assert ReplaceChain(text, MarkupAttr[..5]) == t5;
  }

  /** The chain `escapeHtml` writes out. */
  lemma LegacyTextChain(text: string)
    ensures ChainSafe(LegacyText)
    ensures ReplaceChain(text, LegacyText) ==
      ReplaceAllChar(ReplaceAllChar(ReplaceAllChar(text, '&', "&amp;"), '<', "&lt;"), '>', "&gt;")
  {
    assert '<' !in "&amp;" && '>' !in "&amp;" && '>' !in "&lt;";
    var t1 := ReplaceAllChar(text, '&', "&amp;");
    var t2 := ReplaceAllChar(t1, '<', "&lt;");
    assert LegacyText[..1][..0] == [];
    assert ReplaceChain(text, LegacyText[..1]) == t1;
    assert LegacyText[..2][..1] == LegacyText[..1];
    assert ReplaceChain(text, LegacyText[..2]) == t2;
  }

  /** `escape` of lib/markup.js: `&`, `<`, `>` and carriage returns become
      entities, each character escaped once, so no `<`, `>` or carriage
      return is left. */
  function Escape(text: string): (r: string)
    ensures r == Encode(MarkupText, text)
    ensures '<' !in r && '>' !in r && '\r' !in r
  {
    MarkupTextChain(text);
    ChainIsEncode(MarkupText, text);
    assert MarkupText[1].ch == '<' && MarkupText[2].ch == '>' && MarkupText[3].ch == '\r';
    EncodeRemoves(MarkupText, text, '<');
    EncodeRemoves(MarkupText, text, '>');
    EncodeRemoves(MarkupText, text, '\r');
    var t := ReplaceAllChar(text, '&', "&amp;");
    var t := ReplaceAllChar(t, '<', "&lt;");
    var t := ReplaceAllChar(t, '>', "&gt;");
    ReplaceAllChar(t, '\r', "&#xD;")
  }

  /** `escapeAttr` of lib/markup.js: `&`, `<`, `"`, tabs, line feeds and
      carriage returns become entities, so the value cannot end its quotes
      and survives XML attribute-value normalisation. */
  function EscapeAttr(text: string): (r: string)
    ensures r == Encode(MarkupAttr, text)
    ensures '<' !in r && '"' !in r && '\t' !in r && '\n' !in r && '\r' !in r
  {
    MarkupAttrSafe();
    MarkupAttrChain(text);
    ChainIsEncode(MarkupAttr, text);
    MarkupAttrClean(text);
    var t := ReplaceAllChar(text, '&', "&amp;");
    var t := ReplaceAllChar(t, '<', "&lt;");
    var t := ReplaceAllChar(t, '"', "&quot;");
    var t := ReplaceAllChar(t, '\t', "&#x9;");
    var t := ReplaceAllChar(t, '\n', "&#xA;");
    ReplaceAllChar(t, '\r', "&#xD;")
  }

  /** Encoding with the attribute entities leaves none of the characters
      that could end or normalise an attribute value. */
  lemma MarkupAttrClean(text: string)
    ensures var r := Encode(MarkupAttr, text);
      '<' !in r && '"' !in r && '\t' !in r && '\n' !in r && '\r' !in r
  {
    MarkupAttrPlain();
    assert '<' !in Encode(MarkupAttr, text) by {
      AbsentFromTexts(MarkupAttr, '<');
      assert MarkupAttr[1].ch == '<';
      EncodeRemoves(MarkupAttr, text, '<');
    }
    assert '"' !in Encode(MarkupAttr, text) by {
      AbsentFromTexts(MarkupAttr, '"');
      assert MarkupAttr[2].ch == '"';
      EncodeRemoves(MarkupAttr, text, '"');
    }
    assert '\t' !in Encode(MarkupAttr, text) by {
      AbsentFromTexts(MarkupAttr, '\t');
      assert MarkupAttr[3].ch == '\t';
      EncodeRemoves(MarkupAttr, text, '\t');
    }
    assert '\n' !in Encode(MarkupAttr, text) by {
      AbsentFromTexts(MarkupAttr, '\n');
      assert MarkupAttr[4].ch == '\n';
      EncodeRemoves(MarkupAttr, text, '\n');
    }
    AbsentFromTexts(MarkupAttr, '\r');
    assert MarkupAttr[5].ch == '\r';
    EncodeRemoves(MarkupAttr, text, '\r');
  }

  /** `escapeHtml` of jsx.js and `escape` of lib/jsx.js: `&`, `<` and `>`
      become entities; carriage returns pass through. */
  function EscapeHtml(text: string): (r: string)
    ensures r == Encode(LegacyText, text)
    ensures '<' !in r && '>' !in r
  {
    LegacyTextChain(text);
    ChainIsEncode(LegacyText, text);
    assert LegacyText[1].ch == '<' && LegacyText[2].ch == '>';
    EncodeRemoves(LegacyText, text, '<');
    EncodeRemoves(LegacyText, text, '>');
    var t := ReplaceAllChar(text, '&', "&amp;");
    var t := ReplaceAllChar(t, '<', "&lt;");
    ReplaceAllChar(t, '>', "&gt;")
  }

  /** `escapeAttr` of jsx.js and lib/jsx.js: only `"` becomes `&quot;`. */
  function EscapeQuotes(text: string): (r: string)
    ensures r == Encode(LegacyAttr, text)
    ensures '"' !in r
  {
    assert ChainSafe(LegacyAttr);
    ChainIsEncode(LegacyAttr, text);
    assert LegacyAttr[..0] == [];
    assert LegacyAttr[0].ch == '"';
    EncodeRemoves(LegacyAttr, text, '"');
    ReplaceAllChar(text, '"', "&quot;")
  }

  /** Two entities that differ at some index start neither one another. */
  lemma DifferAt(a: string, b: string, k: nat)
    requires k < |a| && k < |b| && a[k] != b[k]
    ensures !IsPrefix(a, b) && !IsPrefix(b, a)
  {
    if |a| <= |b| {
      assert b[..|a|][k] == b[k];
    } else {
      assert a[..|b|][k] == a[k];
    }
  }

  /** Entities of the form `&name;` or `&#xH;` tell themselves apart by their
      second or fourth character. */
  lemma TableDecodable(table: seq<Entity>)
    requires forall i | 0 <= i < |table| :: |table[i].text| >= 4 && table[i].text[0] == '&'
    requires forall i, j | 0 <= i < |table| && 0 <= j < |table| && i != j ::
      table[i].ch != table[j].ch &&
      (table[i].text[1] != table[j].text[1] || table[i].text[3] != table[j].text[3])
    requires HasEntity(table, '&')
    ensures Decodable(table)
  {
    forall i, j | 0 <= i < |table| && 0 <= j < |table| && i != j
      ensures !IsPrefix(table[i].text, table[j].text)
    {
      var k := if table[i].text[1] != table[j].text[1] then 1 else 3;
      DifferAt(table[i].text, table[j].text, k);
    }
  }

  lemma Decodables()
    ensures Decodable(MarkupText) && Decodable(MarkupAttr) && Decodable(LegacyText)
  {
    assert MarkupText[0].ch == '&' && MarkupAttr[0].ch == '&' && LegacyText[0].ch == '&';
    TableDecodable(MarkupText);
    TableDecodable(MarkupAttr);
    TableDecodable(LegacyText);
  }

  /** Reading the entities back gives the text `escape` was given. */
  lemma EscapeRoundTrip(text: string)
    ensures Decode(MarkupText, Escape(text)) == text
  {
    Decodables();
    DecodeEncode(MarkupText, text);
  }

  /** Reading the entities back gives the value `escapeAttr` was given. */
  lemma EscapeAttrRoundTrip(text: string)
    ensures Decode(MarkupAttr, EscapeAttr(text)) == text
  {
    Decodables();
    DecodeEncode(MarkupAttr, text);
  }

  /** Reading the entities back gives the text `escapeHtml` was given. */
  lemma EscapeHtmlRoundTrip(text: string)
    ensures Decode(LegacyText, EscapeHtml(text)) == text
  {
    Decodables();
    DecodeEncode(LegacyText, text);
  }

  /** Escaping distributes over concatenation, so escaping pieces and
      joining them is escaping the whole. */
  lemma EscapeAppend(a: string, b: string)
    ensures Escape(a + b) == Escape(a) + Escape(b)
    ensures EscapeAttr(a + b) == EscapeAttr(a) + EscapeAttr(b)
    ensures EscapeHtml(a + b) == EscapeHtml(a) + EscapeHtml(b)
    ensures EscapeQuotes(a + b) == EscapeQuotes(a) + EscapeQuotes(b)
  {
    EncodeAppend(MarkupText, a, b);
    EncodeAppend(MarkupAttr, a, b);
    EncodeAppend(LegacyText, a, b);
    EncodeAppend(LegacyAttr, a, b);
  }

  // ---------------------------------------------------------------------
  // escapeScript of html.js

  /** ASCII lower case, the only folding a case-insensitive pattern without
      the `u` flag applies to the letters of `script`. */
  function Lower(c: char): char {
    if 'A' <= c <= 'Z' then (c as int + 32) as char else c
  }

  /** `script` in any mix of cases. */
  predicate IsScriptWord(w: string) {
    |w| == 6 && forall i | 0 <= i < 6 :: Lower(w[i]) == "script"[i]
  }

  /** The text starts with what `/<\/(script)/i` matches. */
  predicate StartsScriptClose(s: string) {
    |s| >= 8 && s[0] == '<' && s[1] == '/' && IsScriptWord(s[2..8])
  }

  predicate StartsCommentOpen(s: string) {
    |s| >= 4 && s[..4] == "<!--"
  }

  /** No `</script`, in any case, anywhere in the text. */
  predicate NoScriptClose(s: string) {
    forall i | 0 <= i <= |s| :: !StartsScriptClose(s[i..])
  }

  /** No `<!--` anywhere in the text. */
  predicate NoCommentOpen(s: string) {
    forall i | 0 <= i <= |s| :: !StartsCommentOpen(s[i..])
  }

  /** `text.replace(/<\/(script)/gi, "<\\/$1")`: a backslash goes between
      `<` and `/` of every `</script`, the word keeping its case. */
  function BreakScriptClose(s: string): string
    decreases |s|
  {
    if StartsScriptClose(s) then "<\\/" + s[2..8] + BreakScriptClose(s[8..])
    else if s == [] then ""
    else [s[0]] + BreakScriptClose(s[1..])
  }

  /** `text.replace(/<!--/g, "<\\!--")`. */
  function BreakCommentOpen(s: string): string
    decreases |s|
  {
    if StartsCommentOpen(s) then "<\\!--" + BreakCommentOpen(s[4..])
    else if s == [] then ""
    else [s[0]] + BreakCommentOpen(s[1..])
  }

  /** `escapeScript` of html.js: the body of a `<script>` element can then
      neither close the element nor open a comment, and differs from the
      text it came from only by inserted backslashes. */
  function EscapeScript(text: string): (r: string)
    ensures NoScriptClose(r) && NoCommentOpen(r)
    ensures WithoutBackslashes(r) == WithoutBackslashes(text)
  {
    var once := BreakScriptClose(text);
    BreakScriptCloseSafe(text);
    BreakCommentOpenSafe(once);
    BreakCommentOpenKeeps(once);
    BreakScriptCloseErases(text);
    BreakCommentOpenErases(once);
    BreakCommentOpen(once)
  }

  /** The text with every backslash taken out. */
  function WithoutBackslashes(s: string): string {
    if s == [] then "" else (if s[0] == '\\' then "" else [s[0]]) + WithoutBackslashes(s[1..])
  }

  lemma {:induction false} WithoutBackslashesAppend(a: string, b: string)
    ensures WithoutBackslashes(a + b) == WithoutBackslashes(a) + WithoutBackslashes(b)
  {
    if a != [] {
      assert (a + b)[0] == a[0] && (a + b)[1..] == a[1..] + b;
      WithoutBackslashesAppend(a[1..], b);
    } else {
      assert a + b == b;
    }
  }

  lemma {:induction false} BreakScriptCloseErases(s: string)
    ensures WithoutBackslashes(BreakScriptClose(s)) == WithoutBackslashes(s)
    decreases |s|
  {
    if StartsScriptClose(s) {
      BreakScriptCloseErases(s[8..]);
      WithoutBackslashesAppend("<\\/" + s[2..8], BreakScriptClose(s[8..]));
      WithoutBackslashesAppend("<\\/", s[2..8]);
      WithoutBackslashesAppend("</", s[2..8]);
      WithoutBackslashesAppend("</" + s[2..8], s[8..]);
      assert s == "</" + s[2..8] + s[8..];
      assert WithoutBackslashes("<\\/") == "</";
      assert WithoutBackslashes("</") == "</";
    } else if s != [] {
      BreakScriptCloseErases(s[1..]);
    }
  }

  lemma {:induction false} BreakCommentOpenErases(s: string)
    ensures WithoutBackslashes(BreakCommentOpen(s)) == WithoutBackslashes(s)
    decreases |s|
  {
    if StartsCommentOpen(s) {
      BreakCommentOpenErases(s[4..]);
      WithoutBackslashesAppend("<\\!--", BreakCommentOpen(s[4..]));
      WithoutBackslashesAppend("<!--", s[4..]);
      assert s == "<!--" + s[4..];
      assert WithoutBackslashes("<\\!--") == "<!--";
      assert WithoutBackslashes("<!--") == "<!--";
    } else if s != [] {
      BreakCommentOpenErases(s[1..]);
    }
  }

  /** A text that begins without `<` cannot gain one at its start from the
      first pass: what it begins with was there already. */
  lemma {:induction false} BreakScriptClosePrefix(t: string, w: string)
    ensures '<' !in w && IsPrefix(w, BreakScriptClose(t)) ==> IsPrefix(w, t)
    decreases |w|
  {
    if w != [] && '<' !in w && IsPrefix(w, BreakScriptClose(t)) {
      assert BreakScriptClose(t)[0] == w[0];
      assert !StartsScriptClose(t) && t != [];
      assert BreakScriptClose(t)[1..] == BreakScriptClose(t[1..]);
      assert w[1..] == BreakScriptClose(t[1..])[..|w| - 1];
      BreakScriptClosePrefix(t[1..], w[1..]);
      assert t[..|w|] == [t[0]] + t[1..][..|w| - 1];
    }
  }

  lemma {:induction false} BreakCommentOpenPrefix(t: string, w: string)
    ensures '<' !in w && IsPrefix(w, BreakCommentOpen(t)) ==> IsPrefix(w, t)
    decreases |w|
  {
    if w != [] && '<' !in w && IsPrefix(w, BreakCommentOpen(t)) {
      assert BreakCommentOpen(t)[0] == w[0];
      assert !StartsCommentOpen(t) && t != [];
      assert BreakCommentOpen(t)[1..] == BreakCommentOpen(t[1..]);
      assert w[1..] == BreakCommentOpen(t[1..])[..|w| - 1];
      BreakCommentOpenPrefix(t[1..], w[1..]);
      assert t[..|w|] == [t[0]] + t[1..][..|w| - 1];
    }
  }

  /** A piece without `<` in front of a safe text keeps it safe. */
  lemma NoLtThenSafe(w: string, t: string)
    requires '<' !in w
    ensures NoScriptClose(t) ==> NoScriptClose(w + t)
    ensures NoCommentOpen(t) ==> NoCommentOpen(w + t)
  {
    forall i | 0 <= i <= |w + t|
      ensures (NoScriptClose(t) ==> !StartsScriptClose((w + t)[i..]))
      ensures (NoCommentOpen(t) ==> !StartsCommentOpen((w + t)[i..]))
    {
      if i < |w| {
        assert (w + t)[i..][0] == w[i];
      } else {
        assert (w + t)[i..] == t[i - |w|..];
      }
    }
  }

  /** One character in front of a safe text keeps it safe unless the two
      together start the pattern. */
  lemma ConsSafe(c: char, t: string)
    ensures NoScriptClose(t) && !StartsScriptClose([c] + t) ==> NoScriptClose([c] + t)
    ensures NoCommentOpen(t) && !StartsCommentOpen([c] + t) ==> NoCommentOpen([c] + t)
  {
    forall i | 1 <= i <= |[c] + t|
      ensures ([c] + t)[i..] == t[i - 1..]
    {
    }
  }

  /** A safe text stays safe without its first character. */
  lemma TailSafe(s: string, k: nat)
    requires k <= |s|
    ensures NoScriptClose(s) ==> NoScriptClose(s[k..])
  {
    forall i | 0 <= i <= |s[k..]|
      ensures s[k..][i..] == s[i + k..]
    {
    }
  }

  lemma ScriptWordNoLt(w: string)
    ensures IsScriptWord(w) ==> '<' !in w
  {
    if IsScriptWord(w) {
      forall i | 0 <= i < 6
        ensures w[i] != '<'
      {
        assert Lower(w[i]) == "script"[i];
      }
    }
  }

  /** The marks the first pass leaves, `<\/` and the word, cannot start a
      `</script` or a `<!--` themselves. */
  lemma MarkedSafe(w: string, rest: string)
    requires IsScriptWord(w)
    ensures NoScriptClose(rest) ==> NoScriptClose("<\\/" + w + rest)
  {
    ScriptWordNoLt(w);
    var tail := "\\/" + w;
    assert '<' !in tail;
    NoLtThenSafe(tail, rest);
    assert "<\\/" + w + rest == ['<'] + (tail + rest);
    assert (['<'] + (tail + rest))[1] == '\\';
    ConsSafe('<', tail + rest);
  }

  lemma CommentMarkedSafe(rest: string)
    ensures NoCommentOpen(rest) ==> NoCommentOpen("<\\!--" + rest)
    ensures NoScriptClose(rest) ==> NoScriptClose("<\\!--" + rest)
  {
    var tail := "\\!--";
    assert '<' !in tail;
    NoLtThenSafe(tail, rest);
    assert "<\\!--" + rest == ['<'] + (tail + rest);
    assert (['<'] + (tail + rest))[1] == '\\';
    ConsSafe('<', tail + rest);
  }

  /** A character the first pass copies cannot start a `</script` with what
      follows it, since that would have been a match in the input. */
  lemma FirstPassHead(s: string)
    requires s != [] && !StartsScriptClose(s)
    ensures !StartsScriptClose([s[0]] + BreakScriptClose(s[1..]))
  {
    var rest := BreakScriptClose(s[1..]);
    var o := [s[0]] + rest;
    if |rest| >= 7 {
      var w := rest[..7];
      ScriptWordNoLt(o[2..8]);
      assert o[2..8] == w[1..] && o[1] == w[0];
      assert w[0] == '/' && '<' !in w[1..] ==> '<' !in w by {
        assert w == [w[0]] + w[1..];
      }
      BreakScriptClosePrefix(s[1..], w);
      if IsPrefix(w, s[1..]) {
        assert s[1..8] == w;
        assert s[2..8] == w[1..] && s[1] == w[0];
      }
    }
  }

  /** Likewise a character the second pass copies cannot start a `<!--`. */
  lemma SecondPassHead(s: string)
    requires s != [] && !StartsCommentOpen(s)
    ensures !StartsCommentOpen([s[0]] + BreakCommentOpen(s[1..]))
  {
    var rest := BreakCommentOpen(s[1..]);
    var o := [s[0]] + rest;
    if |rest| >= 3 {
      var w := rest[..3];
      BreakCommentOpenPrefix(s[1..], w);
      assert o[..4] == [s[0]] + w;
      assert ([s[0]] + w)[1..] == w;
      if w == "!--" {
        assert '<' !in w;
        assert s[1..][..3] == w;
        assert s[..4] == [s[0]] + w;
        assert o[..4] == s[..4];
      }
    }
  }

  /** ... nor a `</script` the input did not have. */
  lemma SecondPassHeadKeeps(s: string)
    requires s != [] && !StartsScriptClose(s)
    ensures !StartsScriptClose([s[0]] + BreakCommentOpen(s[1..]))
  {
    var rest := BreakCommentOpen(s[1..]);
    var o := [s[0]] + rest;
    if |rest| >= 7 {
      var w := rest[..7];
      ScriptWordNoLt(o[2..8]);
      assert o[2..8] == w[1..] && o[1] == w[0];
      assert w[0] == '/' && '<' !in w[1..] ==> '<' !in w by {
        assert w == [w[0]] + w[1..];
      }
      BreakCommentOpenPrefix(s[1..], w);
      if IsPrefix(w, s[1..]) {
        assert s[1..8] == w;
        assert s[2..8] == w[1..] && s[1] == w[0];
      }
    }
  }

  /** After the first pass no `</script` is left. */
  lemma {:induction false} BreakScriptCloseSafe(s: string)
    ensures NoScriptClose(BreakScriptClose(s))
    decreases |s|
  {
    if StartsScriptClose(s) {
      BreakScriptCloseSafe(s[8..]);
      MarkedSafe(s[2..8], BreakScriptClose(s[8..]));
    } else if s != [] {
      BreakScriptCloseSafe(s[1..]);
      FirstPassHead(s);
      ConsSafe(s[0], BreakScriptClose(s[1..]));
    }
  }

  /** After the second pass no `<!--` is left. */
  lemma {:induction false} BreakCommentOpenSafe(s: string)
    ensures NoCommentOpen(BreakCommentOpen(s))
    decreases |s|
  {
    if StartsCommentOpen(s) {
      BreakCommentOpenSafe(s[4..]);
      CommentMarkedSafe(BreakCommentOpen(s[4..]));
    } else if s != [] {
      BreakCommentOpenSafe(s[1..]);
      SecondPassHead(s);
      ConsSafe(s[0], BreakCommentOpen(s[1..]));
    }
  }

  /** The second pass brings back no `</script`. */
  lemma {:induction false} BreakCommentOpenKeeps(s: string)
    ensures NoScriptClose(s) ==> NoScriptClose(BreakCommentOpen(s))
    decreases |s|
  {
    if StartsCommentOpen(s) {
      TailSafe(s, 4);
      BreakCommentOpenKeeps(s[4..]);
      CommentMarkedSafe(BreakCommentOpen(s[4..]));
    } else if s != [] {
      TailSafe(s, 1);
      BreakCommentOpenKeeps(s[1..]);
      assert s[0..] == s;
      if NoScriptClose(s) {
        SecondPassHeadKeeps(s);
      }
      ConsSafe(s[0], BreakCommentOpen(s[1..]));
    }
  }
}
