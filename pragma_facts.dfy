/** The `@jsx` pragma of compiler.js written out: which comment bodies the
    pattern of `onComment` matches, and the name it yields. */
module PragmaFacts {
  import opened Wrappers
  import opened Chars
  import opened Options

  predicate BlanksOrTabs(ws: string) {
    forall i | 0 <= i < |ws| :: IsBlankOrTab(ws[i])
  }

  /** A comment that matches has the pragma's shape around the name the
      match yields. */
  lemma MatchPragmaShape(comment: string)
    ensures MatchPragma(comment).Some? ==>
      exists ws1, ws2, rest :: PragmaShape(comment, ws1, ws2, MatchPragma(comment).value, rest)
  {
    if MatchPragma(comment).Some? {
      var name := MatchPragma(comment).value;
      var s := comment[1..];
      var ws1, ws2, rest := AfterStarPieces(s);
      assert comment == "*" + s;
      Nested(ws1, ws2, name, rest);
      assert PragmaShape(comment, ws1, ws2, name, rest);
    }
  }

  lemma AfterStarPieces(s: string) returns (ws1: string, ws2: string, rest: string)
    requires AfterStar(s).Some?
    ensures s == ws1 + ("@jsx" + (ws2 + (AfterStar(s).value + rest)))
    ensures BlanksOrTabs(ws1) && |ws2| > 0 && BlanksOrTabs(ws2)
    ensures rest == [] || IsJsSpace(rest[0])
  {
    var a := PrefixEnd(s, IsBlankOrTab);
    ws1 := s[..a];
    assert BlanksOrTabs(ws1) by {
      forall i | 0 <= i < |ws1|
        ensures IsBlankOrTab(ws1[i])
      {
        assert ws1[i] == s[i];
      }
    }
    var t := s[a..];
    assert s == ws1 + t;
    ws2, rest := AtJsxPieces(t);
  }

  lemma AtJsxPieces(t: string) returns (ws2: string, rest: string)
    requires AtJsx(t).Some?
    ensures t == "@jsx" + (ws2 + (AtJsx(t).value + rest))
    ensures |ws2| > 0 && BlanksOrTabs(ws2)
    ensures rest == [] || IsJsSpace(rest[0])
  {
    var u := t[4..];
    assert t == t[..4] + u;
    var b := PrefixEnd(u, IsBlankOrTab);
    ws2 := u[..b];
    assert BlanksOrTabs(ws2) by {
      forall i | 0 <= i < |ws2|
        ensures IsBlankOrTab(ws2[i])
      {
        assert ws2[i] == u[i];
      }
    }
    var v := u[b..];
    assert u == ws2 + v;
    rest := NameAtPieces(v);
  }

  lemma NameAtPieces(v: string) returns (rest: string)
    requires NameAt(v).Some?
    ensures v == NameAt(v).value + rest
    ensures rest == [] || IsJsSpace(rest[0])
  {
    var n := PrefixEnd(v, NotSpace);
    rest := v[n..];
    assert v == v[..n] + rest;
    if rest != [] {
      assert rest[0] == v[n] && !NotSpace(v[n]);
    }
  }

  lemma Nested(ws1: string, ws2: string, name: string, rest: string)
    ensures "*" + ws1 + "@jsx" + ws2 + name + rest == "*" + (ws1 + ("@jsx" + (ws2 + (name + rest))))
  {
  }

  /** Every comment of the pragma's shape matches, with its name. */
  lemma PragmaShapeMatches(comment: string, ws1: string, ws2: string, name: string, rest: string)
    requires PragmaShape(comment, ws1, ws2, name, rest)
    ensures MatchPragma(comment) == Some(name)
  {
    Nested(ws1, ws2, name, rest);
    var v := name + rest;
    NameAtOf(name, rest);
    var u := ws2 + v;
    BlanksThen(ws2, v, name[0]);
    assert AfterJsx(u) == NameAt(v);
    var t := "@jsx" + u;
    assert t[..4] == "@jsx" && t[4..] == u;
    var s := ws1 + t;
    BlanksThen(ws1, t, '@');
    assert s[PrefixEnd(s, IsBlankOrTab)..] == t;
    assert comment[1..] == s;
  }

  /** The run of spaces and tabs before a character that is neither. */
  lemma BlanksThen(ws: string, t: string, c: char)
    requires BlanksOrTabs(ws) && |t| > 0 && t[0] == c && !IsBlankOrTab(c)
    ensures PrefixEnd(ws + t, IsBlankOrTab) == |ws|
  {
    var s := ws + t;
    assert s[|ws|] == c;
    assert forall i | 0 <= i < |ws| :: s[i] == ws[i];
  }

  lemma NameAtOf(name: string, rest: string)
    requires |name| > 0 && forall i | 0 <= i < |name| :: !IsJsSpace(name[i])
    requires rest == [] || IsJsSpace(rest[0])
    ensures NameAt(name + rest) == Some(name)
  {
    var v := name + rest;
    assert forall i | 0 <= i < |name| :: v[i] == name[i];
    assert |v| > |name| ==> v[|name|] == rest[0];
    var n := PrefixEnd(v, NotSpace);
    assert n == |name|;
    assert v[..n] == name;
  }

  /** A name from the body of a doc comment ` @jsx name `, from the
      unspaced form `@jsx name` and from the tab-separated form. */
  lemma PragmaForms(name: string)
    requires |name| > 0 && forall i | 0 <= i < |name| :: !IsJsSpace(name[i])
    ensures MatchPragma("* @jsx " + name + " ") == Some(name)
    ensures MatchPragma("*@jsx " + name) == Some(name)
    ensures MatchPragma("*\t@jsx " + name + "\t") == Some(name)
  {
    PragmaSpaced(name);
    PragmaUnspaced(name);
    PragmaTabbed(name);
  }

  lemma PragmaSpaced(name: string)
    requires |name| > 0 && forall i | 0 <= i < |name| :: !IsJsSpace(name[i])
    ensures MatchPragma("* @jsx " + name + " ") == Some(name)
  {
    SpacedSpelling(name);
    PragmaShapeMatches("* @jsx " + name + " ", " ", " ", name, " ");
  }

  lemma PragmaUnspaced(name: string)
    requires |name| > 0 && forall i | 0 <= i < |name| :: !IsJsSpace(name[i])
    ensures MatchPragma("*@jsx " + name) == Some(name)
  {
    UnspacedSpelling(name);
    PragmaShapeMatches("*@jsx " + name, "", " ", name, "");
  }

  lemma PragmaTabbed(name: string)
    requires |name| > 0 && forall i | 0 <= i < |name| :: !IsJsSpace(name[i])
    ensures MatchPragma("*\t@jsx " + name + "\t") == Some(name)
  {
    TabbedSpelling(name);
    PragmaShapeMatches("*\t@jsx " + name + "\t", "\t", " ", name, "\t");
  }

  lemma SpacedSpelling(name: string)
    ensures "* @jsx " + name + " " == "*" + " " + "@jsx" + " " + name + " "
  {
  }

  lemma UnspacedSpelling(name: string)
    ensures "*@jsx " + name == "*" + "" + "@jsx" + " " + name + ""
  {
  }

  lemma TabbedSpelling(name: string)
    ensures "*\t@jsx " + name + "\t" == "*" + "\t" + "@jsx" + " " + name + "\t"
  {
  }

  /** A line break before `@jsx` prevents the match. */
  lemma PragmaAfterLineBreak(rest: string)
    ensures MatchPragma("*\n" + rest) == None
  {
    var s := ("*\n" + rest)[1..];
    assert s == "\n" + rest;
    assert PrefixEnd(s, IsBlankOrTab) == 0 by {
      assert !IsBlankOrTab(s[0]);
    }
    assert s[0..] == s;
  }
}
