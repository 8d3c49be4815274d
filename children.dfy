/** The text-child and comma rules of `compileChildren` in lib/js.js, and
    the `findLastIndex` loop they use. */
module TextChildren {
  import opened Chars
  import opened Wrappers
  import opened Quoting

  /** The last index whose element satisfies `fn`, or -1. */
  function LastIndexWhere<T>(arr: seq<T>, fn: T -> bool): (i: int)
    ensures -1 <= i < |arr|
    ensures i >= 0 ==> fn(arr[i])
    ensures forall k | i < k < |arr| :: !fn(arr[k])
  {
    if arr == [] then -1
    else if fn(arr[|arr| - 1]) then |arr| - 1
    else LastIndexWhere(arr[..|arr| - 1], fn)
  }

  /** `findLastIndex(arr, fn)`: a loop from the end. */
  method FindLastIndex<T>(arr: seq<T>, fn: T -> bool) returns (i: int)
    ensures i == LastIndexWhere(arr, fn)
  {
    i := |arr| - 1;
    while i >= 0
      invariant -1 <= i < |arr|
      invariant forall k | i < k < |arr| :: !fn(arr[k])
    {
      if fn(arr[i]) {
        return;
      }
      i := i - 1;
    }
  }

  predicate NonBlank(s: string) {
    !IsBlank(s)
  }

  /** What `/^([ \t\v\f]*)(.*?)([ \t\v\f]*)$/` captures on a line: leading
      and trailing horizontal white space around the rest. */
  datatype Trimmed = Trimmed(lead: string, body: string, trail: string)

  function Trim(line: string): (m: Trimmed)
    requires exists i | 0 <= i < |line| :: !IsHSpace(line[i])
    ensures m.lead + m.body + m.trail == line
    ensures AllHSpace(m.lead) && AllHSpace(m.trail)
    ensures |m.body| > 0 && !IsHSpace(m.body[0]) && !IsHSpace(m.body[|m.body| - 1])
  {
    var l := PrefixEnd(line, IsHSpace);
    var t := SuffixStart(line, IsHSpace);
    LeadEnds(line);
    TrailStarts(line);
    TrimSplits(line, l, t);
    Trimmed(line[..l], line[l..t], line[t..])
  }

  lemma LeadEnds(line: string)
    ensures var l := PrefixEnd(line, IsHSpace);
      l <= |line| && (forall i | 0 <= i < l :: IsHSpace(line[i])) && (l < |line| ==> !IsHSpace(line[l]))
  {
  }

  lemma TrailStarts(line: string)
    ensures var t := SuffixStart(line, IsHSpace);
      t <= |line| && (forall i | t <= i < |line| :: IsHSpace(line[i])) && (t > 0 ==> !IsHSpace(line[t - 1]))
  {
  }

  /** The leading run of white space ends before the trailing one begins, and
      the three parts around them rebuild the line. */
  lemma TrimSplits(line: string, l: nat, t: nat)
    requires exists i | 0 <= i < |line| :: !IsHSpace(line[i])
    requires l <= |line| && forall i | 0 <= i < l :: IsHSpace(line[i])
    requires l < |line| ==> !IsHSpace(line[l])
    requires t <= |line| && forall i | t <= i < |line| :: IsHSpace(line[i])
    requires t > 0 ==> !IsHSpace(line[t - 1])
    ensures l < t
    ensures line[..l] + line[l..t] + line[t..] == line
    ensures AllHSpace(line[..l]) && AllHSpace(line[t..])
    ensures !IsHSpace(line[l..t][0]) && !IsHSpace(line[l..t][|line[l..t]| - 1])
  {
    var i :| 0 <= i < |line| && !IsHSpace(line[i]);
    assert l <= i < t;
    ThreeParts(line, l, t);
    HSpaceParts(line, l, t);
  }

  lemma ThreeParts(line: string, l: nat, t: nat)
    requires l <= t <= |line|
    ensures line[..l] + line[l..t] + line[t..] == line
  {
  }

  lemma HSpaceParts(line: string, l: nat, t: nat)
    requires l <= t <= |line|
    requires forall i | 0 <= i < l :: IsHSpace(line[i])
    requires forall i | t <= i < |line| :: IsHSpace(line[i])
    ensures AllHSpace(line[..l]) && AllHSpace(line[t..])
  {
    assert forall k | 0 <= k < l :: line[..l][k] == line[k];
    assert forall k | 0 <= k < |line| - t :: line[t..][k] == line[t + k];
  }

  /** A line the regular expression cannot match: `.` stops at CR, U+2028 and
      U+2029, so `exec` returns null and reading a group throws. */
  predicate Unmatchable(line: string) {
    exists i | 0 <= i < |line| :: IsLineTerminator(line[i])
  }

  /** Where a line sits, for the choice of rendering. */
  datatype Place = Place(firstLine: bool, lastLine: bool, lastNonBlank: bool, firstChild: bool, lastChild: bool)

  /** The rendering of one line of a non-blank text child. */
  function RenderLine(line: string, p: Place): (r: Result<string>)
    ensures IsBlank(line) ==> r == Ok(line)
    ensures r.Err? <==> !IsBlank(line) && Unmatchable(line)
  {
    if IsBlank(line) then Ok(line)
    else if Unmatchable(line) then Err(TypeError("Cannot read properties of null (reading '1')"))
    else
      assert exists i | 0 <= i < |line| :: !IsHSpace(line[i]) by {
        var i :| 0 <= i < |line| && !IsBlankChar(line[i]);
      }
      var m := Trim(line);
      if p.firstLine && !p.firstChild then
        if p.lastLine then Ok(Quote(m.lead + m.body + m.trail))
        else if p.lastNonBlank then Ok(Quote(m.lead + m.body))
        else Ok(Quote(m.lead + m.body + " ") + " +")
      else if p.lastLine && !p.lastChild then Ok(m.lead + Quote(m.body + m.trail))
      else if p.lastNonBlank then Ok(m.lead + Quote(m.body))
      else Ok(m.lead + Quote(m.body + " ") + " +")
  }

  /** How a non-blank line of a text child ends: a line before the last
      non-blank one (and not the last line) in a literal closed by a space
      and then ` +`, so that it joins the next line's literal with one
      space; the last non-blank line in a bare literal. */
  lemma LineEnds(line: string, p: Place)
    requires !IsBlank(line) && !Unmatchable(line)
    ensures RenderLine(line, p).Ok?
    ensures !p.lastNonBlank && !p.lastLine ==> EndsWith(RenderLine(line, p).value, " \" +")
    ensures p.lastNonBlank ==> EndsWith(RenderLine(line, p).value, "\"")
  {
    if !p.lastNonBlank && !p.lastLine {
      if p.firstLine && !p.firstChild {
        FirstLineContinues(line, p);
      } else {
        LineContinues(line, p);
      }
    } else if p.lastNonBlank {
      LastLineCloses(line, p);
    }
  }

  lemma LastLineCloses(line: string, p: Place)
    requires !IsBlank(line) && !Unmatchable(line) && p.lastNonBlank
    ensures EndsWith(RenderLine(line, p).value, "\"")
  {
    assert exists i | 0 <= i < |line| :: !IsHSpace(line[i]) by {
      var i :| 0 <= i < |line| && !IsBlankChar(line[i]);
    }
    var m := Trim(line);
    var r := RenderLine(line, p).value;
    if p.firstLine && !p.firstChild {
      if p.lastLine {
        assert r == "" + Quote(m.lead + m.body + m.trail);
        ClosedLiteral("", m.lead + m.body + m.trail);
      } else {
        assert r == "" + Quote(m.lead + m.body);
        ClosedLiteral("", m.lead + m.body);
      }
    } else if p.lastLine && !p.lastChild {
      ClosedLiteral(m.lead, m.body + m.trail);
    } else {
      ClosedLiteral(m.lead, m.body);
    }
  }

  /** A literal ends with its closing quote. */
  lemma ClosedLiteral(lead: string, x: string)
    ensures EndsWith(lead + Quote(x), "\"")
  {
    var s := lead + Quote(x);
    assert s[|s| - 1..] == "\"";
  }

  lemma FirstLineContinues(line: string, p: Place)
    requires !IsBlank(line) && !Unmatchable(line)
    requires !p.lastNonBlank && !p.lastLine && p.firstLine && !p.firstChild
    ensures EndsWith(RenderLine(line, p).value, " \" +")
  {
    assert exists i | 0 <= i < |line| :: !IsHSpace(line[i]) by {
      var i :| 0 <= i < |line| && !IsBlankChar(line[i]);
    }
    var m := Trim(line);
    var r := RenderLine(line, p).value;
    assert r == Quote(m.lead + m.body + " ") + " +";
    JoinedLine("", m.lead + m.body);
    assert "" + Quote(m.lead + m.body + " ") + " +" == r;
  }

  lemma LineContinues(line: string, p: Place)
    requires !IsBlank(line) && !Unmatchable(line)
    requires !p.lastNonBlank && !p.lastLine && !(p.firstLine && !p.firstChild)
    ensures EndsWith(RenderLine(line, p).value, " \" +")
  {
    assert exists i | 0 <= i < |line| :: !IsHSpace(line[i]) by {
      var i :| 0 <= i < |line| && !IsBlankChar(line[i]);
    }
    var m := Trim(line);
    assert RenderLine(line, p).value == m.lead + Quote(m.body + " ") + " +";
    JoinedLine(m.lead, m.body);
  }

  /** A literal closed by a space and then ` +`. */
  lemma JoinedLine(lead: string, x: string)
    ensures EndsWith(lead + Quote(x + " ") + " +", " \" +")
  {
    EscapeBodyAppend(x, " ");
    var s := lead + Quote(x + " ") + " +";
    assert s == (lead + "\"" + EscapeBody(x)) + " \" +";
  }

  /** `lines.map(...)` from index `k` on; the first line that throws ends it. */
  function RenderLines(lines: seq<string>, k: nat, lastNonBlank: int, firstChild: bool, lastChild: bool)
    : (r: Result<seq<string>>)
    requires k <= |lines|
    ensures r.Ok? ==> |r.value| == |lines| - k
    ensures r.Ok? <==> forall i | k <= i < |lines| :: !(NonBlank(lines[i]) && Unmatchable(lines[i]))
    decreases |lines| - k
  {
    if k == |lines| then Ok([])
    else
      var p := Place(k == 0, k == |lines| - 1, k == lastNonBlank, firstChild, lastChild);
      match RenderLine(lines[k], p)
      case Err(e) => Err(e)
      case Ok(line) =>
        match RenderLines(lines, k + 1, lastNonBlank, firstChild, lastChild)
        case Err(e) => Err(e)
        case Ok(rest) => Ok([line] + rest)
  }

  /** The compiled form of a text child (the `JSXText` case of `compileChildren`). */
  function TextChild(text: string, firstChild: bool, lastChild: bool): (r: Result<string>)
    ensures IsBlank(text) ==> r.Ok?
    ensures IsBlank(text) && (firstChild || lastChild || HasNewline(text)) ==> r == Ok(text)
    ensures IsBlank(text) && !(firstChild || lastChild || HasNewline(text)) ==> r == Ok(Quote(text))
    ensures r.Err? ==> !IsBlank(text) && exists i | 0 <= i < |text| :: text[i] != '\n' && IsLineTerminator(text[i])
  {
    if IsBlank(text) then
      if firstChild || lastChild || HasNewline(text) then Ok(text) else Ok(Quote(text))
    else
      var lines := Split(text, '\n');
      var last := LastIndexWhere(lines, NonBlank);
      match RenderLines(lines, 0, last, firstChild, lastChild)
      case Err(e) =>
        ghost var k :| 0 <= k < |lines| && NonBlank(lines[k]) && Unmatchable(lines[k]);
        ghost var j :| 0 <= j < |lines[k]| && IsLineTerminator(lines[k][j]);
        JoinHasPieces(lines, "\n", k, j);
        Err(e)
      case Ok(rendered) => Ok(Join(rendered, "\n"))
  }

  /** Every character of a piece occurs in the joined string. */
  lemma {:induction false} JoinHasPieces(ss: seq<string>, sep: string, k: nat, j: nat)
    requires k < |ss| && j < |ss[k]|
    ensures exists i | 0 <= i < |Join(ss, sep)| :: Join(ss, sep)[i] == ss[k][j]
  {
    if |ss| == 1 {
      assert Join(ss, sep)[j] == ss[k][j];
    } else if k == 0 {
      assert Join(ss, sep)[j] == ss[0][j];
    } else {
      JoinHasPieces(ss[1..], sep, k - 1, j);
      var tail := Join(ss[1..], sep);
      var i :| 0 <= i < |tail| && tail[i] == ss[k][j];
      assert Join(ss, sep)[|ss[0]| + |sep| + i] == ss[k][j];
    }
  }

  /** `/^\s*\n/.test(s)`: a line break before anything but white space. */
  predicate LeadsWithNewline(s: string) {
    exists j | 0 <= j < |s| :: s[j] == '\n' && AllJsSpace(s[..j])
  }

  /** `/\n\s*$/.test(s)`: a line break after everything but white space. */
  predicate TrailsWithNewline(s: string) {
    exists j | 0 <= j < |s| :: s[j] == '\n' && AllJsSpace(s[j + 1..])
  }

  /** The items that the comma rule leaves alone: the last one, a blank one,
      and the one before a blank last item. */
  predicate Exempt(items: seq<string>, i: nat)
    requires i < |items|
  {
    || i == |items| - 1
    || IsBlank(items[i])
    || (i == |items| - 2 && IsBlank(items[i + 1]))
  }

  /** `r` is `el` with a comma put in front of its trailing white space, and
      possibly a space after. */
  predicate CommaBefore(el: string, r: string) {
    exists k | 0 <= k <= |el| ::
      && AllJsSpace(el[k..]) && (k == 0 || !IsJsSpace(el[k - 1]))
      && (r == el[..k] + "," + el[k..] || r == el[..k] + "," + el[k..] + " ")
  }

  /** `el.replace(/(\s*)$/, ",$1")` and the space that follows unless a
      line break already separates the items. */
  function WithComma(el: string, next: string): (r: string)
    ensures CommaBefore(el, r)
    ensures |r| == |el| + 2 <==> !TrailsWithNewline(el) && !LeadsWithNewline(next)
  {
    var k := SuffixStart(el, IsJsSpace);
    var marked := el[..k] + "," + el[k..];
    assert TrailsWithNewline(marked) <==> TrailsWithNewline(el) by {
      TrailingNewlineAfterComma(el, k);
    }
    if TrailsWithNewline(marked) || LeadsWithNewline(next) then marked
    else marked + " "
  }

  /** When `ws` is all the trailing white space, a final line break is a
      line break in `ws`. */
  lemma TrailsInSpace(head: string, ws: string)
    requires AllJsSpace(ws)
    requires head == [] || !IsJsSpace(head[|head| - 1])
    ensures TrailsWithNewline(head + ws) <==> '\n' in ws
  {
    var s := head + ws;
    if TrailsWithNewline(s) {
      var j :| 0 <= j < |s| && s[j] == '\n' && AllJsSpace(s[j + 1..]);
      forall i | j < i < |s|
        ensures IsJsSpace(s[i])
      {
        assert s[i] == s[j + 1..][i - j - 1];
      }
      assert |head| > 0 ==> !IsJsSpace(s[|head| - 1]);
      assert ws[j - |head|] == '\n';
    }
    if '\n' in ws {
      var j :| 0 <= j < |ws| && ws[j] == '\n';
      assert s[|head| + j] == '\n' && s[|head| + j + 1..] == ws[j + 1..];
    }
  }

  /** A comma put before the trailing white space leaves exactly that white
      space after it, so the test for a final line break sees the same. */
  lemma TrailingNewlineAfterComma(el: string, k: nat)
    requires k == SuffixStart(el, IsJsSpace)
    ensures TrailsWithNewline(el[..k] + "," + el[k..]) <==> TrailsWithNewline(el)
  {
    assert el == el[..k] + el[k..];
    TrailsInSpace(el[..k], el[k..]);
    TrailsInSpace(el[..k] + ",", el[k..]);
  }

  /** `js.map(...)`: the comma rule applied to every rendered child. */
  function Commas(items: seq<string>): (r: seq<string>)
    ensures |r| == |items|
  {
    seq(|items|, i requires 0 <= i < |items| => CommaAt(items, i))
  }

  /** What the `map` callback returns for item `i`. */
  function CommaAt(items: seq<string>, i: nat): string
    requires i < |items|
  {
    if Exempt(items, i) then items[i] else WithComma(items[i], items[i + 1])
  }

  /** The comma rule: exempt items are kept as they are, every other item
      gets its comma before its trailing white space. */
  lemma CommasRule(items: seq<string>)
    ensures forall i | 0 <= i < |items| :: Exempt(items, i) ==> Commas(items)[i] == items[i]
    ensures forall i | 0 <= i < |items| :: !Exempt(items, i) ==> CommaBefore(items[i], Commas(items)[i])
  {
    var r := Commas(items);
    forall i | 0 <= i < |items|
      ensures Exempt(items, i) ==> r[i] == items[i]
      ensures !Exempt(items, i) ==> CommaBefore(items[i], r[i])
    {
      assert r[i] == CommaAt(items, i);
    }
  }
}
