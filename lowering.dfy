/** The JSX lowering of lib/js.js: `Compiler`, `compileNode`,
    `compileAttributes` and `compileChildren`. Every JSX element or fragment
    the walk meets becomes one edit over its source range; an expression
    container loses its braces; the edits are then spliced into the text. */
module Lowering {
  import opened Chars
  import opened Wrappers
  import opened Quoting
  import opened OffsetTexts
  import opened Splicing
  import opened Syntax
  import opened Names
  import opened TextChildren

  /** A compiler's settings. The fragment and component factories are only
      ever tested for truthiness, so `None` stands for any falsy setting and
      `Some(s)` for a truthy one whose string form is `s`. */
  datatype Compiler = Compiler(
    factory: string,
    fragmentFactory: Option<string>,
    componentFactory: Option<string>,
    assign: string)

  /** The prototype's defaults. */
  const DefaultCompiler := Compiler("Jsx", None, None, "Object.assign")

  /** An entry of `groups` in `compileAttributes`: a run of named attributes
      (an array) or a single spread attribute. */
  datatype Group = Named(attrs: seq<Attr>) | SpreadGroup(spread: Attr) {
    /** `group.start`: an array has no `start`, which reads as `undefined`. */
    function Start(): Option<int> {
      if SpreadGroup? then Some(spread.start) else None
    }
  }

  /** The attributes the groups hold, in order. */
  function Flatten(gs: seq<Group>): seq<Attr> {
    if gs == [] then []
    else Members(gs[0]) + Flatten(gs[1..])
  }

  /** A named run is non-empty and holds only named attributes, a spread group
      holds a spread, and no two named runs are adjacent. */
  ghost predicate WellGrouped(gs: seq<Group>) {
    && (forall k | 0 <= k < |gs| :: WellGroup(gs[k]))
    && (forall i, j | 0 <= i < j < |gs| && j == i + 1 :: !(gs[i].Named? && gs[j].Named?))
  }

  /** A named run is non-empty and holds only named attributes; a spread group
      holds a spread. */
  ghost predicate WellGroup(g: Group) {
    && (g.Named? ==> |g.attrs| > 0 && forall i | 0 <= i < |g.attrs| :: g.attrs[i].Attribute?)
    && (g.SpreadGroup? ==> g.spread.Spread?)
  }

  lemma {:induction false} FlattenAppend(a: seq<Group>, b: seq<Group>)
    ensures Flatten(a + b) == Flatten(a) + Flatten(b)
  {
    if a == [] {
      assert a + b == b;
    } else {
      assert (a + b)[1..] == a[1..] + b;
      FlattenAppend(a[1..], b);
    }
  }

  /** The attributes a group holds. */
  function Members(g: Group): seq<Attr> {
    if g.Named? then g.attrs else [g.spread]
  }

  /** A named attribute joins the run at the end of the groups. */
  lemma ExtendRun(gs: seq<Group>, a: Attr)
    requires WellGrouped(gs) && gs != [] && gs[|gs| - 1].Named? && a.Attribute?
    ensures var r := gs[..|gs| - 1] + [Named(gs[|gs| - 1].attrs + [a])];
      WellGrouped(r) && Flatten(r) == Flatten(gs) + [a]
  {
    ExtendRunWell(gs, a);
    ExtendRunFlatten(gs, a);
  }

  lemma ExtendRunWell(gs: seq<Group>, a: Attr)
    requires WellGrouped(gs) && gs != [] && gs[|gs| - 1].Named? && a.Attribute?
    ensures WellGrouped(gs[..|gs| - 1] + [Named(gs[|gs| - 1].attrs + [a])])
  {
    var last := |gs| - 1;
    var run := gs[last].attrs;
    var r := gs[..last] + [Named(run + [a])];
    assert WellGroup(gs[last]);
    assert WellGroup(Named(run + [a])) by {
      forall i | 0 <= i < |run + [a]|
        ensures (run + [a])[i].Attribute?
      {
        if i < |run| {
          assert (run + [a])[i] == run[i];
        }
      }
    }
    forall k | 0 <= k < |r|
      ensures WellGroup(r[k])
    {
      if k < last {
        assert r[k] == gs[k];
      }
    }
    if last > 0 {
      assert !gs[last - 1].Named?;
    }
    forall i, j | 0 <= i < j < |r| && j == i + 1
      ensures !(r[i].Named? && r[j].Named?)
    {
      assert r[i] == gs[i];
      if j < last {
        assert r[j] == gs[j];
      }
    }
  }

  lemma ExtendRunFlatten(gs: seq<Group>, a: Attr)
    requires gs != [] && gs[|gs| - 1].Named?
    ensures Flatten(gs[..|gs| - 1] + [Named(gs[|gs| - 1].attrs + [a])]) == Flatten(gs) + [a]
  {
    var init := gs[..|gs| - 1];
    var run := gs[|gs| - 1].attrs;
    assert gs == init + [Named(run)];
    AddGroupFlatten(init, Named(run));
    AddGroupFlatten(init, Named(run + [a]));
  }

  /** A group of its own goes after the last one. */
  lemma AddGroup(gs: seq<Group>, g: Group)
    requires WellGrouped(gs)
    requires g.Named? ==> |g.attrs| == 1 && g.attrs[0].Attribute? && (gs == [] || gs[|gs| - 1].SpreadGroup?)
    requires g.SpreadGroup? ==> g.spread.Spread?
    ensures WellGrouped(gs + [g]) && Flatten(gs + [g]) == Flatten(gs) + Members(g)
  {
    AddGroupWell(gs, g);
    AddGroupFlatten(gs, g);
  }

  lemma AddGroupWell(gs: seq<Group>, g: Group)
    requires WellGrouped(gs) && WellGroup(g)
    requires g.Named? ==> gs == [] || gs[|gs| - 1].SpreadGroup?
    ensures WellGrouped(gs + [g])
  {
    var r := gs + [g];
    forall k | 0 <= k < |r|
      ensures WellGroup(r[k])
    {
      if k < |gs| {
        assert r[k] == gs[k];
      }
    }
    forall i, j | 0 <= i < j < |r| && j == i + 1
      ensures !(r[i].Named? && r[j].Named?)
    {
      assert r[i] == gs[i];
      if j < |gs| {
        assert r[j] == gs[j];
      }
    }
  }

  lemma AddGroupFlatten(gs: seq<Group>, g: Group)
    ensures Flatten(gs + [g]) == Flatten(gs) + Members(g)
  {
    FlattenAppend(gs, [g]);
    var none: seq<Group> := [];
    assert [g][1..] == none;
  }

  /** The grouping loop of `compileAttributes`: a named attribute joins the
      run at the end of `groups` or starts one, a spread is a group of its
      own, and any other node throws. */
  function Groups(attrs: seq<Attr>): (r: Result<seq<Group>>)
    ensures r.Ok? <==> forall k | 0 <= k < |attrs| :: !attrs[k].OtherAttr?
    ensures r.Err? ==> exists k | 0 <= k < |attrs| ::
      && attrs[k].OtherAttr?
      && r.error == InvalidAttribute(attrs[k].kind)
      && forall i | 0 <= i < k :: !attrs[i].OtherAttr?
    ensures r.Ok? ==> Flatten(r.value) == attrs && WellGrouped(r.value)
    decreases |attrs|
  {
    if attrs == [] then Ok([])
    else
      var init := attrs[..|attrs| - 1];
      var a := attrs[|attrs| - 1];
      assert attrs == init + [a];
      assert forall k | 0 <= k < |init| :: init[k] == attrs[k];
      match Groups(init)
      case Err(e) => Err(e)
      case Ok(gs) => GroupStep(gs, a)
  }

  /** One turn of the grouping loop. */
  function GroupStep(gs: seq<Group>, a: Attr): (r: Result<seq<Group>>)
    requires WellGrouped(gs)
    ensures r.Ok? <==> !a.OtherAttr?
    ensures r.Err? ==> r.error == InvalidAttribute(a.kind)
    ensures r.Ok? ==> Flatten(r.value) == Flatten(gs) + [a] && WellGrouped(r.value)
  {
    if a.Attribute? then
      if gs != [] && gs[|gs| - 1].Named? then
        ExtendRun(gs, a);
        Ok(gs[..|gs| - 1] + [Named(gs[|gs| - 1].attrs + [a])])
      else
        AddGroup(gs, Named([a]));
        Ok(gs + [Named([a])])
    else if a.Spread? then
      AddGroup(gs, SpreadGroup(a));
      Ok(gs + [SpreadGroup(a)])
    else
      Err(InvalidAttribute(a.kind))
  }

  function GroupSize(g: Group): nat {
    if g.Named? then AttrsSize(g.attrs) else AttrSize(g.spread)
  }

  function GroupsSize(gs: seq<Group>): nat {
    if gs == [] then 0 else GroupSize(gs[0]) + GroupsSize(gs[1..])
  }

  /** Grouping neither adds nor loses anything. */
  lemma {:induction false} GroupsSizeFlatten(gs: seq<Group>)
    ensures GroupsSize(gs) == AttrsSize(Flatten(gs))
  {
    if gs != [] {
      GroupsSizeFlatten(gs[1..]);
      AttrsSizeAppend(Members(gs[0]), Flatten(gs[1..]));
      if gs[0].SpreadGroup? {
        assert [gs[0].spread][1..] == [];
      }
    }
  }

  lemma {:induction false} GroupsSizeBounds(gs: seq<Group>, k: nat)
    requires k < |gs|
    ensures GroupSize(gs[k]) <= GroupsSize(gs)
  {
    if k > 0 {
      GroupsSizeBounds(gs[1..], k - 1);
    }
  }

  /** What `/^(\s*?)(\r?\n\s*)/` captures of `ws`: the white space before the
      first line break (without a carriage return that belongs to it), and the
      length of the rest of the leading white space. */
  function LeadingBreak(ws: string): (m: Option<(string, nat)>)
    ensures m.Some? <==> LeadsWithNewline(ws)
    ensures m.Some? ==>
      && |m.value.0| + m.value.1 <= |ws|
      && m.value.0 == ws[..|m.value.0|]
      && AllJsSpace(ws[..|m.value.0| + m.value.1])
      && '\n' !in m.value.0
      && (|m.value.0| + m.value.1 == |ws| || !IsJsSpace(ws[|m.value.0| + m.value.1]))
  {
    var p := PrefixEnd(ws, IsJsSpace);
    if '\n' in ws[..p] then
      var j := IndexOf(ws[..p], '\n');
      var l := if j > 0 && ws[j - 1] == '\r' then j - 1 else j;
      assert '\n' !in ws[..l] by {
        assert ws[..l] == ws[..p][..l];
      }
      assert LeadsWithNewline(ws) by {
        assert ws[j] == '\n' && ws[..j] == ws[..p][..j];
      }
      Some((ws[..l], p - l))
    else
      assert !LeadsWithNewline(ws) by {
        assert forall i | 0 <= i < p :: ws[i] != '\n' by {
          forall i | 0 <= i < p ensures ws[i] != '\n' {
            assert ws[..p][i] == ws[i];
          }
        }
        forall j | 0 <= j < |ws| && ws[j] == '\n'
          ensures !AllJsSpace(ws[..j])
        {
          assert p < j;
          assert ws[..j][p] == ws[p];
        }
      }
      None
  }

  /** `/^\r?\n/.test(s)` */
  predicate StartsWithLineBreak(s: string) {
    (|s| > 0 && s[0] == '\n') || (|s| > 1 && s[0] == '\r' && s[1] == '\n')
  }

  /** Three dots start at `i`. */
  predicate DotsAt(s: string, i: int) {
    0 <= i && i + 3 <= |s| && s[i] == '.' && s[i + 1] == '.' && s[i + 2] == '.'
  }

  /** `s.replace("...", "")`: the first `...` is removed. */
  function DropDots(s: string): (r: string)
    ensures (forall i :: !DotsAt(s, i)) ==> r == s
    ensures forall i | DotsAt(s, i) && (forall j | 0 <= j < i :: !DotsAt(s, j)) :: r == s[..i] + s[i + 3..]
  {
    DropDotsFrom(s, 0)
  }

  /** The search for the first `...` from position `k` on. */
  function DropDotsFrom(s: string, k: nat): (r: string)
    ensures (forall i | k <= i :: !DotsAt(s, i)) ==> r == s
    ensures forall i | k <= i && DotsAt(s, i) && (forall j | k <= j < i :: !DotsAt(s, j)) :: r == s[..i] + s[i + 3..]
    decreases |s| - k
  {
    if k + 3 > |s| then s
    else if DotsAt(s, k) then s[..k] + s[k + 3..]
    else DropDotsFrom(s, k + 1)
  }

  /** The message of the TypeError `.slice` on the missing text throws: in
      `OffsetText.slice` for a child, and in `splice` once the walk is done. */
  const NoSpreadText := "Cannot read properties of undefined (reading 'slice')"

  /** The message of the TypeError `jsx.charAt` on the missing text throws. */
  const NoCharAtText := "Cannot read properties of undefined (reading 'charAt')"

  /** `compileNode(node, jsx)`: the walk's edits spliced into `jsx`. */
  function CompileNode(c: Compiler, n: Node, jsx: OffsetText): Result<string>
    decreases NodeSize(n), 5, 0
  {
    var edits :- Walk(c, n, jsx);
    Ok(ApplyAll(jsx, edits))
  }

  /** The `replacements` the walk of `compileNode` pushes for `n`, in order,
      except that an empty fragment gets the corrected text `[]` of
      `FragmentText` where lib/js.js:89 writes `[[]]`. */
  function Walk(c: Compiler, n: Node, jsx: OffsetText): Result<seq<Edit>>
    decreases NodeSize(n), 4, 0
  {
    match n
    case Element(start, end, _, _, _, _) =>
      var t :- ElementText(c, n, jsx);
      Ok([Edit(start, end, t)])
    case Fragment(start, end, children) =>
      var t :- FragmentText(c, children, jsx);
      Ok([Edit(start, end, t)])
    case Container(start, end, e) =>
      var inner :- Walk(c, e, jsx);
      Ok([Edit(start, start + 1, "")] + inner + [Edit(end - 1, end, "")])
    case Script(_, _, _, kids) => WalkAll(c, kids, 0, [], jsx)
    case _ => Ok([])
  }

  /** The children array of a fragment as lib/js.js:89 writes it: the
      children text in brackets. With no children that text is already `[]`,
      so `<></>` becomes `[[]]`. */
  function FragmentTextAsWritten(c: Compiler, children: seq<Node>, jsx: OffsetText): Result<string>
    decreases NodesSize(children), 8, 0
  {
    var inner :- ChildrenText(c, children, jsx);
    var arr := "[" + inner + "]";
    Ok(if c.fragmentFactory.Some? then c.fragmentFactory.value + "(null, " + arr + ")" else arr)
  }

  /** The text of the `JSXFragment` case, with an empty fragment giving an
      empty array. */
  function FragmentText(c: Compiler, children: seq<Node>, jsx: OffsetText): Result<string>
    decreases NodesSize(children), 8, 0
  {
    var arr :-
      if children == [] then Ok("[]")
      else
        var inner :- ChildrenText(c, children, jsx);
        Ok("[" + inner + "]");
    Ok(if c.fragmentFactory.Some? then c.fragmentFactory.value + "(null, " + arr + ")" else arr)
  }

  /** `<></>` as written: an array holding an empty array. */
  lemma EmptyFragmentAsWritten(c: Compiler, jsx: OffsetText)
    ensures FragmentTextAsWritten(c, [], jsx) ==
      Ok(if c.fragmentFactory.Some? then c.fragmentFactory.value + "(null, [[]])" else "[[]]")
  {
    var none: seq<Node> := [];
    assert ChildrenText(c, none, jsx) == Ok("[]");
    var arr := "[" + "[]" + "]";
    assert arr == "[[]]";
    if c.fragmentFactory.Some? {
      assert c.fragmentFactory.value + "(null, " + arr + ")" == c.fragmentFactory.value + "(null, [[]])";
    }
  }

  /** An empty fragment denotes no children, as every non-empty one denotes
      exactly its children; the corrected text agrees with the source on
      every fragment that has children. */
  lemma FragmentTextCorrected(c: Compiler, children: seq<Node>, jsx: OffsetText)
    ensures children == [] ==>
      FragmentText(c, children, jsx) == Ok(if c.fragmentFactory.Some? then c.fragmentFactory.value + "(null, [])" else "[]")
    ensures children != [] ==> FragmentText(c, children, jsx) == FragmentTextAsWritten(c, children, jsx)
  {
    if children == [] && c.fragmentFactory.Some? {
      assert c.fragmentFactory.value + "(null, " + "[]" + ")" == c.fragmentFactory.value + "(null, [])";
    }
  }

  /** The walk over the nodes inside a plain JavaScript node, in order. */
  function WalkAll(c: Compiler, kids: seq<Node>, k: nat, acc: seq<Edit>, jsx: OffsetText): Result<seq<Edit>>
    requires k <= |kids|
    decreases NodesSize(kids), 4, |kids| - k
  {
    if k == |kids| then Ok(acc)
    else
      NodesSizeBounds(kids, k);
      var es :- Walk(c, kids[k], jsx);
      WalkAll(c, kids, k + 1, acc + es, jsx)
  }

  /** The start of the call: `factory("tag"`, `componentFactory(Path` or `Path(`. */
  function Head(c: Compiler, name: Name): Result<string> {
    if IsElementName(name) then
      var q :- RenderElementName(name);
      Ok(c.factory + "(" + q)
    else if c.componentFactory.Some? then
      var v :- RenderVariableName(name);
      Ok(c.componentFactory.value + "(" + v)
    else
      var v :- RenderVariableName(name);
      Ok(v + "(")
  }

  /** The text of the `JSXElement` case: the call with its attributes argument
      (or a `null` placeholder when only children follow) and its children. */
  function ElementText(c: Compiler, n: Node, jsx: OffsetText): Result<string>
    requires n.Element?
    decreases NodeSize(n), 3, 0
  {
    var called := IsElementName(n.name) || c.componentFactory.Some?;
    var head :- Head(c, n.name);
    var args :-
      if |n.attrs| > 0 then
        var from := n.name.end + (if jsx.CharAt(n.name.end) == " " then 1 else 0);
        var attrsJsx := jsx.Slice(from, Some(n.openEnd - 1)).DropClosingSlash();
        var attrsJs :- CompileAttributes(c, n.attrs, attrsJsx);
        Ok((if called then "," else "") +
          (if !called || StartsWithLineBreak(attrsJs) then attrsJs else " " + attrsJs))
      else if |n.children| > 0 then Ok(if called then ", null" else "null")
      else Ok("");
    var kids :-
      if |n.children| > 0 then
        var t :- ChildrenText(c, n.children, jsx);
        Ok(", [" + t + "]")
      else Ok("");
    Ok(head + args + kids + ")")
  }

  /** `compileChildren(children, jsx)`: each child rendered, then the comma rule. */
  function ChildrenText(c: Compiler, children: seq<Node>, jsx: OffsetText): Result<string>
    decreases NodesSize(children), 7, 0
  {
    if children == [] then Ok("[]")
    else
      var items :- RenderChildren(c, children, 0, [], jsx);
      Ok(Concat(Commas(items)))
  }

  /** The `js` array of `compileChildren` after the children before `k` were
      pushed onto `acc`. */
  function RenderChildren(c: Compiler, children: seq<Node>, k: nat, acc: seq<string>, jsx: OffsetText)
    : Result<seq<string>>
    requires k <= |children|
    decreases NodesSize(children), 6, |children| - k
  {
    if k == |children| then Ok(acc)
    else
      NodesSizeBounds(children, k);
      var item :- RenderChild(c, children, k, jsx);
      RenderChildren(c, children, k + 1, acc + [item], jsx)
  }

  /** What `compileChildren` pushes for the child at `k`. */
  function RenderChild(c: Compiler, children: seq<Node>, k: nat, jsx: OffsetText): Result<string>
    requires k < |children|
    decreases NodeSize(children[k]), 6, 0
  {
    var child := children[k];
    match child
    case Text(_, _, value) => TextChild(value, k == 0, k == |children| - 1)
    case Element(start, end, _, _, _, _) => CompileNode(c, child, jsx.Slice(start, Some(end)))
    case Container(start, end, _) => CompileNode(c, child, jsx.Slice(start, Some(end)))
    case _ => Err(InvalidChild(KindOf(child)))
  }

  /** `compileAttributes(attrs, jsx)`: one object literal per named run and the
      bare argument of each spread, merged by `assign(…)` when there are
      several groups, with a `{}` seed when the first is a spread. */
  function CompileAttributes(c: Compiler, attrs: seq<Attr>, jsx: OffsetText): Result<string>
    decreases AttrsSize(attrs), 7, 0
  {
    if attrs == [] then Ok(jsx.text + "null")
    else
      var groups :- Groups(attrs);
      GroupsSizeFlatten(groups);
      var body :- EmitGroups(c, groups, 0, AssignOpen(c, groups, jsx), 0, jsx);
      Ok(if |groups| > 1 then body + ")" else body)
  }

  /** What goes before the first group: `assign(` when there are several
      groups, and `{},` after it when the first group is a spread (then a
      space unless a line break leads the attributes). */
  function AssignOpen(c: Compiler, groups: seq<Group>, jsx: OffsetText): string {
    if |groups| <= 1 then ""
    else if groups[0].SpreadGroup? then
      c.assign + "(" + "{}," + (if LeadsWithNewline(jsx.text) then "" else " ")
    else c.assign + "("
  }

  /** The `groups.forEach` loop from group `gi` on, with the output so far and
      the current `whitespaceOffset`. */
  function EmitGroups(c: Compiler, groups: seq<Group>, gi: nat, out: string, wo: int, jsx: OffsetText)
    : Result<string>
    requires gi <= |groups|
    requires WellGrouped(groups)
    decreases GroupsSize(groups), 6, |groups| - gi
  {
    if gi == |groups| then Ok(out)
    else
      GroupsSizeBounds(groups, gi);
      var step :- EmitGroup(c, groups, gi, wo, jsx);
      EmitGroups(c, groups, gi + 1, out + (if gi > 0 then "," else "") + step.0, step.1, jsx)
  }

  /** The text of group `gi` and the `whitespaceOffset` after it. */
  function EmitGroup(c: Compiler, groups: seq<Group>, gi: nat, wo: int, jsx: OffsetText): Result<(string, int)>
    requires gi < |groups|
    requires WellGrouped(groups)
    decreases GroupsSize(groups), 6, 0
  {
    GroupsSizeBounds(groups, gi);
    var next := if gi + 1 < |groups| then groups[gi + 1].Start() else None;
    if groups[gi].Named? then EmitNamed(c, groups[gi].attrs, gi > 0, next, wo, jsx)
    else EmitSpread(c, groups[gi].spread, gi > 0, gi == |groups| - 1, wo, jsx)
  }

  /** One named run: the white space before it, `{`, the `key: value` pairs,
      what follows the last one up to the next group, and `}`; with the new
      `whitespaceOffset`. */
  function EmitNamed(c: Compiler, g: seq<Attr>, notFirst: bool, next: Option<int>, wo: int, jsx: OffsetText)
    : Result<(string, int)>
    requires |g| > 0 && forall k | 0 <= k < |g| :: g[k].Attribute?
    decreases AttrsSize(g), 5, 0
  {
    var lead := RunLead(jsx.Slice(wo, Some(g[0].start)).text, notFirst, wo, g[0].start);
    var pairs :- EmitAttrs(c, g, 0, "", lead.1, jsx);
    var lastEnd := g[|g| - 1].end;
    var rest := jsx.Slice(if jsx.CharAt(lastEnd) == " " then lastEnd + 1 else lastEnd, next).text;
    Ok((lead.0 + "{" + pairs.0 + rest + "}", if next.Some? && next.value != 0 then next.value else pairs.1))
  }

  /** What a run puts before its `{`, and the `whitespaceOffset` its first
      attribute starts from: with a line break in the white space `ws`
      before the run, the white space up to that break (or one space after a
      comma) and the position where the indentation of the break begins;
      otherwise `ws` itself, and the offset moved by the run's start. */
  function RunLead(ws: string, notFirst: bool, wo: int, first: int): (string, int) {
    match LeadingBreak(ws)
    case Some(m) => (if m.0 != "" then m.0 else if notFirst then " " else "", first - m.1)
    case None => (ws, wo + first)
  }

  /** The `key: value` pairs of a run from attribute `i` on, each after the
      source text that separates it from the previous one. */
  function EmitAttrs(c: Compiler, g: seq<Attr>, i: nat, out: string, wo: int, jsx: OffsetText)
    : Result<(string, int)>
    requires i <= |g| && forall k | 0 <= k < |g| :: g[k].Attribute?
    decreases AttrsSize(g), 4, |g| - i
  {
    if i == |g| then Ok((out, wo))
    else
      AttrsSizeBounds(g, i);
      var pair :- AttrPair(c, g[i], i > 0, wo, jsx);
      EmitAttrs(c, g, i + 1, out + pair, g[i].end, jsx)
  }

  /** What one named attribute adds to its run: a comma after the first, the
      source text since `whitespaceOffset`, and `key: value`, where a missing
      value is `true` and any other is compiled from its own source. */
  function AttrPair(c: Compiler, a: Attr, notFirst: bool, wo: int, jsx: OffsetText): Result<string>
    requires a.Attribute?
    decreases AttrSize(a), 3, 0
  {
    var gap := jsx.Slice(wo, Some(a.start)).text;
    var key :- RenderAttributeName(a.name);
    var value :-
      if a.value.None? then Ok("true")
      else CompileNode(c, a.value.value, jsx.Slice(a.value.value.start, Some(a.value.value.end)));
    Ok((if notFirst then "," else "") + gap + key + ": " + value)
  }

  /** One spread: the argument's raw source between the braces, without its
      `...`; a line break after the last group is kept. An argument holding
      JSX is walked by `compileNode(expr)` with no text at all, which throws
      the `SpreadError` of that argument. */
  function EmitSpread(c: Compiler, a: Attr, notFirst: bool, isLast: bool, wo: int, jsx: OffsetText): Result<(string, int)>
    requires a.Spread?
  {
    var arg := a.argument;
    if HasJsx(arg) then Err(SpreadError(c, arg))
    else
      var space := if notFirst && wo == a.start then " " else "";
      var gap := jsx.Slice(wo, Some(a.start)).text;
      var dots := DropDots(jsx.Slice(a.start + 1, Some(arg.start)).text);
      var expr := jsx.Slice(arg.start, Some(arg.end)).text;
      var close := jsx.Slice(arg.end, Some(a.end - 1)).text;
      var after := jsx.Slice(a.end, None).text;
      Ok((space + gap + dots + expr + close + (if isLast && HasNewline(after) then after else ""), a.end))
  }

  /** What `compileNode(expr)` with `jsx` undefined throws: the first error
      its walk meets, or else the TypeError of `splice` on the first edit. */
  function SpreadError(c: Compiler, arg: Node): Error {
    match BlindWalk(c, arg)
    case Some(e) => e
    case None => TypeError(NoSpreadText)
  }

  /** The walk of `compileNode` over a node with no source text: `None` when
      it ends without touching the text, else the error it throws first. An
      element throws its name's error, then reads `jsx.charAt` when it has
      attributes, then goes through its children; a fragment goes through its
      children; a container and a JavaScript node walk what they hold. */
  function BlindWalk(c: Compiler, n: Node): Option<Error>
    decreases NodeSize(n), 0, 0
  {
    match n
    case Element(_, _, _, name, attrs, children) =>
      (match Head(c, name)
       case Err(e) => Some(e)
       case Ok(_) => if |attrs| > 0 then Some(TypeError(NoCharAtText)) else BlindChildren(children, 0))
    case Fragment(_, _, children) => BlindChildren(children, 0)
    case Container(_, _, e) => BlindWalk(c, e)
    case Script(_, _, _, kids) => BlindWalkAll(c, kids, 0)
    case _ => None
  }

  /** The walk over the nodes inside a JavaScript node, from `k` on. */
  function BlindWalkAll(c: Compiler, kids: seq<Node>, k: nat): Option<Error>
    requires k <= |kids|
    decreases NodesSize(kids), 1, |kids| - k
  {
    if k == |kids| then None
    else
      NodesSizeBounds(kids, k);
      match BlindWalk(c, kids[k])
      case Some(e) => Some(e)
      case None => BlindWalkAll(c, kids, k + 1)
  }

  /** `compileChildren(children, undefined)` from child `k` on: text is
      compiled on its own, an element or a container slices the missing
      text, and any other child is invalid. */
  function BlindChildren(children: seq<Node>, k: nat): Option<Error>
    requires k <= |children|
    decreases |children| - k
  {
    if k == |children| then None
    else
      match children[k]
      case Text(_, _, value) =>
        (match TextChild(value, k == 0, k == |children| - 1)
         case Err(e) => Some(e)
         case Ok(_) => BlindChildren(children, k + 1))
      case Element(_, _, _, _, _, _) => Some(TypeError(NoSpreadText))
      case Container(_, _, _) => Some(TypeError(NoSpreadText))
      case _ => Some(InvalidChild(KindOf(children[k])))
  }
}
