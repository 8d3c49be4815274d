/** The compiler of lib/js.js as it runs: the walk pushing onto
    `replacements`, the `forEach` loops of `compileAttributes` and
    `compileChildren` pushing onto `groups` and `js`, each proved to compute
    what the functions of `Lowering` define. Pieces pushed onto `js` and
    joined with "" are kept as one growing string. */
module Compiling {
  import opened Chars
  import opened Wrappers
  import opened OffsetTexts
  import opened Splicing
  import opened Syntax
  import opened Names
  import opened TextChildren
  import opened Lowering
  import opened AttributeFacts

  /** Once grouping a prefix has thrown, grouping the whole list throws the same. */
  lemma {:induction false} GroupsKeepError(attrs: seq<Attr>, k: nat)
    requires k <= |attrs|
    requires Groups(attrs[..k]).Err?
    ensures Groups(attrs) == Groups(attrs[..k])
    decreases |attrs| - k
  {
    if k < |attrs| {
      var init := attrs[..|attrs| - 1];
      assert init[..k] == attrs[..k];
      GroupsKeepError(init, k);
    } else {
      assert attrs[..k] == attrs;
    }
  }

  /** Grouping one more attribute is one more turn of the loop. */
  lemma GroupsSnoc(attrs: seq<Attr>, k: nat)
    requires k < |attrs| && Groups(attrs[..k]).Ok?
    ensures WellGrouped(Groups(attrs[..k]).value)
    ensures Groups(attrs[..k + 1]) == GroupStep(Groups(attrs[..k]).value, attrs[k])
  {
    assert attrs[..k + 1][..k] == attrs[..k];
  }

  /** The grouping `forEach` of `compileAttributes`. */
  method GroupAttributes(attrs: seq<Attr>) returns (r: Result<seq<Group>>)
    ensures r == Groups(attrs)
  {
    var groups: seq<Group> := [];
    var k := 0;
    while k < |attrs|
      invariant 0 <= k <= |attrs|
      invariant Groups(attrs[..k]) == Ok(groups)
    {
      var a := attrs[k];
      GroupsSnoc(attrs, k);
      if a.Attribute? {
        if |groups| > 0 && groups[|groups| - 1].Named? {
          groups := groups[..|groups| - 1] + [Named(groups[|groups| - 1].attrs + [a])];
        } else {
          groups := groups + [Named([a])];
        }
      } else if a.Spread? {
        groups := groups + [SpreadGroup(a)];
      } else {
        GroupsKeepError(attrs, k + 1);
        return Err(InvalidAttribute(a.kind));
      }
      k := k + 1;
    }
    assert attrs[..k] == attrs;
    r := Ok(groups);
  }

  /** `compileAttributes(attrs, jsx)` as the loops run it. */
  method CompileAttributesLoop(c: Compiler, attrs: seq<Attr>, jsx: OffsetText) returns (r: Result<string>)
    ensures r == CompileAttributes(c, attrs, jsx)
    ensures r.Ok? && attrs != [] ==> Groups(attrs).Ok?
    ensures r.Ok? && attrs != [] && |Groups(attrs).value| > 1 ==>
      var ws := jsx.Slice(0, Some(attrs[0].start)).text;
      && (attrs[0].Spread? ==>
            IsPrefix(c.assign + "({}," + (if LeadsWithNewline(jsx.text) then "" else " "), r.value))
      && (attrs[0].Attribute? ==>
            IsPrefix(c.assign + "(" + RunLead(ws, false, 0, attrs[0].start).0 + "{", r.value))
  {
    if |attrs| == 0 {
      return Ok(jsx.text + "null");
    }
    var grouped := GroupAttributes(attrs);
    if grouped.Err? {
      return Err(grouped.error);
    }
    var groups := grouped.value;
    var out := AssignOpen(c, groups, jsx);
    var wo := 0;
    var gi := 0;
    while gi < |groups|
      invariant 0 <= gi <= |groups|
      invariant EmitGroups(c, groups, gi, out, wo, jsx) == EmitGroups(c, groups, 0, AssignOpen(c, groups, jsx), 0, jsx)
    {
      var step := EmitGroupLoop(c, groups, gi, wo, jsx);
      if step.Err? {
        return Err(step.error);
      }
      out := out + (if gi > 0 then "," else "") + step.value.0;
      wo := step.value.1;
      gi := gi + 1;
    }
    r := Ok(if |groups| > 1 then out + ")" else out);
    SeedOnlyForSpread(c, attrs, jsx);
  }

  /** One group: a run of named attributes, or a spread. */
  method EmitGroupLoop(c: Compiler, groups: seq<Group>, gi: nat, wo: int, jsx: OffsetText)
    returns (r: Result<(string, int)>)
    requires gi < |groups|
    requires WellGrouped(groups)
    ensures r == EmitGroup(c, groups, gi, wo, jsx)
    ensures groups[gi].Named? ==>
      r == NamedRun(c, groups[gi].attrs, gi > 0, if gi + 1 < |groups| then groups[gi + 1].Start() else None, wo, jsx)
  {
    var next := if gi + 1 < |groups| then groups[gi + 1].Start() else None;
    if groups[gi].Named? {
      r := EmitNamedLoop(c, groups[gi].attrs, gi > 0, next, wo, jsx);
    } else {
      r := EmitSpread(c, groups[gi].spread, gi > 0, gi == |groups| - 1, wo, jsx);
    }
  }

  /** One run of named attributes: the inner `group.forEach`. */
  method EmitNamedLoop(c: Compiler, g: seq<Attr>, notFirst: bool, next: Option<int>, wo: int, jsx: OffsetText)
    returns (r: Result<(string, int)>)
    requires |g| > 0 && forall k | 0 <= k < |g| :: g[k].Attribute?
    ensures r == EmitNamed(c, g, notFirst, next, wo, jsx)
    ensures r == NamedRun(c, g, notFirst, next, wo, jsx)
  {
    var first := g[0].start;
    var ws := jsx.Slice(wo, Some(first)).text;
    var lead := RunLead(ws, notFirst, wo, first);
    var pairs := EmitAttrsLoop(c, g, lead.1, jsx);
    if pairs.Err? {
      return Err(pairs.error);
    }
    var offset := pairs.value.1;
    var lastEnd := g[|g| - 1].end;
    var rest := jsx.Slice(if jsx.CharAt(lastEnd) == " " then lastEnd + 1 else lastEnd, next).text;
    if next.Some? && next.value != 0 {
      offset := next.value;
    }
    r := Ok((lead.0 + "{" + pairs.value.0 + rest + "}", offset));
  }

  /** The `key: value` pairs of a run, each after the source text that
      separates it from the previous one. */
  method EmitAttrsLoop(c: Compiler, g: seq<Attr>, wo: int, jsx: OffsetText) returns (r: Result<(string, int)>)
    requires forall k | 0 <= k < |g| :: g[k].Attribute?
    ensures r == EmitAttrs(c, g, 0, "", wo, jsx)
    ensures r == match RunPairs(c, g, 0, wo, jsx)
      case Ok(t) => Ok((t, if g == [] then wo else g[|g| - 1].end))
      case Err(e) => Err(e)
  {
    var pairs := "";
    var offset := wo;
    var i := 0;
    while i < |g|
      invariant 0 <= i <= |g|
      invariant EmitAttrs(c, g, i, pairs, offset, jsx) == EmitAttrs(c, g, 0, "", wo, jsx)
    {
      var pair := AttrPair(c, g[i], i > 0, offset, jsx);
      EmitAttrsStep(c, g, i, pairs, offset, jsx);
      if pair.Err? {
        r := Err(pair.error);
        PairsAgree(c, g, wo, jsx, r);
        return;
      }
      pairs := pairs + pair.value;
      offset := g[i].end;
      i := i + 1;
    }
    r := Ok((pairs, offset));
    PairsAgree(c, g, wo, jsx, r);
  }

  /** The pair emission, read as each pair written on its own. */
  lemma PairsAgree(c: Compiler, g: seq<Attr>, wo: int, jsx: OffsetText, r: Result<(string, int)>)
    requires forall k | 0 <= k < |g| :: g[k].Attribute?
    requires r == EmitAttrs(c, g, 0, "", wo, jsx)
    ensures r == match RunPairs(c, g, 0, wo, jsx)
      case Ok(t) => Ok((t, if g == [] then wo else g[|g| - 1].end))
      case Err(e) => Err(e)
  {
    EmitAttrsPairs(c, g, 0, "", wo, jsx);
    if RunPairs(c, g, 0, wo, jsx).Ok? {
      assert "" + RunPairs(c, g, 0, wo, jsx).value == RunPairs(c, g, 0, wo, jsx).value;
    }
  }

  /** One attribute of a run: its pair is appended, or its error ends the run. */
  lemma EmitAttrsStep(c: Compiler, g: seq<Attr>, i: nat, out: string, wo: int, jsx: OffsetText)
    requires i < |g| && forall k | 0 <= k < |g| :: g[k].Attribute?
    ensures var p := AttrPair(c, g[i], i > 0, wo, jsx);
      EmitAttrs(c, g, i, out, wo, jsx) ==
        if p.Err? then Err(p.error) else EmitAttrs(c, g, i + 1, out + p.value, g[i].end, jsx)
  {
  }

  /** `compileChildren(children, jsx)`: the `forEach` pushing onto `js`, then
      the comma `map` and the join. */
  method CompileChildrenLoop(c: Compiler, children: seq<Node>, jsx: OffsetText) returns (r: Result<string>)
    ensures r == ChildrenText(c, children, jsx)
  {
    if |children| == 0 {
      return Ok("[]");
    }
    var js: seq<string> := [];
    var k := 0;
    while k < |children|
      invariant 0 <= k <= |children|
      invariant RenderChildren(c, children, k, js, jsx) == RenderChildren(c, children, 0, [], jsx)
    {
      var item := RenderChild(c, children, k, jsx);
      if item.Err? {
        return Err(item.error);
      }
      js := js + [item.value];
      k := k + 1;
    }
    var marked := CommasLoop(js);
    r := Ok(Concat(marked));
  }

  /** The comma `map` of `compileChildren`. */
  method CommasLoop(js: seq<string>) returns (marked: seq<string>)
    ensures marked == Commas(js)
  {
    marked := [];
    var i := 0;
    while i < |js|
      invariant 0 <= i <= |js|
      invariant marked == Commas(js)[..i]
    {
      var el := if Exempt(js, i) then js[i] else WithComma(js[i], js[i + 1]);
      CommasSnoc(js, i);
      marked := marked + [el];
      i := i + 1;
    }
    assert marked == Commas(js);
  }

  /** The comma rule, one more item. */
  lemma CommasSnoc(js: seq<string>, i: nat)
    requires i < |js|
    ensures Commas(js)[..i + 1] ==
      Commas(js)[..i] + [if Exempt(js, i) then js[i] else WithComma(js[i], js[i + 1])]
  {
    CommasAt(js, i);
    TakeSnoc(Commas(js), i);
  }

  lemma CommasAt(js: seq<string>, i: nat)
    requires i < |js|
    ensures Commas(js)[i] == if Exempt(js, i) then js[i] else WithComma(js[i], js[i + 1])
  {
    assert Commas(js)[i] == CommaAt(js, i);
  }

  lemma TakeSnoc(r: seq<string>, i: nat)
    requires i < |r|
    ensures r[..i + 1] == r[..i] + [r[i]]
  {
  }

  /** The walk of `compileNode`, pushing each node's edits onto `replacements`;
      an empty fragment gets the corrected text `[]`, as in `Lowering.Walk`. */
  method WalkInto(c: Compiler, n: Node, jsx: OffsetText, replacements: seq<Edit>) returns (r: Result<seq<Edit>>)
    ensures Walk(c, n, jsx).Ok? ==> r == Ok(replacements + Walk(c, n, jsx).value)
    ensures Walk(c, n, jsx).Err? ==> r == Walk(c, n, jsx)
    decreases NodeSize(n), 1
  {
    match n
    case Element(start, end, _, _, _, _) =>
      var t := ElementText(c, n, jsx);
      if t.Err? {
        return Err(t.error);
      }
      r := Ok(replacements + [Edit(start, end, t.value)]);
    case Fragment(start, end, children) =>
      var t := FragmentText(c, children, jsx);
      if t.Err? {
        return Err(t.error);
      }
      r := Ok(replacements + [Edit(start, end, t.value)]);
    case Container(start, end, e) =>
      var inner := WalkInto(c, e, jsx, replacements + [Edit(start, start + 1, "")]);
      if inner.Err? {
        assert Walk(c, n, jsx) == inner;
        return inner;
      }
      r := Ok(inner.value + [Edit(end - 1, end, "")]);
      assert replacements + [Edit(start, start + 1, "")] + Walk(c, e, jsx).value + [Edit(end - 1, end, "")]
        == replacements + ([Edit(start, start + 1, "")] + Walk(c, e, jsx).value + [Edit(end - 1, end, "")]);
    case Script(_, _, _, kids) =>
      r := WalkAllInto(c, kids, jsx, replacements);
      assert Walk(c, n, jsx) == WalkAll(c, kids, 0, [], jsx);
    case _ =>
      assert replacements + Walk(c, n, jsx).value == replacements;
      r := Ok(replacements);
  }

  /** The walk over a list of nodes, in order, each pushing onto the same
      `replacements`. */
  method WalkAllInto(c: Compiler, kids: seq<Node>, jsx: OffsetText, replacements: seq<Edit>) returns (r: Result<seq<Edit>>)
    ensures WalkAll(c, kids, 0, [], jsx).Ok? ==> r == Ok(replacements + WalkAll(c, kids, 0, [], jsx).value)
    ensures WalkAll(c, kids, 0, [], jsx).Err? ==> r == WalkAll(c, kids, 0, [], jsx)
    decreases NodesSize(kids), 2
  {
    var acc := replacements;
    var k := 0;
    assert acc[|replacements|..] == [];
    while k < |kids|
      invariant 0 <= k <= |kids|
      invariant |replacements| <= |acc| && acc[..|replacements|] == replacements
      invariant WalkAll(c, kids, k, acc[|replacements|..], jsx) == WalkAll(c, kids, 0, [], jsx)
    {
      NodesSizeBounds(kids, k);
      var more := WalkInto(c, kids[k], jsx, acc);
      if more.Err? {
        assert WalkAll(c, kids, k, acc[|replacements|..], jsx) == more;
        return more;
      }
      assert (acc + Walk(c, kids[k], jsx).value)[|replacements|..] == acc[|replacements|..] + Walk(c, kids[k], jsx).value;
      acc := more.value;
      k := k + 1;
    }
    assert acc == replacements + acc[|replacements|..];
    r := Ok(acc);
  }

  /** `compileNode(node, jsx)`: walk, then splice. */
  method CompileNodeLoop(c: Compiler, n: Node, jsx: OffsetText) returns (r: Result<string>)
    ensures r == CompileNode(c, n, jsx)
  {
    var edits := WalkInto(c, n, jsx, []);
    if edits.Err? {
      return Err(edits.error);
    }
    assert [] + Walk(c, n, jsx).value == Walk(c, n, jsx).value;
    var text := ApplyReplacements(jsx, edits.value);
    r := Ok(text);
  }
}
