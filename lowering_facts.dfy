/** What the lowering of lib/js.js guarantees: the walk's edits lie in
    document order inside the node, so compiling a node rewrites exactly the
    JSX in it and copies every other character; JavaScript without JSX comes
    back unchanged; and the shapes of calls, placeholders and merged
    attributes. */
module LoweringFacts {
  import opened Chars
  import opened Wrappers
  import opened Quoting
  import opened OffsetTexts
  import opened Splicing
  import opened Syntax
  import opened Names
  import opened TextChildren
  import opened Lowering

  /** The source ranges of a tree as a parser produces them: every node's
      range is well formed, the braces of a container enclose its
      expression, and the nodes inside a JavaScript node lie inside it in
      order without overlap. */
  predicate WellFormed(n: Node)
    decreases NodeSize(n)
  {
    && n.start <= n.end
    && match n
       case Container(start, end, e) =>
         start + 1 <= e.start && e.end <= end - 1 && WellFormed(e)
       case Script(start, end, _, kids) =>
         && (forall k | 0 <= k < |kids| :: start <= kids[k].start && kids[k].end <= end)
         && (forall i, j | 0 <= i < j < |kids| :: kids[i].end <= kids[j].start)
         && (forall k | 0 <= k < |kids| :: NodesSizeBounds(kids, k); WellFormed(kids[k]))
       case _ => true
  }

  lemma {:induction false} OrderedAppend(a: seq<Edit>, b: seq<Edit>, lo: int, mid: int, hi: int)
    requires lo <= mid <= hi
    requires Ordered(a, lo, mid) && Ordered(b, mid, hi)
    ensures Ordered(a + b, lo, hi)
    decreases |a|
  {
    if a == [] {
      assert a + b == b;
      OrderedWiden(b, mid, hi, lo, hi);
    } else {
      assert (a + b)[1..] == a[1..] + b;
      OrderedAppend(a[1..], b, a[0].end, mid, hi);
    }
  }

  lemma {:induction false} OrderedWiden(a: seq<Edit>, lo: int, hi: int, lo': int, hi': int)
    requires Ordered(a, lo, hi) && lo' <= lo && hi <= hi'
    ensures Ordered(a, lo', hi')
    decreases |a|
  {
    if a != [] {
      OrderedWiden(a[1..], a[0].end, hi, a[0].end, hi');
    }
  }

  /** The edits of a walk lie inside the node, in document order, without
      overlap. */
  lemma {:induction false} WalkOrdered(c: Compiler, n: Node, jsx: OffsetText)
    requires WellFormed(n)
    ensures Walk(c, n, jsx).Ok? ==> Ordered(Walk(c, n, jsx).value, n.start, n.end)
    decreases NodeSize(n), 1, 0
  {
    match n
    case Container(start, end, e) =>
      WalkOrdered(c, e, jsx);
      if Walk(c, e, jsx).Ok? {
        BracesOrdered(start, end, Walk(c, e, jsx).value, e.start, e.end);
      }
    case Script(start, end, _, kids) =>
      WalkAllOrdered(c, kids, 0, [], jsx, start, start, end);
    case _ =>
  }

  /** The edits of an expression container: its braces around the edits of
      what lies between them. */
  lemma BracesOrdered(start: int, end: int, inner: seq<Edit>, lo: int, hi: int)
    requires start + 1 <= lo <= hi <= end - 1
    requires Ordered(inner, lo, hi)
    ensures Ordered([Edit(start, start + 1, "")] + inner + [Edit(end - 1, end, "")], start, end)
  {
    OrderedWiden(inner, lo, hi, start + 1, end - 1);
    OrderedAppend([Edit(start, start + 1, "")], inner, start, start + 1, end - 1);
    OrderedAppend([Edit(start, start + 1, "")] + inner, [Edit(end - 1, end, "")], start, end - 1, end);
  }

  lemma {:induction false} WalkAllOrdered(c: Compiler, kids: seq<Node>, k: nat, acc: seq<Edit>, jsx: OffsetText,
    lo: int, p: int, hi: int)
    requires k <= |kids| && lo <= p <= hi
    requires Ordered(acc, lo, p)
    requires forall i | k <= i < |kids| :: WellFormed(kids[i]) && p <= kids[i].start && kids[i].end <= hi
    requires forall i, j | k <= i < j < |kids| :: kids[i].end <= kids[j].start
    ensures WalkAll(c, kids, k, acc, jsx).Ok? ==> Ordered(WalkAll(c, kids, k, acc, jsx).value, lo, hi)
    decreases NodesSize(kids), 1, |kids| - k
  {
    if k < |kids| {
      NodesSizeBounds(kids, k);
      var kid := kids[k];
      WalkOrdered(c, kid, jsx);
      if Walk(c, kid, jsx).Ok? {
        var es := Walk(c, kid, jsx).value;
        OrderedWiden(acc, lo, p, lo, kid.start);
        OrderedAppend(acc, es, lo, kid.start, kid.end);
        WalkAllOrdered(c, kids, k + 1, acc + es, jsx, lo, kid.end, hi);
      }
    } else {
      OrderedWiden(acc, lo, p, lo, hi);
    }
  }

  /** Compiling a node inside a text rewrites each JSX range the walk found
      and copies everything around and between those ranges verbatim. */
  lemma CompileNodeRebuilds(c: Compiler, n: Node, jsx: OffsetText)
    requires WellFormed(n)
    requires jsx.offset <= n.start && n.end <= jsx.End()
    ensures CompileNode(c, n, jsx).Ok? <==> Walk(c, n, jsx).Ok?
    ensures CompileNode(c, n, jsx).Ok? ==>
      && Ordered(Walk(c, n, jsx).value, jsx.offset, jsx.End())
      && CompileNode(c, n, jsx).value == Rebuilt(jsx.text, jsx.offset, jsx.offset, Walk(c, n, jsx).value)
  {
    WalkOrdered(c, n, jsx);
    if Walk(c, n, jsx).Ok? {
      var es := Walk(c, n, jsx).value;
      OrderedWiden(es, n.start, n.end, jsx.offset, jsx.End());
      ApplyAllRebuilds(jsx, es);
    }
  }

  /** The walk finds nothing to rewrite in a node without JSX. */
  lemma {:induction false} WalkWithoutJsx(c: Compiler, n: Node, jsx: OffsetText)
    requires !HasJsx(n)
    ensures Walk(c, n, jsx) == Ok([])
    decreases NodeSize(n), 1, 0
  {
    if n.Script? {
      WalkAllWithoutJsx(c, n.kids, 0, jsx);
    }
  }

  lemma {:induction false} WalkAllWithoutJsx(c: Compiler, kids: seq<Node>, k: nat, jsx: OffsetText)
    requires k <= |kids|
    requires forall i | 0 <= i < |kids| :: !HasJsx(kids[i])
    ensures WalkAll(c, kids, k, [], jsx) == Ok([])
    decreases NodesSize(kids), 1, |kids| - k
  {
    if k < |kids| {
      NodesSizeBounds(kids, k);
      WalkWithoutJsx(c, kids[k], jsx);
      var none: seq<Edit> := [];
      assert none + none == none;
      WalkAllWithoutJsx(c, kids, k + 1, jsx);
    }
  }

  /** JavaScript without JSX compiles to itself. */
  lemma CompileWithoutJsx(c: Compiler, n: Node, jsx: OffsetText)
    requires !HasJsx(n)
    ensures CompileNode(c, n, jsx) == Ok(jsx.text)
  {
    WalkWithoutJsx(c, n, jsx);
  }

  /** An element without attributes or children, alone in its text, becomes
      one call: the factory on the quoted tag name for an element (`<a />`,
      `<h1></h1>` and `<atom:feed />` become `Jsx("a")`, `Jsx("h1")` and
      `Jsx("atom:feed")`), and for a component its path called with no
      arguments (`<Person />` becomes `Person()`), or the component factory
      called on that path (`Jsx.Component(Person)`). */
  lemma BareElementCompiles(c: Compiler, name: Name, openEnd: int, src: string)
    ensures var r := CompileNode(c, Element(0, |src|, openEnd, name, [], []), OffsetText(src, 0));
      && (IsElementName(name) ==> (r.Ok? <==> QualifiedName(name).Ok?))
      && (IsElementName(name) && r.Ok? ==> r.value == c.factory + "(" + Quote(QualifiedName(name).value) + ")")
      && (!IsElementName(name) ==> (r.Ok? <==> RenderVariableName(name).Ok?))
      && (!IsElementName(name) && r.Ok? && c.componentFactory.None? ==>
            r.value == RenderVariableName(name).value + "()")
      && (!IsElementName(name) && r.Ok? && c.componentFactory.Some? ==>
            r.value == c.componentFactory.value + "(" + RenderVariableName(name).value + ")")
  {
    var n := Element(0, |src|, openEnd, name, [], []);
    var jsx := OffsetText(src, 0);
    BareElementText(c, n, jsx);
    if Head(c, name).Ok? {
      WholeSpanCompiles(c, n, src, Head(c, name).value + ")");
    }
  }

  /** An element with neither attributes nor children is its head, closed. */
  lemma BareElementText(c: Compiler, n: Node, jsx: OffsetText)
    requires n.Element? && n.attrs == [] && n.children == []
    ensures Head(c, n.name).Ok? ==> ElementText(c, n, jsx) == Ok(Head(c, n.name).value + ")")
    ensures Head(c, n.name).Err? ==> ElementText(c, n, jsx).Err?
  {
    var h := Head(c, n.name);
    if h.Ok? {
      assert h.value + "" + "" + ")" == h.value + ")";
    }
  }

  /** An element spanning the whole source compiles to its own text. */
  lemma WholeSpanCompiles(c: Compiler, n: Node, src: string, t: string)
    requires n.Element? && n.start == 0 && n.end == |src|
    requires ElementText(c, n, OffsetText(src, 0)) == Ok(t)
    ensures CompileNode(c, n, OffsetText(src, 0)) == Ok(t)
  {
    var jsx := OffsetText(src, 0);
    assert Walk(c, n, jsx) == Ok([Edit(0, |src|, t)]);
    WholeEditApplies(src, t);
  }

  /** One edit over the whole text replaces all of it. */
  lemma WholeEditApplies(src: string, t: string)
    ensures ApplyAll(OffsetText(src, 0), [Edit(0, |src|, t)]) == t
  {
    var es := [Edit(0, |src|, t)];
    ApplyFromStep(src, 0, 0, es);
    assert es[1..] == [];
    SpliceInRange(src, 0, |src|, t);
    assert src[..0] + t + src[|src|..] == t;
    assert ApplyFrom(t, |t| - |src|, 0, []) == t;
  }

  /** The groups loop only ever appends to the output it was given. */
  lemma {:induction false} EmitGroupsExtends(c: Compiler, groups: seq<Group>, gi: nat, out: string, wo: int, jsx: OffsetText)
    requires gi <= |groups| && WellGrouped(groups)
    ensures EmitGroups(c, groups, gi, out, wo, jsx).Ok? ==> IsPrefix(out, EmitGroups(c, groups, gi, out, wo, jsx).value)
    decreases |groups| - gi
  {
    if gi < |groups| {
      var step := EmitGroup(c, groups, gi, wo, jsx);
      if step.Ok? {
        var out' := out + (if gi > 0 then "," else "") + step.value.0;
        assert out'[..|out|] == out;
        EmitGroupsExtends(c, groups, gi + 1, out', step.value.1, jsx);
        if EmitGroups(c, groups, gi + 1, out', step.value.1, jsx).Ok? {
          PrefixTransitive(out, out', EmitGroups(c, groups, gi + 1, out', step.value.1, jsx).value);
        }
      }
    }
  }

  /** Attributes that form several groups are merged by one call of the
      `assign` function around all of them, seeded with a new object `{}`
      when the first attribute is a spread, so that the spread object is
      never written to. */
  lemma MergedAttributes(c: Compiler, attrs: seq<Attr>, jsx: OffsetText)
    ensures var r := CompileAttributes(c, attrs, jsx);
      && (attrs == [] ==> r == Ok(jsx.text + "null"))
      && (attrs != [] && Groups(attrs).Err? ==> r == Err(Groups(attrs).error))
      && (r.Ok? && attrs != [] && |Groups(attrs).value| > 1 ==>
            IsPrefix(c.assign + "(", r.value) && EndsWith(r.value, ")"))
      && (r.Ok? && attrs != [] && |Groups(attrs).value| > 1 && attrs[0].Spread? ==>
            IsPrefix(c.assign + "({},", r.value))
  {
    var r := CompileAttributes(c, attrs, jsx);
    if attrs != [] && Groups(attrs).Ok? {
      var groups := Groups(attrs).value;
      var open := AssignOpen(c, groups, jsx);
      GroupsSizeFlatten(groups);
      var body := EmitGroups(c, groups, 0, open, 0, jsx);
      EmitGroupsExtends(c, groups, 0, open, 0, jsx);
      if body.Ok? && |groups| > 1 {
        assert r.value == body.value + ")";
        AssignOpenPrefix(c, groups, jsx);
        ClosedPrefix(c.assign + "(", open, body.value);
        if attrs[0].Spread? {
          assert groups[0].SpreadGroup?;
          ClosedPrefix(c.assign + "({},", open, body.value);
        }
      }
    }
  }

  /** Several groups open with `assign(`, and with `assign({},` when the
      first is a spread. */
  lemma AssignOpenPrefix(c: Compiler, groups: seq<Group>, jsx: OffsetText)
    requires |groups| > 1
    ensures IsPrefix(c.assign + "(", AssignOpen(c, groups, jsx))
    ensures groups[0].SpreadGroup? ==> IsPrefix(c.assign + "({},", AssignOpen(c, groups, jsx))
  {
    var open := AssignOpen(c, groups, jsx);
    assert open[..|c.assign + "("|] == c.assign + "(";
    if groups[0].SpreadGroup? {
      assert open[..|c.assign + "({},"|] == c.assign + "({},";
    }
  }

  /** A prefix of the opening stays a prefix once the body is closed. */
  lemma ClosedPrefix(p: string, open: string, body: string)
    requires IsPrefix(p, open) && IsPrefix(open, body)
    ensures IsPrefix(p, body + ")") && EndsWith(body + ")", ")")
  {
    assert (body + ")")[..|open|] == open;
    PrefixTransitive(p, open, body + ")");
    assert (body + ")")[|body + ")"| - 1..] == ")";
  }

  /** With children but no attributes, `null` holds the place of the props:
      `, null` after an element's tag or a component factory's argument, a
      bare `null` as a plain component's first argument; the compiled
      children follow as an array. */
  lemma ChildrenWithoutAttributes(c: Compiler, n: Node, jsx: OffsetText)
    requires n.Element? && n.attrs == [] && n.children != []
    ensures var r := ElementText(c, n, jsx);
      && (r.Ok? <==> Head(c, n.name).Ok? && ChildrenText(c, n.children, jsx).Ok?)
      && (r.Ok? ==>
            r.value == Head(c, n.name).value
              + (if IsElementName(n.name) || c.componentFactory.Some? then ", null" else "null")
              + ", [" + ChildrenText(c, n.children, jsx).value + "])")
  {
  }

  /** An attribute without a value is written as its key with the value
      `true`, and the next attribute's leading text starts after it. */
  lemma ValuelessAttribute(c: Compiler, a: Attr, wo: int, jsx: OffsetText)
    requires a.Attribute? && a.value.None?
    ensures var r := EmitAttrs(c, [a], 0, "", wo, jsx);
      && (r.Ok? <==> QualifiedName(a.name).Ok?)
      && (r.Ok? ==> EndsWith(r.value.0, ": true") && r.value.1 == a.end)
  {
    if RenderAttributeName(a.name).Ok? {
      ValuelessOk(c, a, wo, jsx);
      EndsWithTrue(jsx.Slice(wo, Some(a.start)).text, RenderAttributeName(a.name).value);
    } else {
      ValuelessErr(c, a, wo, jsx);
    }
  }

  lemma ValuelessOk(c: Compiler, a: Attr, wo: int, jsx: OffsetText)
    requires a.Attribute? && a.value.None? && RenderAttributeName(a.name).Ok?
    ensures EmitAttrs(c, [a], 0, "", wo, jsx) ==
      Ok(("" + ("" + jsx.Slice(wo, Some(a.start)).text + RenderAttributeName(a.name).value + ": " + "true"), a.end))
  {
    var t := "" + ("" + jsx.Slice(wo, Some(a.start)).text + RenderAttributeName(a.name).value + ": " + "true");
    assert EmitAttrs(c, [a], 1, t, a.end, jsx) == Ok((t, a.end));
  }

  lemma EndsWithTrue(gap: string, key: string)
    ensures EndsWith("" + ("" + gap + key + ": " + "true"), ": true")
  {
    var t := "" + ("" + gap + key + ": " + "true");
    assert t == (gap + key) + ": true";
  }

  lemma ValuelessErr(c: Compiler, a: Attr, wo: int, jsx: OffsetText)
    requires a.Attribute? && a.value.None? && RenderAttributeName(a.name).Err?
    ensures EmitAttrs(c, [a], 0, "", wo, jsx).Err?
  {
  }

  /** A lone spread is not merged: no `assign` call and no seed, only the
      source text before the spread, the comments the `{...` leaves once its
      dots are dropped, the argument's source copied verbatim, what stands
      between the argument and `}`, and a trailing text that holds a line
      break. An argument holding JSX makes the source throw the error its
      walk meets with no text (`SpreadError`). */
  lemma LoneSpread(c: Compiler, a: Attr, jsx: OffsetText)
    requires a.Spread?
    ensures var r := CompileAttributes(c, [a], jsx);
      var after := jsx.Slice(a.end, None).text;
      && (HasJsx(a.argument) ==> r == Err(SpreadError(c, a.argument)))
      && (!HasJsx(a.argument) ==>
            r == Ok(jsx.Slice(0, Some(a.start)).text
                    + DropDots(jsx.Slice(a.start + 1, Some(a.argument.start)).text)
                    + jsx.Slice(a.argument.start, Some(a.argument.end)).text
                    + jsx.Slice(a.argument.end, Some(a.end - 1)).text
                    + (if HasNewline(after) then after else "")))
  {
    LoneSpreadText(c, a, jsx);
    var sp := EmitSpread(c, a, false, true, 0, jsx);
    if sp.Ok? {
      var gap := jsx.Slice(0, Some(a.start)).text;
      assert "" + gap == gap;
    }
  }

  /** An argument element whose name is refused throws that name's error
      before anything reads the missing text: the same error the element
      throws when it is compiled in place. */
  lemma SpreadNameError(c: Compiler, arg: Node, jsx: OffsetText)
    requires arg.Element? && Head(c, arg.name).Err?
    ensures SpreadError(c, arg) == Head(c, arg.name).error
    ensures Walk(c, arg, jsx) == Err(Head(c, arg.name).error)
  {
  }

  /** `<a {...<B.C.D />} />`: the argument's name is a member chain three
      deep, so the spread throws `Unsupported name node`, not a TypeError. */
  lemma SpreadOfDeepMember(c: Compiler, jsx: OffsetText)
    ensures var name := Member(8, 13, Member(8, 11, Ident(8, 9, "B"), Ident(10, 11, "C")), Ident(12, 13, "D"));
      CompileAttributes(c, [Spread(3, 17, Element(7, 16, 16, name, [], []))], jsx)
        == Err(UnsupportedName("JSXMemberExpression"))
  {
    var name := Member(8, 13, Member(8, 11, Ident(8, 9, "B"), Ident(10, 11, "C")), Ident(12, 13, "D"));
    var a := Spread(3, 17, Element(7, 16, 16, name, [], []));
    assert HasJsx(a.argument);
    assert !IsElementName(name);
    assert RenderVariableName(name) == Err(UnsupportedName("JSXMemberExpression"));
    LoneSpread(c, a, jsx);
  }

  /** `<a {...<b><></></b>} />`: the argument's child is a fragment, which
      `compileChildren` refuses before it would slice the missing text. */
  lemma SpreadOfFragmentChild(c: Compiler, jsx: OffsetText)
    ensures CompileAttributes(c, [Spread(3, 20, Element(7, 19, 10, Ident(8, 9, "b"), [], [Fragment(10, 15, [])]))], jsx)
      == Err(InvalidChild("JSXFragment"))
  {
    var a := Spread(3, 20, Element(7, 19, 10, Ident(8, 9, "b"), [], [Fragment(10, 15, [])]));
    assert HasJsx(a.argument);
    assert IsElementName(a.argument.name);
    assert BlindChildren(a.argument.children, 0) == Some(InvalidChild("JSXFragment"));
    LoneSpread(c, a, jsx);
  }

  lemma LoneSpreadGroup(a: Attr)
    requires a.Spread?
    ensures Groups([a]) == Ok([SpreadGroup(a)])
  {
    var attrs := [a];
    var none: seq<Attr> := [];
    var empty: seq<Group> := [];
    assert attrs[..|attrs| - 1] == none;
    assert Groups(none) == Ok(empty);
    assert empty + [SpreadGroup(a)] == [SpreadGroup(a)];
  }

  lemma LoneSpreadText(c: Compiler, a: Attr, jsx: OffsetText)
    requires a.Spread?
    ensures var sp := EmitSpread(c, a, false, true, 0, jsx);
      CompileAttributes(c, [a], jsx) == if sp.Ok? then Ok(sp.value.0) else Err(sp.error)
  {
    var gs := [SpreadGroup(a)];
    LoneSpreadGroup(a);
    GroupsSizeFlatten(gs);
    assert AssignOpen(c, gs, jsx) == "";
    var sp := EmitSpread(c, a, false, true, 0, jsx);
    assert EmitGroup(c, gs, 0, 0, jsx) == sp;
    if sp.Ok? {
      var out := "" + "" + sp.value.0;
      assert EmitGroups(c, gs, 1, out, sp.value.1, jsx) == Ok(out);
      assert out == sp.value.0;
    }
  }
}
