/** What `compileAttributes` of lib/js.js writes: a run of named attributes
    is an object literal `{key: value, …}` whose pairs each follow the source
    text since the previous attribute; a lone spread is its argument's source;
    several groups are merged by one `assign(…)` call, seeded with `{}` exactly
    when the first group is a spread. */
module AttributeFacts {
  import opened Chars
  import opened Wrappers
  import opened Quoting
  import opened OffsetTexts
  import opened Splicing
  import opened Syntax
  import opened Names
  import opened TextChildren
  import opened Lowering
  import opened LoweringFacts

  /** Where the source text before attribute `i` of a run begins: at `wo`
      for the first attribute, at the end of the previous one after it. */
  function PrevEnd(g: seq<Attr>, i: nat, wo: int): int
    requires i <= |g|
  {
    if i == 0 then wo else g[i - 1].end
  }

  /** The pairs of a run from attribute `i` on, each written on its own:
      a comma after the first, the source text since the previous attribute
      ended, and `key: value`. */
  function RunPairs(c: Compiler, g: seq<Attr>, i: nat, wo: int, jsx: OffsetText): Result<string>
    requires i <= |g| && forall k | 0 <= k < |g| :: g[k].Attribute?
    decreases |g| - i
  {
    if i == |g| then Ok("")
    else
      var p :- AttrPair(c, g[i], i > 0, PrevEnd(g, i, wo), jsx);
      var rest :- RunPairs(c, g, i + 1, wo, jsx);
      Ok(p + rest)
  }

  /** The inner `group.forEach`, which threads `whitespaceOffset` from one
      attribute to the next, writes each pair as if on its own, in order, and
      leaves the offset at the end of the run's last attribute; it throws
      the first error a pair throws. */
  lemma {:induction false} EmitAttrsPairs(c: Compiler, g: seq<Attr>, i: nat, out: string, wo: int, jsx: OffsetText)
    requires i <= |g| && forall k | 0 <= k < |g| :: g[k].Attribute?
    ensures EmitAttrs(c, g, i, out, PrevEnd(g, i, wo), jsx) ==
      match RunPairs(c, g, i, wo, jsx)
      case Ok(t) => Ok((out + t, PrevEnd(g, |g|, wo)))
      case Err(e) => Err(e)
    decreases |g| - i
  {
    if i < |g| {
      var p := AttrPair(c, g[i], i > 0, PrevEnd(g, i, wo), jsx);
      if p.Ok? {
        assert PrevEnd(g, i + 1, wo) == g[i].end;
        EmitAttrsPairs(c, g, i + 1, out + p.value, wo, jsx);
        var rest := RunPairs(c, g, i + 1, wo, jsx);
        if rest.Ok? {
          Assoc(out, p.value, rest.value);
        }
      }
    } else {
      assert out + "" == out;
    }
  }

  /** A named run is written as the white space the source keeps before it,
      then `{`, its pairs, the source text after its last attribute up to the
      next group, and `}`; `whitespaceOffset` moves to the next group's start,
      or stays at the end of the run's last attribute. */
  function NamedRun(c: Compiler, g: seq<Attr>, notFirst: bool, next: Option<int>, wo: int, jsx: OffsetText)
    : Result<(string, int)>
    requires |g| > 0 && forall k | 0 <= k < |g| :: g[k].Attribute?
  {
    var lead := RunLead(jsx.Slice(wo, Some(g[0].start)).text, notFirst, wo, g[0].start);
    var lastEnd := g[|g| - 1].end;
    var rest := jsx.Slice(if jsx.CharAt(lastEnd) == " " then lastEnd + 1 else lastEnd, next).text;
    var t :- RunPairs(c, g, 0, lead.1, jsx);
    Ok((lead.0 + "{" + t + rest + "}", if next.Some? && next.value != 0 then next.value else lastEnd))
  }

  lemma NamedRunText(c: Compiler, g: seq<Attr>, notFirst: bool, next: Option<int>, wo: int, jsx: OffsetText)
    requires |g| > 0 && forall k | 0 <= k < |g| :: g[k].Attribute?
    ensures EmitNamed(c, g, notFirst, next, wo, jsx) == NamedRun(c, g, notFirst, next, wo, jsx)
  {
    var lead := RunLead(jsx.Slice(wo, Some(g[0].start)).text, notFirst, wo, g[0].start);
    var lastEnd := g[|g| - 1].end;
    var rest := jsx.Slice(if jsx.CharAt(lastEnd) == " " then lastEnd + 1 else lastEnd, next).text;
    assert PrevEnd(g, 0, lead.1) == lead.1;
    assert PrevEnd(g, |g|, lead.1) == lastEnd;
    EmitAttrsPairs(c, g, 0, "", lead.1, jsx);
    NamedUnfolds(c, g, notFirst, next, wo, jsx, lead, rest);
    SameRun(EmitAttrs(c, g, 0, "", lead.1, jsx), RunPairs(c, g, 0, lead.1, jsx), lead.0, rest, next, lastEnd,
      EmitNamed(c, g, notFirst, next, wo, jsx), NamedRun(c, g, notFirst, next, wo, jsx));
  }

  /** The two ways of writing a run agree once the pairs agree. */
  lemma SameRun(e: Result<(string, int)>, t: Result<string>, lead: string, rest: string, next: Option<int>,
                lastEnd: int, x: Result<(string, int)>, y: Result<(string, int)>)
    requires e == match t case Ok(v) => Ok(("" + v, lastEnd)) case Err(er) => Err(er)
    requires x == match e
      case Ok(p) => Ok((lead + "{" + p.0 + rest + "}", if next.Some? && next.value != 0 then next.value else p.1))
      case Err(er) => Err(er)
    requires y == match t
      case Ok(v) => Ok((lead + "{" + v + rest + "}", if next.Some? && next.value != 0 then next.value else lastEnd))
      case Err(er) => Err(er)
    ensures x == y
  {
    if t.Ok? {
      assert "" + t.value == t.value;
    }
  }

  /** `EmitNamed` and `NamedRun` unfolded, over the same lead and rest. */
  lemma NamedUnfolds(c: Compiler, g: seq<Attr>, notFirst: bool, next: Option<int>, wo: int, jsx: OffsetText,
                     lead: (string, int), rest: string)
    requires |g| > 0 && forall k | 0 <= k < |g| :: g[k].Attribute?
    requires lead == RunLead(jsx.Slice(wo, Some(g[0].start)).text, notFirst, wo, g[0].start)
    requires var lastEnd := g[|g| - 1].end;
      rest == jsx.Slice(if jsx.CharAt(lastEnd) == " " then lastEnd + 1 else lastEnd, next).text
    ensures EmitNamed(c, g, notFirst, next, wo, jsx) ==
      match EmitAttrs(c, g, 0, "", lead.1, jsx)
      case Ok(p) => Ok((lead.0 + "{" + p.0 + rest + "}", if next.Some? && next.value != 0 then next.value else p.1))
      case Err(e) => Err(e)
    ensures NamedRun(c, g, notFirst, next, wo, jsx) ==
      match RunPairs(c, g, 0, lead.1, jsx)
      case Ok(t) => Ok((lead.0 + "{" + t + rest + "}", if next.Some? && next.value != 0 then next.value else g[|g| - 1].end))
      case Err(e) => Err(e)
  {
    RunUnfolds(c, g, notFirst, next, wo, jsx, lead, rest);
  }

  /** `NamedRun` unfolded. */
  lemma RunUnfolds(c: Compiler, g: seq<Attr>, notFirst: bool, next: Option<int>, wo: int, jsx: OffsetText,
                   lead: (string, int), rest: string)
    requires |g| > 0 && forall k | 0 <= k < |g| :: g[k].Attribute?
    requires lead == RunLead(jsx.Slice(wo, Some(g[0].start)).text, notFirst, wo, g[0].start)
    requires var lastEnd := g[|g| - 1].end;
      rest == jsx.Slice(if jsx.CharAt(lastEnd) == " " then lastEnd + 1 else lastEnd, next).text
    ensures NamedRun(c, g, notFirst, next, wo, jsx) ==
      match RunPairs(c, g, 0, lead.1, jsx)
      case Ok(t) => Ok((lead.0 + "{" + t + rest + "}", if next.Some? && next.value != 0 then next.value else g[|g| - 1].end))
      case Err(e) => Err(e)
  {
  }

  /** A value without JSX, such as a string literal, is copied verbatim from
      the source after `key: `: `name="age"` is written `name: "age"`. */
  lemma PlainValuePair(c: Compiler, a: Attr, notFirst: bool, wo: int, jsx: OffsetText)
    requires a.Attribute? && a.value.Some? && !HasJsx(a.value.value)
    ensures var r := AttrPair(c, a, notFirst, wo, jsx);
      && (r.Ok? <==> QualifiedName(a.name).Ok?)
      && (r.Ok? ==>
            r.value == (if notFirst then "," else "") + jsx.Slice(wo, Some(a.start)).text
              + RenderAttributeName(a.name).value + ": "
              + jsx.Slice(a.value.value.start, Some(a.value.value.end)).text)
  {
    var v := a.value.value;
    CompileWithoutJsx(c, v, jsx.Slice(v.start, Some(v.end)));
  }

  /** The pairs of a run whose first attribute starts where the text before
      it ends begin with that attribute's key: no comma, no gap. */
  lemma FirstPairKey(c: Compiler, g: seq<Attr>, jsx: OffsetText)
    requires |g| > 0 && forall k | 0 <= k < |g| :: g[k].Attribute?
    requires 0 <= g[0].start && RunPairs(c, g, 0, g[0].start, jsx).Ok?
    ensures RenderAttributeName(g[0].name).Ok?
    ensures IsPrefix(RenderAttributeName(g[0].name).value, RunPairs(c, g, 0, g[0].start, jsx).value)
  {
    var s := g[0].start;
    assert PrevEnd(g, 0, s) == s;
    var p := AttrPair(c, g[0], false, s, jsx);
    var rest := RunPairs(c, g, 1, s, jsx);
    assert p.Ok? && rest.Ok? && RunPairs(c, g, 0, s, jsx).value == p.value + rest.value;
    EmptyGap(jsx, s);
    PairStartsWithKey(c, g[0], s, jsx);
    PrefixOfPrefix(RenderAttributeName(g[0].name).value, p.value, rest.value);
  }

  lemma PrefixOfPrefix(key: string, p: string, rest: string)
    requires IsPrefix(key, p)
    ensures IsPrefix(key, p + rest)
  {
    assert (p + rest)[..|key|] == p[..|key|];
  }

  /** `{` and a key that begins the pairs begin the run when nothing is kept
      before it. */
  lemma KeyLeads(lead: string, key: string, pairs: string, rest: string)
    requires lead == "" && IsPrefix(key, pairs)
    ensures IsPrefix("{" + key, lead + "{" + pairs + rest + "}")
  {
    assert (lead + "{" + pairs + rest + "}")[..|"{" + key|] == "{" + pairs[..|key|];
  }

  lemma RunPrefix(lead: string, pairs: string, rest: string)
    ensures IsPrefix(lead + "{", lead + "{" + pairs + rest + "}")
  {
    assert (lead + "{" + pairs + rest + "}")[..|lead + "{"|] == lead + "{";
  }

  /** No white space before a run leaves nothing before its `{`. */
  lemma EmptyLead(notFirst: bool, s: int)
    ensures RunLead("", notFirst, 0, s) == ("", s)
  {
  }

  /** Slicing from a position to itself gives nothing. */
  lemma EmptyGap(jsx: OffsetText, s: int)
    requires 0 <= s
    ensures jsx.Slice(s, Some(s)).text == ""
  {
  }

  /** The first pair of a run starts with its key. */
  lemma PairStartsWithKey(c: Compiler, a: Attr, s: int, jsx: OffsetText)
    requires a.Attribute? && jsx.Slice(s, Some(a.start)).text == ""
    requires AttrPair(c, a, false, s, jsx).Ok?
    ensures RenderAttributeName(a.name).Ok?
    ensures IsPrefix(RenderAttributeName(a.name).value, AttrPair(c, a, false, s, jsx).value)
  {
    var key := RenderAttributeName(a.name).value;
    var value :=
      if a.value.None? then Ok("true")
      else CompileNode(c, a.value.value, jsx.Slice(a.value.value.start, Some(a.value.value.end)));
    assert AttrPair(c, a, false, s, jsx).value == "" + "" + key + ": " + value.value;
    KeyFirst(key, value.value);
  }

  lemma KeyFirst(key: string, v: string)
    ensures IsPrefix(key, "" + "" + key + ": " + v)
  {
    assert ("" + "" + key + ": " + v)[..|key|] == key;
  }

  /** The first attribute is held by the first group. */
  lemma FirstGroupHoldsFirst(attrs: seq<Attr>)
    requires attrs != [] && Groups(attrs).Ok?
    ensures var gs := Groups(attrs).value;
      && gs != []
      && (attrs[0].Spread? <==> gs[0].SpreadGroup?)
      && (gs[0].Named? ==> gs[0].attrs[0] == attrs[0])
  {
    var gs := Groups(attrs).value;
    assert gs != [] by {
      assert Flatten(gs) == attrs;
    }
    assert WellGroup(gs[0]);
    assert Flatten(gs) == Members(gs[0]) + Flatten(gs[1..]);
    assert attrs[0] == Members(gs[0])[0];
  }

  /** One step of the groups loop. */
  lemma GroupsStep(c: Compiler, gs: seq<Group>, gi: nat, out: string, wo: int, jsx: OffsetText)
    requires gi < |gs| && WellGrouped(gs) && EmitGroup(c, gs, gi, wo, jsx).Ok?
    ensures var step := EmitGroup(c, gs, gi, wo, jsx).value;
      EmitGroups(c, gs, gi, out, wo, jsx) ==
        EmitGroups(c, gs, gi + 1, out + (if gi > 0 then "," else "") + step.0, step.1, jsx)
  {
  }

  /** The groups loop begins its output with what it was given and the first
      group's text. */
  lemma FirstGroupLeads(c: Compiler, groups: seq<Group>, out: string, jsx: OffsetText)
    requires WellGrouped(groups) && |groups| > 0
    requires EmitGroups(c, groups, 0, out, 0, jsx).Ok?
    ensures EmitGroup(c, groups, 0, 0, jsx).Ok?
    ensures IsPrefix(out + EmitGroup(c, groups, 0, 0, jsx).value.0, EmitGroups(c, groups, 0, out, 0, jsx).value)
  {
    var step := EmitGroup(c, groups, 0, 0, jsx).value;
    GroupsStep(c, groups, 0, out, 0, jsx);
    EmitGroupsExtends(c, groups, 1, out + "" + step.0, step.1, jsx);
    NoComma(out, step.0, EmitGroups(c, groups, 0, out, 0, jsx).value);
  }

  lemma NoComma(out: string, t: string, r: string)
    requires IsPrefix(out + "" + t, r)
    ensures IsPrefix(out + t, r)
  {
    assert out + "" + t == out + t;
  }

  /** The result of `compileAttributes` for attributes that group: the
      opening, the groups, and `)` when there are several. */
  lemma AttributesBody(c: Compiler, attrs: seq<Attr>, jsx: OffsetText)
    requires attrs != [] && CompileAttributes(c, attrs, jsx).Ok?
    ensures Groups(attrs).Ok?
    ensures var gs := Groups(attrs).value;
      var body := EmitGroups(c, gs, 0, AssignOpen(c, gs, jsx), 0, jsx);
      && body.Ok?
      && CompileAttributes(c, attrs, jsx).value == if |gs| > 1 then body.value + ")" else body.value
  {
    GroupsSizeFlatten(Groups(attrs).value);
  }

  /** The `{}` seed is written exactly when the first group is a spread:
      with several groups, the output opens `assign({},` (and a space unless
      a line break leads the attributes) when the first attribute is a
      spread, and otherwise `assign(` followed directly by the first run,
      whose `{` comes after only the white space kept before it; when the
      text begins with that first attribute, the output opens with
      `assign({` and its key. */
  lemma SeedOnlyForSpread(c: Compiler, attrs: seq<Attr>, jsx: OffsetText)
    requires attrs != [] && CompileAttributes(c, attrs, jsx).Ok?
    ensures Groups(attrs).Ok?
    ensures var r := CompileAttributes(c, attrs, jsx).value;
      var several := |Groups(attrs).value| > 1;
      var ws := jsx.Slice(0, Some(attrs[0].start)).text;
      && (several && attrs[0].Spread? ==>
            IsPrefix(c.assign + "({}," + (if LeadsWithNewline(jsx.text) then "" else " "), r))
      && (several && attrs[0].Attribute? ==>
            IsPrefix(c.assign + "(" + RunLead(ws, false, 0, attrs[0].start).0 + "{", r))
      && (several && attrs[0].Attribute? && 0 <= attrs[0].start && ws == "" ==>
            RenderAttributeName(attrs[0].name).Ok? &&
            IsPrefix(c.assign + "({" + RenderAttributeName(attrs[0].name).value, r))
  {
    AttributesBody(c, attrs, jsx);
    FirstGroupHoldsFirst(attrs);
    var gs := Groups(attrs).value;
    if |gs| > 1 {
      if attrs[0].Spread? {
        SpreadSeed(c, gs, jsx);
      } else {
        NamedUnseeded(c, gs, jsx);
      }
    }
  }

  /** Several groups after a first spread open with the seed. */
  lemma SpreadSeed(c: Compiler, gs: seq<Group>, jsx: OffsetText)
    requires WellGrouped(gs) && |gs| > 1 && gs[0].SpreadGroup?
    requires EmitGroups(c, gs, 0, AssignOpen(c, gs, jsx), 0, jsx).Ok?
    ensures IsPrefix(c.assign + "({}," + (if LeadsWithNewline(jsx.text) then "" else " "),
      EmitGroups(c, gs, 0, AssignOpen(c, gs, jsx), 0, jsx).value + ")")
  {
    var open := AssignOpen(c, gs, jsx);
    var space := if LeadsWithNewline(jsx.text) then "" else " ";
    assert open == c.assign + "(" + "{}," + space;
    FirstGroupLeads(c, gs, open, jsx);
    OpenLeads(open, EmitGroup(c, gs, 0, 0, jsx).value.0, EmitGroups(c, gs, 0, open, 0, jsx).value);
    Seeded(c.assign, space, EmitGroups(c, gs, 0, open, 0, jsx).value + ")");
  }

  lemma Seeded(assign: string, space: string, r: string)
    requires IsPrefix(assign + "(" + "{}," + space, r)
    ensures IsPrefix(assign + "({}," + space, r)
  {
    assert assign + "(" + "{}," + space == assign + "({}," + space;
  }

  lemma OpenLeads(open: string, t0: string, body: string)
    requires IsPrefix(open + t0, body)
    ensures IsPrefix(open, body + ")")
  {
    ClosedPrefix(open + t0, open + t0, body);
    PrefixOfSum(open, t0, body + ")");
  }

  /** Several groups after a first named attribute open with `assign(` and
      the first run. */
  lemma NamedUnseeded(c: Compiler, gs: seq<Group>, jsx: OffsetText)
    requires WellGrouped(gs) && |gs| > 1 && gs[0].Named?
    requires EmitGroups(c, gs, 0, AssignOpen(c, gs, jsx), 0, jsx).Ok?
    ensures var r := EmitGroups(c, gs, 0, AssignOpen(c, gs, jsx), 0, jsx).value + ")";
      var a := gs[0].attrs[0];
      var ws := jsx.Slice(0, Some(a.start)).text;
      && IsPrefix(c.assign + "(" + RunLead(ws, false, 0, a.start).0 + "{", r)
      && (0 <= a.start && ws == "" ==>
            RenderAttributeName(a.name).Ok? &&
            IsPrefix(c.assign + "({" + RenderAttributeName(a.name).value, r))
  {
    assert WellGroup(gs[0]);
    var a := gs[0].attrs[0];
    var open := AssignOpen(c, gs, jsx);
    assert open == c.assign + "(";
    var body := EmitGroups(c, gs, 0, open, 0, jsx).value;
    FirstGroupLeads(c, gs, open, jsx);
    var t0 := EmitGroup(c, gs, 0, 0, jsx).value.0;
    NamedFirstText(c, gs, jsx);
    var ws := jsx.Slice(0, Some(a.start)).text;
    var lead := RunLead(ws, false, 0, a.start).0;
    AssignLeads(c.assign, lead + "{", t0, body);
    AssignLeadsRun(c.assign, lead, t0, body);
    if 0 <= a.start && ws == "" {
      var key := RenderAttributeName(a.name).value;
      AssignLeads(c.assign, "{" + key, t0, body);
      AssignLeadsKey(c.assign, key, t0, body);
    }
  }

  lemma AssignLeadsRun(assign: string, lead: string, t0: string, body: string)
    requires IsPrefix(assign + "(" + (lead + "{"), body + ")")
    ensures IsPrefix(assign + "(" + lead + "{", body + ")")
  {
    assert assign + "(" + (lead + "{") == assign + "(" + lead + "{";
  }

  lemma AssignLeadsKey(assign: string, key: string, t0: string, body: string)
    requires IsPrefix(assign + "(" + ("{" + key), body + ")")
    ensures IsPrefix(assign + "({" + key, body + ")")
  {
    assert assign + "(" + ("{" + key) == assign + "({" + key;
  }

  /** A prefix `p` of the first group's text follows `assign(` in the whole
      output. */
  lemma AssignLeads(assign: string, p: string, t0: string, body: string)
    requires IsPrefix(assign + "(" + t0, body) && IsPrefix(p, t0)
    ensures IsPrefix(assign + "(" + p, body + ")")
  {
    ClosedPrefix(assign + "(" + t0, assign + "(" + t0, body);
    PrefixInside(assign + "(", p, t0, body + ")");
  }

  /** The first group of several, when named, is a run that is not preceded
      by a comma and ends at the next group's start. */
  lemma NamedFirstText(c: Compiler, gs: seq<Group>, jsx: OffsetText)
    requires WellGrouped(gs) && |gs| > 1 && gs[0].Named?
    requires EmitGroup(c, gs, 0, 0, jsx).Ok?
    ensures var a := gs[0].attrs[0];
      var ws := jsx.Slice(0, Some(a.start)).text;
      && IsPrefix(RunLead(ws, false, 0, a.start).0 + "{", EmitGroup(c, gs, 0, 0, jsx).value.0)
      && (0 <= a.start && ws == "" ==>
            RenderAttributeName(a.name).Ok? &&
            IsPrefix("{" + RenderAttributeName(a.name).value, EmitGroup(c, gs, 0, 0, jsx).value.0))
  {
    var g := gs[0].attrs;
    assert WellGroup(gs[0]);
    var next := gs[1].Start();
    assert EmitGroup(c, gs, 0, 0, jsx) == EmitNamed(c, g, false, next, 0, jsx);
    NamedRunText(c, g, false, next, 0, jsx);
    RunOpens(c, g, next, jsx);
  }

  /** A first run opens with the white space kept before it and `{`, and,
      in a text that begins with it, with `{` and its first key. */
  lemma RunOpens(c: Compiler, g: seq<Attr>, next: Option<int>, jsx: OffsetText)
    requires |g| > 0 && forall k | 0 <= k < |g| :: g[k].Attribute?
    requires NamedRun(c, g, false, next, 0, jsx).Ok?
    ensures var ws := jsx.Slice(0, Some(g[0].start)).text;
      && IsPrefix(RunLead(ws, false, 0, g[0].start).0 + "{", NamedRun(c, g, false, next, 0, jsx).value.0)
      && (0 <= g[0].start && ws == "" ==>
            RenderAttributeName(g[0].name).Ok? &&
            IsPrefix("{" + RenderAttributeName(g[0].name).value, NamedRun(c, g, false, next, 0, jsx).value.0))
  {
    var lead := RunLead(jsx.Slice(0, Some(g[0].start)).text, false, 0, g[0].start);
    var lastEnd := g[|g| - 1].end;
    var rest := jsx.Slice(if jsx.CharAt(lastEnd) == " " then lastEnd + 1 else lastEnd, next).text;
    RunUnfolds(c, g, false, next, 0, jsx, lead, rest);
    var pairs := RunPairs(c, g, 0, lead.1, jsx).value;
    RunPrefix(lead.0, pairs, rest);
    if 0 <= g[0].start && jsx.Slice(0, Some(g[0].start)).text == "" {
      EmptyLead(false, g[0].start);
      FirstPairKey(c, g, jsx);
      KeyLeads(lead.0, RenderAttributeName(g[0].name).value, pairs, rest);
    }
  }

  /** A prefix of the whole output that `a` begins. */
  lemma PrefixOfSum(a: string, b: string, r: string)
    requires IsPrefix(a + b, r)
    ensures IsPrefix(a, r)
  {
    assert r[..|a|] == (a + b)[..|a|];
  }

  /** A prefix `p` of the part `b` after `a` gives the prefix `a + p`. */
  lemma PrefixInside(a: string, p: string, b: string, r: string)
    requires IsPrefix(a + b, r) && IsPrefix(p, b)
    ensures IsPrefix(a + p, r)
  {
    assert r[..|a + p|] == (a + b)[..|a + p|];
    assert (a + b)[..|a + p|] == a + b[..|p|];
  }
}
