/** The attribute merge of lib/js.js on the example its design gives:
    `<input name="age" {...attrs} />` becomes
    `Jsx("input", Object.assign({name: "age"}, attrs))`. The general steps
    are stated over any text; the facts about the concrete source are
    separate lemmas. */
module MergeExample {
  import opened Chars
  import opened Wrappers
  import opened Quoting
  import opened OffsetTexts
  import opened Syntax
  import opened Names
  import opened Lowering
  import opened LoweringFacts
  import opened AttributeFacts

  /** `<input name="age" {...attrs} />`, parsed: the tag name, a named
      attribute whose value is a string literal, and a spread. */
  const Source := "<input name=\"age\" {...attrs} />"
  const NameAttr := Attribute(7, 17, Ident(7, 11, "name"), Some(Script(12, 17, "Literal", [])))
  const SpreadAttr := Spread(18, 28, Script(22, 27, "Identifier", []))
  const Input := Element(0, 31, 31, Ident(1, 6, "input"), [NameAttr, SpreadAttr], [])
  const Grouped := [Named([NameAttr]), SpreadGroup(SpreadAttr)]

  /** The attributes' text as the element hands it over: from after the
      space that follows the tag name to before `>`, without the final `/`. */
  const AttrsText := OffsetText("name=\"age\" {...attrs} ", 7)

  /** A named attribute followed by a spread compiles to the merge of an
      object literal holding the attribute with the spread object, in
      source order and with no seed. */
  lemma MergeCompiles()
    ensures CompileNode(DefaultCompiler, Input, OffsetText(Source, 0)) ==
      Ok("Jsx(\"input\", Object.assign({name: \"age\"}, attrs))")
  {
    InputText();
    WholeSpanCompiles(DefaultCompiler, Input, Source, "Jsx(\"input\", Object.assign({name: \"age\"}, attrs))");
  }

  lemma InputText()
    ensures ElementText(DefaultCompiler, Input, OffsetText(Source, 0)) ==
      Ok("Jsx(\"input\", Object.assign({name: \"age\"}, attrs))")
  {
    TagFollowedBySpace();
    AttrsOfTag();
    MergedText();
    InputHead();
    NoLeadingBreak();
    ElementWithAttributes(DefaultCompiler, Input, OffsetText(Source, 0), AttrsText,
      "Jsx(\"input\"", "Object.assign({name: \"age\"}, attrs)");
    CommaSpace("Jsx(\"input\"", "Object.assign({name: \"age\"}, attrs)");
    Called();
  }

  /** An element with attributes and no children whose name is followed by
      a space: its head, a comma and a space, the compiled attributes, `)`. */
  lemma ElementWithAttributes(c: Compiler, n: Node, jsx: OffsetText, attrsJsx: OffsetText, head: string, attrs: string)
    requires n.Element? && |n.attrs| > 0 && n.children == [] && IsElementName(n.name)
    requires Head(c, n.name) == Ok(head)
    requires jsx.CharAt(n.name.end) == " "
    requires jsx.Slice(n.name.end + 1, Some(n.openEnd - 1)).DropClosingSlash() == attrsJsx
    requires CompileAttributes(c, n.attrs, attrsJsx) == Ok(attrs) && !StartsWithLineBreak(attrs)
    ensures ElementText(c, n, jsx) == Ok(head + ("," + (" " + attrs)) + "" + ")")
  {
  }

  lemma CommaSpace(head: string, attrs: string)
    ensures head + ("," + (" " + attrs)) + "" + ")" == head + ", " + attrs + ")"
  {
  }

  lemma NoLeadingBreak()
    ensures !StartsWithLineBreak("Object.assign({name: \"age\"}, attrs)")
  {
  }

  lemma Called()
    ensures "Jsx(\"input\"" + ", " + "Object.assign({name: \"age\"}, attrs)" + ")" ==
      "Jsx(\"input\", Object.assign({name: \"age\"}, attrs))"
  {
  }

  lemma InputHead()
    ensures Head(DefaultCompiler, Ident(1, 6, "input")) == Ok("Jsx(\"input\"")
  {
    QuotedInput();
    ElementHead(DefaultCompiler, Ident(1, 6, "input"), "\"input\"");
    assert "Jsx" + "(" + "\"input\"" == "Jsx(\"input\"";
  }

  /** An element's call opens with the factory and its quoted name. */
  lemma ElementHead(c: Compiler, name: Name, q: string)
    requires IsElementName(name) && RenderElementName(name) == Ok(q)
    ensures Head(c, name) == Ok(c.factory + "(" + q)
  {
  }

  lemma QuotedInput()
    ensures RenderElementName(Ident(1, 6, "input")) == Ok("\"input\"")
  {
    QuoteInput();
  }

  lemma QuoteInput()
    ensures Quote("input") == "\"input\""
  {
    InputBody();
  }

  lemma InputBody()
    ensures EscapeBody("input") == "input"
  {
    assert EscapeBody("t") == "t";
    assert EscapeBody("ut") == "ut" by { assert "ut"[1..] == "t"; }
    assert EscapeBody("put") == "put" by { assert "put"[1..] == "ut"; }
    assert EscapeBody("nput") == "nput" by { assert "nput"[1..] == "put"; }
    assert "input"[1..] == "nput";
  }

  lemma TagFollowedBySpace()
    ensures OffsetText(Source, 0).CharAt(6) == " "
  {
  }

  /** The slice of the opening tag that holds the attributes. */
  lemma AttrsOfTag()
    ensures OffsetText(Source, 0).Slice(7, Some(30)).DropClosingSlash() == AttrsText
  {
    AttrsSlice();
    SlashDropped();
  }

  lemma AttrsSlice()
    ensures OffsetText(Source, 0).Slice(7, Some(30)) == OffsetText("name=\"age\" {...attrs} /", 7)
  {
    SourceParts();
    Middle("<input ", "name=\"age\" {...attrs} /", ">");
  }

  lemma SourceParts()
    ensures Source == "<input " + "name=\"age\" {...attrs} /" + ">"
  {
  }

  lemma SlashDropped()
    ensures OffsetText("name=\"age\" {...attrs} /", 7).DropClosingSlash() == AttrsText
  {
    var t := "name=\"age\" {...attrs} /";
    assert t[22] == '/';
    assert t[..22] + t[23..] == "name=\"age\" {...attrs} ";
  }

  /** The middle part of three, by its position. */
  lemma Middle(a: string, b: string, c: string)
    ensures (a + b + c)[|a|..|a| + |b|] == b
  {
  }

  lemma GroupsOfInput()
    ensures Groups([NameAttr, SpreadAttr]) == Ok(Grouped)
  {
    var none: seq<Attr> := [];
    var empty: seq<Group> := [];
    assert [NameAttr][..0] == none;
    assert Groups(none) == Ok(empty);
    assert GroupStep(empty, NameAttr) == Ok(empty + [Named([NameAttr])]);
    assert empty + [Named([NameAttr])] == [Named([NameAttr])];
    assert Groups([NameAttr]) == Ok([Named([NameAttr])]);
    assert [NameAttr, SpreadAttr][..1] == [NameAttr];
    assert GroupStep([Named([NameAttr])], SpreadAttr) == Ok([Named([NameAttr])] + [SpreadGroup(SpreadAttr)]);
    assert [Named([NameAttr])] + [SpreadGroup(SpreadAttr)] == Grouped;
    var attrs := [NameAttr, SpreadAttr];
    assert attrs[..|attrs| - 1] == [NameAttr];
  }

  /** The text holds the literal `"age"` where the attribute's value lies. */
  lemma LiteralSlice()
    ensures AttrsText.Slice(12, Some(17)).text == "\"age\""
  {
    LiteralPart();
    Middle("name=", "\"age\"", " {...attrs} ");
  }

  lemma LiteralPart()
    ensures AttrsText.text == "name=" + "\"age\"" + " {...attrs} "
  {
  }

  lemma NameKey()
    ensures RenderAttributeName(Ident(7, 11, "name")) == Ok("name")
  {
    assert IsPlainKey("name");
  }

  /** `name="age"` is written `name: "age"`. */
  lemma NamePair()
    ensures AttrPair(DefaultCompiler, NameAttr, false, 7, AttrsText) == Ok("name: \"age\"")
  {
    NameKey();
    LiteralSlice();
    EmptyGap(AttrsText, 7);
    PlainFirstPair(DefaultCompiler, NameAttr, AttrsText, "name", "\"age\"");
    NoGap("name", "\"age\"");
    assert "name" + ": " + "\"age\"" == "name: \"age\"";
  }

  /** The first pair of a run, with no text before it and a value without
      JSX, is its key and the value's source. */
  lemma PlainFirstPair(c: Compiler, a: Attr, jsx: OffsetText, key: string, value: string)
    requires a.Attribute? && a.value.Some? && !HasJsx(a.value.value)
    requires RenderAttributeName(a.name) == Ok(key)
    requires jsx.Slice(a.start, Some(a.start)).text == ""
    requires jsx.Slice(a.value.value.start, Some(a.value.value.end)).text == value
    ensures AttrPair(c, a, false, a.start, jsx) == Ok("" + "" + key + ": " + value)
  {
    PlainValuePair(c, a, false, a.start, jsx);
  }

  lemma NoGap(key: string, value: string)
    ensures "" + "" + key + ": " + value == key + ": " + value
  {
  }

  /** The run is `{name: "age"}`, and the next group's text starts at the
      spread. */
  lemma NameRun()
    ensures EmitNamed(DefaultCompiler, [NameAttr], false, Some(18), 0, AttrsText) == Ok(("{name: \"age\"}", 18))
  {
    NamePair();
    RunEdges();
    LoneRun(DefaultCompiler, NameAttr, 18, AttrsText, "name: \"age\"");
    BareBraces("name: \"age\"");
    Braced();
  }

  lemma Braced()
    ensures "{" + "name: \"age\"" + "}" == "{name: \"age\"}"
  {
  }

  /** The run needs no white space before `{` and keeps none before `}`. */
  lemma RunEdges()
    ensures AttrsText.Slice(0, Some(7)).text == ""
    ensures AttrsText.CharAt(17) == " "
    ensures AttrsText.Slice(18, Some(18)).text == ""
  {
    EmptyGap(AttrsText, 18);
  }

  /** A run of one attribute at the start of the text, followed by a space
      and then the next group. */
  lemma LoneRun(c: Compiler, a: Attr, next: int, jsx: OffsetText, pair: string)
    requires a.Attribute? && next != 0
    requires jsx.Slice(0, Some(a.start)).text == ""
    requires AttrPair(c, a, false, a.start, jsx) == Ok(pair)
    requires jsx.CharAt(a.end) == " " && jsx.Slice(a.end + 1, Some(next)).text == ""
    ensures EmitNamed(c, [a], false, Some(next), 0, jsx) == Ok(("" + "{" + ("" + pair) + "" + "}", next))
  {
    assert RunLead("", false, 0, a.start) == ("", a.start);
    assert EmitAttrs(c, [a], 1, "" + pair, a.end, jsx) == Ok(("" + pair, a.end));
  }

  lemma BareBraces(pair: string)
    ensures "" + "{" + ("" + pair) + "" + "}" == "{" + pair + "}"
  {
  }

  lemma SpreadSlices()
    ensures AttrsText.Slice(18, Some(18)).text == ""
    ensures AttrsText.Slice(19, Some(22)).text == "..."
    ensures AttrsText.Slice(22, Some(27)).text == "attrs"
    ensures AttrsText.Slice(27, Some(27)).text == ""
    ensures AttrsText.Slice(28, None).text == " "
  {
    EmptyGap(AttrsText, 18);
    EmptyGap(AttrsText, 27);
    DotsPart();
    Middle("name=\"age\" {", "...", "attrs} ");
    ArgumentPart();
    Middle("name=\"age\" {...", "attrs", "} ");
  }

  lemma DotsPart()
    ensures AttrsText.text == "name=\"age\" {" + "..." + "attrs} "
  {
  }

  lemma ArgumentPart()
    ensures AttrsText.text == "name=\"age\" {..." + "attrs" + "} "
  {
  }

  /** `{...attrs}` after the run is written ` attrs`. */
  lemma SpreadText()
    ensures EmitSpread(DefaultCompiler, SpreadAttr, true, true, 18, AttrsText) == Ok((" attrs", 28))
  {
    SpreadSlices();
    assert DotsAt("...", 0);
    assert DropDots("...") == "";
    assert !HasNewline(" ");
    LastSpread(DefaultCompiler, SpreadAttr, AttrsText, "attrs");
    SpacedAttrs();
  }

  /** A last spread right after the previous group, with only its argument
      between `{...` and `}` and nothing but white space on one line after
      it, is a space and the argument's source. */
  lemma LastSpread(c: Compiler, a: Attr, jsx: OffsetText, expr: string)
    requires a.Spread? && !HasJsx(a.argument)
    requires jsx.Slice(a.start, Some(a.start)).text == ""
    requires DropDots(jsx.Slice(a.start + 1, Some(a.argument.start)).text) == ""
    requires jsx.Slice(a.argument.start, Some(a.argument.end)).text == expr
    requires jsx.Slice(a.argument.end, Some(a.end - 1)).text == ""
    requires !HasNewline(jsx.Slice(a.end, None).text)
    ensures EmitSpread(c, a, true, true, a.start, jsx) == Ok((" " + "" + "" + expr + "" + "", a.end))
  {
  }

  lemma SpacedAttrs()
    ensures " " + "" + "" + "attrs" + "" + "" == " attrs"
  {
  }

  /** Two groups are written one after the other, separated by a comma. */
  lemma TwoGroups(c: Compiler, gs: seq<Group>, open: string, jsx: OffsetText, t0: string, w0: int, t1: string, w1: int)
    requires |gs| == 2 && WellGrouped(gs)
    requires EmitGroup(c, gs, 0, 0, jsx) == Ok((t0, w0))
    requires EmitGroup(c, gs, 1, w0, jsx) == Ok((t1, w1))
    ensures EmitGroups(c, gs, 0, open, 0, jsx) == Ok(open + "" + t0 + "," + t1)
  {
    GroupsStep(c, gs, 0, open, 0, jsx);
    GroupsStep(c, gs, 1, open + "" + t0, w0, jsx);
    GroupsEnd(c, gs, open + "" + t0 + "," + t1, w1, jsx);
  }

  lemma GroupsEnd(c: Compiler, gs: seq<Group>, out: string, wo: int, jsx: OffsetText)
    requires WellGrouped(gs)
    ensures EmitGroups(c, gs, |gs|, out, wo, jsx) == Ok(out)
  {
  }

  lemma FirstGroup()
    ensures WellGrouped(Grouped)
    ensures EmitGroup(DefaultCompiler, Grouped, 0, 0, AttrsText) == Ok(("{name: \"age\"}", 18))
  {
    assert WellGroup(Grouped[0]) && WellGroup(Grouped[1]);
    NameRun();
  }

  lemma SecondGroup()
    ensures WellGrouped(Grouped)
    ensures EmitGroup(DefaultCompiler, Grouped, 1, 18, AttrsText) == Ok((" attrs", 28))
  {
    assert WellGroup(Grouped[0]) && WellGroup(Grouped[1]);
    SpreadText();
  }

  /** Attributes that form two groups, the first a named run, are the call
      of `assign` on the two groups' texts. */
  lemma AssignTwo(c: Compiler, attrs: seq<Attr>, gs: seq<Group>, jsx: OffsetText, body: string)
    requires attrs != [] && Groups(attrs) == Ok(gs) && |gs| == 2 && gs[0].Named?
    requires EmitGroups(c, gs, 0, c.assign + "(", 0, jsx) == Ok(body)
    ensures CompileAttributes(c, attrs, jsx) == Ok(body + ")")
  {
    GroupsSizeFlatten(gs);
  }

  lemma MergedText()
    ensures CompileAttributes(DefaultCompiler, [NameAttr, SpreadAttr], AttrsText) ==
      Ok("Object.assign({name: \"age\"}, attrs)")
  {
    GroupsOfInput();
    BodyOfInput();
    AssignTwo(DefaultCompiler, [NameAttr, SpreadAttr], Grouped, AttrsText,
      DefaultCompiler.assign + "(" + "" + "{name: \"age\"}" + "," + " attrs");
    Merged();
  }

  lemma BodyOfInput()
    ensures WellGrouped(Grouped)
    ensures EmitGroups(DefaultCompiler, Grouped, 0, DefaultCompiler.assign + "(", 0, AttrsText) ==
      Ok(DefaultCompiler.assign + "(" + "" + "{name: \"age\"}" + "," + " attrs")
  {
    FirstGroup();
    SecondGroup();
    TwoGroups(DefaultCompiler, Grouped, DefaultCompiler.assign + "(", AttrsText, "{name: \"age\"}", 18, " attrs", 28);
  }

  lemma Merged()
    ensures DefaultCompiler.assign + "(" + "" + "{name: \"age\"}" + "," + " attrs" + ")" ==
      "Object.assign({name: \"age\"}, attrs)"
  {
  }
}
