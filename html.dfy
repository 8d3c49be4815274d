/** html.js: elements rendered to `Html` markup, with void elements
    self-closed and the children of `<script>` escaped for a script body. */
module HtmlRendering {
  import opened Wrappers
  import opened Chars
  import opened Values
  import opened Escapes
  import opened Rendering

  /** `render(tagName, attrs, children)` with the given `<script>` child
      renderer. */
  function RenderWith(script: Dialect, tag: string, attrs: Value, children: Option<seq<Value>>): (r: Result<Value>)
    requires script == HtmlScript || script == HtmlScriptAsWritten
    ensures r.Ok? ==> OpenTag(MarkupAttrs, tag, attrs).Ok? && r.value.MarkupObj?
    ensures r.Ok? ==> IsPrefix(OpenTag(MarkupAttrs, tag, attrs).value, r.value.value)
  {
    var open :- OpenTag(MarkupAttrs, tag, attrs);
    if tag in VoidElements then
      if HasChildren(children) then Err(RangeError(VoidError + tag))
      else
        assert (open + " />")[..|open|] == open;
        Ok(MarkupObj(HtmlMarkup, open + " />"))
    else
      var body :- ChildrenText(if tag == "script" then script else LibMarkup, children);
      var s := open + ">" + body + "</" + tag + ">";
      assert s[..|open|] == open;
      Ok(MarkupObj(HtmlMarkup, s))
  }

  /** html.js's `render`, with every `Markup` passing a `<script>` unescaped:
      a void element self-closes and refuses children, any other element is
      opened and closed, and the result is `Html` markup starting with the
      opening tag. */
  function Render(tag: string, attrs: Value, children: Option<seq<Value>>): (r: Result<Value>)
    ensures OpenTag(MarkupAttrs, tag, attrs).Err? ==> r.Err? && r.error == OpenTag(MarkupAttrs, tag, attrs).error
    ensures r.Ok? ==> r.value.MarkupObj? && r.value.cls == HtmlMarkup
    ensures r.Ok? ==> IsPrefix("<" + tag, r.value.value)
    ensures tag in VoidElements && OpenTag(MarkupAttrs, tag, attrs).Ok? ==>
      (HasChildren(children) <==> r == Err(RangeError(VoidError + tag)))
    ensures tag in VoidElements && r.Ok? ==> EndsWith(r.value.value, " />")
    ensures tag !in VoidElements && r.Ok? ==> EndsWith(r.value.value, "</" + tag + ">")
  {
    RenderWithStartsWithTag(HtmlScript, tag, attrs, children);
    RenderWith(HtmlScript, tag, attrs, children)
  }

  lemma RenderWithStartsWithTag(script: Dialect, tag: string, attrs: Value, children: Option<seq<Value>>)
    requires script == HtmlScript || script == HtmlScriptAsWritten
    ensures RenderWith(script, tag, attrs, children).Ok? ==>
      IsPrefix("<" + tag, RenderWith(script, tag, attrs, children).value.value)
  {
    var r := RenderWith(script, tag, attrs, children);
    if r.Ok? {
      OpenTagShape(MarkupAttrs, tag, attrs);
      PrefixTransitive("<" + tag, OpenTag(MarkupAttrs, tag, attrs).value, r.value.value);
    }
  }

  /** html.js's `render` as written, where only `Html` passes a `<script>`
      unescaped. */
  function RenderAsWritten(tag: string, attrs: Value, children: Option<seq<Value>>): Result<Value> {
    RenderWith(HtmlScriptAsWritten, tag, attrs, children)
  }

  /** Every opening starts with `<` and the tag name. */
  lemma OpenTagShape(ad: AttrDialect, tag: string, attrs: Value)
    ensures OpenTag(ad, tag, attrs).Ok? ==> IsPrefix("<" + tag, OpenTag(ad, tag, attrs).value)
  {
    var r := OpenTag(ad, tag, attrs);
    if r.Ok? {
      var p := "<" + tag;
      assert r.value[..|p|] == p;
    }
  }

  /** `render` step by step: the opening, then either the void check or the
      children reduced with the renderer the tag selects. */
  method RenderLoop(tag: string, attrs: Value, children: Option<seq<Value>>) returns (r: Result<Value>)
    ensures r == Render(tag, attrs, children)
  {
    var open := OpenTagLoop(MarkupAttrs, tag, attrs);
    if open.Err? {
      return Err(open.error);
    }
    var html := open.value;
    if tag in VoidElements {
      if children.Some? && |children.value| > 0 {
        return Err(RangeError(VoidError + tag));
      }
      return Ok(MarkupObj(HtmlMarkup, html + " />"));
    }
    var body := ChildrenTextLoop(if tag == "script" then HtmlScript else LibMarkup, children);
    if body.Err? {
      return Err(body.error);
    }
    r := Ok(MarkupObj(HtmlMarkup, html + ">" + body.value + "</" + tag + ">"));
  }

  /** A non-void element written self-closing, like `<script />`, is still
      opened and closed. */
  lemma NonVoidWithoutChildren(tag: string, attrs: Value)
    requires tag !in VoidElements && OpenTag(MarkupAttrs, tag, attrs).Ok?
    ensures Render(tag, attrs, None) == Ok(MarkupObj(HtmlMarkup, OpenTag(MarkupAttrs, tag, attrs).value + "></" + tag + ">"))
  {
    var d := if tag == "script" then HtmlScript else LibMarkup;
    assert PiecesOf(d, []) == Ok([]);
    assert ChildrenText(d, None) == Ok("");
    var open := OpenTag(MarkupAttrs, tag, attrs).value;
    assert open + ">" + "" + "</" + tag + ">" == open + "></" + tag + ">";
  }

  /** Outside `<script>`, between a non-void element's opening tag and
      `</tag>` stands the children text, which for plain data holds no `<`. */
  lemma RenderPlainChildren(tag: string, attrs: Value, items: seq<Value>)
    requires tag !in VoidElements && tag != "script"
    requires forall i | 0 <= i < |items| :: PlainData(items[i])
    ensures var r := Render(tag, attrs, Some(items));
      var body := ChildrenText(LibMarkup, Some(items));
      r.Ok? ==>
        && body.Ok? && '<' !in body.value
        && r.value.value == OpenTag(MarkupAttrs, tag, attrs).value + ">" + body.value + "</" + tag + ">"
  {
    PlainChildrenNoTag(LibMarkup, items);
  }

  /** The doctype comes only with `toString("doctype")` and `valueOf`. */
  lemma HtmlDoctype(tag: string, attrs: Value, children: Option<seq<Value>>)
    ensures var r := Render(tag, attrs, children);
      r.Ok? ==>
        && MarkupToString(r.value, Undefined) == Ok(r.value.value)
        && MarkupToString(r.value, Str("doctype")) == Ok("<!DOCTYPE html>\n" + r.value.value)
        && ValueOf(r.value) == "<!DOCTYPE html>\n" + r.value.value
  {
  }

  /** A single plain child of `<script>` can neither close the element nor
      open a comment. */
  lemma ScriptChildSafe(v: Value)
    requires PlainData(v) && !v.Arr?
    ensures ChildrenText(HtmlScript, Some([v])).Ok? ==>
      NoScriptClose(ChildrenText(HtmlScript, Some([v])).value) &&
      NoCommentOpen(ChildrenText(HtmlScript, Some([v])).value)
  {
    PiecesOfOne(HtmlScript, v);
    PlainDataScriptSafe(HtmlScript, v);
    var p := Pieces(HtmlScript, v);
    if p.Ok? {
      assert |p.value| <= 1 by {
        match v {
          case Undefined =>
          case Null =>
          case Bool(_) =>
          case Num(_) =>
          case Str(_) =>
          case Obj(_, _) =>
          case Fn(_) =>
          case Sym(_) =>
        }
      }
      if |p.value| == 1 {
        assert Concat(p.value) == p.value[0] + Concat(p.value[1..]);
        assert p.value[1..] == [];
        assert Concat(p.value) == p.value[0];
      } else {
        assert Concat(p.value) == "";
        NoLtThenSafe("", "");
        assert "" + "" == "";
      }
    }
  }

  /** Inside `<script>` every `Markup`, `Html` or `Xml`, is added unescaped. */
  lemma ScriptKeepsMarkup(cls: MarkupClass, x: string)
    requires cls == BaseMarkup || cls == HtmlMarkup || cls == XmlMarkup
    ensures Render("script", Null, Some([MarkupObj(cls, x)])) == Ok(MarkupObj(HtmlMarkup, "<script>" + x + "</script>"))
  {
    assert Pieces(HtmlScript, MarkupObj(cls, x)) == Ok([x]);
    ScriptWithText(HtmlScript, MarkupObj(cls, x), x);
  }

  /** A `<script>` without attributes whose one child renders to `text`. */
  lemma ScriptWithText(script: Dialect, child: Value, text: string)
    requires script == HtmlScript || script == HtmlScriptAsWritten
    requires Pieces(script, child) == Ok([text])
    ensures RenderWith(script, "script", Null, Some([child])) == Ok(MarkupObj(HtmlMarkup, "<script>" + text + "</script>"))
  {
    PiecesOfOne(script, child);
    OneText([text], text);
    assert !Truthy(Null) && "<" + "script" == "<script";
    assert OpenTag(MarkupAttrs, "script", Null) == Ok("<script");
    assert "<script" + ">" + text + "</" + "script" + ">" == "<script>" + text + "</script>";
  }

  lemma OneText(pieces: seq<string>, x: string)
    requires pieces == [x]
    ensures Concat(pieces) == x
  {
    assert pieces[1..] == [];
    assert x + "" == x;
  }

  /** As written, an `Xml` child of `<script>` is script-escaped, so one
      holding `</script` comes out changed. */
  lemma ScriptEscapesXmlAsWritten(x: string)
    requires !NoScriptClose(x)
    ensures RenderAsWritten("script", Null, Some([MarkupObj(XmlMarkup, x)])) ==
      Ok(MarkupObj(HtmlMarkup, "<script>" + EscapeScript(x) + "</script>"))
    ensures EscapeScript(x) != x
  {
    assert Pieces(HtmlScriptAsWritten, MarkupObj(XmlMarkup, x)) == Ok([EscapeScript(x)]);
    ScriptWithText(HtmlScriptAsWritten, MarkupObj(XmlMarkup, x), EscapeScript(x));
    EscapeScriptChanges(x);
  }

  /** Script escaping changes any text that could close the element. */
  lemma EscapeScriptChanges(x: string)
    requires !NoScriptClose(x)
    ensures EscapeScript(x) != x
  {
    assert NoScriptClose(EscapeScript(x));
  }
}
