/** xml.js: elements rendered to `Xml` markup, self-closed exactly when
    they are given no children. */
module XmlRendering {
  import opened Wrappers
  import opened Chars
  import opened Values
  import opened Rendering

  /** xml.js's `render`: a non-empty children array opens and closes the
      element, even when every child renders to nothing; absent or empty
      children self-close it, whatever its name. */
  function Render(tag: string, attrs: Value, children: Option<seq<Value>>): (r: Result<Value>)
    ensures OpenTag(MarkupAttrs, tag, attrs).Err? ==> r.Err? && r.error == OpenTag(MarkupAttrs, tag, attrs).error
    ensures !HasChildren(children) && OpenTag(MarkupAttrs, tag, attrs).Ok? ==>
      r == Ok(MarkupObj(XmlMarkup, OpenTag(MarkupAttrs, tag, attrs).value + " />"))
    ensures r.Ok? ==> r.value.MarkupObj? && r.value.cls == XmlMarkup
    ensures HasChildren(children) && r.Ok? ==> EndsWith(r.value.value, "</" + tag + ">")
  {
    var open :- OpenTag(MarkupAttrs, tag, attrs);
    if HasChildren(children) then
      var body :- ChildrenText(LibMarkup, children);
      Ok(MarkupObj(XmlMarkup, open + ">" + body + "</" + tag + ">"))
    else Ok(MarkupObj(XmlMarkup, open + " />"))
  }

  /** `render` step by step. */
  method RenderLoop(tag: string, attrs: Value, children: Option<seq<Value>>) returns (r: Result<Value>)
    ensures r == Render(tag, attrs, children)
  {
    var open := OpenTagLoop(MarkupAttrs, tag, attrs);
    if open.Err? {
      return Err(open.error);
    }
    if children.Some? && |children.value| > 0 {
      var body := ChildrenTextLoop(LibMarkup, children);
      if body.Err? {
        return Err(body.error);
      }
      return Ok(MarkupObj(XmlMarkup, open.value + ">" + body.value + "</" + tag + ">"));
    }
    r := Ok(MarkupObj(XmlMarkup, open.value + " />"));
  }

  /** Between the opening tag and `</tag>` stands the children text, which
      for plain data holds no `<`. */
  lemma RenderPlainChildren(tag: string, attrs: Value, items: seq<Value>)
    requires |items| > 0 && forall i | 0 <= i < |items| :: PlainData(items[i])
    ensures var r := Render(tag, attrs, Some(items));
      var body := ChildrenText(LibMarkup, Some(items));
      r.Ok? ==>
        && body.Ok? && '<' !in body.value
        && r.value.value == OpenTag(MarkupAttrs, tag, attrs).value + ">" + body.value + "</" + tag + ">"
  {
    PlainChildrenNoTag(LibMarkup, items);
  }

  /** Children that render to nothing still make an open and a closing tag,
      where no children at all self-close. */
  lemma EmptyRenderingChildren(tag: string, attrs: Value, items: seq<Value>)
    requires |items| > 0 && forall i | 0 <= i < |items| :: items[i].Undefined? || items[i].Null?
    requires OpenTag(MarkupAttrs, tag, attrs).Ok?
    ensures Render(tag, attrs, Some(items)) ==
      Ok(MarkupObj(XmlMarkup, OpenTag(MarkupAttrs, tag, attrs).value + "></" + tag + ">"))
    ensures Render(tag, attrs, Some([])) == Ok(MarkupObj(XmlMarkup, OpenTag(MarkupAttrs, tag, attrs).value + " />"))
  {
    NothingRendered(items);
    assert ChildrenText(LibMarkup, Some(items)) == Ok("");
    var open := OpenTag(MarkupAttrs, tag, attrs).value;
    assert open + ">" + "" + "</" + tag + ">" == open + "></" + tag + ">";
  }

  lemma {:induction false} NothingRendered(items: seq<Value>)
    requires forall i | 0 <= i < |items| :: items[i].Undefined? || items[i].Null?
    ensures PiecesOf(LibMarkup, items) == Ok([])
  {
    if items != [] {
      NothingRendered(items[..|items| - 1]);
    }
  }

  /** The XML declaration comes only with `toString("doctype")` and
      `valueOf`. */
  lemma XmlDoctype(tag: string, attrs: Value, children: Option<seq<Value>>)
    ensures var r := Render(tag, attrs, children);
      r.Ok? ==>
        && MarkupToString(r.value, Undefined) == Ok(r.value.value)
        && MarkupToString(r.value, Str("doctype")) == Ok("<?xml version=\"1.0\" encoding=\"utf-8\" ?>\n" + r.value.value)
        && ValueOf(r.value) == "<?xml version=\"1.0\" encoding=\"utf-8\" ?>\n" + r.value.value
  {
  }
}
