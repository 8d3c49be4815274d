/** jsx.js, the older renderer: elements rendered to its own `Html` class,
    void elements self-closed, `<html>` given the HTML doctype. */
module LegacyJsx {
  import opened Wrappers
  import opened Chars
  import opened Values
  import opened Rendering

  const HtmlDoctype: string := "<!DOCTYPE html>\n"

  /** The element's markup before the doctype rule. */
  function Element(tag: string, attrs: Value, children: Option<seq<Value>>): Result<string> {
    var open :- OpenTag(LegacyAttrs, tag, attrs);
    if tag in VoidElements then
      if HasChildren(children) then Err(RangeError(VoidError + tag))
      else Ok(open + " />")
    else
      var body :- ChildrenText(JsxJs, children);
      Ok(open + ">" + body + "</" + tag + ">")
  }

  /** jsx.js's `render`: the element's markup, prefixed with the HTML
      doctype exactly for the tag `html`, as jsx.js's `Html`. */
  function Render(tag: string, attrs: Value, children: Option<seq<Value>>): (r: Result<Value>)
    ensures r.Ok? <==> Element(tag, attrs, children).Ok?
    ensures r.Ok? ==> r.value.MarkupObj? && r.value.cls == LegacyHtml
    ensures r.Ok? && tag == "html" ==> r.value.value == HtmlDoctype + Element(tag, attrs, children).value
    ensures r.Ok? && tag != "html" ==> r.value.value == Element(tag, attrs, children).value
    ensures tag in VoidElements && OpenTag(LegacyAttrs, tag, attrs).Ok? ==>
      (HasChildren(children) <==> r == Err(RangeError(VoidError + tag)))
  {
    var html :- Element(tag, attrs, children);
    Ok(MarkupObj(LegacyHtml, if tag == "html" then HtmlDoctype + html else html))
  }

  /** `render`, reassigning `html` step by step as jsx.js does. */
  method RenderLoop(tag: string, attrs: Value, children: Option<seq<Value>>) returns (r: Result<Value>)
    ensures r == Render(tag, attrs, children)
  {
    var open := OpenTagLoop(LegacyAttrs, tag, attrs);
    if open.Err? {
      return Err(open.error);
    }
    var html := open.value;
    if tag in VoidElements {
      if children.Some? && |children.value| > 0 {
        return Err(RangeError(VoidError + tag));
      }
      html := html + " />";
    } else {
      var body := ChildrenTextLoop(JsxJs, children);
      if body.Err? {
        return Err(body.error);
      }
      html := html + ">" + body.value + "</" + tag + ">";
    }
    if tag == "html" {
      html := HtmlDoctype + html;
    }
    r := Ok(MarkupObj(LegacyHtml, html));
  }

  /** jsx.js's `Html` has no doctype: `toString`, whatever its format, and
      `valueOf` both give the stored markup. */
  lemma LegacyHtmlString(tag: string, attrs: Value, children: Option<seq<Value>>, fmt: Value)
    ensures var r := Render(tag, attrs, children);
      r.Ok? ==> MarkupToString(r.value, fmt) == Ok(r.value.value) && ValueOf(r.value) == r.value.value
  {
  }

  /** A boolean child is not rendered: jsx.js throws a `TypeError` for it. */
  lemma BooleanChildThrows(tag: string, attrs: Value, b: bool)
    requires tag !in VoidElements && OpenTag(LegacyAttrs, tag, attrs).Ok?
    ensures Render(tag, attrs, Some([Bool(b)])) ==
      Err(TypeError("Invalid Element: " + (if b then "true" else "false")))
  {
    PiecesOfOne(JsxJs, Bool(b));
  }

  /** `undefined` and `null` children render as empty strings. */
  lemma NullishChildrenEmpty(tag: string, attrs: Value, v: Value)
    requires v.Undefined? || v.Null?
    requires tag !in VoidElements && tag != "html" && OpenTag(LegacyAttrs, tag, attrs).Ok?
    ensures Render(tag, attrs, Some([v])) ==
      Ok(MarkupObj(LegacyHtml, OpenTag(LegacyAttrs, tag, attrs).value + "></" + tag + ">"))
  {
    PiecesOfOne(JsxJs, v);
    assert Concat([""]) == "" + Concat([]);
    var open := OpenTag(LegacyAttrs, tag, attrs).value;
    assert open + ">" + "" + "</" + tag + ">" == open + "></" + tag + ">";
  }
}
