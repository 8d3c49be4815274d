/** What the runtime renderers share: how a child value becomes pieces of
    markup (`renderChild` of lib/markup.js and lib/jsx.js, `renderScriptChild`
    of html.js, `renderChild`/`renderNode` of jsx.js), how attributes become
    `name="value"` pairs, the `Markup` objects' string forms and the `jsx`
    tag dispatch. */
module Rendering {
  import opened Wrappers
  import opened Chars
  import opened Values
  import opened Escapes

  /** The child renderers, each with its own escaping and its own class of
      objects that pass unescaped. */
  datatype Dialect =
    | LibMarkup            // `renderChild` of lib/markup.js
    | HtmlScript           // html.js's `renderScriptChild`, passing every `Markup`
    | HtmlScriptAsWritten  // html.js's `renderScriptChild` as written, passing only `Html`
    | LibJsx               // `renderChild` of lib/jsx.js
    | JsxJs                // `renderChild` and `renderNode` of jsx.js

  /** The class whose instances a dialect appends unescaped. */
  function Verbatim(d: Dialect): MarkupClass {
    match d
    case LibMarkup => BaseMarkup
    case HtmlScript => BaseMarkup
    case HtmlScriptAsWritten => HtmlMarkup
    case LibJsx => LegacyMarkup
    case JsxJs => LegacyHtml
  }

  /** The escaping a dialect applies to text. */
  function EscapeText(d: Dialect, s: string): string {
    match d
    case LibMarkup => Escape(s)
    case HtmlScript => EscapeScript(s)
    case HtmlScriptAsWritten => EscapeScript(s)
    case LibJsx => EscapeHtml(s)
    case JsxJs => EscapeHtml(s)
  }

  /** `prefix + v`: a markup object is concatenated by its `valueOf`, a
      symbol cannot be concatenated at all. */
  function Concatenated(prefix: string, v: Value): Result<string> {
    match v
    case Sym(_) => Err(TypeError("Cannot convert a Symbol value to a string"))
    case MarkupObj(cls, value) => Ok(prefix + Doctype(cls) + value)
    case _ => Ok(prefix + ToString(v))
  }

  /** `throw new TypeError(prefix + v)`. */
  function Thrown<T>(prefix: string, v: Value): Result<T> {
    match Concatenated(prefix, v)
    case Ok(message) => Err(TypeError(message))
    case Err(e) => Err(e)
  }

  /** The first failure of two steps, or both results in order. */
  function Then(a: Result<seq<string>>, b: Result<seq<string>>): (r: Result<seq<string>>)
    ensures r.Ok? <==> a.Ok? && b.Ok?
    ensures r.Ok? ==> r.value == a.value + b.value
    ensures a.Err? ==> r == a
    ensures a.Ok? && b.Err? ==> r == b
  {
    if a.Err? then a else if b.Err? then b else Ok(a.value + b.value)
  }

  lemma ThenAssoc(a: Result<seq<string>>, b: Result<seq<string>>, c: Result<seq<string>>)
    ensures Then(Then(a, b), c) == Then(a, Then(b, c))
  {
    if a.Ok? && b.Ok? && c.Ok? {
      assert (a.value + b.value) + c.value == a.value + (b.value + c.value);
    }
  }

  /** The pieces one child adds to the rendered children: arrays are
      flattened in order, `undefined` and `null` add nothing (jsx.js renders
      them as empty strings), booleans and numbers are added as they are
      (jsx.js throws for booleans), strings and plain objects are escaped,
      markup of the dialect's class is added unescaped and anything else
      throws. */
  function Pieces(d: Dialect, v: Value): Result<seq<string>>
    decreases v
  {
    match v
    case Arr(items) => PiecesOf(d, items)
    case Undefined => if d == JsxJs then Ok([""]) else Ok([])
    case Null => if d == JsxJs then Ok([""]) else Ok([])
    case Bool(_) => if d == JsxJs then Thrown("Invalid Element: ", v) else Ok([ToString(v)])
    case Num(repr) => Ok([repr])
    case Str(s) => Ok([EscapeText(d, s)])
    case Obj(_, str) => Ok([EscapeText(d, str)])
    case MarkupObj(_, value) => Ok([if InstanceOf(v, Verbatim(d)) then value else EscapeText(d, value)])
    case _ => Thrown(if d == JsxJs then "Invalid Element: " else "Invalid element: ", v)
  }

  /** `items.reduce(renderChild, [])`: the pieces of every item, in order,
      or the first error. */
  function PiecesOf(d: Dialect, items: seq<Value>): Result<seq<string>>
    decreases items
  {
    if items == [] then Ok([])
    else Then(PiecesOf(d, items[..|items| - 1]), Pieces(d, items[|items| - 1]))
  }

  /** Rendering two runs of children one after the other is rendering their
      concatenation. */
  lemma {:induction false} PiecesOfAppend(d: Dialect, a: seq<Value>, b: seq<Value>)
    ensures PiecesOf(d, a + b) == Then(PiecesOf(d, a), PiecesOf(d, b))
    decreases |b|
  {
    if b == [] {
      assert a + b == a;
      var x := PiecesOf(d, a);
      if x.Ok? {
        assert x.value + [] == x.value;
      }
    } else {
      var init := b[..|b| - 1];
      assert (a + b)[..|a + b| - 1] == a + init;
      assert (a + b)[|a + b| - 1] == b[|b| - 1];
      PiecesOfAppend(d, a, init);
      ThenAssoc(PiecesOf(d, a), PiecesOf(d, init), Pieces(d, b[|b| - 1]));
    }
  }

  lemma PiecesOfOne(d: Dialect, v: Value)
    ensures PiecesOf(d, [v]) == Pieces(d, v)
  {
    assert [v][..0] == [];
    var x := Pieces(d, v);
    if x.Ok? {
      assert [] + x.value == x.value;
    }
  }

  /** Nested arrays flatten: an array child renders as its items would,
      spliced in its place. */
  lemma Flatten(d: Dialect, before: seq<Value>, inner: seq<Value>, after: seq<Value>)
    ensures PiecesOf(d, before + [Arr(inner)] + after) == PiecesOf(d, before + inner + after)
  {
    PiecesOfAppend(d, before + [Arr(inner)], after);
    PiecesOfAppend(d, before, [Arr(inner)]);
    PiecesOfOne(d, Arr(inner));
    PiecesOfAppend(d, before + inner, after);
    PiecesOfAppend(d, before, inner);
  }

  /** `Fragment(attrs, children)` returns its children. */
  function Fragment(attrs: Value, children: Value): Value {
    children
  }

  /** A fragment is transparent: its children render as if written in its
      place. */
  lemma FragmentTransparent(d: Dialect, before: seq<Value>, attrs: Value, kids: seq<Value>, after: seq<Value>)
    ensures PiecesOf(d, before + [Fragment(attrs, Arr(kids))] + after) == PiecesOf(d, before + kids + after)
  {
    Flatten(d, before, kids, after);
  }

  /** `(children || EMPTY_ARR).reduce(renderChild, []).join("")`. */
  function ChildrenText(d: Dialect, children: Option<seq<Value>>): Result<string> {
    var pieces :- PiecesOf(d, if children.Some? then children.value else []);
    Ok(Concat(pieces))
  }

  /** `renderChild(children, child)`: the pieces of `child` pushed onto
      `children`, nested arrays by reducing over them. */
  method RenderChild(d: Dialect, children: seq<string>, child: Value) returns (r: Result<seq<string>>)
    ensures r == Then(Ok(children), Pieces(d, child))
    decreases child, 1
  {
    match child {
      case Arr(items) =>
        r := ReduceChildren(d, children, items);
      case Undefined =>
        assert children + [] == children;
        r := if d == JsxJs then Ok(children + [""]) else Ok(children);
      case Null =>
        assert children + [] == children;
        r := if d == JsxJs then Ok(children + [""]) else Ok(children);
      case Bool(_) =>
        if d == JsxJs {
          r := Thrown("Invalid Element: ", child);
        } else {
          r := Ok(children + [ToString(child)]);
        }
      case Num(repr) =>
        r := Ok(children + [repr]);
      case Str(s) =>
        r := Ok(children + [EscapeText(d, s)]);
      case Obj(_, str) =>
        r := Ok(children + [EscapeText(d, str)]);
      case MarkupObj(_, value) =>
        if InstanceOf(child, Verbatim(d)) {
          r := Ok(children + [value]);
        } else {
          r := Ok(children + [EscapeText(d, value)]);
        }
      case _ =>
        r := Thrown(if d == JsxJs then "Invalid Element: " else "Invalid element: ", child);
    }
  }

  /** `items.reduce(renderChild, children)`. */
  method ReduceChildren(d: Dialect, children: seq<string>, items: seq<Value>) returns (r: Result<seq<string>>)
    ensures r == Then(Ok(children), PiecesOf(d, items))
    decreases items, 0
  {
    var acc := children;
    var i := 0;
    assert items[..0] == [];
    assert children + [] == children;
    while i < |items|
      invariant 0 <= i <= |items|
      invariant Ok(acc) == Then(Ok(children), PiecesOf(d, items[..i]))
    {
      PiecesOfSnoc(d, items, i);
      ThenAssoc(Ok(children), PiecesOf(d, items[..i]), Pieces(d, items[i]));
      var step := RenderChild(d, acc, items[i]);
      if step.Err? {
        PiecesOfPrefixErr(d, items, i + 1);
        return step;
      }
      acc := step.value;
      i := i + 1;
    }
    assert items[..i] == items;
    r := Ok(acc);
  }

  /** One more child of a run is one more turn of the reduce. */
  lemma PiecesOfSnoc(d: Dialect, items: seq<Value>, i: nat)
    requires i < |items|
    ensures PiecesOf(d, items[..i + 1]) == Then(PiecesOf(d, items[..i]), Pieces(d, items[i]))
  {
    assert items[..i + 1][..i] == items[..i];
    assert items[..i + 1][i] == items[i];
  }

  /** An error in a prefix is the error of the whole run. */
  lemma {:induction false} PiecesOfPrefixErr(d: Dialect, items: seq<Value>, k: nat)
    requires k <= |items| && PiecesOf(d, items[..k]).Err?
    ensures PiecesOf(d, items) == PiecesOf(d, items[..k])
  {
    assert items == items[..k] + items[k..];
    PiecesOfAppend(d, items[..k], items[k..]);
  }

  /** A value with no markup object in it, whose numbers print without `<`. */
  predicate PlainData(v: Value)
    decreases v
  {
    match v
    case MarkupObj(_, _) => false
    case Num(repr) => '<' !in repr
    case Arr(items) => forall i | 0 <= i < |items| :: PlainData(items[i])
    case _ => true
  }

  /** Plain data never opens a tag: with the text-escaping dialects, no
      piece it renders to holds a `<`. */
  lemma {:induction false} PlainDataNoTag(d: Dialect, v: Value)
    requires d == LibMarkup || d == LibJsx || d == JsxJs
    requires PlainData(v)
    ensures Pieces(d, v).Ok? ==> forall i | 0 <= i < |Pieces(d, v).value| :: '<' !in Pieces(d, v).value[i]
    decreases v, 1
  {
    if v.Arr? {
      PlainItemsNoTag(d, v.items);
    }
  }

  lemma {:induction false} PlainItemsNoTag(d: Dialect, items: seq<Value>)
    requires d == LibMarkup || d == LibJsx || d == JsxJs
    requires forall i | 0 <= i < |items| :: PlainData(items[i])
    ensures PiecesOf(d, items).Ok? ==> forall i | 0 <= i < |PiecesOf(d, items).value| :: '<' !in PiecesOf(d, items).value[i]
    decreases items, 0
  {
    if items != [] {
      var init := items[..|items| - 1];
      PlainItemsNoTag(d, init);
      PlainDataNoTag(d, items[|items| - 1]);
    }
  }

  /** The children text of plain data holds no `<`: nothing between an
      element's `>` and its closing tag starts another tag. */
  lemma PlainChildrenNoTag(d: Dialect, items: seq<Value>)
    requires d == LibMarkup || d == LibJsx || d == JsxJs
    requires forall i | 0 <= i < |items| :: PlainData(items[i])
    ensures ChildrenText(d, Some(items)).Ok? ==> '<' !in ChildrenText(d, Some(items)).value
  {
    PlainItemsNoTag(d, items);
    if PiecesOf(d, items).Ok? {
      ConcatLacks(PiecesOf(d, items).value, '<');
    }
  }

  /** Inside a `<script>`, plain data never closes the element nor opens a
      comment within any one piece. */
  lemma {:induction false} PlainDataScriptSafe(d: Dialect, v: Value)
    requires d == HtmlScript || d == HtmlScriptAsWritten
    requires PlainData(v)
    ensures Pieces(d, v).Ok? ==> forall i | 0 <= i < |Pieces(d, v).value| ::
      NoScriptClose(Pieces(d, v).value[i]) && NoCommentOpen(Pieces(d, v).value[i])
    decreases v, 1
  {
    match v {
      case Arr(items) => PlainItemsScriptSafe(d, items);
      case Num(repr) =>
        NoLtThenSafe(repr, "");
        assert repr + "" == repr;
      case Bool(b) =>
        var t := if b then "true" else "false";
        assert ToString(v) == t && '<' !in t;
        NoLtThenSafe(t, "");
        assert t + "" == t;
      case Undefined =>
      case Null =>
      case Str(_) =>
      case Obj(_, _) =>
      case Fn(_) =>
      case Sym(_) =>
    }
  }

  lemma {:induction false} PlainItemsScriptSafe(d: Dialect, items: seq<Value>)
    requires d == HtmlScript || d == HtmlScriptAsWritten
    requires forall i | 0 <= i < |items| :: PlainData(items[i])
    ensures PiecesOf(d, items).Ok? ==> forall i | 0 <= i < |PiecesOf(d, items).value| ::
      NoScriptClose(PiecesOf(d, items).value[i]) && NoCommentOpen(PiecesOf(d, items).value[i])
    decreases items, 0
  {
    if items != [] {
      var init := items[..|items| - 1];
      PlainItemsScriptSafe(d, init);
      PlainDataScriptSafe(d, items[|items| - 1]);
    }
  }

  /** Text without `<` passes through the script escaping unchanged. */
  lemma {:induction false} ScriptEscapeKeepsNoLt(s: string)
    requires '<' !in s
    ensures EscapeScript(s) == s
  {
    NoLtBreaks(s);
  }

  lemma {:induction false} NoLtBreaks(s: string)
    requires '<' !in s
    ensures BreakScriptClose(s) == s && BreakCommentOpen(s) == s
  {
    if s != [] {
      assert s[0] != '<';
      assert '<' !in s[1..];
      NoLtBreaks(s[1..]);
    }
  }

  lemma EscapeScriptLt()
    ensures EscapeScript("<") == "<"
  {
    assert BreakScriptClose("") == "" && BreakCommentOpen("") == "";
    assert BreakScriptClose("<") == "<";
    assert BreakCommentOpen("<") == "<";
  }

  lemma PiecesOfTwo(d: Dialect, a: Value, b: Value)
    ensures PiecesOf(d, [a, b]) == Then(Pieces(d, a), Pieces(d, b))
  {
    assert [a, b][..1] == [a] && [a, b][1] == b;
    PiecesOfOne(d, a);
  }

  lemma ScriptPieceOfText(s: string)
    ensures Pieces(HtmlScript, Str(s)) == Ok([EscapeScript(s)])
  {
  }

  /** The script escaping works child by child: a `<` ending one text child
      and a text starting `/script` in the next still close the element. */
  lemma ScriptCloseAcrossChildren(rest: string)
    requires |rest| >= 7 && rest[..7] == "/script" && '<' !in rest
    ensures PiecesOf(HtmlScript, [Str("<"), Str(rest)]) == Ok(["<", rest])
    ensures !NoScriptClose(Concat(["<", rest]))
  {
    PiecesOfTwo(HtmlScript, Str("<"), Str(rest));
    ScriptPieceOfText("<");
    ScriptPieceOfText(rest);
    EscapeScriptLt();
    ScriptEscapeKeepsNoLt(rest);
    var lt: string := "<";
    assert [lt] + [rest] == [lt, rest];
    assert Concat([lt, rest]) == lt + rest by {
      assert [lt, rest][1..] == [rest] && [rest][1..] == [];
      assert Concat([rest]) == rest + "";
    }
    ClosesAtStart(Concat([lt, rest]), rest);
  }

  lemma ClosesAtStart(joined: string, rest: string)
    requires |rest| >= 7 && rest[..7] == "/script"
    requires joined == "<" + rest
    ensures !NoScriptClose(joined)
  {
    assert joined[0..] == joined;
    assert joined[2..8] == rest[1..7];
    assert rest[1..7] == "script";
    assert StartsScriptClose(joined[0..]);
  }

  // ---------------------------------------------------------------------
  // Attributes

  /** The attribute renderers: lib/markup.js's, and the older one of jsx.js
      and lib/jsx.js that only escapes quotes. */
  datatype AttrDialect = MarkupAttrs | LegacyAttrs

  /** `name + "=\"" + value + "\""` */
  function Kv(name: string, value: string): string {
    name + "=\"" + value + "\""
  }

  /** A `name="…"` pair whose value cannot end its quotes early. */
  predicate SafelyQuoted(name: string, p: string) {
    && |p| >= |name| + 3
    && p[..|name| + 2] == name + "=\""
    && p[|p| - 1] == '"'
    && '"' !in p[|name| + 2..|p| - 1]
  }

  /** The pair one attribute adds, if any. */
  function AttrPiece(ad: AttrDialect, name: string, v: Value): (r: Result<Option<string>>)
    ensures r.Ok? && r.value.None? <==> v.Undefined? || v.Null? || v == Bool(false)
    ensures r.Err? <==> v.Arr? || v.Fn? || v.Sym?
    ensures v == Bool(true) ==> r == Ok(Some(name))
    ensures v.Str? || v.Obj? || (v.MarkupObj? && !(ad == MarkupAttrs && InstanceOf(v, BaseMarkup))) ==>
      r.Ok? && r.value.Some? && SafelyQuoted(name, r.value.value)
  {
    match v
    case Undefined => Ok(None)
    case Null => Ok(None)
    case Bool(b) => if b then Ok(Some(name)) else Ok(None)
    case Num(repr) => Ok(Some(Kv(name, repr)))
    case Str(s) => Ok(Some(QuotedValue(ad, name, s)))
    case Obj(_, str) => Ok(Some(QuotedValue(ad, name, str)))
    case MarkupObj(_, value) =>
      if ad == MarkupAttrs && InstanceOf(v, BaseMarkup) then Ok(Some(Kv(name, value)))
      else Ok(Some(QuotedValue(ad, name, value)))
    case _ => Thrown("Invalid attribute value: ", v)
  }

  /** An attribute value escaped for its dialect and quoted. */
  function QuotedValue(ad: AttrDialect, name: string, s: string): (p: string)
    ensures SafelyQuoted(name, p)
  {
    var e := if ad == MarkupAttrs then EscapeAttr(s) else EscapeQuotes(s);
    var p := Kv(name, e);
    assert p[..|name| + 2] == name + "=\"";
    assert p[|name| + 2..|p| - 1] == e;
    p
  }

  /** The pairs of a property list, in `for…in` order, or the first error. */
  function AttrPieces(ad: AttrDialect, props: seq<(string, Value)>): Result<seq<string>>
    decreases |props|
  {
    if props == [] then Ok([])
    else
      var last := props[|props| - 1];
      Then(AttrPieces(ad, props[..|props| - 1]), Listed(AttrPiece(ad, last.0, last.1)))
  }

  /** An optional pair as a list of zero or one pairs. */
  function Listed(r: Result<Option<string>>): Result<seq<string>> {
    match r
    case Err(e) => Err(e)
    case Ok(None) => Ok([])
    case Ok(Some(p)) => Ok([p])
  }

  /** `renderAttributes(attrs)`: the pairs joined by single spaces. */
  function RenderAttributes(ad: AttrDialect, attrs: Value): Result<string> {
    var pieces :- AttrPieces(ad, Entries(attrs));
    Ok(Join(pieces, " "))
  }

  lemma {:induction false} AttrPiecesAppend(ad: AttrDialect, a: seq<(string, Value)>, b: seq<(string, Value)>)
    ensures AttrPieces(ad, a + b) == Then(AttrPieces(ad, a), AttrPieces(ad, b))
    decreases |b|
  {
    if b == [] {
      assert a + b == a;
      var x := AttrPieces(ad, a);
      if x.Ok? {
        assert x.value + [] == x.value;
      }
    } else {
      var init := b[..|b| - 1];
      var last := b[|b| - 1];
      assert (a + b)[..|a + b| - 1] == a + init;
      assert (a + b)[|a + b| - 1] == last;
      AttrPiecesAppend(ad, a, init);
      ThenAssoc(AttrPieces(ad, a), AttrPieces(ad, init), Listed(AttrPiece(ad, last.0, last.1)));
    }
  }

  /** An attribute that is `undefined`, `null` or `false` leaves the output
      as if it were not there. */
  lemma OmittedAttribute(ad: AttrDialect, before: seq<(string, Value)>, name: string, v: Value, after: seq<(string, Value)>)
    requires v.Undefined? || v.Null? || v == Bool(false)
    ensures AttrPieces(ad, before + [(name, v)] + after) == AttrPieces(ad, before + after)
  {
    AttrPiecesAppend(ad, before + [(name, v)], after);
    AttrPiecesAppend(ad, before, [(name, v)]);
    assert [(name, v)][..0] == [];
    AttrPiecesAppend(ad, before, after);
    var a := AttrPieces(ad, before);
    if a.Ok? {
      assert a.value + [] == a.value;
    }
  }

  /** `renderAttributes`: a `for…in` loop pushing each attribute's pair. */
  method RenderAttributesLoop(ad: AttrDialect, attrs: Value) returns (r: Result<string>)
    ensures r == RenderAttributes(ad, attrs)
  {
    var es := Entries(attrs);
    var markup: seq<string> := [];
    for i := 0 to |es|
      invariant AttrPieces(ad, es[..i]) == Ok(markup)
    {
      AttrPiecesSnoc(ad, es, i);
      var piece := AttrPiece(ad, es[i].0, es[i].1);
      ThenListed(markup, piece);
      if piece.Err? {
        AttrPiecesPrefixErr(ad, es, i + 1);
        return Err(piece.error);
      }
      if piece.value.Some? {
        markup := markup + [piece.value.value];
      }
    }
    assert es[..|es|] == es;
    r := Ok(Join(markup, " "));
  }

  /** Pushing an optional pair: nothing for `None`, the pair for `Some`. */
  lemma ThenListed(acc: seq<string>, piece: Result<Option<string>>)
    ensures Then(Ok(acc), Listed(piece)) ==
      if piece.Err? then Err(piece.error)
      else if piece.value.Some? then Ok(acc + [piece.value.value])
      else Ok(acc)
  {
    if piece.Ok? && piece.value.None? {
      assert acc + [] == acc;
    }
  }

  lemma AttrPiecesSnoc(ad: AttrDialect, es: seq<(string, Value)>, i: nat)
    requires i < |es|
    ensures AttrPieces(ad, es[..i + 1]) == Then(AttrPieces(ad, es[..i]), Listed(AttrPiece(ad, es[i].0, es[i].1)))
  {
    assert es[..i + 1][..i] == es[..i];
    assert es[..i + 1][i] == es[i];
  }

  lemma {:induction false} AttrPiecesPrefixErr(ad: AttrDialect, props: seq<(string, Value)>, k: nat)
    requires k <= |props| && AttrPieces(ad, props[..k]).Err?
    ensures AttrPieces(ad, props) == AttrPieces(ad, props[..k])
  {
    assert props == props[..k] + props[k..];
    AttrPiecesAppend(ad, props[..k], props[k..]);
  }

  /** `tag` plus, when `attrs` is truthy and has a key, a space and the
      rendered attributes: the opening shared by every element renderer. */
  function OpenTag(ad: AttrDialect, tag: string, attrs: Value): Result<string> {
    if Truthy(attrs) && !IsEmpty(attrs) then
      var rendered :- RenderAttributes(ad, attrs);
      Ok("<" + tag + " " + rendered)
    else Ok("<" + tag)
  }

  /** `children && children.length` */
  predicate HasChildren(children: Option<seq<Value>>) {
    children.Some? && |children.value| > 0
  }

  /** The void elements of HTML, which html.js and jsx.js self-close. */
  const VoidElements: set<string> :=
    {"area", "base", "br", "col", "embed", "hr", "img", "input", "link", "meta",
     "param", "source", "track", "wbr"}

  /** `VOID_ERR` of html.js and jsx.js. */
  const VoidError: string := "Children given to self-closing element: "

  /** `isEmpty(obj)`: no key to enumerate. */
  predicate IsEmpty(obj: Value) {
    Entries(obj) == []
  }

  /** `isEmpty`: returns at the first key `for…in` visits. */
  method IsEmptyLoop(obj: Value) returns (b: bool)
    ensures b <==> IsEmpty(obj)
  {
    var es := Entries(obj);
    for i := 0 to |es|
      invariant i == 0
    {
      return false;
    }
    return true;
  }

  /** The opening, computed step by step as the renderers do. */
  method OpenTagLoop(ad: AttrDialect, tag: string, attrs: Value) returns (r: Result<string>)
    ensures r == OpenTag(ad, tag, attrs)
  {
    var html := "<" + tag;
    if Truthy(attrs) {
      var empty := IsEmptyLoop(attrs);
      if !empty {
        var rendered := RenderAttributesLoop(ad, attrs);
        if rendered.Err? {
          return Err(rendered.error);
        }
        html := html + " " + rendered.value;
      }
    }
    r := Ok(html);
  }

  /** `items.reduce(renderChild, []).join("")`, step by step. */
  method ChildrenTextLoop(d: Dialect, children: Option<seq<Value>>) returns (r: Result<string>)
    ensures r == ChildrenText(d, children)
  {
    var items := if children.Some? then children.value else [];
    var pieces := ReduceChildren(d, [], items);
    if pieces.Err? {
      return Err(pieces.error);
    }
    var x := PiecesOf(d, items);
    assert x.Ok?;
    assert [] + x.value == x.value;
    r := Ok(Concat(pieces.value));
  }

  // ---------------------------------------------------------------------
  // Markup objects and the tag dispatch

  /** `markup.toString(fmt)`: the value, or with the doctype when asked for
      `"doctype"`; any other format is a `RangeError`. jsx.js's `Html`
      ignores the format. */
  function MarkupToString(m: Value, fmt: Value): (r: Result<string>)
    requires m.MarkupObj?
    ensures m.cls == LegacyHtml ==> r == Ok(m.value)
    ensures fmt.Undefined? ==> r == Ok(ToString(m))
    ensures fmt == Str("doctype") ==> r == Ok(ValueOf(m))
    ensures m.cls != LegacyHtml && !fmt.Undefined? && fmt != Str("doctype") ==> r.Err?
  {
    if m.cls == LegacyHtml then Ok(m.value)
    else if fmt.Undefined? then Ok(m.value)
    else if fmt == Str("doctype") then Ok(Doctype(m.cls) + m.value)
    else
      match Concatenated(if m.cls == LegacyMarkup then "Invalid HTML format: " else "Invalid format: ", fmt)
      case Ok(message) => Err(RangeError(message))
      case Err(e) => Err(e)
  }

  /** `markup.valueOf()`: the doctype, then the value. */
  function ValueOf(m: Value): (r: string)
    requires m.MarkupObj?
    ensures r == Doctype(m.cls) + ToString(m)
    ensures m.cls == LegacyHtml || m.cls == LegacyMarkup || m.cls == BaseMarkup ==> r == ToString(m)
  {
    Doctype(m.cls) + m.value
  }

  /** What `jsx` does with a tag. */
  datatype Dispatched = CallComponent(component: Value) | RenderTag(name: string)

  /** `jsx(render, tagName, attrs, children)`: a function is called, a
      string rendered, anything else a `TypeError`. */
  function Dispatch(tag: Value): (r: Result<Dispatched>)
    ensures r.Ok? <==> Typeof(tag) == "function" || Typeof(tag) == "string"
    ensures r.Ok? && r.value.RenderTag? ==> tag == Str(r.value.name)
    ensures r.Ok? && r.value.CallComponent? ==> r.value.component == tag
  {
    match tag
    case Fn(_) => Ok(CallComponent(tag))
    case Str(s) => Ok(RenderTag(s))
    case _ => Thrown("Tag must be a function or string: ", tag)
  }
}
