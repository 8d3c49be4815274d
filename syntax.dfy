/** The parsed program the compiler of lib/js.js walks: acorn's nodes, each
    with the absolute `start` and `end` of its source range, reduced to the
    kinds the compiler looks at. */
module Syntax {
  import opened Wrappers

  /** The name of a JSX tag or attribute. */
  datatype Name =
    | Ident(start: int, end: int, id: string)                      // JSXIdentifier
    | Namespaced(start: int, end: int, ns: Name, local: Name)      // JSXNamespacedName
    | Member(start: int, end: int, base: Name, property: Name)     // JSXMemberExpression: base.property
    | OtherName(start: int, end: int, kind: string)                // any other node type

  datatype Node =
      /** `<name attrs…>children</name>` or `<name attrs… />`; `openEnd` is
          the end of the opening tag. */
    | Element(start: int, end: int, openEnd: int, name: Name, attrs: seq<Attr>, children: seq<Node>)
      /** `<>children</>` */
    | Fragment(start: int, end: int, children: seq<Node>)
      /** `{expression}` */
    | Container(start: int, end: int, expression: Node)
      /** The nothing inside `{}` or `{/* comment */}`. */
    | EmptyExpression(start: int, end: int)
      /** Literal text between tags; `value` is the text as acorn-jsx decodes it,
          with character references resolved. */
    | Text(start: int, end: int, value: string)
      /** Any JavaScript node, with the nodes acorn-walk visits inside it, in order. */
    | Script(start: int, end: int, kind: string, kids: seq<Node>)

  datatype Attr =
      /** `name`, `name="literal"`, `name={expression}` or `name=<element />` */
    | Attribute(start: int, end: int, name: Name, value: Option<Node>)
      /** `{...argument}` */
    | Spread(start: int, end: int, argument: Node)
      /** Any other node in an attribute list. */
    | OtherAttr(start: int, end: int, kind: string)

  /** acorn's `type` of a node. */
  function KindOf(n: Node): string {
    match n
    case Element(_, _, _, _, _, _) => "JSXElement"
    case Fragment(_, _, _) => "JSXFragment"
    case Container(_, _, _) => "JSXExpressionContainer"
    case EmptyExpression(_, _) => "JSXEmptyExpression"
    case Text(_, _, _) => "JSXText"
    case Script(_, _, kind, _) => kind
  }

  function NameKind(n: Name): string {
    match n
    case Ident(_, _, _) => "JSXIdentifier"
    case Namespaced(_, _, _, _) => "JSXNamespacedName"
    case Member(_, _, _, _) => "JSXMemberExpression"
    case OtherName(_, _, kind) => kind
  }

  /** Sizes that bound the depth of the compiler's recursion. */
  function NodeSize(n: Node): nat {
    match n
    case Element(_, _, _, _, attrs, children) => 1 + AttrsSize(attrs) + NodesSize(children)
    case Fragment(_, _, children) => 1 + NodesSize(children)
    case Container(_, _, e) => 1 + NodeSize(e)
    case Script(_, _, _, kids) => 1 + NodesSize(kids)
    case _ => 1
  }

  function NodesSize(ns: seq<Node>): nat {
    if ns == [] then 0 else NodeSize(ns[0]) + NodesSize(ns[1..])
  }

  function AttrSize(a: Attr): nat {
    match a
    case Attribute(_, _, _, value) => if value.Some? then 1 + NodeSize(value.value) else 1
    case Spread(_, _, arg) => 1 + NodeSize(arg)
    case OtherAttr(_, _, _) => 1
  }

  function AttrsSize(attrs: seq<Attr>): nat {
    if attrs == [] then 0 else AttrSize(attrs[0]) + AttrsSize(attrs[1..])
  }

  lemma {:induction false} NodesSizeBounds(ns: seq<Node>, k: nat)
    requires k < |ns|
    ensures NodeSize(ns[k]) <= NodesSize(ns)
  {
    if k > 0 {
      NodesSizeBounds(ns[1..], k - 1);
    }
  }

  lemma {:induction false} AttrsSizeBounds(attrs: seq<Attr>, k: nat)
    requires k < |attrs|
    ensures AttrSize(attrs[k]) <= AttrsSize(attrs)
  {
    if k > 0 {
      AttrsSizeBounds(attrs[1..], k - 1);
    }
  }

  lemma {:induction false} AttrsSizeAppend(a: seq<Attr>, b: seq<Attr>)
    ensures AttrsSize(a + b) == AttrsSize(a) + AttrsSize(b)
  {
    if a == [] {
      assert a + b == b;
    } else {
      assert (a + b)[1..] == a[1..] + b;
      AttrsSizeAppend(a[1..], b);
    }
  }

  /** Whether a node holds JSX anywhere that the walk reaches. */
  predicate HasJsx(n: Node) {
    match n
    case Element(_, _, _, _, _, _) => true
    case Fragment(_, _, _) => true
    case Container(_, _, _) => true
    case Script(_, _, _, kids) => exists k | 0 <= k < |kids| :: HasJsx(kids[k])
    case _ => false
  }
}
