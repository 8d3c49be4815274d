/** How lib/js.js classifies a tag name and writes tag, attribute and
    component names into the emitted JavaScript. */
module Names {
  import opened Wrappers
  import opened Quoting
  import opened Syntax

  /** `isElementName`: a plain identifier starting with a lower-case ASCII
      letter, or any namespaced name, names an element; everything else names
      a component. */
  predicate IsElementName(n: Name) {
    || (n.Ident? && |n.id| > 0 && 'a' <= n.id[0] <= 'z')
    || n.Namespaced?
  }

  /** `renderName`: only an identifier has a name of its own. */
  function RenderName(n: Name): (r: Result<string>)
    ensures r.Ok? <==> n.Ident?
    ensures r.Ok? ==> r.value == n.id
    ensures r.Err? ==> r.error == UnsupportedName(NameKind(n))
  {
    if n.Ident? then Ok(n.id) else Err(UnsupportedName(NameKind(n)))
  }

  /** The name an element or a namespaced attribute denotes: the identifier,
      or `namespace:local`. */
  function QualifiedName(n: Name): Result<string> {
    match n
    case Ident(_, _, id) => Ok(id)
    case Namespaced(_, _, ns, local) =>
      if !ns.Ident? then Err(UnsupportedName(NameKind(ns)))
      else if !local.Ident? then Err(UnsupportedName(NameKind(local)))
      else Ok(ns.id + ":" + local.id)
    case _ => Err(UnsupportedName(NameKind(n)))
  }

  /** `renderElementName`: the element's name as a string literal. */
  function RenderElementName(n: Name): (r: Result<string>)
    ensures r.Ok? <==> QualifiedName(n).Ok?
    ensures r.Ok? ==> Unquote(r.value) == Some(QualifiedName(n).value)
  {
    match QualifiedName(n)
    case Ok(q) => QuoteRoundTrip(q); Ok(Quote(q))
    case Err(e) => Err(e)
  }

  /** `renderAttributeName`: a key of the props object literal. */
  function RenderAttributeName(n: Name): (r: Result<string>)
    ensures r.Ok? <==> QualifiedName(n).Ok?
    ensures r.Ok? ==> KeyName(r.value) == Some(QualifiedName(n).value)
    ensures r.Ok? && n.Ident? ==> (r.value == n.id <==> IsPlainKey(n.id))
  {
    match n
    case Ident(_, _, id) => KeyifyRoundTrip(id); Ok(Keyify(id))
    case Namespaced(_, _, _, _) =>
      (match QualifiedName(n)
       case Ok(q) =>
         QuoteRoundTrip(q);
         assert Quote(q)[0] == '"';
         Ok(Quote(q))
       case Err(e) => Err(e))
    case _ => Err(UnsupportedName(NameKind(n)))
  }

  /** `renderVariableName`: a component reference, `Name` or `object.property`;
      a deeper member chain is refused because its object is not an identifier. */
  function RenderVariableName(n: Name): (r: Result<string>)
    ensures r.Ok? <==> n.Ident? || (n.Member? && n.base.Ident? && n.property.Ident?)
    ensures r.Ok? && n.Ident? ==> r.value == n.id
    ensures r.Ok? && n.Member? ==> r.value == n.base.id + "." + n.property.id
    ensures r.Err? ==> r.error.UnsupportedName?
  {
    match n
    case Ident(_, _, id) => Ok(id)
    case Member(_, _, base, property) =>
      (match RenderName(base)
       case Err(e) => Err(e)
       case Ok(o) =>
         match RenderName(property)
         case Err(e) => Err(e)
         case Ok(p) => Ok(o + "." + p))
    case _ => Err(UnsupportedName(NameKind(n)))
  }
}
