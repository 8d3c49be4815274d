/** The JavaScript values the runtime renderers and `assign` receive, and
    the few operations on them the source relies on: `typeOf`, `String(v)`,
    truthiness and `for…in` enumeration. */
module Values {
  import opened Wrappers
  import opened Chars

  /** The classes of markup object the renderers tell apart with
      `instanceof`. */
  datatype MarkupClass =
    | BaseMarkup    // `Markup` of lib/markup.js
    | HtmlMarkup    // `Html` of html.js, a lib/markup.js `Markup` with the HTML doctype
    | XmlMarkup     // `Xml` of xml.js, a lib/markup.js `Markup` with the XML declaration
    | LegacyHtml    // `Html` of jsx.js, a class of its own
    | LegacyMarkup  // `Markup` of lib/jsx.js, a class of its own

  /** A JavaScript value. A number carries its canonical string form; a plain
      object carries its own enumerable properties in `for…in` order and what
      `String(obj)` gives for it; a function carries its source text. */
  datatype Value =
    | Undefined
    | Null
    | Bool(b: bool)
    | Num(repr: string)
    | Str(s: string)
    | Arr(items: seq<Value>)
    | Obj(props: seq<(string, Value)>, str: string)
    | MarkupObj(cls: MarkupClass, value: string)
    | Fn(source: string)
    | Sym(description: string)

  /** JavaScript's `typeof` operator. */
  function Typeof(v: Value): string {
    match v
    case Undefined => "undefined"
    case Null => "object"
    case Bool(_) => "boolean"
    case Num(_) => "number"
    case Str(_) => "string"
    case Arr(_) => "object"
    case Obj(_, _) => "object"
    case MarkupObj(_, _) => "object"
    case Fn(_) => "function"
    case Sym(_) => "symbol"
  }

  /** `typeOf`: `typeof`, with `null` and arrays told apart from other
      objects. */
  function TypeOf(v: Value): (t: string)
    ensures t == "null" <==> v.Null?
    ensures t == "array" <==> v.Arr?
    ensures t == "object" <==> v.Obj? || v.MarkupObj?
    ensures Typeof(v) == "object" <==> t in {"null", "array", "object"}
    ensures Typeof(v) != "object" ==> t == Typeof(v)
  {
    if v.Null? then "null" else if v.Arr? then "array" else Typeof(v)
  }

  /** Whether an `instanceof` test against `cls`'s class holds for `v`: the
      classes of html.js and xml.js inherit from lib/markup.js's `Markup`. */
  predicate InstanceOf(v: Value, cls: MarkupClass) {
    && v.MarkupObj?
    && (v.cls == cls || (cls == BaseMarkup && v.cls in {HtmlMarkup, XmlMarkup}))
  }

  /** The `doctype` a markup object's prototype carries; jsx.js's `Html` has
      none, and its `valueOf` returns the bare value. */
  function Doctype(cls: MarkupClass): string {
    match cls
    case HtmlMarkup => "<!DOCTYPE html>\n"
    case XmlMarkup => "<?xml version=\"1.0\" encoding=\"utf-8\" ?>\n"
    case _ => ""
  }

  /** `String(v)`. A markup object's `toString()` without a format returns
      its value. */
  function ToString(v: Value): string {
    match v
    case Undefined => "undefined"
    case Null => "null"
    case Bool(b) => if b then "true" else "false"
    case Num(repr) => repr
    case Str(s) => s
    case Arr(items) => Join(ItemStrings(items), ",")
    case Obj(_, str) => str
    case MarkupObj(_, value) => value
    case Fn(source) => source
    case Sym(description) => "Symbol(" + description + ")"
  }

  /** What `Array.prototype.join` writes for each item: nothing for
      `undefined` and `null`. */
  function ItemStrings(items: seq<Value>): (r: seq<string>)
    ensures |r| == |items|
    decreases items
  {
    if items == [] then []
    else
      [if items[0].Undefined? || items[0].Null? then "" else ToString(items[0])] + ItemStrings(items[1..])
  }

  /** Truthiness: `undefined`, `null`, `false`, `0`, `-0`, `NaN` and `""` are
      falsy. */
  predicate Truthy(v: Value) {
    match v
    case Undefined => false
    case Null => false
    case Bool(b) => b
    case Num(repr) => repr != "0" && repr != "NaN"
    case Str(s) => s != ""
    case _ => true
  }

  /** `v == null`: loose equality with `null` holds for `null` and
      `undefined` only. */
  predicate IsNullish(v: Value) {
    v.Undefined? || v.Null?
  }

  /** The decimal digits of a non-negative integer. */
  function DecimalString(n: nat): (r: string)
    ensures |r| > 0
    ensures forall i | 0 <= i < |r| :: '0' <= r[i] <= '9'
  {
    if n < 10 then [Digit(n)] else DecimalString(n / 10) + [Digit(n % 10)]
  }

  function Digit(d: nat): (c: char)
    requires d < 10
    ensures '0' <= c <= '9'
  {
    (48 + d) as char
  }

  /** The digits read back as a number. */
  function DecimalValue(s: string): nat
    requires forall i | 0 <= i < |s| :: '0' <= s[i] <= '9'
  {
    if s == [] then 0 else 10 * DecimalValue(s[..|s| - 1]) + ((s[|s| - 1] as int) - 48)
  }

  /** Array and string indices name distinct keys. */
  lemma {:induction false} DecimalRoundTrip(n: nat)
    ensures DecimalValue(DecimalString(n)) == n
  {
    if n >= 10 {
      DecimalRoundTrip(n / 10);
      var s := DecimalString(n);
      assert s[..|s| - 1] == DecimalString(n / 10);
    }
  }

  /** The own `key, value` pairs `for (key in v) … v[key]` visits, in the
      order the value holds them. A string and an array enumerate their
      indices; other primitives and functions enumerate nothing. Properties
      inherited from a prototype, such as the `valueOf` and `toString` that
      lib/markup.js assigns onto `Markup.prototype`, are not listed. */
  function Entries(v: Value): seq<(string, Value)> {
    match v
    case Obj(props, _) => props
    case Str(s) => seq(|s|, i requires 0 <= i < |s| => (DecimalString(i), Str([s[i]])))
    case Arr(items) => seq(|items|, i requires 0 <= i < |items| => (DecimalString(i), items[i]))
    case MarkupObj(_, value) => [("value", Str(value))]
    case _ => []
  }

  /** The value under `key` in a property list whose keys are distinct. */
  function Lookup(props: seq<(string, Value)>, key: string): (r: Option<Value>)
    ensures r.None? <==> forall i | 0 <= i < |props| :: props[i].0 != key
  {
    if props == [] then None
    else if props[0].0 == key then Some(props[0].1)
    else Lookup(props[1..], key)
  }

  /** The keys of a property list, in order. */
  function Keys(props: seq<(string, Value)>): (r: seq<string>)
    ensures |r| == |props| && forall i | 0 <= i < |props| :: r[i] == props[i].0
  {
    seq(|props|, i requires 0 <= i < |props| => props[i].0)
  }

  predicate DistinctKeys(props: seq<(string, Value)>) {
    forall i, j | 0 <= i < j < |props| :: props[i].0 != props[j].0
  }
}
