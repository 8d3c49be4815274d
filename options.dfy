/** compiler.js around the lowering: the `@jsx` pragma its `onComment`
    callback picks out of block comments, the `sourceType` the
    `ecmaVersion` option selects, and how `parseAndCompile` merges the
    pragma with explicit options into a `Compiler`. */
module Options {
  import opened Wrappers
  import opened Chars
  import opened Values
  import opened JsObjects
  import opened Lowering

  /** `[ \t]` */
  predicate IsBlankOrTab(c: char) {
    c == ' ' || c == '\t'
  }

  /** The pragma regular expression of `onComment` and its group, on the
      comment's body: a `*`, optional spaces and tabs, `@jsx`, at least one
      space or tab, and the name, the longest run of characters that are not
      white space. */
  function MatchPragma(comment: string): (r: Option<string>)
    ensures r.Some? ==> |r.value| > 0 && forall i | 0 <= i < |r.value| :: !IsJsSpace(r.value[i])
  {
    if |comment| == 0 || comment[0] != '*' then None
    else AfterStar(comment[1..])
  }

  /** The pattern after its `*`: the optional spaces and tabs. */
  function AfterStar(s: string): (r: Option<string>)
    ensures r.Some? ==> |r.value| > 0 && forall i | 0 <= i < |r.value| :: !IsJsSpace(r.value[i])
  {
    AtJsx(s[PrefixEnd(s, IsBlankOrTab)..])
  }

  /** The pattern from `@jsx` on. */
  function AtJsx(t: string): (r: Option<string>)
    ensures r.Some? ==> |r.value| > 0 && forall i | 0 <= i < |r.value| :: !IsJsSpace(r.value[i])
  {
    if |t| < 4 || t[..4] != "@jsx" then None else AfterJsx(t[4..])
  }

  /** The pattern after `@jsx`: at least one space or tab, then the name. */
  function AfterJsx(u: string): (r: Option<string>)
    ensures r.Some? ==> |r.value| > 0 && forall i | 0 <= i < |r.value| :: !IsJsSpace(r.value[i])
  {
    var b := PrefixEnd(u, IsBlankOrTab);
    if b == 0 then None else NameAt(u[b..])
  }

  /** The group: the longest run of characters that are not white space,
      which must not be empty. */
  function NameAt(v: string): (r: Option<string>)
    ensures r.Some? ==> |r.value| > 0 && forall i | 0 <= i < |r.value| :: !IsJsSpace(r.value[i])
  {
    var n := PrefixEnd(v, NotSpace);
    if n == 0 then None else Some(v[..n])
  }

  predicate NotSpace(c: char) {
    !IsJsSpace(c)
  }

  /** The pragma a comment holds, written out: `*`, the white space `ws1`
      (spaces and tabs only), `@jsx`, the non-empty `ws2`, the name, and
      whatever follows it when that starts with white space. */
  predicate PragmaShape(comment: string, ws1: string, ws2: string, name: string, rest: string) {
    && comment == "*" + ws1 + "@jsx" + ws2 + name + rest
    && (forall i | 0 <= i < |ws1| :: IsBlankOrTab(ws1[i]))
    && |ws2| > 0 && (forall i | 0 <= i < |ws2| :: IsBlankOrTab(ws2[i]))
    && |name| > 0 && (forall i | 0 <= i < |name| :: !IsJsSpace(name[i]))
    && (rest == [] || IsJsSpace(rest[0]))
  }

  /** A comment as the parser reports it to `onComment`. */
  datatype Comment = Comment(isBlock: bool, text: string)

  /** The factory the comments set, in the order they arrive: the first
      block comment holding a pragma decides. */
  function ScanFactory(comments: seq<Comment>): Option<string>
    decreases |comments|
  {
    if comments == [] then None
    else
      var earlier := ScanFactory(comments[..|comments| - 1]);
      var c := comments[|comments| - 1];
      if !c.isBlock || earlier.Some? then earlier else MatchPragma(c.text)
  }

  /** A comment that sets the factory when none is set yet. */
  predicate SetsFactory(c: Comment) {
    c.isBlock && MatchPragma(c.text).Some?
  }

  /** Some factory is found exactly when a block comment holds a pragma. */
  lemma {:induction false} ScanFactoryFinds(comments: seq<Comment>)
    ensures ScanFactory(comments).Some? <==> exists k | 0 <= k < |comments| :: SetsFactory(comments[k])
    decreases |comments|
  {
    if comments != [] {
      var init := comments[..|comments| - 1];
      ScanFactoryFinds(init);
      if exists k | 0 <= k < |init| :: SetsFactory(init[k]) {
        var k :| 0 <= k < |init| && SetsFactory(init[k]);
        assert SetsFactory(comments[k]);
      }
      if exists k | 0 <= k < |comments| :: SetsFactory(comments[k]) {
        var k :| 0 <= k < |comments| && SetsFactory(comments[k]);
        if k < |init| {
          assert SetsFactory(init[k]);
        }
      }
    }
  }

  /** The first block comment holding a pragma names the factory; every
      comment after it is ignored. */
  lemma {:induction false} ScanFactoryFirstMatch(comments: seq<Comment>, k: nat)
    requires k < |comments| && SetsFactory(comments[k])
    requires forall j | 0 <= j < k :: !SetsFactory(comments[j])
    ensures ScanFactory(comments) == MatchPragma(comments[k].text)
    decreases |comments|
  {
    var init := comments[..|comments| - 1];
    if k < |init| {
      assert forall j | 0 <= j <= k :: init[j] == comments[j];
      ScanFactoryFirstMatch(init, k);
    } else {
      ScanFactoryFinds(init);
      assert forall j | 0 <= j < |init| :: init[j] == comments[j];
    }
  }

  /** Line comments never set the factory. */
  lemma {:induction false} LineCommentsIgnored(comments: seq<Comment>, text: string)
    ensures ScanFactory(comments + [Comment(false, text)]) == ScanFactory(comments)
  {
    assert (comments + [Comment(false, text)])[..|comments|] == comments;
  }

  /** The `onComment` closure of `parse` and the `factory` variable it
      closes over. */
  class PragmaScanner {
    var factory: Option<string>

    constructor ()
      ensures factory == None
    {
      factory := None;
    }

    /** One comment: ignored when it is a line comment or a factory is
        already set, otherwise a pragma in it sets the factory. */
    method OnComment(isBlock: bool, comment: string)
      modifies this
      ensures factory == (if !isBlock || old(factory).Some? then old(factory) else MatchPragma(comment))
    {
      if !isBlock {
        return;
      }
      if factory.Some? {
        return;
      }
      var m := MatchPragma(comment);
      if m.Some? {
        factory := m;
      }
    }
  }

  /** The factory `parse` returns after the parser reported `comments`. */
  method ParseFactory(comments: seq<Comment>) returns (factory: Option<string>)
    ensures factory == ScanFactory(comments)
  {
    var scanner := new PragmaScanner();
    var k := 0;
    while k < |comments|
      invariant 0 <= k <= |comments|
      invariant scanner.factory == ScanFactory(comments[..k])
    {
      assert comments[..k + 1][..k] == comments[..k];
      scanner.OnComment(comments[k].isBlock, comments[k].text);
      k := k + 1;
    }
    assert comments[..k] == comments;
    factory := scanner.factory;
  }

  /** `opts && opts.ecmaVersion || "latest"`. */
  function EcmaVersion(opts: Option<seq<(string, Value)>>): (v: Value)
    ensures Truthy(v)
  {
    if opts.None? then Str("latest")
    else
      match Lookup(opts.value, "ecmaVersion")
      case Some(v) => if Truthy(v) then v else Str("latest")
      case None => Str("latest")
  }

  /** `v == s` for a string `s` holding a canonical number, as JavaScript's
      loose equality compares them: a number by its value, an object by its
      primitive value, a boolean as 0 or 1, never `null` or `undefined`. */
  predicate LooseEqualsNumeral(v: Value, s: string)
    requires s in {"3", "5"}
  {
    match v
    case Str(t) => t == s
    case Num(repr) => repr == s
    case Obj(_, str) => str == s
    case Arr(_) => ToString(v) == s
    case MarkupObj(cls, value) => (if cls == LegacyHtml then value else Doctype(cls) + value) == s
    case Fn(source) => source == s
    case _ => false
  }

  /** `ecmaVersion == "3" || ecmaVersion == "5" ? "script" : "module"`. */
  function SourceType(ecmaVersion: Value): (t: string)
    ensures t == "script" <==> LooseEqualsNumeral(ecmaVersion, "3") || LooseEqualsNumeral(ecmaVersion, "5")
    ensures t == "script" || t == "module"
  {
    if LooseEqualsNumeral(ecmaVersion, "3") || LooseEqualsNumeral(ecmaVersion, "5") then "script" else "module"
  }

  /** Without options the parser reads the latest ECMAScript as a module;
      versions 3 and 5, as strings or numbers, are read as scripts, and any
      other string as a module. */
  lemma SourceTypeChoices(s: string)
    ensures SourceType(EcmaVersion(None)) == "module"
    ensures SourceType(Str("3")) == "script" && SourceType(Num("5")) == "script"
    ensures s != "3" && s != "5" ==> SourceType(Str(s)) == "module"
  {
    assert EcmaVersion(None) == Str("latest");
    assert "latest" != "3" && "latest" != "5";
  }

  /** `new Compiler(opts)`: `factory` and `assign` are taken unless null or
      undefined, the fragment and component factories unless undefined;
      the factories that are only tested for truthiness keep their string
      form when truthy. */
  function NewCompiler(opts: Option<seq<(string, Value)>>): (c: Compiler)
    ensures opts.None? ==> c == DefaultCompiler
    ensures opts.Some? && Lookup(opts.value, "factory").Some? && !IsNullish(Lookup(opts.value, "factory").value) ==>
      c.factory == ToString(Lookup(opts.value, "factory").value)
    ensures opts.Some? && (Lookup(opts.value, "factory").None? || IsNullish(Lookup(opts.value, "factory").value)) ==>
      c.factory == "Jsx"
  {
    if opts.None? then DefaultCompiler
    else
      var props := opts.value;
      Compiler(
        Setting(props, "factory", "Jsx"),
        Switch(props, "fragmentFactory"),
        Switch(props, "componentFactory"),
        Setting(props, "assign", "Object.assign"))
  }

  /** A setting copied when not null or undefined. */
  function Setting(props: seq<(string, Value)>, key: string, default: string): string {
    match Lookup(props, key)
    case Some(v) => if IsNullish(v) then default else ToString(v)
    case None => default
  }

  /** A setting copied unless undefined, then used by its truthiness. */
  function Switch(props: seq<(string, Value)>, key: string): Option<string> {
    match Lookup(props, key)
    case Some(v) => if Truthy(v) then Some(ToString(v)) else None
    case None => None
  }

  /** The options `parseAndCompile` hands to `compile`:
      `assign({factory: parsed.factory}, opts)`. */
  function MergedOptions(pragma: Option<string>, opts: Value): seq<(string, Value)> {
    AssignAll([("factory", if pragma.Some? then Str(pragma.value) else Null)], [opts])
  }

  /** An explicit `factory` option overrides the pragma, and a null or
      undefined one leaves `Jsx`; without one, the pragma names the factory,
      and without either the factory is `Jsx`. */
  lemma FactoryPrecedence(pragma: Option<string>, opts: Value)
    ensures var c := NewCompiler(Some(MergedOptions(pragma, opts)));
      && (LookupLast(Entries(opts), "factory").Some? && !IsNullish(LookupLast(Entries(opts), "factory").value) ==>
            c.factory == ToString(LookupLast(Entries(opts), "factory").value))
      && (LookupLast(Entries(opts), "factory").Some? && IsNullish(LookupLast(Entries(opts), "factory").value) ==>
            c.factory == "Jsx")
      && (LookupLast(Entries(opts), "factory").None? && pragma.Some? ==> c.factory == pragma.value)
      && (LookupLast(Entries(opts), "factory").None? && pragma.None? ==> c.factory == "Jsx")
  {
    var seed: seq<(string, Value)> := [("factory", if pragma.Some? then Str(pragma.value) else Null)];
    AssignLaterWins(seed, [opts], "factory");
    assert [opts][..0] == [];
  }
}
