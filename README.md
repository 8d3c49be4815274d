# j6pack in Dafny

A model of j6pack, a JSX compiler and markup renderer for JavaScript, with
proofs about it. The repository has two halves, and both are modelled.

**The compiler** (lib/js.js, compiler.js) lowers JSX inside JavaScript
source to plain function calls.
- The tree walk produces one text edit per element or fragment.
- The braces of each expression container are deleted.
- All edits are then spliced into the source.
- The model covers tag-name classification, call heads, `null`
  placeholders, grouping and merging of attributes, the whitespace and
  comma rules for children, string and key quoting, `OffsetText`, and the
  splicer.
- It also covers the `@jsx` pragma scanner, the `sourceType` choice and
  the precedence of options.

**The runtime renderers** turn the calls into markup: lib/markup.js,
html.js and xml.js, the older jsx.js and lib/jsx.js, and the `assign` and
`typeOf` helpers of lib/index.js. The model covers:
- the text, attribute and `<script>` escapes, with a decoder for each
  entity escape;
- flattening of child arrays, and omission of `undefined`, `null` and
  `false` attributes;
- void elements, XML self-closing, doctypes, and dispatch on the tag's
  type.

**Layout.**
- One module per concern: `Chars`, `Quoting`, `OffsetTexts`, `Splicing`,
  `Syntax`, `Names`, `TextChildren`, `Lowering`, `LoweringFacts`,
  `AttributeFacts`, `MergeExample`, `Compiling`, `Values`, `JsObjects`, `Options`, `PragmaFacts`,
  `Entities`, `Escapes`, `Rendering`, `HtmlRendering`, `XmlRendering` and
  `LegacyJsx`.
- The lowering is a set of recursive functions over a syntax-tree
  datatype that carries absolute offsets (`Lowering`).
- The source's loops are methods in `Compiling`, `Splicing`, `Rendering`,
  `TextChildren` and the renderer modules. Each is proved to compute what
  those functions define.
- `assign` mutates its target in place, so it is a method on the class
  `JsObjects.JsObject`.
- The `onComment` closure keeps its factory in the class
  `Options.PragmaScanner`.

**Values.** JavaScript values are a tagged union (`Values.Value`):
- a number carries its canonical string form;
- a plain object carries its own properties in `for…in` order and its
  `String(obj)`;
- a markup object carries its class (`Markup`, html.js's `Html`, `Xml`,
  jsx.js's `Html`, lib/jsx.js's `Markup`) and its value.

The five child renderers share one definition, `Rendering.Pieces`, which
takes a `Dialect` parameter: lib/markup.js, html.js's `<script>` child
renderer (corrected and as written), lib/jsx.js and jsx.js. The two
attribute renderers share `Rendering.AttrPiece` in the same way.

## Model

| member | source | states |
|---|---|---|
| Chars.ConcatAppend | lib/js.js:286 | joining pieces with "" distributes over concatenation of the piece lists |
| Chars.Split | lib/js.js:242 | splitting on `\n` gives at least one piece, no piece holds `\n`, and joining the pieces with `\n` gives the text back |
| Chars.SplitJoin | lib/js.js:242 | splitting a join of separator-free pieces returns exactly those pieces |
| Chars.ReplaceAllCharAppend | lib/markup.js:73-76 | a global one-character replace distributes over concatenation |
| Chars.ReplaceAllCharAbsent | lib/markup.js:73-76 | replacing a character that does not occur leaves the text unchanged |
| Chars.SuffixStart | lib/js.js:284 | the position where the trailing run of a character class begins: every later character is in the class, the one before is not |
| Chars.PrefixEnd | compiler.js:37 | the end of the leading run of a character class: every earlier character is in the class, the next one is not |
| Quoting.UnescapeEscapeBody | lib/js.js:400-406 | reading the escaped body back gives the original text |
| Quoting.QuoteRoundTrip | lib/js.js:399-407 | `quote(s)` is a double-quoted literal that denotes exactly `s` |
| Quoting.EscapeBodyHasNoLineBreak | lib/js.js:401-403 | a quoted literal never holds a raw CR or LF |
| Quoting.QuotePlain | lib/js.js:399-407 | text without `\`, `"`, CR and LF is quoted verbatim between double quotes, so every other character (U+00A0 included) passes through |
| Quoting.KeyifyRoundTrip | lib/js.js:394-397 | `keyify(name)` reads back as `name`, and it is the bare name exactly when the name is an identifier `[$_a-zA-Z][$_0-9a-zA-Z]*` |
| OffsetTexts.SliceIndex | lib/js.js:304-306 | a `slice` index counts from the end when negative, is clamped to the string's bounds, and is itself when already inside them |
| OffsetTexts.JsSlice | lib/js.js:391 | `s.slice(b, e)` with indices inside the string is the substring `s[b..e]` (to the end when `e` is `undefined`) |
| OffsetTexts.JsSliceBounds | lib/js.js:304-307 | a slice is never longer than the string, and is empty when it starts at or past the end |
| OffsetTexts.OffsetText.DropClosingSlash | lib/js.js:310-312 | `replace` on an `OffsetText` keeps its offset |
| OffsetTexts.WholeView | lib/js.js:292-295 | a plain text is a view of itself at offset 0 |
| OffsetTexts.SliceInside | lib/js.js:303-308 | slicing by absolute positions inside the text takes exactly those characters, and the new offset is the start position |
| OffsetTexts.SliceOfView | lib/js.js:303-308 | slicing a view of the source by absolute positions inside it gives the view of exactly those positions of the source |
| OffsetTexts.SliceOfViewToEnd | lib/js.js:303-308 | slicing a view to its end gives the source from that absolute position to the view's end |
| OffsetTexts.SliceTwice | lib/js.js:303-308 | two successive slices by absolute positions equal one direct slice |
| OffsetTexts.CharAtOfView | lib/js.js:314-316 | `charAt` at an absolute position inside a view reads the source's character there |
| OffsetTexts.SliceStringAsView | lib/js.js:320-323 | the static `OffsetText.slice` of a plain string gives offset `start`, and agrees with slicing the string's view at offset 0 |
| Splicing.SpliceInRange | lib/js.js:390-392 | with indices inside the string, `splice(s, i, j, r)` keeps what lies before `i` and from `j` on, with `r` between them |
| Splicing.SpliceBySlices | lib/js.js:391 | for any indices, `splice` is the two `slice` calls with JavaScript's index clamping around the new text |
| Splicing.ApplyReplacements | lib/js.js:370-388 | the reduce with its running `added` delta computes the splice fold over the edits, after the view's base offset is subtracted |
| Splicing.SpliceAfter | lib/js.js:384 | one splice, with positions shifted by the running delta, replaces exactly the edit's range of the original |
| Splicing.ApplyFromRebuilds | lib/js.js:379-387 | invariant of the reduce: the rebuilt head plus the untouched rest, with the right delta, ends as the reference rebuild |
| Splicing.ApplyAllRebuilds | lib/js.js:370-388 | for edits in document order, without overlap and inside the text, the result replaces each edit's range by its text and copies everything else |
| Splicing.ApplyNothing | lib/js.js:379 | with no edits the text comes back unchanged |
| Splicing.RebuiltKeepsOutside | lib/js.js:384 | the text before the first edit and after the last one is copied verbatim |
| Names.RenderName | lib/js.js:332-335 | only an identifier has a name; any other node throws "Unsupported name node" with its type |
| Names.RenderElementName | lib/js.js:337-346 | an identifier or `ns:local` name becomes a string literal that reads back as that name; anything else throws |
| Names.RenderAttributeName | lib/js.js:348-357 | an attribute name becomes an object key that reads back as the (possibly namespaced) name, bare exactly for identifiers |
| Names.RenderVariableName | lib/js.js:359-368 | a component reference is `Name` or `Object.Property` of identifiers; any other shape throws "Unsupported name node" |
| TextChildren.LastIndexWhere | lib/js.js:409-412 | the last index satisfying the test, or -1: no later element satisfies it |
| TextChildren.FindLastIndex | lib/js.js:409-412 | the loop from the end returns that last index |
| TextChildren.Trim | lib/js.js:252 | a line splits into leading horizontal blanks (space, tab, vertical tab or form feed), a body that starts and ends with none of them, and trailing horizontal blanks |
| TextChildren.RenderLine | lib/js.js:245-263 | blank lines pass raw; a non-blank line holding CR, U+2028 or U+2029 throws TypeError (the trimming expression's `.` cannot match it, so `m` is null); every other line renders |
| TextChildren.LineEnds | lib/js.js:254-262 | a non-blank line before the last non-blank one ends in a literal closed by a space and then ` +`; the last non-blank line ends in a bare literal, which drops the line's trailing space, tab, vertical tab or form feed |
| TextChildren.RenderLines | lib/js.js:245-263 | one rendered line per input line, failing exactly when some non-blank line cannot be matched |
| TextChildren.TextChild | lib/js.js:233-266 | an all-blank text child is raw when first, last or holding `\n`, and otherwise quoted; a text child throws only when a non-blank part holds a line terminator other than `\n` |
| TextChildren.WithComma | lib/js.js:284-285 | a comma goes before the trailing white space, followed by a space exactly when no line break ends the item or starts the next one |
| TextChildren.TrailsInSpace | lib/js.js:285 | whether the text ends in a line break followed only by white space is decided by its trailing white space |
| TextChildren.TrailingNewlineAfterComma | lib/js.js:284-285 | inserting the comma before the trailing white space does not change whether the item ends in a line break |
| TextChildren.CommasRule | lib/js.js:280-286 | the last item, a blank item, and an item followed only by a blank last item are unchanged; every other item gets a comma before its trailing white space |
| Lowering.ExtendRun | lib/js.js:119-120 | a named attribute after a run joins that run, and the grouping stays well formed and in order |
| Lowering.AddGroup | lib/js.js:121-124 | a spread, or a named attribute after a spread, starts a group of its own |
| Lowering.Groups | lib/js.js:116-127 | grouping succeeds iff no attribute is of another node type, and then throws for the first such attribute's type; the groups hold the attributes in order, with runs of named attributes and a group per spread |
| Lowering.GroupStep | lib/js.js:117-126 | one turn of the grouping loop appends the attribute, or throws "Invalid attribute node" with its type |
| Lowering.LeadingBreak | lib/js.js:147 | `/^(\s*?)(\r?\n\s*)/` matches iff a line break comes before anything but white space; it captures the white space before the break and the length of the rest of the leading white space |
| Lowering.DropDots | lib/js.js:194 | `replace("...", "")` removes the first `...` and nothing else, and leaves text without one unchanged |
| Lowering.EmptyFragmentAsWritten | lib/js.js:89 | as written, `<></>` becomes `[[]]`, or `factory(null, [[]])` with a fragment factory |
| Lowering.FragmentTextCorrected | lib/js.js:86-95 | an empty fragment becomes `[]` (or `factory(null, [])`); every fragment with children is written exactly as the source writes it |
| LoweringFacts.WalkOrdered | lib/js.js:36-106 | the edits of the walk lie inside the node, in document order, without overlap |
| LoweringFacts.WalkAllOrdered | lib/js.js:36 | the walk over the nodes inside a JavaScript node keeps its edits ordered and inside it |
| LoweringFacts.CompileNodeRebuilds | lib/js.js:32-109 | compiling fails iff the walk fails; otherwise each JSX range the walk found is replaced by its text and every other character is copied |
| LoweringFacts.WalkWithoutJsx | lib/js.js:36-106 | a node without JSX yields no edits |
| LoweringFacts.CompileWithoutJsx | lib/js.js:108 | JavaScript without JSX compiles to itself |
| LoweringFacts.BareElementCompiles | lib/js.js:45-81 | `<a />` and `<h1></h1>` become `factory("a")`, a namespaced tag `factory("ns:local")`, a component `Path()` or `componentFactory(Path)`; unsupported names throw |
| LoweringFacts.EmitGroupsExtends | lib/js.js:142-208 | the groups loop only appends to its output |
| LoweringFacts.MergedAttributes | lib/js.js:111-138 | no attributes give the text and `null`; a grouping error propagates; several groups are wrapped in one `assign(`…`)`, which starts `assign({},` when the first attribute is a spread |
| AttributeFacts.EmitAttrsPairs | lib/js.js:160-173 | the inner `group.forEach`, threading `whitespaceOffset`, writes each attribute's pair as if on its own and in order (a comma after the first, the source text since the previous attribute's end, `key: value`), throws the first error a pair throws, and leaves the offset at the end of the run's last attribute |
| AttributeFacts.NamedRunText | lib/js.js:145-188 | a named run is the white space kept before it, `{`, those pairs, the source after its last attribute (one space skipped) up to the next group, and `}`; `whitespaceOffset` moves to the next group's start when that start is truthy |
| AttributeFacts.PlainValuePair | lib/js.js:161-172 | a value without JSX, such as the literal `"age"`, is copied verbatim after `key: `; the pair fails exactly when the attribute name is unsupported |
| AttributeFacts.FirstPairKey | lib/js.js:160-166 | a run's first attribute, with nothing between the offset and its start, writes its key first: no comma and no gap |
| AttributeFacts.FirstGroupHoldsFirst | lib/js.js:116-127 | the first attribute lands in the first group, and that group is a spread exactly when the attribute is one |
| AttributeFacts.FirstGroupLeads | lib/js.js:142-208 | the groups loop's output starts with what was pushed before it, then the first group's text |
| AttributeFacts.AttributesBody | lib/js.js:111-212 | attributes that compile give the groups' text after the opening, closed by `)` exactly when there are several groups |
| AttributeFacts.SeedOnlyForSpread | lib/js.js:131-138 | with several groups, the output opens `assign({},` (and a space unless a line break leads the attributes) when the first attribute is a spread; when it is named, `assign(` is followed directly by the white space kept before the first run and its `{`, with no `{},`, and by `{key` when the text begins with that attribute |
| MergeExample.GroupsOfInput | lib/js.js:116-127 | the attributes of `<input name="age" {...attrs} />` form a named run followed by a spread |
| MergeExample.MergedText | lib/js.js:111-213 | those attributes compile to `Object.assign({name: "age"}, attrs)` |
| MergeExample.MergeCompiles | lib/js.js:45-81 | `<input name="age" {...attrs} />` compiles to `Jsx("input", Object.assign({name: "age"}, attrs))` |
| LoweringFacts.ChildrenWithoutAttributes | lib/js.js:70-79 | with children but no attributes, `, null` (element or component factory) or `null` (bare component) holds the place of the props, then the children array |
| LoweringFacts.ValuelessAttribute | lib/js.js:165-172 | a valueless attribute is written `key: true` |
| LoweringFacts.LoneSpread | lib/js.js:189-206 | a lone spread is exactly the source text before it, the comments inside `{...` with the dots removed, the argument's raw source, the text before `}`, and the text after it when that holds a line break: no `assign`, no seed, no braces; an argument holding JSX throws `SpreadError`, what `compileNode(expr)` meets with no text: the argument's name error first, then a TypeError from `jsx.charAt` when it has attributes, then its children's errors in order (a text child's own error, `Invalid child node` for a fragment or other node, a TypeError for an element or container child), and else the TypeError of `splice` |
| LoweringFacts.SpreadNameError | lib/js.js:45-50 | a spread argument whose element name is refused throws that name's error, the same error the element throws when compiled in place |
| LoweringFacts.SpreadOfDeepMember | lib/js.js:200 | `<a {...<B.C.D />} />`: the spread throws `Unsupported name node: JSXMemberExpression` (from lib/js.js:363-366), not a TypeError |
| LoweringFacts.SpreadOfFragmentChild | lib/js.js:200 | `<a {...<b><></></b>} />`: the spread throws `Invalid child node: JSXFragment` (from lib/js.js:276), not a TypeError |
| Compiling.GroupAttributes | lib/js.js:114-127 | the grouping `forEach` computes `Groups` |
| Compiling.CompileAttributesLoop | lib/js.js:111-213 | the loops of `compileAttributes` compute `CompileAttributes`; with several groups the result opens `assign({},` when the first attribute is a spread, and otherwise `assign(`, the white space kept before the first run, and `{` |
| Compiling.EmitGroupLoop | lib/js.js:142-208 | one turn of the groups loop computes `EmitGroup`; a named group is the run text of `NamedRunText`, its pairs each written on its own |
| Compiling.EmitNamedLoop | lib/js.js:145-188 | a run of named attributes, with its `whitespaceOffset` updates, computes `EmitNamed`, and so the white space kept before the run, `{`, the pairs, the text up to the next group, and `}` |
| Compiling.EmitAttrsLoop | lib/js.js:160-173 | the inner `group.forEach` computes `EmitAttrs`, which is the run's pairs, each written on its own in order, with the offset left at the last attribute's end |
| Compiling.CompileChildrenLoop | lib/js.js:223-287 | the `forEach`, the comma `map` and the join compute `ChildrenText` |
| Compiling.CommasLoop | lib/js.js:280-286 | the comma `map`, one item at a time, computes `Commas` |
| Compiling.WalkInto | lib/js.js:36-106 | the recursive walk appends the node's edits to `replacements`, or throws the walk's error |
| Compiling.WalkAllInto | lib/js.js:36 | the walk through the plain JavaScript around JSX visits the nodes in order, appending each one's edits to the same `replacements`, or throws the first error |
| Compiling.CompileNodeLoop | lib/js.js:32-109 | walking and then splicing computes `CompileNode` |
| Values.TypeOf | lib/markup.js:95-97 | `"null"` exactly for null, `"array"` exactly for arrays, `"object"` exactly for other objects, otherwise `typeof` |
| Values.DecimalRoundTrip | lib/index.js:10 | the index keys a string or array enumerates read back as their indices, so they are distinct |
| JsObjects.Put | lib/index.js:10 | `target[key] = value` sets that key and no other; in the model's insertion order, an existing key keeps its place and a new key is added last |
| JsObjects.CopyAllLookup | lib/index.js:10 | after copying entries, a key holds its last entry's value, or its old value when no entry names it |
| JsObjects.AssignLaterWins | lib/index.js:7-11 | a key ends with the value of the last source that has it; a key no source has keeps the target's value |
| JsObjects.CopyAllKeepsKeys | lib/index.js:10 | copying never removes or reorders the target's keys |
| JsObjects.AssignKeepsKeys | lib/index.js:9-10 | in the model's insertion order, `assign` keeps the target's keys in place, whatever the sources hold |
| JsObjects.CopyAllDistinct | lib/index.js:10 | a target with distinct keys keeps them distinct |
| JsObjects.Assign | lib/index.js:7-14 | a null target is returned untouched; otherwise every source's keys are written onto the target in order, and the same target is returned |
| Options.MatchPragma | compiler.js:37 | a pragma match yields a non-empty name without white space |
| Options.ScanFactoryFinds | compiler.js:34-39 | a factory is found iff some block comment holds a pragma |
| Options.ScanFactoryFirstMatch | compiler.js:36-38 | the first block comment holding a pragma names the factory; later comments are ignored |
| Options.LineCommentsIgnored | compiler.js:35 | a line comment never changes the factory |
| Options.PragmaScanner.constructor | compiler.js:14 | the factory starts unset |
| Options.PragmaScanner.OnComment | compiler.js:34-39 | a line comment, or any comment once a factory is set, changes nothing; otherwise the pragma in the comment, if any, sets the factory |
| Options.ParseFactory | compiler.js:14-42 | running `onComment` over the comments in arrival order gives the scan's factory |
| Options.EcmaVersion | compiler.js:16 | the `ecmaVersion` that decides `sourceType` is always truthy, `"latest"` when none is given |
| Options.SourceType | compiler.js:17 | `"script"` exactly when the version equals 3 or 5 under JavaScript's loose equality, otherwise `"module"` |
| Options.SourceTypeChoices | compiler.js:16-17 | without options the source is a module; `"3"` and `5` select scripts; any other string selects a module |
| Options.NewCompiler | lib/js.js:10-20 | without options the prototype's defaults; `factory` is taken unless null or undefined, and is `Jsx` otherwise |
| Options.FactoryPrecedence | compiler.js:8-11 | an explicit `factory` option overrides the pragma; an explicit null or undefined one still replaces it and leaves `Jsx` (lib/js.js:12); without one the pragma names the factory, and without either it is `Jsx` |
| PragmaFacts.MatchPragmaShape | compiler.js:37 | every comment that matches is `*`, spaces or tabs, `@jsx`, at least one space or tab, the name, and then white space or the end |
| PragmaFacts.PragmaShapeMatches | compiler.js:37 | every comment of that shape matches, with that name |
| PragmaFacts.PragmaForms | compiler.js:37 | `/** @jsx X */`, `/**@jsx X*/` and the tab-separated form all name `X` |
| PragmaFacts.PragmaAfterLineBreak | compiler.js:37 | a line break before `@jsx` prevents the match |
| Entities.EncodeAppend | lib/markup.js:73-76 | per-character encoding distributes over concatenation |
| Entities.ChainIsEncode | lib/markup.js:73-76 | a chain of global replacements in which no later one touches an earlier one's output escapes each character exactly once |
| Entities.DecodeEncode | lib/markup.js:70-78 | decoding undoes encoding with any table whose entities start with `&`, whose `&` has an entity, and where no entity starts another |
| Entities.EncodeRemoves | lib/markup.js:70-78 | a character with an entity that no entity text contains never appears in the output |
| Escapes.MarkupTextChain | lib/markup.js:73-76 | the four `replace` calls of `escape`, in their order, are a safe chain |
| Escapes.MarkupAttrChain | lib/markup.js:86-91 | the six `replace` calls of `escapeAttr`, in their order, are a safe chain |
| Escapes.LegacyTextChain | jsx.js:73-75 | the three `replace` calls of `escapeHtml` (and lib/jsx.js's `escape`) are a safe chain |
| Escapes.Escape | lib/markup.js:70-78 | each character is escaped once by its entity: `&`, `<`, `>` and CR become entities, so no `<`, `>` or CR is left; quotes, tabs and LF pass |
| Escapes.EscapeAttr | lib/markup.js:80-93 | `&`, `<`, `"`, TAB, LF and CR become entities, each once; none of the last five is left; `'` and `>` pass |
| Escapes.EscapeHtml | jsx.js:72-77 | only `&`, `<` and `>` become entities, each once (CR passes), and no `<` or `>` is left |
| Escapes.EscapeQuotes | jsx.js:89 | only `"` becomes `&quot;`, and none is left |
| Escapes.Decodables | lib/markup.js:70-93 | the three entity tables can be decoded |
| Escapes.EscapeRoundTrip | lib/markup.js:70-78 | decoding the entities of `escape`'s output gives the text back |
| Escapes.EscapeAttrRoundTrip | lib/markup.js:80-93 | decoding the entities of `escapeAttr`'s output gives the text back |
| Escapes.EscapeHtmlRoundTrip | jsx.js:72-77 | decoding the entities of `escapeHtml`'s output gives the text back |
| Escapes.EscapeAppend | lib/markup.js:73-76 | the four escapes distribute over concatenation |
| Escapes.EscapeScript | html.js:54-59 | the output holds no `</script` (in any case) and no `<!--`, and removing backslashes from output and input gives the same text |
| Escapes.BreakScriptCloseSafe | html.js:56 | after the first replacement no `</script` remains |
| Escapes.BreakScriptCloseErases | html.js:56 | the first replacement only inserts backslashes, and keeps the case of the word |
| Escapes.BreakCommentOpenSafe | html.js:57 | after the second replacement no `<!--` remains |
| Escapes.BreakCommentOpenKeeps | html.js:57 | the second replacement does not bring back a `</script` |
| Rendering.PiecesOfAppend | lib/markup.js:36 | rendering a list of children is rendering its parts in order; an error in the first part wins |
| Rendering.Flatten | lib/markup.js:36 | a nested array renders as its items spliced in place |
| Rendering.FragmentTransparent | lib/markup.js:99 | a `Fragment` child renders as its children in place |
| Rendering.RenderChild | lib/markup.js:29-47 | the accumulator gets the child's pieces appended, or the child's error is thrown |
| Rendering.ReduceChildren | lib/markup.js:36 | reducing items onto the accumulator appends their pieces in order, and stops at the first error |
| Rendering.PlainDataNoTag | lib/markup.js:35-40 | data without markup objects renders to pieces without `<` in lib/markup.js, lib/jsx.js and jsx.js |
| Rendering.PlainItemsNoTag | lib/markup.js:29-47 | the same for a list of children |
| Rendering.PlainChildrenNoTag | lib/markup.js:29-47 | the joined children text of plain data holds no `<` |
| Rendering.PlainDataScriptSafe | html.js:30-52 | inside `<script>`, every piece of data without markup objects holds no `</script` and no `<!--` |
| Rendering.PlainItemsScriptSafe | html.js:30-52 | the same for a list of children |
| Rendering.ScriptCloseAcrossChildren | html.js:36 | escaping is per child: the children `"<"` and `"/script…"` pass unchanged and together close the element early |
| Rendering.AttrPiece | lib/markup.js:52-65 | `undefined`, `null` and `false` are omitted; `true` is the bare name; arrays, functions and symbols throw; strings, objects and non-`Markup` values become a safely quoted `name="…"` |
| Rendering.QuotedValue | lib/markup.js:100 | an escaped value is quoted so that it cannot end its quotes |
| Rendering.OmittedAttribute | lib/markup.js:53-55 | an `undefined`, `null` or `false` attribute renders exactly as if it were absent |
| Rendering.RenderAttributesLoop | lib/markup.js:49-68 | the `for…in` loop pushing onto `markup` computes `RenderAttributes` |
| Rendering.IsEmptyLoop | html.js:68 | the `for…in` loop reports empty exactly when the object enumerates no key |
| Rendering.OpenTagLoop | html.js:16-17 | building the opening tag step by step computes `OpenTag` |
| Rendering.ChildrenTextLoop | html.js:25-26 | reducing the children and joining them computes `ChildrenText` |
| Rendering.MarkupToString | lib/markup.js:13-19 | `toString()` is the value, `toString("doctype")` is `valueOf()`, any other format throws RangeError ("Invalid HTML format" for lib/jsx.js); jsx.js's `Html` always gives its value |
| Rendering.ValueOf | lib/markup.js:11 | `valueOf()` is the class's doctype followed by the value |
| Rendering.Dispatch | lib/markup.js:21-27 | a function tag is called and a string tag is rendered; any other tag throws TypeError |
| HtmlRendering.Render | html.js:15-28 | the opening is `<tag` plus its attributes; a void element throws RangeError iff given children, and otherwise ends in ` />`; any other element ends in `</tag>` |
| HtmlRendering.RenderPlainChildren | html.js:23-27 | outside `<script>`, a non-void element is its opening tag, `>`, the joined children text and `</tag>`; for plain-data children that text holds no `<` |
| HtmlRendering.OpenTagShape | html.js:16-17 | every opening starts with `<` and the tag |
| HtmlRendering.RenderLoop | html.js:15-28 | `render` step by step computes `Render` |
| HtmlRendering.NonVoidWithoutChildren | html.js:23-26 | a non-void element without children still opens and closes, as `<script />` becomes `<script></script>` |
| HtmlRendering.HtmlDoctype | html.js:61-66 | `toString()` is the bare markup; `toString("doctype")` and `valueOf()` prefix `<!DOCTYPE html>\n` |
| HtmlRendering.ScriptChildSafe | html.js:30-59 | a data child of `<script>` cannot close the element or open a comment |
| HtmlRendering.ScriptKeepsMarkup | html.js:44-45 | corrected: a `Markup`, `Html` or `Xml` child of `<script>` passes unescaped |
| HtmlRendering.ScriptEscapesXmlAsWritten | html.js:44-45 | as written: an `Xml` child of `<script>` holding `</script` is script-escaped, and so changed |
| XmlRendering.Render | xml.js:13-22 | absent or empty children self-close any tag; otherwise the element opens and ends in `</tag>`; attribute errors propagate |
| XmlRendering.RenderPlainChildren | xml.js:17-19 | with children, the element is its opening tag, `>`, the joined children text and `</tag>`; for plain-data children that text holds no `<` |
| XmlRendering.RenderLoop | xml.js:13-22 | `render` step by step computes `Render` |
| XmlRendering.EmptyRenderingChildren | xml.js:17-21 | children that all render to nothing still give `<tag></tag>`, whereas `[]` self-closes |
| XmlRendering.NothingRendered | lib/markup.js:31-32 | `undefined` and `null` children render nothing |
| XmlRendering.XmlDoctype | xml.js:24-29 | `toString()` is the bare markup; `toString("doctype")` and `valueOf()` prefix the XML declaration |
| LegacyJsx.Render | jsx.js:18-33 | fails exactly when the element does; a void element throws RangeError iff given children; the tag `html` alone gets `<!DOCTYPE html>\n` prefixed |
| LegacyJsx.RenderLoop | jsx.js:18-33 | `render`, reassigning `html` step by step, computes `Render` |
| LegacyJsx.LegacyHtmlString | jsx.js:85-87 | `toString()`, with any format, and `valueOf()` both return the stored value |
| LegacyJsx.BooleanChildThrows | jsx.js:51 | a boolean child throws TypeError "Invalid Element: " |
| LegacyJsx.NullishChildrenEmpty | jsx.js:42-43 | `undefined` and `null` children render as empty strings |

## Left out

- Parsing: acorn and acorn-jsx are not part of this model. The syntax tree is a datatype with absolute offsets (`Syntax.Node`), and the acorn-walk traversal is explicit recursion over it.
- Regular expressions are written as the specific predicates they test. There is no general regular-expression engine.
- Void elements: lib/void_elements and the npm void-elements package are not part of this model. The set is the fourteen names of HTML's void elements, for both html.js and jsx.js. An `in` test that would also match inherited properties is not modelled.
- Component invocation: calling a function tag with `(attrs, children)` is not modelled. `Rendering.Dispatch` models only the decision between a call and a render.
- `String(v)` of plain objects, dates, and any user `toString`/`valueOf` is an uninterpreted string carried by the value (`Obj.str`). Numbers carry their canonical JavaScript string form rather than a floating-point value.
- Rendering.PlainDataNoTag: relies on a number's string form holds no `<`, which holds for every JavaScript number.
- Error messages that print a value (`"Invalid element: " + child`) use the modelled `String(child)`. A symbol child, whose concatenation throws a TypeError of its own, is modelled as that TypeError.
- The `attrs` and `children` parameters of the renderers are an object value and an optional array. Other values passed as children (a string, or an array-like object) are not modelled.
- Lowering.SpreadError: the TypeErrors that reading the missing text throws carry V8's wording (`Cannot read properties of undefined (reading 'slice')`, and `'charAt'`); other engines word them differently.
- Streams, bundler and loader adapters are not part of this model (stream_compiler.js, browserify.js, register.js, compile.js, express.js), nor are the examples. They buffer input or glue modules together, then call `compile`.
- Options.EcmaVersion: `parse` hands acorn `assign({ecmaVersion, sourceType, …, onComment}, opts)` (compiler.js:23-40), with `opts` last. So an `ecmaVersion` in `opts`, even a falsy one, a `sourceType` or an `onComment` there overrides the computed one. With `opts.onComment` the pragma is never scanned and the factory stays null. The model states only what lines 16-17 compute.
- Options.SourceType: as for `Options.EcmaVersion`, an explicit `opts.sourceType` reaches acorn instead. `parseAndCompile` calls `parse(jsx)` without options (compiler.js:9), so on that path the version is always `"latest"` and the source a module. The other parser options of compiler.js:26-32 go to acorn unchanged and are not modelled.
- Lowering.Walk: an empty fragment `<></>` gets the corrected text `[]` (see Findings); lib/js.js:89 with lib/js.js:224 writes `[[]]`, which `Lowering.EmptyFragmentAsWritten` states. Every other node is walked as the source walks it.
- Lowering.CompileNode: through `Lowering.Walk`, `<></>` compiles to `[]` here and to `[[]]` in the source.
- Compiling.WalkInto: pushes the corrected `[]` for an empty fragment, where the source pushes `[[]]`.
- Compiling.WalkAllInto: through `Compiling.WalkInto`, an empty fragment inside plain JavaScript gives `[]` here and `[[]]` in the source.
- Compiling.CompileNodeLoop: through `Compiling.WalkInto`, `<></>` compiles to `[]` here and to `[[]]` in the source.
- HtmlRendering.Render: renders `<script>` children with the corrected dialect (see Findings), which keeps every `Markup` child; html.js:44 keeps only `Html` children, so an `Xml` child of `<script>` is script-escaped by the source and kept by the model. `HtmlRendering.ScriptEscapesXmlAsWritten` states the source's behaviour.
- HtmlRendering.RenderLoop: computes `HtmlRendering.Render`, so it keeps an `Xml` child of `<script>` that the source escapes.
- JsObjects.Put: keys are kept in insertion order. JavaScript enumerates integer-like keys first, in ascending order, then the other string keys in insertion order, so `assign({a: 1}, "xy")` enumerates `0, 1, a` where the model holds `a, 0, 1`.
- JsObjects.AssignKeepsKeys: holds for the model's insertion order; with JavaScript's integer-key-first order a new integer-like key comes before the target's other keys.
- Values.Entries: lists own properties only. lib/markup.js:10-19 assigns `valueOf` and `toString` (and `doctype`) onto `Markup.prototype` as enumerable properties, so `for…in` over an `Html` or `Xml` object also visits `valueOf` and `toString`; their own prototypes define `doctype` as a non-enumerable property that hides the inherited one (html.js:62-65, xml.js:26-29), while a bare `Markup` visits `doctype` too. The model lists only `value`.
- OffsetTexts and Splicing: strings are sequences of Unicode scalar values (Dafny `char`), while acorn's offsets and JavaScript's `slice`, `charAt` and `length` count UTF-16 code units. On source text holding characters outside the Basic Multilingual Plane the model's positions differ from the program's, and lone surrogates cannot be represented.
- Rendering.ScriptCloseAcrossChildren: html.js escapes each `<script>` child separately, so two adjacent string children can together form `</script`. The model shows this, and does not change it.

## Findings

| source | as written | input that shows it | evidently intended | confidence | as-written member | corrected member |
|---|---|---|---|---|---|---|
| html.js:44 | only `Html` children of `<script>` pass unescaped; an `Xml` (or plain `Markup`) child is script-escaped | `<script>{new Xml("<script>alert(1&2)</script>")}</script>` renders `<\/script>` inside, where test/html_test.jsx:188-196 expects the markup unchanged | every `Markup` child of `<script>` passes unescaped (`instanceof Markup`) | not executed | HtmlRendering.ScriptEscapesXmlAsWritten | HtmlRendering.ScriptKeepsMarkup |
| lib/js.js:89 | the fragment wraps the children text in brackets, and that text is already `[]` when there are no children | `<></>` compiles to `[[]]`, an array holding one empty array | an empty fragment is an empty array `[]` | not executed | Lowering.EmptyFragmentAsWritten | Lowering.FragmentTextCorrected |
