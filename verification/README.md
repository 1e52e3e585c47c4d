# toy-react in Dafny

A model of toy-react, a small JSX runtime. It turns nested `createElement(type, attributes, ...children)`
calls into a tree of host elements, and appends that tree to a parent with `render`. Everything
runs against an abstract host node: an element with a tag, an attribute map, a style map, a
class set and a child sequence, or a text node. The DOM itself is not modelled.

The model covers:

- `Values`: the JavaScript values the builder meets (`undefined`, `null`, booleans, numbers,
  strings, arrays, object literals, host nodes, wrappers). It also covers the three receivers
  `ElementWrapper`, `TextElementWrapper` and `Component`. Object property lists follow
  JavaScript: a key keeps its first position and the last write wins.
- `Strings` and `StyleDecl`: the two `split` calls, on `;` and on `/\s+/`. `StyleDecl` also
  covers the declaration pattern `/\s*([\w-]+)\s*:(.+)/` as `String.prototype.match` applies
  it, which is an unanchored, leftmost match. A declarative description of a match and a
  scanner are proved to agree.
- `HostTree`: the host operations `initAttributes` uses. These are a style write, an
  attribute write, `classList.add` (which throws on an empty token or one containing ASCII
  whitespace) and `appendChild`. A text node has no `style`, `classList`, `setAttribute` or
  children, so each of those operations fails on it.
- `Attributes` and `AttributeLists`: `initAttributes`, which dispatches on the exact names
  `style` and `class`. The lists module applies it to a whole property list.
- `Flattening`: what `insertChildren` does to the children array.
- `ToyReact`: the receivers' `setAttribute` and `appendChild`, the memoised `root` getter,
  `createElement` and `render`.
  - A component's `render()` is program code, so it is a parameter.
  - Reading a component's root can make a chain of components render one another. The
    `depth` argument bounds that chain.
- `Demo`: the class value of the example in main.js, worked out to its tokens.

Every thrown exception is a `Fault`. It is carried in a `Result`, or, for the writes
`initAttributes` makes to a host node, in a `Run`. Those writes happen in place, so when one
throws, the writes before it stay made; a `Run` that threw keeps the node as they left it.
The faults are:

- a style declaration the pattern does not match (destructuring `null` throws);
- an invalid class token;
- style, class or attribute writes on a text node;
- appending to a text wrapper;
- `appendChild(child.root)` where `child.root` is not a host node (reading `.root` of `null` throws at once; for a number it gives `undefined`, which `appendChild` refuses);
- a fault raised by `render()`.

Consequences of the code that the model keeps:

- `null` children are not dropped. `typeof null === 'object'` sends them to `appendChild`. An
  `ElementWrapper` then throws on `null.root`, and a `Component` keeps them in `children`.
- A style declaration that fails to match throws; it is not skipped. In particular, a style
  string ending in `;` always throws, because its last segment is empty.
- Props are a plain object. Setting the same name again overwrites the value, and the name
  keeps its first position.
- A style value is everything after the colon up to a line terminator. This includes any
  blanks after the colon, because the value group `(.+)` starts right after the `:`.
- An invalid class token (`classList.add('')`, produced by a leading or trailing blank in a
  class string) is modelled as the fault the DOM raises. It is not a precondition.

## Model

| member | source | states |
|---|---|---|
| Strings.Split | toy-react.js:51 | The pieces contain no separator and joining them with the separator gives back the string; there is always at least one piece |
| Strings.SplitJoin | toy-react.js:51 | Splitting is the inverse of joining for pieces free of the separator |
| Strings.SplitWs | toy-react.js:64 | The pieces of `split(/\s+/)` contain no whitespace, and joined with single blanks they give the string with each whitespace run collapsed to one blank |
| Strings.SplitWsIsSplitOfCollapse | toy-react.js:64 | Splitting on whitespace runs is splitting the collapsed string on a single blank |
| Strings.SplitWsEmptyPiece | toy-react.js:64 | An empty piece, and so an empty class token, occurs exactly when the string is empty or starts or ends with whitespace |
| Strings.SplitWsWords | toy-react.js:64 | Non-empty words separated by single blanks split back into exactly those words |
| StyleDecl.MatchAtSound | toy-react.js:53 | Whatever the scanner returns at a start position is a match of the pattern there, with those two capture groups |
| StyleDecl.MatchAtComplete | toy-react.js:53 | Any match of the pattern at a start position is the one the scanner returns |
| StyleDecl.FirstMatchCorrect | toy-react.js:53 | The search finds a match iff one exists at some start position, and what it returns is the match at the leftmost such position |
| StyleDecl.MatchSpec | toy-react.js:53-54 | `match` fails iff no start position matches. On success it returns the leftmost match, whose key is a non-empty run of `[A-Za-z0-9_-]` and whose value is non-empty and free of line terminators |
| StyleDecl.CanonicalDecl | toy-react.js:53-54 | A declaration written as blanks, a key, `:` and a value yields exactly that key and that value |
| StyleDecl.EmptyHasNoMatch | toy-react.js:53 | The empty segment does not match |
| Values.Assign | toy-react.js:26 | After `obj[k] = v` the key holds `v` and every other key keeps its value |
| Values.AssignKeys | toy-react.js:26 | Assignment keeps the key order and appends a new key last, so keys stay unique |
| Values.Properties | toy-react.js:84 | An object literal with possibly repeated keys has unique keys, each holding the value of its last occurrence |
| Values.Overlay | toy-react.js:54-57 | After writing each entry into a map in turn, a mentioned key holds its last value; every other key is present and valued as before |
| Values.OverlayAppend | toy-react.js:48-58 | Writing two entry lists one after the other is writing their concatenation |
| Values.OverlayIdempotent | toy-react.js:48-58 | Writing the same entries a second time changes nothing |
| Values.Leaves | toy-react.js:93-94 | The flattening of a nested array contains no array |
| Values.LeavesSingle | toy-react.js:93-94 | One value flattens to the flattening of its items when it is an array, and to itself otherwise |
| Values.LeavesAppend | toy-react.js:89-98 | Flattening a concatenation is concatenating the flattenings, so the leaves keep their order |
| HostTree.FirstInvalid | toy-react.js:64-66 | `classList.add` finds an invalid token iff some token is empty or contains ASCII whitespace, and what it reports is one of the tokens |
| Attributes.DeclsStyleSpec | toy-react.js:51-55 | A string rule throws iff one of its `;`-segments fails to match. Otherwise the style map is overlaid with the segments' key/value pairs in order, later ones winning |
| Attributes.EntriesStyleSpec | toy-react.js:57 | An object rule writes each of its properties into the style map, later ones winning, and cannot throw |
| Attributes.RulesStyleSpec | toy-react.js:48-58 | A rule list is applied left to right. The first malformed declaration throws; otherwise the style map is overlaid with all assignments in order |
| Attributes.ApplyStyleSpec | toy-react.js:46-58 | A non-array style value is a one-rule list. On success only the style map changes: each assigned key holds its last value, and keys never assigned keep theirs |
| Attributes.ApplyStyleKeeps | toy-react.js:46-58 | Whether it returns or throws part way, the style branch leaves an element that differs from the one it was given in the style map alone |
| Attributes.DeclsStyleLastMismatch | toy-react.js:52-54 | If the last segment of a style string does not match, applying the string throws |
| Attributes.TrailingSemicolonThrows | toy-react.js:51-54 | Any style string ending in `;` throws, because its last segment is empty |
| Attributes.FlagClassesSpec | toy-react.js:66 | An object class value adds exactly the keys whose values are truthy, in enumeration order |
| Attributes.ClassListSpec | toy-react.js:62-68 | The recursive `addClass` walk adds the tokens of the flattened list in one go: strings split on whitespace, objects give their truthy keys, arrays at any depth are entered |
| Attributes.ApplyClassSpec | toy-react.js:59-69 | The class branch throws on the first invalid token. Otherwise the class set becomes the old set plus every token; nothing is removed and nothing else changes |
| Attributes.ApplyClassKeeps | toy-react.js:59-69 | Whether it returns or throws part way, the class branch leaves an element that differs from the one it was given in the class set alone, and that set has only grown |
| Attributes.ClassStringValid | toy-react.js:64 | A class string is accepted iff it is non-empty and neither starts nor ends with whitespace |
| Attributes.InitAttributesSpec | toy-react.js:44-73 | On an element, `initAttributes` succeeds iff the entry is acceptable, and its effect changes only the style map (for `style`), the class set (for `class`), or one attribute set verbatim (any other name) |
| Attributes.InitAttributesKeeps | toy-react.js:44-73 | Whether it returns or throws, `initAttributes` leaves an element an element with the same tag and children and every class it had |
| Attributes.InitAttributesOnText | toy-react.js:44-73 | On a text node, a generic attribute always throws, and so does a class value with at least one token |
| Attributes.TextRefusesTokens | toy-react.js:62-68 | On a text node, the class walk throws as soon as any token exists |
| Attributes.TextClassListNoTokens | toy-react.js:62-68 | On a text node, a class value with no tokens is a no-op |
| Attributes.EffectIdempotent | toy-react.js:44-73 | Applying the same attribute twice gives the same node as applying it once |
| AttributeLists.InitAllSpec | toy-react.js:35-37 | A property list applied to an element succeeds iff every entry is acceptable. Then tag and children are kept, attributes and styles are overlaid with later entries winning, and classes are the union of the old set with every token |
| AttributeLists.InitAllStopsAt | toy-react.js:35-37 | When a property list throws, some entry is where it stopped: the entries before it were applied in full, and the node left is what that entry's own writes left |
| AttributeLists.InitAllKeeps | toy-react.js:35-37 | Whether it returns or throws, a property list leaves an element an element with the same tag and children and every class it had |
| AttributeLists.InitAllIdempotent | toy-react.js:35-37 | Applying the same property list twice leaves the element as applying it once |
| Flattening.FlattenSingle | toy-react.js:90-97 | An array child contributes its own flattening, a string exactly one text wrapper with that content, and any other value, `null` included, itself |
| Flattening.FlattenAppend | toy-react.js:89-98 | The flattening of a concatenation is the concatenation of the flattenings |
| Flattening.FlattenIsFlat | toy-react.js:88-99 | The flattening holds no array and no bare string, has one element per non-array leaf, and flattening it again changes nothing |
| Flattening.NullKept | toy-react.js:93-97 | A `null` is appended iff one occurs at some depth of the children |
| ToyReact.ComponentRoot | toy-react.js:32-40 | A component with a memoised root returns it without rendering and unchanged. A read changes nothing but the memo, and on success the memo is exactly the root returned. A first read leaves the memo unset exactly when the depth runs out, `render()` throws or reading the root of what it returned throws, so the next read renders again |
| ToyReact.RootMemoised | toy-react.js:32-40 | Once a read has set the memo, whether it returned or threw, every later read returns the memoised node and leaves the component alone, whatever `render` and depth are given |
| ToyReact.ComponentRootApplies | toy-react.js:32-40 | The first read memoises the rendered root with the props applied in order, and throws exactly when a prop does, the memo then holding the props before it plus whatever the throwing prop wrote before its fault. On an element it succeeds iff every prop is acceptable, the memo keeps tag, children and classes, and on success outer attributes and style keys override the inner ones and classes are the union |
| ToyReact.RootOfMono | toy-react.js:32-40 | A root that can be read within some depth is read, with the same result, within any larger depth |
| ToyReact.ComponentRootMono | toy-react.js:32-40 | A read that got as far as setting the memo behaves the same, memo included, with any larger depth |
| ToyReact.RootsSpec | toy-react.js:8-10 | Reading the roots of a list succeeds iff each value has a root, and yields those roots in order |
| ToyReact.AppendAllAppend | toy-react.js:89-98 | Appending two lists one after the other is appending their concatenation, stopping at the first fault |
| ToyReact.InsertChildrenFlattens | toy-react.js:88-101 | `insertChildren` appends exactly the flattening of the children, one `appendChild` per leaf, in order |
| ToyReact.NestingIrrelevant | toy-react.js:76-104 | Two children lists with the same flattening build the same result |
| ToyReact.ComponentSetAttribute | toy-react.js:25-27 | `setAttribute` on a component never fails. It sets the name to the new value, keeps every other prop, keeps the key order (a new name goes last), and leaves children and memo alone |
| ToyReact.SetAttributesOnComponent | toy-react.js:84-86 | Setting a list of attributes on a fresh component builds its props as the object literal would |
| ToyReact.AppendAllOnComponent | toy-react.js:28-30 | Appending values to a component records them at the end of `children`, in order, and reads nothing from them |
| ToyReact.CreateComponent | toy-react.js:76-104 | For a component class, `createElement` returns a fresh instance whose props are the attributes object, whose children are the flattened children, and whose root is not yet computed |
| ToyReact.SetAttributesOnElement | toy-react.js:5-7 | Setting attributes on an `ElementWrapper` is `initAttributes` on its element for each entry in turn |
| ToyReact.AppendAllOnElement | toy-react.js:8-10 | Appending values to an `ElementWrapper` succeeds iff each has a root; the roots are added after the existing children, in order |
| ToyReact.CreateTag | toy-react.js:76-104 | For a tag name, `createElement` builds an `ElementWrapper`. It succeeds iff every attribute is acceptable and every flattened child has a root. A bad attribute fails with its own fault whatever the children, because attributes come first. On success the element has that tag, the overlaid attributes and styles, the union of class tokens, and the children's roots in order |
| ToyReact.NullChildThrows | toy-react.js:93-97 | A `null` anywhere among an element's children makes `createElement` throw |
| ToyReact.RenderAppends | toy-react.js:107-109 | `render` succeeds iff the parent is an element and the component has a root. The root then becomes the parent's last child, and nothing else about the parent changes |
| ToyReact.TextWrapperIsLeaf | toy-react.js:13-17 | A text wrapper has neither `setAttribute` nor `appendChild`: both throw |
| Demo.DemoClassTokens | main.js:25 | The example's nested class value adds the tokens `b b1 c c1 c2 c3`, in that order |

## Left out

- The DOM is not modelled. `document.createElement`, `createTextNode`, `classList` and `style` are replaced by the abstract host node, and the style map is a plain map. A real `CSSStyleDeclaration` ignores unknown property names and expands shorthands; the model does neither.
- HostTree.SetAttr: stores the value under the name as given. The DOM would convert the value to a string, would reject attribute names that are not valid XML names, and on an HTML element would lower-case the name, so that `Style` or `CLASS` overwrites the inline style or the class list. The model does none of these: such a name is one more plain attribute.
- Numbers are integers. There are no floats and no `NaN`, so truthiness only needs `n != 0`.
- Values.Properties, Values.Assign, Values.AssignKeys and ToyReact.ComponentSetAttribute: keep insertion order for every key, so a new key goes last. JavaScript moves integer-like keys of an object to the front in ascending order, and the model does not.
- Values.ForInEntries: a host node passed as a class or style value enumerates nothing. Its enumerable DOM properties are not modelled.
- Values.ForInEntries: a string is a sequence of characters, not of UTF-16 code units. `for…in` over a string (line 84 with a string as attributes) gives one index key per character here, where JavaScript gives two for a character outside the Basic Multilingual Plane.
- ToyReact.RootOf: a chain of components rendering components is bounded by `depth`. Running out of it is the fault `DepthExceeded`, which stands in for the stack overflow of an unbounded chain. `ToyReact.RootOfMono` shows the bound changes no result it lets through.
- ToyReact.AppendAllOnElement: node identity is not modelled. A host node is a value, so appending one that is already attached copies it; the DOM would move it.
- ToyReact.ComponentRoot: `render()` is taken to return a wrapper or a component instance, or to throw. A result with no `root` property (a string, a number, a plain object) would make the getter memoise `undefined` for good, since the memo test is `=== null`; the model cannot express that result.
- ToyReact.ValueRoot and ToyReact.Render: when `render` reads its component's root, or an `ElementWrapper` reads a component child's root, the memo the read fills in is not written back into that component. Values are immutable, so only `ToyReact.ComponentRoot` returns the component with its memo. A second `render` of the same component therefore reads its root afresh: after a prop threw, it throws again, where the program would append the partly decorated root it memoised.
- ToyReact.CreateElement: `new type` is a fresh `Component` with empty props, no children and no root. Fields a subclass constructor sets are not modelled, and neither is the check that a tag name is valid.
- The `render()` method of a component subclass is a parameter of the model, not code the model contains.
- `render` appends to an abstract parent. Its effect on a real `document.body` is not modelled.
- The style value of the main.js example has no worked-example lemma. `StyleDecl.CanonicalDecl` and `Attributes.DeclsStyleSpec` state the general case it is an instance of.
- main.js's bootstrap and `console.log` are left out, as are JSX lowering and module loading.
