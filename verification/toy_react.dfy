/**
 The builder (toy-react.js): `ElementWrapper`, `TextElementWrapper` and `Component` as
 receivers of `setAttribute` and `appendChild`, the memoised `root` getter, `createElement`
 with its recursive `insertChildren`, and `render`.

 A component's `render()` is code the program supplies, so it is a parameter `render` here;
 the chain of components rendering components that reading one `root` can set off is bounded
 by `depth`, and running out of it is the fault `DepthExceeded`.
 */
module ToyReact {
  import opened Outcomes
  import opened Values
  import opened HostTree
  import opened Attributes
  import opened AttributeLists
  import opened Flattening

  /**
   A subclass's `render()`: the wrapper or component it returns, or the fault it throws. A
   result without a `root` property is not among its values (see README).
   */
  type RenderFn = Component -> Result<Renderable>

  /** The first argument of `createElement`: a tag name, or a component class. */
  datatype Descriptor = Tag(name: string) | ComponentClass(kind: string)

  // ---------------------------------------------------------------------------------------
  // reading `root` (lines 1-4, 13-17, 32-40)

  /** `r.root`: the owned node of a wrapper, or the memoised root of a component. */
  function RootOf(r: Renderable, render: RenderFn, depth: nat): Result<HostNode>
    decreases depth, 1
  {
    match r
    case ElementWrapper(root) => Ok(root)
    case TextElementWrapper(t) => Ok(Text(t))
    case Instance(c) => ComponentRoot(c, render, depth).0
  }

  /**
   The `root` getter of a component: what the read returns, and the component after it. A
   memoised root is returned as it is, without calling `render()`. Otherwise the root of what
   `render()` returns is remembered at once, and then gets every prop of the component through
   `initAttributes`; if a prop throws, the root stays remembered with the props before it
   applied, plus whatever the throwing prop wrote before its fault. A read that throws before it
   has a root (the depth runs out, `render()` throws, or reading the root of what it returned
   throws) remembers nothing, so the next read renders again.
   */
  function ComponentRoot(c: Component, render: RenderFn, depth: nat): (r: (Result<HostNode>, Component))
    ensures r.1 == c.(cache := r.1.cache)
    ensures c.cache.Some? ==> r == (Ok(c.cache.value), c)
    ensures c.cache.None? ==>
      (r.1.cache.None? <==> depth == 0 || render(c).Err? || RootOf(render(c).value, render, depth - 1).Err?)
    ensures r.0.Ok? ==> r.1.cache == Some(r.0.value)
    decreases depth, 0
  {
    if c.cache.Some? then (Ok(c.cache.value), c)
    else if depth == 0 then (Err(DepthExceeded), c)
    else match render(c)
      case Err(f) => (Err(f), c)
      case Ok(rendered) =>
        match RootOf(rendered, render, depth - 1)
        case Err(f) => (Err(f), c)
        case Ok(inner) =>
          var run := InitAll(inner, c.props);
          (Outcome(run), c.(cache := Some(run.node)))
  }

  /**
   `child.root` where `child` is any value handed to `ElementWrapper.appendChild`: only a
   wrapper, or an object whose `root` property holds a host node, has one.
   */
  function ValueRoot(v: Value, render: RenderFn, depth: nat): Result<HostNode>
  {
    match v
    case Wrapper(r) => RootOf(r, render, depth)
    case Obj(es) =>
      (match Lookup(Properties(es), "root")
       case Some(Host(n)) => Ok(n)
       case _ => Err(NoHostRoot))
    case _ => Err(NoHostRoot)
  }

  // ---------------------------------------------------------------------------------------
  // receivers (lines 5-10, 25-30)

  /** The `setAttribute` of each receiver kind (lines 5-7 and 25-27). */
  function SetAttribute(el: Renderable, name: string, value: Value): Result<Renderable>
  {
    match el
    case ElementWrapper(root) =>
      var root' :- Outcome(InitAttributes(root, name, value));
      Ok(ElementWrapper(root'))
    case Instance(c) => Ok(Instance(c.(props := Assign(c.props, name, value))))
    case TextElementWrapper(_) => Err(NotAnElement)
  }

  /** The `appendChild` of each receiver kind (lines 8-10 and 28-30). */
  function AppendChild(el: Renderable, child: Value, render: RenderFn, depth: nat): Result<Renderable>
  {
    match el
    case ElementWrapper(root) =>
      var node :- ValueRoot(child, render, depth);
      var root' :- AppendHost(root, node);
      Ok(ElementWrapper(root'))
    case Instance(c) => Ok(Instance(c.(children := c.children + [child])))
    case TextElementWrapper(_) => Err(NotAContainer)
  }

  /** `setAttribute` on the receiver for every property of the attributes object, in order (lines 84-86). */
  function SetAttributes(el: Renderable, es: Entries): Result<Renderable>
    decreases |es|
  {
    if |es| == 0 then Ok(el)
    else
      var el' :- SetAttribute(el, es[0].0, es[0].1);
      SetAttributes(el', es[1..])
  }

  /** `appendChild` for each value of `vs` in turn. */
  function AppendAll(el: Renderable, vs: seq<Value>, render: RenderFn, depth: nat): Result<Renderable>
    decreases |vs|
  {
    if |vs| == 0 then Ok(el)
    else
      var el' :- AppendChild(el, vs[0], render, depth);
      AppendAll(el', vs[1..], render, depth)
  }

  // ---------------------------------------------------------------------------------------
  // createElement (lines 76-104)

  /**
   `insertChildren(children)`: a string becomes a text wrapper and is appended, an array is
   walked recursively, and any other value, `null` included, is appended as it is. (The
   source converts a string before testing for an array; a converted string never is one.)
   */
  function InsertChildren(el: Renderable, children: seq<Value>, render: RenderFn, depth: nat): Result<Renderable>
    decreases children
  {
    if |children| == 0 then Ok(el)
    else
      var el' :- match children[0]
        case Str(s) => AppendChild(el, Wrapper(TextElementWrapper(s)), render, depth)
        case Arr(xs) => InsertChildren(el, xs, render, depth)
        case _ => AppendChild(el, children[0], render, depth);
      InsertChildren(el', children[1..], render, depth)
  }

  /** `createElement` (lines 76-104): a fresh receiver, then its attributes, then its children. */
  function CreateElement(d: Descriptor, attributes: Value, children: seq<Value>, render: RenderFn, depth: nat)
    : Result<Renderable>
  {
    var el := match d
      case Tag(name) => ElementWrapper(FreshElement(name))
      case ComponentClass(kind) => Instance(FreshComponent(kind));
    var el' :- SetAttributes(el, ForInEntries(attributes));
    InsertChildren(el', children, render, depth)
  }

  /** `render(component, parentElement)`: the root of `r` becomes the last child of `parent`. */
  function Render(r: Renderable, parent: HostNode, render: RenderFn, depth: nat): Result<HostNode>
  {
    var root :- RootOf(r, render, depth);
    AppendHost(parent, root)
  }

  // ---------------------------------------------------------------------------------------
  // properties of the builder

  /**
   The roots of `vs`, each read as `ElementWrapper.appendChild` reads it, in order; the first
   value without one is the fault.
   */
  function Roots(vs: seq<Value>, render: RenderFn, depth: nat): Result<seq<HostNode>>
    decreases |vs|
  {
    if |vs| == 0 then Ok([])
    else
      var n :- ValueRoot(vs[0], render, depth);
      var ns :- Roots(vs[1..], render, depth);
      Ok([n] + ns)
  }

  /** `Roots` succeeds exactly when every value has a root, and then lists them index by index. */
  lemma {:induction false} RootsSpec(vs: seq<Value>, render: RenderFn, depth: nat)
    ensures var r := Roots(vs, render, depth);
      && (r.Ok? <==> forall i :: 0 <= i < |vs| ==> ValueRoot(vs[i], render, depth).Ok?)
      && (r.Ok? ==> |r.value| == |vs| && forall i :: 0 <= i < |vs| ==> r.value[i] == ValueRoot(vs[i], render, depth).value)
    decreases |vs|
  {
    if |vs| > 0 {
      RootsSpec(vs[1..], render, depth);
      assert forall i :: 1 <= i < |vs| ==> vs[i] == vs[1..][i - 1];
    }
  }

  /** Appending the values of `a + b` is appending those of `a`, then those of `b`. */
  lemma {:induction false} AppendAllAppend(el: Renderable, a: seq<Value>, b: seq<Value>, render: RenderFn, depth: nat)
    ensures AppendAll(el, a + b, render, depth) ==
      match AppendAll(el, a, render, depth)
      case Ok(el') => AppendAll(el', b, render, depth)
      case Err(f) => Err(f)
    decreases |a|
  {
    if |a| == 0 {
      assert a + b == b;
    } else {
      assert (a + b)[0] == a[0] && (a + b)[1..] == a[1..] + b;
      match AppendChild(el, a[0], render, depth)
      case Ok(el') => AppendAllAppend(el', a[1..], b, render, depth);
      case Err(_) =>
    }
  }

  /**
   `insertChildren` appends exactly the flattening of its children, one `appendChild` per
   non-array leaf, in order: arrays are expanded and strings become text wrappers, whatever
   the nesting.
   */
  lemma {:induction false} InsertChildrenFlattens(el: Renderable, children: seq<Value>, render: RenderFn, depth: nat)
    ensures InsertChildren(el, children, render, depth) == AppendAll(el, Flatten(children), render, depth)
    decreases children
  {
    if |children| > 0 {
      var c, rest := children[0], children[1..];
      assert Flatten(children) == Flatten([c]) + Flatten(rest) by {
        assert children == [c] + rest;
        FlattenAppend([c], rest);
      }
      AppendAllAppend(el, Flatten([c]), Flatten(rest), render, depth);
      var step := match c
        case Str(s) => AppendChild(el, Wrapper(TextElementWrapper(s)), render, depth)
        case Arr(xs) => InsertChildren(el, xs, render, depth)
        case _ => AppendChild(el, c, render, depth);
      assert AppendAll(el, Flatten([c]), render, depth) == step by {
        FlattenSingle(c);
        if c.Arr? {
          InsertChildrenFlattens(el, c.items, render, depth);
        } else {
          var x := Flatten([c])[0];
          assert Flatten([c]) == [x] && [x][1..] == [];
        }
      }
      match step
      case Ok(el') => InsertChildrenFlattens(el', rest, render, depth);
      case Err(_) =>
    }
  }

  /** Only the flattening of the children matters: nesting them differently builds the same thing. */
  lemma NestingIrrelevant(d: Descriptor, attributes: Value, c1: seq<Value>, c2: seq<Value>, render: RenderFn, depth: nat)
    requires Flatten(c1) == Flatten(c2)
    ensures CreateElement(d, attributes, c1, render, depth) == CreateElement(d, attributes, c2, render, depth)
  {
    var el := match d
      case Tag(name) => ElementWrapper(FreshElement(name))
      case ComponentClass(kind) => Instance(FreshComponent(kind));
    match SetAttributes(el, ForInEntries(attributes))
    case Ok(el') =>
      InsertChildrenFlattens(el', c1, render, depth);
      InsertChildrenFlattens(el', c2, render, depth);
    case Err(_) =>
  }

  /**
   On a component, `setAttribute` stores into props: the name takes the new value, every
   other name keeps its own, the names keep their order of first setting, and children and
   memoised root are untouched.
   */
  lemma ComponentSetAttribute(c: Component, name: string, value: Value)
    requires UniqueKeys(c.props)
    ensures SetAttribute(Instance(c), name, value).Ok?
    ensures var r := SetAttribute(Instance(c), name, value).value;
      && r.Instance? && r.c.kind == c.kind && r.c.children == c.children && r.c.cache == c.cache
      && Lookup(r.c.props, name) == Some(value)
      && (forall k :: k != name ==> Lookup(r.c.props, k) == Lookup(c.props, k))
      && UniqueKeys(r.c.props)
      && KeysOf(r.c.props) == if name in KeysOf(c.props) then KeysOf(c.props) else KeysOf(c.props) + [name]
  {
    AssignKeys(c.props, name, value);
  }

  /** `setAttribute` for each entry in turn, on a props list. */
  function AssignAll(props: Entries, es: Entries): Entries
    decreases |es|
  {
    if |es| == 0 then props else AssignAll(Assign(props, es[0].0, es[0].1), es[1..])
  }

  lemma {:induction false} SetAttributesAssigns(c: Component, es: Entries)
    ensures SetAttributes(Instance(c), es) == Ok(Instance(c.(props := AssignAll(c.props, es))))
    decreases |es|
  {
    if |es| > 0 {
      SetAttributesAssigns(c.(props := Assign(c.props, es[0].0, es[0].1)), es[1..]);
    }
  }

  lemma {:induction false} AssignAllBuilds(prior: Entries, es: Entries)
    ensures AssignAll(Properties(prior), es) == Properties(prior + es)
    decreases |es|
  {
    if |es| == 0 {
      assert prior + es == prior;
    } else {
      var (k, v) := es[0];
      var next := prior + [(k, v)];
      calc {
        AssignAll(Properties(prior), es);
        AssignAll(Assign(Properties(prior), k, v), es[1..]);
        { PropertiesSnoc(prior, k, v); }
        AssignAll(Properties(next), es[1..]);
        { AssignAllBuilds(next, es[1..]); }
        Properties(next + es[1..]);
        { assert next + es[1..] == prior + es; }
        Properties(prior + es);
      }
    }
  }

  /** Setting a list of attributes on a fresh component builds its props as an object literal would. */
  lemma SetAttributesOnComponent(c: Component, es: Entries)
    requires c.props == []
    ensures SetAttributes(Instance(c), es) == Ok(Instance(c.(props := Properties(es))))
  {
    SetAttributesAssigns(c, es);
    AssignAllBuilds([], es);
    assert [] + es == es;
  }

  /** Appending to a component only records the values, in order; nothing is read from them. */
  lemma {:induction false} AppendAllOnComponent(c: Component, vs: seq<Value>, render: RenderFn, depth: nat)
    ensures AppendAll(Instance(c), vs, render, depth) == Ok(Instance(c.(children := c.children + vs)))
    decreases |vs|
  {
    if |vs| == 0 {
      assert c.children + vs == c.children;
    } else {
      AppendAllOnComponent(c.(children := c.children + [vs[0]]), vs[1..], render, depth);
      assert c.children + [vs[0]] + vs[1..] == c.children + vs;
    }
  }

  /**
   `createElement` with a component class never fails: the component gets the attributes as
   its props, each name holding its last value, and the flattened children, in order, with
   `null`s kept and strings as text wrappers; its root is not read yet.
   */
  lemma CreateComponent(kind: string, attributes: Value, children: seq<Value>, render: RenderFn, depth: nat)
    ensures CreateElement(ComponentClass(kind), attributes, children, render, depth)
         == Ok(Instance(Component(kind, Properties(ForInEntries(attributes)), Flatten(children), None)))
  {
    var c := FreshComponent(kind);
    SetAttributesOnComponent(c, ForInEntries(attributes));
    var c' := c.(props := Properties(ForInEntries(attributes)));
    InsertChildrenFlattens(Instance(c'), children, render, depth);
    AppendAllOnComponent(c', Flatten(children), render, depth);
    assert c'.children + Flatten(children) == Flatten(children);
  }

  /** On an element wrapper, setting a list of attributes is `initAttributes` for each in turn. */
  lemma {:induction false} SetAttributesOnElement(n: HostNode, es: Entries)
    ensures SetAttributes(ElementWrapper(n), es) ==
      match InitAll(n, es)
      case Done(n') => Ok(ElementWrapper(n'))
      case Threw(_, f) => Err(f)
    decreases |es|
  {
    if |es| > 0 {
      match InitAttributes(n, es[0].0, es[0].1)
      case Done(n') => SetAttributesOnElement(n', es[1..]);
      case Threw(_, _) =>
    }
  }

  /**
   On an element wrapper, appending a list of values appends their roots, in order, after
   the existing children; the first value without a root is the fault.
   */
  lemma {:induction false} AppendAllOnElement(n: HostNode, vs: seq<Value>, render: RenderFn, depth: nat)
    requires n.Element?
    ensures AppendAll(ElementWrapper(n), vs, render, depth) ==
      match Roots(vs, render, depth)
      case Ok(ns) => Ok(ElementWrapper(n.(children := n.children + ns)))
      case Err(f) => Err(f)
    decreases |vs|
  {
    if |vs| == 0 {
      assert n.children + [] == n.children;
    } else {
      var first := ValueRoot(vs[0], render, depth);
      if first.Ok? {
        var x := first.value;
        var n' := n.(children := n.children + [x]);
        assert AppendChild(ElementWrapper(n), vs[0], render, depth) == Ok(ElementWrapper(n'));
        assert AppendAll(ElementWrapper(n), vs, render, depth) == AppendAll(ElementWrapper(n'), vs[1..], render, depth);
        AppendAllOnElement(n', vs[1..], render, depth);
        var rest := Roots(vs[1..], render, depth);
        if rest.Ok? {
          assert Roots(vs, render, depth) == Ok([x] + rest.value);
          assert n.children + [x] + rest.value == n.children + ([x] + rest.value);
        } else {
          assert Roots(vs, render, depth) == Err(rest.fault);
        }
      }
    }
  }

  /**
   `createElement` with a tag name builds a fresh element carrying the attributes (plain
   ones overlaid, later winning; style declarations overlaid in order; every class token)
   whose children are the roots of the flattened children, in order. It fails exactly when
   an attribute is unacceptable or some flattened child has no root.
   */
  lemma CreateTag(tag: string, attributes: Value, children: seq<Value>, render: RenderFn, depth: nat)
    ensures var r := CreateElement(Tag(tag), attributes, children, render, depth);
      var es := ForInEntries(attributes);
      && (r.Ok? <==> AllAccepted(es) && Roots(Flatten(children), render, depth).Ok?)
      && (!AllAccepted(es) ==> InitAll(FreshElement(tag), es).Threw? && r == Err(InitAll(FreshElement(tag), es).fault))
      && (r.Ok? ==>
          && r.value.ElementWrapper? && r.value.root.Element? && r.value.root.tag == tag
          && r.value.root.attrs == Overlay(map[], GenericEntries(es))
          && r.value.root.style == Overlay(map[], StyleOf(es))
          && r.value.root.classes == TokenSet(ClassesOf(es))
          && r.value.root.children == Roots(Flatten(children), render, depth).value)
  {
    var es := ForInEntries(attributes);
    var newNode := FreshElement(tag);
    SetAttributesOnElement(newNode, es);
    InitAllSpec(newNode, es);
    if AllAccepted(es) {
      var n := InitAll(newNode, es).node;
      InsertChildrenFlattens(ElementWrapper(n), children, render, depth);
      AppendAllOnElement(n, Flatten(children), render, depth);
      assert {} + TokenSet(ClassesOf(es)) == TokenSet(ClassesOf(es));
      match Roots(Flatten(children), render, depth)
      case Ok(ns) => assert n.children + ns == ns;
      case Err(_) =>
    }
  }

  /** A `null` child, at any depth, makes `createElement` with a tag name throw. */
  lemma NullChildThrows(tag: string, attributes: Value, children: seq<Value>, render: RenderFn, depth: nat)
    requires Null in Leaves(children)
    ensures CreateElement(Tag(tag), attributes, children, render, depth).Err?
  {
    NullKept(children);
    var i :| 0 <= i < |Flatten(children)| && Flatten(children)[i] == Null;
    assert ValueRoot(Flatten(children)[i], render, depth).Err?;
    RootsSpec(Flatten(children), render, depth);
    CreateTag(tag, attributes, children, render, depth);
  }

  /**
   Once a read of a component's root has set the memo, whether that read returned or threw,
   every later read returns the memoised node and leaves the component as it is, whatever
   `render()` would now return and however deep. A read that returned gave that same node.
   */
  lemma RootMemoised(c: Component, render: RenderFn, depth: nat, render': RenderFn, depth': nat)
    requires ComponentRoot(c, render, depth).1.cache.Some?
    ensures var (out, c') := ComponentRoot(c, render, depth);
      && (out.Ok? ==> out.value == c'.cache.value)
      && ComponentRoot(c', render', depth') == (Ok(c'.cache.value), c')
      && RootOf(Instance(c'), render', depth') == Ok(c'.cache.value)
  {
  }

  /**
   `depth` only bounds the chain of components rendering components: a root that can be read
   within some depth is read, with the same result, within any larger one.
   */
  lemma {:induction false} RootOfMono(r: Renderable, render: RenderFn, d: nat, d': nat)
    requires d <= d' && RootOf(r, render, d).Ok?
    ensures RootOf(r, render, d') == RootOf(r, render, d)
    decreases d, 1
  {
    if r.Instance? {
      ComponentRootMono(r.c, render, d, d');
    }
  }

  /**
   A read of a component's root that got as far as memoising a node, whether it then returned
   or threw, behaves the same with any larger depth.
   */
  lemma {:induction false} ComponentRootMono(c: Component, render: RenderFn, d: nat, d': nat)
    requires d <= d' && ComponentRoot(c, render, d).1.cache.Some?
    ensures ComponentRoot(c, render, d') == ComponentRoot(c, render, d)
    decreases d, 0
  {
    if c.cache.None? {
      RootOfMono(render(c).value, render, d - 1, d' - 1);
    }
  }

  /**
   The first read of a component's root, once `render()` has returned something with a root:
   that root is memoised with the props applied in order, and the read throws exactly when a
   prop does, the memo then holding the props before it applied, plus whatever the throwing
   prop wrote before its fault. When the rendered root is an
   element, the read succeeds exactly when every prop is acceptable, and the root is that
   element with the props applied: plain ones overlaid, style declarations overlaid, class
   tokens added, tag and children kept.
   */
  lemma ComponentRootApplies(c: Component, render: RenderFn, depth: nat, inner: HostNode)
    requires c.cache.None? && depth > 0
    requires render(c).Ok? && RootOf(render(c).value, render, depth - 1) == Ok(inner)
    ensures var (out, c') := ComponentRoot(c, render, depth);
      && c'.cache == Some(InitAll(inner, c.props).node)
      && out == Outcome(InitAll(inner, c.props))
    ensures inner.Element? ==> (ComponentRoot(c, render, depth).0.Ok? <==> AllAccepted(c.props))
    ensures inner.Element? ==>
      var m := ComponentRoot(c, render, depth).1.cache.value;
      m.Element? && m.tag == inner.tag && m.children == inner.children && inner.classes <= m.classes
    ensures inner.Element? && AllAccepted(c.props) ==>
      var n := ComponentRoot(c, render, depth).0.value;
      && n.Element? && n.tag == inner.tag && n.children == inner.children
      && n.attrs == Overlay(inner.attrs, GenericEntries(c.props))
      && n.style == Overlay(inner.style, StyleOf(c.props))
      && n.classes == inner.classes + TokenSet(ClassesOf(c.props))
  {
    if inner.Element? {
      InitAllSpec(inner, c.props);
      InitAllKeeps(inner, c.props);
    }
  }

  /**
   `render` appends the root of `r` after the parent's existing children and changes nothing
   else about the parent; a text node cannot be a parent.
   */
  lemma RenderAppends(r: Renderable, parent: HostNode, render: RenderFn, depth: nat)
    ensures var out := Render(r, parent, render, depth);
      && (out.Ok? <==> parent.Element? && RootOf(r, render, depth).Ok?)
      && (out.Ok? ==>
          && out.value.Element? && out.value.tag == parent.tag && out.value.attrs == parent.attrs
          && out.value.style == parent.style && out.value.classes == parent.classes
          && |out.value.children| == |parent.children| + 1
          && out.value.children[..|parent.children|] == parent.children
          && out.value.children[|parent.children|] == RootOf(r, render, depth).value)
  {
    if Render(r, parent, render, depth).Ok? {
      var out := Render(r, parent, render, depth).value;
      assert out.children == parent.children + [RootOf(r, render, depth).value];
    }
  }

  /** A text wrapper is a leaf: it takes neither attributes nor children. */
  lemma TextWrapperIsLeaf(t: string, name: string, value: Value, child: Value, render: RenderFn, depth: nat)
    ensures SetAttribute(TextElementWrapper(t), name, value) == Err(NotAnElement)
    ensures AppendChild(TextElementWrapper(t), child, render, depth) == Err(NotAContainer)
  {
  }
}
