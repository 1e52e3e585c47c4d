/**
 JavaScript values as toy-react meets them, the abstract host node it builds, and the three
 kinds of receiver `createElement` returns or wraps: `ElementWrapper`, `TextElementWrapper`
 and instances of `Component` (toy-react.js, lines 1-41). The datatypes are mutually
 recursive, so they share this module.
 */
module Values {
  import opened Outcomes

  /** Own enumerable properties, key and value, in enumeration order. */
  type Entries = seq<(string, Value)>

  datatype Value =
    | Undefined
    | Null
    | Bool(b: bool)
    | Num(n: int)
    | Str(s: string)
    | Arr(items: seq<Value>)
      /** an object literal, with its entries as written (a key may repeat) */
    | Obj(entries: Entries)
      /** a host node handed around as a value */
    | Host(node: HostNode)
      /** a wrapper or component instance */
    | Wrapper(w: Renderable)

  /**
   The host node: an element with its attribute map, style map, class set and children, or a
   text node.
   */
  datatype HostNode =
    | Element(tag: string, attrs: map<string, Value>, style: map<string, Value>,
              classes: set<string>, children: seq<HostNode>)
    | Text(content: string)

  datatype Renderable =
      /** `new ElementWrapper(type)`: owns the element `root` */
    | ElementWrapper(root: HostNode)
      /** `new TextElementWrapper(content)`: owns a text node holding `content` */
    | TextElementWrapper(content: string)
      /** an instance of a `Component` subclass */
    | Instance(c: Component)

  /**
   A `Component` instance: the name of its subclass, its props object, its children array and
   the memoised root (`_root`), `None` while it is still `null`.
   */
  datatype Component = Component(kind: string, props: Entries, children: seq<Value>, cache: Option<HostNode>)

  /** The element `document.createElement(tag)` returns. */
  function FreshElement(tag: string): HostNode
  {
    Element(tag, map[], map[], {}, [])
  }

  /** What a `Component` constructor leaves behind. */
  function FreshComponent(kind: string): Component
  {
    Component(kind, [], [], None)
  }

  /** JavaScript truthiness (numbers are integers here, so there is no NaN). */
  predicate Truthy(v: Value)
  {
    match v
    case Undefined => false
    case Null => false
    case Bool(b) => b
    case Num(n) => n != 0
    case Str(s) => s != ""
    case _ => true
  }

  /** `typeof v === 'object'`: null, arrays, objects, host nodes and wrappers. */
  predicate IsObjectTyped(v: Value)
  {
    v.Null? || v.Arr? || v.Obj? || v.Host? || v.Wrapper?
  }

  /** The property keys of `es`, in order. */
  function KeysOf(es: Entries): (r: seq<string>)
    ensures |r| == |es| && forall i :: 0 <= i < |es| ==> r[i] == es[i].0
  {
    if |es| == 0 then [] else [es[0].0] + KeysOf(es[1..])
  }

  /** No key occurs twice, as in every JavaScript object: no key recurs among those after it. */
  predicate UniqueKeys(es: Entries)
  {
    |es| == 0 || (es[0].0 !in KeysOf(es[1..]) && UniqueKeys(es[1..]))
  }

  /** The value of property `k`, found at its first occurrence. */
  function Lookup(es: Entries, k: string): Option<Value>
  {
    if |es| == 0 then None
    else if es[0].0 == k then Some(es[0].1)
    else Lookup(es[1..], k)
  }

  /** The value the last entry with key `k` gives it: what a literal with repeated keys keeps. */
  function LastValue(es: Entries, k: string): Option<Value>
  {
    if |es| == 0 then None
    else if es[|es| - 1].0 == k then Some(es[|es| - 1].1)
    else LastValue(es[..|es| - 1], k)
  }

  /** A list with a first entry has unique keys when its tail does and the first key is not among them. */
  lemma UniqueCons(x: (string, Value), rest: Entries)
    ensures UniqueKeys([x] + rest) <==> x.0 !in KeysOf(rest) && UniqueKeys(rest)
  {
    assert ([x] + rest)[1..] == rest;
  }

  /**
   `obj[k] = v` on an object with property list `es`: a new key goes last, an existing key
   keeps its place and takes the new value, and every other property is left alone.
   */
  function Assign(es: Entries, k: string, v: Value): (r: Entries)
    ensures Lookup(r, k) == Some(v)
    ensures forall k' :: k' != k ==> Lookup(r, k') == Lookup(es, k')
  {
    if |es| == 0 then [(k, v)]
    else if es[0].0 == k then [(k, v)] + es[1..]
    else [es[0]] + Assign(es[1..], k, v)
  }

  /**
   Assignment keeps the order of the keys, appending a new one last, and so never introduces a
   duplicate key.
   */
  lemma {:induction false} AssignKeys(es: Entries, k: string, v: Value)
    ensures KeysOf(Assign(es, k, v)) == if k in KeysOf(es) then KeysOf(es) else KeysOf(es) + [k]
    ensures UniqueKeys(es) ==> UniqueKeys(Assign(es, k, v))
  {
    if |es| > 0 && es[0].0 != k {
      var rest := Assign(es[1..], k, v);
      AssignKeys(es[1..], k, v);
      assert Assign(es, k, v) == [es[0]] + rest;
      assert es == [es[0]] + es[1..];
      UniqueCons(es[0], es[1..]);
      UniqueCons(es[0], rest);
    } else if |es| > 0 {
      assert KeysOf(Assign(es, k, v)) == KeysOf(es);
      UniqueCons(es[0], es[1..]);
      UniqueCons((k, v), es[1..]);
      assert es == [es[0]] + es[1..];
    }
  }

  /**
   The property list of an object built by assigning the entries of `es` one after another:
   each key once, in order of first appearance, holding its last value.
   */
  function Properties(es: Entries): (r: Entries)
    ensures UniqueKeys(r)
    ensures forall k :: Lookup(r, k) == LastValue(es, k)
  {
    if |es| == 0 then []
    else
      var prior := Properties(es[..|es| - 1]);
      AssignKeys(prior, es[|es| - 1].0, es[|es| - 1].1);
      Assign(prior, es[|es| - 1].0, es[|es| - 1].1)
  }

  /** Assigning one more entry to a built object is building from the longer list. */
  lemma PropertiesSnoc(es: Entries, k: string, v: Value)
    ensures Properties(es + [(k, v)]) == Assign(Properties(es), k, v)
  {
    var longer := es + [(k, v)];
    assert longer[..|longer| - 1] == es;
  }

  /**
   The map `m` after `m[k] = v` for every entry of `es` in turn: a key the entries mention ends
   with its last value there, and every other key keeps its value in `m`.
   */
  function Overlay(m: map<string, Value>, es: Entries): (r: map<string, Value>)
    ensures forall k :: LastValue(es, k).Some? ==> k in r && r[k] == LastValue(es, k).value
    ensures forall k :: LastValue(es, k).None? ==> (k in r <==> k in m) && (k in m ==> r[k] == m[k])
  {
    if |es| == 0 then m
    else Overlay(m, es[..|es| - 1])[es[|es| - 1].0 := es[|es| - 1].1]
  }

  /** The last entry with a key wins: `LastValue` of a concatenation. */
  lemma {:induction false} LastValueAppend(a: Entries, b: Entries, k: string)
    ensures LastValue(a + b, k) == if LastValue(b, k).Some? then LastValue(b, k) else LastValue(a, k)
    decreases |b|
  {
    if |b| == 0 {
      assert a + b == a;
    } else {
      assert (a + b)[..|a + b| - 1] == a + b[..|b| - 1];
      LastValueAppend(a, b[..|b| - 1], k);
    }
  }

  /** Overlaying two entry lists one after the other is overlaying their concatenation. */
  lemma OverlayAppend(m: map<string, Value>, a: Entries, b: Entries)
    ensures Overlay(m, a + b) == Overlay(Overlay(m, a), b)
  {
    forall k
      ensures LastValue(a + b, k) == if LastValue(b, k).Some? then LastValue(b, k) else LastValue(a, k)
    {
      LastValueAppend(a, b, k);
    }
  }

  /** Overlaying one entry is one map update. */
  lemma OverlaySingle(m: map<string, Value>, k: string, v: Value)
    ensures Overlay(m, [(k, v)]) == m[k := v]
  {
    assert [(k, v)][..0] == [];
  }

  /** Overlaying the same entries a second time changes nothing. */
  lemma OverlayIdempotent(m: map<string, Value>, es: Entries)
    ensures Overlay(Overlay(m, es), es) == Overlay(m, es)
  {
  }

  /** The decimal digits of `n`, as a property key for an array index. */
  function IndexKey(n: nat): string
  {
    var d := "0123456789"[n % 10];
    if n < 10 then [d] else IndexKey(n / 10) + [d]
  }

  /**
   The (key, value) pairs `for (k in v)` visits together with `v[k]`: index keys for arrays
   and strings, the properties of an object, the own fields of a wrapper, and nothing for
   null, undefined, booleans and numbers. Host nodes visit nothing here (see README).
   */
  function ForInEntries(v: Value): Entries
  {
    match v
    case Obj(es) => Properties(es)
    case Arr(items) => seq(|items|, i requires 0 <= i < |items| => (IndexKey(i), items[i]))
    case Str(s) => seq(|s|, i requires 0 <= i < |s| => (IndexKey(i), Str([s[i]])))
    case Wrapper(ElementWrapper(root)) => [("root", Host(root))]
    case Wrapper(TextElementWrapper(t)) => [("root", Host(Text(t)))]
    case Wrapper(Instance(c)) =>
      [ ("_root", if c.cache.Some? then Host(c.cache.value) else Null),
        ("props", Obj(c.props)),
        ("children", Arr(c.children)) ]
    case _ => []
  }

  /** The non-array values of an arbitrarily nested array, in order, with the nesting removed. */
  function Leaves(vs: seq<Value>): (r: seq<Value>)
    ensures forall i :: 0 <= i < |r| ==> !r[i].Arr?
  {
    if |vs| == 0 then []
    else (if vs[0].Arr? then Leaves(vs[0].items) else [vs[0]]) + Leaves(vs[1..])
  }

  /** One value flattens to its own leaves if it is an array, and to itself otherwise. */
  lemma LeavesSingle(v: Value)
    ensures Leaves([v]) == if v.Arr? then Leaves(v.items) else [v]
  {
    assert [v][1..] == [];
    assert Leaves([v]) == (if v.Arr? then Leaves(v.items) else [v]) + Leaves([]);
  }

  /** Flattening distributes over concatenation, so it respects order. */
  lemma {:induction false} LeavesAppend(a: seq<Value>, b: seq<Value>)
    ensures Leaves(a + b) == Leaves(a) + Leaves(b)
  {
    if |a| == 0 {
      assert a + b == b;
    } else {
      assert (a + b)[1..] == a[1..] + b;
      LeavesAppend(a[1..], b);
    }
  }
}
