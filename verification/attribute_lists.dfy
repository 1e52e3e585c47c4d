/**
 `initAttributes` applied to a whole list of properties, in order: what `createElement` does
 with an element's attributes (toy-react.js, lines 84-86, through `ElementWrapper.setAttribute`
 at lines 5-7) and what the `root` getter does with a component's props (lines 35-37).
 */
module AttributeLists {
  import opened Values
  import opened HostTree
  import opened Attributes

  /** `initAttributes` for every property of a props object, in enumeration order (lines 35-37). */
  function InitAll(node: HostNode, es: Entries): Run
    decreases |es|
  {
    if |es| == 0 then Done(node)
    else
      var node' :- InitAttributes(node, es[0].0, es[0].1);
      InitAll(node', es[1..])
  }

  /**
   Where a property list stops when an entry throws: the entries before it have been applied
   in full, and the node left behind is what the throwing entry's own writes left.
   */
  lemma {:induction false} InitAllStopsAt(node: HostNode, es: Entries)
    requires InitAll(node, es).Threw?
    ensures exists i ::
      && 0 <= i < |es| && InitAll(node, es[..i]).Done?
      && InitAll(node, es) == InitAttributes(InitAll(node, es[..i]).node, es[i].0, es[i].1)
    decreases |es|
  {
    assert es[..0] == [];
    var first := InitAttributes(node, es[0].0, es[0].1);
    if first.Done? {
      InitAllStopsAt(first.node, es[1..]);
      var j :| 0 <= j < |es[1..]| && InitAll(first.node, es[1..][..j]).Done?
        && InitAll(first.node, es[1..]) == InitAttributes(InitAll(first.node, es[1..][..j]).node, es[1..][j].0, es[1..][j].1);
      assert es[..j + 1][1..] == es[1..][..j];
      assert es[..j + 1][0] == es[0];
      assert InitAll(node, es[..j + 1]) == InitAll(first.node, es[1..][..j]);
    }
  }

  /**
   Whether it returns or throws, applying a property list leaves an element an element with the
   same tag and children, and with every class it had.
   */
  lemma {:induction false} InitAllKeeps(node: HostNode, es: Entries)
    requires node.Element?
    ensures var n := InitAll(node, es).node;
      n.Element? && n.tag == node.tag && n.children == node.children && node.classes <= n.classes
    decreases |es|
  {
    if |es| > 0 {
      InitAttributesKeeps(node, es[0].0, es[0].1);
      var first := InitAttributes(node, es[0].0, es[0].1);
      if first.Done? {
        InitAllKeeps(first.node, es[1..]);
      }
    }
  }

  /** Every entry is acceptable, so applying them to an element cannot throw. */
  predicate AllAccepted(es: Entries)
  {
    forall i :: 0 <= i < |es| ==> Accepts(es[i].0, es[i].1)
  }

  /** The entries that become plain attributes. */
  function GenericEntries(es: Entries): Entries
  {
    if |es| == 0 then []
    else (if es[0].0 != "style" && es[0].0 != "class" then [es[0]] else []) + GenericEntries(es[1..])
  }

  /** The style assignments of every `style` entry, in order. */
  function StyleOf(es: Entries): Entries
    requires AllAccepted(es)
  {
    if |es| == 0 then []
    else (if es[0].0 == "style" then StyleAssignments(es[0].1).value else []) + StyleOf(es[1..])
  }

  /** The class tokens of every `class` entry, in order. */
  function ClassesOf(es: Entries): seq<string>
  {
    if |es| == 0 then []
    else (if es[0].0 == "class" then ClassTokens(es[0].1) else []) + ClassesOf(es[1..])
  }

  /**
   Applying a property list to an element succeeds exactly when every entry is acceptable.
   Then the element keeps its tag and children; its attributes are overlaid with the plain
   entries, later ones winning; its style map is overlaid with every style assignment in
   order, later ones winning; and its class set gains every class token, losing none.
   */
  lemma {:induction false} InitAllSpec(node: HostNode, es: Entries)
    requires node.Element?
    ensures InitAll(node, es).Done? <==> AllAccepted(es)
    ensures AllAccepted(es) ==>
      var r := InitAll(node, es).node;
      && r.Element? && r.tag == node.tag && r.children == node.children
      && r.attrs == Overlay(node.attrs, GenericEntries(es))
      && r.style == Overlay(node.style, StyleOf(es))
      && r.classes == node.classes + TokenSet(ClassesOf(es))
    decreases |es|
  {
    if |es| > 0 {
      var (name, value) := es[0];
      InitAttributesSpec(node, name, value);
      if Accepts(name, value) {
        var n := Effect(node, name, value);
        InitAllSpec(n, es[1..]);
        AllAcceptedCons(es);
        if AllAccepted(es) {
          EffectThenRest(node, es);
        }
      } else {
        AllAcceptedCons(es);
      }
    }
  }

  /** The first entry's effect followed by the rest's overlays is the overlay of them all. */
  lemma EffectThenRest(node: HostNode, es: Entries)
    requires node.Element? && |es| > 0 && AllAccepted(es) && AllAccepted(es[1..])
    ensures var n := Effect(node, es[0].0, es[0].1);
      && Overlay(n.attrs, GenericEntries(es[1..])) == Overlay(node.attrs, GenericEntries(es))
      && Overlay(n.style, StyleOf(es[1..])) == Overlay(node.style, StyleOf(es))
      && n.classes + TokenSet(ClassesOf(es[1..])) == node.classes + TokenSet(ClassesOf(es))
  {
    AttrsThenRest(node, es);
    StyleThenRest(node, es);
    ClassesThenRest(node, es);
  }

  lemma AttrsThenRest(node: HostNode, es: Entries)
    requires node.Element? && |es| > 0 && AllAccepted(es)
    ensures Overlay(Effect(node, es[0].0, es[0].1).attrs, GenericEntries(es[1..])) == Overlay(node.attrs, GenericEntries(es))
  {
    var (name, value) := es[0];
    var n := Effect(node, name, value);
    if name != "style" && name != "class" {
      var later := GenericEntries(es[1..]);
      calc {
        Overlay(n.attrs, later);
        Overlay(node.attrs[name := value], later);
        { OverlaySingle(node.attrs, name, value); }
        Overlay(Overlay(node.attrs, [(name, value)]), later);
        { OverlayAppend(node.attrs, [(name, value)], later); }
        Overlay(node.attrs, [(name, value)] + later);
        { assert GenericEntries(es) == [(name, value)] + later; }
        Overlay(node.attrs, GenericEntries(es));
      }
    } else {
      assert n.attrs == node.attrs;
      assert GenericEntries(es) == [] + GenericEntries(es[1..]);
      assert [] + GenericEntries(es[1..]) == GenericEntries(es[1..]);
    }
  }

  lemma StyleThenRest(node: HostNode, es: Entries)
    requires node.Element? && |es| > 0 && AllAccepted(es) && AllAccepted(es[1..])
    ensures Overlay(Effect(node, es[0].0, es[0].1).style, StyleOf(es[1..])) == Overlay(node.style, StyleOf(es))
  {
    var (name, value) := es[0];
    var n := Effect(node, name, value);
    if name == "style" {
      assert n.style == Overlay(node.style, StyleAssignments(value).value);
      assert StyleOf(es) == StyleAssignments(value).value + StyleOf(es[1..]);
      OverlayAppend(node.style, StyleAssignments(value).value, StyleOf(es[1..]));
    } else {
      assert n.style == node.style;
      assert StyleOf(es) == [] + StyleOf(es[1..]);
      assert [] + StyleOf(es[1..]) == StyleOf(es[1..]);
    }
  }

  lemma ClassesThenRest(node: HostNode, es: Entries)
    requires node.Element? && |es| > 0 && AllAccepted(es)
    ensures Effect(node, es[0].0, es[0].1).classes + TokenSet(ClassesOf(es[1..])) == node.classes + TokenSet(ClassesOf(es))
  {
    assert Accepts(es[0].0, es[0].1);
    var added := ClassesAdded(node, es[0].0, es[0].1);
    var rest := ClassesOf(es[1..]);
    calc {
      Effect(node, es[0].0, es[0].1).classes + TokenSet(rest);
      node.classes + TokenSet(added) + TokenSet(rest);
      { TokenSetConcat(added, rest); }
      node.classes + TokenSet(added + rest);
      { assert ClassesOf(es) == added + rest; }
      node.classes + TokenSet(ClassesOf(es));
    }
  }

  /** The class tokens one entry adds, and what its effect does to the class set. */
  function ClassesAdded(node: HostNode, name: string, value: Value): (r: seq<string>)
    requires node.Element? && Accepts(name, value)
    ensures Effect(node, name, value).classes == node.classes + TokenSet(r)
  {
    if name == "class" then ClassTokens(value)
    else assert TokenSet([]) == {}; []
  }

  lemma AllAcceptedCons(es: Entries)
    requires |es| > 0
    ensures AllAccepted(es) <==> Accepts(es[0].0, es[0].1) && AllAccepted(es[1..])
  {
    assert forall i :: 1 <= i < |es| ==> es[i] == es[1..][i - 1];
  }

  /**
   Reconciliation is idempotent: applying the same property list to an element a second time
   leaves it as the first application did.
   */
  lemma InitAllIdempotent(node: HostNode, es: Entries)
    requires node.Element? && InitAll(node, es).Done?
    ensures InitAll(InitAll(node, es).node, es) == InitAll(node, es)
  {
    var once := InitAll(node, es).node;
    InitAllSpec(node, es);
    InitAllSpec(once, es);
    var twice := InitAll(once, es).node;
    OverlayIdempotent(node.attrs, GenericEntries(es));
    OverlayIdempotent(node.style, StyleOf(es));
    assert twice.classes == once.classes;
  }
}
