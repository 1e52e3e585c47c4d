/**
 `initAttributes(ele, name, value)` (toy-react.js, lines 44-73): the one place attribute
 values reach a host node. The name `style` sets style properties, the name `class` adds
 classes, and any other name becomes a plain attribute.

 Each branch is modelled as the source walks it, and is related to a reference definition:
 the list of style assignments it makes, the list of class tokens it adds, and the pure
 `Effect` an attribute has on an element.
 */
module Attributes {
  import opened Outcomes
  import opened Strings
  import StyleDecl
  import opened Values
  import opened HostTree

  /** A non-array value is treated as the one-element list holding it (lines 47 and 61). */
  function AsList(v: Value): seq<Value>
  {
    if v.Arr? then v.items else [v]
  }

  // ---------------------------------------------------------------------------------------
  // style (lines 46-58)

  /** The declarations of one style string, applied left to right; a segment that does not match throws. */
  function DeclsStyle(node: HostNode, segs: seq<string>): Run
    decreases |segs|
  {
    if |segs| == 0 then Done(node)
    else match StyleDecl.Match(segs[0])
      case None => Threw(node, StyleDeclMismatch(segs[0]))
      case Some((k, v)) =>
        var node' :- SetStyle(node, k, Str(v));
        DeclsStyle(node', segs[1..])
  }

  /** An object rule: each of its properties written into the style map in turn (line 57). */
  function EntriesStyle(node: HostNode, es: Entries): Run
    decreases |es|
  {
    if |es| == 0 then Done(node)
    else
      var node' :- SetStyle(node, es[0].0, es[0].1);
      EntriesStyle(node', es[1..])
  }

  /** One entry of the rule list: a string is split on `;`, an object is walked key by key. */
  function RuleStyle(node: HostNode, r: Value): Run
  {
    if r.Str? then DeclsStyle(node, Split(r.s, ';'))
    else if IsObjectTyped(r) then EntriesStyle(node, ForInEntries(r))
    else Done(node)
  }

  function RulesStyle(node: HostNode, rules: seq<Value>): Run
    decreases |rules|
  {
    if |rules| == 0 then Done(node)
    else
      var node' :- RuleStyle(node, rules[0]);
      RulesStyle(node', rules[1..])
  }

  /** The `style` branch of `initAttributes`. */
  function ApplyStyle(node: HostNode, value: Value): Run
  {
    RulesStyle(node, AsList(value))
  }

  /** The assignments a list of declarations makes, or the first segment that does not match. */
  function DeclAssignments(segs: seq<string>): Result<Entries>
  {
    if |segs| == 0 then Ok([])
    else match StyleDecl.Match(segs[0])
      case None => Err(StyleDeclMismatch(segs[0]))
      case Some((k, v)) =>
        var rest :- DeclAssignments(segs[1..]);
        Ok([(k, Str(v))] + rest)
  }

  /** The assignments one rule makes. */
  function RuleAssignments(r: Value): Result<Entries>
  {
    if r.Str? then DeclAssignments(Split(r.s, ';'))
    else if IsObjectTyped(r) then Ok(ForInEntries(r))
    else Ok([])
  }

  /** The assignments a rule list makes, in order. */
  function RulesAssignments(rules: seq<Value>): Result<Entries>
  {
    if |rules| == 0 then Ok([])
    else
      var first :- RuleAssignments(rules[0]);
      var rest :- RulesAssignments(rules[1..]);
      Ok(first + rest)
  }

  /** Every style property assignment the value `value` of the `style` attribute asks for, in order. */
  function StyleAssignments(value: Value): Result<Entries>
  {
    RulesAssignments(AsList(value))
  }

  /** On an element the declarations of a string set exactly the assignments the string lists. */
  lemma {:induction false} DeclsStyleSpec(node: HostNode, segs: seq<string>)
    requires node.Element?
    ensures Outcome(DeclsStyle(node, segs)) == match DeclAssignments(segs)
      case Ok(es) => Ok(node.(style := Overlay(node.style, es)))
      case Err(f) => Err(f)
    decreases |segs|
  {
    if |segs| > 0 {
      match StyleDecl.Match(segs[0])
      case None =>
      case Some((k, v)) =>
        var node' := node.(style := node.style[k := Str(v)]);
        DeclsStyleSpec(node', segs[1..]);
        match DeclAssignments(segs[1..])
        case Err(_) =>
        case Ok(rest) =>
          OverlayAppend(node.style, [(k, Str(v))], rest);
          assert Overlay(node.style, [(k, Str(v))]) == node.style[k := Str(v)];
    }
  }

  /** On an element, walking an object's entries overlays them onto the style map. */
  lemma {:induction false} EntriesStyleSpec(node: HostNode, es: Entries)
    requires node.Element?
    ensures EntriesStyle(node, es) == Done(node.(style := Overlay(node.style, es)))
    decreases |es|
  {
    if |es| > 0 {
      var node' := node.(style := node.style[es[0].0 := es[0].1]);
      EntriesStyleSpec(node', es[1..]);
      OverlayAppend(node.style, [es[0]], es[1..]);
      assert [es[0]] + es[1..] == es;
      assert Overlay(node.style, [es[0]]) == node.style[es[0].0 := es[0].1];
    }
  }

  /** On an element, a rule list applies its assignments in order, or throws at the first bad segment. */
  lemma {:induction false} RulesStyleSpec(node: HostNode, rules: seq<Value>)
    requires node.Element?
    ensures Outcome(RulesStyle(node, rules)) == match RulesAssignments(rules)
      case Ok(es) => Ok(node.(style := Overlay(node.style, es)))
      case Err(f) => Err(f)
    decreases |rules|
  {
    if |rules| > 0 {
      var r := rules[0];
      if r.Str? {
        DeclsStyleSpec(node, Split(r.s, ';'));
      } else if IsObjectTyped(r) {
        EntriesStyleSpec(node, ForInEntries(r));
      }
      match RuleAssignments(r)
      case Err(_) =>
      case Ok(first) =>
        var node' := node.(style := Overlay(node.style, first));
        RulesStyleSpec(node', rules[1..]);
        match RulesAssignments(rules[1..])
        case Err(_) =>
        case Ok(rest) =>
          OverlayAppend(node.style, first, rest);
    }
  }

  /**
   The `style` branch on an element: it succeeds exactly when every declaration matches, and
   then each style key the value assigns ends with its last assigned value, whether it came
   from a string or an object, while every key it does not mention keeps its value; nothing
   but the style map changes. Otherwise it throws at the first segment that does not match.
   */
  lemma ApplyStyleSpec(node: HostNode, value: Value)
    requires node.Element?
    ensures Outcome(ApplyStyle(node, value)) == match StyleAssignments(value)
      case Ok(es) => Ok(node.(style := Overlay(node.style, es)))
      case Err(f) => Err(f)
    ensures ApplyStyle(node, value).Done? ==>
      var es := StyleAssignments(value).value;
      var r := ApplyStyle(node, value).node;
      && r == node.(style := r.style)
      && (forall k :: LastValue(es, k).Some? ==> k in r.style && r.style[k] == LastValue(es, k).value)
      && (forall k :: LastValue(es, k).None? ==> (k in r.style <==> k in node.style)
                                                 && (k in node.style ==> r.style[k] == node.style[k]))
  {
    RulesStyleSpec(node, AsList(value));
  }

  /**
   The style branch writes only the style map of an element, also when it throws part way:
   the node it leaves differs from the one it was given in the style map alone.
   */
  lemma ApplyStyleKeeps(node: HostNode, value: Value)
    requires node.Element?
    ensures ApplyStyle(node, value).node.Element? && ApplyStyle(node, value).node == node.(style := ApplyStyle(node, value).node.style)
  {
    RulesStyleKeeps(node, AsList(value));
  }

  lemma {:induction false} RulesStyleKeeps(node: HostNode, rules: seq<Value>)
    requires node.Element?
    ensures RulesStyle(node, rules).node.Element? && RulesStyle(node, rules).node == node.(style := RulesStyle(node, rules).node.style)
    decreases |rules|
  {
    if |rules| > 0 {
      var r := rules[0];
      if r.Str? {
        DeclsStyleKeeps(node, Split(r.s, ';'));
      } else if IsObjectTyped(r) {
        EntriesStyleSpec(node, ForInEntries(r));
      }
      var first := RuleStyle(node, r);
      if first.Done? {
        RulesStyleKeeps(first.node, rules[1..]);
      }
    }
  }

  lemma {:induction false} DeclsStyleKeeps(node: HostNode, segs: seq<string>)
    requires node.Element?
    ensures DeclsStyle(node, segs).node.Element? && DeclsStyle(node, segs).node == node.(style := DeclsStyle(node, segs).node.style)
    decreases |segs|
  {
    if |segs| > 0 {
      match StyleDecl.Match(segs[0])
      case None =>
      case Some((k, v)) =>
        DeclsStyleKeeps(node.(style := node.style[k := Str(v)]), segs[1..]);
    }
  }

  /** A declaration list whose last segment does not match throws. */
  lemma {:induction false} DeclsStyleLastMismatch(node: HostNode, segs: seq<string>)
    requires |segs| > 0 && StyleDecl.Match(segs[|segs| - 1]).None?
    ensures DeclsStyle(node, segs).Threw?
    decreases |segs|
  {
    if |segs| > 1 {
      match StyleDecl.Match(segs[0])
      case None =>
      case Some((k, v)) =>
        match SetStyle(node, k, Str(v))
        case Threw(_, _) =>
        case Done(node') => DeclsStyleLastMismatch(node', segs[1..]);
    }
  }

  /** A style string with a trailing `;` always throws: the empty last segment cannot match. */
  lemma TrailingSemicolonThrows(node: HostNode, s: string)
    ensures ApplyStyle(node, Str(s + ";")).Threw?
  {
    var segs := Split(s + ";", ';');
    SplitLastEmpty(s, ';');
    StyleDecl.EmptyHasNoMatch();
    DeclsStyleLastMismatch(node, segs);
    assert RuleStyle(node, Str(s + ";")).Threw?;
  }

  // ---------------------------------------------------------------------------------------
  // class (lines 59-69)

  /** An object class value: each key whose value is truthy added as a class, in turn (line 66). */
  function FlagClasses(node: HostNode, es: Entries): Run
    decreases |es|
  {
    if |es| == 0 then Done(node)
    else
      var node' :- if Truthy(es[0].1) then AddClasses(node, [es[0].0]) else Done(node);
      FlagClasses(node', es[1..])
  }

  /** `addClass(classList)`: strings add their whitespace-split tokens, arrays recurse, and anything else adds its truthy keys. */
  function ClassList(node: HostNode, cs: seq<Value>): Run
    decreases cs
  {
    if |cs| == 0 then Done(node)
    else
      var node' :- match cs[0]
        case Str(s) => AddClasses(node, SplitWs(s))
        case Arr(xs) => ClassList(node, xs)
        case _ => FlagClasses(node, ForInEntries(cs[0]));
      ClassList(node', cs[1..])
  }

  /** The `class` branch of `initAttributes`. */
  function ApplyClass(node: HostNode, value: Value): Run
  {
    ClassList(node, AsList(value))
  }

  /** The keys of the entries whose value is truthy, in order. */
  function TruthyKeys(es: Entries): seq<string>
  {
    if |es| == 0 then []
    else (if Truthy(es[0].1) then [es[0].0] else []) + TruthyKeys(es[1..])
  }

  /** The tokens one non-array class value contributes. */
  function LeafTokens(c: Value): seq<string>
  {
    if c.Str? then SplitWs(c.s) else TruthyKeys(ForInEntries(c))
  }

  /** The tokens of a list of non-array class values, in order. */
  function TokensOf(leaves: seq<Value>): seq<string>
  {
    if |leaves| == 0 then [] else LeafTokens(leaves[0]) + TokensOf(leaves[1..])
  }

  /**
   Every token the value of the `class` attribute adds, in order: the whitespace-split pieces
   of its strings and the truthy keys of its other values, found at any depth of nesting.
   */
  function ClassTokens(value: Value): seq<string>
  {
    TokensOf(Leaves(AsList(value)))
  }

  lemma {:induction false} TokensOfAppend(a: seq<Value>, b: seq<Value>)
    ensures TokensOf(a + b) == TokensOf(a) + TokensOf(b)
  {
    if |a| == 0 {
      assert a + b == b;
    } else {
      assert (a + b)[1..] == a[1..] + b;
      TokensOfAppend(a[1..], b);
    }
  }

  /** On an element, adding two token lists one after the other is adding them together. */
  lemma AddClassesAppend(node: HostNode, a: seq<string>, b: seq<string>)
    requires node.Element?
    ensures Outcome(AddClasses(node, a + b)) == match AddClasses(node, a)
      case Done(n) => Outcome(AddClasses(n, b))
      case Threw(_, f) => Err(f)
  {
    FirstInvalidAppend(a, b);
    var n := node.(classes := node.classes + TokenSet(a));
    match FirstInvalid(a)
    case Some(t) =>
      assert AddClasses(node, a) == Threw(node, InvalidClassToken(t));
    case None =>
      assert AddClasses(node, a) == Done(n);
      match FirstInvalid(b)
      case Some(t) =>
      case None =>
        TokenSetConcat(a, b);
        assert n.classes + TokenSet(b) == node.classes + TokenSet(a + b);
  }

  lemma {:induction false} FirstInvalidAppend(a: seq<string>, b: seq<string>)
    ensures FirstInvalid(a + b) == if FirstInvalid(a).Some? then FirstInvalid(a) else FirstInvalid(b)
  {
    if |a| == 0 {
      assert a + b == b;
    } else {
      assert (a + b)[1..] == a[1..] + b;
      FirstInvalidAppend(a[1..], b);
    }
  }

  /** On an element, the truthy-key walk adds exactly the truthy keys. */
  lemma {:induction false} FlagClassesSpec(node: HostNode, es: Entries)
    requires node.Element?
    ensures Outcome(FlagClasses(node, es)) == Outcome(AddClasses(node, TruthyKeys(es)))
    decreases |es|
  {
    if |es| == 0 {
      assert node.(classes := node.classes + TokenSet([])) == node;
    } else {
      var head := if Truthy(es[0].1) then [es[0].0] else [];
      AddClassesAppend(node, head, TruthyKeys(es[1..]));
      if Truthy(es[0].1) {
        match AddClasses(node, head)
        case Threw(_, _) =>
        case Done(n) => FlagClassesSpec(n, es[1..]);
      } else {
        assert node.(classes := node.classes + TokenSet(head)) == node;
        FlagClassesSpec(node, es[1..]);
      }
    }
  }

  /** On an element, the recursive walk adds the tokens of the flattened list in one go. */
  lemma {:induction false} ClassListSpec(node: HostNode, cs: seq<Value>)
    requires node.Element?
    ensures Outcome(ClassList(node, cs)) == Outcome(AddClasses(node, TokensOf(Leaves(cs))))
    decreases cs
  {
    if |cs| == 0 {
      assert node.(classes := node.classes + TokenSet([])) == node;
    } else {
      var c := cs[0];
      var head := if c.Arr? then Leaves(c.items) else [c];
      var step := match c
        case Str(s) => AddClasses(node, SplitWs(s))
        case Arr(xs) => ClassList(node, xs)
        case _ => FlagClasses(node, ForInEntries(c));
      assert Outcome(step) == Outcome(AddClasses(node, TokensOf(head))) by {
        match c {
          case Arr(xs) => ClassListSpec(node, xs);
          case Str(s) =>
            assert TokensOf(head) == SplitWs(s);
          case _ =>
            assert TokensOf(head) == TruthyKeys(ForInEntries(c));
            FlagClassesSpec(node, ForInEntries(c));
        }
      }
      assert TokensOf(Leaves(cs)) == TokensOf(head) + TokensOf(Leaves(cs[1..])) by {
        assert Leaves(cs) == head + Leaves(cs[1..]);
        TokensOfAppend(head, Leaves(cs[1..]));
      }
      AddClassesAppend(node, TokensOf(head), TokensOf(Leaves(cs[1..])));
      match step
      case Threw(_, _) =>
      case Done(n) => ClassListSpec(n, cs[1..]);
    }
  }

  /**
   The class branch only ever adds classes to an element, also when it throws part way: the
   node it leaves differs from the one it was given in the class set alone, which has grown.
   */
  lemma ApplyClassKeeps(node: HostNode, value: Value)
    requires node.Element?
    ensures var n := ApplyClass(node, value).node;
      n.Element? && n == node.(classes := n.classes) && node.classes <= n.classes
  {
    ClassListKeeps(node, AsList(value));
  }

  lemma {:induction false} ClassListKeeps(node: HostNode, cs: seq<Value>)
    requires node.Element?
    ensures var n := ClassList(node, cs).node;
      n.Element? && n == node.(classes := n.classes) && node.classes <= n.classes
    decreases cs
  {
    if |cs| > 0 {
      var step := match cs[0]
        case Str(s) => AddClasses(node, SplitWs(s))
        case Arr(xs) => ClassList(node, xs)
        case _ => FlagClasses(node, ForInEntries(cs[0]));
      assert step.node.Element? && step.node == node.(classes := step.node.classes) && node.classes <= step.node.classes by {
        match cs[0] {
          case Arr(xs) => ClassListKeeps(node, xs);
          case Str(s) =>
          case _ => FlagClassesKeeps(node, ForInEntries(cs[0]));
        }
      }
      if step.Done? {
        ClassListKeeps(step.node, cs[1..]);
      }
    }
  }

  lemma {:induction false} FlagClassesKeeps(node: HostNode, es: Entries)
    requires node.Element?
    ensures var n := FlagClasses(node, es).node;
      n.Element? && n == node.(classes := n.classes) && node.classes <= n.classes
    decreases |es|
  {
    if |es| > 0 {
      var step := if Truthy(es[0].1) then AddClasses(node, [es[0].0]) else Done(node);
      if step.Done? {
        FlagClassesKeeps(step.node, es[1..]);
      }
    }
  }

  /**
   The `class` branch on an element: it succeeds exactly when every token is a valid DOM token,
   and then the class set becomes the old set plus every token of `ClassTokens(value)`; no class
   is removed and nothing else changes. Otherwise it throws on the first invalid token.
   */
  lemma ApplyClassSpec(node: HostNode, value: Value)
    requires node.Element?
    ensures Outcome(ApplyClass(node, value)) == match FirstInvalid(ClassTokens(value))
      case Some(t) => Err(InvalidClassToken(t))
      case None => Ok(node.(classes := node.classes + TokenSet(ClassTokens(value))))
  {
    ClassListSpec(node, AsList(value));
  }

  /** A class string yields an invalid token exactly when it is empty or starts or ends with whitespace. */
  lemma ClassStringValid(s: string)
    ensures FirstInvalid(ClassTokens(Str(s))).None? <==> |s| > 0 && !IsSpace(s[0]) && !IsSpace(s[|s| - 1])
  {
    assert Leaves(AsList(Str(s))) == [Str(s)];
    assert TokensOf([Str(s)]) == SplitWs(s) + TokensOf([]);
    assert ClassTokens(Str(s)) == SplitWs(s);
    SplitWsEmptyPiece(s);
    var r := SplitWs(s);
    forall i | 0 <= i < |r| && r[i] != ""
      ensures ValidToken(r[i])
    {
      forall j | 0 <= j < |r[i]|
        ensures !IsAsciiSpace(r[i][j])
      {
        assert !IsSpace(r[i][j]);
      }
    }
  }

  // ---------------------------------------------------------------------------------------
  // dispatch (lines 44-73)

  /** Dispatch on the property name (lines 44-73): `style`, `class`, or a plain attribute. */
  function InitAttributes(node: HostNode, name: string, value: Value): Run
  {
    if name == "style" then ApplyStyle(node, value)
    else if name == "class" then ApplyClass(node, value)
    else SetAttr(node, name, value)
  }

  /** Whether `initAttributes` succeeds on an element: only a style or class value can make it throw. */
  predicate Accepts(name: string, value: Value)
  {
    if name == "style" then StyleAssignments(value).Ok?
    else if name == "class" then FirstInvalid(ClassTokens(value)).None?
    else true
  }

  /** What `initAttributes` does to an element when it succeeds. */
  function Effect(node: HostNode, name: string, value: Value): HostNode
    requires node.Element? && Accepts(name, value)
  {
    if name == "style" then node.(style := Overlay(node.style, StyleAssignments(value).value))
    else if name == "class" then node.(classes := node.classes + TokenSet(ClassTokens(value)))
    else node.(attrs := node.attrs[name := value])
  }

  /**
   On an element, `initAttributes` succeeds exactly when the value is acceptable for the name
   and then has the effect `Effect` describes: only the exact names `style` and `class` are
   special, and every other name (`Style`, `className`, ...) is a plain attribute write.
   */
  lemma InitAttributesSpec(node: HostNode, name: string, value: Value)
    requires node.Element?
    ensures InitAttributes(node, name, value).Done? <==> Accepts(name, value)
    ensures Accepts(name, value) ==> InitAttributes(node, name, value).node == Effect(node, name, value)
  {
    if name == "style" {
      ApplyStyleSpec(node, value);
    } else if name == "class" {
      ApplyClassSpec(node, value);
    }
  }

  /**
   Whether it returns or throws, `initAttributes` leaves an element an element with the same
   tag and children, and with every class it had.
   */
  lemma InitAttributesKeeps(node: HostNode, name: string, value: Value)
    requires node.Element?
    ensures var n := InitAttributes(node, name, value).node;
      n.Element? && n.tag == node.tag && n.children == node.children && node.classes <= n.classes
  {
    if name == "style" {
      ApplyStyleKeeps(node, value);
    } else if name == "class" {
      ApplyClassKeeps(node, value);
    }
  }

  /** On a text node, `initAttributes` succeeds only when it touches nothing. */
  lemma InitAttributesOnText(content: string, name: string, value: Value)
    ensures name != "style" && name != "class" ==> InitAttributes(Text(content), name, value) == Threw(Text(content), NotAnElement)
    ensures name == "class" && ClassTokens(value) != [] ==> InitAttributes(Text(content), name, value).Threw?
  {
    if name == "class" && ClassTokens(value) != [] {
      TextRefusesTokens(content, AsList(value));
    }
  }

  lemma {:induction false} TextRefusesTokens(content: string, cs: seq<Value>)
    requires TokensOf(Leaves(cs)) != []
    ensures ClassList(Text(content), cs).Threw?
  {
    var c := cs[0];
    var head := if c.Arr? then Leaves(c.items) else [c];
    assert Leaves(cs) == head + Leaves(cs[1..]);
    TokensOfAppend(head, Leaves(cs[1..]));
    match c
    case Arr(xs) =>
      if TokensOf(Leaves(xs)) != [] {
        TextRefusesTokens(content, xs);
      } else {
        TextClassListNoTokens(content, xs);
        TextRefusesTokens(content, cs[1..]);
      }
    case Str(s) =>
    case _ =>
      if TruthyKeys(ForInEntries(c)) != [] {
        TextRefusesFlags(content, ForInEntries(c));
      } else {
        TextFlagsNoKeys(content, ForInEntries(c));
        assert TokensOf(head) == [];
        TextRefusesTokens(content, cs[1..]);
      }
  }

  lemma {:induction false} TextClassListNoTokens(content: string, cs: seq<Value>)
    requires TokensOf(Leaves(cs)) == []
    ensures ClassList(Text(content), cs) == Done(Text(content))
  {
    if |cs| > 0 {
      var c := cs[0];
      var head := if c.Arr? then Leaves(c.items) else [c];
      assert Leaves(cs) == head + Leaves(cs[1..]);
      TokensOfAppend(head, Leaves(cs[1..]));
      match c {
        case Arr(xs) => TextClassListNoTokens(content, xs);
        case Str(s) =>
          assert false;
        case _ =>
          assert TokensOf(head) == TruthyKeys(ForInEntries(c));
          TextFlagsNoKeys(content, ForInEntries(c));
      }
      TextClassListNoTokens(content, cs[1..]);
    }
  }

  lemma {:induction false} TextFlagsNoKeys(content: string, es: Entries)
    requires TruthyKeys(es) == []
    ensures FlagClasses(Text(content), es) == Done(Text(content))
  {
    if |es| > 0 {
      TextFlagsNoKeys(content, es[1..]);
    }
  }

  lemma {:induction false} TextRefusesFlags(content: string, es: Entries)
    requires TruthyKeys(es) != []
    ensures FlagClasses(Text(content), es).Threw?
  {
    if !Truthy(es[0].1) {
      TextRefusesFlags(content, es[1..]);
    }
  }

  /** Applying the same attribute twice leaves the element as applying it once. */
  lemma EffectIdempotent(node: HostNode, name: string, value: Value)
    requires node.Element? && Accepts(name, value)
    ensures Effect(Effect(node, name, value), name, value) == Effect(node, name, value)
  {
    if name == "style" {
      OverlayIdempotent(node.style, StyleAssignments(value).value);
    }
  }
}
