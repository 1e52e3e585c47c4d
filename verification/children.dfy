/**
 The flattening `insertChildren` performs on the children of `createElement`
 (toy-react.js, lines 88-101): arrays are expanded in place at any depth, strings become
 text wrappers, and every other value, `null` included, is kept as it is, in order.
 */
module Flattening {
  import opened Values

  /** What one non-array child is appended as: a string becomes a text wrapper. */
  function AsChild(v: Value): Value
  {
    if v.Str? then Wrapper(TextElementWrapper(v.s)) else v
  }

  function MapAsChild(vs: seq<Value>): seq<Value>
  {
    if |vs| == 0 then [] else [AsChild(vs[0])] + MapAsChild(vs[1..])
  }

  /** The values `insertChildren` appends, in the order it appends them. */
  function Flatten(children: seq<Value>): seq<Value>
  {
    MapAsChild(Leaves(children))
  }

  /** No array and no bare string is ever appended. */
  predicate IsFlat(vs: seq<Value>)
  {
    forall i :: 0 <= i < |vs| ==> !vs[i].Arr? && !vs[i].Str?
  }

  lemma {:induction false} MapAsChildAppend(a: seq<Value>, b: seq<Value>)
    ensures MapAsChild(a + b) == MapAsChild(a) + MapAsChild(b)
  {
    if |a| == 0 {
      assert a + b == b;
    } else {
      assert (a + b)[1..] == a[1..] + b;
      MapAsChildAppend(a[1..], b);
    }
  }

  /** Flattening respects order: the children of a concatenation are the concatenated children. */
  lemma FlattenAppend(a: seq<Value>, b: seq<Value>)
    ensures Flatten(a + b) == Flatten(a) + Flatten(b)
  {
    LeavesAppend(a, b);
    MapAsChildAppend(Leaves(a), Leaves(b));
  }

  /**
   How one child is classified: an array contributes its own flattening, a string exactly
   one text wrapper holding it, and any other value, `null` included, itself.
   */
  lemma FlattenSingle(v: Value)
    ensures v.Arr? ==> Flatten([v]) == Flatten(v.items)
    ensures v.Str? ==> Flatten([v]) == [Wrapper(TextElementWrapper(v.s))]
    ensures !v.Arr? && !v.Str? ==> Flatten([v]) == [v]
  {
    assert [v][1..] == [];
    if v.Arr? {
      assert Leaves([v]) == Leaves(v.items) + Leaves([]);
      assert Leaves(v.items) + [] == Leaves(v.items);
    } else {
      assert Leaves([v]) == [v] + Leaves([]);
      assert MapAsChild([v]) == [AsChild(v)] + MapAsChild([]);
    }
  }

  /**
   The result is flat, its length is the number of non-array leaves, and flattening it again
   changes nothing: the nesting of the input leaves no trace.
   */
  lemma {:induction false} FlattenIsFlat(children: seq<Value>)
    ensures IsFlat(Flatten(children))
    ensures |Flatten(children)| == |Leaves(children)|
    ensures Flatten(Flatten(children)) == Flatten(children)
  {
    FlatMapAsChild(Leaves(children));
  }

  lemma {:induction false} FlatMapAsChild(leaves: seq<Value>)
    requires forall i :: 0 <= i < |leaves| ==> !leaves[i].Arr?
    ensures IsFlat(MapAsChild(leaves)) && |MapAsChild(leaves)| == |leaves|
    ensures Flatten(MapAsChild(leaves)) == MapAsChild(leaves)
  {
    if |leaves| > 0 {
      var rest := leaves[1..];
      FlatMapAsChild(rest);
      var head := AsChild(leaves[0]);
      assert MapAsChild(leaves) == [head] + MapAsChild(rest);
      FlattenAppend([head], MapAsChild(rest));
      FlattenSingle(head);
    }
  }

  /** `null` children are kept, not dropped: one is appended exactly when one occurs at some depth. */
  lemma {:induction false} NullKept(children: seq<Value>)
    ensures Null in Flatten(children) <==> Null in Leaves(children)
  {
    NullKeptLeaves(Leaves(children));
  }

  lemma {:induction false} NullKeptLeaves(vs: seq<Value>)
    ensures Null in MapAsChild(vs) <==> Null in vs
  {
    if |vs| > 0 {
      NullKeptLeaves(vs[1..]);
      assert vs == [vs[0]] + vs[1..];
    }
  }
}
