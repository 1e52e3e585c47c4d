/**
 The worked example of main.js, line 24: the class value the demo passes to `MyComponent`,
 and the tokens `initAttributes` adds for it.
 */
module Demo {
  import opened Strings
  import opened Values
  import opened Attributes

  const Flag := Obj([("c3", Bool(true))])
  const Inner := [Str("c"), Str("c1 c2"), Flag]
  const Outer := [Str("b"), Str("b1"), Arr(Inner)]

  /** A non-empty string without whitespace: one class token. */
  predicate Word(w: string)
  {
    w != "" && forall i :: 0 <= i < |w| ==> !IsSpace(w[i])
  }

  /** `['b', 'b1', ['c', 'c1 c2', {c3: true}]]` adds six classes, in this order. */
  lemma DemoClassTokens(value: Value)
    requires value == Arr(Outer)
    ensures ClassTokens(value) == ["b", "b1", "c", "c1", "c2", "c3"]
  {
    calc {
      ClassTokens(value);
      TokensOf(Leaves(value.items));
      { DemoLeaves(); }
      TokensOf([Str("b"), Str("b1"), Str("c"), Str("c1 c2"), Flag]);
      { TokensOfFive(Str("b"), Str("b1"), Str("c"), Str("c1 c2"), Flag); }
      LeafTokens(Str("b")) + (LeafTokens(Str("b1")) + (LeafTokens(Str("c")) + (LeafTokens(Str("c1 c2")) + LeafTokens(Flag))));
      { DemoWords(); }
      ["b"] + (["b1"] + (["c"] + (LeafTokens(Str("c1 c2")) + LeafTokens(Flag))));
      { DemoPair(); FlagTokens(); }
      ["b"] + (["b1"] + (["c"] + (["c1", "c2"] + ["c3"])));
    }
  }

  lemma DemoWords()
    ensures LeafTokens(Str("b")) == ["b"] && LeafTokens(Str("b1")) == ["b1"] && LeafTokens(Str("c")) == ["c"]
  {
    WordTokens("b");
    WordTokens("b1");
    WordTokens("c");
  }

  lemma DemoPair()
    ensures LeafTokens(Str("c1 c2")) == ["c1", "c2"]
  {
    assert "c1 c2" == "c1" + " " + "c2";
    PairTokens("c1", "c2");
  }

  lemma DemoLeaves()
    ensures Leaves(Outer) == [Str("b"), Str("b1"), Str("c"), Str("c1 c2"), Flag]
  {
    assert Leaves(Inner) == Inner by {
      assert Leaves([Flag]) == [Flag] + Leaves([]);
      assert Inner[1..][1..] == [Flag];
    }
    assert Outer[1..][1..] == [Arr(Inner)];
    assert Leaves([Arr(Inner)]) == Leaves(Inner) + Leaves([]);
  }

  lemma FlagTokens()
    ensures LeafTokens(Flag) == ["c3"]
  {
    assert [("c3", Bool(true))][..0] == [];
    assert Properties([("c3", Bool(true))]) == [("c3", Bool(true))];
  }

  /** Two words separated by one blank add both words. */
  lemma PairTokens(w1: string, w2: string)
    requires Word(w1) && Word(w2)
    ensures LeafTokens(Str(w1 + " " + w2)) == [w1, w2]
  {
    var rest := " " + w2;
    calc {
      LeafTokens(Str(w1 + " " + w2));
      { assert w1 + " " + w2 == w1 + rest; }
      SplitWs(w1 + rest);
      { SplitWsWords(w1, rest); assert rest[1..] == w2; }
      [w1] + SplitWs(w2);
      { WordTokens(w2); }
      [w1, w2];
    }
  }

  lemma TokensOfFive(v0: Value, v1: Value, v2: Value, v3: Value, v4: Value)
    ensures TokensOf([v0, v1, v2, v3, v4])
         == LeafTokens(v0) + (LeafTokens(v1) + (LeafTokens(v2) + (LeafTokens(v3) + LeafTokens(v4))))
  {
    var vs := [v0, v1, v2, v3, v4];
    assert vs[4..][1..] == [];
    assert TokensOf(vs[4..]) == LeafTokens(v4) + [] == LeafTokens(v4);
    assert vs[3..][1..] == vs[4..];
    assert TokensOf(vs[3..]) == LeafTokens(v3) + TokensOf(vs[4..]);
    assert vs[2..][1..] == vs[3..];
    assert TokensOf(vs[2..]) == LeafTokens(v2) + TokensOf(vs[3..]);
    assert vs[1..][1..] == vs[2..];
    assert TokensOf(vs[1..]) == LeafTokens(v1) + TokensOf(vs[2..]);
    assert TokensOf(vs) == LeafTokens(v0) + TokensOf(vs[1..]);
  }

  /** A string holding one word adds just that word. */
  lemma WordTokens(w: string)
    requires Word(w)
    ensures LeafTokens(Str(w)) == [w]
  {
    SplitWsWords(w, "");
    assert w + "" == w;
  }
}
