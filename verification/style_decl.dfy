/**
 The style-declaration pattern `/\s*([\w-]+)\s*:(.+)/` (toy-react.js, line 53) as
 `String.prototype.match` applies it: unanchored, so every start position is tried from the
 left, and the first one that matches supplies the two capture groups, the key and the value.
 */
module StyleDecl {
  import opened Outcomes
  import opened Strings

  /**
   The match the pattern selects at start position `i`, given by its cut points: `\s*` spans
   [i, j), the key `[\w-]+` spans [j, e), the second `\s*` spans [e, w), the colon sits at w
   and the value `.+` spans (w, t), which being greedy runs up to a line terminator or the end.
   No other cut points can match from `i`, since spaces, key characters and the colon are
   pairwise distinct, so this is the one match backtracking finds.
   */
  ghost predicate Cuts(s: string, i: nat, j: nat, e: nat, w: nat, t: nat)
  {
    && i <= j < e <= w && w + 1 < t <= |s|
    && (forall m :: i <= m < j ==> IsSpace(s[m]))
    && (forall m :: j <= m < e ==> IsKeyChar(s[m]))
    && (forall m :: e <= m < w ==> IsSpace(s[m]))
    && s[w] == ':'
    && (forall m :: w < m < t ==> !IsLineTerminator(s[m]))
    && (t == |s| || IsLineTerminator(s[t]))
  }

  /** The pattern matches `s` from position `i`, capturing `key` and `val`. */
  ghost predicate MatchesAt(s: string, i: nat, key: string, val: string)
  {
    exists j: nat, e: nat, w: nat, t: nat :: Cuts(s, i, j, e, w, t) && key == s[j..e] && val == s[w + 1..t]
  }

  /** The end of the run of `\s` starting at `i`. */
  function SkipSpaces(s: string, i: nat): (r: nat)
    requires i <= |s|
    ensures i <= r <= |s|
    ensures forall m :: i <= m < r ==> IsSpace(s[m])
    ensures r == |s| || !IsSpace(s[r])
    decreases |s| - i
  {
    if i == |s| || !IsSpace(s[i]) then i else SkipSpaces(s, i + 1)
  }

  /** The end of the run of `[\w-]` starting at `i`. */
  function SkipKey(s: string, i: nat): (r: nat)
    requires i <= |s|
    ensures i <= r <= |s|
    ensures forall m :: i <= m < r ==> IsKeyChar(s[m])
    ensures r == |s| || !IsKeyChar(s[r])
    decreases |s| - i
  {
    if i == |s| || !IsKeyChar(s[i]) then i else SkipKey(s, i + 1)
  }

  /** The end of the run of characters `.` accepts, starting at `i`. */
  function SkipLine(s: string, i: nat): (r: nat)
    requires i <= |s|
    ensures i <= r <= |s|
    ensures forall m :: i <= m < r ==> !IsLineTerminator(s[m])
    ensures r == |s| || IsLineTerminator(s[r])
    decreases |s| - i
  {
    if i == |s| || IsLineTerminator(s[i]) then i else SkipLine(s, i + 1)
  }

  /** The backtracking matcher's work at one start position, done as a left-to-right scan. */
  function MatchAt(s: string, i: nat): Option<(string, string)>
    requires i <= |s|
  {
    var j := SkipSpaces(s, i);
    var e := SkipKey(s, j);
    if e == j then None
    else
      var w := SkipSpaces(s, e);
      if w == |s| || s[w] != ':' then None
      else
        var t := SkipLine(s, w + 1);
        if t == w + 1 then None else Some((s[j..e], s[w + 1..t]))
  }

  /** Spaces, key characters and the colon are three disjoint classes. */
  lemma ClassesDisjoint(c: char)
    ensures IsKeyChar(c) ==> !IsSpace(c)
    ensures c == ':' ==> !IsKeyChar(c) && !IsSpace(c) && !IsLineTerminator(c)
  {
  }

  /** A successful scan describes a match of the pattern at `i`. */
  lemma MatchAtSound(s: string, i: nat)
    requires i <= |s|
    ensures MatchAt(s, i).Some? ==> MatchesAt(s, i, MatchAt(s, i).value.0, MatchAt(s, i).value.1)
  {
    var j := SkipSpaces(s, i);
    var e := SkipKey(s, j);
    if e > j {
      var w := SkipSpaces(s, e);
      if w < |s| && s[w] == ':' {
        var t := SkipLine(s, w + 1);
        if t > w + 1 {
          assert Cuts(s, i, j, e, w, t);
        }
      }
    }
  }

  /** A run of `\s` that ends where `\s` stops is the one `SkipSpaces` finds. */
  lemma {:induction false} SpacesEnd(s: string, i: nat, j: nat)
    requires i <= j <= |s|
    requires forall m :: i <= m < j ==> IsSpace(s[m])
    requires j == |s| || !IsSpace(s[j])
    ensures SkipSpaces(s, i) == j
    decreases j - i
  {
    if i < j {
      SpacesEnd(s, i + 1, j);
    }
  }

  /** A run of `[\w-]` that ends where `[\w-]` stops is the one `SkipKey` finds. */
  lemma {:induction false} KeyEnd(s: string, i: nat, j: nat)
    requires i <= j <= |s|
    requires forall m :: i <= m < j ==> IsKeyChar(s[m])
    requires j == |s| || !IsKeyChar(s[j])
    ensures SkipKey(s, i) == j
    decreases j - i
  {
    if i < j {
      KeyEnd(s, i + 1, j);
    }
  }

  /** A run of non-terminators that ends at a terminator or the end is the one `SkipLine` finds. */
  lemma {:induction false} LineEnd(s: string, i: nat, j: nat)
    requires i <= j <= |s|
    requires forall m :: i <= m < j ==> !IsLineTerminator(s[m])
    requires j == |s| || IsLineTerminator(s[j])
    ensures SkipLine(s, i) == j
    decreases j - i
  {
    if i < j {
      LineEnd(s, i + 1, j);
    }
  }

  /** Any match of the pattern at `i` is the one the scan finds. */
  lemma MatchAtComplete(s: string, i: nat, key: string, val: string)
    requires i <= |s|
    requires MatchesAt(s, i, key, val)
    ensures MatchAt(s, i) == Some((key, val))
  {
    var j: nat, e: nat, w: nat, t: nat :| Cuts(s, i, j, e, w, t) && key == s[j..e] && val == s[w + 1..t];
    CutsScanned(s, i, j, e, w, t);
  }

  /** The scan finds exactly the cut points of a match. */
  lemma CutsScanned(s: string, i: nat, j: nat, e: nat, w: nat, t: nat)
    requires Cuts(s, i, j, e, w, t)
    ensures MatchAt(s, i) == Some((s[j..e], s[w + 1..t]))
  {
    ClassesDisjoint(s[j]);
    ClassesDisjoint(s[w]);
    if e < w {
      ClassesDisjoint(s[e]);
    }
    SpacesEnd(s, i, j);
    KeyEnd(s, j, e);
    SpacesEnd(s, e, w);
    LineEnd(s, w + 1, t);
    ScanFinds(s, i, j, e, w, t);
  }

  /** The scan at `i`, once the ends of its runs are known. */
  lemma ScanFinds(s: string, i: nat, j: nat, e: nat, w: nat, t: nat)
    requires i <= j < e <= w && w + 1 < t <= |s| && s[w] == ':'
    requires SkipSpaces(s, i) == j && SkipKey(s, j) == e && SkipSpaces(s, e) == w && SkipLine(s, w + 1) == t
    ensures MatchAt(s, i) == Some((s[j..e], s[w + 1..t]))
  {
  }

  /** The leftmost match at or after position `i`. */
  function FirstMatch(s: string, i: nat): Option<(string, string)>
    requires i <= |s|
    decreases |s| - i
  {
    var here := MatchAt(s, i);
    if here.Some? then here
    else if i == |s| then None
    else FirstMatch(s, i + 1)
  }

  /** `s.match(/\s*([\w-]+)\s*:(.+)/)`, reduced to its two capture groups. */
  function Match(s: string): Option<(string, string)>
  {
    FirstMatch(s, 0)
  }

  /** No start position in [lo, hi) matches. */
  ghost predicate NoMatchIn(s: string, lo: nat, hi: nat)
  {
    forall q: nat, key, val :: lo <= q < hi ==> !MatchesAt(s, q, key, val)
  }

  /** `p` is the leftmost position from `lo` on where the pattern matches, capturing `key` and `val`. */
  ghost predicate LeftmostFrom(s: string, lo: nat, p: nat, key: string, val: string)
  {
    lo <= p <= |s| && MatchesAt(s, p, key, val) && NoMatchIn(s, lo, p)
  }

  /** When the scan at `i` fails, the pattern has no match at `i`. */
  lemma NoMatchAt(s: string, i: nat)
    requires i <= |s| && MatchAt(s, i).None?
    ensures forall key, val :: !MatchesAt(s, i, key, val)
  {
    forall key, val | MatchesAt(s, i, key, val)
      ensures false
    {
      MatchAtComplete(s, i, key, val);
    }
  }

  lemma NoMatchExtend(s: string, i: nat, hi: nat)
    requires forall key, val :: !MatchesAt(s, i, key, val)
    requires NoMatchIn(s, i + 1, hi)
    ensures NoMatchIn(s, i, hi)
  {
  }

  lemma LeftmostExtend(s: string, i: nat, p: nat, key: string, val: string)
    requires forall key, val :: !MatchesAt(s, i, key, val)
    requires LeftmostFrom(s, i + 1, p, key, val)
    ensures LeftmostFrom(s, i, p, key, val)
  {
    NoMatchExtend(s, i, p);
  }

  /** `FirstMatch` returns the groups of the leftmost position from `i` on where the pattern matches. */
  lemma {:induction false} FirstMatchCorrect(s: string, i: nat)
    requires i <= |s|
    ensures FirstMatch(s, i).Some? ==>
      exists p: nat :: LeftmostFrom(s, i, p, FirstMatch(s, i).value.0, FirstMatch(s, i).value.1)
    ensures FirstMatch(s, i).None? <==> NoMatchIn(s, i, |s| + 1)
    decreases |s| - i
  {
    var here := MatchAt(s, i);
    if here.Some? {
      MatchAtSound(s, i);
      assert LeftmostFrom(s, i, i, here.value.0, here.value.1);
    } else {
      NoMatchAt(s, i);
      if i == |s| {
        assert NoMatchIn(s, i, |s| + 1);
      } else {
        FirstMatchCorrect(s, i + 1);
        var r := FirstMatch(s, i + 1);
        if r.Some? {
          var p: nat :| LeftmostFrom(s, i + 1, p, r.value.0, r.value.1);
          LeftmostExtend(s, i, p, r.value.0, r.value.1);
        } else {
          NoMatchExtend(s, i, |s| + 1);
        }
      }
    }
  }

  /** The groups of any match: a non-empty run of `[\w-]`, and a non-empty rest of the line. */
  lemma MatchShape(s: string, p: nat, key: string, val: string)
    requires MatchesAt(s, p, key, val)
    ensures |key| > 0 && (forall m :: 0 <= m < |key| ==> IsKeyChar(key[m]))
    ensures |val| > 0 && (forall m :: 0 <= m < |val| ==> !IsLineTerminator(val[m]))
  {
    var j: nat, e: nat, w: nat, t: nat :| Cuts(s, p, j, e, w, t) && key == s[j..e] && val == s[w + 1..t];
    assert forall m :: 0 <= m < |key| ==> key[m] == s[j + m];
    assert forall m :: 0 <= m < |val| ==> val[m] == s[w + 1 + m];
  }

  /**
   What `match` returns for one declaration: `None` (the destructuring then throws) exactly when
   no start position matches; otherwise the groups of the leftmost match, whose key is a non-empty
   run of `[\w-]` and whose value is the non-empty rest of the line after the colon.
   */
  lemma MatchSpec(s: string)
    ensures Match(s).None? <==> NoMatchIn(s, 0, |s| + 1)
    ensures Match(s).Some? ==> exists p: nat :: LeftmostFrom(s, 0, p, Match(s).value.0, Match(s).value.1)
    ensures Match(s).Some? ==>
      var (key, val) := Match(s).value;
      && |key| > 0 && (forall m :: 0 <= m < |key| ==> IsKeyChar(key[m]))
      && |val| > 0 && (forall m :: 0 <= m < |val| ==> !IsLineTerminator(val[m]))
  {
    FirstMatchCorrect(s, 0);
    if Match(s).Some? {
      var (key, val) := Match(s).value;
      var p: nat :| LeftmostFrom(s, 0, p, key, val);
      MatchShape(s, p, key, val);
    }
  }

  /**
   A declaration written out as optional blanks, a key, a colon and a value on one line parses
   back into that key and that value, blanks after the colon included.
   */
  lemma CanonicalDecl(pre: string, key: string, val: string)
    requires forall m :: 0 <= m < |pre| ==> IsSpace(pre[m])
    requires key != "" && forall m :: 0 <= m < |key| ==> IsKeyChar(key[m])
    requires val != "" && forall m :: 0 <= m < |val| ==> !IsLineTerminator(val[m])
    ensures Match(pre + key + ":" + val) == Some((key, val))
  {
    var s := pre + key + ":" + val;
    var j, e := |pre|, |pre| + |key|;
    assert forall m :: 0 <= m < j ==> s[m] == pre[m];
    assert forall m :: j <= m < e ==> s[m] == key[m - j];
    assert forall m :: e < m < |s| ==> s[m] == val[m - e - 1];
    assert s[j..e] == key && s[e + 1..|s|] == val;
    assert Cuts(s, 0, j, e, e, |s|);
    MatchAtComplete(s, 0, key, val);
  }

  /** The empty segment a trailing `;` leaves behind has no match. */
  lemma EmptyHasNoMatch()
    ensures Match("") == None
  {
  }
}
