/**
 Character classes of ECMAScript regular expressions (without the `u` flag) and the two
 `String.prototype.split` calls toy-react makes: on the character `;` and on the pattern `/\s+/`.
 */
module Strings {

  /** `\s`: the WhiteSpace and LineTerminator code points. */
  predicate IsSpace(c: char) {
    || c == '\t' || c == '\n' || c == '\U{000B}' || c == '\U{000C}' || c == '\r' || c == ' '
    || c == '\U{00A0}' || c == '\U{1680}' || ('\U{2000}' <= c <= '\U{200A}')
    || c == '\U{2028}' || c == '\U{2029}' || c == '\U{202F}' || c == '\U{205F}'
    || c == '\U{3000}' || c == '\U{FEFF}'
  }

  /** The characters `.` does not match. */
  predicate IsLineTerminator(c: char) {
    c == '\n' || c == '\r' || c == '\U{2028}' || c == '\U{2029}'
  }

  /** `[\w-]`: ASCII letters and digits, `_` and `-`. */
  predicate IsKeyChar(c: char) {
    'a' <= c <= 'z' || 'A' <= c <= 'Z' || '0' <= c <= '9' || c == '_' || c == '-'
  }

  /** The whitespace a DOM token may not contain. */
  predicate IsAsciiSpace(c: char) {
    c == '\t' || c == '\n' || c == '\U{000C}' || c == '\r' || c == ' '
  }

  /** `pieces` glued back together with `sep` between neighbours. */
  function Join(pieces: seq<string>, sep: char): string
    requires |pieces| >= 1
  {
    if |pieces| == 1 then pieces[0] else pieces[0] + [sep] + Join(pieces[1..], sep)
  }

  /** `s.split(sep)` for a one-character separator: the pieces between occurrences of `sep`. */
  function Split(s: string, sep: char): (r: seq<string>)
    ensures |r| >= 1
    ensures forall i :: 0 <= i < |r| ==> sep !in r[i]
    ensures Join(r, sep) == s
  {
    if |s| == 0 then [""]
    else
      var rest := Split(s[1..], sep);
      if s[0] == sep then [""] + rest
      else [[s[0]] + rest[0]] + rest[1..]
  }

  /** Splitting is the inverse of joining: pieces free of `sep` are recovered exactly. */
  lemma {:induction false} SplitJoin(pieces: seq<string>, sep: char)
    requires |pieces| >= 1
    requires forall i :: 0 <= i < |pieces| ==> sep !in pieces[i]
    ensures Split(Join(pieces, sep), sep) == pieces
  {
    if |pieces| == 1 {
      SplitPiece(pieces[0], sep);
    } else {
      SplitJoin(pieces[1..], sep);
      SplitPrefix(pieces[0], Join(pieces[1..], sep), sep);
    }
  }

  /** A string without `sep` splits into itself. */
  lemma {:induction false} SplitPiece(p: string, sep: char)
    requires sep !in p
    ensures Split(p, sep) == [p]
  {
    if |p| > 0 {
      SplitPiece(p[1..], sep);
    }
  }

  /** A `sep`-free prefix followed by `sep` becomes the first piece. */
  lemma {:induction false} SplitPrefix(p: string, rest: string, sep: char)
    requires sep !in p
    ensures Split(p + [sep] + rest, sep) == [p] + Split(rest, sep)
  {
    if |p| == 0 {
      assert p + [sep] + rest == [sep] + rest;
      assert ([sep] + rest)[1..] == rest;
    } else {
      assert (p + [sep] + rest)[1..] == p[1..] + [sep] + rest;
      SplitPrefix(p[1..], rest, sep);
      assert [p[0]] + p[1..] == p;
    }
  }

  /** A string ending in `sep` splits with an empty last piece. */
  lemma {:induction false} SplitLastEmpty(s: string, sep: char)
    ensures Split(s + [sep], sep)[|Split(s + [sep], sep)| - 1] == ""
  {
    if |s| == 0 {
      assert Split([sep], sep) == [""] + Split([], sep);
    } else {
      assert (s + [sep])[1..] == s[1..] + [sep];
      SplitLastEmpty(s[1..], sep);
    }
  }

  /** `s` with every maximal run of `\s` replaced by one space. */
  function Collapse(s: string): string
  {
    if |s| == 0 then ""
    else if IsSpace(s[0]) && |s| > 1 && IsSpace(s[1]) then Collapse(s[1..])
    else if IsSpace(s[0]) then " " + Collapse(s[1..])
    else [s[0]] + Collapse(s[1..])
  }

  /**
   `s.split(/\s+/)`: the pieces between maximal runs of whitespace. A leading or trailing run
   gives an empty first or last piece, and the empty string gives one empty piece.
   */
  function SplitWs(s: string): (r: seq<string>)
    ensures |r| >= 1
    ensures forall i, j :: 0 <= i < |r| && 0 <= j < |r[i]| ==> !IsSpace(r[i][j])
    ensures Join(r, ' ') == Collapse(s)
  {
    if |s| == 0 then [""]
    else
      var rest := SplitWs(s[1..]);
      if IsSpace(s[0]) then
        if |s| > 1 && IsSpace(s[1]) then rest
        else
          assert ([""] + rest)[1..] == rest;
          [""] + rest
      else
        var r := [[s[0]] + rest[0]] + rest[1..];
        JoinConsFirst(s[0], rest, ' ');
        assert forall i :: 1 <= i < |r| ==> r[i] == rest[i];
        r
  }

  /** Prefixing a character to the first piece prefixes it to the joined string. */
  lemma JoinConsFirst(c: char, pieces: seq<string>, sep: char)
    requires |pieces| >= 1
    ensures Join([[c] + pieces[0]] + pieces[1..], sep) == [c] + Join(pieces, sep)
  {
    var r := [[c] + pieces[0]] + pieces[1..];
    if |pieces| > 1 {
      assert r[1..] == pieces[1..];
      assert [c] + pieces[0] + [sep] + Join(pieces[1..], sep) == [c] + (pieces[0] + [sep] + Join(pieces[1..], sep));
    }
  }

  /** A word with no whitespace in front of `rest` joins the first piece of `rest`. */
  lemma {:induction false} SplitWsWordPrefix(w: string, rest: string)
    requires forall i :: 0 <= i < |w| ==> !IsSpace(w[i])
    ensures SplitWs(w + rest) == [w + SplitWs(rest)[0]] + SplitWs(rest)[1..]
  {
    var r := SplitWs(rest);
    if |w| > 0 {
      assert (w + rest)[0] == w[0] && (w + rest)[1..] == w[1..] + rest;
      SplitWsWordPrefix(w[1..], rest);
      var tail := SplitWs(w[1..] + rest);
      assert tail[0] == w[1..] + r[0] && tail[1..] == r[1..];
      assert [w[0]] + (w[1..] + r[0]) == w + r[0];
    } else {
      assert w + rest == rest && w + r[0] == r[0];
      assert [r[0]] + r[1..] == r;
    }
  }

  /** Words separated by single blanks split back into those words. */
  lemma {:induction false} SplitWsWords(w: string, rest: string)
    requires w != "" && forall i :: 0 <= i < |w| ==> !IsSpace(w[i])
    requires rest != "" ==> |rest| > 1 && rest[0] == ' ' && !IsSpace(rest[1])
    ensures SplitWs(w + rest) == [w] + (if rest == "" then [] else SplitWs(rest[1..]))
  {
    SplitWsWordPrefix(w, rest);
    if rest == "" {
      assert w + "" == w;
      assert SplitWs(rest) == [""];
    } else {
      var r := SplitWs(rest);
      assert r == [""] + SplitWs(rest[1..]);
      assert r[0] == "" && r[1..] == SplitWs(rest[1..]);
      assert w + "" == w;
    }
  }

  /** The whitespace split is the plain split of the collapsed string on one space. */
  lemma SplitWsIsSplitOfCollapse(s: string)
    ensures SplitWs(s) == Split(Collapse(s), ' ')
  {
    var r := SplitWs(s);
    assert forall i :: 0 <= i < |r| ==> ' ' !in r[i];
    SplitJoin(r, ' ');
  }

  /**
   The whitespace split yields an empty piece exactly when the string is empty or starts or
   ends with whitespace: only then does `classList.add` receive an empty token.
   */
  lemma {:induction false} SplitWsEmptyPiece(s: string)
    ensures "" in SplitWs(s) <==> |s| == 0 || IsSpace(s[0]) || IsSpace(s[|s| - 1])
  {
    if |s| > 1 {
      SplitWsEmptyPiece(s[1..]);
      assert s[1..][|s[1..]| - 1] == s[|s| - 1];
      var rest := SplitWs(s[1..]);
      if !IsSpace(s[0]) {
        var r := [[s[0]] + rest[0]] + rest[1..];
        assert "" in r <==> "" in rest[1..];
        SplitWsFirstPiece(s[1..]);
        SplitWsLastPiece(s[1..]);
      }
    }
  }

  /** The first piece is empty exactly when the string is empty or starts with whitespace. */
  lemma {:induction false} SplitWsFirstPiece(s: string)
    ensures SplitWs(s)[0] == "" <==> |s| == 0 || IsSpace(s[0])
  {
    if |s| > 1 && IsSpace(s[0]) && IsSpace(s[1]) {
      SplitWsFirstPiece(s[1..]);
    }
  }

  /** Some piece after the first is empty exactly when the string ends with whitespace. */
  lemma {:induction false} SplitWsLastPiece(s: string)
    ensures "" in SplitWs(s)[1..] <==> |s| > 0 && IsSpace(s[|s| - 1])
  {
    if |s| > 0 {
      var rest := SplitWs(s[1..]);
      SplitWsLastPiece(s[1..]);
      SplitWsFirstPiece(s[1..]);
      if |s| > 1 {
        assert s[1..][|s[1..]| - 1] == s[|s| - 1];
      }
      if IsSpace(s[0]) {
        if |s| > 1 && IsSpace(s[1]) {
          assert SplitWs(s) == rest;
          assert rest == [rest[0]] + rest[1..];
        } else {
          assert SplitWs(s)[1..] == rest;
          assert rest == [rest[0]] + rest[1..];
        }
      } else {
        assert SplitWs(s)[1..] == rest[1..];
      }
    }
  }
}
