/**
  Python string operations used by the matrix parser and the LaTeX formatter:
  `str.isspace`, `str.strip`, `str.split(sep)`, `str.split()` and `str.join`.
  Strings are sequences of Unicode scalar values.
*/
module Text {

  /** Python's `str.isspace` for a single character (the Unicode White_Space
      characters plus the four ASCII information separators). */
  predicate IsSpace(c: char) {
    var n := c as int;
    n == 0x20 || (0x09 <= n <= 0x0D) || (0x1C <= n <= 0x1F) || n == 0x85 || n == 0xA0 ||
    n == 0x1680 || (0x2000 <= n <= 0x200A) || n == 0x2028 || n == 0x2029 ||
    n == 0x202F || n == 0x205F || n == 0x3000
  }

  predicate AllSpace(s: string) {
    forall i :: 0 <= i < |s| ==> IsSpace(s[i])
  }

  predicate NoSpace(s: string) {
    forall i :: 0 <= i < |s| ==> !IsSpace(s[i])
  }

  /** `s.lstrip()`: the suffix of `s` left after removing leading whitespace. */
  function TrimLeft(s: string): (r: string)
    ensures |r| <= |s| && r == s[|s| - |r|..]
    ensures AllSpace(s[..|s| - |r|])
    ensures r == [] || !IsSpace(r[0])
    ensures AllSpace(s) ==> r == []
  {
    if s != [] && IsSpace(s[0]) then TrimLeft(s[1..]) else s
  }

  /** `s.rstrip()`: the prefix of `s` left after removing trailing whitespace. */
  function TrimRight(s: string): (r: string)
    ensures |r| <= |s| && r == s[..|r|]
    ensures AllSpace(s[|r|..])
    ensures r == [] || !IsSpace(r[|r| - 1])
  {
    if s != [] && IsSpace(s[|s| - 1]) then
      var t := s[..|s| - 1];
      var r := TrimRight(t);
      assert t[..|r|] == s[..|r|];
      assert s[|r|..] == t[|r|..] + [s[|s| - 1]];
      r
    else s
  }

  /** `s.strip()`. */
  function Strip(s: string): (r: string)
    ensures r == [] <==> AllSpace(s)
    ensures r != [] ==> !IsSpace(r[0]) && !IsSpace(r[|r| - 1])
  {
    var t := TrimLeft(s);
    var r := TrimRight(t);
    assert r != [] ==> r[0] == t[0];
    assert r == [] ==> t[|r|..] == t;
    assert t != [] ==> t[0] == s[|s| - |t|];
    assert t == [] ==> s[..|s| - |t|] == s;
    r
  }

  predicate StartsWith(s: string, p: string) {
    |p| <= |s| && s[..|p|] == p
  }

  /** `s.split(sep)`: the pieces between the leftmost non-overlapping
      occurrences of `sep`; there is always at least one piece, and a
      one-character separator occurs in none of them. */
  function SplitOn(s: string, sep: string): (r: seq<string>)
    requires sep != []
    ensures |r| >= 1
    ensures |sep| == 1 ==> AllAvoid(r, sep[0])
    decreases |s|
  {
    if StartsWith(s, sep) then [""] + SplitOn(s[|sep|..], sep)
    else if s == [] then [""]
    else
      var rest := SplitOn(s[1..], sep);
      assert |sep| == 1 ==> s[..1] == [s[0]] && s[0] != sep[0];
      [[s[0]] + rest[0]] + rest[1..]
  }

  /** `sep.join(xs)`. */
  function Join(xs: seq<string>, sep: string): (r: string)
    ensures xs != [] ==> StartsWith(r, xs[0])
  {
    if |xs| == 0 then ""
    else if |xs| == 1 then xs[0]
    else xs[0] + sep + Join(xs[1..], sep)
  }

  /** The longest prefix of `s` without whitespace. */
  function Word(s: string): (w: string)
    ensures |w| <= |s| && w == s[..|w|]
    ensures NoSpace(w)
    ensures |w| == |s| || IsSpace(s[|w|])
  {
    if s == [] || IsSpace(s[0]) then "" else [s[0]] + Word(s[1..])
  }

  /** `s.split()`: the maximal runs of non-whitespace characters, in order. */
  function Tokens(s: string): (r: seq<string>)
    ensures forall i :: 0 <= i < |r| ==> r[i] != [] && NoSpace(r[i])
    decreases |s|
  {
    if s == [] then []
    else if IsSpace(s[0]) then Tokens(s[1..])
    else
      var w := Word(s);
      [w] + Tokens(s[|w|..])
  }

  // ---------------------------------------------------------------------
  // Joining undoes splitting, and splitting undoes joining.

  lemma {:induction false} JoinCons(x: string, xs: seq<string>, sep: string)
    requires xs != []
    ensures Join([x] + xs, sep) == x + sep + Join(xs, sep)
  {
    assert ([x] + xs)[1..] == xs;
  }

  /** Joining the pieces of `s.split(sep)` with `sep` gives back `s`. */
  lemma {:induction false} JoinSplitOn(s: string, sep: string)
    requires sep != []
    ensures Join(SplitOn(s, sep), sep) == s
    decreases |s|
  {
    if StartsWith(s, sep) {
      var after := s[|sep|..];
      JoinSplitOn(after, sep);
      SplitOnAtSep(s, sep);
      JoinCons("", SplitOn(after, sep), sep);
      assert "" + sep + after == s[..|sep|] + after == s;
    } else if s != [] {
      JoinSplitOn(s[1..], sep);
      JoinSplitOnStep(s, sep);
    }
  }

  lemma JoinSplitOnStep(s: string, sep: string)
    requires sep != [] && s != [] && !StartsWith(s, sep)
    requires Join(SplitOn(s[1..], sep), sep) == s[1..]
    ensures Join(SplitOn(s, sep), sep) == s
  {
    SplitOnNoSep(s, sep);
    JoinConsPiece(s[0], SplitOn(s[1..], sep), sep);
    HeadTail(s);
  }

  /** Putting a character in front of the first piece puts it in front of
      the joined text. */
  lemma JoinConsPiece(c: char, rest: seq<string>, sep: string)
    requires rest != []
    ensures Join([[c] + rest[0]] + rest[1..], sep) == [c] + Join(rest, sep)
  {
    var xs := [[c] + rest[0]] + rest[1..];
    if |rest| == 1 {
      assert xs == [[c] + rest[0]];
    } else {
      var tail := Join(rest[1..], sep);
      HeadTail(rest);
      JoinCons(rest[0], rest[1..], sep);
      JoinCons([c] + rest[0], rest[1..], sep);
      assert [c] + rest[0] + sep + tail == [c] + (rest[0] + sep + tail);
    }
  }

  /** `sep` occurs in `x + sep` only at the end: no occurrence starts inside `x`. */
  predicate SepOnlyAfter(x: string, sep: string) {
    forall i :: 0 <= i < |x| ==> !StartsWith((x + sep)[i..], sep)
  }

  /** `s` has no occurrence of the character `ch`. */
  predicate Avoids(s: string, ch: char) {
    forall i :: 0 <= i < |s| ==> s[i] != ch
  }

  predicate AllAvoid(xs: seq<string>, ch: char) {
    forall i :: 0 <= i < |xs| ==> Avoids(xs[i], ch)
  }

  lemma AllAvoidCons(x: string, xs: seq<string>, ch: char)
    requires Avoids(x, ch) && AllAvoid(xs, ch)
    ensures AllAvoid([x] + xs, ch)
  {
    forall i | 0 <= i < |[x] + xs| ensures Avoids(([x] + xs)[i], ch) {
      if i > 0 {
        assert ([x] + xs)[i] == xs[i - 1];
      }
    }
  }

  /** A string avoiding the `k`-th character of `sep`, where that character
      does not occur earlier in `sep`, cannot hold a start of `sep`. */
  lemma SepOnlyAfterByChar(x: string, sep: string, k: nat)
    requires k < |sep| && Avoids(x, sep[k])
    requires forall j :: 0 <= j < k ==> sep[j] != sep[k]
    ensures SepOnlyAfter(x, sep)
  {
    forall i | 0 <= i < |x| ensures !StartsWith((x + sep)[i..], sep) {
      var t := (x + sep)[i..];
      assert t[k] == (x + sep)[i + k];
      assert i + k < |x| ==> (x + sep)[i + k] == x[i + k];
      assert i + k >= |x| ==> (x + sep)[i + k] == sep[i + k - |x|];
      assert t[k] != sep[k];
      assert t[..|sep|][k] == t[k];
    }
  }

  /** Joining pieces and a separator that all avoid `ch` avoids `ch`. */
  lemma {:induction false} JoinAvoids(xs: seq<string>, sep: string, ch: char)
    requires Avoids(sep, ch) && forall i :: 0 <= i < |xs| ==> Avoids(xs[i], ch)
    ensures Avoids(Join(xs, sep), ch)
    decreases |xs|
  {
    if |xs| > 1 {
      JoinAvoids(xs[1..], sep, ch);
      var rest := Join(xs[1..], sep);
      var s := xs[0] + sep + rest;
      forall i | 0 <= i < |s| ensures s[i] != ch {
        if i < |xs[0]| {
          assert s[i] == xs[0][i];
        } else if i < |xs[0]| + |sep| {
          assert s[i] == sep[i - |xs[0]|];
        } else {
          assert s[i] == rest[i - |xs[0]| - |sep|];
        }
      }
    }
  }

  lemma {:induction false} SplitOnSingle(x: string, sep: string)
    requires sep != [] && SepOnlyAfter(x, sep)
    ensures SplitOn(x, sep) == [x]
    decreases |x|
  {
    if x != [] {
      assert |sep| <= |x| ==> (x + sep)[0..][..|sep|] == x[..|sep|];
      forall i | 0 <= i < |x| - 1 ensures !StartsWith((x[1..] + sep)[i..], sep) {
        assert (x[1..] + sep)[i..] == (x + sep)[i + 1..];
      }
      SplitOnSingle(x[1..], sep);
      assert [x[0]] + x[1..] == x;
    }
  }

  lemma {:induction false} SplitOnPiece(x: string, sep: string, rest: string)
    requires sep != [] && SepOnlyAfter(x, sep)
    ensures SplitOn(x + sep + rest, sep) == [x] + SplitOn(rest, sep)
    decreases |x|
  {
    var s := x + sep + rest;
    if x == [] {
      assert s == sep + rest;
      assert s[..|sep|] == sep;
      assert s[|sep|..] == rest;
    } else {
      assert (x + sep)[0..] == x + sep;
      assert s[..|sep|] == (x + sep)[..|sep|];
      forall i | 0 <= i < |x| - 1 ensures !StartsWith((x[1..] + sep)[i..], sep) {
        assert (x[1..] + sep)[i..] == (x + sep)[i + 1..];
      }
      SplitOnPiece(x[1..], sep, rest);
      assert s[1..] == x[1..] + sep + rest;
      assert [x[0]] + x[1..] == x;
    }
  }

  /** Splitting `sep.join(xs)` on `sep` gives back `xs`, provided no piece
      lets `sep` start inside it. */
  lemma {:induction false} SplitOnJoin(xs: seq<string>, sep: string)
    requires sep != [] && xs != []
    requires forall i :: 0 <= i < |xs| ==> SepOnlyAfter(xs[i], sep)
    ensures SplitOn(Join(xs, sep), sep) == xs
    decreases |xs|
  {
    if |xs| == 1 {
      SplitOnSingle(xs[0], sep);
    } else {
      SplitOnJoin(xs[1..], sep);
      SplitOnPiece(xs[0], sep, Join(xs[1..], sep));
      assert [xs[0]] + xs[1..] == xs;
    }
  }

  /** Splitting on a one-character separator distributes over concatenation. */
  lemma {:induction false} SplitOnConcat(x: string, sep: string, y: string)
    requires |sep| == 1
    ensures SplitOn(x + sep + y, sep) == SplitOn(x, sep) + SplitOn(y, sep)
    decreases |x|
  {
    var s := x + sep + y;
    if x == [] {
      assert s == sep + y && s[..1] == sep && s[1..] == y;
      SplitOnAtSep(s, sep);
    } else {
      assert s[1..] == x[1..] + sep + y;
      assert s[..1] == x[..1];
      SplitOnConcat(x[1..], sep, y);
      if x[0] == sep[0] {
        SplitOnAtSep(s, sep);
        SplitOnAtSep(x, sep);
      } else {
        SplitOnNoSep(s, sep);
        SplitOnNoSep(x, sep);
        ConsPieceAppend([x[0]], SplitOn(x[1..], sep), SplitOn(y, sep));
      }
    }
  }

  lemma ConsPieceAppend(p: string, r1: seq<string>, r2: seq<string>)
    requires r1 != []
    ensures ([p + r1[0]] + r1[1..]) + r2 == [p + (r1 + r2)[0]] + (r1 + r2)[1..]
  {
    assert (r1 + r2)[0] == r1[0];
    assert (r1 + r2)[1..] == r1[1..] + r2;
  }

  /** A non-empty sequence is its first element followed by the rest. */
  lemma HeadTail<T>(r: seq<T>)
    requires r != []
    ensures [r[0]] + r[1..] == r
  {
  }

  /** A non-empty sequence is its front followed by its last element. */
  lemma InitLast<T>(r: seq<T>)
    requires r != []
    ensures r[..|r| - 1] + [r[|r| - 1]] == r
  {
  }

  /** Appending a character other than a one-character separator extends the
      last piece. */
  lemma {:induction false} SplitOnSnoc(x: string, sep: string, c: char)
    requires |sep| == 1 && c != sep[0]
    ensures var r := SplitOn(x, sep);
      SplitOn(x + [c], sep) == r[..|r| - 1] + [r[|r| - 1] + [c]]
    decreases |x|
  {
    if x == [] {
      SplitOnSnocNil(x, sep, c);
    } else {
      SplitOnSnoc(x[1..], sep, c);
      if x[0] == sep[0] {
        SplitOnSnocSep(x, sep, c);
      } else {
        SplitOnSnocOther(x, sep, c);
      }
    }
  }

  lemma SplitOnSnocNil(x: string, sep: string, c: char)
    requires x == [] && |sep| == 1 && c != sep[0]
    ensures var r := SplitOn(x, sep);
      SplitOn(x + [c], sep) == r[..|r| - 1] + [r[|r| - 1] + [c]]
  {
    SplitOnSnocEmpty(sep, c);
    assert x + [c] == [c];
    assert SplitOn(x, sep) == [""];
  }

  lemma SplitOnSnocEmpty(sep: string, c: char)
    requires |sep| == 1 && c != sep[0]
    ensures SplitOn([c], sep) == [[c]]
  {
    var s := [c];
    assert s[..1] == [c];
    assert s[1..] == [];
    assert SplitOn(s, sep) == [[c] + ""];
    assert [c] + "" == [c];
  }

  lemma SplitOnSnocSep(x: string, sep: string, c: char)
    requires |sep| == 1 && c != sep[0] && x != [] && x[0] == sep[0]
    requires var r1 := SplitOn(x[1..], sep);
      SplitOn(x[1..] + [c], sep) == r1[..|r1| - 1] + [r1[|r1| - 1] + [c]]
    ensures var r := SplitOn(x, sep);
      SplitOn(x + [c], sep) == r[..|r| - 1] + [r[|r| - 1] + [c]]
  {
    var s := x + [c];
    assert s[1..] == x[1..] + [c];
    assert s[..1] == sep && x[..1] == sep;
    SplitOnAtSep(s, sep);
    SplitOnAtSep(x, sep);
    PrependSnoc("", SplitOn(x[1..], sep), c);
  }

  lemma SplitOnAtSep(s: string, sep: string)
    requires sep != [] && StartsWith(s, sep)
    ensures SplitOn(s, sep) == [""] + SplitOn(s[|sep|..], sep)
  {
  }

  lemma PrependSnoc(h: string, r1: seq<string>, c: char)
    requires r1 != []
    ensures var r := [h] + r1;
      [h] + (r1[..|r1| - 1] + [r1[|r1| - 1] + [c]]) == r[..|r| - 1] + [r[|r| - 1] + [c]]
  {
    var r := [h] + r1;
    assert r[..|r| - 1] == [h] + r1[..|r1| - 1];
    assert r[|r| - 1] == r1[|r1| - 1];
  }

  lemma SplitOnSnocOther(x: string, sep: string, c: char)
    requires |sep| == 1 && c != sep[0] && x != [] && x[0] != sep[0]
    requires var r1 := SplitOn(x[1..], sep);
      SplitOn(x[1..] + [c], sep) == r1[..|r1| - 1] + [r1[|r1| - 1] + [c]]
    ensures var r := SplitOn(x, sep);
      SplitOn(x + [c], sep) == r[..|r| - 1] + [r[|r| - 1] + [c]]
  {
    var s := x + [c];
    assert s[1..] == x[1..] + [c];
    assert s[0] == x[0];
    assert s[..1] != sep && x[..1] != sep;
    SplitOnNoSep(s, sep);
    SplitOnNoSep(x, sep);
    ConsPieceSnoc([x[0]], SplitOn(x[1..], sep), c);
  }

  lemma SplitOnNoSep(s: string, sep: string)
    requires sep != [] && s != [] && !StartsWith(s, sep)
    ensures var rest := SplitOn(s[1..], sep);
      SplitOn(s, sep) == [[s[0]] + rest[0]] + rest[1..]
  {
  }

  lemma ConsPieceSnoc(p: string, r1: seq<string>, c: char)
    requires r1 != []
    ensures var r2 := r1[..|r1| - 1] + [r1[|r1| - 1] + [c]];
      var r := [p + r1[0]] + r1[1..];
      [p + r2[0]] + r2[1..] == r[..|r| - 1] + [r[|r| - 1] + [c]]
  {
    var r2 := r1[..|r1| - 1] + [r1[|r1| - 1] + [c]];
    var r := [p + r1[0]] + r1[1..];
    if |r1| == 1 {
      assert r2 == [r1[0] + [c]];
      assert r[..|r| - 1] == [];
      assert p + (r1[0] + [c]) == r[0] + [c];
    } else {
      assert r2[0] == r1[0];
      assert r2[1..] == r1[1..|r1| - 1] + [r1[|r1| - 1] + [c]];
      assert r[..|r| - 1] == [p + r1[0]] + r1[1..|r1| - 1];
      assert r[|r| - 1] == r1[|r1| - 1];
    }
  }

  // ---------------------------------------------------------------------
  // Whitespace at the ends of a piece does not change its stripped form.

  lemma StripConsSpace(c: char, x: string)
    requires IsSpace(c)
    ensures Strip([c] + x) == Strip(x)
  {
    assert ([c] + x)[1..] == x;
  }

  lemma AllSpaceCons(x: string)
    requires x != []
    ensures AllSpace(x) <==> IsSpace(x[0]) && AllSpace(x[1..])
  {
    assert forall i :: 0 < i < |x| ==> x[i] == x[1..][i - 1];
  }

  lemma {:induction false} TrimLeftSnocSpace(x: string, c: char)
    requires IsSpace(c)
    ensures TrimLeft(x + [c]) == if AllSpace(x) then [] else TrimLeft(x) + [c]
    decreases |x|
  {
    if x != [] {
      var s := x + [c];
      assert s[0] == x[0];
      assert s[1..] == x[1..] + [c];
      AllSpaceCons(x);
      TrimLeftSnocSpace(x[1..], c);
    }
  }

  lemma StripSnocSpace(x: string, c: char)
    requires IsSpace(c)
    ensures Strip(x + [c]) == Strip(x)
  {
    TrimLeftSnocSpace(x, c);
    if !AllSpace(x) {
      var t := TrimLeft(x) + [c];
      assert t[..|t| - 1] == TrimLeft(x);
    }
  }

  /** Stripping keeps a character out, since the result is part of the text. */
  lemma StripAvoids(s: string, ch: char)
    requires Avoids(s, ch)
    ensures Avoids(Strip(s), ch)
  {
    SuffixAvoids(s, TrimLeft(s), ch);
    PrefixAvoids(TrimLeft(s), TrimRight(TrimLeft(s)), ch);
  }

  lemma SuffixAvoids(s: string, t: string, ch: char)
    requires Avoids(s, ch) && |t| <= |s| && t == s[|s| - |t|..]
    ensures Avoids(t, ch)
  {
    forall k | 0 <= k < |t| ensures t[k] != ch {
      assert t[k] == s[|s| - |t| + k];
    }
  }

  lemma PrefixAvoids(s: string, t: string, ch: char)
    requires Avoids(s, ch) && |t| <= |s| && t == s[..|t|]
    ensures Avoids(t, ch)
  {
    forall k | 0 <= k < |t| ensures t[k] != ch {
      assert t[k] == s[k];
    }
  }

  // ---------------------------------------------------------------------
  // `split()` undoes joining whitespace-free words with one space.

  lemma {:induction false} WordOfPrefix(t: string, rest: string)
    requires NoSpace(t)
    requires rest == [] || IsSpace(rest[0])
    ensures Word(t + rest) == t
    decreases |t|
  {
    if t == [] {
    } else {
      assert (t + rest)[1..] == t[1..] + rest;
      WordOfPrefix(t[1..], rest);
      assert [t[0]] + t[1..] == t;
    }
  }

  /** `" ".join(ts).split() == ts` for non-empty whitespace-free words. */
  lemma {:induction false} TokensOfJoin(ts: seq<string>)
    requires forall i :: 0 <= i < |ts| ==> ts[i] != [] && NoSpace(ts[i])
    ensures Tokens(Join(ts, " ")) == ts
    decreases |ts|
  {
    if |ts| == 0 {
    } else if |ts| == 1 {
      WordOfPrefix(ts[0], "");
      assert ts[0] + "" == ts[0];
      assert ts[0][|ts[0]|..] == [];
    } else {
      var s := Join(ts, " ");
      var rest := Join(ts[1..], " ");
      assert s == ts[0] + (" " + rest);
      WordOfPrefix(ts[0], " " + rest);
      assert s[|ts[0]|..] == " " + rest;
      assert (" " + rest)[1..] == rest;
      TokensOfJoin(ts[1..]);
      assert [ts[0]] + ts[1..] == ts;
    }
  }

  // ---------------------------------------------------------------------
  // `split()` on any text: whitespace separates, words stay whole.

  /** A whitespace-free word on its own is one token. */
  lemma TokensOfWord(w: string)
    requires w != [] && NoSpace(w)
    ensures Tokens(w) == [w]
  {
    WordOfPrefix(w, "");
    assert w + "" == w;
    assert w[|w|..] == [];
  }

  /** Text made only of whitespace has no tokens. */
  lemma {:induction false} TokensOfSpace(s: string)
    requires AllSpace(s)
    ensures Tokens(s) == []
    decreases |s|
  {
    if s != [] {
      TokensOfSpace(s[1..]);
    }
  }

  /** A whitespace character splits the text into independent halves:
      `(x + c + y).split() == x.split() + y.split()`. With `TokensOfWord`
      and `TokensOfSpace` this fixes `Tokens` on every text: the tokens are
      the maximal whitespace-free runs, in order. */
  lemma {:induction false} TokensAtSpace(x: string, c: char, y: string)
    requires IsSpace(c)
    ensures Tokens(x + [c] + y) == Tokens(x) + Tokens(y)
    decreases |x|
  {
    if x == [] {
      TokensAtSpaceFirst(c, y);
    } else if IsSpace(x[0]) {
      TokensAtSpace(x[1..], c, y);
      TokensAtSpaceSkip(x, c, y);
    } else {
      TokensAtSpace(x[|Word(x)|..], c, y);
      TokensAtSpaceWord(x, c, y);
    }
  }

  lemma TokensAtSpaceFirst(c: char, y: string)
    requires IsSpace(c)
    ensures Tokens([] + [c] + y) == Tokens([]) + Tokens(y)
  {
    var s := [] + [c] + y;
    assert s[0] == c && s[1..] == y;
  }

  lemma TokensAtSpaceSkip(x: string, c: char, y: string)
    requires IsSpace(c) && x != [] && IsSpace(x[0])
    requires Tokens(x[1..] + [c] + y) == Tokens(x[1..]) + Tokens(y)
    ensures Tokens(x + [c] + y) == Tokens(x) + Tokens(y)
  {
    var s := x + [c] + y;
    assert s[0] == x[0] && s[1..] == x[1..] + [c] + y;
  }

  lemma TokensAtSpaceWord(x: string, c: char, y: string)
    requires IsSpace(c) && x != [] && !IsSpace(x[0])
    requires Tokens(x[|Word(x)|..] + [c] + y) == Tokens(x[|Word(x)|..]) + Tokens(y)
    ensures Tokens(x + [c] + y) == Tokens(x) + Tokens(y)
  {
    var w := Word(x);
    TokensAfterWord(x, c, y);
    assert Tokens(x) == [w] + Tokens(x[|w|..]);
    assert [w] + (Tokens(x[|w|..]) + Tokens(y)) == ([w] + Tokens(x[|w|..])) + Tokens(y);
  }

  /** The first word of `x` is the first token of `x + c + y`. */
  lemma TokensAfterWord(x: string, c: char, y: string)
    requires IsSpace(c) && x != [] && !IsSpace(x[0])
    ensures var w := Word(x);
      w != [] && Tokens(x + [c] + y) == [w] + Tokens(x[|w|..] + [c] + y)
  {
    var s := x + [c] + y;
    var w := Word(x);
    var rest := x[|w|..] + [c] + y;
    assert w != [];
    assert s == w + rest;
    WordOfPrefix(w, rest);
    assert s[|w|..] == rest;
  }
}
