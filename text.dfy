/**
  Literal substring search, Python's `str.replace` and `str.split` on a
  single-character separator.
*/
module Text {

  /** `p` occurs in `s` at index `i`. */
  predicate OccursAt(s: string, p: string, i: int) {
    0 <= i && i + |p| <= |s| && s[i..i + |p|] == p
  }

  predicate Contains(s: string, p: string) {
    exists i :: 0 <= i <= |s| - |p| && OccursAt(s, p, i)
  }

  /**
    Python's `s.replace(p, r)` for a non-empty `p`: scanning left to right,
    every non-overlapping occurrence of `p` is replaced by `r`.
  */
  function ReplaceAll(s: string, p: string, r: string): string
    requires p != []
    decreases |s|
  {
    if |s| < |p| then s
    else if s[..|p|] == p then r + ReplaceAll(s[|p|..], p, r)
    else [s[0]] + ReplaceAll(s[1..], p, r)
  }

  /** Replacing one character by another works character by character. */
  lemma {:induction false} ReplaceCharPointwise(s: string, c: char, d: char)
    ensures |ReplaceAll(s, [c], [d])| == |s|
    ensures forall i :: 0 <= i < |s| ==> ReplaceAll(s, [c], [d])[i] == if s[i] == c then d else s[i]
    decreases |s|
  {
    if s != [] {
      ReplaceCharPointwise(s[1..], c, d);
    }
  }

  /** Replacing a pattern that does not occur changes nothing. */
  lemma {:induction false} ReplaceAbsent(s: string, p: string, r: string)
    requires p != [] && !Contains(s, p)
    ensures ReplaceAll(s, p, r) == s
    decreases |s|
  {
    if |s| >= |p| {
      assert !OccursAt(s, p, 0);
      forall i | OccursAt(s[1..], p, i) ensures OccursAt(s, p, i + 1) {
        assert s[1..][i..i + |p|] == s[i + 1..i + 1 + |p|];
      }
      ReplaceAbsent(s[1..], p, r);
    }
  }

  /**
    When the replacement is non-empty and starts with a character outside
    `cs`, a prefix of the output made only of characters of `cs` was copied
    from the input unchanged.
  */
  lemma {:induction false} ReplacePrefixCopied(u: string, p: string, r: string, k: nat, cs: string)
    requires p != [] && r != [] && r[0] !in cs
    ensures var out := ReplaceAll(u, p, r);
      k <= |out| && (forall j :: 0 <= j < k ==> out[j] in cs) ==> k <= |u| && out[..k] == u[..k]
    decreases |u|
  {
    var out := ReplaceAll(u, p, r);
    assert |u| >= |p| && u[..|p|] == p ==> out[0] == r[0];
    if k > 0 && |u| >= |p| && u[..|p|] != p {
      var rest := ReplaceAll(u[1..], p, r);
      assert out == [u[0]] + rest;
      ReplacePrefixCopied(u[1..], p, r, k - 1, cs);
      if k <= |out| {
        assert (forall j :: 0 <= j < k ==> out[j] in cs) ==> (forall j :: 0 <= j < k - 1 ==> rest[j] in cs) by {
          assert forall j :: 0 <= j < k - 1 ==> rest[j] == out[j + 1];
        }
        assert out[..k] == [u[0]] + rest[..k - 1];
        assert k <= |u| ==> u[..k] == [u[0]] + u[1..][..k - 1];
      }
    }
  }

  /** No character of `r` occurs in `q`. */
  predicate Disjoint(r: string, q: string) {
    forall i :: 0 <= i < |r| ==> r[i] !in q
  }

  /**
    Replacing `p` by a non-empty `r` that shares no character with `q`
    leaves no occurrence of `q`, provided `q` is `p` itself or did not
    occur before.
  */
  lemma {:induction false} ReplaceLeavesNone(s: string, p: string, r: string, q: string)
    requires p != [] && q != [] && r != [] && Disjoint(r, q)
    requires q == p || !Contains(s, q)
    ensures !Contains(ReplaceAll(s, p, r), q)
    decreases |s|
  {
    if |s| < |p| {
      if q == p {
        assert forall i :: 0 <= i <= |s| - |q| ==> !OccursAt(s, q, i);
      }
    } else if s[..|p|] == p {
      if q != p {
        ContainsShift(s, q, |p|);
      }
      ReplaceLeavesNone(s[|p|..], p, r, q);
      AfterReplacement(r, ReplaceAll(s[|p|..], p, r), q);
    } else {
      if q != p {
        ContainsShift(s, q, 1);
      }
      ReplaceLeavesNone(s[1..], p, r, q);
      KeptHeadFront(s, p, r, q);
      AfterKept(s[0], ReplaceAll(s[1..], p, r), q);
    }
  }

  /** A suffix of a text free of `q` is free of `q`. */
  lemma ContainsShift(s: string, q: string, n: nat)
    requires n <= |s| && !Contains(s, q)
    ensures !Contains(s[n..], q)
  {
    forall i | 0 <= i <= |s[n..]| - |q| ensures !OccursAt(s[n..], q, i) {
      assert s[n..][i..i + |q|] == s[i + n..i + n + |q|];
      assert !OccursAt(s, q, i + n);
    }
  }

  /** Prefixing a `q`-free text with `r`, which has no character of `q`, keeps it `q`-free. */
  lemma AfterReplacement(r: string, rest: string, q: string)
    requires q != [] && Disjoint(r, q) && !Contains(rest, q)
    ensures !Contains(r + rest, q)
  {
    var out := r + rest;
    forall i | 0 <= i <= |out| - |q| ensures !OccursAt(out, q, i) {
      if i < |r| {
        assert out[i] == r[i] && out[i..i + |q|][0] == out[i];
      } else {
        assert out[i..i + |q|] == rest[i - |r|..i - |r| + |q|];
        assert !OccursAt(rest, q, i - |r|);
      }
    }
  }

  /** A kept first character followed by a `q`-free text: only index 0 could hold `q`. */
  lemma AfterKept(c: char, rest: string, q: string)
    requires q != [] && !Contains(rest, q) && !OccursAt([c] + rest, q, 0)
    ensures !Contains([c] + rest, q)
  {
    var out := [c] + rest;
    forall i | 1 <= i <= |out| - |q| ensures !OccursAt(out, q, i) {
      assert out[i..i + |q|] == rest[i - 1..i - 1 + |q|];
      assert !OccursAt(rest, q, i - 1);
    }
  }

  /** When the first character of `s` is kept, `q` does not occur at index 0 of the output. */
  lemma KeptHeadFront(s: string, p: string, r: string, q: string)
    requires p != [] && q != [] && r != [] && Disjoint(r, q)
    requires |s| >= |p| && s[..|p|] != p
    requires q == p || !Contains(s, q)
    ensures !OccursAt(ReplaceAll(s, p, r), q, 0)
  {
    var rest := ReplaceAll(s[1..], p, r);
    assert ReplaceAll(s, p, r) == [s[0]] + rest;
    assert r[0] !in q;
    ReplacePrefixCopied(s[1..], p, r, |q| - 1, q);
    FrontOccurrence(s[0], rest, s[1..], q);
    assert [s[0]] + s[1..] == s;
    assert !OccursAt(s, q, 0);
  }

  /**
    If the front of `rest` made of characters of `q` is always a copy of
    the front of `u`, then `q` at the start of `[c] + rest` is `q` at the
    start of `[c] + u`.
  */
  lemma FrontOccurrence(c: char, rest: string, u: string, q: string)
    requires q != []
    requires var k := |q| - 1;
      k <= |rest| && (forall j :: 0 <= j < k ==> rest[j] in q) ==> k <= |u| && rest[..k] == u[..k]
    ensures OccursAt([c] + rest, q, 0) ==> OccursAt([c] + u, q, 0)
  {
    var k := |q| - 1;
    var out := [c] + rest;
    if OccursAt(out, q, 0) {
      forall j | 0 <= j < k ensures rest[j] in q {
        assert rest[j] == out[j + 1] == q[j + 1];
      }
      assert out[..|q|] == [c] + rest[..k];
      assert ([c] + u)[..|q|] == [c] + u[..k];
    }
  }

  /** An occurrence of a longer text containing `q` is an occurrence of `q`. */
  lemma ContainsPart(s: string, a: string, q: string)
    requires Contains(s, a + q)
    ensures Contains(s, q)
  {
    var i :| 0 <= i <= |s| - |a + q| && OccursAt(s, a + q, i);
    assert |a + q| == |a| + |q|;
    assert s[i + |a|..i + |a| + |q|] == (a + q)[|a|..];
    assert OccursAt(s, q, i + |a|);
  }

  // ------------------------------------------------------------- split / join

  /** Python's `s.split(c)` for a one-character separator: never empty. */
  function Split(s: string, c: char): (pieces: seq<string>)
    ensures |pieces| >= 1
    decreases |s|
  {
    if s == [] then [[]]
    else
      var rest := Split(s[1..], c);
      if s[0] == c then [[]] + rest else [[s[0]] + rest[0]] + rest[1..]
  }

  /** Python's `c.join(pieces)`. */
  function Join(pieces: seq<string>, c: char): string
    requires |pieces| >= 1
    decreases |pieces|
  {
    if |pieces| == 1 then pieces[0] else pieces[0] + [c] + Join(pieces[1..], c)
  }

  /** Every piece of a split is free of the separator. */
  lemma {:induction false} SplitPiecesFree(s: string, c: char)
    ensures forall k :: 0 <= k < |Split(s, c)| ==> c !in Split(s, c)[k]
    decreases |s|
  {
    if s != [] {
      SplitPiecesFree(s[1..], c);
    }
  }

  /** Joining the pieces of a split gives back the text. */
  lemma {:induction false} JoinSplit(s: string, c: char)
    ensures Join(Split(s, c), c) == s
    decreases |s|
  {
    if s != [] {
      var rest := Split(s[1..], c);
      JoinSplit(s[1..], c);
      if s[0] == c {
        assert Split(s, c)[1..] == rest;
      } else {
        var ps := Split(s, c);
        assert ps[1..] == rest[1..];
        if |rest| > 1 {
          assert rest[1..] == ps[1..];
          assert Join(rest, c) == rest[0] + [c] + Join(rest[1..], c);
        }
      }
    }
  }

  /** Splitting separator-free pieces that were joined gives back the pieces. */
  lemma {:induction false} SplitJoin(pieces: seq<string>, c: char)
    requires |pieces| >= 1
    requires forall k :: 0 <= k < |pieces| ==> c !in pieces[k]
    ensures Split(Join(pieces, c), c) == pieces
    decreases |pieces|, |pieces[0]|
  {
    var head := pieces[0];
    if head == [] {
      if |pieces| > 1 {
        SplitJoin(pieces[1..], c);
        assert Join(pieces, c) == [c] + Join(pieces[1..], c);
        assert ([c] + Join(pieces[1..], c))[1..] == Join(pieces[1..], c);
      }
    } else {
      var shorter := [head[1..]] + pieces[1..];
      assert forall k :: 1 <= k < |shorter| ==> shorter[k] == pieces[k];
      SplitJoin(shorter, c);
      var j := Join(pieces, c);
      assert j == [head[0]] + Join(shorter, c) by {
        if |pieces| > 1 {
          assert shorter[1..] == pieces[1..];
          assert head == [head[0]] + head[1..];
        } else {
          assert head == [head[0]] + head[1..];
        }
      }
      assert j[1..] == Join(shorter, c);
      assert head[0] != c by { assert head[0] in pieces[0]; }
      assert head == [head[0]] + head[1..];
    }
  }

  /** Every character of a piece is a character of the split text. */
  lemma {:induction false} SplitPiecesFromText(s: string, c: char, x: char)
    requires x !in s
    ensures forall k :: 0 <= k < |Split(s, c)| ==> x !in Split(s, c)[k]
    decreases |s|
  {
    if s != [] {
      SplitPiecesFromText(s[1..], c, x);
    }
  }
}
