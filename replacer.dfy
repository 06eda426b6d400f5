/**
  textReplacer.py: a table of replacements read from CSV rows, and its
  application to a text, case-insensitively and keeping the case pattern
  of each occurrence. ASCII only; word characters are letters, digits
  and `_`.
*/
module TextReplacer {
  import opened Wrappers
  import opened Ascii
  import opened Text

  // ------------------------------------------------------ replacement table

  /** The replacement dictionary, in insertion order; its keys are distinct. */
  type Table = seq<(string, string)>

  const BeforeColumn: string := "beforeReplacement"
  const AfterColumn: string := "afterReplacement"

  function Keys(t: Table): (ks: seq<string>)
    ensures |ks| == |t| && forall i :: 0 <= i < |t| ==> ks[i] == t[i].0
  {
    seq(|t|, i requires 0 <= i < |t| => t[i].0)
  }

  predicate DistinctKeys(t: Table) {
    forall i, j :: 0 <= i < j < |t| ==> t[i].0 != t[j].0
  }

  /** `d.get(k)`. */
  function Lookup(t: Table, k: string): (r: Option<string>)
    ensures r.None? <==> k !in Keys(t)
    decreases |t|
  {
    if t == [] then None
    else if t[|t| - 1].0 == k then Some(t[|t| - 1].1)
    else Lookup(t[..|t| - 1], k)
  }

  /** `d[k] = v`: an existing key keeps its place and takes the new value; a new key goes last. */
  function Put(t: Table, k: string, v: string): (r: Table)
    ensures Keys(r) == if k in Keys(t) then Keys(t) else Keys(t) + [k]
  {
    if k in Keys(t) then seq(|t|, i requires 0 <= i < |t| => if t[i].0 == k then (k, v) else t[i])
    else t + [(k, v)]
  }

  datatype CsvError = MissingColumn

  /** The key and value a row contributes; reverse mode swaps the columns. */
  function RowPair(row: map<string, string>, reverse: bool): Option<(string, string)> {
    if BeforeColumn in row && AfterColumn in row then
      Some(if reverse then (row[AfterColumn], row[BeforeColumn]) else (row[BeforeColumn], row[AfterColumn]))
    else None
  }

  /** The dictionary `readCsvFile` builds from the rows. */
  function TableOf(rows: seq<map<string, string>>, reverse: bool): (r: Result<Table, CsvError>)
    ensures r.Ok? ==> |r.value| <= |rows|
    decreases |rows|
  {
    if rows == [] then Ok([])
    else
      match TableOf(rows[..|rows| - 1], reverse)
      case Err(e) => Err(e)
      case Ok(t) =>
        match RowPair(rows[|rows| - 1], reverse)
        case None => Err(MissingColumn)
        case Some(kv) => Ok(Put(t, kv.0, kv.1))
  }

  lemma {:induction false} TableStops(rows: seq<map<string, string>>, n: nat, reverse: bool)
    requires n <= |rows| && TableOf(rows[..n], reverse).Err?
    ensures TableOf(rows, reverse) == Err(MissingColumn)
    decreases |rows| - n
  {
    if n < |rows| {
      var init := rows[..|rows| - 1];
      assert init[..n] == rows[..n];
      TableStops(init, n, reverse);
    } else {
      assert rows[..n] == rows;
      assert TableOf(rows, reverse).error.MissingColumn?;
    }
  }

  method ReadReplacements(rows: seq<map<string, string>>, reverse: bool) returns (r: Result<Table, CsvError>)
    ensures r == TableOf(rows, reverse)
  {
    var t: Table := [];
    for i := 0 to |rows|
      invariant TableOf(rows[..i], reverse) == Ok(t)
    {
      assert rows[..i + 1][..i] == rows[..i];
      var kv := RowPair(rows[i], reverse);
      if kv.None? {
        assert rows[..i + 1][i] == rows[i];
        assert TableOf(rows[..i + 1], reverse).Err?;
        TableStops(rows, i + 1, reverse);
        return Err(MissingColumn);
      }
      t := Put(t, kv.value.0, kv.value.1);
    }
    assert rows[..|rows|] == rows;
    return Ok(t);
  }

  /** The value the last row with key `k` gives it, if any row does. */
  function LastValue(rows: seq<map<string, string>>, reverse: bool, k: string): Option<string>
    decreases |rows|
  {
    if rows == [] then None
    else
      match RowPair(rows[|rows| - 1], reverse)
      case Some(kv) => if kv.0 == k then Some(kv.1) else LastValue(rows[..|rows| - 1], reverse, k)
      case None => LastValue(rows[..|rows| - 1], reverse, k)
  }

  lemma {:induction false} PutLookup(t: Table, k: string, v: string, q: string)
    ensures Lookup(Put(t, k, v), q) == if q == k then Some(v) else Lookup(t, q)
  {
    if k in Keys(t) {
      UpdateLookup(t, k, v, q);
    } else {
      assert (t + [(k, v)])[..|t|] == t;
    }
  }

  lemma {:induction false} UpdateLookup(t: Table, k: string, v: string, q: string)
    requires k in Keys(t)
    ensures Lookup(seq(|t|, i requires 0 <= i < |t| => if t[i].0 == k then (k, v) else t[i]), q)
      == if q == k then Some(v) else Lookup(t, q)
    decreases |t|
  {
    var u := seq(|t|, i requires 0 <= i < |t| => if t[i].0 == k then (k, v) else t[i]);
    var n := |t| - 1;
    var front := t[..n];
    var uf := seq(|front|, i requires 0 <= i < |front| => if front[i].0 == k then (k, v) else front[i]);
    assert u[..n] == uf;
    if t[n].0 != k {
      assert Keys(t) == Keys(front) + [t[n].0];
      UpdateLookup(front, k, v, q);
    } else if q != k && q in Keys(front) {
      assert Keys(u[..n]) == Keys(front);
      LookupOthers(front, uf, q);
    } else if q != k {
      assert Keys(u[..n]) == Keys(front);
    }
  }

  lemma {:induction false} LookupOthers(t: Table, u: Table, q: string)
    requires |t| == |u| && forall i :: 0 <= i < |t| ==> t[i].0 == u[i].0 && (t[i].0 == q ==> t[i] == u[i])
    ensures Lookup(u, q) == Lookup(t, q)
    decreases |t|
  {
    if t != [] {
      LookupOthers(t[..|t| - 1], u[..|u| - 1], q);
    }
  }

  lemma {:induction false} PutDistinct(t: Table, k: string, v: string)
    requires DistinctKeys(t)
    ensures DistinctKeys(Put(t, k, v))
  {
    var r := Put(t, k, v);
    assert Keys(r) == if k in Keys(t) then Keys(t) else Keys(t) + [k];
    forall i, j | 0 <= i < j < |r| ensures r[i].0 != r[j].0 {
      assert Keys(r)[i] == r[i].0 && Keys(r)[j] == r[j].0;
      if j < |t| {
        assert Keys(t)[i] == t[i].0 && Keys(t)[j] == t[j].0;
      } else {
        assert k !in Keys(t);
        assert Keys(t)[i] == t[i].0;
      }
    }
  }

  /**
    Each key appears once, and maps to the value of the last row that has
    it: a later row overrides an earlier one. In reverse mode the
    `afterReplacement` column supplies the keys.
  */
  lemma {:induction false} TableLaterWins(rows: seq<map<string, string>>, reverse: bool, k: string)
    requires TableOf(rows, reverse).Ok?
    ensures DistinctKeys(TableOf(rows, reverse).value)
    ensures Lookup(TableOf(rows, reverse).value, k) == LastValue(rows, reverse, k)
    decreases |rows|
  {
    if rows != [] {
      var init := rows[..|rows| - 1];
      TableLaterWins(init, reverse, k);
      var t := TableOf(init, reverse).value;
      var kv := RowPair(rows[|rows| - 1], reverse).value;
      PutLookup(t, kv.0, kv.1, k);
      PutDistinct(t, kv.0, kv.1);
    }
  }

  /** A row that has both columns. */
  predicate Complete(row: map<string, string>) {
    BeforeColumn in row && AfterColumn in row
  }

  /** The table is built exactly when every row has both columns. */
  lemma {:induction false} TableNeedsColumns(rows: seq<map<string, string>>, reverse: bool)
    ensures TableOf(rows, reverse).Ok? <==> forall i :: 0 <= i < |rows| ==> Complete(rows[i])
    decreases |rows|
  {
    if rows != [] {
      var init := rows[..|rows| - 1];
      TableNeedsColumns(init, reverse);
      assert forall i :: 0 <= i < |init| ==> init[i] == rows[i];
    }
  }

  // ---------------------------------------------------------- keeping case

  /** Python's test for `Capitalized` text: an upper-case first letter, the rest lower case. */
  predicate IsCapitalized(o: string) {
    |o| > 0 && IsUpperChar(o[0]) && (|o| == 1 || IsLowerStr(o[1..]))
  }

  /**
    `replaceMatch` without its counter: `after` in the case of `original`.
    `None` where Python indexes an empty string (mixed case with an empty
    `original` or `after`).
  */
  function CaseReplacement(original: string, after: string): (r: Option<string>)
    ensures r.None? <==> !IsUpperStr(original) && !IsLowerStr(original) && !IsCapitalized(original) && (original == [] || after == [])
    ensures r.Some? ==> |r.value| == |after| && Lower(r.value) == Lower(after)
  {
    if IsUpperStr(original) then Some(Upper(after))
    else if IsLowerStr(original) then Some(Lower(after))
    else if IsCapitalized(original) then
      LowerOfCapitalize(after);
      Some(Capitalize(after))
    else if original == [] || after == [] then None
    else if IsUpperChar(original[0]) then
      LowerOfCase(after[0]);
      assert Lower([UpperChar(after[0])] + after[1..]) == Lower(after) by {
        LowerSplit([UpperChar(after[0])] + after[1..]);
        LowerSplit(after);
      }
      Some([UpperChar(after[0])] + after[1..])
    else
      LowerOfCase(after[0]);
      assert Lower([LowerChar(after[0])] + after[1..]) == Lower(after) by {
        LowerSplit([LowerChar(after[0])] + after[1..]);
        LowerSplit(after);
      }
      Some([LowerChar(after[0])] + after[1..])
  }

  lemma LowerSplit(s: string)
    requires s != []
    ensures Lower(s) == [LowerChar(s[0])] + Lower(s[1..])
  {
  }

  lemma LowerOfCapitalize(s: string)
    ensures Lower(Capitalize(s)) == Lower(s)
  {
    if s != [] {
      LowerOfCase(s[0]);
      forall i | 0 < i < |s| ensures LowerChar(LowerChar(s[i])) == LowerChar(s[i]) {
        LowerOfCase(s[i]);
      }
    }
  }

  /**
    The result follows the case pattern of the occurrence: no lower-case
    letter for an upper-case occurrence, no upper-case letter for a
    lower-case one, a capital and then lower case for a capitalized one,
    and otherwise the first letter's case with the rest of `after` as
    written. The second clause names each result: `after.upper()`,
    `after.lower()`, `after.capitalize()`, or `after` with its first
    letter re-cased.
  */
  lemma CaseFollowsOriginal(original: string, after: string)
    requires CaseReplacement(original, after).Some?
    ensures var r := CaseReplacement(original, after).value;
      (IsUpperStr(original) ==> forall i :: 0 <= i < |r| ==> !IsLowerChar(r[i])) &&
      (!IsUpperStr(original) && IsLowerStr(original) ==> forall i :: 0 <= i < |r| ==> !IsUpperChar(r[i])) &&
      (!IsUpperStr(original) && !IsLowerStr(original) && IsCapitalized(original) && r != [] ==>
        !IsLowerChar(r[0]) && forall i :: 0 < i < |r| ==> !IsUpperChar(r[i])) &&
      (!IsUpperStr(original) && !IsLowerStr(original) && !IsCapitalized(original) ==>
        (IsUpperChar(original[0]) ==> !IsLowerChar(r[0])) &&
        (!IsUpperChar(original[0]) ==> !IsUpperChar(r[0])) &&
        r[1..] == after[1..])
    ensures var r := CaseReplacement(original, after).value;
      (IsUpperStr(original) ==> r == Upper(after)) &&
      (!IsUpperStr(original) && IsLowerStr(original) ==> r == Lower(after)) &&
      (!IsUpperStr(original) && !IsLowerStr(original) && IsCapitalized(original) ==> r == Capitalize(after)) &&
      (!IsUpperStr(original) && !IsLowerStr(original) && !IsCapitalized(original) ==>
        r == [if IsUpperChar(original[0]) then UpperChar(after[0]) else LowerChar(after[0])] + after[1..])
  {
  }

  /** Replacing an occurrence by its own text gives that text back. */
  lemma SameTextKept(o: string)
    requires o != []
    ensures CaseReplacement(o, o) == Some(o)
  {
    if IsUpperStr(o) {
      assert Upper(o) == o;
    } else if IsLowerStr(o) {
      assert Lower(o) == o;
    } else if IsCapitalized(o) {
      assert Lower(o[1..]) == o[1..];
      assert Capitalize(o) == o;
    } else {
      assert [if IsUpperChar(o[0]) then UpperChar(o[0]) else LowerChar(o[0])] + o[1..] == o;
    }
  }

  /** `replaceMatch`: the case-kept replacement, counting it in `count[0]` when it differs from the occurrence. */
  method ReplaceMatch(original: string, after: string, count: array<nat>) returns (r: Option<string>)
    requires count.Length == 1
    modifies count
    ensures r == CaseReplacement(original, after)
    ensures count[0] == old(count[0]) + (if r.Some? && r.value != original then 1 else 0)
  {
    r := CaseReplacement(original, after);
    if r.Some? && r.value != original {
      count[0] := count[0] + 1;
    }
  }

  // ------------------------------------------------------------- scanning

  /** `key` occurs at `i`, ignoring case. */
  predicate KeyAt(s: string, key: string, i: nat) {
    i + |key| <= |s| && Lower(s[i..i + |key|]) == Lower(key)
  }

  predicate WordAt(s: string, i: int) {
    0 <= i < |s| && IsWordChar(s[i])
  }

  /** `\b` at `i`: a word character on exactly one side. */
  predicate WordBoundary(s: string, i: nat) {
    WordAt(s, i - 1) != WordAt(s, i)
  }

  /** The pattern matches at `i`: the key, and without the wildcard a word boundary on both sides. */
  predicate MatchHere(s: string, key: string, wild: bool, i: nat) {
    KeyAt(s, key, i) && (wild || (WordBoundary(s, i) && WordBoundary(s, i + |key|)))
  }

  /** `out` in front of a result, and `n` more changes counted. */
  function Prepend(out: string, n: nat, r: Option<(string, nat)>): Option<(string, nat)> {
    match r case None => None case Some(p) => Some((out + p.0, n + p.1))
  }

  /**
    `re.sub` from position `i` with a non-empty literal key: the text
    produced and the number of occurrences whose replacement differs from
    them. Occurrences do not overlap; the scan resumes after each one.
  */
  function Sub(s: string, key: string, after: string, wild: bool, i: nat): (r: Option<(string, nat)>)
    requires key != [] && i <= |s|
    ensures r.Some? ==> r.value.1 <= |s| - i
    decreases |s| - i
  {
    if i == |s| then Some(([], 0))
    else if MatchHere(s, key, wild, i) then
      var original := s[i..i + |key|];
      match CaseReplacement(original, after)
      case None => None
      case Some(rep) => Prepend(rep, if rep != original then 1 else 0, Sub(s, key, after, wild, i + |key|))
    else Prepend([s[i]], 0, Sub(s, key, after, wild, i + 1))
  }

  lemma PrependPrepend(a: string, m: nat, b: string, n: nat, r: Option<(string, nat)>)
    ensures Prepend(a, m, Prepend(b, n, r)) == Prepend(a + b, m + n, r)
  {
    if r.Some? {
      assert a + (b + r.value.0) == a + b + r.value.0;
    }
  }

  /** One `re.sub` call with the counter `count`. */
  method Substitute(s: string, key: string, after: string, wild: bool, count: array<nat>) returns (r: Option<string>)
    requires key != [] && count.Length == 1
    modifies count
    ensures Sub(s, key, after, wild, 0).None? ==> r.None?
    ensures Sub(s, key, after, wild, 0).Some? ==>
      r == Some(Sub(s, key, after, wild, 0).value.0) && count[0] == old(count[0]) + Sub(s, key, after, wild, 0).value.1
  {
    var out := "";
    var i := 0;
    ghost var n := 0;
    PrependNothing(Sub(s, key, after, wild, 0));
    while i < |s|
      invariant 0 <= i <= |s| && count[0] == old(count[0]) + n
      invariant Sub(s, key, after, wild, 0) == Prepend(out, n, Sub(s, key, after, wild, i))
      decreases |s| - i
    {
      ghost var before := count[0];
      var piece, next := ScanStep(s, key, after, wild, i, count);
      if piece.None? {
        return None;
      }
      PrependPrepend(out, n, piece.value, count[0] - before, Sub(s, key, after, wild, next));
      out := out + piece.value;
      n := n + (count[0] - before);
      i := next;
    }
    assert out + [] == out;
    return Some(out);
  }

  /** What the scan does at `i`: replace the occurrence there, or copy one character. */
  method ScanStep(s: string, key: string, after: string, wild: bool, i: nat, count: array<nat>)
    returns (piece: Option<string>, next: nat)
    requires key != [] && i < |s| && count.Length == 1
    modifies count
    ensures i < next <= |s| && count[0] >= old(count[0])
    ensures piece.None? ==> Sub(s, key, after, wild, i).None?
    ensures piece.Some? ==>
      Sub(s, key, after, wild, i) == Prepend(piece.value, count[0] - old(count[0]), Sub(s, key, after, wild, next))
  {
    if MatchHere(s, key, wild, i) {
      var original := s[i..i + |key|];
      piece := ReplaceMatch(original, after, count);
      next := i + |key|;
      SubMatchStep(s, key, after, wild, i);
    } else {
      piece := Some([s[i]]);
      next := i + 1;
      SubCopyStep(s, key, after, wild, i);
    }
  }

  lemma PrependNothing(r: Option<(string, nat)>)
    ensures Prepend("", 0, r) == r
  {
    if r.Some? {
      assert "" + r.value.0 == r.value.0;
    }
  }

  lemma SubMatchStep(s: string, key: string, after: string, wild: bool, i: nat)
    requires key != [] && i < |s| && MatchHere(s, key, wild, i)
    ensures var original := s[i..i + |key|];
      match CaseReplacement(original, after)
      case None => Sub(s, key, after, wild, i) == None
      case Some(rep) => Sub(s, key, after, wild, i) == Prepend(rep, if rep != original then 1 else 0, Sub(s, key, after, wild, i + |key|))
  {
  }

  lemma SubCopyStep(s: string, key: string, after: string, wild: bool, i: nat)
    requires key != [] && i < |s| && !MatchHere(s, key, wild, i)
    ensures Sub(s, key, after, wild, i) == Prepend([s[i]], 0, Sub(s, key, after, wild, i + 1))
  {
  }

  // ------------------------------------------------------------- mappings

  predicate EndsWithStar(s: string) {
    |s| > 0 && s[|s| - 1] == '*'
  }

  function DropStar(s: string): string {
    if EndsWithStar(s) then s[..|s| - 1] else s
  }

  /** There is some position where `\b` holds: the empty key matches there. */
  predicate HasBoundary(s: string) {
    exists i :: 0 <= i <= |s| && WordBoundary(s, i)
  }

  /**
    One mapping applied to the text: the new text and the count. A key
    ending in `*` matches anywhere, and a `*` ending the value is dropped;
    any other key matches whole words only. An empty pattern matches the
    empty occurrence, whose case cannot be read.
  */
  function ApplyMapping(text: string, before: string, after: string): Option<(string, nat)> {
    if EndsWithStar(before) then
      var key := before[..|before| - 1];
      if key == [] then None else Sub(text, key, DropStar(after), true, 0)
    else if before == [] then
      if HasBoundary(text) then None else Some((text, 0))
    else Sub(text, before, after, false, 0)
  }

  /** The text after every mapping, in table order, and the count recorded for each key. */
  function ReplaceAllMappings(text: string, t: Table): (r: Option<(string, map<string, nat>)>)
    ensures r.Some? ==> forall k :: k in r.value.1 <==> k in Keys(t)
    decreases |t|
  {
    if t == [] then Some((text, map[]))
    else
      match ReplaceAllMappings(text, t[..|t| - 1])
      case None => None
      case Some(p) =>
        match ApplyMapping(p.0, t[|t| - 1].0, t[|t| - 1].1)
        case None => None
        case Some(q) => Some((q.0, p.1[t[|t| - 1].0 := q.1]))
  }

  method ApplyOne(text: string, before: string, after: string) returns (r: Option<(string, nat)>)
    ensures r == ApplyMapping(text, before, after)
  {
    var count := new nat[1];
    count[0] := 0;
    var out: Option<string>;
    if EndsWithStar(before) {
      var key := before[..|before| - 1];
      if key == [] {
        return None;
      }
      out := Substitute(text, key, DropStar(after), true, count);
    } else if before == [] {
      if HasBoundary(text) {
        return None;
      }
      out := Some(text);
    } else {
      out := Substitute(text, before, after, false, count);
    }
    if out.None? {
      return None;
    }
    return Some((out.value, count[0]));
  }

  lemma {:induction false} MappingsStop(text: string, t: Table, n: nat)
    requires n <= |t| && ReplaceAllMappings(text, t[..n]).None?
    ensures ReplaceAllMappings(text, t).None?
    decreases |t| - n
  {
    if n < |t| {
      var init := t[..|t| - 1];
      assert init[..n] == t[..n];
      MappingsStop(text, init, n);
    } else {
      assert t[..n] == t;
    }
  }

  /** The mapping loop of `replaceStrings`. */
  method ReplaceStrings(text: string, t: Table) returns (r: Option<(string, map<string, nat>)>)
    ensures r == ReplaceAllMappings(text, t)
  {
    var current := text;
    var counts: map<string, nat> := map[];
    for i := 0 to |t|
      invariant ReplaceAllMappings(text, t[..i]) == Some((current, counts))
    {
      assert t[..i + 1][..i] == t[..i];
      var (before, after) := t[i];
      var step := ApplyOne(current, before, after);
      if step.None? {
        MappingsStop(text, t, i + 1);
        return None;
      }
      counts := counts[before := step.value.1];
      current := step.value.0;
    }
    assert t[..|t|] == t;
    return Some((current, counts));
  }

  // ------------------------------------------------------------ properties

  lemma LowerConcat(a: string, b: string)
    ensures Lower(a + b) == Lower(a) + Lower(b)
  {
  }

  lemma LowerTail(s: string, i: nat, n: nat)
    requires i + n <= |s|
    ensures Lower(s[i..])[n..] == Lower(s[i + n..]) && Lower(s[i..])[..n] == Lower(s[i..i + n])
  {
  }

  /** Where the pattern matches nowhere from `i` on, the rest of the text is copied and nothing is counted. */
  lemma {:induction false} SubNoMatch(s: string, key: string, after: string, wild: bool, i: nat)
    requires key != [] && i <= |s|
    requires forall j :: i <= j < |s| ==> !MatchHere(s, key, wild, j)
    ensures Sub(s, key, after, wild, i) == Some((s[i..], 0))
    decreases |s| - i
  {
    if i < |s| {
      SubNoMatch(s, key, after, wild, i + 1);
      assert [s[i]] + s[i + 1..] == s[i..];
    }
  }

  /**
    The scan is leftmost: up to the first place where the pattern matches,
    the text is copied unchanged and nothing is counted.
  */
  lemma {:induction false} SubCopiesToFirstMatch(s: string, key: string, after: string, wild: bool, i: nat, j: nat)
    requires key != [] && i <= j <= |s|
    requires forall k :: i <= k < j ==> !MatchHere(s, key, wild, k)
    ensures Sub(s, key, after, wild, i) == Prepend(s[i..j], 0, Sub(s, key, after, wild, j))
    decreases j - i
  {
    if i < j {
      SubCopiesToFirstMatch(s, key, after, wild, i + 1, j);
      PrependPrepend([s[i]], 0, s[i + 1..j], 0, Sub(s, key, after, wild, j));
      assert [s[i]] + s[i + 1..j] == s[i..j];
    } else {
      assert s[i..j] == [];
      PrependEmpty(Sub(s, key, after, wild, j));
    }
  }

  lemma PrependEmpty(r: Option<(string, nat)>)
    ensures Prepend([], 0, r) == r
  {
    if r.Some? {
      assert [] + r.value.0 == r.value.0;
    }
  }

  /** A count of zero means the text came out as it went in. */
  lemma {:induction false} NothingCountedNothingChanged(s: string, key: string, after: string, wild: bool, i: nat)
    requires key != [] && i <= |s| && Sub(s, key, after, wild, i).Some?
    ensures Sub(s, key, after, wild, i).value.1 == 0 ==> Sub(s, key, after, wild, i).value.0 == s[i..]
    decreases |s| - i
  {
    if i < |s| {
      if MatchHere(s, key, wild, i) {
        NothingCountedNothingChanged(s, key, after, wild, i + |key|);
        assert s[i..i + |key|] + s[i + |key|..] == s[i..];
      } else {
        NothingCountedNothingChanged(s, key, after, wild, i + 1);
        assert [s[i]] + s[i + 1..] == s[i..];
      }
    }
  }

  /**
    With the wildcard the substitution is, up to case, Python's
    `str.replace` on the lower-cased text: every non-overlapping
    occurrence, inside words too, left to right.
  */
  lemma {:induction false} WildcardIsReplace(s: string, key: string, after: string, i: nat)
    requires key != [] && i <= |s| && Sub(s, key, after, true, i).Some?
    ensures Lower(Sub(s, key, after, true, i).value.0) == ReplaceAll(Lower(s[i..]), Lower(key), Lower(after))
    decreases |s| - i
  {
    if i < |s| {
      if KeyAt(s, key, i) {
        WildcardIsReplace(s, key, after, i + |key|);
        WildcardMatchStep(s, key, after, i);
      } else {
        WildcardIsReplace(s, key, after, i + 1);
        WildcardCopyStep(s, key, after, i);
      }
    }
  }

  lemma WildcardMatchStep(s: string, key: string, after: string, i: nat)
    requires key != [] && i < |s| && KeyAt(s, key, i) && Sub(s, key, after, true, i).Some?
    requires Lower(Sub(s, key, after, true, i + |key|).value.0) == ReplaceAll(Lower(s[i + |key|..]), Lower(key), Lower(after))
    ensures Lower(Sub(s, key, after, true, i).value.0) == ReplaceAll(Lower(s[i..]), Lower(key), Lower(after))
  {
    var rep := SubMatchUnfold(s, key, after, i);
    var rest := Sub(s, key, after, true, i + |key|).value.0;
    LowerTail(s, i, |key|);
    MatchCombine(Sub(s, key, after, true, i).value.0, rep, rest, Lower(s[i..]), Lower(s[i + |key|..]), Lower(key), Lower(after));
  }

  lemma MatchCombine(out: string, rep: string, rest: string, l: string, lt: string, p: string, la: string)
    requires p != [] && out == rep + rest && Lower(rep) == la && Lower(rest) == ReplaceAll(lt, p, la)
    requires |l| >= |p| && l[..|p|] == p && lt == l[|p|..]
    ensures Lower(out) == ReplaceAll(l, p, la)
  {
    LowerConcat(rep, rest);
    ReplaceFront(l, p, la);
  }

  lemma SubMatchUnfold(s: string, key: string, after: string, i: nat) returns (rep: string)
    requires key != [] && i < |s| && KeyAt(s, key, i) && Sub(s, key, after, true, i).Some?
    ensures Sub(s, key, after, true, i + |key|).Some?
    ensures Lower(rep) == Lower(after)
    ensures Sub(s, key, after, true, i).value.0 == rep + Sub(s, key, after, true, i + |key|).value.0
  {
    rep := CaseReplacement(s[i..i + |key|], after).value;
  }

  lemma ReplaceFront(s: string, p: string, r: string)
    requires p != [] && |s| >= |p| && s[..|p|] == p
    ensures ReplaceAll(s, p, r) == r + ReplaceAll(s[|p|..], p, r)
  {
  }

  lemma WildcardCopyStep(s: string, key: string, after: string, i: nat)
    requires key != [] && i < |s| && !KeyAt(s, key, i) && Sub(s, key, after, true, i).Some?
    requires Lower(Sub(s, key, after, true, i + 1).value.0) == ReplaceAll(Lower(s[i + 1..]), Lower(key), Lower(after))
    ensures Lower(Sub(s, key, after, true, i).value.0) == ReplaceAll(Lower(s[i..]), Lower(key), Lower(after))
  {
    SubCopyStep(s, key, after, true, i);
    LowerTail(s, i, 1);
    if i + |key| <= |s| {
      LowerTail(s, i, |key|);
    }
    CopyCombine(Sub(s, key, after, true, i).value.0, s[i], Sub(s, key, after, true, i + 1).value.0,
      Lower(s[i..]), Lower(key), Lower(after));
  }

  lemma CopyCombine(out: string, c: char, rest: string, l: string, p: string, la: string)
    requires p != [] && out == [c] + rest && |l| >= 1 && l[0] == LowerChar(c)
    requires Lower(rest) == ReplaceAll(l[1..], p, la)
    requires |l| >= |p| ==> l[..|p|] != p
    ensures Lower(out) == ReplaceAll(l, p, la)
  {
    LowerConcat([c], rest);
    if |l| < |p| {
      ReplaceShort(l[1..], p, la);
      assert l == [l[0]] + l[1..];
    }
  }

  lemma ReplaceShort(s: string, p: string, r: string)
    requires p != [] && |s| < |p|
    ensures ReplaceAll(s, p, r) == s
  {
  }

  /**
    For a key made of word characters, `\b` on both sides means the
    occurrence is not part of a longer word.
  */
  lemma WholeWordMatch(s: string, key: string, i: nat)
    requires key != [] && forall j :: 0 <= j < |key| ==> IsWordChar(key[j])
    ensures MatchHere(s, key, false, i) <==> KeyAt(s, key, i) && !WordAt(s, i - 1) && !WordAt(s, i + |key|)
  {
    if KeyAt(s, key, i) {
      assert Lower(s[i..i + |key|])[0] == LowerChar(s[i]) && Lower(key)[0] == LowerChar(key[0]);
      var n := |key| - 1;
      assert Lower(s[i..i + |key|])[n] == LowerChar(s[i + n]) && Lower(key)[n] == LowerChar(key[n]);
      LowerKeepsWord(s[i]);
      LowerKeepsWord(key[0]);
      LowerKeepsWord(s[i + n]);
      LowerKeepsWord(key[n]);
    }
  }

  lemma LowerKeepsWord(c: char)
    ensures IsWordChar(LowerChar(c)) == IsWordChar(c)
  {
  }

  /** The literal a mapping searches for: the key without its wildcard. */
  function SearchKey(before: string): string {
    if EndsWithStar(before) then before[..|before| - 1] else before
  }

  /** The text has no case-insensitive occurrence of the (non-empty) key. */
  predicate NoOccurrence(text: string, before: string) {
    SearchKey(before) != [] && forall i :: 0 <= i < |text| ==> !KeyAt(text, SearchKey(before), i)
  }

  lemma MappingNoOccurrence(text: string, before: string, after: string)
    requires NoOccurrence(text, before)
    ensures ApplyMapping(text, before, after) == Some((text, 0))
  {
    var key := SearchKey(before);
    SubNoMatch(text, key, if EndsWithStar(before) then DropStar(after) else after, EndsWithStar(before), 0);
  }

  /** A text in which no key occurs, in any case, comes out unchanged, with every count zero. */
  lemma {:induction false} NoOccurrenceUnchanged(text: string, t: Table)
    requires forall i :: 0 <= i < |t| ==> NoOccurrence(text, t[i].0)
    ensures ReplaceAllMappings(text, t).Some? && ReplaceAllMappings(text, t).value.0 == text
    ensures forall k :: k in ReplaceAllMappings(text, t).value.1 ==> ReplaceAllMappings(text, t).value.1[k] == 0
    decreases |t|
  {
    if t != [] {
      NoOccurrenceUnchanged(text, t[..|t| - 1]);
      MappingNoOccurrence(text, t[|t| - 1].0, t[|t| - 1].1);
    }
  }

  function TextOf(r: Option<(string, map<string, nat>)>): Option<string> {
    match r case None => None case Some(p) => Some(p.0)
  }

  /** Each mapping works on the text the earlier ones left: a table applies as its two halves one after the other. */
  lemma {:induction false} MappingsCompose(text: string, a: Table, b: Table)
    ensures TextOf(ReplaceAllMappings(text, a + b)) ==
      match ReplaceAllMappings(text, a) case None => None case Some(p) => TextOf(ReplaceAllMappings(p.0, b))
    decreases |b|
  {
    if b == [] {
      assert a + b == a;
    } else {
      var n := |b| - 1;
      assert (a + b)[..|a + b| - 1] == a + b[..n];
      assert (a + b)[|a + b| - 1] == b[n];
      MappingsCompose(text, a, b[..n]);
    }
  }

  lemma NotKeyAtFirst(s: string, key: string, i: nat)
    requires key != [] && (i + |key| <= |s| ==> LowerChar(s[i]) != LowerChar(key[0]))
    ensures !KeyAt(s, key, i)
  {
    if i + |key| <= |s| {
      assert Lower(s[i..i + |key|])[0] == LowerChar(s[i]);
    }
  }

  /** `hill` holds no `ant`, in any case. */
  lemma HillHasNoAnt(wild: bool)
    ensures forall j :: 3 <= j < |"anthill"| ==> !MatchHere("anthill", "ant", wild, j)
  {
    forall j | 3 <= j < |"anthill"| ensures !KeyAt("anthill", "ant", j) {
      NotKeyAtFirst("anthill", "ant", j);
    }
  }

  /** The first example of the help text: `ant` replaces the word only, so `anthill` and `ants` are left alone. */
  lemma WordKeyLeavesLongerWords()
    ensures ApplyMapping("anthill", "ant", "bug") == Some(("anthill", 0))
    ensures ApplyMapping("ants", "ant", "bug") == Some(("ants", 0))
  {
    HillHasNoAnt(false);
    forall j | 0 <= j < 3 ensures !MatchHere("anthill", "ant", false, j) {
      if j == 0 {
        assert !WordBoundary("anthill", 3);
      } else {
        NotKeyAtFirst("anthill", "ant", j);
      }
    }
    SubNoMatch("anthill", "ant", "bug", false, 0);
    forall j | 0 <= j < |"ants"| ensures !MatchHere("ants", "ant", false, j) {
      if j == 0 {
        assert !WordBoundary("ants", 3);
      } else {
        NotKeyAtFirst("ants", "ant", j);
      }
    }
    SubNoMatch("ants", "ant", "bug", false, 0);
  }

  lemma BugCases()
    ensures Lower("bug") == "bug" && Upper("bug") == "BUG" && Capitalize("bug") == "Bug"
  {
    assert Lower("bug") == "bug";
    assert UpperChar('b') == 'B' && UpperChar('u') == 'U' && UpperChar('g') == 'G';
    assert Upper("bug") == "BUG";
    assert "bug"[1..] == "ug" && Lower("ug") == "ug";
  }

  /** The second example: `ant*` replaces inside words, giving `bughill`, with or without a `*` on the value. */
  lemma WildcardKeyReplacesInside()
    ensures ApplyMapping("anthill", "ant*", "bug") == Some(("bughill", 1))
    ensures ApplyMapping("anthill", "ant*", "bug*") == Some(("bughill", 1))
  {
    BugCases();
    assert "ant*"[..3] == "ant" && "bug*"[..3] == "bug";
    assert DropStar("bug") == "bug" && DropStar("bug*") == "bug";
    HillHasNoAnt(true);
    SubNoMatch("anthill", "ant", "bug", true, 3);
    assert "anthill"[0..3] == "ant" && "anthill"[3..] == "hill";
    assert KeyAt("anthill", "ant", 0);
    assert IsLowerChar("ant"[0]);
    assert IsLowerStr("ant");
    assert CaseReplacement("ant", "bug") == Some("bug");
    assert "bug" + "hill" == "bughill";
    assert Sub("anthill", "ant", "bug", true, 0) == Prepend("bug", 1, Some(("hill", 0)));
  }

  /** A capitalized or upper-case word gets a capitalized or upper-case replacement. */
  lemma CaseExamples()
    ensures CaseReplacement("Ant", "bug") == Some("Bug")
    ensures CaseReplacement("ANT", "bug") == Some("BUG")
    ensures CaseReplacement("aNt", "bug") == Some("bug")
    ensures CaseReplacement("aNt", "") == None
  {
    BugCases();
    assert IsUpperChar("Ant"[0]) && IsLowerStr("Ant"[1..]) && IsLowerChar("Ant"[1]);
    assert IsUpperChar("ANT"[0]) && IsUpperStr("ANT");
    assert IsUpperChar("aNt"[1]) && IsLowerChar("aNt"[0]) && !IsCapitalized("aNt");
    assert !IsUpperStr("aNt") && !IsLowerStr("aNt");
    assert "bug"[1..] == "ug" && [LowerChar('b')] + "ug" == "bug";
  }

  /** `ant*` also turns `ants` into `bugs`. */
  lemma WildcardPlural()
    ensures ApplyMapping("ants", "ant*", "bug") == Some(("bugs", 1))
  {
    BugCases();
    assert "ant*"[..3] == "ant";
    NotKeyAtFirst("ants", "ant", 3);
    SubNoMatch("ants", "ant", "bug", true, 3);
    assert "ants"[0..3] == "ant" && "ants"[3..] == "s";
    assert KeyAt("ants", "ant", 0);
    assert IsLowerChar("ant"[0]) && IsLowerStr("ant");
    assert "bug" + "s" == "bugs";
    assert Sub("ants", "ant", "bug", true, 0) == Prepend("bug", 1, Some(("s", 0)));
  }

  /**
    With a `*` on both columns the mapping can be run backwards: the
    reversed table maps `bug*` to `ant*`, which gives `anthill` back.
  */
  lemma WildcardReversible()
    ensures TableOf([map[BeforeColumn := "ant*", AfterColumn := "bug*"]], true) == Ok([("bug*", "ant*")])
    ensures ApplyMapping("anthill", "ant*", "bug*") == Some(("bughill", 1))
    ensures ApplyMapping("bughill", "bug*", "ant*") == Some(("anthill", 1))
  {
    WildcardKeyReplacesInside();
    ReversedRow();
    BugHillBack();
  }

  lemma ReversedRow()
    ensures TableOf([map[BeforeColumn := "ant*", AfterColumn := "bug*"]], true) == Ok([("bug*", "ant*")])
  {
    var row := map[BeforeColumn := "ant*", AfterColumn := "bug*"];
    assert |BeforeColumn| != |AfterColumn|;
    assert row[AfterColumn] == "bug*" && row[BeforeColumn] == "ant*";
    assert RowPair(row, true) == Some(("bug*", "ant*"));
    var rows := [row];
    var none: Table := [];
    assert rows[..0] == [];
    assert Keys(none) == [];
    assert Put(none, "bug*", "ant*") == [("bug*", "ant*")];
  }

  lemma BugHillBack()
    ensures ApplyMapping("bughill", "bug*", "ant*") == Some(("anthill", 1))
  {
    assert "bug*"[..3] == "bug" && "ant*"[..3] == "ant";
    assert DropStar("ant*") == "ant";
    forall j | 3 <= j < |"bughill"| ensures !KeyAt("bughill", "bug", j) {
      NotKeyAtFirst("bughill", "bug", j);
    }
    SubNoMatch("bughill", "bug", "ant", true, 3);
    assert "bughill"[0..3] == "bug" && "bughill"[3..] == "hill";
    assert KeyAt("bughill", "bug", 0);
    assert IsLowerChar("bug"[0]) && IsLowerStr("bug");
    assert Lower("ant") == "ant";
    assert CaseReplacement("bug", "ant") == Some("ant");
    assert "ant" + "hill" == "anthill";
    assert Sub("bughill", "bug", "ant", true, 0) == Prepend("ant", 1, Some(("hill", 0)));
  }

  /**
    An empty pattern cannot be replaced: a lone `*` matches the empty
    string at the start of any text, and an empty key matches it at every
    word boundary, so the run fails exactly when the text has a word
    character.
  */
  lemma EmptyKeys(text: string, after: string)
    ensures ApplyMapping(text, "*", after) == None
    ensures ApplyMapping(text, "", after).None? <==> exists i :: 0 <= i < |text| && IsWordChar(text[i])
    ensures ApplyMapping(text, "", after).Some? ==> ApplyMapping(text, "", after).value == (text, 0)
  {
    assert "*"[..0] == [];
    if exists i :: 0 <= i < |text| && IsWordChar(text[i]) {
      var i :| 0 <= i < |text| && IsWordChar(text[i]);
      FirstWordChar(text, i);
    }
  }

  lemma {:induction false} FirstWordChar(text: string, i: nat)
    requires i < |text| && IsWordChar(text[i])
    ensures HasBoundary(text)
    decreases i
  {
    if i > 0 && IsWordChar(text[i - 1]) {
      FirstWordChar(text, i - 1);
    } else {
      assert WordBoundary(text, i);
    }
  }

  lemma WholeWordStep(w: string, v: string)
    requires |w| == 3 && IsLowerStr(w) && IsLowerStr(v) && w != v
    requires forall j :: 0 <= j < 3 ==> IsLetter(w[j])
    ensures ApplyMapping(w, w, v) == Some((v, 1))
  {
    assert Lower(v) == v;
    assert WordBoundary(w, 0) && WordBoundary(w, 3) && KeyAt(w, w, 0);
    assert w[0..3] == w;
    assert Sub(w, w, v, false, 3) == Some(([], 0));
    assert CaseReplacement(w, v) == Some(v) && v + [] == v;
    assert !EndsWithStar(w);
  }

  /** One mapping's output feeds the next: `ant` to `bug` and then `bug` to `fly` turns `ant` into `fly`. */
  lemma MappingsChain()
    ensures ReplaceAllMappings("ant", [("ant", "bug"), ("bug", "fly")]) == Some(("fly", map["ant" := 1, "bug" := 1]))
  {
    var t: Table := [("ant", "bug"), ("bug", "fly")];
    assert t[..1][..0] == [] && t[..1] == [("ant", "bug")] && t[..2] == t;
    assert IsLowerChar("ant"[0]) && IsLowerStr("ant") && IsLowerChar("bug"[0]) && IsLowerStr("bug");
    assert IsLowerChar("fly"[0]) && IsLowerStr("fly");
    WholeWordStep("ant", "bug");
    WholeWordStep("bug", "fly");
    assert ReplaceAllMappings("ant", t[..1]) == Some(("bug", map["ant" := 1]));
  }
}
