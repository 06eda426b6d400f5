/**
  Itemised sections of a stat block (traits, actions, reactions,
  legendary actions) split into named items: `ITEM_PATTERN` and
  `createItemList` of convertDndHtmlStatBlocks.py.

  The pattern, in multi-line mode, is: at a line start, a title of at
  most 45 characters without a line break (greedy), then ". ", then a
  non-empty description (lazy) that stops where the rest of the text
  is empty or where a line starts that shows a '.' within its first
  46 characters.
*/
module ItemLists {
  import opened Wrappers

  const MaxTitle: nat := 45

  /** `^` in multi-line mode. */
  predicate AtLineStart(s: string, i: nat) {
    i == 0 || (i <= |s| && s[i - 1] == '\n')
  }

  /** `.` matches anything but a line break. */
  predicate NoBreak(x: string) {
    '\n' !in x
  }

  /** A title of `t` characters at `i` that is followed by ". " and by at least one more character. */
  predicate TitleFits(s: string, i: nat, t: nat) {
    t <= MaxTitle && i + t + 2 < |s| && NoBreak(s[i..i + t]) && s[i + t] == '.' && s[i + t + 1] == ' '
  }

  /** The greedy title: the longest fitting title of at most `t` characters. */
  function TitleFrom(s: string, i: nat, t: nat): (r: Option<nat>)
    ensures r.Some? ==> r.value <= t && TitleFits(s, i, r.value)
    ensures r.Some? ==> forall u :: r.value < u <= t ==> !TitleFits(s, i, u)
    ensures r.None? ==> forall u :: 0 <= u <= t ==> !TitleFits(s, i, u)
    decreases t
  {
    if TitleFits(s, i, t) then Some(t)
    else if t == 0 then None
    else TitleFrom(s, i, t - 1)
  }

  /** The lookahead `^.{0,45}\.` at `q` without its `^`: a '.' before any line break, within 46 characters. */
  predicate PeriodAhead(s: string, q: nat) {
    exists p :: q <= p <= q + MaxTitle && p < |s| && s[p] == '.' && NoBreak(s[q..p])
  }

  /** Where a lazy description may stop: the end of the text, or a line start with a period ahead. */
  predicate Boundary(s: string, q: nat) {
    q == |s| || (0 < q < |s| && s[q - 1] == '\n' && PeriodAhead(s, q))
  }

  /** The first boundary at or after `q`. */
  function DescEnd(s: string, q: nat): (r: nat)
    requires q <= |s|
    ensures q <= r <= |s| && Boundary(s, r)
    ensures forall p :: q <= p < r ==> !Boundary(s, p)
    decreases |s| - q
  {
    if Boundary(s, q) then q else DescEnd(s, q + 1)
  }

  /** One match of the pattern: it starts at `start`, its title has `title` characters, it ends at `end`. */
  datatype ItemMatch = ItemMatch(start: nat, title: nat, end: nat)

  /** The description begins after the title and ". ". */
  function DescStart(m: ItemMatch): nat {
    m.start + m.title + 2
  }

  /** The match that starts at `i`, if any. */
  function MatchAt(s: string, i: nat): (r: Option<ItemMatch>)
    ensures r.Some? ==> r.value.start == i && DescStart(r.value) < r.value.end <= |s|
  {
    if !AtLineStart(s, i) then None
    else
      match TitleFrom(s, i, MaxTitle)
      case None => None
      case Some(t) => Some(ItemMatch(i, t, DescEnd(s, i + t + 3)))
  }

  /** What the pattern promises of a match in `s`. */
  predicate ValidMatch(s: string, m: ItemMatch) {
    AtLineStart(s, m.start) && TitleFits(s, m.start, m.title) && DescStart(m) < m.end <= |s| &&
    Boundary(s, m.end) && (forall p :: DescStart(m) < p < m.end ==> !Boundary(s, p))
  }

  /**
    `finditer` from position `i`: each match is the leftmost one not
    before the end of the previous match.
  */
  function FindItems(s: string, i: nat): (ms: seq<ItemMatch>)
    ensures forall k :: 0 <= k < |ms| ==> i <= ms[k].start && DescStart(ms[k]) < ms[k].end <= |s|
    decreases |s| - i
  {
    if i >= |s| then []
    else
      match MatchAt(s, i)
      case None => FindItems(s, i + 1)
      case Some(m) => [m] + FindItems(s, m.end)
  }

  /** A match found at a position is what the pattern promises. */
  lemma MatchAtValid(s: string, i: nat)
    ensures MatchAt(s, i).Some? ==> ValidMatch(s, MatchAt(s, i).value)
  {
  }

  /** Every match `finditer` yields is what the pattern promises. */
  lemma {:induction false} FindItemsValid(s: string, i: nat)
    ensures forall k :: 0 <= k < |FindItems(s, i)| ==> ValidMatch(s, FindItems(s, i)[k])
    decreases |s| - i
  {
    if i < |s| {
      MatchAtValid(s, i);
      match MatchAt(s, i)
      case None =>
        FindItemsValid(s, i + 1);
      case Some(m) =>
        FindItemsValid(s, m.end);
    }
  }

  /** Matches in text order, each ending before the next begins. */
  predicate InOrder(ms: seq<ItemMatch>) {
    forall k :: 0 <= k < |ms| - 1 ==> ms[k].end <= ms[k + 1].start
  }

  /** The matches come in text order and do not overlap. */
  lemma {:induction false} FindItemsOrdered(s: string, i: nat)
    ensures InOrder(FindItems(s, i))
    decreases |s| - i
  {
    if i < |s| {
      var found := MatchAt(s, i);
      if found.None? {
        assert FindItems(s, i) == FindItems(s, i + 1);
        FindItemsOrdered(s, i + 1);
      } else {
        var m := found.value;
        FindItemsOrdered(s, m.end);
        assert FindItems(s, i) == [m] + FindItems(s, m.end);
        InOrderCons(m, FindItems(s, m.end));
      }
    }
  }

  lemma InOrderCons(m: ItemMatch, rest: seq<ItemMatch>)
    requires InOrder(rest) && forall k :: 0 <= k < |rest| ==> m.end <= rest[k].start
    ensures InOrder([m] + rest)
  {
    var ms := [m] + rest;
    forall k | 0 <= k < |ms| - 1 ensures ms[k].end <= ms[k + 1].start {
      if k > 0 {
        assert ms[k] == rest[k - 1] && ms[k + 1] == rest[k];
      }
    }
  }

  /** The search ends only when no match is left. */
  lemma {:induction false} FindItemsExhaust(s: string, i: nat)
    ensures FindItems(s, i) == [] ==> forall p :: i <= p <= |s| ==> MatchAt(s, p).None?
    decreases |s| - i
  {
    if i < |s| && MatchAt(s, i).None? {
      assert FindItems(s, i) == FindItems(s, i + 1);
      FindItemsExhaust(s, i + 1);
    }
  }

  /** Each search yields the leftmost match from where it stands: no match is skipped. */
  lemma {:induction false} FindItemsLeftmost(s: string, i: nat)
    ensures var ms := FindItems(s, i);
      ms != [] ==> MatchAt(s, ms[0].start) == Some(ms[0]) &&
                   forall p :: i <= p < ms[0].start ==> MatchAt(s, p).None?
    decreases |s| - i
  {
    if i < |s| && MatchAt(s, i).None? {
      assert FindItems(s, i) == FindItems(s, i + 1);
      FindItemsLeftmost(s, i + 1);
    }
  }

  /** One item: the title and the description. */
  datatype Item = Item(name: string, text: string)

  /** The description with one trailing line break removed, if it has one. */
  function DropNewline(d: string): (r: string)
    ensures if |d| > 0 && d[|d| - 1] == '\n' then r + "\n" == d else r == d
  {
    if |d| > 0 && d[|d| - 1] == '\n' then d[..|d| - 1] else d
  }

  /** The dictionary built for one match. */
  function ToItem(s: string, m: ItemMatch): Item
    requires DescStart(m) <= m.end <= |s|
  {
    Item(s[m.start..m.start + m.title], DropNewline(s[DescStart(m)..m.end]))
  }

  /** The item list of a section: one item per match. */
  function Items(s: string): (items: seq<Item>)
  {
    var ms := FindItems(s, 0);
    seq(|ms|, k requires 0 <= k < |ms| => ToItem(s, ms[k]))
  }

  /** `createItemList`: one item per match, in the order the matches were found. */
  method CreateItemList(s: string) returns (items: seq<Item>)
    ensures |items| == |FindItems(s, 0)|
    ensures forall k :: 0 <= k < |items| ==> items[k] == ToItem(s, FindItems(s, 0)[k])
    ensures items == Items(s)
  {
    var matches := FindItems(s, 0);
    items := [];
    var k := 0;
    while k < |matches|
      invariant 0 <= k <= |matches| && |items| == k
      invariant forall j :: 0 <= j < k ==> items[j] == ToItem(s, matches[j])
    {
      var item := BuildItem(s, matches[k]);
      ItemsSnoc(s, items, item, k);
      items := items + [item];
      k := k + 1;
    }
  }

  /** Appending the item of the next match keeps the items those of the matches so far. */
  lemma ItemsSnoc(s: string, items: seq<Item>, item: Item, k: nat)
    requires k < |FindItems(s, 0)| && |items| == k
    requires forall j :: 0 <= j < k ==> items[j] == ToItem(s, FindItems(s, 0)[j])
    requires item == ToItem(s, FindItems(s, 0)[k])
    ensures forall j :: 0 <= j < k + 1 ==> (items + [item])[j] == ToItem(s, FindItems(s, 0)[j])
  {
  }

  /** The item of one match: the title, and the description less one trailing line break. */
  method BuildItem(s: string, m: ItemMatch) returns (item: Item)
    requires DescStart(m) <= m.end <= |s|
    ensures item == ToItem(s, m)
  {
    var description := s[m.start + m.title + 2..m.end];
    if |description| > 0 && description[|description| - 1] == '\n' {
      description := description[..|description| - 1];
    }
    item := Item(s[m.start..m.start + m.title], description);
  }

  // ------------------------------------------------------------- properties

  /**
    Every item's name is at most 45 characters long, holds no line break,
    sits at a line start and is followed in the text by ". ".
  */
  lemma ItemNameShape(s: string, k: nat)
    requires k < |FindItems(s, 0)|
    ensures var m := FindItems(s, 0)[k]; var name := ToItem(s, m).name;
      |name| <= MaxTitle && '\n' !in name && AtLineStart(s, m.start) &&
      s[m.start..m.start + |name| + 2] == name + ". "
  {
    FindItemsValid(s, 0);
    MatchNameShape(s, FindItems(s, 0)[k]);
  }

  /** The same for one valid match. */
  lemma MatchNameShape(s: string, m: ItemMatch)
    requires ValidMatch(s, m)
    ensures var name := ToItem(s, m).name;
      |name| <= MaxTitle && '\n' !in name && s[m.start..m.start + |name| + 2] == name + ". "
  {
    assert TitleFits(s, m.start, m.title);
    NameThenStop(s, m.start, m.start + m.title);
  }

  lemma NameThenStop(s: string, a: nat, b: nat)
    requires a <= b && b + 2 <= |s| && s[b] == '.' && s[b + 1] == ' '
    ensures s[a..b + 2] == s[a..b] + ". "
  {
    assert s[a..b + 2] == s[a..b] + s[b..b + 2];
  }

  /** The matched text is the name, ". " and the description (before its line break is dropped). */
  lemma ItemSpan(s: string, m: ItemMatch)
    requires ValidMatch(s, m)
    ensures var it := ToItem(s, m);
      s[m.start..m.end] == it.name + ". " + it.text ||
      s[m.start..m.end] == it.name + ". " + it.text + "\n"
  {
    var it := ToItem(s, m);
    SliceThree(s, m.start, m.start + m.title, DescStart(m), m.end);
    assert s[m.start + m.title..DescStart(m)] == ". ";
    SpanCombine(s[m.start..m.end], it.name, s[DescStart(m)..m.end], it.text);
  }

  lemma SliceThree(s: string, a: nat, b: nat, c: nat, d: nat)
    requires a <= b <= c <= d <= |s|
    ensures s[a..d] == s[a..b] + s[b..c] + s[c..d]
  {
  }

  lemma SpanCombine(span: string, name: string, d: string, text: string)
    requires span == name + ". " + d && (text + "\n" == d || text == d)
    ensures span == name + ". " + text || span == name + ". " + text + "\n"
  {
    if text == d {
      assert span == name + ". " + text;
    } else {
      assert span == name + ". " + (text + "\n");
    }
  }

  /** The items come in the order of the text, and their spans do not overlap. */
  lemma ItemsInOrder(s: string, j: nat, k: nat)
    requires j < k < |FindItems(s, 0)|
    ensures FindItems(s, 0)[j].end <= FindItems(s, 0)[k].start
    decreases k - j
  {
    FindItemsOrdered(s, 0);
    var ms := FindItems(s, 0);
    if k > j + 1 {
      ItemsInOrder(s, j, k - 1);
      assert ms[k - 1].start < ms[k - 1].end;
    }
  }

  /** A text has items only if it holds a ". " somewhere. */
  lemma ItemsNeedStop(s: string)
    ensures FindItems(s, 0) != [] ==> exists p :: 0 <= p < |s| - 1 && s[p] == '.' && s[p + 1] == ' '
  {
    var ms := FindItems(s, 0);
    if ms != [] {
      FindItemsValid(s, 0);
      MatchHasStop(s, ms[0]);
    }
  }

  lemma MatchHasStop(s: string, m: ItemMatch)
    requires ValidMatch(s, m)
    ensures exists p :: 0 <= p < |s| - 1 && s[p] == '.' && s[p + 1] == ' '
  {
    var p := m.start + m.title;
    assert s[p] == '.' && s[p + 1] == ' ';
  }

  // --------------------------------------------------------------- examples

  /** The greedy title is pinned down by its contract. */
  lemma TitleFromIs(s: string, i: nat, t: nat, u: nat)
    requires u <= t && TitleFits(s, i, u) && forall v :: u < v <= t ==> !TitleFits(s, i, v)
    ensures TitleFrom(s, i, t) == Some(u)
  {
  }

  /** So is the lazy description's end. */
  lemma DescEndIs(s: string, q: nat, r: nat)
    requires q <= r <= |s| && Boundary(s, r) && forall p :: q <= p < r ==> !Boundary(s, p)
    ensures DescEnd(s, q) == r
  {
  }

  /** The first line of both examples: "A. x" and a second line opening with a period. */
  lemma FirstItemOf(s: string)
    requires |s| >= 7 && s[..7] == "A. x\nB."
    ensures MatchAt(s, 0) == Some(ItemMatch(0, 1, 5))
  {
    assert s[0] == 'A' && s[1] == '.' && s[2] == ' ' && s[3] == 'x' && s[4] == '\n' && s[5] == 'B' && s[6] == '.';
    forall v | 1 < v <= MaxTitle ensures !TitleFits(s, 0, v) {
      if v >= 5 && v + 2 < |s| { assert s[0..v][4] == '\n'; }
    }
    TitleFromIs(s, 0, MaxTitle, 1);
    assert PeriodAhead(s, 5) by { assert s[5..6] == "B"; }
    DescEndIs(s, 4, 5);
  }

  /** Two items on two lines. */
  lemma TwoItems()
    ensures FindItems("A. x\nB. y", 0) == [ItemMatch(0, 1, 5), ItemMatch(5, 1, 9)]
    ensures ToItem("A. x\nB. y", ItemMatch(0, 1, 5)) == Item("A", "x")
    ensures ToItem("A. x\nB. y", ItemMatch(5, 1, 9)) == Item("B", "y")
  {
    var s := "A. x\nB. y";
    FirstItemOf(s);
    assert s[5] == 'B' && s[6] == '.' && s[7] == ' ' && s[4] == '\n';
    forall v | 1 < v <= MaxTitle ensures !TitleFits(s, 5, v) { }
    assert s[5..6] == "B";
    TitleFromIs(s, 5, MaxTitle, 1);
    DescEndIs(s, 9, 9);
    assert MatchAt(s, 5) == Some(ItemMatch(5, 1, 9));
    assert FindItems(s, 5) == [ItemMatch(5, 1, 9)] + FindItems(s, 9);
    assert s[3..5] == "x\n" && s[8..9] == "y" && s[0..1] == "A";
  }

  /**
    A line that holds a period within its first 46 characters ends the
    description before it even when it starts no item: its text belongs
    to no item at all.
  */
  lemma LineDropped()
    ensures FindItems("A. x\nB.\n", 0) == [ItemMatch(0, 1, 5)]
    ensures ToItem("A. x\nB.\n", ItemMatch(0, 1, 5)) == Item("A", "x")
  {
    var s := "A. x\nB.\n";
    FirstItemOf(s);
    assert s[5] == 'B' && s[6] == '.' && s[7] == '\n';
    assert forall v :: 0 <= v <= MaxTitle ==> !TitleFits(s, 5, v);
    assert MatchAt(s, 5).None?;
    assert MatchAt(s, 6).None? && MatchAt(s, 7).None?;
    assert FindItems(s, 5) == FindItems(s, 6);
    assert FindItems(s, 6) == FindItems(s, 7);
    assert FindItems(s, 7) == FindItems(s, 8);
    assert s[3..5] == "x\n" && s[0..1] == "A";
  }
}
