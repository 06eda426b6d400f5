/**
  The plain-text report of convertDndHtmlStatBlocks.py
  (`generateItemsText`, `generatePlainText`). Both build their text by
  appending to a string, which the model writes as a left fold.
*/
module Report {
  import opened Wrappers
  import opened Ascii
  import opened ItemLists
  import opened Creatures

  /** `start` followed by the pieces of the elements of `s`, in order. */
  function Fold<T>(start: string, s: seq<T>, piece: T -> string): string
    decreases |s|
  {
    if s == [] then start else Fold(start, s[..|s| - 1], piece) + piece(s[|s| - 1])
  }

  // ------------------------------------------------------------------ items

  /** One line per item: its name in upper case, then its text. */
  function ItemLine(item: Item): string {
    "* " + Upper(item.name) + ": " + item.text + "\n"
  }

  function HeadingLine(heading: string): string {
    "-- " + heading + " --\n"
  }

  /** `generateItemsText`. */
  function ItemsSection(heading: string, items: seq<Item>): string {
    Fold(HeadingLine(heading), items, ItemLine) + "\n"
  }

  method ItemsText(heading: string, items: seq<Item>) returns (r: string)
    ensures r == ItemsSection(heading, items)
  {
    r := HeadingLine(heading);
    for j := 0 to |items|
      invariant r == Fold(HeadingLine(heading), items[..j], ItemLine)
    {
      FoldStep(HeadingLine(heading), items, j, ItemLine);
      r := r + ItemLine(items[j]);
    }
    assert items[..|items|] == items;
    r := r + "\n";
  }

  // -------------------------------------------------------------- creatures

  function OptionalSection(heading: string, items: Option<seq<Item>>): string {
    match items case None => "" case Some(its) => ItemsSection(heading, its)
  }

  function TitleLine(m: Match): string {
    "======== " + Upper(m.name) + " ========\n"
  }

  function KindLine(md: Metadata): string {
    "Size: " + md.size + " || Type: " + md.creatureType + " || Alignment: " + md.alignment + "\n"
  }

  /** The ability line: no wisdom, and intelligence before constitution. */
  function AbilityLine(m: Match): string {
    "STR " + m.strength + " || DEX " + m.dexterity + " || INT " + m.intelligence
    + " || CON " + m.constitution + " || CHA " + m.charisma + "\n"
  }

  function DefenceLine(m: Match): string {
    "AC: " + m.ac + " || HP: " + m.hp + " || Speed: " + m.speed + "\n"
  }

  /** What one creature adds to the report; the actions section is always there. */
  function Block(c: Creature): string {
    TitleLine(c.groups) + KindLine(c.metadataDict) + AbilityLine(c.groups) + DefenceLine(c.groups) + "\n"
    + OptionalSection("Attributes", c.attributesArray)
    + ItemsSection("Actions", c.actionsArray)
    + OptionalSection("Reactions", c.reactionsArray)
    + OptionalSection("Legendary Actions", c.legendaryActionsArray)
    + "\n"
  }

  const Greeting: string := "Here are your creatures!\n\n"

  /** `generatePlainText`. */
  function PlainReport(cs: seq<Creature>): string {
    Fold(Greeting, cs, Block)
  }

  method CreatureBlock(c: Creature) returns (r: string)
    ensures r == Block(c)
  {
    r := TitleLine(c.groups);
    r := r + KindLine(c.metadataDict);
    r := r + AbilityLine(c.groups);
    r := r + DefenceLine(c.groups);
    r := r + "\n";
    var section := "";
    if c.attributesArray.Some? {
      section := ItemsText("Attributes", c.attributesArray.value);
    }
    r := r + section;
    section := ItemsText("Actions", c.actionsArray);
    r := r + section;
    section := "";
    if c.reactionsArray.Some? {
      section := ItemsText("Reactions", c.reactionsArray.value);
    }
    r := r + section;
    section := "";
    if c.legendaryActionsArray.Some? {
      section := ItemsText("Legendary Actions", c.legendaryActionsArray.value);
    }
    r := r + section;
    r := r + "\n";
  }

  method PlainText(cs: seq<Creature>) returns (r: string)
    ensures r == PlainReport(cs)
  {
    r := Greeting;
    for i := 0 to |cs|
      invariant r == Fold(Greeting, cs[..i], Block)
    {
      FoldStep(Greeting, cs, i, Block);
      var block := CreatureBlock(cs[i]);
      r := r + block;
    }
    assert cs[..|cs|] == cs;
  }

  /** One more element of the prefix adds its piece at the end. */
  lemma FoldStep<T>(start: string, s: seq<T>, i: nat, piece: T -> string)
    requires i < |s|
    ensures Fold(start, s[..i + 1], piece) == Fold(start, s[..i], piece) + piece(s[i])
  {
    assert s[..i + 1][..i] == s[..i];
  }

  // ------------------------------------------------------------ properties

  /** Folding a concatenation folds the second part onto the result of the first. */
  lemma {:induction false} FoldConcat<T>(start: string, a: seq<T>, b: seq<T>, piece: T -> string)
    ensures Fold(start, a + b, piece) == Fold(Fold(start, a, piece), b, piece)
    decreases |b|
  {
    if b == [] {
      assert a + b == a;
    } else {
      var n := |b| - 1;
      assert (a + b)[..|a + b| - 1] == a + b[..n];
      FoldConcat(start, a, b[..n], piece);
    }
  }

  /** The start is kept as a prefix, followed by the pieces alone. */
  lemma {:induction false} FoldStart<T>(start: string, s: seq<T>, piece: T -> string)
    ensures Fold(start, s, piece) == start + Fold("", s, piece)
    decreases |s|
  {
    if s != [] {
      FoldStart(start, s[..|s| - 1], piece);
    }
  }

  /** Elements with the same piece give the same text. */
  lemma {:induction false} FoldSamePieces<T>(start: string, s: seq<T>, t: seq<T>, piece: T -> string)
    requires |s| == |t| && forall i :: 0 <= i < |s| ==> piece(s[i]) == piece(t[i])
    ensures Fold(start, s, piece) == Fold(start, t, piece)
    decreases |s|
  {
    if s != [] {
      FoldSamePieces(start, s[..|s| - 1], t[..|t| - 1], piece);
    }
  }

  /**
    The report of several runs of records is the report of the first run
    followed by the blocks of the others: each creature's block depends on
    that creature only.
  */
  lemma ReportConcat(a: seq<Creature>, b: seq<Creature>)
    ensures PlainReport(a + b) == PlainReport(a) + Fold("", b, Block)
  {
    FoldConcat(Greeting, a, b, Block);
    FoldStart(PlainReport(a), b, Block);
  }

  /** The report opens with the greeting, and a creature's block with its upper-case name between rules. */
  lemma ReportOpens(cs: seq<Creature>, c: Creature)
    ensures |Greeting| <= |PlainReport(cs)| && PlainReport(cs)[..|Greeting|] == Greeting
    ensures var head := "======== " + Upper(c.groups.name) + " ========\n";
      |head| <= |Block(c)| && Block(c)[..|head|] == head
  {
    FoldStart(Greeting, cs, Block);
    BlockSplit(c);
  }

  lemma BlockSplit(c: Creature)
    ensures |TitleLine(c.groups)| <= |Block(c)| && Block(c)[..|TitleLine(c.groups)|] == TitleLine(c.groups)
  {
    var t := TitleLine(c.groups);
    var b := Block(c);
    assert b[..|t|] == t;
  }

  function WithWisdom(c: Creature, w: string): Creature {
    c.(groups := c.groups.(wisdom := w))
  }

  lemma BlockIgnoresWisdom(c: Creature, w: string)
    ensures Block(WithWisdom(c, w)) == Block(c)
  {
    var d := WithWisdom(c, w);
    assert TitleLine(d.groups) == TitleLine(c.groups);
    assert AbilityLine(d.groups) == AbilityLine(c.groups);
    assert DefenceLine(d.groups) == DefenceLine(c.groups);
  }

  /** The report does not show wisdom: changing every record's wisdom changes nothing. */
  lemma ReportIgnoresWisdom(cs: seq<Creature>, ws: seq<string>)
    requires |ws| == |cs|
    ensures PlainReport(seq(|cs|, i requires 0 <= i < |cs| => WithWisdom(cs[i], ws[i]))) == PlainReport(cs)
  {
    var changed := seq(|cs|, i requires 0 <= i < |cs| => WithWisdom(cs[i], ws[i]));
    forall i | 0 <= i < |cs| ensures Block(changed[i]) == Block(cs[i]) {
      BlockIgnoresWisdom(cs[i], ws[i]);
    }
    FoldSamePieces(Greeting, changed, cs, Block);
  }

  /** An item section holds one line per item after its heading, in order. */
  lemma ItemsSectionLines(heading: string, a: seq<Item>, b: seq<Item>)
    ensures ItemsSection(heading, a + b) == Fold(HeadingLine(heading), a, ItemLine) + Fold("", b, ItemLine) + "\n"
  {
    FoldConcat(HeadingLine(heading), a, b, ItemLine);
    FoldStart(Fold(HeadingLine(heading), a, ItemLine), b, ItemLine);
  }
}
