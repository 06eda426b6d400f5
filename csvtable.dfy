/**
  `generateCSV` of convertDndHtmlStatBlocks.py: a header row of column
  names, then one row per record whose cells are looked up by those names.
  A cell is `None` where the record's group did not match; writing the
  table to a file is not part of this model.
*/
module CsvTable {
  import opened Wrappers
  import opened Creatures

  const Columns: seq<string> := ["name", "size", "type", "alignment", "ac", "speed",
    "strength", "dexterity", "constitution", "intelligence", "wisdom", "charisma",
    "savingthrows", "skills", "damagevulnerabilities", "damageresistances", "damageimmunities",
    "conditionimmunities", "senses", "languages", "challenge",
    "attributes", "actions", "reactions", "legendaryactions"]

  /** `creature[key]` for the keys holding a pattern group; `None` for any other key. */
  function GroupField(m: Match, key: string): Option<Option<string>> {
    if key == "name" then Some(Some(m.name))
    else if key == "metadata" then Some(Some(m.metadata))
    else if key == "ac" then Some(Some(m.ac))
    else if key == "hp" then Some(Some(m.hp))
    else if key == "speed" then Some(Some(m.speed))
    else if key == "strength" then Some(Some(m.strength))
    else if key == "dexterity" then Some(Some(m.dexterity))
    else if key == "constitution" then Some(Some(m.constitution))
    else if key == "intelligence" then Some(Some(m.intelligence))
    else if key == "wisdom" then Some(Some(m.wisdom))
    else if key == "charisma" then Some(Some(m.charisma))
    else if key == "savingthrows" then Some(m.savingThrows)
    else if key == "skills" then Some(m.skills)
    else if key == "damagevulnerabilities" then Some(m.damageVulnerabilities)
    else if key == "damageresistances" then Some(m.damageResistances)
    else if key == "damageimmunities" then Some(m.damageImmunities)
    else if key == "conditionimmunities" then Some(m.conditionImmunities)
    else if key == "senses" then Some(m.senses)
    else if key == "languages" then Some(m.languages)
    else if key == "challenge" then Some(m.challenge)
    else if key == "attributes" then Some(m.attributes)
    else if key == "actions" then Some(Some(m.actions))
    else if key == "reactions" then Some(m.reactions)
    else if key == "legendaryactions" then Some(m.legendaryActions)
    else None
  }

  /** `creature['metadatadict'][key]`; `None` for a key it does not have. */
  function MetadataField(md: Metadata, key: string): Option<string> {
    if key == "size" then Some(md.size)
    else if key == "sizeabbreviated" then Some(md.sizeAbbreviated)
    else if key == "type" then Some(md.creatureType)
    else if key == "alignment" then Some(md.alignment)
    else None
  }

  /** One cell: the three metadata columns come from `metadatadict`, the rest from the record. */
  function Cell(c: Creature, column: string): Option<Option<string>> {
    if column == "size" || column == "type" || column == "alignment" then
      match MetadataField(c.metadataDict, column) case None => None case Some(v) => Some(Some(v))
    else GroupField(c.groups, column)
  }

  /** The row of a record; `None` if some column is not one of its keys (a `KeyError`). */
  function Row(c: Creature, columns: seq<string>): Option<seq<Option<string>>>
    decreases |columns|
  {
    if columns == [] then Some([])
    else
      match Row(c, columns[..|columns| - 1])
      case None => None
      case Some(front) =>
        match Cell(c, columns[|columns| - 1])
        case None => None
        case Some(v) => Some(front + [v])
  }

  function Header(): seq<Option<string>> {
    seq(|Columns|, j requires 0 <= j < |Columns| => Some(Columns[j]))
  }

  /** The whole table, or `None` where a row could not be built. */
  function Table(cs: seq<Creature>): Option<seq<seq<Option<string>>>>
    decreases |cs|
  {
    if cs == [] then Some([Header()])
    else
      match Table(cs[..|cs| - 1])
      case None => None
      case Some(front) =>
        match RecordRow(cs[|cs| - 1])
        case None => None
        case Some(row) => Some(front + [row])
  }

  /** The row of one record under the fixed columns. */
  function RecordRow(c: Creature): Option<seq<Option<string>>> {
    Row(c, Columns)
  }

  method BuildRow(c: Creature) returns (r: Option<seq<Option<string>>>)
    ensures r == Row(c, Columns)
  {
    var row: seq<Option<string>> := [];
    for j := 0 to |Columns|
      invariant Row(c, Columns[..j]) == Some(row)
    {
      assert Columns[..j + 1][..j] == Columns[..j];
      var cell := Cell(c, Columns[j]);
      if cell.None? {
        RowStops(c, Columns, j + 1);
        return None;
      }
      row := row + [cell.value];
    }
    assert Columns[..|Columns|] == Columns;
    return Some(row);
  }

  lemma {:induction false} RowStops(c: Creature, columns: seq<string>, n: nat)
    requires n <= |columns| && Row(c, columns[..n]).None?
    ensures Row(c, columns).None?
    decreases |columns| - n
  {
    if n < |columns| {
      var init := columns[..|columns| - 1];
      assert init[..n] == columns[..n];
      RowStops(c, init, n);
    } else {
      assert columns[..n] == columns;
    }
  }

  lemma {:induction false} TableStops(cs: seq<Creature>, n: nat)
    requires n <= |cs| && Table(cs[..n]).None?
    ensures Table(cs).None?
    decreases |cs| - n
  {
    if n < |cs| {
      var init := cs[..|cs| - 1];
      assert init[..n] == cs[..n];
      TableStops(init, n);
    } else {
      assert cs[..n] == cs;
    }
  }

  method GenerateCsv(cs: seq<Creature>) returns (r: Option<seq<seq<Option<string>>>>)
    ensures r == Table(cs)
  {
    var rows := [Header()];
    for i := 0 to |cs|
      invariant Table(cs[..i]) == Some(rows)
    {
      assert cs[..i + 1][..i] == cs[..i];
      var row := BuildRow(cs[i]);
      if row.None? {
        TableStops(cs, i + 1);
        return None;
      }
      rows := rows + [row.value];
    }
    assert cs[..|cs|] == cs;
    return Some(rows);
  }

  // ------------------------------------------------------------ properties

  /** The cells as they are meant to be: field by field, in column order. */
  function Expected(c: Creature): seq<Option<string>> {
    var m := c.groups;
    var md := c.metadataDict;
    [Some(m.name), Some(md.size), Some(md.creatureType), Some(md.alignment), Some(m.ac), Some(m.speed),
     Some(m.strength), Some(m.dexterity), Some(m.constitution), Some(m.intelligence), Some(m.wisdom), Some(m.charisma),
     m.savingThrows, m.skills, m.damageVulnerabilities, m.damageResistances, m.damageImmunities,
     m.conditionImmunities, m.senses, m.languages, m.challenge,
     m.attributes, Some(m.actions), m.reactions, m.legendaryActions]
  }

  /** Every column is a key of the record, so a row never fails, and it holds the named fields. */
  lemma RowIsExpected(c: Creature)
    ensures Row(c, Columns) == Some(Expected(c))
  {
    var e := Expected(c);
    forall j | 0 <= j < |Columns| ensures Cell(c, Columns[j]) == Some(e[j]) {
      CellIsExpected(c, j);
    }
    RowFromCells(c, Columns, e);
  }

  lemma CellIsExpected(c: Creature, j: nat)
    requires j < |Columns|
    ensures Cell(c, Columns[j]) == Some(Expected(c)[j])
  {
    if j < 6 {
      FrontCells(c, j);
    } else if j < 12 {
      AbilityCells(c, j);
    } else if j < 21 {
      TraitCells(c, j);
    } else {
      ItemCells(c, j);
    }
  }

  lemma FrontCells(c: Creature, j: nat)
    requires j < 6
    ensures Cell(c, Columns[j]) == Some(Expected(c)[j])
  {
  }

  lemma AbilityCells(c: Creature, j: nat)
    requires 6 <= j < 12
    ensures Cell(c, Columns[j]) == Some(Expected(c)[j])
  {
  }

  lemma TraitCells(c: Creature, j: nat)
    requires 12 <= j < 21
    ensures Cell(c, Columns[j]) == Some(Expected(c)[j])
  {
  }

  lemma ItemCells(c: Creature, j: nat)
    requires 21 <= j < |Columns|
    ensures Cell(c, Columns[j]) == Some(Expected(c)[j])
  {
  }

  lemma {:induction false} RowFromCells(c: Creature, columns: seq<string>, e: seq<Option<string>>)
    requires |e| == |columns| && forall j :: 0 <= j < |columns| ==> Cell(c, columns[j]) == Some(e[j])
    ensures Row(c, columns) == Some(e)
    decreases |columns|
  {
    if columns != [] {
      var n := |columns| - 1;
      RowFromCells(c, columns[..n], e[..n]);
      assert e[..n] + [e[n]] == e;
    }
  }

  /**
    The table has a header and one row per record, in order, each row
    holding the record's fields under the header's names.
  */
  lemma {:induction false} TableShape(cs: seq<Creature>)
    ensures Table(cs).Some?
    ensures |Table(cs).value| == |cs| + 1 && Table(cs).value[0] == Header()
    ensures forall i :: 0 <= i < |cs| ==> Table(cs).value[i + 1] == Expected(cs[i])
    decreases |cs|
  {
    if cs != [] {
      var n := |cs| - 1;
      var init := cs[..n];
      TableShape(init);
      RowIsExpected(cs[n]);
      assert cs == init + [cs[n]];
      TableSnoc(cs, init, cs[n], Table(init).value, Expected(cs[n]));
      ShapeSnoc(cs, init, Table(init).value);
    }
  }

  lemma TableSnoc(cs: seq<Creature>, init: seq<Creature>, last: Creature, front: seq<seq<Option<string>>>, row: seq<Option<string>>)
    requires cs == init + [last] && Table(init) == Some(front) && RecordRow(last) == Some(row)
    ensures Table(cs) == Some(front + [row])
  {
    assert cs[..|cs| - 1] == init;
  }

  lemma ShapeSnoc(cs: seq<Creature>, init: seq<Creature>, front: seq<seq<Option<string>>>)
    requires cs != [] && init == cs[..|cs| - 1]
    requires |front| == |init| + 1 && front[0] == Header()
    requires forall i :: 0 <= i < |init| ==> front[i + 1] == Expected(init[i])
    ensures var t := front + [Expected(cs[|cs| - 1])];
      |t| == |cs| + 1 && t[0] == Header() && forall i :: 0 <= i < |cs| ==> t[i + 1] == Expected(cs[i])
  {
    var t := front + [Expected(cs[|cs| - 1])];
    forall i | 0 <= i < |cs| ensures t[i + 1] == Expected(cs[i]) {
      if i < |init| {
        assert t[i + 1] == front[i + 1] && init[i] == cs[i];
      }
    }
  }

  /** The table leaves out the hit points and the passive perception. */
  lemma NoHitPointsColumn()
    ensures "hp" !in Columns && "passiveperception" !in Columns
  {
  }
}
