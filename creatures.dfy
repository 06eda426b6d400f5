/**
  Record building of the stat-block converter (`createDictFromData` of
  convertDndHtmlStatBlocks.py): each match of the creature pattern gets
  its item lists, its parsed metadata line and its passive perception,
  and the records are sorted by name.
*/
module Creatures {
  import opened Wrappers
  import opened Ascii
  import opened ItemLists
  import opened StableSort

  /**
    The named groups of one match of the creature pattern. The groups
    the pattern makes optional are `Option`s; the others always take part
    in a match.
  */
  datatype Match = Match(
    name: string, metadata: string, ac: string, hp: string, speed: string,
    strength: string, dexterity: string, constitution: string,
    intelligence: string, wisdom: string, charisma: string,
    savingThrows: Option<string>, skills: Option<string>,
    damageVulnerabilities: Option<string>, damageResistances: Option<string>,
    damageImmunities: Option<string>, conditionImmunities: Option<string>,
    senses: Option<string>, languages: Option<string>, challenge: Option<string>,
    attributes: Option<string>, actions: string,
    reactions: Option<string>, legendaryActions: Option<string>)

  // ------------------------------------------------------------- metadata

  /** The size alternatives of `METADATA_PATTERN`, in the order it tries them. */
  const Sizes: seq<string> := ["Tiny", "Small", "Medium", "Large", "Huge", "Gargantuan"]

  /** The `metadatadict` of a record. */
  datatype Metadata = Metadata(size: string, sizeAbbreviated: string, creatureType: string, alignment: string)

  predicate StartsWith(s: string, p: string) {
    |p| <= |s| && s[..|p|] == p
  }

  /** The text up to its first line break: what `.` and `$` let the pattern see. */
  function FirstLine(s: string): (r: string)
    ensures '\n' !in r && |r| <= |s| && s[..|r|] == r
    ensures |r| < |s| ==> s[|r|] == '\n'
    decreases |s|
  {
    if s == [] || s[0] == '\n' then [] else [s[0]] + FirstLine(s[1..])
  }

  /** The size alternative the line starts with, followed by a space. */
  function SizePrefix(line: string): (r: Option<string>)
    ensures r.Some? ==> r.value in Sizes && |r.value| >= 4 && StartsWith(line, r.value + " ")
    ensures r.None? ==> forall k :: 0 <= k < |Sizes| ==> !StartsWith(line, Sizes[k] + " ")
  {
    if StartsWith(line, "Tiny ") then Some("Tiny")
    else if StartsWith(line, "Small ") then Some("Small")
    else if StartsWith(line, "Medium ") then Some("Medium")
    else if StartsWith(line, "Large ") then Some("Large")
    else if StartsWith(line, "Huge ") then Some("Huge")
    else if StartsWith(line, "Gargantuan ") then Some("Gargantuan")
    else None
  }

  /** A ", " at `p` of `r`. */
  predicate CommaAt(r: string, p: nat) {
    p + 2 <= |r| && r[p] == ',' && r[p + 1] == ' '
  }

  /**
    The greedy type: the last ", " at or before `p` that leaves a
    non-empty type before it (and, from the caller, a non-empty alignment).
  */
  function LastComma(r: string, p: nat): (q: Option<nat>)
    requires p + 2 < |r|
    ensures q.Some? ==> 1 <= q.value <= p && CommaAt(r, q.value)
    ensures q.Some? ==> forall u :: q.value < u <= p ==> !CommaAt(r, u)
    ensures q.None? ==> forall u :: 1 <= u <= p ==> !CommaAt(r, u)
    decreases p
  {
    if p < 1 then None
    else if CommaAt(r, p) then Some(p)
    else LastComma(r, p - 1)
  }

  /** The alignment holds no ", " that leaves something after it. */
  predicate NoInnerComma(a: string) {
    forall u :: 0 <= u && u + 2 < |a| ==> !CommaAt(a, u)
  }

  /** The type and the alignment, split at the last ", " that leaves both non-empty. */
  function SplitKind(rest: string): (r: Option<(string, string)>)
    ensures r.Some? ==> rest == r.value.0 + ", " + r.value.1
    ensures r.Some? ==> r.value.0 != [] && r.value.1 != [] && NoInnerComma(r.value.1)
  {
    if |rest| < 4 then None
    else
      match LastComma(rest, |rest| - 3)
      case None => None
      case Some(p) =>
        AlignmentAfterLast(rest, p);
        assert rest == rest[..p] + rest[p..p + 2] + rest[p + 2..];
        Some((rest[..p], rest[p + 2..]))
  }

  /** `re.match(METADATA_PATTERN, ...)` on the first line and the dictionary built from it; `None` where it fails. */
  function ParseMetadata(meta: string): (r: Option<Metadata>)
    ensures r.Some? ==> r.value.size in Sizes && r.value.sizeAbbreviated == [UpperChar(r.value.size[0])]
    ensures r.Some? ==> FirstLine(meta) == r.value.size + " " + r.value.creatureType + ", " + r.value.alignment
    ensures r.Some? ==> r.value.creatureType != [] && r.value.alignment != [] && NoInnerComma(r.value.alignment)
  {
    var line := FirstLine(meta);
    match SizePrefix(line)
    case None => None
    case Some(z) =>
      match SplitKind(line[|z| + 1..])
      case None => None
      case Some(parts) =>
        assert line == line[..|z| + 1] + line[|z| + 1..];
        Some(Metadata(z, [UpperChar(z[0])], parts.0, parts.1))
  }

  /** What follows the last ", " holds no further ", " with something after it. */
  lemma AlignmentAfterLast(rest: string, p: nat)
    requires |rest| >= 4 && LastComma(rest, |rest| - 3) == Some(p)
    ensures NoInnerComma(rest[p + 2..])
  {
    var alignment := rest[p + 2..];
    forall u | 0 <= u && u + 2 < |alignment| ensures !CommaAt(alignment, u) {
      assert alignment[u] == rest[p + 2 + u] && alignment[u + 1] == rest[p + 3 + u];
      assert !CommaAt(rest, p + 2 + u);
    }
  }

  // ----------------------------------------------------------- perception

  const PerceptionLabel: string := "Perception "

  /** The end of the run of digits starting at `p`. */
  function DigitRun(s: string, p: nat): (e: nat)
    requires p <= |s|
    ensures p <= e <= |s| && AllDigits(s[p..e]) && (e == |s| || !IsDigit(s[e]))
    decreases |s| - p
  {
    if p < |s| && IsDigit(s[p]) then DigitRun(s, p + 1) else p
  }

  /** The lookbehind `(?<=Perception )` at `p`. */
  predicate LabelBefore(s: string, p: nat) {
    |PerceptionLabel| <= p <= |s| && s[p - |PerceptionLabel|..p] == PerceptionLabel
  }

  /** `PERCEPTION_PATTERN` tried at `p`: an optional sign and greedy digits, converted by `int`. */
  function PerceptionAt(s: string, p: nat): Option<int> {
    if !LabelBefore(s, p) || p >= |s| then None
    else if IsDigit(s[p]) then Some(DigitsValue(s[p..DigitRun(s, p)]))
    else if (s[p] == '+' || s[p] == '-') && p + 1 < |s| && IsDigit(s[p + 1]) then
      var v: int := DigitsValue(s[p + 1..DigitRun(s, p + 1)]);
      Some(if s[p] == '-' then -v else v)
    else None
  }

  /** The leftmost position from `p` on where the pattern matches. */
  function FirstPerception(s: string, p: nat): (r: Option<nat>)
    ensures r.Some? ==> p <= r.value <= |s| && PerceptionAt(s, r.value).Some?
    ensures r.Some? ==> forall q :: p <= q < r.value ==> PerceptionAt(s, q).None?
    ensures r.None? ==> forall q :: p <= q <= |s| ==> PerceptionAt(s, q).None?
    decreases |s| - p
  {
    if p > |s| then None
    else if PerceptionAt(s, p).Some? then Some(p)
    else FirstPerception(s, p + 1)
  }

  /** `re.search(PERCEPTION_PATTERN, s)` and `int(....group())`. */
  function PerceptionValue(s: string): (r: Option<int>)
    ensures r.None? <==> forall q :: 0 <= q <= |s| ==> PerceptionAt(s, q).None?
    ensures r.Some? ==> exists p :: 0 <= p <= |s| && PerceptionAt(s, p) == r &&
                          forall q :: 0 <= q < p ==> PerceptionAt(s, q).None?
  {
    match FirstPerception(s, 0)
    case None => None
    case Some(p) => PerceptionAt(s, p)
  }

  /** `int(x / 2.0)` for an integer `x`: the half rounded toward zero. */
  function TruncHalf(x: int): (r: int)
    ensures x >= 0 ==> 0 <= 2 * r <= x < 2 * r + 2
    ensures x < 0 ==> 2 * r - 2 < x <= 2 * r <= 0
  {
    if x >= 0 then x / 2 else -((-x) / 2)
  }

  /**
    Why building the records stops (the source raises). `WisdomNotNumeric`
    cannot arise from a real match, whose `wisdom` group is `[0-9]+`; it is
    also stricter than `float`, which accepts `"+9"`, `" 9"` or `"9.5"`.
  */
  datatype BuildError =
    | MetadataMismatch(name: string)      // the metadata pattern does not match
    | NoPassivePerception(name: string)   // no senses, and no earlier record to inherit from
    | WisdomNotNumeric(name: string)      // the wisdom score is not a digit string

  /**
    Passive perception of one match. With senses: the `Perception` value
    listed there, else the truncated half of wisdom minus 10 plus the
    `Perception` skill bonus (0 if none). Without senses the variable is
    not assigned, so the previous record's value (`prev`) is used.
  */
  function PassivePerception(m: Match, prev: Option<int>): (r: Result<int, BuildError>)
    ensures m.senses.None? ==> (r.Ok? <==> prev.Some?) && (r.Ok? ==> r.value == prev.value)
    ensures m.senses.Some? && PerceptionValue(m.senses.value).Some? ==>
              r == Ok(PerceptionValue(m.senses.value).value)
    ensures m.senses.Some? && PerceptionValue(m.senses.value).None? ==>
              (r.Ok? <==> IsDigits(m.wisdom)) &&
              (r.Ok? && DigitsValue(m.wisdom) >= 10 ==>
                 0 <= 2 * (r.value - SkillBonus(m)) <= DigitsValue(m.wisdom) - 10 < 2 * (r.value - SkillBonus(m)) + 2) &&
              (r.Ok? && DigitsValue(m.wisdom) < 10 ==>
                 2 * (r.value - SkillBonus(m)) - 2 < DigitsValue(m.wisdom) - 10 <= 2 * (r.value - SkillBonus(m)) <= 0)
  {
    match m.senses
    case None => if prev.Some? then Ok(prev.value) else Err(NoPassivePerception(m.name))
    case Some(senses) =>
      match PerceptionValue(senses)
      case Some(v) => Ok(v)
      case None =>
        if IsDigits(m.wisdom) then Ok(TruncHalf(DigitsValue(m.wisdom) - 10) + SkillBonus(m))
        else Err(WisdomNotNumeric(m.name))
  }

  /** The `Perception` bonus listed under skills, or 0. */
  function SkillBonus(m: Match): int {
    match m.skills
    case None => 0
    case Some(skills) => match PerceptionValue(skills) case None => 0 case Some(b) => b
  }

  // -------------------------------------------------------------- records

  /** A match with the keys `createDictFromData` adds to it. */
  datatype Creature = Creature(
    groups: Match,
    attributesArray: Option<seq<Item>>, actionsArray: seq<Item>,
    reactionsArray: Option<seq<Item>>, legendaryActionsArray: Option<seq<Item>>,
    metadataDict: Metadata, passivePerception: int)

  function NameOf(c: Creature): string {
    c.groups.name
  }

  function ItemsIfAny(s: Option<string>): (r: Option<seq<Item>>)
    ensures r.Some? <==> s.Some?
  {
    match s case None => None case Some(text) => Some(Items(text))
  }

  /** The record built from one match, given the passive perception left by the previous one. */
  function Record(m: Match, prev: Option<int>): Result<Creature, BuildError> {
    match ParseMetadata(m.metadata)
    case None => Err(MetadataMismatch(m.name))
    case Some(md) =>
      match PassivePerception(m, prev)
      case Err(e) => Err(e)
      case Ok(pp) =>
        Ok(Creature(m, ItemsIfAny(m.attributes), Items(m.actions), ItemsIfAny(m.reactions),
                    ItemsIfAny(m.legendaryActions), md, pp))
  }

  /** The records of all matches in match order; the first failing match ends the run. */
  function Records(ms: seq<Match>, prev: Option<int>): Result<seq<Creature>, BuildError>
    decreases |ms|
  {
    if ms == [] then Ok([])
    else
      match Record(ms[0], prev)
      case Err(e) => Err(e)
      case Ok(c) =>
        match Records(ms[1..], Some(c.passivePerception))
        case Err(e) => Err(e)
        case Ok(rest) => Ok([c] + rest)
  }

  function Prepend(done: seq<Creature>, r: Result<seq<Creature>, BuildError>): Result<seq<Creature>, BuildError> {
    match r case Err(e) => Err(e) case Ok(rest) => Ok(done + rest)
  }

  /** The value `createDictFromData` returns: the records sorted by name. */
  function SortedRecords(ms: seq<Match>): Result<seq<Creature>, BuildError> {
    match Records(ms, None)
    case Err(e) => Err(e)
    case Ok(rs) => Ok(SortBy(rs, NameOf))
  }

  /** Optional section parsed into items, as `createItemList` is called only for present groups. */
  method ItemsOfSection(s: Option<string>) returns (r: Option<seq<Item>>)
    ensures r == ItemsIfAny(s)
  {
    if s.Some? {
      var items := CreateItemList(s.value);
      r := Some(items);
    } else {
      r := None;
    }
  }

  /** The passive-perception step of the loop of `createDictFromData`. */
  method DerivePassive(m: Match, prev: Option<int>) returns (r: Result<int, BuildError>)
    ensures r == PassivePerception(m, prev)
  {
    if m.senses.Some? {
      var listed := PerceptionValue(m.senses.value);
      if listed.Some? {
        return Ok(listed.value);
      }
      var bonus := 0;
      if m.skills.Some? {
        var skill := PerceptionValue(m.skills.value);
        if skill.Some? {
          bonus := skill.value;
        }
      }
      assert bonus == SkillBonus(m);
      if !IsDigits(m.wisdom) {
        return Err(WisdomNotNumeric(m.name));
      }
      r := Ok(TruncHalf(DigitsValue(m.wisdom) - 10) + bonus);
    } else {
      if prev.None? {
        return Err(NoPassivePerception(m.name));
      }
      r := Ok(prev.value);
    }
  }

  /** The body of the loop of `createDictFromData` for one match. */
  method BuildRecord(m: Match, prev: Option<int>) returns (r: Result<Creature, BuildError>)
    ensures r == Record(m, prev)
  {
    var attributes := ItemsOfSection(m.attributes);
    var actions := CreateItemList(m.actions);
    var reactions := ItemsOfSection(m.reactions);
    var legendary := ItemsOfSection(m.legendaryActions);
    var metadata := ParseMetadata(m.metadata);
    if metadata.None? {
      return Err(MetadataMismatch(m.name));
    }
    var passive := DerivePassive(m, prev);
    if passive.Err? {
      return Err(passive.error);
    }
    r := Ok(Creature(m, attributes, actions, reactions, legendary, metadata.value, passive.value));
  }

  /** One step of the run: a record built, then the rest from its passive perception. */
  lemma RecordsStep(ms: seq<Match>, i: nat, prev: Option<int>, r: Result<Creature, BuildError>)
    requires i < |ms| && r == Record(ms[i], prev)
    ensures r.Err? ==> Records(ms[i..], prev) == Err(r.error)
    ensures r.Ok? ==> Records(ms[i..], prev) ==
                      Prepend([r.value], Records(ms[i + 1..], Some(r.value.passivePerception)))
  {
    assert ms[i..][1..] == ms[i + 1..];
  }

  lemma PrependAppend(done: seq<Creature>, c: Creature, r: Result<seq<Creature>, BuildError>)
    ensures Prepend(done, Prepend([c], r)) == Prepend(done + [c], r)
  {
    if r.Ok? { assert done + ([c] + r.value) == (done + [c]) + r.value; }
  }

  /** `createDictFromData`, from the matches found on. */
  method CreateDictFromData(matches: seq<Match>) returns (r: Result<seq<Creature>, BuildError>)
    ensures r == SortedRecords(matches)
  {
    var records: seq<Creature> := [];
    var prev: Option<int> := None;
    var i := 0;
    assert matches[0..] == matches;
    assert Prepend([], Records(matches, None)) == Records(matches, None) by {
      if Records(matches, None).Ok? { assert [] + Records(matches, None).value == Records(matches, None).value; }
    }
    while i < |matches|
      invariant 0 <= i <= |matches|
      invariant Records(matches, None) == Prepend(records, Records(matches[i..], prev))
    {
      var record := BuildRecord(matches[i], prev);
      RecordsStep(matches, i, prev, record);
      if record.Err? {
        return Err(record.error);
      }
      PrependAppend(records, record.value, Records(matches[i + 1..], Some(record.value.passivePerception)));
      records := records + [record.value];
      prev := Some(record.value.passivePerception);
      i := i + 1;
    }
    assert matches[i..] == [];
    assert Records(matches, None) == Ok(records) by {
      assert records + [] == records;
    }
    r := Ok(SortBy(records, NameOf));
  }

  // ----------------------------------------------------------- properties

  /** Record `k` is built from match `k`. */
  lemma {:induction false} RecordsFromMatches(ms: seq<Match>, prev: Option<int>)
    ensures Records(ms, prev).Ok? ==>
      |Records(ms, prev).value| == |ms| &&
      forall k :: 0 <= k < |ms| ==> Records(ms, prev).value[k].groups == ms[k]
    decreases |ms|
  {
    if ms != [] && Records(ms, prev).Ok? {
      var c := Record(ms[0], prev).value;
      var rest := Records(ms[1..], Some(c.passivePerception)).value;
      RecordsFromMatches(ms[1..], Some(c.passivePerception));
      GroupsCons(c, rest, ms);
    }
  }

  lemma GroupsCons(c: Creature, rest: seq<Creature>, ms: seq<Match>)
    requires ms != [] && c.groups == ms[0] && |rest| == |ms| - 1
    requires forall k :: 0 <= k < |rest| ==> rest[k].groups == ms[1..][k]
    ensures |[c] + rest| == |ms| && forall k :: 0 <= k < |ms| ==> ([c] + rest)[k].groups == ms[k]
  {
    forall k | 0 <= k < |ms| ensures ([c] + rest)[k].groups == ms[k] {
      if k > 0 {
        assert ([c] + rest)[k] == rest[k - 1];
      }
    }
  }

  /**
    The result is the records, in name order, as a stable permutation:
    records sharing a name keep their match order.
  */
  lemma SortedRecordsOrdered(ms: seq<Match>)
    requires SortedRecords(ms).Ok?
    ensures Sorted(SortedRecords(ms).value, NameOf)
    ensures multiset(SortedRecords(ms).value) == multiset(Records(ms, None).value)
    ensures forall k :: WithKey(SortedRecords(ms).value, NameOf, k) == WithKey(Records(ms, None).value, NameOf, k)
  {
    var rs := Records(ms, None).value;
    SortBySorted(rs, NameOf);
    SortByPermutes(rs, NameOf);
    forall k ensures WithKey(SortBy(rs, NameOf), NameOf, k) == WithKey(rs, NameOf, k) {
      SortByStable(rs, NameOf, k);
    }
  }

  /** The sizes differ in their first letter, so the line's first letter picks the size. */
  lemma SizePrefixOf(line: string, size: string)
    requires size in Sizes && StartsWith(line, size + " ")
    ensures SizePrefix(line) == Some(size)
  {
    assert line[0] == (size + " ")[0] == size[0];
  }

  /** The last ", " is pinned down by its contract. */
  lemma LastCommaIs(r: string, p: nat, q: nat)
    requires p + 2 < |r| && 1 <= q <= p && CommaAt(r, q) && forall u :: q < u <= p ==> !CommaAt(r, u)
    ensures LastComma(r, p) == Some(q)
  {
  }

  /** A type and an alignment without a further ", " split back apart. */
  lemma SplitKindRoundTrip(kind: string, alignment: string)
    requires kind != [] && alignment != [] && NoInnerComma(alignment)
    ensures SplitKind(kind + ", " + alignment) == Some((kind, alignment))
  {
    var rest := kind + ", " + alignment;
    var p := |kind|;
    assert rest[p] == ',' && rest[p + 1] == ' ';
    forall u | p < u <= |rest| - 3 ensures !CommaAt(rest, u) {
      if u == p + 1 {
        assert rest[u] == ' ';
      } else {
        assert rest[u] == alignment[u - p - 2] && rest[u + 1] == alignment[u - p - 1];
        assert !CommaAt(alignment, u - p - 2);
      }
    }
    LastCommaIs(rest, |rest| - 3, p);
    assert rest[..p] == kind && rest[p + 2..] == alignment;
  }

  /** A well-formed metadata line parses back into its parts; the alignment is what follows the last ", ". */
  lemma MetadataRoundTrip(meta: string, size: string, kind: string, alignment: string)
    requires size in Sizes && kind != [] && alignment != [] && NoInnerComma(alignment)
    requires FirstLine(meta) == size + " " + kind + ", " + alignment
    ensures ParseMetadata(meta) == Some(Metadata(size, [UpperChar(size[0])], kind, alignment))
  {
    var line := FirstLine(meta);
    var rest := kind + ", " + alignment;
    assert line == (size + " ") + rest;
    SizePrefixOf(line, size);
    assert line[|size| + 1..] == rest;
    SplitKindRoundTrip(kind, alignment);
  }

  /** A record without senses takes over the passive perception of the record before it. */
  lemma StalePerception(m: Match, prev: int)
    requires m.senses.None? && ParseMetadata(m.metadata).Some?
    ensures Record(m, Some(prev)).Ok? && Record(m, Some(prev)).value.passivePerception == prev
    ensures Record(m, None) == Err(NoPassivePerception(m.name))
  {
  }

  /** The leftmost perception match is pinned down by its contract. */
  lemma FirstPerceptionIs(s: string, p: nat, q: nat)
    requires p <= q <= |s| && PerceptionAt(s, q).Some? && forall u :: p <= u < q ==> PerceptionAt(s, u).None?
    ensures FirstPerception(s, p) == Some(q)
    decreases q - p
  {
    if p < q {
      FirstPerceptionIs(s, p + 1, q);
    }
  }

  /** A listed `Perception 12` gives 12, and a signed one its signed value. */
  lemma ListedPerception()
    ensures PerceptionValue("Perception 12") == Some(12)
    ensures PerceptionValue("Perception -1") == Some(-1)
  {
    UnsignedListed();
    SignedListed();
  }

  lemma UnsignedListed()
    ensures FirstPerception("Perception 12", 0) == Some(11)
    ensures PerceptionAt("Perception 12", 11) == Some(12)
  {
    var s := "Perception 12";
    assert s[0..11] == PerceptionLabel && s[11] == '1' && s[12] == '2';
    assert DigitRun(s, 11) == 13;
    assert s[11..13] == "12";
    assert "12"[..1] == "1";
    assert DigitsValue("12") == 10 * DigitsValue("1") + 2;
    FirstPerceptionIs(s, 0, 11);
  }

  lemma SignedListed()
    ensures FirstPerception("Perception -1", 0) == Some(11)
    ensures PerceptionAt("Perception -1", 11) == Some(-1)
  {
    var t := "Perception -1";
    assert t[0..11] == PerceptionLabel && t[11] == '-' && t[12] == '1';
    assert DigitRun(t, 12) == 13;
    assert t[12..13] == "1";
    FirstPerceptionIs(t, 0, 11);
  }

  /**
    Wisdom 9 with nothing listed gives 0: the half is truncated toward
    zero (not rounded down to -1) and no base 10 is added.
  */
  lemma WisdomNineGivesZero(m: Match, prev: Option<int>)
    requires m.senses == Some("-") && m.skills.None? && m.wisdom == "9"
    ensures PassivePerception(m, prev) == Ok(0)
  {
    assert FirstPerception("-", 0).None?;
    assert IsDigits(m.wisdom) && DigitsValue(m.wisdom) == 9;
  }
}
