/**
  The Encounter Plus compendium built by convertDndHtmlStatBlocks.py:
  each record becomes a `monster` element, and the monsters are appended
  to a fresh `compendium` root or to the root of an existing compendium,
  skipping records whose name is already listed there.

  An ElementTree element is modelled as a value: tag, attributes, text
  and children in document order.
*/
module EncounterPlus {
  import opened Wrappers
  import opened Ascii
  import opened Text
  import opened ItemLists
  import opened Creatures

  datatype Element = Element(tag: string, attrs: map<string, string>, text: Option<string>, children: seq<Element>)

  /** A sub-element that holds only text. */
  function Leaf(tag: string, text: string): Element {
    Element(tag, map[], Some(text), [])
  }

  // ------------------------------------------------------------------ slug

  /** The `slug` field: the name in lower case, spaces turned into hyphens. */
  function Slug(name: string): string {
    ReplaceAll(Lower(name), " ", "-")
  }

  /** The slug is the name, character by character: lower-cased, a space becoming `-`. */
  lemma SlugPointwise(name: string)
    ensures |Slug(name)| == |name|
    ensures forall i :: 0 <= i < |name| ==> Slug(name)[i] == if name[i] == ' ' then '-' else LowerChar(name[i])
  {
    ReplaceCharPointwise(Lower(name), ' ', '-');
  }

  /** A slug has neither spaces nor upper-case letters. */
  lemma SlugClean(name: string)
    ensures forall i :: 0 <= i < |Slug(name)| ==> Slug(name)[i] != ' ' && !IsUpperChar(Slug(name)[i])
  {
    SlugPointwise(name);
  }

  /** Taking the slug of a slug changes nothing. */
  lemma SlugIdempotent(name: string)
    ensures Slug(Slug(name)) == Slug(name)
  {
    var s := Slug(name);
    SlugPointwise(name);
    SlugPointwise(s);
  }

  /** Names that differ only in letter case share a slug. */
  lemma SlugIgnoresCase(name: string)
    ensures Slug(Upper(name)) == Slug(name)
  {
    SlugPointwise(name);
    SlugPointwise(Upper(name));
    forall i | 0 <= i < |name| ensures Slug(Upper(name))[i] == Slug(name)[i] {
      LowerOfCase(name[i]);
    }
  }

  // ------------------------------------------------------- challenge rating

  predicate OpenParenAt(s: string, e: nat) {
    e + 2 <= |s| && s[e] == ' ' && s[e + 1] == '('
  }

  /** A rating as it is written: digits, or digits, `/` and digits. */
  predicate IsRating(t: string) {
    IsDigits(t) || exists k :: 0 < k < |t| && t[k] == '/' && IsDigits(t[..k]) && IsDigits(t[k + 1..])
  }

  /**
    `RATING_PATTERN` tried at `p`: greedy digits, an optional `/` and
    digits, then the lookahead ` (`; the end of the match, if any.
    Backtracking cannot help: any shorter run of digits is followed by a
    digit, which neither `/` nor ` (` can match.
  */
  function RatingAt(s: string, p: nat): (r: Option<nat>)
    requires p <= |s|
    ensures r.Some? ==> p < r.value <= |s| && OpenParenAt(s, r.value) && IsRating(s[p..r.value])
  {
    if p == |s| || !IsDigit(s[p]) then None
    else
      var e := DigitRun(s, p);
      if e + 1 < |s| && s[e] == '/' && IsDigit(s[e + 1]) then
        var f := DigitRun(s, e + 1);
        if OpenParenAt(s, f) then
          assert s[p..f][..e - p] == s[p..e] && s[p..f][e - p + 1..] == s[e + 1..f];
          Some(f)
        else None
      else if OpenParenAt(s, e) then Some(e) else None
  }

  /** `re.search(RATING_PATTERN, s)` from `p`: the leftmost start and its end. */
  function FirstRating(s: string, p: nat): (r: Option<(nat, nat)>)
    requires p <= |s|
    ensures r.Some? ==> p <= r.value.0 <= |s| && RatingAt(s, r.value.0) == Some(r.value.1)
    ensures r.Some? ==> forall q :: p <= q < r.value.0 ==> RatingAt(s, q).None?
    ensures r.None? ==> forall q :: p <= q <= |s| ==> RatingAt(s, q).None?
    decreases |s| - p
  {
    match RatingAt(s, p)
    case Some(e) => Some((p, e))
    case None => if p == |s| then None else FirstRating(s, p + 1)
  }

  /**
    The `cr` field: the rating found in the challenge line, or `0` when
    there is none; `None` where the search finds nothing and `.group()`
    fails on the missing match.
  */
  function CrValue(challenge: Option<string>): (r: Option<string>)
    ensures challenge.None? ==> r == Some("0")
    ensures challenge.Some? && r.Some? ==> IsRating(r.value) && Contains(challenge.value, r.value + " (")
    ensures challenge.Some? && r.Some? ==>
      exists q :: 0 <= q <= |challenge.value| && RatingAt(challenge.value, q) == Some(q + |r.value|) &&
        challenge.value[q..q + |r.value|] == r.value && forall p :: 0 <= p < q ==> RatingAt(challenge.value, p).None?
    ensures challenge.Some? && r.None? ==> forall q :: 0 <= q <= |challenge.value| ==> RatingAt(challenge.value, q).None?
  {
    match challenge
    case None => Some("0")
    case Some(ch) =>
      match FirstRating(ch, 0)
      case None => None
      case Some(m) =>
        var (q, e) := m;
        RatingFollowedByParen(ch, q, e);
        Some(ch[q..e])
  }

  /** A rating ending where ` (` begins occurs in the line together with it. */
  lemma RatingFollowedByParen(ch: string, q: nat, e: nat)
    requires q < e && OpenParenAt(ch, e)
    ensures Contains(ch, ch[q..e] + " (")
  {
    assert ch[q..e + 2] == ch[q..e] + ch[e..e + 2];
    assert OccursAt(ch, ch[q..e] + " (", q);
  }

  lemma CrExamples()
    ensures CrValue(Some("1/4 (50 XP)")) == Some("1/4")
    ensures CrValue(Some("10 (5,900 XP)")) == Some("10")
    ensures CrValue(None) == Some("0")
  {
    var a := "1/4 (50 XP)";
    assert DigitRun(a, 2) == 3 && DigitRun(a, 0) == 1;
    assert a[0..3] == "1/4";
    var b := "10 (5,900 XP)";
    assert DigitRun(b, 0) == 2;
    assert b[0..2] == "10";
  }

  /** A challenge line without any digits makes the conversion fail. */
  lemma CrMissing(ch: string)
    requires forall i :: 0 <= i < |ch| ==> !IsDigit(ch[i])
    ensures CrValue(Some(ch)).None?
  {
  }

  // ---------------------------------------------------------------- monster

  /** The keys of the per-monster dictionary. */
  datatype Key = NameKey | SizeKey | TypeKey | AlignmentKey | AcKey | HpKey | SpeedKey
    | StrKey | DexKey | ConKey | IntKey | WisKey | ChaKey | PassiveKey | RoleKey | SlugKey | CrKey

  /** The key as written, which is also the tag of its sub-element. */
  function KeyName(k: Key): (r: string)
    ensures |r| >= 2
  {
    match k
    case NameKey => "name" case SizeKey => "size" case TypeKey => "type"
    case AlignmentKey => "alignment" case AcKey => "ac" case HpKey => "hp"
    case SpeedKey => "speed" case StrKey => "str" case DexKey => "dex"
    case ConKey => "con" case IntKey => "int" case WisKey => "wis"
    case ChaKey => "cha" case PassiveKey => "passive" case RoleKey => "role"
    case SlugKey => "slug" case CrKey => "cr"
  }

  /** Recovers a key from the length and the first two letters of its name. */
  function KeyFromName(s: string): Key
    requires |s| >= 2
  {
    if |s| == 2 then (if s[0] == 'a' then AcKey else if s[0] == 'h' then HpKey else CrKey)
    else if |s| == 3 then
      (if s[0] == 's' then StrKey else if s[0] == 'd' then DexKey else if s[0] == 'i' then IntKey
       else if s[0] == 'w' then WisKey else if s[1] == 'o' then ConKey else ChaKey)
    else if |s| == 4 then
      (if s[0] == 'n' then NameKey else if s[0] == 't' then TypeKey else if s[0] == 'r' then RoleKey
       else if s[1] == 'i' then SizeKey else SlugKey)
    else if |s| == 5 then SpeedKey
    else if |s| == 7 then PassiveKey
    else AlignmentKey
  }

  /** Distinct keys have distinct names. */
  lemma KeyNameInjective(a: Key, b: Key)
    requires KeyName(a) == KeyName(b)
    ensures a == b
  {
    assert KeyFromName(KeyName(a)) == a;
    assert KeyFromName(KeyName(b)) == b;
  }

  predicate Distinct(ks: seq<Key>) {
    forall i, j :: 0 <= i < j < |ks| ==> ks[i] != ks[j]
  }

  /**
    An order in which the dictionary may list its keys: each key once.
    Python 2 does not fix this order, so it is a parameter of the model.
  */
  ghost predicate IsKeyOrder(ks: seq<Key>) {
    Distinct(ks) && forall k: Key :: k in ks
  }

  /** The value stored under `key`, as `str()` renders it. */
  function FieldValue(c: Creature, cr: string, key: Key): string {
    match key
    case NameKey => c.groups.name
    case SizeKey => c.metadataDict.sizeAbbreviated
    case TypeKey => c.metadataDict.creatureType
    case AlignmentKey => c.metadataDict.alignment
    case AcKey => c.groups.ac
    case HpKey => c.groups.hp
    case SpeedKey => c.groups.speed
    case StrKey => c.groups.strength
    case DexKey => c.groups.dexterity
    case ConKey => c.groups.constitution
    case IntKey => c.groups.intelligence
    case WisKey => c.groups.wisdom
    case ChaKey => c.groups.charisma
    case PassiveKey => IntToString(c.passivePerception)
    case RoleKey => "enemy"
    case SlugKey => Slug(c.groups.name)
    case CrKey => cr
  }

  function Fields(c: Creature, cr: string, ks: seq<Key>): seq<Element> {
    seq(|ks|, i requires 0 <= i < |ks| => Leaf(KeyName(ks[i]), FieldValue(c, cr, ks[i])))
  }

  /** `createXMLElementsFromDict`: the item's keys in sorted order, `name` before `text`. */
  function ItemElement(tag: string, item: Item): Element {
    Element(tag, map[], None, [Leaf("name", item.name), Leaf("text", item.text)])
  }

  function ItemElements(tag: string, items: seq<Item>): seq<Element> {
    seq(|items|, j requires 0 <= j < |items| => ItemElement(tag, items[j]))
  }

  function ItemGroup(tag: string, items: Option<seq<Item>>): seq<Element> {
    match items case None => [] case Some(its) => ItemElements(tag, its)
  }

  datatype XmlError = NoRating(name: string)

  /** `makeMonsterforEncounterPlus` with the identifier `id` and the dictionary's key order `ks`. */
  function MonsterElement(c: Creature, id: string, ks: seq<Key>): Result<Element, XmlError> {
    match CrValue(c.groups.challenge)
    case None => Err(NoRating(c.groups.name))
    case Some(cr) =>
      Ok(Element("monster", map["id" := id], None,
        Fields(c, cr, ks) + ItemGroup("trait", c.attributesArray) + ItemElements("action", c.actionsArray)
        + ItemGroup("reaction", c.reactionsArray) + ItemGroup("legendary", c.legendaryActionsArray)))
  }

  /** `children + ItemElements(tag, items)`, one `createXMLElementsFromDict` call per item. */
  method AppendItems(children: seq<Element>, tag: string, items: seq<Item>) returns (r: seq<Element>)
    ensures r == children + ItemElements(tag, items)
  {
    r := children;
    for j := 0 to |items|
      invariant r == children + ItemElements(tag, items[..j])
    {
      assert ItemElements(tag, items[..j + 1]) == ItemElements(tag, items[..j]) + [ItemElement(tag, items[j])];
      r := r + [ItemElement(tag, items[j])];
    }
    assert items[..|items|] == items;
  }

  method MakeMonster(c: Creature, id: string, ks: seq<Key>) returns (r: Result<Element, XmlError>)
    ensures r == MonsterElement(c, id, ks)
  {
    var cr := CrValue(c.groups.challenge);
    if cr.None? {
      return Err(NoRating(c.groups.name));
    }
    var children: seq<Element> := [];
    for i := 0 to |ks|
      invariant children == Fields(c, cr.value, ks[..i])
    {
      assert Fields(c, cr.value, ks[..i + 1]) == Fields(c, cr.value, ks[..i]) + [Leaf(KeyName(ks[i]), FieldValue(c, cr.value, ks[i]))];
      children := children + [Leaf(KeyName(ks[i]), FieldValue(c, cr.value, ks[i]))];
    }
    assert ks[..|ks|] == ks;
    var fields := children;
    if c.attributesArray.Some? {
      children := AppendItems(children, "trait", c.attributesArray.value);
    }
    assert children == fields + ItemGroup("trait", c.attributesArray);
    var traits := children;
    children := AppendItems(children, "action", c.actionsArray);
    var actions := children;
    if c.reactionsArray.Some? {
      children := AppendItems(children, "reaction", c.reactionsArray.value);
    }
    assert children == actions + ItemGroup("reaction", c.reactionsArray);
    var reactions := children;
    if c.legendaryActionsArray.Some? {
      children := AppendItems(children, "legendary", c.legendaryActionsArray.value);
    }
    assert children == reactions + ItemGroup("legendary", c.legendaryActionsArray);
    return Ok(Element("monster", map["id" := id], None, children));
  }

  /** ElementTree's `find`: the position of the first child with the tag. */
  function FindChild(cs: seq<Element>, tag: string): (r: Option<nat>)
    ensures r.Some? ==> r.value < |cs| && cs[r.value].tag == tag && forall j :: 0 <= j < r.value ==> cs[j].tag != tag
    ensures r.None? ==> forall j :: 0 <= j < |cs| ==> cs[j].tag != tag
    decreases |cs|
  {
    if cs == [] then None
    else if cs[0].tag == tag then Some(0)
    else match FindChild(cs[1..], tag) case None => None case Some(j) => Some(j + 1)
  }

  /** The first child tagged `key` holds the text `value`: what `find(key).text` reads. */
  predicate HasField(e: Element, key: string, value: string) {
    var f := FindChild(e.children, key);
    f.Some? && e.children[f.value].text == Some(value)
  }

  /** The monster's first child tagged with the key's name holds the value stored under it. */
  lemma MonsterFieldFound(c: Creature, id: string, ks: seq<Key>, e: Element, key: Key)
    requires IsKeyOrder(ks) && MonsterElement(c, id, ks) == Ok(e)
    ensures HasField(e, KeyName(key), FieldValue(c, CrValue(c.groups.challenge).value, key))
  {
    var cr := CrValue(c.groups.challenge).value;
    assert key in ks;
    var i :| 0 <= i < |ks| && ks[i] == key;
    assert e.children[i] == Leaf(KeyName(key), FieldValue(c, cr, key));
    forall j | 0 <= j < i ensures e.children[j].tag != KeyName(key) {
      assert e.children[j] == Leaf(KeyName(ks[j]), FieldValue(c, cr, ks[j]));
      if KeyName(ks[j]) == KeyName(key) { KeyNameInjective(ks[j], key); }
    }
    FindChildAt(e.children, KeyName(key), i);
  }

  lemma FindChildAt(cs: seq<Element>, tag: string, i: nat)
    requires i < |cs| && cs[i].tag == tag && forall j :: 0 <= j < i ==> cs[j].tag != tag
    ensures FindChild(cs, tag) == Some(i)
  {
  }

  /**
    Read back by tag, the monster holds the record's values: the
    one-letter size, the lower-case hyphenated slug, the role `enemy`,
    the rating and the passive perception as a decimal numeral. Its only
    attribute is `id`; it has no `slug` attribute.
  */
  lemma MonsterFields(c: Creature, id: string, ks: seq<Key>, e: Element)
    requires IsKeyOrder(ks) && MonsterElement(c, id, ks) == Ok(e)
    ensures e.tag == "monster" && e.attrs == map["id" := id]
    ensures HasField(e, "slug", Slug(c.groups.name))
    ensures HasField(e, "size", c.metadataDict.sizeAbbreviated)
    ensures HasField(e, "role", "enemy")
    ensures HasField(e, "cr", CrValue(c.groups.challenge).value)
    ensures HasField(e, "passive", IntToString(c.passivePerception))
  {
    var cr := CrValue(c.groups.challenge).value;
    MonsterFieldFound(c, id, ks, e, SlugKey);
    FieldRead(c, cr, e, SlugKey);
    MonsterFieldFound(c, id, ks, e, SizeKey);
    FieldRead(c, cr, e, SizeKey);
    MonsterFieldFound(c, id, ks, e, RoleKey);
    FieldRead(c, cr, e, RoleKey);
    MonsterFieldFound(c, id, ks, e, CrKey);
    FieldRead(c, cr, e, CrKey);
    MonsterFieldFound(c, id, ks, e, PassiveKey);
    FieldRead(c, cr, e, PassiveKey);
  }

  lemma FieldRead(c: Creature, cr: string, e: Element, key: Key)
    requires HasField(e, KeyName(key), FieldValue(c, cr, key))
    ensures key == SlugKey ==> HasField(e, "slug", Slug(c.groups.name))
    ensures key == SizeKey ==> HasField(e, "size", c.metadataDict.sizeAbbreviated)
    ensures key == RoleKey ==> HasField(e, "role", "enemy")
    ensures key == CrKey ==> HasField(e, "cr", cr)
    ensures key == PassiveKey ==> HasField(e, "passive", IntToString(c.passivePerception))
  {
  }

  /** One child per key, then one per trait, action, reaction and legendary action. */
  lemma MonsterSize(c: Creature, id: string, ks: seq<Key>)
    requires MonsterElement(c, id, ks).Ok?
    ensures |MonsterElement(c, id, ks).value.children| ==
      |ks| + |ItemGroup("trait", c.attributesArray)| + |c.actionsArray|
      + |ItemGroup("reaction", c.reactionsArray)| + |ItemGroup("legendary", c.legendaryActionsArray)|
    ensures c.attributesArray.Some? ==> |ItemGroup("trait", c.attributesArray)| == |c.attributesArray.value|
    ensures c.reactionsArray.Some? ==> |ItemGroup("reaction", c.reactionsArray)| == |c.reactionsArray.value|
    ensures c.legendaryActionsArray.Some? ==> |ItemGroup("legendary", c.legendaryActionsArray)| == |c.legendaryActionsArray.value|
  {
  }

  // ------------------------------------------------------------ compendium

  /** The `slug` attribute, if set, of every `monster` element, the root included, in document order. */
  function Slugs(e: Element): seq<Option<string>>
    decreases e, |e.children| + 1
  {
    (if e.tag == "monster" then [if "slug" in e.attrs then Some(e.attrs["slug"]) else None] else [])
    + SlugsFrom(e, 0)
  }

  function SlugsFrom(e: Element, i: nat): seq<Option<string>>
    decreases e, |e.children| - i
  {
    if i >= |e.children| then [] else Slugs(e.children[i]) + SlugsFrom(e, i + 1)
  }

  /** The root that monsters are appended to. */
  function Root(prior: Option<Element>): Element {
    match prior case None => Element("compendium", map[], None, []) case Some(root) => root
  }

  /** The names already in the compendium. */
  function Listed(prior: Option<Element>): seq<Option<string>> {
    match prior case None => [] case Some(root) => Slugs(root)
  }

  /** The positions of the records whose name is not listed, in order. */
  function NewIndices(cs: seq<Creature>, listed: seq<Option<string>>): (r: seq<nat>)
    ensures forall j :: 0 <= j < |r| ==> r[j] < |cs|
    ensures forall j, k :: 0 <= j < k < |r| ==> r[j] < r[k]
    ensures forall i :: 0 <= i < |cs| ==> (i in r <==> Some(NameOf(cs[i])) !in listed)
    decreases |cs|
  {
    if cs == [] then []
    else
      var rest := NewIndices(cs[..|cs| - 1], listed);
      rest + (if Some(NameOf(cs[|cs| - 1])) !in listed then [|cs| - 1] else [])
  }

  /** One turn of the loop: append the monster for `c` unless its name is listed. */
  function AddOne(acc: Result<seq<Element>, XmlError>, c: Creature, id: string, listed: seq<Option<string>>, ks: seq<Key>): Result<seq<Element>, XmlError> {
    match acc
    case Err(_) => acc
    case Ok(done) =>
      if Some(NameOf(c)) in listed then acc
      else
        match MonsterElement(c, id, ks)
        case Err(e) => Err(e)
        case Ok(m) => Ok(done + [m])
  }

  /** The monsters appended for the records `cs`, the `i`-th given the identifier `ids(i)`. */
  function Added(cs: seq<Creature>, listed: seq<Option<string>>, ids: nat -> string, ks: seq<Key>): Result<seq<Element>, XmlError>
    decreases |cs|
  {
    if cs == [] then Ok([])
    else AddOne(Added(cs[..|cs| - 1], listed, ids, ks), cs[|cs| - 1], ids(|cs| - 1), listed, ks)
  }

  lemma AddedSnoc(cs: seq<Creature>, i: nat, listed: seq<Option<string>>, ids: nat -> string, ks: seq<Key>)
    requires i < |cs|
    ensures Added(cs[..i + 1], listed, ids, ks) == AddOne(Added(cs[..i], listed, ids, ks), cs[i], ids(i), listed, ks)
  {
    assert cs[..i + 1][..i] == cs[..i];
  }

  /** `generateXMLforEncounterPlus`. */
  function Compendium(cs: seq<Creature>, prior: Option<Element>, ids: nat -> string, ks: seq<Key>): Result<Element, XmlError> {
    var root := Root(prior);
    match Added(cs, Listed(prior), ids, ks)
    case Err(e) => Err(e)
    case Ok(added) => Ok(root.(children := root.children + added))
  }

  /** Once a prefix fails, the whole run fails with the same error. */
  lemma {:induction false} AddedStops(cs: seq<Creature>, n: nat, listed: seq<Option<string>>, ids: nat -> string, ks: seq<Key>)
    requires n <= |cs| && Added(cs[..n], listed, ids, ks).Err?
    ensures Added(cs, listed, ids, ks) == Added(cs[..n], listed, ids, ks)
    decreases |cs| - n
  {
    if n < |cs| {
      var init := cs[..|cs| - 1];
      assert init[..n] == cs[..n];
      AddedStops(init, n, listed, ids, ks);
    } else {
      assert cs[..n] == cs;
    }
  }

  method GenerateXml(cs: seq<Creature>, prior: Option<Element>, ids: nat -> string, ks: seq<Key>) returns (r: Result<Element, XmlError>)
    ensures r == Compendium(cs, prior, ids, ks)
  {
    var root := Root(prior);
    var listed := Listed(prior);
    var added: seq<Element> := [];
    for i := 0 to |cs|
      invariant Added(cs[..i], listed, ids, ks) == Ok(added)
    {
      AddedSnoc(cs, i, listed, ids, ks);
      if Some(NameOf(cs[i])) !in listed {
        var m := MakeMonster(cs[i], ids(i), ks);
        if m.Err? {
          AddedStops(cs, i + 1, listed, ids, ks);
          return Err(m.error);
        }
        added := added + [m.value];
      }
    }
    assert cs[..|cs|] == cs;
    return Ok(root.(children := root.children + added));
  }

  // ------------------------------------------------------------ properties

  /**
    Appended, in order, is one monster per unlisted record, made from that
    record and its identifier.
  */
  lemma {:induction false} AddedAre(cs: seq<Creature>, listed: seq<Option<string>>, ids: nat -> string, ks: seq<Key>)
    requires Added(cs, listed, ids, ks).Ok?
    ensures var added := Added(cs, listed, ids, ks).value; var idx := NewIndices(cs, listed);
      |added| == |idx| &&
      forall j :: 0 <= j < |idx| ==> MonsterElement(cs[idx[j]], ids(idx[j]), ks) == Ok(added[j])
    decreases |cs|
  {
    if cs != [] {
      var n := |cs| - 1;
      var init, last := cs[..n], cs[n];
      assert cs == init + [last];
      AddedInitOk(cs, init, last, listed, ids, ks);
      AddedAre(init, listed, ids, ks);
      var prev := Added(init, listed, ids, ks).value;
      AddedAreStep(cs, init, last, listed, ids, ks, prev);
      var idx0 := NewIndices(init, listed);
      forall j | 0 <= j < |idx0| ensures cs[idx0[j]] == init[idx0[j]] { }
    }
  }

  lemma AddedInitOk(cs: seq<Creature>, init: seq<Creature>, last: Creature, listed: seq<Option<string>>, ids: nat -> string, ks: seq<Key>)
    requires cs == init + [last] && Added(cs, listed, ids, ks).Ok?
    ensures Added(init, listed, ids, ks).Ok?
  {
    assert cs[..|cs| - 1] == init;
  }

  /** One more record: either nothing is appended, or its monster is, at its own index. */
  lemma AddedAreStep(cs: seq<Creature>, init: seq<Creature>, last: Creature, listed: seq<Option<string>>,
                     ids: nat -> string, ks: seq<Key>, prev: seq<Element>)
    requires cs == init + [last] && Added(init, listed, ids, ks) == Ok(prev) && Added(cs, listed, ids, ks).Ok?
    ensures Some(NameOf(last)) in listed ==>
      Added(cs, listed, ids, ks).value == prev && NewIndices(cs, listed) == NewIndices(init, listed)
    ensures Some(NameOf(last)) !in listed ==>
      MonsterElement(last, ids(|init|), ks).Ok? &&
      Added(cs, listed, ids, ks).value == prev + [MonsterElement(last, ids(|init|), ks).value] &&
      NewIndices(cs, listed) == NewIndices(init, listed) + [|init|]
  {
    assert cs[..|cs| - 1] == init;
  }

  /** A record that is not listed yet and whose challenge line has no rating. */
  predicate Failing(c: Creature, listed: seq<Option<string>>) {
    Some(NameOf(c)) !in listed && CrValue(c.groups.challenge).None?
  }

  /** The run fails exactly when some unlisted record has a challenge line without a rating. */
  lemma {:induction false} AddedFails(cs: seq<Creature>, listed: seq<Option<string>>, ids: nat -> string, ks: seq<Key>)
    ensures Added(cs, listed, ids, ks).Err? <==> exists i :: 0 <= i < |cs| && Failing(cs[i], listed)
    decreases |cs|
  {
    if cs != [] {
      var init := cs[..|cs| - 1];
      AddedFails(init, listed, ids, ks);
      AddOneFails(Added(init, listed, ids, ks), cs[|cs| - 1], ids(|cs| - 1), listed, ks);
      FailingSnoc(cs, init, listed);
    }
  }

  lemma AddOneFails(acc: Result<seq<Element>, XmlError>, c: Creature, id: string, listed: seq<Option<string>>, ks: seq<Key>)
    ensures AddOne(acc, c, id, listed, ks).Err? <==> acc.Err? || Failing(c, listed)
  {
  }

  lemma FailingSnoc(cs: seq<Creature>, init: seq<Creature>, listed: seq<Option<string>>)
    requires cs != [] && init == cs[..|cs| - 1]
    ensures (exists i :: 0 <= i < |cs| && Failing(cs[i], listed)) <==>
      (exists i :: 0 <= i < |init| && Failing(init[i], listed)) || Failing(cs[|cs| - 1], listed)
  {
    if exists i :: 0 <= i < |init| && Failing(init[i], listed) {
      var i :| 0 <= i < |init| && Failing(init[i], listed);
      assert cs[i] == init[i];
    }
    if exists i :: 0 <= i < |cs| && Failing(cs[i], listed) {
      var i :| 0 <= i < |cs| && Failing(cs[i], listed);
      if i < |init| { assert init[i] == cs[i]; }
    }
  }

  /** Merging keeps the root and everything already in it, and appends after it. */
  lemma MergeKeepsPrior(cs: seq<Creature>, root: Element, ids: nat -> string, ks: seq<Key>)
    requires Compendium(cs, Some(root), ids, ks).Ok?
    ensures var r := Compendium(cs, Some(root), ids, ks).value;
      r.tag == root.tag && r.attrs == root.attrs && r.text == root.text &&
      |r.children| == |root.children| + |NewIndices(cs, Slugs(root))| &&
      r.children[..|root.children|] == root.children
  {
    AddedAre(cs, Slugs(root), ids, ks);
    var r := Compendium(cs, Some(root), ids, ks).value;
    assert r.children[..|root.children|] == root.children;
  }

  /** Without a compendium to merge into, every record becomes a monster of a new `compendium`. */
  lemma FreshCompendium(cs: seq<Creature>, ids: nat -> string, ks: seq<Key>)
    requires Compendium(cs, None, ids, ks).Ok?
    ensures var r := Compendium(cs, None, ids, ks).value;
      r.tag == "compendium" && |r.children| == |cs| &&
      forall i :: 0 <= i < |cs| ==> MonsterElement(cs[i], ids(i), ks) == Ok(r.children[i])
  {
    FreshRoot(cs, ids, ks);
    AddedAre(cs, [], ids, ks);
    NothingListed(cs, []);
    AddedInOrder(cs, Added(cs, [], ids, ks).value, NewIndices(cs, []), ids, ks);
  }

  /** Without a prior document, the monsters added are the children of a new `compendium` root. */
  lemma FreshRoot(cs: seq<Creature>, ids: nat -> string, ks: seq<Key>)
    ensures Compendium(cs, None, ids, ks) ==
      match Added(cs, [], ids, ks) case Err(e) => Err(e) case Ok(a) => Ok(Element("compendium", map[], None, a))
  {
    match Added(cs, [], ids, ks)
    case Err(_) =>
    case Ok(a) => assert [] + a == a;
  }

  /** When every record is added, the `j`-th monster is the `j`-th record's. */
  lemma AddedInOrder(cs: seq<Creature>, added: seq<Element>, idx: seq<nat>, ids: nat -> string, ks: seq<Key>)
    requires idx == seq(|cs|, i => i) && |added| == |idx|
    requires forall j :: 0 <= j < |idx| ==> idx[j] < |cs| && MonsterElement(cs[idx[j]], ids(idx[j]), ks) == Ok(added[j])
    ensures |added| == |cs| && forall i :: 0 <= i < |cs| ==> MonsterElement(cs[i], ids(i), ks) == Ok(added[i])
  {
    forall i | 0 <= i < |cs| ensures MonsterElement(cs[i], ids(i), ks) == Ok(added[i]) {
      assert idx[i] == i;
    }
  }

  /** When no record's name is listed, every record is new. */
  lemma {:induction false} NothingListed(cs: seq<Creature>, listed: seq<Option<string>>)
    requires forall i :: 0 <= i < |cs| ==> Some(NameOf(cs[i])) !in listed
    ensures NewIndices(cs, listed) == seq(|cs|, i => i)
    decreases |cs|
  {
    if cs != [] {
      NothingListed(cs[..|cs| - 1], listed);
    }
  }

  // ------------------------------------------- re-merging the own output

  /** Only missing `slug` attributes. */
  predicate NoneOnly(xs: seq<Option<string>>) {
    forall k :: 0 <= k < |xs| ==> xs[k].None?
  }

  /** Neither the element nor its children are monsters, and its children have no children. */
  predicate Flat(e: Element) {
    e.tag != "monster" && forall j :: 0 <= j < |e.children| ==> e.children[j].tag != "monster" && e.children[j].children == []
  }

  lemma {:induction false} SlugsFromEmpty(e: Element, i: nat)
    requires forall j :: i <= j < |e.children| ==> Slugs(e.children[j]) == []
    ensures SlugsFrom(e, i) == []
    decreases |e.children| - i
  {
    if i < |e.children| {
      SlugsFromEmpty(e, i + 1);
    }
  }

  lemma {:induction false} SlugsFromNone(e: Element, i: nat)
    requires forall j :: i <= j < |e.children| ==> NoneOnly(Slugs(e.children[j]))
    ensures NoneOnly(SlugsFrom(e, i))
    decreases |e.children| - i
  {
    if i < |e.children| {
      SlugsFromNone(e, i + 1);
    }
  }

  lemma FlatNoSlugs(e: Element)
    requires Flat(e)
    ensures Slugs(e) == []
  {
    forall j | 0 <= j < |e.children| ensures Slugs(e.children[j]) == [] {
      SlugsFromEmpty(e.children[j], 0);
    }
    SlugsFromEmpty(e, 0);
  }

  lemma KeyNotMonster(k: Key)
    ensures KeyName(k) != "monster"
  {
    if k == PassiveKey { assert KeyName(k)[0] != "monster"[0]; }
  }

  /** Every child of a converted monster is a field or an item, and none of them is a monster. */
  lemma MonsterChildrenFlat(c: Creature, id: string, ks: seq<Key>, e: Element)
    requires MonsterElement(c, id, ks) == Ok(e)
    ensures forall j :: 0 <= j < |e.children| ==> Flat(e.children[j])
  {
    var cr := CrValue(c.groups.challenge).value;
    var fields := Fields(c, cr, ks);
    forall j | 0 <= j < |fields| ensures Flat(fields[j]) {
      KeyNotMonster(ks[j]);
    }
    var t := ItemGroup("trait", c.attributesArray);
    var a := ItemElements("action", c.actionsArray);
    var r := ItemGroup("reaction", c.reactionsArray);
    var l := ItemGroup("legendary", c.legendaryActionsArray);
    assert forall j :: 0 <= j < |t| ==> Flat(t[j]);
    assert forall j :: 0 <= j < |a| ==> Flat(a[j]);
    assert forall j :: 0 <= j < |r| ==> Flat(r[j]);
    assert forall j :: 0 <= j < |l| ==> Flat(l[j]);
    FlatConcat(fields, t);
    FlatConcat(fields + t, a);
    FlatConcat(fields + t + a, r);
    FlatConcat(fields + t + a + r, l);
  }

  lemma FlatConcat(a: seq<Element>, b: seq<Element>)
    requires forall j :: 0 <= j < |a| ==> Flat(a[j])
    requires forall j :: 0 <= j < |b| ==> Flat(b[j])
    ensures forall j :: 0 <= j < |a + b| ==> Flat((a + b)[j])
  {
  }

  /** A converted monster lists one name for the duplicate check, and it is missing. */
  lemma MonsterSlugs(c: Creature, id: string, ks: seq<Key>, e: Element)
    requires MonsterElement(c, id, ks) == Ok(e)
    ensures Slugs(e) == [None]
  {
    MonsterChildrenFlat(c, id, ks, e);
    forall j | 0 <= j < |e.children| ensures Slugs(e.children[j]) == [] {
      FlatNoSlugs(e.children[j]);
    }
    SlugsFromEmpty(e, 0);
  }

  /**
    The duplicate check compares names with `slug` attributes, which the
    converter never writes: a compendium it produced lists no names.
  */
  lemma OwnOutputListsNothing(cs: seq<Creature>, ids: nat -> string, ks: seq<Key>, r: Element)
    requires Compendium(cs, None, ids, ks) == Ok(r)
    ensures NoneOnly(Slugs(r))
  {
    FreshCompendium(cs, ids, ks);
    forall j | 0 <= j < |r.children| ensures NoneOnly(Slugs(r.children[j])) {
      MonsterSlugs(cs[j], ids(j), ks, r.children[j]);
    }
    assert r.tag != "monster";
    RootSlugsNone(r);
  }

  /** An element that is not a monster lists only what its children list. */
  lemma RootSlugsNone(r: Element)
    requires r.tag != "monster" && forall j :: 0 <= j < |r.children| ==> NoneOnly(Slugs(r.children[j]))
    ensures NoneOnly(Slugs(r))
  {
    SlugsFromNone(r, 0);
    assert Slugs(r) == [] + SlugsFrom(r, 0);
  }

  lemma SlugListedNowhere(c: Creature, listed: seq<Option<string>>)
    requires NoneOnly(listed)
    ensures Some(NameOf(c)) !in listed
  {
  }

  /** So merging the same records into the converter's own compendium adds every monster a second time. */
  lemma RemergeDuplicates(cs: seq<Creature>, ids: nat -> string, ids2: nat -> string, ks: seq<Key>, r: Element)
    requires Compendium(cs, None, ids, ks) == Ok(r)
    ensures Compendium(cs, Some(r), ids2, ks).Ok?
    ensures |Compendium(cs, Some(r), ids2, ks).value.children| == 2 * |cs|
  {
    FreshCompendium(cs, ids, ks);
    OwnOutputListsNothing(cs, ids, ks, r);
    var listed := Slugs(r);
    AddedFails(cs, [], ids, ks);
    AddedFails(cs, listed, ids2, ks);
    forall i | 0 <= i < |cs| ensures Failing(cs[i], listed) == Failing(cs[i], []) {
      SlugListedNowhere(cs[i], listed);
    }
    NothingListed(cs, listed);
    MergeKeepsPrior(cs, r, ids2, ks);
  }
}
