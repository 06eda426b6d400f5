# Stat-block converter and case-preserving replacer, modelled in Dafny

This project models two text-processing scripts and proves properties of
the model.

**The stat-block converter** (`convertDndHtmlStatBlocks.py`) turns saved
HTML pages of monster stat blocks into records, then emits the records in
one of three forms: an Encounter Plus compendium, a CSV table or a
plain-text report. The model covers the steps between reading the files
and writing the output:

- the file list of `--files`, where a back-slash escapes a space;
- tag stripping, removal of "line break + `&nbsp;`" and the nine-entry
  entity table (`preprocessHtml`; module `Preprocess`);
- splitting itemised sections into `{name, text}` items (`ITEM_PATTERN`,
  `createItemList`; module `ItemLists`);
- building each record: the metadata line parsed into size, abbreviation,
  type and alignment, the passive perception, and the sort by name
  (`createDictFromData`; modules `Creatures` and `StableSort`);
- the Encounter Plus `monster` element, with its slug and challenge
  rating, and the merge into a new or existing compendium
  (`makeMonsterforEncounterPlus`, `createXMLElementsFromDict`,
  `generateXMLforEncounterPlus`; module `EncounterPlus`);
- the CSV rows (`generateCSV`; module `CsvTable`);
- the plain-text report (`generateItemsText`, `generatePlainText`;
  module `Report`).

**The replacer** (`textReplacer.py`; module `TextReplacer`) reads
before/after pairs from CSV rows, optionally reversed. It then replaces
each key in turn throughout a text:

- a plain key is replaced only as a whole word;
- a key ending in `*` is replaced wherever it occurs, even inside a word;
- the search ignores case, and each replacement takes the case pattern of
  the text it replaces.

The shared modules are:

- `Wrappers`: `Option` and `Result`;
- `Ascii`: ASCII letter case, digits and word characters;
- `Text`: literal `str.replace`, which scans left to right without overlap,
  plus `str.split` on one character and its inverse join.

## How the source is represented

- **Regular expressions** are written as functions that say where the
  pattern matches. What is proved about each:
  - `CRUFT_PATTERN`: a tag ends at the first `>` it may take
    (`TagEnd`), and no tag is left after stripping
    (`StripTagsLeavesNoTag`);
  - `ITEM_PATTERN`: every match has the pattern's shape
    (`FindItemsValid`), the first match is the leftmost one
    (`FindItemsLeftmost`), and no match means none anywhere
    (`FindItemsExhaust`);
  - `METADATA_PATTERN`, applied with `re.match` at the start of the line:
    the match stays on the first line (`FirstLine`), the greedy groups
    split at the last `, ` (`SplitKind`), and a well-formed line parses
    into exactly its parts (`MetadataRoundTrip`);
  - `RATING_PATTERN` and `PERCEPTION_PATTERN` under `re.search`: the
    position found is the leftmost one, and none found means none
    anywhere (`FirstRating`, `CrValue`, `FirstPerception`);
  - the replacer's keys: a `\b`-bounded key matches exactly a whole word
    (`WholeWordMatch`); the `re.sub` scan copies the text up to the first
    match (`SubCopiesToFirstMatch`); and with the wildcard it is
    `str.replace` up to case (`WildcardIsReplace`).
- **The two large patterns are inputs.** `CREATURE_PATTERN` enters the
  model as the named groups of each match (`Creatures.Match`).
  `KEEP_PATTERN` enters as a function from a text to the span of its match
  (`keep`).
- **Loops in the source are methods.** Each method is proved to compute a
  specification function, and the properties are proved about that
  function. Examples:
  - `PreprocessHtml` computes `CleanFiles`;
  - `CreateItemList` computes `Items`;
  - `CreateDictFromData` computes `SortedRecords`;
  - `GenerateXml` computes `Compendium`;
  - `GenerateCsv` computes `Table`;
  - `PlainText` computes `PlainReport`;
  - `ReadReplacements` computes `TableOf`;
  - `ReplaceStrings` computes `ReplaceAllMappings`.
- **The replacer's hit counter** is a one-cell `array<nat>` that
  `ReplaceMatch` and `Substitute` update in place, as the source's `count`
  list is.
- **Raised exceptions become `Err` values** (or `None`), and the first
  error ends the run as it does in the source. The failures modelled are:
  - a file that cannot be read;
  - a page with no stat-block region;
  - a metadata line the pattern rejects;
  - a record with no senses and no earlier record;
  - a wisdom score that is not a digit string (no real match has one, since
    the pattern's `wisdom` group is `[0-9]+`; the model is also stricter than
    `float`, which takes `"+9"` or `"9.5"`);
  - a challenge with no rating;
  - a CSV row without one of the two columns;
  - an index into an empty string in `replaceMatch`;
  - a pattern that matches the empty string.
- **Python 2 dictionary order is a parameter.** In the converter this is
  the order of the entity table and the order of the monster's 17 keys.
  The proofs hold for every such order.
- **The `uuid4` identifiers are a parameter.** They are given as a
  function `ids` from the record's position to an identifier.

## Behaviour worth knowing

These follow the code; some are not what the comments or the help text
suggest.

**Passive perception**
- It is `int((wisdom - 10) / 2.0)` plus the skill bonus. The division
  truncates toward zero and no base of 10 is added, so wisdom 9 gives
  0 (`Creatures.WisdomNineGivesZero`).
- When a match has no senses, line 125 reuses the previous record's
  value. For the first record that is an error
  (`Creatures.StalePerception`).

**Compendium merge**
- Names already in the compendium are read from a `slug` *attribute* of
  each `monster` (source line 222). The emitter writes the slug as a
  child element and never as an attribute. The check at line 226 also
  compares the creature's name, not its slug.
- So merging a run into the compendium it produced earlier adds every
  monster a second time (`EncounterPlus.RemergeDuplicates`).

**Challenge rating**
- When `challenge` is present but holds no rating followed by ` (`,
  the call to `.group()` at line 182 fails (`EncounterPlus.CrMissing`).

**Preprocessing**
- Tags are stripped before `"\n&nbsp;"` is deleted. A tag split by such
  a sequence therefore survives stripping and is joined afterwards
  (`Preprocess.TagCanSurviveCleanup`).
- Each file is cleaned on its own. An entity split across two files is
  created by the concatenation and is never replaced
  (`Preprocess.EntityAcrossFiles`).

**Item lists**
- A line that starts like a title (a `.` within its first 46 characters)
  but has no `. ` ends the previous item. It starts no item of its own,
  so its text is lost (`ItemLists.LineDropped`).

**Emitters**
- The CSV has no `hp` and no passive-perception column
  (`CsvTable.NoHitPointsColumn`).
- The report's ability line has no WIS and lists INT before CON
  (`Report.ReportIgnoresWisdom`).

**Replacer**
- In the mixed-case branch an empty match or an empty `after` is an
  error (`TextReplacer.CaseExamples`).
- The key `*` gives an empty pattern, and replacing it fails.
- The empty plain key gives `\b\b`, and replacing it fails exactly when
  the text has a word character (`TextReplacer.EmptyKeys`).
- When rows share a key, the later row's value wins
  (`TextReplacer.TableLaterWins`). The key keeps the position of its first
  row (`TextReplacer.Put`).
- The `reverse` flag only swaps the columns when the table is read. In
  `replaceStrings` it only changes a log message.

## Model

| member | source | states |
|---|---|---|
| Preprocess.EscapedSpace | convertDndHtmlStatBlocks/convertDndHtmlStatBlocks.py:41-45 | a back-slash before a space keeps both halves in one file name, and the space is restored |
| Preprocess.FileNames | convertDndHtmlStatBlocks/convertDndHtmlStatBlocks.py:41-45 | the `--files` argument, split at unescaped spaces, gives at least one name; `EscapedSpace` and `FileNamesPlain` state its content |
| Preprocess.FileNamesPlain | convertDndHtmlStatBlocks/convertDndHtmlStatBlocks.py:41-45 | without back-slashes or `&`, the file list is the argument split at every space |
| Text.Split | convertDndHtmlStatBlocks/convertDndHtmlStatBlocks.py:43 | `s.split(c)`: never empty; `JoinSplit` and `SplitJoin` state that it is undone by the join with `c` |
| Text.JoinSplit | convertDndHtmlStatBlocks/convertDndHtmlStatBlocks.py:43 | joining the pieces of `split(" ")` with spaces gives the text back |
| Text.SplitJoin | convertDndHtmlStatBlocks/convertDndHtmlStatBlocks.py:43 | splitting a join of space-free pieces gives the pieces back |
| Preprocess.TagEnd | convertDndHtmlStatBlocks/convertDndHtmlStatBlocks.py:19 | a tag at the front ends at the first `>` after at least one character on the same line; `None` exactly when no tag starts there |
| Preprocess.StripTags | convertDndHtmlStatBlocks/convertDndHtmlStatBlocks.py:55 | `re.sub(CRUFT_PATTERN, "", s)`, deleting each tag left to right; the result is never longer than the text, and `StripTagsLeavesNoTag` proves that no tag remains |
| Preprocess.StripTagsLeavesNoTag | convertDndHtmlStatBlocks/convertDndHtmlStatBlocks.py:55 | after stripping, no tag remains anywhere in the text |
| Preprocess.StripTagsNoOpener | convertDndHtmlStatBlocks/convertDndHtmlStatBlocks.py:55 | a text without `<` is not changed by stripping |
| Preprocess.Clip | convertDndHtmlStatBlocks/convertDndHtmlStatBlocks.py:58 | the kept region is a substring of the stripped text |
| Preprocess.BreakCleanupCanLeaveOne | convertDndHtmlStatBlocks/convertDndHtmlStatBlocks.py:61 | one pass of the line-break clean-up can leave a `"\n&nbsp;"` behind |
| Preprocess.ReplaceEntities | convertDndHtmlStatBlocks/convertDndHtmlStatBlocks.py:64-67 | the loop applies each entry of the table in the given order |
| Preprocess.ApplyTable | convertDndHtmlStatBlocks/convertDndHtmlStatBlocks.py:64-67 | the entity replacements applied one after another in the given order; no contract of its own, and `ApplyTableClears`, `NoEntityLeft` and `ShortUntouched` state what it leaves |
| Preprocess.OrderOfTable | convertDndHtmlStatBlocks/convertDndHtmlStatBlocks.py:64-65 | any order of the table holds every entry, and in each entry the name is made of name characters and the value of none |
| Preprocess.ApplyTableClears | convertDndHtmlStatBlocks/convertDndHtmlStatBlocks.py:65-67 | for a table of separate entries, no name remains after the replacements, whatever the order |
| Preprocess.NoEntityLeft | convertDndHtmlStatBlocks/convertDndHtmlStatBlocks.py:64-67 | none of the nine entity names remains, for every order of the table |
| Preprocess.NoBreakLeft | convertDndHtmlStatBlocks/convertDndHtmlStatBlocks.py:61-67 | no `"\n&nbsp;"` remains once the table has been applied |
| Preprocess.ShortUntouched | convertDndHtmlStatBlocks/convertDndHtmlStatBlocks.py:64-67 | a text shorter than every entity name is not changed by the table |
| Preprocess.CleanFile | convertDndHtmlStatBlocks/convertDndHtmlStatBlocks.py:55-67 | one file's text fails exactly when the keep search fails, and otherwise holds no entity name and no `"\n&nbsp;"` |
| Preprocess.CleanOne | convertDndHtmlStatBlocks/convertDndHtmlStatBlocks.py:48-67 | the per-file steps compute `CleanFile` |
| Preprocess.CleanFiles | convertDndHtmlStatBlocks/convertDndHtmlStatBlocks.py:43-70 | the cleaned files concatenated in order; an error always names one of the files, and `CleanFilesSnoc` and `CleanFilesStops` state the rest |
| Preprocess.CleanFilesSnoc | convertDndHtmlStatBlocks/convertDndHtmlStatBlocks.py:43-70 | one more file either stops the run (unreadable, or no stat blocks) or appends its cleaned text |
| Preprocess.CleanFilesStops | convertDndHtmlStatBlocks/convertDndHtmlStatBlocks.py:43-70 | after the first failing file, the later files change nothing |
| Preprocess.PreprocessHtml | convertDndHtmlStatBlocks/convertDndHtmlStatBlocks.py:38-74 | the whole loop computes `CleanFiles` over the file list |
| Preprocess.PlainFilesJoin | convertDndHtmlStatBlocks/convertDndHtmlStatBlocks.py:43-70 | two plain files give their texts concatenated in order |
| Preprocess.PlainShortClean | convertDndHtmlStatBlocks/convertDndHtmlStatBlocks.py:55-67 | one short plain text is kept as it is |
| Preprocess.TagCanSurviveCleanup | convertDndHtmlStatBlocks/convertDndHtmlStatBlocks.py:55-61 | a tag broken by `"\n&nbsp;"` survives stripping and is joined into a whole tag |
| Preprocess.EntityAcrossFiles | convertDndHtmlStatBlocks/convertDndHtmlStatBlocks.py:64-70 | `&minus;` split across two files appears, unreplaced, in the joined result |
| Text.ReplaceAll | convertDndHtmlStatBlocks/convertDndHtmlStatBlocks.py:61-67 | `s.replace(p, r)` for a non-empty `p`, every non-overlapping occurrence replaced left to right; no contract of its own, and `ReplaceAbsent` and `ReplaceLeavesNone` state what it leaves |
| Text.ReplaceAbsent | convertDndHtmlStatBlocks/convertDndHtmlStatBlocks.py:61-67 | a literal replacement of a pattern that does not occur changes nothing |
| Text.ReplaceLeavesNone | convertDndHtmlStatBlocks/convertDndHtmlStatBlocks.py:67 | replacing with a value that shares no character with `q` leaves no `q`, when `q` is the pattern or does not occur |
| ItemLists.TitleFrom | convertDndHtmlStatBlocks/convertDndHtmlStatBlocks.py:17 | the title is the longest run of at most 45 characters without a line break that is followed by `. ` |
| ItemLists.DescEnd | convertDndHtmlStatBlocks/convertDndHtmlStatBlocks.py:17 | the description stops at the first end of text or title-like line start |
| ItemLists.MatchAtValid | convertDndHtmlStatBlocks/convertDndHtmlStatBlocks.py:17 | a match found at a position has the pattern's shape |
| ItemLists.FindItems | convertDndHtmlStatBlocks/convertDndHtmlStatBlocks.py:80 | `finditer` from a position: each match starts at or after it and lies inside the text; `FindItemsValid`, `FindItemsOrdered`, `FindItemsLeftmost` and `FindItemsExhaust` state the rest |
| ItemLists.FindItemsValid | convertDndHtmlStatBlocks/convertDndHtmlStatBlocks.py:17 | every match `finditer` yields has the pattern's shape |
| ItemLists.FindItemsOrdered | convertDndHtmlStatBlocks/convertDndHtmlStatBlocks.py:80 | the matches do not overlap and come in text order |
| ItemLists.FindItemsLeftmost | convertDndHtmlStatBlocks/convertDndHtmlStatBlocks.py:80 | the first match is the leftmost position where the pattern matches |
| ItemLists.FindItemsExhaust | convertDndHtmlStatBlocks/convertDndHtmlStatBlocks.py:80 | when no match is found, the pattern matches nowhere |
| ItemLists.DropNewline | convertDndHtmlStatBlocks/convertDndHtmlStatBlocks.py:82-84 | exactly one trailing line break is removed, if present |
| ItemLists.Items | convertDndHtmlStatBlocks/convertDndHtmlStatBlocks.py:78-87 | one item per match, built by `ToItem`; no contract of its own, and `CreateItemList`, `ItemNameShape` and `ItemSpan` state its content |
| ItemLists.CreateItemList | convertDndHtmlStatBlocks/convertDndHtmlStatBlocks.py:78-87 | one item per match, in match order, each the match's title and trimmed description |
| ItemLists.ItemNameShape | convertDndHtmlStatBlocks/convertDndHtmlStatBlocks.py:17 | each name has at most 45 characters and no line break, starts a line, and is followed by `. ` |
| ItemLists.ItemSpan | convertDndHtmlStatBlocks/convertDndHtmlStatBlocks.py:82-85 | the matched text is the name, `. `, the text, and possibly the removed line break |
| ItemLists.ItemsInOrder | convertDndHtmlStatBlocks/convertDndHtmlStatBlocks.py:80-85 | a later item's match starts after an earlier one's ends |
| ItemLists.ItemsNeedStop | convertDndHtmlStatBlocks/convertDndHtmlStatBlocks.py:17 | a section without `. ` has no items |
| ItemLists.TwoItems | convertDndHtmlStatBlocks/convertDndHtmlStatBlocks.py:78-87 | `"A. x\nB. y"` gives the items A/x and B/y |
| ItemLists.LineDropped | convertDndHtmlStatBlocks/convertDndHtmlStatBlocks.py:17 | a final `B.` line without `. ` ends the item before it and is lost |
| Creatures.FirstLine | convertDndHtmlStatBlocks/convertDndHtmlStatBlocks.py:18 | the text up to the first line break, which `.` and `$` confine the pattern to |
| Creatures.SizePrefix | convertDndHtmlStatBlocks/convertDndHtmlStatBlocks.py:18 | the size is the alternative the line starts with, followed by a space, and fails when there is none |
| Creatures.SplitKind | convertDndHtmlStatBlocks/convertDndHtmlStatBlocks.py:18 | type and alignment are non-empty halves around a `, `, with no `, ` in the alignment |
| Creatures.SplitKindRoundTrip | convertDndHtmlStatBlocks/convertDndHtmlStatBlocks.py:18 | a type and an alignment without `, ` are recovered from `type, alignment` (the split is at the last `, `) |
| Creatures.ParseMetadata | convertDndHtmlStatBlocks/convertDndHtmlStatBlocks.py:110-113 | the size is one of the six, the abbreviation is its upper-case first letter, and the first line is rebuilt from the parts |
| Creatures.MetadataRoundTrip | convertDndHtmlStatBlocks/convertDndHtmlStatBlocks.py:110-113 | a well-formed metadata line is parsed into exactly its parts |
| Creatures.FirstPerception | convertDndHtmlStatBlocks/convertDndHtmlStatBlocks.py:117-118 | the leftmost place where a signed number follows `Perception ` |
| Creatures.PerceptionValue | convertDndHtmlStatBlocks/convertDndHtmlStatBlocks.py:117-118 | `int(re.search(PERCEPTION_PATTERN, s).group())`: `None` exactly when the pattern matches nowhere, else the value read at the leftmost place it matches |
| Creatures.SkillBonus | convertDndHtmlStatBlocks/convertDndHtmlStatBlocks.py:120-123 | the `Perception` value listed under skills, or 0; no contract of its own, and `PassivePerception` uses it in its wisdom branch |
| Creatures.ListedPerception | convertDndHtmlStatBlocks/convertDndHtmlStatBlocks.py:118 | `Perception 12` reads as 12 and `Perception -1` as -1 |
| Creatures.TruncHalf | convertDndHtmlStatBlocks/convertDndHtmlStatBlocks.py:124 | `int(x / 2.0)`: the half of `x` rounded toward zero, for either sign |
| Creatures.PassivePerception | convertDndHtmlStatBlocks/convertDndHtmlStatBlocks.py:115-125 | the listed value when senses has one; else half of wisdom minus 10, truncated toward zero, plus the skill bonus (an error when wisdom is not a digit string); without senses, the previous record's value (an error for the first record) |
| Creatures.WisdomNineGivesZero | convertDndHtmlStatBlocks/convertDndHtmlStatBlocks.py:124 | wisdom 9 with no bonus gives 0, not -1 |
| Creatures.StalePerception | convertDndHtmlStatBlocks/convertDndHtmlStatBlocks.py:116-125 | a record without senses takes the previous record's value, and the first such record is an error |
| Creatures.ItemsIfAny | convertDndHtmlStatBlocks/convertDndHtmlStatBlocks.py:100-107 | an item list exists exactly for the sections that are present |
| Creatures.ItemsOfSection | convertDndHtmlStatBlocks/convertDndHtmlStatBlocks.py:100-107 | the item list of a present section, none for an absent one |
| Creatures.DerivePassive | convertDndHtmlStatBlocks/convertDndHtmlStatBlocks.py:115-125 | the branch structure computes `PassivePerception` |
| Creatures.BuildRecord | convertDndHtmlStatBlocks/convertDndHtmlStatBlocks.py:99-125 | one loop pass computes the record of one match |
| Creatures.Record | convertDndHtmlStatBlocks/convertDndHtmlStatBlocks.py:99-125 | one match's record: an error when the metadata pattern fails or the passive perception does; no contract of its own, and `BuildRecord`, `StalePerception` and `RecordsFromMatches` state its content |
| Creatures.Records | convertDndHtmlStatBlocks/convertDndHtmlStatBlocks.py:91-126 | the records of the matches in order, passing each one's passive perception on to the next; no contract of its own, and `RecordsFromMatches` and `StalePerception` state its content |
| Creatures.CreateDictFromData | convertDndHtmlStatBlocks/convertDndHtmlStatBlocks.py:91-129 | the loop and the sort compute `SortedRecords` |
| Creatures.SortedRecords | convertDndHtmlStatBlocks/convertDndHtmlStatBlocks.py:91-128 | the records sorted by name; no contract of its own, and `SortedRecordsOrdered` states that the result is sorted, a permutation, and stable |
| Creatures.RecordsFromMatches | convertDndHtmlStatBlocks/convertDndHtmlStatBlocks.py:94-126 | one record per match, in match order, each holding its match's groups |
| Creatures.SortedRecordsOrdered | convertDndHtmlStatBlocks/convertDndHtmlStatBlocks.py:128 | the result is sorted by name, is a permutation of the records, and keeps the match order among equal names |
| StableSort.SortBy | convertDndHtmlStatBlocks/convertDndHtmlStatBlocks.py:128 | `sorted(..., key=...)` as a stable insertion sort; no contract of its own, and `SortBySorted`, `SortByPermutes`, `SortByStable` and `SortBySortedInput` state its properties |
| StableSort.StrLeTotal | convertDndHtmlStatBlocks/convertDndHtmlStatBlocks.py:128 | any two names are comparable |
| StableSort.StrLeTrans | convertDndHtmlStatBlocks/convertDndHtmlStatBlocks.py:128 | the name order is transitive |
| StableSort.StrLeAntisym | convertDndHtmlStatBlocks/convertDndHtmlStatBlocks.py:128 | names that are each at most the other are equal |
| StableSort.InsertSorted | convertDndHtmlStatBlocks/convertDndHtmlStatBlocks.py:128 | inserting into a sorted list keeps it sorted |
| StableSort.SortBySorted | convertDndHtmlStatBlocks/convertDndHtmlStatBlocks.py:128 | the sorted list is in non-decreasing key order |
| StableSort.SortByPermutes | convertDndHtmlStatBlocks/convertDndHtmlStatBlocks.py:128 | the sorted list is a permutation of the input |
| StableSort.SortByStable | convertDndHtmlStatBlocks/convertDndHtmlStatBlocks.py:128 | elements with equal keys keep their input order |
| StableSort.SortBySortedInput | convertDndHtmlStatBlocks/convertDndHtmlStatBlocks.py:128 | an already sorted list is not changed |
| EncounterPlus.SlugPointwise | convertDndHtmlStatBlocks/convertDndHtmlStatBlocks.py:179 | the slug has the name's length; each space becomes `-` and each letter its lower case |
| EncounterPlus.Slug | convertDndHtmlStatBlocks/convertDndHtmlStatBlocks.py:179 | `name.lower().replace(" ", "-")`; no contract of its own, and `SlugPointwise`, `SlugClean`, `SlugIdempotent` and `SlugIgnoresCase` state its properties |
| EncounterPlus.SlugClean | convertDndHtmlStatBlocks/convertDndHtmlStatBlocks.py:179 | a slug holds no space and no upper-case letter |
| EncounterPlus.SlugIdempotent | convertDndHtmlStatBlocks/convertDndHtmlStatBlocks.py:179 | the slug of a slug is itself |
| EncounterPlus.SlugIgnoresCase | convertDndHtmlStatBlocks/convertDndHtmlStatBlocks.py:179 | names differing only in case share a slug |
| EncounterPlus.RatingAt | convertDndHtmlStatBlocks/convertDndHtmlStatBlocks.py:21 | a match is `digits` or `digits/digits` directly followed by ` (` |
| EncounterPlus.FirstRating | convertDndHtmlStatBlocks/convertDndHtmlStatBlocks.py:182 | `re.search` returns the leftmost match, and none means no match anywhere |
| EncounterPlus.CrValue | convertDndHtmlStatBlocks/convertDndHtmlStatBlocks.py:180-184 | `0` without a challenge; else the leftmost rating followed by ` (`, as `re.search` finds it; an error exactly when no rating occurs |
| EncounterPlus.CrExamples | convertDndHtmlStatBlocks/convertDndHtmlStatBlocks.py:180-184 | `1/4 (50 XP)` gives `1/4`, `10 (5,900 XP)` gives `10`, and no challenge gives `0` |
| EncounterPlus.CrMissing | convertDndHtmlStatBlocks/convertDndHtmlStatBlocks.py:182 | a challenge without digits makes the record fail |
| EncounterPlus.KeyNameInjective | convertDndHtmlStatBlocks/convertDndHtmlStatBlocks.py:160-184 | the 17 keys of the monster dictionary have distinct names |
| EncounterPlus.AppendItems | convertDndHtmlStatBlocks/convertDndHtmlStatBlocks.py:144-151 | one element per item is appended, tagged as asked, holding `name` then `text` |
| EncounterPlus.MakeMonster | convertDndHtmlStatBlocks/convertDndHtmlStatBlocks.py:155-212 | the construction computes `MonsterElement`: id attribute, one field per key, then traits, actions, reactions and legendary actions |
| EncounterPlus.MonsterElement | convertDndHtmlStatBlocks/convertDndHtmlStatBlocks.py:155-212 | the `monster` element of one record; no contract of its own, and `MakeMonster`, `MonsterFields`, `MonsterFieldFound` and `MonsterSize` state its content |
| EncounterPlus.FieldValue | convertDndHtmlStatBlocks/convertDndHtmlStatBlocks.py:160-184 | the `str()` of the value stored under one of the 17 keys; no contract of its own, and `MonsterFieldFound` and `MonsterFields` state which value each key carries |
| EncounterPlus.MonsterFieldFound | convertDndHtmlStatBlocks/convertDndHtmlStatBlocks.py:193-195 | for any key order, `find(key)` reads that key's value |
| EncounterPlus.MonsterFields | convertDndHtmlStatBlocks/convertDndHtmlStatBlocks.py:177-195 | a monster carries its id, slug, size abbreviation, role `enemy`, rating and passive perception |
| EncounterPlus.MonsterSize | convertDndHtmlStatBlocks/convertDndHtmlStatBlocks.py:193-209 | a monster has one child per key plus one per item of each present section |
| EncounterPlus.Listed | convertDndHtmlStatBlocks/convertDndHtmlStatBlocks.py:216-222 | the `slug` attribute of every `monster` of the prior document, none without one; no contract of its own, and `MonsterSlugs` and `OwnOutputListsNothing` state what it collects from the converter's own output |
| EncounterPlus.Added | convertDndHtmlStatBlocks/convertDndHtmlStatBlocks.py:225-228 | the monsters appended for the unlisted records, stopping at the first failure; no contract of its own, and `AddedAre`, `AddedFails` and `AddedStops` state its content |
| EncounterPlus.NewIndices | convertDndHtmlStatBlocks/convertDndHtmlStatBlocks.py:225-226 | the records added are exactly those whose name is not listed, in order |
| EncounterPlus.AddedAre | convertDndHtmlStatBlocks/convertDndHtmlStatBlocks.py:225-228 | the appended monsters are those of the unlisted records, in order, each with its own id |
| EncounterPlus.AddedFails | convertDndHtmlStatBlocks/convertDndHtmlStatBlocks.py:182 | the merge fails exactly when some unlisted record has a challenge without a rating |
| EncounterPlus.AddedStops | convertDndHtmlStatBlocks/convertDndHtmlStatBlocks.py:225-228 | after the first failure, the later records change nothing |
| EncounterPlus.GenerateXml | convertDndHtmlStatBlocks/convertDndHtmlStatBlocks.py:214-232 | the loop computes `Compendium` |
| EncounterPlus.Compendium | convertDndHtmlStatBlocks/convertDndHtmlStatBlocks.py:214-232 | the prior root, or a new `compendium`, with the monsters of the unlisted records appended; no contract of its own, and `MergeKeepsPrior`, `FreshCompendium`, `AddedAre` and `AddedFails` state its content |
| EncounterPlus.MergeKeepsPrior | convertDndHtmlStatBlocks/convertDndHtmlStatBlocks.py:218-228 | the existing root and children are kept in order, and the new monsters follow |
| EncounterPlus.FreshCompendium | convertDndHtmlStatBlocks/convertDndHtmlStatBlocks.py:223-228 | with no prior document, a `compendium` root holds one monster per record, in order |
| EncounterPlus.NothingListed | convertDndHtmlStatBlocks/convertDndHtmlStatBlocks.py:226 | when no name is listed, every record is added |
| EncounterPlus.MonsterSlugs | convertDndHtmlStatBlocks/convertDndHtmlStatBlocks.py:187-195 | a monster the converter writes has no `slug` attribute |
| EncounterPlus.OwnOutputListsNothing | convertDndHtmlStatBlocks/convertDndHtmlStatBlocks.py:221-222 | the converter's own compendium lists no names |
| EncounterPlus.RemergeDuplicates | convertDndHtmlStatBlocks/convertDndHtmlStatBlocks.py:218-228 | merging the same records into that compendium adds each of them again |
| CsvTable.BuildRow | convertDndHtmlStatBlocks/convertDndHtmlStatBlocks.py:240-246 | the cell loop computes `Row` |
| CsvTable.Cell | convertDndHtmlStatBlocks/convertDndHtmlStatBlocks.py:242-245 | one cell: `size`, `type` and `alignment` from `metadatadict`, any other column from the record; no contract of its own, and `RowIsExpected` states each of the 25 cells |
| CsvTable.Row | convertDndHtmlStatBlocks/convertDndHtmlStatBlocks.py:240-246 | the cells of one record under the given columns, or `None` for a missing key; no contract of its own, and `RowIsExpected` states that the fixed columns give the 25 named fields |
| CsvTable.GenerateCsv | convertDndHtmlStatBlocks/convertDndHtmlStatBlocks.py:234-249 | the row loop computes `Table` |
| CsvTable.Table | convertDndHtmlStatBlocks/convertDndHtmlStatBlocks.py:234-249 | the header row and then one row per record; no contract of its own, and `TableShape` states its shape and content |
| CsvTable.RowIsExpected | convertDndHtmlStatBlocks/convertDndHtmlStatBlocks.py:241-245 | a row never fails, and holds the metadata's size, type and alignment and every other named field, in column order |
| CsvTable.TableShape | convertDndHtmlStatBlocks/convertDndHtmlStatBlocks.py:234-249 | the table is the header plus one row per record, in order |
| CsvTable.NoHitPointsColumn | convertDndHtmlStatBlocks/convertDndHtmlStatBlocks.py:235 | neither hit points nor passive perception is a column |
| Report.ItemsSection | convertDndHtmlStatBlocks/convertDndHtmlStatBlocks.py:251-259 | `generateItemsText`: the heading, one line per item, a blank line; no contract of its own, and `ItemsText` and `ItemsSectionLines` state its content |
| Report.ItemsText | convertDndHtmlStatBlocks/convertDndHtmlStatBlocks.py:251-259 | the loop computes the heading, one line per item and a blank line |
| Report.ItemsSectionLines | convertDndHtmlStatBlocks/convertDndHtmlStatBlocks.py:253-257 | a section's item lines come in item order, each depending on its item only |
| Report.Block | convertDndHtmlStatBlocks/convertDndHtmlStatBlocks.py:268-282 | one creature's part of the report, the actions section always present; no contract of its own, and `CreatureBlock`, `ReportOpens` and `ReportIgnoresWisdom` state its content |
| Report.CreatureBlock | convertDndHtmlStatBlocks/convertDndHtmlStatBlocks.py:268-282 | the appends compute one creature's block |
| Report.PlainText | convertDndHtmlStatBlocks/convertDndHtmlStatBlocks.py:262-284 | the loop computes the greeting followed by each creature's block |
| Report.PlainReport | convertDndHtmlStatBlocks/convertDndHtmlStatBlocks.py:262-284 | the greeting and then one block per creature; no contract of its own, and `ReportConcat`, `ReportOpens` and `ReportIgnoresWisdom` state its properties |
| Report.ReportConcat | convertDndHtmlStatBlocks/convertDndHtmlStatBlocks.py:267-282 | the report of two runs of records is the report of the first followed by the blocks of the second |
| Report.ReportOpens | convertDndHtmlStatBlocks/convertDndHtmlStatBlocks.py:265-268 | the report starts with the greeting, and each block with the upper-case name between rules |
| Report.ReportIgnoresWisdom | convertDndHtmlStatBlocks/convertDndHtmlStatBlocks.py:270 | changing any record's wisdom leaves the report unchanged |
| TextReplacer.Put | textReplacer/textReplacer.py:53-55 | assigning a new key appends it; assigning an existing key keeps the order |
| TextReplacer.PutLookup | textReplacer/textReplacer.py:53-55 | after an assignment the key reads the new value and every other key is unchanged |
| TextReplacer.Lookup | textReplacer/textReplacer.py:53-55 | `d.get(k)`: a value exactly for a key of the table |
| TextReplacer.ReadReplacements | textReplacer/textReplacer.py:45-56 | the row loop computes `TableOf` |
| TextReplacer.TableOf | textReplacer/textReplacer.py:45-56 | the dictionary built from the rows, with no more entries than rows; `TableNeedsColumns` and `TableLaterWins` state when it succeeds and what each key reads |
| TextReplacer.TableStops | textReplacer/textReplacer.py:51-60 | a row without a column ends reading with the missing-column error |
| TextReplacer.TableNeedsColumns | textReplacer/textReplacer.py:51-60 | reading succeeds exactly when every row has both columns |
| TextReplacer.TableLaterWins | textReplacer/textReplacer.py:51-55 | the keys are distinct, and each key reads the value of the last row that has it, forward or reversed |
| TextReplacer.RowPair | textReplacer/textReplacer.py:52-55 | the key and value of one row, swapped in reverse mode, `None` when a column is missing; no contract of its own, and `TableNeedsColumns`, `TableLaterWins` and `ReversedRow` state its use |
| TextReplacer.ReversedRow | textReplacer/textReplacer.py:52-53 | in reverse mode the after column is the key |
| TextReplacer.CaseReplacement | textReplacer/textReplacer.py:77-99 | an error exactly for a mixed-case match whose text or `after` is empty; otherwise `after`'s length and letters |
| TextReplacer.CaseFollowsOriginal | textReplacer/textReplacer.py:80-98 | upper-case matches give upper case and lower-case ones lower case; Capitalized gives capitalized; the mixed case gives `after` with its first letter in the match's case; and it names each result: `after.upper()`, `after.lower()`, `after.capitalize()`, or `after` with its first letter re-cased |
| TextReplacer.SameTextKept | textReplacer/textReplacer.py:77-101 | replacing a match by its own text gives it back, which is not counted |
| TextReplacer.CaseExamples | textReplacer/textReplacer.py:80-98 | `Ant` gives `Bug`, `ANT` gives `BUG`, `aNt` gives `bug`, and `aNt` with an empty value fails |
| TextReplacer.ReplaceMatch | textReplacer/textReplacer.py:77-103 | the result is `CaseReplacement`, and the counter goes up by one exactly when it differs from the match |
| TextReplacer.Substitute | textReplacer/textReplacer.py:133-136 | the `re.sub` scan computes `Sub` and adds its count of changed occurrences to the counter |
| TextReplacer.Sub | textReplacer/textReplacer.py:133-136 | one `re.sub` with a non-empty key: it counts no more changes than there are characters left to scan; `SubCopiesToFirstMatch`, `SubNoMatch`, `WildcardIsReplace` and `WholeWordMatch` state the rest |
| TextReplacer.SubCopiesToFirstMatch | textReplacer/textReplacer.py:133-136 | the scan is leftmost: up to the first place where the pattern matches, the text is copied and nothing is counted |
| TextReplacer.SubNoMatch | textReplacer/textReplacer.py:133-136 | with no occurrence left, the rest of the text is copied and nothing is counted |
| TextReplacer.NothingCountedNothingChanged | textReplacer/textReplacer.py:101-102 | a count of zero means the text is unchanged |
| TextReplacer.WildcardIsReplace | textReplacer/textReplacer.py:130-133 | for a `*` key, the lower-cased result is a literal left-to-right replacement on the lower-cased text |
| TextReplacer.WordBoundary | textReplacer/textReplacer.py:135-136 | `\b` at a position: a word character on exactly one side; no contract of its own, and `WholeWordMatch` states what it admits |
| TextReplacer.MatchHere | textReplacer/textReplacer.py:130-136 | the case-insensitive key at a position, and without the wildcard a word boundary on both sides; no contract of its own, and `WholeWordMatch` and `WildcardIsReplace` state what it matches |
| TextReplacer.WholeWordMatch | textReplacer/textReplacer.py:135-136 | a plain key of word characters matches exactly where it occurs with no word character on either side |
| TextReplacer.ApplyOne | textReplacer/textReplacer.py:128-138 | one pass of the mapping loop computes `ApplyMapping` |
| TextReplacer.ApplyMapping | textReplacer/textReplacer.py:128-138 | one mapping: a trailing `*` on the key means no word boundaries and drops a trailing `*` from the value; no contract of its own, and `MappingNoOccurrence` and `EmptyKeys` state its edge cases |
| TextReplacer.ReplaceStrings | textReplacer/textReplacer.py:123-145 | the mapping loop computes `ReplaceAllMappings`: the final text and the count per key |
| TextReplacer.ReplaceAllMappings | textReplacer/textReplacer.py:123-145 | every mapping in table order over the evolving text; the counts record exactly the table's keys, and `MappingsCompose` and `NoOccurrenceUnchanged` state the rest |
| TextReplacer.MappingsStop | textReplacer/textReplacer.py:126-138 | a failing mapping ends the replacement |
| TextReplacer.MappingsCompose | textReplacer/textReplacer.py:126-145 | applying two tables in turn is applying the second to the first one's result |
| TextReplacer.MappingNoOccurrence | textReplacer/textReplacer.py:128-138 | a key that does not occur leaves the text unchanged, with a count of zero |
| TextReplacer.NoOccurrenceUnchanged | textReplacer/textReplacer.py:126-145 | a text with no occurrence of any key is returned unchanged, with every count zero |
| TextReplacer.WordKeyLeavesLongerWords | textReplacer/textReplacer.py:24 | `ant` changes neither `anthill` nor `ants` |
| TextReplacer.WildcardKeyReplacesInside | textReplacer/textReplacer.py:24 | `ant*` turns `anthill` into `bughill`, with or without a `*` on the value |
| TextReplacer.WildcardPlural | textReplacer/textReplacer.py:24 | `ant*` turns `ants` into `bugs` |
| TextReplacer.WildcardReversible | textReplacer/textReplacer.py:24 | with `*` in both columns, the reversed table maps `bughill` back to `anthill` |
| TextReplacer.EmptyKeys | textReplacer/textReplacer.py:130-136 | the key `*` always fails; the empty plain key fails exactly when the text has a word character, and else changes nothing |
| TextReplacer.WholeWordStep | textReplacer/textReplacer.py:135-136 | a three-letter lower-case word replaced as a whole gives the new word, counted once |
| TextReplacer.MappingsChain | textReplacer/textReplacer.py:126-138 | a later mapping sees an earlier one's output: `ant`→`bug`→`fly`, each counted once |

## Left out

- Reading and writing files, `argparse`, the verbose printing, `xmllint`, and the timestamped output paths. These are I/O. File reading is a parameter `read`, and the text and CSV rows of the replacer are inputs.
- `CREATURE_PATTERN` (line 16) and `KEEP_PATTERN` (line 20). Reproducing their backtracking is not modelled: their results are inputs.
- Creatures.PassivePerception: the floating-point computation `int((float(wisdom) - 10.0) / 2.0)` of line 124 is modelled as exact integer halving truncated toward zero. This agrees with Python for every wisdom score below 2^53, which covers every real stat block. For larger scores the float rounding can change the result. For scores above about 1.8 × 10^308, `float` gives `inf` and `int` raises `OverflowError`, which the model does not raise.
- `uuid.uuid4()`, which is random. Identifiers are a parameter.
- Python 2's dictionary order, which is not fixed. The order of the entity table and of the monster's keys are parameters, and the proofs hold for all of them.
- ElementTree parsing of an existing compendium. The prior compendium is given as a tree value.
- In-place updates of ElementTree elements and of the match dictionaries. Elements and records are values, so aliasing of a shared element is not captured.
- `dictToXML`. It reads an undefined global and nothing calls it.
- The close-match warning of the replacer. It uses a floating-point similarity ratio and only prints.
- Unicode. Letter case, `isupper`/`islower` and `\w` are modelled for ASCII only; other characters are neither letters nor word characters.
- Rows shorter than the header. Python's `csv` fills missing cells with `None`, and the model takes a row as a map from column name to text.
- `carMsrpAnalysis.py`. It consists of data-analysis library calls and plotting.
