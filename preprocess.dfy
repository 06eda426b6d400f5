/**
  Preprocessing of the stat-block converter: the file list, removal of
  markup tags, the "line break + non-breaking space" clean-up and the
  entity table (convertDndHtmlStatBlocks.py, `preprocessHtml`).
*/
module Preprocess {
  import opened Wrappers
  import opened Text

  // ------------------------------------------------------------- file list

  /**
    The `--files` argument split at spaces, where a back-slash before a
    space escapes it: the escape is first hidden as `&nbsp;`, the text is
    split at every space, and each piece gets its spaces back.
  */
  function FileNames(files: string): (names: seq<string>)
    ensures |names| >= 1
  {
    var pieces := Split(ReplaceAll(files, "\\ ", "&nbsp;"), ' ');
    seq(|pieces|, i requires 0 <= i < |pieces| => ReplaceAll(pieces[i], "&nbsp;", " "))
  }

  /** A text without the pattern's first character is left alone by a replacement. */
  lemma ReplaceWithoutFirst(s: string, p: string, r: string)
    requires p != [] && p[0] !in s
    ensures ReplaceAll(s, p, r) == s
  {
    forall i | 0 <= i <= |s| - |p| ensures !OccursAt(s, p, i) {
      assert s[i..i + |p|][0] == s[i];
    }
    ReplaceAbsent(s, p, r);
  }

  /** Without back-slashes and ampersands the file list is a plain split at spaces. */
  lemma FileNamesPlain(files: string)
    requires '\\' !in files && '&' !in files
    ensures FileNames(files) == Split(files, ' ')
  {
    ReplaceWithoutFirst(files, "\\ ", "&nbsp;");
    var pieces := Split(files, ' ');
    SplitPiecesFromText(files, ' ', '&');
    forall i | 0 <= i < |pieces| ensures ReplaceAll(pieces[i], "&nbsp;", " ") == pieces[i] {
      ReplaceWithoutFirst(pieces[i], "&nbsp;", " ");
    }
  }

  /** A text free of the pattern's first character passes through a replacement as a prefix. */
  lemma {:induction false} ReplaceAfterFree(a: string, t: string, p: string, r: string)
    requires p != [] && p[0] !in a
    ensures ReplaceAll(a + t, p, r) == a + ReplaceAll(t, p, r)
    decreases |a|
  {
    if a != [] {
      var s := a + t;
      if |s| < |p| {
        assert ReplaceAll(t, p, r) == t;
      } else {
        assert s[..|p|][0] == a[0];
        assert s[..|p|] != p;
        assert ReplaceAll(s, p, r) == [a[0]] + ReplaceAll(s[1..], p, r);
        assert s[1..] == a[1..] + t;
        ReplaceAfterFree(a[1..], t, p, r);
        assert a == [a[0]] + a[1..];
      }
    } else {
      assert a + t == t;
    }
  }

  /** Splitting a text without the separator gives the text alone. */
  lemma {:induction false} SplitWithout(s: string, c: char)
    requires c !in s
    ensures Split(s, c) == [s]
    decreases |s|
  {
    if s != [] {
      SplitWithout(s[1..], c);
      assert [s[0]] + s[1..] == s;
    }
  }

  /** An escaped space keeps two file-name parts together as one name with a space. */
  lemma EscapedSpace(a: string, b: string)
    requires ' ' !in a && ' ' !in b && '\\' !in a && '\\' !in b && '&' !in a && '&' !in b
    ensures FileNames(a + "\\ " + b) == [a + " " + b]
  {
    ReplaceAfterFree(a, "\\ " + b, "\\ ", "&nbsp;");
    ReplaceWithoutFirst(b, "\\ ", "&nbsp;");
    assert ("\\ " + b)[..2] == "\\ " && ("\\ " + b)[2..] == b;
    assert ReplaceAll(a + "\\ " + b, "\\ ", "&nbsp;") == a + "&nbsp;" + b by {
      assert a + "\\ " + b == a + ("\\ " + b);
    }
    var hidden := a + "&nbsp;" + b;
    assert ' ' !in hidden by {
      assert forall i :: 0 <= i < |hidden| ==> hidden[i] in a || hidden[i] in "&nbsp;" || hidden[i] in b;
    }
    SplitWithout(hidden, ' ');
    ReplaceAfterFree(a, "&nbsp;" + b, "&nbsp;", " ");
    ReplaceWithoutFirst(b, "&nbsp;", " ");
    assert ("&nbsp;" + b)[..6] == "&nbsp;" && ("&nbsp;" + b)[6..] == b;
    assert ReplaceAll("&nbsp;" + b, "&nbsp;", " ") == " " + b;
    assert hidden == a + ("&nbsp;" + b);
    assert ReplaceAll(hidden, "&nbsp;", " ") == a + " " + b;
    assert ReplaceAll(a + "\\ " + b, "\\ ", "&nbsp;") == hidden;
    assert Split(ReplaceAll(a + "\\ " + b, "\\ ", "&nbsp;"), ' ') == [hidden];
  }

  // ------------------------------------------------------------------- tags

  /**
    A tag as `<.+?>` matches it: `<` at `i`, at least one character, `>` at
    `k`, and no line break in between.
  */
  predicate TagAt(t: string, i: int, k: int) {
    0 <= i && i + 2 <= k < |t| && t[i] == '<' && t[k] == '>' &&
    forall m :: i < m < k ==> t[m] != '\n'
  }

  /** The text has no tag left. */
  ghost predicate NoTag(t: string) {
    forall i, k :: !TagAt(t, i, k)
  }

  /** Scan for the closing `>` of a tag opened at index 0, from index `j`. */
  function TagClose(t: string, j: nat): (r: Option<nat>)
    requires |t| > 0 && t[0] == '<' && 1 <= j <= |t|
    requires forall m :: 0 < m < j ==> t[m] != '\n'
    requires forall m :: 2 <= m < j ==> t[m] != '>'
    ensures r.Some? ==> TagAt(t, 0, r.value) && forall m :: 2 <= m < r.value ==> t[m] != '>'
    ensures r.None? ==> forall k :: !TagAt(t, 0, k)
    decreases |t| - j
  {
    if j >= |t| || t[j] == '\n' then None
    else if j >= 2 && t[j] == '>' then Some(j)
    else TagClose(t, j + 1)
  }

  /**
    Where the tag opened by the `<` at index 0 ends: at the first `>` after
    at least one character, on the same line; none when there is no such `>`.
  */
  function TagEnd(t: string): (r: Option<nat>)
    requires |t| > 0 && t[0] == '<'
    ensures r.Some? ==> TagAt(t, 0, r.value) && forall m :: 2 <= m < r.value ==> t[m] != '>'
    ensures r.None? <==> forall k :: !TagAt(t, 0, k)
  {
    TagClose(t, 1)
  }

  /** `re.sub(CRUFT_PATTERN, '', s)`: every tag, scanning left to right, is deleted. */
  function StripTags(s: string): (r: string)
    ensures |r| <= |s|
    decreases |s|
  {
    if s == [] then []
    else if s[0] == '<' && TagEnd(s).Some? then StripTags(s[TagEnd(s).value + 1..])
    else [s[0]] + StripTags(s[1..])
  }

  /**
    A `>` in the output that no line break precedes comes from a `>` at the
    same or a later index of the input that no line break precedes.
  */
  lemma {:induction false} CloseSurvives(u: string, p: nat)
    ensures CloseBefore(StripTags(u), p, p + 1) ==> CloseFrom(u, p)
    decreases |u|
  {
    if u != [] {
      if u[0] == '<' && TagEnd(u).Some? {
        var k := TagEnd(u).value;
        CloseSurvives(u[k + 1..], p);
        if CloseFrom(u[k + 1..], p) {
          CloseAfterTag(u, k, p);
        }
      } else {
        var rest := StripTags(u[1..]);
        assert StripTags(u) == [u[0]] + rest;
        if p > 0 {
          CloseSurvives(u[1..], p - 1);
          CloseAfterKept(u, rest, p);
        }
      }
    }
  }

  /** Some `>` at an index in `[p, q)` of `t` with no line break before it. */
  ghost predicate CloseBefore(t: string, p: nat, q: nat) {
    exists m :: p <= m < q && m < |t| && t[m] == '>' && forall x :: 0 <= x < m ==> t[x] != '\n'
  }

  /** Some `>` at index `p` or later of `t` with no line break before it. */
  ghost predicate CloseFrom(t: string, p: nat) {
    CloseBefore(t, p, |t|)
  }

  /** `CloseSurvives` across a deleted tag `u[..k + 1]`. */
  lemma CloseAfterTag(u: string, k: nat, p: nat)
    requires TagAt(u, 0, k)
    requires CloseFrom(u[k + 1..], p)
    ensures CloseFrom(u, p)
  {
    var tail := u[k + 1..];
    var m' :| p <= m' < |tail| && tail[m'] == '>' && forall x :: 0 <= x < m' ==> tail[x] != '\n';
    var m := k + 1 + m';
    forall x | 0 <= x < m ensures u[x] != '\n' {
      if x > k {
        assert u[x] == tail[x - k - 1];
      }
    }
    assert u[m] == tail[m'];
  }

  /** `CloseSurvives` across a kept first character. */
  lemma CloseAfterKept(u: string, rest: string, p: nat)
    requires u != [] && 0 < p
    requires CloseBefore(rest, p - 1, p) ==> CloseFrom(u[1..], p - 1)
    ensures CloseBefore([u[0]] + rest, p, p + 1) ==> CloseFrom(u, p)
  {
    var out := [u[0]] + rest;
    if CloseBefore(out, p, p + 1) {
      assert out[p] == '>' && forall x :: 0 <= x < p ==> out[x] != '\n';
      assert rest[p - 1] == out[p];
      assert forall x :: 0 <= x < p - 1 ==> rest[x] == out[x + 1];
      assert CloseBefore(rest, p - 1, p);
      var m' :| p - 1 <= m' < |u[1..]| && u[1..][m'] == '>' && forall x :: 0 <= x < m' ==> u[1..][x] != '\n';
      assert out[0] == u[0];
      forall x | 0 <= x < m' + 1 ensures u[x] != '\n' {
        if x > 0 {
          assert u[x] == u[1..][x - 1];
        }
      }
      assert u[m' + 1] == u[1..][m'];
    }
  }

  /** After stripping, no tag remains. */
  lemma {:induction false} StripTagsLeavesNoTag(s: string)
    ensures NoTag(StripTags(s))
    decreases |s|
  {
    if s != [] {
      if s[0] == '<' && TagEnd(s).Some? {
        StripTagsLeavesNoTag(s[TagEnd(s).value + 1..]);
      } else {
        StripTagsLeavesNoTag(s[1..]);
        KeptFirstNoTag(s);
      }
    }
  }

  /** A kept first character adds no tag to a tag-free rest. */
  lemma KeptFirstNoTag(s: string)
    requires s != [] && !(s[0] == '<' && TagEnd(s).Some?) && NoTag(StripTags(s[1..]))
    ensures NoTag(StripTags(s))
  {
    var rest := StripTags(s[1..]);
    var out := StripTags(s);
    assert out == [s[0]] + rest;
    forall i, k | 0 <= i ensures !TagAt(out, i, k) {
      if i > 0 {
        ShiftedTag(s[0], rest, i, k);
      } else if k >= 2 {
        CloseSurvives(s[1..], k - 1);
        KeptOpenerHasNoTag(s, k, out);
      }
    }
  }

  lemma ShiftedTag(c: char, rest: string, i: nat, k: int)
    requires 0 < i
    ensures TagAt([c] + rest, i, k) ==> TagAt(rest, i - 1, k - 1)
  {
    var out := [c] + rest;
    if TagAt(out, i, k) {
      assert forall m :: 0 <= m < |rest| ==> rest[m] == out[m + 1];
    }
  }

  /**
    A `<` that was kept opens no tag in the output: a closing `>` there
    would have made it the start of a tag in the input.
  */
  lemma KeptOpenerHasNoTag(s: string, k: nat, out: string)
    requires s != [] && !(s[0] == '<' && TagEnd(s).Some?)
    requires 2 <= k && out == [s[0]] + StripTags(s[1..])
    requires CloseBefore(StripTags(s[1..]), k - 1, k) ==> CloseFrom(s[1..], k - 1)
    ensures !TagAt(out, 0, k)
  {
    TagInOutputFromInput(s, k, out);
  }

  lemma TagInOutputFromInput(s: string, k: nat, out: string)
    requires s != [] && 2 <= k && out == [s[0]] + StripTags(s[1..])
    requires CloseBefore(StripTags(s[1..]), k - 1, k) ==> CloseFrom(s[1..], k - 1)
    ensures TagAt(out, 0, k) ==> s[0] == '<' && TagEnd(s).Some?
  {
    var rest := StripTags(s[1..]);
    if TagAt(out, 0, k) {
      assert rest[k - 1] == out[k];
      assert forall x :: 0 <= x < k - 1 ==> rest[x] == out[x + 1];
      assert CloseBefore(rest, k - 1, k);
      var m :| k - 1 <= m < |s[1..]| && s[1..][m] == '>' && forall x :: 0 <= x < m ==> s[1..][x] != '\n';
      assert forall x :: 0 < x < m + 1 ==> s[x] == s[1..][x - 1];
      assert TagAt(s, 0, m + 1);
    }
  }

  /** A text without `<` has nothing to strip. */
  lemma {:induction false} StripTagsNoOpener(s: string)
    requires '<' !in s
    ensures StripTags(s) == s
    decreases |s|
  {
    if s != [] {
      StripTagsNoOpener(s[1..]);
      assert s == [s[0]] + s[1..];
    }
  }

  // --------------------------------------------------------------- entities

  /** The nine-entry entity table, in the order the source writes it. */
  const Entities: seq<(string, string)> := [
    ("&minus;", "-"), ("&mdash;", "-"), ("&ndash;", "-"), ("&rsquo;", "'"),
    ("&nbsp;", " "), ("&ldquo;", "\""), ("&rdquo;", "\""), ("&times;", "x"),
    ("&frac12;", ".5")]

  /** The characters entity names are made of. */
  predicate NameChar(c: char) {
    c == '&' || c == ';' || c == '1' || c == '2' || ('a' <= c <= 'z' && c != 'x')
  }

  /**
    An entry fit for literal replacement in any order: names of at least
    six characters, non-empty replacements, and no replacement character
    that can appear in a name.
  */
  predicate Separate(e: (string, string)) {
    |e.0| >= 6 && e.1 != [] &&
    (forall i :: 0 <= i < |e.0| ==> NameChar(e.0[i])) &&
    (forall i :: 0 <= i < |e.1| ==> !NameChar(e.1[i]))
  }

  /** Every entry of the table is fit for replacement in any order. */
  lemma EntitiesSeparate()
    ensures forall j :: 0 <= j < |Entities| ==> Separate(Entities[j])
  {
  }

  /** A replacement of one entry shares no character with the name of another. */
  lemma SeparateDisjoint(e: (string, string), f: (string, string))
    requires Separate(e) && Separate(f)
    ensures Disjoint(f.1, e.0)
  {
    forall i | 0 <= i < |f.1| ensures f.1[i] !in e.0 {
      assert forall k :: 0 <= k < |e.0| ==> e.0[k] != f.1[i];
    }
  }

  /** Any order of the table holds exactly the table's entries, each fit for replacement. */
  lemma OrderOfTable(order: seq<(string, string)>)
    requires multiset(order) == multiset(Entities)
    ensures forall j :: 0 <= j < |order| ==> Separate(order[j])
    ensures forall k :: 0 <= k < |Entities| ==> Entities[k] in order
  {
    OrderSeparate(order);
    OrderComplete(order);
  }

  lemma OrderSeparate(order: seq<(string, string)>)
    requires multiset(order) == multiset(Entities)
    ensures forall j :: 0 <= j < |order| ==> Separate(order[j])
  {
    EntitiesSeparate();
    forall j | 0 <= j < |order| ensures Separate(order[j]) {
      assert order[j] in multiset(Entities);
      var k :| 0 <= k < |Entities| && Entities[k] == order[j];
    }
  }

  lemma OrderComplete(order: seq<(string, string)>)
    requires multiset(order) == multiset(Entities)
    ensures forall k :: 0 <= k < |Entities| ==> Entities[k] in order
  {
    forall k | 0 <= k < |Entities| ensures Entities[k] in order {
      assert Entities[k] in multiset(order);
    }
  }

  predicate NamesNonEmpty(order: seq<(string, string)>) {
    forall j :: 0 <= j < |order| ==> order[j].0 != []
  }

  /** The table's replacements applied one after another, in the given order. */
  function ApplyTable(s: string, order: seq<(string, string)>): string
    requires NamesNonEmpty(order)
    decreases |order|
  {
    if order == [] then s
    else
      var last := order[|order| - 1];
      ReplaceAll(ApplyTable(s, order[..|order| - 1]), last.0, last.1)
  }

  /** After the table is applied, none of the names it replaced occurs. */
  lemma {:induction false} ApplyTableClears(s: string, order: seq<(string, string)>)
    requires forall j :: 0 <= j < |order| ==> Separate(order[j])
    ensures NamesNonEmpty(order)
    ensures forall j :: 0 <= j < |order| ==> !Contains(ApplyTable(s, order), order[j].0)
    decreases |order|
  {
    if order != [] {
      var init := order[..|order| - 1];
      var last := order[|order| - 1];
      ApplyTableClears(s, init);
      var before := ApplyTable(s, init);
      forall j | 0 <= j < |order| ensures !Contains(ApplyTable(s, order), order[j].0) {
        if j < |order| - 1 {
          assert init[j] == order[j];
        }
        SeparateDisjoint(order[j], last);
        ReplaceLeavesNone(before, last.0, last.1, order[j].0);
      }
    }
  }

  /** Whatever order the table is applied in, no entity of the table remains. */
  lemma NoEntityLeft(s: string, order: seq<(string, string)>)
    requires multiset(order) == multiset(Entities)
    ensures NamesNonEmpty(order)
    ensures forall k :: 0 <= k < |Entities| ==> !Contains(ApplyTable(s, order), Entities[k].0)
  {
    OrderOfTable(order);
    ApplyTableClears(s, order);
    forall k | 0 <= k < |Entities| ensures !Contains(ApplyTable(s, order), Entities[k].0) {
      var j :| 0 <= j < |order| && order[j] == Entities[k];
    }
  }

  /** Since no `&nbsp;` remains, no line break followed by `&nbsp;` remains either. */
  lemma NoBreakLeft(s: string, order: seq<(string, string)>)
    requires multiset(order) == multiset(Entities)
    ensures NamesNonEmpty(order)
    ensures !Contains(ApplyTable(s, order), "\n&nbsp;")
  {
    NoEntityLeft(s, order);
    NameBreakFree(ApplyTable(s, order), Entities[4].0);
  }

  /** A text without `&nbsp;` holds no line break followed by `&nbsp;`. */
  lemma NameBreakFree(t: string, name: string)
    requires name == "&nbsp;" && !Contains(t, name)
    ensures !Contains(t, "\n&nbsp;")
  {
    assert "\n&nbsp;" == "\n" + name;
    if Contains(t, "\n" + name) {
      ContainsPart(t, "\n", name);
    }
  }

  /** Names longer than the text do not occur in it, so the table leaves it alone. */
  lemma {:induction false} ApplyTableShort(s: string, order: seq<(string, string)>)
    requires forall j :: 0 <= j < |order| ==> |order[j].0| > |s|
    ensures NamesNonEmpty(order) && ApplyTable(s, order) == s
    decreases |order|
  {
    if order != [] {
      ApplyTableShort(s, order[..|order| - 1]);
    }
  }

  // ------------------------------------------------------------ whole files

  datatype PreprocessError = Unreadable(file: string) | NoStatBlocks(file: string)

  /** The text inside `span`, clipped to the text (a regex match span always lies inside it). */
  function Clip(t: string, span: (nat, nat)): (r: string)
    ensures exists a, b :: 0 <= a <= b <= |t| && r == t[a..b]
  {
    var a := if span.0 <= |t| then span.0 else |t|;
    var b := if span.1 < a then a else if span.1 <= |t| then span.1 else |t|;
    t[a..b]
  }

  /**
    One file's text after reading: tags stripped, the stat-block region
    kept (`keep` stands for the search with `KEEP_PATTERN`), line break +
    `&nbsp;` deleted, then the entity table applied.
  */
  function CleanFile(raw: string, keep: string -> Option<(nat, nat)>, order: seq<(string, string)>): (r: Option<string>)
    requires multiset(order) == multiset(Entities)
    ensures r.None? <==> keep(StripTags(raw)).None?
    ensures r.Some? ==> forall k :: 0 <= k < |Entities| ==> !Contains(r.value, Entities[k].0)
    ensures r.Some? ==> !Contains(r.value, "\n&nbsp;")
  {
    var stripped := StripTags(raw);
    match keep(stripped)
    case None => None
    case Some(span) =>
      NoEntityLeft(ReplaceAll(Clip(stripped, span), "\n&nbsp;", ""), order);
      NoBreakLeft(ReplaceAll(Clip(stripped, span), "\n&nbsp;", ""), order);
      Some(ApplyTable(ReplaceAll(Clip(stripped, span), "\n&nbsp;", ""), order))
  }

  /**
    All files, in order, concatenated; the first file that cannot be read
    or has no stat-block region ends the run.
  */
  function CleanFiles(names: seq<string>, read: string -> Option<string>,
                      keep: string -> Option<(nat, nat)>, order: seq<(string, string)>): (r: Result<string, PreprocessError>)
    requires multiset(order) == multiset(Entities)
    ensures r.Err? ==> r.error.file in names
    decreases |names|
  {
    if names == [] then Ok("")
    else
      var name := names[|names| - 1];
      match CleanFiles(names[..|names| - 1], read, keep, order)
      case Err(e) => Err(e)
      case Ok(done) =>
        match read(name)
        case None => Err(Unreadable(name))
        case Some(raw) =>
          match CleanFile(raw, keep, order)
          case None => Err(NoStatBlocks(name))
          case Some(text) => Ok(done + text)
  }

  /** The entity loop of `preprocessHtml`: each entry replaced in turn, in the given order. */
  method ReplaceEntities(base: string, order: seq<(string, string)>) returns (processed: string)
    requires multiset(order) == multiset(Entities)
    ensures NamesNonEmpty(order) && processed == ApplyTable(base, order)
  {
    NoEntityLeft("", order);
    processed := base;
    var j := 0;
    while j < |order|
      invariant 0 <= j <= |order|
      invariant NamesNonEmpty(order[..j])
      invariant processed == ApplyTable(base, order[..j])
    {
      assert order[..j + 1][..j] == order[..j];
      processed := ReplaceAll(processed, order[j].0, order[j].1);
      j := j + 1;
    }
    assert order[..|order|] == order;
  }

  /** One more file appended to a run that has gone well so far. */
  lemma CleanFilesSnoc(names: seq<string>, i: nat, read: string -> Option<string>,
                       keep: string -> Option<(nat, nat)>, order: seq<(string, string)>, done: string)
    requires multiset(order) == multiset(Entities)
    requires i < |names| && CleanFiles(names[..i], read, keep, order) == Ok(done)
    ensures CleanFiles(names[..i + 1], read, keep, order) ==
      match read(names[i])
      case None => Err(Unreadable(names[i]))
      case Some(raw) =>
        match CleanFile(raw, keep, order)
        case None => Err(NoStatBlocks(names[i]))
        case Some(text) => Ok(done + text)
  {
    assert names[..i + 1][..i] == names[..i];
  }

  /** The first error ends the run: it is the result of the whole list. */
  lemma {:induction false} CleanFilesStops(names: seq<string>, i: nat, read: string -> Option<string>,
                                           keep: string -> Option<(nat, nat)>, order: seq<(string, string)>)
    requires multiset(order) == multiset(Entities)
    requires i <= |names| && CleanFiles(names[..i], read, keep, order).Err?
    ensures CleanFiles(names, read, keep, order) == CleanFiles(names[..i], read, keep, order)
    decreases |names| - i
  {
    if i < |names| {
      assert names[..|names| - 1][..i] == names[..i];
      CleanFilesStops(names[..|names| - 1], i, read, keep, order);
    } else {
      assert names[..i] == names;
    }
  }

  /**
    `preprocessHtml`: reads every file of the list (`read` stands for
    opening and reading a file), cleans it and appends it to the result.
  */
  method PreprocessHtml(files: string, read: string -> Option<string>,
                        keep: string -> Option<(nat, nat)>, order: seq<(string, string)>)
    returns (r: Result<string, PreprocessError>)
    requires multiset(order) == multiset(Entities)
    ensures r == CleanFiles(FileNames(files), read, keep, order)
  {
    var names := FileNames(files);
    var results := "";
    var i := 0;
    while i < |names|
      invariant 0 <= i <= |names|
      invariant CleanFiles(names[..i], read, keep, order) == Ok(results)
    {
      var name := names[i];
      CleanFilesSnoc(names, i, read, keep, order, results);
      var raw := read(name);
      if raw.None? {
        CleanFilesStops(names, i + 1, read, keep, order);
        return Err(Unreadable(name));
      }
      var processed := CleanOne(raw.value, keep, order);
      if processed.None? {
        CleanFilesStops(names, i + 1, read, keep, order);
        return Err(NoStatBlocks(name));
      }
      results := results + processed.value;
      i := i + 1;
    }
    assert names[..|names|] == names;
    r := Ok(results);
  }

  /** The body of the file loop for one file's text: strip, cut out the stat blocks, clean up. */
  method CleanOne(raw: string, keep: string -> Option<(nat, nat)>, order: seq<(string, string)>)
    returns (processed: Option<string>)
    requires multiset(order) == multiset(Entities)
    ensures processed == CleanFile(raw, keep, order)
  {
    var stripped := StripTags(raw);
    var span := keep(stripped);
    if span.None? {
      return None;
    }
    var text := ReplaceAll(Clip(stripped, span.value), "\n&nbsp;", "");
    text := ReplaceEntities(text, order);
    return Some(text);
  }

  // ------------------------------------------------------- what is not promised

  /** The pass that deletes line break + `&nbsp;` can itself leave one behind. */
  lemma BreakCleanupCanLeaveOne()
    ensures ReplaceAll("\n\n&nbsp;&nbsp;", "\n&nbsp;", "") == "\n&nbsp;"
  {
    var s := "\n\n&nbsp;&nbsp;";
    assert s[..7][1] != "\n&nbsp;"[1];
    assert s[1..][..7] == "\n&nbsp;";
    assert s[1..][7..] == "&nbsp;";
    assert ReplaceAll("&nbsp;", "\n&nbsp;", "") == "&nbsp;";
  }

  /** A text shorter than every entity name passes through the table unchanged. */
  lemma ShortUntouched(x: string, order: seq<(string, string)>)
    requires multiset(order) == multiset(Entities) && |x| < 6
    ensures NamesNonEmpty(order) && ApplyTable(x, order) == x
  {
    OrderOfTable(order);
    ApplyTableShort(x, order);
  }

  /** A text without `<` is its own stripped form and its own whole-text region. */
  lemma WholeKept(x: string)
    requires '<' !in x
    ensures StripTags(x) == x && Clip(x, (0, |x|)) == x
  {
    StripTagsNoOpener(x);
  }

  /** The broken tag is not a tag: the line break comes before its `>`. */
  lemma BrokenTagKept()
    ensures StripTags("<a\n&nbsp;>") == "<a\n&nbsp;>"
  {
    var s := "<a\n&nbsp;>";
    forall k ensures !TagAt(s, 0, k) {
      if 3 <= k { assert s[2] == '\n'; }
      if k == 2 { assert s[2] != '>'; }
    }
    StripTagsNoOpener(s[1..]);
  }

  /** The clean-up deletes the break and joins the tag back. */
  lemma BrokenTagJoined()
    ensures ReplaceAll("<a\n&nbsp;>", "\n&nbsp;", "") == "<a>"
  {
    var s := "<a\n&nbsp;>";
    assert s[..7] != "\n&nbsp;" && s[1..][..7] != "\n&nbsp;";
    assert s[2..][..7] == "\n&nbsp;" && s[2..][7..] == ">";
  }

  /**
    A tag broken by a line break + `&nbsp;` survives stripping and is
    joined back by the clean-up, so a cleaned file can still hold a tag.
  */
  lemma TagCanSurviveCleanup(order: seq<(string, string)>)
    requires multiset(order) == multiset(Entities)
    ensures CleanFile("<a\n&nbsp;>", KeepAll, order) == Some("<a>")
    ensures TagAt("<a>", 0, 2)
  {
    var s := "<a\n&nbsp;>";
    BrokenTagKept();
    assert Clip(s, (0, |s|)) == s;
    BrokenTagJoined();
    ShortUntouched("<a>", order);
  }

  /** A short text without `<` or line breaks comes out of the clean-up as it went in. */
  lemma PlainShortClean(x: string, order: seq<(string, string)>)
    requires multiset(order) == multiset(Entities)
    requires '<' !in x && '\n' !in x && |x| < 6
    ensures CleanFile(x, KeepAll, order) == Some(x)
  {
    WholeKept(x);
    ReplaceWithoutFirst(x, "\n&nbsp;", "");
    ShortUntouched(x, order);
  }

  /** Two files, `a` holding `&mi` and `b` holding `nus;`. */
  function TwoParts(n: string): Option<string> {
    if n == "a" then Some("&mi") else Some("nus;")
  }

  /** A stat-block search that keeps the whole text. */
  function KeepAll(t: string): Option<(nat, nat)> {
    Some((0, |t|))
  }

  /**
    Each file is cleaned on its own: two clean files can meet in an entity
    once concatenated.
  */
  lemma EntityAcrossFiles(order: seq<(string, string)>)
    requires multiset(order) == multiset(Entities)
    ensures CleanFiles(["a", "b"], TwoParts, KeepAll, order) == Ok("&minus;")
  {
    PlainFilesJoin(TwoParts, "&mi", "nus;", order);
    MinusSplit();
  }

  lemma MinusSplit()
    ensures "&mi" + "nus;" == "&minus;"
  {
    var a, b := "&mi", "nus;";
    assert forall i :: 0 <= i < 7 ==> (a + b)[i] == "&minus;"[i];
  }

  /** Two short plain files `a` and `b` come out of the run as their concatenation. */
  lemma PlainFilesJoin(read: string -> Option<string>, x: string, y: string, order: seq<(string, string)>)
    requires multiset(order) == multiset(Entities)
    requires read("a") == Some(x) && read("b") == Some(y)
    requires '<' !in x && '\n' !in x && |x| < 6 && '<' !in y && '\n' !in y && |y| < 6
    ensures CleanFiles(["a", "b"], read, KeepAll, order) == Ok(x + y)
  {
    PlainFileAlone(read, x, order);
    PlainShortClean(y, order);
    var two: seq<string> := ["a", "b"];
    assert two[..1] == ["a"] && two[..2] == two;
    CleanFilesSnoc(two, 1, read, KeepAll, order, x);
  }

  lemma PlainFileAlone(read: string -> Option<string>, x: string, order: seq<(string, string)>)
    requires multiset(order) == multiset(Entities)
    requires read("a") == Some(x) && '<' !in x && '\n' !in x && |x| < 6
    ensures CleanFiles(["a"], read, KeepAll, order) == Ok(x)
  {
    PlainShortClean(x, order);
    var one: seq<string> := ["a"];
    assert one[..0] == [] && one[..1] == one;
    CleanFilesSnoc(one, 0, read, KeepAll, order, "");
    assert "" + x == x;
  }
}
