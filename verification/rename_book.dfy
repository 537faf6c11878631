/** The book-renaming tool (`scripts/rename_book.py`): the rewriting of
    strings inside JSON metadata, the book's names as the configuration
    gives them, the `.env` update, where the output folder and the display
    name go, and the refusal to rename a book to its own id. Moving
    directories, reading and writing files and prompting are not part of
    this model; a file's content is a parameter. */
module RenameBook {
  import opened Wrappers
  import opened Text
  import opened Seqs
  import opened OrderedDicts
  import opened PyValues

  // ---------------------------------------------------------------------
  // Rewriting strings in JSON data

  /** The text after each replacement in turn; a pair with an empty old
      text is skipped. */
  function Replaced(s: string, reps: seq<(string, string)>): string
    decreases |reps|
  {
    if reps == [] then s
    else
      var before := Replaced(s, reps[..|reps| - 1]);
      var (pat, rep) := reps[|reps| - 1];
      if pat != [] then ReplaceAll(before, pat, rep) else before
  }

  /** The loop over the replacements in `_replace_strings`' text case. */
  method ReplaceInText(s: string, reps: seq<(string, string)>) returns (updated: string)
    ensures updated == Replaced(s, reps)
  {
    updated := s;
    for i := 0 to |reps|
      invariant updated == Replaced(s, reps[..i])
    {
      assert reps[..i + 1][..i] == reps[..i];
      var (pat, rep) := reps[i];
      if pat != [] {
        updated := ReplaceAll(updated, pat, rep);
      }
    }
    assert reps[..|reps|] == reps;
  }

  /** Two values have the same shape: dictionaries with the same keys in the
      same order and values of the same shape, lists of the same length
      with items of the same shape, two texts, or the same other value. */
  predicate SameShape(a: Value, b: Value)
    decreases a
  {
    match a
    case VDict(ea) =>
      b.VDict? && |ea| == |b.entries| &&
      forall k :: 0 <= k < |ea| ==> ea[k].0 == b.entries[k].0 && SameShape(ea[k].1, b.entries[k].1)
    case VList(ia) =>
      b.VList? && |ia| == |b.items| && forall k :: 0 <= k < |ia| ==> SameShape(ia[k], b.items[k])
    case VStr(_) => b.VStr?
    case _ => b == a
  }

  /** `_replace_strings`: every text inside dictionaries and lists is
      rewritten; keys, list lengths and every other value are kept. */
  function ReplaceStrings(obj: Value, reps: seq<(string, string)>): (r: Value)
    ensures SameShape(obj, r)
    ensures obj.VStr? ==> r == VStr(Replaced(obj.s, reps))
    ensures !(obj.VDict? || obj.VList? || obj.VStr?) ==> r == obj
    decreases obj
  {
    match obj
    case VDict(entries) => VDict(ReplaceEntries(entries, reps))
    case VList(items) => VList(ReplaceItems(items, reps))
    case VStr(s) => VStr(Replaced(s, reps))
    case _ => obj
  }

  function ReplaceItems(items: seq<Value>, reps: seq<(string, string)>): (r: seq<Value>)
    ensures |r| == |items| && forall k :: 0 <= k < |r| ==> r[k] == ReplaceStrings(items[k], reps)
    decreases items
  {
    if items == [] then []
    else ReplaceItems(items[..|items| - 1], reps) + [ReplaceStrings(items[|items| - 1], reps)]
  }

  function ReplaceEntries(entries: seq<(string, Value)>, reps: seq<(string, string)>): (r: seq<(string, Value)>)
    ensures |r| == |entries|
    ensures forall k :: 0 <= k < |r| ==> r[k].0 == entries[k].0 && SameShape(entries[k].1, r[k].1)
    decreases entries
  {
    if entries == [] then []
    else
      var last := entries[|entries| - 1];
      assert last in entries && last.1 < last;
      ReplaceEntries(entries[..|entries| - 1], reps) + [(last.0, ReplaceStrings(last.1, reps))]
  }

  /** Each entry keeps its key and has its value rewritten. */
  lemma {:induction false} ReplaceEntriesAt(entries: seq<(string, Value)>, reps: seq<(string, string)>, k: nat)
    requires k < |entries|
    ensures ReplaceEntries(entries, reps)[k] == (entries[k].0, ReplaceStrings(entries[k].1, reps))
    decreases |entries|
  {
    var n := |entries| - 1;
    if k < n {
      ReplaceEntriesAt(entries[..n], reps, k);
    }
  }

  /** A replacement of a text by itself changes nothing. */
  lemma {:induction false} ReplaceAllSame(s: string, pat: string)
    requires |pat| > 0
    ensures ReplaceAll(s, pat, pat) == s
    decreases |s|
  {
    if |s| >= |pat| {
      if s[..|pat|] == pat {
        ReplaceAllSame(s[|pat|..], pat);
        assert pat + s[|pat|..] == s;
      } else {
        ReplaceAllSame(s[1..], pat);
        assert [s[0]] + s[1..] == s;
      }
    }
  }

  /** Pairs that rename nothing. */
  predicate Inert(reps: seq<(string, string)>) {
    forall k :: 0 <= k < |reps| ==> reps[k].0 == reps[k].1
  }

  lemma {:induction false} ReplacedInert(s: string, reps: seq<(string, string)>)
    requires Inert(reps)
    ensures Replaced(s, reps) == s
    decreases |reps|
  {
    if reps != [] {
      var n := |reps| - 1;
      ReplacedInert(s, reps[..n]);
      if reps[n].0 != [] {
        ReplaceAllSame(s, reps[n].0);
      }
    }
  }

  /** Replacements that rename nothing leave any JSON value as it was. */
  lemma {:induction false} ReplaceStringsInert(obj: Value, reps: seq<(string, string)>)
    requires Inert(reps)
    ensures ReplaceStrings(obj, reps) == obj
    decreases obj
  {
    match obj
    case VDict(entries) =>
      forall k | 0 <= k < |entries|
        ensures ReplaceEntries(entries, reps)[k] == entries[k]
      {
        assert entries[k] in entries && entries[k].1 < entries[k];
        ReplaceStringsInert(entries[k].1, reps);
        ReplaceEntriesAt(entries, reps, k);
      }
      assert ReplaceEntries(entries, reps) == entries;
    case VList(items) =>
      forall k | 0 <= k < |items|
        ensures ReplaceStrings(items[k], reps) == items[k]
      {
        ReplaceStringsInert(items[k], reps);
      }
      assert ReplaceItems(items, reps) == items;
    case VStr(s) =>
      ReplacedInert(s, reps);
    case _ =>
  }

  predicate HasOld(pair: (string, string)) { pair.0 != [] }

  /** Pairs with an empty old text may as well not be there. */
  lemma {:induction false} ReplacedSkipsEmpty(s: string, reps: seq<(string, string)>)
    ensures Replaced(s, reps) == Replaced(s, Filter(reps, HasOld))
    decreases |reps|
  {
    if reps != [] {
      var n := |reps| - 1;
      ReplacedSkipsEmpty(s, reps[..n]);
      var kept := Filter(reps[..n], HasOld);
      assert reps[..n] + [reps[n]] == reps;
      if HasOld(reps[n]) {
        assert Filter(reps, HasOld) == kept + [reps[n]];
        assert (kept + [reps[n]])[..|kept|] == kept;
      } else {
        assert Filter(reps, HasOld) == kept;
      }
    }
  }

  // ---------------------------------------------------------------------
  // The update of JSON metadata files

  /** `d[key] = value` only when `key in d`. */
  function SetIfPresent(entries: seq<(string, Value)>, key: string, value: Value): (r: seq<(string, Value)>)
    ensures Keys(r) == Keys(entries)
    ensures HasKey(entries, key) ==> Get(r, key) == Some(value)
    ensures forall other :: other != key ==> Get(r, other) == Get(entries, other)
  {
    if HasKey(entries, key) then
      PutOthers(entries, key, value);
      Put(entries, key, value)
    else entries
  }

  lemma PutOthers(entries: seq<(string, Value)>, key: string, value: Value)
    requires HasKey(entries, key)
    ensures Keys(Put(entries, key, value)) == Keys(entries)
    ensures Get(Put(entries, key, value), key) == Some(value)
    ensures forall other :: other != key ==> Get(Put(entries, key, value), other) == Get(entries, other)
  {
    forall other | other != key
      ensures Get(Put(entries, key, value), other) == Get(entries, other)
    {
      PutGet(entries, key, value, other);
    }
    PutGet(entries, key, value, key);
  }

  /** The `transform` of `_update_json_tree`: the strings rewritten, then
      the book's id, name, chapter folder, summaries folder and, for the
      output tree, output folder set where the payload has them. A
      dictionary keeps its keys in order; anything else is only rewritten. */
  function TransformPayload(payload: Value, reps: seq<(string, string)>, bookId: string, bookName: Value,
                            dataDir: string, outputDir: Option<string>): (r: Value)
    ensures payload.VDict? ==> r.VDict? && Keys(r.entries) == Keys(payload.entries)
    ensures !payload.VDict? ==> r == ReplaceStrings(payload, reps)
  {
    var p := ReplaceStrings(payload, reps);
    if p.VDict? then
      assert Keys(p.entries) == Keys(payload.entries);
      var e1 := SetIfPresent(p.entries, "book_id", VStr(bookId));
      var e2 := SetIfPresent(e1, "book_name", bookName);
      var e3 := SetIfPresent(e2, "chapters_dir", VStr(dataDir));
      var e4 := SetIfPresent(e3, "summaries_dir", VStr(dataDir + "/summaries"));
      var e5 := if outputDir.Some? then SetIfPresent(e4, "output_dir", VStr(outputDir.value)) else e4;
      VDict(e5)
    else p
  }

  /** A payload that names its book ends up naming the new id, and one
      that has an output folder ends up with the new one when an output
      folder is given; every other key reads its rewritten value. */
  lemma TransformSetsBook(payload: Value, reps: seq<(string, string)>, bookId: string, bookName: Value,
                          dataDir: string, outputDir: Option<string>, other: string)
    requires payload.VDict?
    ensures var r := TransformPayload(payload, reps, bookId, bookName, dataDir, outputDir);
      && (HasKey(payload.entries, "book_id") ==> Get(r.entries, "book_id") == Some(VStr(bookId)))
      && (HasKey(payload.entries, "output_dir") && outputDir.Some? ==>
            Get(r.entries, "output_dir") == Some(VStr(outputDir.value)))
      && (other !in {"book_id", "book_name", "chapters_dir", "summaries_dir", "output_dir"} ==>
            Get(r.entries, other) == Get(ReplaceStrings(payload, reps).entries, other))
  {
    var p := ReplaceStrings(payload, reps);
    assert Keys(p.entries) == Keys(payload.entries);
    KeysHasKey(p.entries, payload.entries, "book_id");
    KeysHasKey(p.entries, payload.entries, "output_dir");
  }

  /** Dictionaries with the same keys in the same order have the same keys. */
  lemma KeysHasKey(a: seq<(string, Value)>, b: seq<(string, Value)>, key: string)
    requires Keys(a) == Keys(b)
    ensures HasKey(a, key) <==> HasKey(b, key)
  {
    if HasKey(b, key) {
      var i := IndexOf(b, key).value;
      assert Keys(a)[i] == key;
      assert a[i].0 == key;
    }
    if HasKey(a, key) {
      var i := IndexOf(a, key).value;
      assert Keys(b)[i] == key;
      assert b[i].0 == key;
    }
  }

  // ---------------------------------------------------------------------
  // The book's names in the configuration

  /** What `_gather_book_metadata` returns. */
  datatype Metadata = Metadata(
    defaults: seq<(string, Value)>,
    overrides: seq<(string, Value)>,
    overridesMap: seq<(string, Value)>,
    displayName: Value,
    outputFolder: Value,
    summarySubdir: Value)

  /** Why `_gather_book_metadata` raises: `.get` on an overrides table that
      is not a dictionary, `dict()` of defaults that are not one, or
      `update` with overrides that are not one. */
  datatype MetadataError = OverridesMapNotDict | DefaultsNotDict | OverridesNotDict

  /** `d.get(key, {})` on a dictionary value, `{}` on anything else. */
  function Section(v: Value, key: string): Value {
    if v.VDict? then GetOr(v.entries, key, VDict([])) else VDict([])
  }

  /** The display name: the override's `display_name`, the merged
      `book_name`, or the id. */
  function DisplayName(overrides: seq<(string, Value)>, merged: seq<(string, Value)>, oldId: string): Value {
    Or(GetOr(overrides, "display_name", VNone), Or(GetOr(merged, "book_name", VNone), VStr(oldId)))
  }

  /** The output folder: the override's `output_folder`, the merged
      `book_name_override`, the merged `book_name`, the override's
      `display_name`, or the display name. */
  function OutputFolder(overrides: seq<(string, Value)>, merged: seq<(string, Value)>, oldId: string): Value {
    Or(GetOr(overrides, "output_folder", VNone),
      Or(GetOr(merged, "book_name_override", VNone),
        Or(GetOr(merged, "book_name", VNone),
          Or(GetOr(overrides, "display_name", VNone), DisplayName(overrides, merged, oldId)))))
  }

  /** `_gather_book_metadata`: the book's defaults and overrides, merged
      with the overrides winning, and the names read from them. */
  function GatherBookMetadata(config: Value, oldId: string): (r: Result<Metadata, MetadataError>)
    ensures var map_ := Section(Section(config, "books"), "overrides");
      !map_.VDict? <==> r == Err(OverridesMapNotDict)
    ensures r.Ok? ==> r.value.displayName == DisplayName(r.value.overrides, Update(r.value.defaults, r.value.overrides), oldId)
    ensures r.Ok? ==> r.value.outputFolder == OutputFolder(r.value.overrides, Update(r.value.defaults, r.value.overrides), oldId)
    ensures r.Ok? ==> r.value.summarySubdir == GetOr(Update(r.value.defaults, r.value.overrides), "summary_subdir", VStr("summaries"))
  {
    var books := Section(config, "books");
    var defaults := Section(books, "defaults");
    var overridesMap := Section(books, "overrides");
    if !overridesMap.VDict? then Err(OverridesMapNotDict)
    else
      var overrides := Or(GetOr(overridesMap.entries, oldId, VDict([])), VDict([]));
      if !defaults.VDict? then Err(DefaultsNotDict)
      else if !overrides.VDict? then Err(OverridesNotDict)
      else
        var merged := Update(defaults.entries, overrides.entries);
        Ok(Metadata(defaults.entries, overrides.entries, overridesMap.entries,
          DisplayName(overrides.entries, merged, oldId),
          OutputFolder(overrides.entries, merged, oldId),
          GetOr(merged, "summary_subdir", VStr("summaries"))))
  }

  /** The names are never empty for a non-empty id. */
  lemma NamesTruthy(overrides: seq<(string, Value)>, merged: seq<(string, Value)>, oldId: string)
    requires oldId != []
    ensures Truthy(DisplayName(overrides, merged, oldId)) && Truthy(OutputFolder(overrides, merged, oldId))
  {
  }

  /** The override's `display_name` never decides the output folder: past
      the first three sources the output folder is the display name. */
  lemma OutputFolderFallsBack(overrides: seq<(string, Value)>, merged: seq<(string, Value)>, oldId: string)
    ensures OutputFolder(overrides, merged, oldId) ==
      Or(GetOr(overrides, "output_folder", VNone),
        Or(GetOr(merged, "book_name_override", VNone),
          Or(GetOr(merged, "book_name", VNone), DisplayName(overrides, merged, oldId))))
  {
    var b := GetOr(merged, "book_name", VNone);
    var d := GetOr(overrides, "display_name", VNone);
    var disp := DisplayName(overrides, merged, oldId);
    if !Truthy(b) && Truthy(d) {
      assert disp == d;
    }
  }

  /** A merged setting reads as the override when the override has it and
      as the default otherwise. */
  lemma MergedReadsOverrides(defaults: seq<(string, Value)>, overrides: seq<(string, Value)>, key: string)
    requires DistinctKeys(overrides)
    ensures GetOr(Update(defaults, overrides), key, VNone) ==
      if HasKey(overrides, key) then GetOr(overrides, key, VNone) else GetOr(defaults, key, VNone)
  {
    UpdateGet(defaults, overrides, key);
  }

  // ---------------------------------------------------------------------
  // The .env update

  const IdPrefix: string := "STORY_BOOK_ID="
  const NamePrefix: string := "STORY_BOOK_NAME="

  /** A line `_update_env` rewrites: the id line holding exactly the old
      id, or the name line holding exactly the old name. */
  predicate Rewrites(line: string, oldId: string, oldName: Value) {
    if IdPrefix <= line then line[|IdPrefix|..] == oldId
    else NamePrefix <= line && VStr(line[|NamePrefix|..]) == oldName
  }

  /** Some line is rewritten. */
  predicate AnyRewrite(lines: seq<string>, oldId: string, oldName: Value) {
    exists k :: 0 <= k < |lines| && Rewrites(lines[k], oldId, oldName)
  }

  /** A line after the update. */
  function EnvLine(line: string, oldId: string, newId: string, oldName: Value, newName: Value): (r: string)
    ensures !Rewrites(line, oldId, oldName) ==> r == line
    ensures Rewrites(line, oldId, oldName) && IdPrefix <= line ==> r == IdPrefix + newId
    ensures Rewrites(line, oldId, oldName) && !(IdPrefix <= line) ==> r == NamePrefix + Str(newName)
  {
    if IdPrefix <= line then
      if line[|IdPrefix|..] == oldId then IdPrefix + newId else line
    else if NamePrefix <= line then
      if VStr(line[|NamePrefix|..]) == oldName then NamePrefix + Str(newName) else line
    else line
  }

  function EnvLines(lines: seq<string>, oldId: string, newId: string, oldName: Value, newName: Value): (r: seq<string>)
    ensures |r| == |lines| && forall k :: 0 <= k < |r| ==> r[k] == EnvLine(lines[k], oldId, newId, oldName, newName)
  {
    seq(|lines|, k requires 0 <= k < |lines| => EnvLine(lines[k], oldId, newId, oldName, newName))
  }

  /** `_update_env` on the file's content (`None` when the file is
      missing): whether a line was rewritten, and the text written back,
      which is nothing when no line was. */
  method UpdateEnv(env: Option<string>, oldId: string, newId: string, oldName: Value, newName: Value)
    returns (changed: bool, written: Option<string>)
    ensures env.None? ==> !changed && written.None?
    ensures env.Some? ==> (changed <==> AnyRewrite(Splitlines(env.value), oldId, oldName))
    ensures changed ==> env.Some? && written == Some(Join("\n", EnvLines(Splitlines(env.value), oldId, newId, oldName, newName)) + "\n")
    ensures !changed ==> written.None?
  {
    if env.None? {
      return false, None;
    }
    var raw := Splitlines(env.value);
    var lines;
    lines, changed := RewriteLines(raw, oldId, newId, oldName, newName);
    written := if changed then Some(Join("\n", lines) + "\n") else None;
  }

  /** The loop of `_update_env` over the file's lines. */
  method RewriteLines(raw: seq<string>, oldId: string, newId: string, oldName: Value, newName: Value)
    returns (lines: seq<string>, changed: bool)
    ensures lines == EnvLines(raw, oldId, newId, oldName, newName)
    ensures changed <==> AnyRewrite(raw, oldId, oldName)
  {
    changed := false;
    lines := [];
    for i := 0 to |raw|
      invariant lines == EnvLines(raw[..i], oldId, newId, oldName, newName)
      invariant changed <==> AnyRewrite(raw[..i], oldId, oldName)
    {
      EnvLinesSnoc(raw, i, oldId, newId, oldName, newName);
      var line := raw[i];
      if IdPrefix <= line {
        var value := line[|IdPrefix|..];
        if value == oldId {
          line := IdPrefix + newId;
          changed := true;
        }
      } else if NamePrefix <= line {
        var value := line[|NamePrefix|..];
        if VStr(value) == oldName {
          line := NamePrefix + Str(newName);
          changed := true;
        }
      }
      lines := lines + [line];
    }
    assert raw[..|raw|] == raw;
  }

  lemma EnvLinesSnoc(raw: seq<string>, i: nat, oldId: string, newId: string, oldName: Value, newName: Value)
    requires i < |raw|
    ensures EnvLines(raw[..i + 1], oldId, newId, oldName, newName) == EnvLines(raw[..i], oldId, newId, oldName, newName) + [EnvLine(raw[i], oldId, newId, oldName, newName)]
    ensures AnyRewrite(raw[..i + 1], oldId, oldName) <==> AnyRewrite(raw[..i], oldId, oldName) || Rewrites(raw[i], oldId, oldName)
  {
    var a, b := raw[..i], raw[..i + 1];
    assert b == a + [raw[i]];
    AnyRewriteSnoc(a, raw[i], oldId, oldName);
  }

  lemma AnyRewriteSnoc(a: seq<string>, line: string, oldId: string, oldName: Value)
    ensures AnyRewrite(a + [line], oldId, oldName) <==> AnyRewrite(a, oldId, oldName) || Rewrites(line, oldId, oldName)
  {
    var b := a + [line];
    if AnyRewrite(b, oldId, oldName) && !Rewrites(line, oldId, oldName) {
      var k :| 0 <= k < |b| && Rewrites(b[k], oldId, oldName);
      assert k < |a| && a[k] == b[k];
    }
    if AnyRewrite(a, oldId, oldName) {
      var k :| 0 <= k < |a| && Rewrites(a[k], oldId, oldName);
      assert b[k] == a[k];
    }
    if Rewrites(line, oldId, oldName) {
      assert b[|a|] == line;
    }
  }

  /** Once updated, the lines need no further update: a second run with the
      same names changes nothing, as long as the new id and name differ
      from the old ones. */
  lemma EnvUpdateSettles(lines: seq<string>, oldId: string, newId: string, oldName: Value, newName: Value)
    requires oldId != newId && VStr(Str(newName)) != oldName
    ensures forall k :: 0 <= k < |lines| ==> !Rewrites(EnvLines(lines, oldId, newId, oldName, newName)[k], oldId, oldName)
  {
    forall k | 0 <= k < |lines|
      ensures !Rewrites(EnvLines(lines, oldId, newId, oldName, newName)[k], oldId, oldName)
    {
      var line := lines[k];
      if Rewrites(line, oldId, oldName) {
        if IdPrefix <= line {
          assert (IdPrefix + newId)[|IdPrefix|..] == newId;
        } else {
          var out := NamePrefix + Str(newName);
          assert out[|NamePrefix|..] == Str(newName);
          assert !(IdPrefix <= out) by {
            assert out[11] == 'N' && IdPrefix[11] == 'I';
          }
        }
      }
    }
  }

  // ---------------------------------------------------------------------
  // Renaming a book

  /** The new output folder: the one given, else the new id when the folder
      was named after the old id, else the folder unchanged. */
  function ResolveName(explicit: string, current: Value, oldId: string, newId: string): (r: Value)
    ensures explicit != [] ==> r == VStr(explicit)
    ensures explicit == [] && current == VStr(oldId) ==> r == VStr(newId)
    ensures explicit == [] && current != VStr(oldId) ==> r == current
  {
    if explicit != [] then VStr(explicit) else if current == VStr(oldId) then VStr(newId) else current
  }

  /** Without an explicit name, nothing stays named after the old id. */
  lemma ResolveNameLeavesOldId(current: Value, oldId: string, newId: string)
    requires oldId != newId
    ensures ResolveName([], current, oldId, newId) != VStr(oldId)
  {
  }

  /** What `rename_book` decides: the configuration read, the folder and
      display name to use, whether the output folder moves, and the text
      replacements for the JSON files. */
  datatype RenamePlan = RenamePlan(
    metadata: Metadata,
    currentFolder: string,
    outputFolder: string,
    outputMoves: bool,
    displayName: Value,
    replacements: seq<(string, string)>)

  /** Why renaming stops: the same id twice (`main`), the configuration,
      a missing data folder, a data or output folder already taken, or an
      output folder name that is not a text. `OutputFolderTaken` is raised
      only after the data folder has been moved (see `FolderMoves`). */
  datatype RenameError = SameIds | BadConfig(e: MetadataError) | DataFolderMissing | DataFolderTaken
                       | OutputFolderNotText | OutputFolderTaken

  /** `main` and `rename_book` up to their file changes: the folders that
      exist under the books and outputs roots are parameters; a display
      name or output folder of `""` is not given. */
  function PlanRename(config: Value, oldId: string, newId: string, displayName: string, outputFolder: string,
                      booksRoot: string, outputsRoot: string, dataFolders: set<string>, outputFolders: set<string>)
    : (r: Result<RenamePlan, RenameError>)
    ensures r == Err(SameIds) <==> oldId == newId
    ensures r.Ok? ==> oldId in dataFolders && newId !in dataFolders
    ensures r.Ok? ==> GatherBookMetadata(config, oldId) == Ok(r.value.metadata)
    ensures r.Ok? ==> r.value.metadata.outputFolder == VStr(r.value.currentFolder)
    ensures r.Ok? ==> VStr(r.value.outputFolder) == ResolveName(outputFolder, r.value.metadata.outputFolder, oldId, newId)
    ensures r.Ok? ==> r.value.displayName == ResolveName(displayName, r.value.metadata.displayName, oldId, newId)
    ensures r.Ok? ==> (r.value.outputMoves <==>
      r.value.currentFolder in outputFolders && r.value.currentFolder != r.value.outputFolder)
    ensures r.Ok? && r.value.outputMoves ==> r.value.outputFolder !in outputFolders
    ensures r == Err(OutputFolderTaken) ==>
      oldId in dataFolders && newId !in dataFolders &&
      GatherBookMetadata(config, oldId).Ok? && GatherBookMetadata(config, oldId).value.outputFolder.VStr?
  {
    if oldId == newId then Err(SameIds)
    else
      match GatherBookMetadata(config, oldId)
      case Err(e) => Err(BadConfig(e))
      case Ok(m) =>
        if oldId !in dataFolders then Err(DataFolderMissing)
        else if newId in dataFolders then Err(DataFolderTaken)
        else if !m.outputFolder.VStr? then Err(OutputFolderNotText)
        else
          var current := m.outputFolder.s;
          var resolved := ResolveName(outputFolder, m.outputFolder, oldId, newId).s;
          var moves := current in outputFolders && current != resolved;
          if moves && resolved in outputFolders then Err(OutputFolderTaken)
          else
            var reps := [(oldId, newId),
                         (booksRoot + "/" + oldId, booksRoot + "/" + newId),
                         ("data/" + oldId, "data/" + newId),
                         (outputsRoot + "/" + current, outputsRoot + "/" + resolved),
                         ("/" + current + "/", "/" + resolved + "/"),
                         ("\\" + current + "\\", "\\" + resolved + "\\")];
            Ok(RenamePlan(m, current, resolved, moves, ResolveName(displayName, m.displayName, oldId, newId), reps))
  }

  /** The folder moves made before the run ends with `r`, in order: none
      when it stops before step 1; the data folder alone when the new output
      folder is found taken, since that check comes after the data folder
      was moved; otherwise the data folder, then the output folder when it
      moves. */
  function FolderMoves(r: Result<RenamePlan, RenameError>, oldId: string, newId: string,
                       booksRoot: string, outputsRoot: string): (moves: seq<(string, string)>)
    ensures r.Err? && r.error != OutputFolderTaken ==> moves == []
    ensures r.Err? && r.error == OutputFolderTaken ==> moves == [(booksRoot + "/" + oldId, booksRoot + "/" + newId)]
    ensures r.Ok? ==> |moves| >= 1 && moves[0] == (booksRoot + "/" + oldId, booksRoot + "/" + newId)
    ensures r.Ok? ==> if r.value.outputMoves
      then moves[1..] == [(outputsRoot + "/" + r.value.currentFolder, outputsRoot + "/" + r.value.outputFolder)]
      else |moves| == 1
  {
    var data := (booksRoot + "/" + oldId, booksRoot + "/" + newId);
    match r
    case Err(e) => if e == OutputFolderTaken then [data] else []
    case Ok(p) =>
      if p.outputMoves then [data, (outputsRoot + "/" + p.currentFolder, outputsRoot + "/" + p.outputFolder)]
      else [data]
  }

  /** A taken output folder leaves the rename half done: the data folder
      has moved, while the output folder, the JSON files and `.env` are
      untouched. */
  lemma {:induction false} TakenOutputHalfDone(config: Value, oldId: string, newId: string, displayName: string, outputFolder: string,
                              booksRoot: string, outputsRoot: string, dataFolders: set<string>, outputFolders: set<string>)
    requires var m := GatherBookMetadata(config, oldId);
      oldId != newId && oldId in dataFolders && newId !in dataFolders && m.Ok? && m.value.outputFolder.VStr? &&
      m.value.outputFolder.s in outputFolders &&
      ResolveName(outputFolder, m.value.outputFolder, oldId, newId) != m.value.outputFolder &&
      ResolveName(outputFolder, m.value.outputFolder, oldId, newId).s in outputFolders
    ensures var r := PlanRename(config, oldId, newId, displayName, outputFolder, booksRoot, outputsRoot, dataFolders, outputFolders);
      r == Err(OutputFolderTaken) && FolderMoves(r, oldId, newId, booksRoot, outputsRoot) == [(booksRoot + "/" + oldId, booksRoot + "/" + newId)]
  {
  }

  /** The first replacement renames the id, and when the folder keeps its
      name the folder replacements rename nothing. */
  lemma PlanReplacements(config: Value, oldId: string, newId: string, displayName: string, outputFolder: string,
                         booksRoot: string, outputsRoot: string, dataFolders: set<string>, outputFolders: set<string>)
    requires PlanRename(config, oldId, newId, displayName, outputFolder, booksRoot, outputsRoot, dataFolders, outputFolders).Ok?
    ensures var p := PlanRename(config, oldId, newId, displayName, outputFolder, booksRoot, outputsRoot, dataFolders, outputFolders).value;
      && |p.replacements| == 6 && p.replacements[0] == (oldId, newId)
      && (p.metadata.outputFolder == VStr(p.outputFolder) ==> Inert(p.replacements[3..]))
  {
  }
}
