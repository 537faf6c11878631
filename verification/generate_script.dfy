/** The pure steps of `generate_script.py`, the single-narrator script
    generator: resolving one book's configuration, the chapter records and
    their previews, the context packet sent with each chapter, the cleanup
    of speaker tags and blank lines in a generated script, and the choice
    of chapters for one run. Cleaning and collecting the chapter files is
    `ChapterText`; their sort key is `NaturalSort`. */
module GenerateScript {
  import opened Wrappers
  import opened Text
  import opened OrderedDicts
  import opened PyValues
  import opened ChapterText
  import Seqs
  import NaturalSort

  // ------------------------------------------------------------ resolve_book_config

  /** `ValueError` without a book id; `FileNotFoundError` for a missing book
      folder; the `TypeError`s of a book's overrides that are not a
      dictionary and of a `summary_subdir` that is not a string. */
  datatype BookConfigError = MissingBookId | BookFolderMissing(path: string) | OverridesNotDict | SubdirNotText

  /** What `resolve_book_config` reads: the `--book-id` argument and the
      `STORY_BOOK_ID` variable (unset being ""), the resolved `books_root`
      and `outputs_root`, `books.defaults`, `books.overrides` (keyed by book
      id), and the folders that exist. */
  datatype BookSources = BookSources(argument: string, environment: string, booksRoot: string, outputsRoot: string,
    defaults: seq<(string, Value)>, overrides: seq<(string, Value)>, existing: set<string>)

  /** `Path(a) / b` for a relative `b`. */
  function JoinPath(a: string, b: string): string { a + "/" + b }

  /** `book_id or os.environ.get("STORY_BOOK_ID")` */
  function BookId(src: BookSources): string {
    if src.argument != [] then src.argument else src.environment
  }

  function BookDir(src: BookSources): string { JoinPath(src.booksRoot, BookId(src)) }

  /** `overrides.get(book_id, {})`, when it is a dictionary. */
  function BookOverrides(src: BookSources): Option<seq<(string, Value)>> {
    var v := Get(src.overrides, BookId(src));
    if v.None? then Some([])
    else if v.value.VDict? then Some(v.value.entries)
    else None
  }

  /** The text of a path component. */
  function PathText(v: Value): Option<string> {
    match v
    case VStr(s) => Some(s)
    case VPath(p) => Some(p)
    case _ => None
  }

  const FixedKeys: set<string> := {"book_id", "books_root", "outputs_root", "chapters_dir",
    "summary_subdir", "summary_suffix", "summaries_dir"}

  /** The seven assignments that follow `merged.update(overrides)`. */
  function Assigned(merged: seq<(string, Value)>, src: BookSources, subdir: Value, suffix: Value, summariesDir: string): seq<(string, Value)> {
    var m1 := Put(merged, "book_id", VStr(BookId(src)));
    var m2 := Put(m1, "books_root", VStr(src.booksRoot));
    var m3 := Put(m2, "outputs_root", VStr(src.outputsRoot));
    var m4 := Put(m3, "chapters_dir", VStr(BookDir(src)));
    var m5 := Put(m4, "summary_subdir", subdir);
    var m6 := Put(m5, "summary_suffix", suffix);
    Put(m6, "summaries_dir", VStr(summariesDir))
  }

  /** `book_name_override` from the book's `display_name`, when it is
      truthy and no override name was set. */
  function WithDisplayName(m: seq<(string, Value)>, bookOverrides: seq<(string, Value)>): seq<(string, Value)> {
    var name := GetOr(bookOverrides, "display_name", VNone);
    if !HasKey(m, "book_name_override") && Truthy(name) then Put(m, "book_name_override", name) else m
  }

  /** `resolve_book_config`: the book's defaults updated by its overrides,
      then the paths and summary settings assigned over them. */
  function ResolveBookConfig(src: BookSources): (r: Result<seq<(string, Value)>, BookConfigError>)
    ensures r == Err(MissingBookId) <==> BookId(src) == []
    ensures r == Err(BookFolderMissing(BookDir(src))) <==> BookId(src) != [] && BookDir(src) !in src.existing
    ensures r.Ok? ==> BookId(src) != [] && BookDir(src) in src.existing && BookOverrides(src).Some?
  {
    var bookId := BookId(src);
    if bookId == [] then Err(MissingBookId)
    else if BookDir(src) !in src.existing then Err(BookFolderMissing(BookDir(src)))
    else
      match BookOverrides(src)
      case None => Err(OverridesNotDict)
      case Some(bookOverrides) =>
        var merged := Update(src.defaults, bookOverrides);
        var subdir := GetOr(merged, "summary_subdir", VStr("summaries"));
        var suffix := GetOr(merged, "summary_suffix", VStr("_summary.txt"));
        match PathText(subdir)
        case None => Err(SubdirNotText)
        case Some(sub) =>
          Ok(WithDisplayName(Assigned(merged, src, subdir, suffix, JoinPath(BookDir(src), sub)), bookOverrides))
  }

  /** A setting read with its default: the book's override, else the
      shared default, else `fallback`. */
  function Layered(src: BookSources, bookOverrides: seq<(string, Value)>, key: string, fallback: Value): Value {
    if HasKey(bookOverrides, key) then Get(bookOverrides, key).value
    else if HasKey(src.defaults, key) then Get(src.defaults, key).value
    else fallback
  }

  /** Reading the merged dictionary: overrides win over defaults. */
  lemma MergedGet(src: BookSources, bookOverrides: seq<(string, Value)>, key: string, fallback: Value)
    requires DistinctKeys(bookOverrides)
    ensures GetOr(Update(src.defaults, bookOverrides), key, fallback) == Layered(src, bookOverrides, key, fallback)
  {
    UpdateGet(src.defaults, bookOverrides, key);
  }

  /** Every key except the assigned ones reads as in the merged dictionary. */
  lemma AssignedOther(merged: seq<(string, Value)>, src: BookSources, subdir: Value, suffix: Value, dir: string, key: string)
    requires key !in FixedKeys
    ensures Get(Assigned(merged, src, subdir, suffix, dir), key) == Get(merged, key)
  {
    var m1 := Put(merged, "book_id", VStr(BookId(src)));
    var m2 := Put(m1, "books_root", VStr(src.booksRoot));
    var m3 := Put(m2, "outputs_root", VStr(src.outputsRoot));
    var m4 := Put(m3, "chapters_dir", VStr(BookDir(src)));
    var m5 := Put(m4, "summary_subdir", subdir);
    var m6 := Put(m5, "summary_suffix", suffix);
    PutGet(merged, "book_id", VStr(BookId(src)), key);
    PutGet(m1, "books_root", VStr(src.booksRoot), key);
    PutGet(m2, "outputs_root", VStr(src.outputsRoot), key);
    PutGet(m3, "chapters_dir", VStr(BookDir(src)), key);
    PutGet(m4, "summary_subdir", subdir, key);
    PutGet(m5, "summary_suffix", suffix, key);
    PutGet(m6, "summaries_dir", VStr(dir), key);
  }

  /** The value assigned to each of the seven keys. */
  function FixedValue(src: BookSources, subdir: Value, suffix: Value, dir: string, key: string): Value {
    if key == "book_id" then VStr(BookId(src))
    else if key == "books_root" then VStr(src.booksRoot)
    else if key == "outputs_root" then VStr(src.outputsRoot)
    else if key == "chapters_dir" then VStr(BookDir(src))
    else if key == "summary_subdir" then subdir
    else if key == "summary_suffix" then suffix
    else VStr(dir)
  }

  /** The assigned keys read as assigned. */
  lemma AssignedFixed(merged: seq<(string, Value)>, src: BookSources, subdir: Value, suffix: Value, dir: string, key: string)
    requires key in FixedKeys
    ensures Get(Assigned(merged, src, subdir, suffix, dir), key) == Some(FixedValue(src, subdir, suffix, dir, key))
  {
    var m1 := Put(merged, "book_id", VStr(BookId(src)));
    var m2 := Put(m1, "books_root", VStr(src.booksRoot));
    var m3 := Put(m2, "outputs_root", VStr(src.outputsRoot));
    var m4 := Put(m3, "chapters_dir", VStr(BookDir(src)));
    var m5 := Put(m4, "summary_subdir", subdir);
    var m6 := Put(m5, "summary_suffix", suffix);
    PutGet(merged, "book_id", VStr(BookId(src)), key);
    PutGet(m1, "books_root", VStr(src.booksRoot), key);
    PutGet(m2, "outputs_root", VStr(src.outputsRoot), key);
    PutGet(m3, "chapters_dir", VStr(BookDir(src)), key);
    PutGet(m4, "summary_subdir", subdir, key);
    PutGet(m5, "summary_suffix", suffix, key);
    PutGet(m6, "summaries_dir", VStr(dir), key);
  }

  /** Only `book_name_override` may be added after the assignments. */
  lemma DisplayNameGet(m: seq<(string, Value)>, bookOverrides: seq<(string, Value)>, key: string)
    ensures key != "book_name_override" ==> Get(WithDisplayName(m, bookOverrides), key) == Get(m, key)
    ensures key == "book_name_override" ==>
      var name := GetOr(bookOverrides, "display_name", VNone);
      Get(WithDisplayName(m, bookOverrides), key) == if HasKey(m, key) || !Truthy(name) then Get(m, key) else Some(name)
  {
    PutGet(m, "book_name_override", GetOr(bookOverrides, "display_name", VNone), key);
  }

  /** The summary folder setting of a resolvable book. */
  function Subdir(src: BookSources): Value
    requires BookOverrides(src).Some?
  {
    GetOr(Update(src.defaults, BookOverrides(src).value), "summary_subdir", VStr("summaries"))
  }

  /** The id, roots and folders of a resolved book: the id from the
      argument or the environment, the chapters folder under the books
      root, the summaries folder under the chapters folder. */
  lemma {:induction false} ResolvedPaths(src: BookSources)
    requires ResolveBookConfig(src).Ok?
    ensures var r := ResolveBookConfig(src).value;
      Get(r, "book_id") == Some(VStr(BookId(src))) && BookId(src) != [] &&
      (src.argument != [] ==> BookId(src) == src.argument) &&
      Get(r, "books_root") == Some(VStr(src.booksRoot)) &&
      Get(r, "outputs_root") == Some(VStr(src.outputsRoot)) &&
      Get(r, "chapters_dir") == Some(VStr(JoinPath(src.booksRoot, BookId(src)))) &&
      PathText(Subdir(src)).Some? &&
      Get(r, "summaries_dir") == Some(VStr(JoinPath(BookDir(src), PathText(Subdir(src)).value)))
  {
    var o := BookOverrides(src).value;
    var merged := Update(src.defaults, o);
    var subdir := Subdir(src);
    var suffix := GetOr(merged, "summary_suffix", VStr("_summary.txt"));
    var dir := JoinPath(BookDir(src), PathText(subdir).value);
    var a := Assigned(merged, src, subdir, suffix, dir);
    assert ResolveBookConfig(src).value == WithDisplayName(a, o);
    DisplayNameGet(a, o, "book_id");
    AssignedFixed(merged, src, subdir, suffix, dir, "book_id");
    DisplayNameGet(a, o, "books_root");
    AssignedFixed(merged, src, subdir, suffix, dir, "books_root");
    DisplayNameGet(a, o, "outputs_root");
    AssignedFixed(merged, src, subdir, suffix, dir, "outputs_root");
    DisplayNameGet(a, o, "chapters_dir");
    AssignedFixed(merged, src, subdir, suffix, dir, "chapters_dir");
    DisplayNameGet(a, o, "summaries_dir");
    AssignedFixed(merged, src, subdir, suffix, dir, "summaries_dir");
  }

  /** The summary settings: the book's override, else the shared default,
      else `summaries` and `_summary.txt`. */
  lemma {:induction false} ResolvedSummaries(src: BookSources)
    requires ResolveBookConfig(src).Ok? && DistinctKeys(BookOverrides(src).value)
    ensures var r := ResolveBookConfig(src).value; var o := BookOverrides(src).value;
      Get(r, "summary_subdir") == Some(Layered(src, o, "summary_subdir", VStr("summaries"))) &&
      Get(r, "summary_suffix") == Some(Layered(src, o, "summary_suffix", VStr("_summary.txt")))
  {
    var o := BookOverrides(src).value;
    var merged := Update(src.defaults, o);
    var subdir := Subdir(src);
    var suffix := GetOr(merged, "summary_suffix", VStr("_summary.txt"));
    var dir := JoinPath(BookDir(src), PathText(subdir).value);
    var a := Assigned(merged, src, subdir, suffix, dir);
    assert ResolveBookConfig(src).value == WithDisplayName(a, o);
    DisplayNameGet(a, o, "summary_subdir");
    DisplayNameGet(a, o, "summary_suffix");
    AssignedFixed(merged, src, subdir, suffix, dir, "summary_subdir");
    AssignedFixed(merged, src, subdir, suffix, dir, "summary_suffix");
    MergedGet(src, o, "summary_subdir", VStr("summaries"));
    MergedGet(src, o, "summary_suffix", VStr("_summary.txt"));
  }

  /** Any other setting: the book's override wins over the shared default. */
  lemma {:induction false} ResolvedOthers(src: BookSources, key: string)
    requires ResolveBookConfig(src).Ok? && DistinctKeys(BookOverrides(src).value)
    requires key !in FixedKeys && key != "book_name_override"
    ensures var r := ResolveBookConfig(src).value; var o := BookOverrides(src).value;
      Get(r, key) == if HasKey(o, key) then Get(o, key) else Get(src.defaults, key)
  {
    var o := BookOverrides(src).value;
    var merged := Update(src.defaults, o);
    var subdir := Subdir(src);
    var suffix := GetOr(merged, "summary_suffix", VStr("_summary.txt"));
    var dir := JoinPath(BookDir(src), PathText(subdir).value);
    var a := Assigned(merged, src, subdir, suffix, dir);
    assert ResolveBookConfig(src).value == WithDisplayName(a, o);
    DisplayNameGet(a, o, key);
    AssignedOther(merged, src, subdir, suffix, dir, key);
    UpdateGet(src.defaults, o, key);
  }

  /** The book name: a configured `book_name_override` stays; otherwise the
      book's truthy `display_name` becomes it. */
  lemma {:induction false} ResolvedBookName(src: BookSources)
    requires ResolveBookConfig(src).Ok? && DistinctKeys(BookOverrides(src).value)
    ensures var r := ResolveBookConfig(src).value; var o := BookOverrides(src).value;
      var configured := HasKey(o, "book_name_override") || HasKey(src.defaults, "book_name_override");
      var display := GetOr(o, "display_name", VNone);
      (configured ==> Get(r, "book_name_override") == Some(Layered(src, o, "book_name_override", VNone))) &&
      (!configured && Truthy(display) ==> Get(r, "book_name_override") == Some(display)) &&
      (!configured && !Truthy(display) ==> !HasKey(r, "book_name_override"))
  {
    var o := BookOverrides(src).value;
    var merged := Update(src.defaults, o);
    var subdir := Subdir(src);
    var suffix := GetOr(merged, "summary_suffix", VStr("_summary.txt"));
    var dir := JoinPath(BookDir(src), PathText(subdir).value);
    var a := Assigned(merged, src, subdir, suffix, dir);
    var key := "book_name_override";
    assert ResolveBookConfig(src).value == WithDisplayName(a, o);
    AssignedOther(merged, src, subdir, suffix, dir, key);
    UpdateGet(src.defaults, o, key);
    assert Get(a, key) == (if HasKey(o, key) then Get(o, key) else Get(src.defaults, key));
    assert HasKey(a, key) <==> HasKey(o, key) || HasKey(src.defaults, key);
    DisplayNameGet(a, o, key);
  }

  // ------------------------------------------------------------ chapter records

  /** The record `load_chapters_from_files` keeps for a chapter; the file
      stem stands for its `source_path`. */
  datatype ChapterRecord = ChapterRecord(number: nat, title: string, content: string, wordCount: nat,
    preview: string, stem: string)

  const PreviewWords: nat := 120

  /** A chapter's record: titled by its file stem or by its number, with a
      preview of its first words. */
  function RecordOf(c: Chapter, useFilename: bool): ChapterRecord {
    var title := if useFilename then c.file.stem else "Chapter " + NatToString(c.number);
    var n := if |c.words| < PreviewWords then |c.words| else PreviewWords;
    ChapterRecord(c.number, title, c.content, |c.words|, Join(" ", c.words[..n]), c.file.stem)
  }

  /** The preview holds exactly the chapter's first 120 words, separated by
      single spaces. */
  lemma {:induction false} PreviewIsFirstWords(f: SourceFile, i: nat, cleanWs: bool, useFilename: bool)
    ensures var c := ChapterOf(f, i, cleanWs); var n := if |c.words| < PreviewWords then |c.words| else PreviewWords;
      var preview := RecordOf(c, useFilename).preview;
      SplitWs(preview) == c.words[..n] && CleanForm(preview) && |SplitWs(preview)| <= PreviewWords
  {
    var c := ChapterOf(f, i, cleanWs);
    var n := if |c.words| < PreviewWords then |c.words| else PreviewWords;
    assert forall k :: 0 <= k < n ==> c.words[..n][k] == c.words[k];
    SplitWsJoin(c.words[..n]);
    JoinWordsClean(c.words[..n]);
  }

  /** Numbered titles tell chapters apart: two kept chapters never share a
      `Chapter n` title. */
  lemma {:induction false} NumberedTitlesDistinct(f: SourceFile, g: SourceFile, i: nat, j: nat, cleanWs: bool)
    requires i != j
    ensures RecordOf(ChapterOf(f, i, cleanWs), false).title != RecordOf(ChapterOf(g, j, cleanWs), false).title
  {
    assert ChapterOf(f, i, cleanWs).number == i + 1 && ChapterOf(g, j, cleanWs).number == j + 1;
    ChapterTitlesDiffer(i + 1, j + 1);
  }

  lemma ChapterTitlesDiffer(m: nat, n: nat)
    requires m != n
    ensures "Chapter " + NatToString(m) != "Chapter " + NatToString(n)
  {
    var a := "Chapter " + NatToString(m);
    var b := "Chapter " + NatToString(n);
    NatToStringValue(m);
    NatToStringValue(n);
    assert a[8..] == NatToString(m) && b[8..] == NatToString(n);
  }

  /** `build_story_instructions`' preview: kept whole below 800 characters,
      otherwise its first 800 characters and an ellipsis. */
  function Preview(preview: string): (r: string)
    ensures |r| <= 803
    ensures |preview| < 800 ==> r == preview
    ensures |preview| >= 800 ==> |r| == 803 && r[..800] == preview[..800] && r[800..] == "..."
  {
    if |preview| < 800 then preview else preview[..800] + "..."
  }

  // ------------------------------------------------------------ compose_generation_payload

  const PreviousMarker := "<<PREVIOUS_CHAPTER_SUMMARY>>"
  const CurrentMarker := "<<CURRENT_CHAPTER_TEXT>>"
  const NextMarker := "<<NEXT_CHAPTER_SUMMARY>>"
  const NoPrevious := "No previous chapter summary available."
  const NoNext := "No upcoming chapter summary available."

  /** A summary, or its placeholder when it is empty. */
  function Filled(summary: string, placeholder: string): (r: string)
    ensures r != []
    requires placeholder != []
  {
    if summary != [] then summary else placeholder
  }

  /** `compose_generation_payload`: three labelled sections, joined by
      newlines and stripped. */
  function ComposePayload(chapterText: string, prevSummary: string, nextSummary: string): string {
    Strip(Join("\n", [PreviousMarker, Filled(prevSummary, NoPrevious), "", CurrentMarker, chapterText, "",
      NextMarker, Filled(nextSummary, NoNext)]))
  }

  /** Eight lines, the third and sixth empty, joined by newlines. */
  lemma JoinPacket(a: string, b: string, d: string, e: string, g: string, h: string)
    ensures Join("\n", [a, b, "", d, e, "", g, h]) ==
      a + "\n" + b + "\n\n" + d + "\n" + e + "\n\n" + g + "\n" + h
  {
    var parts := [a, b, "", d, e, "", g, h];
    var j7 := h;
    var j6 := g + "\n" + j7;
    var j5 := "" + "\n" + j6;
    var j4 := e + "\n" + j5;
    var j3 := d + "\n" + j4;
    var j2 := "" + "\n" + j3;
    var j1 := b + "\n" + j2;
    assert Join("\n", parts[7..]) == j7;
    assert Join("\n", parts[6..]) == j6;
    assert Join("\n", parts[5..]) == j5;
    assert Join("\n", parts[4..]) == j4;
    assert Join("\n", parts[3..]) == j3;
    assert Join("\n", parts[2..]) == j2;
    assert Join("\n", parts[1..]) == j1;
    assert Join("\n", parts) == a + "\n" + j1;
  }

  /** Stripping text that starts and ends with a non-space, followed by a
      line break and a last line. */
  lemma StripFramed(head: string, last: string)
    requires head != [] && !IsSpace(head[0]) && !IsSpace(head[|head| - 1])
    ensures Strip(head + "\n" + last) == if RStrip(last) == [] then head else head + "\n" + RStrip(last)
  {
    var front := head + "\n";
    var whole := front + last;
    assert whole[0] == head[0];
    StripNoLead(whole);
    RStripAppend(front, last);
    if RStrip(last) == [] {
      RStripAppend(head, "\n");
      assert RStrip("\n") == [];
      assert RStrip(head) == head;
      assert RStrip(whole) == head;
    } else {
      assert RStrip(whole) == front + RStrip(last);
    }
  }

  /** The packet is the previous summary (or its placeholder), the chapter
      text and the next summary (or its placeholder), in that order, each
      under its label and the first two followed by a blank line. Only the
      end is stripped: trailing whitespace of the next summary goes, and a
      next summary of whitespace alone leaves the last label last. */
  lemma {:induction false} PayloadLayout(chapterText: string, prevSummary: string, nextSummary: string)
    ensures var next := RStrip(Filled(nextSummary, NoNext));
      var labelled := PreviousMarker + "\n" + Filled(prevSummary, NoPrevious) + "\n\n" +
        CurrentMarker + "\n" + chapterText + "\n\n" + NextMarker;
      ComposePayload(chapterText, prevSummary, nextSummary) == if next == [] then labelled else labelled + "\n" + next
  {
    var p := Filled(prevSummary, NoPrevious);
    var n := Filled(nextSummary, NoNext);
    JoinPacket(PreviousMarker, p, CurrentMarker, chapterText, NextMarker, n);
    var head := PreviousMarker + "\n" + p + "\n\n" + CurrentMarker + "\n" + chapterText + "\n\n" + NextMarker;
    assert head[0] == '<';
    assert head[|head| - 1] == '>';
    StripFramed(head, n);
  }

  // ------------------------------------------------------------ clean_speaker_tags

  /** The length of a `</?Person\d+>` speaker tag at the start of `s`, or
      0 when none starts there. */
  function TagAt(s: string): (k: nat)
    ensures k <= |s|
    ensures k > 0 ==> 9 <= k && s[0] == '<' && s[k - 1] == '>'
  {
    if s == [] || s[0] != '<' then 0
    else
      var q := if |s| >= 2 && s[1] == '/' then 2 else 1;
      if |s| < q + 6 || s[q..q + 6] != "Person" then 0
      else
        var d := NaturalSort.DigitRun(s[q + 6..]);
        if d == 0 || q + 6 + d >= |s| || s[q + 6 + d] != '>' then 0
        else q + 6 + d + 1
  }

  /** `Person<n>` tags, opening or closing. */
  function Tag(n: nat, closing: bool): string {
    (if closing then "</" else "<") + "Person" + NatToString(n) + ">"
  }

  /** A written tag is recognised as a whole. */
  lemma TagRecognised(n: nat, closing: bool, rest: string)
    ensures TagAt(Tag(n, closing) + rest) == |Tag(n, closing)|
  {
    var digits := NatToString(n);
    var pre := if closing then "</" else "<";
    var mid := pre + "Person";
    var tail := digits + (">" + rest);
    var s := mid + tail;
    assert Tag(n, closing) + rest == s;
    var q := |pre|;
    assert s[0] == '<' && (|s| >= 2 && s[1] == '/' <==> closing);
    assert s[q..q + 6] == mid[q..] == "Person";
    assert s[q + 6..] == tail;
    DigitRunOf(digits, ">" + rest);
    assert s[q + 6 + |digits|] == tail[|digits|] == '>';
  }

  /** A run of digits followed by a non-digit is read whole. */
  lemma {:induction false} DigitRunOf(digits: string, rest: string)
    requires AllDigits(digits) && rest != [] && !IsDigit(rest[0])
    ensures NaturalSort.DigitRun(digits + rest) == |digits|
    decreases |digits|
  {
    var s := digits + rest;
    if digits == [] {
      assert s == rest;
    } else {
      assert s[0] == digits[0] && IsDigit(s[0]);
      assert s[1..] == digits[1..] + rest;
      assert AllDigits(digits[1..]) by {
        forall i | 0 <= i < |digits| - 1 ensures IsDigit(digits[1..][i]) {
          assert digits[1..][i] == digits[i + 1];
        }
      }
      DigitRunOf(digits[1..], rest);
    }
  }

  /** `re.sub(r'</?Person\d+>', '', s)`: scanning left to right, each tag
      is dropped and every other character kept. */
  function RemoveTags(s: string): (r: string)
    ensures |r| <= |s|
    ensures Lacks(s, '<') ==> r == s
    decreases |s|
  {
    if s == [] then []
    else
      var k := TagAt(s);
      if k > 0 then RemoveTags(s[k..]) else [s[0]] + RemoveTags(s[1..])
  }

  /** A tag goes and leaves what follows it. */
  lemma TagRemoved(n: nat, closing: bool, rest: string)
    ensures RemoveTags(Tag(n, closing) + rest) == RemoveTags(rest)
  {
    TagRecognised(n, closing, rest);
    assert (Tag(n, closing) + rest)[|Tag(n, closing)|..] == rest;
  }

  /** No run of three line breaks. */
  predicate NoTripleNewline(s: string) {
    forall i :: 0 <= i && i + 2 < |s| ==> !(s[i] == '\n' && s[i + 1] == '\n' && s[i + 2] == '\n')
  }

  /** The length of the run of line breaks `s` starts with. */
  function NewlineRun(s: string): (k: nat)
    ensures k <= |s| && (k < |s| ==> s[k] != '\n')
    ensures forall i :: 0 <= i < k ==> s[i] == '\n'
  {
    if s == [] || s[0] != '\n' then 0 else 1 + NewlineRun(s[1..])
  }

  /** `re.sub(r'\n{3,}', '\n\n', s)`: every run of three or more line
      breaks becomes two. */
  function CollapseNewlines(s: string): (r: string)
    ensures NoTripleNewline(r)
    ensures s != [] && s[0] != '\n' ==> r != [] && r[0] == s[0]
    ensures Lacks(s, '<') ==> Lacks(r, '<')
    decreases |s|
  {
    if s == [] then []
    else if s[0] == '\n' then
      var n := NewlineRun(s);
      var rest := CollapseNewlines(s[n..]);
      var run := if n >= 3 then "\n\n" else s[..n];
      RunThenText(run, rest);
      run + rest
    else
      var rest := CollapseNewlines(s[1..]);
      CharThenText(s[0], rest);
      [s[0]] + rest
  }

  lemma RunThenText(run: string, rest: string)
    requires |run| <= 2 && NoTripleNewline(rest) && (rest == [] || rest[0] != '\n')
    ensures NoTripleNewline(run + rest)
  {
    var s := run + rest;
    forall i | 0 <= i && i + 2 < |s|
      ensures !(s[i] == '\n' && s[i + 1] == '\n' && s[i + 2] == '\n')
    {
      if i >= |run| {
        assert s[i] == rest[i - |run|] && s[i + 1] == rest[i - |run| + 1] && s[i + 2] == rest[i - |run| + 2];
      } else if i + 1 == |run| {
        assert s[i + 1] == rest[0];
      } else {
        assert s[i + 2] == rest[0];
      }
    }
  }

  lemma CharThenText(c: char, rest: string)
    requires c != '\n' && NoTripleNewline(rest)
    ensures NoTripleNewline([c] + rest)
  {
    var s := [c] + rest;
    forall i | 1 <= i && i + 2 < |s|
      ensures !(s[i] == '\n' && s[i + 1] == '\n' && s[i + 2] == '\n')
    {
      assert s[i] == rest[i - 1] && s[i + 1] == rest[i] && s[i + 2] == rest[i + 1];
    }
  }

  /** Text without a run of three line breaks is left as it is, so
      collapsing twice is collapsing once. */
  lemma {:induction false} CollapseNewlinesFixed(s: string)
    requires NoTripleNewline(s)
    ensures CollapseNewlines(s) == s
    decreases |s|
  {
    if s != [] {
      if s[0] == '\n' {
        var n := NewlineRun(s);
        if |s| >= 3 {
          assert !(s[0] == '\n' && s[1] == '\n' && s[2] == '\n');
        }
        assert n < 3;
        NoTripleSuffix(s, n);
        CollapseNewlinesFixed(s[n..]);
        assert s[..n] + s[n..] == s;
      } else {
        NoTripleSuffix(s, 1);
        CollapseNewlinesFixed(s[1..]);
        assert [s[0]] + s[1..] == s;
      }
    }
  }

  lemma NoTripleSuffix(s: string, k: nat)
    requires NoTripleNewline(s) && k <= |s|
    ensures NoTripleNewline(s[k..])
  {
    var t := s[k..];
    forall i | 0 <= i && i + 2 < |t|
      ensures !(t[i] == '\n' && t[i + 1] == '\n' && t[i + 2] == '\n')
    {
      assert t[i] == s[k + i] && t[i + 1] == s[k + i + 1] && t[i + 2] == s[k + i + 2];
    }
  }

  lemma NoTripleSlice(s: string, k: nat, m: nat)
    requires NoTripleNewline(s) && k <= m <= |s|
    ensures NoTripleNewline(s[k..m])
  {
    var t := s[k..m];
    forall i | 0 <= i && i + 2 < |t|
      ensures !(t[i] == '\n' && t[i + 1] == '\n' && t[i + 2] == '\n')
    {
      assert t[i] == s[k + i] && t[i + 1] == s[k + i + 1] && t[i + 2] == s[k + i + 2];
    }
  }

  /** Stripping keeps text free of triple line breaks and of `<`. */
  lemma StripKeeps(s: string)
    ensures NoTripleNewline(s) ==> NoTripleNewline(Strip(s))
    ensures Lacks(s, '<') ==> Lacks(Strip(s), '<')
  {
    var k := StripSlice(s);
    if NoTripleNewline(s) {
      NoTripleSlice(s, k, k + |Strip(s)|);
    }
  }

  /** `clean_speaker_tags`: the speaker tags removed, runs of blank lines
      cut to one, the ends stripped. */
  function CleanSpeakerTags(text: string): (r: string)
    ensures Trimmed(r) && NoTripleNewline(r)
    ensures Lacks(text, '<') ==> Lacks(r, '<')
  {
    var collapsed := CollapseNewlines(RemoveTags(text));
    StripKeeps(collapsed);
    Strip(collapsed)
  }

  /** On text without tags, cleaning a second time changes nothing. */
  lemma {:induction false} CleanSpeakerTagsStable(text: string)
    requires Lacks(text, '<')
    ensures CleanSpeakerTags(CleanSpeakerTags(text)) == CleanSpeakerTags(text)
  {
    var once := CleanSpeakerTags(text);
    CollapseNewlinesFixed(once);
    StripTrimmed(once);
  }

  // ------------------------------------------------------------ chapter selection

  /** `ValueError`s of `generate_script_only`: an unknown chapter name, or
      a range past the last chapter. */
  datatype SelectError = UnknownChapter(name: string) | NothingSelected

  /** A chapter answers to its file stem and to its title. */
  predicate Answers(c: ChapterRecord, name: string) {
    c.stem == name || c.title == name
  }

  /** The search for a named chapter: the first chapter answering to it. */
  method FindChapter(chapters: seq<ChapterRecord>, name: string) returns (index: Option<nat>)
    ensures index.None? ==> forall i :: 0 <= i < |chapters| ==> !Answers(chapters[i], name)
    ensures index.Some? ==>
      index.value < |chapters| && Answers(chapters[index.value], name) &&
      (forall i :: 0 <= i < index.value ==> !Answers(chapters[i], name))
  {
    index := None;
    var idx := 0;
    while idx < |chapters|
      invariant idx <= |chapters|
      invariant forall i :: 0 <= i < idx ==> !Answers(chapters[i], name)
    {
      var ch := chapters[idx];
      if ch.stem == name {
        index := Some(idx);
        break;
      }
      if ch.title == name {
        index := Some(idx);
        break;
      }
      idx := idx + 1;
    }
  }

  /** The chapters of one run. A named chapter is run alone; otherwise the
      run starts at `start_chapter` (at least 1) and takes
      `chapters_per_run` chapters (at least 1), fewer at the end of the
      book. An empty name means none was given. */
  method SelectChapters(chapters: seq<ChapterRecord>, name: string, startChapter: int, chaptersPerRun: int)
    returns (r: Result<seq<ChapterRecord>, SelectError>)
    ensures name != [] && (forall i :: 0 <= i < |chapters| ==> !Answers(chapters[i], name)) ==>
      r == Err(UnknownChapter(name))
    ensures name != [] && r.Ok? ==> exists i :: 0 <= i < |chapters| && r.value == [chapters[i]] &&
                                         Answers(chapters[i], name) && (forall j :: 0 <= j < i ==> !Answers(chapters[j], name))
    ensures name != [] && (exists i :: 0 <= i < |chapters| && Answers(chapters[i], name)) ==> r.Ok?
    ensures name == [] ==> var first := if startChapter < 1 then 1 else startChapter;
      var count := if chaptersPerRun < 1 then 1 else chaptersPerRun;
      var last := if first - 1 + count < |chapters| then first - 1 + count else |chapters|;
      (first <= |chapters| ==> r == Ok(chapters[first - 1..last])) &&
      (first > |chapters| ==> r == Err(NothingSelected))
  {
    var first, count;
    if name != [] {
      var index := FindChapter(chapters, name);
      if index.None? {
        return Err(UnknownChapter(name));
      }
      first := index.value + 1;
      count := 1;
    } else {
      first := if startChapter < 1 then 1 else startChapter;
      count := if chaptersPerRun < 1 then 1 else chaptersPerRun;
    }
    var selected := Seqs.PySlice(chapters, first - 1, first - 1 + count);
    if selected == [] {
      return Err(NothingSelected);
    }
    r := Ok(selected);
  }
}
