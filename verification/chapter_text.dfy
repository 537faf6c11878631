/** How a book's chapter files become chapters, as `clean_text` and the
    collection loop do it, identically, in `generate_script.py`
    (`load_chapters_from_files`) and `preprocess_chapters.py`
    (`collect_chapter_files`): lines are stripped, runs of blank lines
    become one blank line, chapters with too few words are skipped, and the
    rest are numbered from 1.

    Reading files, the `chapter*.txt` glob and the existence check of the
    folder are not modelled: the loop receives the files, already sorted
    by `NaturalSort.NaturalKey` of their stems, with their text. */
module ChapterText {
  import opened Wrappers
  import opened Text

  // ------------------------------------------------------------ clean_text

  /** `[line.rstrip() for line in lines]` */
  function RStripped(lines: seq<string>): (r: seq<string>)
    ensures |r| == |lines| && forall i :: 0 <= i < |r| ==> r[i] == RStrip(lines[i])
  {
    seq(|lines|, i requires 0 <= i < |lines| => RStrip(lines[i]))
  }

  /** The list `clean_text` builds: each non-blank line stripped, and one
      `""` after a kept line for the blank lines that follow it. */
  function Collapse(lines: seq<string>): (c: seq<string>)
  {
    if lines == [] then []
    else
      var c := Collapse(lines[..|lines| - 1]);
      var line := lines[|lines| - 1];
      if Strip(line) == [] then
        if c != [] && c[|c| - 1] != "" then c + [""] else c
      else c + [Strip(line)]
  }

  /** Paragraph form: every line stripped and free of line boundaries, no
      blank first line, and never two blank lines in a row. */
  ghost predicate Paragraphs(c: seq<string>) {
    (forall i :: 0 <= i < |c| ==> Trimmed(c[i]) && NoBreak(c[i])) &&
    (c != [] ==> c[0] != []) &&
    (forall i :: 0 <= i < |c| - 1 ==> c[i] != [] || c[i + 1] != [])
  }

  /** The list without a final blank line. */
  function Tidy(c: seq<string>): seq<string> {
    if c != [] && c[|c| - 1] == [] then c[..|c| - 1] else c
  }

  lemma {:induction false} CollapseParagraphs(lines: seq<string>)
    requires forall i :: 0 <= i < |lines| ==> NoBreak(lines[i])
    ensures Paragraphs(Collapse(lines))
  {
    if lines != [] {
      var init := lines[..|lines| - 1];
      CollapseParagraphs(init);
      StripNoBreak(lines[|lines| - 1]);
    }
  }

  /** Dropping the final blank line keeps paragraph form and leaves a
      non-blank last line. */
  lemma TidyParagraphs(c: seq<string>)
    requires Paragraphs(c)
    ensures Paragraphs(Tidy(c))
    ensures Tidy(c) != [] ==> Tidy(c)[|Tidy(c)| - 1] != []
    ensures c != [] && c[|c| - 1] == [] ==> |c| >= 2 && c == Tidy(c) + [""]
  {
    if c != [] && c[|c| - 1] == [] {
      assert c[|c| - 2] != [];
    }
  }

  /** The first character of a joined list is that of its first element. */
  lemma JoinFirst(sep: string, d: seq<string>)
    requires d != [] && d[0] != []
    ensures Join(sep, d) != [] && Join(sep, d)[0] == d[0][0]
  {
  }

  /** The last character of a joined list is that of its last element. */
  lemma {:induction false} JoinLast(sep: string, d: seq<string>)
    requires d != [] && d[|d| - 1] != []
    ensures Join(sep, d) != [] && Join(sep, d)[|Join(sep, d)| - 1] == d[|d| - 1][|d[|d| - 1]| - 1]
  {
    if |d| > 1 {
      JoinLast(sep, d[1..]);
    }
  }

  /** A string with no whitespace at either end is its own strip, and a
      trailing newline after it is stripped off. */
  lemma StripEnds(j: string)
    requires j != [] && !IsSpace(j[0]) && !IsSpace(j[|j| - 1])
    ensures Strip(j) == j && Strip(j + "\n") == j
  {
    var t := j + "\n";
    assert LStrip(t) == t;
    assert t[..|t| - 1] == j;
    assert RStrip(t) == RStrip(j);
  }

  /** The final `strip()` of `clean_text` only drops a trailing blank line. */
  lemma StripJoin(c: seq<string>)
    requires Paragraphs(c)
    ensures Strip(Join("\n", c)) == Join("\n", Tidy(c))
  {
    TidyParagraphs(c);
    var d := Tidy(c);
    if d != [] {
      JoinFirst("\n", d);
      JoinLast("\n", d);
      StripEnds(Join("\n", d));
      if c != d {
        JoinAppend("\n", d, "");
        assert Join("\n", c) == Join("\n", d) + "\n";
      }
    }
  }

  /** The lines `clean_text` joins: in paragraph form, the last one not
      blank. */
  function CleanLines(content: string): (d: seq<string>)
    ensures Paragraphs(d)
    ensures d != [] ==> d[|d| - 1] != []
  {
    var lines := RStripped(Splitlines(content));
    forall i | 0 <= i < |lines| ensures NoBreak(lines[i]) {
      StripNoBreak(Splitlines(content)[i]);
    }
    CollapseParagraphs(lines);
    TidyParagraphs(Collapse(lines));
    Tidy(Collapse(lines))
  }

  /** `clean_text`: the lines of the result are in paragraph form and the
      last one is not blank. */
  function CleanedText(content: string): (r: string)
    ensures Splitlines(r) == CleanLines(content)
    ensures Paragraphs(Splitlines(r))
    ensures r != [] ==> Splitlines(r)[|Splitlines(r)| - 1] != []
  {
    SplitlinesJoin(CleanLines(content));
    Join("\n", CleanLines(content))
  }

  /** `clean_text` as written: a loop over the right-stripped lines. */
  method CleanText(content: string) returns (r: string)
    ensures r == CleanedText(content)
  {
    var raw := Splitlines(content);
    var lines := seq(|raw|, i requires 0 <= i < |raw| => RStrip(raw[i]));
    assert lines == RStripped(raw);
    var cleaned := CollapseLines(lines);
    r := Strip(Join("\n", cleaned));
    CleanedJoin(content, lines, cleaned);
  }

  /** The loop of `clean_text`: blank lines become one empty line, and only
      after a non-blank one; other lines are kept stripped. */
  method CollapseLines(lines: seq<string>) returns (cleaned: seq<string>)
    ensures cleaned == Collapse(lines)
  {
    cleaned := [];
    for i := 0 to |lines|
      invariant cleaned == Collapse(lines[..i])
    {
      var line := lines[i];
      assert lines[..i + 1][..i] == lines[..i];
      if Strip(line) == [] {
        if cleaned != [] && cleaned[|cleaned| - 1] != "" {
          cleaned := cleaned + [""];
        }
      } else {
        cleaned := cleaned + [Strip(line)];
      }
    }
    assert lines[..|lines|] == lines;
  }

  /** The final `strip()` of the joined lines gives `CleanedText`. */
  lemma CleanedJoin(content: string, lines: seq<string>, cleaned: seq<string>)
    requires lines == RStripped(Splitlines(content)) && cleaned == Collapse(lines)
    ensures Strip(Join("\n", cleaned)) == CleanedText(content)
  {
    forall i | 0 <= i < |lines| ensures NoBreak(lines[i]) {
      StripNoBreak(Splitlines(content)[i]);
    }
    CollapseParagraphs(lines);
    StripJoin(cleaned);
  }

  /** Joining lines with no boundaries and a non-blank last line, then
      splitting them again, gives the lines back. */
  lemma {:induction false} SplitlinesJoin(d: seq<string>)
    requires forall i :: 0 <= i < |d| ==> NoBreak(d[i])
    requires d != [] ==> d[|d| - 1] != []
    ensures Splitlines(Join("\n", d)) == d
  {
    if |d| == 1 {
      SplitlinesOne(d[0]);
    } else if |d| > 1 {
      SplitlinesJoin(d[1..]);
      SplitlinesCons(d[0], Join("\n", d[1..]));
    }
  }

  /** Lines already in paragraph form are collapsed to themselves. */
  lemma {:induction false} CollapseFixed(d: seq<string>)
    requires Paragraphs(d)
    ensures Collapse(d) == d
  {
    if d != [] {
      var init := d[..|d| - 1];
      var line := d[|d| - 1];
      assert Paragraphs(init);
      CollapseFixed(init);
      StripTrimmed(line);
      if line == [] {
        assert |d| >= 2 && init[|init| - 1] != [];
      }
    }
  }

  /** `clean_text` is idempotent. */
  lemma CleanTextIdempotent(content: string)
    ensures CleanedText(CleanedText(content)) == CleanedText(content)
  {
    var x := CleanedText(content);
    var d := Splitlines(x);
    assert x == Join("\n", d);
    assert RStripped(d) == d by {
      forall i | 0 <= i < |d| ensures RStrip(d[i]) == d[i] {
        assert Trimmed(d[i]);
      }
    }
    CollapseFixed(d);
  }

  /** The non-blank lines of the result are the stripped non-blank lines
      of the input, in order: `clean_text` loses no text. */
  lemma {:induction false} CollapseKeeps(lines: seq<string>)
    ensures NonBlank(Collapse(lines)) == NonBlank(StrippedAll(lines))
  {
    if lines != [] {
      var init := lines[..|lines| - 1];
      CollapseKeeps(init);
      assert StrippedAll(lines) == StrippedAll(init) + [Strip(lines[|lines| - 1])];
      NonBlankSnoc(StrippedAll(init), Strip(lines[|lines| - 1]));
      var c := Collapse(init);
      if Strip(lines[|lines| - 1]) == [] {
        if c != [] && c[|c| - 1] != "" {
          NonBlankSnoc(c, "");
        }
      } else {
        NonBlankSnoc(c, Strip(lines[|lines| - 1]));
      }
    }
  }

  /** `[line.strip() for line in lines]` */
  function StrippedAll(lines: seq<string>): (r: seq<string>)
    ensures |r| == |lines| && forall i :: 0 <= i < |r| ==> r[i] == Strip(lines[i])
  {
    seq(|lines|, i requires 0 <= i < |lines| => Strip(lines[i]))
  }

  /** The non-empty strings of a list, in order. */
  function NonBlank(c: seq<string>): (r: seq<string>)
  {
    if c == [] then []
    else NonBlank(c[..|c| - 1]) + (if c[|c| - 1] != [] then [c[|c| - 1]] else [])
  }

  lemma NonBlankSnoc(c: seq<string>, x: string)
    ensures NonBlank(c + [x]) == NonBlank(c) + (if x != [] then [x] else [])
  {
    assert (c + [x])[..|c|] == c;
  }

  /** The cleaned text's non-blank lines are the input's non-blank lines,
      stripped, in their order. */
  lemma {:induction false} CleanTextKeepsLines(content: string)
    ensures NonBlank(Splitlines(CleanedText(content))) == NonBlank(StrippedAll(Splitlines(content)))
  {
    var raw := Splitlines(content);
    var lines := RStripped(raw);
    var c := Collapse(lines);
    forall i | 0 <= i < |lines| ensures NoBreak(lines[i]) {
      StripNoBreak(raw[i]);
    }
    CollapseParagraphs(lines);
    TidyParagraphs(c);
    SplitlinesJoin(Tidy(c));
    if c != Tidy(c) {
      NonBlankSnoc(Tidy(c), "");
    }
    CollapseKeeps(lines);
    assert StrippedAll(lines) == StrippedAll(raw) by {
      forall i | 0 <= i < |raw| ensures Strip(lines[i]) == Strip(raw[i]) {
        StripRStrip(raw[i]);
      }
    }
  }

  // ------------------------------------------------------------ collecting chapters

  /** A chapter file: its name, its stem and its text. */
  datatype SourceFile = SourceFile(name: string, stem: string, text: string)

  /** A kept chapter: its number, its file, its (cleaned) text and words. */
  datatype Chapter = Chapter(number: nat, file: SourceFile, content: string, words: seq<string>)

  /** The two `ValueError`s: no file matched, or every file was skipped. */
  datatype CollectError = NoChapterFiles | AllSkipped

  /** The text a chapter keeps: cleaned when `clean_whitespace` is set. */
  function Prepared(text: string, cleanWs: bool): string {
    if cleanWs then CleanedText(text) else text
  }

  /** A file is kept when its text has at least `min_words` words. */
  predicate Enough(f: SourceFile, cleanWs: bool, minWords: int) {
    |SplitWs(Prepared(f.text, cleanWs))| >= minWords
  }

  /** The files kept, in order. */
  function Kept(files: seq<SourceFile>, cleanWs: bool, minWords: int): (r: seq<SourceFile>)
    ensures |r| <= |files|
  {
    if files == [] then []
    else
      var init := Kept(files[..|files| - 1], cleanWs, minWords);
      if Enough(files[|files| - 1], cleanWs, minWords) then init + [files[|files| - 1]] else init
  }

  /** The names of the files skipped, in order. */
  function Skipped(files: seq<SourceFile>, cleanWs: bool, minWords: int): (r: seq<string>)
  {
    if files == [] then []
    else
      var init := Skipped(files[..|files| - 1], cleanWs, minWords);
      if Enough(files[|files| - 1], cleanWs, minWords) then init else init + [files[|files| - 1].name]
  }

  /** Every file is either kept or skipped. */
  lemma {:induction false} KeptOrSkipped(files: seq<SourceFile>, cleanWs: bool, minWords: int)
    ensures |Kept(files, cleanWs, minWords)| + |Skipped(files, cleanWs, minWords)| == |files|
    ensures minWords <= 0 ==> Kept(files, cleanWs, minWords) == files
  {
    if files != [] {
      KeptOrSkipped(files[..|files| - 1], cleanWs, minWords);
      assert files[..|files| - 1] + [files[|files| - 1]] == files;
    }
  }

  /** The chapter made of the `i`-th kept file. */
  function ChapterOf(f: SourceFile, i: nat, cleanWs: bool): Chapter {
    var text := Prepared(f.text, cleanWs);
    Chapter(i + 1, f, text, SplitWs(text))
  }

  /** The kept files as chapters, numbered from 1. */
  function Numbered(kept: seq<SourceFile>, cleanWs: bool): (r: seq<Chapter>)
    ensures |r| == |kept| && forall i :: 0 <= i < |r| ==> r[i] == ChapterOf(kept[i], i, cleanWs)
  {
    seq(|kept|, i requires 0 <= i < |kept| => ChapterOf(kept[i], i, cleanWs))
  }

  /** One more file: kept and numbered next, or skipped by name. */
  lemma CollectSnoc(files: seq<SourceFile>, k: nat, cleanWs: bool, minWords: int)
    requires k < |files|
    ensures var kept := Kept(files[..k], cleanWs, minWords);
      if Enough(files[k], cleanWs, minWords) then
        Kept(files[..k + 1], cleanWs, minWords) == kept + [files[k]] &&
        Numbered(kept + [files[k]], cleanWs) == Numbered(kept, cleanWs) + [ChapterOf(files[k], |kept|, cleanWs)] &&
        Skipped(files[..k + 1], cleanWs, minWords) == Skipped(files[..k], cleanWs, minWords)
      else
        Kept(files[..k + 1], cleanWs, minWords) == kept &&
        Skipped(files[..k + 1], cleanWs, minWords) == Skipped(files[..k], cleanWs, minWords) + [files[k].name]
  {
    var pre := files[..k + 1];
    assert pre[..k] == files[..k] && pre[|pre| - 1] == files[k];
    KeptSkippedSnoc(pre, cleanWs, minWords);
    NumberedSnoc(Kept(files[..k], cleanWs, minWords), files[k], cleanWs);
  }

  /** One unfolding of `Kept` and `Skipped`. */
  lemma KeptSkippedSnoc(files: seq<SourceFile>, cleanWs: bool, minWords: int)
    requires files != []
    ensures var init := files[..|files| - 1];
      var last := files[|files| - 1];
      Kept(files, cleanWs, minWords) == (if Enough(last, cleanWs, minWords) then Kept(init, cleanWs, minWords) + [last] else Kept(init, cleanWs, minWords)) &&
      Skipped(files, cleanWs, minWords) == (if Enough(last, cleanWs, minWords) then Skipped(init, cleanWs, minWords) else Skipped(init, cleanWs, minWords) + [last.name])
  {
  }

  /** Numbering one more kept file gives it the next number. */
  lemma NumberedSnoc(kept: seq<SourceFile>, f: SourceFile, cleanWs: bool)
    ensures Numbered(kept + [f], cleanWs) == Numbered(kept, cleanWs) + [ChapterOf(f, |kept|, cleanWs)]
  {
    var a := Numbered(kept + [f], cleanWs);
    var b := Numbered(kept, cleanWs) + [ChapterOf(f, |kept|, cleanWs)];
    assert |a| == |b|;
    forall i | 0 <= i < |a| ensures a[i] == b[i] {
      if i < |kept| {
        assert (kept + [f])[i] == kept[i];
      }
    }
  }

  /** The collection loop: the kept files become chapters numbered densely
      from 1, in file order; the others are reported as skipped. */
  method CollectChapters(files: seq<SourceFile>, cleanWs: bool, minWords: int)
    returns (r: Result<(seq<Chapter>, seq<string>), CollectError>)
    ensures files == [] ==> r == Err(NoChapterFiles)
    ensures files != [] && Kept(files, cleanWs, minWords) == [] ==> r == Err(AllSkipped)
    ensures r.Ok? ==> var kept := Kept(files, cleanWs, minWords);
      kept != [] && |r.value.0| == |kept| &&
      (forall i :: 0 <= i < |kept| ==> r.value.0[i] == ChapterOf(kept[i], i, cleanWs)) &&
      r.value.1 == Skipped(files, cleanWs, minWords)
  {
    if files == [] {
      return Err(NoChapterFiles);
    }
    var chapters: seq<Chapter> := [];
    var skipped: seq<string> := [];
    for k := 0 to |files|
      invariant chapters == Numbered(Kept(files[..k], cleanWs, minWords), cleanWs)
      invariant skipped == Skipped(files[..k], cleanWs, minWords)
    {
      CollectSnoc(files, k, cleanWs, minWords);
      var text := files[k].text;
      if cleanWs {
        text := CleanText(text);
      }
      var words := SplitWs(text);
      if |words| < minWords {
        skipped := skipped + [files[k].name];
      } else {
        chapters := chapters + [Chapter(|chapters| + 1, files[k], text, words)];
      }
    }
    assert files[..|files|] == files;
    if chapters == [] {
      return Err(AllSkipped);
    }
    return Ok((chapters, skipped));
  }
}
