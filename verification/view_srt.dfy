/** `whisperx_alignment_test/scripts/view_srt.py`: its own SRT reader, which
    keeps the two timestamps as written, the shortened time display, the
    window of entries the detailed view shows, and the keyword search.
    Printing is not modelled; each view is the sequence it prints from. */
module ViewSrt {
  import opened Wrappers
  import opened Text
  import opened Timestamps
  import opened SrtTime
  import opened SrtBlocks
  import opened Seqs

  /** One subtitle: ordinal, start and end timestamps as written, text. */
  datatype Entry = Entry(index: int, startTime: string, endTime: string, text: string)

  /** `int()` raises `ValueError`; a time line without ` --> ` makes
      `times[1]` raise `IndexError`; so does a time without two colons in
      `format_time`. */
  datatype ParseError = ValueError | IndexError

  // ---------------------------------------------------------------- parse_srt

  /** One block: `None` for fewer than three lines. Unlike the player's
      reader, the lines are cut at `\n` only, and a time line with more
      than one arrow keeps its first two pieces. */
  function ParseBlock(block: string): Result<Option<Entry>, ParseError> {
    var lines := Split(Strip(block), "\n");
    if |lines| < 3 then Ok(None)
    else ReadEntry(ParseInt(lines[0]), Split(lines[1], " --> "), Join(" ", lines[2..]))
  }

  /** The entry of a block from its read ordinal, its time-line pieces and
      its joined text; `int()` runs before `times[1]` is taken. */
  function ReadEntry(index: Option<int>, times: seq<string>, text: string): Result<Option<Entry>, ParseError> {
    if index.None? then Err(ValueError)
    else if |times| < 2 then Err(IndexError)
    else Ok(Some(Entry(index.value, times[0], times[1], text)))
  }

  /** `parse_srt` over the file's text. */
  method ParseSrt(content: string) returns (r: Result<seq<Entry>, ParseError>)
    ensures r == ParseBlocks(Blocks(content), ParseBlock)
  {
    r := ParseAll(Blocks(content), ParseBlock);
  }

  /** A trimmed block of three `\n`-lines reads as the entry its ordinal,
      time line and text give. */
  lemma ParseBlockOf(block: string, n: string, timeLine: string, text: string)
    requires Trimmed(block) && Split(block, "\n") == [n, timeLine, text]
    ensures ParseBlock(block) == ReadEntry(ParseInt(n), Split(timeLine, " --> "), text)
  {
    StripTrimmed(block);
    var lines := [n, timeLine, text];
    assert lines[2..] == [text];
    JoinOne(" ", lines[2..]);
  }

  /** The layout of a written block: trimmed, three `\n`-lines. */
  lemma WrittenLines(n: string, timeLine: string, text: string)
    requires n != [] && AllDigits(n) && Lacks(timeLine, '\n')
    requires text != [] && Lacks(text, '\n') && Trimmed(text)
    ensures Trimmed(n + "\n" + (timeLine + "\n" + text))
    ensures Split(n + "\n" + (timeLine + "\n" + text), "\n") == [n, timeLine, text]
  {
    var block := n + "\n" + (timeLine + "\n" + text);
    assert block[0] == n[0];
    assert block[|block| - 1] == text[|text| - 1];
    DigitsLack(n, '\n');
    SplitCons(n, '\n', timeLine + "\n" + text);
    SplitCons(timeLine, '\n', text);
    SplitLacks(text, '\n');
  }

  /** A time line is one line. */
  lemma TimeLineOneLine(a: string, b: string)
    requires TimeChars(a) && TimeChars(b)
    ensures Lacks(a + " --> " + b, '\n')
  {
    var s := a + " --> " + b;
    forall i | 0 <= i < |s|
      ensures s[i] != '\n'
    {
      if i < |a| {
        assert s[i] == a[i];
      } else if i >= |a| + 5 {
        assert s[i] == b[i - |a| - 5];
      }
    }
  }

  /** Reading inverts writing: a block laid out as the SRT writers lay it
      out reads back as its ordinal, its two timestamps exactly as written,
      and its text. */
  lemma ParseBlockRoundTrip(index: nat, startClock: Clock, endClock: Clock, text: string)
    requires startClock.hours >= 0 && endClock.hours >= 0
    requires text != [] && Lacks(text, '\n') && Trimmed(text)
    ensures var r := ParseBlock(NatToString(index) + "\n" + (Render(startClock) + " --> " + Render(endClock) + "\n" + text));
      r.Ok? && r.value.Some? && r.value.value == Entry(index, Render(startClock), Render(endClock), text)
  {
    var n, a, b := NatToString(index), Render(startClock), Render(endClock);
    RenderChars(startClock);
    RenderChars(endClock);
    TimeLineSplits(a, b);
    TimeLineOneLine(a, b);
    WrittenLines(n, a + " --> " + b, text);
    ParseBlockOf(n + "\n" + (a + " --> " + b + "\n" + text), n, a + " --> " + b, text);
    ParseIntOfNat(index);
  }

  // ---------------------------------------------------------------- format_time

  /** `format_time`: the hours are dropped, the comma becomes a point, and
      the minutes are shown (without padding) only when positive. */
  function FormatTime(time: string): Result<string, ParseError> {
    var parts := Split(time, ":");
    if |parts| < 3 then Err(IndexError)
    else
      var seconds := ReplaceChar(parts[2], ',', '.');
      var minutes := ParseInt(parts[1]);
      if minutes.None? then Err(ValueError)
      else if minutes.value > 0 then Ok(IntToString(minutes.value) + ":" + seconds + "s")
      else Ok(seconds + "s")
  }

  /** What `format_time` shows for a rendered clock: `M:SS.mmms` with
      positive minutes, `SS.mmms` otherwise. */
  lemma FormatRendered(c: Clock)
    requires c.hours >= 0
    ensures FormatTime(Render(c)).Ok?
    ensures FormatTime(Render(c)).value == ShortTime(c.minutes, ZeroPadNat(c.seconds, 2) + "." + ZeroPadNat(c.millis, 3))
  {
    var s, ms := ZeroPadNat(c.seconds, 2), ZeroPadNat(c.millis, 3);
    RenderPieces(c);
    ZeroPadValue(c.minutes, 2);
    ZeroPadDigits(c.seconds, 2);
    ZeroPadDigits(c.millis, 3);
    DigitsLack(s, ',');
    DigitsLack(ms, ',');
    SecondsShown(s, ms);
    FormatPieces(Render(c), ZeroPadNat(c.hours, 2), ZeroPadNat(c.minutes, 2), s, ms, c.minutes);
  }

  /** `M:SS.mmms` with positive minutes, `SS.mmms` otherwise. */
  function ShortTime(minutes: nat, seconds: string): string {
    if minutes > 0 then NatToString(minutes) + ":" + seconds + "s" else seconds + "s"
  }

  lemma FormatPieces(t: string, h: string, m: string, s: string, ms: string, minutes: nat)
    requires Split(t, ":") == [h, m, s + "," + ms]
    requires ParseInt(m).Some? && ParseInt(m).value == minutes
    requires ReplaceChar(s + "," + ms, ',', '.') == s + "." + ms
    ensures FormatTime(t).Ok? && FormatTime(t).value == ShortTime(minutes, s + "." + ms)
  {
  }

  lemma SecondsShown(s: string, ms: string)
    requires Lacks(s, ',') && Lacks(ms, ',')
    ensures ReplaceChar(s + "," + ms, ',', '.') == s + "." + ms
  {
  }

  /** The display does not depend on the hours. */
  lemma FormatIgnoresHours(c: Clock, hours: int)
    requires c.hours >= 0 && hours >= 0
    ensures FormatTime(Render(c)) == FormatTime(Render(c.(hours := hours)))
  {
    FormatRendered(c);
    FormatRendered(c.(hours := hours));
  }

  // ---------------------------------------------------------------- view_srt_detailed

  /** The entries `view_srt_detailed` shows: `end_index = min(start_index +
      count, len + 1)`, then `subtitles[start_index - 1:end_index - 1]`,
      with Python's slice bounds. */
  function DetailedWindow(entries: seq<Entry>, startIndex: int, count: int): seq<Entry> {
    var endIndex := if startIndex + count < |entries| + 1 then startIndex + count else |entries| + 1;
    PySlice(entries, startIndex - 1, endIndex - 1)
  }

  /** For a 1-based start and a non-negative count, the window is the next
      `count` entries from the start, cut short at the end. */
  lemma DetailedWindowShows(entries: seq<Entry>, startIndex: int, count: int)
    requires startIndex >= 1 && count >= 0
    ensures var from := if startIndex - 1 < |entries| then startIndex - 1 else |entries|;
      var to := if startIndex - 1 + count < |entries| then startIndex - 1 + count else |entries|;
      DetailedWindow(entries, startIndex, count) == entries[from..to]
  {
  }

  /** A start of 0 is read from the end: with a count beyond the length,
      the window is the last entry alone. */
  lemma DetailedWindowFromZero(entries: seq<Entry>, count: int)
    requires |entries| > 0 && count > |entries|
    ensures DetailedWindow(entries, 0, count) == [entries[|entries| - 1]]
  {
  }

  // ---------------------------------------------------------------- search_word

  /** The keyword occurs in the text, ignoring case. */
  predicate Hit(entry: Entry, keyword: string) {
    Contains(Lower(entry.text), Lower(keyword))
  }

  /** The hits among `entries`, in file order. */
  function Hits(entries: seq<Entry>, keyword: string): (r: seq<Entry>)
    ensures |r| <= |entries|
  {
    if entries == [] then []
    else Hits(entries[..|entries| - 1], keyword) + (if Hit(entries[|entries| - 1], keyword) then [entries[|entries| - 1]] else [])
  }

  /** The matching loop of `search_word`. */
  method SearchWord(entries: seq<Entry>, keyword: string) returns (matches: seq<Entry>)
    ensures matches == Hits(entries, keyword)
  {
    matches := [];
    for i := 0 to |entries|
      invariant matches == Hits(entries[..i], keyword)
    {
      assert entries[..i + 1][..i] == entries[..i];
      if Contains(Lower(entries[i].text), Lower(keyword)) {
        matches := matches + [entries[i]];
      }
    }
    assert entries[..|entries|] == entries;
  }

  /** An entry is found exactly when it is one of the entries and its text
      holds the keyword, ignoring case. */
  lemma {:induction false} HitsExactly(entries: seq<Entry>, keyword: string, e: Entry)
    ensures e in Hits(entries, keyword) <==> e in entries && Hit(e, keyword)
  {
    if entries != [] {
      var init := entries[..|entries| - 1];
      HitsExactly(init, keyword, e);
      assert entries == init + [entries[|entries| - 1]];
    }
  }

  /** The positions of the hits among `entries`, in file order. */
  function HitPositions(entries: seq<Entry>, keyword: string): seq<nat> {
    if entries == [] then []
    else
      var last := |entries| - 1;
      HitPositions(entries[..last], keyword) + (if Hit(entries[last], keyword) then [last] else [])
  }

  /** The hits keep file order: they are the entries at strictly
      increasing positions. */
  lemma {:induction false} HitsInOrder(entries: seq<Entry>, keyword: string)
    ensures var p := HitPositions(entries, keyword);
      && |p| == |Hits(entries, keyword)|
      && (forall k :: 0 <= k < |p| ==> p[k] < |entries| && entries[p[k]] == Hits(entries, keyword)[k])
      && (forall k, l :: 0 <= k < l < |p| ==> p[k] < p[l])
  {
    if entries != [] {
      var last := |entries| - 1;
      var init := entries[..last];
      HitsInOrder(init, keyword);
      assert forall k :: 0 <= k < last ==> entries[k] == init[k];
    }
  }

  /** The search ignores the case of the keyword. */
  lemma HitsIgnoreKeywordCase(entries: seq<Entry>, keyword: string)
    ensures Hits(entries, Lower(keyword)) == Hits(entries, keyword)
  {
    LowerTwice(keyword);
    HitsSameTest(entries, Lower(keyword), keyword);
  }

  lemma LowerTwice(s: string)
    ensures Lower(Lower(s)) == Lower(s)
  {
  }

  lemma {:induction false} HitsSameTest(entries: seq<Entry>, k1: string, k2: string)
    requires Lower(k1) == Lower(k2)
    ensures Hits(entries, k1) == Hits(entries, k2)
  {
    if entries != [] {
      HitsSameTest(entries[..|entries| - 1], k1, k2);
    }
  }
}
