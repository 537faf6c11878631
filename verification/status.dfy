/** The chapter status scan of `storytelling_cli/status.py`: which chapters
    a book has, what has been generated for each, how long its audio runs
    and how far its subtitles reach. The file system is not modelled: what
    the scan would find on disk for a chapter is given as a `ChapterFiles`
    value. */
module Status {
  import opened Wrappers
  import opened Text
  import opened SrtTime
  import opened NaturalSort

  /** The header fields of a WAV file that the duration is read from. */
  datatype WavHeader = WavHeader(frames: nat, rate: nat)

  /** A file that is missing, present but unreadable, or read. */
  datatype Probe<T> = Absent | Unreadable | Read(value: T)

  /** What exists on disk for one chapter: its source text and summary, the
      podcast script, the WAV and MP3 audio (the MP3 read as its length in
      milliseconds) and the text of `subtitles.srt` when it exists. */
  datatype ChapterFiles = ChapterFiles(
    source: bool, summary: bool, script: bool,
    wav: Probe<WavHeader>, mp3: Probe<nat>, subtitles: Option<string>)

  datatype ChapterStatus = ChapterStatus(
    slug: string,
    hasSource: bool, hasSummary: bool, hasScript: bool,
    hasAudio: bool, hasSubtitle: bool,
    audioDuration: Option<real>, audioSubtitleGap: Option<real>)

  /** `_chapter_audio_duration`: the WAV file wins when it exists (frames
      over the frame rate, a zero rate read as one); otherwise the MP3
      length; a file that cannot be read gives no duration. */
  function AudioDuration(files: ChapterFiles): (r: Option<real>)
    ensures files.wav.Read? ==> r == Some(files.wav.value.frames as real / Max1(files.wav.value.rate) as real)
    ensures files.wav.Unreadable? ==> r.None?
    ensures files.wav.Absent? ==> (r.Some? <==> files.mp3.Read?)
    ensures r.Some? ==> r.value >= 0.0
  {
    match files.wav
    case Read(h) => Some(h.frames as real / Max1(h.rate) as real)
    case Unreadable => None
    case Absent =>
      match files.mp3
      case Read(ms) => Some(ms as real / 1000.0)
      case _ => None
  }

  function Max1(n: nat): (r: nat)
    ensures r >= 1 && (n >= 1 ==> r == n)
  {
    if n >= 1 then n else 1
  }

  /** The end time a subtitle line announces: the text after its only
      `-->`, read as an SRT timestamp; `None` for a line without exactly one
      arrow or with an unreadable end. */
  function EndOf(line: string): (r: Option<real>)
    ensures !Contains(line, "-->") ==> r.None?
  {
    if !Contains(line, "-->") then None
    else
      var parts := Split(line, "-->");
      if |parts| != 2 then None else ParseSrtTimestamp(parts[1])
  }

  /** The last value `find` gives for an element of `xs`, looking from the
      end. */
  function LastFound<T, U>(xs: seq<T>, find: T -> Option<U>): (r: Option<U>)
  {
    if xs == [] then None
    else if find(xs[|xs| - 1]).Some? then find(xs[|xs| - 1])
    else LastFound(xs[..|xs| - 1], find)
  }

  /** The bottom-most element with a value decides: the result is that
      element's value and no later element has one; with no such element
      there is no result. */
  lemma {:induction false} LastFoundIsBottomMost<T, U>(xs: seq<T>, find: T -> Option<U>)
    ensures LastFound(xs, find).None? <==> forall k :: 0 <= k < |xs| ==> find(xs[k]).None?
    ensures LastFound(xs, find).Some? ==>
      exists k :: 0 <= k < |xs| && find(xs[k]) == LastFound(xs, find) &&
        (forall j :: k < j < |xs| ==> find(xs[j]).None?)
  {
    if xs != [] {
      var n := |xs| - 1;
      if find(xs[n]).None? {
        var init := xs[..n];
        LastFoundIsBottomMost(init, find);
        assert forall k :: 0 <= k < n ==> init[k] == xs[k];
        if LastFound(init, find).Some? {
          var k :| 0 <= k < n && find(init[k]) == LastFound(init, find) &&
            (forall j :: k < j < n ==> find(init[j]).None?);
          assert find(xs[k]) == LastFound(xs, find);
        }
      }
    }
  }

  /** The end time of the last subtitle line, counting from the bottom,
      that has one. */
  function LastEnd(lines: seq<string>): (r: Option<real>)
  {
    LastFound(lines, EndOf)
  }

  /** The bottom-most line with an end time decides. */
  lemma LastEndIsBottomMost(lines: seq<string>)
    ensures LastEnd(lines).None? <==> forall k :: 0 <= k < |lines| ==> EndOf(lines[k]).None?
    ensures LastEnd(lines).Some? ==>
      exists k :: 0 <= k < |lines| && EndOf(lines[k]) == LastEnd(lines) &&
        (forall j :: k < j < |lines| ==> EndOf(lines[j]).None?)
  {
    LastFoundIsBottomMost(lines, EndOf);
  }

  /** `_chapter_last_subtitle_end` once the file is read: the lines are
      scanned from the bottom up and the first end time found is returned. */
  method LastSubtitleEnd(content: string) returns (r: Option<real>)
    ensures r == LastEnd(Splitlines(content))
  {
    var lines := Splitlines(content);
    var i := |lines|;
    assert lines[..i] == lines;
    while i > 0
      invariant 0 <= i <= |lines|
      invariant LastEnd(lines) == LastEnd(lines[..i])
    {
      var line := lines[i - 1];
      assert lines[..i][..i - 1] == lines[..i - 1];
      if !Contains(line, "-->") {
        i := i - 1;
        continue;
      }
      var parts := Split(line, "-->");
      if |parts| != 2 {
        i := i - 1;
        continue;
      }
      var ts := ParseSrtTimestamp(parts[1]);
      if ts.Some? {
        return ts;
      }
      i := i - 1;
    }
    return None;
  }

  /** The gap between the audio and the subtitles, only when both are
      known. */
  function Gap(audioDuration: Option<real>, subtitleEnd: Option<real>): (r: Option<real>)
    ensures r.Some? <==> audioDuration.Some? && subtitleEnd.Some?
    ensures r.Some? ==> r.value + subtitleEnd.value == audioDuration.value
  {
    if audioDuration.Some? && subtitleEnd.Some? then Some(audioDuration.value - subtitleEnd.value) else None
  }

  /** The status of one chapter from what exists on disk for it: a
      duration only for a chapter with audio, and a gap only for a chapter
      with both a duration and subtitles that end somewhere, the gap being
      the duration less the last subtitle end. */
  function StatusOf(slug: string, files: ChapterFiles): (s: ChapterStatus)
    ensures s.slug == slug && s.hasSource == files.source && s.hasSummary == files.summary
    ensures s.hasScript == files.script && s.hasSubtitle == files.subtitles.Some?
    ensures s.audioDuration.Some? ==> s.hasAudio
    ensures s.audioDuration == AudioDuration(files)
    ensures s.audioSubtitleGap.Some? <==>
      s.audioDuration.Some? && files.subtitles.Some? && LastEnd(Splitlines(files.subtitles.value)).Some?
    ensures s.audioSubtitleGap.Some? ==>
      s.audioSubtitleGap.value == s.audioDuration.value - LastEnd(Splitlines(files.subtitles.value)).value
  {
    var audio := !files.wav.Absent? || !files.mp3.Absent?;
    var subtitle := files.subtitles.Some?;
    var duration := if audio then AudioDuration(files) else None;
    var subtitleEnd := if subtitle then LastEnd(Splitlines(files.subtitles.value)) else None;
    ChapterStatus(slug, files.source, files.summary, files.script, audio, subtitle,
      duration, Gap(duration, subtitleEnd))
  }

  /** The chapters of a book: the stems of its `.txt` sources together with
      the output directories whose names start with `chapter`. */
  function ChapterSlugs(sourceStems: set<string>, outputDirs: set<string>): (r: set<string>)
    ensures forall s :: s in r <==> s in sourceStems || (s in outputDirs && "chapter" <= s)
  {
    sourceStems + set d | d in outputDirs && "chapter" <= d
  }

  /** `scan_chapters`: each chapter once, sorted by natural key, with its
      status. `files` says what exists on disk for a slug. */
  method ScanChapters(sourceStems: set<string>, outputDirs: set<string>, files: string -> ChapterFiles)
    returns (slugs: seq<string>, statuses: seq<ChapterStatus>)
    ensures forall s :: s in slugs <==> s in ChapterSlugs(sourceStems, outputDirs)
    ensures forall i, j :: 0 <= i < j < |slugs| ==> slugs[i] != slugs[j]
    ensures SortedByKey(slugs)
    ensures |statuses| == |slugs|
    ensures forall k :: 0 <= k < |slugs| ==> statuses[k] == StatusOf(slugs[k], files(slugs[k]))
  {
    var listed := ListSet(ChapterSlugs(sourceStems, outputDirs));
    slugs := SortNatural(listed);
    DistinctKept(listed, slugs);
    statuses := StatusesOf(slugs, files);
  }

  /** The status loop of `scan_chapters`: one status per slug, in order. */
  method StatusesOf(slugs: seq<string>, files: string -> ChapterFiles) returns (statuses: seq<ChapterStatus>)
    ensures |statuses| == |slugs|
    ensures forall k :: 0 <= k < |slugs| ==> statuses[k] == StatusOf(slugs[k], files(slugs[k]))
  {
    statuses := [];
    for k := 0 to |slugs|
      invariant |statuses| == k
      invariant forall i :: 0 <= i < k ==> statuses[i] == StatusOf(slugs[i], files(slugs[i]))
    {
      statuses := statuses + [StatusOf(slugs[k], files(slugs[k]))];
    }
  }

  /** The elements of a set, once each, in the set's iteration order. */
  method ListSet(chapters: set<string>) returns (listed: seq<string>)
    ensures forall s :: s in listed <==> s in chapters
    ensures forall i, j :: 0 <= i < j < |listed| ==> listed[i] != listed[j]
  {
    listed := [];
    var rest := chapters;
    while rest != {}
      invariant forall s :: s in chapters <==> s in rest || s in listed
      invariant forall s :: s in rest ==> s !in listed
      invariant forall i, j :: 0 <= i < j < |listed| ==> listed[i] != listed[j]
      decreases |rest|
    {
      var s :| s in rest;
      listed := listed + [s];
      rest := rest - {s};
    }
  }

  /** A reordering of a list without repeats has no repeats. */
  lemma DistinctKept(xs: seq<string>, ys: seq<string>)
    requires multiset(xs) == multiset(ys)
    requires forall i, j :: 0 <= i < j < |xs| ==> xs[i] != xs[j]
    ensures forall i, j :: 0 <= i < j < |ys| ==> ys[i] != ys[j]
    ensures forall s :: s in ys <==> s in xs
  {
    forall s | s in xs
      ensures multiset(xs)[s] == 1
    {
      CountOnce(xs, s);
    }
    forall i, j | 0 <= i < j < |ys|
      ensures ys[i] != ys[j]
    {
      if ys[i] == ys[j] {
        assert ys[i] in multiset(ys);
        TwiceCounted(ys, i, j);
      }
    }
    forall s
      ensures s in ys <==> s in xs
    {
      assert s in ys <==> s in multiset(ys);
      assert s in xs <==> s in multiset(xs);
    }
  }

  lemma {:induction false} CountOnce(xs: seq<string>, s: string)
    requires forall i, j :: 0 <= i < j < |xs| ==> xs[i] != xs[j]
    requires s in xs
    ensures multiset(xs)[s] == 1
  {
    var n := |xs| - 1;
    var init := xs[..n];
    assert xs == init + [xs[n]];
    if xs[n] == s {
      assert s !in init;
    } else {
      CountOnce(init, s);
    }
  }

  lemma {:induction false} TwiceCounted(ys: seq<string>, i: nat, j: nat)
    requires i < j < |ys| && ys[i] == ys[j]
    ensures multiset(ys)[ys[i]] >= 2
  {
    assert ys == ys[..i] + [ys[i]] + ys[i + 1..j] + [ys[j]] + ys[j + 1..];
  }
}
