/** Sentence segments rebuilt from word timestamps
    (`whisperx_alignment_test/scripts/sentence_segmenter.py`): building a
    segment, the bucket simulation, splitting, merging, the refinement
    passes and the statistics of a segmentation. Times are exact reals; the
    population standard deviation is carried as the population variance,
    which orders and compares the same way. */
module Segments {
  import opened Wrappers
  import opened Text

  /** `WordSpan` */
  datatype WordSpan = WordSpan(text: string, startTime: real, endTime: real)

  /** `SentenceSegment`; `id` is the one field the segmenter updates after
      building. */
  datatype SentenceSegment = SentenceSegment(
    id: int, startTime: real, endTime: real,
    charCount: nat, wordCount: nat, words: seq<WordSpan>)
  {
    /** The `text` field, which `_build_segment` (the only place a segment
        is made) always sets to the words' texts joined by spaces and
        stripped. */
    function Text(): (t: string)
      ensures Trimmed(t)
    {
      SegmentText(words)
    }

    /** The `duration` property: never negative. */
    function Duration(): (d: real)
      ensures d >= 0.0 && d >= endTime - startTime
      ensures endTime >= startTime ==> d == endTime - startTime
    {
      if endTime - startTime > 0.0 then endTime - startTime else 0.0
    }
  }

  /** `IntervalSearchConfig` */
  datatype Config = Config(
    model: string,
    targetAvgCharsMin: real, targetAvgCharsMax: real, maxStdChars: real,
    minChars: int, maxChars: int,
    minDuration: real, maxDuration: real,
    minInterval: real, maxInterval: real,
    maxIterations: int, tolerance: real, fallbackInterval: real,
    anticipation: real, maxSilenceGap: real)

  /** The defaults of `IntervalSearchConfig`. */
  const DefaultConfig := Config("adaptive_interval", 18.0, 22.0, 8.0, 12, 48, 1.3, 8.0, 0.25, 1.2, 14, 0.02, 0.45, 0.0, 1.0)

  /** `_char_len`: the length of the text with its spaces removed. */
  function CharLen(text: string): nat {
    |ReplaceAll(text, " ", "")|
  }

  /** Number of characters of `text` other than the plain space. */
  function NonSpaceCount(text: string): nat {
    if text == [] then 0 else (if text[0] == ' ' then 0 else 1) + NonSpaceCount(text[1..])
  }

  /** Removing the spaces leaves exactly the other characters. */
  lemma {:induction false} CharLenCountsNonSpace(text: string)
    ensures CharLen(text) == NonSpaceCount(text) <= |text|
    decreases |text|
  {
    if text != [] {
      CharLenCountsNonSpace(text[1..]);
      assert text[..1] == [text[0]];
    }
  }

  /** `_char_count`: the characters of the words, spaces excluded. */
  function CharCount(words: seq<WordSpan>): nat {
    if words == [] then 0 else CharCount(words[..|words| - 1]) + CharLen(words[|words| - 1].text)
  }

  lemma {:induction false} CharCountConcat(a: seq<WordSpan>, b: seq<WordSpan>)
    ensures CharCount(a + b) == CharCount(a) + CharCount(b)
    decreases |b|
  {
    if b == [] {
      assert a + b == a;
    } else {
      assert (a + b)[..|a + b| - 1] == a + b[..|b| - 1];
      CharCountConcat(a, b[..|b| - 1]);
    }
  }

  function Texts(words: seq<WordSpan>): seq<string> {
    seq(|words|, k requires 0 <= k < |words| => words[k].text)
  }

  /** `" ".join(texts).strip()` */
  function SegmentText(words: seq<WordSpan>): string {
    Strip(Join(" ", Texts(words)))
  }

  /** A segment as `_build_segment` makes it from its own words (any id). */
  predicate Built(s: SentenceSegment) {
    |s.words| > 0 &&
    s.startTime == s.words[0].startTime && s.endTime == s.words[|s.words| - 1].endTime &&
    s.charCount == CharCount(s.words) && s.wordCount == |s.words|
  }

  predicate AllBuilt(segments: seq<SentenceSegment>) {
    forall s :: s in segments ==> Built(s)
  }

  /** The `ValueError` of `_build_segment`. */
  datatype BuildError = EmptySegment

  /** `_build_segment`: fails exactly on an empty word list; otherwise a
      segment with id 0 that spans, counts and spells out its words. */
  function BuildSegment(words: seq<WordSpan>): (r: Result<SentenceSegment, BuildError>)
    ensures r.Err? <==> words == []
    ensures r.Ok? ==> Built(r.value) && r.value.id == 0 && r.value.words == words
  {
    if words == [] then Err(EmptySegment)
    else Ok(SentenceSegment(0, words[0].startTime, words[|words| - 1].endTime,
                            CharCount(words), |words|, words))
  }

  /** The words of a list of segments, in order. */
  function Flatten(segments: seq<SentenceSegment>): seq<WordSpan> {
    if segments == [] then [] else Flatten(segments[..|segments| - 1]) + segments[|segments| - 1].words
  }

  lemma FlattenSnoc(segments: seq<SentenceSegment>, s: SentenceSegment)
    ensures Flatten(segments + [s]) == Flatten(segments) + s.words
  {
    assert (segments + [s])[..|segments|] == segments;
  }

  lemma {:induction false} FlattenConcat(a: seq<SentenceSegment>, b: seq<SentenceSegment>)
    ensures Flatten(a + b) == Flatten(a) + Flatten(b)
    decreases |b|
  {
    if b == [] {
      assert a + b == a;
    } else {
      var b' := b[..|b| - 1];
      assert a + b == (a + b') + [b[|b| - 1]];
      FlattenSnoc(a + b', b[|b| - 1]);
      FlattenConcat(a, b');
      FlattenSnoc(b', b[|b| - 1]);
      assert b == b' + [b[|b| - 1]];
    }
  }

  /** The words with non-empty text, in order: what the simulation keeps. */
  function Spoken(words: seq<WordSpan>): seq<WordSpan> {
    if words == [] then []
    else Spoken(words[..|words| - 1]) + (if words[|words| - 1].text != "" then [words[|words| - 1]] else [])
  }

  /** `max(0.0, next.start - prev.end)` */
  function Gap(prev: WordSpan, next: WordSpan): (g: real)
    ensures g >= 0.0 && g >= next.startTime - prev.endTime
  {
    if next.startTime - prev.endTime > 0.0 then next.startTime - prev.endTime else 0.0
  }

  /** No silence inside the words reaches `max_silence_gap`. */
  predicate Cohesive(words: seq<WordSpan>, cfg: Config) {
    forall k :: 0 < k < |words| ==> Gap(words[k - 1], words[k]) < cfg.maxSilenceGap
  }

  /** The closing test of `_simulate_segments` on a bucket. */
  predicate ShouldClose(bucket: seq<WordSpan>, interval: real, cfg: Config)
    requires |bucket| > 0
  {
    var duration := bucket[|bucket| - 1].endTime - bucket[0].startTime;
    var chars := CharCount(bucket);
    duration >= cfg.maxDuration || chars >= cfg.maxChars || (duration >= interval && chars >= cfg.minChars)
  }

  /** No shorter prefix of the words would already have closed. */
  predicate Eager(words: seq<WordSpan>, interval: real, cfg: Config) {
    forall k :: 1 <= k < |words| ==> !ShouldClose(words[..k], interval, cfg)
  }

  /** Why a segment ended before the next one: it met the closing test, or
      the silence before the next word reached `max_silence_gap`. */
  predicate Separated(a: seq<WordSpan>, b: seq<WordSpan>, interval: real, cfg: Config) {
    |a| > 0 && |b| > 0 &&
    (ShouldClose(a, interval, cfg) || Gap(a[|a| - 1], b[0]) >= cfg.maxSilenceGap)
  }

  /** A finished segment of the simulation. */
  predicate GoodSegment(s: SentenceSegment, interval: real, cfg: Config) {
    Built(s) && s.id == 0 && Cohesive(s.words, cfg) && Eager(s.words, interval, cfg)
  }

  /** The segments emitted so far: each good, each separated from the next. */
  predicate Closed(segments: seq<SentenceSegment>, interval: real, cfg: Config) {
    (forall s :: s in segments ==> GoodSegment(s, interval, cfg)) &&
    forall i :: 0 < i < |segments| ==> Separated(segments[i - 1].words, segments[i].words, interval, cfg)
  }

  /** The open bucket: cohesive, and no prefix of it met the closing test. */
  predicate OpenBucket(bucket: seq<WordSpan>, interval: real, cfg: Config) {
    Cohesive(bucket, cfg) && forall k :: 1 <= k <= |bucket| ==> !ShouldClose(bucket[..k], interval, cfg)
  }

  lemma AppendSegment(segments: seq<SentenceSegment>, s: SentenceSegment, interval: real, cfg: Config)
    requires Closed(segments, interval, cfg) && GoodSegment(s, interval, cfg)
    requires segments != [] ==> Separated(segments[|segments| - 1].words, s.words, interval, cfg)
    ensures Closed(segments + [s], interval, cfg)
    ensures Flatten(segments + [s]) == Flatten(segments) + s.words
  {
    FlattenSnoc(segments, s);
    var t := segments + [s];
    forall i | 0 < i < |t| ensures Separated(t[i - 1].words, t[i].words, interval, cfg) {
      if i < |segments| {
        assert t[i - 1] == segments[i - 1] && t[i] == segments[i];
      }
    }
  }

  /** An open bucket, once emitted, is a good segment. */
  lemma EmitOpen(bucket: seq<WordSpan>, interval: real, cfg: Config)
    requires bucket != [] && OpenBucket(bucket, interval, cfg)
    ensures GoodSegment(BuildSegment(bucket).value, interval, cfg)
  {
    forall k | 1 <= k < |bucket| ensures !ShouldClose(bucket[..k], interval, cfg) {
    }
  }

  /** The last emitted segment met the closing test. */
  predicate LastClosed(segments: seq<SentenceSegment>, interval: real, cfg: Config) {
    segments != [] && |segments[|segments| - 1].words| > 0 && ShouldClose(segments[|segments| - 1].words, interval, cfg)
  }

  /** Appending a word to an open bucket, with no long silence before it. */
  lemma Extend(bucket: seq<WordSpan>, w: WordSpan, interval: real, cfg: Config)
    requires OpenBucket(bucket, interval, cfg)
    requires bucket != [] ==> Gap(bucket[|bucket| - 1], w) < cfg.maxSilenceGap
    ensures Cohesive(bucket + [w], cfg) && Eager(bucket + [w], interval, cfg)
    ensures !ShouldClose(bucket + [w], interval, cfg) ==> OpenBucket(bucket + [w], interval, cfg)
  {
    var b := bucket + [w];
    forall k | 0 < k < |b| ensures Gap(b[k - 1], b[k]) < cfg.maxSilenceGap {
      if k < |bucket| {
        assert b[k - 1] == bucket[k - 1] && b[k] == bucket[k];
      }
    }
    forall k | 1 <= k < |b| ensures !ShouldClose(b[..k], interval, cfg) {
      assert b[..k] == bucket[..k];
    }
    assert b[..|b|] == b;
  }

  /** The state of `_simulate_segments` between two words: the emitted
      segments, the open bucket, and why the last segment ended. */
  predicate SimState(segments: seq<SentenceSegment>, bucket: seq<WordSpan>, interval: real, cfg: Config) {
    Closed(segments, interval, cfg) && OpenBucket(bucket, interval, cfg) &&
    (bucket == [] && segments != [] ==> LastClosed(segments, interval, cfg)) &&
    (bucket != [] && segments != [] ==> Separated(segments[|segments| - 1].words, bucket, interval, cfg))
  }

  /** The state of `_simulate_segments` just after a word joined the bucket. */
  predicate Filled(segments: seq<SentenceSegment>, bucket: seq<WordSpan>, interval: real, cfg: Config) {
    Closed(segments, interval, cfg) && bucket != [] &&
    Cohesive(bucket, cfg) && Eager(bucket, interval, cfg) &&
    (!ShouldClose(bucket, interval, cfg) ==> OpenBucket(bucket, interval, cfg)) &&
    (segments != [] ==> Separated(segments[|segments| - 1].words, bucket, interval, cfg))
  }

  /** A long silence closes the bucket; the word starts a new one. */
  lemma SilenceCloses(segments: seq<SentenceSegment>, bucket: seq<WordSpan>, word: WordSpan, interval: real, cfg: Config)
    requires SimState(segments, bucket, interval, cfg)
    requires bucket != [] && Gap(bucket[|bucket| - 1], word) >= cfg.maxSilenceGap
    ensures Filled(segments + [BuildSegment(bucket).value], [word], interval, cfg)
    ensures Flatten(segments + [BuildSegment(bucket).value]) + [word] == Flatten(segments) + bucket + [word]
  {
    EmitOpen(bucket, interval, cfg);
    var s := BuildSegment(bucket).value;
    AppendSegment(segments, s, interval, cfg);
    assert Separated(s.words, [word], interval, cfg);
    Extend([], word, interval, cfg);
    assert [] + [word] == [word];
  }

  /** Without a long silence the word joins the bucket. */
  lemma WordJoins(segments: seq<SentenceSegment>, bucket: seq<WordSpan>, word: WordSpan, interval: real, cfg: Config)
    requires SimState(segments, bucket, interval, cfg)
    requires bucket != [] ==> Gap(bucket[|bucket| - 1], word) < cfg.maxSilenceGap
    ensures Filled(segments, bucket + [word], interval, cfg)
  {
    Extend(bucket, word, interval, cfg);
    if bucket != [] {
      assert (bucket + [word])[0] == bucket[0];
    }
  }

  /** The first half of one step of `_simulate_segments`: close the bucket at
      a long silence, then add the word. */
  method AddWord(segments: seq<SentenceSegment>, bucket: seq<WordSpan>, word: WordSpan, interval: real, cfg: Config)
    returns (segments': seq<SentenceSegment>, bucket': seq<WordSpan>)
    requires SimState(segments, bucket, interval, cfg)
    ensures Filled(segments', bucket', interval, cfg)
    ensures Flatten(segments') + bucket' == Flatten(segments) + bucket + [word]
  {
    segments', bucket' := segments, bucket;
    var closedAtSilence := false;
    if bucket' != [] {
      var gap := Gap(bucket'[|bucket'| - 1], word);
      if gap >= cfg.maxSilenceGap {
        SilenceCloses(segments', bucket', word, interval, cfg);
        segments' := segments' + [BuildSegment(bucket').value];
        bucket' := [];
        closedAtSilence := true;
      }
    }
    if !closedAtSilence {
      WordJoins(segments', bucket', word, interval, cfg);
    }
    bucket' := bucket' + [word];
    assert closedAtSilence ==> bucket' == [word];
  }

  /** The second half: close the bucket when it meets the closing test. */
  method CloseIfDue(segments: seq<SentenceSegment>, bucket: seq<WordSpan>, interval: real, cfg: Config)
    returns (segments': seq<SentenceSegment>, bucket': seq<WordSpan>)
    requires Filled(segments, bucket, interval, cfg)
    ensures SimState(segments', bucket', interval, cfg)
    ensures Flatten(segments') + bucket' == Flatten(segments) + bucket
  {
    segments', bucket' := segments, bucket;
    var duration := bucket[|bucket| - 1].endTime - bucket[0].startTime;
    var charCount := CharCount(bucket);
    var shouldClose := false;
    if duration >= cfg.maxDuration || charCount >= cfg.maxChars {
      shouldClose := true;
    } else if duration >= interval && charCount >= cfg.minChars {
      shouldClose := true;
    }
    assert shouldClose == ShouldClose(bucket, interval, cfg);
    if shouldClose {
      var s := BuildSegment(bucket).value;
      AppendSegment(segments, s, interval, cfg);
      segments' := segments + [s];
      bucket' := [];
      assert Flatten(segments') + bucket' == Flatten(segments) + bucket;
    }
  }

  /** `_simulate_segments`: every non-empty word lands, in order, in exactly
      one segment; no segment is empty; no silence inside a segment reaches
      `max_silence_gap`; a segment closes as soon as its words meet the
      closing test, and otherwise only at a long silence or the end. */
  method SimulateSegments(words: seq<WordSpan>, interval: real, cfg: Config) returns (segments: seq<SentenceSegment>)
    ensures forall s :: s in segments ==> Built(s) && s.id == 0 && Cohesive(s.words, cfg) && Eager(s.words, interval, cfg)
    ensures Flatten(segments) == Spoken(words)
    ensures forall i :: 0 < i < |segments| ==> Separated(segments[i - 1].words, segments[i].words, interval, cfg)
  {
    var bucket;
    segments, bucket := ScanWords(words, interval, cfg);
    if bucket != [] {
      EmitOpen(bucket, interval, cfg);
      var s := BuildSegment(bucket).value;
      AppendSegment(segments, s, interval, cfg);
      segments := segments + [s];
    }
    assert Closed(segments, interval, cfg);
  }

  /** The word loop of `simulate_segments`: the closed segments and the
      open bucket, which together hold every spoken word in order. */
  method ScanWords(words: seq<WordSpan>, interval: real, cfg: Config) returns (segments: seq<SentenceSegment>, bucket: seq<WordSpan>)
    ensures SimState(segments, bucket, interval, cfg)
    ensures Flatten(segments) + bucket == Spoken(words)
  {
    segments, bucket := [], [];
    for t := 0 to |words|
      invariant SimState(segments, bucket, interval, cfg)
      invariant Flatten(segments) + bucket == Spoken(words[..t])
    {
      var word := words[t];
      assert words[..t + 1][..t] == words[..t];
      if word.text != "" {
        segments, bucket := AddWord(segments, bucket, word, interval, cfg);
        segments, bucket := CloseIfDue(segments, bucket, interval, cfg);
      }
    }
    assert words[..|words|] == words;
  }

  /** The scan of `_split_segment`: the first 1-based position at which the
      running character count reaches half of `charCount`, or 0 if none does. */
  method HalfwayIndex(words: seq<WordSpan>, charCount: nat) returns (splitIndex: nat)
    ensures splitIndex == Halfway(words, charCount)
    ensures splitIndex <= |words|
    ensures forall j :: 1 <= j <= |words| && (splitIndex == 0 || j < splitIndex) ==> 2 * PrefixChars(words, j) < charCount
    ensures splitIndex > 0 ==> 2 * PrefixChars(words, splitIndex) >= charCount
  {
    var halfChars := charCount as real / 2.0;
    var accumulator := 0;
    splitIndex := 0;
    var idx := 1;
    while idx <= |words|
      invariant 1 <= idx <= |words| + 1
      invariant accumulator == PrefixChars(words, idx - 1)
      invariant HalfwayFrom(words, charCount, idx) == Halfway(words, charCount)
      decreases |words| + 1 - idx
    {
      CharCountSnoc(words, idx - 1);
      accumulator := accumulator + CharLen(words[idx - 1].text);
      HalfReached(accumulator, charCount);
      if accumulator as real >= halfChars {
        splitIndex := idx;
        HalfwayFacts(words, charCount, 1);
        return;
      }
      idx := idx + 1;
    }
    HalfwayFacts(words, charCount, 1);
  }

  /** The first position from `j` on at which the first words hold at least
      half of `charCount` characters, or 0 if there is none. */
  function HalfwayFrom(words: seq<WordSpan>, charCount: nat, j: nat): (r: nat)
    requires 1 <= j
    ensures r == 0 || j <= r <= |words|
    decreases |words| + 1 - j
  {
    if j > |words| then 0
    else if 2 * PrefixChars(words, j) >= charCount then j
    else HalfwayFrom(words, charCount, j + 1)
  }

  /** The position found from `j` on is the first one from `j` on that
      reaches half the count. */
  lemma {:induction false} HalfwayFacts(words: seq<WordSpan>, charCount: nat, j: nat)
    requires 1 <= j
    ensures var r := HalfwayFrom(words, charCount, j);
      forall i :: j <= i <= |words| && (r == 0 || i < r) ==> 2 * PrefixChars(words, i) < charCount
    ensures var r := HalfwayFrom(words, charCount, j);
      r > 0 ==> 2 * PrefixChars(words, r) >= charCount
    decreases |words| + 1 - j
  {
    if j <= |words| && 2 * PrefixChars(words, j) < charCount {
      HalfwayFacts(words, charCount, j + 1);
    }
  }

  /** The split point `_split_segment` finds before clamping. */
  function Halfway(words: seq<WordSpan>, charCount: nat): (r: nat)
    ensures r <= |words|
  {
    HalfwayFrom(words, charCount, 1)
  }

  /** The split point clamped to `[1, len(words) - 1]`. */
  function Cut(seg: SentenceSegment): (k: nat)
    requires |seg.words| >= 2
    ensures 1 <= k < |seg.words|
  {
    var h := Halfway(seg.words, seg.charCount);
    if h < 1 then 1 else if h > |seg.words| - 1 then |seg.words| - 1 else h
  }

  /** The two segments `_split_segment` returns: the words before and from
      the clamped split point. */
  function SplitHalves(seg: SentenceSegment): (r: seq<SentenceSegment>)
    requires |seg.words| >= 2
    ensures |r| == 2 && AllBuilt(r) && r[0].words + r[1].words == seg.words
    ensures r[0].words == seg.words[..Cut(seg)] && r[1].words == seg.words[Cut(seg)..]
  {
    var k := Cut(seg);
    SliceSplit(seg.words, k);
    [BuildSegment(seg.words[..k]).value, BuildSegment(seg.words[k..]).value]
  }

  /** The characters of the first `j` words. */
  function PrefixChars(words: seq<WordSpan>, j: nat): nat
    requires j <= |words|
  {
    CharCount(words[..j])
  }

  lemma CharCountSnoc(words: seq<WordSpan>, k: nat)
    requires k < |words|
    ensures PrefixChars(words, k + 1) == PrefixChars(words, k) + CharLen(words[k].text)
  {
    assert words[..k + 1][..k] == words[..k];
  }

  /** Comparing with half the count in reals is comparing twice the
      accumulator with the count. */
  lemma HalfReached(accumulator: nat, charCount: nat)
    ensures accumulator as real >= charCount as real / 2.0 <==> 2 * accumulator >= charCount
  {
  }

  /** `_split_segment`: the split point is the first word at which the
      running character count reaches half of `char_count`, clamped to
      [1, len - 1]; a segment of fewer than two words leaves an empty half,
      which `_build_segment` rejects. */
  method SplitSegment(seg: SentenceSegment) returns (r: Result<(SentenceSegment, SentenceSegment), BuildError>)
    ensures r.Err? <==> |seg.words| < 2
    ensures r.Ok? ==> var (left, right) := r.value;
      Built(left) && Built(right) && left.id == 0 && right.id == 0 &&
      left.words + right.words == seg.words &&
      (forall j :: 1 <= j < |left.words| ==> 2 * PrefixChars(seg.words, j) < seg.charCount) &&
      (seg.charCount == CharCount(seg.words) ==> |right.words| == 1 || 2 * CharCount(left.words) >= seg.charCount)
    ensures r.Ok? ==> [r.value.0, r.value.1] == SplitHalves(seg)
  {
    var splitIndex := HalfwayIndex(seg.words, seg.charCount);
    var k := if splitIndex < |seg.words| - 1 then splitIndex else |seg.words| - 1;
    k := if k < 1 then 1 else k;
    // Python slices clamp an index past the end.
    var cut := if k < |seg.words| then k else |seg.words|;
    var left := BuildSegment(seg.words[..cut]);
    var right := BuildSegment(seg.words[cut..]);
    if left.Err? {
      return Err(left.error);
    }
    if right.Err? {
      return Err(right.error);
    }
    CutHalf(seg.words, seg.charCount, splitIndex, cut);
    assert left.value.words == seg.words[..cut];
    SliceSplit(seg.words, cut);
    assert cut == Cut(seg);
    r := Ok((left.value, right.value));
  }

  /** The clamped split point keeps both halves non-empty, stays at or
      before the first position where half the characters are reached, and
      when the count is the words' own, reaches half unless it was clamped
      to the last word. */
  lemma CutHalf(words: seq<WordSpan>, charCount: nat, splitIndex: nat, cut: int)
    requires |words| >= 2 && splitIndex <= |words|
    requires forall j :: 1 <= j <= |words| && (splitIndex == 0 || j < splitIndex) ==> 2 * PrefixChars(words, j) < charCount
    requires splitIndex > 0 ==> 2 * PrefixChars(words, splitIndex) >= charCount
    requires cut == if splitIndex < 1 then 1 else if splitIndex > |words| - 1 then |words| - 1 else splitIndex
    ensures 1 <= cut < |words|
    ensures forall j :: 1 <= j < cut ==> 2 * PrefixChars(words, j) < charCount
    ensures charCount == CharCount(words) ==> cut == |words| - 1 || 2 * PrefixChars(words, cut) >= charCount
  {
    assert words[..|words|] == words;
    assert PrefixChars(words, |words|) == CharCount(words);
  }

  lemma SliceSplit<T>(xs: seq<T>, k: nat)
    requires k <= |xs|
    ensures xs[..k] + xs[k..] == xs
  {
  }

  /** `_merge_segments`: one segment over both word lists; counts add up
      and the span runs from the first start to the second end. */
  function MergeSegments(a: SentenceSegment, b: SentenceSegment): (r: Result<SentenceSegment, BuildError>)
    ensures r.Err? <==> a.words == [] && b.words == []
    ensures r.Ok? ==> Built(r.value) && r.value.id == 0 && r.value.words == a.words + b.words
    ensures r.Ok? && Built(a) && Built(b) ==>
      r.value.charCount == a.charCount + b.charCount &&
      r.value.wordCount == a.wordCount + b.wordCount &&
      r.value.startTime == a.startTime && r.value.endTime == b.endTime
  {
    CharCountConcat(a.words, b.words);
    BuildSegment(a.words + b.words)
  }

  /** The split condition of `_refine_outliers`. */
  predicate Oversized(s: SentenceSegment, cfg: Config) {
    s.charCount > cfg.maxChars && s.wordCount > 1
  }

  /** Appending built segments keeps them built and their words in order. */
  lemma AppendSegments(front: seq<SentenceSegment>, back: seq<SentenceSegment>)
    requires AllBuilt(front) && AllBuilt(back)
    ensures AllBuilt(front + back) && Flatten(front + back) == Flatten(front) + Flatten(back)
  {
    FlattenConcat(front, back);
  }

  lemma FlattenPair(a: SentenceSegment, b: SentenceSegment)
    ensures Flatten([a, b]) == a.words + b.words
  {
    FlattenSnoc([a], b);
    FlattenSnoc([], a);
    assert [a] + [b] == [a, b];
  }

  /** An oversized segment replaced by its two halves. */
  method Halves(seg: SentenceSegment) returns (pieces: seq<SentenceSegment>)
    requires Built(seg) && seg.wordCount > 1
    ensures pieces == SplitHalves(seg)
    ensures AllBuilt(pieces) && Flatten(pieces) == seg.words && |pieces| == 2
  {
    var halves := SplitSegment(seg);
    var first, second := halves.value.0, halves.value.1;
    PairPieces(seg, first, second);
    pieces := [first, second];
  }

  lemma PairPieces(seg: SentenceSegment, first: SentenceSegment, second: SentenceSegment)
    requires Built(first) && Built(second) && first.words + second.words == seg.words
    ensures AllBuilt([first, second]) && Flatten([first, second]) == seg.words
  {
    FlattenPair(first, second);
  }

  lemma SinglePiece(seg: SentenceSegment)
    requires Built(seg)
    ensures AllBuilt([seg]) && Flatten([seg]) == seg.words
  {
    FlattenSnoc([], seg);
  }

  /** What the split pass makes of one segment: its two halves when it is
      oversized, the segment itself otherwise. */
  function Piece(seg: SentenceSegment, cfg: Config): (r: seq<SentenceSegment>)
    requires Built(seg)
    ensures AllBuilt(r) && |r| >= 1
  {
    if Oversized(seg, cfg) then SplitHalves(seg) else [seg]
  }

  /** The split pass as a reference: the pieces of the segments, in order. */
  function SplitAll(segments: seq<SentenceSegment>, cfg: Config): (r: seq<SentenceSegment>)
    requires AllBuilt(segments)
    ensures AllBuilt(r)
  {
    if segments == [] then []
    else
      var last := |segments| - 1;
      assert segments[last] in segments;
      AppendSegments(SplitAll(segments[..last], cfg), Piece(segments[last], cfg));
      SplitAll(segments[..last], cfg) + Piece(segments[last], cfg)
  }

  /** The split pass of `_refine_outliers`: every oversized segment is
      replaced by its two halves, the others are kept; `changed` tells
      whether any segment was oversized. */
  method SplitPass(segments: seq<SentenceSegment>, cfg: Config) returns (next: seq<SentenceSegment>, changed: bool)
    requires AllBuilt(segments)
    ensures next == SplitAll(segments, cfg)
    ensures AllBuilt(next) && Flatten(next) == Flatten(segments)
    ensures changed <==> exists j :: 0 <= j < |segments| && Oversized(segments[j], cfg)
    ensures !changed ==> next == segments
    ensures |next| >= |segments|
  {
    next := [];
    changed := false;
    for t := 0 to |segments|
      invariant SplitSoFar(segments, cfg, t, next, changed)
    {
      var seg := segments[t];
      assert seg in segments;
      var pieces;
      if Oversized(seg, cfg) {
        pieces := Halves(seg);
      } else {
        SinglePiece(seg);
        pieces := [seg];
      }
      SplitKeep(segments, cfg, t, next, changed, pieces);
      next := next + pieces;
      changed := changed || Oversized(seg, cfg);
    }
    assert segments[..|segments|] == segments;
  }

  /** After the first `t` segments of the split pass: `next` holds built
      segments over their words, `changed` tells whether one of them was
      oversized, and without a split `next` is those segments unchanged. */
  predicate SplitSoFar(segments: seq<SentenceSegment>, cfg: Config, t: nat, next: seq<SentenceSegment>, changed: bool)
    requires t <= |segments|
  {
    AllBuilt(segments[..t]) && next == SplitAll(segments[..t], cfg) &&
    AllBuilt(next) && Flatten(next) == Flatten(segments[..t]) &&
    (changed <==> OversizedBefore(segments, t, cfg)) &&
    (!changed ==> next == segments[..t]) &&
    |next| >= t
  }

  lemma SplitKeep(segments: seq<SentenceSegment>, cfg: Config, t: nat, next: seq<SentenceSegment>, changed: bool, pieces: seq<SentenceSegment>)
    requires t < |segments| && SplitSoFar(segments, cfg, t, next, changed)
    requires AllBuilt(pieces) && Flatten(pieces) == segments[t].words && |pieces| >= 1
    requires Built(segments[t]) && pieces == Piece(segments[t], cfg)
    ensures SplitSoFar(segments, cfg, t + 1, next + pieces, changed || Oversized(segments[t], cfg))
  {
    SplitAllSnoc(segments, cfg, t);
    SplitPassStep(segments, t, next, pieces);
    OversizedBeforeStep(segments, t, cfg);
    if !changed && !Oversized(segments[t], cfg) {
      PrefixSnoc(segments, t, next);
    }
  }

  lemma SplitAllSnoc(segments: seq<SentenceSegment>, cfg: Config, t: nat)
    requires t < |segments| && AllBuilt(segments[..t]) && Built(segments[t])
    ensures AllBuilt(segments[..t + 1])
    ensures SplitAll(segments[..t + 1], cfg) == SplitAll(segments[..t], cfg) + Piece(segments[t], cfg)
  {
    assert segments[..t + 1] == segments[..t] + [segments[t]];
    assert segments[..t + 1][..t] == segments[..t];
  }

  /** Some segment before position `t` is oversized. */
  predicate OversizedBefore(segments: seq<SentenceSegment>, t: nat, cfg: Config)
    requires t <= |segments|
  {
    exists j :: 0 <= j < t && Oversized(segments[j], cfg)
  }

  lemma OversizedBeforeStep(segments: seq<SentenceSegment>, t: nat, cfg: Config)
    requires t < |segments|
    ensures OversizedBefore(segments, t + 1, cfg) <==> OversizedBefore(segments, t, cfg) || Oversized(segments[t], cfg)
  {
    if Oversized(segments[t], cfg) {
      assert 0 <= t < t + 1 && Oversized(segments[t], cfg);
    }
  }

  lemma PrefixSnoc<T>(xs: seq<T>, t: nat, prefix: seq<T>)
    requires t < |xs| && prefix == xs[..t]
    ensures prefix + [xs[t]] == xs[..t + 1]
  {
  }

  /** The pieces of segment `t` added after the pieces of the segments
      before it are the pieces of the first `t + 1` segments. */
  lemma SplitPassStep(segments: seq<SentenceSegment>, t: nat, next: seq<SentenceSegment>, pieces: seq<SentenceSegment>)
    requires t < |segments|
    requires AllBuilt(next) && Flatten(next) == Flatten(segments[..t])
    requires AllBuilt(pieces) && Flatten(pieces) == segments[t].words
    ensures AllBuilt(next + pieces) && Flatten(next + pieces) == Flatten(segments[..t + 1])
  {
    assert segments[..t + 1] == segments[..t] + [segments[t]];
    FlattenSnoc(segments[..t], segments[t]);
    AppendSegments(next, pieces);
  }

  /** Replacing two neighbours by their merge keeps the words in order. */
  lemma MergeNeighbours(xs: seq<SentenceSegment>, i: nat, m: SentenceSegment)
    requires i + 1 < |xs| && AllBuilt(xs) && Built(m) && m.words == xs[i].words + xs[i + 1].words
    ensures AllBuilt(xs[..i] + [m] + xs[i + 2..])
    ensures Flatten(xs[..i] + [m] + xs[i + 2..]) == Flatten(xs)
  {
    MergedBuilt(xs, i, m);
    MergedWords(xs[..i], xs[i], xs[i + 1], m, xs[i + 2..]);
    AroundPair(xs, i);
  }

  lemma AroundPair<T>(xs: seq<T>, i: nat)
    requires i + 1 < |xs|
    ensures xs == xs[..i] + [xs[i], xs[i + 1]] + xs[i + 2..]
  {
  }

  lemma MergedBuilt(xs: seq<SentenceSegment>, i: nat, m: SentenceSegment)
    requires i + 1 < |xs| && AllBuilt(xs) && Built(m)
    ensures AllBuilt(xs[..i] + [m] + xs[i + 2..])
  {
    var ys := xs[..i] + [m] + xs[i + 2..];
    forall s | s in ys ensures Built(s) {
      if s != m {
        assert s in xs[..i] || s in xs[i + 2..];
      }
    }
  }

  lemma MergedWords(front: seq<SentenceSegment>, a: SentenceSegment, b: SentenceSegment, m: SentenceSegment, back: seq<SentenceSegment>)
    requires m.words == a.words + b.words
    ensures Flatten(front + [m] + back) == Flatten(front + [a, b] + back)
  {
    FlattenConcat(front + [a, b], back);
    FlattenConcat(front, [a, b]);
    FlattenPair(a, b);
    FlattenConcat(front + [m], back);
    FlattenSnoc(front, m);
  }

  /** `refined[k] = _merge_segments(refined[k], refined[k + 1])` followed by
      `refined.pop(k + 1)`: the pair becomes one segment carrying both
      character counts, and everything before it stays put. */
  method MergeAt(xs: seq<SentenceSegment>, k: nat) returns (ys: seq<SentenceSegment>)
    requires k + 1 < |xs| && AllBuilt(xs)
    ensures ys == Merged(xs, k)
    ensures AllBuilt(ys) && Flatten(ys) == Flatten(xs)
    ensures |ys| == |xs| - 1 && ys[..k] == xs[..k]
    ensures ys[k].charCount == xs[k].charCount + xs[k + 1].charCount
  {
    assert xs[k] in xs && xs[k + 1] in xs;
    var merged := MergeSegments(xs[k], xs[k + 1]).value;
    MergedFacts(xs, k);
    ReplaceThenPop(xs, k, merged);
    ys := xs[k := merged];
    ys := ys[..k + 1] + ys[k + 2..];
  }

  /** The list after merging positions `k` and `k + 1`. */
  function Merged(xs: seq<SentenceSegment>, k: nat): (r: seq<SentenceSegment>)
    requires k + 1 < |xs| && AllBuilt(xs)
    ensures AllBuilt(r) && |r| == |xs| - 1
  {
    assert xs[k] in xs;
    var m := MergeSegments(xs[k], xs[k + 1]).value;
    MergedBuilt(xs, k, m);
    xs[..k] + [m] + xs[k + 2..]
  }

  /** The merge loop of `_refine_outliers` from position `i` on: a segment
      of at least `min_chars`, or the only one, is passed; a shorter one is
      merged into the next segment, or into the previous one when it is the
      last, and the same position is looked at again. */
  function MergeFrom(xs: seq<SentenceSegment>, i: nat, cfg: Config): (r: seq<SentenceSegment>)
    requires i <= |xs| && AllBuilt(xs)
    ensures AllBuilt(r)
    decreases |xs| - i
  {
    if i == |xs| then xs
    else if xs[i].charCount >= cfg.minChars || |xs| == 1 then MergeFrom(xs, i + 1, cfg)
    else if i + 1 < |xs| then MergeFrom(Merged(xs, i), i, cfg)
    else MergeFrom(Merged(xs, i - 1), i, cfg)
  }

  lemma ReplaceThenPop<T>(xs: seq<T>, k: nat, m: T)
    requires k + 1 < |xs|
    ensures var ys := xs[k := m]; ys[..k + 1] + ys[k + 2..] == xs[..k] + [m] + xs[k + 2..]
    ensures (xs[..k] + [m] + xs[k + 2..])[..k] == xs[..k] && (xs[..k] + [m] + xs[k + 2..])[k] == m
  {
  }

  /** No segment is under `min_chars`, unless it is the only one. */
  predicate NoShortSegment(segments: seq<SentenceSegment>, cfg: Config) {
    |segments| <= 1 || forall s :: s in segments ==> s.charCount >= cfg.minChars
  }

  /** The merge pass of `_refine_outliers`, on a list changed in place: a
      segment under `min_chars` is merged into the next one, else into the
      previous one, unless it is the only segment. Afterwards no segment is
      under `min_chars` unless just one is left. */
  method MergePass(segments: seq<SentenceSegment>, cfg: Config) returns (refined: seq<SentenceSegment>, changed: bool)
    requires AllBuilt(segments)
    ensures refined == MergeFrom(segments, 0, cfg)
    ensures AllBuilt(refined) && Flatten(refined) == Flatten(segments)
    ensures |refined| <= |segments| && (segments != [] ==> refined != [])
    ensures changed <==> |refined| < |segments|
    ensures !changed ==> refined == segments
    ensures NoShortSegment(refined, cfg)
  {
    refined := segments;
    changed := false;
    var i: nat := 0;
    while i < |refined|
      invariant MergeSoFar(segments, cfg, refined, i, changed)
      decreases |refined| - i
    {
      refined, i, changed := MergeLook(segments, cfg, refined, i, changed);
    }
    MergeDone(segments, cfg, refined, changed);
  }

  /** One round of the merge loop at position `i`: pass a long enough
      segment, otherwise merge it into the next one or, when it is last,
      into the previous one. */
  method MergeLook(ghost segments: seq<SentenceSegment>, cfg: Config, refined: seq<SentenceSegment>, i: nat, changed: bool)
    returns (next: seq<SentenceSegment>, j: nat, nowChanged: bool)
    requires AllBuilt(segments) && MergeSoFar(segments, cfg, refined, i, changed) && i < |refined|
    ensures MergeSoFar(segments, cfg, next, j, nowChanged)
    ensures |next| - j < |refined| - i
  {
    next, j, nowChanged := refined, i, changed;
    if refined[i].charCount >= cfg.minChars || |refined| == 1 {
      PassStep(segments, cfg, refined, i, changed);
      j := i + 1;
    } else if i + 1 < |refined| {
      MergeNextStep(segments, cfg, refined, i, changed);
      next := MergeAt(refined, i);
      nowChanged := true;
    } else if i > 0 {
      MergePrevStep(segments, cfg, refined, i, changed);
      next := MergeAt(refined, i - 1);
      nowChanged := true;
    } else {
      // A lone segment was passed above.
      assert false;
    }
  }

  /** The merge loop after it has looked at position `i`: the words are
      kept, `changed` tells whether a merge happened, the segments before
      `i` are long enough unless one is left, and finishing the loop from
      here gives what the whole loop gives. */
  predicate MergeSoFar(segments: seq<SentenceSegment>, cfg: Config, refined: seq<SentenceSegment>, i: nat, changed: bool)
    requires AllBuilt(segments)
  {
    i <= |refined| <= |segments| &&
    AllBuilt(refined) && Flatten(refined) == Flatten(segments) &&
    (segments != [] ==> refined != []) &&
    (changed <==> |refined| < |segments|) &&
    (!changed ==> refined == segments) &&
    (forall j :: 0 <= j < i ==> refined[j].charCount >= cfg.minChars || |refined| == 1) &&
    MergeFrom(refined, i, cfg) == MergeFrom(segments, 0, cfg)
  }

  /** A merge keeps the words and the segments before it, and the merged
      segment carries both character counts. */
  lemma MergedFacts(xs: seq<SentenceSegment>, k: nat)
    requires k + 1 < |xs| && AllBuilt(xs)
    ensures Flatten(Merged(xs, k)) == Flatten(xs)
    ensures Merged(xs, k)[..k] == xs[..k]
    ensures Merged(xs, k)[k].charCount == xs[k].charCount + xs[k + 1].charCount
  {
    assert xs[k] in xs && xs[k + 1] in xs;
    var m := MergeSegments(xs[k], xs[k + 1]).value;
    MergeNeighbours(xs, k, m);
    ReplaceThenPop(xs, k, m);
  }

  lemma PassStep(segments: seq<SentenceSegment>, cfg: Config, refined: seq<SentenceSegment>, i: nat, changed: bool)
    requires AllBuilt(segments) && MergeSoFar(segments, cfg, refined, i, changed) && i < |refined|
    requires refined[i].charCount >= cfg.minChars || |refined| == 1
    ensures MergeSoFar(segments, cfg, refined, i + 1, changed)
  {
  }

  lemma MergeNextStep(segments: seq<SentenceSegment>, cfg: Config, refined: seq<SentenceSegment>, i: nat, changed: bool)
    requires AllBuilt(segments) && MergeSoFar(segments, cfg, refined, i, changed) && i + 1 < |refined|
    requires refined[i].charCount < cfg.minChars && |refined| != 1
    ensures MergeSoFar(segments, cfg, Merged(refined, i), i, true)
  {
    MergedFacts(refined, i);
    var next := Merged(refined, i);
    forall j | 0 <= j < i
      ensures next[j].charCount >= cfg.minChars || |next| == 1
    {
      assert next[j] == next[..i][j];
    }
  }

  lemma MergePrevStep(segments: seq<SentenceSegment>, cfg: Config, refined: seq<SentenceSegment>, i: nat, changed: bool)
    requires AllBuilt(segments) && MergeSoFar(segments, cfg, refined, i, changed)
    requires i + 1 == |refined| && i > 0
    requires refined[i].charCount < cfg.minChars
    ensures MergeSoFar(segments, cfg, Merged(refined, i - 1), i, true)
  {
    MergedFacts(refined, i - 1);
    var next := Merged(refined, i - 1);
    forall j | 0 <= j < i
      ensures next[j].charCount >= cfg.minChars || |next| == 1
    {
      if j < i - 1 {
        assert next[j] == next[..i - 1][j];
      }
    }
  }

  lemma MergeDone(segments: seq<SentenceSegment>, cfg: Config, refined: seq<SentenceSegment>, changed: bool)
    requires AllBuilt(segments) && MergeSoFar(segments, cfg, refined, |refined|, changed)
    ensures refined == MergeFrom(segments, 0, cfg)
    ensures NoShortSegment(refined, cfg)
  {
    forall s | s in refined
      ensures s.charCount >= cfg.minChars || |refined| == 1
    {
      var j :| 0 <= j < |refined| && refined[j] == s;
    }
  }

  /** The number of passes `max_iterations` allows. */
  function Rounds(cfg: Config): nat {
    if cfg.maxIterations > 0 then cfg.maxIterations else 0
  }

  /** `_refine_outliers` as a reference: with passes left, split, then
      merge, and go on while either pass changed something. */
  function Refined(xs: seq<SentenceSegment>, cfg: Config, rounds: nat): (r: seq<SentenceSegment>)
    requires AllBuilt(xs)
    decreases rounds
  {
    if rounds == 0 then xs
    else
      var split := SplitAll(xs, cfg);
      var merged := MergeFrom(split, 0, cfg);
      if OversizedBefore(xs, |xs|, cfg) || |merged| < |split| then Refined(merged, cfg, rounds - 1)
      else merged
  }

  /** `_refine_outliers`: alternate split and merge passes while something
      changes, for at most `max_iterations` passes, as `Refined` says. The
      words stay in order; after any pass no segment is under `min_chars`
      unless it is alone; when the passes stop before the limit, no segment
      is left oversized. `passes` counts the passes. */
  method RefineOutliers(segments: seq<SentenceSegment>, cfg: Config) returns (refined: seq<SentenceSegment>, ghost passes: nat)
    requires AllBuilt(segments)
    ensures refined == Refined(segments, cfg, Rounds(cfg))
    ensures AllBuilt(refined) && Flatten(refined) == Flatten(segments)
    ensures (segments == []) == (refined == [])
    ensures cfg.maxIterations <= 0 ==> refined == segments
    ensures cfg.maxIterations > 0 ==> NoShortSegment(refined, cfg)
    ensures passes <= Rounds(cfg)
    ensures passes < cfg.maxIterations ==> forall s :: s in refined ==> !Oversized(s, cfg)
  {
    refined := segments;
    var changed := true;
    var iterations: nat := 0;
    while changed && iterations < cfg.maxIterations
      invariant RefineSoFar(segments, cfg, refined, iterations, changed)
      decreases cfg.maxIterations - iterations
    {
      ghost var before := refined;
      iterations := iterations + 1;
      changed := false;
      refined, changed := RefineRound(refined, cfg);
      RefinedStep(segments, cfg, before, iterations, refined, changed);
    }
    passes := iterations;
  }

  /** After `iterations` passes of `_refine_outliers`. */
  predicate RefineSoFar(segments: seq<SentenceSegment>, cfg: Config, refined: seq<SentenceSegment>, iterations: nat, changed: bool)
    requires AllBuilt(segments)
  {
    AllBuilt(refined) && Flatten(refined) == Flatten(segments) &&
    (segments == []) == (refined == []) &&
    (iterations == 0 ==> refined == segments && changed) &&
    iterations <= Rounds(cfg) &&
    (iterations > 0 ==> NoShortSegment(refined, cfg)) &&
    (!changed ==> forall s :: s in refined ==> !Oversized(s, cfg)) &&
    (changed ==> Refined(refined, cfg, Rounds(cfg) - iterations) == Refined(segments, cfg, Rounds(cfg))) &&
    (!changed ==> refined == Refined(segments, cfg, Rounds(cfg)))
  }

  /** One pass of `_refine_outliers`: the split pass, then the merge pass;
      `changed` tells whether either did anything. */
  method RefineRound(segments: seq<SentenceSegment>, cfg: Config) returns (refined: seq<SentenceSegment>, changed: bool)
    requires AllBuilt(segments)
    ensures refined == MergeFrom(SplitAll(segments, cfg), 0, cfg)
    ensures changed <==> OversizedBefore(segments, |segments|, cfg) || |refined| < |SplitAll(segments, cfg)|
    ensures AllBuilt(refined) && Flatten(refined) == Flatten(segments)
    ensures (segments == []) == (refined == [])
    ensures NoShortSegment(refined, cfg)
    ensures !changed ==> forall s :: s in refined ==> !Oversized(s, cfg)
  {
    var afterSplit, splitChanged := SplitPass(segments, cfg);
    var mergeChanged;
    refined, mergeChanged := MergePass(afterSplit, cfg);
    changed := splitChanged || mergeChanged;
    if !changed {
      assert refined == segments;
      forall s | s in refined ensures !Oversized(s, cfg) {
        var j :| 0 <= j < |segments| && segments[j] == s;
      }
    }
  }

  /** A pass that leaves `refined` moves the reference one pass on. */
  lemma RefinedStep(segments: seq<SentenceSegment>, cfg: Config, before: seq<SentenceSegment>, iterations: nat,
                    refined: seq<SentenceSegment>, changed: bool)
    requires AllBuilt(segments) && AllBuilt(before) && 0 < iterations <= Rounds(cfg)
    requires Refined(before, cfg, Rounds(cfg) - (iterations - 1)) == Refined(segments, cfg, Rounds(cfg))
    requires refined == MergeFrom(SplitAll(before, cfg), 0, cfg)
    requires changed <==> OversizedBefore(before, |before|, cfg) || |refined| < |SplitAll(before, cfg)|
    ensures changed ==> Refined(refined, cfg, Rounds(cfg) - iterations) == Refined(segments, cfg, Rounds(cfg))
    ensures !changed ==> refined == Refined(segments, cfg, Rounds(cfg))
  {
  }

  /** `_assign_ids`: the segments, in place, numbered 1, 2, ... in order. */
  method AssignIds(segments: array<SentenceSegment>)
    modifies segments
    ensures forall k :: 0 <= k < segments.Length ==> segments[k] == old(segments[k]).(id := k + 1)
  {
    for k := 0 to segments.Length
      invariant forall j :: 0 <= j < k ==> segments[j] == old(segments[j]).(id := j + 1)
      invariant forall j :: k <= j < segments.Length ==> segments[j] == old(segments[j])
    {
      segments[k] := segments[k].(id := k + 1);
    }
  }

  // ------------------------------------------------------------ statistics

  /** `SegmentationStats`, with the population variance of the character
      counts in place of their standard deviation. */
  datatype Stats = Stats(interval: real, avgChars: real, varChars: real, minChars: int, maxChars: int, segmentCount: nat)

  function CharCounts(segments: seq<SentenceSegment>): (r: seq<nat>)
    ensures |r| == |segments|
  {
    seq(|segments|, k requires 0 <= k < |segments| => segments[k].charCount)
  }

  /** Every element lies in [lo, hi], so the sum lies in [lo * n, hi * n]. */
  lemma {:induction false} SumBounds(xs: seq<nat>, lo: real, hi: real)
    requires forall k :: 0 <= k < |xs| ==> lo <= xs[k] as real <= hi
    ensures lo * (|xs| as real) <= Sum(xs) as real <= hi * (|xs| as real)
    decreases |xs|
  {
    if xs != [] {
      var init := xs[..|xs| - 1];
      assert forall k :: 0 <= k < |init| ==> init[k] == xs[k];
      SumBounds(init, lo, hi);
      var last := xs[|xs| - 1];
      assert Sum(xs) == Sum(init) + last;
      assert lo <= last as real <= hi;
      SumBoundsStep(Sum(init) as real, last as real, lo, hi, |init| as real);
      assert |xs| as real == |init| as real + 1.0;
    }
  }

  /** One more element within the bounds keeps the sum within them. */
  lemma SumBoundsStep(sum: real, last: real, lo: real, hi: real, n: real)
    requires lo * n <= sum <= hi * n && lo <= last <= hi
    ensures lo * (n + 1.0) <= sum + last <= hi * (n + 1.0)
  {
    assert lo * (n + 1.0) == lo * n + lo;
    assert hi * (n + 1.0) == hi * n + hi;
  }

  function Mean(xs: seq<nat>): real
    requires |xs| > 0
  {
    Sum(xs) as real / |xs| as real
  }

  function SquaredDeviations(xs: seq<nat>, m: real): (r: real)
    ensures r >= 0.0
  {
    if xs == [] then 0.0
    else
      var d := xs[|xs| - 1] as real - m;
      SquareNonNegative(d);
      SquaredDeviations(xs[..|xs| - 1], m) + d * d
  }

  lemma SquareNonNegative(d: real)
    ensures d * d >= 0.0
  {
    if d < 0.0 {
      assert d * d == (-d) * (-d);
    }
  }

  /** The population variance, the square of `pstdev`. */
  function Variance(xs: seq<nat>): (v: real)
    requires |xs| > 0
    ensures v >= 0.0
  {
    SquaredDeviations(xs, Mean(xs)) / |xs| as real
  }

  function MinOf(xs: seq<nat>): (m: nat)
    requires |xs| > 0
    ensures m in xs && forall k :: 0 <= k < |xs| ==> m <= xs[k]
  {
    if |xs| == 1 then xs[0]
    else
      var rest := MinOf(xs[1..]);
      assert forall k :: 1 <= k < |xs| ==> xs[k] == xs[1..][k - 1];
      if xs[0] <= rest then xs[0] else rest
  }

  function MaxOf(xs: seq<nat>): (m: nat)
    requires |xs| > 0
    ensures m in xs && forall k :: 0 <= k < |xs| ==> xs[k] <= m
  {
    if |xs| == 1 then xs[0]
    else
      var rest := MaxOf(xs[1..]);
      assert forall k :: 1 <= k < |xs| ==> xs[k] == xs[1..][k - 1];
      if xs[0] >= rest then xs[0] else rest
  }

  /** Dividing by a positive number keeps an inequality. */
  lemma DivideBounds(lo: real, total: real, hi: real, n: real)
    requires n > 0.0 && lo * n <= total <= hi * n
    ensures lo <= total / n <= hi
  {
    var q := total / n;
    assert q * n == total;
    assert (q - lo) * n == total - lo * n;
    assert (hi - q) * n == hi * n - total;
  }

  /** A mean lies within any bounds of the elements. */
  lemma MeanWithin(xs: seq<nat>, lo: nat, hi: nat)
    requires |xs| > 0 && forall k :: 0 <= k < |xs| ==> lo <= xs[k] <= hi
    ensures lo as real <= Mean(xs) <= hi as real
  {
    var l, h, n, t := lo as real, hi as real, |xs| as real, Sum(xs) as real;
    SumBounds(xs, l, h);
    DivideBounds(l, t, h, n);
  }

  /** `_evaluate_segments`: zero statistics for no segments; otherwise the
      extremes are attained, bound every count, and enclose the mean. */
  function EvaluateSegments(segments: seq<SentenceSegment>, interval: real): (st: Stats)
    ensures st.interval == interval && st.segmentCount == |segments|
    ensures segments == [] ==> st == Stats(interval, 0.0, 0.0, 0, 0, 0)
    ensures segments != [] ==>
      (forall s :: s in segments ==> st.minChars <= s.charCount <= st.maxChars) &&
      (exists s :: s in segments && s.charCount == st.minChars) &&
      (exists s :: s in segments && s.charCount == st.maxChars) &&
      st.minChars as real <= st.avgChars <= st.maxChars as real && st.varChars >= 0.0
    ensures |segments| <= 1 ==> st.varChars == 0.0
  {
    if segments == [] then Stats(interval, 0.0, 0.0, 0, 0, 0)
    else
      var counts := CharCounts(segments);
      MeanWithin(counts, MinOf(counts), MaxOf(counts));
      assert forall s :: s in segments ==> exists k :: 0 <= k < |segments| && segments[k] == s && counts[k] == s.charCount;
      var lo := MinOf(counts);
      var hi := MaxOf(counts);
      assert exists k :: 0 <= k < |counts| && counts[k] == lo;
      assert exists k :: 0 <= k < |counts| && counts[k] == hi;
      Stats(interval, Mean(counts), if |counts| > 1 then Variance(counts) else 0.0, lo, hi, |segments|)
  }
}
