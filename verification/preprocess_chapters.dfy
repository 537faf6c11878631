/** The planning part of `preprocess_chapters.py`, which writes one summary
    per chapter: where summaries go, which chapters already have one, how
    many words each new summary should have, and how many workers run.
    Cleaning and collecting the chapter files is `ChapterText`; their sort
    key is `NaturalSort`. The summaries themselves come from a language
    model and are not part of this model. */
module PreprocessChapters {
  import opened Wrappers
  import opened Text
  import opened ChapterText
  import opened Timestamps

  /** `book_cfg.get('summaries_dir') or chapters_dir / "summaries"`; an
      unset setting is "". */
  function SummariesDir(configured: string, chaptersDir: string): (r: string)
    ensures configured != [] ==> r == configured
    ensures configured == [] ==> r == chaptersDir + "/summaries"
  {
    if configured != [] then configured else chaptersDir + "/summaries"
  }

  /** The `ZeroDivisionError` of `word_count / ratio` under `--ratio 0`. */
  datatype PlanError = ZeroDivision

  /** `int(max(min_summary_words, min(max_summary_words,
      round(word_count / ratio))))`; a ratio of 0 raises, whatever the
      word count. */
  function TargetWords(wordCount: nat, ratio: real, minSummary: int, maxSummary: int): (r: Result<int, PlanError>)
    ensures r.Err? <==> ratio == 0.0
    ensures r.Ok? ==> r.value >= minSummary
    ensures r.Ok? && minSummary <= maxSummary ==> r.value <= maxSummary
    ensures r.Ok? ==> var rounded := RoundHalfEven(wordCount as real / ratio);
      minSummary <= rounded <= maxSummary ==> r.value == rounded
  {
    if ratio == 0.0 then Err(ZeroDivision)
    else
      var rounded := RoundHalfEven(wordCount as real / ratio);
      var capped := if maxSummary < rounded then maxSummary else rounded;
      Ok(if minSummary > capped then minSummary else capped)
  }

  /** A chapter already summarised: the `"existing"` metadata entry. */
  datatype ExistingEntry = ExistingEntry(chapter: nat, file: string, summaryFile: string, wordCount: nat)

  /** A summary to write: the chapter, the file and the target length. */
  datatype Job = Job(chapter: Chapter, summaryFile: string, targetWords: int)

  /** The run's settings: `--force`, `--ratio`, `--min-summary-words`,
      `--max-summary-words`, the summaries folder and the suffix. */
  datatype Settings = Settings(force: bool, ratio: real, minSummary: int, maxSummary: int, summariesDir: string, suffix: string)

  function SummaryFile(c: Chapter, s: Settings): string {
    s.summariesDir + "/" + c.file.stem + s.suffix
  }

  /** A chapter whose summary file exists is skipped unless `--force`. */
  predicate Skip(c: Chapter, s: Settings, existing: set<string>) {
    SummaryFile(c, s) in existing && !s.force
  }

  function ExistingOf(c: Chapter, s: Settings): ExistingEntry {
    ExistingEntry(c.number, c.file.name, SummaryFile(c, s), |c.words|)
  }

  /** The job of a chapter that is not skipped, or the division error. */
  function JobOf(c: Chapter, s: Settings): (r: Result<Job, PlanError>)
    ensures r.Err? <==> s.ratio == 0.0
    ensures r.Ok? ==> r.value.chapter == c && r.value.summaryFile == SummaryFile(c, s)
  {
    var target := TargetWords(|c.words|, s.ratio, s.minSummary, s.maxSummary);
    if target.Err? then Err(target.error) else Ok(Job(c, SummaryFile(c, s), target.value))
  }

  /** Some chapter is not skipped. */
  predicate AnyPending(chapters: seq<Chapter>, s: Settings, existing: set<string>) {
    exists k :: 0 <= k < |chapters| && !Skip(chapters[k], s, existing)
  }

  /** The entries for the chapters skipped, in order. */
  function Existing(chapters: seq<Chapter>, s: Settings, existing: set<string>): (r: seq<ExistingEntry>)
    ensures |r| <= |chapters|
  {
    if chapters == [] then []
    else
      var last := chapters[|chapters| - 1];
      var init := Existing(chapters[..|chapters| - 1], s, existing);
      if Skip(last, s, existing) then init + [ExistingOf(last, s)] else init
  }

  /** The jobs for the other chapters, in order. */
  function Pending(chapters: seq<Chapter>, s: Settings, existing: set<string>): (r: Result<seq<Job>, PlanError>)
    ensures r.Ok? ==> |r.value| <= |chapters|
  {
    if chapters == [] then Ok([])
    else
      var last := chapters[|chapters| - 1];
      var init := Pending(chapters[..|chapters| - 1], s, existing);
      if init.Err? || Skip(last, s, existing) then init
      else
        var job := JobOf(last, s);
        if job.Err? then Err(job.error) else Ok(init.value + [job.value])
  }

  /** The jobs fail exactly when the ratio is 0 and some chapter is not
      skipped: with every summary present and no `--force`, `--ratio 0`
      divides nothing. */
  lemma {:induction false} PendingFails(chapters: seq<Chapter>, s: Settings, existing: set<string>)
    ensures Pending(chapters, s, existing).Err? <==> s.ratio == 0.0 && AnyPending(chapters, s, existing)
  {
    if chapters != [] {
      var n := |chapters| - 1;
      var init := chapters[..n];
      PendingFails(init, s, existing);
      assert forall k :: 0 <= k < n ==> init[k] == chapters[k];
      assert AnyPending(chapters, s, existing) <==> AnyPending(init, s, existing) || !Skip(chapters[n], s, existing);
    }
  }

  /** What the planning loop leaves: the `"existing"` entries, the jobs and
      the skip count. */
  datatype Planned = Planned(entries: seq<ExistingEntry>, jobs: seq<Job>, skipped: nat)

  /** The planning loop of `main`: each chapter gives an `"existing"`
      entry or a job; `skipped` counts the entries. The first chapter that
      needs a job under `--ratio 0` raises. */
  method Plan(chapters: seq<Chapter>, s: Settings, existing: set<string>) returns (r: Result<Planned, PlanError>)
    ensures r.Err? <==> Pending(chapters, s, existing).Err?
    ensures r.Ok? ==>
      r.value.entries == Existing(chapters, s, existing) && r.value.jobs == Pending(chapters, s, existing).value
    ensures r.Ok? ==> r.value.skipped == |r.value.entries| && |r.value.entries| + |r.value.jobs| == |chapters|
  {
    var entries: seq<ExistingEntry>, jobs: seq<Job>, skipped: nat := [], [], 0;
    for k := 0 to |chapters|
      invariant entries == Existing(chapters[..k], s, existing)
      invariant Pending(chapters[..k], s, existing) == Ok(jobs)
      invariant skipped == |entries| && |entries| + |jobs| == k
    {
      var chapter := chapters[k];
      assert chapters[..k + 1][..k] == chapters[..k];
      var summaryPath := s.summariesDir + "/" + chapter.file.stem + s.suffix;
      if summaryPath in existing && !s.force {
        skipped := skipped + 1;
        entries := entries + [ExistingEntry(chapter.number, chapter.file.name, summaryPath, |chapter.words|)];
        continue;
      }
      var targetWords := TargetWords(|chapter.words|, s.ratio, s.minSummary, s.maxSummary);
      if targetWords.Err? {
        PendingStops(chapters, s, existing, k + 1);
        return Err(targetWords.error);
      }
      jobs := jobs + [Job(chapter, summaryPath, targetWords.value)];
    }
    assert chapters[..|chapters|] == chapters;
    r := Ok(Planned(entries, jobs, skipped));
  }

  /** Once a prefix of the chapters fails, so do all of them. */
  lemma {:induction false} PendingStops(chapters: seq<Chapter>, s: Settings, existing: set<string>, k: nat)
    requires k <= |chapters| && Pending(chapters[..k], s, existing).Err?
    ensures Pending(chapters, s, existing).Err?
    decreases |chapters| - k
  {
    if k < |chapters| {
      assert chapters[..k + 1][..k] == chapters[..k];
      PendingStops(chapters, s, existing, k + 1);
    } else {
      assert chapters[..k] == chapters;
    }
  }

  /** Every job is for a chapter without a summary, or the run is forced;
      every job's target is at least the minimum and, with sane bounds, at
      most the maximum; with `--force` and a non-zero ratio every chapter
      gets a job. */
  lemma {:induction false} PendingJobs(chapters: seq<Chapter>, s: Settings, existing: set<string>)
    ensures Pending(chapters, s, existing).Ok? ==>
      var jobs := Pending(chapters, s, existing).value;
      forall j :: 0 <= j < |jobs| ==>
        jobs[j].chapter in chapters && (s.force || jobs[j].summaryFile !in existing) &&
        s.minSummary <= jobs[j].targetWords && (s.minSummary <= s.maxSummary ==> jobs[j].targetWords <= s.maxSummary)
    ensures s.force && s.ratio != 0.0 ==>
      Pending(chapters, s, existing).Ok? && |Pending(chapters, s, existing).value| == |chapters| &&
      Existing(chapters, s, existing) == []
  {
    if chapters != [] {
      var n := |chapters| - 1;
      var init := chapters[..n];
      PendingJobs(init, s, existing);
      assert forall c :: c in init ==> c in chapters;
      if Pending(init, s, existing).Ok? && !Skip(chapters[n], s, existing) && JobOf(chapters[n], s).Ok? {
        var jobs := Pending(init, s, existing).value;
        var job := JobOf(chapters[n], s).value;
        assert Pending(chapters, s, existing).value == jobs + [job];
        assert job.summaryFile == SummaryFile(chapters[n], s);
        assert job.targetWords == TargetWords(|chapters[n].words|, s.ratio, s.minSummary, s.maxSummary).value;
        assert job.chapter == chapters[n];
        forall j | 0 <= j < |jobs|
          ensures (jobs + [job])[j] == jobs[j] && jobs[j].chapter in chapters
        {
          assert Pending(init, s, existing).Ok?;
          assert Pending(init, s, existing).value[j].chapter in init;
          assert jobs[j].chapter in init;
        }
        var all := jobs + [job];
        assert all[|jobs|] == job;
        assert job.chapter in chapters;
        assert s.force || job.summaryFile !in existing;
        assert s.minSummary <= job.targetWords;
        assert s.minSummary <= s.maxSummary ==> job.targetWords <= s.maxSummary;
      }
    }
  }

  /** `args.workers if args.workers > 0 else max(1, len(pending_jobs))`:
      never below one, and one per job when not given. */
  function Workers(requested: int, pending: nat): (r: int)
    ensures r >= 1
    ensures requested > 0 ==> r == requested
    ensures requested <= 0 && pending > 0 ==> r == pending
  {
    if requested > 0 then requested else if pending > 1 then pending else 1
  }
}
