/** `mfa_lab/textgrid_to_srt.py`: the stand-alone exporter that aligns a
    transcript against a TextGrid `words` tier and writes a word-level SRT.
    Its tokenizer, aligner, timestamp formatter and propagation are the
    shared ones; what differs is that `main` stores each token's interval
    in the token object itself. */
module TextGridToSrt {
  import opened Wrappers
  import opened Text
  import opened Aligner
  import opened Timestamps
  import opened ScriptTokens

  /** A `ScriptToken` object: fragment, normalized form (`is_word` is
      `IsWord()`), and the `interval_idx` field `main` assigns. */
  datatype TimedToken = TimedToken(token: ScriptToken, intervalIdx: Option<nat>)

  function TokensOf(slots: seq<TimedToken>): (r: seq<ScriptToken>)
    ensures |r| == |slots| && forall k :: 0 <= k < |r| ==> r[k] == slots[k].token
  {
    seq(|slots|, k requires 0 <= k < |slots| => slots[k].token)
  }

  function IntervalsOf(slots: seq<TimedToken>): (r: seq<Option<nat>>)
    ensures |r| == |slots| && forall k :: 0 <= k < |r| ==> r[k] == slots[k].intervalIdx
  {
    seq(|slots|, k requires 0 <= k < |slots| => slots[k].intervalIdx)
  }

  /** Why `main` stops: the tier lookup raises, or one of its three checks fails. */
  datatype ExportError = MissingWordsTier | NoIntervalTokens | NoScriptTokens | NoWordTokens

  /** `extract_interval_tokens`: the tokens and one span per interval that
      yields a token; `getTier` raises when the tier is absent. */
  function ExtractIntervalTokens(grid: map<string, seq<Interval>>): (r: Result<(seq<IntervalToken>, seq<(real, real)>), ExportError>)
    ensures r.Err? <==> "words" !in grid
    ensures r.Ok? ==> |r.value.1| <= |r.value.0| && |r.value.1| <= |grid["words"]|
    ensures r.Ok? ==> r.value == (ExtractTokens(grid["words"]), ExtractSpans(grid["words"]))
  {
    if "words" !in grid then Err(MissingWordsTier)
    else
      SpansBounded(grid["words"]);
      Ok((ExtractTokens(grid["words"]), ExtractSpans(grid["words"])))
  }

  /** `transcript_tokens`: initial token objects with no interval yet. */
  function TranscriptTokens(text: string): (r: seq<TimedToken>)
    ensures TokensOf(r) == TokenizeTranscript(text)
    ensures forall k :: 0 <= k < |r| ==> r[k].intervalIdx.None?
  {
    var tokens := TokenizeTranscript(text);
    seq(|tokens|, k requires 0 <= k < |tokens| => TimedToken(tokens[k], None))
  }

  /** The matching loop of `main`: `script_tokens[script_idx].interval_idx = hyp_idx`. */
  method AssignIntervals(wi: seq<nat>, alignment: seq<Pair>, slots: array<TimedToken>) returns (matched: nat, missing: nat)
    requires forall p :: p in alignment && p.ref.Some? ==> p.ref.value < |wi|
    requires forall k :: 0 <= k < |wi| ==> wi[k] < slots.Length
    modifies slots
    ensures TokensOf(slots[..]) == TokensOf(old(slots[..]))
    ensures IntervalsOf(slots[..]) == Assign(IntervalsOf(old(slots[..])), wi, alignment)
    ensures matched == Matched(alignment) && missing == Missing(alignment)
  {
    ghost var orig := slots[..];
    matched, missing := 0, 0;
    for t := 0 to |alignment|
      invariant TokensOf(slots[..]) == TokensOf(orig)
      invariant IntervalsOf(slots[..]) == Assign(IntervalsOf(orig), wi, alignment[..t])
      invariant matched == Matched(alignment[..t]) && missing == Missing(alignment[..t])
    {
      var p := alignment[t];
      assert alignment[..t + 1][..t] == alignment[..t] && alignment[..t + 1][t] == p;
      assert p in alignment;
      assert forall q :: q in alignment[..t + 1] ==> q in alignment;
      if p.ref.Some? {
        var scriptIdx := wi[p.ref.value];
        if p.hyp.None? {
          missing := missing + 1;
        } else {
          slots[scriptIdx] := slots[scriptIdx].(intervalIdx := p.hyp);
          matched := matched + 1;
        }
      }
    }
    assert alignment[..|alignment|] == alignment;
  }

  /** The sweep of `main`: a non-word token without an interval takes the
      last interval seen. */
  method InheritIntervals(slots: array<TimedToken>)
    modifies slots
    ensures TokensOf(slots[..]) == TokensOf(old(slots[..]))
    ensures IntervalsOf(slots[..]) == Propagate(IntervalsOf(old(slots[..])), TokensOf(old(slots[..])))
  {
    ghost var before := slots[..];
    ghost var orig := IntervalsOf(before);
    ghost var tokens := TokensOf(before);
    ghost var cur := orig;
    var last: Option<nat> := None;
    for idx := 0 to slots.Length
      invariant SweptSoFar(orig, tokens, idx, cur, last)
      invariant forall k :: 0 <= k < slots.Length ==> slots[k] == TimedToken(before[k].token, cur[k])
    {
      PropagateStep(orig, tokens, idx, cur, last);
      var interval := slots[idx].intervalIdx;
      assert interval == orig[idx] && slots[idx].token == tokens[idx];
      if interval.Some? {
        last := interval;
      } else if !slots[idx].token.IsWord() && last.Some? {
        slots[idx] := slots[idx].(intervalIdx := last);
        cur := cur[idx := last];
      }
    }
    SweepResult(before, slots[..], cur, last);
  }

  /** A sweep that kept every token and gave each position its propagated
      interval. */
  lemma SweepResult(before: seq<TimedToken>, after: seq<TimedToken>, cur: seq<Option<nat>>, last: Option<nat>)
    requires |after| == |before|
    requires SweptSoFar(IntervalsOf(before), TokensOf(before), |before|, cur, last)
    requires forall k :: 0 <= k < |after| ==> after[k] == TimedToken(before[k].token, cur[k])
    ensures TokensOf(after) == TokensOf(before)
    ensures IntervalsOf(after) == Propagate(IntervalsOf(before), TokensOf(before))
  {
    assert cur == cur[..|before|];
    assert Propagate(IntervalsOf(before), TokensOf(before)) == Propagate(IntervalsOf(before), TokensOf(before))[..|before|];
  }

  /** `generate_srt`: a block per token with an interval, numbered
      `len(lines) + 1`. */
  method GenerateSrt(slots: seq<TimedToken>, intervals: seq<IntervalToken>) returns (lines: seq<string>)
    requires MappedInBounds(IntervalsOf(slots), intervals)
    ensures lines == Blocks(Entries(TokensOf(slots), intervals, IntervalsOf(slots)))
  {
    lines := [];
    for idx := 0 to |slots|
      invariant MappedInBounds(IntervalsOf(slots[..idx]), intervals)
      invariant lines == Blocks(Entries(TokensOf(slots[..idx]), intervals, IntervalsOf(slots[..idx])))
    {
      GenerateStep(slots, intervals, idx);
      var token := slots[idx];
      if token.intervalIdx.Some? {
        var interval := intervals[token.intervalIdx.value];
        var start := FormatRounded(interval.startTime);
        var end := FormatRounded(interval.endTime);
        lines := lines + [NatToString(|lines| + 1) + "\n" + start + " --> " + end + "\n" + token.token.original + "\n"];
      }
    }
    assert slots[..|slots|] == slots;
  }

  /** One step of `generate_srt`: the token at `idx` adds its block when it
      has an interval, numbered one past the blocks so far. */
  lemma GenerateStep(slots: seq<TimedToken>, intervals: seq<IntervalToken>, idx: nat)
    requires idx < |slots| && MappedInBounds(IntervalsOf(slots), intervals)
    ensures MappedInBounds(IntervalsOf(slots[..idx]), intervals)
    ensures MappedInBounds(IntervalsOf(slots[..idx + 1]), intervals)
    ensures var prev := Blocks(Entries(TokensOf(slots[..idx]), intervals, IntervalsOf(slots[..idx])));
      var next := Blocks(Entries(TokensOf(slots[..idx + 1]), intervals, IntervalsOf(slots[..idx + 1])));
      var t := slots[idx];
      next == if t.intervalIdx.None? then prev
        else prev + [NatToString(|prev| + 1) + "\n" + Rounded(intervals[t.intervalIdx.value].startTime) + " --> " +
          Rounded(intervals[t.intervalIdx.value].endTime) + "\n" + t.token.original + "\n"]
  {
    var tokens, mapped := TokensOf(slots[..idx + 1]), IntervalsOf(slots[..idx + 1]);
    assert tokens[..idx] == TokensOf(slots[..idx]);
    assert mapped[..idx] == IntervalsOf(slots[..idx]);
    assert MappedInBounds(mapped, intervals);
    EntriesSnoc(tokens, intervals, mapped);
    var prevEntries := Entries(tokens[..idx], intervals, mapped[..idx]);
    if mapped[idx].Some? {
      var iv := intervals[mapped[idx].value];
      var e := SrtEntry(|prevEntries| + 1, iv.startTime, iv.endTime, tokens[idx].original);
      BlocksSnoc(prevEntries, e);
    }
  }

  /** What `main` reports: the SRT text and the two counters it prints. */
  datatype Export = Export(srt: string, matched: nat, missing: nat)

  /** The part of `main` after its checks: align the words, store the
      intervals in the token objects, propagate, and join the blocks. */
  method AlignAndExport(initial: seq<TimedToken>, intervals: seq<IntervalToken>) returns (e: Export)
    requires forall k :: 0 <= k < |initial| ==> initial[k].intervalIdx.None?
    ensures
      var tokens := TokensOf(initial);
      var alignment := Align(Reference(tokens), Hypothesis(intervals));
      e.matched + e.missing == |WordIndices(tokens)| &&
      InBounds(alignment, |WordIndices(tokens)|, |intervals|) &&
      e.srt == SrtText(Entries(tokens, intervals, FinalIntervals(tokens, alignment, |intervals|)))
  {
    var tokens := TokensOf(initial);
    var wordIndices := WordIndices(tokens);
    var reference := Reference(tokens);
    var hypothesis := Hypothesis(intervals);
    var alignment := AlignSequences(reference, hypothesis);
    WordMappedIffPaired(tokens, intervals);
    var slots := new TimedToken[|initial|](k requires 0 <= k < |initial| => initial[k]);
    assert slots[..] == initial;
    assert IntervalsOf(initial) == Nones(|tokens|);
    var matched, missing := AssignIntervals(wordIndices, alignment, slots);
    InheritIntervals(slots);
    assert IntervalsOf(slots[..]) == FinalIntervals(tokens, alignment, |intervals|);
    assert TokensOf(slots[..]) == tokens;
    var lines := GenerateSrt(slots[..], intervals);
    e := Export(Strip(Join("\n", lines)) + "\n", matched, missing);
  }

  /** `main` on the TextGrid and the transcript text: the three aborts, then
      the export. */
  method ExportSrt(grid: map<string, seq<Interval>>, transcript: string) returns (r: Result<Export, ExportError>)
    ensures "words" !in grid ==> r == Err(MissingWordsTier)
    ensures "words" in grid && ExtractTokens(grid["words"]) == [] ==> r == Err(NoIntervalTokens)
    ensures "words" in grid && ExtractTokens(grid["words"]) != [] && TokenizeTranscript(transcript) == [] ==> r == Err(NoScriptTokens)
    ensures "words" in grid && ExtractTokens(grid["words"]) != [] && TokenizeTranscript(transcript) != [] && WordIndices(TokenizeTranscript(transcript)) == [] ==> r == Err(NoWordTokens)
    ensures r.Ok? <==> "words" in grid && ExtractTokens(grid["words"]) != [] && WordIndices(TokenizeTranscript(transcript)) != []
    ensures r.Ok? ==>
      var tokens := TokenizeTranscript(transcript);
      var intervals := ExtractTokens(grid["words"]);
      var alignment := Align(Reference(tokens), Hypothesis(intervals));
      |WordIndices(tokens)| > 0 &&
      InBounds(alignment, |WordIndices(tokens)|, |intervals|) &&
      r.value.matched + r.value.missing == |WordIndices(tokens)| &&
      r.value.srt == SrtText(Entries(tokens, intervals, FinalIntervals(tokens, alignment, |intervals|))) &&
      var shown := EntryIntervals(FinalIntervals(tokens, alignment, |intervals|));
      forall k, l :: 0 <= k < l < |shown| ==> shown[k] <= shown[l]
  {
    var extracted := ExtractIntervalTokens(grid);
    if extracted.Err? {
      return Err(extracted.error);
    }
    var intervals := extracted.value.0;
    if |intervals| == 0 {
      return Err(NoIntervalTokens);
    }
    var initial := TranscriptTokens(transcript);
    if |initial| == 0 {
      return Err(NoScriptTokens);
    }
    if |WordIndices(TokensOf(initial))| == 0 {
      return Err(NoWordTokens);
    }
    var e := AlignAndExport(initial, intervals);
    var tokens := TokensOf(initial);
    FinalIntervalsInOrder(tokens, intervals);
    EntryIntervalsSorted(FinalIntervals(tokens, Align(Reference(tokens), Hypothesis(intervals)), |intervals|));
    r := Ok(e);
  }
}
