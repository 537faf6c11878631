/** `alignment/mfa.py`: word-level subtitles from a Montreal Forced Aligner
    TextGrid and the transcript it was aligned against. The TextGrid arrives
    as a map from tier name to intervals, the transcript as its text, and
    the SRT file as the text that would be written. */
module Mfa {
  import opened Wrappers
  import opened Text
  import opened Aligner
  import opened Timestamps
  import opened ScriptTokens

  /** `MfaAlignmentError`, by the message it carries. */
  datatype MfaError = MissingTier(tier: string) | NoIntervals

  /** `_extract_interval_tokens`: a missing tier raises, otherwise the
      surviving labels' pieces in order. */
  function ExtractIntervalTokens(grid: map<string, seq<Interval>>, tierName: string): (r: Result<seq<IntervalToken>, MfaError>)
    ensures r.Err? <==> tierName !in grid
    ensures r.Err? ==> r.error == MissingTier(tierName)
    ensures r.Ok? ==> r.value == ExtractTokens(grid[tierName])
  {
    if tierName !in grid then Err(MissingTier(tierName))
    else Ok(ExtractTokens(grid[tierName]))
  }

  /** The first loop of `_write_srt`: matched pairs store their hypothesis
      index at the script position of their reference word; the counters
      count matched and missing reference words. */
  method MapMatches(wi: seq<nat>, alignment: seq<Pair>, mapped: array<Option<nat>>) returns (matched: nat, missing: nat)
    requires forall p :: p in alignment && p.ref.Some? ==> p.ref.value < |wi|
    requires forall k :: 0 <= k < |wi| ==> wi[k] < mapped.Length
    modifies mapped
    ensures mapped[..] == Assign(old(mapped[..]), wi, alignment)
    ensures matched == Matched(alignment) && missing == Missing(alignment)
  {
    matched, missing := 0, 0;
    for t := 0 to |alignment|
      invariant forall p :: p in alignment[..t] && p.ref.Some? ==> p.ref.value < |wi|
      invariant mapped[..] == Assign(old(mapped[..]), wi, alignment[..t])
      invariant matched == Matched(alignment[..t]) && missing == Missing(alignment[..t])
    {
      var p := alignment[t];
      assert alignment[..t + 1][..t] == alignment[..t] && alignment[..t + 1][t] == p;
      assert p in alignment;
      assert forall q :: q in alignment[..t + 1] ==> q in alignment;
      if p.ref.Some? {
        var scriptIdx := wi[p.ref.value];
        if p.hyp.None? {
          missing := missing + 1;
        } else {
          mapped[scriptIdx] := p.hyp;
          matched := matched + 1;
        }
      }
    }
    assert alignment[..|alignment|] == alignment;
  }

  /** The forward sweep of `_write_srt`: an unmapped non-word token takes
      the most recent interval seen; word tokens are left alone. */
  method Sweep(tokens: seq<ScriptToken>, mapped: array<Option<nat>>)
    requires mapped.Length == |tokens|
    modifies mapped
    ensures mapped[..] == Propagate(old(mapped[..]), tokens)
  {
    ghost var orig := mapped[..];
    var last: Option<nat> := None;
    for idx := 0 to |tokens|
      invariant mapped[..idx] == Propagate(orig, tokens)[..idx]
      invariant mapped[idx..] == orig[idx..]
      invariant last == LastSome(orig[..idx])
    {
      assert orig[..idx + 1][..idx] == orig[..idx];
      assert mapped[idx] == orig[idx];
      var interval := mapped[idx];
      if interval.Some? {
        last := interval;
      } else if !tokens[idx].IsWord() && last.Some? {
        mapped[idx] := last;
      }
      assert mapped[..idx + 1] == mapped[..idx] + [mapped[idx]];
    }
  }

  /** The last loop of `_write_srt`: one block per mapped token, numbered
      by `counter` from 1. */
  method WriteEntries(tokens: seq<ScriptToken>, intervals: seq<IntervalToken>, mapped: seq<Option<nat>>) returns (blocks: seq<string>)
    requires |mapped| == |tokens| && MappedInBounds(mapped, intervals)
    ensures blocks == Blocks(Entries(tokens, intervals, mapped))
  {
    blocks := [];
    var counter := 1;
    for idx := 0 to |tokens|
      invariant MappedInBounds(mapped[..idx], intervals)
      invariant blocks == Blocks(Entries(tokens[..idx], intervals, mapped[..idx]))
      invariant counter == |blocks| + 1
    {
      assert tokens[..idx + 1][..idx] == tokens[..idx] && mapped[..idx + 1][..idx] == mapped[..idx];
      EntriesSnoc(tokens[..idx + 1], intervals, mapped[..idx + 1]);
      ghost var prev := Entries(tokens[..idx], intervals, mapped[..idx]);
      var interval := mapped[idx];
      if interval.Some? {
        var iv := intervals[interval.value];
        var start := FormatRounded(iv.startTime);
        var end := FormatRounded(iv.endTime);
        ghost var e := SrtEntry(counter, iv.startTime, iv.endTime, tokens[idx].original);
        BlocksSnoc(prev, e);
        blocks := blocks + [NatToString(counter) + "\n" + start + " --> " + end + "\n" + tokens[idx].original + "\n"];
        counter := counter + 1;
      }
    }
    assert tokens[..|tokens|] == tokens && mapped[..|mapped|] == mapped;
  }

  /** `_write_srt`, returning the file text with the two counters. */
  method WriteSrt(tokens: seq<ScriptToken>, intervals: seq<IntervalToken>, alignment: seq<Pair>) returns (text: string, matched: nat, missing: nat)
    requires InBounds(alignment, |WordIndices(tokens)|, |intervals|)
    ensures matched == Matched(alignment) && missing == Missing(alignment)
    ensures text == SrtText(Entries(tokens, intervals, FinalIntervals(tokens, alignment, |intervals|)))
    ensures alignment == Align(Reference(tokens), Hypothesis(intervals)) ==>
      var shown := EntryIntervals(FinalIntervals(tokens, alignment, |intervals|));
      forall k, l :: 0 <= k < l < |shown| ==> shown[k] <= shown[l]
  {
    var wi := WordIndices(tokens);
    var mapped := new Option<nat>[|tokens|](_ => None);
    assert mapped[..] == Nones(|tokens|);
    matched, missing := MapMatches(wi, alignment, mapped);
    Sweep(tokens, mapped);
    assert mapped[..] == FinalIntervals(tokens, alignment, |intervals|);
    if alignment == Align(Reference(tokens), Hypothesis(intervals)) {
      FinalIntervalsInOrder(tokens, intervals);
      EntryIntervalsSorted(mapped[..]);
    }
    var blocks := WriteEntries(tokens, intervals, mapped[..]);
    text := Strip(Join("\n", blocks)) + "\n";
  }

  /** The result of `generate_word_level_srt`: the SRT text and the
      matched, missing and total word counts. */
  datatype SrtResult = SrtResult(srt: string, matched: nat, missing: nat, total: nat)

  /** `generate_word_level_srt`: tokenize the transcript, extract the
      `words` tier, align the normalized words against the interval tokens
      and write the SRT. A missing tier or an empty token list raises. */
  method GenerateWordLevelSrt(grid: map<string, seq<Interval>>, transcript: string) returns (r: Result<SrtResult, MfaError>)
    ensures r.Err? <==> "words" !in grid || ExtractTokens(grid["words"]) == []
    ensures "words" !in grid ==> r == Err(MissingTier("words"))
    ensures "words" in grid && ExtractTokens(grid["words"]) == [] ==> r == Err(NoIntervals)
    ensures r.Ok? ==>
      var tokens := TokenizeTranscript(transcript);
      var intervals := ExtractTokens(grid["words"]);
      var alignment := Align(Reference(tokens), Hypothesis(intervals));
      r.value.total == |WordIndices(tokens)| &&
      r.value.matched + r.value.missing == r.value.total &&
      InBounds(alignment, |WordIndices(tokens)|, |intervals|) &&
      r.value.srt == SrtText(Entries(tokens, intervals, FinalIntervals(tokens, alignment, |intervals|))) &&
      var shown := EntryIntervals(FinalIntervals(tokens, alignment, |intervals|));
      forall k, l :: 0 <= k < l < |shown| ==> shown[k] <= shown[l]
  {
    var tokens := TokenizeTranscript(transcript);
    var extracted := ExtractIntervalTokens(grid, "words");
    if extracted.Err? {
      return Err(extracted.error);
    }
    var intervals := extracted.value;
    if |intervals| == 0 {
      return Err(NoIntervals);
    }
    var reference := Reference(tokens);
    var hypothesis := Hypothesis(intervals);
    var alignment := AlignSequences(reference, hypothesis);
    WordMappedIffPaired(tokens, intervals);
    var srt, matched, missing := WriteSrt(tokens, intervals, alignment);
    var total := |reference|;
    r := Ok(SrtResult(srt, matched, missing, total));
  }

  /** `_has_manual_beam`: some argument's option name (the part before the
      first `=`) is `--beam` or `--retry_beam`. */
  function HasManualBeam(args: seq<string>): (r: bool)
    ensures r <==> exists k :: 0 <= k < |args| && Partition(args[k], "=").0 in {"--beam", "--retry_beam"}
  {
    if args == [] then false
    else if Partition(args[0], "=").0 in {"--beam", "--retry_beam"} then true
    else
      var r := HasManualBeam(args[1..]);
      assert forall k :: 1 <= k < |args| ==> args[k] == args[1..][k - 1];
      r
  }

  /** `_beam_settings_for_duration`: (beam, retry beam) by audio length. */
  function BeamSettings(seconds: real): (r: (nat, nat))
    ensures r.0 < r.1
    ensures seconds <= 360.0 ==> r == (10, 40)
    ensures 360.0 < seconds <= 600.0 ==> r == (60, 200)
    ensures 600.0 < seconds ==> r == (100, 400)
  {
    if seconds <= 360.0 then (10, 40)
    else if seconds <= 600.0 then (60, 200)
    else (100, 400)
  }

  /** Longer audio never gets a narrower beam. */
  lemma BeamMonotone(a: real, b: real)
    requires a <= b
    ensures BeamSettings(a).0 <= BeamSettings(b).0 && BeamSettings(a).1 <= BeamSettings(b).1
  {
  }
}
