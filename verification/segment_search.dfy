/** The interval search of `sentence_segmenter.py`: the distance of an
    average from the target band, the best-candidate bookkeeping of
    `_IntervalSearchState`, and the bisection of `segment_words_adaptive`
    followed by refinement and renumbering. A standard deviation compared
    against `max_std_chars` is compared here through its square, the
    variance, which gives the same answer for every non-negative bound. */
module SegmentSearch {
  import opened Wrappers
  import opened Segments

  function Abs(x: real): (a: real)
    ensures a >= 0.0 && (a == x || a == -x)
  {
    if x < 0.0 then -x else x
  }

  /** `target_avg_chars_min <= avg <= target_avg_chars_max` */
  predicate InBand(avg: real, cfg: Config) {
    cfg.targetAvgCharsMin <= avg <= cfg.targetAvgCharsMax
  }

  /** `std_chars <= max_std_chars`, on the variance: a square root is at
      most a bound exactly when the bound is non-negative and the radicand
      is at most its square. */
  predicate StdWithin(variance: real, cfg: Config) {
    0.0 <= cfg.maxStdChars && variance <= cfg.maxStdChars * cfg.maxStdChars
  }

  /** The `target_hit` of `consider`. */
  predicate TargetHit(st: Stats, cfg: Config) {
    InBand(st.avgChars, cfg) && StdWithin(st.varChars, cfg)
  }

  /** `_avg_error`: zero inside the band, positive outside it. */
  function AvgError(st: Stats, cfg: Config): (e: real)
    ensures e >= 0.0
    ensures e == 0.0 <==> InBand(st.avgChars, cfg)
  {
    if InBand(st.avgChars, cfg) then 0.0
    else if st.avgChars < cfg.targetAvgCharsMin then cfg.targetAvgCharsMin - st.avgChars
    else st.avgChars - cfg.targetAvgCharsMax
  }

  /** The error never exceeds the distance to any point of the band ... */
  lemma AvgErrorBelowDistance(st: Stats, cfg: Config, x: real)
    requires InBand(x, cfg)
    ensures AvgError(st, cfg) <= Abs(st.avgChars - x)
  {
  }

  /** ... and equals the distance to some point of it, so it is the
      distance from the average to the band. */
  lemma AvgErrorIsDistance(st: Stats, cfg: Config)
    requires cfg.targetAvgCharsMin <= cfg.targetAvgCharsMax
    ensures exists x :: InBand(x, cfg) && AvgError(st, cfg) == Abs(st.avgChars - x)
  {
    var avg := st.avgChars;
    var x := if avg < cfg.targetAvgCharsMin then cfg.targetAvgCharsMin
             else if avg > cfg.targetAvgCharsMax then cfg.targetAvgCharsMax
             else avg;
    assert InBand(x, cfg) && AvgError(st, cfg) == Abs(avg - x);
  }

  /** Whether `consider` replaces the best candidate `best` (None before the
      first call) by `st`: always the first time and on a target hit,
      otherwise on a strictly smaller error, or an equal error with a
      smaller spread. */
  predicate Replaces(best: Option<Stats>, st: Stats, cfg: Config) {
    best.None? || TargetHit(st, cfg) ||
    AvgError(st, cfg) < AvgError(best.value, cfg) ||
    (AvgError(st, cfg) == AvgError(best.value, cfg) && st.varChars < best.value.varChars)
  }

  /** The position of the candidate that `consider` keeps after seeing
      `cands` in order. */
  function Chosen(cands: seq<Stats>, cfg: Config): (r: Option<nat>)
    ensures r.None? <==> cands == []
    ensures r.Some? ==> r.value < |cands|
  {
    if cands == [] then None
    else
      var init := cands[..|cands| - 1];
      var prev := Chosen(init, cfg);
      var best := if prev.Some? then Some(init[prev.value]) else None;
      if Replaces(best, cands[|cands| - 1], cfg) then Some(|cands| - 1) else prev
  }

  /** The kept candidate has the smallest error of all candidates seen. */
  lemma {:induction false} ChosenMinimal(cands: seq<Stats>, cfg: Config)
    requires cands != []
    ensures forall k :: 0 <= k < |cands| ==> AvgError(cands[Chosen(cands, cfg).value], cfg) <= AvgError(cands[k], cfg)
    decreases |cands|
  {
    var init := cands[..|cands| - 1];
    var n := |cands| - 1;
    if init != [] {
      ChosenMinimal(init, cfg);
      var p := Chosen(init, cfg).value;
      assert forall k :: 0 <= k < n ==> cands[k] == init[k];
      if Replaces(Some(init[p]), cands[n], cfg) {
        assert AvgError(cands[n], cfg) <= AvgError(init[p], cfg);
      }
    }
  }

  /** Once a target hit has been seen, the kept candidate is a target hit. */
  lemma {:induction false} ChosenHitsTarget(cands: seq<Stats>, cfg: Config, k: nat)
    requires k < |cands| && TargetHit(cands[k], cfg)
    ensures TargetHit(cands[Chosen(cands, cfg).value], cfg)
    decreases |cands|
  {
    var init := cands[..|cands| - 1];
    var n := |cands| - 1;
    if k < n {
      assert init[k] == cands[k];
      ChosenHitsTarget(init, cfg, k);
      var p := Chosen(init, cfg).value;
      var last := cands[n];
      if Replaces(Some(init[p]), last, cfg) {
        assert AvgError(init[p], cfg) == 0.0;
      }
    }
  }

  /** `_IntervalSearchState`. The ghost fields record every candidate
      offered to `consider`; the kept one is the one `Chosen` picks. */
  class SearchState {
    var bestSegments: seq<SentenceSegment>
    var bestStats: Option<Stats>
    ghost var considered: seq<Stats>
    ghost var consideredSegments: seq<seq<SentenceSegment>>

    ghost predicate Valid(cfg: Config)
      reads this
    {
      |considered| == |consideredSegments| &&
      match Chosen(considered, cfg)
      case None => bestStats.None? && bestSegments == []
      case Some(k) => bestStats == Some(considered[k]) && bestSegments == consideredSegments[k]
    }

    constructor()
      ensures bestSegments == [] && bestStats.None?
      ensures considered == [] && consideredSegments == []
    {
      bestSegments, bestStats := [], None;
      considered, consideredSegments := [], [];
    }

    /** `consider` */
    method Consider(segments: seq<SentenceSegment>, stats: Stats, cfg: Config)
      requires Valid(cfg)
      modifies this
      ensures Valid(cfg)
      ensures considered == old(considered) + [stats]
      ensures consideredSegments == old(consideredSegments) + [segments]
      ensures Replaces(old(bestStats), stats, cfg) ==> bestSegments == segments && bestStats == Some(stats)
      ensures !Replaces(old(bestStats), stats, cfg) ==> bestSegments == old(bestSegments) && bestStats == old(bestStats)
    {
      considered := considered + [stats];
      consideredSegments := consideredSegments + [segments];
      assert considered[..|considered| - 1] == old(considered);
      var targetHit := InBand(stats.avgChars, cfg) && StdWithin(stats.varChars, cfg);
      if bestStats.None? || targetHit {
        bestSegments := segments;
        bestStats := Some(stats);
        return;
      }
      var currentErr := AvgError(stats, cfg);
      var bestErr := AvgError(bestStats.value, cfg);
      if currentErr < bestErr {
        bestSegments := segments;
        bestStats := Some(stats);
      } else if currentErr == bestErr && stats.varChars < bestStats.value.varChars {
        bestSegments := segments;
        bestStats := Some(stats);
      }
    }
  }

  /** Segments that carry words of `words`, as every candidate does. */
  predicate Candidate(segments: seq<SentenceSegment>, words: seq<WordSpan>) {
    AllBuilt(segments) && Flatten(segments) == Spoken(words)
  }

  /** What the loop of `segment_words_adaptive` keeps true of the
      candidates it has probed: each covers the words, and its interval
      lies in the configured range. */
  ghost predicate Explored(probed: seq<Stats>, cands: seq<seq<SentenceSegment>>, words: seq<WordSpan>, cfg: Config) {
    |probed| == |cands| &&
    forall k :: 0 <= k < |probed| ==>
      Candidate(cands[k], words) &&
      (cfg.minInterval <= cfg.maxInterval ==> cfg.minInterval <= probed[k].interval <= cfg.maxInterval)
  }

  lemma ExploredSnoc(probed: seq<Stats>, cands: seq<seq<SentenceSegment>>, st: Stats, c: seq<SentenceSegment>, words: seq<WordSpan>, cfg: Config)
    requires Explored(probed, cands, words, cfg)
    requires Candidate(c, words)
    requires cfg.minInterval <= cfg.maxInterval ==> cfg.minInterval <= st.interval <= cfg.maxInterval
    ensures Explored(probed + [st], cands + [c], words, cfg)
  {
    var ps, cs := probed + [st], cands + [c];
    forall k | 0 <= k < |ps|
      ensures Candidate(cs[k], words)
      ensures cfg.minInterval <= cfg.maxInterval ==> cfg.minInterval <= ps[k].interval <= cfg.maxInterval
    {
      if k < |probed| {
        assert ps[k] == probed[k] && cs[k] == cands[k];
      }
    }
  }

  /** One probe of the search: the simulated segments at `interval`. */
  method Probe(words: seq<WordSpan>, interval: real, cfg: Config) returns (segments: seq<SentenceSegment>)
    ensures Candidate(segments, words)
  {
    segments := SimulateSegments(words, interval, cfg);
  }

  /** Renumbering leaves the words of each segment alone. */
  lemma {:induction false} FlattenIgnoresIds(xs: seq<SentenceSegment>, ys: seq<SentenceSegment>)
    requires |xs| == |ys| && forall k :: 0 <= k < |xs| ==> ys[k].words == xs[k].words
    ensures Flatten(ys) == Flatten(xs)
    decreases |xs|
  {
    if xs != [] {
      FlattenIgnoresIds(xs[..|xs| - 1], ys[..|ys| - 1]);
    }
  }

  /** One round of the bisection moves the bracket `lo..hi` to
      `lo'..hi'`: an average below the band raises `low` to the probed
      interval, one above it lowers `high` to it. A round inside the band
      has no successor. */
  ghost predicate Next(st: Stats, lo: real, hi: real, lo': real, hi': real, cfg: Config) {
    (st.avgChars < cfg.targetAvgCharsMin && lo' == st.interval && hi' == hi) ||
    (st.avgChars > cfg.targetAvgCharsMax && lo' == lo && hi' == st.interval)
  }

  /** The rounds `probed` were taken at the midpoints of the brackets
      `lows[k]..highs[k]`, the first bracket is the configured range, and
      each bracket follows from the previous round by `Next`. */
  ghost predicate Bisected(probed: seq<Stats>, lows: seq<real>, highs: seq<real>, cfg: Config) {
    |lows| == |probed| && |highs| == |probed| &&
    (|probed| > 0 ==> lows[0] == cfg.minInterval && highs[0] == cfg.maxInterval) &&
    (forall k :: 0 <= k < |probed| ==> probed[k].interval == (lows[k] + highs[k]) / 2.0) &&
    (forall k :: 0 <= k < |probed| - 1 ==> Next(probed[k], lows[k], highs[k], lows[k + 1], highs[k + 1], cfg))
  }

  /** The bracket before the next round: the configured range before the
      first one, the successor of the last round after it. */
  ghost predicate Bracket(probed: seq<Stats>, lows: seq<real>, highs: seq<real>, low: real, high: real, cfg: Config)
    requires |lows| == |probed| && |highs| == |probed|
  {
    (probed == [] ==> low == cfg.minInterval && high == cfg.maxInterval) &&
    (probed != [] ==> Next(probed[|probed| - 1], lows[|probed| - 1], highs[|probed| - 1], low, high, cfg))
  }

  lemma BisectedSnoc(probed: seq<Stats>, lows: seq<real>, highs: seq<real>, st: Stats, low: real, high: real, cfg: Config)
    requires Bisected(probed, lows, highs, cfg) && Bracket(probed, lows, highs, low, high, cfg)
    requires st.interval == (low + high) / 2.0
    ensures Bisected(probed + [st], lows + [low], highs + [high], cfg)
  {
    var ps, ls, hs := probed + [st], lows + [low], highs + [high];
    forall k | 0 <= k < |ps| - 1
      ensures Next(ps[k], ls[k], hs[k], ls[k + 1], hs[k + 1], cfg)
    {
      assert ps[k] == probed[k] && ls[k] == lows[k] && hs[k] == highs[k];
    }
  }

  /** Each round halves the bracket, so the search closes in on one
      interval. */
  lemma BracketHalves(probed: seq<Stats>, lows: seq<real>, highs: seq<real>, cfg: Config, k: nat)
    requires Bisected(probed, lows, highs, cfg) && k + 1 < |probed|
    ensures highs[k + 1] - lows[k + 1] == (highs[k] - lows[k]) / 2.0
  {
    assert Next(probed[k], lows[k], highs[k], lows[k + 1], highs[k + 1], cfg);
  }

  /** Every round but the last missed the band: a round inside the band
      ends the search. */
  lemma BisectedMisses(probed: seq<Stats>, lows: seq<real>, highs: seq<real>, cfg: Config)
    requires Bisected(probed, lows, highs, cfg)
    ensures forall k :: 0 <= k < |probed| - 1 ==> !InBand(probed[k].avgChars, cfg)
  {
    forall k | 0 <= k < |probed| - 1
      ensures !InBand(probed[k].avgChars, cfg)
    {
      assert Next(probed[k], lows[k], highs[k], lows[k + 1], highs[k + 1], cfg);
    }
  }

  /** What the loop of `segment_words_adaptive` keeps true after each
      round: the candidates cover the words inside the configured range,
      the rounds bisected their brackets, and the last interval is the
      fallback before the first round and the last round's after it. */
  ghost predicate Searched(probed: seq<Stats>, cands: seq<seq<SentenceSegment>>, lows: seq<real>, highs: seq<real>,
                           lastInterval: real, words: seq<WordSpan>, cfg: Config) {
    Explored(probed, cands, words, cfg) && Bisected(probed, lows, highs, cfg) &&
    (probed == [] ==> lastInterval == cfg.fallbackInterval) &&
    (probed != [] ==> lastInterval == probed[|probed| - 1].interval)
  }

  /** One round keeps `Searched`, and a round that does not stop leaves
      the bracket for the next one. */
  lemma RoundStep(probed: seq<Stats>, cands: seq<seq<SentenceSegment>>, lows: seq<real>, highs: seq<real>,
                  lastInterval: real, low: real, high: real, st: Stats, c: seq<SentenceSegment>,
                  stop: bool, low': real, high': real, words: seq<WordSpan>, cfg: Config)
    requires Searched(probed, cands, lows, highs, lastInterval, words, cfg)
    requires Bracket(probed, lows, highs, low, high, cfg)
    requires cfg.minInterval <= cfg.maxInterval ==> cfg.minInterval <= low <= high <= cfg.maxInterval
    requires Candidate(c, words) && st.interval == (low + high) / 2.0
    requires !stop ==> Next(st, low, high, low', high', cfg)
    ensures Searched(probed + [st], cands + [c], lows + [low], highs + [high], st.interval, words, cfg)
    ensures !stop ==> Bracket(probed + [st], lows + [low], highs + [high], low', high', cfg)
  {
    ExploredSnoc(probed, cands, st, c, words, cfg);
    BisectedSnoc(probed, lows, highs, st, low, high, cfg);
  }

  /** The last interval lies in the configured range once a round ran. */
  lemma SearchedRange(probed: seq<Stats>, cands: seq<seq<SentenceSegment>>, lows: seq<real>, highs: seq<real>,
                      lastInterval: real, words: seq<WordSpan>, cfg: Config)
    requires Searched(probed, cands, lows, highs, lastInterval, words, cfg)
    ensures cfg.minInterval <= cfg.maxInterval && probed != [] ==> cfg.minInterval <= lastInterval <= cfg.maxInterval
  {
  }

  /** The end of a round of the bisection: stop on a hit, inside the band
      once the bracket is within `tolerance`, or inside the band anyway;
      otherwise move `low` up or `high` down to the probed interval and stop
      when the new bracket is within `tolerance`. */
  method Steer(stats: Stats, interval: real, low: real, high: real, cfg: Config)
    returns (stop: bool, low': real, high': real)
    requires stats.interval == interval
    ensures stop <==> InBand(stats.avgChars, cfg) || Abs(high' - low') <= cfg.tolerance
    ensures !stop ==> Next(stats, low, high, low', high', cfg)
    ensures low <= high && interval == (low + high) / 2.0 ==> low <= low' <= high' <= high
  {
    low', high' := low, high;
    if InBand(stats.avgChars, cfg) {
      if StdWithin(stats.varChars, cfg) || Abs(high - low) <= cfg.tolerance {
        return true, low', high';
      }
    }
    if stats.avgChars < cfg.targetAvgCharsMin {
      low' := interval;
    } else if stats.avgChars > cfg.targetAvgCharsMax {
      high' := interval;
    } else {
      return true, low', high';
    }
    stop := Abs(high' - low') <= cfg.tolerance;
  }

  /** The bisection of `segment_words_adaptive`: probe the midpoint, keep
      the best candidate, move `low` up when the average is below the band
      and `high` down when it is above, and stop on a hit, inside the band
      once the bracket is within `tolerance`, or after `max_iterations`
      rounds. Returns the kept candidate, or None when none was probed,
      and the interval of the last round; `probed` lists the statistics of
      every round, and the kept one has the least error among them;
      `lows` and `highs` are the brackets the rounds bisected. */
  method SearchInterval(words: seq<WordSpan>, cfg: Config)
    returns (best: Option<(seq<SentenceSegment>, Stats)>, lastInterval: real, ghost probed: seq<Stats>,
             ghost lows: seq<real>, ghost highs: seq<real>)
    ensures |probed| <= (if cfg.maxIterations > 0 then cfg.maxIterations else 0)
    ensures best.None? <==> probed == []
    ensures best.None? <==> cfg.maxIterations <= 0
    ensures best.Some? ==> Candidate(best.value.0, words)
    ensures best.Some? ==> best.value.1 == probed[Chosen(probed, cfg).value]
    ensures cfg.minInterval <= cfg.maxInterval ==>
      forall k :: 0 <= k < |probed| ==> cfg.minInterval <= probed[k].interval <= cfg.maxInterval
    ensures cfg.maxIterations <= 0 ==> lastInterval == cfg.fallbackInterval
    ensures cfg.minInterval <= cfg.maxInterval && cfg.maxIterations > 0 ==> cfg.minInterval <= lastInterval <= cfg.maxInterval
    ensures Bisected(probed, lows, highs, cfg)
    ensures forall k :: 0 <= k < |probed| - 1 ==> !InBand(probed[k].avgChars, cfg)
    ensures probed != [] ==> lastInterval == probed[|probed| - 1].interval
  {
    var state := new SearchState();
    lastInterval, lows, highs := Bisect(state, words, cfg);
    probed := state.considered;
    BisectedMisses(probed, lows, highs, cfg);
    SearchedRange(probed, state.consideredSegments, lows, highs, lastInterval, words, cfg);
    if state.bestStats.Some? {
      best := Some((state.bestSegments, state.bestStats.value));
    } else {
      best := None;
    }
  }

  /** The loop of the bisection, offering every round to `state`. */
  method Bisect(state: SearchState, words: seq<WordSpan>, cfg: Config)
    returns (lastInterval: real, ghost lows: seq<real>, ghost highs: seq<real>)
    requires state.Valid(cfg) && state.considered == [] && state.consideredSegments == []
    modifies state
    ensures state.Valid(cfg)
    ensures |state.considered| <= (if cfg.maxIterations > 0 then cfg.maxIterations else 0)
    ensures state.considered == [] <==> cfg.maxIterations <= 0
    ensures Searched(state.considered, state.consideredSegments, lows, highs, lastInterval, words, cfg)
  {
    lows, highs := [], [];
    var low, high := cfg.minInterval, cfg.maxInterval;
    lastInterval := cfg.fallbackInterval;
    var iteration := 0;
    while iteration < cfg.maxIterations
      invariant state.Valid(cfg)
      invariant |state.considered| == iteration
      invariant Searched(state.considered, state.consideredSegments, lows, highs, lastInterval, words, cfg)
      invariant Bracket(state.considered, lows, highs, low, high, cfg)
      invariant cfg.minInterval <= cfg.maxInterval ==> cfg.minInterval <= low <= high <= cfg.maxInterval
      invariant 0 <= iteration <= (if cfg.maxIterations > 0 then cfg.maxIterations else 0)
      decreases cfg.maxIterations - iteration
    {
      ghost var probed0, cands0 := state.considered, state.consideredSegments;
      var interval := (low + high) / 2.0;
      var segments := Probe(words, interval, cfg);
      var stats := EvaluateSegments(segments, interval);
      state.Consider(segments, stats, cfg);
      iteration := iteration + 1;
      var stop, low', high' := Steer(stats, interval, low, high, cfg);
      RoundStep(probed0, cands0, lows, highs, lastInterval, low, high, stats, segments, stop, low', high', words, cfg);
      lows, highs := lows + [low], highs + [high];
      low, high := low', high';
      lastInterval := interval;
      if stop {
        break;
      }
    }
  }

  /** `segment_words_adaptive`. Empty input gives no segments and zero
      statistics at the fallback interval. Otherwise the segments carry
      exactly the words with text, in order, are numbered 1..k, and the
      statistics describe them at the interval of the kept candidate. */
  method SegmentWordsAdaptive(words: seq<WordSpan>, cfg: Config) returns (refined: seq<SentenceSegment>, stats: Stats)
    ensures words == [] ==> refined == [] && stats == Stats(cfg.fallbackInterval, 0.0, 0.0, 0, 0, 0)
    ensures AllBuilt(refined) && Flatten(refined) == Spoken(words)
    ensures forall k :: 0 <= k < |refined| ==> refined[k].id == k + 1
    ensures stats == EvaluateSegments(refined, stats.interval)
    ensures words != [] && cfg.maxIterations > 0 && cfg.minInterval <= cfg.maxInterval ==>
      cfg.minInterval <= stats.interval <= cfg.maxInterval
    ensures words != [] && cfg.maxIterations <= 0 ==> stats.interval == cfg.fallbackInterval
    ensures cfg.maxIterations > 0 ==> NoShortSegment(refined, cfg)
  {
    if words == [] {
      refined, stats := [], Stats(cfg.fallbackInterval, 0.0, 0.0, 0, 0, 0);
    } else {
      var segments, interval := PickCandidate(words, cfg);
      var outliersFixed, _ := RefineOutliers(segments, cfg);
      refined := Renumber(outliersFixed, cfg);
      stats := EvaluateSegments(refined, interval);
    }
  }

  /** The middle of `segment_words_adaptive`: the kept candidate, or the
      simulation at the last interval when it kept none or an empty one,
      with the interval its statistics carry. */
  method PickCandidate(words: seq<WordSpan>, cfg: Config) returns (segments: seq<SentenceSegment>, interval: real)
    ensures Candidate(segments, words)
    ensures cfg.maxIterations > 0 && cfg.minInterval <= cfg.maxInterval ==>
      cfg.minInterval <= interval <= cfg.maxInterval
    ensures cfg.maxIterations <= 0 ==> interval == cfg.fallbackInterval
  {
    var best, lastInterval, probed, lows, highs := SearchInterval(words, cfg);
    if best.Some? && best.value.0 != [] {
      segments := best.value.0;
    } else {
      segments := Probe(words, lastInterval, cfg);
    }
    var chosen: Stats;
    if best.Some? {
      chosen := best.value.1;
    } else {
      chosen := EvaluateSegments(segments, lastInterval);
    }
    interval := chosen.interval;
  }

  /** The list `_assign_ids` works on, held in an array for the update. */
  method Renumber(xs: seq<SentenceSegment>, ghost cfg: Config) returns (ys: seq<SentenceSegment>)
    ensures forall k :: 0 <= k < |ys| ==> ys[k].id == k + 1
    ensures AllBuilt(xs) ==> AllBuilt(ys)
    ensures NoShortSegment(xs, cfg) ==> NoShortSegment(ys, cfg)
    ensures Flatten(ys) == Flatten(xs) && CharCounts(ys) == CharCounts(xs)
  {
    var numbered := new SentenceSegment[|xs|](k requires 0 <= k < |xs| => xs[k]);
    AssignIds(numbered);
    ys := numbered[..];
    Renumbered(xs, ys, cfg);
  }

  /** Numbering the segments keeps them built, keeps their words and their
      character counts. */
  lemma Renumbered(xs: seq<SentenceSegment>, ys: seq<SentenceSegment>, cfg: Config)
    requires |ys| == |xs| && forall k :: 0 <= k < |xs| ==> ys[k] == xs[k].(id := k + 1)
    ensures AllBuilt(xs) ==> AllBuilt(ys)
    ensures NoShortSegment(xs, cfg) ==> NoShortSegment(ys, cfg)
    ensures Flatten(ys) == Flatten(xs) && CharCounts(ys) == CharCounts(xs)
  {
    FlattenIgnoresIds(xs, ys);
    forall s | s in ys ensures exists k :: 0 <= k < |xs| && s == xs[k].(id := k + 1) && xs[k] in xs {
      var k :| 0 <= k < |ys| && ys[k] == s;
      assert xs[k] in xs;
    }
  }
}
