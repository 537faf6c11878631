/** Script and TextGrid tokens, shared by `alignment/mfa.py` and
    `mfa_lab/textgrid_to_srt.py`: the transcript tokenizer, the
    `[A-Za-z']+` label splitter, interval-token extraction, and the
    specification of the propagation pass both files run after alignment. */
module ScriptTokens {
  import opened Wrappers
  import opened Text
  import opened Aligner
  import opened Timestamps
  import Seqs

  /** A character `[A-Za-z']` matches. */
  predicate IsTokenChar(c: char) { IsAsciiLetter(c) || c == '\'' }

  predicate AllTokenChars(s: string) { forall i :: 0 <= i < |s| ==> IsTokenChar(s[i]) }

  /** The lowercased letters and apostrophes of a fragment, in order. */
  function Normalize(raw: string): (r: string)
    ensures |r| <= |raw|
    ensures AllTokenChars(r) && AllLower(r)
  {
    if raw == [] then []
    else (if IsTokenChar(raw[0]) then [LowerChar(raw[0])] else []) + Normalize(raw[1..])
  }

  /** A fragment normalizes to nothing exactly when it has no letter or apostrophe. */
  lemma {:induction false} NormalizeEmpty(raw: string)
    ensures Normalize(raw) == [] <==> forall i :: 0 <= i < |raw| ==> !IsTokenChar(raw[i])
  {
    if raw != [] {
      NormalizeEmpty(raw[1..]);
      assert forall i :: 1 <= i < |raw| ==> raw[i] == raw[1..][i - 1];
    }
  }

  // ------------------------------------------------------------ [A-Za-z']+

  /** The length of the run of token characters at the start of `s`. */
  function RunLength(s: string): (k: nat)
    ensures k <= |s| && AllTokenChars(s[..k]) && (k < |s| ==> !IsTokenChar(s[k]))
  {
    if s == [] || !IsTokenChar(s[0]) then 0
    else
      var k := 1 + RunLength(s[1..]);
      assert s[..k] == [s[0]] + s[1..][..k - 1];
      k
  }

  /** The length of the run of other characters at the start of `s`. */
  function GapLength(s: string): (k: nat)
    ensures k <= |s| && (forall i :: 0 <= i < k ==> !IsTokenChar(s[i])) && (k < |s| ==> IsTokenChar(s[k]))
  {
    if s == [] || IsTokenChar(s[0]) then 0
    else 1 + GapLength(s[1..])
  }

  /** `TOKEN_RE.findall(s)`: the maximal runs of `[A-Za-z']`, left to right. */
  function TokenRuns(s: string): (r: seq<string>)
    ensures forall k :: 0 <= k < |r| ==> |r[k]| > 0 && AllTokenChars(r[k])
    decreases |s|
  {
    var a := GapLength(s);
    if a == |s| then []
    else
      var b := a + RunLength(s[a..]);
      assert s[a..b] == s[a..][..b - a];
      [s[a..b]] + TokenRuns(s[b..])
  }

  /** `s` with every character outside `[A-Za-z']` removed. */
  function KeepTokenChars(s: string): string {
    if s == [] then [] else (if IsTokenChar(s[0]) then [s[0]] else []) + KeepTokenChars(s[1..])
  }

  function Concat(parts: seq<string>): string {
    if parts == [] then [] else parts[0] + Concat(parts[1..])
  }

  lemma {:induction false} KeepTokenCharsConcat(a: string, b: string)
    ensures KeepTokenChars(a + b) == KeepTokenChars(a) + KeepTokenChars(b)
  {
    if a == [] {
      assert a + b == b;
    } else {
      var head := if IsTokenChar(a[0]) then [a[0]] else [];
      assert (a + b)[0] == a[0];
      assert (a + b)[1..] == a[1..] + b;
      assert KeepTokenChars(a + b) == head + KeepTokenChars(a[1..] + b);
      KeepTokenCharsConcat(a[1..], b);
      assert KeepTokenChars(a) == head + KeepTokenChars(a[1..]);
    }
  }

  lemma {:induction false} KeepGap(s: string)
    requires forall i :: 0 <= i < |s| ==> !IsTokenChar(s[i])
    ensures KeepTokenChars(s) == []
  {
    if s != [] { KeepGap(s[1..]); }
  }

  lemma {:induction false} KeepRun(s: string)
    requires AllTokenChars(s)
    ensures KeepTokenChars(s) == s
  {
    if s != [] { KeepRun(s[1..]); }
  }

  /** One step of `findall`: skip a gap, take a run, continue after it. */
  lemma {:induction false} KeepStep(s: string, a: nat, b: nat)
    requires a <= b <= |s|
    requires forall i :: 0 <= i < a ==> !IsTokenChar(s[i])
    requires forall i :: a <= i < b ==> IsTokenChar(s[i])
    ensures KeepTokenChars(s) == s[a..b] + KeepTokenChars(s[b..])
  {
    var gap, run, rest := s[..a], s[a..b], s[b..];
    assert s == gap + (run + rest);
    assert forall i :: 0 <= i < |gap| ==> gap[i] == s[i];
    assert forall i :: 0 <= i < |run| ==> run[i] == s[a + i];
    KeepTokenCharsConcat(gap, run + rest);
    KeepGap(gap);
    KeepTokenCharsConcat(run, rest);
    KeepRun(run);
  }

  /** The runs `findall` returns are exactly the token characters of `s`,
      cut at every other character: nothing is lost or reordered. */
  lemma {:induction false} TokenRunsCover(s: string)
    ensures Concat(TokenRuns(s)) == KeepTokenChars(s)
    decreases |s|
  {
    var a := GapLength(s);
    if a == |s| {
      assert s[..a] == s;
      KeepGap(s);
    } else {
      var b := a + RunLength(s[a..]);
      assert s[a..b] == s[a..][..b - a];
      KeepStep(s, a, b);
      var runs := TokenRuns(s[b..]);
      assert ([s[a..b]] + runs)[1..] == runs;
      TokenRunsCover(s[b..]);
    }
  }

  /** `tokenize(text)` of `textgrid_to_srt.py`: the lowercased matches. */
  function Tokenize(text: string): (r: seq<string>)
    ensures |r| == |TokenRuns(text)|
    ensures forall k :: 0 <= k < |r| ==> r[k] == Lower(TokenRuns(text)[k]) && |r[k]| > 0 && AllLower(r[k])
  {
    var runs := TokenRuns(text);
    seq(|runs|, k requires 0 <= k < |runs| => LowerIsLower(runs[k]); Lower(runs[k]))
  }

  // ------------------------------------------------------------ transcript

  /** One whitespace fragment of the transcript and its normalized form;
      a fragment whose normalized form is empty is not a word. */
  datatype ScriptToken = ScriptToken(original: string, normalized: string) {
    predicate IsWord() { normalized != [] }
  }

  function MakeToken(raw: string): ScriptToken { ScriptToken(raw, Normalize(raw)) }

  /** The whitespace fragments of every line, in order. */
  function Fragments(lines: seq<string>): seq<string> {
    if lines == [] then [] else SplitWs(lines[0]) + Fragments(lines[1..])
  }

  /** `_tokenize_transcript` / `transcript_tokens`, on the text of the file. */
  function TokenizeTranscript(text: string): (r: seq<ScriptToken>)
    ensures var frags := Fragments(Splitlines(text));
      |r| == |frags| && forall k :: 0 <= k < |r| ==> r[k] == MakeToken(frags[k])
  {
    var frags := Fragments(Splitlines(text));
    seq(|frags|, k requires 0 <= k < |frags| => MakeToken(frags[k]))
  }

  lemma {:induction false} FragmentsAreWords(lines: seq<string>)
    ensures forall k :: 0 <= k < |Fragments(lines)| ==> IsWord(Fragments(lines)[k])
  {
    if lines != [] {
      FragmentsAreWords(lines[1..]);
      var a, b := SplitWs(lines[0]), Fragments(lines[1..]);
      var f := Fragments(lines);
      assert f == a + b;
      forall k | 0 <= k < |f| ensures IsWord(f[k]) {
        if k < |a| { assert f[k] == a[k]; } else { assert f[k] == b[k - |a|]; }
      }
    }
  }

  /** Every token carries a non-blank fragment, and it is a word exactly
      when the fragment has a letter or an apostrophe. */
  lemma TranscriptTokens(text: string)
    ensures forall t :: t in TokenizeTranscript(text) ==> IsWord(t.original)
    ensures forall t :: t in TokenizeTranscript(text) ==>
      (t.IsWord() <==> exists i :: 0 <= i < |t.original| && IsTokenChar(t.original[i]))
  {
    var lines := Splitlines(text);
    FragmentsAreWords(lines);
    forall t | t in TokenizeTranscript(text)
      ensures IsWord(t.original)
      ensures t.IsWord() <==> exists i :: 0 <= i < |t.original| && IsTokenChar(t.original[i])
    {
      NormalizeEmpty(t.original);
    }
  }

  // ------------------------------------------------------------ intervals

  /** One entry of the TextGrid `words` tier. */
  datatype Interval = Interval(text: string, startTime: real, endTime: real)

  /** One aligner token: a lowercase piece of a label and its interval's times. */
  datatype IntervalToken = IntervalToken(token: string, startTime: real, endTime: real)

  /** A label skipped outright: blank after stripping, or `[...]`. */
  predicate Skipped(text: string) {
    var l := Strip(text);
    l == [] || (l[0] == '[' && l[|l| - 1] == ']')
  }

  /** The tokens one interval contributes: one per piece, sharing its times. */
  function IntervalPieces(iv: Interval): (r: seq<IntervalToken>)
    ensures forall k :: 0 <= k < |r| ==> r[k].startTime == iv.startTime && r[k].endTime == iv.endTime && |r[k].token| > 0
  {
    if Skipped(iv.text) then []
    else
      var pieces := Tokenize(Strip(iv.text));
      seq(|pieces|, k requires 0 <= k < |pieces| => IntervalToken(pieces[k], iv.startTime, iv.endTime))
  }

  /** The token list both extractors build, interval by interval. */
  function ExtractTokens(entries: seq<Interval>): (r: seq<IntervalToken>)
    ensures forall k :: 0 <= k < |r| ==> |r[k].token| > 0
  {
    if entries == [] then []
    else ExtractTokens(entries[..|entries| - 1]) + IntervalPieces(entries[|entries| - 1])
  }

  /** `spans` of `extract_interval_tokens`: one per interval that yields a token. */
  function ExtractSpans(entries: seq<Interval>): seq<(real, real)> {
    if entries == [] then []
    else
      var last := entries[|entries| - 1];
      ExtractSpans(entries[..|entries| - 1]) + (if IntervalPieces(last) == [] then [] else [(last.startTime, last.endTime)])
  }

  /** The extraction concatenates the pieces of each interval in turn. */
  lemma {:induction false} ExtractTokensFlat(entries: seq<Interval>)
    ensures ExtractTokens(entries) == Seqs.FlatMap(entries, IntervalPieces)
  {
    if entries != [] {
      ExtractTokensFlat(entries[..|entries| - 1]);
    }
  }

  lemma ExtractTokensAppend(a: seq<Interval>, b: seq<Interval>)
    ensures ExtractTokens(a + b) == ExtractTokens(a) + ExtractTokens(b)
  {
    ExtractTokensFlat(a);
    ExtractTokensFlat(b);
    ExtractTokensFlat(a + b);
    Seqs.FlatMapAppend(a, b, IntervalPieces);
  }

  /** A skipped label contributes nothing; any other label contributes its
      lowercase pieces in order, each with the interval's start and end. */
  lemma ExtractOne(entries: seq<Interval>, iv: Interval)
    ensures Skipped(iv.text) ==> ExtractTokens(entries + [iv]) == ExtractTokens(entries)
    ensures !Skipped(iv.text) ==>
      var pieces := Tokenize(Strip(iv.text));
      var r := ExtractTokens(entries + [iv]);
      |r| == |ExtractTokens(entries)| + |pieces| &&
      forall k :: 0 <= k < |pieces| ==> r[|ExtractTokens(entries)| + k] == IntervalToken(pieces[k], iv.startTime, iv.endTime)
  {
    assert (entries + [iv])[..|entries|] == entries;
  }

  /** There is at most one span per interval and at least one token per span. */
  lemma {:induction false} SpansBounded(entries: seq<Interval>)
    ensures |ExtractSpans(entries)| <= |entries|
    ensures |ExtractSpans(entries)| <= |ExtractTokens(entries)|
  {
    if entries != [] {
      SpansBounded(entries[..|entries| - 1]);
    }
  }

  // ------------------------------------------------------------ propagation

  /** Indices of the word tokens, in script order. */
  function WordIndices(tokens: seq<ScriptToken>): (r: seq<nat>)
    ensures forall k :: 0 <= k < |r| ==> r[k] < |tokens| && tokens[r[k]].IsWord()
    ensures forall k, l :: 0 <= k < l < |r| ==> r[k] < r[l]
    ensures forall i :: 0 <= i < |tokens| && tokens[i].IsWord() ==> i in r
  {
    if tokens == [] then []
    else
      var rest := WordIndices(tokens[..|tokens| - 1]);
      assert forall i :: 0 <= i < |tokens| - 1 ==> tokens[..|tokens| - 1][i] == tokens[i];
      if tokens[|tokens| - 1].IsWord() then rest + [|tokens| - 1] else rest
  }

  /** The reference sequence handed to the aligner: the normalized words. */
  function Reference(tokens: seq<ScriptToken>): (r: seq<string>)
    ensures |r| == |WordIndices(tokens)|
    ensures forall k :: 0 <= k < |r| ==> r[k] == tokens[WordIndices(tokens)[k]].normalized
  {
    var wi := WordIndices(tokens);
    seq(|wi|, k requires 0 <= k < |wi| => tokens[wi[k]].normalized)
  }

  /** The hypothesis sequence handed to the aligner: the interval tokens' text. */
  function Hypothesis(intervals: seq<IntervalToken>): (r: seq<string>)
    ensures |r| == |intervals| && forall k :: 0 <= k < |r| ==> r[k] == intervals[k].token
  {
    seq(|intervals|, k requires 0 <= k < |intervals| => intervals[k].token)
  }

  /** The first loop of the propagation: each matched pair stores its
      hypothesis index at the script position of its reference word. */
  function Assign(mapped: seq<Option<nat>>, wi: seq<nat>, alignment: seq<Pair>): (r: seq<Option<nat>>)
    requires forall p :: p in alignment && p.ref.Some? ==> p.ref.value < |wi|
    requires forall k :: 0 <= k < |wi| ==> wi[k] < |mapped|
    ensures |r| == |mapped|
    decreases |alignment|
  {
    if alignment == [] then mapped
    else
      var init := alignment[..|alignment| - 1];
      var p := alignment[|alignment| - 1];
      assert forall q :: q in init ==> q in alignment;
      var prev := Assign(mapped, wi, init);
      if p.ref.Some? && p.hyp.Some? then prev[wi[p.ref.value] := p.hyp] else prev
  }

  /** `[None] * size` */
  function Nones(size: nat): (r: seq<Option<nat>>)
    ensures |r| == size && forall k :: 0 <= k < size ==> r[k].None?
  {
    seq(size, _ => None)
  }

  lemma {:induction false} RefsMember(alignment: seq<Pair>, q: Pair)
    requires q in alignment && q.ref.Some?
    ensures q.ref.value in Refs(alignment)
  {
    var init := alignment[..|alignment| - 1];
    if q != alignment[|alignment| - 1] {
      assert q in init by {
        var k :| 0 <= k < |alignment| && alignment[k] == q;
        assert init[k] == q;
      }
      RefsMember(init, q);
    }
  }

  /** One step of the first propagation loop, for a pair carrying the next
      reference index `i - 1`: only position `wi[i - 1]` can change. */
  lemma {:induction false} AssignStep(size: nat, wi: seq<nat>, init: seq<Pair>, p: Pair, i: nat)
    requires 0 < i <= |wi| && p.ref == Some(i - 1)
    requires forall k :: 0 <= k < |wi| ==> wi[k] < size
    requires forall q :: q in init && q.ref.Some? ==> q.ref.value < i - 1
    ensures Assign(Nones(size), wi, init + [p]) ==
      var prev := Assign(Nones(size), wi, init);
      if p.hyp.Some? then prev[wi[i - 1] := p.hyp] else prev
    ensures forall h: nat :: Pair(Some(i - 1), Some(h)) in init + [p] <==> p.hyp == Some(h)
    ensures forall r: nat, h: nat :: r < i - 1 ==> (Pair(Some(r), Some(h)) in init + [p] <==> Pair(Some(r), Some(h)) in init)
  {
    var al := init + [p];
    assert al[..|al| - 1] == init && al[|al| - 1] == p;
    assert forall q :: q in init ==> q in al;
  }

  /** A strictly increasing index list never repeats a value. */
  lemma {:induction false} IncreasingDistinct(wi: seq<nat>, i: nat)
    requires 0 < i <= |wi|
    requires forall k, l :: 0 <= k < l < |wi| ==> wi[k] < wi[l]
    ensures wi[i - 1] !in wi[..i - 1]
    ensures forall k :: k !in wi[..i] ==> k != wi[i - 1] && k !in wi[..i - 1]
  {
    assert wi[..i] == wi[..i - 1] + [wi[i - 1]];
  }

  /** After the first propagation loop, a word token is mapped to hypothesis
      token `h` exactly when its reference index is paired with `h`; every
      other position stays unmapped. */
  lemma {:induction false} AssignMatches(size: nat, wi: seq<nat>, alignment: seq<Pair>, i: nat, j: nat)
    requires IsAlignment(alignment, i, j) && i <= |wi|
    requires forall k :: 0 <= k < |wi| ==> wi[k] < size
    requires forall k, l :: 0 <= k < l < |wi| ==> wi[k] < wi[l]
    ensures forall q :: q in alignment && q.ref.Some? ==> q.ref.value < i
    ensures forall r: nat, h: nat :: r < i ==> (Assign(Nones(size), wi, alignment)[wi[r]] == Some(h) <==> Pair(Some(r), Some(h)) in alignment)
    ensures forall k :: 0 <= k < size && k !in wi[..i] ==> Assign(Nones(size), wi, alignment)[k].None?
    decreases |alignment|
  {
    forall q | q in alignment && q.ref.Some? ensures q.ref.value < i {
      RefsMember(alignment, q);
    }
    if alignment == [] {
      assert Range(i) == [];
    } else {
      var init := alignment[..|alignment| - 1];
      var p := alignment[|alignment| - 1];
      assert alignment == init + [p];
      AlignmentUnsnoc(alignment, i, j);
      var i' := if p.ref.Some? then i - 1 else i;
      var j' := if p.hyp.Some? then j - 1 else j;
      AssignMatches(size, wi, init, i', j');
      if p.ref.Some? {
        AssignRefStep(size, wi, init, p, i);
      } else {
        AssignNoRefStep(size, wi, init, p, i);
      }
    }
  }

  /** A pair for reference index `i - 1` maps that word token to its
      hypothesis token and leaves every earlier mapping as it was. */
  lemma AssignRefStep(size: nat, wi: seq<nat>, init: seq<Pair>, p: Pair, i: nat)
    requires 0 < i <= |wi| && p.ref == Some(i - 1)
    requires forall k :: 0 <= k < |wi| ==> wi[k] < size
    requires forall k, l :: 0 <= k < l < |wi| ==> wi[k] < wi[l]
    requires forall q :: q in init && q.ref.Some? ==> q.ref.value < i - 1
    requires forall r: nat, h: nat :: r < i - 1 ==> (Assign(Nones(size), wi, init)[wi[r]] == Some(h) <==> Pair(Some(r), Some(h)) in init)
    requires forall k :: 0 <= k < size && k !in wi[..i - 1] ==> Assign(Nones(size), wi, init)[k].None?
    ensures forall q :: q in init + [p] && q.ref.Some? ==> q.ref.value < i
    ensures forall r: nat, h: nat :: r < i ==> (Assign(Nones(size), wi, init + [p])[wi[r]] == Some(h) <==> Pair(Some(r), Some(h)) in init + [p])
    ensures forall k :: 0 <= k < size && k !in wi[..i] ==> Assign(Nones(size), wi, init + [p])[k].None?
  {
    AssignStep(size, wi, init, p, i);
    IncreasingDistinct(wi, i);
    var next := Assign(Nones(size), wi, init + [p]);
    forall r: nat, h: nat | r < i
      ensures next[wi[r]] == Some(h) <==> Pair(Some(r), Some(h)) in init + [p]
    {
      if r < i - 1 {
        assert wi[r] != wi[i - 1];
      }
    }
  }

  /** A pair without a reference index changes no mapping. */
  lemma AssignNoRefStep(size: nat, wi: seq<nat>, init: seq<Pair>, p: Pair, i: nat)
    requires i <= |wi| && p.ref.None?
    requires forall k :: 0 <= k < |wi| ==> wi[k] < size
    requires forall q :: q in init && q.ref.Some? ==> q.ref.value < i
    requires forall r: nat, h: nat :: r < i ==> (Assign(Nones(size), wi, init)[wi[r]] == Some(h) <==> Pair(Some(r), Some(h)) in init)
    requires forall k :: 0 <= k < size && k !in wi[..i] ==> Assign(Nones(size), wi, init)[k].None?
    ensures forall q :: q in init + [p] && q.ref.Some? ==> q.ref.value < i
    ensures forall r: nat, h: nat :: r < i ==> (Assign(Nones(size), wi, init + [p])[wi[r]] == Some(h) <==> Pair(Some(r), Some(h)) in init + [p])
    ensures forall k :: 0 <= k < size && k !in wi[..i] ==> Assign(Nones(size), wi, init + [p])[k].None?
  {
    var al := init + [p];
    assert al[..|al| - 1] == init && al[|al| - 1] == p;
    assert Assign(Nones(size), wi, al) == Assign(Nones(size), wi, init);
    forall r: nat, h: nat | r < i
      ensures Pair(Some(r), Some(h)) in al <==> Pair(Some(r), Some(h)) in init
    {
    }
  }

  /** Pairs that match a reference word to a hypothesis token. */
  function Matched(alignment: seq<Pair>): nat {
    if alignment == [] then 0
    else Matched(alignment[..|alignment| - 1]) + (var p := alignment[|alignment| - 1]; if p.ref.Some? && p.hyp.Some? then 1 else 0)
  }

  /** Pairs that leave a reference word without a hypothesis token. */
  function Missing(alignment: seq<Pair>): nat {
    if alignment == [] then 0
    else Missing(alignment[..|alignment| - 1]) + (var p := alignment[|alignment| - 1]; if p.ref.Some? && p.hyp.None? then 1 else 0)
  }

  lemma {:induction false} MatchedMissingRefs(alignment: seq<Pair>)
    ensures Matched(alignment) + Missing(alignment) == |Refs(alignment)|
  {
    if alignment != [] {
      MatchedMissingRefs(alignment[..|alignment| - 1]);
    }
  }

  /** Every reference word is either matched or missing, once. */
  lemma MatchedPlusMissing(alignment: seq<Pair>, n: nat, m: nat)
    requires IsAlignment(alignment, n, m)
    ensures Matched(alignment) + Missing(alignment) == n
  {
    MatchedMissingRefs(alignment);
  }

  /** The interval of the latest mapped position in `mapped`, if any. */
  function LastSome(mapped: seq<Option<nat>>): (r: Option<nat>)
    ensures r.None? <==> forall k :: 0 <= k < |mapped| ==> mapped[k].None?
    ensures r.Some? ==> r in mapped
  {
    if mapped == [] then None
    else if mapped[|mapped| - 1].Some? then mapped[|mapped| - 1]
    else
      var r := LastSome(mapped[..|mapped| - 1]);
      assert forall k :: 0 <= k < |mapped| - 1 ==> mapped[..|mapped| - 1][k] == mapped[k];
      r
  }

  /** The forward sweep: a position keeps its interval; an unmapped
      non-word takes the latest interval mapped before it. */
  function Propagated(mapped: seq<Option<nat>>, tokens: seq<ScriptToken>, k: nat): Option<nat>
    requires k < |mapped| == |tokens|
  {
    if mapped[k].Some? then mapped[k]
    else if !tokens[k].IsWord() then LastSome(mapped[..k])
    else None
  }

  function Propagate(mapped: seq<Option<nat>>, tokens: seq<ScriptToken>): (r: seq<Option<nat>>)
    requires |mapped| == |tokens|
    ensures |r| == |mapped|
  {
    seq(|mapped|, k requires 0 <= k < |mapped| => Propagated(mapped, tokens, k))
  }

  /** The forward sweep after `idx` positions: those are propagated, the
      rest untouched, and `last` is the last interval among them. */
  predicate SweptSoFar(orig: seq<Option<nat>>, tokens: seq<ScriptToken>, idx: nat, cur: seq<Option<nat>>, last: Option<nat>)
    requires |orig| == |tokens|
  {
    idx <= |orig| == |cur| &&
    cur[..idx] == Propagate(orig, tokens)[..idx] && cur[idx..] == orig[idx..] &&
    last == LastSome(orig[..idx])
  }

  /** One position of the forward sweep: a mapped position becomes the last
      interval seen, and an unmapped non-word takes the last interval seen
      when there is one. */
  lemma PropagateStep(orig: seq<Option<nat>>, tokens: seq<ScriptToken>, idx: nat, cur: seq<Option<nat>>, last: Option<nat>)
    requires idx < |orig| == |tokens| && SweptSoFar(orig, tokens, idx, cur, last)
    ensures cur[idx] == orig[idx]
    ensures SweptSoFar(orig, tokens, idx + 1,
      if orig[idx].None? && !tokens[idx].IsWord() && last.Some? then cur[idx := last] else cur,
      if orig[idx].Some? then orig[idx] else last)
  {
    assert orig[..idx + 1][..idx] == orig[..idx];
    assert cur[idx] == cur[idx..][0] == orig[idx];
    var p := Propagate(orig, tokens);
    var next := if orig[idx].None? && !tokens[idx].IsWord() && last.Some? then cur[idx := last] else cur;
    assert next[..idx + 1] == cur[..idx] + [next[idx]];
    assert p[..idx + 1] == p[..idx] + [p[idx]];
    assert next[idx + 1..] == cur[idx..][1..];
  }

  /** Word tokens are never backfilled, and a non-word before the first
      mapped token stays unmapped. */
  lemma PropagateFacts(mapped: seq<Option<nat>>, tokens: seq<ScriptToken>)
    requires |mapped| == |tokens|
    ensures forall k :: 0 <= k < |tokens| && tokens[k].IsWord() ==> Propagate(mapped, tokens)[k] == mapped[k]
    ensures forall k :: 0 <= k < |tokens| && (forall j :: 0 <= j <= k ==> mapped[j].None?) ==> Propagate(mapped, tokens)[k].None?
    ensures forall k :: 0 <= k < |tokens| && mapped[k].Some? ==> Propagate(mapped, tokens)[k] == mapped[k]
  {
    forall k | 0 <= k < |tokens| && (forall j :: 0 <= j <= k ==> mapped[j].None?)
      ensures Propagate(mapped, tokens)[k].None?
    {
      assert forall j :: 0 <= j < k ==> mapped[..k][j] == mapped[j];
    }
  }

  /** Every interval the sweep hands out is one already in `mapped`. */
  lemma PropagateFromMapped(mapped: seq<Option<nat>>, tokens: seq<ScriptToken>)
    requires |mapped| == |tokens|
    ensures forall k :: 0 <= k < |tokens| && Propagate(mapped, tokens)[k].Some? ==> Propagate(mapped, tokens)[k] in mapped
  {
    forall k | 0 <= k < |tokens| && Propagate(mapped, tokens)[k].Some?
      ensures Propagate(mapped, tokens)[k] in mapped
    {
      if mapped[k].None? {
        var r := LastSome(mapped[..k]);
        assert r in mapped[..k];
      }
    }
  }

  /** Where the latest mapped position of `m` is, when there is one:
      nothing after it is mapped. */
  lemma {:induction false} LastSomeAt(m: seq<Option<nat>>) returns (i: nat)
    requires LastSome(m).Some?
    ensures i < |m| && m[i] == LastSome(m)
    ensures forall j :: i < j < |m| ==> m[j].None?
  {
    var n := |m| - 1;
    if m[n].Some? {
      i := n;
    } else {
      assert forall k :: 0 <= k < n ==> m[..n][k] == m[k];
      i := LastSomeAt(m[..n]);
    }
  }

  /** The position a swept interval comes from: at or before `k`, with
      nothing mapped between it and `k`. */
  lemma PropagatedFrom(mapped: seq<Option<nat>>, tokens: seq<ScriptToken>, k: nat) returns (i: nat)
    requires k < |mapped| == |tokens| && Propagate(mapped, tokens)[k].Some?
    ensures i <= k && mapped[i] == Propagate(mapped, tokens)[k]
    ensures forall j :: i < j <= k ==> mapped[j].None?
  {
    if mapped[k].Some? {
      i := k;
    } else {
      i := LastSomeAt(mapped[..k]);
      assert forall j :: i < j < k ==> mapped[..k][j] == mapped[j];
    }
  }

  /** Interval indices never go backwards along the script: of two mapped
      positions, the later one has the same or a later interval. */
  predicate InOrder(mapped: seq<Option<nat>>) {
    forall p, q :: 0 <= p < q < |mapped| && mapped[p].Some? && mapped[q].Some? ==> mapped[p].value <= mapped[q].value
  }

  /** The forward sweep keeps the intervals in order: a non-word takes the
      latest interval before it, which is no later than any after it. */
  lemma PropagateInOrder(mapped: seq<Option<nat>>, tokens: seq<ScriptToken>)
    requires |mapped| == |tokens| && InOrder(mapped)
    ensures InOrder(Propagate(mapped, tokens))
  {
    var swept := Propagate(mapped, tokens);
    forall p, q | 0 <= p < q < |swept| && swept[p].Some? && swept[q].Some?
      ensures swept[p].value <= swept[q].value
    {
      var ip := PropagatedFrom(mapped, tokens, p);
      var iq := PropagatedFrom(mapped, tokens, q);
      assert ip <= iq;
    }
  }

  /** Two matched pairs of a monotone alignment: the one with the smaller
      reference index has the smaller hypothesis index. */
  lemma PairsInOrder(alignment: seq<Pair>, i: nat, j: nat, r1: nat, h1: nat, r2: nat, h2: nat)
    requires Monotone(alignment, i, j) && r1 < r2
    requires Pair(Some(r1), Some(h1)) in alignment && Pair(Some(r2), Some(h2)) in alignment
    ensures h1 < h2
  {
    var a :| 0 <= a < |alignment| && alignment[a] == Pair(Some(r1), Some(h1));
    var b :| 0 <= b < |alignment| && alignment[b] == Pair(Some(r2), Some(h2));
    assert a < b;
  }

  /** A mapping that sends word token `wi[r]` to `h` exactly when a
      monotone alignment pairs `r` with `h`, and leaves other tokens
      unmapped, is in order. */
  lemma MappedInOrder(mapped: seq<Option<nat>>, wi: seq<nat>, alignment: seq<Pair>, i: nat, j: nat)
    requires Monotone(alignment, i, j)
    requires forall k :: 0 <= k < |wi| ==> wi[k] < |mapped|
    requires forall k, l :: 0 <= k < l < |wi| ==> wi[k] < wi[l]
    requires forall r: nat, h: nat :: r < |wi| ==> (mapped[wi[r]] == Some(h) <==> Pair(Some(r), Some(h)) in alignment)
    requires forall k :: 0 <= k < |mapped| && k !in wi ==> mapped[k].None?
    ensures InOrder(mapped)
  {
    forall p, q | 0 <= p < q < |mapped| && mapped[p].Some? && mapped[q].Some?
      ensures mapped[p].value <= mapped[q].value
    {
      var rp :| 0 <= rp < |wi| && wi[rp] == p;
      var rq :| 0 <= rq < |wi| && wi[rq] == q;
      assert rp < rq;
      PairsInOrder(alignment, i, j, rp, mapped[p].value, rq, mapped[q].value);
    }
  }

  /** For the aligner's own output, the first loop maps word tokens to
      intervals in order: along the script, reference indices increase, so
      their pairs come later in the alignment, whose hypothesis indices
      increase too. */
  lemma AssignInOrder(tokens: seq<ScriptToken>, intervals: seq<IntervalToken>)
    ensures var alignment := Align(Reference(tokens), Hypothesis(intervals));
      InBounds(alignment, |WordIndices(tokens)|, |intervals|) &&
      InOrder(Assign(Nones(|tokens|), WordIndices(tokens), alignment))
  {
    var ref, hyp := Reference(tokens), Hypothesis(intervals);
    var alignment := Align(ref, hyp);
    var wi := WordIndices(tokens);
    AlignIsAlignment(ref, hyp);
    AlignmentInBounds(alignment, |ref|, |hyp|);
    TraceMonotone(ref, hyp, |ref|, |hyp|);
    AlignmentMapsInOrder(|tokens|, wi, alignment, |ref|, |hyp|);
  }

  /** The first loop, run on a monotone alignment of all the words, maps
      them in order. */
  lemma AlignmentMapsInOrder(size: nat, wi: seq<nat>, alignment: seq<Pair>, i: nat, j: nat)
    requires IsAlignment(alignment, i, j) && Monotone(alignment, i, j) && i == |wi|
    requires forall k :: 0 <= k < |wi| ==> wi[k] < size
    requires forall k, l :: 0 <= k < l < |wi| ==> wi[k] < wi[l]
    ensures forall p :: p in alignment && p.ref.Some? ==> p.ref.value < |wi|
    ensures InOrder(Assign(Nones(size), wi, alignment))
  {
    AssignMatches(size, wi, alignment, i, j);
    assert wi[..i] == wi;
    MappedInOrder(Assign(Nones(size), wi, alignment), wi, alignment, i, j);
  }

  /** For the aligner's own output, the final intervals are in script
      order: a token never shows an earlier interval than a token before
      it. */
  lemma FinalIntervalsInOrder(tokens: seq<ScriptToken>, intervals: seq<IntervalToken>)
    ensures var alignment := Align(Reference(tokens), Hypothesis(intervals));
      InBounds(alignment, |WordIndices(tokens)|, |intervals|) &&
      InOrder(FinalIntervals(tokens, alignment, |intervals|))
  {
    AssignInOrder(tokens, intervals);
    var alignment := Align(Reference(tokens), Hypothesis(intervals));
    PropagateInOrder(Assign(Nones(|tokens|), WordIndices(tokens), alignment), tokens);
  }

  // ------------------------------------------------------------ SRT entries

  /** One word-level subtitle: its ordinal, its interval's times, and the
      raw script fragment it shows. */
  datatype SrtEntry = SrtEntry(ordinal: nat, startTime: real, endTime: real, text: string)

  /** Every mapped interval index names an interval token. */
  predicate MappedInBounds(mapped: seq<Option<nat>>, intervals: seq<IntervalToken>) {
    forall k :: 0 <= k < |mapped| && mapped[k].Some? ==> mapped[k].value < |intervals|
  }

  /** The number of mapped positions. */
  function CountSome(mapped: seq<Option<nat>>): nat {
    if mapped == [] then 0
    else CountSome(mapped[..|mapped| - 1]) + (if mapped[|mapped| - 1].Some? then 1 else 0)
  }

  /** The positions of the mapped tokens, in script order. */
  function MappedPositions(mapped: seq<Option<nat>>): (r: seq<nat>)
    ensures |r| == CountSome(mapped)
    ensures forall k :: 0 <= k < |r| ==> r[k] < |mapped| && mapped[r[k]].Some?
    ensures forall k, l :: 0 <= k < l < |r| ==> r[k] < r[l]
    ensures forall i :: 0 <= i < |mapped| && mapped[i].Some? ==> i in r
  {
    if mapped == [] then []
    else
      var n := |mapped| - 1;
      var rest := MappedPositions(mapped[..n]);
      assert forall i :: 0 <= i < n ==> mapped[..n][i] == mapped[i];
      if mapped[n].Some? then rest + [n] else rest
  }

  /** The entries the SRT writers emit: the `k`-th mapped token, in script
      order, becomes entry `k + 1`, showing its own fragment and the times
      of the interval it is mapped to; unmapped tokens are skipped. */
  function Entries(tokens: seq<ScriptToken>, intervals: seq<IntervalToken>, mapped: seq<Option<nat>>): (r: seq<SrtEntry>)
    requires |mapped| == |tokens| && MappedInBounds(mapped, intervals)
    ensures |r| == CountSome(mapped) == |EntryIntervals(mapped)|
    ensures forall k :: 0 <= k < |r| ==>
      EntryIntervals(mapped)[k] < |intervals| && r[k].ordinal == k + 1 &&
      r[k].startTime == intervals[EntryIntervals(mapped)[k]].startTime &&
      r[k].endTime == intervals[EntryIntervals(mapped)[k]].endTime
  {
    var pos := MappedPositions(mapped);
    seq(|pos|, k requires 0 <= k < |pos| =>
      var iv := intervals[mapped[pos[k]].value];
      SrtEntry(k + 1, iv.startTime, iv.endTime, tokens[pos[k]].original))
  }

  /** The interval each entry shows, in entry order. */
  function EntryIntervals(mapped: seq<Option<nat>>): (r: seq<nat>)
    ensures |r| == CountSome(mapped)
    ensures forall k :: 0 <= k < |r| ==> Some(r[k]) in mapped
  {
    var pos := MappedPositions(mapped);
    seq(|pos|, k requires 0 <= k < |pos| => mapped[pos[k]].value)
  }

  /** Intervals in order give entries in order: a later entry never shows
      an earlier interval. */
  lemma EntryIntervalsSorted(mapped: seq<Option<nat>>)
    requires InOrder(mapped)
    ensures var src := EntryIntervals(mapped);
      forall k, l :: 0 <= k < l < |src| ==> src[k] <= src[l]
  {
  }

  /** With the tier's intervals in time order, as a TextGrid keeps them,
      the entries start in time order too. */
  lemma EntriesChronological(tokens: seq<ScriptToken>, intervals: seq<IntervalToken>, mapped: seq<Option<nat>>)
    requires |mapped| == |tokens| && MappedInBounds(mapped, intervals) && InOrder(mapped)
    requires forall a, b :: 0 <= a <= b < |intervals| ==> intervals[a].startTime <= intervals[b].startTime
    ensures var entries := Entries(tokens, intervals, mapped);
      forall k, l :: 0 <= k < l < |entries| ==> entries[k].startTime <= entries[l].startTime
  {
    EntryIntervalsSorted(mapped);
  }

  /** `"\n".join([str(counter), f"{start} --> {end}", original, ""])` with the
      rounding formatter. */
  function Block(e: SrtEntry): string {
    NatToString(e.ordinal) + "\n" + Rounded(e.startTime) + " --> " + Rounded(e.endTime) + "\n" + e.text + "\n"
  }

  function Blocks(entries: seq<SrtEntry>): (r: seq<string>)
    ensures |r| == |entries| && forall k :: 0 <= k < |r| ==> r[k] == Block(entries[k])
  {
    seq(|entries|, k requires 0 <= k < |entries| => Block(entries[k]))
  }

  lemma BlocksSnoc(entries: seq<SrtEntry>, e: SrtEntry)
    ensures Blocks(entries + [e]) == Blocks(entries) + [Block(e)]
  {
  }

  /** The file text: the blocks joined by newlines, stripped, plus a newline. */
  function SrtText(entries: seq<SrtEntry>): string {
    Strip(Join("\n", Blocks(entries))) + "\n"
  }

  /** Entries grow by one entry, numbered next, for each mapped token. */
  lemma EntriesSnoc(tokens: seq<ScriptToken>, intervals: seq<IntervalToken>, mapped: seq<Option<nat>>)
    requires |mapped| == |tokens| > 0 && MappedInBounds(mapped, intervals)
    ensures MappedInBounds(mapped[..|mapped| - 1], intervals)
    ensures var n := |tokens| - 1;
      var prev := Entries(tokens[..n], intervals, mapped[..n]);
      Entries(tokens, intervals, mapped) ==
        if mapped[n].None? then prev
        else prev + [SrtEntry(|prev| + 1, intervals[mapped[n].value].startTime, intervals[mapped[n].value].endTime, tokens[n].original)]
  {
    var n := |tokens| - 1;
    assert forall k :: 0 <= k < n ==> mapped[..n][k] == mapped[k] && tokens[..n][k] == tokens[k];
  }

  /** The first propagation loop only stores hypothesis indices of the alignment. */
  lemma {:induction false} AssignInBounds(mapped: seq<Option<nat>>, wi: seq<nat>, alignment: seq<Pair>, m: nat)
    requires forall p :: p in alignment && p.ref.Some? ==> p.ref.value < |wi|
    requires forall k :: 0 <= k < |wi| ==> wi[k] < |mapped|
    requires forall p :: p in alignment && p.hyp.Some? ==> p.hyp.value < m
    requires forall k :: 0 <= k < |mapped| && mapped[k].Some? ==> mapped[k].value < m
    ensures forall k :: 0 <= k < |mapped| && Assign(mapped, wi, alignment)[k].Some? ==> Assign(mapped, wi, alignment)[k].value < m
    decreases |alignment|
  {
    if alignment != [] {
      var init := alignment[..|alignment| - 1];
      var p := alignment[|alignment| - 1];
      assert forall q :: q in init ==> q in alignment;
      AssignInBounds(mapped, wi, init, m);
      assert p in alignment;
      var prev := Assign(mapped, wi, init);
      assert Assign(mapped, wi, alignment) == if p.ref.Some? && p.hyp.Some? then prev[wi[p.ref.value] := p.hyp] else prev;
    }
  }

  /** Every index the alignment mentions exists in the two sequences. */
  predicate InBounds(alignment: seq<Pair>, n: nat, m: nat) {
    forall p :: p in alignment ==> (p.ref.Some? ==> p.ref.value < n) && (p.hyp.Some? ==> p.hyp.value < m)
  }

  /** Where each script token ends up after both propagation loops. */
  function FinalIntervals(tokens: seq<ScriptToken>, alignment: seq<Pair>, m: nat): (r: seq<Option<nat>>)
    requires InBounds(alignment, |WordIndices(tokens)|, m)
    ensures |r| == |tokens|
    ensures forall k :: 0 <= k < |r| && r[k].Some? ==> r[k].value < m
  {
    var mapped := Assign(Nones(|tokens|), WordIndices(tokens), alignment);
    AssignInBounds(Nones(|tokens|), WordIndices(tokens), alignment, m);
    PropagateFromMapped(mapped, tokens);
    var r := Propagate(mapped, tokens);
    assert forall k :: 0 <= k < |r| && r[k].Some? ==> r[k].value < m by {
      forall k | 0 <= k < |r| && r[k].Some? ensures r[k].value < m {
        var j :| 0 <= j < |mapped| && mapped[j] == r[k];
        assert mapped[j].Some? && mapped[j].value < m;
      }
    }
    r
  }

  /** For the aligner's own output: a word token ends up mapped to interval
      token `h` exactly when its reference word is paired with `h`, and
      matched plus missing is the number of word tokens. */
  lemma WordMappedIffPaired(tokens: seq<ScriptToken>, intervals: seq<IntervalToken>)
    ensures var alignment := Align(Reference(tokens), Hypothesis(intervals));
      InBounds(alignment, |WordIndices(tokens)|, |intervals|) &&
      Matched(alignment) + Missing(alignment) == |WordIndices(tokens)| &&
      forall r: nat, h: nat :: r < |WordIndices(tokens)| ==>
        (FinalIntervals(tokens, alignment, |intervals|)[WordIndices(tokens)[r]] == Some(h) <==> Pair(Some(r), Some(h)) in alignment)
  {
    var ref, hyp := Reference(tokens), Hypothesis(intervals);
    var alignment := Align(ref, hyp);
    var wi := WordIndices(tokens);
    AlignIsAlignment(ref, hyp);
    AlignmentInBounds(alignment, |ref|, |hyp|);
    MatchedPlusMissing(alignment, |ref|, |hyp|);
    AssignMatches(|tokens|, wi, alignment, |ref|, |hyp|);
    var mapped := Assign(Nones(|tokens|), wi, alignment);
    PropagateFacts(mapped, tokens);
  }

  /** An alignment of `n` and `m` words mentions only indices below them. */
  lemma AlignmentInBounds(alignment: seq<Pair>, n: nat, m: nat)
    requires IsAlignment(alignment, n, m)
    ensures InBounds(alignment, n, m)
  {
    forall p | p in alignment
      ensures (p.ref.Some? ==> p.ref.value < n) && (p.hyp.Some? ==> p.hyp.value < m)
    {
      if p.ref.Some? { RefsMember(alignment, p); }
      if p.hyp.Some? { HypsMember(alignment, p); }
    }
  }

  lemma {:induction false} HypsMember(alignment: seq<Pair>, q: Pair)
    requires q in alignment && q.hyp.Some?
    ensures q.hyp.value in Hyps(alignment)
  {
    var init := alignment[..|alignment| - 1];
    if q != alignment[|alignment| - 1] {
      assert q in init by {
        var k :| 0 <= k < |alignment| && alignment[k] == q;
        assert init[k] == q;
      }
      HypsMember(init, q);
    }
  }
}
