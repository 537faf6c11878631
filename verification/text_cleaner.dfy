/** `whisperx_alignment_test/scripts/text_cleaner.py`: the whitespace tail of
    `clean_script_for_alignment`, `split_into_sentences` and the greedy
    sentence packing of `prepare_segments`. The regular-expression removal
    passes that come first in `clean_script_for_alignment` are not part of
    this model: their output is the input here. */
module TextCleaner {
  import opened Text
  import opened Seqs

  // ------------------------------------------------------------ whitespace

  /** `re.sub(r'\s+', ' ', text)`: every run of whitespace becomes one space. */
  function CollapseRuns(s: string): (r: string)
    ensures SingleSpaced(r)
    ensures s == [] <==> r == []
    ensures s != [] && !IsSpace(s[0]) ==> r != [] && r[0] == s[0]
    ensures s != [] && IsSpace(s[0]) ==> r != [] && r[0] == ' '
    decreases |s|
  {
    if s == [] then []
    else if IsSpace(s[0]) then
      var rest := LStrip(s);
      LStripShape(s);
      " " + CollapseRuns(rest)
    else [s[0]] + CollapseRuns(s[1..])
  }

  /** The whitespace tail of `clean_script_for_alignment`:
      `re.sub(r'\s+', ' ', text).strip()`. */
  function Cleaned(text: string): (r: string)
    ensures CleanForm(r)
    ensures AllSpace(text) ==> r == []
  {
    var c := CollapseRuns(text);
    StripSingleSpaced(c);
    AllSpaceCollapses(text);
    RStrip(LStrip(c))
  }

  /** Stripping single-spaced text leaves it in clean form. */
  lemma StripSingleSpaced(c: string)
    requires SingleSpaced(c)
    ensures CleanForm(RStrip(LStrip(c)))
  {
    var l := LStrip(c);
    LStripShape(c);
    RStripShape(l);
    SuffixSingleSpaced(c, |c| - |l|);
    PrefixSingleSpaced(l, |RStrip(l)|);
  }

  lemma PrefixSingleSpaced(t: string, j: nat)
    requires SingleSpaced(t) && j <= |t|
    ensures SingleSpaced(t[..j])
  {
    var u := t[..j];
    forall k | 0 <= k < |u| && IsSpace(u[k])
      ensures u[k] == ' ' && (k + 1 < |u| ==> !IsSpace(u[k + 1]))
    {
      assert u[k] == t[k];
      assert k + 1 < |u| ==> u[k + 1] == t[k + 1];
    }
  }

  lemma {:induction false} AllSpaceCollapses(text: string)
    ensures AllSpace(text) ==> AllSpace(CollapseRuns(text)) && LStrip(CollapseRuns(text)) == []
    decreases |text|
  {
    if text != [] && AllSpace(text) {
      LStripAllSpace(text);
    }
    if AllSpace(text) {
      LStripAllSpace(CollapseRuns(text));
    }
  }

  lemma {:induction false} LStripAllSpace(s: string)
    requires AllSpace(s)
    ensures LStrip(s) == []
    decreases |s|
  {
    if s != [] {
      LStripAllSpace(s[1..]);
    }
  }

  // ------------------------------------------------------------ sentences

  predicate IsTerminal(c: char) { c == '.' || c == '!' || c == '?' }

  /** The first position `i >= from` (and `i >= 1`) where the pattern
      `(?<=[.!?])\s+` can start: whitespace right after `.`, `!` or `?`.
      `|s|` when there is none. */
  function BreakFrom(s: string, from: nat): (i: nat)
    requires from >= 1
    ensures from <= i || i == |s|
    ensures i <= |s|
    ensures i < |s| ==> IsTerminal(s[i - 1]) && IsSpace(s[i])
    ensures forall k :: from <= k < i && k < |s| ==> !(IsTerminal(s[k - 1]) && IsSpace(s[k]))
    decreases |s| - from
  {
    if from >= |s| then |s|
    else if IsTerminal(s[from - 1]) && IsSpace(s[from]) then from
    else BreakFrom(s, from + 1)
  }

  /** `re.split(r'(?<=[.!?])\s+', text)`: the pieces between the maximal
      whitespace runs that follow a sentence terminator. */
  function RegexSplit(s: string): (r: seq<string>)
    ensures |r| > 0
    decreases |s|
  {
    var i := BreakFrom(s, 1);
    if i >= |s| then [s]
    else [s[..i]] + RegexSplit(LStrip(s[i..]))
  }

  /** `[s.strip() for s in pieces if s.strip()]` */
  function NonBlank(pieces: seq<string>): (r: seq<string>)
    ensures forall k :: 0 <= k < |r| ==> r[k] != [] && Trimmed(r[k])
    ensures |r| <= |pieces|
  {
    if pieces == [] then []
    else
      var p := Strip(pieces[0]);
      (if p != [] then [p] else []) + NonBlank(pieces[1..])
  }

  /** `split_into_sentences`: never an empty or whitespace-padded sentence. */
  function SplitIntoSentences(text: string): (r: seq<string>)
    ensures forall k :: 0 <= k < |r| ==> r[k] != [] && Trimmed(r[k])
  {
    NonBlank(RegexSplit(text))
  }

  /** Splitting cleaned text into sentences and joining them with single
      spaces gives the text back: no sentence is lost or reordered. */
  lemma {:induction false} SentencesRoundTrip(t: string)
    requires CleanForm(t)
    ensures Join(" ", SplitIntoSentences(t)) == t
    ensures t == [] <==> SplitIntoSentences(t) == []
    decreases |t|
  {
    var i := BreakFrom(t, 1);
    if t == [] {
      RegexSplitWhole(t);
      NonBlankSingle(t);
    } else if i >= |t| {
      RegexSplitWhole(t);
      StripTrimmed(t);
      NonBlankSingle(t);
    } else {
      var head, rest := BreakStep(t);
      SentencesRoundTrip(rest);
      RegexSplitAtBreak(t);
      NonBlankCons(head, RegexSplit(rest));
      JoinCons(head, SplitIntoSentences(rest));
    }
  }

  lemma NonBlankSingle(p: string)
    ensures NonBlank([p]) == if Strip(p) != [] then [Strip(p)] else []
  {
    assert [p][1..] == [];
  }

  lemma RegexSplitWhole(s: string)
    requires BreakFrom(s, 1) >= |s|
    ensures RegexSplit(s) == [s]
  {
  }

  lemma RegexSplitAtBreak(s: string)
    requires BreakFrom(s, 1) < |s|
    ensures RegexSplit(s) == [s[..BreakFrom(s, 1)]] + RegexSplit(LStrip(s[BreakFrom(s, 1)..]))
  {
  }

  /** At a break, cleaned text is a trimmed sentence, one space, and more
      cleaned text. */
  lemma BreakStep(t: string) returns (head: string, rest: string)
    requires CleanForm(t) && BreakFrom(t, 1) < |t|
    ensures head == t[..BreakFrom(t, 1)] && LStrip(t[BreakFrom(t, 1)..]) == rest
    ensures head != [] && Trimmed(head) && CleanForm(rest) && rest != []
    ensures t == head + " " + rest
  {
    var i := BreakFrom(t, 1);
    head, rest := t[..i], t[i + 1..];
    LastNotBreak(t);
    assert t[i] == ' ';
    assert rest[0] == t[i + 1] && rest[|rest| - 1] == t[|t| - 1];
    SuffixSingleSpaced(t, i + 1);
    LStripOneSpace(t[i..], rest);
    Around(t, i);
  }

  /** A break never sits on the last character of trimmed text. */
  lemma LastNotBreak(t: string)
    requires Trimmed(t) && BreakFrom(t, 1) < |t|
    ensures BreakFrom(t, 1) + 1 < |t|
  {
    var i := BreakFrom(t, 1);
    assert IsSpace(t[i]);
    assert t[|t| - 1] != t[i] || i != |t| - 1;
  }

  lemma Around(t: string, i: nat)
    requires i < |t|
    ensures t == t[..i] + [t[i]] + t[i + 1..] && t[i..] == [t[i]] + t[i + 1..]
  {
  }

  lemma SuffixSingleSpaced(t: string, j: nat)
    requires SingleSpaced(t) && j <= |t|
    ensures SingleSpaced(t[j..])
  {
    var u := t[j..];
    forall k | 0 <= k < |u| && IsSpace(u[k])
      ensures u[k] == ' ' && (k + 1 < |u| ==> !IsSpace(u[k + 1]))
    {
      assert u[k] == t[j + k];
      assert k + 1 < |u| ==> u[k + 1] == t[j + k + 1];
    }
  }

  lemma LStripOneSpace(s: string, rest: string)
    requires |s| > 0 && IsSpace(s[0]) && s[1..] == rest && rest != [] && !IsSpace(rest[0])
    ensures LStrip(s) == rest
  {
  }

  lemma NonBlankCons(head: string, pieces: seq<string>)
    requires head != [] && Trimmed(head)
    ensures NonBlank([head] + pieces) == [head] + NonBlank(pieces)
  {
    StripTrimmed(head);
    assert ([head] + pieces)[1..] == pieces;
  }

  lemma JoinCons(head: string, parts: seq<string>)
    requires parts != []
    ensures Join(" ", [head] + parts) == head + " " + Join(" ", parts)
  {
    assert ([head] + parts)[1..] == parts;
  }

  // ------------------------------------------------------------ packing

  /** `len(sentence.split())` */
  function WordCount(s: string): nat { |SplitWs(s)| }

  function Words(group: seq<string>): nat {
    if group == [] then 0 else Words(group[..|group| - 1]) + WordCount(group[|group| - 1])
  }

  function Concat(groups: seq<seq<string>>): seq<string> {
    if groups == [] then [] else Concat(groups[..|groups| - 1]) + groups[|groups| - 1]
  }

  /** The text of each segment: its sentences joined by single spaces. */
  function Texts(groups: seq<seq<string>>): (r: seq<string>)
    ensures |r| == |groups| && forall k :: 0 <= k < |r| ==> r[k] == Join(" ", groups[k])
  {
    seq(|groups|, k requires 0 <= k < |groups| => Join(" ", groups[k]))
  }

  /** How `prepare_segments` groups sentences: no group is empty, a group of
      two or more sentences stays within the limit, and each group was
      closed only because the next sentence would have pushed it past the
      limit. */
  predicate Packed(groups: seq<seq<string>>, maxWords: int) {
    NoEmptyGroup(groups) && WithinLimit(groups, maxWords) && Greedy(groups, maxWords)
  }

  predicate NoEmptyGroup(groups: seq<seq<string>>) {
    forall k :: 0 <= k < |groups| ==> groups[k] != []
  }

  predicate WithinLimit(groups: seq<seq<string>>, maxWords: int) {
    forall k :: 0 <= k < |groups| && |groups[k]| >= 2 ==> Words(groups[k]) <= maxWords
  }

  predicate Greedy(groups: seq<seq<string>>, maxWords: int)
    requires NoEmptyGroup(groups)
  {
    forall k :: 0 <= k < |groups| - 1 ==> Words(groups[k]) + WordCount(groups[k + 1][0]) > maxWords
  }

  /** Joining the groups' texts equals joining all their sentences. */
  lemma {:induction false} JoinGroups(groups: seq<seq<string>>)
    requires forall k :: 0 <= k < |groups| ==> groups[k] != []
    ensures Join(" ", Texts(groups)) == Join(" ", Concat(groups))
    decreases |groups|
  {
    if |groups| > 1 {
      var init := groups[..|groups| - 1];
      var last := groups[|groups| - 1];
      JoinGroups(init);
      assert Texts(groups) == Texts(init) + [Join(" ", last)];
      JoinAppend(" ", Texts(init), Join(" ", last));
      assert Concat(init) != [] by {
        ConcatHasFirst(init);
      }
      JoinConcat(" ", Concat(init), last);
    } else if |groups| == 1 {
      assert groups[..0] == [];
      assert Concat(groups) == groups[0];
      assert Texts(groups) == [Join(" ", groups[0])];
    }
  }

  lemma {:induction false} ConcatHasFirst(groups: seq<seq<string>>)
    requires |groups| > 0 && forall k :: 0 <= k < |groups| ==> groups[k] != []
    ensures Concat(groups) != []
    decreases |groups|
  {
  }

  /** A sentence over the limit always forms a segment of its own. */
  lemma LongSentenceAlone(groups: seq<seq<string>>, maxWords: int, k: nat, j: nat)
    requires Packed(groups, maxWords) && k < |groups| && j < |groups[k]|
    requires WordCount(groups[k][j]) > maxWords
    ensures groups[k] == [groups[k][j]]
  {
    if |groups[k]| >= 2 {
      WordsAtLeast(groups[k], j);
    }
  }

  lemma {:induction false} WordsAtLeast(group: seq<string>, j: nat)
    requires j < |group|
    ensures WordCount(group[j]) <= Words(group)
    decreases |group|
  {
    if j < |group| - 1 {
      WordsAtLeast(group[..|group| - 1], j);
    }
  }

  /** The state of the packing loop between sentences: closed groups are
      packed, the open group `current` stays within the limit once it has
      two sentences, and it was opened because its first sentence did not
      fit the last closed group. */
  predicate Packing(groups: seq<seq<string>>, current: seq<string>, maxWords: int) {
    Packed(groups, maxWords) &&
    (|current| >= 2 ==> Words(current) <= maxWords) &&
    (groups != [] ==> current != [] && Words(groups[|groups| - 1]) + WordCount(current[0]) > maxWords)
  }

  /** Closing a non-empty open group keeps the closed groups packed. */
  lemma CloseGroup(groups: seq<seq<string>>, current: seq<string>, maxWords: int)
    requires Packing(groups, current, maxWords) && current != []
    ensures Packed(groups + [current], maxWords)
    ensures Concat(groups + [current]) == Concat(groups) + current
    ensures Texts(groups + [current]) == Texts(groups) + [Join(" ", current)]
  {
    var g := groups + [current];
    assert g[..|g| - 1] == groups;
    CloseNoEmpty(groups, current);
    CloseWithin(groups, current, maxWords);
    CloseGreedy(groups, current, maxWords);
    TextsSnoc(groups, current);
  }

  lemma TextsSnoc(groups: seq<seq<string>>, current: seq<string>)
    ensures Texts(groups + [current]) == Texts(groups) + [Join(" ", current)]
  {
    var g := groups + [current];
    assert forall k :: 0 <= k < |groups| ==> g[k] == groups[k];
  }

  lemma CloseNoEmpty(groups: seq<seq<string>>, current: seq<string>)
    requires NoEmptyGroup(groups) && current != []
    ensures NoEmptyGroup(groups + [current])
  {
    var g := groups + [current];
    forall k | 0 <= k < |g| ensures g[k] != [] {
      if k < |groups| {
        assert g[k] == groups[k];
      }
    }
  }

  lemma CloseWithin(groups: seq<seq<string>>, current: seq<string>, maxWords: int)
    requires WithinLimit(groups, maxWords) && (|current| >= 2 ==> Words(current) <= maxWords)
    ensures WithinLimit(groups + [current], maxWords)
  {
    var g := groups + [current];
    forall k | 0 <= k < |g| && |g[k]| >= 2 ensures Words(g[k]) <= maxWords {
      if k < |groups| {
        assert g[k] == groups[k];
      }
    }
  }

  lemma CloseGreedy(groups: seq<seq<string>>, current: seq<string>, maxWords: int)
    requires NoEmptyGroup(groups) && Greedy(groups, maxWords) && current != []
    requires groups != [] ==> Words(groups[|groups| - 1]) + WordCount(current[0]) > maxWords
    requires NoEmptyGroup(groups + [current])
    ensures Greedy(groups + [current], maxWords)
  {
    var g := groups + [current];
    forall k | 0 <= k < |g| - 1
      ensures Words(g[k]) + WordCount(g[k + 1][0]) > maxWords
    {
      assert g[k] == groups[k];
      if k + 1 < |groups| {
        assert g[k + 1] == groups[k + 1];
        assert Words(groups[k]) + WordCount(groups[k + 1][0]) > maxWords;
      } else {
        assert k == |groups| - 1 && g[k + 1] == current;
      }
    }
  }

  /** The sentence that does not fit opens a new group. */
  lemma OpenGroup(groups: seq<seq<string>>, current: seq<string>, sentence: string, maxWords: int)
    requires Packing(groups, current, maxWords) && current != []
    requires Words(current) + WordCount(sentence) > maxWords
    ensures Packing(groups + [current], [sentence], maxWords)
    ensures Words([sentence]) == WordCount(sentence)
    ensures Concat(groups + [current]) + [sentence] == Concat(groups) + current + [sentence]
    ensures Texts(groups + [current]) == Texts(groups) + [Join(" ", current)]
  {
    CloseGroup(groups, current, maxWords);
    assert [sentence][..0] == [];
  }

  /** The sentence that fits (or starts the very first group) joins the open group. */
  lemma ExtendGroup(groups: seq<seq<string>>, current: seq<string>, sentence: string, maxWords: int)
    requires Packing(groups, current, maxWords)
    requires current == [] || Words(current) + WordCount(sentence) <= maxWords
    ensures Packing(groups, current + [sentence], maxWords)
    ensures Words(current + [sentence]) == Words(current) + WordCount(sentence)
    ensures Concat(groups) + (current + [sentence]) == Concat(groups) + current + [sentence]
  {
    var c := current + [sentence];
    assert c[..|c| - 1] == current;
    assert current != [] ==> c[0] == current[0];
  }

  /** The open group is closed before a sentence that would take it past the limit. */
  predicate Overflows(count: nat, sentenceWordCount: nat, current: seq<string>, maxWords: int) {
    count + sentenceWordCount > maxWords && current != []
  }

  /** One turn of the packing loop of `prepare_segments`: close the open
      group when the sentence would push it past the limit, then add the
      sentence to the open group. */
  method PackStep(ghost groups: seq<seq<string>>, current: seq<string>, segments: seq<string>, count: nat, sentence: string, maxWords: int)
    returns (ghost groups': seq<seq<string>>, current': seq<string>, segments': seq<string>, count': nat)
    requires Packing(groups, current, maxWords) && segments == Texts(groups) && count == Words(current)
    ensures Packing(groups', current', maxWords) && segments' == Texts(groups') && count' == Words(current')
    ensures Concat(groups') + current' == Concat(groups) + current + [sentence]
    ensures (groups', current') == PackTurn(groups, current, sentence, maxWords)
  {
    var sentenceWordCount := WordCount(sentence);
    if Overflows(count, sentenceWordCount, current, maxWords) {
      OpenGroup(groups, current, sentence, maxWords);
      segments', groups' := segments + [Join(" ", current)], groups + [current];
      current', count' := [sentence], sentenceWordCount;
    } else {
      ExtendGroup(groups, current, sentence, maxWords);
      segments', groups' := segments, groups;
      current', count' := current + [sentence], count + sentenceWordCount;
    }
  }

  /** One turn of the packing loop on the closed groups and the open one. */
  function PackTurn(groups: seq<seq<string>>, current: seq<string>, sentence: string, maxWords: int): (seq<seq<string>>, seq<string>) {
    if Overflows(Words(current), WordCount(sentence), current, maxWords) then (groups + [current], [sentence])
    else (groups, current + [sentence])
  }

  /** The closed groups and the open group after the packing loop has
      taken every sentence. */
  function PackFold(sentences: seq<string>, maxWords: int): (seq<seq<string>>, seq<string>) {
    if sentences == [] then ([], [])
    else
      var (groups, current) := PackFold(sentences[..|sentences| - 1], maxWords);
      PackTurn(groups, current, sentences[|sentences| - 1], maxWords)
  }

  /** The groups `prepare_segments` packs the sentences into: the closed
      groups, then the open one when it holds a sentence. */
  function PackedGroups(sentences: seq<string>, maxWords: int): seq<seq<string>> {
    var (groups, current) := PackFold(sentences, maxWords);
    if current != [] then groups + [current] else groups
  }

  /** The packing loop's state after the sentences `done`. */
  predicate PackedSoFar(done: seq<string>, groups: seq<seq<string>>, current: seq<string>, segments: seq<string>, count: nat, maxWords: int) {
    Concat(groups) + current == done &&
    segments == Texts(groups) && Packing(groups, current, maxWords) &&
    count == Words(current)
  }

  lemma PackStart(sentences: seq<string>, maxWords: int)
    ensures PackedSoFar(sentences[..0], [], [], [], 0, maxWords)
  {
    assert Concat([]) + [] == sentences[..0];
  }

  /** The packing loop of `prepare_segments` over the sentences. */
  method Pack(sentences: seq<string>, maxWords: int) returns (segments: seq<string>, ghost groups: seq<seq<string>>)
    ensures segments == Texts(PackedGroups(sentences, maxWords))
    ensures groups == PackedGroups(sentences, maxWords)
    ensures Concat(groups) == sentences
    ensures segments == Texts(groups) && Packed(groups, maxWords)
  {
    segments, groups := [], [];
    var current: seq<string> := [];
    var currentWordCount := 0;
    PackStart(sentences, maxWords);
    for t := 0 to |sentences|
      invariant PackedSoFar(sentences[..t], groups, current, segments, currentWordCount, maxWords)
      invariant PackFold(sentences[..t], maxWords) == (groups, current)
    {
      TakeSnoc(sentences, t);
      assert sentences[..t + 1][..t] == sentences[..t];
      groups, current, segments, currentWordCount := PackStep(groups, current, segments, currentWordCount, sentences[t], maxWords);
    }
    assert sentences[..|sentences|] == sentences;
    if current != [] {
      CloseGroup(groups, current, maxWords);
      segments := segments + [Join(" ", current)];
      groups := groups + [current];
    } else {
      assert Concat(groups) + current == Concat(groups);
    }
  }

  /** Every segment text is non-empty when every sentence is, and there are
      no segments exactly when there are no sentences. */
  lemma GroupsNonEmpty(groups: seq<seq<string>>, sentences: seq<string>)
    requires Concat(groups) == sentences
    requires forall k :: 0 <= k < |groups| ==> groups[k] != []
    requires forall k :: 0 <= k < |sentences| ==> sentences[k] != []
    ensures forall k :: 0 <= k < |groups| ==> Join(" ", groups[k]) != []
    ensures groups == [] <==> sentences == []
  {
    forall k | 0 <= k < |groups|
      ensures Join(" ", groups[k]) != []
    {
      ConcatContains(groups, k);
      JoinNonEmpty(" ", groups[k]);
    }
    if groups != [] {
      ConcatHasFirst(groups);
    }
  }

  lemma {:induction false} ConcatContains(groups: seq<seq<string>>, k: nat)
    requires k < |groups| && groups[k] != []
    ensures groups[k][0] in Concat(groups)
    decreases |groups|
  {
    if k < |groups| - 1 {
      ConcatContains(groups[..|groups| - 1], k);
    }
  }

  lemma JoinNonEmpty(sep: string, parts: seq<string>)
    requires parts != [] && parts[0] != []
    ensures Join(sep, parts) != []
  {
  }

  /** `prepare_segments` on the text left by the removal passes: the
      segment texts, with the sentence groups they were joined from. */
  method PrepareSegments(removed: string, maxWords: int) returns (segments: seq<string>, ghost groups: seq<seq<string>>)
    ensures segments == Texts(PackedGroups(SplitIntoSentences(Cleaned(removed)), maxWords))
    ensures Concat(groups) == SplitIntoSentences(Cleaned(removed))
    ensures segments == Texts(groups) && Packed(groups, maxWords)
    ensures forall k :: 0 <= k < |segments| ==> segments[k] != []
    ensures Join(" ", segments) == Cleaned(removed)
    ensures Cleaned(removed) == [] <==> segments == []
  {
    var cleanText := Cleaned(removed);
    var sentences := SplitIntoSentences(cleanText);
    segments, groups := Pack(sentences, maxWords);
    SentencesRoundTrip(cleanText);
    JoinGroups(groups);
    GroupsNonEmpty(groups, sentences);
  }
}
