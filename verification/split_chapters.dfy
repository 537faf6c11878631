/** `scripts/split_chapters.py`: splitting over-long chapters into chunks of
    paragraphs with word-count budgets. Word counts are `len(text.split())`
    (`TextCleaner.WordCount`); sentence splitting is the same
    `(?<=[.!?])\s+` split as `TextCleaner.SplitIntoSentences`. Reading and
    writing files are left out: a chapter is its text, and the files
    written are the (name, text) pairs handed to `write_text`. */
module SplitChapters {
  import opened Text
  import opened TextCleaner
  import opened Seqs
  import opened Wrappers

  // ------------------------------------------------------------ greedy chunking

  /** The state of the chunking loops of `split_long_paragraph` and
      `build_chunks`: the closed chunks, the open one and its word count. */
  datatype Acc = Acc(closed: seq<seq<string>>, current: seq<string>, count: nat)

  /** The first half of one turn: the open chunk is closed before a piece
      that would push it past `maxWords`, unless it holds fewer than
      `minWords` words; otherwise the piece joins it. (`build_chunks` has
      no minimum, which is `minWords == 0`: a count is never below 0.) */
  function Grow(acc: Acc, piece: string, minWords: int, maxWords: int): (r: Acc)
    ensures r.current != []
  {
    var words := WordCount(piece);
    if acc.current != [] && acc.count + words > maxWords && acc.count >= minWords then
      Acc(acc.closed + [acc.current], [piece], words)
    else
      Acc(acc.closed, acc.current + [piece], acc.count + words)
  }

  /** The second half: a chunk that has reached `targetWords` is closed. */
  function CloseIfFull(acc: Acc, targetWords: int): Acc {
    if acc.count >= targetWords then Acc(acc.closed + [acc.current], [], 0) else acc
  }

  function Step(acc: Acc, piece: string, targetWords: int, minWords: int, maxWords: int): Acc {
    CloseIfFull(Grow(acc, piece, minWords, maxWords), targetWords)
  }

  /** The loop state after the given pieces. */
  function Fold(pieces: seq<string>, targetWords: int, minWords: int, maxWords: int): Acc {
    if pieces == [] then Acc([], [], 0)
    else Step(Fold(pieces[..|pieces| - 1], targetWords, minWords, maxWords), pieces[|pieces| - 1], targetWords, minWords, maxWords)
  }

  /** The chunks once the loop is over: the open chunk is closed if it is
      not empty. */
  function Groups(pieces: seq<string>, targetWords: int, minWords: int, maxWords: int): seq<seq<string>> {
    var acc := Fold(pieces, targetWords, minWords, maxWords);
    if acc.current != [] then acc.closed + [acc.current] else acc.closed
  }

  /** Inside a chunk: no proper prefix has reached `targetWords` (a chunk
      closes as soon as it does), and a piece that took a prefix past
      `maxWords` was only added because the prefix was below `minWords`. */
  predicate PrefixRule(g: seq<string>, targetWords: int, minWords: int, maxWords: int) {
    forall j :: 1 <= j < |g| ==>
      Words(g[..j]) < targetWords && (Words(g[..j]) + WordCount(g[j]) > maxWords ==> Words(g[..j]) < minWords)
  }

  /** Why a chunk was closed before `next`: it reached the target, or it had
      at least `minWords` words and `next` would have pushed it past
      `maxWords`. */
  predicate ClosedFor(g: seq<string>, next: string, targetWords: int, minWords: int, maxWords: int) {
    Words(g) >= targetWords || (Words(g) >= minWords && Words(g) + WordCount(next) > maxWords)
  }

  /** The chunks the loops produce: none empty, each obeying the prefix
      rule, and each but the last closed for a reason. */
  predicate Chunked(groups: seq<seq<string>>, targetWords: int, minWords: int, maxWords: int) {
    NoEmptyGroup(groups) &&
    AllPrefixRule(groups, targetWords, minWords, maxWords) &&
    AllClosedFor(groups, targetWords, minWords, maxWords)
  }

  predicate AllPrefixRule(groups: seq<seq<string>>, targetWords: int, minWords: int, maxWords: int) {
    forall k :: 0 <= k < |groups| ==> PrefixRule(groups[k], targetWords, minWords, maxWords)
  }

  predicate AllClosedFor(groups: seq<seq<string>>, targetWords: int, minWords: int, maxWords: int)
    requires NoEmptyGroup(groups)
  {
    forall k :: 0 <= k < |groups| - 1 ==> ClosedFor(groups[k], groups[k + 1][0], targetWords, minWords, maxWords)
  }

  /** The last closed chunk was closed for a reason: it reached the target,
      or the first piece of the open chunk overflowed it. */
  predicate LastClosed(acc: Acc, targetWords: int, minWords: int, maxWords: int)
    requires acc.closed != []
  {
    var last := acc.closed[|acc.closed| - 1];
    Words(last) >= targetWords || (acc.current != [] && ClosedFor(last, acc.current[0], targetWords, minWords, maxWords))
  }

  /** The shape of the loop state between two turns: the closed chunks obey
      the rules, and so does the open chunk, which is below the target. */
  predicate Sound(acc: Acc, targetWords: int, minWords: int, maxWords: int) {
    Chunked(acc.closed, targetWords, minWords, maxWords) &&
    PrefixRule(acc.current, targetWords, minWords, maxWords) &&
    (acc.current != [] ==> acc.count < targetWords) &&
    (acc.closed != [] ==> LastClosed(acc, targetWords, minWords, maxWords))
  }

  /** The loop state holds the pieces seen so far, in order, and the word
      count of its open chunk. */
  predicate Holds(acc: Acc, pieces: seq<string>) {
    Concat(acc.closed) + acc.current == pieces && acc.count == Words(acc.current)
  }

  lemma WordsSnoc(g: seq<string>, piece: string)
    ensures Words(g + [piece]) == Words(g) + WordCount(piece)
    ensures (g + [piece])[..|g|] == g
  {
    InitOfSnoc(g, piece);
  }

  lemma WordsOne(piece: string)
    ensures Words([piece]) == WordCount(piece)
  {
    assert [piece][..0] == [];
  }

  lemma ConcatSnoc(groups: seq<seq<string>>, g: seq<string>)
    ensures Concat(groups + [g]) == Concat(groups) + g
  {
    InitOfSnoc(groups, g);
  }

  /** Adding a piece that the prefix rule allows keeps the rule. */
  lemma PrefixRuleSnoc(g: seq<string>, piece: string, targetWords: int, minWords: int, maxWords: int)
    requires PrefixRule(g, targetWords, minWords, maxWords)
    requires g != [] ==> Words(g) < targetWords
    requires g != [] && Words(g) + WordCount(piece) > maxWords ==> Words(g) < minWords
    ensures PrefixRule(g + [piece], targetWords, minWords, maxWords)
  {
    var h := g + [piece];
    forall j | 1 <= j < |h|
      ensures Words(h[..j]) < targetWords && (Words(h[..j]) + WordCount(h[j]) > maxWords ==> Words(h[..j]) < minWords)
    {
      if j < |g| {
        assert h[..j] == g[..j];
        assert h[j] == g[j];
      } else {
        assert h[..j] == g;
        assert h[j] == piece;
      }
    }
  }

  /** Closing a chunk that was closed for a reason keeps the chunks sound. */
  lemma ChunkedSnoc(groups: seq<seq<string>>, g: seq<string>, targetWords: int, minWords: int, maxWords: int)
    requires Chunked(groups, targetWords, minWords, maxWords)
    requires g != [] && PrefixRule(g, targetWords, minWords, maxWords)
    requires groups != [] ==> ClosedFor(groups[|groups| - 1], g[0], targetWords, minWords, maxWords)
    ensures Chunked(groups + [g], targetWords, minWords, maxWords)
  {
    CloseNoEmpty(groups, g);
    PrefixRulesSnoc(groups, g, targetWords, minWords, maxWords);
    ClosedForSnoc(groups, g, targetWords, minWords, maxWords);
  }

  lemma PrefixRulesSnoc(groups: seq<seq<string>>, g: seq<string>, targetWords: int, minWords: int, maxWords: int)
    requires AllPrefixRule(groups, targetWords, minWords, maxWords)
    requires PrefixRule(g, targetWords, minWords, maxWords)
    ensures AllPrefixRule(groups + [g], targetWords, minWords, maxWords)
  {
    var h := groups + [g];
    forall k | 0 <= k < |h|
      ensures PrefixRule(h[k], targetWords, minWords, maxWords)
    {
      if k < |groups| {
        assert h[k] == groups[k];
      }
    }
  }

  lemma ClosedForSnoc(groups: seq<seq<string>>, g: seq<string>, targetWords: int, minWords: int, maxWords: int)
    requires NoEmptyGroup(groups) && AllClosedFor(groups, targetWords, minWords, maxWords)
    requires g != [] && NoEmptyGroup(groups + [g])
    requires groups != [] ==> ClosedFor(groups[|groups| - 1], g[0], targetWords, minWords, maxWords)
    ensures AllClosedFor(groups + [g], targetWords, minWords, maxWords)
  {
    var h := groups + [g];
    forall k | 0 <= k < |h| - 1
      ensures ClosedFor(h[k], h[k + 1][0], targetWords, minWords, maxWords)
    {
      assert h[k] == groups[k];
      if k + 1 < |groups| {
        assert h[k + 1] == groups[k + 1];
      }
    }
  }

  /** Closing the open chunk keeps the closed chunks sound. */
  lemma CloseOpen(acc: Acc, targetWords: int, minWords: int, maxWords: int)
    requires Chunked(acc.closed, targetWords, minWords, maxWords) && acc.current != []
    requires PrefixRule(acc.current, targetWords, minWords, maxWords)
    requires acc.closed != [] ==> LastClosed(acc, targetWords, minWords, maxWords)
    ensures Chunked(acc.closed + [acc.current], targetWords, minWords, maxWords)
  {
    if acc.closed != [] {
      assert ClosedFor(acc.closed[|acc.closed| - 1], acc.current[0], targetWords, minWords, maxWords);
    }
    ChunkedSnoc(acc.closed, acc.current, targetWords, minWords, maxWords);
  }

  lemma GrowHolds(acc: Acc, pieces: seq<string>, piece: string, minWords: int, maxWords: int)
    requires Holds(acc, pieces)
    ensures Holds(Grow(acc, piece, minWords, maxWords), pieces + [piece])
  {
    if acc.current != [] && acc.count + WordCount(piece) > maxWords && acc.count >= minWords {
      ConcatSnoc(acc.closed, acc.current);
      WordsSnoc([], piece);
    } else {
      WordsSnoc(acc.current, piece);
    }
  }

  lemma CloseHolds(acc: Acc, pieces: seq<string>, targetWords: int)
    requires Holds(acc, pieces)
    ensures Holds(CloseIfFull(acc, targetWords), pieces)
  {
    if acc.count >= targetWords {
      ConcatSnoc(acc.closed, acc.current);
    }
  }

  /** After the first half of a turn the state has the shape of a sound
      one, except that the open chunk may have reached the target. */
  lemma GrowSound(acc: Acc, piece: string, targetWords: int, minWords: int, maxWords: int)
    requires Sound(acc, targetWords, minWords, maxWords) && acc.count == Words(acc.current)
    ensures var next := Grow(acc, piece, minWords, maxWords);
      Chunked(next.closed, targetWords, minWords, maxWords) &&
      PrefixRule(next.current, targetWords, minWords, maxWords) &&
      (next.closed != [] ==> LastClosed(next, targetWords, minWords, maxWords))
  {
    var words := WordCount(piece);
    if acc.current != [] && acc.count + words > maxWords && acc.count >= minWords {
      CloseOpen(acc, targetWords, minWords, maxWords);
      PrefixRuleSnoc([], piece, targetWords, minWords, maxWords);
      assert [] + [piece] == [piece];
    } else {
      PrefixRuleSnoc(acc.current, piece, targetWords, minWords, maxWords);
      if acc.current != [] {
        assert (acc.current + [piece])[0] == acc.current[0];
      }
    }
  }

  lemma StepSound(acc: Acc, piece: string, targetWords: int, minWords: int, maxWords: int)
    requires Sound(acc, targetWords, minWords, maxWords) && acc.count == Words(acc.current)
    ensures Sound(Step(acc, piece, targetWords, minWords, maxWords), targetWords, minWords, maxWords)
  {
    var mid := Grow(acc, piece, minWords, maxWords);
    GrowSound(acc, piece, targetWords, minWords, maxWords);
    if mid.count >= targetWords {
      CloseOpen(mid, targetWords, minWords, maxWords);
    }
  }

  /** Every state of the loop holds the pieces seen so far and is sound. */
  lemma {:induction false} FoldSound(pieces: seq<string>, targetWords: int, minWords: int, maxWords: int)
    ensures Holds(Fold(pieces, targetWords, minWords, maxWords), pieces)
    ensures Sound(Fold(pieces, targetWords, minWords, maxWords), targetWords, minWords, maxWords)
    decreases |pieces|
  {
    if pieces != [] {
      var init := pieces[..|pieces| - 1];
      var piece := pieces[|pieces| - 1];
      FoldSound(init, targetWords, minWords, maxWords);
      var acc := Fold(init, targetWords, minWords, maxWords);
      GrowHolds(acc, init, piece, minWords, maxWords);
      CloseHolds(Grow(acc, piece, minWords, maxWords), init + [piece], targetWords);
      StepSound(acc, piece, targetWords, minWords, maxWords);
      InitLast(pieces);
    }
  }

  /** The chunks keep every piece, in order, and obey the chunking rules. */
  lemma GroupsChunked(pieces: seq<string>, targetWords: int, minWords: int, maxWords: int)
    ensures Concat(Groups(pieces, targetWords, minWords, maxWords)) == pieces
    ensures Chunked(Groups(pieces, targetWords, minWords, maxWords), targetWords, minWords, maxWords)
  {
    var acc := Fold(pieces, targetWords, minWords, maxWords);
    FoldSound(pieces, targetWords, minWords, maxWords);
    if acc.current != [] {
      CloseOpen(acc, targetWords, minWords, maxWords);
      ConcatSnoc(acc.closed, acc.current);
    }
  }

  // ------------------------------------------------------------ split_long_paragraph

  /** `re.sub(r"\s+", " ", paragraph.strip())` */
  function Collapsed(paragraph: string): (r: string)
    ensures CleanForm(r)
    ensures r == [] <==> Strip(paragraph) == []
  {
    var s := Strip(paragraph);
    CollapseTrimmed(s);
    CollapseRuns(s)
  }

  lemma CollapseTrimmed(s: string)
    requires Trimmed(s)
    ensures Trimmed(CollapseRuns(s))
  {
    if s != [] {
      CollapseLast(s);
    }
  }

  /** Collapsing whitespace runs keeps a last character that is not
      whitespace. */
  lemma {:induction false} CollapseLast(s: string)
    requires s != [] && !IsSpace(s[|s| - 1])
    ensures CollapseRuns(s) != [] && CollapseRuns(s)[|CollapseRuns(s)| - 1] == s[|s| - 1]
    decreases |s|
  {
    if IsSpace(s[0]) {
      var rest := LStrip(s);
      LStripShape(s);
      assert rest != [] && rest[|rest| - 1] == s[|s| - 1];
      CollapseLast(rest);
    } else if |s| > 1 {
      CollapseLast(s[1..]);
    }
  }

  /** `" ".join(current).strip()` for each closed chunk. */
  function Joined(groups: seq<seq<string>>): (r: seq<string>)
    ensures |r| == |groups|
  {
    if groups == [] then [] else Joined(groups[..|groups| - 1]) + [Strip(Join(" ", groups[|groups| - 1]))]
  }

  lemma JoinedSnoc(groups: seq<seq<string>>, g: seq<string>)
    ensures Joined(groups + [g]) == Joined(groups) + [Strip(Join(" ", g))]
  {
    InitOfSnoc(groups, g);
  }

  lemma {:induction false} JoinedAt(groups: seq<seq<string>>, k: nat)
    requires k < |groups|
    ensures Joined(groups)[k] == Strip(Join(" ", groups[k]))
    decreases |groups|
  {
    var n := |groups| - 1;
    var init := Joined(groups[..n]);
    var last := Strip(Join(" ", groups[n]));
    assert Joined(groups) == init + [last];
    if k < n {
      JoinedAt(groups[..n], k);
      assert (init + [last])[k] == init[k];
    } else {
      assert (init + [last])[|init|] == last;
    }
  }

  /** `[chunk for chunk in chunks if chunk]` */
  function NonEmptyOnly(chunks: seq<string>): (r: seq<string>)
    ensures forall k :: 0 <= k < |r| ==> r[k] != [] && r[k] in chunks
  {
    if chunks == [] then []
    else NonEmptyOnly(chunks[..|chunks| - 1]) + (if chunks[|chunks| - 1] != [] then [chunks[|chunks| - 1]] else [])
  }

  /** Nothing is dropped when no chunk is empty. */
  lemma {:induction false} NonEmptyOnlyKeepsAll(chunks: seq<string>)
    requires forall k :: 0 <= k < |chunks| ==> chunks[k] != []
    ensures NonEmptyOnly(chunks) == chunks
    decreases |chunks|
  {
    if chunks != [] {
      NonEmptyOnlyKeepsAll(chunks[..|chunks| - 1]);
      InitLast(chunks);
    }
  }

  /** `split_long_paragraph`: the whitespace-collapsed paragraph cut into
      sentences, packed greedily into chunks. A blank paragraph, or one
      without sentences, comes back as it is. */
  function SplitLong(paragraph: string, targetWords: int, minWords: int, maxWords: int): seq<string> {
    var cleaned := Collapsed(paragraph);
    if cleaned == [] then [paragraph]
    else
      var sentences := SplitIntoSentences(cleaned);
      if sentences == [] then [paragraph]
      else NonEmptyOnly(Joined(Groups(sentences, targetWords, minWords, maxWords)))
  }

  /** Joining the sentences of a group gives trimmed, non-empty text when
      they are all trimmed and non-empty. */
  lemma {:induction false} JoinTrimmed(sep: string, parts: seq<string>)
    requires parts != [] && forall k :: 0 <= k < |parts| ==> parts[k] != [] && Trimmed(parts[k])
    ensures Join(sep, parts) != [] && Trimmed(Join(sep, parts))
    decreases |parts|
  {
    if |parts| > 1 {
      JoinTrimmed(sep, parts[1..]);
    }
  }

  lemma {:induction false} ConcatHas(groups: seq<seq<string>>, k: nat, j: nat)
    requires k < |groups| && j < |groups[k]|
    ensures groups[k][j] in Concat(groups)
    decreases |groups|
  {
    if k < |groups| - 1 {
      ConcatHas(groups[..|groups| - 1], k, j);
    }
  }

  /** Over sentences that are trimmed and non-empty, stripping the joined
      chunks changes nothing: each is its sentences joined by spaces, and
      none is empty. */
  lemma JoinedTexts(groups: seq<seq<string>>, sentences: seq<string>)
    requires Concat(groups) == sentences && NoEmptyGroup(groups)
    requires forall k :: 0 <= k < |sentences| ==> sentences[k] != [] && Trimmed(sentences[k])
    ensures Joined(groups) == Texts(groups)
    ensures forall k :: 0 <= k < |groups| ==> Joined(groups)[k] != [] && Trimmed(Joined(groups)[k])
  {
    forall k | 0 <= k < |groups|
      ensures Joined(groups)[k] == Join(" ", groups[k]) && Join(" ", groups[k]) != [] && Trimmed(Join(" ", groups[k]))
    {
      forall j | 0 <= j < |groups[k]|
        ensures groups[k][j] != [] && Trimmed(groups[k][j])
      {
        ConcatHas(groups, k, j);
      }
      JoinTrimmed(" ", groups[k]);
      StripTrimmed(Join(" ", groups[k]));
      JoinedAt(groups, k);
    }
  }

  /** A blank paragraph comes back unchanged; otherwise the chunks are
      non-empty, trimmed, and joined with single spaces they give back the
      whitespace-collapsed paragraph. */
  lemma SplitLongRoundTrip(paragraph: string, targetWords: int, minWords: int, maxWords: int)
    ensures Strip(paragraph) == [] ==> SplitLong(paragraph, targetWords, minWords, maxWords) == [paragraph]
    ensures Strip(paragraph) != [] ==>
      var r := SplitLong(paragraph, targetWords, minWords, maxWords);
      r != [] && Join(" ", r) == Collapsed(paragraph) &&
      forall k :: 0 <= k < |r| ==> r[k] != [] && Trimmed(r[k])
  {
    var cleaned := Collapsed(paragraph);
    if cleaned != [] {
      var sentences := SplitIntoSentences(cleaned);
      SentencesRoundTrip(cleaned);
      var groups := Groups(sentences, targetWords, minWords, maxWords);
      GroupsChunked(sentences, targetWords, minWords, maxWords);
      JoinedTexts(groups, sentences);
      NonEmptyOnlyKeepsAll(Joined(groups));
      JoinGroups(groups);
      ConcatHasFirst(groups);
    }
  }

  /** The chunks of a paragraph with words are its sentences grouped by the
      chunking rules, in order. */
  lemma SplitLongChunks(paragraph: string, targetWords: int, minWords: int, maxWords: int)
    requires Strip(paragraph) != []
    ensures var sentences := SplitIntoSentences(Collapsed(paragraph));
      var groups := Groups(sentences, targetWords, minWords, maxWords);
      SplitLong(paragraph, targetWords, minWords, maxWords) == Texts(groups) &&
      Concat(groups) == sentences && Chunked(groups, targetWords, minWords, maxWords)
  {
    var cleaned := Collapsed(paragraph);
    var sentences := SplitIntoSentences(cleaned);
    SentencesRoundTrip(cleaned);
    var groups := Groups(sentences, targetWords, minWords, maxWords);
    GroupsChunked(sentences, targetWords, minWords, maxWords);
    JoinedTexts(groups, sentences);
    NonEmptyOnlyKeepsAll(Joined(groups));
  }

  /** One turn of the loop of `split_long_paragraph`. */
  method SentenceStep(chunks: seq<string>, current: seq<string>, currentWords: nat, sentence: string,
                      targetWords: int, minWords: int, maxWords: int, ghost acc: Acc)
    returns (chunks': seq<string>, current': seq<string>, currentWords': nat)
    requires chunks == Joined(acc.closed) && current == acc.current && currentWords == acc.count
    ensures var next := Step(acc, sentence, targetWords, minWords, maxWords);
      chunks' == Joined(next.closed) && current' == next.current && currentWords' == next.count
  {
    var words := WordCount(sentence);
    if current != [] && currentWords + words > maxWords {
      if currentWords < minWords {
        chunks', current', currentWords' := chunks, current + [sentence], currentWords + words;
      } else {
        JoinedSnoc(acc.closed, current);
        chunks', current', currentWords' := chunks + [Strip(Join(" ", current))], [sentence], words;
      }
    } else {
      chunks', current', currentWords' := chunks, current + [sentence], currentWords + words;
    }
    ghost var mid := Grow(acc, sentence, minWords, maxWords);
    assert chunks' == Joined(mid.closed) && current' == mid.current && currentWords' == mid.count;
    if currentWords' >= targetWords {
      JoinedSnoc(mid.closed, current');
      chunks', current', currentWords' := chunks' + [Strip(Join(" ", current'))], [], 0;
    }
  }

  /** The loop of `split_long_paragraph` and the closing of its last chunk. */
  method ChunkSentences(sentences: seq<string>, targetWords: int, minWords: int, maxWords: int)
    returns (chunks: seq<string>)
    ensures chunks == Joined(Groups(sentences, targetWords, minWords, maxWords))
  {
    chunks := [];
    var current: seq<string> := [];
    var currentWords: nat := 0;
    for i := 0 to |sentences|
      invariant var acc := Fold(sentences[..i], targetWords, minWords, maxWords);
        chunks == Joined(acc.closed) && current == acc.current && currentWords == acc.count
    {
      TakeSnoc(sentences, i);
      InitOfSnoc(sentences[..i], sentences[i]);
      chunks, current, currentWords := SentenceStep(chunks, current, currentWords, sentences[i],
        targetWords, minWords, maxWords, Fold(sentences[..i], targetWords, minWords, maxWords));
    }
    TakeAll(sentences);
    if current != [] {
      JoinedSnoc(Fold(sentences, targetWords, minWords, maxWords).closed, current);
      chunks := chunks + [Strip(Join(" ", current))];
    }
  }

  method SplitLongParagraph(paragraph: string, targetWords: int, minWords: int, maxWords: int)
    returns (r: seq<string>)
    ensures r == SplitLong(paragraph, targetWords, minWords, maxWords)
  {
    var cleaned := Collapsed(paragraph);
    if cleaned == [] {
      r := [paragraph];
    } else {
      var sentences := SplitIntoSentences(cleaned);
      if sentences == [] {
        r := [paragraph];
      } else {
        var chunks := ChunkSentences(sentences, targetWords, minWords, maxWords);
        r := NonEmptyOnly(chunks);
      }
    }
  }

  // ------------------------------------------------------------ expand_paragraphs

  /** What `expand_paragraphs` makes of one paragraph: nothing when blank,
      the chunks of `split_long_paragraph` when it has more than
      `maxWords` words, and the stripped paragraph otherwise. */
  function Piece(paragraph: string, targetWords: int, minWords: int, maxWords: int): seq<string> {
    var p := Strip(paragraph);
    if p == [] then []
    else if WordCount(p) > maxWords then SplitLong(p, targetWords, minWords, maxWords)
    else [p]
  }

  function Expanded(paragraphs: seq<string>, targetWords: int, minWords: int, maxWords: int): seq<string> {
    if paragraphs == [] then []
    else
      Expanded(paragraphs[..|paragraphs| - 1], targetWords, minWords, maxWords) +
      Piece(paragraphs[|paragraphs| - 1], targetWords, minWords, maxWords)
  }

  /** Blank paragraphs are dropped; a paragraph within the limit is kept,
      stripped; a longer one is replaced by chunks that give back its
      whitespace-collapsed text. */
  lemma PieceMeaning(paragraph: string, targetWords: int, minWords: int, maxWords: int)
    ensures var r := Piece(paragraph, targetWords, minWords, maxWords);
      var p := Strip(paragraph);
      (p == [] ==> r == []) &&
      (p != [] && WordCount(p) <= maxWords ==> r == [p]) &&
      (p != [] && WordCount(p) > maxWords ==> r != [] && Join(" ", r) == CollapseRuns(p))
  {
    var p := Strip(paragraph);
    if p != [] && WordCount(p) > maxWords {
      LongPiece(p, targetWords, minWords, maxWords);
    }
  }

  lemma LongPiece(p: string, targetWords: int, minWords: int, maxWords: int)
    requires p != [] && Trimmed(p)
    ensures var r := SplitLong(p, targetWords, minWords, maxWords);
      r != [] && Join(" ", r) == CollapseRuns(p) && AllClean(r)
  {
    StripTrimmed(p);
    SplitLongRoundTrip(p, targetWords, minWords, maxWords);
  }

  /** Every piece is trimmed and non-empty. */
  predicate AllClean(pieces: seq<string>) {
    forall k :: 0 <= k < |pieces| ==> pieces[k] != [] && Trimmed(pieces[k])
  }

  lemma PieceClean(paragraph: string, targetWords: int, minWords: int, maxWords: int)
    ensures AllClean(Piece(paragraph, targetWords, minWords, maxWords))
  {
    var p := Strip(paragraph);
    if p != [] && WordCount(p) > maxWords {
      LongPiece(p, targetWords, minWords, maxWords);
    }
  }

  lemma AllCleanAppend(a: seq<string>, b: seq<string>)
    requires AllClean(a) && AllClean(b)
    ensures AllClean(a + b)
  {
    assert forall k :: |a| <= k < |a + b| ==> (a + b)[k] == b[k - |a|];
  }

  lemma {:induction false} ExpandedClean(paragraphs: seq<string>, targetWords: int, minWords: int, maxWords: int)
    ensures AllClean(Expanded(paragraphs, targetWords, minWords, maxWords))
    decreases |paragraphs|
  {
    if paragraphs != [] {
      var init := paragraphs[..|paragraphs| - 1];
      var last := paragraphs[|paragraphs| - 1];
      ExpandedClean(init, targetWords, minWords, maxWords);
      PieceClean(last, targetWords, minWords, maxWords);
      AllCleanAppend(Expanded(init, targetWords, minWords, maxWords), Piece(last, targetWords, minWords, maxWords));
    }
  }

  method ExpandParagraphs(paragraphs: seq<string>, targetWords: int, minWords: int, maxWords: int)
    returns (expanded: seq<string>)
    ensures expanded == Expanded(paragraphs, targetWords, minWords, maxWords)
  {
    expanded := [];
    for i := 0 to |paragraphs|
      invariant expanded == Expanded(paragraphs[..i], targetWords, minWords, maxWords)
    {
      TakeSnoc(paragraphs, i);
      InitOfSnoc(paragraphs[..i], paragraphs[i]);
      var paragraph := Strip(paragraphs[i]);
      if paragraph != [] {
        var words := WordCount(paragraph);
        if words > maxWords {
          var pieces := SplitLongParagraph(paragraph, targetWords, minWords, maxWords);
          expanded := expanded + pieces;
        } else {
          expanded := expanded + [paragraph];
        }
      }
    }
    TakeAll(paragraphs);
  }

  // ------------------------------------------------------------ merge_small_chunks

  /** Chunks `i` and `i + 1` become one chunk at `i`. */
  function MergePair(chunks: seq<seq<string>>, i: nat): (r: seq<seq<string>>)
    requires i + 1 < |chunks|
    ensures |r| == |chunks| - 1
  {
    chunks[..i] + [chunks[i] + chunks[i + 1]] + chunks[i + 2..]
  }

  /** The sizes of chunks `i` and `i + 1` become one size at `i`. */
  function MergeSizes(sizes: seq<nat>, i: nat): (r: seq<nat>)
    requires i + 1 < |sizes|
    ensures |r| == |sizes| - 1
  {
    sizes[..i] + [sizes[i] + sizes[i + 1]] + sizes[i + 2..]
  }

  /** Every size is the word count of its chunk. */
  predicate Aligned(chunks: seq<seq<string>>, sizes: seq<nat>) {
    |chunks| == |sizes| && forall k :: 0 <= k < |sizes| ==> sizes[k] == Words(chunks[k])
  }

  /** What every merge keeps: the lists stay parallel, no paragraph is lost
      or reordered, the total size is the same, sizes stay the word counts
      of their chunks, no chunk becomes empty and at least one chunk stays. */
  predicate Preserved(chunks0: seq<seq<string>>, sizes0: seq<nat>, chunks: seq<seq<string>>, sizes: seq<nat>) {
    |chunks| == |sizes| && |chunks| <= |chunks0| &&
    Concat(chunks) == Concat(chunks0) && Sum(sizes) == Sum(sizes0) &&
    (Aligned(chunks0, sizes0) ==> Aligned(chunks, sizes)) &&
    (NoEmptyGroup(chunks0) ==> NoEmptyGroup(chunks)) &&
    (|chunks0| > 0 ==> |chunks| > 0)
  }

  lemma {:induction false} ConcatAppend(a: seq<seq<string>>, b: seq<seq<string>>)
    ensures Concat(a + b) == Concat(a) + Concat(b)
    decreases |b|
  {
    if b != [] {
      var init := b[..|b| - 1];
      ConcatAppend(a, init);
      AppendInit(a, b);
      ConcatSnoc(a + init, b[|b| - 1]);
    } else {
      AppendEmpty(a);
    }
  }

  /** The concatenation of `pre + [x] + rest` in three parts. */
  lemma ConcatAround(pre: seq<seq<string>>, x: seq<string>, post: seq<seq<string>>)
    ensures Concat(pre + [x] + post) == Concat(pre) + x + Concat(post)
  {
    ConcatAppend(pre + [x], post);
    ConcatSnoc(pre, x);
  }

  lemma ConcatMerge(chunks: seq<seq<string>>, i: nat)
    requires i + 1 < |chunks|
    ensures Concat(MergePair(chunks, i)) == Concat(chunks)
  {
    var pre, x, y, post := chunks[..i], chunks[i], chunks[i + 1], chunks[i + 2..];
    SplitAround(chunks, i);
    ConcatAround(pre + [x], y, post);
    ConcatSnoc(pre, x);
    ConcatAround(pre, x + y, post);
    Regroup(Concat(pre), x, y, Concat(post));
  }

  lemma SumAround(pre: seq<nat>, x: nat, post: seq<nat>)
    ensures Sum(pre + [x] + post) == Sum(pre) + x + Sum(post)
  {
    SumConcat(pre + [x], post);
    InitOfSnoc(pre, x);
  }

  lemma {:induction false} SumMerge(sizes: seq<nat>, i: nat)
    requires i + 1 < |sizes|
    ensures Sum(MergeSizes(sizes, i)) == Sum(sizes)
  {
    var pre, x, y, post := sizes[..i], sizes[i], sizes[i + 1], sizes[i + 2..];
    assert sizes == pre + ([x] + ([y] + post));
    assert MergeSizes(sizes, i) == pre + ([x + y] + post);
    SumConcat(pre, [x] + ([y] + post));
    SumConcat([x], [y] + post);
    SumConcat([y], post);
    SumConcat(pre, [x + y] + post);
    SumConcat([x + y], post);
  }

  lemma {:induction false} WordsAppend(a: seq<string>, b: seq<string>)
    ensures Words(a + b) == Words(a) + Words(b)
    decreases |b|
  {
    if b != [] {
      var init := b[..|b| - 1];
      WordsAppend(a, init);
      AppendInit(a, b);
      WordsSnoc(a + init, b[|b| - 1]);
    } else {
      AppendEmpty(a);
    }
  }

  /** Where each chunk of a merge comes from. */
  lemma MergeAt(chunks: seq<seq<string>>, sizes: seq<nat>, i: nat)
    requires i + 1 < |chunks| && |chunks| == |sizes|
    ensures var c, s := MergePair(chunks, i), MergeSizes(sizes, i);
      (forall k :: 0 <= k < i ==> c[k] == chunks[k] && s[k] == sizes[k]) &&
      c[i] == chunks[i] + chunks[i + 1] && s[i] == sizes[i] + sizes[i + 1] &&
      (forall k :: i < k < |c| ==> c[k] == chunks[k + 1] && s[k] == sizes[k + 1])
  {
  }

  lemma MergePreserves(chunks0: seq<seq<string>>, sizes0: seq<nat>, chunks: seq<seq<string>>, sizes: seq<nat>, i: nat)
    requires Preserved(chunks0, sizes0, chunks, sizes) && i + 1 < |chunks|
    ensures Preserved(chunks0, sizes0, MergePair(chunks, i), MergeSizes(sizes, i))
  {
    var c, s := MergePair(chunks, i), MergeSizes(sizes, i);
    ConcatMerge(chunks, i);
    SumMerge(sizes, i);
    MergeAt(chunks, sizes, i);
    if Aligned(chunks, sizes) {
      WordsAppend(chunks[i], chunks[i + 1]);
    }
  }

  /** Why the first pass left chunk `k` alone: it is big enough, it is the
      only chunk, or merging it with either neighbour would pass the
      limit. */
  predicate Settled(sizes: seq<nat>, k: nat, minWords: int, maxWords: int)
    requires k < |sizes|
  {
    sizes[k] >= minWords || |sizes| == 1 ||
    ((k > 0 ==> sizes[k - 1] + sizes[k] > maxWords) && (k + 1 < |sizes| ==> sizes[k] + sizes[k + 1] > maxWords))
  }

  predicate SettledBelow(sizes: seq<nat>, idx: nat, minWords: int, maxWords: int) {
    idx <= |sizes| && forall k :: 0 <= k < idx ==> Settled(sizes, k, minWords, maxWords)
  }

  /** Merging at `i` keeps the chunks before `i` settled: their right
      neighbour can only grow. */
  lemma SettledMerge(chunks: seq<seq<string>>, sizes: seq<nat>, i: nat, minWords: int, maxWords: int)
    requires i + 1 < |sizes| && |chunks| == |sizes| && SettledBelow(sizes, i, minWords, maxWords)
    ensures SettledBelow(MergeSizes(sizes, i), i, minWords, maxWords)
  {
    MergeAt(chunks, sizes, i);
    var s := MergeSizes(sizes, i);
    forall k | 0 <= k < i
      ensures Settled(s, k, minWords, maxWords)
    {
      assert Settled(sizes, k, minWords, maxWords);
    }
  }

  /** A chunk over the limit after the first pass is one of the chunks it
      received: merges in that pass never produce one. */
  predicate OverLimitUnmerged(chunks0: seq<seq<string>>, sizes0: seq<nat>, chunks: seq<seq<string>>, sizes: seq<nat>, maxWords: int) {
    |chunks| == |sizes| &&
    forall k :: 0 <= k < |sizes| && sizes[k] > maxWords ==> sizes[k] in sizes0 && chunks[k] in chunks0
  }

  lemma OverLimitMerge(chunks0: seq<seq<string>>, sizes0: seq<nat>, chunks: seq<seq<string>>, sizes: seq<nat>, i: nat, maxWords: int)
    requires OverLimitUnmerged(chunks0, sizes0, chunks, sizes, maxWords) && i + 1 < |sizes|
    requires sizes[i] + sizes[i + 1] <= maxWords
    ensures OverLimitUnmerged(chunks0, sizes0, MergePair(chunks, i), MergeSizes(sizes, i), maxWords)
  {
    MergeAt(chunks, sizes, i);
  }

  /** `chunk_sizes[1] = merged; chunks[1] = chunks[0] + chunks[1];
      del chunks[0]; del chunk_sizes[0]` (the second pass adds the sizes
      in the other order, to the same sum). */
  method MergeFront(chunks: seq<seq<string>>, sizes: seq<nat>) returns (chunks': seq<seq<string>>, sizes': seq<nat>)
    requires 2 <= |chunks| == |sizes|
    ensures chunks' == MergePair(chunks, 0) && sizes' == MergeSizes(sizes, 0)
  {
    sizes' := sizes[1 := sizes[0] + sizes[1]];
    chunks' := chunks[1 := chunks[0] + chunks[1]];
    chunks' := chunks'[1..];
    sizes' := sizes'[1..];
  }

  /** `chunk_sizes[idx - 1] = ...; chunks[idx - 1].extend(chunks[idx]);
      del chunks[idx]; del chunk_sizes[idx]` */
  method MergeBack(chunks: seq<seq<string>>, sizes: seq<nat>, idx: nat) returns (chunks': seq<seq<string>>, sizes': seq<nat>)
    requires 1 <= idx < |chunks| == |sizes|
    ensures chunks' == MergePair(chunks, idx - 1) && sizes' == MergeSizes(sizes, idx - 1)
  {
    sizes' := sizes[idx - 1 := sizes[idx - 1] + sizes[idx]];
    chunks' := chunks[idx - 1 := chunks[idx - 1] + chunks[idx]];
    chunks' := chunks'[..idx] + chunks'[idx + 1..];
    sizes' := sizes'[..idx] + sizes'[idx + 1..];
  }

  /** `chunk_sizes[idx + 1] = merged_next; chunks[idx + 1] = chunks[idx] +
      chunks[idx + 1]; del chunks[idx]; del chunk_sizes[idx]` */
  method MergeForward(chunks: seq<seq<string>>, sizes: seq<nat>, idx: nat) returns (chunks': seq<seq<string>>, sizes': seq<nat>)
    requires idx + 1 < |chunks| == |sizes|
    ensures chunks' == MergePair(chunks, idx) && sizes' == MergeSizes(sizes, idx)
  {
    sizes' := sizes[idx + 1 := sizes[idx] + sizes[idx + 1]];
    chunks' := chunks[idx + 1 := chunks[idx] + chunks[idx + 1]];
    chunks' := chunks'[..idx] + chunks'[idx + 1..];
    sizes' := sizes'[..idx] + sizes'[idx + 1..];
  }

  lemma PreservedTrans(c0: seq<seq<string>>, s0: seq<nat>, c1: seq<seq<string>>, s1: seq<nat>, c2: seq<seq<string>>, s2: seq<nat>)
    requires Preserved(c0, s0, c1, s1) && Preserved(c1, s1, c2, s2)
    ensures Preserved(c0, s0, c2, s2)
  {
  }

  /** The state of the first loop of `merge_small_chunks` between turns:
      the chunks before `idx` are settled, nothing over the limit has been
      made by a merge, and a single chunk is untouched. */
  predicate FirstPassState(chunks0: seq<seq<string>>, sizes0: seq<nat>, chunks: seq<seq<string>>, sizes: seq<nat>,
                           idx: nat, minWords: int, maxWords: int) {
    Preserved(chunks0, sizes0, chunks, sizes) && SettledBelow(sizes, idx, minWords, maxWords) &&
    OverLimitUnmerged(chunks0, sizes0, chunks, sizes, maxWords) &&
    (|chunks0| == 1 ==> chunks == chunks0 && sizes == sizes0)
  }

  /** A merge at `i` within the limit keeps the first loop's state, with
      the loop going on at `i`. */
  lemma FirstPassMerge(chunks0: seq<seq<string>>, sizes0: seq<nat>, chunks: seq<seq<string>>, sizes: seq<nat>,
                       i: nat, minWords: int, maxWords: int)
    requires i + 1 < |chunks| && FirstPassState(chunks0, sizes0, chunks, sizes, i, minWords, maxWords)
    requires sizes[i] + sizes[i + 1] <= maxWords
    ensures FirstPassState(chunks0, sizes0, MergePair(chunks, i), MergeSizes(sizes, i), i, minWords, maxWords)
  {
    MergePreserves(chunks0, sizes0, chunks, sizes, i);
    OverLimitMerge(chunks0, sizes0, chunks, sizes, i, maxWords);
    SettledMerge(chunks, sizes, i, minWords, maxWords);
  }

  /** The first loop of `merge_small_chunks` from position `idx` on, as a
      reference: a chunk of at least `minWords` words, or the only one, is
      passed; the first chunk goes into the second when the sum stays
      within `maxWords`; a later one goes into its predecessor when that
      sum stays within the limit, else into its successor when that one
      does, else it is passed. After a merge into the predecessor the loop
      looks at the predecessor again. */
  function FirstFrom(chunks: seq<seq<string>>, sizes: seq<nat>, idx: nat, minWords: int, maxWords: int)
    : (r: (seq<seq<string>>, seq<nat>))
    requires |chunks| == |sizes| && idx <= |chunks|
    decreases |chunks|, |chunks| - idx
  {
    if idx == |chunks| then (chunks, sizes)
    else if sizes[idx] >= minWords || |chunks| == 1 then FirstFrom(chunks, sizes, idx + 1, minWords, maxWords)
    else if idx == 0 then
      if sizes[0] + sizes[1] <= maxWords then FirstFrom(MergePair(chunks, 0), MergeSizes(sizes, 0), 0, minWords, maxWords)
      else FirstFrom(chunks, sizes, 1, minWords, maxWords)
    else if sizes[idx - 1] + sizes[idx] <= maxWords then
      FirstFrom(MergePair(chunks, idx - 1), MergeSizes(sizes, idx - 1), idx - 1, minWords, maxWords)
    else if idx + 1 < |chunks| && sizes[idx] + sizes[idx + 1] <= maxWords then
      FirstFrom(MergePair(chunks, idx), MergeSizes(sizes, idx), idx, minWords, maxWords)
    else FirstFrom(chunks, sizes, idx + 1, minWords, maxWords)
  }

  /** The first chunk, below `minWords`, is merged into the second when
      that stays within `maxWords`. */
  method FirstPassFront(chunks: seq<seq<string>>, sizes: seq<nat>, minWords: int, maxWords: int,
                        ghost chunks0: seq<seq<string>>, ghost sizes0: seq<nat>)
    returns (chunks': seq<seq<string>>, sizes': seq<nat>, idx': nat)
    requires 2 <= |chunks| && FirstPassState(chunks0, sizes0, chunks, sizes, 0, minWords, maxWords)
    requires sizes[0] < minWords
    ensures FirstPassState(chunks0, sizes0, chunks', sizes', idx', minWords, maxWords)
    ensures idx' <= |chunks'| &&
      FirstFrom(chunks', sizes', idx', minWords, maxWords) == FirstFrom(chunks, sizes, 0, minWords, maxWords)
    ensures |chunks'| < |chunks| || (|chunks'| == |chunks| && idx' > 0)
  {
    var mergedSize := sizes[0] + sizes[1];
    if mergedSize <= maxWords {
      chunks', sizes' := MergeFront(chunks, sizes);
      idx' := 0;
      FirstPassMerge(chunks0, sizes0, chunks, sizes, 0, minWords, maxWords);
    } else {
      chunks', sizes', idx' := chunks, sizes, 1;
    }
  }

  /** A later chunk below `minWords` is merged into its predecessor when
      that stays within `maxWords`, else into its successor when that
      does, else left. */
  method FirstPassInner(chunks: seq<seq<string>>, sizes: seq<nat>, idx: nat, minWords: int, maxWords: int,
                        ghost chunks0: seq<seq<string>>, ghost sizes0: seq<nat>)
    returns (chunks': seq<seq<string>>, sizes': seq<nat>, idx': nat)
    requires 1 <= idx < |chunks| && FirstPassState(chunks0, sizes0, chunks, sizes, idx, minWords, maxWords)
    requires sizes[idx] < minWords
    ensures FirstPassState(chunks0, sizes0, chunks', sizes', idx', minWords, maxWords)
    ensures idx' <= |chunks'| &&
      FirstFrom(chunks', sizes', idx', minWords, maxWords) == FirstFrom(chunks, sizes, idx, minWords, maxWords)
    ensures |chunks'| < |chunks| || (|chunks'| == |chunks| && idx' > idx)
  {
    var mergedPrev := sizes[idx - 1] + sizes[idx];
    var mergedNext: Option<nat> := if idx + 1 < |chunks| then Some(sizes[idx] + sizes[idx + 1]) else None;
    if mergedPrev <= maxWords {
      chunks', sizes' := MergeBack(chunks, sizes, idx);
      idx' := idx - 1;
      FirstPassMerge(chunks0, sizes0, chunks, sizes, idx - 1, minWords, maxWords);
    } else if mergedNext.Some? && mergedNext.value <= maxWords {
      chunks', sizes' := MergeForward(chunks, sizes, idx);
      idx' := idx;
      FirstPassMerge(chunks0, sizes0, chunks, sizes, idx, minWords, maxWords);
    } else {
      chunks', sizes', idx' := chunks, sizes, idx + 1;
    }
  }

  /** The first loop of `merge_small_chunks`. Afterwards every chunk is
      settled: at least `minWords` words, the only chunk, or too big to
      merge with either neighbour; and a chunk over `maxWords` is one the
      loop received, never the product of a merge. */
  method FirstPass(chunks0: seq<seq<string>>, sizes0: seq<nat>, minWords: int, maxWords: int)
    returns (chunks: seq<seq<string>>, sizes: seq<nat>)
    requires |chunks0| == |sizes0|
    ensures (chunks, sizes) == FirstFrom(chunks0, sizes0, 0, minWords, maxWords)
    ensures Preserved(chunks0, sizes0, chunks, sizes)
    ensures forall k :: 0 <= k < |sizes| ==> Settled(sizes, k, minWords, maxWords)
    ensures OverLimitUnmerged(chunks0, sizes0, chunks, sizes, maxWords)
    ensures |chunks0| == 1 ==> chunks == chunks0 && sizes == sizes0
  {
    chunks, sizes := chunks0, sizes0;
    var idx: nat := 0;
    while idx < |chunks|
      invariant FirstPassState(chunks0, sizes0, chunks, sizes, idx, minWords, maxWords)
      invariant idx <= |chunks| &&
        FirstFrom(chunks, sizes, idx, minWords, maxWords) == FirstFrom(chunks0, sizes0, 0, minWords, maxWords)
      decreases |chunks|, |chunks| - idx
    {
      chunks, sizes, idx := FirstPassTurn(chunks, sizes, idx, minWords, maxWords, chunks0, sizes0);
    }
  }

  /** One turn of the first loop: a chunk of at least `minWords` words, or
      the only one, is passed; otherwise the first chunk or a later one is
      merged as `FirstPassFront` and `FirstPassInner` say. */
  method FirstPassTurn(chunks: seq<seq<string>>, sizes: seq<nat>, idx: nat, minWords: int, maxWords: int,
                       ghost chunks0: seq<seq<string>>, ghost sizes0: seq<nat>)
    returns (chunks': seq<seq<string>>, sizes': seq<nat>, idx': nat)
    requires idx < |chunks| && FirstPassState(chunks0, sizes0, chunks, sizes, idx, minWords, maxWords)
    ensures FirstPassState(chunks0, sizes0, chunks', sizes', idx', minWords, maxWords)
    ensures idx' <= |chunks'| &&
      FirstFrom(chunks', sizes', idx', minWords, maxWords) == FirstFrom(chunks, sizes, idx, minWords, maxWords)
    ensures |chunks'| < |chunks| || (|chunks'| == |chunks| && idx' > idx)
  {
    if sizes[idx] >= minWords || |chunks| == 1 {
      chunks', sizes', idx' := chunks, sizes, idx + 1;
    } else if idx == 0 {
      chunks', sizes', idx' := FirstPassFront(chunks, sizes, minWords, maxWords, chunks0, sizes0);
    } else {
      chunks', sizes', idx' := FirstPassInner(chunks, sizes, idx, minWords, maxWords, chunks0, sizes0);
    }
  }

  /** `max(150, min_words // 3)`: Python's `//` floors, as Dafny's `/` does
      for a positive divisor. */
  function Micro(minWords: int): (r: int)
    ensures r >= 150 && r >= minWords / 3
  {
    if minWords / 3 > 150 then minWords / 3 else 150
  }

  predicate MicroBelow(sizes: seq<nat>, idx: nat, micro: int) {
    idx <= |sizes| && forall k :: 0 <= k < idx ==> sizes[k] >= micro
  }

  lemma MicroMerge(chunks: seq<seq<string>>, sizes: seq<nat>, i: nat, micro: int)
    requires i + 1 < |sizes| && |chunks| == |sizes| && MicroBelow(sizes, i, micro)
    ensures MicroBelow(MergeSizes(sizes, i), i, micro)
  {
    MergeAt(chunks, sizes, i);
  }

  /** The second loop of `merge_small_chunks` from position `idx` on, as a
      reference: a chunk below the micro threshold, unless it is the only
      one, goes into its predecessor (the first chunk into its successor)
      whatever the merged size, and the loop looks at the merged chunk
      again. */
  function SecondFrom(chunks: seq<seq<string>>, sizes: seq<nat>, idx: nat, micro: int)
    : (r: (seq<seq<string>>, seq<nat>))
    requires |chunks| == |sizes| && idx <= |chunks|
    decreases |chunks|, |chunks| - idx
  {
    if idx == |chunks| then (chunks, sizes)
    else if sizes[idx] >= micro || |chunks| == 1 then SecondFrom(chunks, sizes, idx + 1, micro)
    else if idx == 0 then SecondFrom(MergePair(chunks, 0), MergeSizes(sizes, 0), 0, micro)
    else SecondFrom(MergePair(chunks, idx - 1), MergeSizes(sizes, idx - 1), idx - 1, micro)
  }

  /** One turn of the second loop: a chunk below the micro threshold is
      merged into its predecessor (the first chunk into its successor),
      whatever the merged size. */
  method SecondPassStep(chunks: seq<seq<string>>, sizes: seq<nat>, idx: nat, micro: int,
                        ghost chunks0: seq<seq<string>>, ghost sizes0: seq<nat>)
    returns (chunks': seq<seq<string>>, sizes': seq<nat>, idx': nat)
    requires idx < |chunks| && Preserved(chunks0, sizes0, chunks, sizes)
    requires |sizes| <= 1 || MicroBelow(sizes, idx, micro)
    requires |chunks0| == 1 ==> chunks == chunks0 && sizes == sizes0
    ensures Preserved(chunks0, sizes0, chunks', sizes') && idx' <= |sizes'|
    ensures |sizes'| <= 1 || MicroBelow(sizes', idx', micro)
    ensures |chunks0| == 1 ==> chunks' == chunks0 && sizes' == sizes0
    ensures |chunks'| < |chunks| || (|chunks'| == |chunks| && idx' > idx)
    ensures SecondFrom(chunks', sizes', idx', micro) == SecondFrom(chunks, sizes, idx, micro)
  {
    if sizes[idx] >= micro || |chunks| == 1 {
      chunks', sizes', idx' := chunks, sizes, idx + 1;
    } else if idx == 0 {
      chunks', sizes' := MergeFront(chunks, sizes);
      idx' := 0;
      SecondMerged(chunks0, sizes0, chunks, sizes, 0, micro);
    } else {
      chunks', sizes' := MergeBack(chunks, sizes, idx);
      idx' := idx - 1;
      SecondMerged(chunks0, sizes0, chunks, sizes, idx - 1, micro);
    }
  }

  /** A merge in the second loop keeps what the loop preserves and the
      chunks before it above the threshold. */
  lemma SecondMerged(chunks0: seq<seq<string>>, sizes0: seq<nat>, chunks: seq<seq<string>>, sizes: seq<nat>, i: nat, micro: int)
    requires Preserved(chunks0, sizes0, chunks, sizes) && i + 1 < |chunks| && MicroBelow(sizes, i, micro)
    ensures Preserved(chunks0, sizes0, MergePair(chunks, i), MergeSizes(sizes, i))
    ensures MicroBelow(MergeSizes(sizes, i), i, micro) && |MergeSizes(sizes, i)| == |sizes| - 1
  {
    MergePreserves(chunks0, sizes0, chunks, sizes, i);
    MicroMerge(chunks, sizes, i, micro);
  }

  method SecondPass(chunks0: seq<seq<string>>, sizes0: seq<nat>, micro: int)
    returns (chunks: seq<seq<string>>, sizes: seq<nat>)
    requires |chunks0| == |sizes0|
    ensures (chunks, sizes) == SecondFrom(chunks0, sizes0, 0, micro)
    ensures Preserved(chunks0, sizes0, chunks, sizes)
    ensures |sizes| <= 1 || forall k :: 0 <= k < |sizes| ==> sizes[k] >= micro
    ensures |chunks0| == 1 ==> chunks == chunks0 && sizes == sizes0
  {
    chunks, sizes := chunks0, sizes0;
    var idx: nat := 0;
    while idx < |chunks|
      invariant Preserved(chunks0, sizes0, chunks, sizes) && idx <= |sizes|
      invariant SecondFrom(chunks, sizes, idx, micro) == SecondFrom(chunks0, sizes0, 0, micro)
      invariant |sizes| <= 1 || MicroBelow(sizes, idx, micro)
      invariant |chunks0| == 1 ==> chunks == chunks0 && sizes == sizes0
      decreases |chunks|, |chunks| - idx
    {
      chunks, sizes, idx := SecondPassStep(chunks, sizes, idx, micro, chunks0, sizes0);
    }
  }

  /** `merge_small_chunks` as a reference: the second loop run on what the
      first loop leaves. */
  function SmallMerged(chunks: seq<seq<string>>, sizes: seq<nat>, minWords: int, maxWords: int)
    : (r: (seq<seq<string>>, seq<nat>))
    requires |chunks| == |sizes|
  {
    var first := FirstFrom(chunks, sizes, 0, minWords, maxWords);
    FirstFromParallel(chunks, sizes, 0, minWords, maxWords);
    SecondFrom(first.0, first.1, 0, Micro(minWords))
  }

  lemma {:induction false} FirstFromParallel(chunks: seq<seq<string>>, sizes: seq<nat>, idx: nat, minWords: int, maxWords: int)
    requires |chunks| == |sizes| && idx <= |chunks|
    ensures |FirstFrom(chunks, sizes, idx, minWords, maxWords).0| == |FirstFrom(chunks, sizes, idx, minWords, maxWords).1|
    decreases |chunks|, |chunks| - idx
  {
    if idx == |chunks| {
    } else if sizes[idx] >= minWords || |chunks| == 1 {
      FirstFromParallel(chunks, sizes, idx + 1, minWords, maxWords);
    } else if idx == 0 {
      if sizes[0] + sizes[1] <= maxWords {
        FirstFromParallel(MergePair(chunks, 0), MergeSizes(sizes, 0), 0, minWords, maxWords);
      } else {
        FirstFromParallel(chunks, sizes, 1, minWords, maxWords);
      }
    } else if sizes[idx - 1] + sizes[idx] <= maxWords {
      FirstFromParallel(MergePair(chunks, idx - 1), MergeSizes(sizes, idx - 1), idx - 1, minWords, maxWords);
    } else if idx + 1 < |chunks| && sizes[idx] + sizes[idx + 1] <= maxWords {
      FirstFromParallel(MergePair(chunks, idx), MergeSizes(sizes, idx), idx, minWords, maxWords);
    } else {
      FirstFromParallel(chunks, sizes, idx + 1, minWords, maxWords);
    }
  }

  /** `merge_small_chunks`: the result is `SmallMerged`, the second loop
      run on the first loop's chunks (`firstChunks`, `firstSizes`). After
      the first loop every chunk is settled and a chunk over the limit is
      one the loop received; in the end the lists stay parallel,
      paragraphs keep their order, the total is unchanged, a single chunk
      is left alone, and one chunk remains or every chunk reaches the
      micro threshold. */
  method MergeSmallChunks(chunks0: seq<seq<string>>, sizes0: seq<nat>, minWords: int, maxWords: int)
    returns (chunks: seq<seq<string>>, sizes: seq<nat>, ghost firstChunks: seq<seq<string>>, ghost firstSizes: seq<nat>)
    requires |chunks0| == |sizes0|
    ensures (chunks, sizes) == SmallMerged(chunks0, sizes0, minWords, maxWords)
    ensures (firstChunks, firstSizes) == FirstFrom(chunks0, sizes0, 0, minWords, maxWords)
    ensures forall k :: 0 <= k < |firstSizes| ==> Settled(firstSizes, k, minWords, maxWords)
    ensures OverLimitUnmerged(chunks0, sizes0, firstChunks, firstSizes, maxWords)
    ensures (chunks, sizes) == SecondFrom(firstChunks, firstSizes, 0, Micro(minWords))
    ensures Preserved(chunks0, sizes0, chunks, sizes)
    ensures |sizes| <= 1 || forall k :: 0 <= k < |sizes| ==> sizes[k] >= Micro(minWords)
    ensures |chunks0| == 1 ==> chunks == chunks0 && sizes == sizes0
  {
    var passChunks, passSizes := FirstPass(chunks0, sizes0, minWords, maxWords);
    firstChunks, firstSizes := passChunks, passSizes;
    var microThreshold := Micro(minWords);
    chunks, sizes := SecondPass(passChunks, passSizes, microThreshold);
    PreservedTrans(chunks0, sizes0, passChunks, passSizes, chunks, sizes);
  }

  // ------------------------------------------------------------ build_chunks

  /** The sizes recorded for closed chunks. */
  function Sizes(groups: seq<seq<string>>): (r: seq<nat>)
    ensures |r| == |groups|
  {
    if groups == [] then [] else Sizes(groups[..|groups| - 1]) + [Words(groups[|groups| - 1])]
  }

  lemma SizesSnoc(groups: seq<seq<string>>, g: seq<string>)
    ensures Sizes(groups + [g]) == Sizes(groups) + [Words(g)]
  {
    InitOfSnoc(groups, g);
  }

  lemma {:induction false} SizesAligned(groups: seq<seq<string>>)
    ensures Aligned(groups, Sizes(groups))
    decreases |groups|
  {
    if groups != [] {
      var n := |groups| - 1;
      SizesAligned(groups[..n]);
      var init := Sizes(groups[..n]);
      assert Sizes(groups) == init + [Words(groups[n])];
      forall k | 0 <= k < n
        ensures Sizes(groups)[k] == Words(groups[k])
      {
        assert (init + [Words(groups[n])])[k] == init[k];
        assert groups[..n][k] == groups[k];
      }
    }
  }

  /** One turn of the first loop of `build_chunks`. */
  method BuildStep(chunks: seq<seq<string>>, sizes: seq<nat>, current: seq<string>, currentWords: nat, paragraph: string,
                   targetWords: int, maxWords: int, ghost acc: Acc)
    returns (chunks': seq<seq<string>>, sizes': seq<nat>, current': seq<string>, currentWords': nat)
    requires chunks == acc.closed && sizes == Sizes(acc.closed) && current == acc.current
    requires currentWords == acc.count && acc.count == Words(acc.current)
    ensures var next := Step(acc, paragraph, targetWords, 0, maxWords);
      chunks' == next.closed && sizes' == Sizes(next.closed) && current' == next.current && currentWords' == next.count
  {
    var words := WordCount(paragraph);
    if current != [] && currentWords + words > maxWords {
      SizesSnoc(chunks, current);
      WordsOne(paragraph);
      chunks', sizes' := chunks + [current], sizes + [currentWords];
      current', currentWords' := [paragraph], words;
    } else {
      WordsSnoc(current, paragraph);
      chunks', sizes' := chunks, sizes;
      current', currentWords' := current + [paragraph], currentWords + words;
    }
    assert sizes' == Sizes(chunks') && currentWords' == Words(current');
    ghost var mid := Grow(acc, paragraph, 0, maxWords);
    assert chunks' == mid.closed && current' == mid.current && currentWords' == mid.count;
    if currentWords' >= targetWords {
      SizesSnoc(chunks', current');
      chunks', sizes' := chunks' + [current'], sizes' + [currentWords'];
      current', currentWords' := [], 0;
    }
  }

  /** The chunking loop of `build_chunks` and the closing of its last
      chunk. */
  method CollectChunks(paragraphs: seq<string>, targetWords: int, maxWords: int)
    returns (chunks: seq<seq<string>>, sizes: seq<nat>)
    ensures chunks == Groups(paragraphs, targetWords, 0, maxWords) && sizes == Sizes(chunks)
  {
    chunks, sizes := [], [];
    var current: seq<string> := [];
    var currentWords: nat := 0;
    for i := 0 to |paragraphs|
      invariant var acc := Fold(paragraphs[..i], targetWords, 0, maxWords);
        chunks == acc.closed && sizes == Sizes(acc.closed) && current == acc.current && currentWords == acc.count
    {
      TakeSnoc(paragraphs, i);
      InitOfSnoc(paragraphs[..i], paragraphs[i]);
      FoldSound(paragraphs[..i], targetWords, 0, maxWords);
      chunks, sizes, current, currentWords := BuildStep(chunks, sizes, current, currentWords, paragraphs[i],
        targetWords, maxWords, Fold(paragraphs[..i], targetWords, 0, maxWords));
    }
    TakeAll(paragraphs);
    FoldSound(paragraphs, targetWords, 0, maxWords);
    if current != [] {
      SizesSnoc(chunks, current);
      chunks, sizes := chunks + [current], sizes + [currentWords];
    }
  }

  /** `p for p in chunk if p.strip()` */
  function WithText(chunk: seq<string>): (r: seq<string>)
    ensures forall k :: 0 <= k < |r| ==> Strip(r[k]) != []
  {
    if chunk == [] then []
    else WithText(chunk[..|chunk| - 1]) + (if Strip(chunk[|chunk| - 1]) != [] then [chunk[|chunk| - 1]] else [])
  }

  /** The text written for one chunk: its paragraphs with text, separated
      by blank lines, stripped, with one final newline. */
  function Normalize(chunk: seq<string>): (r: string)
    ensures r != [] && r[|r| - 1] == '\n'
  {
    Strip(Join("\n\n", WithText(chunk))) + "\n"
  }

  lemma AllCleanTake(pieces: seq<string>, n: nat)
    requires AllClean(pieces) && n <= |pieces|
    ensures AllClean(pieces[..n])
  {
    forall k | 0 <= k < n
      ensures pieces[..n][k] != [] && Trimmed(pieces[..n][k])
    {
      assert pieces[..n][k] == pieces[k];
    }
  }

  lemma {:induction false} WithTextKeepsAll(chunk: seq<string>)
    requires AllClean(chunk)
    ensures WithText(chunk) == chunk
    decreases |chunk|
  {
    if chunk != [] {
      var n := |chunk| - 1;
      StripTrimmed(chunk[n]);
      AllCleanTake(chunk, n);
      WithTextKeepsAll(chunk[..n]);
      InitLast(chunk);
    }
  }

  /** For paragraphs that are trimmed and non-empty (as `expand_paragraphs`
      leaves them) a chunk's text is its paragraphs separated by blank
      lines, plus a newline. */
  lemma NormalizeClean(chunk: seq<string>)
    requires AllClean(chunk)
    ensures Normalize(chunk) == Join("\n\n", chunk) + "\n"
  {
    WithTextKeepsAll(chunk);
    if chunk != [] {
      JoinTrimmed("\n\n", chunk);
      StripTrimmed(Join("\n\n", chunk));
    }
  }

  /** The chunks keep every piece, in order, and none is empty. */
  lemma GroupsKeep(pieces: seq<string>, targetWords: int, minWords: int, maxWords: int)
    ensures Concat(Groups(pieces, targetWords, minWords, maxWords)) == pieces
    ensures NoEmptyGroup(Groups(pieces, targetWords, minWords, maxWords))
  {
    GroupsChunked(pieces, targetWords, minWords, maxWords);
  }

  /** One chunk's text, as the final loop of `build_chunks` forms it. */
  method NormalizeOne(chunk: seq<string>) returns (line: string)
    ensures line == Normalize(chunk)
  {
    var text := Join("\n\n", WithText(chunk));
    line := Strip(text) + "\n";
  }

  /** The final loop of `build_chunks`: each chunk becomes its text. */
  method NormalizeAll(chunks: seq<seq<string>>) returns (normalized: seq<string>)
    ensures |normalized| == |chunks| && forall k :: 0 <= k < |chunks| ==> normalized[k] == Normalize(chunks[k])
  {
    normalized := [];
    for k := 0 to |chunks|
      invariant |normalized| == k && MappedPrefix(normalized, chunks, Normalize)
    {
      var line := NormalizeOne(chunks[k]);
      MappedSnoc(normalized, chunks, Normalize, line);
      normalized := normalized + [line];
    }
  }

  /** The chunks `build_chunks` writes out: the greedy chunks of the
      paragraphs, collected with no minimum, after `merge_small_chunks`. */
  function BuiltChunks(paragraphs: seq<string>, targetWords: int, minWords: int, maxWords: int): seq<seq<string>> {
    var groups := Groups(paragraphs, targetWords, 0, maxWords);
    SmallMerged(groups, Sizes(groups), minWords, maxWords).0
  }

  /** `build_chunks`: greedy chunks of paragraphs (no minimum while
      collecting), merged by `merge_small_chunks`, each written as text.
      `merged` is the list of chunks after the merge. */
  method BuildChunks(paragraphs: seq<string>, targetWords: int, minWords: int, maxWords: int)
    returns (normalized: seq<string>, ghost merged: seq<seq<string>>)
    ensures var built := BuiltChunks(paragraphs, targetWords, minWords, maxWords);
      |normalized| == |built| && forall k :: 0 <= k < |built| ==> normalized[k] == Normalize(built[k])
    ensures merged == BuiltChunks(paragraphs, targetWords, minWords, maxWords)
    ensures Concat(merged) == paragraphs && NoEmptyGroup(merged)
    ensures |normalized| == |merged| && forall k :: 0 <= k < |merged| ==> normalized[k] == Normalize(merged[k])
    ensures |merged| <= 1 || forall k :: 0 <= k < |merged| ==> Words(merged[k]) >= Micro(minWords)
    ensures merged == [] <==> paragraphs == []
  {
    var chunks, chunkSizes := CollectChunks(paragraphs, targetWords, maxWords);
    GroupsKeep(paragraphs, targetWords, 0, maxWords);
    SizesAligned(chunks);
    var finalChunks, sizes, _, _ := MergeSmallChunks(chunks, chunkSizes, minWords, maxWords);
    merged := finalChunks;
    if merged != [] {
      ConcatHasFirst(merged);
    }
    normalized := NormalizeAll(finalChunks);
  }

  /** `split_chapter` on the text of a chapter: paragraphs are the pieces
      between blank lines, expanded, then chunked; `counts` are the word
      counts of the chunk texts. */
  method SplitChapter(rawText: string, targetWords: int, minWords: int, maxWords: int)
    returns (chunks: seq<string>, counts: seq<nat>, ghost merged: seq<seq<string>>)
    ensures merged == BuiltChunks(Expanded(Split(rawText, "\n\n"), targetWords, minWords, maxWords), targetWords, minWords, maxWords)
    ensures Concat(merged) == Expanded(Split(rawText, "\n\n"), targetWords, minWords, maxWords)
    ensures |chunks| == |merged| && forall k :: 0 <= k < |merged| ==> chunks[k] == Join("\n\n", merged[k]) + "\n"
    ensures |merged| <= 1 || forall k :: 0 <= k < |merged| ==> Words(merged[k]) >= Micro(minWords)
    ensures |counts| == |chunks| && forall k :: 0 <= k < |chunks| ==> counts[k] == WordCount(chunks[k])
  {
    var paragraphs := Split(rawText, "\n\n");
    var expanded := ExpandParagraphs(paragraphs, targetWords, minWords, maxWords);
    chunks, merged := BuildChunks(expanded, targetWords, minWords, maxWords);
    counts := WordCounts(chunks);
    ExpandedClean(paragraphs, targetWords, minWords, maxWords);
    CleanChunks(merged, chunks);
  }

  /** The word count of each chunk. */
  function WordCounts(chunks: seq<string>): (counts: seq<nat>)
    ensures |counts| == |chunks| && forall k :: 0 <= k < |chunks| ==> counts[k] == WordCount(chunks[k])
  {
    seq(|chunks|, k requires 0 <= k < |chunks| => WordCount(chunks[k]))
  }

  /** Normalizing groups of clean pieces only joins them and adds the
      final newline. */
  lemma CleanChunks(groups: seq<seq<string>>, chunks: seq<string>)
    requires AllClean(Concat(groups))
    requires |chunks| == |groups| && forall k :: 0 <= k < |groups| ==> chunks[k] == Normalize(groups[k])
    ensures forall k :: 0 <= k < |groups| ==> chunks[k] == Join("\n\n", groups[k]) + "\n"
  {
    forall k | 0 <= k < |groups|
      ensures chunks[k] == Join("\n\n", groups[k]) + "\n"
    {
      forall j | 0 <= j < |groups[k]|
        ensures groups[k][j] != [] && Trimmed(groups[k][j])
      {
        ConcatHas(groups, k, j);
      }
      NormalizeClean(groups[k]);
    }
  }

  // ---------------------------------------------------------------- file names

  /** The name of the `index`-th chunk file in flat numbering. */
  function FlatName(index: int): string {
    "chapter" + IntToString(index) + ".txt"
  }

  /** The name of part `part` of a chapter whose file stem is `stem`. */
  function PartName(stem: string, part: nat): string {
    stem + "_part" + NatToString(part) + ".txt"
  }

  /** `plan_chunk_names`: the file names of a chapter's chunks. `name` is the
      chapter file's name and `stem` that name without its suffix. Flat
      numbering counts on from `startIndex`; otherwise a single chunk keeps
      the chapter's name and several are numbered parts from 1. */
  function PlanChunkNames(name: string, stem: string, chunkCount: int, flatIndex: bool, startIndex: int): (r: seq<string>)
    ensures |r| == if chunkCount < 0 then 0 else chunkCount
    ensures flatIndex ==> forall i :: 0 <= i < |r| ==> r[i] == FlatName(startIndex + i)
    ensures !flatIndex && chunkCount == 1 ==> r == [name]
    ensures !flatIndex && chunkCount != 1 ==> forall i :: 0 <= i < |r| ==> r[i] == PartName(stem, i + 1)
  {
    var n := if chunkCount < 0 then 0 else chunkCount;
    if flatIndex then seq(n, i => FlatName(startIndex + i))
    else if chunkCount == 1 then [name]
    else seq(n, i requires 0 <= i => PartName(stem, i + 1))
  }

  lemma FlatNamesDistinct(a: int, b: int)
    requires a != b
    ensures FlatName(a) != FlatName(b)
  {
    if FlatName(a) == FlatName(b) {
      Unwrap("chapter", IntToString(a), IntToString(b), ".txt");
      IntToStringInjective(a, b);
    }
  }

  lemma PartNamesDistinct(stem: string, a: nat, b: nat)
    requires a != b
    ensures PartName(stem, a) != PartName(stem, b)
  {
    if PartName(stem, a) == PartName(stem, b) {
      Unwrap(stem + "_part", NatToString(a), NatToString(b), ".txt");
      NatToStringValue(a);
      NatToStringValue(b);
    }
  }

  /** No two chunks of a chapter are given the same file name. */
  lemma PlanNamesDistinct(name: string, stem: string, chunkCount: int, flatIndex: bool, startIndex: int)
    ensures var r := PlanChunkNames(name, stem, chunkCount, flatIndex, startIndex);
      forall i, j :: 0 <= i < j < |r| ==> r[i] != r[j]
  {
    var r := PlanChunkNames(name, stem, chunkCount, flatIndex, startIndex);
    forall i, j | 0 <= i < j < |r|
      ensures r[i] != r[j]
    {
      if flatIndex {
        FlatNamesDistinct(startIndex + i, startIndex + j);
      } else if chunkCount != 1 {
        PartNamesDistinct(stem, i + 1, j + 1);
      }
    }
  }

  /** One file written by `write_chunks`: its name in the output directory
      and its text. */
  datatype Written = Written(filename: string, text: string)

  /** `write_chunks`: each chunk is written under the name the plan gives it,
      in order; the returned index is the next free flat number. */
  method WriteChunks(name: string, stem: string, chunks: seq<string>, flatIndex: bool, startIndex: int)
    returns (written: seq<Written>, currentIndex: int)
    ensures |written| == |chunks|
    ensures forall i :: 0 <= i < |chunks| ==>
      written[i] == Written(PlanChunkNames(name, stem, |chunks|, flatIndex, startIndex)[i], chunks[i])
    ensures currentIndex == if flatIndex then startIndex + |chunks| else startIndex
  {
    ghost var plan := PlanChunkNames(name, stem, |chunks|, flatIndex, startIndex);
    written := [];
    currentIndex := startIndex;
    for idx := 0 to |chunks|
      invariant |written| == idx
      invariant currentIndex == if flatIndex then startIndex + idx else startIndex
      invariant forall i :: 0 <= i < idx ==> written[i] == Written(plan[i], chunks[i])
    {
      var filename;
      if flatIndex {
        filename := FlatName(currentIndex);
        currentIndex := currentIndex + 1;
      } else if |chunks| == 1 {
        filename := name;
      } else {
        filename := PartName(stem, idx + 1);
      }
      assert filename == plan[idx];
      written := written + [Written(filename, chunks[idx])];
    }
  }
}
