/** `flatten_alignment_words` of `sentence_segmenter.py`: the word spans of a
    WhisperX alignment result, cleaned and ordered by time. The result
    arrives as its list of segments, each holding the entries of its
    `words` list (a missing list is an empty one); an entry's fields are
    `None` when absent or null. */
module AlignmentWords {
  import opened Wrappers
  import opened Text
  import opened Segments

  /** One entry of a segment's `words` list. */
  datatype RawWord = RawWord(word: Option<string>, startTime: Option<real>, endTime: Option<real>)

  /** `x or default` on a float: a missing value and `0.0` both give the default. */
  function FloatOr(x: Option<real>, default: real): (r: real)
    ensures x.Some? && x.value != 0.0 ==> r == x.value
    ensures x.None? || x.value == 0.0 ==> r == default
  {
    if x.Some? && x.value != 0.0 then x.value else default
  }

  /** The per-entry step of `flatten_alignment_words`: a blank word is
      skipped; otherwise the stripped text, the start (0 when absent) and
      the end (the start when absent, and never before the start). */
  function Convert(w: RawWord): (r: Option<WordSpan>)
    ensures r.None? <==> Strip(w.word.GetOr("")) == ""
    ensures r.Some? ==> r.value.text == Strip(w.word.GetOr("")) && Trimmed(r.value.text)
    ensures r.Some? ==> r.value.startTime == FloatOr(w.startTime, 0.0)
    ensures r.Some? ==> r.value.startTime <= r.value.endTime
    ensures r.Some? && FloatOr(w.endTime, r.value.startTime) >= r.value.startTime ==>
      r.value.endTime == FloatOr(w.endTime, r.value.startTime)
  {
    var text := Strip(w.word.GetOr(""));
    if text == "" then None
    else
      var start := FloatOr(w.startTime, 0.0);
      var end := FloatOr(w.endTime, start);
      Some(WordSpan(text, start, if end < start then start else end))
  }

  /** The words kept from the entries, in the order they come. */
  function Kept(entries: seq<RawWord>): (r: seq<WordSpan>)
    ensures |r| <= |entries|
  {
    if entries == [] then []
    else
      var last := Convert(entries[|entries| - 1]);
      Kept(entries[..|entries| - 1]) + (if last.Some? then [last.value] else [])
  }

  /** The words kept from every segment, segment after segment. */
  function Collected(segments: seq<seq<RawWord>>): seq<WordSpan> {
    if segments == [] then [] else Collected(segments[..|segments| - 1]) + Kept(segments[|segments| - 1])
  }

  /** A word as `flatten_alignment_words` emits it: non-blank, trimmed text,
      and an end that is not before its start. */
  predicate Clean(w: WordSpan) {
    w.text != "" && Trimmed(w.text) && w.startTime <= w.endTime
  }

  lemma {:induction false} KeptClean(entries: seq<RawWord>)
    ensures forall k :: 0 <= k < |Kept(entries)| ==> Clean(Kept(entries)[k])
    decreases |entries|
  {
    if entries != [] {
      KeptClean(entries[..|entries| - 1]);
    }
  }

  lemma {:induction false} CollectedClean(segments: seq<seq<RawWord>>)
    ensures forall k :: 0 <= k < |Collected(segments)| ==> Clean(Collected(segments)[k])
    decreases |segments|
  {
    if segments != [] {
      CollectedClean(segments[..|segments| - 1]);
      KeptClean(segments[|segments| - 1]);
    }
  }

  /** The sort key `(w.start, w.end)`, compared as Python compares tuples. */
  predicate KeyLe(a: WordSpan, b: WordSpan) {
    a.startTime < b.startTime || (a.startTime == b.startTime && a.endTime <= b.endTime)
  }

  predicate KeyLt(a: WordSpan, b: WordSpan) {
    a.startTime < b.startTime || (a.startTime == b.startTime && a.endTime < b.endTime)
  }

  predicate SortedByKey(s: seq<WordSpan>) {
    forall p, q :: 0 <= p < q < |s| ==> KeyLe(s[p], s[q])
  }

  /** The sort key `(w.start, w.end)`. */
  function Key(w: WordSpan): (real, real) {
    (w.startTime, w.endTime)
  }

  /** The words of `s` whose key is `key`, in their order in `s`. A stable
      sort keeps each of these lists as it was. */
  function Tied(s: seq<WordSpan>, key: (real, real)): (r: seq<WordSpan>)
    ensures forall w :: w in r ==> Key(w) == key
  {
    if s == [] then []
    else
      var last := s[|s| - 1];
      Tied(s[..|s| - 1], key) + (if Key(last) == key then [last] else [])
  }

  /** `x` put into `s` from the back: it moves left past the words with a
      strictly larger key and stops behind the first one that is not. */
  function InsertByKey(s: seq<WordSpan>, x: WordSpan): seq<WordSpan> {
    if s == [] || !KeyLt(x, s[|s| - 1]) then s + [x]
    else InsertByKey(s[..|s| - 1], x) + [s[|s| - 1]]
  }

  /** Insertion sort by key, one word after the other. */
  function InsertionSorted(s: seq<WordSpan>): seq<WordSpan> {
    if s == [] then [] else InsertByKey(InsertionSorted(s[..|s| - 1]), s[|s| - 1])
  }

  lemma KeyLeTransitive(a: WordSpan, b: WordSpan, c: WordSpan)
    requires KeyLe(a, b) && KeyLe(b, c)
    ensures KeyLe(a, c)
  {
  }

  lemma {:induction false} InsertByKeyPermutes(s: seq<WordSpan>, x: WordSpan)
    ensures multiset(InsertByKey(s, x)) == multiset(s) + multiset{x}
    decreases |s|
  {
    if s != [] && KeyLt(x, s[|s| - 1]) {
      InsertByKeyPermutes(s[..|s| - 1], x);
      assert s == s[..|s| - 1] + [s[|s| - 1]];
    }
  }

  lemma {:induction false} InsertByKeySorted(s: seq<WordSpan>, x: WordSpan)
    requires SortedByKey(s)
    ensures SortedByKey(InsertByKey(s, x))
    decreases |s|
  {
    if s == [] {
    } else if !KeyLt(x, s[|s| - 1]) {
      var r := s + [x];
      forall p, q | 0 <= p < q < |r| ensures KeyLe(r[p], r[q]) {
        if q == |s| && p < |s| - 1 {
          KeyLeTransitive(s[p], s[|s| - 1], x);
        }
      }
    } else {
      var init, last := s[..|s| - 1], s[|s| - 1];
      InsertByKeySorted(init, x);
      InsertByKeyPermutes(init, x);
      var m := InsertByKey(init, x);
      forall w | w in m ensures KeyLe(w, last) {
        assert w in multiset(m);
        if w != x {
          var k :| 0 <= k < |init| && init[k] == w;
        }
      }
      forall p, q | 0 <= p < q < |m| + 1 ensures KeyLe((m + [last])[p], (m + [last])[q]) {
        if q == |m| {
          assert m[p] in m;
        }
      }
    }
  }

  /** Inserting `x` adds it behind the words with its key and leaves every
      other key's words alone. */
  lemma {:induction false} InsertByKeyTied(s: seq<WordSpan>, x: WordSpan, key: (real, real))
    ensures Tied(InsertByKey(s, x), key) == Tied(s, key) + (if Key(x) == key then [x] else [])
    decreases |s|
  {
    if s == [] || !KeyLt(x, s[|s| - 1]) {
      TiedSnoc(s, x, key);
    } else {
      var init, last := s[..|s| - 1], s[|s| - 1];
      InsertByKeyTied(init, x, key);
      var m := InsertByKey(init, x);
      assert InsertByKey(s, x) == m + [last];
      TiedSnoc(m, last, key);
      assert init + [last] == s;
      TiedSnoc(init, last, key);
      if Key(last) == key {
        assert Key(x) != key;
        assert Tied(m, key) == Tied(init, key);
      } else {
        assert Tied(m + [last], key) == Tied(m, key);
        assert Tied(s, key) == Tied(init, key);
      }
    }
  }

  /** `Tied` of a list with one more word at the back. */
  lemma TiedSnoc(s: seq<WordSpan>, w: WordSpan, key: (real, real))
    ensures Tied(s + [w], key) == Tied(s, key) + (if Key(w) == key then [w] else [])
  {
    assert (s + [w])[..|s|] == s;
  }

  lemma {:induction false} InsertionSortedPermutes(s: seq<WordSpan>)
    ensures multiset(InsertionSorted(s)) == multiset(s)
    decreases |s|
  {
    if s != [] {
      InsertionSortedPermutes(s[..|s| - 1]);
      InsertByKeyPermutes(InsertionSorted(s[..|s| - 1]), s[|s| - 1]);
      assert s == s[..|s| - 1] + [s[|s| - 1]];
    }
  }

  lemma {:induction false} InsertionSortedSorted(s: seq<WordSpan>)
    ensures SortedByKey(InsertionSorted(s))
    decreases |s|
  {
    if s != [] {
      InsertionSortedSorted(s[..|s| - 1]);
      InsertByKeySorted(InsertionSorted(s[..|s| - 1]), s[|s| - 1]);
    }
  }

  /** The sort is stable: the words of every key keep their order. */
  lemma {:induction false} InsertionSortedStable(s: seq<WordSpan>, key: (real, real))
    ensures Tied(InsertionSorted(s), key) == Tied(s, key)
    decreases |s|
  {
    if s != [] {
      InsertionSortedStable(s[..|s| - 1], key);
      InsertByKeyTied(InsertionSorted(s[..|s| - 1]), s[|s| - 1], key);
    }
  }

  /** `words.sort(key=lambda w: (w.start, w.end))`, as an insertion sort
      that moves a word left only past words with a strictly larger key:
      sorted, a permutation, and stable as Python's sort is. */
  method SortWords(a: array<WordSpan>)
    modifies a
    ensures a[..] == InsertionSorted(old(a[..]))
    ensures SortedByKey(a[..])
    ensures multiset(a[..]) == multiset(old(a[..]))
    ensures forall key :: Tied(a[..], key) == Tied(old(a[..]), key)
  {
    ghost var s := a[..];
    for i := 0 to a.Length
      invariant a[..i] == InsertionSorted(s[..i]) && a[i..] == s[i..]
    {
      assert s[..i + 1][..i] == s[..i];
      assert a[i] == s[i];
      Insert(a, i);
    }
    assert a[..] == a[..a.Length] && s == s[..a.Length];
    InsertionSortedSorted(s);
    InsertionSortedPermutes(s);
    forall key ensures Tied(a[..], key) == Tied(s, key) {
      InsertionSortedStable(s, key);
    }
  }

  /** One pass of the insertion sort: `a[i]` sinks into the prefix
      `a[..i]` as `InsertByKey` puts it, and the rest stays. */
  method Insert(a: array<WordSpan>, i: nat)
    requires i < a.Length
    modifies a
    ensures a[..i + 1] == InsertByKey(old(a[..i]), old(a[i]))
    ensures a[i + 1..] == old(a[i + 1..])
  {
    ghost var s, x := a[..i], a[i];
    var j := i;
    while j > 0 && KeyLt(a[j], a[j - 1])
      invariant 0 <= j <= i && a[j] == x
      invariant a[..j] == s[..j]
      invariant InsertByKey(s, x) == InsertByKey(a[..j], x) + a[j + 1..i + 1]
      invariant a[i + 1..] == old(a[i + 1..])
    {
      ghost var before := a[..];
      a[j - 1], a[j] := a[j], a[j - 1];
      assert a[..] == before[j - 1 := before[j]][j := before[j - 1]];
      SwapStep(before, a[..], s, x, i, j);
      j := j - 1;
    }
    InsertStops(a[..], s, x, i, j);
  }

  /** One swap of the inner loop keeps its invariant. */
  lemma SwapStep(before: seq<WordSpan>, after: seq<WordSpan>, s: seq<WordSpan>, x: WordSpan, i: nat, j: nat)
    requires 0 < j <= i < |before| && |s| == i && after == before[j - 1 := before[j]][j := before[j - 1]]
    requires before[j] == x && before[..j] == s[..j] && KeyLt(x, before[j - 1])
    requires InsertByKey(s, x) == InsertByKey(before[..j], x) + before[j + 1..i + 1]
    ensures after[j - 1] == x && after[..j - 1] == s[..j - 1] && after[i + 1..] == before[i + 1..]
    ensures InsertByKey(s, x) == InsertByKey(after[..j - 1], x) + after[j..i + 1]
  {
    assert before[..j][..j - 1] == before[..j - 1] == after[..j - 1];
    assert before[..j][j - 1] == before[j - 1];
    assert after[j..i + 1] == [before[j - 1]] + before[j + 1..i + 1];
    assert s[..j - 1] == s[..j][..j - 1];
  }

  /** When the inner loop stops, `x` sits where `InsertByKey` puts it. */
  lemma InsertStops(a: seq<WordSpan>, s: seq<WordSpan>, x: WordSpan, i: nat, j: nat)
    requires j <= i < |a| && a[j] == x
    requires j == 0 || !KeyLt(x, a[j - 1])
    requires InsertByKey(s, x) == InsertByKey(a[..j], x) + a[j + 1..i + 1]
    ensures a[..i + 1] == InsertByKey(s, x)
  {
    assert a[..j] == [] || a[..j][j - 1] == a[j - 1];
    assert a[..i + 1] == a[..j] + [x] + a[j + 1..i + 1];
  }

  /** The inner loop of `flatten_alignment_words` over one segment's words. */
  method KeepWords(entries: seq<RawWord>) returns (kept: seq<WordSpan>)
    ensures kept == Kept(entries)
  {
    kept := [];
    for e := 0 to |entries|
      invariant kept == Kept(entries[..e])
    {
      assert entries[..e + 1][..e] == entries[..e];
      var w := entries[e];
      var text := Strip(w.word.GetOr(""));
      if text != "" {
        var start := FloatOr(w.startTime, 0.0);
        var end := FloatOr(w.endTime, start);
        if end < start {
          end := start;
        }
        kept := kept + [WordSpan(text, start, end)];
      }
    }
    assert entries[..|entries|] == entries;
  }

  /** The outer loop of `flatten_alignment_words`, before the sort. */
  method CollectWords(segments: seq<seq<RawWord>>) returns (collected: seq<WordSpan>)
    ensures collected == Collected(segments)
  {
    collected := [];
    for s := 0 to |segments|
      invariant collected == Collected(segments[..s])
    {
      assert segments[..s + 1][..s] == segments[..s];
      var kept := KeepWords(segments[s]);
      collected := collected + kept;
    }
    assert segments[..|segments|] == segments;
  }

  /** `flatten_alignment_words`: the kept words of all segments, ordered by
      (start, end); every one is clean. */
  method FlattenAlignmentWords(segments: seq<seq<RawWord>>) returns (words: seq<WordSpan>)
    ensures SortedByKey(words)
    ensures multiset(words) == multiset(Collected(segments))
    ensures forall key :: Tied(words, key) == Tied(Collected(segments), key)
    ensures forall w :: w in words ==> Clean(w)
  {
    var collected := CollectWords(segments);
    CollectedClean(segments);
    var a := new WordSpan[|collected|](k requires 0 <= k < |collected| => collected[k]);
    assert a[..] == collected;
    SortWords(a);
    words := a[..];
    forall w | w in words ensures Clean(w) {
      assert w in multiset(collected);
    }
  }
}
