/** `generate_srt` of `whisperx_alignment_test/scripts/align_audio.py`: one
    word-level SRT block per word of the WhisperX result whose text is not
    blank, numbered densely from 1 across all segments, with timestamps
    truncated (not rounded) to the millisecond. The file is modelled as the
    sequence of strings handed to `f.write`. */
module AlignAudio {
  import opened Text
  import opened Timestamps
  import opened Seqs

  /** One entry of a segment's `words` list, with the defaults of
      `word_info.get(...)` already applied: a missing word is `""` and a
      missing time is `0.0`. */
  datatype WordInfo = WordInfo(word: string, startTime: real, endTime: real)

  /** The words of all segments, segment after segment. */
  function Flatten(segments: seq<seq<WordInfo>>): seq<WordInfo> {
    if segments == [] then [] else Flatten(segments[..|segments| - 1]) + segments[|segments| - 1]
  }

  /** The words that get a block, with their text stripped. */
  function Spoken(words: seq<WordInfo>): (r: seq<WordInfo>)
    ensures |r| <= |words|
    ensures forall k :: 0 <= k < |r| ==> r[k].word != [] && Trimmed(r[k].word)
  {
    if words == [] then []
    else
      var w := words[|words| - 1];
      var text := Strip(w.word);
      Spoken(words[..|words| - 1]) + (if text != [] then [WordInfo(text, w.startTime, w.endTime)] else [])
  }

  /** Keeping words distributes over concatenation: no word's fate depends
      on its neighbours or on the segment it is in. */
  lemma {:induction false} SpokenAppend(a: seq<WordInfo>, b: seq<WordInfo>)
    ensures Spoken(a + b) == Spoken(a) + Spoken(b)
    decreases |b|
  {
    if b == [] {
      assert a + b == a;
    } else {
      var init, x := b[..|b| - 1], b[|b| - 1];
      assert b == init + [x];
      assert a + b == (a + init) + [x];
      calc {
        Spoken(a + b);
        Spoken((a + init) + [x]);
        { WordStep(a + init, x); }
        Spoken(a + init) + Spoken([x]);
        { SpokenAppend(a, init); }
        Spoken(a) + Spoken(init) + Spoken([x]);
        { WordStep(init, x); }
        Spoken(a) + Spoken(b);
      }
    }
  }

  /** A blank word produces no block; any other word produces exactly one. */
  lemma SpokenOne(w: WordInfo)
    ensures Strip(w.word) == [] ==> Spoken([w]) == []
    ensures Strip(w.word) != [] ==> Spoken([w]) == [WordInfo(Strip(w.word), w.startTime, w.endTime)]
  {
    assert [w][..0] == [];
  }

  /** One SRT block as `generate_srt` writes it: the ordinal, the two
      rendered timestamps and the word. */
  datatype SrtBlock = SrtBlock(ordinal: nat, startText: string, endText: string, text: string)

  /** The blocks: the kept words numbered from 1, their times shown by
      `stamp` (`generate_srt` passes its truncating `format_timestamp`). */
  function BlocksOf(spoken: seq<WordInfo>, stamp: real -> string): (r: seq<SrtBlock>)
    ensures |r| == |spoken|
  {
    if spoken == [] then []
    else BlocksOf(spoken[..|spoken| - 1], stamp) + [BlockFor(|spoken|, spoken[|spoken| - 1], stamp)]
  }

  function BlockFor(ordinal: nat, w: WordInfo, stamp: real -> string): SrtBlock {
    SrtBlock(ordinal, stamp(w.startTime), stamp(w.endTime), w.word)
  }

  /** The `k`-th block is numbered `k + 1` and shows the `k`-th kept word. */
  lemma {:induction false} BlocksAt(spoken: seq<WordInfo>, k: nat, stamp: real -> string)
    requires k < |spoken|
    ensures BlocksOf(spoken, stamp)[k] == BlockFor(k + 1, spoken[k], stamp)
    decreases |spoken|
  {
    var n := |spoken| - 1;
    var init := BlocksOf(spoken[..n], stamp);
    var last := BlockFor(n + 1, spoken[n], stamp);
    assert BlocksOf(spoken, stamp) == init + [last];
    if k < n {
      BlocksAt(spoken[..n], k, stamp);
      assert (init + [last])[k] == init[k];
      assert spoken[..n][k] == spoken[k];
    } else {
      assert |init| == n;
      assert (init + [last])[k] == last;
    }
  }

  /** The three writes of one block. */
  function BlockWrites(b: SrtBlock): seq<string> {
    [NatToString(b.ordinal) + "\n", b.startText + " --> " + b.endText + "\n", b.text + "\n\n"]
  }

  function Writes(blocks: seq<SrtBlock>): (r: seq<string>)
    ensures |r| == 3 * |blocks|
  {
    if blocks == [] then [] else Writes(blocks[..|blocks| - 1]) + BlockWrites(blocks[|blocks| - 1])
  }

  /** The writes of the `k`-th block sit at positions `3k`, `3k+1`, `3k+2`. */
  lemma {:induction false} WritesAt(blocks: seq<SrtBlock>, k: nat)
    requires k < |blocks|
    ensures Writes(blocks)[3 * k..3 * k + 3] == BlockWrites(blocks[k])
    decreases |blocks|
  {
    var n := |blocks| - 1;
    var init := Writes(blocks[..n]);
    assert Writes(blocks) == init + BlockWrites(blocks[n]);
    if k < n {
      WritesAt(blocks[..n], k);
      SliceOfPrefix(init, BlockWrites(blocks[n]), 3 * k, 3 * k + 3);
    } else {
      assert |init| == 3 * k;
    }
  }

  /** Every block has the shape `n\nstart --> end\nword\n\n`: the first
      write is the ordinal line, where `n` is the block's position counted
      from 1; the times are those of the `k`-th kept word as `stamp` shows
      them, and the word is its stripped, non-blank text. */
  lemma BlockShape(words: seq<WordInfo>, k: nat, stamp: real -> string)
    requires k < |Spoken(words)|
    ensures var out := Writes(BlocksOf(Spoken(words), stamp));
      var w := Spoken(words)[k];
      OrdinalLine(out[3 * k], k + 1) &&
      out[3 * k + 1] == stamp(w.startTime) + " --> " + stamp(w.endTime) + "\n" &&
      out[3 * k + 2] == w.word + "\n\n" && w.word != [] && Trimmed(w.word)
  {
    var blocks := BlocksOf(Spoken(words), stamp);
    BlocksAt(Spoken(words), k, stamp);
    WritesOfBlock(blocks, k);
    OrdinalLineOf(k + 1);
  }

  /** A line holding the decimal digits of `n` and a newline. */
  predicate OrdinalLine(line: string, n: nat) {
    |line| >= 2 && line[|line| - 1] == '\n' &&
    AllDigits(line[..|line| - 1]) && DigitsValue(line[..|line| - 1]) == n
  }

  lemma OrdinalLineOf(n: nat)
    ensures OrdinalLine(NatToString(n) + "\n", n)
  {
    var digits := NatToString(n);
    NatToStringValue(n);
    assert (digits + "\n")[..|digits|] == digits;
  }

  lemma WritesOfBlock(blocks: seq<SrtBlock>, k: nat)
    requires k < |blocks|
    ensures var out := Writes(blocks);
      out[3 * k] == NatToString(blocks[k].ordinal) + "\n" &&
      out[3 * k + 1] == blocks[k].startText + " --> " + blocks[k].endText + "\n" &&
      out[3 * k + 2] == blocks[k].text + "\n\n"
  {
    WritesAt(blocks, k);
    ThreeAt(Writes(blocks), 3 * k, BlockWrites(blocks[k]));
  }

  lemma ThreeAt(out: seq<string>, i: nat, three: seq<string>)
    requires i + 3 <= |out| && out[i..i + 3] == three
    ensures |three| == 3 && out[i] == three[0] && out[i + 1] == three[1] && out[i + 2] == three[2]
  {
    assert out[i] == out[i..i + 3][0];
    assert out[i + 1] == out[i..i + 3][1];
    assert out[i + 2] == out[i..i + 3][2];
  }

  lemma WritesSnoc(blocks: seq<SrtBlock>, b: SrtBlock)
    ensures Writes(blocks + [b]) == Writes(blocks) + BlockWrites(b)
  {
    InitOfSnoc(blocks, b);
  }

  /** One more word adds its block, numbered next, when it is not blank,
      and nothing otherwise. */
  lemma WordStep(seen: seq<WordInfo>, info: WordInfo)
    ensures Spoken(seen + [info]) == Spoken(seen) + Spoken([info])
  {
    InitOfSnoc(seen, info);
    assert [info][..0] == [];
  }

  lemma BlocksSnoc(spoken: seq<WordInfo>, w: WordInfo, stamp: real -> string)
    ensures Writes(BlocksOf(spoken + [w], stamp)) == Writes(BlocksOf(spoken, stamp)) + BlockWrites(BlockFor(|spoken| + 1, w, stamp))
  {
    InitOfSnoc(spoken, w);
    WritesSnoc(BlocksOf(spoken, stamp), BlockFor(|spoken| + 1, w, stamp));
  }

  /** The writes after one more word: its block when it is not blank,
      nothing otherwise. */
  lemma WordWrites(seen: seq<WordInfo>, info: WordInfo, stamp: real -> string)
    ensures var before := Writes(BlocksOf(Spoken(seen), stamp));
      var after := Writes(BlocksOf(Spoken(seen + [info]), stamp));
      var w := WordInfo(Strip(info.word), info.startTime, info.endTime);
      (Strip(info.word) == [] ==> after == before) &&
      (Strip(info.word) != [] ==> after == before + BlockWrites(BlockFor(|Spoken(seen)| + 1, w, stamp)))
  {
    WordStep(seen, info);
    SpokenOne(info);
    var w := WordInfo(Strip(info.word), info.startTime, info.endTime);
    if Strip(info.word) != [] {
      var spoken := Spoken(seen);
      assert Spoken(seen + [info]) == spoken + [w];
      BlocksSnoc(spoken, w, stamp);
    } else {
      assert Spoken(seen + [info]) == Spoken(seen);
    }
  }

  /** The three `f.write` calls of one block. */
  method WriteBlock(out: seq<string>, b: SrtBlock) returns (out': seq<string>)
    ensures out' == out + BlockWrites(b)
  {
    out' := out + [NatToString(b.ordinal) + "\n"];
    out' := out' + [b.startText + " --> " + b.endText + "\n"];
    out' := out' + [b.text + "\n\n"];
  }

  /** The body of the inner loop of `generate_srt`: a non-blank word gets
      the next ordinal and its block, its times shown by `stamp`. */
  method WriteWord(out: seq<string>, subtitleIndex: nat, info: WordInfo, stamp: real -> string, ghost seen: seq<WordInfo>)
    returns (out': seq<string>, subtitleIndex': nat)
    requires out == Writes(BlocksOf(Spoken(seen), stamp)) && subtitleIndex == |Spoken(seen)| + 1
    ensures out' == Writes(BlocksOf(Spoken(seen + [info]), stamp)) && subtitleIndex' == |Spoken(seen + [info])| + 1
  {
    var word := Strip(info.word);
    WordWrites(seen, info, stamp);
    WordStep(seen, info);
    SpokenOne(info);
    if word != [] {
      out' := WriteBlock(out, SrtBlock(subtitleIndex, stamp(info.startTime), stamp(info.endTime), word));
      subtitleIndex' := subtitleIndex + 1;
    } else {
      out', subtitleIndex' := out, subtitleIndex;
    }
  }

  /** The inner loop of `generate_srt` over one segment's words. */
  method WriteSegment(out: seq<string>, subtitleIndex: nat, words: seq<WordInfo>, stamp: real -> string, ghost seen: seq<WordInfo>)
    returns (out': seq<string>, subtitleIndex': nat)
    requires out == Writes(BlocksOf(Spoken(seen), stamp)) && subtitleIndex == |Spoken(seen)| + 1
    ensures out' == Writes(BlocksOf(Spoken(seen + words), stamp)) && subtitleIndex' == |Spoken(seen + words)| + 1
  {
    out', subtitleIndex' := out, subtitleIndex;
    PrefixNone(seen, words);
    for w := 0 to |words|
      invariant out' == Writes(BlocksOf(Spoken(seen + words[..w]), stamp))
      invariant subtitleIndex' == |Spoken(seen + words[..w])| + 1
    {
      out', subtitleIndex' := WriteWord(out', subtitleIndex', words[w], stamp, seen + words[..w]);
      PrefixSnoc(seen, words, w);
    }
    PrefixAll(seen, words);
  }

  /** `generate_srt`: the nested loop over segments and words, with the
      `subtitle_index` counter. */
  method GenerateSrt(segments: seq<seq<WordInfo>>) returns (out: seq<string>)
    ensures out == Writes(BlocksOf(Spoken(Flatten(segments)), FormatTruncated))
  {
    out := [];
    var subtitleIndex := 1;
    for s := 0 to |segments|
      invariant out == Writes(BlocksOf(Spoken(Flatten(segments[..s])), FormatTruncated))
      invariant subtitleIndex == |Spoken(Flatten(segments[..s]))| + 1
    {
      out, subtitleIndex := WriteSegment(out, subtitleIndex, segments[s], FormatTruncated, Flatten(segments[..s]));
      InitOfSnoc(segments[..s], segments[s]);
      TakeSnoc(segments, s);
    }
    TakeAll(segments);
  }
}
