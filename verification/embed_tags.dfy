/** The tag-embedding steps of `embed_tags.py`, which marks up a narration
    script for speech synthesis: pause tags after punctuation, voice
    effects before keywords, and the final tidying of tag spellings and
    blank lines. Which points get a pause or an effect is chosen at random
    by the analysis step; here the chosen points are inputs. */
module EmbedTags {
  import opened Text

  // ------------------------------------------------------------ _add_pause_tags

  /** A chosen pause: after the punctuation expected at `position`. */
  datatype PausePoint = PausePoint(position: nat, punctuation: string, tag: string)

  /** The character at the point is still its punctuation. */
  predicate PauseFits(s: string, p: PausePoint) {
    p.position < |s| && [s[p.position]] == p.punctuation
  }

  /** `s[:pos+1] + piece + s[pos+1:]` */
  function InsertAfter(s: string, pos: nat, piece: string): (r: string)
    requires pos < |s|
    ensures |r| == |s| + |piece|
  {
    s[..pos + 1] + piece + s[pos + 1..]
  }

  /** One step of the loop: `" " + tag` after the punctuation, if it fits. */
  function PauseStep(s: string, p: PausePoint): string {
    if PauseFits(s, p) then InsertAfter(s, p.position, " " + p.tag) else s
  }

  /** The points taken last to first: the last point is applied to the
      content, each earlier one to the result so far. */
  function WithPauses(content: string, points: seq<PausePoint>): string {
    if points == [] then content else PauseStep(WithPauses(content, points[1..]), points[0])
  }

  /** `_add_pause_tags` */
  method AddPauseTags(content: string, points: seq<PausePoint>) returns (result: string)
    ensures result == WithPauses(content, points)
  {
    result := content;
    var k := |points|;
    while k > 0
      invariant 0 <= k <= |points|
      invariant result == WithPauses(content, points[k..])
    {
      k := k - 1;
      var p := points[k];
      assert points[k..][1..] == points[k + 1..];
      if p.position < |result| && [result[p.position]] == p.punctuation {
        result := result[..p.position + 1] + " " + p.tag + result[p.position + 1..];
      }
    }
    assert points[0..] == points;
  }

  /** The points that received a tag, in list order. */
  function PausesApplied(content: string, points: seq<PausePoint>): seq<PausePoint> {
    if points == [] then []
    else
      (if PauseFits(WithPauses(content, points[1..]), points[0]) then [points[0]] else []) +
      PausesApplied(content, points[1..])
  }

  /** Deleting `n` characters after `pos`. */
  function DeleteAfter(s: string, pos: nat, n: nat): string {
    if pos + 1 + n <= |s| then s[..pos + 1] + s[pos + 1 + n..] else s
  }

  /** The tags taken out again, the last one inserted first. */
  function RemovePauses(s: string, applied: seq<PausePoint>): string {
    if applied == [] then s
    else RemovePauses(DeleteAfter(s, applied[0].position, |applied[0].tag| + 1), applied[1..])
  }

  /** Taking the inserted tags out gives back the content; with no points
      the content is unchanged. */
  lemma {:induction false} PausesRoundTrip(content: string, points: seq<PausePoint>)
    ensures RemovePauses(WithPauses(content, points), PausesApplied(content, points)) == content
    ensures points == [] ==> WithPauses(content, points) == content
  {
    if points != [] {
      var p := points[0];
      var before := WithPauses(content, points[1..]);
      PausesRoundTrip(content, points[1..]);
      if PauseFits(before, p) {
        var after := InsertAfter(before, p.position, " " + p.tag);
        assert DeleteAfter(after, p.position, |p.tag| + 1) == before;
        assert PausesApplied(content, points) == [p] + PausesApplied(content, points[1..]);
      } else {
        assert PausesApplied(content, points) == PausesApplied(content, points[1..]);
      }
    }
  }

  /** Positions in increasing order. */
  predicate Ascending(points: seq<PausePoint>) {
    forall i, j :: 0 <= i < j < |points| ==> points[i].position <= points[j].position
  }

  /** Tags inserted at or after `q` leave the character at `q` where it was. */
  lemma {:induction false} PausesKeepEarlier(content: string, points: seq<PausePoint>, q: nat)
    requires forall i :: 0 <= i < |points| ==> q <= points[i].position
    ensures q < |content| ==> q < |WithPauses(content, points)| && WithPauses(content, points)[q] == content[q]
    ensures q >= |content| ==> WithPauses(content, points) == content
  {
    if points != [] {
      PausesKeepEarlier(content, points[1..], q);
    }
  }

  /** Taken last to first, points in increasing order are each checked
      against the original content: exactly the points whose punctuation
      is in the content get a tag. */
  lemma {:induction false} AscendingSeeOriginal(content: string, points: seq<PausePoint>)
    requires Ascending(points)
    ensures forall i :: 0 <= i < |points| ==>
      (PauseFits(WithPauses(content, points[i + 1..]), points[i]) <==> PauseFits(content, points[i]))
  {
    forall i | 0 <= i < |points|
      ensures PauseFits(WithPauses(content, points[i + 1..]), points[i]) <==> PauseFits(content, points[i])
    {
      PausesKeepEarlier(content, points[i + 1..], points[i].position);
    }
  }

  // ------------------------------------------------------------ _add_voice_effects

  /** A chosen effect: before the keyword at `position`. */
  datatype VoiceEffect = VoiceEffect(position: nat, effect: string, keyword: string)

  /** The keyword still fits in the text from its position. */
  predicate EffectFits(s: string, e: VoiceEffect) {
    e.position < |s| && e.position + |e.keyword| <= |s|
  }

  /** `s[:pos] + piece + s[pos:]` */
  function InsertAt(s: string, pos: nat, piece: string): (r: string)
    requires pos <= |s|
    ensures |r| == |s| + |piece|
  {
    s[..pos] + piece + s[pos..]
  }

  function EffectStep(s: string, e: VoiceEffect): string {
    if EffectFits(s, e) then InsertAt(s, e.position, e.effect + " ") else s
  }

  /** The effects taken last to first. */
  function WithEffects(content: string, effects: seq<VoiceEffect>): string {
    if effects == [] then content else EffectStep(WithEffects(content, effects[1..]), effects[0])
  }

  /** `_add_voice_effects` */
  method AddVoiceEffects(content: string, effects: seq<VoiceEffect>) returns (result: string)
    ensures result == WithEffects(content, effects)
  {
    result := content;
    var k := |effects|;
    while k > 0
      invariant 0 <= k <= |effects|
      invariant result == WithEffects(content, effects[k..])
    {
      k := k - 1;
      var e := effects[k];
      assert effects[k..][1..] == effects[k + 1..];
      if e.position < |result| {
        var endPos := e.position + |e.keyword|;
        if endPos <= |result| {
          result := result[..e.position] + e.effect + " " + result[e.position..];
        }
      }
    }
    assert effects[0..] == effects;
  }

  /** The effects that were inserted, in list order. */
  function EffectsApplied(content: string, effects: seq<VoiceEffect>): seq<VoiceEffect> {
    if effects == [] then []
    else
      (if EffectFits(WithEffects(content, effects[1..]), effects[0]) then [effects[0]] else []) +
      EffectsApplied(content, effects[1..])
  }

  /** Deleting `n` characters at `pos`. */
  function DeleteAt(s: string, pos: nat, n: nat): string {
    if pos + n <= |s| then s[..pos] + s[pos + n..] else s
  }

  function RemoveEffects(s: string, applied: seq<VoiceEffect>): string {
    if applied == [] then s
    else RemoveEffects(DeleteAt(s, applied[0].position, |applied[0].effect| + 1), applied[1..])
  }

  /** Taking the inserted effects out gives back the content. */
  lemma {:induction false} EffectsRoundTrip(content: string, effects: seq<VoiceEffect>)
    ensures RemoveEffects(WithEffects(content, effects), EffectsApplied(content, effects)) == content
    ensures effects == [] ==> WithEffects(content, effects) == content
  {
    if effects != [] {
      var e := effects[0];
      var before := WithEffects(content, effects[1..]);
      EffectsRoundTrip(content, effects[1..]);
      if EffectFits(before, e) {
        var after := InsertAt(before, e.position, e.effect + " ");
        assert DeleteAt(after, e.position, |e.effect| + 1) == before;
        assert EffectsApplied(content, effects) == [e] + EffectsApplied(content, effects[1..]);
      } else {
        assert EffectsApplied(content, effects) == EffectsApplied(content, effects[1..]);
      }
    }
  }

  // ------------------------------------------------------------ post_process_tags

  /** The four spelling fixes, applied in this order. */
  function FixSpellings(s: string): string {
    var a := ReplaceAll(s, "[PAUSE:", "[PAUSE=");
    var b := ReplaceAll(a, "[pause=", "[PAUSE=");
    var c := ReplaceAll(b, "[Pause=", "[PAUSE=");
    ReplaceAll(c, "[BREAK=", "[PAUSE=")
  }

  predicate Blank(line: string) { Strip(line) == [] }

  /** A line is kept unless it and the line before it are both blank. */
  predicate KeepLine(lines: seq<string>, i: nat)
    requires i < |lines|
  {
    !(Blank(lines[i]) && i > 0 && Blank(lines[i - 1]))
  }

  /** The lines kept, in order. */
  function KeptLines(lines: seq<string>): (r: seq<string>)
    ensures |r| <= |lines|
  {
    if lines == [] then []
    else
      var last := |lines| - 1;
      KeptLines(lines[..last]) + (if KeepLine(lines, last) then [lines[last]] else [])
  }

  /** `post_process_tags` */
  method PostProcessTags(taggedScript: string) returns (r: string)
    ensures r == Join("\n", KeptLines(Split(FixSpellings(taggedScript), "\n")))
  {
    var processed := taggedScript;
    processed := ReplaceAll(processed, "[PAUSE:", "[PAUSE=");
    processed := ReplaceAll(processed, "[pause=", "[PAUSE=");
    processed := ReplaceAll(processed, "[Pause=", "[PAUSE=");
    processed := ReplaceAll(processed, "[BREAK=", "[PAUSE=");
    var lines := Split(processed, "\n");
    var cleanLines: seq<string> := [];
    var prevEmpty := false;
    for i := 0 to |lines|
      invariant cleanLines == KeptLines(lines[..i])
      invariant prevEmpty == (i > 0 && Blank(lines[i - 1]))
    {
      assert lines[..i + 1][..i] == lines[..i];
      var isEmpty := Strip(lines[i]) == [];
      if !(isEmpty && prevEmpty) {
        cleanLines := cleanLines + [lines[i]];
      }
      prevEmpty := isEmpty;
    }
    assert lines[..|lines|] == lines;
    r := Join("\n", cleanLines);
  }

  /** No two blank lines in a row. */
  predicate NoDoubleBlank(lines: seq<string>) {
    forall i :: 0 < i < |lines| ==> !(Blank(lines[i - 1]) && Blank(lines[i]))
  }

  /** The non-blank lines, in order. */
  function Filled(lines: seq<string>): seq<string> {
    if lines == [] then []
    else Filled(lines[..|lines| - 1]) + (if Blank(lines[|lines| - 1]) then [] else [lines[|lines| - 1]])
  }

  /** The last kept line is the last line, or both are blank. */
  lemma {:induction false} KeptLast(lines: seq<string>)
    requires lines != []
    ensures var k := KeptLines(lines);
      k != [] && (k[|k| - 1] == lines[|lines| - 1] || (Blank(k[|k| - 1]) && Blank(lines[|lines| - 1])))
  {
    var last := |lines| - 1;
    if !KeepLine(lines, last) {
      var init := lines[..last];
      KeptLast(init);
      assert init[last - 1] == lines[last - 1];
    }
  }

  /** The kept lines never hold two blank lines in a row. */
  lemma {:induction false} KeptNoDoubleBlank(lines: seq<string>)
    ensures NoDoubleBlank(KeptLines(lines))
  {
    if lines != [] {
      var last := |lines| - 1;
      var init := lines[..last];
      KeptNoDoubleBlank(init);
      var k := KeptLines(init);
      if KeepLine(lines, last) {
        var r := k + [lines[last]];
        if k != [] {
          KeptLast(init);
          assert init[last - 1] == lines[last - 1];
        }
        forall i | 0 < i < |r|
          ensures !(Blank(r[i - 1]) && Blank(r[i]))
        {
          if i < |r| - 1 {
            assert r[i - 1] == k[i - 1] && r[i] == k[i];
          } else {
            assert r[i - 1] == k[|k| - 1];
          }
        }
      }
    }
  }

  /** Every non-blank line is kept, in its order. */
  lemma {:induction false} KeptFilled(lines: seq<string>)
    ensures Filled(KeptLines(lines)) == Filled(lines)
  {
    if lines != [] {
      var last := |lines| - 1;
      var init := lines[..last];
      KeptFilled(init);
      var k := KeptLines(init);
      if KeepLine(lines, last) {
        var r := k + [lines[last]];
        assert KeptLines(lines) == r;
        assert r[..|r| - 1] == k && r[|r| - 1] == lines[last];
        assert Filled(r) == Filled(k) + (if Blank(lines[last]) then [] else [lines[last]]);
      } else {
        assert KeptLines(lines) == k;
      }
    }
  }

  /** Lines without two blank ones in a row are all kept, so tidying the
      blank lines a second time changes nothing. */
  lemma {:induction false} KeptLinesFixed(lines: seq<string>)
    requires NoDoubleBlank(lines)
    ensures KeptLines(lines) == lines
  {
    if lines != [] {
      var last := |lines| - 1;
      assert NoDoubleBlank(lines[..last]);
      KeptLinesFixed(lines[..last]);
      assert lines[..last] + [lines[last]] == lines;
    }
  }

  lemma KeptLinesIdempotent(lines: seq<string>)
    ensures KeptLines(KeptLines(lines)) == KeptLines(lines)
  {
    KeptNoDoubleBlank(lines);
    KeptLinesFixed(KeptLines(lines));
  }

  /** A script with correct spellings and no doubled blank line passes
      through unchanged. */
  lemma PostProcessKeeps(script: string)
    requires FixSpellings(script) == script && NoDoubleBlank(Split(script, "\n"))
    ensures Join("\n", KeptLines(Split(FixSpellings(script), "\n"))) == script
  {
    KeptLinesFixed(Split(script, "\n"));
    SplitJoin(script, "\n");
  }
}
