/** The block loop the two SRT readers share (`parse_srt` in
    `play_with_subtitles.py` and in `whisperx_alignment_test/scripts/view_srt.py`):
    the stripped text is cut at blank lines, each block is read in turn,
    blocks that are too short are skipped, and the first block that raises
    ends the reading. */
module SrtBlocks {
  import opened Wrappers
  import opened Text

  /** The blocks of an SRT text: `content.strip().split("\n\n")`. */
  function Blocks(content: string): (r: seq<string>)
    ensures |r| > 0
  {
    Split(Strip(content), "\n\n")
  }

  /** The entries of the blocks, in order, or the first error; `parse`
      reads one block, `None` standing for a skipped block. */
  function ParseBlocks<T, E>(blocks: seq<string>, parse: string -> Result<Option<T>, E>): (r: Result<seq<T>, E>)
    ensures r.Ok? ==> |r.value| <= |blocks|
    ensures r.Ok? <==> forall k :: 0 <= k < |blocks| ==> parse(blocks[k]).Ok?
  {
    if blocks == [] then Ok([])
    else
      match ParseBlocks(blocks[..|blocks| - 1], parse)
      case Err(e) => Err(e)
      case Ok(entries) =>
        match parse(blocks[|blocks| - 1])
        case Err(e) => Err(e)
        case Ok(None) => Ok(entries)
        case Ok(Some(entry)) => Ok(entries + [entry])
  }

  /** The loop over the blocks, with `parse` reading one. */
  method ParseAll<T, E>(blocks: seq<string>, parse: string -> Result<Option<T>, E>) returns (r: Result<seq<T>, E>)
    ensures r == ParseBlocks(blocks, parse)
  {
    var entries: seq<T> := [];
    for b := 0 to |blocks|
      invariant ParseBlocks(blocks[..b], parse) == Ok(entries)
    {
      assert blocks[..b + 1][..b] == blocks[..b];
      var parsed := parse(blocks[b]);
      if parsed.Err? {
        FirstErrorStands(blocks, b + 1, parse);
        return Err(parsed.error);
      }
      if parsed.value.Some? {
        entries := entries + [parsed.value.value];
      }
    }
    assert blocks[..|blocks|] == blocks;
    r := Ok(entries);
  }

  /** Once a prefix of the blocks fails, the whole text fails with the same
      error. */
  lemma {:induction false} FirstErrorStands<T, E>(blocks: seq<string>, k: nat, parse: string -> Result<Option<T>, E>)
    requires k <= |blocks| && ParseBlocks(blocks[..k], parse).Err?
    ensures ParseBlocks(blocks, parse) == ParseBlocks(blocks[..k], parse)
    decreases |blocks| - k
  {
    if k < |blocks| {
      assert blocks[..k + 1][..k] == blocks[..k];
      FirstErrorStands(blocks, k + 1, parse);
    } else {
      assert blocks[..k] == blocks;
    }
  }

  /** When every block reads as an entry, the entries are those of the
      blocks, one each and in order. */
  lemma {:induction false} ParseBlocksAllKept<T, E>(blocks: seq<string>, parse: string -> Result<Option<T>, E>)
    requires forall k :: 0 <= k < |blocks| ==> parse(blocks[k]).Ok? && parse(blocks[k]).value.Some?
    ensures ParseBlocks(blocks, parse).Ok?
    ensures |ParseBlocks(blocks, parse).value| == |blocks|
    ensures forall k :: 0 <= k < |blocks| ==> ParseBlocks(blocks, parse).value[k] == parse(blocks[k]).value.value
  {
    if blocks != [] {
      var init := blocks[..|blocks| - 1];
      assert forall k :: 0 <= k < |init| ==> init[k] == blocks[k];
      ParseBlocksAllKept(init, parse);
    }
  }
}
