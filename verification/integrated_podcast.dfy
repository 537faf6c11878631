/** The decisions of the archived integrated podcast generator
    (`archive/integrated_podcast_generator.py`): how an input source is
    classified, which length parameters a target duration gets, and which
    guidance band the instructions use. Fetching content, the language
    model and speech synthesis are not part of this model. */
module IntegratedPodcast {
  import opened Wrappers
  import opened Text

  // ---------------------------------------------------------------------
  // Input type

  datatype InputType = YouTube | Url | Pdf | PlainText

  /** The input starts with `http://` or `https://`. */
  predicate IsWebAddress(source: string) {
    "http://" <= source || "https://" <= source
  }

  /** `detect_input_type`: a web address is a YouTube video when it
      mentions `youtube.com` or `youtu.be` and a page otherwise; an
      existing file is a PDF by its `.pdf` suffix; everything else is text.
      `suffix` is the lower-cased suffix of an existing file, `None` when
      no such file exists. */
  function DetectInputType(source: string, suffix: Option<string>): (r: InputType)
    ensures r == YouTube <==> IsWebAddress(source) && (Contains(source, "youtube.com") || Contains(source, "youtu.be"))
    ensures r == Url <==> IsWebAddress(source) && !Contains(source, "youtube.com") && !Contains(source, "youtu.be")
    ensures r == Pdf <==> !IsWebAddress(source) && suffix == Some(".pdf")
  {
    if IsWebAddress(source) then
      if Contains(source, "youtube.com") || Contains(source, "youtu.be") then YouTube else Url
    else if suffix == Some(".pdf") then Pdf
    else PlainText
  }

  /** Every short link and every full YouTube address is a video. */
  lemma YouTubeAddresses(id: string)
    ensures DetectInputType("https://youtu.be/" + id, None) == YouTube
    ensures DetectInputType("https://www.youtube.com/watch?v=" + id, None) == YouTube
  {
    var short := "https://youtu.be/" + id;
    assert short[..8] == "https://";
    assert short[8..16] == "youtu.be";
    assert OccursAt(short, "youtu.be", 8);
    var full := "https://www.youtube.com/watch?v=" + id;
    assert full[..8] == "https://";
    assert full[12..23] == "youtube.com";
    assert OccursAt(full, "youtube.com", 12);
  }

  // ---------------------------------------------------------------------
  // Length parameters

  /** One row of `community_best_practices`. */
  datatype LengthParams = LengthParams(wordCount: int, maxNumChunks: int, minChunkSize: int, style: seq<string>)

  /** The table's keys, in the order the dictionary lists them. */
  const Keys: seq<real> := [0.5, 1.0, 2.0, 3.0, 5.0, 10.0, 15.0, 20.0]

  /** The table's rows, key by key. */
  const Rows: seq<LengthParams> := [
    LengthParams(200, 3, 600, ["concise", "focused"]),
    LengthParams(300, 4, 600, ["concise", "engaging"]),
    LengthParams(600, 5, 600, ["engaging", "informative"]),
    LengthParams(800, 6, 600, ["engaging", "educational"]),
    LengthParams(1200, 8, 700, ["detailed", "comprehensive"]),
    LengthParams(2000, 12, 800, ["in-depth", "analytical"]),
    LengthParams(3000, 15, 800, ["academic", "comprehensive"]),
    LengthParams(4000, 18, 900, ["detailed", "thorough"])]

  function Dist(key: real, target: int): real {
    if key >= target as real then key - target as real else target as real - key
  }

  /** `min(keys, key=lambda x: abs(x - target))`: the position of the
      nearest key, the earliest one among equally near keys. */
  function ClosestIndex(keys: seq<real>, target: int): (i: nat)
    requires |keys| > 0
    ensures i < |keys|
    ensures forall j :: 0 <= j < |keys| ==> Dist(keys[i], target) <= Dist(keys[j], target)
    ensures forall j :: 0 <= j < i ==> Dist(keys[j], target) > Dist(keys[i], target)
  {
    if |keys| == 1 then 0
    else
      var i := ClosestIndex(keys[..|keys| - 1], target);
      if Dist(keys[|keys| - 1], target) < Dist(keys[i], target) then |keys| - 1 else i
  }

  /** `calculate_length_parameters`: the row of the nearest key, or past the
      last key a row grown with the target and capped. */
  function LengthParameters(target: int): (r: LengthParams)
    ensures target > 20 ==> r == LengthParams(Min(target * 200, 8000), Min(target, 25), 900, ["comprehensive", "detailed"])
    ensures target <= 20 ==> r == Rows[ClosestIndex(Keys, target)]
  {
    var row := Rows[ClosestIndex(Keys, target)];
    if target as real > 20.0 then
      LengthParams(Min(target * 200, 8000), Min(target, 25), 900, ["comprehensive", "detailed"])
    else row
  }

  function Min(a: int, b: int): int { if a <= b then a else b }

  /** The nearest key for every whole target up to the last key: a tie
      between two keys goes to the smaller one, so 4 minutes read as 3 and
      no minutes as half a minute. */
  lemma ClosestKeys(target: int)
    requires target <= 20
    ensures var k := Keys[ClosestIndex(Keys, target)];
      && (target <= 0 ==> k == 0.5)
      && (1 <= target <= 3 ==> k == target as real)
      && (target == 4 ==> k == 3.0)
      && (5 <= target <= 7 ==> k == 5.0)
      && (8 <= target <= 12 ==> k == 10.0)
      && (13 <= target <= 17 ==> k == 15.0)
      && (18 <= target ==> k == 20.0)
  {
    var i := ClosestIndex(Keys, target);
    assert Keys[0] == 0.5 && Keys[1] == 1.0 && Keys[2] == 2.0 && Keys[3] == 3.0;
    assert Keys[4] == 5.0 && Keys[5] == 10.0 && Keys[6] == 15.0 && Keys[7] == 20.0;
  }

  /** The parameters stay within the table's range and the cap: between 200
      and 8000 words, at most 25 chunks, chunks of 600 to 900 characters. */
  lemma LengthBounds(target: int)
    ensures var r := LengthParameters(target);
      200 <= r.wordCount <= 8000 && 3 <= r.maxNumChunks <= 25 && 600 <= r.minChunkSize <= 900 && |r.style| == 2
  {
    if target <= 20 {
      var i := ClosestIndex(Keys, target);
      assert Rows[i] in Rows;
    }
  }

  /** The position of the nearest key, target by target, as `ClosestKeys`
      reads it off. */
  function KeyIndexOf(target: int): nat {
    if target <= 0 then 0
    else if target <= 3 then target
    else if target == 4 then 3
    else if target <= 7 then 4
    else if target <= 12 then 5
    else if target <= 17 then 6
    else 7
  }

  lemma ClosestIndexIs(target: int)
    requires target <= 20
    ensures ClosestIndex(Keys, target) == KeyIndexOf(target)
  {
    ClosestKeys(target);
  }

  lemma RowsGrow(i: nat, j: nat)
    requires i <= j < |Rows|
    ensures Rows[i].wordCount <= Rows[j].wordCount && Rows[i].maxNumChunks <= Rows[j].maxNumChunks
  {
  }

  /** A longer target never asks for fewer words or fewer chunks. */
  lemma LengthMonotone(s: int, t: int)
    requires s <= t
    ensures LengthParameters(s).wordCount <= LengthParameters(t).wordCount
    ensures LengthParameters(s).maxNumChunks <= LengthParameters(t).maxNumChunks
  {
    if t <= 20 {
      ClosestIndexIs(s);
      ClosestIndexIs(t);
      RowsGrow(KeyIndexOf(s), KeyIndexOf(t));
    } else if s <= 20 {
      ClosestIndexIs(s);
      RowsGrow(KeyIndexOf(s), 7);
    }
  }

  // ---------------------------------------------------------------------
  // Guidance

  datatype Guidance = Overview | Moderate | Balanced | InDepth

  /** The guidance band of `_generate_smart_instructions`. */
  function GuidanceBand(target: int): (r: Guidance)
    ensures r == Overview <==> target <= 1
    ensures r == Moderate <==> 1 < target <= 3
    ensures r == Balanced <==> 3 < target <= 5
    ensures r == InDepth <==> 5 < target
  {
    if target <= 1 then Overview
    else if target <= 3 then Moderate
    else if target <= 5 then Balanced
    else InDepth
  }

  /** The style mix quoted in the instructions: the row's styles joined by
      commas. */
  function StyleMix(params: LengthParams): string {
    Join(", ", params.style)
  }
}
