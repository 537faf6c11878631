/** The chapter-selection helpers of the storytelling command line
    (`storytelling_cli/__main__.py`): reading a selection such as
    `1,3-5,chapter7` against the list of candidate slugs, filtering chapter
    statuses by what has been generated, and colouring terminal text. */
module Cli {
  import opened Wrappers
  import opened Text
  import opened Seqs
  import opened Status

  // ---------------------------------------------------------------------
  // Selections
  // ---------------------------------------------------------------------

  /** The `ValueError`s `_parse_selection` raises. */
  datatype SelectionError =
    | NothingEntered
    | IndexOutOfRange(index: nat)
    | InvalidPart(part: string)
    | NothingMatched

  /** `part.isdigit()` for ASCII text. */
  predicate IsNumber(part: string) {
    part != [] && AllDigits(part)
  }

  /** The bounds of a part matching `^(\d+)-(\d+)$`. */
  function RangeOf(part: string): Option<(nat, nat)>
  {
    var (a, found, b) := Partition(part, "-");
    if found && IsNumber(a) && IsNumber(b) then Some((DigitsValue(a), DigitsValue(b))) else None
  }

  /** The candidates at positions `lo` up to but excluding `hi` that exist. */
  function Window(candidates: seq<string>, lo: nat, hi: nat): (r: seq<string>)
    ensures forall x :: x in r ==> x in candidates
    ensures forall k :: 0 <= k < |r| ==> lo + k < hi && lo + k < |candidates| && r[k] == candidates[lo + k]
    ensures forall i :: lo <= i < hi && i < |candidates| ==> candidates[i] in r
  {
    var a := if lo < |candidates| then lo else |candidates|;
    var b := if hi < |candidates| then hi else |candidates|;
    if a < b then candidates[a..b] else []
  }

  /** The slugs one part of a selection names, in order: the candidate at
      an index, the existing candidates of an inclusive range whose ends
      may come in either order, or a slug named outright. */
  function PartSlugs(part: string, candidates: seq<string>): (r: Result<seq<string>, SelectionError>)
    ensures r.Ok? ==> forall x :: x in r.value ==> x in candidates
  {
    if IsNumber(part) then IndexSlug(DigitsValue(part), candidates)
    else if RangeOf(part).Some? then Ok(RangeSlugs(RangeOf(part).value.0, RangeOf(part).value.1, candidates))
    else NamedSlug(part, candidates)
  }

  /** A lone index: the candidate there, or `IndexOutOfRange`. */
  function IndexSlug(idx: nat, candidates: seq<string>): (r: Result<seq<string>, SelectionError>)
    ensures r.Ok? <==> idx < |candidates|
    ensures r.Ok? ==> r.value == [candidates[idx]]
  {
    if idx < |candidates| then Ok([candidates[idx]]) else Err(IndexOutOfRange(idx))
  }

  /** A range `a-b`: the existing candidates from the smaller end to the
      larger one, inclusive. */
  function RangeSlugs(a: nat, b: nat, candidates: seq<string>): (r: seq<string>)
    ensures forall x :: x in r ==> x in candidates
  {
    var (lo, hi) := if a > b then (b, a) else (a, b);
    Window(candidates, lo, hi + 1)
  }

  /** A slug named outright, which must be a candidate. */
  function NamedSlug(part: string, candidates: seq<string>): (r: Result<seq<string>, SelectionError>)
    ensures r.Ok? <==> part in candidates
    ensures r.Ok? ==> r.value == [part]
  {
    if part in candidates then Ok([part]) else Err(InvalidPart(part))
  }

  /** Every slug the parts name, in order of mention, or the error of the
      first part that raises. */
  function Mentions(parts: seq<string>, candidates: seq<string>): (r: Result<seq<string>, SelectionError>)
    ensures r.Ok? ==> forall x :: x in r.value ==> x in candidates
  {
    if parts == [] then Ok([])
    else
      match Mentions(parts[..|parts| - 1], candidates)
      case Err(e) => Err(e)
      case Ok(before) =>
        match PartSlugs(parts[|parts| - 1], candidates)
        case Err(e) => Err(e)
        case Ok(slugs) => Ok(before + slugs)
  }

  /** The text is `all` or `a` in any case. */
  predicate IsAll(sel: string) {
    Lower(sel) == "all" || Lower(sel) == "a"
  }

  /** The chosen slugs once the parts are read: each named slug once, in
      order of first mention; nothing named raises. */
  function Chosen(named: Result<seq<string>, SelectionError>): (r: Result<seq<string>, SelectionError>)
    ensures named.Err? ==> r == Err(named.error)
    ensures named.Ok? && r.Ok? ==> |r.value| > 0 && forall x :: x in r.value <==> x in named.value
    ensures r.Ok? ==> Distinct(r.value)
    ensures named.Ok? ==> (r.Err? <==> named.value == [])
  {
    match named
    case Err(e) => Err(e)
    case Ok(slugs) => if Dedup(slugs) == [] then Err(NothingMatched) else Ok(Dedup(slugs))
  }

  /** `_parse_selection`: blank text raises; `all` or `a` in any case takes
      every candidate; otherwise the slugs the parts name, each once, in
      order of first mention, at least one, and only candidates. */
  function Selection(selection: string, candidates: seq<string>): (r: Result<seq<string>, SelectionError>)
    ensures Strip(selection) == [] ==> r == Err(NothingEntered)
    ensures Strip(selection) != [] && IsAll(Strip(selection)) ==> r == Ok(candidates)
    ensures r.Ok? ==> forall x :: x in r.value ==> x in candidates
    ensures r.Ok? && !IsAll(Strip(selection)) ==>
      |r.value| > 0 && Distinct(r.value)
  {
    var sel := Strip(selection);
    if sel == [] then Err(NothingEntered)
    else if IsAll(sel) then Ok(candidates)
    else Chosen(Mentions(CommaParts(sel), candidates))
  }

  /** `_parse_selection`, with the `chosen` list and the `seen` set. */
  method ParseSelection(selection: string, candidates: seq<string>) returns (r: Result<seq<string>, SelectionError>)
    ensures r == Selection(selection, candidates)
  {
    var sel := Strip(selection);
    if sel == [] {
      return Err(NothingEntered);
    }
    if IsAll(sel) {
      return Ok(candidates);
    }
    r := ChooseParts(CommaParts(sel), candidates);
  }

  /** The loop over the parts. */
  method ChooseParts(parts: seq<string>, candidates: seq<string>) returns (r: Result<seq<string>, SelectionError>)
    ensures r == Chosen(Mentions(parts, candidates))
  {
    var chosen: seq<string> := [];
    var seen: set<string> := {};
    for k := 0 to |parts|
      invariant Mentions(parts[..k], candidates).Ok?
      invariant chosen == Dedup(Mentions(parts[..k], candidates).value)
      invariant forall x :: x in seen <==> x in chosen
    {
      var step := TakePart(parts[k], candidates, Mentions(parts[..k], candidates).value, chosen, seen);
      if step.Err? {
        MentionsStop(parts, k, candidates);
        return Err(step.error);
      }
      MentionsSnoc(parts, k, candidates);
      chosen, seen := step.value.0, step.value.1;
    }
    assert parts[..|parts|] == parts;
    if chosen == [] {
      return Err(NothingMatched);
    }
    return Ok(chosen);
  }

  /** The body of the loop for one part: the slugs it names are added when
      not seen yet, or the part's error is raised. */
  method TakePart(part: string, candidates: seq<string>, ghost named: seq<string>, chosen0: seq<string>, seen0: set<string>)
    returns (r: Result<(seq<string>, set<string>), SelectionError>)
    requires chosen0 == Dedup(named) && forall x :: x in seen0 <==> x in chosen0
    ensures PartSlugs(part, candidates).Err? ==> r == Err(PartSlugs(part, candidates).error)
    ensures PartSlugs(part, candidates).Ok? ==>
      r.Ok? && r.value.0 == Dedup(named + PartSlugs(part, candidates).value) &&
      forall x :: x in r.value.1 <==> x in r.value.0
  {
    if IsNumber(part) {
      var idx := DigitsValue(part);
      if idx >= |candidates| {
        return Err(IndexOutOfRange(idx));
      }
      var chosen, seen := AddSlug(named, chosen0, seen0, candidates[idx]);
      return Ok((chosen, seen));
    }
    var range := RangeOf(part);
    if range.Some? {
      RangePart(part, candidates);
      var chosen, seen := TakeRange(candidates, named, chosen0, seen0, range.value.0, range.value.1);
      return Ok((chosen, seen));
    }
    if part in candidates {
      var chosen, seen := AddSlug(named, chosen0, seen0, part);
      return Ok((chosen, seen));
    }
    return Err(InvalidPart(part));
  }

  /** A slug is chosen, and seen, unless it was seen already. */
  method AddSlug(ghost named: seq<string>, chosen0: seq<string>, seen0: set<string>, slug: string)
    returns (chosen: seq<string>, seen: set<string>)
    requires chosen0 == Dedup(named) && forall x :: x in seen0 <==> x in chosen0
    ensures chosen == Dedup(named + [slug])
    ensures forall x :: x in seen <==> x in chosen
  {
    DedupSnoc(named, slug);
    chosen, seen := chosen0, seen0;
    if slug !in seen {
      chosen := chosen + [slug];
      seen := seen + {slug};
    }
  }

  /** A range whose ends come in either order: they are swapped when the
      start is the larger. */
  method TakeRange(candidates: seq<string>, ghost named: seq<string>, chosen0: seq<string>, seen0: set<string>, start: nat, end: nat)
    returns (chosen: seq<string>, seen: set<string>)
    requires chosen0 == Dedup(named) && forall x :: x in seen0 <==> x in chosen0
    ensures chosen == Dedup(named + RangeSlugs(start, end, candidates))
    ensures forall x :: x in seen <==> x in chosen
  {
    var lo, hi := start, end;
    if lo > hi {
      lo, hi := hi, lo;
    }
    RangeSlugsOrdered(start, end, candidates);
    ghost var slugs := Window(candidates, lo, hi + 1);
    assert RangeSlugs(start, end, candidates) == slugs;
    chosen, seen := AddRange(candidates, named, chosen0, seen0, lo, hi);
    assert chosen == Dedup(named + slugs);
  }

  /** The inner loop of a range: each existing candidate from `lo` to `hi`
      that has not been seen yet is chosen. */
  method AddRange(candidates: seq<string>, ghost named: seq<string>, chosen0: seq<string>, seen0: set<string>, lo: nat, hi: nat)
    returns (chosen: seq<string>, seen: set<string>)
    requires lo <= hi
    requires chosen0 == Dedup(named) && forall x :: x in seen0 <==> x in chosen0
    ensures chosen == Dedup(named + Window(candidates, lo, hi + 1))
    ensures forall x :: x in seen <==> x in chosen
  {
    chosen, seen := chosen0, seen0;
    assert named + Window(candidates, lo, lo) == named;
    for idx := lo to hi + 1
      invariant chosen == Dedup(named + Window(candidates, lo, idx))
      invariant forall x :: x in seen <==> x in chosen
    {
      AddRangeStep(candidates, named, lo, idx);
      if idx < |candidates| {
        var slug := candidates[idx];
        if slug !in seen {
          chosen := chosen + [slug];
          seen := seen + {slug};
        }
      }
    }
  }

  /** One step of the range loop: the candidate at `idx`, when it exists
      and is new, is appended; otherwise nothing changes. */
  lemma AddRangeStep(candidates: seq<string>, named: seq<string>, lo: nat, idx: nat)
    requires lo <= idx
    ensures var before := Dedup(named + Window(candidates, lo, idx));
      Dedup(named + Window(candidates, lo, idx + 1)) ==
        if idx < |candidates| && candidates[idx] !in before then before + [candidates[idx]] else before
  {
    if idx < |candidates| {
      var slug := candidates[idx];
      WindowSnoc(candidates, lo, idx);
      assert named + Window(candidates, lo, idx + 1) == (named + Window(candidates, lo, idx)) + [slug];
      DedupSnoc(named + Window(candidates, lo, idx), slug);
    } else {
      WindowBeyond(candidates, lo, idx);
    }
  }

  lemma RangePart(part: string, candidates: seq<string>)
    requires !IsNumber(part) && RangeOf(part).Some?
    ensures PartSlugs(part, candidates) == Ok(RangeSlugs(RangeOf(part).value.0, RangeOf(part).value.1, candidates))
  {
  }

  lemma MentionsSnoc(parts: seq<string>, k: nat, candidates: seq<string>)
    requires k < |parts| && Mentions(parts[..k], candidates).Ok? && PartSlugs(parts[k], candidates).Ok?
    ensures Mentions(parts[..k + 1], candidates) == Ok(Mentions(parts[..k], candidates).value + PartSlugs(parts[k], candidates).value)
  {
    assert parts[..k + 1][..k] == parts[..k];
  }

  lemma WindowSnoc(candidates: seq<string>, lo: nat, idx: nat)
    requires lo <= idx < |candidates|
    ensures Window(candidates, lo, idx + 1) == Window(candidates, lo, idx) + [candidates[idx]]
  {
  }

  lemma WindowBeyond(candidates: seq<string>, lo: nat, idx: nat)
    requires |candidates| <= idx
    ensures Window(candidates, lo, idx + 1) == Window(candidates, lo, idx)
  {
  }

  /** A part that raises ends the selection with its error. */
  lemma MentionsStop(parts: seq<string>, k: nat, candidates: seq<string>)
    requires k < |parts| && Mentions(parts[..k], candidates).Ok? && PartSlugs(parts[k], candidates).Err?
    ensures Mentions(parts, candidates) == PartSlugs(parts[k], candidates)
  {
    assert parts[..k + 1][..k] == parts[..k];
    MentionsFirstError(parts, k + 1, candidates);
  }

  /** Once a prefix of the parts raises, the selection raises the same. */
  lemma {:induction false} MentionsFirstError(parts: seq<string>, k: nat, candidates: seq<string>)
    requires k <= |parts| && Mentions(parts[..k], candidates).Err?
    ensures Mentions(parts, candidates) == Mentions(parts[..k], candidates)
    decreases |parts| - k
  {
    if k < |parts| {
      assert parts[..k + 1][..k] == parts[..k];
      MentionsFirstError(parts, k + 1, candidates);
    } else {
      assert parts[..k] == parts;
    }
  }

  /** A lone index in range chooses that candidate. */
  lemma SelectIndex(i: nat, candidates: seq<string>)
    requires i < |candidates|
    ensures Selection(NatToString(i), candidates) == Ok([candidates[i]])
  {
    var d := NatToString(i);
    IndexText(d);
    OnePart(d);
    NatToStringValue(i);
    assert PartSlugs(d, candidates) == Ok([candidates[i]]);
    MentionsOne(d, candidates);
    ChosenOne(candidates[i]);
  }

  lemma MentionsOne(part: string, candidates: seq<string>)
    ensures Mentions([part], candidates) == PartSlugs(part, candidates)
  {
    assert [part][..0] == [];
    assert Mentions([], candidates) == Ok([]);
    if PartSlugs(part, candidates).Ok? {
      assert [] + PartSlugs(part, candidates).value == PartSlugs(part, candidates).value;
    }
  }

  lemma ChosenOne(slug: string)
    ensures Chosen(Ok([slug])) == Ok([slug])
  {
    var one := [slug];
    assert one[..|one| - 1] == [];
    assert Dedup(one) == one;
  }

  lemma OnePart(d: string)
    requires IsNumber(d) && Strip(d) == d
    ensures CommaParts(d) == [d]
  {
    DigitsLack(d, ',');
    SplitLacks(d, ',');
    StripOne(d);
    FilterOne(d);
  }

  lemma StripOne(d: string)
    requires Strip(d) == d
    ensures StripAll([d]) == [d]
  {
  }

  lemma FilterOne(d: string)
    requires d != []
    ensures Filter([d], NonEmpty) == [d]
  {
    assert [d][..0] == [];
  }

  /** A written number is stripped, and neither `all` nor `a`. */
  lemma IndexText(d: string)
    requires IsNumber(d)
    ensures Strip(d) == d && !IsAll(d)
  {
    assert IsDigit(d[0]) && IsDigit(d[|d| - 1]);
    StripTrimmed(d);
    assert Lower(d)[0] == d[0];
  }

  /** A range reads back as its two ends. */
  lemma RangeOfWritten(a: nat, b: nat)
    ensures RangeOf(NatToString(a) + "-" + NatToString(b)) == Some((a, b))
  {
    DigitsLack(NatToString(a), '-');
    PartitionAt(NatToString(a), "-", NatToString(b));
    NatToStringValue(a);
    NatToStringValue(b);
  }

  /** `a-b` and `b-a` name the same candidates: those at positions from
      the smaller to the larger end, inclusive, that exist. */
  lemma RangeEitherWay(a: nat, b: nat, candidates: seq<string>)
    ensures PartSlugs(NatToString(a) + "-" + NatToString(b), candidates) == PartSlugs(NatToString(b) + "-" + NatToString(a), candidates)
    ensures var lo, hi := if a < b then a else b, if a < b then b else a;
      PartSlugs(NatToString(a) + "-" + NatToString(b), candidates) == Ok(Window(candidates, lo, hi + 1))
  {
    RangeWritten(a, b, candidates);
    RangeWritten(b, a, candidates);
  }

  lemma RangeWritten(a: nat, b: nat, candidates: seq<string>)
    ensures var lo, hi := if a < b then a else b, if a < b then b else a;
      PartSlugs(NatToString(a) + "-" + NatToString(b), candidates) == Ok(Window(candidates, lo, hi + 1))
  {
    var part := NatToString(a) + "-" + NatToString(b);
    RangeOfWritten(a, b);
    DashNotNumber(NatToString(a), NatToString(b));
    RangePart(part, candidates);
    assert PartSlugs(part, candidates) == Ok(RangeSlugs(a, b, candidates));
    RangeSlugsOrdered(a, b, candidates);
  }

  lemma RangeSlugsOrdered(a: nat, b: nat, candidates: seq<string>)
    ensures a <= b ==> RangeSlugs(a, b, candidates) == Window(candidates, a, b + 1)
    ensures b < a ==> RangeSlugs(a, b, candidates) == Window(candidates, b, a + 1)
  {
  }

  lemma DashNotNumber(x: string, y: string)
    ensures !IsNumber(x + "-" + y)
  {
    assert (x + "-" + y)[|x|] == '-';
  }

  // ---------------------------------------------------------------------
  // Filtering chapter statuses
  // ---------------------------------------------------------------------

  /** `matches_required`: the status shows what the key asks for; a
      missing or unknown key asks for nothing. */
  predicate MatchesRequired(status: ChapterStatus, required: Option<string>) {
    match required
    case None => true
    case Some(key) =>
      if key == "source" then status.hasSource
      else if key == "summary" then status.hasSummary
      else if key == "nosummary" then !status.hasSummary
      else if key == "script" then status.hasScript
      else if key == "noscript" then !status.hasScript
      else if key == "audio" then status.hasAudio
      else if key == "noaudio" then !status.hasAudio
      else if key == "subtitle" then status.hasSubtitle
      else if key == "nosubtitle" then !status.hasSubtitle
      else true
  }

  /** The test of one item of the optional list, stripped first: a
      `requires_*` item needs its artefact, and unknown items hold. */
  function ItemCheck(status: ChapterStatus): string -> bool {
    item =>
      var it := Strip(item);
      (it == "requires_source" ==> status.hasSource) &&
      (it == "requires_summary" ==> status.hasSummary) &&
      (it == "requires_script" ==> status.hasScript) &&
      (it == "requires_audio" ==> status.hasAudio) &&
      (it == "requires_subtitle" ==> status.hasSubtitle)
  }

  /** An item that asks for a missing artefact fails. */
  lemma ItemFails(status: ChapterStatus, raw: string)
    requires var item := Strip(raw);
      (item == "requires_source" && !status.hasSource) ||
      (item == "requires_summary" && !status.hasSummary) ||
      (item == "requires_script" && !status.hasScript) ||
      (item == "requires_audio" && !status.hasAudio) ||
      (item == "requires_subtitle" && !status.hasSubtitle)
    ensures !ItemCheck(status)(raw)
  {
  }

  /** `satisfies_optional`: every item of the comma-separated list holds. */
  predicate SatisfiesOptional(status: ChapterStatus, optional: string) {
    optional == [] || AllOf(Split(optional, ","), ItemCheck(status))
  }

  /** The loop of `satisfies_optional`, which stops at the first item that
      fails. */
  method CheckOptional(status: ChapterStatus, optional: string) returns (ok: bool)
    ensures ok == SatisfiesOptional(status, optional)
  {
    if optional == [] {
      return true;
    }
    var items := Split(optional, ",");
    for k := 0 to |items|
      invariant AllOf(items[..k], ItemCheck(status))
    {
      var item := Strip(items[k]);
      if item == [] {
        AllOfSnoc(items, k, ItemCheck(status));
        continue;
      }
      if (item == "requires_source" && !status.hasSource) ||
         (item == "requires_summary" && !status.hasSummary) ||
         (item == "requires_script" && !status.hasScript) ||
         (item == "requires_audio" && !status.hasAudio) ||
         (item == "requires_subtitle" && !status.hasSubtitle) {
        ItemFails(status, items[k]);
        NotAllOf(items, k, ItemCheck(status));
        return false;
      }
      AllOfSnoc(items, k, ItemCheck(status));
    }
    assert items[..|items|] == items;
    return true;
  }

  /** `_filter_chapters`: the statuses that satisfy both tests, in order. */
  function FilterChapters(statuses: seq<ChapterStatus>, required: Option<string>, optional: string): (r: seq<ChapterStatus>)
    ensures forall s :: s in r <==> s in statuses && MatchesRequired(s, required) && SatisfiesOptional(s, optional)
  {
    Filter(statuses, s => MatchesRequired(s, required) && SatisfiesOptional(s, optional))
  }

  /** Asking for a thing and for its absence splits the statuses in two. */
  lemma FilterComplements(statuses: seq<ChapterStatus>)
    ensures forall s :: s in statuses ==>
      (s in FilterChapters(statuses, Some("summary"), "") <==> s !in FilterChapters(statuses, Some("nosummary"), ""))
    ensures forall s :: s in statuses ==>
      (s in FilterChapters(statuses, Some("audio"), "") <==> s !in FilterChapters(statuses, Some("noaudio"), ""))
  {
  }

  // ---------------------------------------------------------------------
  // Colour
  // ---------------------------------------------------------------------

  /** The escape character that starts every ANSI code. */
  const Esc: char := '\U{1B}'

  /** An ANSI "select graphic rendition" code: escape, `[`, digits and
      semicolons, then `m`. */
  predicate Sgr(code: string) {
    |code| >= 3 && code[0] == Esc && code[1] == '[' && code[|code| - 1] == 'm' &&
    forall i :: 2 <= i < |code| - 1 ==> code[i] in "0123456789;"
  }

  /** The colour names of `COLOR_CODES`. */
  const ColorNames: set<string> := {"red", "green", "yellow", "blue", "purple", "cyan", "white", "gray", "reset"}

  /** The ANSI codes of `COLOR_CODES`: a code exactly for the nine names,
      and each one a graphic-rendition sequence starting with escape. */
  function ColorCode(color: string): (r: Option<string>)
    ensures r.Some? <==> color in ColorNames
    ensures r.Some? ==> Sgr(r.value)
  {
    if color == "red" then Some("\U{1B}[0;31m")
    else if color == "green" then Some("\U{1B}[0;32m")
    else if color == "yellow" then Some("\U{1B}[1;33m")
    else if color == "blue" then Some("\U{1B}[0;34m")
    else if color == "purple" then Some("\U{1B}[0;35m")
    else if color == "cyan" then Some("\U{1B}[0;36m")
    else if color == "white" then Some("\U{1B}[1;37m")
    else if color == "gray" then Some("\U{1B}[0;90m")
    else if color == "reset" then Some("\U{1B}[0m")
    else None
  }

  /** `COLOR_CODES['reset']`. */
  const Reset: string := "\U{1B}[0m"

  /** Each name's code, written out character by character: escape, then
      the bracketed parameters; `reset` is `Reset`. */
  lemma ColorCodeTexts()
    ensures ColorCode("red") == Some([Esc, '[', '0', ';', '3', '1', 'm'])
    ensures ColorCode("green") == Some([Esc, '[', '0', ';', '3', '2', 'm'])
    ensures ColorCode("yellow") == Some([Esc, '[', '1', ';', '3', '3', 'm'])
    ensures ColorCode("blue") == Some([Esc, '[', '0', ';', '3', '4', 'm'])
    ensures ColorCode("purple") == Some([Esc, '[', '0', ';', '3', '5', 'm'])
    ensures ColorCode("cyan") == Some([Esc, '[', '0', ';', '3', '6', 'm'])
    ensures ColorCode("white") == Some([Esc, '[', '1', ';', '3', '7', 'm'])
    ensures ColorCode("gray") == Some([Esc, '[', '0', ';', '9', '0', 'm'])
    ensures ColorCode("reset") == Some(Reset) && Reset == [Esc, '[', '0', 'm']
  {
  }

  /** `colorize`: the text unchanged when colour is off or unknown, else
      wrapped in the colour's code and the reset code. */
  function Colorize(text: string, color: string, enabled: bool): (r: string)
    ensures !enabled || ColorCode(color).None? ==> r == text
    ensures enabled && ColorCode(color).Some? ==> r == ColorCode(color).value + text + Reset
  {
    if !enabled || ColorCode(color).None? then text else ColorCode(color).value + text + Reset
  }

  /** The coloured text gives the plain text back once its code and the
      reset are cut off; the code in front is an escape sequence and the
      one behind is the reset. */
  lemma ColorizeUncolored(text: string, color: string, enabled: bool)
    ensures var r := Colorize(text, color, enabled);
      var pre := if enabled && ColorCode(color).Some? then |ColorCode(color).value| else 0;
      var post := if enabled && ColorCode(color).Some? then |Reset| else 0;
      |r| == pre + |text| + post && r[pre..|r| - post] == text &&
      (enabled && ColorCode(color).Some? ==> r[0] == Esc && Sgr(r[..pre]) && r[|r| - post..] == Reset)
  {
    var r := Colorize(text, color, enabled);
    if enabled && ColorCode(color).Some? {
      var code := ColorCode(color).value;
      assert r[..|code|] == code;
      assert r[|r| - |Reset|..] == Reset;
    }
  }
}
