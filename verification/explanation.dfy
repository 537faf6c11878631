/** The sentence and phrase explainer of `server/app/services/explanation.py`:
    the clean-up of the model's JSON reply (`_parse_json`, `_ensure_string`,
    `_normalize_list`, `_parse_vocabulary`), phrase normalisation, and the
    bounded least-recently-used cache of results.

    The Gemini call is not modelled: each request receives the text
    `_extract_text` would return for the reply as a parameter (`None` when
    the request raised) and `json.loads` as a function parameter. The
    SHA-256 digest of a cache-key payload is taken to be injective, so the
    cache is keyed by the payload itself. Arguments the service reads as
    `x or ""` are plain strings here, `None` being passed as `""`. */
module Explanation {
  import opened Wrappers
  import opened Text
  import opened Seqs
  import opened OrderedDicts
  import opened PyValues

  datatype VocabularyEntry = VocabularyEntry(word: string, meaning: string, note: Option<string>)

  datatype ExplanationResult = ExplanationResult(
    overview: string, keyPoints: seq<string>, vocabulary: seq<VocabularyEntry>, cached: bool)

  /** `ValueError` for the first three, `SentenceExplanationError` for the
      service failures, `AttributeError` when the reply is JSON but not an
      object. */
  datatype ExplainError =
    | EmptySentence | EmptyPhrase | EmptyNormalizedPhrase
    | RequestFailed | EmptyResponse | InvalidJson | NotAnObject

  const OverviewFallback: string := "(無法取得概述)"
  const DefaultLanguage: string := "zh-TW"

  // ------------------------------------------------------------ _ensure_string

  /** `_ensure_string`: a string is stripped, `None` gives the fallback, any
      other value is printed with `str` and stripped; an empty result gives
      the fallback. */
  function EnsureString(v: Value, fallback: string): (r: string)
    ensures r == fallback || (r != [] && Trimmed(r))
    ensures v.VNone? ==> r == fallback
    ensures v.VStr? ==> r == (if AllSpace(v.s) then fallback else Strip(v.s))
  {
    StripEmptyIffAllSpace(Str(v));
    var text := if v.VNone? then [] else Strip(Str(v));
    if text == [] then fallback else text
  }

  /** A number other than a float, a boolean, a list or an object never
      falls back: its printed form is never blank. */
  lemma {:induction false} EnsureStringPrinted(v: Value, fallback: string)
    requires !v.VStr? && !v.VPath? && !v.VFloat? && !v.VNone?
    ensures EnsureString(v, fallback) == Strip(Str(v)) != []
  {
    StrNonEmpty(v);
    StripEmptyIffAllSpace(Str(v));
  }

  /** A result that is already a non-blank stripped string comes back
      unchanged. */
  lemma {:induction false} EnsureStringStable(s: string, fallback: string)
    requires s != [] && Trimmed(s)
    ensures EnsureString(VStr(s), fallback) == s
  {
    StripTrimmed(s);
    StripEmptyIffAllSpace(s);
  }

  // ------------------------------------------------------------ _normalize_list

  /** One element of a key-point list: its text, when not blank. */
  function ItemText(item: Value): (r: Option<string>)
    ensures r.Some? ==> r.value != [] && Trimmed(r.value)
  {
    var text := EnsureString(item, "");
    StripTrimmed(text);
    if Strip(text) != [] then Some(Strip(text)) else None
  }

  /** `_normalize_list`: the non-blank stripped texts of a list's elements,
      in order; a string is a list of itself; anything else gives nothing. */
  function NormalizeList(v: Value): (r: seq<string>)
    ensures forall k :: 0 <= k < |r| ==> r[k] != [] && Trimmed(r[k])
    ensures v.VStr? ==> r == (if AllSpace(v.s) then [] else [Strip(v.s)])
    ensures !v.VList? && !v.VStr? ==> r == []
  {
    match v
    case VList(items) =>
      FilterMapAll(items, ItemText, (s: string) => s != [] && Trimmed(s));
      FilterMap(items, ItemText)
    case VStr(s) =>
      StripEmptyIffAllSpace(s);
      if Strip(s) != [] then [Strip(s)] else []
    case _ => []
  }

  /** The list's elements are treated one by one: the key points of a
      concatenation are the key points of each part. */
  lemma {:induction false} NormalizeListAppend(a: seq<Value>, b: seq<Value>)
    ensures NormalizeList(VList(a + b)) == NormalizeList(VList(a)) + NormalizeList(VList(b))
  {
    FilterMapAppend(a, b, ItemText);
  }

  /** One element gives its stripped text exactly when that text is not
      blank. */
  lemma {:induction false} NormalizeListOne(item: Value)
    ensures NormalizeList(VList([item])) ==
      (if EnsureString(item, "") == [] then [] else [EnsureString(item, "")])
  {
    ItemTextIs(item);
    FilterMapOne(item, ItemText);
  }

  lemma ItemTextIs(item: Value)
    ensures var text := EnsureString(item, "");
      ItemText(item) == if text == [] then None else Some(text)
  {
    var text := EnsureString(item, "");
    if text != [] {
      StripTrimmed(text);
    }
  }

  /** Every key point comes from an element of the list. */
  lemma {:induction false} NormalizeListMembers(items: seq<Value>)
    ensures forall s :: s in NormalizeList(VList(items)) <==>
      exists k :: 0 <= k < |items| && EnsureString(items[k], "") == s && s != []
  {
    FilterMapMembers(items, ItemText);
    forall k | 0 <= k < |items|
      ensures ItemText(items[k]) == if EnsureString(items[k], "") == [] then None else Some(EnsureString(items[k], ""))
    {
      StripTrimmed(EnsureString(items[k], ""));
    }
  }

  // ------------------------------------------------------------ _parse_vocabulary

  /** One vocabulary item: an object with a non-blank word and meaning; its
      note is kept when present and not `null`. */
  function VocabularyOf(item: Value): (r: Option<VocabularyEntry>)
    ensures !item.VDict? ==> r.None?
    ensures r.Some? ==> r.value.word != [] && Trimmed(r.value.word) && r.value.meaning != [] && Trimmed(r.value.meaning)
    ensures r.Some? ==> (r.value.note.None? <==> GetOr(item.entries, "note", VNone).VNone?)
    ensures item.VDict? ==>
      (r.Some? <==> EnsureString(GetOr(item.entries, "word", VNone), "") != [] &&
                    EnsureString(GetOr(item.entries, "meaning", VNone), "") != [])
  {
    match item
    case VDict(entries) =>
      var word := EnsureString(GetOr(entries, "word", VNone), "");
      var meaning := EnsureString(GetOr(entries, "meaning", VNone), "");
      var noteValue := GetOr(entries, "note", VNone);
      var note := if !noteValue.VNone? then Some(EnsureString(noteValue, "")) else None;
      if word == [] || meaning == [] then None else Some(VocabularyEntry(word, meaning, note))
    case _ => None
  }

  /** `_parse_vocabulary`: the well-formed items of a list, in order;
      anything but a list gives no entries. */
  function ParseVocabulary(v: Value): (r: seq<VocabularyEntry>)
    ensures !v.VList? ==> r == []
    ensures forall k :: 0 <= k < |r| ==> r[k].word != [] && r[k].meaning != []
    ensures forall k :: 0 <= k < |r| ==> Trimmed(r[k].word) && Trimmed(r[k].meaning)
  {
    match v
    case VList(items) =>
      FilterMapAll(items, VocabularyOf,
        (e: VocabularyEntry) => e.word != [] && e.meaning != [] && Trimmed(e.word) && Trimmed(e.meaning));
      FilterMap(items, VocabularyOf)
    case _ => []
  }

  /** An entry is in the vocabulary exactly when some item of the list
      yields it, items being taken one at a time. */
  lemma {:induction false} ParseVocabularyMembers(items: seq<Value>, more: seq<Value>)
    ensures forall e :: e in ParseVocabulary(VList(items)) <==>
      exists k :: 0 <= k < |items| && VocabularyOf(items[k]) == Some(e)
    ensures ParseVocabulary(VList(items + more)) == ParseVocabulary(VList(items)) + ParseVocabulary(VList(more))
  {
    FilterMapMembers(items, VocabularyOf);
    FilterMapAppend(items, more, VocabularyOf);
  }

  // ------------------------------------------------------------ _parse_json

  const Fence: string := "```"
  const JsonFence: string := "```json"

  /** The text `_parse_json` hands to `json.loads`: the stripped reply, or
      the stripped inside of its code fence. */
  function FenceBody(raw: string): (r: string)
    ensures Trimmed(r)
    ensures !Contains(Strip(raw), Fence) ==> r == Strip(raw)
  {
    var text := Strip(raw);
    if !Contains(text, Fence) then text
    else
      match Find(text, JsonFence)
      case Some(j) => JsonFenced(text, j)
      case None => PlainFenced(text)
  }

  /** After a ```` ```json ```` at `j`: from the line after it up to the next
      fence. With no newline Python's `find` gives -1, so the inside starts
      at 0. */
  function JsonFenced(text: string, j: nat): (r: string)
    requires Trimmed(text)
    ensures Trimmed(r)
  {
    var start := match FindFrom(text, "\n", j) case Some(n) => n + 1 case None => 0;
    match FindFrom(text, Fence, start)
    case Some(e) => Strip(text[start..e])
    case None => text
  }

  /** Between the first and the last fence, when they differ. */
  function PlainFenced(text: string): (r: string)
    requires Trimmed(text) && Contains(text, Fence)
    ensures Trimmed(r)
  {
    var s := Find(text, Fence).value;
    var e := RFind(text, Fence).value;
    if e > s then Strip(PySlice(text, s + 3, e)) else text
  }

  /** A reply fenced as JSON gives back its body, stripped. */
  lemma {:induction false} JsonFenceRoundTrip(body: string)
    requires Lacks(body, '`')
    ensures FenceBody("```json\n" + body + "```") == Strip(body)
  {
    var raw := "```json\n" + body + "```";
    StripTrimmed(raw);
    assert raw[..3] == Fence && raw[..7] == JsonFence;
    assert OccursAt(raw, Fence, 0) && OccursAt(raw, JsonFence, 0);
    assert raw == "```json" + "\n" + (body + "```");
    FindAfter("```json", "\n", body + "```");
    assert raw == "```json\n" + body + Fence + "";
    FindFromAfter("```json\n", body, Fence, "");
    assert raw[8..8 + |body|] == body;
  }

  /** A reply in a plain fence gives back its body, stripped, as long as
      the body does not itself start a ```` ```json ```` fence. */
  lemma {:induction false} PlainFenceRoundTrip(body: string)
    requires Lacks(body, '`') && (body == [] || body[0] != 'j')
    ensures FenceBody("```" + body + "```") == Strip(body)
  {
    var raw := "```" + body + "```";
    var m := 3 + |body|;
    StripTrimmed(raw);
    assert raw[..3] == Fence;
    assert OccursAt(raw, Fence, 0);
    NoJsonFence(body);
    LastFence(body);
    if body != [] {
      assert raw[3..m] == body;
    }
  }

  /** Around a body without backquotes that does not start with `j`, no
      ```` ```json ```` fence occurs. */
  lemma NoJsonFence(body: string)
    requires Lacks(body, '`') && (body == [] || body[0] != 'j')
    ensures Find("```" + body + "```", JsonFence).None?
  {
    var raw := "```" + body + "```";
    var m := 3 + |body|;
    assert forall i :: 3 <= i < m ==> raw[i] == body[i - 3];
    forall k: nat
      ensures !OccursAt(raw, JsonFence, k)
    {
      if k + 7 <= |raw| {
        var w := raw[k..k + 7];
        assert w[2] == raw[k + 2] && w[3] == raw[k + 3];
        if k == 0 {
          assert raw[3] != 'j';
        } else {
          assert raw[k + 2] == body[k - 1];
        }
      }
    }
  }

  /** The closing fence is the last one. */
  lemma LastFence(body: string)
    requires Lacks(body, '`')
    ensures RFind("```" + body + "```", Fence) == Some(3 + |body|)
  {
    var raw := "```" + body + "```";
    var m := 3 + |body|;
    assert raw[m..] == Fence;
    assert OccursAt(raw, Fence, m);
  }

  /** `_parse_json`: the decoded reply, or `InvalidJson`. */
  function ParseJson(raw: string, loads: string -> Option<Value>): (r: Result<Value, ExplainError>)
    ensures r.Ok? <==> loads(FenceBody(raw)).Some?
    ensures r.Ok? ==> r.value == loads(FenceBody(raw)).value
    ensures r.Err? ==> r.error == InvalidJson
  {
    match loads(FenceBody(raw))
    case Some(v) => Ok(v)
    case None => Err(InvalidJson)
  }

  // ------------------------------------------------------------ results

  /** Every text of a result is non-blank and stripped. */
  predicate WellFormed(res: ExplanationResult) {
    && res.overview != [] && Trimmed(res.overview)
    && (forall k :: 0 <= k < |res.keyPoints| ==> res.keyPoints[k] != [] && Trimmed(res.keyPoints[k]))
    && (forall k :: 0 <= k < |res.vocabulary| ==>
          res.vocabulary[k].word != [] && res.vocabulary[k].meaning != [])
  }

  /** The result built from a decoded reply object, not yet cached. */
  function BuildResult(entries: seq<(string, Value)>): (res: ExplanationResult)
    ensures WellFormed(res) && !res.cached
    ensures !HasKey(entries, "overview") ==> res.overview == OverviewFallback
    ensures !HasKey(entries, "key_points") && !HasKey(entries, "vocabulary") ==>
      res.keyPoints == [] && res.vocabulary == []
  {
    ExplanationResult(
      EnsureString(GetOr(entries, "overview", VStr("")), OverviewFallback),
      NormalizeList(GetOr(entries, "key_points", VList([]))),
      ParseVocabulary(GetOr(entries, "vocabulary", VList([]))),
      false)
  }

  /** What a cache miss yields from the reply: the request fails, the reply
      is empty, it is not JSON, it is JSON but not an object, or it builds a
      result. */
  function Respond(reply: Option<string>, loads: string -> Option<Value>): (r: Result<ExplanationResult, ExplainError>)
    ensures reply.None? ==> r == Err(RequestFailed)
    ensures reply == Some([]) ==> r == Err(EmptyResponse)
    ensures r.Ok? <==> (reply.Some? && reply.value != [] && loads(FenceBody(reply.value)).Some? &&
      loads(FenceBody(reply.value)).value.VDict?)
    ensures r.Ok? ==> WellFormed(r.value) && !r.value.cached
  {
    match reply
    case None => Err(RequestFailed)
    case Some(text) =>
      if text == [] then Err(EmptyResponse)
      else
        match ParseJson(text, loads)
        case Err(e) => Err(e)
        case Ok(VDict(entries)) => Ok(BuildResult(entries))
        case Ok(_) => Err(NotAnObject)
  }

  // ------------------------------------------------------------ _normalize_phrase

  const PhrasePunctuation: set<char> := {'.', ',', '!', '?', ';', ':', '"', '\''}

  /** `_normalize_phrase`: lower-cased, stripped, outer punctuation removed
      once, and runs of whitespace collapsed to single spaces. */
  function NormalizePhrase(phrase: string): (r: string)
  {
    Join(" ", SplitWs(StripChars(Strip(Lower(phrase)), PhrasePunctuation)))
  }

  /** The normal form is lower case, stripped, and single-spaced. */
  lemma {:induction false} NormalizePhraseForm(phrase: string)
    ensures CleanForm(NormalizePhrase(phrase)) && AllLower(NormalizePhrase(phrase))
  {
    var x := StripChars(Strip(Lower(phrase)), PhrasePunctuation);
    LowerIsLower(phrase);
    AllLowerStrip(Lower(phrase));
    AllLowerStripChars(Strip(Lower(phrase)), PhrasePunctuation);
    AllLowerSplitWs(x);
    JoinWordsClean(SplitWs(x));
    AllLowerJoin(SplitWs(x));
  }

  /** Punctuation is stripped once, so normalising again can change the
      result. */
  lemma {:induction false} NormalizePhraseNotIdempotent()
    ensures NormalizePhrase(". . a") == ". a"
    ensures NormalizePhrase(NormalizePhrase(". . a")) == "a"
  {
    NormalizeTwoDots();
    NormalizeOneDot();
  }

  lemma {:induction false} NormalizeTwoDots()
    ensures NormalizePhrase(". . a") == ". a"
  {
    LowerPlain(". . a");
    StripTrimmed(". . a");
    StripCharsOnce(". . a", " . a");
    SplitWsWords(" . a", ".", "a");
    assert Join(" ", [".", "a"]) == ". a";
  }

  lemma {:induction false} NormalizeOneDot()
    ensures NormalizePhrase(". a") == "a"
  {
    LowerPlain(". a");
    StripTrimmed(". a");
    StripCharsOnce(". a", " a");
    assert " a" == " " + "a";
    SplitWsLeading(" ", "a");
    SplitWsOfWord("a");
    JoinOne(" ", ["a"]);
  }

  /** Text without capital letters is its own lower case. */
  lemma LowerPlain(s: string)
    requires forall i :: 0 <= i < |s| ==> !('A' <= s[i] <= 'Z')
    ensures Lower(s) == s
  {
  }

  /** A leading `.` is the only punctuation at the ends of `s`. */
  lemma StripCharsOnce(s: string, rest: string)
    requires |s| >= 2 && s[0] == '.' && rest == s[1..]
    requires rest[0] == ' ' && rest[|rest| - 1] == 'a'
    ensures StripChars(s, PhrasePunctuation) == rest
  {
    assert s[0] in PhrasePunctuation;
    assert ' ' !in PhrasePunctuation && 'a' !in PhrasePunctuation;
  }

  lemma {:induction false} AllLowerStrip(s: string)
    requires AllLower(s)
    ensures AllLower(Strip(s))
  {
    LStripShape(s);
    RStripShape(LStrip(s));
  }

  lemma {:induction false} AllLowerStripChars(s: string, chars: set<char>)
    requires AllLower(s)
    ensures AllLower(StripChars(s, chars))
    decreases |s|
  {
    if |s| > 0 && s[0] in chars {
      AllLowerStripChars(s[1..], chars);
    } else if |s| > 0 && s[|s| - 1] in chars {
      AllLowerStripChars(s[..|s| - 1], chars);
    }
  }

  lemma {:induction false} AllLowerSplitWs(s: string)
    requires AllLower(s)
    ensures forall k :: 0 <= k < |SplitWs(s)| ==> AllLower(SplitWs(s)[k])
    decreases |s|
  {
    LStripShape(s);
    var t := LStrip(s);
    if t != [] {
      var k := FirstSpace(t);
      AllLowerSplitWs(t[k..]);
    }
  }

  lemma {:induction false} AllLowerJoin(words: seq<string>)
    requires forall k :: 0 <= k < |words| ==> AllLower(words[k])
    ensures AllLower(Join(" ", words))
  {
    if |words| >= 2 {
      AllLowerJoin(words[1..]);
    }
  }

  /** `" w1 w2".split()` for two words. */
  lemma {:induction false} SplitWsWords(s: string, w1: string, w2: string)
    requires IsWord(w1) && IsWord(w2) && s == " " + w1 + " " + w2
    ensures SplitWs(s) == [w1, w2]
  {
    var t := w1 + " " + w2;
    assert s == " " + t;
    SplitWsLeading(" ", t);
    assert LStrip(t) == t;
    assert t[..|w1|] == w1;
    FirstSpaceOf(t, |w1|);
    assert t[|w1|..] == " " + w2;
    SplitWsLeading(" ", w2);
    SplitWsOfWord(w2);
    assert SplitWs(t) == [t[..|w1|]] + SplitWs(t[|w1|..]);
  }

  // ------------------------------------------------------------ cache keys

  /** A cache-key payload: the JSON object's entries in sorted key order. */
  type Payload = seq<(string, string)>

  /** `(language or "zh-TW").strip() or "zh-TW"` */
  function Language(language: string): (r: string)
    ensures r != [] && Trimmed(r)
  {
    StripEmptyIffAllSpace(language);
    if Strip(language) == [] then DefaultLanguage else Strip(language)
  }

  function SentencePayload(model: string, sentence: string, previous: string, next: string, language: string): Payload {
    [("language", language), ("model", model), ("next", next), ("previous", previous), ("sentence", sentence)]
  }

  function PhrasePayload(model: string, phrase: string, sentence: string, previous: string, next: string, language: string): Payload {
    [("language", language), ("model", model), ("next", next), ("phrase", phrase),
     ("previous", previous), ("sentence", sentence), ("type", "phrase")]
  }

  /** The key of `explain_sentence`, from its raw arguments. */
  function SentenceKey(model: string, sentence: string, previous: string, next: string, language: string): Payload {
    SentencePayload(model, Strip(sentence), Strip(previous), Strip(next), Language(language))
  }

  /** The key of `explain_phrase`, from its raw arguments. */
  function PhraseKey(model: string, phrase: string, sentence: string, previous: string, next: string, language: string): Payload {
    PhrasePayload(model, NormalizePhrase(Strip(phrase)), Strip(sentence), Strip(previous), Strip(next), Language(language))
  }

  /** A phrase request never finds a sentence entry, and two sentence
      requests share an entry only when all their normalised fields agree. */
  lemma {:induction false} KeysSeparate(model: string, sentence: string, previous: string, next: string, language: string,
    model': string, phrase': string, sentence': string, previous': string, next': string, language': string)
    ensures SentencePayload(model, sentence, previous, next, language) !=
      PhrasePayload(model', phrase', sentence', previous', next', language')
    ensures (SentencePayload(model, sentence, previous, next, language) ==
        SentencePayload(model', sentence', previous', next', language')) ==>
      model == model' && sentence == sentence' && previous == previous' && next == next' && language == language'
  {
    var a := SentencePayload(model, sentence, previous, next, language);
    var b := SentencePayload(model', sentence', previous', next', language');
    if a == b {
      assert a[0] == b[0] && a[1] == b[1] && a[2] == b[2] && a[3] == b[3] && a[4] == b[4];
    }
  }

  // ------------------------------------------------------------ the service

  /** The cache after a request for `key` and the request's outcome. On a
      hit the stored result comes back marked cached and its key becomes
      the most recent; on a miss the reply decides, and a successful result
      is stored as the most recent entry, the oldest entries being evicted
      down to the capacity. A failed request leaves the cache alone. */
  ghost predicate Served(before: seq<(Payload, ExplanationResult)>, after: seq<(Payload, ExplanationResult)>,
    key: Payload, reply: Option<string>, loads: string -> Option<Value>, size: nat,
    r: Result<ExplanationResult, ExplainError>)
  {
    if HasKey(before, key) then
      r == Ok(Get(before, key).value.(cached := true)) && after == MoveToEnd(before, key)
    else
      r == Respond(reply, loads) &&
      after == (if r.Ok? then Store(before, key, r.value, size) else before)
  }

  /** After a request the cache stays within its capacity; a hit leaves
      the key's entry as it was and returns it marked cached; a successful
      miss leaves the fresh, uncached result under the key; no other key
      changes value. */
  lemma {:induction false} ServedStores(before: seq<(Payload, ExplanationResult)>, after: seq<(Payload, ExplanationResult)>,
    key: Payload, reply: Option<string>, loads: string -> Option<Value>, size: nat,
    r: Result<ExplanationResult, ExplainError>)
    requires DistinctKeys(before) && 1 <= size && |before| <= size
    requires Served(before, after, key, reply, loads, size, r)
    ensures |after| <= size && DistinctKeys(after)
    ensures HasKey(before, key) ==>
      Get(after, key) == Get(before, key) && r == Ok(Get(before, key).value.(cached := true))
    ensures !HasKey(before, key) && r.Ok? ==> Get(after, key) == Some(r.value) && !r.value.cached
    ensures forall x :: x != key && HasKey(after, x) ==> Get(after, x) == Get(before, x)
  {
    if HasKey(before, key) {
      MoveToEndKeeps(before, key);
    } else if r.Ok? {
      StoreKeeps(before, key, r.value, size);
    }
  }

  /** `SentenceExplanationService`: the model name, the request timeout,
      and the cache of results, least recently used first. */
  class ExplanationService {
    const model: string
    const timeout: real
    const maxCacheEntries: nat
    var cache: seq<(Payload, ExplanationResult)>

    /** The cache never holds more than its capacity, which is at least one,
        and holds each key once. */
    ghost predicate Valid()
      reads this
    {
      1 <= maxCacheEntries && |cache| <= maxCacheEntries && DistinctKeys(cache)
    }

    /** A timeout below one second is raised to one; a capacity below one
        is raised to one. */
    constructor(model: string, timeout: real, maxCacheEntries: int)
      ensures Valid() && cache == [] && this.model == model
      ensures this.timeout == if timeout >= 1.0 then timeout else 1.0
      ensures this.maxCacheEntries == if maxCacheEntries >= 1 then maxCacheEntries else 1
    {
      this.model := model;
      this.timeout := if timeout >= 1.0 then timeout else 1.0;
      this.maxCacheEntries := if maxCacheEntries >= 1 then maxCacheEntries else 1;
      cache := [];
    }

    /** `explain_sentence` */
    method ExplainSentence(sentence: string, previous: string, next: string, language: string,
      reply: Option<string>, loads: string -> Option<Value>)
      returns (r: Result<ExplanationResult, ExplainError>)
      requires Valid()
      modifies this
      ensures Valid()
      ensures Strip(sentence) == [] ==> r == Err(EmptySentence) && cache == old(cache)
      ensures Strip(sentence) != [] ==>
        Served(old(cache), cache, SentenceKey(model, sentence, previous, next, language), reply, loads, maxCacheEntries, r)
    {
      var normalized := Strip(sentence);
      if normalized == [] {
        return Err(EmptySentence);
      }
      var key := SentencePayload(model, normalized, Strip(previous), Strip(next), Language(language));
      r := Serve(key, reply, loads);
    }

    /** `explain_phrase`: the phrase is checked first, then the sentence,
        then the normalised phrase. */
    method ExplainPhrase(phrase: string, sentence: string, previous: string, next: string, language: string,
      reply: Option<string>, loads: string -> Option<Value>)
      returns (r: Result<ExplanationResult, ExplainError>)
      requires Valid()
      modifies this
      ensures Valid()
      ensures Strip(phrase) == [] ==> r == Err(EmptyPhrase) && cache == old(cache)
      ensures Strip(phrase) != [] && Strip(sentence) == [] ==> r == Err(EmptySentence) && cache == old(cache)
      ensures Strip(phrase) != [] && Strip(sentence) != [] && NormalizePhrase(Strip(phrase)) == [] ==>
        r == Err(EmptyNormalizedPhrase) && cache == old(cache)
      ensures Strip(phrase) != [] && Strip(sentence) != [] && NormalizePhrase(Strip(phrase)) != [] ==>
        Served(old(cache), cache, PhraseKey(model, phrase, sentence, previous, next, language), reply, loads, maxCacheEntries, r)
    {
      var rawPhrase := Strip(phrase);
      if rawPhrase == [] {
        return Err(EmptyPhrase);
      }
      var normalizedSentence := Strip(sentence);
      if normalizedSentence == [] {
        return Err(EmptySentence);
      }
      var normalizedPhrase := NormalizePhrase(rawPhrase);
      if normalizedPhrase == [] {
        return Err(EmptyNormalizedPhrase);
      }
      var key := PhrasePayload(model, normalizedPhrase, normalizedSentence, Strip(previous), Strip(next), Language(language));
      r := Serve(key, reply, loads);
    }

    /** The part both requests share once the key is known: the cache
        look-up, and on a miss the reply's result, stored and pruned. A
        stored result is always truthy, so every stored key is a hit. */
    method Serve(key: Payload, reply: Option<string>, loads: string -> Option<Value>)
      returns (r: Result<ExplanationResult, ExplainError>)
      requires Valid()
      modifies this
      ensures Valid()
      ensures Served(old(cache), cache, key, reply, loads, maxCacheEntries, r)
    {
      var hit := Get(cache, key);
      if hit.Some? {
        MoveToEndKeeps(cache, key);
        cache := MoveToEnd(cache, key);
        r := Ok(hit.value.(cached := true));
      } else {
        r := Respond(reply, loads);
        if r.Ok? {
          PutDistinct(cache, key, r.value);
          cache := Put(cache, key, r.value);
          PruneCache();
        }
      }
    }

    /** `_prune_cache`: the oldest entries go until the capacity is met. */
    method PruneCache()
      requires 1 <= maxCacheEntries && DistinctKeys(cache)
      modifies this
      ensures cache == Newest(old(cache), maxCacheEntries)
      ensures Valid()
    {
      ghost var start := cache;
      ghost var n := 0;
      while |cache| > maxCacheEntries
        invariant n <= |start| && cache == start[n..]
        invariant |start| > maxCacheEntries ==> n <= |start| - maxCacheEntries
        invariant |start| <= maxCacheEntries ==> n == 0
        decreases |cache|
      {
        cache := PopOldest(cache);
        n := n + 1;
      }
      NewestKeeps(start, maxCacheEntries);
    }
  }
}
