/** `TranslationService.translate` of `server/app/services/translation.py`:
    input checks, the cache key, the least-recently-used cache of
    translations, and how the client's reply becomes a result.

    The Google client is not modelled. The method reports the request it
    would send (or that it sends none) and receives the client's reply as
    a parameter. Optional string arguments are read with `x or ...`, so
    `None` and `""` behave alike; both are `""` here. */
module Translation {
  import opened Wrappers
  import opened Text
  import opened OrderedDicts

  /** One entry of the reply's `translations` list; a missing attribute is
      `None`. */
  datatype TranslationItem = TranslationItem(translatedText: Option<string>, detectedLanguageCode: Option<string>)

  /** What the client call gives: it raises, or it returns a reply whose
      `translations` attribute (missing being read as empty) is this list. */
  datatype Reply = Raised | Translations(items: seq<TranslationItem>)

  /** The request `translate` sends; the source language only when one was
      given. */
  datatype Request = Request(parent: string, contents: seq<string>, targetLanguageCode: string,
    mimeType: string, sourceLanguageCode: Option<string>)

  datatype TranslationResult = TranslationResult(translatedText: string, detectedSourceLanguage: Option<string>, cached: bool)

  /** `ValueError` for blank text; `TranslationServiceError` otherwise. */
  datatype TranslationError = EmptyText | NoTargetLanguage | RequestFailed | NoResults | MissingText

  /** The cache key: stripped text, lower-cased target, lower-cased source. */
  type Key = (string, string, string)

  /** A cached translation: the text and the detected source language. */
  type Cached = (string, Option<string>)

  /** `(target_language or default_target_language or "").strip()` */
  function Target(target: string, defaultTarget: string): (r: string)
    ensures Trimmed(r)
    ensures target != [] ==> r == Strip(target)
    ensures target == [] ==> r == Strip(defaultTarget)
  {
    Strip(if target != [] then target else defaultTarget)
  }

  function CacheKey(text: string, target: string, source: string, defaultTarget: string): Key {
    (Strip(text), Lower(Target(target, defaultTarget)), Lower(Strip(source)))
  }

  /** Language codes that differ only in letter case share a cache entry. */
  lemma {:induction false} CaseBlindKeys(text: string, target: string, source: string, defaultTarget: string)
    ensures CacheKey(text, target, source, defaultTarget) == CacheKey(text, Lower(target), Lower(source), defaultTarget)
  {
    LowerStrip(target);
    LowerStrip(Strip(target));
    LowerStrip(source);
    LowerStrip(Strip(source));
    if target != [] {
      assert Lower(target) != [];
    } else {
      assert Lower(target) == [];
    }
  }

  function RequestFor(parent: string, text: string, target: string, source: string, defaultTarget: string): Request {
    var s := Strip(source);
    Request(parent, [Strip(text)], Target(target, defaultTarget), "text/plain", if s != [] then Some(s) else None)
  }

  /** `x or y` on optional strings: an empty string counts as missing. */
  function OrElse(x: Option<string>, y: Option<string>): (r: Option<string>)
    ensures x.Some? && x.value != [] ==> r == x
    ensures !(x.Some? && x.value != []) ==> r == y
  {
    if x.Some? && x.value != [] then x else y
  }

  /** The translation a miss takes from the client's reply: the first
      item's text, which must be non-empty, and its detected language,
      falling back to the source language and then to none. */
  function Outcome(reply: Reply, source: string): (r: Result<Cached, TranslationError>)
    ensures reply.Raised? ==> r == Err(RequestFailed)
    ensures reply.Translations? && reply.items == [] ==> r == Err(NoResults)
    ensures r.Ok? <==> (reply.Translations? && reply.items != [] &&
      reply.items[0].translatedText.Some? && reply.items[0].translatedText.value != [])
    ensures r.Ok? ==> r.value.0 == reply.items[0].translatedText.value
    ensures r.Ok? && r.value.1.None? ==> Strip(source) == []
    ensures r.Ok? && r.value.1.Some? ==> r.value.1.value != []
  {
    match reply
    case Raised => Err(RequestFailed)
    case Translations(items) =>
      if items == [] then Err(NoResults)
      else
        var text := items[0].translatedText;
        if text.None? || text.value == [] then Err(MissingText)
        else
          var s := Strip(source);
          Ok((text.value, OrElse(items[0].detectedLanguageCode, if s != [] then Some(s) else None)))
  }

  /** The cache after a request for `key`, the request sent, and the
      result. A hit answers from the cache, marks the answer cached, makes
      the key the most recent, and sends nothing. A miss sends `request`;
      a usable reply is stored as the most recent entry and the oldest
      entries are evicted down to the capacity; a failed one leaves the
      cache alone. */
  ghost predicate Answered(before: seq<(Key, Cached)>, after: seq<(Key, Cached)>, key: Key,
    request: Request, reply: Reply, source: string, size: nat,
    r: Result<TranslationResult, TranslationError>, sent: Option<Request>)
  {
    if HasKey(before, key) then
      var hit := Get(before, key).value;
      sent.None? && r == Ok(TranslationResult(hit.0, hit.1, true)) && after == MoveToEnd(before, key)
    else
      var outcome := Outcome(reply, source);
      sent == Some(request) &&
      (outcome.Ok? ==> r == Ok(TranslationResult(outcome.value.0, outcome.value.1, false)) &&
                       after == Store(before, key, outcome.value, size)) &&
      (outcome.Err? ==> r == Err(outcome.error) && after == before)
  }

  /** After a request the cache stays within its capacity with each key
      once; a successful request leaves its translation under its key; no
      other key changes value. */
  lemma {:induction false} AnsweredStores(before: seq<(Key, Cached)>, after: seq<(Key, Cached)>, key: Key,
    request: Request, reply: Reply, source: string, size: nat,
    r: Result<TranslationResult, TranslationError>, sent: Option<Request>)
    requires DistinctKeys(before) && 1 <= size && |before| <= size
    requires Answered(before, after, key, request, reply, source, size, r, sent)
    ensures |after| <= size && DistinctKeys(after)
    ensures r.Ok? ==> Get(after, key) == Some((r.value.translatedText, r.value.detectedSourceLanguage))
    ensures r.Ok? && !r.value.cached ==> r.value.translatedText != []
    ensures forall x :: x != key && HasKey(after, x) ==> Get(after, x) == Get(before, x)
  {
    if HasKey(before, key) {
      MoveToEndKeeps(before, key);
    } else if Outcome(reply, source).Ok? {
      StoreKeeps(before, key, Outcome(reply, source).value, size);
    }
  }

  /** `TranslationService`: the project path requests go to, the default
      target language, and the cache, least recently used first. */
  class TranslationService {
    const parent: string
    const defaultTarget: string
    const maxCacheEntries: nat
    var cache: seq<(Key, Cached)>

    ghost predicate Valid()
      reads this
    {
      1 <= maxCacheEntries && |cache| <= maxCacheEntries && DistinctKeys(cache)
    }

    /** A capacity below one is raised to one. */
    constructor(parent: string, defaultTarget: string, maxCacheEntries: int)
      ensures Valid() && cache == [] && this.parent == parent && this.defaultTarget == defaultTarget
      ensures this.maxCacheEntries == if maxCacheEntries >= 1 then maxCacheEntries else 1
    {
      this.parent := parent;
      this.defaultTarget := defaultTarget;
      this.maxCacheEntries := if maxCacheEntries >= 1 then maxCacheEntries else 1;
      cache := [];
    }

    /** `translate`. `reply` is what the client would answer if asked;
        `sent` is the request actually sent, if any. */
    method Translate(text: string, target: string, source: string, reply: Reply)
      returns (r: Result<TranslationResult, TranslationError>, sent: Option<Request>)
      requires Valid()
      modifies this
      ensures Valid()
      ensures Strip(text) == [] ==> r == Err(EmptyText) && sent.None? && cache == old(cache)
      ensures Strip(text) != [] && Target(target, defaultTarget) == [] ==>
        r == Err(NoTargetLanguage) && sent.None? && cache == old(cache)
      ensures Strip(text) != [] && Target(target, defaultTarget) != [] ==>
        Answered(old(cache), cache, CacheKey(text, target, source, defaultTarget),
          RequestFor(parent, text, target, source, defaultTarget), reply, source, maxCacheEntries, r, sent)
    {
      var normalizedText := Strip(text);
      if normalizedText == [] {
        return Err(EmptyText), None;
      }
      var targetCode := Strip(if target != [] then target else defaultTarget);
      if targetCode == [] {
        return Err(NoTargetLanguage), None;
      }
      var sourceCode := Strip(source);
      var key := (normalizedText, Lower(targetCode), Lower(sourceCode));
      var cachedValue := Get(cache, key);
      if cachedValue.Some? {
        MoveToEndKeeps(cache, key);
        cache := MoveToEnd(cache, key);
        return Ok(TranslationResult(cachedValue.value.0, cachedValue.value.1, true)), None;
      }
      var request := Request(parent, [normalizedText], targetCode, "text/plain",
        if sourceCode != [] then Some(sourceCode) else None);
      sent := Some(request);
      var outcome := Outcome(reply, source);
      if outcome.Err? {
        return Err(outcome.error), sent;
      }
      PutDistinct(cache, key, outcome.value);
      cache := Put(cache, key, outcome.value);
      PruneCache();
      r := Ok(TranslationResult(outcome.value.0, outcome.value.1, false));
    }

    /** `_prune_cache`: the oldest entries go until the capacity is met. */
    method PruneCache()
      requires 1 <= maxCacheEntries && DistinctKeys(cache)
      modifies this
      ensures cache == Newest(old(cache), maxCacheEntries)
      ensures Valid()
    {
      ghost var start := cache;
      ghost var n := 0;
      while |cache| > maxCacheEntries
        invariant n <= |start| && cache == start[n..]
        invariant |start| > maxCacheEntries ==> n <= |start| - maxCacheEntries
        invariant |start| <= maxCacheEntries ==> n == 0
        decreases |cache|
      {
        cache := PopOldest(cache);
        n := n + 1;
      }
      NewestKeeps(start, maxCacheEntries);
    }
  }
}
