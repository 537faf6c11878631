/** The request handling of `TaskManager` in
    `server/app/services/task_manager.py`: how a Celery state becomes a task
    status, how stored time stamps are read, which requests are accepted,
    the options dictionary a task is submitted with, how it is made
    serialisable, and how many tasks a listing returns.

    Celery, the task store's files and `_build_detail` are not modelled; a
    listing works on the items the store yields. */
module TaskManager {
  import opened Wrappers
  import opened Text
  import opened OrderedDicts
  import opened PyValues

  datatype TaskType = GenerateScript | GenerateAudio | GenerateSubtitles

  datatype TaskStatus = Pending | Running | Succeeded | Failed

  /** The enum's string value, which the task record stores. */
  function TaskTypeValue(t: TaskType): string {
    match t
    case GenerateScript => "generate_script"
    case GenerateAudio => "generate_audio"
    case GenerateSubtitles => "generate_subtitles"
  }

  /** `TaskType(value)`; an unknown value raises, here `None`. */
  function ParseTaskType(value: string): (r: Option<TaskType>)
    ensures r.Some? ==> TaskTypeValue(r.value) == value
  {
    if value == "generate_script" then Some(GenerateScript)
    else if value == "generate_audio" then Some(GenerateAudio)
    else if value == "generate_subtitles" then Some(GenerateSubtitles)
    else None
  }

  /** A stored task type reads back as the task type it was stored from. */
  lemma TaskTypeRoundTrip(t: TaskType)
    ensures ParseTaskType(TaskTypeValue(t)) == Some(t)
  {
  }

  // ------------------------------------------------------------ _to_status

  /** `_to_status`: Celery's state name, in any letter case, and an empty
      state counting as `PENDING`. */
  function ToStatus(state: string): (r: TaskStatus)
    ensures state == [] ==> r == Pending
    ensures state != [] ==> (r == Pending <==> Upper(state) in {"PENDING", "RECEIVED", "QUEUED"})
    ensures r == Running <==> Upper(state) in {"STARTED", "RETRY"}
    ensures r == Succeeded <==> Upper(state) == "SUCCESS"
  {
    var s := if state != [] then Upper(state) else "PENDING";
    if s in {"PENDING", "RECEIVED", "QUEUED"} then Pending
    else if s in {"STARTED", "RETRY"} then Running
    else if s == "SUCCESS" then Succeeded
    else Failed
  }

  /** The status does not depend on the letter case of the state. */
  lemma {:induction false} ToStatusCaseBlind(state: string)
    ensures ToStatus(Lower(state)) == ToStatus(state)
    ensures ToStatus(Upper(state)) == ToStatus(state)
  {
    UpperForgetsCase(state);
  }

  // ------------------------------------------------------------ _parse_dt

  predicate EndsInZ(s: string) { |s| > 0 && s[|s| - 1] == 'Z' }

  /** The rewrite `_parse_dt` applies before `datetime.fromisoformat`: a
      trailing `Z` becomes the offset `+00:00`; anything else is kept. */
  function ZuluToOffset(value: string): (r: string)
    ensures !EndsInZ(r)
    ensures !EndsInZ(value) ==> r == value
    ensures EndsInZ(value) ==> |r| == |value| + 5 && r[..|value| - 1] == value[..|value| - 1]
  {
    if EndsInZ(value) then value[..|value| - 1] + "+00:00" else value
  }

  /** The stamps the task store writes, an ISO time followed by `Z`, read
      back as the same time at offset zero, and the rewrite is idempotent. */
  lemma {:induction false} StampReadsBack(stamp: string)
    ensures ZuluToOffset(stamp + "Z") == stamp + "+00:00"
    ensures ZuluToOffset(ZuluToOffset(stamp)) == ZuluToOffset(stamp)
  {
    assert (stamp + "Z")[..|stamp|] == stamp;
  }

  // ------------------------------------------------------------ requests

  /** `TaskCreate`. Every optional string is `None` or a string. */
  datatype TaskCreate = TaskCreate(
    taskType: TaskType,
    bookId: Option<string>,
    chapters: Option<seq<string>>,
    configPath: Option<string>,
    force: bool,
    subtitleDevice: Option<string>,
    subtitleLanguage: Option<string>,
    maxWords: Option<int>,
    envOverrides: seq<(string, string)>)

  /** The server settings the options read: the project root and the data
      root, as the text of their paths. */
  datatype Settings = Settings(projectRoot: string, dataRoot: string)

  /** The `ValueError`s `_validate_request` raises. */
  datatype RequestError = BookIdRequired | ChaptersRequired

  /** Audio and subtitle tasks work on an existing book. */
  predicate NeedsBook(t: TaskType) { t.GenerateAudio? || t.GenerateSubtitles? }

  /** Truthiness of an optional string. */
  predicate Given(x: Option<string>) { x.Some? && x.value != [] }

  /** `_validate_request`: `None` when the request is accepted. */
  function Validate(request: TaskCreate): (r: Option<RequestError>)
    ensures r.None? <==> (!NeedsBook(request.taskType) ||
      (Given(request.bookId) && request.chapters.Some? && request.chapters.value != []))
    ensures r == Some(BookIdRequired) <==> NeedsBook(request.taskType) && !Given(request.bookId)
  {
    if NeedsBook(request.taskType) then
      if !Given(request.bookId) then Some(BookIdRequired)
      else if request.chapters.None? || request.chapters.value == [] then Some(ChaptersRequired)
      else None
    else None
  }

  // ------------------------------------------------------------ _build_options

  /** `str(settings.project_root / "podcast_config.yaml")` */
  function DefaultConfigPath(settings: Settings): string {
    settings.projectRoot + "/podcast_config.yaml"
  }

  /** The environment overrides as a dictionary of strings. */
  function EnvValues(env: seq<(string, string)>): (r: seq<(string, Value)>)
    ensures |r| == |env| && forall k :: 0 <= k < |r| ==> r[k] == (env[k].0, VStr(env[k].1))
  {
    seq(|env|, k requires 0 <= k < |env| => (env[k].0, VStr(env[k].1)))
  }

  /** The keys `_build_options` can set, in the order it sets them. */
  datatype OptionKey = ConfigPath | BookId | OutputRoot | SubtitleDevice | SubtitleLanguage | MaxWords | Force | EnvOverrides

  /** The dictionary key of each option. */
  function Name(k: OptionKey): string {
    match k
    case ConfigPath => "config_path"
    case BookId => "book_id"
    case OutputRoot => "output_root"
    case SubtitleDevice => "subtitle_device"
    case SubtitleLanguage => "subtitle_language"
    case MaxWords => "max_words"
    case Force => "force"
    case EnvOverrides => "env_overrides"
  }

  /** The option a dictionary key names, if any. */
  function KeyOf(name: string): (r: Option<OptionKey>)
    ensures r.Some? ==> Name(r.value) == name
  {
    if name == "config_path" then Some(ConfigPath)
    else if name == "book_id" then Some(BookId)
    else if name == "output_root" then Some(OutputRoot)
    else if name == "subtitle_device" then Some(SubtitleDevice)
    else if name == "subtitle_language" then Some(SubtitleLanguage)
    else if name == "max_words" then Some(MaxWords)
    else if name == "force" then Some(Force)
    else if name == "env_overrides" then Some(EnvOverrides)
    else None
  }

  /** Every option's key names that option and no other. */
  lemma NameKeyOf(k: OptionKey)
    ensures KeyOf(Name(k)) == Some(k)
  {
  }

  /** The position of each option in assignment order. */
  function Rank(k: OptionKey): (r: nat)
    ensures r < 8
  {
    match k
    case ConfigPath => 0
    case BookId => 1
    case OutputRoot => 2
    case SubtitleDevice => 3
    case SubtitleLanguage => 4
    case MaxWords => 5
    case Force => 6
    case EnvOverrides => 7
  }

  function KeyAt(i: nat): (r: OptionKey)
    requires i < 8
    ensures Rank(r) == i
  {
    [ConfigPath, BookId, OutputRoot, SubtitleDevice, SubtitleLanguage, MaxWords, Force, EnvOverrides][i]
  }

  /** Option by option, what a request carries, if anything:
      - `config_path`: the explicit path; failing that, the project's
        default configuration, but only for script tasks;
      - `book_id`: when given;
      - `output_root`: the data root, for audio and subtitle tasks only;
      - `subtitle_device`, `subtitle_language`, `max_words`, `force`: for
        subtitle tasks only, and only when truthy;
      - `env_overrides`: when non-empty. */
  function Expected(request: TaskCreate, settings: Settings, k: OptionKey): (r: Option<Value>)
  {
    var subtitles := request.taskType.GenerateSubtitles?;
    match k
    case ConfigPath =>
      if Given(request.configPath) then Some(VStr(request.configPath.value))
      else if request.taskType.GenerateScript? then Some(VStr(DefaultConfigPath(settings)))
      else None
    case BookId =>
      if Given(request.bookId) then Some(VStr(request.bookId.value)) else None
    case OutputRoot =>
      if NeedsBook(request.taskType) then Some(VStr(settings.dataRoot)) else None
    case SubtitleDevice =>
      if subtitles && Given(request.subtitleDevice) then Some(VStr(request.subtitleDevice.value)) else None
    case SubtitleLanguage =>
      if subtitles && Given(request.subtitleLanguage) then Some(VStr(request.subtitleLanguage.value)) else None
    case MaxWords =>
      if subtitles && request.maxWords.Some? && request.maxWords.value != 0 then Some(VInt(request.maxWords.value))
      else None
    case Force =>
      if subtitles && request.force then Some(VBool(true)) else None
    case EnvOverrides =>
      if request.envOverrides != [] then Some(VDict(EnvValues(request.envOverrides))) else None
  }

  /** The options hold only the options' keys, in assignment order. */
  ghost predicate Ordered(options: seq<(string, Value)>, n: nat) {
    (forall i :: 0 <= i < |options| ==> KeyOf(options[i].0).Some? && Rank(KeyOf(options[i].0).value) < n) &&
    (forall i, j :: 0 <= i < j < |options| && KeyOf(options[i].0).Some? && KeyOf(options[j].0).Some? ==>
       Rank(KeyOf(options[i].0).value) < Rank(KeyOf(options[j].0).value))
  }

  /** The entry one option contributes: none, or its key and value. */
  function Entry(request: TaskCreate, settings: Settings, k: OptionKey): seq<(string, Value)> {
    EntryOf(Name(k), Expected(request, settings, k))
  }

  function EntryOf(name: string, e: Option<Value>): seq<(string, Value)> {
    match e
    case Some(v) => [(name, v)]
    case None => []
  }

  /** Appending the entry of a new key: that key reads as its value, every
      other key as before. */
  lemma GetAfterEntry(prev: seq<(string, Value)>, name: string, e: Option<Value>, q: string)
    requires forall i :: 0 <= i < |prev| ==> prev[i].0 != name
    ensures Get(prev + EntryOf(name, e), q) == if q == name then e else Get(prev, q)
  {
    IndexAbsent(prev, name);
    match e
    case None =>
      assert prev + EntryOf(name, e) == prev;
    case Some(v) =>
      assert Put(prev, name, v) == prev + EntryOf(name, e);
      PutGet(prev, name, v, q);
  }

  /** The entries of the first `n` options, in assignment order. */
  function Entries(request: TaskCreate, settings: Settings, n: nat): seq<(string, Value)>
    requires n <= 8
  {
    if n == 0 then [] else Entries(request, settings, n - 1) + Entry(request, settings, KeyAt(n - 1))
  }

  lemma {:induction false} EntriesOrdered(request: TaskCreate, settings: Settings, n: nat)
    requires n <= 8
    ensures Ordered(Entries(request, settings, n), n)
  {
    if n > 0 {
      EntriesOrdered(request, settings, n - 1);
      NameKeyOf(KeyAt(n - 1));
    }
  }

  /** Keys in assignment order occur once each. */
  lemma OrderedDistinct(options: seq<(string, Value)>, n: nat)
    requires Ordered(options, n)
    ensures DistinctKeys(options)
  {
  }

  /** The next option's key is not among the first `n` entries. */
  lemma FreshName(request: TaskCreate, settings: Settings, n: nat)
    requires n < 8
    ensures forall i :: 0 <= i < |Entries(request, settings, n)| ==> Entries(request, settings, n)[i].0 != Name(KeyAt(n))
  {
    EntriesOrdered(request, settings, n);
    NameKeyOf(KeyAt(n));
  }

  lemma KeyAtRank(k: OptionKey)
    ensures KeyAt(Rank(k)) == k
  {
  }

  /** Looking an option up in the first `n` entries finds what `Expected`
      gives it when it is among them, and nothing otherwise. */
  lemma {:induction false} EntriesGet(request: TaskCreate, settings: Settings, n: nat, k: OptionKey)
    requires n <= 8
    ensures Get(Entries(request, settings, n), Name(k)) == if Rank(k) < n then Expected(request, settings, k) else None
  {
    if n > 0 {
      EntriesGet(request, settings, n - 1, k);
      var key := KeyAt(n - 1);
      var prev := Entries(request, settings, n - 1);
      var e := Expected(request, settings, key);
      assert Entries(request, settings, n) == prev + EntryOf(Name(key), e);
      FreshName(request, settings, n - 1);
      GetAfterEntry(prev, Name(key), e, Name(k));
      NameKeyOf(key);
      NameKeyOf(k);
      KeyAtRank(k);
    }
  }

  /** One conditional assignment of `_build_options`: `options[key] =
      value` when the request calls for a value. */
  method AddOption(options: seq<(string, Value)>, request: TaskCreate, settings: Settings, n: nat, key: string, value: Option<Value>)
    returns (next: seq<(string, Value)>)
    requires n < 8 && key == Name(KeyAt(n)) && options == Entries(request, settings, n)
    requires value == Expected(request, settings, KeyAt(n))
    ensures next == Entries(request, settings, n + 1)
  {
    next := options;
    if value.Some? {
      EntriesOrdered(request, settings, n);
      NameKeyOf(KeyAt(n));
      IndexAbsent(options, key);
      next := Put(options, key, value.value);
    }
  }

  /** The subtitle block of `_build_options`: device, language, word
      limit and `force`, for subtitle tasks only and only when truthy. */
  method AddSubtitleOptions(options: seq<(string, Value)>, request: TaskCreate, settings: Settings)
    returns (next: seq<(string, Value)>)
    requires options == Entries(request, settings, 3)
    ensures next == Entries(request, settings, 7)
  {
    var subtitles := request.taskType == GenerateSubtitles;
    var device := if subtitles && Given(request.subtitleDevice) then Some(VStr(request.subtitleDevice.value)) else None;
    next := AddOption(options, request, settings, 3, "subtitle_device", device);
    var language := if subtitles && Given(request.subtitleLanguage) then Some(VStr(request.subtitleLanguage.value)) else None;
    next := AddOption(next, request, settings, 4, "subtitle_language", language);
    var maxWords := if subtitles && request.maxWords.Some? && request.maxWords.value != 0 then Some(VInt(request.maxWords.value)) else None;
    next := AddOption(next, request, settings, 5, "max_words", maxWords);
    var force := if subtitles && request.force then Some(VBool(true)) else None;
    next := AddOption(next, request, settings, 6, "force", force);
  }

  /** `_build_options`: the options hold exactly what `Expected` gives
      each option, each key once, no other key, in assignment order. */
  method BuildOptions(request: TaskCreate, settings: Settings) returns (options: seq<(string, Value)>)
    ensures DistinctKeys(options)
    ensures forall k :: Get(options, Name(k)) == Expected(request, settings, k)
    ensures Ordered(options, 8)
  {
    options := [];
    var configPath :=
      if Given(request.configPath) then Some(VStr(request.configPath.value))
      else if request.taskType == GenerateScript then Some(VStr(DefaultConfigPath(settings)))
      else None;
    options := AddOption(options, request, settings, 0, "config_path", configPath);
    var bookId := if Given(request.bookId) then Some(VStr(request.bookId.value)) else None;
    options := AddOption(options, request, settings, 1, "book_id", bookId);
    var outputRoot := if request.taskType in {GenerateAudio, GenerateSubtitles} then Some(VStr(settings.dataRoot)) else None;
    options := AddOption(options, request, settings, 2, "output_root", outputRoot);
    options := AddSubtitleOptions(options, request, settings);
    var env := if request.envOverrides != [] then Some(VDict(EnvValues(request.envOverrides))) else None;
    options := AddOption(options, request, settings, 7, "env_overrides", env);
    EntriesOrdered(request, settings, 8);
    OrderedDistinct(options, 8);
    forall k ensures Get(options, Name(k)) == Expected(request, settings, k) {
      EntriesGet(request, settings, 8, k);
    }
  }

  /** An audio or subtitle request that passes validation is submitted
      with its book and the output root among its options. */
  lemma ValidatedOptions(request: TaskCreate, settings: Settings)
    requires NeedsBook(request.taskType) && Validate(request).None?
    ensures Expected(request, settings, BookId) == Some(VStr(request.bookId.value))
    ensures Expected(request, settings, OutputRoot) == Some(VStr(settings.dataRoot))
  {
  }

  // ------------------------------------------------------------ _ensure_jsonable

  /** `str(v) if isinstance(v, Path) else v` */
  function ElementJsonable(v: Value): (r: Value)
    ensures !r.VPath? && Str(r) == Str(v)
    ensures !v.VPath? ==> r == v
  {
    if v.VPath? then VStr(v.path) else v
  }

  /** What `_ensure_jsonable` makes of one value: a path becomes its text;
      a list or a tuple becomes a list whose path elements become their
      text, one level deep; anything else is kept. */
  function Jsonable(v: Value): (r: Value)
    ensures !r.VPath?
    ensures v.VPath? ==> r == VStr(v.path)
    ensures v.VList? || v.VTuple? ==>
      r.VList? && |r.items| == |v.items| &&
      forall k :: 0 <= k < |r.items| ==> !r.items[k].VPath? && Str(r.items[k]) == Str(v.items[k])
    ensures !v.VPath? && !v.VList? && !v.VTuple? ==> r == v
  {
    match v
    case VPath(p) => VStr(p)
    case VList(items) => VList(seq(|items|, k requires 0 <= k < |items| => ElementJsonable(items[k])))
    case VTuple(items) => VList(seq(|items|, k requires 0 <= k < |items| => ElementJsonable(items[k])))
    case _ => v
  }

  /** Converting twice changes nothing more. */
  lemma JsonableIdempotent(v: Value)
    ensures Jsonable(Jsonable(v)) == Jsonable(v)
  {
    if v.VList? || v.VTuple? {
      var r := Jsonable(v);
      assert Jsonable(r).items == r.items;
    }
  }

  /** `_ensure_jsonable`: the same keys in the same order, each value
      converted by `Jsonable`. */
  method EnsureJsonable(payload: seq<(string, Value)>) returns (serializable: seq<(string, Value)>)
    requires DistinctKeys(payload)
    ensures |serializable| == |payload|
    ensures forall i :: 0 <= i < |payload| ==> serializable[i] == (payload[i].0, Jsonable(payload[i].1))
    ensures DistinctKeys(serializable)
  {
    serializable := [];
    for i := 0 to |payload|
      invariant |serializable| == i
      invariant forall k :: 0 <= k < i ==> serializable[k] == (payload[k].0, Jsonable(payload[k].1))
    {
      var (key, value) := payload[i];
      IndexAbsent(serializable, key);
      serializable := Put(serializable, key, Jsonable(value));
    }
  }

  // ------------------------------------------------------------ list

  /** How many items `list` returns as written: the limit is compared only
      after an item has been appended, so a limit below one still lets the
      first item through. */
  function CountAsWritten(n: nat, limit: Option<int>): (r: nat)
    ensures r <= n
  {
    if limit.None? || n == 0 then n
    else if limit.value < 1 then 1
    else if limit.value < n then limit.value
    else n
  }

  /** `list` as written. */
  method ListAsWritten<T>(records: seq<T>, limit: Option<int>) returns (items: seq<T>)
    ensures items == records[..CountAsWritten(|records|, limit)]
  {
    items := [];
    var i := 0;
    while i < |records|
      invariant i <= |records| && items == records[..i]
      invariant limit.Some? && i > 0 ==> i < limit.value
    {
      items := items + [records[i]];
      i := i + 1;
      if limit.Some? && |items| >= limit.value {
        break;
      }
    }
  }

  /** With a limit of zero or less, a non-empty store still yields one
      item: more than the limit. */
  lemma ListOverrunsLimit(n: nat, limit: int)
    requires n >= 1 && limit <= 0
    ensures CountAsWritten(n, Some(limit)) == 1 > limit
  {
  }

  /** How many items a listing evidently means to return: all of them
      without a limit, otherwise no more than the limit. */
  function Count(n: nat, limit: Option<int>): (r: nat)
    ensures r <= n
    ensures limit.None? ==> r == n
    ensures limit.Some? ==> r <= limit.value || r == 0
    ensures limit.Some? && r < n ==> r == if limit.value < 0 then 0 else limit.value
  {
    if limit.None? || n <= limit.value then n
    else if limit.value < 0 then 0
    else limit.value
  }

  /** `list` with the limit checked before each append: the first items of
      the store, in its order, never more than the limit. */
  method List<T>(records: seq<T>, limit: Option<int>) returns (items: seq<T>)
    ensures items == records[..Count(|records|, limit)]
  {
    items := [];
    var i := 0;
    while i < |records|
      invariant i <= |records| && items == records[..i]
      invariant limit.Some? ==> i <= limit.value || i == 0
    {
      if limit.Some? && |items| >= limit.value {
        break;
      }
      items := items + [records[i]];
      i := i + 1;
    }
  }

  /** The two agree whenever the limit is at least one. */
  lemma {:induction false} CountsAgree(n: nat, limit: Option<int>)
    requires limit.None? || limit.value >= 1
    ensures CountAsWritten(n, limit) == Count(n, limit)
  {
  }
}
