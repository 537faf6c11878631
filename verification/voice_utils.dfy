/** Narrator voice selection (`voice_utils.py`): a configured voice, or a
    voice drawn from a pool of candidates when random selection is asked
    for. The configuration is the `basic` dictionary; the random draw is an
    index supplied by the caller. */
module VoiceUtils {
  import opened Wrappers
  import opened Text
  import opened Seqs
  import opened PyValues

  /** `DEFAULT_VOICE_POOL` */
  const DefaultVoicePool: seq<string> := ["Aoede", "Charon", "Kore", "Puck", "Achird"]

  /** The voice used when none is configured. */
  const DefaultVoice: string := "Aoede"

  // ---------------------------------------------------------------------
  // Flattening configured voice values

  /** A name as flattening gives it: non-empty, stripped, without a comma. */
  predicate VoiceName(v: string) {
    v != [] && Trimmed(v) && Lacks(v, ',')
  }

  /** `_flatten_voice_values`: a text gives its stripped, non-empty
      comma-separated parts; a list, tuple or set gives its items' names in
      order; anything else gives none. */
  function Flatten(raw: Value): (r: seq<string>)
    ensures forall k :: 0 <= k < |r| ==> VoiceName(r[k])
    ensures raw.VStr? ==> r == CommaParts(raw.s)
    ensures !(raw.VStr? || raw.VList? || raw.VTuple? || raw.VSet?) ==> r == []
    decreases raw
  {
    match raw
    case VStr(s) =>
      var parts := CommaParts(s);
      assert forall k :: 0 <= k < |parts| ==> parts[k] in parts;
      parts
    case VList(items) => FlattenItems(items)
    case VTuple(items) => FlattenItems(items)
    case VSet(items) => FlattenItems(items)
    case _ => []
  }

  /** The names of the items, item after item. */
  function FlattenItems(items: seq<Value>): (r: seq<string>)
    ensures forall k :: 0 <= k < |r| ==> VoiceName(r[k])
    decreases items
  {
    if items == [] then []
    else FlattenItems(items[..|items| - 1]) + Flatten(items[|items| - 1])
  }

  /** A name is offered by a list exactly when one of its items offers it. */
  lemma {:induction false} FlattenItemsMembers(items: seq<Value>, v: string)
    ensures v in FlattenItems(items) <==> exists k :: 0 <= k < |items| && v in Flatten(items[k])
  {
    if items != [] {
      var n := |items| - 1;
      FlattenItemsMembers(items[..n], v);
      assert items == items[..n] + [items[n]];
      OffersSnoc(items[..n], items[n], v);
    }
  }

  /** An item list with one more item offers a name when the shorter list
      or the new item does. */
  lemma OffersSnoc(init: seq<Value>, last: Value, v: string)
    ensures (exists k :: 0 <= k < |init + [last]| && v in Flatten((init + [last])[k])) <==>
      (exists k :: 0 <= k < |init| && v in Flatten(init[k])) || v in Flatten(last)
  {
    var items := init + [last];
    if exists k :: 0 <= k < |items| && v in Flatten(items[k]) {
      var k :| 0 <= k < |items| && v in Flatten(items[k]);
      if k < |init| {
        assert items[k] == init[k];
      }
    }
    if exists k :: 0 <= k < |init| && v in Flatten(init[k]) {
      var k :| 0 <= k < |init| && v in Flatten(init[k]);
      assert items[k] == init[k];
    }
    if v in Flatten(last) {
      assert items[|init|] == last;
    }
  }

  /** The names of a list of texts written one per item. */
  function Texts(names: seq<string>): (r: seq<Value>)
    ensures |r| == |names| && forall k :: 0 <= k < |r| ==> r[k] == VStr(names[k])
  {
    seq(|names|, k requires 0 <= k < |names| => VStr(names[k]))
  }

  /** Writing the flattened names either as one comma-separated text or as a
      list of texts gives the same names back. */
  lemma FlattenRoundTrip(raw: Value)
    ensures Flatten(VStr(Join(",", Flatten(raw)))) == Flatten(raw)
    ensures Flatten(VList(Texts(Flatten(raw)))) == Flatten(raw)
  {
    var names := Flatten(raw);
    JoinedNamesRead(names);
    ListedNamesRead(names);
  }

  /** Names written as one comma-separated text read back as themselves. */
  lemma JoinedNamesRead(names: seq<string>)
    requires forall k :: 0 <= k < |names| ==> VoiceName(names[k])
    ensures Flatten(VStr(Join(",", names))) == names
  {
    CommaPartsJoin(names);
  }

  /** Names written as a list of texts read back as themselves. */
  lemma ListedNamesRead(names: seq<string>)
    requires forall k :: 0 <= k < |names| ==> VoiceName(names[k])
    ensures Flatten(VList(Texts(names))) == names
  {
    TextsFlatten(names);
  }

  lemma TextsFlatten(names: seq<string>)
    requires forall k :: 0 <= k < |names| ==> VoiceName(names[k])
    ensures FlattenItems(Texts(names)) == names
  {
    var items := Texts(names);
    FlattenItemsFlat(items);
    forall k | 0 <= k < |items| ensures Flatten(items[k]) == [names[k]] {
      OneName(names[k]);
    }
    FlatMapSingles(items, names, Flatten);
  }

  /** Flattening a list concatenates the names of its items. */
  lemma {:induction false} FlattenItemsFlat(items: seq<Value>)
    ensures FlattenItems(items) == FlatMap(items, Flatten)
  {
    if items != [] {
      FlattenItemsFlat(items[..|items| - 1]);
    }
  }

  /** A single name written as a text flattens to itself. */
  lemma OneName(name: string)
    requires VoiceName(name)
    ensures Flatten(VStr(name)) == [name]
  {
    CommaPartsJoin([name]);
    assert Join(",", [name]) == name;
  }

  // ---------------------------------------------------------------------
  // Choosing the narrator voice

  /** `basic_cfg.get("narrator_voice", "Aoede")` */
  function RawVoice(basic: seq<(string, Value)>): Value {
    GetOr(basic, "narrator_voice", VStr(DefaultVoice))
  }

  /** `str(basic_cfg.get("narrator_voice_mode", "") or "").strip().lower()` */
  function VoiceMode(basic: seq<(string, Value)>): string {
    Lower(Strip(Str(Or(GetOr(basic, "narrator_voice_mode", VStr("")), VStr("")))))
  }

  /** The texts that ask for a random voice. */
  predicate IsRandomMarker(s: string) {
    s == "random" || s == "Random" || s == "RANDOM"
  }

  /** Random selection is on when the voice is a list, when the voice text
      is a random marker, when the mode is `random`, or when the
      `narrator_voice_random` flag is truthy. */
  predicate RandomMode(basic: seq<(string, Value)>) {
    var raw := RawVoice(basic);
    raw.VList? || (raw.VStr? && IsRandomMarker(Strip(raw.s))) || VoiceMode(basic) == "random"
    || Truthy(GetOr(basic, "narrator_voice_random", VBool(false)))
  }

  /** A voice text that joins the pool: non-empty once stripped and not
      `random` in any case. */
  function ExplicitVoice(raw: Value): (r: seq<string>)
    ensures forall v :: v in r ==> v != [] && Trimmed(v)
  {
    if raw.VStr? && Strip(raw.s) != [] && Lower(Strip(raw.s)) != "random" then [Strip(raw.s)] else []
  }

  /** The candidates in the order they are gathered, before the fallback
      and before repeats are dropped: the voice list, then
      `narrator_voice_candidates`, then `narrator_voice_choices`, then the
      voice text. */
  function Gathered(basic: seq<(string, Value)>): (r: seq<string>)
    ensures forall v :: v in r ==> v != [] && Trimmed(v)
  {
    var raw := RawVoice(basic);
    (if raw.VList? then Flatten(raw) else [])
    + Flatten(GetOr(basic, "narrator_voice_candidates", VNone))
    + Flatten(GetOr(basic, "narrator_voice_choices", VNone))
    + ExplicitVoice(raw)
  }

  /** The pool a random voice is drawn from. */
  function Pool(basic: seq<(string, Value)>): (r: seq<string>)
  {
    Dedup(if Gathered(basic) == [] then DefaultVoicePool else Gathered(basic))
  }

  /** The voice of fixed mode: the stripped voice text, or `Aoede`. */
  function FixedVoice(raw: Value): (r: string)
    ensures r != [] && Trimmed(r)
    ensures raw.VStr? && Strip(raw.s) != [] ==> r == Strip(raw.s)
  {
    if raw.VStr? && Strip(raw.s) != [] then Strip(raw.s) else DefaultVoice
  }

  /** `choose_narrator_voice` with `rng.choice` replaced by the index
      `pick`: the voice, the pool used (empty in fixed mode) and whether the
      voice was drawn at random. */
  method ChooseNarratorVoice(basic: seq<(string, Value)>, pick: nat) returns (voice: string, pool: seq<string>, random: bool)
    ensures random == RandomMode(basic)
    ensures random ==> pool == Pool(basic) && |pool| > 0 && voice == pool[pick % |pool|]
    ensures !random ==> pool == [] && voice == FixedVoice(RawVoice(basic))
  {
    var rawVoice := RawVoice(basic);
    var voiceMode := VoiceMode(basic);
    random := Truthy(GetOr(basic, "narrator_voice_random", VBool(false)));
    var candidates: seq<string>;
    if rawVoice.VList? {
      candidates := Flatten(rawVoice);
      random := true;
    } else {
      candidates := [];
      if rawVoice.VStr? && IsRandomMarker(Strip(rawVoice.s)) {
        random := true;
      } else if voiceMode == "random" {
        random := true;
      }
    }
    if random {
      candidates := candidates + Flatten(GetOr(basic, "narrator_voice_candidates", VNone));
      candidates := candidates + Flatten(GetOr(basic, "narrator_voice_choices", VNone));
      if rawVoice.VStr? && Strip(rawVoice.s) != [] && Lower(Strip(rawVoice.s)) != "random" {
        candidates := candidates + [Strip(rawVoice.s)];
      }
      assert candidates == Gathered(basic);
      if candidates == [] {
        candidates := candidates + DefaultVoicePool;
        assert candidates == DefaultVoicePool;
      }
      assert candidates == if Gathered(basic) == [] then DefaultVoicePool else Gathered(basic);
      pool := DropRepeats(candidates);
      assert pool == Pool(basic);
      assert candidates[0] in pool;
      voice := pool[pick % |pool|];
      return;
    }
    pool := [];
    if rawVoice.VStr? && Strip(rawVoice.s) != [] {
      voice := Strip(rawVoice.s);
    } else {
      voice := DefaultVoice;
    }
  }

  /** The loop of `choose_narrator_voice` that keeps the first occurrence
      of each candidate, remembering the names seen in a set. */
  method DropRepeats(candidates: seq<string>) returns (deduped: seq<string>)
    ensures deduped == Dedup(candidates)
  {
    var seen: set<string> := {};
    deduped := [];
    for i := 0 to |candidates|
      invariant deduped == Dedup(candidates[..i])
      invariant forall v :: v in seen <==> v in deduped
    {
      var v := candidates[i];
      DedupSnoc(candidates[..i], v);
      assert candidates[..i + 1] == candidates[..i] + [v];
      if v !in seen {
        seen := seen + {v};
        deduped := deduped + [v];
      }
    }
    assert candidates[..|candidates|] == candidates;
  }

  /** The pool is never empty, holds no name twice, and every name in it is
      non-empty and stripped: the `ValueError` for an empty pool cannot be
      raised. */
  lemma PoolShape(basic: seq<(string, Value)>)
    ensures |Pool(basic)| > 0 && Distinct(Pool(basic))
    ensures forall v :: v in Pool(basic) ==> v != [] && Trimmed(v)
  {
    var g := Gathered(basic);
    if g == [] {
      DefaultPoolShape();
      assert DefaultVoicePool[0] in Pool(basic);
    } else {
      assert g[0] in Pool(basic);
    }
  }

  lemma DefaultPoolShape()
    ensures forall v :: v in DefaultVoicePool ==> v != [] && Trimmed(v)
    ensures Distinct(DefaultVoicePool)
  {
  }

  /** With no candidate from any source, the pool is the default one, in
      its order. */
  lemma PoolFallback(basic: seq<(string, Value)>)
    requires Gathered(basic) == []
    ensures Pool(basic) == DefaultVoicePool
  {
    DefaultPoolShape();
    DedupDistinct(DefaultVoicePool);
  }

  /** Otherwise the pool offers exactly the gathered names, each once, in
      the order of their first mention. */
  lemma PoolOffersGathered(basic: seq<(string, Value)>)
    requires Gathered(basic) != []
    ensures forall v :: v in Pool(basic) <==> v in Gathered(basic)
    ensures forall i, j :: 0 <= i < j < |Pool(basic)| ==> MentionedFirst(Gathered(basic), Pool(basic)[i], Pool(basic)[j])
  {
    var g := Gathered(basic);
    assert Pool(basic) == Dedup(g);
    DedupFirstMentions(g);
  }

  /** In random mode a voice text that is not `random` is always among the
      candidates, and so is every configured candidate and choice. */
  lemma ConfiguredVoicesOffered(basic: seq<(string, Value)>)
    ensures forall v :: v in ExplicitVoice(RawVoice(basic)) ==> v in Pool(basic)
    ensures forall v :: v in Flatten(GetOr(basic, "narrator_voice_candidates", VNone)) ==> v in Pool(basic)
    ensures forall v :: v in Flatten(GetOr(basic, "narrator_voice_choices", VNone)) ==> v in Pool(basic)
  {
  }

  /** The random markers all read `random` once lower-cased. */
  lemma MarkerLower(s: string)
    requires IsRandomMarker(s)
    ensures Lower(s) == "random"
  {
    if s == "Random" {
      assert Lower(s)[0] == 'r';
    } else if s == "RANDOM" {
      assert Lower(s)[0] == 'r' && Lower(s)[1] == 'a' && Lower(s)[2] == 'n';
      assert Lower(s)[3] == 'd' && Lower(s)[4] == 'o' && Lower(s)[5] == 'm';
    }
  }

  /** A voice list always means random selection among its names, and a
      random marker as the voice text never joins the pool itself. */
  lemma ListOrMarker(basic: seq<(string, Value)>)
    ensures RawVoice(basic).VList? ==> RandomMode(basic) && forall v :: v in Flatten(RawVoice(basic)) ==> v in Pool(basic)
    ensures RawVoice(basic).VStr? && IsRandomMarker(Strip(RawVoice(basic).s)) ==>
      RandomMode(basic) && ExplicitVoice(RawVoice(basic)) == []
  {
    var raw := RawVoice(basic);
    if raw.VStr? && IsRandomMarker(Strip(raw.s)) {
      MarkerLower(Strip(raw.s));
    }
  }
}
