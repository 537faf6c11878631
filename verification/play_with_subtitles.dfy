/** `play_with_subtitles.py`: the subtitle renderer driven by the playback
    clock, the SRT reader, the decoder of the terminal's key bytes, and the
    two helpers that prepare an `mpv` command line. The printing itself is
    recorded as events; the player process, its IPC socket and the threads
    are not part of this model. */
module PlayWithSubtitles {
  import opened Wrappers
  import opened Text
  import opened Timestamps
  import opened SrtTime
  import opened SrtBlocks

  datatype SubtitleLine = SubtitleLine(index: int, startTime: real, endTime: real, text: string)

  // ---------------------------------------------------------------- parse_srt

  /** The `ValueError` of `int()`, of unpacking `split(" --> ")` and of
      `to_seconds`. */
  datatype ParseError = ValueError

  /** One block of `parse_srt`: `None` for a block of fewer than three
      lines, which is skipped. */
  function ParseBlock(block: string): Result<Option<SubtitleLine>, ParseError> {
    ParseLines(Splitlines(Strip(block)))
  }

  /** The lines of one block: ordinal, time line, and the text lines,
      joined by spaces. Each of `int()`, the unpacking of the time line and
      `to_seconds` raises the same `ValueError`, so which one fails first
      does not matter. */
  function ParseLines(lines: seq<string>): Result<Option<SubtitleLine>, ParseError> {
    if |lines| < 3 then Ok(None)
    else Build(ParseInt(lines[0]), ReadTimes(lines[1]), Join(" ", lines[2..]))
  }

  /** The start and end of a time line `start --> end`. */
  function ReadTimes(timeLine: string): Option<(real, real)> {
    var times := Split(timeLine, " --> ");
    if |times| != 2 then None
    else
      var startTime, endTime := ToSeconds(times[0]), ToSeconds(times[1]);
      if startTime.None? || endTime.None? then None else Some((startTime.value, endTime.value))
  }

  function Build(index: Option<int>, times: Option<(real, real)>, text: string): Result<Option<SubtitleLine>, ParseError> {
    if index.None? || times.None? then Err(ValueError)
    else Ok(Some(SubtitleLine(index.value, times.value.0, times.value.1, text)))
  }

  /** `parse_srt` over the file's text: every block is read in order, a
      block that is too short is skipped, and the first bad block fails the
      whole file. */
  method ParseSrt(content: string) returns (r: Result<seq<SubtitleLine>, ParseError>)
    ensures r == ParseBlocks(Blocks(content), ParseBlock)
  {
    r := ParseAll(Blocks(content), ParseBlock);
  }

  /** The time line of a block as the SRT writers lay it out. */
  function TimeLine(startClock: Clock, endClock: Clock): string {
    Render(startClock) + " --> " + Render(endClock)
  }

  /** A block as the SRT writers lay it out: ordinal, time line, text. */
  function BlockText(index: nat, startClock: Clock, endClock: Clock, text: string): string {
    NatToString(index) + "\n" + (TimeLine(startClock, endClock) + "\n" + text)
  }

  lemma TimeLineNoBreak(a: string, b: string)
    requires TimeChars(a) && TimeChars(b)
    ensures NoBreak(a + " --> " + b)
  {
    var s := a + " --> " + b;
    forall i | 0 <= i < |s|
      ensures !IsLineBreak(s[i])
    {
      if i < |a| {
        assert s[i] == a[i];
      } else if i >= |a| + 5 {
        assert s[i] == b[i - |a| - 5];
      }
    }
  }

  lemma ThreeLines(n: string, t: string, text: string)
    requires NoBreak(n) && NoBreak(t) && text != [] && NoBreak(text)
    ensures Splitlines(n + "\n" + (t + "\n" + text)) == [n, t, text]
  {
    TwoLines(t, text);
    SplitlinesCons(n, t + "\n" + text);
  }

  lemma TwoLines(t: string, text: string)
    requires NoBreak(t) && text != [] && NoBreak(text)
    ensures Splitlines(t + "\n" + text) == [t, text]
  {
    SplitlinesOne(text);
    SplitlinesCons(t, text);
  }

  /** Three lines whose ordinal and times read back are read as that
      subtitle. */
  lemma ReadTimesOf(a: string, b: string, startTime: real, endTime: real)
    requires TimeChars(a) && TimeChars(b)
    requires ToSeconds(a).Some? && ToSeconds(a).value == startTime
    requires ToSeconds(b).Some? && ToSeconds(b).value == endTime
    ensures ReadTimes(a + " --> " + b) == Some((startTime, endTime))
  {
    TimeLineSplits(a, b);
  }

  /** A trimmed block of three lines whose ordinal and time line read back
      is read as that subtitle. */
  lemma ParseBlockOf(block: string, n: string, timeLine: string, text: string, index: int, times: (real, real))
    requires Trimmed(block) && Splitlines(block) == [n, timeLine, text]
    requires ParseInt(n) == Some(index) && ReadTimes(timeLine) == Some(times)
    ensures ParseBlock(block) == Ok(Some(SubtitleLine(index, times.0, times.1, text)))
  {
    StripTrimmed(block);
    ParseLinesOf(n, timeLine, text);
  }

  lemma ParseLinesOf(n: string, timeLine: string, text: string)
    ensures ParseLines([n, timeLine, text]) == Build(ParseInt(n), ReadTimes(timeLine), text)
  {
    var lines := [n, timeLine, text];
    assert lines[2..] == [text];
    JoinOne(" ", lines[2..]);
  }

  /** A rendered timestamp is written in timestamp characters and reads
      back as its time in seconds. */
  lemma RenderReads(c: Clock)
    requires Bounded(c) && c.hours >= 0
    ensures TimeChars(Render(c))
    ensures ToSeconds(Render(c)).Some? && ToSeconds(Render(c)).value == TotalMillis(c) as real / 1000.0
  {
    RenderChars(c);
    ToSecondsRender(c);
  }

  /** A block written from an ordinal, a time line and a line of text is
      trimmed and has those three lines. */
  lemma WrittenLines(n: string, timeLine: string, text: string)
    requires n != [] && AllDigits(n) && NoBreak(timeLine)
    requires text != [] && NoBreak(text) && Trimmed(text)
    ensures Trimmed(n + "\n" + (timeLine + "\n" + text))
    ensures Splitlines(n + "\n" + (timeLine + "\n" + text)) == [n, timeLine, text]
  {
    var block := n + "\n" + (timeLine + "\n" + text);
    assert block[0] == n[0];
    assert block[|block| - 1] == text[|text| - 1];
    ThreeLines(n, timeLine, text);
  }

  /** A block written from an ordinal, two timestamps and a line of text
      reads back as what the three read as. */
  lemma ParseWritten(n: string, a: string, b: string, text: string, index: int, startTime: real, endTime: real)
    requires n != [] && AllDigits(n) && TimeChars(a) && TimeChars(b)
    requires text != [] && NoBreak(text) && Trimmed(text)
    requires ParseInt(n) == Some(index)
    requires ToSeconds(a).Some? && ToSeconds(a).value == startTime
    requires ToSeconds(b).Some? && ToSeconds(b).value == endTime
    ensures var r := ParseBlock(n + "\n" + (a + " --> " + b + "\n" + text));
      r.Ok? && r.value.Some? && r.value.value == SubtitleLine(index, startTime, endTime, text)
  {
    TimeLineNoBreak(a, b);
    WrittenLines(n, a + " --> " + b, text);
    ReadTimesOf(a, b, startTime, endTime);
    ParseBlockOf(n + "\n" + (a + " --> " + b + "\n" + text), n, a + " --> " + b, text, index, (startTime, endTime));
  }

  /** Reading inverts writing: a block laid out as the SRT writers lay it
      out reads back as its ordinal, its two times in seconds and its text. */
  lemma ParseBlockRoundTrip(index: nat, startClock: Clock, endClock: Clock, text: string)
    requires Bounded(startClock) && Bounded(endClock) && startClock.hours >= 0 && endClock.hours >= 0
    requires text != [] && NoBreak(text) && Trimmed(text)
    ensures var r := ParseBlock(BlockText(index, startClock, endClock, text));
      && r.Ok? && r.value.Some?
      && r.value.value == SubtitleLine(index, TotalMillis(startClock) as real / 1000.0, TotalMillis(endClock) as real / 1000.0, text)
  {
    RenderReads(startClock);
    RenderReads(endClock);
    ParseIntOfNat(index);
    ParseWritten(NatToString(index), Render(startClock), Render(endClock), text, index,
      TotalMillis(startClock) as real / 1000.0, TotalMillis(endClock) as real / 1000.0);
  }

  // ---------------------------------------------------------------- SubtitleRenderer

  /** What the renderer prints: a subtitle (by position), or the notice of
      a jump to a time. */
  datatype Event = Shown(position: nat) | Jumped(time: real)

  const TimeRewindThreshold: real := 0.4

  function Max(a: real, b: real): real { if a >= b then a else b }

  /** The number of leading subtitles, up to `limit`, that start before `t`:
      where `_recalculate_index` puts the next index after a rewind. */
  function RewindTarget(subtitles: seq<SubtitleLine>, limit: int, t: real, from: nat): (n: nat)
    requires limit <= |subtitles|
    requires forall k :: 0 <= k < from && k < limit ==> subtitles[k].startTime < t
    ensures from <= n && (n <= limit || n == from)
    ensures forall k :: 0 <= k < n && k < limit ==> subtitles[k].startTime < t
    ensures n < limit ==> subtitles[n].startTime >= t
    decreases |subtitles| - from
  {
    if from < limit && subtitles[from].startTime < t then RewindTarget(subtitles, limit, t, from + 1) else from
  }

  /** Where the emitting loop of `update` stops: the first index from
      `from` that reaches the limit or starts after `t`. */
  function RunEnd(subtitles: seq<SubtitleLine>, limit: int, t: real, from: nat): (n: nat)
    requires limit <= |subtitles|
    ensures from <= n && (n <= limit || n == from)
    ensures forall k :: from <= k < n ==> subtitles[k].startTime <= t
    ensures n < limit ==> subtitles[n].startTime > t
    decreases |subtitles| - from
  {
    if from < limit && subtitles[from].startTime <= t then RunEnd(subtitles, limit, t, from + 1) else from
  }

  /** The events for positions `from` up to `to`. */
  function ShownRange(from: nat, to: nat): seq<Event>
    requires from <= to
  {
    seq(to - from, k requires 0 <= k => Shown(from + k))
  }

  class SubtitleRenderer {
    const subtitles: seq<SubtitleLine>
    const limit: int
    var nextIndex: nat
    var lastTime: real
    var finished: bool
    var output: seq<Event>

    /** The limit never exceeds the subtitles, and the next index is within
        it (or 0 under a negative limit). */
    predicate Valid()
      reads this
    {
      limit <= |subtitles| && (if limit >= 0 then nextIndex <= limit else nextIndex == 0)
    }

    /** `limit` is `None` when no limit was given. */
    constructor(subtitles: seq<SubtitleLine>, limit: Option<int>)
      ensures Valid()
      ensures this.subtitles == subtitles
      ensures this.limit == if limit.None? || limit.value > |subtitles| then |subtitles| else limit.value
      ensures nextIndex == 0 && lastTime == 0.0 && output == []
      ensures finished <==> this.limit == 0
    {
      this.subtitles := subtitles;
      var l := if limit.None? || limit.value > |subtitles| then |subtitles| else limit.value;
      this.limit := l;
      nextIndex := 0;
      lastTime := 0.0;
      finished := l == 0;
      output := [];
    }

    /** `_recalculate_index`: the next index becomes the number of leading
        subtitles that start before `t`; a change is announced. */
    method RecalculateIndex(t: real)
      requires Valid()
      modifies this
      ensures Valid()
      ensures nextIndex == RewindTarget(subtitles, limit, t, 0)
      ensures output == old(output) + (if nextIndex != old(nextIndex) then [Jumped(Max(t, 0.0))] else [])
      ensures lastTime == old(lastTime) && finished == old(finished)
    {
      var target := 0;
      while target < limit && subtitles[target].startTime < t
        invariant 0 <= target && (target <= limit || target == 0)
        invariant forall k :: 0 <= k < target && k < limit ==> subtitles[k].startTime < t
        invariant RewindTarget(subtitles, limit, t, target) == RewindTarget(subtitles, limit, t, 0)
        decreases |subtitles| - target
      {
        target := target + 1;
      }
      if target != nextIndex {
        output := output + [Jumped(Max(t, 0.0))];
      }
      nextIndex := target;
    }

    /** The emitting loop of `update`: every subtitle from the next index
        that has started by `t` is shown, in order, up to the limit. */
    method ShowStarted(t: real)
      requires Valid()
      modifies this
      ensures Valid()
      ensures nextIndex == RunEnd(subtitles, limit, t, old(nextIndex))
      ensures output == old(output) + ShownRange(old(nextIndex), nextIndex)
      ensures lastTime == old(lastTime) && finished == old(finished)
    {
      ghost var from := nextIndex;
      while nextIndex < limit && subtitles[nextIndex].startTime <= t
        invariant Valid() && from <= nextIndex
        invariant lastTime == old(lastTime) && finished == old(finished)
        invariant RunEnd(subtitles, limit, t, nextIndex) == RunEnd(subtitles, limit, t, from)
        invariant output == old(output) + ShownRange(from, nextIndex)
        decreases limit - nextIndex
      {
        assert ShownRange(from, nextIndex + 1) == ShownRange(from, nextIndex) + [Shown(nextIndex)];
        output := output + [Shown(nextIndex)];
        nextIndex := nextIndex + 1;
      }
    }

    /** `update`: a finished renderer does nothing. Otherwise a clock that
        went back by more than the threshold rewinds the index; then every
        subtitle from the index that has started by `t` is shown, in order,
        up to the limit; the clock is remembered, and the renderer is
        finished once the index reaches the limit. */
    method Update(t: real)
      requires Valid()
      modifies this
      ensures Valid()
      ensures old(finished) ==> nextIndex == old(nextIndex) && lastTime == old(lastTime) && finished && output == old(output)
      ensures !old(finished) ==>
        var rewound := t + TimeRewindThreshold < old(lastTime);
        var from := if rewound then RewindTarget(subtitles, limit, t, 0) else old(nextIndex);
        var jump := if rewound && from != old(nextIndex) then [Jumped(Max(t, 0.0))] else [];
        && nextIndex == RunEnd(subtitles, limit, t, from)
        && output == old(output) + jump + ShownRange(from, nextIndex)
        && lastTime == t
        && (finished <==> nextIndex >= limit)
    {
      if finished {
        return;
      }
      if t + TimeRewindThreshold < lastTime {
        RecalculateIndex(t);
      }
      ShowStarted(t);
      lastTime := t;
      if nextIndex >= limit {
        finished := true;
      }
    }
  }

  // ---------------------------------------------------------------- key decoding

  datatype Key = Space | Right | Left

  /** What one poll of the key buffer yields: nothing yet, a key, or the
      `KeyboardInterrupt` that Ctrl-C raises. */
  datatype Poll = NoKey | Pressed(key: Key) | Interrupted

  const Esc: char := '\U{1B}'
  const CtrlC: char := '\U{03}'

  /** The text a key arrives as. */
  function KeyText(k: Key): string {
    match k
    case Space => " "
    case Right => [Esc, '[', 'C']
    case Left => [Esc, '[', 'D']
  }

  /** The decoding loop of `poll_key` over the buffered text: the outcome
      and what stays buffered, which is always a suffix of the buffer. A
      space is consumed as SPACE; an escape sequence is consumed three
      characters at a time and yields RIGHT or LEFT for `ESC [ C` /
      `ESC [ D`; any other character is dropped; an escape sequence shorter
      than three characters waits; Ctrl-C raises and leaves the buffer as
      it is. */
  function Decode(buffer: string): (r: (Poll, string))
    ensures |r.1| <= |buffer| && r.1 == buffer[|buffer| - |r.1|..]
    ensures r.0 == NoKey ==> r.1 == [] || (r.1[0] == Esc && |r.1| < 3)
    ensures r.0 == Interrupted ==> r.1 != [] && r.1[0] == CtrlC
    decreases |buffer|
  {
    if buffer == [] then (NoKey, [])
    else if buffer[0] == CtrlC then (Interrupted, buffer)
    else if buffer[0] == ' ' then (Pressed(Space), buffer[1..])
    else if buffer[0] != Esc then Decode(buffer[1..])
    else if |buffer| < 3 then (NoKey, buffer)
    else if buffer[..3] == KeyText(Right) then (Pressed(Right), buffer[3..])
    else if buffer[..3] == KeyText(Left) then (Pressed(Left), buffer[3..])
    else Decode(buffer[3..])
  }

  /** The part of `KeyListener` that decodes keys: its text buffer. */
  class KeyListener {
    var buffer: string

    constructor()
      ensures buffer == []
    {
      buffer := [];
    }

    /** The POSIX branch of `poll_key` after the wait: `read` says whether
        any bytes were read (false when nothing was ready, the read would
        block or it returned no bytes), and `text` is what those bytes
        decode to once undecodable bytes are dropped, which may be empty.
        When bytes were read the text is appended to the buffer and the
        buffer is decoded, even if the text is empty. */
    method PollKey(read: bool, text: string) returns (r: Poll)
      modifies this
      ensures !read ==> r == NoKey && buffer == old(buffer)
      ensures read ==> (r, buffer) == Decode(old(buffer) + text)
    {
      if !read {
        return NoKey;
      }
      buffer := buffer + text;
      ghost var goal := Decode(buffer);
      while buffer != []
        invariant Decode(buffer) == goal
        decreases |buffer|
      {
        var ch := buffer[0];
        if ch == CtrlC {
          return Interrupted;
        }
        if ch == ' ' {
          buffer := buffer[1..];
          return Pressed(Space);
        }
        if ch != Esc {
          buffer := buffer[1..];
          continue;
        }
        if |buffer| < 3 {
          return NoKey;
        }
        var sequence := buffer[..3];
        buffer := buffer[3..];
        if sequence == [Esc, '[', 'C'] {
          return Pressed(Right);
        }
        if sequence == [Esc, '[', 'D'] {
          return Pressed(Left);
        }
      }
      r := NoKey;
    }
  }

  /** Decoding inverts typing: a key's text is decoded as that key, and
      what was typed after it stays buffered. */
  lemma DecodeKeyText(k: Key, rest: string)
    ensures Decode(KeyText(k) + rest) == (Pressed(k), rest)
  {
    var s := KeyText(k) + rest;
    assert s[..|KeyText(k)|] == KeyText(k);
    assert s[|KeyText(k)|..] == rest;
  }

  /** A character that is not part of a key, Ctrl-C or an escape sequence
      is dropped without a trace. */
  lemma DecodeDropsNoise(c: char, rest: string)
    requires c != CtrlC && c != ' ' && c != Esc
    ensures Decode([c] + rest) == Decode(rest)
  {
    assert ([c] + rest)[1..] == rest;
  }

  /** A key is reported only when its text was in the buffer, just before
      what stays buffered. */
  lemma {:induction false} DecodePressed(buffer: string)
    requires Decode(buffer).0.Pressed?
    ensures KeyBefore(buffer, Decode(buffer))
    decreases |buffer|
  {
    if buffer[0] != ' ' && buffer[0] != Esc {
      DecodePressed(buffer[1..]);
      KeyBeforeShift(buffer, 1, Decode(buffer));
    } else if buffer[0] == Esc && buffer[..3] != KeyText(Right) && buffer[..3] != KeyText(Left) {
      DecodePressed(buffer[3..]);
      KeyBeforeShift(buffer, 3, Decode(buffer));
    }
  }

  /** The text of the pressed key ends where what stays buffered begins. */
  predicate KeyBefore(buffer: string, r: (Poll, string))
    requires r.0.Pressed?
  {
    var used, key := |buffer| - |r.1|, KeyText(r.0.key);
    |key| <= used <= |buffer| && buffer[used - |key|..used] == key
  }

  lemma KeyBeforeShift(buffer: string, d: nat, r: (Poll, string))
    requires d <= |buffer| && r.0.Pressed? && KeyBefore(buffer[d..], r)
    ensures KeyBefore(buffer, r)
  {
    var used, key := |buffer| - |r.1|, KeyText(r.0.key);
    assert buffer[d..][used - d - |key|..used - d] == buffer[used - |key|..used];
  }

  // ---------------------------------------------------------------- mpv command line

  /** The argument is the flag or the flag with a value. */
  predicate Matches(arg: string, flag: string) { arg == flag || flag + "=" <= arg }

  /** `has_flag`: some argument matches the flag. */
  predicate HasFlag(cmd: seq<string>, flag: string) {
    exists i :: 0 <= i < |cmd| && Matches(cmd[i], flag)
  }

  /** Appends `arg` unless `flag` is present. */
  function AddFlag(cmd: seq<string>, flag: string, arg: string): seq<string> {
    if HasFlag(cmd, flag) then cmd else cmd + [arg]
  }

  /** The flags `_ensure_command_flags` makes sure of, each with the
      argument appended when it is missing. */
  const RequiredFlags: seq<(string, string)> := [
    ("--no-video", "--no-video"),
    ("--force-window", "--force-window=no"),
    ("--keep-open", "--keep-open=no"),
    ("--input-terminal", "--input-terminal=no"),
    ("--really-quiet", "--really-quiet")
  ]

  /** The command after the first `f` checks of `_ensure_command_flags`. */
  function EnsuredUpTo(cmd: seq<string>, f: nat): seq<string>
    requires f <= |RequiredFlags|
  {
    if f == 0 then cmd else AddFlag(EnsuredUpTo(cmd, f - 1), RequiredFlags[f - 1].0, RequiredFlags[f - 1].1)
  }

  function Ensured(cmd: seq<string>): seq<string> {
    EnsuredUpTo(cmd, |RequiredFlags|)
  }

  /** `_ensure_command_flags`, over the list it appends to. */
  method EnsureCommandFlags(cmd: seq<string>) returns (out: seq<string>)
    ensures out == Ensured(cmd)
  {
    out := cmd;
    if !HasFlag(out, "--no-video") {
      out := out + ["--no-video"];
    }
    assert out == EnsuredUpTo(cmd, 1);
    if !HasFlag(out, "--force-window") {
      out := out + ["--force-window=no"];
    }
    assert out == EnsuredUpTo(cmd, 2);
    if !HasFlag(out, "--keep-open") {
      out := out + ["--keep-open=no"];
    }
    assert out == EnsuredUpTo(cmd, 3);
    if !HasFlag(out, "--input-terminal") {
      out := out + ["--input-terminal=no"];
    }
    assert out == EnsuredUpTo(cmd, 4);
    if !HasFlag(out, "--really-quiet") {
      out := out + ["--really-quiet"];
    }
  }

  /** The arguments for the first `f` flags that `cmd` lacks, in order. */
  function Missing(cmd: seq<string>, f: nat): seq<string>
    requires f <= |RequiredFlags|
  {
    if f == 0 then []
    else Missing(cmd, f - 1) + (if HasFlag(cmd, RequiredFlags[f - 1].0) then [] else [RequiredFlags[f - 1].1])
  }

  /** The argument appended for one flag never counts as another flag. */
  lemma FlagsIndependent()
    ensures forall g, h :: 0 <= g < |RequiredFlags| && 0 <= h < |RequiredFlags| ==>
      (Matches(RequiredFlags[g].1, RequiredFlags[h].0) <==> g == h)
  {
    var names := ["--no-video", "--force-window", "--keep-open", "--input-terminal", "--really-quiet"];
    var args := ["--no-video", "--force-window=no", "--keep-open=no", "--input-terminal=no", "--really-quiet"];
    assert forall g :: 0 <= g < 5 ==> RequiredFlags[g] == (names[g], args[g]);
    forall g, h | 0 <= g < 5 && 0 <= h < 5
      ensures Matches(args[g], names[h]) <==> g == h
    {
      if g != h {
        assert args[g][2] != names[h][2] || args[g][3] != names[h][3];
      }
    }
  }

  lemma HasFlagAppend(cmd: seq<string>, extra: seq<string>, flag: string)
    requires forall k :: 0 <= k < |extra| ==> !Matches(extra[k], flag)
    ensures HasFlag(cmd + extra, flag) <==> HasFlag(cmd, flag)
  {
    var all := cmd + extra;
    forall k | |cmd| <= k < |all|
      ensures !Matches(all[k], flag)
    {
      assert all[k] == extra[k - |cmd|];
    }
    if HasFlag(all, flag) {
      var i :| 0 <= i < |all| && Matches(all[i], flag);
      assert all[i] == cmd[i];
    }
    if HasFlag(cmd, flag) {
      var i :| 0 <= i < |cmd| && Matches(cmd[i], flag);
      assert all[i] == cmd[i];
    }
  }

  /** `_ensure_command_flags` keeps every argument in place and appends,
      once each and in order, the arguments of the flags the command lacks. */
  lemma {:induction false} EnsuredAppendsMissing(cmd: seq<string>, f: nat)
    requires f <= |RequiredFlags|
    ensures EnsuredUpTo(cmd, f) == cmd + Missing(cmd, f)
    ensures forall k :: 0 <= k < |Missing(cmd, f)| ==> exists g :: 0 <= g < f && Missing(cmd, f)[k] == RequiredFlags[g].1
  {
    if f > 0 {
      EnsuredAppendsMissing(cmd, f - 1);
      FlagsIndependent();
      var extra := Missing(cmd, f - 1);
      forall k | 0 <= k < |extra|
        ensures !Matches(extra[k], RequiredFlags[f - 1].0)
      {
        var g :| 0 <= g < f - 1 && extra[k] == RequiredFlags[g].1;
      }
      HasFlagAppend(cmd, extra, RequiredFlags[f - 1].0);
    }
  }

  /** Afterwards every flag is present. */
  lemma {:induction false} EnsuredHasFlags(cmd: seq<string>, f: nat)
    requires f <= |RequiredFlags|
    ensures forall g :: 0 <= g < f ==> HasFlag(EnsuredUpTo(cmd, f), RequiredFlags[g].0)
  {
    if f > 0 {
      EnsuredHasFlags(cmd, f - 1);
      FlagsIndependent();
      var prev := EnsuredUpTo(cmd, f - 1);
      var flag, arg := RequiredFlags[f - 1].0, RequiredFlags[f - 1].1;
      forall g | 0 <= g < f
        ensures HasFlag(EnsuredUpTo(cmd, f), RequiredFlags[g].0)
      {
        if g < f - 1 {
          HasFlagAppend(prev, if HasFlag(prev, flag) then [] else [arg], RequiredFlags[g].0);
          assert EnsuredUpTo(cmd, f) == prev + (if HasFlag(prev, flag) then [] else [arg]);
        } else if !HasFlag(prev, flag) {
          assert EnsuredUpTo(cmd, f)[|prev|] == arg;
        }
      }
    }
  }

  /** A second call changes nothing. */
  lemma EnsuredIdempotent(cmd: seq<string>)
    ensures Ensured(Ensured(cmd)) == Ensured(cmd)
  {
    var once := Ensured(cmd);
    EnsuredHasFlags(cmd, |RequiredFlags|);
    EnsuredAppendsMissing(once, |RequiredFlags|);
    NothingMissing(once, |RequiredFlags|);
  }

  lemma {:induction false} NothingMissing(cmd: seq<string>, f: nat)
    requires f <= |RequiredFlags|
    requires forall g :: 0 <= g < f ==> HasFlag(cmd, RequiredFlags[g].0)
    ensures Missing(cmd, f) == []
  {
    if f > 0 {
      NothingMissing(cmd, f - 1);
    }
  }

  // ---------------------------------------------------------------- IPC path

  const IpcFlag: string := "--input-ipc-server"

  /** Argument `i` names the IPC path: the bare flag followed by a value,
      or the flag with `=`. */
  predicate IpcAt(cmd: seq<string>, i: nat)
    requires i < |cmd|
  {
    (cmd[i] == IpcFlag && i + 1 < |cmd|) || IpcFlag + "=" <= cmd[i]
  }

  /** The path named at `i`: the next argument, or what follows the first
      `=` (`arg.split("=", 1)[1]`). */
  function IpcValue(cmd: seq<string>, i: nat): string
    requires i < |cmd| && IpcAt(cmd, i)
  {
    if cmd[i] == IpcFlag && i + 1 < |cmd| then cmd[i + 1] else Partition(cmd[i], "=").2
  }

  /** `_extract_ipc_path`: the path named by the first argument that names
      one, or `None`. */
  method ExtractIpcPath(cmd: seq<string>) returns (r: Option<string>)
    ensures r.None? <==> forall i :: 0 <= i < |cmd| ==> !IpcAt(cmd, i)
    ensures r.Some? ==> exists i :: 0 <= i < |cmd| && IpcAt(cmd, i) && r.value == IpcValue(cmd, i) &&
                                    (forall j :: 0 <= j < i ==> !IpcAt(cmd, j))
  {
    for idx := 0 to |cmd|
      invariant forall j :: 0 <= j < idx ==> !IpcAt(cmd, j)
    {
      var arg := cmd[idx];
      if arg == IpcFlag && idx + 1 < |cmd| {
        assert IpcAt(cmd, idx) && IpcValue(cmd, idx) == cmd[idx + 1];
        return Some(cmd[idx + 1]);
      }
      if IpcFlag + "=" <= arg {
        assert IpcAt(cmd, idx) && IpcValue(cmd, idx) == Partition(arg, "=").2;
        return Some(Partition(arg, "=").2);
      }
    }
    return None;
  }

  /** Appending arguments keeps what an argument names, except that a bare
      flag in last place takes the first appended argument as its value. */
  lemma IpcAtAppend(cmd: seq<string>, extra: seq<string>, i: nat)
    requires i < |cmd| && (i + 1 < |cmd| || cmd[i] != IpcFlag)
    ensures IpcAt(cmd + extra, i) <==> IpcAt(cmd, i)
    ensures IpcAt(cmd, i) ==> IpcValue(cmd + extra, i) == IpcValue(cmd, i)
  {
    assert (cmd + extra)[i] == cmd[i];
    if i + 1 < |cmd| {
      assert (cmd + extra)[i + 1] == cmd[i + 1];
    }
  }

  /** The mpv start-up order (flags first, then the IPC path) finds the path
      the original command names. A bare trailing flag is the exception: it
      takes the first flag appended as its value. */
  lemma TrailingIpcFlag()
    ensures Ensured([IpcFlag]) == [IpcFlag, "--no-video", "--force-window=no", "--keep-open=no", "--input-terminal=no", "--really-quiet"]
    ensures IpcAt(Ensured([IpcFlag]), 0) && IpcValue(Ensured([IpcFlag]), 0) == "--no-video"
  {
    var cmd := [IpcFlag];
    var names := ["--no-video", "--force-window", "--keep-open", "--input-terminal", "--really-quiet"];
    assert forall g :: 0 <= g < 5 ==> RequiredFlags[g].0 == names[g];
    forall g | 0 <= g < |RequiredFlags|
      ensures !HasFlag(cmd, RequiredFlags[g].0)
    {
      var name := names[g];
      assert IpcFlag[2] != name[2] || IpcFlag[8] != name[8];
      assert !Matches(cmd[0], name);
    }
    assert Missing(cmd, 1) == ["--no-video"];
    assert Missing(cmd, 2) == ["--no-video", "--force-window=no"];
    assert Missing(cmd, 3) == ["--no-video", "--force-window=no", "--keep-open=no"];
    assert Missing(cmd, 4) == ["--no-video", "--force-window=no", "--keep-open=no", "--input-terminal=no"];
    EnsuredAppendsMissing(cmd, |RequiredFlags|);
  }
}
