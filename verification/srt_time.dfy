/** Reading an SRT timestamp `HH:MM:SS,mmm` back into seconds, as the
    `to_seconds` helper of `parse_srt` in `play_with_subtitles.py` and
    `_parse_srt_timestamp` in `storytelling_cli/status.py` do it. */
module SrtTime {
  import opened Wrappers
  import opened Text
  import opened Timestamps

  /** The four text fields of a timestamp. */
  datatype Stamp = Stamp(hh: string, mm: string, ss: string, ms: string)

  /** The four fields of `timestamp`: exactly three `:`-pieces, the last of
      them in exactly two `,`-pieces; `None` where unpacking them raises. */
  function Fields(timestamp: string): (r: Option<Stamp>)
    ensures r.Some? <==> |Split(timestamp, ":")| == 3 && |Split(Split(timestamp, ":")[2], ",")| == 2
  {
    var parts := Split(timestamp, ":");
    if |parts| != 3 then None
    else
      var tail := Split(parts[2], ",");
      if |tail| != 2 then None
      else Some(Stamp(parts[0], parts[1], tail[0], tail[1]))
  }

  /** `int(hh) * 3600 + int(mm) * 60 + int(ss) + int(ms) / 1000`; `None`
      is the `ValueError` Python raises for a field that is not an integer
      or for pieces that do not unpack. */
  function ToSeconds(timestamp: string): (r: Option<real>)
    ensures r.Some? ==> Fields(timestamp).Some?
  {
    var f := Fields(timestamp);
    if f.None? then None else StampSeconds(f.value)
  }

  /** The seconds the four fields stand for, when each is an integer. */
  function StampSeconds(f: Stamp): (r: Option<real>)
    ensures r.Some? <==> ParseInt(f.hh).Some? && ParseInt(f.mm).Some? && ParseInt(f.ss).Some? && ParseInt(f.ms).Some?
  {
    var h, m, s, ms := ParseInt(f.hh), ParseInt(f.mm), ParseInt(f.ss), ParseInt(f.ms);
    if h.Some? && m.Some? && s.Some? && ms.Some? then
      Some(Seconds(h.value, m.value, s.value, ms.value))
    else None
  }

  function Seconds(h: int, m: int, s: int, ms: int): real {
    (h * 3600 + m * 60 + s) as real + ms as real / 1000.0
  }

  /** `_parse_srt_timestamp`: blank text is `None`; otherwise the stripped
      text is read as above, and any failure is `None` as well. */
  function ParseSrtTimestamp(raw: string): (r: Option<real>)
    ensures Strip(raw) == [] ==> r.None?
    ensures Strip(raw) != [] ==> r == ToSeconds(Strip(raw))
  {
    var t := Strip(raw);
    if t == [] then None else ToSeconds(t)
  }

  /** Reading inverts the SRT timestamp renderer: the text the formatters
      of `alignment/mfa.py` and `align_audio.py` write for a clock with a
      non-negative hour reads back as the clock's time in seconds. */
  lemma ToSecondsRender(c: Clock)
    requires Bounded(c) && c.hours >= 0
    ensures ToSeconds(Render(c)).Some? && ToSeconds(Render(c)).value == TotalMillis(c) as real / 1000.0
  {
    RenderFields(c);
    ZeroPadValue(c.hours, 2);
    ZeroPadValue(c.minutes, 2);
    ZeroPadValue(c.seconds, 2);
    ZeroPadValue(c.millis, 3);
    ReadFields(Render(c), ZeroPadNat(c.hours, 2), ZeroPadNat(c.minutes, 2), ZeroPadNat(c.seconds, 2), ZeroPadNat(c.millis, 3),
      c.hours, c.minutes, c.seconds, c.millis);
    SecondsOfMillis(c.hours, c.minutes, c.seconds, c.millis);
  }

  /** The four fields of a rendered clock are its zero-padded numbers. */
  lemma RenderFields(c: Clock)
    requires c.hours >= 0
    ensures Fields(Render(c)) == Some(Stamp(ZeroPadNat(c.hours, 2), ZeroPadNat(c.minutes, 2), ZeroPadNat(c.seconds, 2), ZeroPadNat(c.millis, 3)))
  {
    var h, m, s, ms := ZeroPadNat(c.hours, 2), ZeroPadNat(c.minutes, 2), ZeroPadNat(c.seconds, 2), ZeroPadNat(c.millis, 3);
    ZeroPadDigits(c.hours, 2);
    ZeroPadDigits(c.minutes, 2);
    ZeroPadDigits(c.seconds, 2);
    ZeroPadDigits(c.millis, 3);
    DigitsLack(h, ':');
    DigitsLack(m, ':');
    DigitsLack(s, ':');
    DigitsLack(ms, ':');
    DigitsLack(s, ',');
    DigitsLack(ms, ',');
    assert Lacks(s + "," + ms, ':');
    FieldsOf(Render(c), h, m, s, ms);
  }

  /** The `:`-pieces of a rendered clock: hours, minutes, and the seconds
      with the milliseconds after the comma. */
  lemma RenderPieces(c: Clock)
    requires c.hours >= 0
    ensures Split(Render(c), ":") == [ZeroPadNat(c.hours, 2), ZeroPadNat(c.minutes, 2), ZeroPadNat(c.seconds, 2) + "," + ZeroPadNat(c.millis, 3)]
  {
    var h, m, s, ms := ZeroPadNat(c.hours, 2), ZeroPadNat(c.minutes, 2), ZeroPadNat(c.seconds, 2), ZeroPadNat(c.millis, 3);
    ZeroPadDigits(c.hours, 2);
    ZeroPadDigits(c.minutes, 2);
    ZeroPadDigits(c.seconds, 2);
    ZeroPadDigits(c.millis, 3);
    DigitsLack(h, ':');
    DigitsLack(m, ':');
    DigitsLack(s, ':');
    DigitsLack(ms, ':');
    var tail := s + "," + ms;
    assert Lacks(tail, ':');
    assert Render(c) == h + [':'] + (m + [':'] + tail);
    SplitCons(h, ':', m + ":" + tail);
    SplitCons(m, ':', tail);
    SplitLacks(tail, ':');
  }

  lemma ReadFields(t: string, hh: string, mm: string, ss: string, mmm: string, h: int, m: int, s: int, ms: int)
    requires Fields(t) == Some(Stamp(hh, mm, ss, mmm))
    requires ParseInt(hh) == Some(h) && ParseInt(mm) == Some(m)
    requires ParseInt(ss) == Some(s) && ParseInt(mmm) == Some(ms)
    ensures ToSeconds(t) == Some(Seconds(h, m, s, ms))
  {
    assert ToSeconds(t) == StampSeconds(Stamp(hh, mm, ss, mmm));
  }

  /** The seconds of the fields are the milliseconds they add up to,
      over a thousand. */
  lemma SecondsOfMillis(h: int, m: int, s: int, ms: int)
    ensures Seconds(h, m, s, ms) == (h * 3600000 + m * 60000 + s * 1000 + ms) as real / 1000.0
  {
    var whole := h * 3600 + m * 60 + s;
    assert (whole * 1000 + ms) as real == whole as real * 1000.0 + ms as real;
    assert whole * 1000 + ms == h * 3600000 + m * 60000 + s * 1000 + ms;
  }

  lemma FieldsOf(t: string, h: string, m: string, s: string, ms: string)
    requires Lacks(h, ':') && Lacks(m, ':') && Lacks(s + "," + ms, ':') && Lacks(s, ',') && Lacks(ms, ',')
    requires t == h + ":" + m + ":" + s + "," + ms
    ensures Fields(t) == Some(Stamp(h, m, s, ms))
  {
    var tail := s + "," + ms;
    assert t == h + [':'] + (m + [':'] + tail);
    SplitCons(h, ':', m + ":" + tail);
    SplitCons(m, ':', tail);
    SplitLacks(tail, ':');
    assert Split(t, ":") == [h, m, tail];
    SplitCons(s, ',', ms);
    SplitLacks(ms, ',');
    assert Split(tail, ",") == [s, ms];
  }

  /** Reading is exactly the `_parse_srt_timestamp` reading of a rendered
      clock, too: surrounding whitespace is stripped first. */
  lemma ParseRender(c: Clock)
    requires Bounded(c) && c.hours >= 0
    ensures ParseSrtTimestamp(Render(c)).Some? && ParseSrtTimestamp(Render(c)).value == TotalMillis(c) as real / 1000.0
  {
    var t := Render(c);
    RenderTrimmed(c);
    StripTrimmed(t);
    assert ParseSrtTimestamp(t) == ToSeconds(t);
    ToSecondsRender(c);
  }

  /** A rendered clock starts and ends with a digit. */
  lemma RenderTrimmed(c: Clock)
    requires c.hours >= 0
    ensures Trimmed(Render(c)) && Render(c) != []
  {
    var t := Render(c);
    var h, ms := ZeroPadNat(c.hours, 2), ZeroPadNat(c.millis, 3);
    ZeroPadDigits(c.hours, 2);
    ZeroPadDigits(c.millis, 3);
    assert t[0] == h[0] && IsDigit(h[0]);
    assert t[|t| - 1] == ms[|ms| - 1] && IsDigit(ms[|ms| - 1]);
  }

  /** The characters an SRT timestamp is written with. */
  predicate TimeChars(s: string) {
    forall i :: 0 <= i < |s| ==> IsDigit(s[i]) || s[i] == ':' || s[i] == ','
  }

  /** A time line written from two timestamps splits at its arrow into
      exactly those two. */
  lemma TimeLineSplits(a: string, b: string)
    requires TimeChars(a) && TimeChars(b)
    ensures Split(a + " --> " + b, " --> ") == [a, b]
  {
    SplitAt(a, " --> ", b);
    SplitLacksSep(b, " --> ");
  }

  lemma RenderChars(c: Clock)
    requires c.hours >= 0
    ensures TimeChars(Render(c)) && |Render(c)| > 0 && IsDigit(Render(c)[0])
  {
    ZeroPadDigits(c.hours, 2);
    ZeroPadDigits(c.minutes, 2);
    ZeroPadDigits(c.seconds, 2);
    ZeroPadDigits(c.millis, 3);
  }
}
