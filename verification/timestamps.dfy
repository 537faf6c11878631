/** SRT timestamps `HH:MM:SS,mmm`. Two formatters exist: the rounding one
    with explicit carry (`_format_timestamp` in `alignment/mfa.py`,
    `format_timestamp` in `mfa_lab/textgrid_to_srt.py`) and the truncating
    one inside `generate_srt` of `whisperx_alignment_test/scripts/align_audio.py`.
    Seconds are exact reals. */
module Timestamps {
  import opened Text

  /** The four fields of a timestamp; hours may be negative only in the
      truncating formatter, which does not clamp. */
  datatype Clock = Clock(hours: int, minutes: nat, seconds: nat, millis: nat)

  predicate Bounded(c: Clock) { c.minutes < 60 && c.seconds < 60 && c.millis < 1000 }

  function TotalMillis(c: Clock): int {
    c.hours * 3600000 + c.minutes * 60000 + c.seconds * 1000 + c.millis
  }

  /** The bounded clock that shows `total` milliseconds. */
  function ClockOf(total: int): (c: Clock)
    ensures Bounded(c) && TotalMillis(c) == total
  {
    ClockFields(total);
    Clock(total / 3600000, (total % 3600000) / 60000, (total % 60000) / 1000, total % 1000)
  }

  /** Hours, minutes, seconds and milliseconds taken from a total add back
      up to it and stay in range. */
  lemma ClockFields(total: int)
    ensures var c := Clock(total / 3600000, (total % 3600000) / 60000, (total % 60000) / 1000, total % 1000);
      Bounded(c) && TotalMillis(c) == total
  {
    var r1 := total % 3600000;
    var r2 := total % 60000;
    ModOfMod(total, 60000, 60);
    ModOfMod(total, 1000, 60);
    assert r1 == (r1 / 60000) * 60000 + r2;
    assert r2 == (r2 / 1000) * 1000 + total % 1000;
    assert total == (total / 3600000) * 3600000 + r1;
  }

  /** Taking the remainder by a multiple of `a` first does not change the
      remainder by `a`. */
  lemma ModOfMod(x: int, a: int, b: int)
    requires a > 0 && b > 0
    ensures (x % (a * b)) % a == x % a
    ensures (x % (a * b)) / a < b
  {
    var ab := a * b;
    assert ab > 0;
    var q := x / ab;
    var r := x % ab;
    assert x == q * ab + r;
    assert r == (r / a) * a + r % a;
    assert x == (q * b + r / a) * a + r % a by {
      assert q * ab == (q * b) * a;
    }
    DivModUnique(q * b + r / a, r % a, a);
    var m := r / a;
    assert m >= b ==> m * a >= b * a;
  }

  /** A bounded clock is determined by the milliseconds it shows. */
  lemma ClockUnique(c: Clock)
    requires Bounded(c)
    ensures ClockOf(TotalMillis(c)) == c
  {
    var rest := c.minutes * 60000 + c.seconds * 1000 + c.millis;
    assert 0 <= rest < 3600000;
    DivModUnique(c.hours, rest, 3600000);
    var rest2 := c.seconds * 1000 + c.millis;
    DivModUnique(c.minutes, rest2, 60000);
    DivModUnique(c.hours * 60 + c.minutes, rest2, 60000);
    assert TotalMillis(c) == (c.hours * 60 + c.minutes) * 60000 + rest2;
    DivModUnique(c.seconds, c.millis, 1000);
    DivModUnique((c.hours * 60 + c.minutes) * 60 + c.seconds, c.millis, 1000);
    assert TotalMillis(c) == ((c.hours * 60 + c.minutes) * 60 + c.seconds) * 1000 + c.millis;
  }

  lemma DivModUnique(q: int, r: int, d: int)
    requires 0 <= r < d
    ensures (q * d + r) / d == q && (q * d + r) % d == r
  {
    var a := q * d + r;
    var k := a / d - q;
    assert k * d == r - a % d;
    assert k >= 1 ==> k * d >= d;
    assert k <= -1 ==> k * d <= -d;
  }

  /** Python's `round` on a real: to the nearest integer, ties to even. */
  function RoundHalfEven(x: real): (n: int)
    ensures x - 0.5 <= n as real <= x + 0.5
    ensures n as real - x == 0.5 ==> n % 2 == 0
    ensures x - n as real == 0.5 ==> n % 2 == 0
  {
    var f := x.Floor;
    var d := x - f as real;
    if d < 0.5 then f
    else if d > 0.5 then f + 1
    else if f % 2 == 0 then f
    else f + 1
  }

  /** `max(0.0, seconds)` */
  function Clamp(seconds: real): (t: real)
    ensures t >= 0.0 && (seconds >= 0.0 ==> t == seconds)
  {
    if seconds < 0.0 then 0.0 else seconds
  }

  /** The milliseconds the rounding formatter shows: whole seconds from the
      floor, the fraction rounded to the nearest millisecond. */
  function RoundedMillis(seconds: real): (total: int)
    ensures total >= 0
  {
    var t := Clamp(seconds);
    t.Floor * 1000 + RoundHalfEven((t - t.Floor as real) * 1000.0)
  }

  /** The field computation and the ms -> s -> min -> h carry of
      `_format_timestamp`: the result is in range and shows exactly the
      rounded milliseconds of the clamped time. */
  method CarryClock(seconds: real) returns (c: Clock)
    ensures Bounded(c) && c.hours >= 0
    ensures TotalMillis(c) == RoundedMillis(seconds)
  {
    var t := Clamp(seconds);
    var whole := t.Floor;
    var hours := whole / 3600;
    var minutes := (whole % 3600) / 60;
    var secs := whole % 60;
    var millis := RoundHalfEven((t - whole as real) * 1000.0);
    assert 0 <= millis <= 1000;
    WholeSeconds(whole);
    if millis == 1000 {
      millis := 0;
      secs := secs + 1;
    }
    if secs == 60 {
      secs := 0;
      minutes := minutes + 1;
    }
    if minutes == 60 {
      minutes := 0;
      hours := hours + 1;
    }
    c := Clock(hours, minutes, secs, millis);
  }

  /** Hours, minutes and seconds taken from whole seconds add back up to
      them, with minutes and seconds below 60. */
  lemma WholeSeconds(whole: int)
    ensures (whole / 3600) * 3600 + ((whole % 3600) / 60) * 60 + whole % 60 == whole
    ensures (whole % 3600) / 60 < 60
  {
    ModOfMod(whole, 60, 60);
    var r := whole % 3600;
    assert r == (r / 60) * 60 + r % 60;
    assert whole == (whole / 3600) * 3600 + r;
  }

  /** `f"{hours:02}:{minutes:02}:{secs:02},{millis:03}"` */
  function Render(c: Clock): string {
    ZeroPad(c.hours, 2) + ":" + ZeroPadNat(c.minutes, 2) + ":" + ZeroPadNat(c.seconds, 2) + "," + ZeroPadNat(c.millis, 3)
  }

  /** What the rounding formatter shows for `seconds`. */
  function Rounded(seconds: real): string {
    Render(ClockOf(RoundedMillis(seconds)))
  }

  /** `_format_timestamp` / `format_timestamp`: the text shows the clamped
      time rounded to the millisecond, with every field in range. */
  method FormatRounded(seconds: real) returns (text: string)
    ensures text == Rounded(seconds)
  {
    var c := CarryClock(seconds);
    ClockUnique(c);
    text := Render(c);
  }

  /** The fields of the truncating formatter of `align_audio.py`: floor
      division throughout, the fraction cut to whole milliseconds. */
  function TruncatedClock(seconds: real): (c: Clock)
    ensures Bounded(c)
    ensures TotalMillis(c) == (seconds * 1000.0).Floor
  {
    var whole := seconds.Floor;
    var millis := ((seconds - whole as real) * 1000.0).Floor;
    assert whole as real * 1000.0 + (seconds - whole as real) * 1000.0 == seconds * 1000.0;
    FloorShift(whole * 1000, (seconds - whole as real) * 1000.0);
    Clock(whole / 3600, (whole % 3600) / 60, whole % 60, millis)
  }

  lemma FloorShift(n: int, x: real)
    ensures (n as real + x).Floor == n + x.Floor
  {
  }

  /** The inner `format_timestamp` of `align_audio.py`: it truncates
      (a time just under a millisecond boundary is shown below it) and
      has no clamp, so a negative time shows a negative hour field. */
  function FormatTruncated(seconds: real): (text: string)
    ensures text == Render(ClockOf((seconds * 1000.0).Floor))
  {
    var c := TruncatedClock(seconds);
    ClockUnique(c);
    Render(c)
  }

  /** Where the two formatters differ: 1.5 ms rounds (half to even) to 2 ms
      and truncates to 1 ms. */
  lemma RoundingVersusTruncation()
    ensures RoundedMillis(0.0015) == 2 && (0.0015 * 1000.0).Floor == 1
  {
  }
}
