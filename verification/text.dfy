/** The parts of Python's `str` behaviour the rest of the model relies on:
    whitespace, `strip`, `split`, `join`, `splitlines`, `replace`, `lower`,
    `int()` and integer formatting. Strings are sequences of characters. */
module Text {
  import opened Wrappers
  import Seqs

  // ---------------------------------------------------------------- characters

  /** Python's `str.isspace()`: the characters `split()`, `strip()` and the
      regular-expression class `\s` treat as whitespace. */
  predicate IsSpace(c: char) {
    c == ' ' || c == '\t' || c == '\n' || c == '\r' || c == '\U{0B}' || c == '\U{0C}'
    || ('\U{1C}' <= c <= '\U{1F}') || c == '\U{85}' || c == '\U{A0}' || c == '\U{1680}'
    || ('\U{2000}' <= c <= '\U{200A}') || c == '\U{2028}' || c == '\U{2029}'
    || c == '\U{202F}' || c == '\U{205F}' || c == '\U{3000}'
  }

  /** The line boundaries of Python's `str.splitlines()` (`\r\n` counts as one). */
  predicate IsLineBreak(c: char) {
    c == '\n' || c == '\r' || c == '\U{0B}' || c == '\U{0C}' || c == '\U{1C}' || c == '\U{1D}'
    || c == '\U{1E}' || c == '\U{85}' || c == '\U{2028}' || c == '\U{2029}'
  }

  predicate IsAsciiLetter(c: char) { ('a' <= c <= 'z') || ('A' <= c <= 'Z') }

  predicate IsDigit(c: char) { '0' <= c <= '9' }

  function LowerChar(c: char): char {
    if 'A' <= c <= 'Z' then (c as int + 32) as char else c
  }

  predicate IsLowerChar(c: char) { !('A' <= c <= 'Z') }

  /** `str.lower()` on ASCII letters; every other character is kept. */
  function Lower(s: string): (r: string)
    ensures |r| == |s|
    ensures forall i :: 0 <= i < |s| ==> r[i] == LowerChar(s[i])
  {
    seq(|s|, i requires 0 <= i < |s| => LowerChar(s[i]))
  }

  predicate AllLower(s: string) { forall i :: 0 <= i < |s| ==> IsLowerChar(s[i]) }

  predicate NoSpace(s: string) { forall i :: 0 <= i < |s| ==> !IsSpace(s[i]) }

  predicate AllSpace(s: string) { forall i :: 0 <= i < |s| ==> IsSpace(s[i]) }

  lemma LowerIsLower(s: string)
    ensures AllLower(Lower(s))
  {
  }

  lemma LowerConcat(a: string, b: string)
    ensures Lower(a + b) == Lower(a) + Lower(b)
  {
  }

  function UpperChar(c: char): char {
    if 'a' <= c <= 'z' then (c as int - 32) as char else c
  }

  /** `str.upper()` on ASCII letters; every other character is kept. */
  function Upper(s: string): (r: string)
    ensures |r| == |s|
    ensures forall i :: 0 <= i < |s| ==> r[i] == UpperChar(s[i])
  {
    seq(|s|, i requires 0 <= i < |s| => UpperChar(s[i]))
  }

  /** Upper-casing forgets any earlier lower-casing or upper-casing. */
  lemma UpperForgetsCase(s: string)
    ensures Upper(Lower(s)) == Upper(s) && Upper(Upper(s)) == Upper(s)
  {
  }

  // ---------------------------------------------------------------- strip

  /** `str.lstrip()` */
  function LStrip(s: string): (r: string)
    ensures |r| <= |s|
  {
    if |s| > 0 && IsSpace(s[0]) then LStrip(s[1..]) else s
  }

  /** `str.lstrip()` removes a leading run of whitespace and nothing else. */
  lemma {:induction false} LStripShape(s: string)
    ensures LStrip(s) == s[|s| - |LStrip(s)|..]
    ensures AllSpace(s[..|s| - |LStrip(s)|])
    ensures LStrip(s) == [] || !IsSpace(LStrip(s)[0])
  {
    if |s| > 0 && IsSpace(s[0]) {
      LStripShape(s[1..]);
    }
  }

  /** `str.rstrip()` */
  function RStrip(s: string): (r: string)
    ensures |r| <= |s|
  {
    if |s| > 0 && IsSpace(s[|s| - 1]) then RStrip(s[..|s| - 1]) else s
  }

  /** `str.rstrip()` removes a trailing run of whitespace and nothing else. */
  lemma {:induction false} RStripShape(s: string)
    ensures RStrip(s) == s[..|RStrip(s)|]
    ensures AllSpace(s[|RStrip(s)|..])
    ensures RStrip(s) == [] || !IsSpace(RStrip(s)[|RStrip(s)| - 1])
  {
    if |s| > 0 && IsSpace(s[|s| - 1]) {
      var t := s[..|s| - 1];
      RStripShape(t);
      var k := |RStrip(t)|;
      assert RStrip(s) == RStrip(t);
      assert s[..k] == t[..k];
      assert s[k..] == t[k..] + [s[|s| - 1]];
    }
  }

  /** Stripping the end of `a + b` reaches into `a` only when `b` is all
      whitespace. */
  lemma {:induction false} RStripAppend(a: string, b: string)
    ensures RStrip(b) != [] ==> RStrip(a + b) == a + RStrip(b)
    ensures RStrip(b) == [] ==> RStrip(a + b) == RStrip(a)
    decreases |b|
  {
    if b == [] {
      assert a + b == a;
    } else if IsSpace(b[|b| - 1]) {
      assert (a + b)[..|a + b| - 1] == a + b[..|b| - 1];
      RStripAppend(a, b[..|b| - 1]);
    }
  }

  /** `str.strip()` */
  function Strip(s: string): (r: string)
    ensures Trimmed(r)
    ensures |r| <= |s|
  {
    LStripShape(s);
    RStripShape(LStrip(s));
    RStrip(LStrip(s))
  }

  /** Text starting with a non-space is only stripped at its end. */
  lemma StripNoLead(s: string)
    requires s != [] && !IsSpace(s[0])
    ensures Strip(s) == RStrip(s)
  {
    assert LStrip(s) == s;
  }

  /** Lower-casing changes no whitespace, so it commutes with stripping;
      and lower-casing twice is lower-casing once. */
  lemma LowerStrip(s: string)
    ensures Strip(Lower(s)) == Lower(Strip(s))
    ensures Lower(Lower(s)) == Lower(s)
  {
    LowerLStrip(s);
    LowerRStrip(LStrip(s));
  }

  lemma {:induction false} LowerLStrip(s: string)
    ensures LStrip(Lower(s)) == Lower(LStrip(s))
    decreases |s|
  {
    if |s| > 0 && IsSpace(s[0]) {
      assert Lower(s)[1..] == Lower(s[1..]);
      LowerLStrip(s[1..]);
    }
  }

  lemma {:induction false} LowerRStrip(s: string)
    ensures RStrip(Lower(s)) == Lower(RStrip(s))
    decreases |s|
  {
    if |s| > 0 && IsSpace(s[|s| - 1]) {
      assert Lower(s)[..|s| - 1] == Lower(s[..|s| - 1]);
      LowerRStrip(s[..|s| - 1]);
    }
  }

  /** No leading and no trailing whitespace. */
  predicate Trimmed(s: string) {
    s == [] || (!IsSpace(s[0]) && !IsSpace(s[|s| - 1]))
  }

  lemma StripTrimmed(s: string)
    requires Trimmed(s)
    ensures Strip(s) == s
  {
  }

  lemma StripEmptyIffAllSpace(s: string)
    ensures Strip(s) == [] <==> AllSpace(s)
  {
    var l := LStrip(s);
    LStripShape(s);
    RStripShape(l);
    if Strip(s) == [] {
      assert RStrip(l) == [];
      assert AllSpace(l[0..]);
      assert s == s[..|s| - |l|] + l;
    }
  }

  /** Appending a character to a string leaves what `lstrip` removes
      unchanged unless the string is all whitespace. */
  lemma {:induction false} LStripSnoc(s: string, c: char)
    ensures LStrip(s) != [] ==> LStrip(s + [c]) == LStrip(s) + [c]
    ensures LStrip(s) == [] ==> LStrip(s + [c]) == LStrip([c])
  {
    if |s| > 0 && IsSpace(s[0]) {
      assert (s + [c])[1..] == s[1..] + [c];
      LStripSnoc(s[1..], c);
    }
  }

  /** `s.rstrip().strip()` is `s.strip()`. */
  lemma {:induction false} StripRStrip(s: string)
    ensures Strip(RStrip(s)) == Strip(s)
  {
    if |s| > 0 && IsSpace(s[|s| - 1]) {
      var init := s[..|s| - 1];
      assert s == init + [s[|s| - 1]];
      StripRStrip(init);
      LStripSnoc(init, s[|s| - 1]);
      if LStrip(init) != [] {
        var l := LStrip(init);
        assert (l + [s[|s| - 1]])[..|l|] == l;
      }
    }
  }

  /** What `strip` keeps is a slice of the original. */
  lemma StripSlice(s: string) returns (k: nat)
    ensures k + |Strip(s)| <= |s| && Strip(s) == s[k..k + |Strip(s)|]
  {
    LStripShape(s);
    RStripShape(LStrip(s));
    k := |s| - |LStrip(s)|;
  }

  /** Stripping a line with no line boundary leaves none. */
  lemma StripNoBreak(s: string)
    requires NoBreak(s)
    ensures NoBreak(Strip(s)) && NoBreak(RStrip(s))
  {
    var k := StripSlice(s);
    RStripShape(s);
  }

  /** The only whitespace is the plain space, and no two whitespace
      characters are adjacent. */
  predicate SingleSpaced(t: string) {
    forall i :: 0 <= i < |t| && IsSpace(t[i]) ==> t[i] == ' ' && (i + 1 < |t| ==> !IsSpace(t[i + 1]))
  }

  /** Words separated by single spaces, with no whitespace at either end. */
  predicate CleanForm(t: string) {
    Trimmed(t) && SingleSpaced(t)
  }

  /** `str.strip(chars)`: removes the given characters from both ends. */
  function StripChars(s: string, chars: set<char>): (r: string)
    ensures |r| <= |s|
    ensures r == [] || (r[0] !in chars && r[|r| - 1] !in chars)
  {
    if |s| > 0 && s[0] in chars then StripChars(s[1..], chars)
    else if |s| > 0 && s[|s| - 1] in chars then StripChars(s[..|s| - 1], chars)
    else s
  }

  // ---------------------------------------------------------------- split / join

  /** Index of the first whitespace character, or |s|. */
  function FirstSpace(s: string): (k: nat)
    ensures k <= |s| && NoSpace(s[..k]) && (k == |s| || IsSpace(s[k]))
  {
    if s == [] || IsSpace(s[0]) then 0
    else
      var k := 1 + FirstSpace(s[1..]);
      assert s[..k] == [s[0]] + s[1..][..k - 1];
      k
  }

  predicate IsWord(w: string) { |w| > 0 && NoSpace(w) }

  /** `str.split()` with no separator: the maximal runs of non-whitespace. */
  function SplitWs(s: string): (r: seq<string>)
    ensures forall i :: 0 <= i < |r| ==> IsWord(r[i])
    decreases |s|
  {
    LStripShape(s);
    var t := LStrip(s);
    if t == [] then []
    else
      var k := FirstSpace(t);
      var rest := SplitWs(t[k..]);
      WordsCons(t[..k], rest);
      [t[..k]] + rest
  }

  lemma WordsCons(w: string, rest: seq<string>)
    requires IsWord(w) && forall i :: 0 <= i < |rest| ==> IsWord(rest[i])
    ensures forall i :: 0 <= i < |[w] + rest| ==> IsWord(([w] + rest)[i])
  {
  }

  lemma SplitWsAllSpace(s: string)
    requires AllSpace(s)
    ensures SplitWs(s) == []
  {
    var t := LStrip(s);
    LStripShape(s);
  }

  lemma {:induction false} SplitWsOfWord(w: string)
    requires IsWord(w)
    ensures SplitWs(w) == [w]
  {
    assert LStrip(w) == w;
    assert FirstSpace(w) == |w|;
    assert w[|w|..] == [] && w[..|w|] == w;
    assert SplitWs([]) == [];
  }

  /** Leading whitespace is skipped by `split()`. */
  lemma {:induction false} SplitWsLeading(sp: string, s: string)
    requires AllSpace(sp) && (s == [] || !IsSpace(s[0]))
    ensures SplitWs(sp + s) == SplitWs(s)
  {
    LStripSkips(sp, s);
    LStripShape(s);
    assert LStrip(s) == s;
  }

  lemma {:induction false} LStripSkips(sp: string, s: string)
    requires AllSpace(sp) && (s == [] || !IsSpace(s[0]))
    ensures LStrip(sp + s) == s
    decreases |sp|
  {
    if sp != [] {
      assert (sp + s)[1..] == sp[1..] + s;
      LStripSkips(sp[1..], s);
    } else {
      assert sp + s == s;
    }
  }

  lemma {:induction false} FirstSpaceOf(t: string, k: nat)
    requires k < |t| && NoSpace(t[..k]) && IsSpace(t[k])
    ensures FirstSpace(t) == k
  {
  }

  /** Words joined by single spaces split back into the same words. */
  lemma {:induction false} SplitWsJoin(words: seq<string>)
    requires forall i :: 0 <= i < |words| ==> IsWord(words[i])
    ensures SplitWs(Join(" ", words)) == words
  {
    if |words| == 1 {
      SplitWsOfWord(words[0]);
    } else if |words| >= 2 {
      var w := words[0];
      var t := Join(" ", words[1..]);
      JoinWordsClean(words[1..]);
      SplitWsJoin(words[1..]);
      var s := w + " " + t;
      assert LStrip(s) == s;
      assert s[..|w|] == w;
      FirstSpaceOf(s, |w|);
      assert s[|w|..] == " " + t;
      SplitWsLeading(" ", t);
    }
  }

  /** `sep.join(parts)` */
  function Join(sep: string, parts: seq<string>): (r: string)
  {
    if |parts| == 0 then ""
    else if |parts| == 1 then parts[0]
    else parts[0] + sep + Join(sep, parts[1..])
  }

  lemma JoinOne(sep: string, parts: seq<string>)
    requires |parts| == 1
    ensures Join(sep, parts) == parts[0]
  {
  }

  lemma {:induction false} JoinAppend(sep: string, parts: seq<string>, x: string)
    requires |parts| > 0
    ensures Join(sep, parts + [x]) == Join(sep, parts) + sep + x
  {
    if |parts| == 1 {
      assert parts + [x] == [parts[0], x];
    } else {
      assert (parts + [x])[1..] == parts[1..] + [x];
      JoinAppend(sep, parts[1..], x);
    }
  }

  lemma {:induction false} JoinConcat(sep: string, a: seq<string>, b: seq<string>)
    requires |a| > 0 && |b| > 0
    ensures Join(sep, a + b) == Join(sep, a) + sep + Join(sep, b)
  {
    if |a| > 1 {
      assert (a + b)[1..] == a[1..] + b;
      JoinConcat(sep, a[1..], b);
    }
  }

  /** Words joined by single spaces are in clean form. */
  lemma {:induction false} JoinWordsClean(words: seq<string>)
    requires forall i :: 0 <= i < |words| ==> IsWord(words[i])
    ensures CleanForm(Join(" ", words))
    ensures words != [] ==> Join(" ", words) != []
  {
    if |words| == 1 {
      assert Join(" ", words) == words[0];
    } else if |words| >= 2 {
      JoinWordsClean(words[1..]);
      CleanCons(words[0], Join(" ", words[1..]));
    }
  }

  lemma CleanCons(w: string, t: string)
    requires IsWord(w) && CleanForm(t) && t != []
    ensures CleanForm(w + " " + t)
  {
    var r := w + " " + t;
    assert forall i :: 0 <= i < |w| ==> r[i] == w[i];
    assert r[|w|] == ' ' && r[|w| + 1] == t[0];
    assert forall i :: |w| < i < |r| ==> r[i] == t[i - |w| - 1];
  }

  /** Sum of a sequence of naturals. */
  function Sum(xs: seq<nat>): nat {
    if xs == [] then 0 else Sum(xs[..|xs| - 1]) + xs[|xs| - 1]
  }

  lemma {:induction false} SumConcat(a: seq<nat>, b: seq<nat>)
    ensures Sum(a + b) == Sum(a) + Sum(b)
    decreases |b|
  {
    if b == [] {
      assert a + b == a;
    } else {
      assert (a + b)[..|a + b| - 1] == a + b[..|b| - 1];
      SumConcat(a, b[..|b| - 1]);
    }
  }

  /** `sub` occurs in `s` at index `k`. */
  predicate OccursAt(s: string, sub: string, k: nat) {
    k + |sub| <= |s| && s[k..k + |sub|] == sub
  }

  /** Index of the first occurrence of `sub` in `s` at or after `from`. */
  function FindFrom(s: string, sub: string, from: nat): (r: Option<nat>)
    ensures r.Some? ==> from <= r.value && OccursAt(s, sub, r.value)
    ensures r.Some? ==> forall k :: from <= k < r.value ==> !OccursAt(s, sub, k)
    ensures r.None? ==> forall k :: from <= k ==> !OccursAt(s, sub, k)
    decreases |s| - from
  {
    if from + |sub| > |s| then None
    else if s[from..from + |sub|] == sub then Some(from)
    else FindFrom(s, sub, from + 1)
  }

  /** `str.find(sub)` as an option. */
  function Find(s: string, sub: string): Option<nat> { FindFrom(s, sub, 0) }

  /** `sub in s` */
  predicate Contains(s: string, sub: string) { Find(s, sub).Some? }

  /** The last occurrence of `sub` starting before `upto`. */
  function FindBefore(s: string, sub: string, upto: nat): (r: Option<nat>)
    ensures r.Some? ==> r.value < upto && OccursAt(s, sub, r.value)
    ensures r.Some? ==> forall k :: r.value < k < upto ==> !OccursAt(s, sub, k)
    ensures r.None? ==> forall k: nat :: k < upto ==> !OccursAt(s, sub, k)
  {
    if upto == 0 then None
    else if OccursAt(s, sub, upto - 1) then Some(upto - 1)
    else FindBefore(s, sub, upto - 1)
  }

  /** `str.rfind(sub)` as an option. */
  function RFind(s: string, sub: string): (r: Option<nat>)
    ensures r.Some? ==> OccursAt(s, sub, r.value) && forall k: nat :: r.value < k ==> !OccursAt(s, sub, k)
    ensures r.None? ==> forall k: nat :: !OccursAt(s, sub, k)
  {
    FindBefore(s, sub, |s| + 1)
  }

  /** `str.split(sep)` with a non-empty separator: every piece, empty ones included. */
  function Split(s: string, sep: string): (r: seq<string>)
    requires |sep| > 0
    ensures |r| > 0
    decreases |s|
  {
    match Find(s, sep)
    case None => [s]
    case Some(i) => [s[..i]] + Split(s[i + |sep|..], sep)
  }

  lemma {:induction false} SplitJoin(s: string, sep: string)
    requires |sep| > 0
    ensures Join(sep, Split(s, sep)) == s
    decreases |s|
  {
    match Find(s, sep)
    case None =>
    case Some(i) =>
      var rest := Split(s[i + |sep|..], sep);
      SplitJoin(s[i + |sep|..], sep);
      assert Split(s, sep) == [s[..i]] + rest;
      assert s == s[..i] + sep + s[i + |sep|..];
  }

  /** `str.partition(sep)`: head, whether the separator occurred, tail. */
  function Partition(s: string, sep: string): (r: (string, bool, string))
    requires |sep| > 0
    ensures !r.1 ==> r.0 == s && r.2 == ""
    ensures r.1 ==> s == r.0 + sep + r.2 && !Contains(r.0, sep)
  {
    match Find(s, sep)
    case None => (s, false, "")
    case Some(i) =>
      assert s == s[..i] + sep + s[i + |sep|..];
      assert Find(s[..i], sep).None? by {
        forall k: nat | OccursAt(s[..i], sep, k) ensures false {
          assert s[..i][k..k + |sep|] == s[k..k + |sep|];
          assert OccursAt(s, sep, k);
        }
      }
      (s[..i], true, s[i + |sep|..])
  }

  /** Index of the first line boundary, or |s|. */
  function FirstBreak(s: string): (k: nat)
    ensures k <= |s| && (k == |s| || IsLineBreak(s[k]))
    ensures forall i :: 0 <= i < k ==> !IsLineBreak(s[i])
  {
    if s == [] || IsLineBreak(s[0]) then 0 else 1 + FirstBreak(s[1..])
  }

  /** `str.splitlines()`: no line keeps its terminator and a final terminator
      does not start an extra empty line. */
  function Splitlines(s: string): (r: seq<string>)
    ensures forall i, j :: 0 <= i < |r| && 0 <= j < |r[i]| ==> !IsLineBreak(r[i][j])
    ensures s == [] <==> r == []
    decreases |s|
  {
    if s == [] then []
    else
      var k := FirstBreak(s);
      if k == |s| then [s]
      else
        var next := if s[k] == '\r' && k + 1 < |s| && s[k + 1] == '\n' then k + 2 else k + 1;
        [s[..k]] + Splitlines(s[next..])
  }

  /** `s.replace(pat, rep)`: leftmost, non-overlapping occurrences. */
  function ReplaceAll(s: string, pat: string, rep: string): (r: string)
    requires |pat| > 0
    ensures !Contains(s, pat) ==> r == s
    decreases |s|
  {
    if |s| < |pat| then s
    else if s[..|pat|] == pat then rep + ReplaceAll(s[|pat|..], pat, rep)
    else
      assert !Contains(s, pat) ==> !Contains(s[1..], pat) by {
        if Contains(s[1..], pat) {
          var k := Find(s[1..], pat).value;
          assert s[1..][k..k + |pat|] == s[k + 1..k + 1 + |pat|];
          assert OccursAt(s, pat, k + 1);
        }
      }
      [s[0]] + ReplaceAll(s[1..], pat, rep)
  }

  /** `s.replace(x, y)` for one-character `x` and `y`: every occurrence of
      `x` becomes `y`, nothing else moves. */
  function ReplaceChar(s: string, x: char, y: char): (r: string)
    ensures |r| == |s|
    ensures forall i :: 0 <= i < |s| ==> r[i] == if s[i] == x then y else s[i]
  {
    seq(|s|, i requires 0 <= i < |s| => if s[i] == x then y else s[i])
  }

  // ---------------------------------------------------------------- integers

  function DigitChar(d: nat): char
    requires d < 10
  {
    ('0' as int + d) as char
  }

  function DigitValue(c: char): nat
    requires IsDigit(c)
  {
    c as int - '0' as int
  }

  /** Decimal digits of a natural number, no leading zeros. */
  function NatToString(n: nat): (r: string)
    ensures |r| > 0 && AllDigits(r)
  {
    if n < 10 then [DigitChar(n)] else NatToString(n / 10) + [DigitChar(n % 10)]
  }

  /** Reading the digits back gives the number. */
  lemma {:induction false} NatToStringValue(n: nat)
    ensures DigitsValue(NatToString(n)) == n
  {
    if n >= 10 {
      NatToStringValue(n / 10);
      var s := NatToString(n);
      assert s[..|s| - 1] == NatToString(n / 10);
    }
  }

  /** `str(n)` for an int. */
  function IntToString(n: int): string {
    if n < 0 then "-" + NatToString(-n) else NatToString(n)
  }

  function Zeros(k: nat): (r: string)
    ensures |r| == k && forall i :: 0 <= i < k ==> r[i] == '0'
  {
    if k == 0 then "" else "0" + Zeros(k - 1)
  }

  function ZeroPadNat(n: nat, width: nat): (r: string)
    ensures |r| >= width
  {
    var d := NatToString(n);
    if |d| < width then Zeros(width - |d|) + d else d
  }

  /** f"{n:0W}": zero padding to the field width; the sign counts in the width. */
  function ZeroPad(n: int, width: nat): string {
    if n < 0 then "-" + ZeroPadNat(-n, if width > 0 then width - 1 else 0)
    else ZeroPadNat(n, width)
  }

  predicate AllDigits(s: string) { forall i :: 0 <= i < |s| ==> IsDigit(s[i]) }

  function DigitsValue(s: string): nat
    requires AllDigits(s)
  {
    if s == [] then 0 else 10 * DigitsValue(s[..|s| - 1]) + DigitValue(s[|s| - 1])
  }

  /** Python's `int(text)` for ASCII text: surrounding whitespace, an optional
      sign and at least one digit; anything else raises (`None` here). */
  function ParseInt(text: string): (r: Option<int>)
    ensures AllDigits(text) && |text| > 0 ==> r == Some(DigitsValue(text))
  {
    var t := Strip(text);
    if |t| > 0 && (t[0] == '-' || t[0] == '+') then
      var body := t[1..];
      if |body| > 0 && AllDigits(body) then
        var v: int := if t[0] == '-' then 0 - DigitsValue(body) as int else DigitsValue(body);
        Some(v)
      else None
    else if |t| > 0 && AllDigits(t) then Some(DigitsValue(t))
    else None
  }

  lemma {:induction false} ParseIntOfNat(n: nat)
    ensures ParseInt(NatToString(n)) == Some(n)
  {
    var s := NatToString(n);
    NatToStringValue(n);
    assert !IsSpace(s[0]) && !IsSpace(s[|s| - 1]);
    StripTrimmed(s);
  }

  /** A written int starts with a minus sign exactly when it is negative. */
  lemma IntToStringSign(n: int)
    ensures IntToString(n) != [] && (IntToString(n)[0] == '-' <==> n < 0)
  {
    if n >= 0 {
      assert IsDigit(NatToString(n)[0]);
    }
  }

  /** Different numbers are written differently. */
  lemma IntToStringInjective(a: int, b: int)
    requires IntToString(a) == IntToString(b)
    ensures a == b
  {
    var sa, sb := IntToString(a), IntToString(b);
    IntToStringSign(a);
    IntToStringSign(b);
    if a < 0 {
      assert NatToString(-a) == sa[1..] == sb[1..] == NatToString(-b);
      NatToStringValue(-a);
      NatToStringValue(-b);
    } else {
      NatToStringValue(a);
      NatToStringValue(b);
    }
  }

  // ---------------------------------------------------------------- splitting on one character

  /** `c` does not occur in `s`. */
  predicate Lacks(s: string, c: char) { forall i :: 0 <= i < |s| ==> s[i] != c }

  lemma LacksNotContains(s: string, c: char)
    requires Lacks(s, c)
    ensures !Contains(s, [c])
  {
    forall k: nat | k + 1 <= |s|
      ensures !OccursAt(s, [c], k)
    {
      assert s[k..k + 1][0] == s[k];
    }
  }

  /** A character of the text is contained in it. */
  lemma CharContained(s: string, i: nat)
    requires i < |s|
    ensures Contains(s, [s[i]])
  {
    assert s[i..i + 1] == [s[i]];
    assert OccursAt(s, [s[i]], i);
  }

  /** Splitting on a character absent from the text gives the text. */
  lemma SplitLacks(s: string, c: char)
    requires Lacks(s, c)
    ensures Split(s, [c]) == [s]
  {
    LacksNotContains(s, c);
  }

  /** A text without the separator's first character splits into itself. */
  lemma SplitLacksSep(s: string, sep: string)
    requires |sep| > 0 && Lacks(s, sep[0])
    ensures Split(s, sep) == [s]
  {
    forall k: nat | k + |sep| <= |s|
      ensures !OccursAt(s, sep, k)
    {
      assert s[k..k + |sep|][0] == s[k];
    }
  }

  /** Splitting cuts off a first piece that lacks the separator's first
      character. */
  lemma SplitAt(a: string, sep: string, b: string)
    requires |sep| > 0 && Lacks(a, sep[0])
    ensures Split(a + sep + b, sep) == [a] + Split(b, sep)
  {
    var s := a + sep + b;
    assert OccursAt(s, sep, |a|) by {
      assert s[|a|..|a| + |sep|] == sep;
    }
    forall k: nat | k < |a|
      ensures !OccursAt(s, sep, k)
    {
      if k + |sep| <= |s| {
        assert s[k..k + |sep|][0] == a[k];
      }
    }
    var i := Find(s, sep).value;
    assert i == |a|;
    assert s[..i] == a;
    assert s[i + |sep|..] == b;
  }

  /** The first occurrence of a separator after a piece that lacks its
      first character is right after that piece. */
  lemma FindAfter(a: string, sep: string, b: string)
    requires |sep| > 0 && Lacks(a, sep[0])
    ensures Find(a + sep + b, sep) == Some(|a|)
  {
    var s := a + sep + b;
    assert OccursAt(s, sep, |a|) by {
      assert s[|a|..|a| + |sep|] == sep;
    }
    forall k: nat | k < |a|
      ensures !OccursAt(s, sep, k)
    {
      if k + |sep| <= |s| {
        assert s[k..k + |sep|][0] == a[k];
      }
    }
  }

  /** Searching from the end of a prefix `p`, the first separator after a
      piece that lacks its first character is right after that piece. */
  lemma FindFromAfter(p: string, a: string, sep: string, b: string)
    requires |sep| > 0 && Lacks(a, sep[0])
    ensures FindFrom(p + a + sep + b, sep, |p|) == Some(|p| + |a|)
  {
    var s := p + a + sep + b;
    assert OccursAt(s, sep, |p| + |a|) by {
      assert s[|p| + |a|..|p| + |a| + |sep|] == sep;
    }
    forall k: nat | |p| <= k < |p| + |a|
      ensures !OccursAt(s, sep, k)
    {
      if k + |sep| <= |s| {
        assert s[k..k + |sep|][0] == a[k - |p|];
      }
    }
  }

  /** `str.partition` at the first separator. */
  lemma PartitionAt(a: string, sep: string, b: string)
    requires |sep| > 0 && Lacks(a, sep[0])
    ensures Partition(a + sep + b, sep) == (a, true, b)
  {
    var s := a + sep + b;
    FindAfter(a, sep, b);
    assert s[..|a|] == a;
    assert s[|a| + |sep|..] == b;
  }

  /** Splitting on a character absent from `a` cuts `a` off first. */
  lemma SplitCons(a: string, c: char, b: string)
    requires Lacks(a, c)
    ensures Split(a + [c] + b, [c]) == [a] + Split(b, [c])
  {
    SplitAt(a, [c], b);
  }

  /** No line boundary in `s`. */
  predicate NoBreak(s: string) { forall i :: 0 <= i < |s| ==> !IsLineBreak(s[i]) }

  /** `splitlines` of a line with no boundary is that line. */
  lemma SplitlinesOne(a: string)
    requires a != [] && NoBreak(a)
    ensures Splitlines(a) == [a]
  {
    assert FirstBreak(a) == |a|;
  }

  /** `splitlines` cuts at the first `\n`. */
  lemma SplitlinesCons(a: string, b: string)
    requires NoBreak(a)
    ensures Splitlines(a + "\n" + b) == [a] + Splitlines(b)
  {
    var s := a + "\n" + b;
    assert FirstBreak(s) == |a| by {
      assert IsLineBreak(s[|a|]);
      assert forall i :: 0 <= i < |a| ==> s[i] == a[i];
    }
    assert s[..|a|] == a;
    assert s[|a| + 1..] == b;
  }

  lemma DigitsLack(s: string, c: char)
    requires AllDigits(s) && !IsDigit(c)
    ensures Lacks(s, c)
  {
  }

  /** Leading zeros do not change the value of a digit string. */
  lemma {:induction false} LeadingZeros(k: nat, d: string)
    requires AllDigits(d)
    ensures AllDigits(Zeros(k) + d) && DigitsValue(Zeros(k) + d) == DigitsValue(d)
    decreases |d|
  {
    var s := Zeros(k) + d;
    if d == [] {
      assert s == Zeros(k);
      ZerosValue(k);
    } else {
      assert s[..|s| - 1] == Zeros(k) + d[..|d| - 1];
      LeadingZeros(k, d[..|d| - 1]);
    }
  }

  lemma {:induction false} ZerosValue(k: nat)
    ensures DigitsValue(Zeros(k)) == 0
  {
    if k > 0 {
      var z := Zeros(k);
      assert z[..|z| - 1] == Zeros(k - 1) by {
        assert z == Zeros(k - 1) + "0";
      }
      ZerosValue(k - 1);
    }
  }

  lemma ZeroPadDigits(n: nat, width: nat)
    ensures |ZeroPadNat(n, width)| > 0 && AllDigits(ZeroPadNat(n, width))
  {
    if |NatToString(n)| < width {
      LeadingZeros(width - |NatToString(n)|, NatToString(n));
    }
  }

  /** A zero-padded number reads back as the number. */
  lemma ZeroPadValue(n: nat, width: nat)
    ensures |ZeroPadNat(n, width)| > 0 && AllDigits(ZeroPadNat(n, width))
    ensures ParseInt(ZeroPadNat(n, width)) == Some(n)
  {
    var d := NatToString(n);
    var p := ZeroPadNat(n, width);
    NatToStringValue(n);
    if |d| < width {
      LeadingZeros(width - |d|, d);
      assert p == Zeros(width - |d|) + d;
    } else {
      assert p == d;
    }
    assert AllDigits(p) && |p| > 0 && DigitsValue(p) == n;
  }

  /** Each piece stripped. */
  function StripAll(pieces: seq<string>): (r: seq<string>)
    ensures |r| == |pieces| && forall k :: 0 <= k < |r| ==> r[k] == Strip(pieces[k])
  {
    seq(|pieces|, k requires 0 <= k < |pieces| => Strip(pieces[k]))
  }

  predicate NonEmpty(part: string) { part != [] }

  /** The stripped, non-empty parts of a comma-separated list. */
  function CommaParts(list: string): (r: seq<string>)
    ensures forall p :: p in r ==> p != [] && Trimmed(p) && Lacks(p, ',')
  {
    SplitPiecesLack(list, ',');
    var stripped := StripAll(Split(list, ","));
    forall k | 0 <= k < |stripped|
      ensures Lacks(stripped[k], ',')
    {
      StripLacks(Split(list, ",")[k], ',');
    }
    Seqs.Filter(stripped, NonEmpty)
  }

  /** No piece of a split holds the separator character. */
  lemma {:induction false} SplitPiecesLack(s: string, c: char)
    ensures forall k :: 0 <= k < |Split(s, [c])| ==> Lacks(Split(s, [c])[k], c)
    decreases |s|
  {
    match Find(s, [c])
    case None =>
      forall i | 0 <= i < |s|
        ensures s[i] != c
      {
        assert !OccursAt(s, [c], i);
        assert s[i..i + 1] == [s[i]];
      }
    case Some(i) =>
      SplitPiecesLack(s[i + 1..], c);
      forall j | 0 <= j < i
        ensures s[j] != c
      {
        assert !OccursAt(s, [c], j);
        assert s[j..j + 1] == [s[j]];
      }
  }

  /** Stripping keeps a missing character missing. */
  lemma StripLacks(s: string, c: char)
    requires Lacks(s, c)
    ensures Lacks(Strip(s), c)
  {
    var k := StripSlice(s);
    assert forall i :: 0 <= i < |Strip(s)| ==> Strip(s)[i] == s[k + i];
  }

  /** Joining pieces that lack the separator and splitting again gives the
      pieces back. */
  lemma {:induction false} SplitJoinLacking(parts: seq<string>, c: char)
    requires parts != [] && forall k :: 0 <= k < |parts| ==> Lacks(parts[k], c)
    ensures Split(Join([c], parts), [c]) == parts
  {
    if |parts| == 1 {
      SplitLacks(parts[0], c);
    } else {
      SplitJoinLacking(parts[1..], c);
      SplitAt(parts[0], [c], Join([c], parts[1..]));
    }
  }

  /** Clean names written as a comma-separated list read back as the same
      names. */
  lemma CommaPartsJoin(names: seq<string>)
    requires forall k :: 0 <= k < |names| ==> names[k] != [] && Trimmed(names[k]) && Lacks(names[k], ',')
    ensures CommaParts(Join(",", names)) == names
  {
    if names == [] {
      CommaPartsEmpty();
    } else {
      SplitJoinLacking(names, ',');
      StripAllTrimmed(names);
      Seqs.FilterKeepsAll(names, NonEmpty);
      CommaPartsUnfold(Join(",", names));
    }
  }

  lemma CommaPartsUnfold(list: string)
    ensures CommaParts(list) == Seqs.Filter(StripAll(Split(list, ",")), NonEmpty)
  {
  }

  lemma CommaPartsEmpty()
    ensures CommaParts("") == []
  {
    assert Split("", ",") == [""];
    assert StripAll([""]) == [""];
    assert Seqs.Filter([""], NonEmpty) == [];
    CommaPartsUnfold("");
  }

  lemma StripAllTrimmed(names: seq<string>)
    requires forall k :: 0 <= k < |names| ==> Trimmed(names[k])
    ensures StripAll(names) == names
  {
    forall k | 0 <= k < |names|
      ensures Strip(names[k]) == names[k]
    {
      StripTrimmed(names[k]);
    }
  }
}
