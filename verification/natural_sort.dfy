/** The natural sort key of chapter names, defined identically as
    `natural_key` in `storytelling_cli/status.py` and
    `preprocess_chapters.py` and as `_natural_key` in `generate_script.py`:
    the name is cut into runs of digits and runs of other characters, digit
    runs compare as numbers and the other runs as lower-cased text, so that
    `chapter2` comes before `chapter10`. */
module NaturalSort {
  import opened Text
  import Seqs

  /** One piece of a key: a lower-cased text run or the value of a digit run. */
  datatype KeyPart = Word(text: string) | Number(value: nat)

  predicate NoDigit(s: string) {
    forall i :: 0 <= i < |s| ==> !IsDigit(s[i])
  }

  /** The position of the first digit of `s`, or `|s|` when it has none. */
  function FirstDigit(s: string): (k: nat)
    ensures k <= |s| && (k < |s| ==> IsDigit(s[k]))
    ensures NoDigit(s[..k])
  {
    if s == [] || IsDigit(s[0]) then 0
    else
      var k := 1 + FirstDigit(s[1..]);
      assert s[..k] == [s[0]] + s[1..][..k - 1];
      k
  }

  /** The length of the run of digits `s` starts with. */
  function DigitRun(s: string): (k: nat)
    ensures k <= |s| && (k < |s| ==> !IsDigit(s[k]))
    ensures AllDigits(s[..k])
  {
    if s == [] || !IsDigit(s[0]) then 0
    else
      var k := 1 + DigitRun(s[1..]);
      assert s[..k] == [s[0]] + s[1..][..k - 1];
      k
  }

  /** `re.split(r"(\d+)", text)`: the text runs and the digit runs of
      `text`, alternating, the text runs first and last (possibly empty). */
  function DigitSplit(text: string): (r: seq<string>)
    ensures r != []
    ensures RunsAlternate(r)
    decreases |text|
  {
    var i := FirstDigit(text);
    if i == |text| then
      assert text[..i] == text;
      [text]
    else
      var j := i + DigitRun(text[i..]);
      assert text[i..][..j - i] == text[i..j];
      var rest := DigitSplit(text[j..]);
      RunsAlternateCons(text[..i], text[i..j], rest);
      [text[..i], text[i..j]] + rest
  }

  /** An odd number of runs, runs without digits at even positions and
      non-empty digit runs at odd ones. */
  predicate RunsAlternate(r: seq<string>) {
    |r| % 2 == 1 &&
    (forall k :: 0 <= k < |r| && k % 2 == 0 ==> NoDigit(r[k])) &&
    (forall k :: 0 <= k < |r| && k % 2 == 1 ==> r[k] != [] && AllDigits(r[k]))
  }

  lemma RunsAlternateCons(a: string, b: string, rest: seq<string>)
    requires NoDigit(a) && b != [] && AllDigits(b) && RunsAlternate(rest)
    ensures RunsAlternate([a, b] + rest)
  {
    var r := [a, b] + rest;
    forall k | 2 <= k < |r|
      ensures r[k] == rest[k - 2] && (k % 2 == (k - 2) % 2)
    {
    }
  }

  /** The pieces put back together give the text again. */
  lemma {:induction false} DigitSplitJoins(text: string)
    ensures Join("", DigitSplit(text)) == text
    decreases |text|
  {
    if FirstDigit(text) < |text| {
      var i, j := DigitSplitStep(text);
      var rest := DigitSplit(text[j..]);
      DigitSplitJoins(text[j..]);
      JoinPair(text[..i], text[i..j], rest);
      ThreeCuts(text, i, j);
    } else {
      assert text[..|text|] == text;
    }
  }

  /** One unfolding of `DigitSplit` on a text with a digit. */
  lemma DigitSplitStep(text: string) returns (i: nat, j: nat)
    requires FirstDigit(text) < |text|
    ensures i < j <= |text|
    ensures DigitSplit(text) == [text[..i], text[i..j]] + DigitSplit(text[j..])
  {
    i := FirstDigit(text);
    j := i + DigitRun(text[i..]);
    assert text[i..][0] == text[i];
    assert DigitSplit(text) == [text[..i], text[i..j]] + DigitSplit(text[j..]);
  }

  lemma ThreeCuts(text: string, i: nat, j: nat)
    requires i <= j <= |text|
    ensures text == text[..i] + (text[i..j] + text[j..])
  {
    assert text[i..] == text[i..j] + text[j..];
    assert text == text[..i] + text[i..];
  }

  lemma JoinPair(x: string, y: string, rest: seq<string>)
    requires rest != []
    ensures Join("", [x, y] + rest) == x + (y + Join("", rest))
  {
    var r := [x, y] + rest;
    assert r[1..] == [y] + rest;
    assert ([y] + rest)[1..] == rest;
  }

  /** One piece of the key: `int(part)` for a digit run, `part.lower()`
      otherwise. */
  function PartKey(part: string): (p: KeyPart)
    ensures p.Number? <==> part != [] && AllDigits(part)
  {
    if part != [] && AllDigits(part) then Number(DigitsValue(part)) else Word(Lower(part))
  }

  /** The pieces of a key alternate, text at even positions and numbers at
      odd ones, and a key has an odd number of pieces. */
  predicate Alternates(key: seq<KeyPart>) {
    |key| % 2 == 1 && forall k :: 0 <= k < |key| ==> (key[k].Word? <==> k % 2 == 0)
  }

  /** The natural key of `text`: its pieces alternate between text and
      numbers. */
  function NaturalKey(text: string): (key: seq<KeyPart>)
    ensures Alternates(key)
  {
    var parts := DigitSplit(text);
    seq(|parts|, k requires 0 <= k < |parts| => PartKey(parts[k]))
  }

  /** The list comprehension of `natural_key`, one piece at a time. */
  method ComputeNaturalKey(text: string) returns (key: seq<KeyPart>)
    ensures key == NaturalKey(text)
  {
    var parts := DigitSplit(text);
    key := [];
    for k := 0 to |parts|
      invariant key == seq(k, i requires 0 <= i < k => PartKey(parts[i]))
    {
      var part := parts[k];
      var piece;
      if part != [] && AllDigits(part) {
        piece := Number(DigitsValue(part));
      } else {
        piece := Word(Lower(part));
      }
      key := key + [piece];
    }
  }

  /** Python's `<` on two strings: by code points, a proper prefix first. */
  predicate StrLess(a: string, b: string) {
    if a == [] then b != []
    else if b == [] then false
    else if a[0] == b[0] then StrLess(a[1..], b[1..])
    else a[0] < b[0]
  }

  /** `<` on two pieces of the same kind; pieces of different kinds make
      Python raise `TypeError`, which `NaturalKeysComparable` rules out. */
  predicate PartLess(x: KeyPart, y: KeyPart) {
    match (x, y)
    case (Word(a), Word(b)) => StrLess(a, b)
    case (Number(m), Number(n)) => m < n
    case _ => false
  }

  /** Python's `<` on two keys: the first differing pieces decide, and a
      proper prefix comes first. */
  predicate KeyLess(a: seq<KeyPart>, b: seq<KeyPart>) {
    if a == [] then b != []
    else if b == [] then false
    else if a[0] == b[0] then KeyLess(a[1..], b[1..])
    else PartLess(a[0], b[0])
  }

  /** Two keys can be compared without a `TypeError`: wherever both have a
      piece, the pieces are of the same kind. */
  predicate Comparable(a: seq<KeyPart>, b: seq<KeyPart>) {
    forall k :: 0 <= k < |a| && k < |b| ==> a[k].Word? == b[k].Word?
  }

  /** Any two natural keys can be compared, so sorting by them never raises. */
  lemma NaturalKeysComparable(x: string, y: string)
    ensures Comparable(NaturalKey(x), NaturalKey(y))
  {
  }

  lemma {:induction false} StrLessTransitive(a: string, b: string, c: string)
    requires StrLess(a, b) && StrLess(b, c)
    ensures StrLess(a, c)
  {
    if a != [] && b != [] && c != [] && a[0] == b[0] && b[0] == c[0] {
      StrLessTransitive(a[1..], b[1..], c[1..]);
    }
  }

  lemma {:induction false} StrLessAsymmetric(a: string, b: string)
    requires StrLess(a, b)
    ensures !StrLess(b, a)
  {
    if a != [] && b != [] && a[0] == b[0] {
      StrLessAsymmetric(a[1..], b[1..]);
    }
  }

  lemma {:induction false} StrLessIrreflexive(a: string)
    ensures !StrLess(a, a)
  {
    if a != [] {
      StrLessIrreflexive(a[1..]);
    }
  }

  /** Two different strings are ordered one way or the other. */
  lemma {:induction false} StrLessTotal(a: string, b: string)
    requires a != b
    ensures StrLess(a, b) || StrLess(b, a)
  {
    if a != [] && b != [] && a[0] == b[0] {
      assert a == [a[0]] + a[1..] && b == [b[0]] + b[1..];
      StrLessTotal(a[1..], b[1..]);
    }
  }

  lemma {:induction false} KeyLessIrreflexive(a: seq<KeyPart>)
    ensures !KeyLess(a, a)
  {
    if a != [] {
      KeyLessIrreflexive(a[1..]);
    }
  }

  lemma PartLessTransitive(x: KeyPart, y: KeyPart, z: KeyPart)
    requires PartLess(x, y) && PartLess(y, z)
    ensures PartLess(x, z) && x != z
  {
    if x.Word? {
      StrLessTransitive(x.text, y.text, z.text);
      if x == z {
        StrLessAsymmetric(x.text, y.text);
      }
    }
  }

  lemma {:induction false} KeyLessTransitive(a: seq<KeyPart>, b: seq<KeyPart>, c: seq<KeyPart>)
    requires KeyLess(a, b) && KeyLess(b, c)
    ensures KeyLess(a, c)
  {
    if a != [] && b != [] && c != [] {
      if a[0] == b[0] && b[0] == c[0] {
        KeyLessTransitive(a[1..], b[1..], c[1..]);
      } else if a[0] != b[0] && b[0] != c[0] {
        PartLessTransitive(a[0], b[0], c[0]);
      }
    }
  }

  /** A name made of a text run without digits and a number written without
      leading zeros has the key `[text, number, ""]`. */
  lemma NumberedKey(w: string, n: nat)
    requires NoDigit(w)
    ensures NaturalKey(w + NatToString(n)) == [Word(Lower(w)), Number(n), Word("")]
  {
    var d := NatToString(n);
    var text := w + d;
    assert text[..|w|] == w && text[|w|..] == d;
    assert FirstDigit(text) == |w| by {
      FirstDigitAfter(w, d);
    }
    assert DigitRun(text[|w|..]) == |d| by {
      DigitRunAll(d);
    }
    assert text[|w|..|text|] == d;
    assert text[|text|..] == [];
    assert DigitSplit(text) == [w, d, ""];
    NatToStringValue(n);
  }

  lemma {:induction false} FirstDigitAfter(w: string, d: string)
    requires NoDigit(w) && d != [] && IsDigit(d[0])
    ensures FirstDigit(w + d) == |w|
  {
    if w != [] {
      assert (w + d)[1..] == w[1..] + d;
      FirstDigitAfter(w[1..], d);
    }
  }

  lemma {:induction false} DigitRunAll(d: string)
    requires AllDigits(d)
    ensures DigitRun(d) == |d|
  {
    if d != [] {
      DigitRunAll(d[1..]);
    }
  }

  /** Names that differ only in their trailing number sort by that number:
      `chapter2` before `chapter10`, even though `"chapter10" < "chapter2"`
      as plain strings. */
  lemma NumberedOrder(w: string, m: nat, n: nat)
    requires NoDigit(w)
    ensures KeyLess(NaturalKey(w + NatToString(m)), NaturalKey(w + NatToString(n))) <==> m < n
  {
    NumberedKey(w, m);
    NumberedKey(w, n);
    var a, b := NaturalKey(w + NatToString(m)), NaturalKey(w + NatToString(n));
    var a', b' := [Number(m), Word("")], [Number(n), Word("")];
    assert a[0] == b[0] && a[1..] == a' && b[1..] == b';
    assert KeyLess(a, b) == KeyLess(a', b');
    if m == n {
      KeyLessIrreflexive(a');
    } else {
      assert KeyLess(a', b') == (m < n);
    }
  }

  lemma Chapter2Before10()
    ensures KeyLess(NaturalKey("chapter2"), NaturalKey("chapter10"))
    ensures StrLess("chapter10", "chapter2")
  {
    var w := "chapter";
    assert NoDigit(w);
    assert NatToString(2) == "2";
    assert NatToString(10) == "10";
    assert w + "2" == "chapter2";
    assert w + "10" == "chapter10";
    NumberedOrder(w, 2, 10);
    assert StrLess("10", "2");
    StrLessCommonPrefix(w, "10", "2");
  }

  /** A common prefix does not change the order of two strings. */
  lemma {:induction false} StrLessCommonPrefix(w: string, a: string, b: string)
    ensures StrLess(w + a, w + b) == StrLess(a, b)
  {
    if w != [] {
      assert (w + a)[1..] == w[1..] + a;
      assert (w + b)[1..] == w[1..] + b;
      StrLessCommonPrefix(w[1..], a, b);
    } else {
      assert w + a == a && w + b == b;
    }
  }

  /** Sorted by natural key: no name has a smaller key than one before it. */
  predicate SortedByKey(names: seq<string>) {
    forall i, j :: 0 <= i < j < |names| ==> !KeyLess(NaturalKey(names[j]), NaturalKey(names[i]))
  }

  /** `name` placed after every name whose key is not larger than its own. */
  function Insert(sorted: seq<string>, name: string): (r: seq<string>)
    ensures multiset(r) == multiset(sorted) + multiset{name}
  {
    if sorted == [] then [name]
    else if KeyLess(NaturalKey(name), NaturalKey(sorted[0])) then [name] + sorted
    else
      assert sorted == [sorted[0]] + sorted[1..];
      [sorted[0]] + Insert(sorted[1..], name)
  }

  lemma {:induction false} InsertSorted(sorted: seq<string>, name: string)
    requires SortedByKey(sorted)
    ensures SortedByKey(Insert(sorted, name))
  {
    if sorted != [] {
      if KeyLess(NaturalKey(name), NaturalKey(sorted[0])) {
        InsertFirst(sorted, name);
      } else {
        InsertSorted(sorted[1..], name);
        InsertLater(sorted, name);
      }
    }
  }

  /** A name whose key is below the first one's goes first. */
  lemma InsertFirst(sorted: seq<string>, name: string)
    requires SortedByKey(sorted) && sorted != []
    requires KeyLess(NaturalKey(name), NaturalKey(sorted[0]))
    ensures SortedByKey([name] + sorted)
  {
    var key := NaturalKey(name);
    forall j | 0 <= j < |sorted|
      ensures !KeyLess(NaturalKey(sorted[j]), key)
    {
      if KeyLess(NaturalKey(sorted[j]), key) {
        KeyLessTransitive(NaturalKey(sorted[j]), key, NaturalKey(sorted[0]));
        KeyLessIrreflexive(NaturalKey(sorted[0]));
      }
    }
  }

  /** Otherwise the first name stays first. */
  lemma InsertLater(sorted: seq<string>, name: string)
    requires SortedByKey(sorted) && sorted != []
    requires !KeyLess(NaturalKey(name), NaturalKey(sorted[0]))
    requires SortedByKey(Insert(sorted[1..], name))
    ensures SortedByKey([sorted[0]] + Insert(sorted[1..], name))
  {
    SortedTail(sorted);
    InsertedNotBelow(sorted[1..], name, sorted[0]);
    SortedCons(sorted[0], Insert(sorted[1..], name));
  }

  /** In a sorted list no later key is below the first. */
  lemma SortedTail(sorted: seq<string>)
    requires SortedByKey(sorted) && sorted != []
    ensures forall x :: x in sorted[1..] ==> !KeyLess(NaturalKey(x), NaturalKey(sorted[0]))
  {
    var rest := sorted[1..];
    forall x | x in rest
      ensures !KeyLess(NaturalKey(x), NaturalKey(sorted[0]))
    {
      var m :| 0 <= m < |rest| && rest[m] == x;
      assert sorted[m + 1] == x;
    }
  }

  /** Every name of `Insert(rest, name)` is `name` or a name of `rest`. */
  lemma InsertedNotBelow(rest: seq<string>, name: string, first: string)
    requires !KeyLess(NaturalKey(name), NaturalKey(first))
    requires forall x :: x in rest ==> !KeyLess(NaturalKey(x), NaturalKey(first))
    ensures forall x :: x in Insert(rest, name) ==> !KeyLess(NaturalKey(x), NaturalKey(first))
  {
    var r := Insert(rest, name);
    forall x | x in r
      ensures x in rest || x == name
    {
      assert x in multiset(r);
    }
  }

  /** A name no later name's key is below, put in front of a sorted list. */
  lemma SortedCons(first: string, r: seq<string>)
    requires SortedByKey(r)
    requires forall x :: x in r ==> !KeyLess(NaturalKey(x), NaturalKey(first))
    ensures SortedByKey([first] + r)
  {
    var t := [first] + r;
    forall i, j | 0 <= i < j < |t|
      ensures !KeyLess(NaturalKey(t[j]), NaturalKey(t[i]))
    {
      assert t[j] == r[j - 1] && t[j] in r;
      if i > 0 {
        assert t[i] == r[i - 1];
      }
    }
  }

  /** The names of `s` whose natural key is `key`, in their order in `s`.
      A stable sort keeps each of these lists as it was. */
  function Tied(s: seq<string>, key: seq<KeyPart>): (r: seq<string>)
    ensures forall x :: x in r ==> NaturalKey(x) == key
  {
    if s == [] then [] else (if NaturalKey(s[0]) == key then [s[0]] else []) + Tied(s[1..], key)
  }

  lemma {:induction false} TiedAppend(a: seq<string>, b: seq<string>, key: seq<KeyPart>)
    ensures Tied(a + b, key) == Tied(a, key) + Tied(b, key)
    decreases |a|
  {
    if a == [] {
      assert a + b == b;
    } else {
      assert (a + b)[1..] == a[1..] + b;
      TiedAppend(a[1..], b, key);
    }
  }

  lemma {:induction false} TiedNone(s: seq<string>, key: seq<KeyPart>)
    requires forall x :: x in s ==> NaturalKey(x) != key
    ensures Tied(s, key) == []
    decreases |s|
  {
    if s != [] {
      assert forall x :: x in s[1..] ==> x in s;
      TiedNone(s[1..], key);
    }
  }

  /** Inserting `name` into a sorted list adds it behind the names with its
      key and leaves every other key's names alone. */
  lemma {:induction false} InsertTied(sorted: seq<string>, name: string, key: seq<KeyPart>)
    requires SortedByKey(sorted)
    ensures Tied(Insert(sorted, name), key) == Tied(sorted, key) + (if NaturalKey(name) == key then [name] else [])
    decreases |sorted|
  {
    if sorted == [] {
      TiedCons(name, [], key);
    } else if KeyLess(NaturalKey(name), NaturalKey(sorted[0])) {
      InsertTiedFront(sorted, name, key);
    } else {
      SortedRest(sorted);
      InsertTied(sorted[1..], name, key);
      InsertTiedLater(sorted, name, key);
    }
  }

  /** A name that goes behind the first name of a list, given the claim for
      the rest of the list. */
  lemma InsertTiedLater(sorted: seq<string>, name: string, key: seq<KeyPart>)
    requires sorted != [] && !KeyLess(NaturalKey(name), NaturalKey(sorted[0]))
    requires Tied(Insert(sorted[1..], name), key) == Tied(sorted[1..], key) + (if NaturalKey(name) == key then [name] else [])
    ensures Tied(Insert(sorted, name), key) == Tied(sorted, key) + (if NaturalKey(name) == key then [name] else [])
  {
    var rest := Insert(sorted[1..], name);
    var h := if NaturalKey(sorted[0]) == key then [sorted[0]] else [];
    var e := if NaturalKey(name) == key then [name] else [];
    InsertBehind(sorted, name);
    TiedCons(sorted[0], rest, key);
    TiedCons(sorted[0], sorted[1..], key);
    TiedFront(sorted, key);
    Seqs.Assoc(h, Tied(sorted[1..], key), e);
  }

  /** A name that does not go in front goes into the rest of the list. */
  lemma InsertBehind(sorted: seq<string>, name: string)
    requires sorted != [] && !KeyLess(NaturalKey(name), NaturalKey(sorted[0]))
    ensures Insert(sorted, name) == [sorted[0]] + Insert(sorted[1..], name)
  {
  }

  lemma TiedFront(sorted: seq<string>, key: seq<KeyPart>)
    requires sorted != []
    ensures Tied(sorted, key) == Tied([sorted[0]] + sorted[1..], key)
  {
    assert [sorted[0]] + sorted[1..] == sorted;
  }

  /** A name that goes in front of a sorted list: no name of its key is
      already there. */
  lemma InsertTiedFront(sorted: seq<string>, name: string, key: seq<KeyPart>)
    requires SortedByKey(sorted) && sorted != [] && KeyLess(NaturalKey(name), NaturalKey(sorted[0]))
    ensures Tied(Insert(sorted, name), key) == Tied(sorted, key) + (if NaturalKey(name) == key then [name] else [])
  {
    assert Insert(sorted, name) == [name] + sorted;
    TiedCons(name, sorted, key);
    if NaturalKey(name) == key {
      SortedTail(sorted);
      KeyLessIrreflexive(NaturalKey(sorted[0]));
      TiedNone(sorted, key);
    }
  }

  /** `Tied` of a list with one more name in front. */
  lemma TiedCons(x: string, s: seq<string>, key: seq<KeyPart>)
    ensures Tied([x] + s, key) == (if NaturalKey(x) == key then [x] else []) + Tied(s, key)
  {
    assert ([x] + s)[1..] == s;
  }

  lemma SortedRest(sorted: seq<string>)
    requires SortedByKey(sorted) && sorted != []
    ensures SortedByKey(sorted[1..])
  {
    var rest := sorted[1..];
    forall i, j | 0 <= i < j < |rest|
      ensures !KeyLess(NaturalKey(rest[j]), NaturalKey(rest[i]))
    {
      assert rest[i] == sorted[i + 1] && rest[j] == sorted[j + 1];
    }
  }

  /** One round of the sorting loop keeps the tied names in input order. */
  lemma InsertKeepsTies(sorted: seq<string>, done: seq<string>, name: string)
    requires SortedByKey(sorted)
    requires forall key :: Tied(sorted, key) == Tied(done, key)
    ensures forall key :: Tied(Insert(sorted, name), key) == Tied(done + [name], key)
  {
    forall key
      ensures Tied(Insert(sorted, name), key) == Tied(done + [name], key)
    {
      InsertKeepsTie(sorted, done, name, key);
    }
  }

  lemma InsertKeepsTie(sorted: seq<string>, done: seq<string>, name: string, key: seq<KeyPart>)
    requires SortedByKey(sorted) && Tied(sorted, key) == Tied(done, key)
    ensures Tied(Insert(sorted, name), key) == Tied(done + [name], key)
  {
    InsertTied(sorted, name, key);
    TiedAppend(done, [name], key);
    TiedOne(name, key);
  }

  lemma TiedOne(name: string, key: seq<KeyPart>)
    ensures Tied([name], key) == if NaturalKey(name) == key then [name] else []
  {
    assert [name][1..] == [];
  }

  /** `sorted(names, key=natural_key)`: inserting each name after the names
      whose keys are not larger gives a sorted permutation that keeps names
      with equal keys in their original order, as Python's stable sort
      does. */
  method SortNatural(names: seq<string>) returns (sorted: seq<string>)
    ensures multiset(sorted) == multiset(names)
    ensures SortedByKey(sorted)
    ensures forall key :: Tied(sorted, key) == Tied(names, key)
  {
    sorted := [];
    for k := 0 to |names|
      invariant multiset(sorted) == multiset(names[..k])
      invariant SortedByKey(sorted)
      invariant forall key :: Tied(sorted, key) == Tied(names[..k], key)
    {
      InsertSorted(sorted, names[k]);
      InsertKeepsTies(sorted, names[..k], names[k]);
      assert names[..k + 1] == names[..k] + [names[k]];
      sorted := Insert(sorted, names[k]);
    }
    assert names[..|names|] == names;
  }
}
