/** Small facts about sequence slices, stated once so that proofs about
    larger contexts can cite them instead of rediscovering them. */
module Seqs {
  import opened Wrappers

  lemma TakeSnoc<T>(xs: seq<T>, t: nat)
    requires t < |xs|
    ensures xs[..t + 1] == xs[..t] + [xs[t]]
  {
  }

  lemma TakeAll<T>(xs: seq<T>)
    ensures xs[..|xs|] == xs
  {
  }

  lemma SliceOfPrefix<T>(a: seq<T>, b: seq<T>, i: nat, j: nat)
    requires i <= j <= |a|
    ensures (a + b)[i..j] == a[i..j]
  {
  }

  lemma InitOfSnoc<T>(xs: seq<T>, x: T)
    ensures (xs + [x])[..|xs|] == xs && (xs + [x])[|xs|] == x
  {
  }

  lemma PrefixSnoc<T>(pre: seq<T>, xs: seq<T>, t: nat)
    requires t < |xs|
    ensures pre + xs[..t + 1] == (pre + xs[..t]) + [xs[t]]
  {
    TakeSnoc(xs, t);
  }

  lemma PrefixAll<T>(pre: seq<T>, xs: seq<T>)
    ensures pre + xs[..|xs|] == pre + xs
  {
    TakeAll(xs);
  }

  lemma PrefixNone<T>(pre: seq<T>, xs: seq<T>)
    ensures pre + xs[..0] == pre
  {
  }

  lemma InitLast<T>(xs: seq<T>)
    requires xs != []
    ensures xs[..|xs| - 1] + [xs[|xs| - 1]] == xs
  {
  }

  lemma SplitAround<T>(xs: seq<T>, i: nat)
    requires i + 1 < |xs|
    ensures xs == xs[..i] + [xs[i]] + [xs[i + 1]] + xs[i + 2..]
  {
  }

  lemma AppendInit<T>(a: seq<T>, b: seq<T>)
    requires b != []
    ensures a + b == (a + b[..|b| - 1]) + [b[|b| - 1]]
  {
  }

  lemma AppendEmpty<T>(a: seq<T>)
    ensures a + [] == a
  {
  }

  lemma Assoc<T>(a: seq<T>, b: seq<T>, c: seq<T>)
    ensures a + (b + c) == (a + b) + c
  {
  }

  lemma Regroup<T>(a: seq<T>, x: seq<T>, y: seq<T>, b: seq<T>)
    ensures a + x + y + b == a + (x + y) + b
  {
  }

  /** The first `|out|` elements of `xs`, each mapped by `f`. */
  predicate MappedPrefix<A, B(==)>(out: seq<B>, xs: seq<A>, f: A -> B) {
    |out| <= |xs| && forall j :: 0 <= j < |out| ==> out[j] == f(xs[j])
  }

  lemma MappedSnoc<A, B>(out: seq<B>, xs: seq<A>, f: A -> B, y: B)
    requires MappedPrefix(out, xs, f) && |out| < |xs| && y == f(xs[|out|])
    ensures MappedPrefix(out + [y], xs, f)
  {
  }

  /** Equal sequences with the same frame have the same middle. */
  lemma Unwrap<T>(a: seq<T>, x: seq<T>, y: seq<T>, c: seq<T>)
    requires a + x + c == a + y + c
    ensures x == y
  {
    assert |x| == |y|;
    assert x == (a + x + c)[|a|..|a| + |x|];
    assert y == (a + y + c)[|a|..|a| + |y|];
  }

  /** A bound of Python's `xs[lo:hi]`: a negative one counts from the end,
      and both are clamped to the sequence. */
  function SliceBound(i: int, n: nat): (r: nat)
    ensures r <= n
    ensures 0 <= i <= n ==> r == i
  {
    if i < 0 then (if i + n < 0 then 0 else i + n) else if i > n then n else i
  }

  /** Python's `xs[lo:hi]`: empty when the clamped bounds cross. */
  function PySlice<T>(xs: seq<T>, lo: int, hi: int): seq<T> {
    var a, b := SliceBound(lo, |xs|), SliceBound(hi, |xs|);
    if a < b then xs[a..b] else []
  }

  /** The elements of `xs` that `keep` accepts, in order: a list
      comprehension with a condition. */
  function Filter<T(!new)>(xs: seq<T>, keep: T -> bool): (r: seq<T>)
    ensures |r| <= |xs|
    ensures forall x :: x in r <==> x in xs && keep(x)
  {
    if xs == [] then []
    else
      var last := |xs| - 1;
      Filter(xs[..last], keep) + (if keep(xs[last]) then [xs[last]] else [])
  }

  /** The positions of the accepted elements. */
  function KeptPositions<T(!new)>(xs: seq<T>, keep: T -> bool): seq<nat> {
    if xs == [] then []
    else
      var last := |xs| - 1;
      KeptPositions(xs[..last], keep) + (if keep(xs[last]) then [last] else [])
  }

  /** The filter keeps order: its elements sit at strictly increasing
      positions of `xs`, and every accepted position is among them. */
  lemma FilterInOrder<T(!new)>(xs: seq<T>, keep: T -> bool)
    ensures var p := KeptPositions(xs, keep);
      && |p| == |Filter(xs, keep)|
      && (forall k :: 0 <= k < |p| ==> p[k] < |xs| && xs[p[k]] == Filter(xs, keep)[k])
      && (forall k, l :: 0 <= k < l < |p| ==> p[k] < p[l])
      && (forall i :: 0 <= i < |xs| && keep(xs[i]) ==> i in p)
  {
    KeptAt(xs, keep);
    KeptIncreasing(xs, keep);
    KeptComplete(xs, keep);
  }

  lemma {:induction false} KeptAt<T(!new)>(xs: seq<T>, keep: T -> bool)
    ensures |KeptPositions(xs, keep)| == |Filter(xs, keep)|
    ensures forall k :: 0 <= k < |KeptPositions(xs, keep)| ==>
      KeptPositions(xs, keep)[k] < |xs| && xs[KeptPositions(xs, keep)[k]] == Filter(xs, keep)[k]
  {
    if xs != [] {
      var last := |xs| - 1;
      var init := xs[..last];
      KeptAt(init, keep);
      var p0, f0 := KeptPositions(init, keep), Filter(init, keep);
      if keep(xs[last]) {
        var p, f := p0 + [last], f0 + [xs[last]];
        assert KeptPositions(xs, keep) == p && Filter(xs, keep) == f;
        forall k | 0 <= k < |p| ensures p[k] < |xs| && xs[p[k]] == f[k] {
          if k < |p0| {
            assert p[k] == p0[k] && f[k] == f0[k] && xs[p0[k]] == init[p0[k]];
          }
        }
      } else {
        assert KeptPositions(xs, keep) == p0 && Filter(xs, keep) == f0;
        forall k | 0 <= k < |p0| ensures xs[p0[k]] == f0[k] {
          assert xs[p0[k]] == init[p0[k]];
        }
      }
    }
  }

  lemma {:induction false} KeptIncreasing<T(!new)>(xs: seq<T>, keep: T -> bool)
    ensures forall k :: 0 <= k < |KeptPositions(xs, keep)| ==> KeptPositions(xs, keep)[k] < |xs|
    ensures forall k, l :: 0 <= k < l < |KeptPositions(xs, keep)| ==> KeptPositions(xs, keep)[k] < KeptPositions(xs, keep)[l]
  {
    if xs != [] {
      var last := |xs| - 1;
      KeptIncreasing(xs[..last], keep);
    }
  }

  lemma {:induction false} KeptComplete<T(!new)>(xs: seq<T>, keep: T -> bool)
    ensures forall i :: 0 <= i < |xs| && keep(xs[i]) ==> i in KeptPositions(xs, keep)
  {
    if xs != [] {
      var last := |xs| - 1;
      var init := xs[..last];
      KeptComplete(init, keep);
      assert forall k :: 0 <= k < last ==> xs[k] == init[k];
    }
  }

  /** `[g(x) for x in xs if ...]` where `f` says both whether `x` is kept
      and what it becomes. */
  function FilterMap<T, U>(xs: seq<T>, f: T -> Option<U>): (r: seq<U>)
    ensures |r| <= |xs|
  {
    if xs == [] then []
    else
      var last := |xs| - 1;
      FilterMap(xs[..last], f) + (if f(xs[last]).Some? then [f(xs[last]).value] else [])
  }

  /** A single element keeps its image exactly when it has one. */
  lemma FilterMapOne<T, U>(x: T, f: T -> Option<U>)
    ensures FilterMap([x], f) == if f(x).Some? then [f(x).value] else []
  {
    assert [x][..0] == [];
  }

  /** Each element is handled on its own: the result for a concatenation
      is the concatenation of the results. */
  lemma {:induction false} FilterMapAppend<T, U>(a: seq<T>, b: seq<T>, f: T -> Option<U>)
    ensures FilterMap(a + b, f) == FilterMap(a, f) + FilterMap(b, f)
    decreases |b|
  {
    if b == [] {
      assert a + b == a;
    } else {
      var last := |b| - 1;
      assert (a + b)[..|a + b| - 1] == a + b[..last];
      FilterMapAppend(a, b[..last], f);
    }
  }

  /** The pieces `f` gives the elements, concatenated in order. */
  function FlatMap<T, U>(xs: seq<T>, f: T -> seq<U>): seq<U> {
    if xs == [] then []
    else FlatMap(xs[..|xs| - 1], f) + f(xs[|xs| - 1])
  }

  /** Concatenating the inputs concatenates the pieces. */
  lemma {:induction false} FlatMapAppend<T, U>(a: seq<T>, b: seq<T>, f: T -> seq<U>)
    ensures FlatMap(a + b, f) == FlatMap(a, f) + FlatMap(b, f)
    decreases |b|
  {
    if b == [] {
      assert a + b == a;
    } else {
      var last := |b| - 1;
      assert (a + b)[..|a + b| - 1] == a + b[..last];
      FlatMapAppend(a, b[..last], f);
    }
  }

  /** Elements that each give exactly one piece give those pieces back. */
  lemma {:induction false} FlatMapSingles<T, U>(xs: seq<T>, ys: seq<U>, f: T -> seq<U>)
    requires |xs| == |ys| && forall k :: 0 <= k < |xs| ==> f(xs[k]) == [ys[k]]
    ensures FlatMap(xs, f) == ys
  {
    if xs != [] {
      var n := |xs| - 1;
      FlatMapSingles(xs[..n], ys[..n], f);
      assert ys == ys[..n] + [ys[n]];
    }
  }

  /** The results are exactly the values `f` gives to the elements it
      keeps. */
  lemma {:induction false} FilterMapMembers<T, U>(xs: seq<T>, f: T -> Option<U>)
    ensures forall u :: u in FilterMap(xs, f) <==> exists k :: 0 <= k < |xs| && f(xs[k]) == Some(u)
  {
    if xs != [] {
      var last := |xs| - 1;
      var init := xs[..last];
      FilterMapMembers(init, f);
      assert forall k :: 0 <= k < last ==> init[k] == xs[k];
      forall u | exists k :: 0 <= k < |xs| && f(xs[k]) == Some(u)
        ensures u in FilterMap(xs, f)
      {
        var k :| 0 <= k < |xs| && f(xs[k]) == Some(u);
        if k < last {
          assert f(init[k]) == Some(u);
        }
      }
    }
  }

  /** A property every kept value has holds of every result. */
  lemma {:induction false} FilterMapAll<T, U>(xs: seq<T>, f: T -> Option<U>, p: U -> bool)
    requires forall x :: f(x).Some? ==> p(f(x).value)
    ensures forall k :: 0 <= k < |FilterMap(xs, f)| ==> p(FilterMap(xs, f)[k])
  {
    if xs != [] {
      FilterMapAll(xs[..|xs| - 1], f, p);
    }
  }

  /** No element occurs twice. */
  predicate Distinct<T(==)>(xs: seq<T>) {
    forall i, j :: 0 <= i < j < |xs| ==> xs[i] != xs[j]
  }

  /** Every element of `xs` satisfies `p`, checked from the front. */
  predicate AllOf<T>(xs: seq<T>, p: T -> bool) {
    xs == [] || (AllOf(xs[..|xs| - 1], p) && p(xs[|xs| - 1]))
  }

  lemma {:induction false} AllOfEach<T>(xs: seq<T>, p: T -> bool)
    ensures AllOf(xs, p) <==> forall k :: 0 <= k < |xs| ==> p(xs[k])
  {
    if xs != [] {
      var init := xs[..|xs| - 1];
      AllOfEach(init, p);
      assert forall k :: 0 <= k < |init| ==> init[k] == xs[k];
    }
  }

  lemma AllOfSnoc<T>(xs: seq<T>, k: nat, p: T -> bool)
    requires k < |xs| && AllOf(xs[..k], p) && p(xs[k])
    ensures AllOf(xs[..k + 1], p)
  {
    assert xs[..k + 1][..k] == xs[..k];
  }

  lemma NotAllOf<T>(xs: seq<T>, k: nat, p: T -> bool)
    requires k < |xs| && !p(xs[k])
    ensures !AllOf(xs, p)
  {
    AllOfEach(xs, p);
  }

  /** The first occurrence of each element, in order. */
  function Dedup<T(==,!new)>(xs: seq<T>): (r: seq<T>)
    ensures forall x :: x in r <==> x in xs
    ensures Distinct(r)
  {
    if xs == [] then []
    else
      var before := Dedup(xs[..|xs| - 1]);
      var x := xs[|xs| - 1];
      if x in before then before else before + [x]
  }

  lemma DedupSnoc<T(!new)>(xs: seq<T>, x: T)
    ensures Dedup(xs + [x]) == if x in Dedup(xs) then Dedup(xs) else Dedup(xs) + [x]
  {
    assert (xs + [x])[..|xs|] == xs;
  }


  /** Elements of `Dedup(xs)` keep the order of their first occurrence in
      `xs`. */
  lemma {:induction false} DedupFirstMention<T(!new)>(xs: seq<T>, i: nat, j: nat)
    requires i < j < |Dedup(xs)|
    ensures exists p :: 0 <= p < |xs| && xs[p] == Dedup(xs)[i] && Dedup(xs)[j] !in xs[..p + 1]
  {
    var n := |xs| - 1;
    var before := Dedup(xs[..n]);
    if j < |before| {
      DedupFirstMention(xs[..n], i, j);
      var p :| 0 <= p < n && xs[..n][p] == before[i] && before[j] !in xs[..n][..p + 1];
      assert xs[..n][..p + 1] == xs[..p + 1];
    } else {
      assert Dedup(xs)[j] == xs[n] && xs[n] !in before;
      var y := Dedup(xs)[i];
      assert y in before;
      assert y in xs[..n];
      var p :| 0 <= p < n && xs[..n][p] == y;
      assert xs[n] !in xs[..n];
      assert xs[..p + 1] == xs[..n][..p + 1];
    }
  }


  /** Filtering with a test every element passes changes nothing. */
  /** `a` occurs in `xs` at a position before any occurrence of `b`. */
  ghost predicate MentionedFirst<T>(xs: seq<T>, a: T, b: T) {
    exists p :: 0 <= p < |xs| && xs[p] == a && b !in xs[..p + 1]
  }

  /** `DedupFirstMention` for every pair of positions at once. */
  lemma DedupFirstMentions<T(!new)>(xs: seq<T>)
    ensures forall i, j :: 0 <= i < j < |Dedup(xs)| ==> MentionedFirst(xs, Dedup(xs)[i], Dedup(xs)[j])
  {
    forall i, j | 0 <= i < j < |Dedup(xs)|
      ensures MentionedFirst(xs, Dedup(xs)[i], Dedup(xs)[j])
    {
      DedupFirstMention(xs, i, j);
    }
  }

  lemma {:induction false} FilterKeepsAll<T(!new)>(xs: seq<T>, keep: T -> bool)
    requires forall k :: 0 <= k < |xs| ==> keep(xs[k])
    ensures Filter(xs, keep) == xs
  {
    if xs != [] {
      FilterKeepsAll(xs[..|xs| - 1], keep);
    }
  }

  /** A list without repeats is its own de-duplication. */
  lemma {:induction false} DedupDistinct<T(!new)>(xs: seq<T>)
    requires Distinct(xs)
    ensures Dedup(xs) == xs
  {
    if xs != [] {
      var n := |xs| - 1;
      DedupDistinct(xs[..n]);
      assert xs[n] !in xs[..n];
      assert xs[..n] + [xs[n]] == xs;
    }
  }
}
