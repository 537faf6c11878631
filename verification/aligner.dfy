/** The word-sequence aligner shared by `alignment/mfa.py` (`_align_sequences`)
    and `mfa_lab/textgrid_to_srt.py` (`align_sequences`): unweighted
    Levenshtein alignment of a reference word list against a hypothesis word
    list, with the tie-break the two copies share (diagonal before deletion
    before insertion, because every comparison is a strict `<`). */
module Aligner {
  import opened Wrappers

  /** One aligned pair: a reference index, a hypothesis index, or both. */
  datatype Pair = Pair(ref: Option<nat>, hyp: Option<nat>)

  /** How a table cell was reached: `Diagonal` from (i-1, j-1), `Up` (a
      deletion) from (i-1, j), `Left` (an insertion) from (i, j-1). */
  datatype Move = Diagonal | Up | Left

  function Min(a: nat, b: nat): nat { if a <= b then a else b }

  /** `dp[i][j]`: the edit distance between the first `i` reference words
      and the first `j` hypothesis words. */
  function Cost<T(==)>(r: seq<T>, h: seq<T>, i: nat, j: nat): nat
    requires i <= |r| && j <= |h|
    decreases i + j
  {
    if i == 0 then j
    else if j == 0 then i
    else
      var sub := Cost(r, h, i - 1, j - 1) + (if r[i - 1] == h[j - 1] then 0 else 1);
      Min(Min(sub, Cost(r, h, i - 1, j) + 1), Cost(r, h, i, j - 1) + 1)
  }

  /** The substitution candidate for cell (i, j). */
  function SubCost<T(==)>(r: seq<T>, h: seq<T>, i: nat, j: nat): nat
    requires 0 < i <= |r| && 0 < j <= |h|
  {
    Cost(r, h, i - 1, j - 1) + (if r[i - 1] == h[j - 1] then 0 else 1)
  }

  /** The source's comparisons: `best` starts as the substitution, a
      deletion replaces it only when strictly cheaper, and an insertion
      only when strictly cheaper than what is left. */
  function Choose(sub: nat, del: nat, ins: nat): Move {
    if ins < Min(sub, del) then Left
    else if del < sub then Up
    else Diagonal
  }

  /** The move the table records for cell (i, j): the first column is
      reached by deletions, the first row by insertions. */
  function Step<T(==)>(r: seq<T>, h: seq<T>, i: nat, j: nat): (mv: Move)
    requires i <= |r| && j <= |h| && (i > 0 || j > 0)
    ensures mv == Diagonal ==> i > 0 && j > 0
    ensures mv == Up ==> i > 0
    ensures mv == Left ==> j > 0
  {
    if i == 0 then Left
    else if j == 0 then Up
    else Choose(SubCost(r, h, i, j), Cost(r, h, i - 1, j) + 1, Cost(r, h, i, j - 1) + 1)
  }

  /** The cell `back[i][j]` points at. */
  function Predecessor(i: nat, j: nat, mv: Move): (nat, nat)
    requires mv == Diagonal ==> i > 0 && j > 0
    requires mv == Up ==> i > 0
    requires mv == Left ==> j > 0
  {
    match mv
    case Diagonal => (i - 1, j - 1)
    case Up => (i - 1, j)
    case Left => (i, j - 1)
  }

  /** The alignment the backtrace produces from cell (i, j), in forward order. */
  function Trace<T(==)>(r: seq<T>, h: seq<T>, i: nat, j: nat): seq<Pair>
    requires i <= |r| && j <= |h|
    decreases i + j
  {
    if i == 0 && j == 0 then []
    else
      match Step(r, h, i, j)
      case Diagonal => Trace(r, h, i - 1, j - 1) + [Pair(Some(i - 1), Some(j - 1))]
      case Up => Trace(r, h, i - 1, j) + [Pair(Some(i - 1), None)]
      case Left => Trace(r, h, i, j - 1) + [Pair(None, Some(j - 1))]
  }

  /** The whole alignment of `r` against `h`. */
  function Align<T(==)>(r: seq<T>, h: seq<T>): seq<Pair> {
    Trace(r, h, |r|, |h|)
  }

  /** What `back[a][b]` holds once the tables are filled: the cell the chosen
      move comes from (the source leaves `back[0][0]` as `None`; it is never read). */
  function BackOf<T(==)>(r: seq<T>, h: seq<T>, a: nat, b: nat): (nat, nat)
    requires a <= |r| && b <= |h|
  {
    if a == 0 && b == 0 then (0, 0) else Predecessor(a, b, Step(r, h, a, b))
  }

  /** The border loops of `_align_sequences`: `dp[i][0] = i` and
      `dp[0][j] = j`, reached by deletions and insertions. */
  method FillBorders<T(==)>(r: seq<T>, h: seq<T>) returns (dp: array2<nat>, back: array2<(nat, nat)>)
    ensures fresh(dp) && fresh(back)
    ensures dp.Length0 == back.Length0 == |r| + 1 && dp.Length1 == back.Length1 == |h| + 1
    ensures forall a :: 0 <= a <= |r| ==> dp[a, 0] == Cost(r, h, a, 0) && back[a, 0] == BackOf(r, h, a, 0)
    ensures forall b :: 0 <= b <= |h| ==> dp[0, b] == Cost(r, h, 0, b) && back[0, b] == BackOf(r, h, 0, b)
  {
    var n, m := |r|, |h|;
    dp := new nat[n + 1, m + 1];
    back := new (nat, nat)[n + 1, m + 1];
    dp[0, 0] := 0;
    back[0, 0] := (0, 0);
    for i := 1 to n + 1
      invariant forall a :: 0 <= a < i ==> dp[a, 0] == Cost(r, h, a, 0) && back[a, 0] == BackOf(r, h, a, 0)
    {
      dp[i, 0] := i;
      back[i, 0] := (i - 1, 0);
    }
    for j := 1 to m + 1
      invariant forall a :: 0 <= a <= n ==> dp[a, 0] == Cost(r, h, a, 0) && back[a, 0] == BackOf(r, h, a, 0)
      invariant forall b :: 0 <= b < j ==> dp[0, b] == Cost(r, h, 0, b) && back[0, b] == BackOf(r, h, 0, b)
    {
      dp[0, j] := j;
      back[0, j] := (0, j - 1);
    }
  }

  /** One pass of the inner loop of `_align_sequences`: row `i`, left to right. */
  method FillRow<T(==)>(r: seq<T>, h: seq<T>, dp: array2<nat>, back: array2<(nat, nat)>, i: nat)
    requires 0 < i <= |r|
    requires dp.Length0 == back.Length0 == |r| + 1 && dp.Length1 == back.Length1 == |h| + 1
    requires forall a, b {:trigger dp[a, b]} {:trigger back[a, b]} :: 0 <= a < i && 0 <= b <= |h| ==> dp[a, b] == Cost(r, h, a, b)
    requires dp[i, 0] == Cost(r, h, i, 0) && back[i, 0] == BackOf(r, h, i, 0)
    modifies dp, back
    ensures forall b {:trigger dp[i, b]} {:trigger back[i, b]} :: 0 <= b <= |h| ==> dp[i, b] == Cost(r, h, i, b) && back[i, b] == BackOf(r, h, i, b)
    ensures forall a, b {:trigger dp[a, b]} {:trigger back[a, b]} :: 0 <= a <= |r| && 0 <= b <= |h| && a != i ==> dp[a, b] == old(dp[a, b]) && back[a, b] == old(back[a, b])
  {
    for j := 1 to |h| + 1
      invariant forall b {:trigger dp[i, b]} {:trigger back[i, b]} :: 0 <= b < j ==> dp[i, b] == Cost(r, h, i, b) && back[i, b] == BackOf(r, h, i, b)
      invariant forall a, b {:trigger dp[a, b]} {:trigger back[a, b]} :: 0 <= a <= |r| && 0 <= b <= |h| && a != i ==> dp[a, b] == old(dp[a, b]) && back[a, b] == old(back[a, b])
    {
      var cost := if r[i - 1] == h[j - 1] then 0 else 1;
      var best, move := BestMove(r, h, i, j, dp[i - 1, j - 1] + cost, dp[i - 1, j] + 1, dp[i, j - 1] + 1);
      SetCell(dp, back, i, j, best, move);
    }
  }

  /** `dp[i][j] = best_cost` and `back[i][j] = move`. */
  method SetCell(dp: array2<nat>, back: array2<(nat, nat)>, i: nat, j: nat, best: nat, move: (nat, nat))
    requires dp != back as object
    requires i < dp.Length0 && j < dp.Length1 && i < back.Length0 && j < back.Length1
    modifies dp, back
    ensures dp[i, j] == best && back[i, j] == move
    ensures forall a, b {:trigger dp[a, b]} :: 0 <= a < dp.Length0 && 0 <= b < dp.Length1 && (a != i || b != j) ==> dp[a, b] == old(dp[a, b])
    ensures forall a, b {:trigger back[a, b]} :: 0 <= a < back.Length0 && 0 <= b < back.Length1 && (a != i || b != j) ==> back[a, b] == old(back[a, b])
  {
    dp[i, j] := best;
    back[i, j] := move;
  }

  /** The comparisons for one cell: the substitution first, then a strictly
      cheaper deletion, then a strictly cheaper insertion. */
  method BestMove<T(==)>(r: seq<T>, h: seq<T>, i: nat, j: nat, sub: nat, del: nat, ins: nat)
    returns (best: nat, move: (nat, nat))
    requires 0 < i <= |r| && 0 < j <= |h|
    requires sub == SubCost(r, h, i, j) && del == Cost(r, h, i - 1, j) + 1 && ins == Cost(r, h, i, j - 1) + 1
    ensures best == Cost(r, h, i, j) && move == BackOf(r, h, i, j)
  {
    best := sub;
    move := (i - 1, j - 1);
    if del < best {
      best := del;
      move := (i - 1, j);
    }
    if ins < best {
      best := ins;
      move := (i, j - 1);
    }
  }

  /** The pair one backtrace step emits when it moves from (i, j) to `prev`. */
  function Emitted(i: nat, j: nat, prev: (nat, nat)): Pair {
    Pair(if prev.0 < i then Some(i - 1) else None, if prev.1 < j then Some(j - 1) else None)
  }

  /** One backtrace step: `back[i][j]` is one of the three neighbours, and the
      trace from (i, j) is the trace from there plus the emitted pair. */
  lemma TraceBack<T>(r: seq<T>, h: seq<T>, i: nat, j: nat)
    requires i <= |r| && j <= |h| && (i > 0 || j > 0)
    ensures var prev := BackOf(r, h, i, j);
      (prev == (i - 1, j - 1) && i > 0 && j > 0) || (prev == (i - 1, j) && i > 0) || (prev == (i, j - 1) && j > 0)
    ensures var prev := BackOf(r, h, i, j);
      Trace(r, h, i, j) == Trace(r, h, prev.0, prev.1) + [Emitted(i, j, prev)]
  {
    if i == 0 {
      assert Step(r, h, i, j) == Left;
    } else if j == 0 {
      assert Step(r, h, i, j) == Up;
    } else {
      match Step(r, h, i, j)
      case Diagonal =>
      case Up =>
      case Left =>
    }
  }

  /** The backtrace of `_align_sequences`: from (n, m), follow `back` to
      (0, 0), emitting a pair per step. The source appends each pair and
      reverses the list at the end; prepending builds the same list. */
  method Backtrace<T(==)>(r: seq<T>, h: seq<T>, back: array2<(nat, nat)>) returns (alignment: seq<Pair>)
    requires back.Length0 == |r| + 1 && back.Length1 == |h| + 1
    requires forall a, b {:trigger back[a, b]} :: 0 <= a <= |r| && 0 <= b <= |h| ==> back[a, b] == BackOf(r, h, a, b)
    ensures alignment == Align(r, h)
  {
    var i, j := |r|, |h|;
    alignment := [];
    while i > 0 || j > 0
      invariant 0 <= i <= |r| && 0 <= j <= |h|
      invariant Trace(r, h, i, j) + alignment == Align(r, h)
      decreases i + j
    {
      var prev := back[i, j];
      TraceBack(r, h, i, j);
      var p;
      if prev == (i - 1, j - 1) {
        p := Pair(Some(i - 1), Some(j - 1));
      } else if prev == (i - 1, j) {
        p := Pair(Some(i - 1), None);
      } else {
        p := Pair(None, Some(j - 1));
      }
      assert p == Emitted(i, j, prev);
      Regroup(Trace(r, h, prev.0, prev.1), p, alignment);
      alignment := [p] + alignment;
      i, j := prev.0, prev.1;
    }
    assert Trace(r, h, 0, 0) == [];
  }

  lemma Regroup(a: seq<Pair>, p: Pair, rest: seq<Pair>)
    ensures (a + [p]) + rest == a + ([p] + rest)
  {
  }

  /** `_align_sequences` / `align_sequences`: fills the `dp` and `back`
      tables row by row, then backtraces. */
  method AlignSequences<T(==)>(reference: seq<T>, hypothesis: seq<T>) returns (alignment: seq<Pair>)
    ensures alignment == Align(reference, hypothesis)
  {
    var n, m := |reference|, |hypothesis|;
    var dp, back := FillBorders(reference, hypothesis);
    for i := 1 to n + 1
      invariant forall a, b {:trigger dp[a, b]} {:trigger back[a, b]} :: 0 <= a < i && 0 <= b <= m ==>
        dp[a, b] == Cost(reference, hypothesis, a, b) && back[a, b] == BackOf(reference, hypothesis, a, b)
      invariant forall a :: 0 <= a <= n ==> dp[a, 0] == Cost(reference, hypothesis, a, 0) && back[a, 0] == BackOf(reference, hypothesis, a, 0)
    {
      FillRow(reference, hypothesis, dp, back, i);
    }
    alignment := Backtrace(reference, hypothesis, back);
  }

  // ------------------------------------------------------------ completeness

  /** `[0, 1, ..., n-1]` */
  function Range(n: nat): (s: seq<nat>)
    ensures |s| == n && forall k :: 0 <= k < n ==> s[k] == k
  {
    seq(n, k => k)
  }

  /** The reference indices of an alignment, in list order. */
  function Refs(pairs: seq<Pair>): seq<nat> {
    if pairs == [] then []
    else
      var last := pairs[|pairs| - 1];
      Refs(pairs[..|pairs| - 1]) + (if last.ref.Some? then [last.ref.value] else [])
  }

  /** The hypothesis indices of an alignment, in list order. */
  function Hyps(pairs: seq<Pair>): seq<nat> {
    if pairs == [] then []
    else
      var last := pairs[|pairs| - 1];
      Hyps(pairs[..|pairs| - 1]) + (if last.hyp.Some? then [last.hyp.value] else [])
  }

  predicate NoEmptyPair(pairs: seq<Pair>) {
    forall k :: 0 <= k < |pairs| ==> pairs[k].ref.Some? || pairs[k].hyp.Some?
  }

  /** `pairs` aligns the first `i` reference words with the first `j`
      hypothesis words: each index occurs in exactly one pair, in increasing
      order, and no pair is empty. */
  predicate IsAlignment(pairs: seq<Pair>, i: nat, j: nat) {
    Refs(pairs) == Range(i) && Hyps(pairs) == Range(j) && NoEmptyPair(pairs)
  }

  lemma AlignmentSnoc(pairs: seq<Pair>, p: Pair)
    ensures Refs(pairs + [p]) == Refs(pairs) + (if p.ref.Some? then [p.ref.value] else [])
    ensures Hyps(pairs + [p]) == Hyps(pairs) + (if p.hyp.Some? then [p.hyp.value] else [])
    ensures NoEmptyPair(pairs + [p]) <==> NoEmptyPair(pairs) && (p.ref.Some? || p.hyp.Some?)
  {
    assert (pairs + [p])[..|pairs|] == pairs;
    assert forall k :: 0 <= k < |pairs| ==> (pairs + [p])[k] == pairs[k];
  }

  lemma RangeSnoc(n: nat)
    ensures Range(n + 1) == Range(n) + [n]
  {
  }

  /** Appending a pair that carries the next reference index, the next
      hypothesis index, or both extends an alignment. */
  lemma AlignmentExtend(pairs: seq<Pair>, i: nat, j: nat, p: Pair)
    requires IsAlignment(pairs, i, j)
    requires p.ref.Some? || p.hyp.Some?
    requires p.ref.Some? ==> p.ref.value == i
    requires p.hyp.Some? ==> p.hyp.value == j
    ensures IsAlignment(pairs + [p], if p.ref.Some? then i + 1 else i, if p.hyp.Some? then j + 1 else j)
  {
    AlignmentSnoc(pairs, p);
    RangeSnoc(i);
    RangeSnoc(j);
  }

  lemma {:induction false} TraceIsAlignment<T>(r: seq<T>, h: seq<T>, i: nat, j: nat)
    requires i <= |r| && j <= |h|
    ensures IsAlignment(Trace(r, h, i, j), i, j)
    decreases i + j
  {
    if i == 0 && j == 0 {
      assert Range(0) == [];
    } else {
      var prev := BackOf(r, h, i, j);
      TraceBack(r, h, i, j);
      TraceIsAlignment(r, h, prev.0, prev.1);
      AlignmentExtend(Trace(r, h, prev.0, prev.1), prev.0, prev.1, Emitted(i, j, prev));
    }
  }

  /** Every reference index 0..n-1 and every hypothesis index 0..m-1 occurs
      in exactly one pair, in increasing order, and no pair is (None, None). */
  lemma AlignIsAlignment<T>(r: seq<T>, h: seq<T>)
    ensures IsAlignment(Align(r, h), |r|, |h|)
  {
    TraceIsAlignment(r, h, |r|, |h|);
  }

  /** Present reference indices strictly increase along `pairs`, and so do
      present hypothesis indices; all are below the given bounds. */
  predicate Monotone(pairs: seq<Pair>, i: nat, j: nat) {
    (forall a, b :: 0 <= a < b < |pairs| && pairs[a].ref.Some? && pairs[b].ref.Some? ==> pairs[a].ref.value < pairs[b].ref.value)
    && (forall a, b :: 0 <= a < b < |pairs| && pairs[a].hyp.Some? && pairs[b].hyp.Some? ==> pairs[a].hyp.value < pairs[b].hyp.value)
    && (forall a :: 0 <= a < |pairs| ==> (pairs[a].ref.Some? ==> pairs[a].ref.value < i) && (pairs[a].hyp.Some? ==> pairs[a].hyp.value < j))
  }

  lemma MonotoneSnoc(pairs: seq<Pair>, i: nat, j: nat, p: Pair, i': nat, j': nat)
    requires Monotone(pairs, i, j) && i <= i' && j <= j'
    requires p.ref.Some? ==> i <= p.ref.value < i'
    requires p.hyp.Some? ==> j <= p.hyp.value < j'
    ensures Monotone(pairs + [p], i', j')
  {
    var t := pairs + [p];
    assert forall k :: 0 <= k < |pairs| ==> t[k] == pairs[k];
  }

  /** Along a trace, present reference indices and present hypothesis
      indices strictly increase with the position in the list. */
  lemma {:induction false} TraceMonotone<T>(r: seq<T>, h: seq<T>, i: nat, j: nat)
    requires i <= |r| && j <= |h|
    ensures Monotone(Trace(r, h, i, j), i, j)
    decreases i + j
  {
    if i > 0 || j > 0 {
      var prev := BackOf(r, h, i, j);
      TraceBack(r, h, i, j);
      TraceMonotone(r, h, prev.0, prev.1);
      MonotoneSnoc(Trace(r, h, prev.0, prev.1), prev.0, prev.1, Emitted(i, j, prev), i, j);
    }
  }

  // ------------------------------------------------------------ optimality

  /** A pair costs 1 unless it matches two equal words. */
  function PairCost<T(==)>(r: seq<T>, h: seq<T>, p: Pair): nat {
    if p.ref.Some? && p.hyp.Some? && p.ref.value < |r| && p.hyp.value < |h| && r[p.ref.value] == h[p.hyp.value]
    then 0 else 1
  }

  /** The number of mismatched or gap pairs in an alignment. */
  function AlignmentCost<T(==)>(r: seq<T>, h: seq<T>, pairs: seq<Pair>): nat {
    if pairs == [] then 0
    else AlignmentCost(r, h, pairs[..|pairs| - 1]) + PairCost(r, h, pairs[|pairs| - 1])
  }

  lemma AlignmentCostSnoc<T>(r: seq<T>, h: seq<T>, pairs: seq<Pair>, p: Pair)
    ensures AlignmentCost(r, h, pairs + [p]) == AlignmentCost(r, h, pairs) + PairCost(r, h, p)
  {
    assert (pairs + [p])[..|pairs|] == pairs;
  }

  /** The cost in a cell is the cost of the move the table records there. */
  lemma StepCost<T>(r: seq<T>, h: seq<T>, i: nat, j: nat)
    requires i <= |r| && j <= |h| && (i > 0 || j > 0)
    ensures Step(r, h, i, j) == Diagonal ==> Cost(r, h, i, j) == SubCost(r, h, i, j)
    ensures Step(r, h, i, j) == Up ==> Cost(r, h, i, j) == Cost(r, h, i - 1, j) + 1
    ensures Step(r, h, i, j) == Left ==> Cost(r, h, i, j) == Cost(r, h, i, j - 1) + 1
  {
  }

  /** The cost in a cell is the cost in the cell it came from plus the
      cost of the pair emitted on the way. */
  lemma EmittedCost<T>(r: seq<T>, h: seq<T>, i: nat, j: nat)
    requires i <= |r| && j <= |h| && (i > 0 || j > 0)
    ensures var prev := BackOf(r, h, i, j);
      prev.0 <= |r| && prev.1 <= |h| &&
      Cost(r, h, i, j) == Cost(r, h, prev.0, prev.1) + PairCost(r, h, Emitted(i, j, prev))
  {
    StepCost(r, h, i, j);
  }

  /** `dp[n][m]` equals the number of mismatched or gap pairs on the backtrace. */
  lemma {:induction false} TraceCost<T>(r: seq<T>, h: seq<T>, i: nat, j: nat)
    requires i <= |r| && j <= |h|
    ensures AlignmentCost(r, h, Trace(r, h, i, j)) == Cost(r, h, i, j)
    decreases i + j
  {
    if i > 0 || j > 0 {
      var prev := BackOf(r, h, i, j);
      TraceBack(r, h, i, j);
      TraceCost(r, h, prev.0, prev.1);
      AlignmentCostSnoc(r, h, Trace(r, h, prev.0, prev.1), Emitted(i, j, prev));
      EmittedCost(r, h, i, j);
    }
  }

  lemma RangeUnsnoc(n: nat, s: seq<nat>, x: nat)
    requires Range(n) == s + [x]
    ensures n > 0 && x == n - 1 && s == Range(n - 1)
  {
    assert |s| + 1 == n;
    assert (s + [x])[n - 1] == x;
    assert s == (s + [x])[..n - 1];
  }

  /** No alignment of the first `i` and `j` words costs less than `dp[i][j]`:
      the table holds the optimum. */
  lemma {:induction false} CostIsOptimal<T>(r: seq<T>, h: seq<T>, i: nat, j: nat, pairs: seq<Pair>)
    requires i <= |r| && j <= |h|
    requires IsAlignment(pairs, i, j)
    ensures Cost(r, h, i, j) <= AlignmentCost(r, h, pairs)
    decreases |pairs|
  {
    if pairs == [] {
      assert Range(i) == [] && Range(j) == [];
    } else {
      var rest := pairs[..|pairs| - 1];
      var p := pairs[|pairs| - 1];
      AlignmentUnsnoc(pairs, i, j);
      assert pairs == rest + [p];
      AlignmentCostSnoc(r, h, rest, p);
      CostBounds(r, h, i, j);
      if p.ref.Some? && p.hyp.Some? {
        CostIsOptimal(r, h, i - 1, j - 1, rest);
      } else if p.ref.Some? {
        CostIsOptimal(r, h, i - 1, j, rest);
      } else {
        CostIsOptimal(r, h, i, j - 1, rest);
      }
    }
  }

  /** A cell costs no more than any of the three ways into it. */
  lemma CostBounds<T>(r: seq<T>, h: seq<T>, i: nat, j: nat)
    requires i <= |r| && j <= |h|
    ensures i > 0 && j > 0 ==> Cost(r, h, i, j) <= SubCost(r, h, i, j)
    ensures i > 0 ==> Cost(r, h, i, j) <= Cost(r, h, i - 1, j) + 1
    ensures j > 0 ==> Cost(r, h, i, j) <= Cost(r, h, i, j - 1) + 1
  {
  }

  /** Without its last pair, an alignment aligns one word fewer on each
      side the last pair covers. */
  lemma AlignmentUnsnoc(pairs: seq<Pair>, i: nat, j: nat)
    requires IsAlignment(pairs, i, j) && pairs != []
    ensures var p := pairs[|pairs| - 1];
      (p.ref.Some? || p.hyp.Some?) &&
      (p.ref.Some? ==> i > 0 && p.ref.value == i - 1) &&
      (p.hyp.Some? ==> j > 0 && p.hyp.value == j - 1) &&
      IsAlignment(pairs[..|pairs| - 1], if p.ref.Some? then i - 1 else i, if p.hyp.Some? then j - 1 else j)
  {
    var rest := pairs[..|pairs| - 1];
    var p := pairs[|pairs| - 1];
    assert NoEmptyPair(rest) by {
      forall k | 0 <= k < |rest| ensures rest[k].ref.Some? || rest[k].hyp.Some? {
        assert rest[k] == pairs[k];
      }
    }
    assert p.ref.Some? || p.hyp.Some? by { assert p == pairs[|pairs| - 1]; }
    if p.ref.Some? {
      RangeUnsnoc(i, Refs(rest), p.ref.value);
    } else {
      assert Refs(rest) == Range(i);
    }
    if p.hyp.Some? {
      RangeUnsnoc(j, Hyps(rest), p.hyp.value);
    } else {
      assert Hyps(rest) == Range(j);
    }
  }

  /** The aligner's output is a cheapest alignment of the two word lists. */
  lemma AlignIsOptimal<T>(r: seq<T>, h: seq<T>, other: seq<Pair>)
    requires IsAlignment(other, |r|, |h|)
    ensures AlignmentCost(r, h, Align(r, h)) <= AlignmentCost(r, h, other)
  {
    TraceCost(r, h, |r|, |h|);
    CostIsOptimal(r, h, |r|, |h|, other);
  }

  // ------------------------------------------------------------ special cases

  /** `[(0,0), (1,1), ..., (n-1,n-1)]` */
  function DiagonalPairs(n: nat): (s: seq<Pair>)
    ensures |s| == n && forall k :: 0 <= k < n ==> s[k] == Pair(Some(k), Some(k))
  {
    seq(n, k requires 0 <= k => Pair(Some(k), Some(k)))
  }

  lemma {:induction false} EqualPrefixTrace<T>(r: seq<T>, i: nat)
    requires i <= |r|
    ensures Cost(r, r, i, i) == 0
    ensures Trace(r, r, i, i) == DiagonalPairs(i)
  {
    if i > 0 {
      EqualPrefixTrace(r, i - 1);
      assert Step(r, r, i, i) == Diagonal;
      assert DiagonalPairs(i) == DiagonalPairs(i - 1) + [Pair(Some(i - 1), Some(i - 1))];
    }
  }

  /** Identical inputs align pair by pair, (i, i). */
  lemma IdenticalInputsAlignDiagonally<T>(r: seq<T>)
    ensures Align(r, r) == DiagonalPairs(|r|)
  {
    EqualPrefixTrace(r, |r|);
  }

  /** The tie-break on a small case: the diagonal move at (2, 1) costs the
      same as the deletion and is kept, so the first "a" is the one left
      unmatched. */
  lemma TieBreakExample()
    ensures Align(["a", "a"], ["a"]) == [Pair(Some(0), None), Pair(Some(1), Some(0))]
  {
    var r, h := ["a", "a"], ["a"];
    assert Cost(r, h, 1, 0) == 1 && Cost(r, h, 2, 0) == 2 && Cost(r, h, 0, 1) == 1;
    assert Cost(r, h, 1, 1) == 0;
    assert Step(r, h, 2, 1) == Diagonal;
    assert Step(r, h, 1, 0) == Up;
  }
}
