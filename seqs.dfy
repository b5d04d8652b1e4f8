/** `Array.prototype.filter`, `map`, `slice` and `findIndex`, and what it means to keep a subsequence. */
module Seqs {
  import opened Wrappers

  /** The elements satisfying `f`, in their original order. */
  function Filter<T>(xs: seq<T>, f: T -> bool): (r: seq<T>)
    ensures |r| <= |xs|
    ensures forall k :: 0 <= k < |r| ==> f(r[k])
    decreases |xs|
  {
    if xs == [] then []
    else (if f(xs[0]) then [xs[0]] else []) + Filter(xs[1..], f)
  }

  /** `f` applied to every element. */
  function Map<T, U>(xs: seq<T>, f: T -> U): (r: seq<U>)
    ensures |r| == |xs|
    ensures forall k :: 0 <= k < |xs| ==> r[k] == f(xs[k])
    decreases |xs|
  {
    if xs == [] then [] else [f(xs[0])] + Map(xs[1..], f)
  }

  lemma {:induction false} MapAppend<T, U>(xs: seq<T>, ys: seq<T>, f: T -> U)
    ensures Map(xs + ys, f) == Map(xs, f) + Map(ys, f)
  {
    assert forall k :: 0 <= k < |xs + ys| ==> Map(xs + ys, f)[k] == (Map(xs, f) + Map(ys, f))[k];
  }

  /** `xs[idx[k]] == ys[k]` for strictly increasing positions `idx`: `ys` is a subsequence of `xs`. */
  ghost predicate SubsequenceAt<T>(ys: seq<T>, xs: seq<T>, idx: seq<nat>) {
    && |idx| == |ys|
    && (forall k :: 0 <= k < |idx| ==> idx[k] < |xs| && xs[idx[k]] == ys[k])
    && (forall a, b :: 0 <= a < b < |idx| ==> idx[a] < idx[b])
  }

  /**
   * Filtering keeps the surviving elements in their original relative order,
   * and the kept positions are exactly the positions whose element passes,
   * so a repeated passing element is kept once per occurrence.
   */
  lemma {:induction false} FilterIsSubsequence<T>(xs: seq<T>, f: T -> bool) returns (idx: seq<nat>)
    ensures SubsequenceAt(Filter(xs, f), xs, idx)
    ensures forall j :: 0 <= j < |xs| ==> (f(xs[j]) <==> j in idx)
    decreases |xs|
  {
    if xs == [] {
      idx := [];
    } else {
      var tail := FilterIsSubsequence(xs[1..], f);
      var shifted := Shift(tail);
      SubsequenceShift(Filter(xs[1..], f), xs, tail);
      if f(xs[0]) {
        idx := [0] + shifted;
        SubsequenceCons(Filter(xs[1..], f), xs, shifted);
      } else {
        idx := shifted;
      }
      PositionsStep(xs, f, tail, idx);
    }
  }

  /** The passing positions of `xs` from those of `xs[1..]`, shifted, and position 0 when it passes. */
  lemma PositionsStep<T>(xs: seq<T>, f: T -> bool, tail: seq<nat>, idx: seq<nat>)
    requires xs != []
    requires forall j :: 0 <= j < |xs| - 1 ==> (f(xs[1..][j]) <==> j in tail)
    requires idx == if f(xs[0]) then [0] + Shift(tail) else Shift(tail)
    ensures forall j :: 0 <= j < |xs| ==> (f(xs[j]) <==> j in idx)
  {
    var shifted := Shift(tail);
    forall j | 1 <= j < |xs|
      ensures j - 1 in tail <==> j in shifted
    {
      if j - 1 in tail {
        var k :| 0 <= k < |tail| && tail[k] == j - 1;
        assert shifted[k] == j;
      }
      if j in shifted {
        var k :| 0 <= k < |shifted| && shifted[k] == j;
        assert tail[k] == j - 1;
      }
    }
    forall j | 0 <= j < |xs|
      ensures f(xs[j]) <==> j in idx
    {
      if j > 0 {
        assert xs[1..][j - 1] == xs[j];
      }
    }
  }

  lemma SubsequenceShift<T>(ys: seq<T>, xs: seq<T>, tail: seq<nat>)
    requires xs != [] && SubsequenceAt(ys, xs[1..], tail)
    ensures SubsequenceAt(ys, xs, Shift(tail))
  {
    forall k | 0 <= k < |tail|
      ensures xs[Shift(tail)[k]] == ys[k]
    {
      assert xs[1..][tail[k]] == ys[k];
    }
  }

  lemma SubsequenceCons<T>(ys: seq<T>, xs: seq<T>, idx: seq<nat>)
    requires xs != [] && SubsequenceAt(ys, xs, idx)
    requires forall k :: 0 <= k < |idx| ==> idx[k] > 0
    ensures SubsequenceAt([xs[0]] + ys, xs, [0] + idx)
  {
  }

  /** Positions in `xs[1..]` moved to positions in `xs`. */
  function Shift(idx: seq<nat>): (r: seq<nat>)
    ensures |r| == |idx| && forall k :: 0 <= k < |r| ==> r[k] == idx[k] + 1
  {
    seq(|idx|, k requires 0 <= k < |idx| => idx[k] + 1)
  }

  /** Filtering keeps exactly the elements that satisfy the predicate. */
  lemma {:induction false} FilterMembers<T>(xs: seq<T>, f: T -> bool)
    ensures forall k :: 0 <= k < |Filter(xs, f)| ==> Filter(xs, f)[k] in xs
    ensures forall k :: 0 <= k < |xs| && f(xs[k]) ==> xs[k] in Filter(xs, f)
    decreases |xs|
  {
    if xs != [] {
      FilterMembers(xs[1..], f);
      var rest := Filter(xs[1..], f);
      assert Filter(xs, f) == (if f(xs[0]) then [xs[0]] else []) + rest;
      assert forall k :: 1 <= k < |xs| ==> xs[k] == xs[1..][k - 1];
    }
  }

  lemma {:induction false} FilterAppend<T>(xs: seq<T>, ys: seq<T>, f: T -> bool)
    ensures Filter(xs + ys, f) == Filter(xs, f) + Filter(ys, f)
    decreases |xs|
  {
    if xs == [] {
      assert xs + ys == ys;
    } else {
      FilterAppend(xs[1..], ys, f);
      assert (xs + ys)[1..] == xs[1..] + ys;
    }
  }

  /** When every element satisfies the predicate, filtering keeps the whole sequence. */
  lemma {:induction false} FilterAll<T>(xs: seq<T>, f: T -> bool)
    requires forall k :: 0 <= k < |xs| ==> f(xs[k])
    ensures Filter(xs, f) == xs
    decreases |xs|
  {
    if xs != [] {
      FilterAll(xs[1..], f);
    }
  }

  /** Two predicates that agree on every element filter alike. */
  lemma {:induction false} FilterCongruent<T>(xs: seq<T>, f: T -> bool, g: T -> bool)
    requires forall k :: 0 <= k < |xs| ==> f(xs[k]) == g(xs[k])
    ensures Filter(xs, f) == Filter(xs, g)
    decreases |xs|
  {
    if xs != [] {
      FilterCongruent(xs[1..], f, g);
    }
  }

  /** The first `n` elements, or all of them when there are fewer. */
  function Take<T>(xs: seq<T>, n: nat): (r: seq<T>)
    ensures |r| == if |xs| <= n then |xs| else n
    ensures forall k :: 0 <= k < |r| ==> r[k] == xs[k]
  {
    if |xs| <= n then xs else xs[..n]
  }

  /** Mapping with an `f` that may fail: the first failure aborts the whole map. */
  function MapAll<T, U>(xs: seq<T>, f: T -> Result<U>): (r: Result<seq<U>>)
    ensures r.Ok? <==> forall k :: 0 <= k < |xs| ==> f(xs[k]).Ok?
    ensures r.Ok? ==> |r.value| == |xs| && forall k :: 0 <= k < |xs| ==> r.value[k] == f(xs[k]).value
    decreases |xs|
  {
    if xs == [] then Ok([])
    else
      match f(xs[0])
      case Failure(e) => Failure(e)
      case Ok(y) =>
        var rest := MapAll(xs[1..], f);
        assert forall k :: 1 <= k < |xs| ==> xs[1..][k - 1] == xs[k];
        if rest.Failure? then Failure(rest.error) else Ok([y] + rest.value)
  }

  /** A failing map reports the error of the first element that fails. */
  lemma {:induction false} MapAllFirstFailure<T, U>(xs: seq<T>, f: T -> Result<U>, k: nat)
    requires k < |xs| && f(xs[k]).Failure? && forall j :: 0 <= j < k ==> f(xs[j]).Ok?
    ensures MapAll(xs, f) == Failure(f(xs[k]).error)
    decreases k
  {
    if k > 0 {
      assert xs[1..][k - 1] == xs[k];
      MapAllFirstFailure(xs[1..], f, k - 1);
    }
  }

  /** Mapping one more element that succeeds extends a successful map by its value. */
  lemma MapAllSnoc<T, U>(xs: seq<T>, x: T, f: T -> Result<U>)
    requires MapAll(xs, f).Ok? && f(x).Ok?
    ensures MapAll(xs + [x], f) == Ok(MapAll(xs, f).value + [f(x).value])
  {
    var ys := xs + [x];
    assert forall k :: 0 <= k < |ys| ==> f(ys[k]).Ok? by {
      assert forall k :: 0 <= k < |xs| ==> ys[k] == xs[k];
      assert ys[|xs|] == x;
    }
    assert MapAll(ys, f).value == MapAll(xs, f).value + [f(x).value];
  }

  /** The first index whose element satisfies `p`, `None` when there is none. */
  function FirstIndex<T>(xs: seq<T>, p: T -> bool): (r: Option<nat>)
    ensures r.Some? ==> r.value < |xs| && p(xs[r.value]) && forall j :: 0 <= j < r.value ==> !p(xs[j])
    ensures r.None? ==> forall j :: 0 <= j < |xs| ==> !p(xs[j])
    decreases |xs|
  {
    if xs == [] then None
    else if p(xs[0]) then Some(0)
    else match FirstIndex(xs[1..], p)
      case Some(i) => Some(i + 1)
      case None => None
  }

  /** The last index whose element satisfies `p`, `None` when there is none. */
  function LastIndex<T>(xs: seq<T>, p: T -> bool): (r: Option<nat>)
    ensures r.Some? ==> r.value < |xs| && p(xs[r.value]) && forall j :: r.value < j < |xs| ==> !p(xs[j])
    ensures r.None? ==> forall j :: 0 <= j < |xs| ==> !p(xs[j])
    decreases |xs|
  {
    if xs == [] then None
    else if p(xs[|xs| - 1]) then Some(|xs| - 1)
    else LastIndex(xs[..|xs| - 1], p)
  }

  /** `FirstIndex` is the one index whose element satisfies `p` and no earlier element does. */
  lemma FirstIndexAt<T>(xs: seq<T>, p: T -> bool, i: nat)
    requires i < |xs| && p(xs[i]) && forall j :: 0 <= j < i ==> !p(xs[j])
    ensures FirstIndex(xs, p) == Some(i)
  {
  }

  /** `LastIndex` is the one index whose element satisfies `p` and no later element does. */
  lemma LastIndexAt<T>(xs: seq<T>, p: T -> bool, i: nat)
    requires i < |xs| && p(xs[i]) && forall j :: i < j < |xs| ==> !p(xs[j])
    ensures LastIndex(xs, p) == Some(i)
  {
  }

  lemma LastIndexSnoc<T>(xs: seq<T>, x: T, p: T -> bool)
    ensures LastIndex(xs + [x], p) == if p(x) then Some(|xs|) else LastIndex(xs, p)
  {
    assert (xs + [x])[..|xs|] == xs;
  }

  lemma FirstIndexSnoc<T>(xs: seq<T>, x: T, p: T -> bool)
    requires FirstIndex(xs, p) == None
    ensures FirstIndex(xs + [x], p) == if p(x) then Some(|xs|) else None
  {
    var ys := xs + [x];
    assert forall j :: 0 <= j < |xs| ==> ys[j] == xs[j];
    assert ys[|xs|] == x;
  }

  /** The first index found in a prefix is the first index of the whole sequence. */
  lemma FirstIndexPrefix<T>(xs: seq<T>, n: nat, p: T -> bool)
    requires n <= |xs| && FirstIndex(xs[..n], p).Some?
    ensures FirstIndex(xs, p) == FirstIndex(xs[..n], p)
  {
    var i := FirstIndex(xs[..n], p).value;
    assert xs[..n][i] == xs[i];
    assert forall j :: 0 <= j < i ==> xs[..n][j] == xs[j];
    FirstIndexAt(xs, p, i);
  }
  /** Once `n` elements are kept, later ones change nothing. */
  lemma TakeFull<T>(a: seq<T>, b: seq<T>, n: nat)
    requires |Take(a, n)| >= n
    ensures Take(a + b, n) == Take(a, n)
  {
    assert (a + b)[..n] == a[..n];
  }

  /** Below the cap, one more element is kept. */
  lemma TakeGrow<T>(a: seq<T>, x: T, n: nat)
    requires |Take(a, n)| < n
    ensures Take(a + [x], n) == Take(a, n) + [x]
  {
  }

  lemma FilterSnoc<T>(xs: seq<T>, i: nat, f: T -> bool)
    requires i < |xs|
    ensures Filter(xs[..i + 1], f) == Filter(xs[..i], f) + if f(xs[i]) then [xs[i]] else []
  {
    assert xs[..i + 1] == xs[..i] + [xs[i]];
    FilterAppend(xs[..i], [xs[i]], f);
    assert [xs[i]][1..] == [];
  }

  /** The `i`-th element, when it passes, sits in the kept prefix right after the earlier survivors. */
  lemma TakeFilterAt<T>(xs: seq<T>, i: nat, f: T -> bool, n: nat)
    requires i < |xs| && f(xs[i]) && |Filter(xs[..i], f)| < n
    ensures var pre, a := Filter(xs[..i], f), Take(Filter(xs, f), n);
      |pre| < |a| && a[..|pre|] == pre && a[|pre|] == xs[i]
  {
    var pre := Filter(xs[..i], f);
    assert xs == xs[..i + 1] + xs[i + 1..];
    FilterAppend(xs[..i + 1], xs[i + 1..], f);
    FilterSnoc(xs, i, f);
    var all := Filter(xs, f);
    assert all == pre + [xs[i]] + Filter(xs[i + 1..], f);
    assert all[..|pre|] == pre;
    assert all[|pre|] == xs[i];
  }

  /** The first `n` survivors of a filter all pass it and keep their order in the input. */
  lemma TakeFilterSubsequence<T>(xs: seq<T>, f: T -> bool, n: nat) returns (idx: seq<nat>)
    ensures SubsequenceAt(Take(Filter(xs, f), n), xs, idx)
    ensures forall k :: 0 <= k < |Take(Filter(xs, f), n)| ==> f(Take(Filter(xs, f), n)[k])
  {
    var all := Filter(xs, f);
    var full := FilterIsSubsequence(xs, f);
    var a := Take(all, n);
    idx := full[..|a|];
    assert forall k :: 0 <= k < |a| ==> a[k] == all[k];
  }

  /**
   * One step of a loop that walks `xs`, keeps the first `n` elements passing
   * `keep` and builds each with `build`, stopping at the first failure: the
   * state after `i` elements is the build of the first `n` survivors of `xs[..i]`.
   */
  lemma CappedBuildStep<T, U>(xs: seq<T>, i: nat, keep: T -> bool, n: nat, build: T -> Result<U>)
    requires i < |xs|
    requires MapAll(Take(Filter(xs[..i], keep), n), build).Ok?
    ensures var before, after := Take(Filter(xs[..i], keep), n), Take(Filter(xs[..i + 1], keep), n);
      && (|before| >= n || !keep(xs[i]) ==> after == before)
      && (|before| < n && keep(xs[i]) ==> after == before + [xs[i]])
      && (|before| < n && keep(xs[i]) && build(xs[i]).Ok? ==>
            MapAll(after, build) == Ok(MapAll(before, build).value + [build(xs[i]).value]))
      && (|before| < n && keep(xs[i]) && build(xs[i]).Failure? ==>
            MapAll(Take(Filter(xs, keep), n), build) == Failure(build(xs[i]).error))
  {
    var pre := Filter(xs[..i], keep);
    var before := Take(pre, n);
    FilterSnoc(xs, i, keep);
    if |before| >= n {
      TakeFull(pre, if keep(xs[i]) then [xs[i]] else [], n);
    } else if keep(xs[i]) {
      TakeGrow(pre, xs[i], n);
      if build(xs[i]).Ok? {
        MapAllSnoc(before, xs[i], build);
      } else {
        TakeFilterAt(xs, i, keep, n);
        var a := Take(Filter(xs, keep), n);
        assert forall j :: 0 <= j < |before| ==> a[j] == before[j];
        MapAllFirstFailure(a, build, |before|);
      }
    } else {
      assert pre + [] == pre;
    }
  }
}
