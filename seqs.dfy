/**
 * List comprehensions with a condition (`[x for x in xs if p(x)]`), which the
 * views and the file rewrites of the application are built from.
 */
module Seqs {

  /** `[x for x in xs if p(x)]` */
  function Filter<T>(xs: seq<T>, p: T -> bool): (r: seq<T>)
    ensures |r| <= |xs|
    ensures forall k :: 0 <= k < |r| ==> r[k] in xs && p(r[k])
    ensures forall k :: 0 <= k < |xs| && p(xs[k]) ==> xs[k] in r
  {
    if |xs| == 0 then []
    else
      var rest := Filter(xs[1..], p);
      FilterStep(xs, p, rest);
      if p(xs[0]) then [xs[0]] + rest else rest
  }

  /** What the selection from the tail keeps, the selection from the whole list keeps. */
  lemma FilterStep<T>(xs: seq<T>, p: T -> bool, rest: seq<T>)
    requires |xs| > 0 && |rest| <= |xs| - 1
    requires forall k :: 0 <= k < |rest| ==> rest[k] in xs[1..] && p(rest[k])
    requires forall k :: 1 <= k < |xs| && p(xs[k]) ==> xs[k] in rest
    ensures var r := if p(xs[0]) then [xs[0]] + rest else rest;
      && |r| <= |xs|
      && (forall k :: 0 <= k < |r| ==> r[k] in xs && p(r[k]))
      && (forall k :: 0 <= k < |xs| && p(xs[k]) ==> xs[k] in r)
  {
    assert xs == [xs[0]] + xs[1..];
    forall k | 0 <= k < |rest| ensures rest[k] in xs {
      assert rest[k] in xs[1..];
    }
  }

  lemma {:induction false} FilterConcat<T>(xs: seq<T>, ys: seq<T>, p: T -> bool)
    ensures Filter(xs + ys, p) == Filter(xs, p) + Filter(ys, p)
    decreases |xs|
  {
    if |xs| > 0 {
      assert (xs + ys)[1..] == xs[1..] + ys;
      FilterConcat(xs[1..], ys, p);
    } else {
      assert xs + ys == ys;
    }
  }

  /** Keeping by a condition and by its negation splits the list in two. */
  lemma {:induction false} FilterSplit<T>(xs: seq<T>, p: T -> bool, q: T -> bool)
    requires forall x :: q(x) == !p(x)
    ensures multiset(Filter(xs, p)) + multiset(Filter(xs, q)) == multiset(xs)
    decreases |xs|
  {
    if |xs| > 0 {
      assert multiset(xs) == multiset{xs[0]} + multiset(xs[1..]) by {
        assert xs == [xs[0]] + xs[1..];
      }
      FilterSplit(xs[1..], p, q);
      if p(xs[0]) {
        assert Filter(xs, p) == [xs[0]] + Filter(xs[1..], p);
        assert Filter(xs, q) == Filter(xs[1..], q);
      } else {
        assert Filter(xs, p) == Filter(xs[1..], p);
        assert Filter(xs, q) == [xs[0]] + Filter(xs[1..], q);
      }
    }
  }

  lemma {:induction false} FilterAll<T>(xs: seq<T>, p: T -> bool)
    requires forall k :: 0 <= k < |xs| ==> p(xs[k])
    ensures Filter(xs, p) == xs
    decreases |xs|
  {
    if |xs| > 0 {
      FilterAll(xs[1..], p);
      assert xs == [xs[0]] + xs[1..];
    }
  }

  /** Two conditions that agree on every element select the same elements. */
  lemma {:induction false} FilterSame<T>(xs: seq<T>, p: T -> bool, q: T -> bool)
    requires forall k :: 0 <= k < |xs| ==> p(xs[k]) == q(xs[k])
    ensures Filter(xs, p) == Filter(xs, q)
    decreases |xs|
  {
    if |xs| > 0 {
      FilterSame(xs[1..], p, q);
    }
  }

  /** Filtering twice is filtering once by both conditions. */
  lemma {:induction false} FilterFilter<T>(xs: seq<T>, p: T -> bool, q: T -> bool)
    ensures Filter(Filter(xs, p), q) == Filter(xs, x => p(x) && q(x))
    decreases |xs|
  {
    if |xs| > 0 {
      FilterFilter(xs[1..], p, q);
      if p(xs[0]) {
        assert Filter(xs, p)[1..] == Filter(xs[1..], p);
      }
    }
  }

  /**
   * Two conditions that split the elements selected by a third, one or the
   * other but never both, split its selection in two.
   */
  lemma {:induction false} FilterPartition<T>(xs: seq<T>, p: T -> bool, q: T -> bool, r: T -> bool)
    requires forall k :: 0 <= k < |xs| ==> (q(xs[k]) || r(xs[k]) <==> p(xs[k])) && !(q(xs[k]) && r(xs[k]))
    ensures multiset(Filter(xs, q)) + multiset(Filter(xs, r)) == multiset(Filter(xs, p))
    decreases |xs|
  {
    if |xs| > 0 {
      FilterPartition(xs[1..], p, q, r);
    }
  }

  /** A second condition that implies the first makes the first filter redundant. */
  lemma {:induction false} FilterImplied<T>(xs: seq<T>, p: T -> bool, q: T -> bool)
    requires forall x :: q(x) ==> p(x)
    ensures Filter(Filter(xs, p), q) == Filter(xs, q)
    decreases |xs|
  {
    if |xs| > 0 {
      FilterImplied(xs[1..], p, q);
      if p(xs[0]) {
        assert Filter(xs, p)[1..] == Filter(xs[1..], p);
      }
    }
  }

  /** The largest of a non-empty list of numbers (`max(xs)`). */
  function Max(xs: seq<int>): (m: int)
    requires |xs| > 0
    ensures forall k :: 0 <= k < |xs| ==> xs[k] <= m
    ensures exists k :: 0 <= k < |xs| && xs[k] == m
  {
    if |xs| == 1 then xs[0]
    else
      var r := Max(xs[1..]);
      assert forall k :: 1 <= k < |xs| ==> xs[k] == xs[1..][k - 1];
      if xs[0] >= r then xs[0] else r
  }

  /**
   * `max(xs, default=first - 1) + 1`: the next id after the largest one, or
   * `first` for an empty list.
   */
  function NextId(xs: seq<int>, first: int): (id: int)
    ensures forall k :: 0 <= k < |xs| ==> xs[k] < id
    ensures |xs| == 0 ==> id == first
    ensures |xs| > 0 ==> exists k :: 0 <= k < |xs| && xs[k] == id - 1
  {
    if |xs| == 0 then first else Max(xs) + 1
  }

  /** `[f(x) for x in xs if keep(x)]` */
  function FilterMap<S, T>(xs: seq<S>, keep: S -> bool, f: S -> T): (r: seq<T>)
    ensures |r| <= |xs|
    decreases |xs|
  {
    if |xs| == 0 then []
    else
      var n := |xs| - 1;
      var r := FilterMap(xs[..n], keep, f);
      if keep(xs[n]) then r + [f(xs[n])] else r
  }

  /** When every element is kept, each one is mapped in place. */
  lemma {:induction false} FilterMapAll<S, T>(xs: seq<S>, keep: S -> bool, f: S -> T)
    requires forall k :: 0 <= k < |xs| ==> keep(xs[k])
    ensures |FilterMap(xs, keep, f)| == |xs|
    ensures forall k :: 0 <= k < |xs| ==> FilterMap(xs, keep, f)[k] == f(xs[k])
    decreases |xs|
  {
    if |xs| > 0 {
      FilterMapAll(xs[..|xs| - 1], keep, f);
    }
  }

  /** `list(range(n))` */
  function Range(n: nat): (r: seq<nat>)
    ensures |r| == n && forall k :: 0 <= k < n ==> r[k] == k
  {
    seq(n, k requires 0 <= k < n => k)
  }

  predicate Increasing(xs: seq<nat>) {
    forall j, k :: 0 <= j < k < |xs| ==> xs[j] < xs[k]
  }

  /** The positions in `gone` that `xs` has. */
  function Below(gone: set<nat>, n: nat): set<nat> {
    set i | i in gone && i < n
  }

  /**
   * The elements of `xs` whose positions are not in `gone`, in their order:
   * what deleting those positions leaves.
   */
  function Without<T>(xs: seq<T>, gone: set<nat>): (r: seq<T>)
    ensures |r| <= |xs|
    decreases |xs|
  {
    if |xs| == 0 then []
    else
      var n := |xs| - 1;
      var r := Without(xs[..n], gone);
      if n in gone then r else r + [xs[n]]
  }

  /**
   * Deleting removes one element per listed position the list has, keeps
   * every element at an unlisted position and adds none.
   */
  lemma {:induction false} WithoutCount<T>(xs: seq<T>, gone: set<nat>)
    ensures |Without(xs, gone)| == |xs| - |Below(gone, |xs|)|
    ensures forall i :: 0 <= i < |xs| && i !in gone ==> xs[i] in Without(xs, gone)
    ensures multiset(Without(xs, gone)) <= multiset(xs)
    decreases |xs|
  {
    if |xs| == 0 {
      assert Below(gone, 0) == {};
    } else {
      var n := |xs| - 1;
      var front := xs[..n];
      WithoutCount(front, gone);
      assert xs == front + [xs[n]];
      if n in gone {
        assert Below(gone, |xs|) == Below(gone, n) + {n};
      } else {
        assert Below(gone, |xs|) == Below(gone, n);
      }
    }
  }

  /** Deleting no position a list has leaves it as it is. */
  lemma {:induction false} WithoutNone<T>(xs: seq<T>, gone: set<nat>)
    requires forall i :: i in gone ==> i >= |xs|
    ensures Without(xs, gone) == xs
    decreases |xs|
  {
    if |xs| > 0 {
      WithoutNone(xs[..|xs| - 1], gone);
    }
  }

  /** A position past the end deletes nothing. */
  lemma {:induction false} WithoutBeyond<T>(xs: seq<T>, gone: set<nat>, m: nat)
    requires m >= |xs|
    ensures Without(xs, gone + {m}) == Without(xs, gone)
    decreases |xs|
  {
    if |xs| > 0 {
      WithoutBeyond(xs[..|xs| - 1], gone, m);
    }
  }

  /**
   * Once the positions above `m` are deleted, `m` has not moved: deleting it
   * next is `del r[m]`.
   */
  lemma {:induction false} WithoutDeleteAt<T>(xs: seq<T>, gone: set<nat>, m: nat)
    requires m < |xs| && forall i :: i in gone ==> i > m
    ensures m < |Without(xs, gone)| && Without(xs, gone)[m] == xs[m]
    ensures Without(xs, gone + {m}) == Without(xs, gone)[..m] + Without(xs, gone)[m + 1..]
    decreases |xs|
  {
    var n := |xs| - 1;
    var front := xs[..n];
    if n == m {
      WithoutNone(front, gone);
      WithoutNone(front, gone + {m});
    } else {
      WithoutDeleteAt(front, gone, m);
      var w := Without(front, gone);
      if n !in gone {
        assert (w + [xs[n]])[..m] == w[..m];
        assert (w + [xs[n]])[m + 1..] == w[m + 1..] + [xs[n]];
      }
    }
  }

  /** The positions listed from index `k` on. */
  function Listed(ids: seq<nat>, k: nat): set<nat> {
    set j | k <= j < |ids| :: ids[j]
  }

  /**
   * `for i in reversed(ids): if 0 <= i < len(r): del r[i]`, deleting from the
   * highest position down so that no deletion moves a later one.
   */
  method DeleteEach<T>(xs: seq<T>, ids: seq<nat>) returns (r: seq<T>)
    requires Increasing(ids)
    ensures r == Without(xs, Listed(ids, 0))
  {
    r := xs;
    var k := |ids|;
    assert Listed(ids, k) == {};
    WithoutNone(xs, {});
    while k > 0
      invariant 0 <= k <= |ids|
      invariant r == Without(xs, Listed(ids, k))
    {
      k := k - 1;
      var i := ids[k];
      assert Listed(ids, k) == Listed(ids, k + 1) + {i};
      if i < |xs| {
        WithoutDeleteAt(xs, Listed(ids, k + 1), i);
      } else {
        WithoutBeyond(xs, Listed(ids, k + 1), i);
      }
      if 0 <= i < |r| {
        r := r[..i] + r[i + 1..];
      }
    }
  }
}
