/**
 Order-preserving selection and flattening of sequences: the boolean-mask
 filtering (`df[mask]`) and `pd.concat` of a list of frames that the filter
 performs on its tables, stated once for rows of any kind.
 */
module Sequences {

  /** The elements of `xs` satisfying `keep`, in their original order. */
  function Filter<T(!new)>(xs: seq<T>, keep: T -> bool): (r: seq<T>)
    ensures |r| <= |xs|
    ensures forall x :: x in r <==> x in xs && keep(x)
  {
    if xs == [] then []
    else
      assert xs == [xs[0]] + xs[1..];
      (if keep(xs[0]) then [xs[0]] else []) + Filter(xs[1..], keep)
  }

  /** Each kept value is kept as often as it occurs; every other value is gone. */
  lemma {:induction false} FilterCount<T(!new)>(xs: seq<T>, keep: T -> bool)
    ensures forall x :: multiset(Filter(xs, keep))[x] == if keep(x) then multiset(xs)[x] else 0
  {
    if xs != [] {
      FilterCount(xs[1..], keep);
      assert xs == [xs[0]] + xs[1..];
    }
  }

  /** Filtering a sequence that starts with `x`. */
  lemma FilterCons<T(!new)>(x: T, xs: seq<T>, keep: T -> bool)
    ensures Filter([x] + xs, keep) == (if keep(x) then [x] else []) + Filter(xs, keep)
  {
    assert ([x] + xs)[0] == x && ([x] + xs)[1..] == xs;
  }

  /** Filtering distributes over concatenation: the relative order of kept elements is preserved. */
  lemma {:induction false} FilterConcat<T(!new)>(xs: seq<T>, ys: seq<T>, keep: T -> bool)
    ensures Filter(xs + ys, keep) == Filter(xs, keep) + Filter(ys, keep)
  {
    if xs == [] {
      assert xs + ys == ys;
    } else {
      var x, rest := xs[0], xs[1..];
      assert xs == [x] + rest && xs + ys == [x] + (rest + ys);
      FilterCons(x, rest, keep);
      FilterCons(x, rest + ys, keep);
      FilterConcat(rest, ys, keep);
    }
  }

  /** Two selections that agree on every element of `xs` select the same elements. */
  lemma {:induction false} FilterCongruent<T(!new)>(xs: seq<T>, p: T -> bool, q: T -> bool)
    requires forall x :: x in xs ==> p(x) == q(x)
    ensures Filter(xs, p) == Filter(xs, q)
  {
    if xs != [] {
      FilterCongruent(xs[1..], p, q);
    }
  }

  /** A second, narrower selection sees through the first one. */
  lemma {:induction false} FilterNarrow<T(!new)>(xs: seq<T>, p: T -> bool, q: T -> bool)
    requires forall x :: x in xs && q(x) ==> p(x)
    ensures Filter(Filter(xs, p), q) == Filter(xs, q)
  {
    if xs != [] {
      FilterNarrow(xs[1..], p, q);
      var fp := Filter(xs, p);
      if p(xs[0]) {
        assert fp == [xs[0]] + Filter(xs[1..], p);
        assert fp[0] == xs[0] && fp[1..] == Filter(xs[1..], p);
        assert Filter(fp, q) == (if q(xs[0]) then [xs[0]] else []) + Filter(Filter(xs[1..], p), q);
      } else {
        assert fp == Filter(xs[1..], p);
      }
    }
  }

  /** Two selections one after the other select what both masks accept. */
  lemma {:induction false} FilterBoth<T(!new)>(xs: seq<T>, p: T -> bool, q: T -> bool, both: T -> bool)
    requires forall x :: x in xs ==> both(x) == (p(x) && q(x))
    ensures Filter(Filter(xs, p), q) == Filter(xs, both)
  {
    if xs != [] {
      FilterBoth(xs[1..], p, q, both);
      var fp := Filter(xs, p);
      if p(xs[0]) {
        assert fp[0] == xs[0] && fp[1..] == Filter(xs[1..], p);
      } else {
        assert fp == Filter(xs[1..], p);
      }
    }
  }

  /** Two selections applied one after the other commute. */
  lemma {:induction false} FilterCommute<T(!new)>(xs: seq<T>, p: T -> bool, q: T -> bool)
    ensures Filter(Filter(xs, p), q) == Filter(Filter(xs, q), p)
  {
    if xs != [] {
      FilterCommute(xs[1..], p, q);
      var fp, fq := Filter(xs, p), Filter(xs, q);
      if p(xs[0]) {
        assert fp[0] == xs[0] && fp[1..] == Filter(xs[1..], p);
      } else {
        assert fp == Filter(xs[1..], p);
      }
      if q(xs[0]) {
        assert fq[0] == xs[0] && fq[1..] == Filter(xs[1..], q);
      } else {
        assert fq == Filter(xs[1..], q);
      }
    }
  }

  /** Nothing is dropped when every element is kept. */
  lemma {:induction false} FilterAll<T(!new)>(xs: seq<T>, keep: T -> bool)
    requires forall x :: x in xs ==> keep(x)
    ensures Filter(xs, keep) == xs
  {
    if xs != [] {
      FilterAll(xs[1..], keep);
    }
  }

  /** Everything is dropped when no element is kept. */
  lemma FilterNone<T(!new)>(xs: seq<T>, keep: T -> bool)
    requires forall x :: x in xs ==> !keep(x)
    ensures Filter(xs, keep) == []
  {
  }

  /** The frames of a list laid end to end: `pd.concat`. */
  function Concat<T>(frames: seq<seq<T>>): seq<T>
  {
    if frames == [] then [] else Concat(frames[..|frames| - 1]) + frames[|frames| - 1]
  }

  /** Concatenating a list with one more frame appends that frame's rows. */
  lemma ConcatAppend<T>(frames: seq<seq<T>>, f: seq<T>)
    ensures Concat(frames + [f]) == Concat(frames) + f
  {
    assert (frames + [f])[..|frames|] == frames;
  }

  /** `s` is strictly increasing when measured by `rank`. */
  ghost predicate IncreasingBy<T(!new)>(s: seq<T>, rank: T -> int)
  {
    forall i, j :: 0 <= i < j < |s| ==> rank(s[i]) < rank(s[j])
  }

  /** Two increasing sequences laid end to end are increasing when every
      element of the first ranks below every element of the second. */
  lemma IncreasingConcat<T(!new)>(a: seq<T>, b: seq<T>, rank: T -> int)
    requires IncreasingBy(a, rank) && IncreasingBy(b, rank)
    requires forall x, y :: x in a && y in b ==> rank(x) < rank(y)
    ensures IncreasingBy(a + b, rank)
  {
    var ab := a + b;
    forall i, j | 0 <= i < j < |ab| ensures rank(ab[i]) < rank(ab[j]) {
      if j < |a| {
        assert ab[i] == a[i] && ab[j] == a[j];
      } else if i >= |a| {
        assert ab[i] == b[i - |a|] && ab[j] == b[j - |a|];
      } else {
        assert ab[i] == a[i] && a[i] in a;
        assert ab[j] == b[j - |a|] && b[j - |a|] in b;
      }
    }
  }

  /** Filtering keeps an increasing sequence increasing. */
  lemma {:induction false} FilterIncreasing<T(!new)>(xs: seq<T>, keep: T -> bool, rank: T -> int)
    requires IncreasingBy(xs, rank)
    ensures IncreasingBy(Filter(xs, keep), rank)
  {
    if xs != [] {
      var rest := Filter(xs[1..], keep);
      assert IncreasingBy(xs[1..], rank) by {
        forall i, j | 0 <= i < j < |xs[1..]| ensures rank(xs[1..][i]) < rank(xs[1..][j]) {
          assert xs[1..][i] == xs[i + 1] && xs[1..][j] == xs[j + 1];
        }
      }
      FilterIncreasing(xs[1..], keep, rank);
      if keep(xs[0]) {
        forall x, y | x in [xs[0]] && y in rest ensures rank(x) < rank(y) {
          var j :| 0 <= j < |xs[1..]| && xs[1..][j] == y;
          assert xs[j + 1] == y;
        }
        IncreasingConcat([xs[0]], rest, rank);
      }
    }
  }
}
