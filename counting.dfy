/**
 The occurrence table `table(lst)` of the filter: a `collections.Counter`
 filled one item at a time. A Counter is an insertion-ordered dictionary, so
 it is modelled by its keys in insertion order together with the map from
 each key to its count; a missing key reads as zero.
 */
module Counting {

  datatype Counter<K> = Counter(keys: seq<K>, counts: map<K, nat>)
  {
    /** `c[x]`: the count of `x`, zero when `x` was never counted. */
    function Get(x: K): nat
    {
      if x in counts then counts[x] else 0
    }
  }

  /** Number of times `x` occurs in `xs`. */
  function Occurrences<K(==)>(xs: seq<K>, x: K): nat
  {
    multiset(xs)[x]
  }

  /** No value occurs twice in `s`. */
  ghost predicate Unique<K(!new)>(s: seq<K>)
  {
    forall x :: Occurrences(s, x) <= 1
  }

  /** The distinct items of `xs`, in order of first appearance. */
  function Distinct<K(==,!new)>(xs: seq<K>): (d: seq<K>)
    ensures forall x :: x in d <==> x in xs
    ensures Unique(d)
  {
    if xs == [] then []
    else
      var init, last := xs[..|xs| - 1], xs[|xs| - 1];
      assert xs == init + [last];
      var d := Distinct(init);
      if last in init then d
      else
        assert multiset(d + [last]) == multiset(d) + multiset{last};
        assert last !in d && multiset(d)[last] == 0;
        assert forall x :: Occurrences(d + [last], x) <= 1 by {
          forall x ensures Occurrences(d + [last], x) <= 1 {
            assert Occurrences(d, x) <= 1;
          }
        }
        d + [last]
  }

  /** Index of the first occurrence of `x` in `xs`; `|xs|` when there is none. */
  function FirstIndex<K(==)>(xs: seq<K>, x: K): (i: nat)
    ensures i <= |xs|
    ensures i < |xs| <==> x in xs
    ensures i < |xs| ==> xs[i] == x
    ensures forall j :: 0 <= j < i ==> xs[j] != x
  {
    if xs == [] then 0 else if xs[0] == x then 0 else 1 + FirstIndex(xs[1..], x)
  }

  lemma {:induction false} FirstIndexExtend<K>(xs: seq<K>, y: K, x: K)
    requires x in xs
    ensures FirstIndex(xs + [y], x) == FirstIndex(xs, x)
  {
    var i := FirstIndex(xs, x);
    var k := FirstIndex(xs + [y], x);
    assert (xs + [y])[i] == x;
    assert forall j :: 0 <= j < i ==> (xs + [y])[j] != x;
  }

  /** The keys of a Counter come in the order in which their items first appear. */
  lemma {:induction false} DistinctInFirstAppearanceOrder<K(!new)>(xs: seq<K>)
    ensures forall i, j :: 0 <= i < j < |Distinct(xs)| ==>
              FirstIndex(xs, Distinct(xs)[i]) < FirstIndex(xs, Distinct(xs)[j])
  {
    if xs != [] {
      var init, last := xs[..|xs| - 1], xs[|xs| - 1];
      assert xs == init + [last];
      DistinctInFirstAppearanceOrder(init);
      var d, d0 := Distinct(xs), Distinct(init);
      forall i, j | 0 <= i < j < |d|
        ensures FirstIndex(xs, d[i]) < FirstIndex(xs, d[j])
      {
        assert d[i] in init by { assert d[i] == d0[i]; }
        FirstIndexExtend(init, last, d[i]);
        if j < |d0| {
          FirstIndexExtend(init, last, d[j]);
        } else {
          assert d[j] == last && last !in init;
        }
      }
    }
  }

  /** The sum of the counts of `keys`. */
  function Tally<K>(keys: seq<K>, counts: map<K, nat>): nat
  {
    if keys == [] then 0
    else
      var last := keys[|keys| - 1];
      Tally(keys[..|keys| - 1], counts) + (if last in counts then counts[last] else 0)
  }

  lemma {:induction false} TallyAppend<K>(keys: seq<K>, k: K, counts: map<K, nat>)
    ensures Tally(keys + [k], counts) == Tally(keys, counts) + (if k in counts then counts[k] else 0)
  {
    assert (keys + [k])[..|keys|] == keys;
  }

  lemma {:induction false} TallyUnaffected<K>(keys: seq<K>, counts: map<K, nat>, k: K, v: nat)
    requires k !in keys
    ensures Tally(keys, counts[k := v]) == Tally(keys, counts)
  {
    if keys != [] {
      TallyUnaffected(keys[..|keys| - 1], counts, k, v);
    }
  }

  lemma {:induction false} TallyIncrement<K(!new)>(keys: seq<K>, counts: map<K, nat>, k: K)
    requires Unique(keys) && k in keys && k in counts
    ensures Tally(keys, counts[k := counts[k] + 1]) == Tally(keys, counts) + 1
  {
    var init, last := keys[..|keys| - 1], keys[|keys| - 1];
    assert keys == init + [last];
    assert multiset(keys) == multiset(init) + multiset{last};
    assert Unique(init) by {
      forall x ensures Occurrences(init, x) <= 1 {
        assert Occurrences(init, x) <= Occurrences(keys, x);
      }
    }
    if last == k {
      assert Occurrences(keys, k) == Occurrences(init, k) + 1;
      TallyUnaffected(init, counts, k, counts[k] + 1);
    } else {
      TallyIncrement(init, counts, k);
    }
  }

  /** `c` is the Counter of `xs`: its keys are the distinct items in order of
      first appearance, it counts each item as often as it occurs, and its
      counts add up to the length of `xs`. */
  ghost predicate Tallies<K(!new)>(xs: seq<K>, c: Counter<K>)
  {
    && c.keys == Distinct(xs)
    && (forall x :: x in c.counts <==> c.Get(x) > 0)
    && (forall x :: c.Get(x) == Occurrences(xs, x))
    && Tally(c.keys, c.counts) == |xs|
  }

  /** `c[x] += 1` turns the Counter of `xs` into the Counter of `xs + [x]`: a
      missing key reads as 0 and is inserted after the existing keys. */
  lemma CountOne<K(!new)>(xs: seq<K>, x: K, keys: seq<K>, counts: map<K, nat>)
    requires Tallies(xs, Counter(keys, counts))
    ensures Tallies(xs + [x], Counter(if x in counts then keys else keys + [x],
                                      counts[x := Counter(keys, counts).Get(x) + 1]))
  {
    var c := Counter(keys, counts);
    var c' := Counter(if x in counts then keys else keys + [x], counts[x := c.Get(x) + 1]);
    assert x in counts <==> x in keys by {
      assert c.Get(x) == Occurrences(xs, x);
    }
    assert c'.keys == Distinct(xs + [x]) by {
      DistinctSnoc(xs, x);
    }
    assert forall y :: c'.Get(y) == Occurrences(xs + [x], y) by {
      CountSnoc(xs, x, c);
    }
    assert Tally(c'.keys, c'.counts) == |xs + [x]| by {
      TallySnoc(keys, counts, x);
    }
  }

  lemma DistinctSnoc<K(!new)>(xs: seq<K>, x: K)
    ensures Distinct(xs + [x]) == if x in xs then Distinct(xs) else Distinct(xs) + [x]
  {
    var ys := xs + [x];
    assert ys[..|ys| - 1] == xs && ys[|ys| - 1] == x;
  }

  lemma TallySnoc<K(!new)>(keys: seq<K>, counts: map<K, nat>, x: K)
    requires Unique(keys) && (x in counts <==> x in keys)
    ensures Tally(if x in counts then keys else keys + [x], counts[x := Counter(keys, counts).Get(x) + 1])
            == Tally(keys, counts) + 1
  {
    var before := Counter(keys, counts).Get(x);
    if x in counts {
      TallyIncrement(keys, counts, x);
    } else {
      TallyAppend(keys, x, counts[x := before + 1]);
      TallyUnaffected(keys, counts, x, before + 1);
    }
  }

  lemma CountSnoc<K(!new)>(xs: seq<K>, x: K, c: Counter<K>)
    requires forall y :: c.Get(y) == Occurrences(xs, y)
    ensures forall y :: c.(counts := c.counts[x := c.Get(x) + 1]).Get(y) == Occurrences(xs + [x], y)
  {
    assert multiset(xs + [x]) == multiset(xs) + multiset{x};
    forall y ensures c.(counts := c.counts[x := c.Get(x) + 1]).Get(y) == Occurrences(xs + [x], y) {
      assert c.Get(y) == Occurrences(xs, y);
    }
  }

  /** `table(lst)`: count every item of `lst` in a Counter, one item at a time. */
  method Table<K(==,!new)>(lst: seq<K>) returns (c: Counter<K>)
    ensures c.keys == Distinct(lst)
    ensures forall x :: x in c.counts <==> x in lst
    ensures forall x :: c.Get(x) == Occurrences(lst, x)
    ensures Tally(c.keys, c.counts) == |lst|
  {
    var keys: seq<K> := [];
    var counts: map<K, nat> := map[];
    for i := 0 to |lst|
      invariant Tallies(lst[..i], Counter(keys, counts))
    {
      var x := lst[i];
      assert lst[..i + 1] == lst[..i] + [x];
      CountOne(lst[..i], x, keys, counts);
      var before := Counter(keys, counts).Get(x);
      if x !in counts {
        keys := keys + [x];
      }
      counts := counts[x := before + 1];
    }
    assert lst[..|lst|] == lst;
    c := Counter(keys, counts);
  }
}
