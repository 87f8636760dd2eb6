/**
 * JavaScript's `Array.prototype.filter`, modelled on sequences.
 *
 * `Filter(s, keep)` is the fresh array that `s.filter(keep)` returns: the
 * elements of `s` for which `keep` holds, in the order they had in `s`.
 * The lemmas below are the facts about filtering that the todo list relies
 * on: what is kept, that the order is kept, idempotence, and that a
 * predicate and its negation split a sequence in two.
 */
module Arrays {

  /** The elements of `s` that satisfy `keep`, in their original order. */
  function Filter<T>(s: seq<T>, keep: T -> bool): (r: seq<T>)
    ensures |r| <= |s|
    ensures forall k :: 0 <= k < |r| ==> r[k] in s && keep(r[k])
    decreases |s|
  {
    if s == [] then []
    else (if keep(s[0]) then [s[0]] else []) + Filter(s[1..], keep)
  }

  /** The positions `from`, `from + 1`, ... of `s` whose element satisfies `keep`, in increasing order. */
  function KeptIndices<T>(s: seq<T>, keep: T -> bool, from: nat): (idx: seq<nat>)
    decreases |s| - from
  {
    if from >= |s| then []
    else (if keep(s[from]) then [from] else []) + KeptIndices(s, keep, from + 1)
  }

  ghost predicate Increasing(idx: seq<nat>)
  {
    forall j, k :: 0 <= j < k < |idx| ==> idx[j] < idx[k]
  }

  /** `sub` is `s` read at the increasing positions `idx`. */
  ghost predicate PicksOut<T>(sub: seq<T>, s: seq<T>, idx: seq<nat>)
  {
    && |idx| == |sub|
    && Increasing(idx)
    && forall k :: 0 <= k < |idx| ==> idx[k] < |s| && sub[k] == s[idx[k]]
  }

  /**
   * `sub` consists of exactly those elements of `s` that satisfy `keep`,
   * each taken once and in the order they stand in `s`.
   */
  ghost predicate SelectsInOrder<T>(sub: seq<T>, s: seq<T>, keep: T -> bool)
  {
    exists idx :: PicksOut(sub, s, idx) && forall i :: 0 <= i < |s| ==> (i in idx <==> keep(s[i]))
  }

  /** The kept positions from `from` on are increasing, in range, and exactly the positions whose element passes. */
  lemma {:induction false} KeptIndicesExact<T>(s: seq<T>, keep: T -> bool, from: nat)
    ensures var idx := KeptIndices(s, keep, from);
      && Increasing(idx)
      && (forall k :: 0 <= k < |idx| ==> from <= idx[k] < |s|)
      && (forall i :: from <= i < |s| ==> (i in idx <==> keep(s[i])))
    decreases |s| - from
  {
    if from < |s| {
      KeptIndicesExact(s, keep, from + 1);
      var rest := KeptIndices(s, keep, from + 1);
      var idx := KeptIndices(s, keep, from);
      if keep(s[from]) {
        assert idx == [from] + rest;
      } else {
        assert idx == rest;
      }
    }
  }

  /** The `k`-th element kept from `s[from..]` is the element of `s` at the `k`-th kept position. */
  lemma {:induction false} FilterAt<T>(s: seq<T>, keep: T -> bool, from: nat, k: nat)
    requires from <= |s| && k < |Filter(s[from..], keep)|
    ensures |KeptIndices(s, keep, from)| == |Filter(s[from..], keep)|
    ensures KeptIndices(s, keep, from)[k] < |s|
    ensures Filter(s[from..], keep)[k] == s[KeptIndices(s, keep, from)[k]]
    decreases |s| - from
  {
    KeptIndicesLength(s, keep, from);
    KeptIndicesExact(s, keep, from);
    var t := s[from..];
    assert t[1..] == s[from + 1..];
    var rest := KeptIndices(s, keep, from + 1);
    if keep(s[from]) {
      assert Filter(t, keep) == [s[from]] + Filter(s[from + 1..], keep);
      if k > 0 {
        FilterAt(s, keep, from + 1, k - 1);
      }
    } else {
      assert Filter(t, keep) == Filter(s[from + 1..], keep);
      FilterAt(s, keep, from + 1, k);
    }
  }

  /** As many positions are kept as elements. */
  lemma {:induction false} KeptIndicesLength<T>(s: seq<T>, keep: T -> bool, from: nat)
    requires from <= |s|
    ensures |KeptIndices(s, keep, from)| == |Filter(s[from..], keep)|
    decreases |s| - from
  {
    if from < |s| {
      KeptIndicesLength(s, keep, from + 1);
      assert s[from..][1..] == s[from + 1..];
    }
  }

  /** Filtering keeps exactly the elements that satisfy `keep`, in their order. */
  lemma FilterSelectsInOrder<T>(s: seq<T>, keep: T -> bool)
    ensures PicksOut(Filter(s, keep), s, KeptIndices(s, keep, 0))
    ensures SelectsInOrder(Filter(s, keep), s, keep)
  {
    KeptIndicesExact(s, keep, 0);
    KeptIndicesLength(s, keep, 0);
    assert s[0..] == s;
    forall k | 0 <= k < |Filter(s, keep)|
      ensures KeptIndices(s, keep, 0)[k] < |s| && Filter(s, keep)[k] == s[KeptIndices(s, keep, 0)[k]]
    {
      FilterAt(s, keep, 0, k);
    }
    var idx := KeptIndices(s, keep, 0);
    assert PicksOut(Filter(s, keep), s, idx);
    assert forall i :: 0 <= i < |s| ==> (i in idx <==> keep(s[i]));
  }

  /** Nothing that passes is lost: an element of `s` that satisfies `keep` is in the filtered sequence. */
  lemma {:induction false} FilterKeepsPassing<T>(s: seq<T>, keep: T -> bool)
    ensures forall x :: x in s && keep(x) ==> x in Filter(s, keep)
    decreases |s|
  {
    if s != [] {
      FilterKeepsPassing(s[1..], keep);
      assert forall x :: x in s ==> x == s[0] || x in s[1..];
    }
  }

  /** As many elements are kept from `s[from..]` as there are positions from `from` on whose element passes. */
  lemma {:induction false} FilterLengthFrom<T>(s: seq<T>, keep: T -> bool, from: nat)
    requires from <= |s|
    ensures |Filter(s[from..], keep)| == |set i | from <= i < |s| && keep(s[i])|
    decreases |s| - from
  {
    var passing := set i | from <= i < |s| && keep(s[i]);
    if from == |s| {
      assert passing == {};
    } else {
      FilterLengthFrom(s, keep, from + 1);
      var later := set i | from + 1 <= i < |s| && keep(s[i]);
      assert s[from..][1..] == s[from + 1..];
      if keep(s[from]) {
        assert passing == later + {from};
        assert from !in later;
      } else {
        assert passing == later;
      }
    }
  }

  /** The positions of `s` whose element satisfies `keep`. */
  function Passing<T>(s: seq<T>, keep: T -> bool): set<nat>
  {
    set i: nat | i < |s| && keep(s[i])
  }

  /** A filter keeps as many elements as there are positions whose element passes. */
  lemma FilterLength<T>(s: seq<T>, keep: T -> bool)
    ensures |Filter(s, keep)| == |Passing(s, keep)|
  {
    assert Passing(s, keep) == set i | 0 <= i < |s| && keep(s[i]);
    FilterLengthFrom(s, keep, 0);
    assert s[0..] == s;
  }

  /** Filtering an already filtered sequence with the same predicate changes nothing. */
  lemma {:induction false} FilterIdempotent<T>(s: seq<T>, keep: T -> bool)
    ensures Filter(Filter(s, keep), keep) == Filter(s, keep)
    decreases |s|
  {
    if s != [] {
      FilterIdempotent(s[1..], keep);
      var r := Filter(s, keep);
      if keep(s[0]) {
        assert r == [s[0]] + Filter(s[1..], keep);
        assert r[1..] == Filter(s[1..], keep);
        assert Filter(r, keep) == [s[0]] + Filter(r[1..], keep);
      } else {
        assert r == Filter(s[1..], keep);
      }
    }
  }

  /** A filter returns its input unchanged exactly when every element passes. */
  lemma {:induction false} FilterKeepsAll<T>(s: seq<T>, keep: T -> bool)
    ensures Filter(s, keep) == s <==> forall x :: x in s ==> keep(x)
    decreases |s|
  {
    if s != [] && forall x :: x in s ==> keep(x) {
      FilterKeepsAll(s[1..], keep);
      assert s == [s[0]] + s[1..];
    }
  }

  /** Two predicates that agree on every element of `s` filter it alike. */
  lemma {:induction false} FilterPointwise<T>(s: seq<T>, p: T -> bool, q: T -> bool)
    requires forall x :: x in s ==> p(x) == q(x)
    ensures Filter(s, p) == Filter(s, q)
    decreases |s|
  {
    if s != [] {
      FilterPointwise(s[1..], p, q);
    }
  }

  /**
   * A predicate and its negation split `s`: the two filtered sequences
   * together hold every element of `s` exactly as often as `s` does.
   */
  lemma {:induction false} FilterSplits<T>(s: seq<T>, p: T -> bool, q: T -> bool)
    requires forall x :: x in s ==> q(x) == !p(x)
    ensures multiset(Filter(s, p)) + multiset(Filter(s, q)) == multiset(s)
    ensures |Filter(s, p)| + |Filter(s, q)| == |s|
    decreases |s|
  {
    if s != [] {
      FilterSplits(s[1..], p, q);
      assert s == [s[0]] + s[1..];
    }
  }
}
