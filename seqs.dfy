/** Facts about sequences used by several scripts' models. */
module Seqs {
  import opened Wrappers

  /** No element occurs twice. */
  predicate Distinct<T(==)>(s: seq<T>) {
    forall i, j :: 0 <= i < j < |s| ==> s[i] != s[j]
  }

  lemma DistinctCardinality<T>(s: seq<T>)
    requires Distinct(s)
    ensures |set x | x in s| == |s|
  {
    if s != [] {
      var last := s[|s| - 1];
      var init := s[..|s| - 1];
      DistinctCardinality(init);
      assert (set x | x in s) == (set x | x in init) + {last};
      assert last !in init;
    }
  }

  /** Each element is smaller than the next. */
  predicate Increasing(s: seq<nat>) {
    forall i, j :: 0 <= i < j < |s| ==> s[i] < s[j]
  }

  /** `[0, 1, ..., n - 1]` */
  function Range(n: nat): (r: seq<nat>)
    ensures |r| == n && forall i :: 0 <= i < n ==> r[i] == i
  {
    seq(n, i => i)
  }

  /** `order` lists each of `0 .. n - 1` exactly once, in some order. */
  predicate IsPermutation(order: seq<nat>, n: nat) {
    IndicesBelow(order, n) && multiset(order) == multiset(Range(n))
  }

  lemma PermutationLength(order: seq<nat>, n: nat)
    requires IsPermutation(order, n)
    ensures |order| == n
  {
    assert |multiset(order)| == |multiset(Range(n))|;
  }

  /** Every index in `order` is below `n`. */
  predicate IndicesBelow(order: seq<nat>, n: nat) {
    forall k :: 0 <= k < |order| ==> order[k] < n
  }

  /** `xs` taken in the order `order` lists its indices. */
  function Reorder<T>(xs: seq<T>, order: seq<nat>): (r: seq<T>)
    requires IndicesBelow(order, |xs|)
    ensures |r| == |order|
    ensures forall k :: 0 <= k < |order| ==> r[k] == xs[order[k]]
  {
    seq(|order|, k requires 0 <= k < |order| => xs[order[k]])
  }

  /** The values of the present elements, in order. */
  function Somes<T>(xs: seq<Option<T>>): (values: seq<T>)
    ensures |values| <= |xs|
  {
    if xs == [] then []
    else Somes(xs[..|xs| - 1]) + (if xs[|xs| - 1].Some? then [xs[|xs| - 1].value] else [])
  }

  lemma {:induction false} SomesConcat<T>(a: seq<Option<T>>, b: seq<Option<T>>)
    ensures Somes(a + b) == Somes(a) + Somes(b)
    decreases |b|
  {
    if b == [] {
      assert a + b == a;
    } else {
      assert (a + b)[..|a + b| - 1] == a + b[..|b| - 1];
      SomesConcat(a, b[..|b| - 1]);
    }
  }

  /** The number of present elements. */
  function CountSome<T>(xs: seq<Option<T>>): nat {
    if xs == [] then 0
    else CountSome(xs[..|xs| - 1]) + (if xs[|xs| - 1].Some? then 1 else 0)
  }

  lemma {:induction false} SomesLength<T>(xs: seq<Option<T>>)
    ensures |Somes(xs)| == CountSome(xs)
  {
    if xs != [] {
      SomesLength(xs[..|xs| - 1]);
    }
  }

  /** A sequence is its part before position `n`, its element there and its part after. */
  lemma SplitAt<T>(s: seq<T>, n: nat)
    requires n < |s|
    ensures s == s[..n] + [s[n]] + s[n + 1..]
  {
  }

  /** Removing the largest index from a permutation of `0 .. n - 1` leaves one of `0 .. n - 2`. */
  lemma RemoveLast(order: seq<nat>, n: nat, p: nat)
    requires IsPermutation(order, n)
    requires p < |order| && order[p] == n - 1
    ensures IsPermutation(order[..p] + order[p + 1..], n - 1)
    ensures forall k :: 0 <= k < |order| && k != p ==> order[k] < n - 1
  {
    var rest := order[..p] + order[p + 1..];
    SplitAt(order, p);
    assert Range(n) == Range(n - 1) + [n - 1];
    var lastIndex: multiset<nat> := multiset{n - 1};
    assert multiset(order) == multiset(rest) + lastIndex;
    assert multiset(Range(n)) == multiset(Range(n - 1)) + lastIndex;
    assert multiset(rest) == multiset(order) - lastIndex;
    forall k | 0 <= k < |rest| ensures rest[k] < n - 1 {
      assert rest[k] in multiset(rest);
      assert rest[k] in multiset(Range(n - 1));
    }
    forall k | 0 <= k < |order| && k != p ensures order[k] < n - 1 {
      if k < p {
        assert order[k] == rest[k];
      } else {
        assert order[k] == rest[k - 1];
      }
    }
  }

  /** A permutation of `0 .. n - 1` with `n > 0` contains `n - 1`. */
  lemma HasLast(order: seq<nat>, n: nat) returns (p: nat)
    requires IsPermutation(order, n) && n > 0
    ensures p < |order| && order[p] == n - 1
  {
    assert Range(n)[n - 1] == n - 1;
    assert n - 1 in multiset(order);
    p :| 0 <= p < |order| && order[p] == n - 1;
  }

  lemma ReorderConcat<T>(xs: seq<Option<T>>, a: seq<nat>, b: seq<nat>)
    requires forall k :: 0 <= k < |a| ==> a[k] < |xs|
    requires forall k :: 0 <= k < |b| ==> b[k] < |xs|
    ensures forall k :: 0 <= k < |a + b| ==> (a + b)[k] < |xs|
    ensures Reorder(xs, a + b) == Reorder(xs, a) + Reorder(xs, b)
  {
  }

  /** Indices below `n` pick the same elements from `xs` and from its first `n`. */
  lemma ReorderPrefix<T>(xs: seq<Option<T>>, n: nat, a: seq<nat>)
    requires n <= |xs|
    requires forall k :: 0 <= k < |a| ==> a[k] < n
    ensures Reorder(xs, a) == Reorder(xs[..n], a)
  {
  }

  /** Taking `results` in the order `before, last index, after`. */
  lemma ReorderSplice<T>(results: seq<Option<T>>, before: seq<nat>, after: seq<nat>)
    requires |results| > 0
    requires IndicesBelow(before, |results| - 1) && IndicesBelow(after, |results| - 1)
    ensures IndicesBelow(before + [|results| - 1] + after, |results|)
    ensures Reorder(results, before + [|results| - 1] + after) ==
      Reorder(results[..|results| - 1], before) + ([results[|results| - 1]] + Reorder(results[..|results| - 1], after))
    ensures Reorder(results[..|results| - 1], before + after) ==
      Reorder(results[..|results| - 1], before) + Reorder(results[..|results| - 1], after)
  {
    var n := |results|;
    var lastIndex: seq<nat> := [n - 1];
    assert before + [|results| - 1] + after == before + (lastIndex + after);
    ReorderConcat(results, lastIndex, after);
    ReorderConcat(results, before, lastIndex + after);
    ReorderPrefix(results, n - 1, before);
    ReorderPrefix(results, n - 1, after);
    ReorderConcat(results[..n - 1], before, after);
    assert Reorder(results, lastIndex) == [results[n - 1]];
  }

  /** Inserting one element adds its value, if any, to the multiset of values. */
  lemma SomesSplice<T>(a: seq<Option<T>>, x: Option<T>, b: seq<Option<T>>)
    ensures multiset(Somes(a + ([x] + b))) == multiset(Somes(a + b)) + multiset(Somes([x]))
  {
    SomesConcat(a, [x] + b);
    SomesConcat([x], b);
    SomesConcat(a, b);
  }

  lemma SomesSnoc<T>(xs: seq<Option<T>>)
    requires xs != []
    ensures Somes(xs) == Somes(xs[..|xs| - 1]) + Somes([xs[|xs| - 1]])
  {
    assert [xs[|xs| - 1]][..0] == [];
  }

  /**
   * The inductive step of `SomesReorder`: placing the last element between
   * two runs of earlier ones adds its value, if any, to the multiset.
   */
  lemma ReorderLastStep<T>(results: seq<Option<T>>, before: seq<nat>, after: seq<nat>)
    requires |results| > 0
    requires IndicesBelow(before, |results| - 1) && IndicesBelow(after, |results| - 1)
    requires multiset(Somes(Reorder(results[..|results| - 1], before + after))) ==
             multiset(Somes(results[..|results| - 1]))
    ensures IndicesBelow(before + [|results| - 1] + after, |results|)
    ensures multiset(Somes(Reorder(results, before + [|results| - 1] + after))) == multiset(Somes(results))
  {
    var n := |results|;
    ReorderSplice(results, before, after);
    SomesSplice(Reorder(results[..n - 1], before), results[n - 1], Reorder(results[..n - 1], after));
    SomesSnoc(results);
  }

  /**
   * Taking the elements in any order keeps the same present values, each
   * as many times.
   */
  lemma {:induction false} SomesReorder<T>(results: seq<Option<T>>, order: seq<nat>)
    requires IsPermutation(order, |results|)
    ensures multiset(Somes(Reorder(results, order))) == multiset(Somes(results))
    decreases |results|
  {
    var n := |results|;
    PermutationLength(order, n);
    if n == 0 {
      assert order == [];
    } else {
      var p := HasLast(order, n);
      var before, after := order[..p], order[p + 1..];
      RemoveLast(order, n, p);
      SomesReorder(results[..n - 1], before + after);
      assert forall k :: 0 <= k < |before| ==> before[k] == order[k];
      assert forall k :: 0 <= k < |after| ==> after[k] == order[p + 1 + k];
      ReorderLastStep(results, before, after);
      SplitAt(order, p);
    }
  }
}
