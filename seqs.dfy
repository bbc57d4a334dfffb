/** Facts about sequences of indices and addresses shared by the scan and the
    refinement: order, distinctness, and the set of elements. */
module SeqFacts {

  /** Strictly increasing, hence free of repetitions. */
  predicate Increasing(s: seq<nat>) {
    forall i, j :: 0 <= i < j < |s| ==> s[i] < s[j]
  }

  /** Non-decreasing, the order a sort establishes. */
  predicate Sorted(s: seq<nat>) {
    forall i, j :: 0 <= i < j < |s| ==> s[i] <= s[j]
  }

  predicate Distinct(s: seq<nat>) {
    forall i, j :: 0 <= i < j < |s| ==> s[i] != s[j]
  }

  function Elements(s: seq<nat>): set<nat> {
    set x | x in s
  }

  /** A strictly increasing sequence has as many elements as its set. */
  lemma {:induction false} IncreasingCard(s: seq<nat>)
    requires Increasing(s)
    ensures |Elements(s)| == |s|
  {
    if s != [] {
      var init := s[..|s| - 1];
      IncreasingCard(init);
      assert Elements(s) == Elements(init) + {s[|s| - 1]};
      assert s[|s| - 1] !in Elements(init);
    }
  }

  /** In a sequence without repetitions every element occurs once. */
  lemma {:induction false} DistinctOccursOnce(s: seq<nat>, x: nat)
    requires Distinct(s)
    ensures multiset(s)[x] <= 1
  {
    if s != [] {
      var init := s[..|s| - 1];
      assert s == init + [s[|s| - 1]];
      DistinctOccursOnce(init, x);
      if x == s[|s| - 1] {
        assert x !in init;
      }
    }
  }

  /** Sorting a sequence without repetitions makes it strictly increasing and
      keeps its set of elements. */
  lemma SortedPermutationOfDistinct(sorted: seq<nat>, original: seq<nat>)
    requires Sorted(sorted) && Distinct(original)
    requires multiset(sorted) == multiset(original)
    ensures Increasing(sorted)
    ensures Elements(sorted) == Elements(original)
  {
    forall i, j | 0 <= i < j < |sorted| ensures sorted[i] < sorted[j] {
      if sorted[i] == sorted[j] {
        TwoOccurrences(sorted, i, j);
        DistinctOccursOnce(original, sorted[i]);
        assert false;
      }
    }
    forall x ensures x in sorted <==> x in original {
      assert x in sorted <==> x in multiset(sorted);
      assert x in original <==> x in multiset(original);
    }
  }

  /** A value found at two positions occurs at least twice. */
  lemma TwoOccurrences(s: seq<nat>, i: nat, j: nat)
    requires i < j < |s| && s[i] == s[j]
    ensures multiset(s)[s[i]] >= 2
  {
    var x, front := s[i], s[..j];
    assert s == front + [x] + s[j + 1..];
    assert front[i] == x;
  }

  /** The concatenation, in order, of `f` applied to each element of `xs`. */
  function ConcatMap<X>(f: X -> seq<nat>, xs: seq<X>): seq<nat>
  {
    if xs == [] then [] else ConcatMap(f, xs[..|xs| - 1]) + f(xs[|xs| - 1])
  }

  /** Concatenating the pieces of two sequences one after the other is
      concatenating the pieces of their concatenation. */
  lemma {:induction false} ConcatMapAppend<X>(f: X -> seq<nat>, xs: seq<X>, ys: seq<X>)
    ensures ConcatMap(f, xs + ys) == ConcatMap(f, xs) + ConcatMap(f, ys)
    decreases |ys|
  {
    if ys == [] {
      assert xs + ys == xs;
    } else {
      var init := ys[..|ys| - 1];
      ConcatMapAppend(f, xs, init);
      assert (xs + ys)[..|xs + ys| - 1] == xs + init;
      assert (xs + ys)[|xs + ys| - 1] == ys[|ys| - 1];
      var a, b, c := ConcatMap(f, xs), ConcatMap(f, init), f(ys[|ys| - 1]);
      assert ConcatMap(f, ys) == b + c;
      Associate(a, b, c);
    }
  }

  lemma Associate(a: seq<nat>, b: seq<nat>, c: seq<nat>)
    ensures (a + b) + c == a + (b + c)
  {
  }
}
