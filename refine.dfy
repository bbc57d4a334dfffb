/** `reduce_found_values`: the candidate list is narrowed in two phases.
    First every candidate is re-read and the index of each one whose read
    succeeds and differs from `value` is collected; then the collected
    indices are sorted and removed from the list from the highest down, so
    that no removal shifts an index still to be removed. */
module Refine {
  import opened Wrappers
  import opened TargetMemory
  import opened SeqFacts
  import Scan

  /** A candidate is marked for removal when its read succeeds and the value
      read differs from `value`; a candidate that cannot be read is kept. */
  predicate Marked<T(==)>(mem: Memory, address: nat, size: nat, decode: seq<Byte> -> T, value: T) {
    match ReadValue(mem, address, size, decode)
    case None => false
    case Some(x) => x != value
  }

  /** The indices phase one collects, as a set: the order in which the
      parallel workers push them is not part of the result. */
  ghost function MarkedIndices<T>(mem: Memory, found: seq<nat>, size: nat, decode: seq<Byte> -> T, value: T): set<nat> {
    set i | 0 <= i < |found| && Marked(mem, found[i], size, decode, value)
  }

  /** `s` without the elements at the positions in `marks`, the others kept in
      order: the complement subsequence. */
  function Without(s: seq<nat>, marks: set<nat>): seq<nat> {
    if s == [] then []
    else Without(s[..|s| - 1], marks) + (if |s| - 1 in marks then [] else [s[|s| - 1]])
  }

  /** The candidates that stay, as a filter over the list (a reference
      definition independent of positions). */
  function Survivors<T(==)>(mem: Memory, s: seq<nat>, size: nat, decode: seq<Byte> -> T, value: T): seq<nat> {
    if s == [] then []
    else
      var last := s[|s| - 1];
      Survivors(mem, s[..|s| - 1], size, decode, value) + (if Marked(mem, last, size, decode, value) then [] else [last])
  }

  /** `Vec::remove(i)`: the element at `i` goes, the later ones move down. */
  function RemoveAt(s: seq<nat>, i: nat): seq<nat>
    requires i < |s|
  {
    s[..i] + s[i + 1..]
  }

  /** The order in which the parallel workers of phase one finish: every
      index of the candidate list exactly once. */
  predicate IsSchedule(schedule: seq<nat>, n: nat) {
    Distinct(schedule)
    && (forall k :: 0 <= k < |schedule| ==> schedule[k] < n)
    && (forall i :: 0 <= i < n ==> i in schedule)
  }

  // ---------------------------------------------------------------------
  // The operation
  // ---------------------------------------------------------------------

  /** `par_sort` of the collected indices, in place. */
  method SortIndices(a: array<nat>)
    modifies a
    ensures Sorted(a[..])
    ensures multiset(a[..]) == old(multiset(a[..]))
  {
    var i := 0;
    while i < a.Length
      invariant 0 <= i <= a.Length
      invariant Sorted(a[..i])
      invariant multiset(a[..]) == old(multiset(a[..]))
    {
      InsertLast(a, i);
      i := i + 1;
    }
    assert a[..i] == a[..];
  }

  /** One pass of the sort: the element at `i` is swapped down into the
      sorted prefix before it. */
  method InsertLast(a: array<nat>, i: nat)
    requires i < a.Length && Sorted(a[..i])
    modifies a
    ensures Sorted(a[..i + 1])
    ensures multiset(a[..i + 1]) == old(multiset(a[..i + 1]))
    ensures a[i + 1..] == old(a[i + 1..])
    ensures multiset(a[..]) == old(multiset(a[..]))
  {
    ghost var start := a[..];
    InsertStart(a[..], i);
    var j := i;
    while j > 0 && a[j - 1] > a[j]
      invariant 0 <= j <= i
      invariant Inserting(a[..], i, j)
      invariant multiset(a[..i + 1]) == multiset(start[..i + 1])
      invariant a[i + 1..] == start[i + 1..]
    {
      ghost var s := a[..];
      a[j - 1], a[j] := a[j], a[j - 1];
      assert a[..] == s[j - 1 := s[j]][j := s[j - 1]];
      SwapStep(s, i, j);
      j := j - 1;
    }
    InsertDone(a[..], i, j);
    MultisetOfParts(a[..], start, i + 1);
  }

  /** While the element at `j` moves down: the first `i + 1` elements other
      than it are in order, and it is below everything after it. */
  predicate Inserting(s: seq<nat>, i: nat, j: nat) {
    j <= i < |s|
    && (forall p, q :: 0 <= p < q <= i && p != j && q != j ==> s[p] <= s[q])
    && (forall q :: j < q <= i ==> s[j] < s[q])
  }

  lemma InsertStart(s: seq<nat>, i: nat)
    requires i < |s| && Sorted(s[..i])
    ensures Inserting(s, i, i)
  {
    forall p, q | 0 <= p < q < i ensures s[p] <= s[q] {
      assert s[p] == s[..i][p] && s[q] == s[..i][q];
    }
  }

  lemma InsertStep(s: seq<nat>, i: nat, j: nat)
    requires Inserting(s, i, j) && 0 < j && s[j - 1] > s[j]
    ensures Inserting(s[j - 1 := s[j]][j := s[j - 1]], i, j - 1)
  {
  }

  /** One swap of the insertion loop moves the element down, keeps the first
      `i + 1` elements a permutation of themselves and leaves the rest alone. */
  lemma SwapStep(s: seq<nat>, i: nat, j: nat)
    requires Inserting(s, i, j) && 0 < j && s[j - 1] > s[j]
    ensures var t := s[j - 1 := s[j]][j := s[j - 1]];
            Inserting(t, i, j - 1)
            && multiset(t[..i + 1]) == multiset(s[..i + 1])
            && t[i + 1..] == s[i + 1..]
  {
    var t := s[j - 1 := s[j]][j := s[j - 1]];
    InsertStep(s, i, j);
    assert t[..i + 1] == s[..i + 1][j - 1 := s[j]][j := s[j - 1]];
    SwapKeepsMultiset(s[..i + 1], j - 1, j);
  }

  lemma SwapKeepsMultiset(s: seq<nat>, p: nat, q: nat)
    requires p < q < |s|
    ensures multiset(s[p := s[q]][q := s[p]]) == multiset(s)
  {
  }

  /** Equal prefixes up to permutation and equal suffixes make the whole a
      permutation. */
  lemma MultisetOfParts(s: seq<nat>, t: seq<nat>, k: nat)
    requires k <= |s| == |t|
    requires multiset(s[..k]) == multiset(t[..k]) && s[k..] == t[k..]
    ensures multiset(s) == multiset(t)
  {
    assert s == s[..k] + s[k..];
    assert t == t[..k] + t[k..];
  }

  lemma InsertDone(s: seq<nat>, i: nat, j: nat)
    requires Inserting(s, i, j) && (j == 0 || s[j - 1] <= s[j])
    ensures Sorted(s[..i + 1])
  {
  }

  /** The removal loop: the sorted indices, taken from the last to the first,
      each removed with `Vec::remove`. Every index is still in bounds when its
      turn comes, and the result is the complement subsequence. */
  method RemoveDescending(found: seq<nat>, indices: array<nat>) returns (reduced: seq<nat>)
    requires Increasing(indices[..])
    requires forall k :: 0 <= k < indices.Length ==> indices[k] < |found|
    ensures reduced == Without(found, Elements(indices[..]))
    ensures |reduced| == |found| - indices.Length
  {
    reduced := found;
    var j := indices.Length;
    assert Elements(indices[j..]) == {};
    WithoutNoneMarked(found, {});
    while j > 0
      invariant 0 <= j <= indices.Length
      invariant reduced == Without(found, Elements(indices[j..]))
      invariant |reduced| == |found| - (indices.Length - j)
    {
      j := j - 1;
      var index := indices[j];
      WithoutRemoveStep(found, Elements(indices[j + 1..]), index);
      reduced := reduced[..index] + reduced[index + 1..];
      assert Elements(indices[j..]) == Elements(indices[j + 1..]) + {index} by {
        assert indices[j..] == [index] + indices[j + 1..];
      }
    }
    assert indices[0..] == indices[..];
  }

  /** `reduce_found_values`: phase one re-reads every candidate, in the order
      `schedule` in which the parallel workers happen to run, and pushes the
      index of each marked one; phase two sorts the indices and removes them
      from the highest down. */
  method ReduceFoundValues<T(==)>(mem: Memory, found: seq<nat>, size: nat, decode: seq<Byte> -> T, value: T,
                                  schedule: seq<nat>)
    returns (reduced: seq<nat>)
    requires IsSchedule(schedule, |found|)
    ensures reduced == Without(found, MarkedIndices(mem, found, size, decode, value))
    ensures |reduced| == |found| - |MarkedIndices(mem, found, size, decode, value)|
  {
    var toRemove: seq<nat> := [];
    var k := 0;
    while k < |schedule|
      invariant 0 <= k <= |schedule|
      invariant Distinct(toRemove)
      invariant forall x :: x in toRemove
                  <==> x in schedule[..k] && x < |found| && Marked(mem, found[x], size, decode, value)
    {
      var index := schedule[k];
      var read := ReadValue(mem, found[index], size, decode);
      match read {
        case Some(x) =>
          if x != value {
            assert index !in schedule[..k];
            toRemove := toRemove + [index];
          }
        case None =>
      }
      assert schedule[..k + 1] == schedule[..k] + [index];
      k := k + 1;
    }
    assert schedule[..k] == schedule;
    assert Elements(toRemove) == MarkedIndices(mem, found, size, decode, value);

    var indices := new nat[|toRemove|](i requires 0 <= i < |toRemove| => toRemove[i]);
    assert indices[..] == toRemove;
    SortIndices(indices);
    SortedPermutationOfDistinct(indices[..], toRemove);
    IncreasingCard(indices[..]);
    forall k | 0 <= k < indices.Length ensures indices[k] < |found| {
      assert indices[k] in Elements(indices[..]);
    }
    reduced := RemoveDescending(found, indices);
  }

  // ---------------------------------------------------------------------
  // Lemmas about the complement subsequence
  // ---------------------------------------------------------------------

  /** With no marked position inside `s`, nothing is removed. */
  lemma {:induction false} WithoutNoneMarked(s: seq<nat>, marks: set<nat>)
    requires forall x :: x in marks ==> x >= |s|
    ensures Without(s, marks) == s
  {
    if s != [] {
      WithoutNoneMarked(s[..|s| - 1], marks);
    }
  }

  /** Only the marks inside `s` matter. */
  lemma {:induction false} WithoutOnlyInRange(s: seq<nat>, marks: set<nat>, others: set<nat>)
    requires forall i :: 0 <= i < |s| ==> (i in marks <==> i in others)
    ensures Without(s, marks) == Without(s, others)
  {
    if s != [] {
      WithoutOnlyInRange(s[..|s| - 1], marks, others);
    }
  }

  /** One step of the descending removal: when every index removed so far is
      above `m`, position `m` of the current list is still the original
      element `m`, so removing it there removes original position `m`. */
  lemma {:induction false} WithoutRemoveStep(s: seq<nat>, marks: set<nat>, m: nat)
    requires m < |s|
    requires forall x :: x in marks ==> x > m
    ensures m < |Without(s, marks)|
    ensures Without(s, marks + {m}) == RemoveAt(Without(s, marks), m)
  {
    var n := |s|;
    var init := s[..n - 1];
    if m == n - 1 {
      WithoutRemoveLast(s, marks);
    } else {
      WithoutRemoveStep(init, marks, m);
      var tail := if n - 1 in marks then [] else [s[n - 1]];
      var w := Without(init, marks);
      assert Without(s, marks) == w + tail;
      assert Without(s, marks + {m}) == Without(init, marks + {m}) + tail;
      RemoveAtAppend(w, tail, m);
    }
  }

  lemma WithoutRemoveLast(s: seq<nat>, marks: set<nat>)
    requires s != []
    requires forall x :: x in marks ==> x >= |s|
    ensures |s| - 1 < |Without(s, marks)|
    ensures Without(s, marks + {|s| - 1}) == RemoveAt(Without(s, marks), |s| - 1)
  {
    var init := s[..|s| - 1];
    WithoutNoneMarked(init, marks);
    WithoutNoneMarked(init, marks + {|s| - 1});
    WithoutNoneMarked(s, marks);
  }

  lemma RemoveAtAppend(w: seq<nat>, tail: seq<nat>, m: nat)
    requires m < |w|
    ensures RemoveAt(w + tail, m) == RemoveAt(w, m) + tail
  {
    assert (w + tail)[..m] == w[..m];
    assert (w + tail)[m + 1..] == w[m + 1..] + tail;
  }

  /** Descending removal of the marked indices keeps exactly the candidates
      that are unreadable or still hold `value`, in their original order. */
  lemma {:induction false} WithoutMarkedIsSurvivors<T>(mem: Memory, found: seq<nat>, size: nat, decode: seq<Byte> -> T, value: T)
    ensures Without(found, MarkedIndices(mem, found, size, decode, value)) == Survivors(mem, found, size, decode, value)
  {
    if found != [] {
      var init := found[..|found| - 1];
      WithoutMarkedIsSurvivors(mem, init, size, decode, value);
      forall i | 0 <= i < |init|
        ensures i in MarkedIndices(mem, found, size, decode, value) <==> i in MarkedIndices(mem, init, size, decode, value)
      {
        assert init[i] == found[i];
      }
      WithoutOnlyInRange(init, MarkedIndices(mem, found, size, decode, value), MarkedIndices(mem, init, size, decode, value));
    }
  }

  /** No survivor is marked. */
  lemma {:induction false} SurvivorsUnmarked<T>(mem: Memory, s: seq<nat>, size: nat, decode: seq<Byte> -> T, value: T)
    ensures forall x :: x in Survivors(mem, s, size, decode, value) ==> !Marked(mem, x, size, decode, value)
  {
    if s != [] {
      SurvivorsUnmarked(mem, s[..|s| - 1], size, decode, value);
    }
  }

  /** The complement subsequence holds exactly the elements at unmarked positions. */
  lemma {:induction false} WithoutMembership(s: seq<nat>, marks: set<nat>, x: nat)
    ensures x in Without(s, marks) <==> exists i :: 0 <= i < |s| && i !in marks && s[i] == x
  {
    if s != [] {
      var init := s[..|s| - 1];
      WithoutMembership(init, marks, x);
      assert forall i :: 0 <= i < |init| ==> init[i] == s[i];
    }
  }

  /** With the target unchanged, a second refinement with the same value
      removes nothing. */
  lemma ReduceIdempotent<T>(mem: Memory, found: seq<nat>, size: nat, decode: seq<Byte> -> T, value: T)
    ensures var once := Without(found, MarkedIndices(mem, found, size, decode, value));
            MarkedIndices(mem, once, size, decode, value) == {}
            && Without(once, MarkedIndices(mem, once, size, decode, value)) == once
  {
    var once := Without(found, MarkedIndices(mem, found, size, decode, value));
    WithoutMarkedIsSurvivors(mem, found, size, decode, value);
    SurvivorsUnmarked(mem, found, size, decode, value);
    assert forall i :: 0 <= i < |once| ==> once[i] in once;
    WithoutNoneMarked(once, {});
  }

  /** Refining right after a scan, with the target unchanged, removes nothing:
      every address the scan reported still reads back as `value`. */
  lemma ReduceAfterFindRemovesNothing<T>(mem: Memory, maps: string, size: nat, decode: seq<Byte> -> T, value: T)
    requires Scan.FindValueSpec(mem, maps, size, decode, value).Ok?
    ensures var found := Scan.FindValueSpec(mem, maps, size, decode, value).value;
            MarkedIndices(mem, found, size, decode, value) == {}
            && Without(found, MarkedIndices(mem, found, size, decode, value)) == found
  {
    var found := Scan.FindValueSpec(mem, maps, size, decode, value).value;
    Scan.FoundAddressesHoldValue(mem, maps, size, decode, value);
    assert forall i :: 0 <= i < |found| ==> found[i] in found;
    WithoutNoneMarked(found, {});
  }
}
