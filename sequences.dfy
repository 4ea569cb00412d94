/** Sequence facts shared by the modules of the model: the set of a
    sequence's elements, sequences without repetitions, LINQ `Distinct` and
    the concatenation of a sequence of sequences. */
module Sequences {

  /** The elements of a sequence, as a set. */
  function Elements<X(==)>(s: seq<X>): set<X> {
    set x | x in s
  }

  ghost predicate NoDuplicates<X>(s: seq<X>) {
    forall i, j :: 0 <= i < j < |s| ==> s[i] != s[j]
  }

  lemma ElementsOfConcat<X>(a: seq<X>, b: seq<X>)
    ensures Elements(a + b) == Elements(a) + Elements(b)
  {
    assert forall y :: y in a + b <==> y in a || y in b;
  }

  lemma ElementsOfSnoc<X>(s: seq<X>, x: X)
    ensures Elements(s + [x]) == Elements(s) + {x}
  {
    ElementsOfConcat(s, [x]);
  }

  /** A sequence without repetitions has as many elements as its length. */
  lemma {:induction false} NoDuplicatesCardinality<X>(s: seq<X>)
    requires NoDuplicates(s)
    ensures |Elements(s)| == |s|
  {
    if s != [] {
      var init := s[..|s| - 1];
      assert s == init + [s[|s| - 1]];
      assert NoDuplicates(init);
      NoDuplicatesCardinality(init);
      ElementsOfSnoc(init, s[|s| - 1]);
      assert s[|s| - 1] !in Elements(init);
    }
  }

  /** LINQ `Distinct`: the first occurrence of every element, in order. */
  function Dedup<X(==)>(s: seq<X>): (r: seq<X>)
    ensures NoDuplicates(r)
    ensures Elements(r) == Elements(s)
    ensures |r| <= |s|
  {
    if s == [] then []
    else
      var init, last := s[..|s| - 1], s[|s| - 1];
      var r0 := Dedup(init);
      assert s == init + [last];
      ElementsOfSnoc(init, last);
      ElementsOfSnoc(r0, last);
      if last in r0 then r0 else r0 + [last]
  }

  /** The multiset of a non-empty sequence: its head and the rest. */
  lemma MultisetOfCons<X>(s: seq<X>)
    requires s != []
    ensures multiset(s) == multiset{s[0]} + multiset(s[1..])
  {
    assert s == [s[0]] + s[1..];
  }

  lemma NoDuplicatesCons<X>(x: X, t: seq<X>)
    requires NoDuplicates(t) && x !in Elements(t)
    ensures NoDuplicates([x] + t)
  {
    var s := [x] + t;
    forall i, j | 0 <= i < j < |s| ensures s[i] != s[j] {
      assert s[j] == t[j - 1];
      if i > 0 { assert s[i] == t[i - 1]; }
    }
  }

  /** The lengths of `parts` added up. */
  function TotalLength<T>(parts: seq<seq<T>>): nat
    decreases |parts|
  {
    if |parts| == 0 then 0 else TotalLength(parts[..|parts| - 1]) + |parts[|parts| - 1]|
  }

  /** The sequences of `groups` one after another (`SelectMany`, or
      repeated `List.AddRange`). */
  function Flatten<T>(groups: seq<seq<T>>): (r: seq<T>)
    ensures |r| == TotalLength(groups)
    decreases |groups|
  {
    if |groups| == 0 then [] else Flatten(groups[..|groups| - 1]) + groups[|groups| - 1]
  }

  /** An element is in the flattened groups exactly when one of the sequences holds it. */
  lemma {:induction false} FlattenMembership<T>(groups: seq<seq<T>>, x: T)
    ensures x in Flatten(groups) <==> exists i :: 0 <= i < |groups| && x in groups[i]
    decreases |groups|
  {
    if |groups| > 0 {
      var n := |groups| - 1;
      var init := groups[..n];
      FlattenMembership(init, x);
      assert Flatten(groups) == Flatten(init) + groups[n];
      if x in Flatten(init) {
        var i :| 0 <= i < n && x in init[i];
        assert groups[i] == init[i];
      } else if x !in groups[n] {
        forall i | 0 <= i < |groups| ensures x !in groups[i] {
          if i < n {
            assert groups[i] == init[i];
          }
        }
      }
    }
  }

  /** The indices of the elements of `s` that satisfy `p`, in increasing
      order (an index loop that yields the matching `i`). */
  function IndicesWhere<T>(s: seq<T>, p: T -> bool): (r: seq<nat>)
    ensures |r| <= |s|
    ensures forall k :: 0 <= k < |r| ==> r[k] < |s| && p(s[r[k]])
    ensures forall k, l :: 0 <= k < l < |r| ==> r[k] < r[l]
    decreases |s|
  {
    if |s| == 0 then []
    else
      var n := |s| - 1;
      var init := IndicesWhere(s[..n], p);
      assert forall k :: 0 <= k < |init| ==> s[init[k]] == s[..n][init[k]];
      init + (if p(s[n]) then [n] else [])
  }

  /** Every index whose element satisfies `p` is listed. */
  lemma {:induction false} IndicesWhereComplete<T>(s: seq<T>, p: T -> bool, i: nat)
    requires i < |s| && p(s[i])
    ensures i in IndicesWhere(s, p)
    decreases |s|
  {
    var n := |s| - 1;
    if i < n {
      assert s[..n][i] == s[i];
      IndicesWhereComplete(s[..n], p, i);
    }
  }

  /** An index is listed exactly when its element satisfies `p`. */
  lemma IndicesWhereMembership<T>(s: seq<T>, p: T -> bool, i: nat)
    ensures i in IndicesWhere(s, p) <==> i < |s| && p(s[i])
  {
    if i < |s| && p(s[i]) {
      IndicesWhereComplete(s, p, i);
    }
  }

  /** Adding one element extends the list by its index when it satisfies `p`. */
  lemma IndicesWhereSnoc<T>(s: seq<T>, p: T -> bool, i: nat)
    requires i < |s|
    ensures IndicesWhere(s[..i + 1], p) == IndicesWhere(s[..i], p) + (if p(s[i]) then [i] else [])
  {
    assert s[..i + 1][..i] == s[..i];
  }
}
