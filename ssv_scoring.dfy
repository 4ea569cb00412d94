/** The split filters and the split-quality score ("SSV") of the partition
    tree builder in InferNetHOL.Clustering/Services/DataSource.cs, together
    with the LINQ set operators they are written with.

    Records are values of an arbitrary type X whose equality is the identity
    the source compares with (the pipeline's records are arrays, so reference
    identity). `Intersect`, `Except` and `Union` deduplicate, so the counts
    below are cardinalities of sets of records. */
module SsvScoring {
  import opened Sequences


  /** LINQ `a.Union(b)`: the distinct elements of `a`, then those of `b` not in `a`. */
  function Union<X(==)>(a: seq<X>, b: seq<X>): (r: seq<X>)
    ensures NoDuplicates(r)
    ensures Elements(r) == Elements(a) + Elements(b)
  {
    ElementsOfConcat(a, b);
    Dedup(a + b)
  }

  /** The elements of `s` that are not in `e`, in order. */
  function Without<X(==)>(s: seq<X>, e: set<X>): (r: seq<X>)
    ensures Elements(r) == Elements(s) - e
    ensures NoDuplicates(s) ==> NoDuplicates(r)
    ensures |r| <= |s|
  {
    if s == [] then []
    else
      var rest := Without(s[1..], e);
      assert s == [s[0]] + s[1..];
      assert Elements(s) == {s[0]} + Elements(s[1..]);
      if s[0] in e then rest
      else
        assert Elements([s[0]] + rest) == {s[0]} + Elements(rest);
        [s[0]] + rest
  }

  /** LINQ `s.Except(excl)`: the distinct elements of `s` not in `excl`, in
      first-occurrence order. */
  function Except<X(==)>(s: seq<X>, excl: seq<X>): (r: seq<X>)
    ensures NoDuplicates(r)
    ensures Elements(r) == Elements(s) - Elements(excl)
  {
    Without(Dedup(s), Elements(excl))
  }

  /** `LS(f, s, data)`: the records whose feature is not `s`, in order. */
  function LS<X(==), F(==)>(f: X -> F, s: F, data: seq<X>): (r: seq<X>)
    ensures forall i :: 0 <= i < |r| ==> f(r[i]) != s
    ensures Elements(r) <= Elements(data)
    ensures |r| <= |data|
  {
    if data == [] then []
    else
      var head := if f(data[0]) != s then [data[0]] else [];
      var rest := LS(f, s, data[1..]);
      ElementsOfConcat([data[0]], data[1..]);
      ElementsOfConcat(head, rest);
      assert data == [data[0]] + data[1..];
      head + rest
  }

  /** `RS(f, s, data)`: the records whose feature is `s`, in order. */
  function RS<X(==), F(==)>(f: X -> F, s: F, data: seq<X>): (r: seq<X>)
    ensures forall i :: 0 <= i < |r| ==> f(r[i]) == s
    ensures Elements(r) <= Elements(data)
    ensures |r| <= |data|
  {
    if data == [] then []
    else
      var head := if f(data[0]) == s then [data[0]] else [];
      var rest := RS(f, s, data[1..]);
      ElementsOfConcat([data[0]], data[1..]);
      ElementsOfConcat(head, rest);
      assert data == [data[0]] + data[1..];
      head + rest
  }

  /** A record is in `LS` exactly when it is in `data` with another feature,
      and in `RS` exactly when it is in `data` with feature `s`. */
  lemma {:induction false} SplitMembership<X, F>(f: X -> F, s: F, data: seq<X>, x: X)
    ensures x in LS(f, s, data) <==> x in data && f(x) != s
    ensures x in RS(f, s, data) <==> x in data && f(x) == s
  {
    if data != [] {
      SplitMembership(f, s, data[1..], x);
      assert data == [data[0]] + data[1..];
    }
  }

  /** One record of `data` goes to the front of exactly one side. */
  lemma SplitStep<X, F>(f: X -> F, s: F, data: seq<X>)
    requires data != []
    ensures LS(f, s, data) == (if f(data[0]) != s then [data[0]] else []) + LS(f, s, data[1..])
    ensures RS(f, s, data) == (if f(data[0]) == s then [data[0]] else []) + RS(f, s, data[1..])
  {
  }

  /** `LS` and `RS` split `data` in two: every record goes to exactly one side,
      as often as it occurs in `data`. */
  lemma {:induction false} SplitPartitions<X, F>(f: X -> F, s: F, data: seq<X>)
    ensures |LS(f, s, data)| + |RS(f, s, data)| == |data|
    ensures multiset(LS(f, s, data)) + multiset(RS(f, s, data)) == multiset(data)
  {
    if data != [] {
      var rest := data[1..];
      SplitPartitions(f, s, rest);
      SplitStep(f, s, data);
      MultisetOfCons(data);
    }
  }

  /** `LS` keeps the order of `data`: filtering a concatenation is
      concatenating the filtered parts. */
  lemma {:induction false} LeftSplitKeepsOrder<X, F>(f: X -> F, s: F, a: seq<X>, b: seq<X>)
    ensures LS(f, s, a + b) == LS(f, s, a) + LS(f, s, b)
  {
    if a == [] {
      assert a + b == b;
    } else {
      assert (a + b)[1..] == a[1..] + b;
      LeftSplitKeepsOrder(f, s, a[1..], b);
      SplitStep(f, s, a);
      SplitStep(f, s, a + b);
    }
  }

  /** `RS` keeps the order of `data` in the same way. */
  lemma {:induction false} RightSplitKeepsOrder<X, F>(f: X -> F, s: F, a: seq<X>, b: seq<X>)
    ensures RS(f, s, a + b) == RS(f, s, a) + RS(f, s, b)
  {
    if a == [] {
      assert a + b == b;
    } else {
      assert (a + b)[1..] == a[1..] + b;
      RightSplitKeepsOrder(f, s, a[1..], b);
      SplitStep(f, s, a);
      SplitStep(f, s, a + b);
    }
  }

  lemma {:induction false} SplitKeepsNoDuplicates<X, F>(f: X -> F, s: F, data: seq<X>)
    requires NoDuplicates(data)
    ensures NoDuplicates(LS(f, s, data)) && NoDuplicates(RS(f, s, data))
  {
    if data != [] {
      var rest := data[1..];
      assert NoDuplicates(rest);
      SplitKeepsNoDuplicates(f, s, rest);
      assert data[0] !in Elements(rest);
      if f(data[0]) != s {
        NoDuplicatesCons(data[0], LS(f, s, rest));
      } else {
        NoDuplicatesCons(data[0], RS(f, s, rest));
      }
    }
  }

  /** `ls.Intersect(c).Count()`: how many distinct records of `ls` are in `c`. */
  function Overlap<X(==)>(ls: seq<X>, c: seq<X>): nat {
    |Elements(ls) * Elements(c)|
  }

  /** `rs.Except(c).Count()`: how many distinct records of `rs` are not in `c`. */
  function Outside<X(==)>(rs: seq<X>, c: seq<X>): nat {
    |Elements(rs) - Elements(c)|
  }

  /** The numerator sum of `SSV`: the sum over the clusters `c` of
      `|ls ∩ c| * |rs \ c|`. */
  function Nom<X(==)>(clusters: seq<seq<X>>, ls: seq<X>, rs: seq<X>): (r: int)
    ensures r >= 0
  {
    if clusters == [] then 0
    else Overlap(ls, clusters[0]) * Outside(rs, clusters[0]) + Nom(clusters[1..], ls, rs)
  }

  /** The subtracted sum of `SSV`: the sum over the clusters `c` of
      `min(|ls ∩ c|, |rs ∩ c|)`. */
  function Denom<X(==)>(clusters: seq<seq<X>>, ls: seq<X>, rs: seq<X>): (r: int)
    ensures r >= 0
  {
    if clusters == [] then 0
    else
      var a, b := Overlap(ls, clusters[0]), Overlap(rs, clusters[0]);
      (if a <= b then a else b) + Denom(clusters[1..], ls, rs)
  }

  /** A split with an empty side has nothing to separate: both sums are
      zero, whatever the clusters. */
  lemma {:induction false} EmptySideScoresZero<X>(clusters: seq<seq<X>>, ls: seq<X>, rs: seq<X>)
    requires ls == [] || rs == []
    ensures Nom(clusters, ls, rs) == 0 && Denom(clusters, ls, rs) == 0
  {
    if clusters != [] {
      EmptySideScoresZero(clusters[1..], ls, rs);
    }
  }

  /** `SSV(D, Dc, ls, rs)`, scored over the clusters `Dc(D)`. The source's
      decimal result is an integer: every term is a count. The subtracted sum
      is never negative, so the score is at most twice the first sum, and a
      split with an empty side scores zero. */
  function SSV<X(==)>(D: seq<X>, Dc: seq<X> -> seq<seq<X>>, ls: seq<X>, rs: seq<X>): (r: int)
    ensures r <= 2 * Nom(Dc(D), ls, rs)
    ensures ls == [] || rs == [] ==> r == 0
  {
    var clusters := Dc(D);
    assert ls == [] || rs == [] ==> Nom(clusters, ls, rs) == 0 && Denom(clusters, ls, rs) == 0 by {
      if ls == [] || rs == [] {
        EmptySideScoresZero(clusters, ls, rs);
      }
    }
    2 * Nom(clusters, ls, rs) - Denom(clusters, ls, rs)
  }

  /** The cluster function of the lookup pipeline: one cluster per record. */
  function Singletons<X(==)>(xs: seq<X>): (r: seq<seq<X>>)
    ensures |r| == |xs|
    ensures forall i :: 0 <= i < |xs| ==> r[i] == [xs[i]]
  {
    if xs == [] then [] else [[xs[0]]] + Singletons(xs[1..])
  }

  lemma OverlapWithSingleton<X>(a: seq<X>, d: X)
    ensures Overlap(a, [d]) == if d in a then 1 else 0
  {
    assert Elements([d]) == {d};
    if d in a {
      assert Elements(a) * {d} == {d};
    } else {
      assert Elements(a) * {d} == {};
    }
  }

  lemma OutsideOfSingleton<X>(a: seq<X>, d: X)
    requires d !in a
    ensures Outside(a, [d]) == |Elements(a)|
  {
    assert Elements([d]) == {d};
    assert Elements(a) - {d} == Elements(a);
  }

  lemma CommonCountStep<X>(D: seq<X>, ls: seq<X>)
    requires D != [] && D[0] !in D[1..]
    ensures |Elements(D) * Elements(ls)|
            == |Elements(D[1..]) * Elements(ls)| + (if D[0] in ls then 1 else 0)
  {
    var d, rest := D[0], D[1..];
    assert D == [d] + rest;
    ElementsOfConcat([d], rest);
    assert Elements([d]) == {d};
    if d in ls {
      assert Elements(D) * Elements(ls) == {d} + Elements(rest) * Elements(ls);
    } else {
      assert Elements(D) * Elements(ls) == Elements(rest) * Elements(ls);
    }
  }

  /** Proof step of `NomOfSingletons`: one more cluster adds one `m`. */
  lemma MulSucc(k: int, m: int)
    ensures (k + 1) * m == k * m + m
  {
  }

  /** Proof step of `NomOfSingletons`: a product of counts. */
  lemma MulNonNegative(a: nat, b: nat)
    ensures a * b >= 0
  {
  }

  lemma {:induction false} NomOfSingletons<X>(D: seq<X>, ls: seq<X>, rs: seq<X>)
    requires NoDuplicates(D)
    requires Elements(ls) !! Elements(rs)
    ensures Nom(Singletons(D), ls, rs) == |Elements(D) * Elements(ls)| * |Elements(rs)|
  {
    if D != [] {
      var d, rest := D[0], D[1..];
      assert NoDuplicates(rest);
      NomOfSingletons(rest, ls, rs);
      var cs := Singletons(D);
      assert cs[0] == [d] && cs[1..] == Singletons(rest);
      assert Nom(cs, ls, rs) == Overlap(ls, [d]) * Outside(rs, [d]) + Nom(Singletons(rest), ls, rs);
      assert d !in rest;
      CommonCountStep(D, ls);
      OverlapWithSingleton(ls, d);
      var k := |Elements(rest) * Elements(ls)|;
      var m := |Elements(rs)|;
      if d in ls {
        assert d !in rs;
        OutsideOfSingleton(rs, d);
        MulSucc(k, m);
      }
    }
  }

  lemma {:induction false} DenomOfSingletons<X>(D: seq<X>, ls: seq<X>, rs: seq<X>)
    requires Elements(ls) !! Elements(rs)
    ensures Denom(Singletons(D), ls, rs) == 0
  {
    if D != [] {
      DenomOfSingletons(D[1..], ls, rs);
      var cs := Singletons(D);
      assert cs[0] == [D[0]] && cs[1..] == Singletons(D[1..]);
      assert Elements([D[0]]) == {D[0]};
      if D[0] in Elements(ls) {
        assert Elements(rs) * {D[0]} == {};
      } else {
        assert Elements(ls) * {D[0]} == {};
      }
    }
  }

  /** With one cluster per record, a duplicate-free `D` and disjoint sides with
      `ls` drawn from `D`, the score is `2·|ls|·|rs|` (distinct counts). */
  lemma SSVOfSingletons<X>(D: seq<X>, ls: seq<X>, rs: seq<X>)
    requires NoDuplicates(D)
    requires Elements(ls) <= Elements(D)
    requires Elements(ls) !! Elements(rs)
    ensures SSV(D, Singletons, ls, rs) == 2 * (|Elements(ls)| * |Elements(rs)|)
  {
    NomOfSingletons(D, ls, rs);
    DenomOfSingletons(D, ls, rs);
    assert Elements(D) * Elements(ls) == Elements(ls);
    assert Nom(Singletons(D), ls, rs) == |Elements(ls)| * |Elements(rs)|;
  }

  /** The score of a candidate split as the pipeline computes it, with one
      cluster per record: twice the product of the two side lengths, so never
      negative. */
  lemma SplitScoreWithSingletons<X, F>(f: X -> F, s: F, D: seq<X>)
    requires NoDuplicates(D)
    ensures SSV(D, Singletons, LS(f, s, D), RS(f, s, D)) == 2 * (|LS(f, s, D)| * |RS(f, s, D)|)
    ensures SSV(D, Singletons, LS(f, s, D), RS(f, s, D)) >= 0
  {
    var ls, rs := LS(f, s, D), RS(f, s, D);
    SplitKeepsNoDuplicates(f, s, D);
    NoDuplicatesCardinality(ls);
    NoDuplicatesCardinality(rs);
    SSVOfSingletons(D, ls, rs);
    MulNonNegative(|ls|, |rs|);
  }
}
