/** `GetDates` of InferNetHOL.CSharp.Tests/Program.cs, and its textually
    identical copy in InferNetHOL.CSharp/GaussianProcessExample.cs: the dates
    that occur in every group of dates.

    Dates are values of an arbitrary type T with equality. The `HashSet`
    union is enumerated in insertion order of first occurrences (which is
    what a .NET `HashSet` that never loses an element does), so the order of
    the result is that of the first occurrence of each date across the
    groups. */
module DateGroups {
  import opened Sequences

  /** `hashSets.All(hs => hs.Contains(item))`. */
  predicate InAll<T(==)>(groups: seq<seq<T>>, x: T) {
    forall i :: 0 <= i < |groups| ==> x in groups[i]
  }

  /** The dates of `candidates` that every group holds, in their order. */
  function KeepCommon<T(==)>(candidates: seq<T>, groups: seq<seq<T>>): (r: seq<T>)
    ensures |r| <= |candidates|
    decreases |candidates|
  {
    if |candidates| == 0 then []
    else
      var n := |candidates| - 1;
      KeepCommon(candidates[..n], groups) + (if InAll(groups, candidates[n]) then [candidates[n]] else [])
  }

  /** What `GetDates(groups)` returns: the union's dates, in the union's
      order, that every group holds. */
  function CommonDates<T(==)>(groups: seq<seq<T>>): seq<T> {
    KeepCommon(Dedup(Flatten(groups)), groups)
  }

  /** `GetDates(dateGroups)`: the `foreach` over the union that keeps each date
      every group contains. */
  method GetDates<T(==)>(groups: seq<seq<T>>) returns (result: seq<T>)
    ensures result == CommonDates(groups)
  {
    var hashSets := seq(|groups|, i requires 0 <= i < |groups| => Elements(groups[i]));
    var union := Dedup(Flatten(groups));
    result := [];
    var k := 0;
    while k < |union|
      invariant 0 <= k <= |union|
      invariant result == KeepCommon(union[..k], groups)
    {
      var item := union[k];
      assert union[..k + 1][..k] == union[..k];
      assert forall i :: 0 <= i < |groups| ==> (item in hashSets[i] <==> item in groups[i]);
      if forall i :: 0 <= i < |hashSets| ==> item in hashSets[i] {
        assert InAll(groups, item);
        result := result + [item];
      } else {
        assert !InAll(groups, item);
      }
      k := k + 1;
    }
    assert union[..k] == union;
  }

  lemma {:induction false} KeepCommonMembership<T>(candidates: seq<T>, groups: seq<seq<T>>, x: T)
    ensures x in KeepCommon(candidates, groups) <==> x in candidates && InAll(groups, x)
    decreases |candidates|
  {
    if |candidates| > 0 {
      var n := |candidates| - 1;
      KeepCommonMembership(candidates[..n], groups, x);
      assert candidates == candidates[..n] + [candidates[n]];
    }
  }

  lemma {:induction false} KeepCommonNoDuplicates<T>(candidates: seq<T>, groups: seq<seq<T>>)
    requires NoDuplicates(candidates)
    ensures NoDuplicates(KeepCommon(candidates, groups))
    decreases |candidates|
  {
    if |candidates| > 0 {
      var n := |candidates| - 1;
      var init := candidates[..n];
      assert NoDuplicates(init);
      KeepCommonNoDuplicates(init, groups);
      var kept := KeepCommon(init, groups);
      if InAll(groups, candidates[n]) {
        KeepCommonMembership(init, groups, candidates[n]);
        assert candidates[n] !in init;
        var r := kept + [candidates[n]];
        forall i, j | 0 <= i < j < |r| ensures r[i] != r[j] {
          if j == |kept| {
            assert r[i] == kept[i] && kept[i] in kept;
          } else {
            assert r[i] == kept[i] && r[j] == kept[j];
          }
        }
      } else {
        assert KeepCommon(candidates, groups) == kept;
      }
    }
  }

  /** A date is returned exactly when there is at least one group and every
      group holds it. */
  lemma CommonDatesMembership<T>(groups: seq<seq<T>>, x: T)
    ensures x in CommonDates(groups) <==> |groups| > 0 && forall i :: 0 <= i < |groups| ==> x in groups[i]
  {
    var union := Dedup(Flatten(groups));
    KeepCommonMembership(union, groups, x);
    FlattenMembership(groups, x);
    assert x in union <==> x in Elements(union);
    assert x in Flatten(groups) <==> x in Elements(Flatten(groups));
    if |groups| > 0 && InAll(groups, x) {
      assert x in groups[0];
    }
  }

  /** No date is returned twice. */
  lemma CommonDatesNoDuplicates<T>(groups: seq<seq<T>>)
    ensures NoDuplicates(CommonDates(groups))
  {
    KeepCommonNoDuplicates(Dedup(Flatten(groups)), groups);
  }

  /** No groups, or one empty group, give no dates. */
  lemma CommonDatesEmpty<T>(groups: seq<seq<T>>)
    ensures |groups| == 0 ==> CommonDates(groups) == []
    ensures (exists i :: 0 <= i < |groups| && groups[i] == []) ==> CommonDates(groups) == []
  {
    var r := CommonDates(groups);
    if |r| > 0 {
      CommonDatesMembership(groups, r[0]);
    }
  }
}
