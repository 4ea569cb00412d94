/** The lookup pipeline of InferNetHOL.Clustering/Services/DataSource.cs:
    `CreateSSVContinuouisificationLookup` and the passes it runs after
    `GrowTree` (`NodesWithNeighbouringSSV`, `LookupValues` and the dictionary
    it fills). Every method is tied to a function on values, and the
    properties of the pipeline are proved about those functions. */
module SsvLookup {
  import opened Wrappers
  import opened Sequences
  import opened SsvScoring
  import opened SsvTree

  /** A record of the data set: a `string[]` whose identity, not its
      contents, decides membership in `Union`, `Intersect` and `Except`. */
  class Row {
    const Fields: seq<string>

    constructor (fields: seq<string>)
      ensures Fields == fields
    {
      Fields := fields;
    }
  }

  /** -------- Leaves as values -------- */

  /** What a list of leaf nodes holds, node by node. */
  function EntriesOf<F, X>(nodes: seq<SsvNode<F, X>>): (es: seq<Entry<F, X>>)
    reads nodes
    ensures |es| == |nodes|
    ensures forall i :: 0 <= i < |nodes| ==>
      es[i] == Entry(nodes[i].Feature, nodes[i].Data, nodes[i].SSVW)
  {
    seq(|nodes|, i reads nodes requires 0 <= i < |nodes| => Entry(nodes[i].Feature, nodes[i].Data, nodes[i].SSVW))
  }

  function WeightsOf<F, X>(es: seq<Entry<F, X>>): (w: seq<int>)
    ensures |w| == |es|
    ensures forall i :: 0 <= i < |es| ==> w[i] == es[i].ssvw
  {
    seq(|es|, i requires 0 <= i < |es| => es[i].ssvw)
  }

  predicate AllLeaves<F, X>(es: seq<Entry<F, X>>) {
    forall i :: 0 <= i < |es| ==> es[i].feature.Some?
  }

  /** The dictionary keys: the feature of every leaf. */
  function KeysOf<F, X>(es: seq<Entry<F, X>>): (k: seq<F>)
    requires AllLeaves(es)
    ensures |k| == |es|
    ensures forall i :: 0 <= i < |es| ==> Some(k[i]) == es[i].feature
  {
    seq(|es|, i requires 0 <= i < |es| => es[i].feature.value)
  }

  /** -------- LeafNodes on values -------- */

  function LeafEntry<F, X>(t: TreeValue<F, X>): Entry<F, X>
    requires t.LeafValue?
  {
    Entry(Some(t.feature), t.data, t.ssvw)
  }

  /** `LeafNodes(tree as ParentSSVNode)` enumerated to the end: the two
      children when both are leaves, a null dereference otherwise. */
  function LeafEntriesSpec<F, X>(t: TreeValue<F, X>): (r: Result<seq<Entry<F, X>>>)
    ensures r.Success? <==> t.NodeValue? && t.left.LeafValue? && t.right.LeafValue?
    ensures r.Failure? ==> r.error == NullReference
    ensures r.Success? ==> |r.value| == 2 && AllLeaves(r.value)
  {
    if t.NodeValue? && t.left.LeafValue? && t.right.LeafValue?
    then Success([LeafEntry(t.left), LeafEntry(t.right)])
    else Failure(NullReference)
  }

  /** Reordering never swaps at the top and leaves leaves as they are, so the
      leaves the pipeline reads are those of the tree as grown. */
  lemma ReorderKeepsLeafEntries<F, X>(t: TreeValue<F, X>)
    ensures LeafEntriesSpec(Reordered(t, Root)) == LeafEntriesSpec(t)
  {
    match t
    case LeafValue(_, _, _) =>
    case NodeValue(d, w, l, r) =>
      assert !SwapWanted(Root, l, r);
      if l.LeafValue? {
        assert Reordered(l, LeftChild) == l;
      }
      if r.LeafValue? {
        assert Reordered(r, RightChild) == r;
      }
  }

  /** `LeafNodes` on the top node, read back as values. */
  method TopLeaves<F, X>(tree: SsvNode<F, X>) returns (r: Result<seq<SsvNode<F, X>>>)
    requires tree.Valid()
    ensures r.Success? <==> LeafEntriesSpec(tree.Value()).Success?
    ensures r.Success? ==> EntriesOf(r.value) == LeafEntriesSpec(tree.Value()).value
    ensures r.Success? ==> r.value == [tree.Left, tree.Right]
    ensures r.Failure? ==> r.error == LeafEntriesSpec(tree.Value()).error
  {
    var parent := if tree.IsLeaf() then null else tree;
    r := LeafNodes(parent);
    if r.Success? {
      assert tree.Left.Valid() && tree.Right.Valid();
      assert tree.Value().left == tree.Left.Value();
      assert tree.Value().right == tree.Right.Value();
    }
  }

  /** -------- NodesWithNeighbouringSSV -------- */

  /** The pair a leaf's new weight is taken from: itself and its right
      neighbour, or, for the last leaf, its left neighbour and itself. */
  function PairStart(i: nat, n: nat): nat
    requires i < n && n >= 2
  {
    if i < n - 1 then i else n - 2
  }

  /** The score `NodesWithNeighbouringSSV` gives a pair of neighbours. */
  function PairScore<X(==)>(Dc: seq<X> -> seq<seq<X>>): (seq<X>, seq<X>) -> int {
    (a: seq<X>, b: seq<X>) => PairSSV(a, b, Dc)
  }

  /** The leaves `NodesWithNeighbouringSSV` yields, or the out-of-range index
      that `sourceArray[sourceArray.Length - 2]` raises on fewer than two,
      for a pair score `score`. */
  function NeighbourSpec<F, X>(es: seq<Entry<F, X>>, score: (seq<X>, seq<X>) -> int): (r: Result<seq<Entry<F, X>>>)
    ensures r.Success? <==> |es| >= 2
    ensures r.Failure? ==> r.error == IndexOutOfRange
    ensures r.Success? ==> |r.value| == |es|
    ensures r.Success? ==> forall i {:trigger r.value[i]} :: 0 <= i < |es| ==>
      r.value[i].feature == es[i].feature && r.value[i].data == es[i].data
  {
    if |es| < 2 then Failure(IndexOutOfRange)
    else
      Success(seq(|es|, i requires 0 <= i < |es| =>
        var k := PairStart(i, |es|);
        Entry(es[i].feature, es[i].data, score(es[k].data, es[k + 1].data))))
  }

  /** Every leaf but the last is weighed against its right neighbour. */
  lemma NeighbourWeights<F, X>(es: seq<Entry<F, X>>, score: (seq<X>, seq<X>) -> int)
    requires |es| >= 2
    ensures forall i {:trigger NeighbourSpec(es, score).value[i]} :: 0 <= i < |es| - 1 ==>
      NeighbourSpec(es, score).value[i].ssvw == score(es[i].data, es[i + 1].data)
  {
    var nb := NeighbourSpec(es, score).value;
    forall i {:trigger nb[i]} | 0 <= i < |es| - 1
      ensures nb[i].ssvw == score(es[i].data, es[i + 1].data)
    {
      assert PairStart(i, |es|) == i;
    }
  }

  /** The last leaf repeats the weight of the one before it. */
  lemma LastNeighbourWeight<F, X>(es: seq<Entry<F, X>>, score: (seq<X>, seq<X>) -> int)
    requires |es| >= 2
    ensures NeighbourSpec(es, score).value[|es| - 1].ssvw == NeighbourSpec(es, score).value[|es| - 2].ssvw
  {
    var n := |es|;
    assert PairStart(n - 1, n) == n - 2 && PairStart(n - 2, n) == n - 2;
  }

  /** Neighbours `k` and `k + 1` that share no record. */
  ghost predicate DisjointAt<F, X>(es: seq<Entry<F, X>>, k: nat)
    requires k + 1 < |es|
  {
    Elements(es[k].data) !! Elements(es[k + 1].data)
  }

  /** The new weight of one leaf, with one cluster per record. */
  lemma NeighbourWeightOfSingletons<F, X>(es: seq<Entry<F, X>>, i: nat)
    requires i < |es| && |es| >= 2
    requires DisjointAt(es, PairStart(i, |es|))
    ensures var k := PairStart(i, |es|);
      NeighbourSpec(es, PairScore(Singletons)).value[i].ssvw ==
        2 * (|Elements(es[k].data)| * |Elements(es[k + 1].data)|)
    ensures NeighbourSpec(es, PairScore(Singletons)).value[i].ssvw >= 0
  {
    var k := PairStart(i, |es|);
    PairSSVOfSingletons(es[k].data, es[k + 1].data);
    MulNonNegative(|Elements(es[k].data)|, |Elements(es[k + 1].data)|);
  }

  /** With one cluster per record and neighbours that share no record, every
      new weight is twice the product of the two sides' sizes, so none is
      negative. */
  lemma NeighbourWeightsOfSingletons<F, X>(es: seq<Entry<F, X>>)
    requires |es| >= 2
    requires forall k :: 0 <= k < |es| - 1 ==> DisjointAt(es, k)
    ensures forall i :: 0 <= i < |es| ==>
      var k := PairStart(i, |es|);
      NeighbourSpec(es, PairScore(Singletons)).value[i].ssvw ==
        2 * (|Elements(es[k].data)| * |Elements(es[k + 1].data)|)
    ensures NonNegative(WeightsOf(NeighbourSpec(es, PairScore(Singletons)).value))
  {
    forall i | 0 <= i < |es|
      ensures var k := PairStart(i, |es|);
        NeighbourSpec(es, PairScore(Singletons)).value[i].ssvw ==
          2 * (|Elements(es[k].data)| * |Elements(es[k + 1].data)|)
      ensures NeighbourSpec(es, PairScore(Singletons)).value[i].ssvw >= 0
    {
      NeighbourWeightOfSingletons(es, i);
    }
  }

  /** One new leaf of `NodesWithNeighbouringSSV`: the feature and records of
      `keep`, the score of the pair `left`, `right`. The pipeline's score is
      `PairScore(Dc)`, the `SSV` of the pair's union under `Dc`. */
  method NeighbourNode<F, X>(keep: SsvNode<F, X>, left: SsvNode<F, X>, right: SsvNode<F, X>, score: (seq<X>, seq<X>) -> int)
    returns (node: SsvNode<F, X>)
    requires keep.IsLeaf()
    ensures fresh(node) && node.IsLeaf() && node.Valid()
    ensures Entry(node.Feature, node.Data, node.SSVW) ==
      Entry(keep.Feature, keep.Data, score(left.Data, right.Data))
  {
    node := new SsvNode.Leaf(keep.Feature.value, keep.Data);
    node.SSVW := score(left.Data, right.Data);
  }

  /** One entry of `NeighbourSpec`. */
  lemma NeighbourAt<F, X>(es: seq<Entry<F, X>>, score: (seq<X>, seq<X>) -> int, i: nat)
    requires |es| >= 2 && i < |es|
    ensures var k := PairStart(i, |es|);
      NeighbourSpec(es, score).value[i] == Entry(es[i].feature, es[i].data, score(es[k].data, es[k + 1].data))
  {
  }

  /** Appending the leaf that carries the next entry extends the prefix. */
  lemma EntriesOfSnoc<F, X>(nodes: seq<SsvNode<F, X>>, node: SsvNode<F, X>, want: seq<Entry<F, X>>, i: nat)
    requires i < |want| && EntriesOf(nodes) == want[..i]
    requires Entry(node.Feature, node.Data, node.SSVW) == want[i]
    ensures EntriesOf(nodes + [node]) == want[..i + 1]
  {
    var got := EntriesOf(nodes + [node]);
    assert |got| == i + 1;
    forall k | 0 <= k < i + 1
      ensures got[k] == want[..i + 1][k]
    {
      if k < i {
        assert (nodes + [node])[k] == nodes[k];
        assert EntriesOf(nodes)[k] == want[k];
      }
    }
  }

  /** The loop of `NodesWithNeighbouringSSV`: a new leaf for every input
      leaf but the last, weighed against its right neighbour. */
  method NeighbourPrefix<F, X>(source: seq<SsvNode<F, X>>, score: (seq<X>, seq<X>) -> int)
    returns (nodes: seq<SsvNode<F, X>>)
    requires |source| >= 2
    requires forall i :: 0 <= i < |source| ==> source[i].IsLeaf()
    ensures EntriesOf(nodes) == NeighbourSpec(EntriesOf(source), score).value[..|source| - 1]
    ensures forall k :: 0 <= k < |nodes| ==> fresh(nodes[k]) && nodes[k].IsLeaf() && nodes[k].Valid()
  {
    var n := |source|;
    ghost var es := EntriesOf(source);
    ghost var want := NeighbourSpec(es, score).value;
    nodes := [];
    var i := 0;
    while i < n - 1
      invariant 0 <= i <= n - 1
      invariant |nodes| == i
      invariant forall k :: 0 <= k < i ==> fresh(nodes[k]) && nodes[k].IsLeaf() && nodes[k].Valid()
      invariant EntriesOf(nodes) == want[..i]
    {
      var node := NeighbourNode(source[i], source[i], source[i + 1], score);
      NeighbourAt(es, score, i);
      assert PairStart(i, n) == i;
      assert es[i].data == source[i].Data && es[i + 1].data == source[i + 1].Data;
      assert Entry(node.Feature, node.Data, node.SSVW) == want[i];
      EntriesOfSnoc(nodes, node, want, i);
      nodes := nodes + [node];
      i := i + 1;
    }
  }

  /** `NodesWithNeighbouringSSV(source, Dc)`, enumerated to the end: one new
      leaf per input leaf, each with the feature and records of its input and
      the score of the pair `PairStart` names; the pipeline passes the score
      `PairScore(Dc)`. */
  method NodesWithNeighbouringSSV<F, X>(source: seq<SsvNode<F, X>>, score: (seq<X>, seq<X>) -> int)
    returns (r: Result<seq<SsvNode<F, X>>>)
    requires forall i :: 0 <= i < |source| ==> source[i].IsLeaf()
    ensures r.Failure? <==> NeighbourSpec(EntriesOf(source), score).Failure?
    ensures r.Failure? ==> r.error == IndexOutOfRange
    ensures r.Success? ==> EntriesOf(r.value) == NeighbourSpec(EntriesOf(source), score).value
    ensures r.Success? ==> forall i :: 0 <= i < |r.value| ==>
      fresh(r.value[i]) && r.value[i].IsLeaf() && r.value[i].Valid()
  {
    var n := |source|;
    if n < 2 {
      // `sourceArray[sourceArray.Length - 2]` after the loop, which ran no
      // iteration.
      return Failure(IndexOutOfRange);
    }
    var nodes := NeighbourPrefix(source, score);
    ghost var es := EntriesOf(source);
    ghost var want := NeighbourSpec(es, score).value;
    var node := NeighbourNode(source[n - 1], source[n - 2], source[n - 1], score);
    NeighbourAt(es, score, n - 1);
    assert PairStart(n - 1, n) == n - 2;
    assert es[n - 2].data == source[n - 2].Data && es[n - 1].data == source[n - 1].Data;
    assert Entry(node.Feature, node.Data, node.SSVW) == want[n - 1];
    EntriesOfSnoc(nodes, node, want, n - 1);
    nodes := nodes + [node];
    assert want[..n] == want;
    return Success(nodes);
  }

  /** -------- LookupValues -------- */

  function Sum(w: seq<int>): int {
    if |w| == 0 then 0 else Sum(w[..|w| - 1]) + w[|w| - 1]
  }

  lemma SumSnoc(w: seq<int>, j: nat)
    requires j < |w|
    ensures Sum(w[..j + 1]) == Sum(w[..j]) + w[j]
  {
    assert w[..j + 1][..j] == w[..j];
  }

  /** How many weights the numerator loop `for (j = 0; j < i - 1; j++)` adds. */
  function NumCount(i: nat): nat {
    if i >= 1 then i - 1 else 0
  }

  /** The values `LookupValues` returns for leaf weights `w`: the sum of the
      first `i - 1` weights over the sum of all weights but the last, or the
      decimal division by zero when that sum is zero. No division happens
      when there are no leaves. */
  function LookupSpec(w: seq<int>): (r: Result<seq<real>>)
    ensures r.Failure? ==> r.error == DivideByZero
    ensures r.Success? ==> |r.value| == |w|
  {
    if |w| == 0 then Success([])
    else if Sum(w[..|w| - 1]) == 0 then Failure(DivideByZero)
    else
      var den := Sum(w[..|w| - 1]);
      Success(seq(|w|, i requires 0 <= i < |w| => Sum(w[..NumCount(i)]) as real / den as real))
  }

  /** One accumulation loop of `LookupValues`: the weights of the first
      `count` nodes added up from the front. */
  method SumWeights<F, X>(nodes: seq<SsvNode<F, X>>, count: nat) returns (sum: int)
    requires count <= |nodes|
    ensures sum == Sum(WeightsOf(EntriesOf(nodes))[..count])
  {
    ghost var w := WeightsOf(EntriesOf(nodes));
    sum := 0;
    var j := 0;
    while j < count
      invariant 0 <= j <= count
      invariant sum == Sum(w[..j])
    {
      SumSnoc(w, j);
      sum := sum + nodes[j].SSVW;
      j := j + 1;
    }
  }

  /** `LookupValues(nodes)`: the denominator over all weights but the last,
      then one numerator and one division per node, computing `LookupSpec`
      of the nodes' weights. */
  method LookupValues<F, X>(nodes: seq<SsvNode<F, X>>) returns (r: Result<seq<real>>)
    ensures r == LookupSpec(WeightsOf(EntriesOf(nodes)))
  {
    ghost var w := WeightsOf(EntriesOf(nodes));
    var n := |nodes|;
    var result := new real[n];
    var denSum := SumWeights(nodes, if n >= 1 then n - 1 else 0);
    var i := 0;
    while i < n
      invariant 0 <= i <= n
      invariant n >= 1 ==> denSum == Sum(w[..n - 1])
      invariant i > 0 ==> denSum != 0 && LookupSpec(w).Success?
      invariant i > 0 ==> result[..i] == LookupSpec(w).value[..i]
    {
      var numSum := SumWeights(nodes, NumCount(i));
      if denSum == 0 {
        return Failure(DivideByZero);
      }
      result[i] := numSum as real / denSum as real;
      assert result[i] == LookupSpec(w).value[i];
      assert result[..i + 1] == result[..i] + [result[i]];
      i := i + 1;
    }
    if n == 0 {
      return Success([]);
    }
    assert result[..] == result[..n];
    assert LookupSpec(w).value[..n] == LookupSpec(w).value;
    return Success(result[..]);
  }

  /** The first two leaves always get the value zero. */
  lemma LookupStartsAtZero(w: seq<int>)
    requires |w| >= 2 && LookupSpec(w).Success?
    ensures LookupSpec(w).value[0] == 0.0 && LookupSpec(w).value[1] == 0.0
  {
    assert w[..0] == [];
  }

  ghost predicate NonNegative(w: seq<int>) {
    forall i :: 0 <= i < |w| ==> w[i] >= 0
  }

  lemma {:induction false} SumNonNegative(w: seq<int>)
    requires NonNegative(w)
    ensures Sum(w) >= 0
    decreases |w|
  {
    if |w| > 0 {
      SumNonNegative(w[..|w| - 1]);
    }
  }

  /** Sums of non-negative weights grow with the prefix. */
  lemma {:induction false} SumMonotone(w: seq<int>, a: nat, b: nat)
    requires NonNegative(w) && a <= b <= |w|
    ensures Sum(w[..a]) <= Sum(w[..b])
    decreases b - a
  {
    if a < b {
      SumSnoc(w, b - 1);
      assert w[b - 1] >= 0;
      SumMonotone(w, a, b - 1);
    }
  }

  /** A sum of non-negative weights is zero exactly when every weight is. */
  lemma {:induction false} SumZeroIff(w: seq<int>)
    requires NonNegative(w)
    ensures Sum(w) == 0 <==> forall i :: 0 <= i < |w| ==> w[i] == 0
    decreases |w|
  {
    if |w| > 0 {
      var p := w[..|w| - 1];
      SumZeroIff(p);
      SumNonNegative(p);
      assert forall i :: 0 <= i < |p| ==> p[i] == w[i];
    }
  }

  /** With non-negative weights the lookup fails exactly when every weight
      but the last is zero. */
  lemma LookupFailsIff(w: seq<int>)
    requires NonNegative(w)
    ensures LookupSpec(w).Failure? <==> |w| >= 1 && forall i :: 0 <= i < |w| - 1 ==> w[i] == 0
  {
    if |w| >= 1 {
      var p := w[..|w| - 1];
      assert NonNegative(p);
      SumZeroIff(p);
      assert forall i :: 0 <= i < |p| ==> p[i] == w[i];
    }
  }

  /** With non-negative weights the values lie in [0, 1] and never decrease
      along the leaf order. */
  lemma LookupIsMonotoneInUnitInterval(w: seq<int>)
    requires NonNegative(w) && LookupSpec(w).Success?
    ensures forall i :: 0 <= i < |w| ==> 0.0 <= LookupSpec(w).value[i] <= 1.0
    ensures forall i, j :: 0 <= i <= j < |w| ==> LookupSpec(w).value[i] <= LookupSpec(w).value[j]
  {
    if |w| > 0 {
      var v := LookupSpec(w).value;
      var den := Sum(w[..|w| - 1]);
      SumMonotone(w, 0, |w| - 1);
      assert w[..0] == [];
      assert den > 0;
      forall i | 0 <= i < |w|
        ensures 0.0 <= v[i] <= 1.0
      {
        SumMonotone(w, 0, NumCount(i));
        SumMonotone(w, NumCount(i), |w| - 1);
        DivisionInUnitInterval(Sum(w[..NumCount(i)]), den);
      }
      forall i, j | 0 <= i <= j < |w|
        ensures v[i] <= v[j]
      {
        SumMonotone(w, NumCount(i), NumCount(j));
        DivisionMonotone(Sum(w[..NumCount(i)]), Sum(w[..NumCount(j)]), den);
      }
    }
  }

  /** Proof step of `LookupIsMonotoneInUnitInterval`: a part over the whole. */
  lemma DivisionInUnitInterval(a: int, d: int)
    requires 0 <= a <= d && d > 0
    ensures 0.0 <= a as real / d as real <= 1.0
  {
  }

  /** Proof step of `LookupIsMonotoneInUnitInterval`: a larger part, a larger ratio. */
  lemma DivisionMonotone(a: int, b: int, d: int)
    requires a <= b && d > 0
    ensures a as real / d as real <= b as real / d as real
  {
  }

  /** -------- The dictionary -------- */

  /** `result.Add(keys[i], values[i])` for every `i` in order: the map, or the
      exception of the first key added twice. */
  function AddAll<K, V>(keys: seq<K>, values: seq<V>): Result<map<K, V>>
    requires |keys| == |values|
    decreases |keys|
  {
    if |keys| == 0 then Success(map[])
    else
      var n := |keys| - 1;
      match AddAll(keys[..n], values[..n])
      case Failure(e) => Failure(e)
      case Success(m) => if keys[n] in m then Failure(DuplicateKey) else Success(m[keys[n] := values[n]])
  }

  /** The dictionary is filled exactly when no key repeats; it then maps each
      key to the value at its position and holds nothing else. */
  lemma {:induction false} AddAllMeaning<K, V>(keys: seq<K>, values: seq<V>)
    requires |keys| == |values|
    ensures AddAll(keys, values).Success? <==> NoDuplicates(keys)
    ensures AddAll(keys, values).Failure? ==> AddAll(keys, values).error == DuplicateKey
    ensures AddAll(keys, values).Success? ==>
      AddAll(keys, values).value.Keys == Elements(keys) &&
      forall i :: 0 <= i < |keys| ==> AddAll(keys, values).value[keys[i]] == values[i]
    decreases |keys|
  {
    if |keys| > 0 {
      var n := |keys| - 1;
      var p := keys[..n];
      AddAllMeaning(p, values[..n]);
      assert keys == p + [keys[n]];
      ElementsOfSnoc(p, keys[n]);
      if NoDuplicates(p) && keys[n] !in Elements(p) {
        assert NoDuplicates(keys) by {
          forall i, j | 0 <= i < j < |keys| ensures keys[i] != keys[j] {
            if j == n {
              assert keys[i] == p[i];
              assert p[i] in Elements(p);
            } else {
              assert keys[i] == p[i] && keys[j] == p[j];
            }
          }
        }
      }
      if !NoDuplicates(p) {
        assert !NoDuplicates(keys) by {
          var i, j :| 0 <= i < j < |p| && p[i] == p[j];
          assert keys[i] == keys[j];
        }
      }
      if keys[n] in Elements(p) {
        assert !NoDuplicates(keys) by {
          var i :| 0 <= i < |p| && p[i] == keys[n];
          assert keys[i] == keys[n];
        }
      }
      if AddAll(keys, values).Success? {
        var m := AddAll(p, values[..n]).value;
        forall i | 0 <= i < |keys|
          ensures AddAll(keys, values).value[keys[i]] == values[i]
        {
          if i < n {
            assert keys[i] == p[i] && values[i] == values[..n][i];
            assert keys[i] != keys[n];
          }
        }
      }
    }
  }

  /** -------- The pipeline -------- */

  /** `f = xs => xs[column]`, total: the pipeline only applies it once every
      record is known to have the column. */
  function FieldOf(column: int): Row -> string {
    (x: Row) => if 0 <= column < |x.Fields| then x.Fields[column] else ""
  }

  lemma FieldOfAt(column: int, x: Row)
    requires 0 <= column < |x.Fields|
    ensures FieldOf(column)(x) == x.Fields[column]
  {
  }

  predicate HasColumn(x: Row, column: int) {
    0 <= column < |x.Fields|
  }

  /** `records.Select(f).ToArray()`: the column of every record, or the
      out-of-range index of the first record too short for it. */
  function Column(records: seq<Row>, column: int): (r: Result<seq<string>>)
    ensures r.Success? <==> forall i :: 0 <= i < |records| ==> HasColumn(records[i], column)
    ensures r.Failure? ==> r.error == IndexOutOfRange
    ensures r.Success? ==> |r.value| == |records|
    ensures r.Success? ==> forall i :: 0 <= i < |records| ==> r.value[i] == records[i].Fields[column]
  {
    if forall i :: 0 <= i < |records| ==> HasColumn(records[i], column)
    then
      var features := seq(|records|, i requires 0 <= i < |records| => FieldOf(column)(records[i]));
      assert forall i :: 0 <= i < |records| ==> HasColumn(records[i], column) && features[i] == records[i].Fields[column] by {
        forall i | 0 <= i < |records|
          ensures HasColumn(records[i], column) && features[i] == records[i].Fields[column]
        {
          FieldOfAt(column, records[i]);
        }
      }
      Success(features)
    else Failure(IndexOutOfRange)
  }

  /** Lines 118-126 of the pipeline on the leaves it has collected: reweigh
      them by their neighbours, compute the values, fill the dictionary. */
  function LeavesLookupSpec(leaves: seq<Entry<string, Row>>, Dc: seq<Row> -> seq<seq<Row>>): Result<map<string, real>>
    requires AllLeaves(leaves)
  {
    match NeighbourSpec(leaves, PairScore(Dc))
    case Failure(e) => Failure(e)
    case Success(nb) =>
      match LookupSpec(WeightsOf(nb))
      case Failure(e) => Failure(e)
      case Success(values) => AddAll(KeysOf(nb), values)
  }

  /** Lines 116-126 of the pipeline on the picture of the grown tree. */
  function TreeLookupSpec(t: TreeValue<string, Row>, Dc: seq<Row> -> seq<seq<Row>>): Result<map<string, real>> {
    match LeafEntriesSpec(Reordered(t, Root))
    case Failure(e) => Failure(e)
    case Success(leaves) => LeavesLookupSpec(leaves, Dc)
  }

  /** The whole of `CreateSSVContinuouisificationLookup(records, column)`. */
  function CreateSpec(records: seq<Row>, column: int): Result<map<string, real>> {
    match Column(records, column)
    case Failure(e) => Failure(e)
    case Success(features) =>
      match GrowSpec(records, Singletons, FieldOf(column), features)
      case Failure(e) => Failure(e)
      case Success(t) => TreeLookupSpec(t, Singletons)
  }

  /** Since `GrowTree` always throws, the lookup never produces a dictionary:
      it fails on a record without the column, and otherwise on `First()` of
      an empty candidate list. */
  lemma CreateSpecAlwaysFails(records: seq<Row>, column: int)
    ensures CreateSpec(records, column) ==
      if forall i :: 0 <= i < |records| ==> HasColumn(records[i], column)
      then Failure(NoElements) else Failure(IndexOutOfRange)
  {
    if Column(records, column).Success? {
      GrowTreeAlwaysFails(records, Singletons, FieldOf(column), Column(records, column).value);
    }
  }

  /** The statements after `GrowTree`: reorder, collect the leaves, reweigh
      them by their neighbours, compute the values and fill the dictionary. */
  method LookupFromTree(tree: SsvNode<string, Row>, Dc: seq<Row> -> seq<seq<Row>>)
    returns (r: Result<map<string, real>>)
    requires tree.Valid() && tree.Parent == null
    modifies tree.Repr`Left, tree.Repr`Right
    ensures r == TreeLookupSpec(old(tree.Value()), Dc)
  {
    ghost var t := tree.Value();
    ReorderSSVNodes(tree);
    ReorderKeepsLeafEntries(t);
    var leafs :- TopLeaves(tree);
    r := LookupFromLeaves(leafs, Dc);
  }

  /** The statements after `LeafNodes`, on the two leaves it yields. */
  method LookupFromLeaves(leafs: seq<SsvNode<string, Row>>, Dc: seq<Row> -> seq<seq<Row>>)
    returns (r: Result<map<string, real>>)
    requires |leafs| == 2 && AllLeaves(EntriesOf(leafs))
    ensures r == LeavesLookupSpec(EntriesOf(leafs), Dc)
  {
    // Two leaves are always enough for the neighbour pass.
    var reweighed := NodesWithNeighbouringSSV(leafs, PairScore(Dc));
    assert reweighed.Success?;
    var nodes := reweighed.value;
    var values :- LookupValues(nodes);
    r := FillDictionary(nodes, values);
  }

  /** Once a prefix of the additions fails, the whole of them fails the same
      way. */
  lemma {:induction false} AddAllPrefixFails<K, V>(keys: seq<K>, values: seq<V>, i: nat)
    requires |keys| == |values| && i <= |keys|
    requires AddAll(keys[..i], values[..i]).Failure?
    ensures AddAll(keys, values) == AddAll(keys[..i], values[..i])
    decreases |keys| - i
  {
    if i < |keys| {
      var n := |keys| - 1;
      assert keys[..n][..i] == keys[..i] && values[..n][..i] == values[..i];
      AddAllPrefixFails(keys[..n], values[..n], i);
    } else {
      assert keys[..i] == keys && values[..i] == values;
    }
  }

  /** The loop `result.Add(leafs[i].Feature, values[i])` over every leaf. */
  method FillDictionary(leafs: seq<SsvNode<string, Row>>, values: seq<real>) returns (r: Result<map<string, real>>)
    requires AllLeaves(EntriesOf(leafs)) && |values| == |leafs|
    ensures r == AddAll(KeysOf(EntriesOf(leafs)), values)
  {
    ghost var keys := KeysOf(EntriesOf(leafs));
    var result: map<string, real> := map[];
    var i := 0;
    while i < |leafs|
      invariant 0 <= i <= |leafs|
      invariant AddAll(keys[..i], values[..i]) == Success(result)
    {
      assert keys[..i + 1][..i] == keys[..i];
      assert values[..i + 1][..i] == values[..i];
      var key := leafs[i].Feature.value;
      assert key == keys[i];
      if key in result {
        AddAllPrefixFails(keys, values, i + 1);
        return Failure(DuplicateKey);
      }
      result := result[key := values[i]];
      i := i + 1;
    }
    assert keys[..i] == keys && values[..i] == values;
    return Success(result);
  }

  /** `CreateSSVContinuouisificationLookup(records, column)`: clusters of one
      record each, the column as the feature of a record, and the tree grown
      from every record's feature. */
  method CreateSSVContinuouisificationLookup(records: seq<Row>, column: int) returns (r: Result<map<string, real>>)
    ensures r == CreateSpec(records, column)
  {
    var features :- Column(records, column);
    var tree := GrowTree(records, Singletons, FieldOf(column), features);
    if tree.Failure? {
      return Failure(tree.error);
    }
    r := LookupFromTree(tree.value, Singletons);
  }
}
