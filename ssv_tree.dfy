/** The partition tree of InferNetHOL.Clustering/Services/DataSource.cs: its
    mutable nodes, the greedy construction `GrowTree`, the in-place passes
    `SwapSiblings`, `ReorderSSVNodes` and `CalculateSSVW`, and `LeafNodes`.

    The source has two node classes (`LeafSSVNode` with a `Feature`,
    `ParentSSVNode` with `Left` and `Right`) behind one interface. Here they are
    one class whose constant `Feature` is `Some` exactly for leaves. Each
    method's effect on the heap is stated through `Value()`, the value-level
    picture of a subtree, and the properties of the passes are proved about
    pure functions on those pictures. */
module SsvTree {
  import opened Wrappers
  import opened Sequences
  import opened SsvScoring

  /** What a subtree holds, without node identity, parents or siblings. */
  datatype TreeValue<F, X> =
    | LeafValue(feature: F, data: seq<X>, ssvw: int)
    | NodeValue(data: seq<X>, ssvw: int, left: TreeValue<F, X>, right: TreeValue<F, X>)

  /** Where a node sits under its parent, as `ReorderSSVNodes` tests it. */
  datatype Role = Root | LeftChild | RightChild | Detached

  class SsvNode<F, X> {
    /** `Some(feature)` for a `LeafSSVNode`, `None` for a `ParentSSVNode`. */
    const Feature: Option<F>
    var Left: SsvNode?<F, X>
    var Right: SsvNode?<F, X>
    var Parent: SsvNode?<F, X>
    var Sibling: SsvNode?<F, X>
    var SSVW: int
    /** The records of the node; the source leaves it null on the top node,
        which nothing reads, and the model has the empty sequence there. */
    var Data: seq<X>
    ghost var Repr: set<SsvNode<F, X>>

    predicate IsLeaf() {
      Feature.Some?
    }

    /** A strict binary tree: every interior node has two children with
        disjoint footprints, and each child's `Parent` is that node. */
    ghost predicate Valid()
      reads this, Repr
      decreases Repr
    {
      this in Repr &&
      if Feature.Some? then
        Left == null && Right == null && Repr == {this}
      else
        Left != null && Right != null &&
        Left in Repr && Right in Repr &&
        Repr == {this} + Left.Repr + Right.Repr &&
        this !in Left.Repr && this !in Right.Repr &&
        Left.Repr !! Right.Repr &&
        Left.Parent == this && Right.Parent == this &&
        Left.Valid() && Right.Valid()
    }

    /** The picture of the subtree rooted here. */
    ghost function Value(): TreeValue<F, X>
      reads this, Repr
      requires Valid()
      decreases Repr
    {
      if Feature.Some? then LeafValue(Feature.value, Data, SSVW)
      else NodeValue(Data, SSVW, Left.Value(), Right.Value())
    }

    /** The two children of every interior node are each other's `Sibling`. */
    ghost predicate SiblingsLinked()
      reads this, Repr
      requires Valid()
      decreases Repr
    {
      Feature.None? ==>
        Left.Sibling == Right && Right.Sibling == Left &&
        Left.SiblingsLinked() && Right.SiblingsLinked()
    }

    /** `new LeafSSVNode { Feature = feature, Data = data }`. */
    constructor Leaf(feature: F, data: seq<X>)
      ensures Valid() && Repr == {this} && IsLeaf()
      ensures Value() == LeafValue(feature, data, 0)
      ensures Parent == null && Sibling == null
    {
      Feature := Some(feature);
      Left, Right, Parent, Sibling := null, null, null, null;
      SSVW := 0;
      Data := data;
      Repr := {this};
    }

    /** `new ParentSSVNode { Right = right, Left = left }`; the children's
        `Parent` is set by the caller. */
    constructor Interior(left: SsvNode<F, X>, right: SsvNode<F, X>)
      ensures Feature == None && Left == left && Right == right
      ensures Parent == null && Sibling == null && SSVW == 0 && Data == []
      ensures Repr == {this} + left.Repr + right.Repr
    {
      Feature := None;
      Left, Right, Parent, Sibling := left, right, null, null;
      SSVW := 0;
      Data := [];
      Repr := {this} + left.Repr + right.Repr;
    }
  }

  /** A node reference that is a leaf (`node as LeafSSVNode` is not null). */
  predicate IsLeafNode<F, X>(n: SsvNode?<F, X>) {
    n != null && n.IsLeaf()
  }

  /** -------- SwapSiblings -------- */

  /** The picture with the two children of the top node exchanged. */
  function Swapped<F, X>(t: TreeValue<F, X>): TreeValue<F, X> {
    match t
    case LeafValue(_, _, _) => t
    case NodeValue(d, w, l, r) => NodeValue(d, w, r, l)
  }

  /** Swapping twice restores the node. */
  lemma SwappedTwice<F, X>(t: TreeValue<F, X>)
    ensures Swapped(Swapped(t)) == t
  {
  }

  /** `SwapSiblings(parent)`: exchanges `Left` and `Right` and nothing else. */
  method SwapSiblings<F, X>(parent: SsvNode<F, X>)
    requires !parent.IsLeaf()
    modifies parent`Left, parent`Right
    ensures parent.Left == old(parent.Right) && parent.Right == old(parent.Left)
    ensures old(parent.Valid()) ==> parent.Valid() && parent.Value() == Swapped(old(parent.Value()))
  {
    var tempNode := parent.Left;
    parent.Left := parent.Right;
    parent.Right := tempNode;
  }

  /** -------- ReorderSSVNodes -------- */

  /** The role `ReorderSSVNodes` finds for `n` by comparing it with its
      parent's children. */
  ghost function RoleOf<F, X>(n: SsvNode<F, X>): Role
    reads n, n.Parent
  {
    if n.Parent == null then Root
    else if n == n.Parent.Left then LeftChild
    else if n == n.Parent.Right then RightChild
    else Detached
  }

  /** Whether `ReorderSSVNodes` swaps the children `l`, `r` of a node with the
      given role: a left child wants the larger weight on the left, a right
      child on the right, and the top node is never swapped. */
  predicate SwapWanted<F, X>(role: Role, l: TreeValue<F, X>, r: TreeValue<F, X>) {
    (role == LeftChild && l.ssvw < r.ssvw) || (role == RightChild && l.ssvw > r.ssvw)
  }

  /** The picture after `ReorderSSVNodes` on a node with role `role`: a local
      swap, then the same pass on both (possibly swapped) children. */
  function Reordered<F, X>(t: TreeValue<F, X>, role: Role): (r: TreeValue<F, X>)
    ensures r.ssvw == t.ssvw && r.data == t.data && r.LeafValue? == t.LeafValue?
  {
    match t
    case LeafValue(_, _, _) => t
    case NodeValue(d, w, l, r) =>
      if SwapWanted(role, l, r) then NodeValue(d, w, Reordered(r, LeftChild), Reordered(l, RightChild))
      else NodeValue(d, w, Reordered(l, LeftChild), Reordered(r, RightChild))
  }

  /** The order `ReorderSSVNodes` aims at: below the top node, an interior
      node that is a left child has `Left.SSVW >= Right.SSVW`, one that is a
      right child has `Left.SSVW <= Right.SSVW`. */
  ghost predicate Ordered<F, X>(t: TreeValue<F, X>, role: Role) {
    match t
    case LeafValue(_, _, _) => true
    case NodeValue(_, _, l, r) =>
      (role == LeftChild ==> l.ssvw >= r.ssvw) &&
      (role == RightChild ==> l.ssvw <= r.ssvw) &&
      Ordered(l, LeftChild) && Ordered(r, RightChild)
  }

  lemma {:induction false} ReorderedIsOrdered<F, X>(t: TreeValue<F, X>, role: Role)
    ensures Ordered(Reordered(t, role), role)
  {
    match t
    case LeafValue(_, _, _) =>
    case NodeValue(d, w, l, r) =>
      ReorderedIsOrdered(l, LeftChild);
      ReorderedIsOrdered(l, RightChild);
      ReorderedIsOrdered(r, LeftChild);
      ReorderedIsOrdered(r, RightChild);
  }

  /** What a node holds apart from its children. */
  datatype Entry<F, X> = Entry(feature: Option<F>, data: seq<X>, ssvw: int)

  /** Every node of a picture, as a multiset of entries. */
  ghost function Entries<F, X>(t: TreeValue<F, X>): multiset<Entry<F, X>> {
    match t
    case LeafValue(f, d, w) => multiset{Entry(Some(f), d, w)}
    case NodeValue(d, w, l, r) => multiset{Entry(None, d, w)} + Entries(l) + Entries(r)
  }

  /** Reordering moves whole subtrees: every node keeps its feature, records
      and weight, and no node is lost or added. */
  lemma {:induction false} ReorderedKeepsEntries<F, X>(t: TreeValue<F, X>, role: Role)
    ensures Entries(Reordered(t, role)) == Entries(t)
  {
    match t
    case LeafValue(_, _, _) =>
    case NodeValue(d, w, l, r) =>
      ReorderedKeepsEntries(l, LeftChild);
      ReorderedKeepsEntries(l, RightChild);
      ReorderedKeepsEntries(r, LeftChild);
      ReorderedKeepsEntries(r, RightChild);
  }

  ghost predicate AllWeights<F, X>(t: TreeValue<F, X>, w: int) {
    match t
    case LeafValue(_, _, v) => v == w
    case NodeValue(_, v, l, r) => v == w && AllWeights(l, w) && AllWeights(r, w)
  }

  /** With every weight equal, as in a tree that `CalculateSSVW` never
      visited, reordering changes nothing. */
  lemma {:induction false} ReorderedEqualWeights<F, X>(t: TreeValue<F, X>, role: Role, w: int)
    requires AllWeights(t, w)
    ensures Reordered(t, role) == t
  {
    match t
    case LeafValue(_, _, _) =>
    case NodeValue(d, v, l, r) =>
      ReorderedEqualWeights(l, LeftChild, w);
      ReorderedEqualWeights(r, RightChild, w);
  }

  /** The local step of `ReorderSSVNodes` at an interior node: the swap its
      role asks for, if any. */
  method SwapIfWanted<F, X>(node: SsvNode<F, X>)
    requires node.Valid() && !node.IsLeaf()
    requires node.Parent != null ==> node.Parent !in node.Repr && node.Parent.Left != node.Parent.Right
    modifies node`Left, node`Right
    ensures node.Valid()
    ensures node.Value() ==
      if SwapWanted(old(RoleOf(node)), old(node.Left.Value()), old(node.Right.Value()))
      then Swapped(old(node.Value())) else old(node.Value())
    ensures node.Parent == null ==> node.Left == old(node.Left) && node.Right == old(node.Right)
  {
    if node.Parent != null {
      if node == node.Parent.Left {
        if node.Left.SSVW < node.Right.SSVW {
          SwapSiblings(node);
        }
      }
      if node == node.Parent.Right {
        if node.Left.SSVW > node.Right.SSVW {
          SwapSiblings(node);
        }
      }
    }
  }

  /** A subtree none of whose nodes changed keeps its shape and picture. */
  twostate lemma KeepsPicture<F, X>(n: SsvNode<F, X>)
    requires old(n.Valid()) && unchanged(old(n.Repr))
    ensures n.Valid() && n.Value() == old(n.Value())
    ensures n.SiblingsLinked() == old(n.SiblingsLinked())
  {
  }

  /** An interior node that did not change, over two subtrees that are still
      valid with the same footprints, is valid, and its picture joins theirs. */
  twostate lemma Rejoin<F, X>(n: SsvNode<F, X>)
    requires old(n.Valid()) && !n.IsLeaf() && unchanged(n)
    requires n.Left.Valid() && n.Right.Valid()
    requires n.Left.Repr == old(n.Left.Repr) && n.Right.Repr == old(n.Right.Repr)
    requires n.Left.Parent == n && n.Right.Parent == n
    ensures n.Valid() && n.Value() == NodeValue(n.Data, n.SSVW, n.Left.Value(), n.Right.Value())
  {
  }

  /** `ReorderSSVNodes(node)`: visits the subtree top-down and swaps the
      children of a non-top interior node whose weights are in the wrong order
      for its role. Only `Left` and `Right` fields change. */
  method ReorderSSVNodes<F, X>(node: SsvNode<F, X>)
    requires node.Valid()
    requires node.Parent != null ==> node.Parent !in node.Repr && node.Parent.Left != node.Parent.Right
    modifies node.Repr`Left, node.Repr`Right
    ensures node.Valid()
    ensures node.Value() == Reordered(old(node.Value()), old(RoleOf(node)))
    ensures node.Parent == null ==> node.Left == old(node.Left) && node.Right == old(node.Right)
    decreases node.Repr, 1
  {
    if !node.IsLeaf() {
      SwapIfWanted(node);
      ReorderChildren(node);
    }
  }

  /** Lines 233-234 of `ReorderSSVNodes`: the pass on the left child, then on
      the right one. The node's own fields stay as they are. */
  method ReorderChildren<F, X>(node: SsvNode<F, X>)
    requires node.Valid() && !node.IsLeaf()
    modifies (node.Left.Repr + node.Right.Repr)`Left, (node.Left.Repr + node.Right.Repr)`Right
    ensures node.Valid()
    ensures node.Value() ==
      NodeValue(node.Data, node.SSVW, Reordered(old(node.Left.Value()), LeftChild), Reordered(old(node.Right.Value()), RightChild))
    decreases node.Repr, 0
  {
    ghost var L, R := node.Left, node.Right;
    label BeforeLeft:
    ReorderSSVNodes(node.Left);
    KeepsPicture@BeforeLeft(R);
    label BeforeRight:
    ReorderSSVNodes(node.Right);
    KeepsPicture@BeforeRight(L);
    Rejoin(node);
  }

  /** -------- CalculateSSVW -------- */

  /** The weight `CalculateSSVW` gives a node whose parent has a sibling
      `ps`: the score of splitting `node.Data ∪ ps.Data` into the two. */
  function PairSSV<X(==)>(a: seq<X>, b: seq<X>, Dc: seq<X> -> seq<seq<X>>): int {
    SSV(Union(a, b), Dc, a, b)
  }

  /** With one cluster per record, two record sets with nothing in common
      score twice the product of their sizes. */
  lemma PairSSVOfSingletons<X>(a: seq<X>, b: seq<X>)
    requires Elements(a) !! Elements(b)
    ensures PairSSV(a, b, Singletons) == 2 * (|Elements(a)| * |Elements(b)|)
  {
    SSVOfSingletons(Union(a, b), a, b);
  }

  /** The first step of `CalculateSSVW`: the weight of `node` itself. */
  method SetOwnSSVW<F, X(==)>(node: SsvNode<F, X>, Dc: seq<X> -> seq<seq<X>>)
    requires node.Valid()
    modifies node`SSVW
    ensures node.Valid()
    ensures node.SSVW == if node.Parent != null && node.Parent.Sibling != null
                         then PairSSV(node.Data, node.Parent.Sibling.Data, Dc) else old(node.SSVW)
  {
    if node.Parent != null && node.Parent.Sibling != null {
      var ps := node.Parent.Sibling;
      var D := Union(node.Data, ps.Data);
      node.SSVW := SSV(D, Dc, node.Data, ps.Data);
    }
  }

  /** `CalculateSSVW(node, Dc)`: visits every node of the subtree and sets the
      weight of each one whose parent has a sibling to the pair score of its
      records and that sibling's; every other weight, and everything but
      `SSVW`, is left as it was. */
  method CalculateSSVW<F, X(==)>(node: SsvNode<F, X>, Dc: seq<X> -> seq<seq<X>>)
    requires node.Valid()
    modifies node.Repr`SSVW
    ensures node.Valid()
    ensures forall n :: n in node.Repr ==>
      n.SSVW == if n.Parent != null && n.Parent.Sibling != null
                then PairSSV(n.Data, n.Parent.Sibling.Data, Dc) else old(n.SSVW)
    decreases node.Repr
  {
    SetOwnSSVW(node, Dc);
    if !node.IsLeaf() {
      CalculateSSVW(node.Left, Dc);
      CalculateSSVW(node.Right, Dc);
    }
  }

  /** -------- LeafNodes -------- */

  /** `LeafNodes(parent)`, enumerated to the end as its caller does. A child
      that is not a leaf is passed on as `leftLeaf as ParentSSVNode`, which is
      null, so the call only succeeds when both children are leaves. */
  method LeafNodes<F, X>(parent: SsvNode?<F, X>) returns (r: Result<seq<SsvNode<F, X>>>)
    ensures parent == null ==> r == Failure(NullReference)
    ensures parent != null ==>
      (r.Success? <==> IsLeafNode(parent.Left) && IsLeafNode(parent.Right))
    ensures parent != null && r.Success? ==> r.value == [parent.Left, parent.Right]
    ensures r.Failure? ==> r.error == NullReference
    decreases if parent == null then 0 else 1
  {
    if parent == null {
      return Failure(NullReference);
    }
    var leaves: seq<SsvNode<F, X>> := [];
    var leftLeaf := if IsLeafNode(parent.Left) then parent.Left else null;
    if leftLeaf != null {
      leaves := leaves + [leftLeaf];
    } else {
      var inner := LeafNodes<F, X>(null);
      match inner
      case Failure(e) => return Failure(e);
      case Success(more) => leaves := leaves + more;
    }
    var rightLeaf := if IsLeafNode(parent.Right) then parent.Right else null;
    if rightLeaf != null {
      leaves := leaves + [rightLeaf];
    } else {
      var inner := LeafNodes<F, X>(null);
      match inner
      case Failure(e) => return Failure(e);
      case Success(more) => leaves := leaves + more;
    }
    return Success(leaves);
  }

  /** -------- GrowTree -------- */

  /** One element of `ssvs`: a candidate feature, its score and its split. */
  datatype Split<F, X> = Split(feature: F, ssv: int, ls: seq<X>, rs: seq<X>)

  function Candidate<X(==), F(==)>(D: seq<X>, Dc: seq<X> -> seq<seq<X>>, f: X -> F, feature: F): Split<F, X> {
    var ls := LS(f, feature, D);
    var rs := RS(f, feature, D);
    Split(feature, SSV(D, Dc, ls, rs), ls, rs)
  }

  /** The first index of a largest score: `OrderByDescending` is a stable
      sort, so `First()` of it is the earliest maximum. */
  function FirstMaxIndex(s: seq<int>): (k: nat)
    requires |s| > 0
    ensures k < |s|
    ensures forall j :: 0 <= j < |s| ==> s[j] <= s[k]
    ensures forall j :: 0 <= j < k ==> s[j] < s[k]
  {
    if |s| == 1 then 0
    else
      var k0 := FirstMaxIndex(s[..|s| - 1]);
      if s[|s| - 1] > s[k0] then |s| - 1 else k0
  }

  function Scores<X(==), F(==)>(D: seq<X>, Dc: seq<X> -> seq<seq<X>>, f: X -> F, features: seq<F>): (r: seq<int>)
    ensures |r| == |features|
    ensures forall i :: 0 <= i < |features| ==> r[i] == Candidate(D, Dc, f, features[i]).ssv
  {
    seq(|features|, i requires 0 <= i < |features| => Candidate(D, Dc, f, features[i]).ssv)
  }

  /** The index of the feature `GrowTree` selects among non-empty candidates. */
  function Selected<X(==), F(==)>(D: seq<X>, Dc: seq<X> -> seq<seq<X>>, f: X -> F, features: seq<F>): (k: nat)
    requires |features| > 0
    ensures k < |features|
  {
    FirstMaxIndex(Scores(D, Dc, f, features))
  }

  /** The selected feature scores at least as high as every candidate, and
      strictly higher than every candidate before it. */
  lemma SelectedIsFirstMaximum<X, F>(D: seq<X>, Dc: seq<X> -> seq<seq<X>>, f: X -> F, features: seq<F>)
    requires |features| > 0
    ensures var k := Selected(D, Dc, f, features);
      (forall j :: 0 <= j < |features| ==>
         Candidate(D, Dc, f, features[j]).ssv <= Candidate(D, Dc, f, features[k]).ssv) &&
      (forall j :: 0 <= j < k ==>
         Candidate(D, Dc, f, features[j]).ssv < Candidate(D, Dc, f, features[k]).ssv)
  {
    var s := Scores(D, Dc, f, features);
    var k := Selected(D, Dc, f, features);
    forall j | 0 <= j < |features|
      ensures Candidate(D, Dc, f, features[j]).ssv <= Candidate(D, Dc, f, features[k]).ssv
    {
      assert s[j] <= s[k];
    }
    forall j | 0 <= j < k
      ensures Candidate(D, Dc, f, features[j]).ssv < Candidate(D, Dc, f, features[k]).ssv
    {
      assert s[j] < s[k];
    }
  }

  /** `features.Except(new[] { x })` removes exactly the feature `x`, so one
      distinct feature fewer remains. */
  lemma ExceptShrinks<F>(features: seq<F>, x: F)
    requires x in features
    ensures Elements(Except(features, [x])) == Elements(features) - {x}
    ensures |Elements(Except(features, [x]))| == |Elements(features)| - 1
  {
    assert Elements([x]) == {x};
    assert Elements(Except(features, [x])) == Elements(features) - {x};
    assert x in Elements(features);
    assert Elements(features) == (Elements(features) - {x}) + {x};
  }

  /** One level of the picture: the grown left side takes the `LS` records
      and sits beside a leaf of the selected feature with its `RS` records. */
  function LevelSpec<F, X>(sub: Result<TreeValue<F, X>>, s: Split<F, X>): (r: Result<TreeValue<F, X>>)
    ensures r.Failure? <==> sub.Failure?
    ensures r.Failure? ==> r.error == sub.error
    ensures r.Success? ==> r.value.NodeValue? && r.value.right == LeafValue(s.feature, s.rs, 0)
    ensures r.Success? ==> r.value.left.data == s.ls
  {
    match sub
    case Failure(e) => Failure(e)
    case Success(l) => Success(NodeValue([], 0, l.(data := s.ls), LeafValue(s.feature, s.rs, 0)))
  }

  /** The picture `GrowTree` would build, or the exception it throws. Each
      level selects a feature, makes a leaf of its `RS` records on the right,
      and grows the left side from its `LS` records without that feature. */
  function GrowSpec<X(==), F(==)>(D: seq<X>, Dc: seq<X> -> seq<seq<X>>, f: X -> F, features: seq<F>): Result<TreeValue<F, X>>
    decreases |Elements(features)|
  {
    if |features| == 0 then Failure(NoElements)
    else
      var s := Candidate(D, Dc, f, features[Selected(D, Dc, f, features)]);
      ExceptShrinks(features, s.feature);
      LevelSpec(GrowSpec(s.ls, Dc, f, Except(features, [s.feature])), s)
  }

  /** `GrowTree` has no base case: the candidates shrink by one distinct
      feature per level, and `First()` on the empty list throws. No finite
      candidate list yields a tree. */
  lemma {:induction false} GrowTreeAlwaysFails<X, F>(D: seq<X>, Dc: seq<X> -> seq<seq<X>>, f: X -> F, features: seq<F>)
    ensures GrowSpec(D, Dc, f, features) == Failure(NoElements)
    decreases |Elements(features)|
  {
    if |features| > 0 {
      var s := Candidate(D, Dc, f, features[Selected(D, Dc, f, features)]);
      ExceptShrinks(features, s.feature);
      GrowTreeAlwaysFails(s.ls, Dc, f, Except(features, [s.feature]));
    }
  }

  /** Lines 261-274 of `GrowTree`: give the grown left side its records, make
      the two sides siblings, and hang them under a new interior node. */
  method JoinLevel<F, X>(left: SsvNode<F, X>, right: SsvNode<F, X>, ls: seq<X>) returns (result: SsvNode<F, X>)
    requires left.Valid() && right.Valid() && right.IsLeaf()
    requires left.Repr !! right.Repr
    modifies left`Data, left`Sibling, left`Parent, right`Sibling, right`Parent
    ensures fresh(result) && result.Valid() && !result.IsLeaf()
    ensures result.Repr == {result} + left.Repr + right.Repr
    ensures result.Left == left && result.Right == right
    ensures left.Data == ls && left.Sibling == right && right.Sibling == left
    ensures left.Parent == result && right.Parent == result
    ensures result.Parent == null && result.Sibling == null && result.SSVW == 0
    ensures result.Value() == NodeValue([], 0, old(left.Value()).(data := ls), old(right.Value()))
    ensures old(left.SiblingsLinked()) ==> result.SiblingsLinked()
  {
    left.Data := ls;
    left.Sibling := right;
    right.Sibling := left;
    result := new SsvNode.Interior(left, right);
    left.Parent := result;
    right.Parent := result;
    OwnFieldsChanged(left);
    OwnFieldsChanged(right);
  }

  /** A node whose footprint, children and weight stay, and below which
      nothing changed, keeps its shape and links; its picture takes the
      node's new records. */
  twostate lemma OwnFieldsChanged<F, X>(n: SsvNode<F, X>)
    requires old(n.Valid()) && n.Repr == old(n.Repr)
    requires n.Left == old(n.Left) && n.Right == old(n.Right) && n.SSVW == old(n.SSVW)
    requires unchanged(old(n.Repr) - {n})
    ensures n.Valid() && n.Value() == old(n.Value()).(data := n.Data)
    ensures old(n.SiblingsLinked()) ==> n.SiblingsLinked()
  {
    if !n.IsLeaf() {
      KeepsPicture(n.Left);
      KeepsPicture(n.Right);
    }
  }

  /** `r` is what `spec` describes: the same exception, or a valid tree with
      linked siblings and that picture, at the top. */
  ghost predicate Built<F, X>(r: Result<SsvNode<F, X>>, spec: Result<TreeValue<F, X>>)
    reads if r.Success? then {r.value} + r.value.Repr else {}
  {
    match r
    case Failure(e) => spec == Failure(e)
    case Success(n) =>
      spec.Success? && n.Valid() && n.Parent == null && n.Sibling == null &&
      n.SiblingsLinked() && n.Value() == spec.value
  }

  /** The end of a `GrowTree` level: an exception from the left side passes
      through; a grown left side is joined with a new leaf of the selected
      feature and its `RS` records. The source allocates that leaf before the
      recursive call; the leaf is not reachable from anything until it is
      joined, so allocating it here changes nothing that can be observed. */
  method Attach<F, X>(left: Result<SsvNode<F, X>>, s: Split<F, X>, ghost sub: Result<TreeValue<F, X>>)
    returns (r: Result<SsvNode<F, X>>)
    requires Built(left, sub)
    modifies if left.Success? then {left.value} else {}
    ensures r.Success? ==> left.Success? && fresh(r.value) && fresh(r.value.Right)
    ensures r.Success? ==> fresh(r.value.Repr - old(left.value.Repr))
    ensures r.Success? ==> r.value.Repr == {r.value} + old(left.value.Repr) + {r.value.Right}
    ensures Built(r, LevelSpec(sub, s))
  {
    if left.Failure? {
      return Failure(left.error);
    }
    var right := new SsvNode.Leaf(s.feature, s.rs);
    var result := JoinLevel(left.value, right, s.ls);
    return Success(result);
  }

  /** Lines 247-254 of `GrowTree`: the split of the first best-scoring
      candidate, which is one level of `GrowSpec`. */
  method SelectSplit<X(==), F(==)>(D: seq<X>, Dc: seq<X> -> seq<seq<X>>, f: X -> F, features: seq<F>)
    returns (s: Split<F, X>)
    requires |features| > 0
    ensures s == Candidate(D, Dc, f, features[Selected(D, Dc, f, features)])
    ensures |Elements(Except(features, [s.feature]))| < |Elements(features)|
    ensures GrowSpec(D, Dc, f, features) == LevelSpec(GrowSpec(s.ls, Dc, f, Except(features, [s.feature])), s)
  {
    s := Candidate(D, Dc, f, features[Selected(D, Dc, f, features)]);
    ExceptShrinks(features, s.feature);
  }

  /** `GrowTree(D, Dc, f, features)`: the node it returns, or the exception it
      throws, is the one `GrowSpec` describes; by `GrowTreeAlwaysFails` that is
      always the empty-sequence failure. */
  method GrowTree<X(==), F(==)>(D: seq<X>, Dc: seq<X> -> seq<seq<X>>, f: X -> F, features: seq<F>)
    returns (r: Result<SsvNode<F, X>>)
    ensures r.Success? ==> fresh(r.value) && fresh(r.value.Repr)
    ensures Built(r, GrowSpec(D, Dc, f, features))
    decreases |Elements(features)|
  {
    if |features| == 0 {
      return Failure(NoElements);
    }
    var selected := SelectSplit(D, Dc, f, features);
    var rest := Except(features, [selected.feature]);
    ghost var sub := GrowSpec(selected.ls, Dc, f, rest);
    var left := GrowTree(selected.ls, Dc, f, rest);
    r := Attach(left, selected, sub);
  }
}
