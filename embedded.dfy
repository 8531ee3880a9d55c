/// `countBST` / `countBSTRec` / `isBST` of Tree.java: how many subtrees of
/// the tree are, on their own, binary search trees with strict order.
module EmbeddedBSTs {
  import opened Trees

  /** `minValue == null || key.compareTo(minValue) > 0`; `None` is the null bound. */
  predicate Above(x: int, lo: Option<int>) { lo.None? || x > lo.value }

  /** `maxValue == null || key.compareTo(maxValue) < 0`. */
  predicate Below(x: int, hi: Option<int>) { hi.None? || x < hi.value }

  /** Tree.java `isBST(node, minValue, maxValue)`: every key lies strictly
      inside the open interval, which narrows to the node's key on the way down. */
  predicate IsBST(t: Tree, lo: Option<int>, hi: Option<int>) {
    match t
    case Leaf => true
    case Node(l, k, r) =>
      if Above(k, lo) && Below(k, hi) then IsBST(l, lo, Some(k)) && IsBST(r, Some(k), hi)
      else false
  }

  /** Tree.java `countBSTRec(node)` (and `countBST()` on the root): one for
      every node whose subtree passes `isBST(node, null, null)`. */
  function CountBST(t: Tree): (n: nat)
    ensures n <= Size(t)
  {
    match t
    case Leaf => 0
    case Node(l, _, r) => (if IsBST(t, None, None) then 1 else 0) + CountBST(l) + CountBST(r)
  }

  /** Reference definition: a search tree with strict order at every node. */
  predicate StrictSearchTree(t: Tree) {
    match t
    case Leaf => true
    case Node(l, k, r) =>
      && (forall x | x in Elems(l) :: x < k)
      && (forall x | x in Elems(r) :: k < x)
      && StrictSearchTree(l) && StrictSearchTree(r)
  }

  predicate NoDuplicates(t: Tree) {
    forall x | x in Elems(t) :: Elems(t)[x] == 1
  }

  /** Every key of `t` lies strictly inside the interval (lo, hi). */
  predicate Within(t: Tree, lo: Option<int>, hi: Option<int>) {
    forall x | x in Elems(t) :: Above(x, lo) && Below(x, hi)
  }

  /** `isBST(n, lo, hi)` holds iff n's subtree is a strict search tree all of
      whose keys lie strictly inside (lo, hi). */
  lemma IsBSTMeansStrictWithin(t: Tree, lo: Option<int>, hi: Option<int>)
    ensures IsBST(t, lo, hi) <==> StrictSearchTree(t) && Within(t, lo, hi)
  {
    if IsBST(t, lo, hi) {
      IsBSTSound(t, lo, hi);
    }
    if StrictSearchTree(t) && Within(t, lo, hi) {
      IsBSTComplete(t, lo, hi);
    }
  }

  lemma {:induction false} IsBSTSound(t: Tree, lo: Option<int>, hi: Option<int>)
    requires IsBST(t, lo, hi)
    ensures StrictSearchTree(t) && Within(t, lo, hi)
  {
    match t
    case Leaf =>
    case Node(l, k, r) =>
      IsBSTSound(l, lo, Some(k));
      IsBSTSound(r, Some(k), hi);
      forall x | x in Elems(t) ensures Above(x, lo) && Below(x, hi) {
        if x in Elems(l) {
          assert Above(x, lo) && x < k;
        } else if x in Elems(r) {
          assert k < x && Below(x, hi);
        }
      }
  }

  lemma {:induction false} IsBSTComplete(t: Tree, lo: Option<int>, hi: Option<int>)
    requires StrictSearchTree(t) && Within(t, lo, hi)
    ensures IsBST(t, lo, hi)
  {
    match t
    case Leaf =>
    case Node(l, k, r) =>
      assert k in Elems(t);
      forall x | x in Elems(l) ensures Above(x, lo) && Below(x, Some(k)) {
        assert x in Elems(t);
      }
      forall x | x in Elems(r) ensures Above(x, Some(k)) && Below(x, hi) {
        assert x in Elems(t);
      }
      IsBSTComplete(l, lo, Some(k));
      IsBSTComplete(r, Some(k), hi);
  }

  /** How often a key occurs in a node's subtree. */
  lemma CountInNode(l: Tree, k: int, r: Tree, x: int)
    ensures Elems(Node(l, k, r))[x] == Elems(l)[x] + (if x == k then 1 else 0) + Elems(r)[x]
  {
  }

  /** Strict order leaves no room for an equal key: a subtree holding two
      equal keys is never counted. */
  lemma {:induction false} StrictSearchTreeHasNoDuplicates(t: Tree)
    requires StrictSearchTree(t)
    ensures NoDuplicates(t)
  {
    match t
    case Leaf =>
    case Node(l, k, r) =>
      StrictSearchTreeHasNoDuplicates(l);
      StrictSearchTreeHasNoDuplicates(r);
      forall x | x in Elems(t) ensures Elems(t)[x] == 1 {
        CountInNode(l, k, r, x);
        if x < k {
          assert x !in Elems(r);
        } else if x > k {
          assert x !in Elems(l);
        } else {
          assert x !in Elems(l) && x !in Elems(r);
        }
      }
  }

  lemma DuplicateKeyIsNeverCounted(t: Tree, lo: Option<int>, hi: Option<int>)
    requires !NoDuplicates(t)
    ensures !IsBST(t, lo, hi)
  {
    IsBSTMeansStrictWithin(t, lo, hi);
    if StrictSearchTree(t) {
      StrictSearchTreeHasNoDuplicates(t);
    }
  }

  /** Every node is counted exactly when the whole tree passes the test. */
  lemma {:induction false} CountIsSizeIffBST(t: Tree)
    ensures CountBST(t) == Size(t) <==> IsBST(t, None, None)
  {
    match t
    case Leaf =>
    case Node(l, k, r) =>
      CountIsSizeIffBST(l);
      CountIsSizeIffBST(r);
      IsBSTMeansStrictWithin(t, None, None);
      IsBSTMeansStrictWithin(l, None, None);
      IsBSTMeansStrictWithin(r, None, None);
  }

  /** An ordered tree without duplicate keys (one built by `insert` from
      distinct keys) has every one of its subtrees counted. */
  lemma {:induction false} OrderedDistinctIsStrict(t: Tree)
    requires Ordered(t) && NoDuplicates(t)
    ensures StrictSearchTree(t)
  {
    match t
    case Leaf =>
    case Node(l, k, r) =>
      forall x | x in Elems(l) ensures Elems(l)[x] == 1 {
        CountInNode(l, k, r, x);
        assert x in Elems(t);
      }
      forall x | x in Elems(r) ensures Elems(r)[x] == 1 && k < x {
        CountInNode(l, k, r, x);
        assert x in Elems(t);
      }
      OrderedDistinctIsStrict(l);
      OrderedDistinctIsStrict(r);
  }

  lemma CountOfDistinctConstruction(s: seq<int>)
    requires forall i, j | 0 <= i < j < |s| :: s[i] != s[j]
    ensures CountBST(InsertAll(Leaf, s)) == |s|
  {
    var t := InsertAll(Leaf, s);
    InsertAllKeepsOrdered(Leaf, s);
    InsertAllAddsKeys(Leaf, s);
    forall x | x in Elems(t) ensures Elems(t)[x] == 1 {
      DistinctCount(s, x);
    }
    OrderedDistinctIsStrict(t);
    IsBSTMeansStrictWithin(t, None, None);
    CountIsSizeIffBST(t);
  }

  lemma {:induction false} DistinctCount(s: seq<int>, x: int)
    requires forall i, j | 0 <= i < j < |s| :: s[i] != s[j]
    requires x in s
    ensures multiset(s)[x] == 1
  {
    var i :| 0 <= i < |s| && s[i] == x;
    assert s == s[..i] + [x] + s[i + 1..];
    assert x !in s[..i];
    assert x !in s[i + 1..];
  }
}
