/// The abstract value of the node graph that `Tree<E>` (Tree.java) owns:
/// a binary tree of integer keys, with insertion, order-guided search and
/// mirroring, and the ordering invariant that insertion maintains.
module Trees {

  datatype Option<T> = None | Some(value: T)

  /** A binary tree of keys; `Leaf` stands for a null child link. */
  datatype Tree = Leaf | Node(left: Tree, key: int, right: Tree)

  function Max(a: int, b: int): int { if a < b then b else a }

  /** Number of nodes. */
  function Size(t: Tree): nat {
    match t
    case Leaf => 0
    case Node(l, _, r) => Size(l) + 1 + Size(r)
  }

  /** Number of levels: 0 for the empty tree, 1 for a single node. */
  function Height(t: Tree): nat {
    match t
    case Leaf => 0
    case Node(l, _, r) => 1 + Max(Height(l), Height(r))
  }

  /** The keys of the tree, duplicates included. */
  function Elems(t: Tree): (m: multiset<int>)
    ensures |m| == Size(t)
  {
    match t
    case Leaf => multiset{}
    case Node(l, k, r) => Elems(l) + multiset{k} + Elems(r)
  }

  /** Keys in in-order (left subtree, node, right subtree). */
  function InOrder(t: Tree): (s: seq<int>)
    ensures |s| == Size(t)
  {
    match t
    case Leaf => []
    case Node(l, k, r) => InOrder(l) + [k] + InOrder(r)
  }

  /** Keys in preorder (node, left subtree, right subtree). */
  function PreOrder(t: Tree): (s: seq<int>)
    ensures |s| == Size(t)
  {
    match t
    case Leaf => []
    case Node(l, k, r) => [k] + PreOrder(l) + PreOrder(r)
  }

  /** The in-order listing holds exactly the keys of the tree. */
  lemma {:induction false} InOrderKeys(t: Tree)
    ensures multiset(InOrder(t)) == Elems(t)
  {
    match t
    case Leaf =>
    case Node(l, k, r) =>
      InOrderKeys(l);
      InOrderKeys(r);
  }

  /** The preorder listing holds exactly the keys of the tree. */
  lemma {:induction false} PreOrderKeys(t: Tree)
    ensures multiset(PreOrder(t)) == Elems(t)
  {
    match t
    case Leaf =>
    case Node(l, k, r) =>
      PreOrderKeys(l);
      PreOrderKeys(r);
  }

  /** The invariant `insert` keeps: left keys < node key <= right keys, at every node. */
  predicate Ordered(t: Tree) {
    match t
    case Leaf => true
    case Node(l, k, r) =>
      && (forall x | x in Elems(l) :: x < k)
      && (forall x | x in Elems(r) :: k <= x)
      && Ordered(l) && Ordered(r)
  }

  predicate NonDecreasing(s: seq<int>) {
    forall i, j | 0 <= i < j < |s| :: s[i] <= s[j]
  }

  predicate StrictlyIncreasing(s: seq<int>) {
    forall i, j | 0 <= i < j < |s| :: s[i] < s[j]
  }

  /** Tree.java `insert(x, t, parent)` on values: a key strictly less than the
      node's key goes left, any other key (equal ones included) goes right,
      and the key becomes a new leaf at the first empty slot. */
  function Insert(t: Tree, x: int): Tree {
    match t
    case Leaf => Node(Leaf, x, Leaf)
    case Node(l, k, rt) =>
      if x < k then Node(Insert(l, x), k, rt) else Node(l, k, Insert(rt, x))
  }

  /** The constructors of Tree.java: the keys of `s` inserted one by one, in order. */
  function InsertAll(t: Tree, s: seq<int>): Tree {
    if s == [] then t
    else
      assert s == s[..|s| - 1] + [s[|s| - 1]];
      Insert(InsertAll(t, s[..|s| - 1]), s[|s| - 1])
  }

  /** Tree.java `contains(x, t)`: order-guided descent, true at the first equal key. */
  function Contains(t: Tree, x: int): (b: bool)
    ensures b ==> x in Elems(t)
  {
    match t
    case Leaf => false
    case Node(l, k, r) =>
      if x < k then Contains(l, x)
      else if x > k then Contains(r, x)
      else true
  }

  /** Tree.java `flipNodeChildren` on values: the children of every node swapped. */
  function Mirror(t: Tree): Tree {
    match t
    case Leaf => Leaf
    case Node(l, k, rt) => Node(Mirror(rt), k, Mirror(l))
  }

  function Reverse(s: seq<int>): (r: seq<int>)
    ensures |r| == |s|
    ensures forall i | 0 <= i < |s| :: r[i] == s[|s| - 1 - i]
  {
    seq(|s|, i requires 0 <= i < |s| => s[|s| - 1 - i])
  }

  // ---------------------------------------------------------------------
  // Insertion keeps the order invariant; search finds what was inserted.

  /** Insertion adds exactly one copy of the key. */
  lemma {:induction false} InsertAddsKey(t: Tree, x: int)
    ensures Elems(Insert(t, x)) == Elems(t) + multiset{x}
  {
    match t
    case Leaf =>
    case Node(l, k, r) =>
      if x < k {
        InsertAddsKey(l, x);
      } else {
        InsertAddsKey(r, x);
      }
  }

  /** Inserting a list adds exactly its keys. */
  lemma {:induction false} InsertAllAddsKeys(t: Tree, s: seq<int>)
    ensures Elems(InsertAll(t, s)) == Elems(t) + multiset(s)
    decreases |s|
  {
    if s != [] {
      var init := s[..|s| - 1];
      assert s == init + [s[|s| - 1]];
      assert multiset(s) == multiset(init) + multiset{s[|s| - 1]};
      InsertAllAddsKeys(t, init);
      InsertAddsKey(InsertAll(t, init), s[|s| - 1]);
    }
  }

  lemma {:induction false} InsertKeepsOrdered(t: Tree, x: int)
    requires Ordered(t)
    ensures Ordered(Insert(t, x))
  {
    match t
    case Leaf =>
    case Node(l, k, r) =>
      if x < k {
        InsertKeepsOrdered(l, x);
        var l' := Insert(l, x);
        InsertAddsKey(l, x);
        forall y | y in Elems(l') ensures y < k {
          assert y == x || y in Elems(l);
        }
        assert Insert(t, x) == Node(l', k, r);
      } else {
        InsertKeepsOrdered(r, x);
        var r' := Insert(r, x);
        InsertAddsKey(r, x);
        forall y | y in Elems(r') ensures k <= y {
          assert y == x || y in Elems(r);
        }
        assert Insert(t, x) == Node(l, k, r');
      }
  }

  lemma {:induction false} InsertAllKeepsOrdered(t: Tree, s: seq<int>)
    requires Ordered(t)
    ensures Ordered(InsertAll(t, s))
    decreases |s|
  {
    if s != [] {
      InsertAllKeepsOrdered(t, s[..|s| - 1]);
      InsertKeepsOrdered(InsertAll(t, s[..|s| - 1]), s[|s| - 1]);
    }
  }

  /** On an ordered tree the order-guided search is exact: it finds x iff x is a key. */
  lemma {:induction false} ContainsExact(t: Tree, x: int)
    requires Ordered(t)
    ensures Contains(t, x) <==> x in Elems(t)
  {
    match t
    case Leaf =>
    case Node(l, k, r) =>
      if x < k {
        ContainsExact(l, x);
        assert x !in Elems(r);
      } else if x > k {
        ContainsExact(r, x);
        assert x !in Elems(l);
      }
  }

  /** Every key handed to the constructor (or inserted later) is found by `contains`. */
  lemma InsertedKeysAreFound(s: seq<int>, x: int)
    requires x in s
    ensures Contains(InsertAll(Leaf, s), x)
  {
    InsertAllKeepsOrdered(Leaf, s);
    InsertAllAddsKeys(Leaf, s);
    assert x in multiset(s);
    ContainsExact(InsertAll(Leaf, s), x);
  }

  /** The in-order listing of an ordered tree is non-decreasing. */
  lemma {:induction false} OrderedInOrderSorted(t: Tree)
    requires Ordered(t)
    ensures NonDecreasing(InOrder(t))
  {
    match t
    case Leaf =>
    case Node(l, k, r) =>
      OrderedInOrderSorted(l);
      OrderedInOrderSorted(r);
      InOrderKeys(l);
      InOrderKeys(r);
      var a, b := InOrder(l), InOrder(r);
      forall i | 0 <= i < |a| ensures a[i] < k {
        assert a[i] in multiset(a);
      }
      forall i | 0 <= i < |b| ensures k <= b[i] {
        assert b[i] in multiset(b);
      }
      SortedAroundPivot(a, k, b);
  }

  lemma SortedAroundPivot(a: seq<int>, k: int, b: seq<int>)
    requires NonDecreasing(a) && NonDecreasing(b)
    requires forall i | 0 <= i < |a| :: a[i] < k
    requires forall i | 0 <= i < |b| :: k <= b[i]
    ensures NonDecreasing(a + [k] + b)
  {
    var s := a + [k] + b;
    forall i, j | 0 <= i < j < |s| ensures s[i] <= s[j] {
      if j < |a| {
      } else if j == |a| {
      } else if i <= |a| {
        assert s[j] == b[j - |a| - 1];
      } else {
        assert s[i] == b[i - |a| - 1] && s[j] == b[j - |a| - 1];
      }
    }
  }

  /** A tree built by the constructors lists its keys in non-decreasing in-order. */
  lemma ConstructedInOrderSorted(s: seq<int>)
    ensures NonDecreasing(InOrder(InsertAll(Leaf, s)))
    ensures multiset(InOrder(InsertAll(Leaf, s))) == multiset(s)
  {
    InsertAllKeepsOrdered(Leaf, s);
    OrderedInOrderSorted(InsertAll(Leaf, s));
    InOrderKeys(InsertAll(Leaf, s));
    InsertAllAddsKeys(Leaf, s);
  }

  // ---------------------------------------------------------------------
  // Mirroring.

  /** Mirroring keeps the keys and the number of levels. */
  lemma {:induction false} MirrorKeepsKeys(t: Tree)
    ensures Elems(Mirror(t)) == Elems(t)
    ensures Height(Mirror(t)) == Height(t)
  {
    match t
    case Leaf =>
    case Node(l, k, r) =>
      MirrorKeepsKeys(l);
      MirrorKeepsKeys(r);
  }

  lemma {:induction false} MirrorInvolutive(t: Tree)
    ensures Mirror(Mirror(t)) == t
  {
    match t
    case Leaf =>
    case Node(l, k, r) =>
      MirrorInvolutive(l);
      MirrorInvolutive(r);
  }

  lemma {:induction false} MirrorReversesInOrder(t: Tree)
    ensures InOrder(Mirror(t)) == Reverse(InOrder(t))
  {
    match t
    case Leaf =>
    case Node(l, k, r) =>
      MirrorReversesInOrder(l);
      MirrorReversesInOrder(r);
      ReverseAroundPivot(InOrder(l), k, InOrder(r));
  }

  lemma ReverseAroundPivot(a: seq<int>, k: int, b: seq<int>)
    ensures Reverse(a + [k] + b) == Reverse(b) + [k] + Reverse(a)
  {
    var s, u := a + [k] + b, Reverse(b) + [k] + Reverse(a);
    assert |Reverse(s)| == |u|;
    forall i | 0 <= i < |u| ensures Reverse(s)[i] == u[i] {
      if i < |b| {
        assert u[i] == b[|b| - 1 - i];
      } else if i > |b| {
        assert u[i] == Reverse(a)[i - |b| - 1];
      }
    }
  }
}
