/// `balanceTree` of Tree.java on tree values: the in-order listing is taken,
/// the tree emptied, and the listing re-inserted median first, halves after.
module Balancing {
  import opened Trees

  /** Tree.java `inOrderTraversalRec(sortedList)`: insert the element at
      index size/2 into the tree, then do the same with the part before it
      and then with the part after it. */
  function InsertMedians(t: Tree, s: seq<int>): Tree
    decreases |s|
  {
    if s == [] then t
    else
      var m := |s| / 2;
      InsertMedians(InsertMedians(Insert(t, s[m]), s[..m]), s[m + 1..])
  }

  /** Tree.java `balanceTree()`: `findInOrderRecNode(root)` dereferences the
      root unconditionally, so the tree must not be empty. */
  function BalanceTree(t: Tree): (r: Tree)
    requires t.Node?
  {
    InsertMedians(Leaf, InOrder(t))
  }

  /** Reference shape: the tree whose root is the element at index |s|/2 and
      whose subtrees are built the same way from the two halves. */
  function Build(s: seq<int>): Tree
    decreases |s|
  {
    if s == [] then Leaf
    else
      var m := |s| / 2;
      Node(Build(s[..m]), s[m], Build(s[m + 1..]))
  }

  function Pow2(n: nat): nat {
    if n == 0 then 1 else 2 * Pow2(n - 1)
  }

  // ---------------------------------------------------------------------
  // Balancing keeps the keys, and the order of a tree built by `insert`.

  lemma {:induction false} InsertMediansKeys(t: Tree, s: seq<int>)
    ensures Elems(InsertMedians(t, s)) == Elems(t) + multiset(s)
    decreases |s|
  {
    if s != [] {
      var m := |s| / 2;
      var lo, hi := s[..m], s[m + 1..];
      var t1 := Insert(t, s[m]);
      var t2 := InsertMedians(t1, lo);
      assert InsertMedians(t, s) == InsertMedians(t2, hi);
      InsertAddsKey(t, s[m]);
      InsertMediansKeys(t1, lo);
      InsertMediansKeys(t2, hi);
      MultisetAroundMedian(s, m);
      AddInThreeSteps(Elems(t), Elems(t1), Elems(t2), Elems(InsertMedians(t, s)),
        multiset{s[m]}, multiset(lo), multiset(hi));
    }
  }

  lemma AddInThreeSteps<T>(e0: multiset<T>, e1: multiset<T>, e2: multiset<T>, e3: multiset<T>,
                           a: multiset<T>, b: multiset<T>, c: multiset<T>)
    requires e1 == e0 + a && e2 == e1 + b && e3 == e2 + c
    ensures e3 == e0 + (a + b + c)
  {
  }

  lemma MultisetAroundMedian(s: seq<int>, m: nat)
    requires m < |s|
    ensures multiset(s) == multiset{s[m]} + multiset(s[..m]) + multiset(s[m + 1..])
  {
    assert s == s[..m] + [s[m]] + s[m + 1..];
  }

  /** Balancing keeps the multiset of keys. */
  lemma BalanceKeepsKeys(t: Tree)
    requires t.Node?
    ensures Elems(BalanceTree(t)) == Elems(t)
  {
    InOrderKeys(t);
    InsertMediansKeys(Leaf, InOrder(t));
  }

  lemma {:induction false} InsertMediansKeepsOrdered(t: Tree, s: seq<int>)
    requires Ordered(t)
    ensures Ordered(InsertMedians(t, s))
    decreases |s|
  {
    if s != [] {
      var m := |s| / 2;
      var lo, hi := s[..m], s[m + 1..];
      var t1 := Insert(t, s[m]);
      var t2 := InsertMedians(t1, lo);
      assert InsertMedians(t, s) == InsertMedians(t2, hi);
      InsertKeepsOrdered(t, s[m]);
      InsertMediansKeepsOrdered(t1, lo);
      InsertMediansKeepsOrdered(t2, hi);
    }
  }

  /** Two non-decreasing listings of the same keys are the same listing. */
  lemma {:induction false} SortedListingIsUnique(a: seq<int>, b: seq<int>)
    requires NonDecreasing(a) && NonDecreasing(b) && multiset(a) == multiset(b)
    ensures a == b
    decreases |a|
  {
    if a == [] {
      assert |b| == |multiset(b)| == 0;
    } else {
      HeadsAgree(a, b);
      TailSorted(a);
      TailSorted(b);
      TailsAgree(a, b);
      SortedListingIsUnique(a[1..], b[1..]);
      assert a == [a[0]] + a[1..] && b == [b[0]] + b[1..];
    }
  }

  lemma HeadIsLeast(a: seq<int>, x: int)
    requires NonDecreasing(a) && x in multiset(a)
    ensures a[0] <= x
  {
    assert x in a;
    var i :| 0 <= i < |a| && a[i] == x;
    assert i == 0 || a[0] <= a[i];
  }

  lemma HeadsAgree(a: seq<int>, b: seq<int>)
    requires NonDecreasing(a) && NonDecreasing(b) && multiset(a) == multiset(b) && a != []
    ensures b != [] && a[0] == b[0]
  {
    assert |a| == |multiset(a)| == |multiset(b)| == |b|;
    assert a[0] in multiset(a) && b[0] in multiset(b);
    HeadIsLeast(a, b[0]);
    HeadIsLeast(b, a[0]);
  }

  lemma TailSorted(a: seq<int>)
    requires NonDecreasing(a) && a != []
    ensures NonDecreasing(a[1..])
  {
    forall i, j | 0 <= i < j < |a[1..]| ensures a[1..][i] <= a[1..][j] {
      assert a[1..][i] == a[i + 1] && a[1..][j] == a[j + 1];
    }
  }

  lemma TailsAgree(a: seq<int>, b: seq<int>)
    requires a != [] && b != [] && a[0] == b[0] && multiset(a) == multiset(b)
    ensures multiset(a[1..]) == multiset(b[1..])
  {
    assert a == [a[0]] + a[1..];
    assert b == [b[0]] + b[1..];
    assert multiset(a[1..]) == multiset(a) - multiset{a[0]};
    assert multiset(b[1..]) == multiset(b) - multiset{b[0]};
  }

  /** On a tree whose keys were placed by `insert` (left < node <= right),
      balancing leaves the in-order listing as it was, duplicates included. */
  lemma BalanceKeepsInOrderOfOrdered(t: Tree)
    requires t.Node? && Ordered(t)
    ensures InOrder(BalanceTree(t)) == InOrder(t)
  {
    var r := BalanceTree(t);
    InOrderKeys(t);
    InOrderKeys(r);
    BalanceKeepsKeys(t);
    InsertMediansKeepsOrdered(Leaf, InOrder(t));
    OrderedInOrderSorted(t);
    OrderedInOrderSorted(r);
    SortedListingIsUnique(InOrder(r), InOrder(t));
  }

  // ---------------------------------------------------------------------
  // From a strictly increasing listing balancing builds the median-split shape.

  predicate AllBelow(s: seq<int>, k: int) {
    forall i | 0 <= i < |s| :: s[i] < k
  }

  predicate AllAtLeast(s: seq<int>, k: int) {
    forall i | 0 <= i < |s| :: k <= s[i]
  }

  /** Keys smaller than the root all land in its left subtree. */
  lemma {:induction false} InsertMediansBelow(l: Tree, k: int, r: Tree, s: seq<int>)
    requires AllBelow(s, k)
    ensures InsertMedians(Node(l, k, r), s) == Node(InsertMedians(l, s), k, r)
    decreases |s|
  {
    if s != [] {
      var m := |s| / 2;
      var lo, hi := s[..m], s[m + 1..];
      assert AllBelow(lo, k) && AllBelow(hi, k) && s[m] < k by {
        assert forall i | 0 <= i < |lo| :: lo[i] == s[i];
        assert forall i | 0 <= i < |hi| :: hi[i] == s[m + 1 + i];
      }
      var l1 := Insert(l, s[m]);
      var l2 := InsertMedians(l1, lo);
      InsertMediansBelow(l1, k, r, lo);
      InsertMediansBelow(l2, k, r, hi);
      calc {
        InsertMedians(Node(l, k, r), s);
        InsertMedians(InsertMedians(Insert(Node(l, k, r), s[m]), lo), hi);
        { assert Insert(Node(l, k, r), s[m]) == Node(l1, k, r); }
        InsertMedians(InsertMedians(Node(l1, k, r), lo), hi);
        InsertMedians(Node(l2, k, r), hi);
        Node(InsertMedians(l2, hi), k, r);
        Node(InsertMedians(l, s), k, r);
      }
    }
  }

  /** Keys at least the root all land in its right subtree. */
  lemma {:induction false} InsertMediansAbove(l: Tree, k: int, r: Tree, s: seq<int>)
    requires AllAtLeast(s, k)
    ensures InsertMedians(Node(l, k, r), s) == Node(l, k, InsertMedians(r, s))
    decreases |s|
  {
    if s != [] {
      var m := |s| / 2;
      var lo, hi := s[..m], s[m + 1..];
      assert AllAtLeast(lo, k) && AllAtLeast(hi, k) && k <= s[m] by {
        assert forall i | 0 <= i < |lo| :: lo[i] == s[i];
        assert forall i | 0 <= i < |hi| :: hi[i] == s[m + 1 + i];
      }
      var r1 := Insert(r, s[m]);
      var r2 := InsertMedians(r1, lo);
      InsertMediansAbove(l, k, r1, lo);
      InsertMediansAbove(l, k, r2, hi);
      calc {
        InsertMedians(Node(l, k, r), s);
        InsertMedians(InsertMedians(Insert(Node(l, k, r), s[m]), lo), hi);
        { assert Insert(Node(l, k, r), s[m]) == Node(l, k, r1); }
        InsertMedians(InsertMedians(Node(l, k, r1), lo), hi);
        InsertMedians(Node(l, k, r2), hi);
        Node(l, k, InsertMedians(r2, hi));
        Node(l, k, InsertMedians(r, s));
      }
    }
  }

  /** From a strictly increasing listing, `inOrderTraversalRec` on an empty
      tree builds exactly the median-split shape. */
  lemma {:induction false} InsertMediansOfIncreasing(s: seq<int>)
    requires StrictlyIncreasing(s)
    ensures InsertMedians(Leaf, s) == Build(s)
    decreases |s|
  {
    if s != [] {
      var m := |s| / 2;
      var lo, hi := s[..m], s[m + 1..];
      assert StrictlyIncreasing(lo) && StrictlyIncreasing(hi)
          && AllBelow(lo, s[m]) && AllAtLeast(hi, s[m]) by {
        assert forall i | 0 <= i < |lo| :: lo[i] == s[i];
        assert forall i | 0 <= i < |hi| :: hi[i] == s[m + 1 + i];
      }
      InsertMediansOfIncreasing(lo);
      InsertMediansOfIncreasing(hi);
      assert InsertMedians(Leaf, s) == InsertMedians(InsertMedians(Node(Leaf, s[m], Leaf), lo), hi);
      InsertMediansBelow(Leaf, s[m], Leaf, lo);
      InsertMediansAbove(InsertMedians(Leaf, lo), s[m], Leaf, hi);
      assert Build(s) == Node(Build(lo), s[m], Build(hi));
    }
  }

  lemma {:induction false} BuildInOrder(s: seq<int>)
    ensures InOrder(Build(s)) == s
    decreases |s|
  {
    if s != [] {
      var m := |s| / 2;
      var lo, hi := s[..m], s[m + 1..];
      assert s == lo + [s[m]] + hi;
      assert Build(s) == Node(Build(lo), s[m], Build(hi));
      BuildInOrder(lo);
      BuildInOrder(hi);
    }
  }

  /** The median-split shape of n keys has at most h levels whenever
      n < 2^h, that is, at most ceil(log2(n + 1)) levels. */
  lemma {:induction false} BuildHeight(s: seq<int>, h: nat)
    requires |s| < Pow2(h)
    ensures Height(Build(s)) <= h
    decreases |s|
  {
    if s != [] {
      assert h > 0;
      var m := |s| / 2;
      assert Pow2(h) == 2 * Pow2(h - 1);
      BuildHeight(s[..m], h - 1);
      BuildHeight(s[m + 1..], h - 1);
    }
  }

  /** Balancing a tree whose in-order listing is strictly increasing puts the
      element at index n/2 at the root, keeps the in-order listing, and leaves
      at most ceil(log2(n + 1)) levels. */
  lemma BalanceOfIncreasing(t: Tree, h: nat)
    requires t.Node? && StrictlyIncreasing(InOrder(t))
    requires Size(t) < Pow2(h)
    ensures BalanceTree(t).Node? && BalanceTree(t).key == InOrder(t)[Size(t) / 2]
    ensures InOrder(BalanceTree(t)) == InOrder(t)
    ensures Height(BalanceTree(t)) <= h
  {
    var s := InOrder(t);
    InsertMediansOfIncreasing(s);
    BuildInOrder(s);
    BuildHeight(s, h);
  }
}
