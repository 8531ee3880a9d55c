/// Node handles of Tree.java as locations in the tree value: the subtree
/// rooted at the node plus the path from the root down to it, so that the
/// parent chain the Java code climbs through `parent` links is explicit.
/// Here live `getByKey` / `checkNode` and `inOrderSuccessor` with its helpers.
module Locations {
  import opened Trees

  /** One step down from an ancestor: into its left child (the ancestor's key
      and right subtree are remembered) or into its right child. */
  datatype Crumb = WentLeft(key: int, right: Tree) | WentRight(left: Tree, key: int)

  /** A node handle: `focus` is the subtree rooted at the node, `path` the
      steps from the root down to it, root first; its last crumb is the parent. */
  datatype Loc = Loc(focus: Tree, path: seq<Crumb>)

  /** The ancestor described by `c`, with `t` hung back in place. */
  function Attach(c: Crumb, t: Tree): Tree {
    match c
    case WentLeft(k, r) => Node(t, k, r)
    case WentRight(l, k) => Node(l, k, t)
  }

  /** The whole tree a location lies in. */
  function Plug(t: Tree, path: seq<Crumb>): Tree
    decreases |path|
  {
    if path == [] then t else Attach(path[0], Plug(t, path[1..]))
  }

  function Whole(n: Loc): Tree {
    Plug(n.focus, n.path)
  }

  lemma {:induction false} PlugAppend(t: Tree, path: seq<Crumb>, c: Crumb)
    ensures Plug(t, path + [c]) == Plug(Attach(c, t), path)
    decreases |path|
  {
    if path != [] {
      assert (path + [c])[1..] == path[1..] + [c];
      PlugAppend(t, path[1..], c);
    }
  }

  /** Tree.java `node.parent` on a location; `None` is the root's null parent. */
  function Parent(n: Loc): (p: Option<Loc>)
    ensures p.Some? ==> Whole(p.value) == Whole(n) && p.value.focus.Node?
    ensures p.Some? <==> n.path != []
    ensures p.Some? ==> && p.value.path == n.path[..|n.path| - 1]
                        && p.value.focus.key == n.path[|n.path| - 1].key
  {
    if n.path == [] then None
    else
      var last, up := n.path[|n.path| - 1], n.path[..|n.path| - 1];
      assert n.path == up + [last];
      PlugAppend(n.focus, up, last);
      Some(Loc(Attach(last, n.focus), up))
  }

  // ---------------------------------------------------------------------
  // getByKey

  /** Tree.java `checkNode(node, key)`: the node itself if its key equals
      `key`, else the first match in the left subtree, else the first match
      in the right subtree; the location is relative to `t`. */
  function CheckNode(t: Tree, key: int): Option<Loc> {
    match t
    case Leaf => None
    case Node(l, k, rt) =>
      if k == key then Some(Loc(t, []))
      else
        match CheckNode(l, key)
        case Some(n) => Some(Loc(n.focus, [WentLeft(k, rt)] + n.path))
        case None =>
          match CheckNode(rt, key)
          case Some(n) => Some(Loc(n.focus, [WentRight(l, k)] + n.path))
          case None => None
  }

  /** `checkNode` finds a node exactly when the key occurs, and what it finds
      is a node of `t` holding `key`. */
  lemma {:induction false} CheckNodeLocates(t: Tree, key: int)
    ensures CheckNode(t, key).None? <==> key !in Elems(t)
    ensures CheckNode(t, key).Some? ==>
      var n := CheckNode(t, key).value;
      Whole(n) == t && n.focus.Node? && n.focus.key == key
  {
    match t
    case Leaf =>
    case Node(l, k, rt) =>
      if k != key {
        CheckNodeLocates(l, key);
        CheckNodeLocates(rt, key);
        if CheckNode(l, key).Some? {
          var n := CheckNode(l, key).value;
          assert ([WentLeft(k, rt)] + n.path)[1..] == n.path;
        } else if CheckNode(rt, key).Some? {
          var n := CheckNode(rt, key).value;
          assert ([WentRight(l, k)] + n.path)[1..] == n.path;
        }
      }
  }

  /** Tree.java `getByKey(key)`. */
  function GetByKey(t: Tree, key: int): Option<Loc> {
    CheckNode(t, key)
  }

  /** Position in preorder of the node a path leads to. */
  function PreIndex(path: seq<Crumb>): nat {
    if path == [] then 0
    else
      (match path[0]
       case WentLeft(_, _) => 1
       case WentRight(l, _) => 1 + Size(l)) + PreIndex(path[1..])
  }

  /** `getByKey` answers the FIRST node in preorder (node, left subtree,
      right subtree) whose key equals `key`, and nothing when no key does. */
  lemma GetByKeyIsFirstInPreorder(t: Tree, key: int)
    ensures GetByKey(t, key).None? <==> key !in PreOrder(t)
    ensures GetByKey(t, key).Some? ==> FirstInPreorder(t, key, PreIndex(GetByKey(t, key).value.path))
  {
    PreOrderKeys(t);
    CheckNodeLocates(t, key);
    assert key in PreOrder(t) <==> key in multiset(PreOrder(t));
    if CheckNode(t, key).Some? {
      CheckNodeIsFirstInPreorder(t, key);
    }
  }

  /** Index i of PreOrder(t) holds `key` and no earlier index does. */
  predicate FirstInPreorder(t: Tree, key: int, i: nat) {
    var pre := PreOrder(t);
    && i < |pre| && pre[i] == key
    && forall j | 0 <= j < i :: pre[j] != key
  }

  lemma {:induction false} CheckNodeIsFirstInPreorder(t: Tree, key: int)
    requires CheckNode(t, key).Some?
    ensures FirstInPreorder(t, key, PreIndex(CheckNode(t, key).value.path))
  {
    var Node(l, k, rt) := t;
    if k == key {
      FoundAtRoot(l, k, rt);
    } else if CheckNode(l, key).Some? {
      CheckNodeIsFirstInPreorder(l, key);
      FoundOnLeft(l, k, rt, key);
    } else {
      CheckNodeIsFirstInPreorder(rt, key);
      FoundOnRight(l, k, rt, key);
    }
  }

  lemma FoundAtRoot(l: Tree, k: int, rt: Tree)
    ensures CheckNode(Node(l, k, rt), k) == Some(Loc(Node(l, k, rt), []))
    ensures FirstInPreorder(Node(l, k, rt), k, 0)
  {
  }

  lemma FoundOnLeft(l: Tree, k: int, rt: Tree, key: int)
    requires k != key && CheckNode(l, key).Some?
    requires FirstInPreorder(l, key, PreIndex(CheckNode(l, key).value.path))
    ensures CheckNode(Node(l, k, rt), key).Some?
    ensures FirstInPreorder(Node(l, k, rt), key, PreIndex(CheckNode(Node(l, k, rt), key).value.path))
  {
    var n := CheckNode(l, key).value;
    assert CheckNode(Node(l, k, rt), key) == Some(Loc(n.focus, [WentLeft(k, rt)] + n.path));
    PreIndexCons(WentLeft(k, rt), n.path);
    FirstInLeftSubtree(l, k, rt, key, PreIndex(n.path));
  }

  lemma FoundOnRight(l: Tree, k: int, rt: Tree, key: int)
    requires k != key && CheckNode(l, key).None? && CheckNode(rt, key).Some?
    requires FirstInPreorder(rt, key, PreIndex(CheckNode(rt, key).value.path))
    ensures CheckNode(Node(l, k, rt), key).Some?
    ensures FirstInPreorder(Node(l, k, rt), key, PreIndex(CheckNode(Node(l, k, rt), key).value.path))
  {
    var n := CheckNode(rt, key).value;
    assert CheckNode(Node(l, k, rt), key) == Some(Loc(n.focus, [WentRight(l, k)] + n.path));
    PreIndexCons(WentRight(l, k), n.path);
    NotFoundNotInPreorder(l, key);
    FirstInRightSubtree(l, k, rt, key, PreIndex(n.path));
  }

  lemma PreIndexCons(c: Crumb, path: seq<Crumb>)
    ensures PreIndex([c] + path) == (if c.WentLeft? then 1 else 1 + Size(c.left)) + PreIndex(path)
  {
    assert ([c] + path)[1..] == path;
  }

  lemma NotFoundNotInPreorder(t: Tree, key: int)
    requires CheckNode(t, key).None?
    ensures key !in PreOrder(t)
  {
    CheckNodeLocates(t, key);
    PreOrderKeys(t);
    assert key !in multiset(PreOrder(t));
  }

  lemma FirstInLeftSubtree(l: Tree, k: int, rt: Tree, key: int, i: nat)
    requires k != key && FirstInPreorder(l, key, i)
    ensures FirstInPreorder(Node(l, k, rt), key, 1 + i)
  {
    FirstAfter([k], PreOrder(l) + PreOrder(rt), key, i);
    assert [k] + (PreOrder(l) + PreOrder(rt)) == PreOrder(Node(l, k, rt));
  }

  lemma FirstInRightSubtree(l: Tree, k: int, rt: Tree, key: int, i: nat)
    requires k != key && key !in PreOrder(l) && FirstInPreorder(rt, key, i)
    ensures FirstInPreorder(Node(l, k, rt), key, 1 + Size(l) + i)
  {
    FirstAfter([k] + PreOrder(l), PreOrder(rt), key, i);
  }

  /** The first `key` of b stays the first one behind a prefix without `key`. */
  lemma FirstAfter(a: seq<int>, b: seq<int>, key: int, i: nat)
    requires key !in a
    requires i < |b| && b[i] == key && forall j | 0 <= j < i :: b[j] != key
    ensures var s := a + b;
            && s[|a| + i] == key
            && forall j | 0 <= j < |a| + i :: s[j] != key
  {
    var s := a + b;
    forall j | 0 <= j < |a| + i ensures s[j] != key {
      if j < |a| {
        assert s[j] == a[j];
      } else {
        assert s[j] == b[j - |a|];
      }
    }
  }

  // ---------------------------------------------------------------------
  // inOrderSuccessor

  /** Every step of `path` from index `from` on goes to a left child. */
  predicate LeftStepsFrom(path: seq<Crumb>, from: nat) {
    forall i | from <= i < |path| :: path[i].WentLeft?
  }

  /** Tree.java `whileNodeLessThanChild(node)`: follow left links down to the
      leftmost node of the subtree at `n`. */
  function WhileNodeLessThanChild(n: Loc): (r: Loc)
    requires n.focus.Node?
    ensures r.focus.Node? && r.focus.left == Leaf
    ensures Whole(r) == Whole(n)
    ensures |n.path| <= |r.path| && r.path[..|n.path|] == n.path
    ensures LeftStepsFrom(r.path, |n.path|)
    decreases n.focus
  {
    match n.focus
    case Node(l, k, rt) =>
      if l == Leaf then n
      else
        var down := Loc(l, n.path + [WentLeft(k, rt)]);
        PlugAppend(l, n.path, WentLeft(k, rt));
        var r := WhileNodeLessThanChild(down);
        assert r.path[..|n.path|] == r.path[..|down.path|][..|n.path|];
        assert r.path[|n.path|] == down.path[|n.path|];
        assert LeftStepsFrom(r.path, |n.path|) by {
          forall i | |n.path| <= i < |r.path| ensures r.path[i].WentLeft? {
            if i > |n.path| { assert LeftStepsFrom(r.path, |down.path|); }
          }
        }
        r
  }

  /** The node `whileNodeLessThanChild` reaches holds the first key of the
      in-order listing of the subtree it starts from. */
  lemma {:induction false} LeftmostIsFirstInOrder(n: Loc)
    requires n.focus.Node?
    ensures WhileNodeLessThanChild(n).focus.key == InOrder(n.focus)[0]
    decreases n.focus
  {
    match n.focus
    case Node(l, k, rt) =>
      if l == Leaf {
        assert InOrder(n.focus) == [k] + InOrder(rt);
      } else {
        LeftmostIsFirstInOrder(Loc(l, n.path + [WentLeft(k, rt)]));
        var a := InOrder(l);
        assert |a| > 0;
        assert InOrder(n.focus) == a + ([k] + InOrder(rt));
      }
  }

  /** Key of the ancestor at depth i of location n (depth |n.path| is n itself). */
  function AncestorKey(n: Loc, i: nat): int
    requires n.focus.Node? && i <= |n.path|
  {
    if i < |n.path| then n.path[i].key else n.focus.key
  }

  /** Tree.java `whileNodeLessThan(node, key)`: the node itself if its key is
      strictly greater than `key`, else the same question to its parent.
      Where the Java code reaches a null node and dereferences it (the climb
      ran past the root), the model answers `None`. */
  function WhileNodeLessThan(node: Option<Loc>, key: int): (r: Option<Loc>)
    requires node.Some? ==> node.value.focus.Node?
    ensures node.None? ==> r.None?
    ensures node.Some? && r.None? ==>
              forall i | 0 <= i <= |node.value.path| :: AncestorKey(node.value, i) <= key
    ensures r.Some? ==>
              var n, m := node.value, r.value;
              && Whole(m) == Whole(n) && m.focus.Node?
              && |m.path| <= |n.path| && m.path == n.path[..|m.path|]
              && m.focus.key == AncestorKey(n, |m.path|) > key
              && forall i | |m.path| < i <= |n.path| :: AncestorKey(n, i) <= key
    decreases if node.None? then 0 else |node.value.path| + 1
  {
    match node
    case None => None
    case Some(n) =>
      if n.focus.key > key then node
      else
        ParentAncestorKeys(n);
        WhileNodeLessThan(Parent(n), key)
  }

  lemma ParentAncestorKeys(n: Loc)
    requires n.focus.Node?
    ensures Parent(n).Some? ==>
              var p := Parent(n).value;
              forall i | 0 <= i <= |p.path| :: AncestorKey(p, i) == AncestorKey(n, i)
  {
  }

  /** Tree.java `inOrderSuccessor(node)` / `findNextSuccessorRec(node)`: a
      null handle gives null; a node with a right child gives the leftmost
      node of its right subtree; otherwise the nearest proper ancestor whose
      key is strictly greater than the node's. */
  function InOrderSuccessor(node: Option<Loc>): Option<Loc>
    requires node.Some? ==> node.value.focus.Node?
  {
    match node
    case None => None
    case Some(n) =>
      if n.focus.right != Leaf then
        PlugAppend(n.focus.right, n.path, WentRight(n.focus.left, n.focus.key));
        Some(WhileNodeLessThanChild(Loc(n.focus.right, n.path + [WentRight(n.focus.left, n.focus.key)])))
      else WhileNodeLessThan(Parent(n), n.focus.key)
  }

  /** The successor of a node with a right child is the leftmost node of that
      right subtree: the first key of its in-order listing, reached by one step
      right and then left steps only. */
  lemma SuccessorWithRightChild(n: Loc)
    requires n.focus.Node? && n.focus.right != Leaf
    ensures InOrderSuccessor(Some(n)).Some?
    ensures var m := InOrderSuccessor(Some(n)).value;
            && Whole(m) == Whole(n)
            && m.focus.key == InOrder(n.focus.right)[0] && m.focus.left == Leaf
            && |m.path| > |n.path| && m.path[..|n.path|] == n.path
            && m.path[|n.path|] == WentRight(n.focus.left, n.focus.key)
            && LeftStepsFrom(m.path, |n.path| + 1)
  {
    var c := WentRight(n.focus.left, n.focus.key);
    var m := WhileNodeLessThanChild(Loc(n.focus.right, n.path + [c]));
    LeftmostIsFirstInOrder(Loc(n.focus.right, n.path + [c]));
    PlugAppend(n.focus.right, n.path, c);
    assert m.path[..|n.path| + 1] == n.path + [c];
    assert m.path[..|n.path|] == (n.path + [c])[..|n.path|];
  }

  /** Without a right child the successor is the nearest proper ancestor with
      a strictly greater key; ancestors with smaller or equal keys are skipped,
      and when every ancestor is skipped there is none. */
  lemma SuccessorWithoutRightChild(n: Loc)
    requires n.focus.Node? && n.focus.right == Leaf
    ensures InOrderSuccessor(Some(n)).None? <==>
              forall i | 0 <= i < |n.path| :: n.path[i].key <= n.focus.key
    ensures InOrderSuccessor(Some(n)).Some? ==>
              var m := InOrderSuccessor(Some(n)).value;
              && Whole(m) == Whole(n) && m.focus.Node?
              && |m.path| < |n.path| && m.path == n.path[..|m.path|]
              && m.focus.key == n.path[|m.path|].key > n.focus.key
              && forall i | |m.path| < i < |n.path| :: n.path[i].key <= n.focus.key
  {
    var k := n.focus.key;
    var p := Parent(n);
    if p.Some? {
      var up := p.value.path;
      assert n.path == up + [n.path[|n.path| - 1]];
      forall i | 0 <= i <= |up| ensures AncestorKey(p.value, i) == n.path[i].key { }
    }
  }

  // ---------------------------------------------------------------------
  // Positions in the in-order listing

  /** Keys an ancestor step lists before the subtree it leads into. */
  function Ahead(c: Crumb): seq<int> {
    match c
    case WentLeft(_, _) => []
    case WentRight(l, k) => InOrder(l) + [k]
  }

  /** Keys an ancestor step lists after the subtree it leads into. */
  function Behind(c: Crumb): seq<int> {
    match c
    case WentLeft(k, r) => [k] + InOrder(r)
    case WentRight(_, _) => []
  }

  /** The keys of the whole tree listed in in-order before the end of `path`. */
  function Before(path: seq<Crumb>): seq<int>
    decreases |path|
  {
    if path == [] then [] else Ahead(path[0]) + Before(path[1..])
  }

  /** The keys of the whole tree listed in in-order after the end of `path`. */
  function After(path: seq<Crumb>): seq<int>
    decreases |path|
  {
    if path == [] then [] else After(path[1..]) + Behind(path[0])
  }

  /** Position of the node at `n` in the in-order listing of the whole tree. */
  function InIndex(n: Loc): nat
    requires n.focus.Node?
  {
    |Before(n.path)| + Size(n.focus.left)
  }

  /** The in-order listing of a node hung below an ancestor step. */
  lemma AttachInOrder(c: Crumb, u: Tree)
    ensures InOrder(Attach(c, u)) == Ahead(c) + InOrder(u) + Behind(c)
  {
    match c
    case WentLeft(k, r) =>
      assert InOrder(Attach(c, u)) == InOrder(u) + [k] + InOrder(r);
    case WentRight(l, k) =>
  }

  lemma Regroup<T>(p: seq<T>, b: seq<T>, t: seq<T>, a: seq<T>, q: seq<T>)
    ensures p + (b + t + a) + q == (p + b) + t + (a + q)
  {
  }

  /** The in-order listing of a tree splits around any of its subtrees. */
  lemma {:induction false} PlugInOrder(t: Tree, path: seq<Crumb>)
    ensures InOrder(Plug(t, path)) == Before(path) + InOrder(t) + After(path)
    decreases |path|
  {
    if path != [] {
      var c, rest := path[0], path[1..];
      PlugInOrder(t, rest);
      AttachInOrder(c, Plug(t, rest));
      Regroup(Ahead(c), Before(rest), InOrder(t), After(rest), Behind(c));
    }
  }

  /** `InIndex(n)` is a position of the whole listing, and it holds n's key. */
  lemma InIndexHoldsKey(n: Loc)
    requires n.focus.Node?
    ensures InIndex(n) < Size(Whole(n))
    ensures InOrder(Whole(n))[InIndex(n)] == n.focus.key
  {
    var Node(l, k, r) := n.focus;
    var b, a := Before(n.path), After(n.path);
    PlugInOrder(n.focus, n.path);
    assert InOrder(n.focus) == InOrder(l) + [k] + InOrder(r);
    Regroup(b, InOrder(l), [k], InOrder(r), a);
    var s := InOrder(Whole(n));
    assert s == (b + InOrder(l)) + [k] + (InOrder(r) + a);
  }

  lemma {:induction false} BeforeAppend(a: seq<Crumb>, b: seq<Crumb>)
    ensures Before(a + b) == Before(a) + Before(b)
    decreases |a|
  {
    if a != [] {
      assert (a + b)[0] == a[0] && (a + b)[1..] == a[1..] + b;
      BeforeAppend(a[1..], b);
      assert Before(a + b) == Ahead(a[0]) + (Before(a[1..]) + Before(b));
    } else {
      assert a + b == b;
    }
  }

  /** Left steps list nothing before the subtree they lead into. */
  lemma {:induction false} LeftStepsListNothingBefore(path: seq<Crumb>)
    requires LeftStepsFrom(path, 0)
    ensures Before(path) == []
    decreases |path|
  {
    if path != [] {
      assert LeftStepsFrom(path[1..], 0) by {
        forall i | 0 <= i < |path[1..]| ensures path[1..][i].WentLeft? {
          assert path[1..][i] == path[i + 1];
        }
      }
      LeftStepsListNothingBefore(path[1..]);
    }
  }

  /** Right steps list nothing after the subtree they lead into. */
  lemma {:induction false} RightStepsListNothingAfter(path: seq<Crumb>)
    requires forall i | 0 <= i < |path| :: path[i].WentRight?
    ensures After(path) == []
    decreases |path|
  {
    if path != [] {
      assert forall i | 0 <= i < |path[1..]| :: path[1..][i].WentRight? by {
        forall i | 0 <= i < |path[1..]| ensures path[1..][i].WentRight? {
          assert path[1..][i] == path[i + 1];
        }
      }
      RightStepsListNothingAfter(path[1..]);
    }
  }

  lemma {:induction false} PlugSplit(t: Tree, a: seq<Crumb>, b: seq<Crumb>)
    ensures Plug(t, a + b) == Plug(Plug(t, b), a)
    decreases |a|
  {
    if a != [] {
      assert (a + b)[0] == a[0] && (a + b)[1..] == a[1..] + b;
      PlugSplit(t, a[1..], b);
    } else {
      assert a + b == b;
    }
  }

  lemma {:induction false} PlugInjective(t1: Tree, t2: Tree, path: seq<Crumb>)
    requires Plug(t1, path) == Plug(t2, path)
    ensures t1 == t2
    decreases |path|
  {
    if path != [] {
      PlugInjective(t1, t2, path[1..]);
    }
  }

  lemma {:induction false} KeyInPlug(t: Tree, path: seq<Crumb>)
    requires t.Node?
    ensures t.key in Elems(Plug(t, path))
    decreases |path|
  {
    if path != [] {
      KeyInPlug(t, path[1..]);
    }
  }

  /** In an ordered tree, an ancestor the path leaves to the left holds a
      greater key than the node, and one it leaves to the right a key at most
      the node's. */
  lemma {:induction false} AncestorSides(t: Tree, path: seq<Crumb>)
    requires t.Node? && Ordered(Plug(t, path))
    ensures forall i | 0 <= i < |path| ::
              && (path[i].WentLeft? ==> t.key < path[i].key)
              && (path[i].WentRight? ==> path[i].key <= t.key)
    decreases |path|
  {
    if path != [] {
      var rest := path[1..];
      KeyInPlug(t, rest);
      StepSide(path[0], Plug(t, rest), t.key);
      AncestorSides(t, rest);
      forall i | 0 < i < |path|
        ensures && (path[i].WentLeft? ==> t.key < path[i].key)
                && (path[i].WentRight? ==> path[i].key <= t.key)
      {
        assert path[i] == rest[i - 1];
      }
    }
  }

  /** One ancestor step of an ordered tree, seen from a key below it. */
  lemma StepSide(c: Crumb, u: Tree, key: int)
    requires key in Elems(u) && Ordered(Attach(c, u))
    ensures Ordered(u)
    ensures c.WentLeft? ==> key < c.key
    ensures c.WentRight? ==> c.key <= key
  {
  }

  /** Two nodes of one tree at the same in-order position are the same node. */
  lemma {:induction false} InIndexIdentifies(a: Loc, b: Loc)
    requires a.focus.Node? && b.focus.Node? && Whole(a) == Whole(b)
    requires InIndex(a) == InIndex(b)
    ensures a == b
    decreases |a.path| + |b.path|
  {
    if a.path == [] && b.path == [] {
    } else if a.path == [] {
      RootIndexDiffers(a, b);
    } else if b.path == [] {
      RootIndexDiffers(b, a);
    } else {
      var a1, b1 := Loc(a.focus, a.path[1..]), Loc(b.focus, b.path[1..]);
      StepDown(a);
      StepDown(b);
      InIndexHoldsKey(a1);
      InIndexHoldsKey(b1);
      assert a.path[0] == b.path[0] && Whole(a1) == Whole(b1);
      InIndexIdentifies(a1, b1);
      assert a.path == [a.path[0]] + a1.path && b.path == [b.path[0]] + b1.path;
    }
  }

  /** The first step of a path, seen from the root. */
  lemma StepDown(a: Loc)
    requires a.focus.Node? && a.path != []
    ensures var a1 := Loc(a.focus, a.path[1..]);
            && Whole(a) == Attach(a.path[0], Whole(a1))
            && InIndex(a) == |Ahead(a.path[0])| + InIndex(a1)
  {
  }

  /** The root's in-order position is taken by no node below it. */
  lemma RootIndexDiffers(a: Loc, b: Loc)
    requires a.focus.Node? && b.focus.Node? && Whole(a) == Whole(b)
    requires a.path == [] && b.path != []
    ensures InIndex(a) != InIndex(b)
  {
    StepDown(b);
    InIndexHoldsKey(Loc(b.focus, b.path[1..]));
  }

  /** With a right child, the successor sits one in-order position further. */
  lemma SuccessorIndexWithRightChild(n: Loc)
    requires n.focus.Node? && n.focus.right != Leaf
    ensures InOrderSuccessor(Some(n)).Some?
    ensures var m := InOrderSuccessor(Some(n)).value;
            m.focus.Node? && InIndex(m) == InIndex(n) + 1
  {
    SuccessorWithRightChild(n);
    var m := InOrderSuccessor(Some(n)).value;
    var c := WentRight(n.focus.left, n.focus.key);
    var below := m.path[|n.path| + 1..];
    assert m.path == n.path + [c] + below;
    assert LeftStepsFrom(below, 0) by {
      forall i | 0 <= i < |below| ensures below[i].WentLeft? {
        assert below[i] == m.path[|n.path| + 1 + i];
      }
    }
    LeftStepsListNothingBefore(below);
    BeforeAppend(n.path + [c], below);
    BeforeAppend(n.path, [c]);
    assert Before([c]) == InOrder(n.focus.left) + [n.focus.key];
  }

  lemma SplitAt(p: seq<Crumb>, j: nat)
    requires j < |p|
    ensures p == p[..j] + ([p[j]] + p[j + 1..])
  {
    assert p == p[..j] + p[j..];
    assert p[j..] == [p[j]] + p[j + 1..];
  }

  /** The subtree at an ancestor of n: the ancestor's step with the rest of
      the path below it hung in. */
  lemma AncestorFocus(n: Loc, m: Loc)
    requires Whole(m) == Whole(n) && |m.path| < |n.path| && m.path == n.path[..|m.path|]
    ensures m.focus == Attach(n.path[|m.path|], Plug(n.focus, n.path[|m.path| + 1..]))
  {
    var j := |m.path|;
    var c, s := n.path[j], n.path[j + 1..];
    SplitAt(n.path, j);
    PlugSplit(n.focus, m.path, [c] + s);
    PlugInjective(m.focus, Plug(n.focus, [c] + s), m.path);
    assert ([c] + s)[0] == c && ([c] + s)[1..] == s;
  }

  /** The nearest ancestor left to the left, above right steps only, sits one
      in-order position after a node without a right child. */
  lemma LeftTurnIndex(n: Loc, m: Loc)
    requires n.focus.Node? && n.focus.right == Leaf && m.focus.Node?
    requires Whole(m) == Whole(n) && |m.path| < |n.path| && m.path == n.path[..|m.path|]
    requires n.path[|m.path|].WentLeft?
    requires forall i | |m.path| < i < |n.path| :: n.path[i].WentRight?
    ensures InIndex(m) == InIndex(n) + 1
  {
    var j := |m.path|;
    var c, s := n.path[j], n.path[j + 1..];
    assert forall i | 0 <= i < |s| :: s[i].WentRight? by {
      forall i | 0 <= i < |s| ensures s[i].WentRight? {
        assert s[i] == n.path[j + 1 + i];
      }
    }
    RightStepsListNothingAfter(s);
    AncestorFocus(n, m);
    PlugInOrder(n.focus, s);
    assert Size(m.focus.left) == |Before(s)| + Size(n.focus);
    SplitAt(n.path, j);
    BeforeAppend(m.path, [c] + s);
    BeforeAppend([c], s);
    assert Before([c]) == [];
  }

  /** Without a right child, on an ordered tree: the successor sits one
      in-order position further, and there is none exactly when the node
      is last. */
  lemma SuccessorIndexWithoutRightChild(n: Loc)
    requires n.focus.Node? && n.focus.right == Leaf && Ordered(Whole(n))
    ensures InOrderSuccessor(Some(n)).None? ==> InIndex(n) + 1 == Size(Whole(n))
    ensures InOrderSuccessor(Some(n)).Some? ==>
              var m := InOrderSuccessor(Some(n)).value;
              m.focus.Node? && InIndex(m) == InIndex(n) + 1
  {
    SuccessorWithoutRightChild(n);
    AncestorSides(n.focus, n.path);
    if InOrderSuccessor(Some(n)).None? {
      RightStepsListNothingAfter(n.path);
      PlugInOrder(n.focus, n.path);
    } else {
      var m := InOrderSuccessor(Some(n)).value;
      LeftTurnIndex(n, m);
    }
  }

  /** Tree.java `inOrderSuccessor(node)` answers the node at the next position
      of the in-order listing, and nothing when the node is the last one. For
      a node with a right child this holds in any tree; otherwise the tree
      must be ordered as `insert` leaves it. */
  lemma SuccessorIsNextInOrder(n: Loc)
    requires n.focus.Node?
    requires n.focus.right != Leaf || Ordered(Whole(n))
    ensures InOrderSuccessor(Some(n)).None? <==> InIndex(n) + 1 == Size(Whole(n))
    ensures InOrderSuccessor(Some(n)).Some? ==>
              var m := InOrderSuccessor(Some(n)).value;
              && Whole(m) == Whole(n) && m.focus.Node?
              && InIndex(m) == InIndex(n) + 1 < Size(Whole(n))
              && m.focus.key == InOrder(Whole(n))[InIndex(n) + 1]
  {
    if n.focus.right != Leaf {
      SuccessorWithRightChild(n);
      SuccessorIndexWithRightChild(n);
    } else {
      SuccessorWithoutRightChild(n);
      SuccessorIndexWithoutRightChild(n);
    }
    if InOrderSuccessor(Some(n)).Some? {
      InIndexHoldsKey(InOrderSuccessor(Some(n)).value);
    }
  }
}
