/// The node graph of Tree.java as it is updated in place: `BinaryTreeNode`
/// objects with key, child and parent links, and the `Tree` object that owns
/// the root and the name. Each node carries, as ghost state, the set of nodes
/// of its subtree (`Repr`) and the tree value that subtree spells (`Model`).
module Linked {
  import Trees
  import Balancing
  import Text

  /** The tree value below a possibly null link. */
  ghost function ModelOf(n: BinaryTreeNode?): Trees.Tree
    reads n
  {
    if n == null then Trees.Leaf else n.Model
  }

  /** The nodes below a possibly null link. */
  ghost function ReprOf(n: BinaryTreeNode?): set<BinaryTreeNode>
    reads n
  {
    if n == null then {} else n.Repr
  }

  /** The keys held by a list of nodes, in list order. */
  function Keys(list: seq<BinaryTreeNode>): (s: seq<int>)
    reads set i | 0 <= i < |list| :: list[i]
    ensures |s| == |list| && forall i | 0 <= i < |list| :: s[i] == list[i].key
  {
    seq(|list|, i requires 0 <= i < |list| reads list => list[i].key)
  }

  /** Tree.java `BinaryTreeNode`. */
  class BinaryTreeNode {
    var key: int
    var left: BinaryTreeNode?
    var right: BinaryTreeNode?
    var parent: BinaryTreeNode?
    ghost var Repr: set<BinaryTreeNode>
    ghost var Model: Trees.Tree

    /** The subtree below this node is a proper tree: two children own
        disjoint subtrees, every child points back to this node as its
        parent, and `Model` spells the subtree. */
    ghost predicate Valid()
      reads this, Repr
      decreases Repr
    {
      && this in Repr
      && (left != null ==>
            && left in Repr && left.Repr <= Repr && this !in left.Repr
            && left.parent == this && left.Valid())
      && (right != null ==>
            && right in Repr && right.Repr <= Repr && this !in right.Repr
            && right.parent == this && right.Valid())
      && (left != null && right != null ==> left.Repr !! right.Repr)
      && Model == Trees.Node(ModelOf(left), key, ModelOf(right))
    }

    /** Tree.java `new BinaryTreeNode(x, null, null, parent)`: a node without children. */
    constructor (theElement: int, pt: BinaryTreeNode?)
      ensures Valid() && Repr == {this}
      ensures key == theElement && left == null && right == null && parent == pt
      ensures Model == Trees.Node(Trees.Leaf, theElement, Trees.Leaf)
    {
      key := theElement;
      left := null;
      right := null;
      parent := pt;
      Repr := {this};
      Model := Trees.Node(Trees.Leaf, theElement, Trees.Leaf);
    }

    /** `BinaryTreeNode.toString()`. */
    function ToString(): string
      reads this, parent
    {
      Text.NodeLabel(key, if parent == null then Trees.None else Trees.Some(parent.key))
    }
  }

  /** `n` keeps its key and its parent link, and a child link of it
      changes only where it was null. */
  twostate predicate Kept(n: BinaryTreeNode)
    reads n
  {
    && n.key == old(n.key) && n.parent == old(n.parent)
    && (n.left == old(n.left) || old(n.left) == null)
    && (n.right == old(n.right) || old(n.right) == null)
  }

  /** Tree.java `insert(x, t, parent)`: below `t`, a key less than a node's
      key goes left and any other key goes right, until an empty link is
      reached; a new node hung there, with `parent` the node above it. The
      result is the subtree's root: the new node when `t` is null, else `t`. */
  method InsertAt(x: int, t: BinaryTreeNode?, parent: BinaryTreeNode?)
    returns (r: BinaryTreeNode, ghost leaf: BinaryTreeNode)
    requires t != null ==> t.Valid()
    modifies if t != null then t.Repr else {}
    ensures r.Valid() && r.Model == Trees.Insert(old(ModelOf(t)), x)
    ensures fresh(leaf) && leaf.key == x
    ensures t == null ==> r == leaf && r.Repr == {leaf} && r.parent == parent
    ensures t != null ==> r == t && r.Repr == old(t.Repr) + {leaf} && r.parent == old(t.parent)
    ensures t != null ==> forall n {:trigger Kept(n)} | n in old(t.Repr) :: Kept(n)
    decreases if t != null then t.Repr else {}
  {
    if t == null {
      r := new BinaryTreeNode(x, parent);
      leaf := r;
      return;
    }
    if x < t.key {
      var l;
      l, leaf := InsertAt(x, t.left, t);
      t.left := l;
      t.Repr, t.Model := t.Repr + {leaf}, Trees.Node(l.Model, t.key, ModelOf(t.right));
    } else {
      var rt;
      rt, leaf := InsertAt(x, t.right, t);
      t.right := rt;
      t.Repr, t.Model := t.Repr + {leaf}, Trees.Node(ModelOf(t.left), t.key, rt.Model);
    }
    r := t;
  }

  /** Tree.java `flipNodeChildren(node)`: swaps the two children of every
      node below `node`, in place; keys and parent links stay as they were. */
  method FlipNodeChildren(node: BinaryTreeNode)
    requires node.Valid()
    modifies node.Repr
    ensures node.Valid() && node.Repr == old(node.Repr)
    ensures node.Model == Trees.Mirror(old(node.Model))
    ensures node.left == old(node.right) && node.right == old(node.left)
    ensures node.key == old(node.key) && node.parent == old(node.parent)
    ensures forall n | n in old(node.Repr) :: n.key == old(n.key) && n.parent == old(n.parent)
    decreases node.Repr
  {
    var placeHold := node.right;
    node.right := node.left;
    node.left := placeHold;
    if node.left != null {
      FlipNodeChildren(node.left);
    }
    if node.right != null {
      FlipNodeChildren(node.right);
    }
    node.Model := Trees.Node(ModelOf(node.left), node.key, ModelOf(node.right));
  }

  /** Tree.java `findInOrderRecNode(node)`: the nodes below `node` in
      in-order. It reads `node.left` before anything else, so `node` must not
      be null. */
  method FindInOrderRecNode(node: BinaryTreeNode) returns (finalList: seq<BinaryTreeNode>)
    requires node.Valid()
    ensures AllIn(finalList, node.Repr)
    ensures Keys(finalList) == Trees.InOrder(node.Model)
    decreases node.Repr
  {
    ghost var a, b: seq<BinaryTreeNode> := [], [];
    finalList := [];
    if node.left != null {
      var sub := FindInOrderRecNode(node.left);
      finalList := finalList + sub;
      a := sub;
      AllInWider(a, node.left.Repr, node.Repr);
    }
    finalList := finalList + [node];
    if node.right != null {
      var sub := FindInOrderRecNode(node.right);
      finalList := finalList + sub;
      b := sub;
      AllInWider(b, node.right.Repr, node.Repr);
    }
    assert finalList == a + [node] + b;
    assert Keys(a) == Trees.InOrder(ModelOf(node.left)) && Keys(b) == Trees.InOrder(ModelOf(node.right));
    KeysAroundPivot(a, node, b);
    AllInJoin(a, node, b, node.Repr);
  }

  /** No node of `list` belongs to `objs`. */
  ghost predicate Outside(list: seq<BinaryTreeNode>, objs: set<object>) {
    forall i | 0 <= i < |list| :: list[i] !in objs
  }

  lemma OutsideParts(list: seq<BinaryTreeNode>, m: nat, objs: set<object>)
    requires m < |list| && Outside(list, objs)
    ensures list[m] !in objs && Outside(list[..m], objs) && Outside(list[m + 1..], objs)
  {
    var upper := list[m + 1..];
    forall i | 0 <= i < |upper| ensures upper[i] !in objs {
      assert upper[i] == list[m + 1 + i];
    }
  }

  /** Every node of `list` belongs to `nodes`. */
  ghost predicate AllIn(list: seq<BinaryTreeNode>, nodes: set<BinaryTreeNode>) {
    forall i | 0 <= i < |list| :: list[i] in nodes
  }

  lemma AllInWider(list: seq<BinaryTreeNode>, inner: set<BinaryTreeNode>, outer: set<BinaryTreeNode>)
    requires AllIn(list, inner) && inner <= outer
    ensures AllIn(list, outer)
  {
  }

  lemma AllInJoin(a: seq<BinaryTreeNode>, n: BinaryTreeNode, b: seq<BinaryTreeNode>, nodes: set<BinaryTreeNode>)
    requires AllIn(a, nodes) && n in nodes && AllIn(b, nodes)
    ensures AllIn(a + [n] + b, nodes)
  {
    var s := a + [n] + b;
    forall i | 0 <= i < |s| ensures s[i] in nodes {
      if i < |a| {
        assert s[i] == a[i];
      } else if i > |a| {
        assert s[i] == b[i - |a| - 1];
      }
    }
  }

  lemma KeysAroundPivot(a: seq<BinaryTreeNode>, n: BinaryTreeNode, b: seq<BinaryTreeNode>)
    ensures Keys(a + [n] + b) == Keys(a) + [n.key] + Keys(b)
  {
    var s := a + [n] + b;
    forall i | 0 <= i < |s| ensures Keys(s)[i] == (Keys(a) + [n.key] + Keys(b))[i] {
      if i < |a| {
        assert s[i] == a[i];
      } else if i > |a| {
        assert s[i] == b[i - |a| - 1];
      }
    }
  }

  /** Tree.java `makeStringRec(node, depth)`; `parentKey` names the key of
      `node.parent` (`None` when that link is null). */
  method MakeStringRec(node: BinaryTreeNode?, depth: nat, ghost parentKey: Trees.Option<int>) returns (s: string)
    requires node != null ==> node.Valid()
    requires node != null ==> (node.parent == null <==> parentKey.None?)
    requires node != null && node.parent != null ==> parentKey == Trees.Some(node.parent.key)
    ensures s == Text.MakeStringRec(ModelOf(node), parentKey, depth)
    decreases if node != null then node.Repr else {}
  {
    if node == null {
      return "";
    }
    var nullParent := "no parent";
    if node.parent != null {
      nullParent := Text.IntToString(node.parent.key);
    }
    var whiteSpace := "";
    var i := 0;
    while i < depth
      invariant 0 <= i <= depth
      invariant whiteSpace == Text.Indent(i)
    {
      whiteSpace := whiteSpace + "  ";
      i := i + 1;
    }
    var above := MakeStringRec(node.right, depth + 1, Trees.Some(node.key));
    var below := MakeStringRec(node.left, depth + 1, Trees.Some(node.key));
    s := above + (whiteSpace + Text.IntToString(node.key) + "[" + nullParent + "]\n") + below;
  }

  /** Tree.java `Tree<E>`: the root link and the name. */
  class Tree {
    var root: BinaryTreeNode?
    var name: string
    ghost var Repr: set<object>

    ghost predicate Valid()
      reads this, Repr
    {
      && this in Repr
      && (root != null ==>
            && root in Repr && root.Repr <= Repr && root.parent == null && root.Valid())
    }

    /** The tree value the node graph spells. */
    ghost function Model(): Trees.Tree
      reads this, root
    {
      ModelOf(root)
    }

    /** Tree.java `Tree(label)`: an empty tree. */
    constructor (treeLabel: string)
      ensures Valid() && fresh(Repr) && name == treeLabel
      ensures Model() == Trees.Leaf
    {
      root := null;
      name := treeLabel;
      Repr := {this};
    }

    /** Tree.java `Tree(arr, label)` (both the list and the array form): the
        keys of `arr` inserted one by one, in order. */
    constructor FromSeq(arr: seq<int>, treeLabel: string)
      ensures Valid() && fresh(Repr) && name == treeLabel
      ensures Model() == Trees.InsertAll(Trees.Leaf, arr)
    {
      root := null;
      name := treeLabel;
      Repr := {this};
      new;
      var i := 0;
      while i < |arr|
        invariant 0 <= i <= |arr|
        invariant Valid() && fresh(Repr) && name == treeLabel
        invariant Model() == Trees.InsertAll(Trees.Leaf, arr[..i])
      {
        Insert(arr[i]);
        assert arr[..i + 1][..i] == arr[..i];
        i := i + 1;
      }
      assert arr[..i] == arr;
    }

    /** Tree.java `insert(x)`: one new node holding x, hung at the slot the
        order-guided descent reaches. */
    method Insert(x: int)
      requires Valid()
      modifies Repr
      ensures Valid() && name == old(name) && root != null
      ensures Model() == Trees.Insert(old(Model()), x)
      ensures fresh(Repr - old(Repr)) && old(Repr) <= Repr
      ensures |Repr - old(Repr)| == 1 && root.Repr == old(ReprOf(root)) + (Repr - old(Repr))
      ensures old(root) != null ==> root == old(root)
      ensures forall n {:trigger Kept(n)} | n in old(ReprOf(root)) :: Kept(n)
    {
      ghost var leaf;
      root, leaf := InsertAt(x, root, null);
      Repr := Repr + {leaf};
      assert Repr - old(Repr) == {leaf};
    }

    /** Tree.java `flip()`: `flipNodeChildren(root)` dereferences the root, so
        the tree must not be empty. */
    method Flip()
      requires Valid() && root != null
      modifies Repr
      ensures Valid() && Repr == old(Repr) && root == old(root) && name == old(name)
      ensures Model() == Trees.Mirror(old(Model()))
      ensures root.left == old(root.right) && root.right == old(root.left)
      ensures forall n | n in old(root.Repr) :: n.key == old(n.key) && n.parent == old(n.parent)
    {
      FlipNodeChildren(root);
    }

    /** Tree.java `inOrderTraversalRec(sortedList)`: insert the key at index
        size/2, then treat the part before it and the part after it the
        same way. */
    method InOrderTraversalRec(sortedList: seq<BinaryTreeNode>, ghost keys: seq<int>)
      requires Valid() && Outside(sortedList, Repr)
      requires |keys| == |sortedList| && forall i | 0 <= i < |sortedList| :: sortedList[i].key == keys[i]
      modifies Repr
      ensures Valid() && name == old(name) && fresh(Repr - old(Repr)) && old(Repr) <= Repr
      ensures Model() == Balancing.InsertMedians(old(Model()), keys)
      decreases |sortedList|
    {
      if |sortedList| == 0 {
        return;
      }
      var midIndex := |sortedList| / 2;
      ghost var lo, hi := keys[..midIndex], keys[midIndex + 1..];
      ghost var before := Model();
      assert Balancing.InsertMedians(before, keys) == Balancing.InsertMedians(Balancing.InsertMedians(Trees.Insert(before, keys[midIndex]), lo), hi);
      var mid := sortedList[midIndex];
      var lower, upper := sortedList[..midIndex], sortedList[midIndex + 1..];
      OutsideParts(sortedList, midIndex, Repr);
      Insert(mid.key);
      assert Outside(lower, Repr) && Outside(upper, Repr);
      InOrderTraversalRec(lower, lo);
      assert Outside(upper, Repr);
      InOrderTraversalRec(upper, hi);
    }

    /** Tree.java `balanceTree()`: the in-order node list is taken, the root
        link cleared, and the keys re-inserted median first. The root is
        dereferenced first, so the tree must not be empty. */
    method BalanceTree()
      requires Valid() && root != null
      modifies Repr
      ensures Valid() && name == old(name)
      ensures Model() == Balancing.BalanceTree(old(Model()))
    {
      var sorted := FindInOrderRecNode(root);
      root := null;
      Repr := {this};
      InOrderTraversalRec(sorted, Keys(sorted));
    }

    /** Tree.java `toString()`. */
    method ToString() returns (s: string)
      requires Valid()
      ensures s == Text.ToString(name, Model())
    {
      if root == null {
        return "Empty Tree";
      }
      var body := MakeStringRec(root, 0, Trees.None);
      s := name + "\n" + body;
    }
  }
}
