/// `nodesInLevel` / `checkDepth` of Tree.java: how many nodes sit at a given
/// depth, the root being level 0.
module Levels {
  import opened Trees

  /** Tree.java `checkDepth(node, orgLevel, curLevel, count)`: an empty slot
      answers `count`, a node at the wanted level answers 1, and any other
      node sums the answers of its two children one level further down. */
  function CheckDepth(t: Tree, orgLevel: int, curLevel: int, count: int): int {
    match t
    case Leaf => count
    case Node(l, _, r) =>
      if orgLevel == curLevel then 1
      else CheckDepth(l, orgLevel, curLevel + 1, count) + CheckDepth(r, orgLevel, curLevel + 1, count)
  }

  /** Tree.java `nodesInLevel(level)`. */
  function NodesInLevel(t: Tree, level: int): int {
    CheckDepth(t, level, 0, 0)
  }

  /** Reference definition: the number of nodes at depth `d`. */
  function LevelCount(t: Tree, d: nat): nat {
    match t
    case Leaf => 0
    case Node(l, _, r) => if d == 0 then 1 else LevelCount(l, d - 1) + LevelCount(r, d - 1)
  }

  /** Sum of `LevelCount(t, d)` over the levels d < n. */
  function LevelSum(t: Tree, n: nat): nat {
    if n == 0 then 0 else LevelSum(t, n - 1) + LevelCount(t, n - 1)
  }

  /** Sum of `nodesInLevel(d)` over the levels d < n. */
  function NodesInLevels(t: Tree, n: nat): int {
    if n == 0 then 0 else NodesInLevels(t, n - 1) + NodesInLevel(t, n - 1)
  }

  lemma {:induction false} CheckDepthCounts(t: Tree, orgLevel: int, curLevel: int)
    ensures CheckDepth(t, orgLevel, curLevel, 0)
         == if orgLevel < curLevel then 0 else LevelCount(t, orgLevel - curLevel)
  {
    match t
    case Leaf =>
    case Node(l, _, r) =>
      if orgLevel != curLevel {
        CheckDepthCounts(l, orgLevel, curLevel + 1);
        CheckDepthCounts(r, orgLevel, curLevel + 1);
      }
  }

  /** `nodesInLevel` counts exactly the nodes at the given depth; a negative
      level has none. */
  lemma NodesInLevelIsLevelCount(t: Tree, level: int)
    ensures NodesInLevel(t, level) == if level < 0 then 0 else LevelCount(t, level)
  {
    CheckDepthCounts(t, level, 0);
  }

  lemma {:induction false} NoNodesBelowHeight(t: Tree, d: nat)
    requires d >= Height(t)
    ensures LevelCount(t, d) == 0
  {
    match t
    case Leaf =>
    case Node(l, _, r) =>
      NoNodesBelowHeight(l, d - 1);
      NoNodesBelowHeight(r, d - 1);
  }

  /** The boundary answers: 0 on an empty tree, on a negative level and on any
      level at or past the height; 1 for the root level of a non-empty tree. */
  lemma NodesInLevelBounds(t: Tree, level: int)
    ensures t == Leaf || level < 0 || level >= Height(t) ==> NodesInLevel(t, level) == 0
    ensures t.Node? && level == 0 ==> NodesInLevel(t, level) == 1
  {
    NodesInLevelIsLevelCount(t, level);
    if level >= Height(t) && level >= 0 {
      NoNodesBelowHeight(t, level);
    }
  }

  lemma {:induction false} LevelSumOfNode(l: Tree, k: int, r: Tree, n: nat)
    ensures LevelSum(Node(l, k, r), n + 1) == 1 + LevelSum(l, n) + LevelSum(r, n)
  {
    if n > 0 {
      LevelSumOfNode(l, k, r, n - 1);
    }
  }

  lemma {:induction false} LevelSumIsSize(t: Tree, n: nat)
    requires n >= Height(t)
    ensures LevelSum(t, n) == Size(t)
  {
    match t
    case Leaf =>
      if n > 0 {
        LevelSumIsSize(t, n - 1);
      }
    case Node(l, k, r) =>
      LevelSumOfNode(l, k, r, n - 1);
      LevelSumIsSize(l, n - 1);
      LevelSumIsSize(r, n - 1);
  }

  /** Summing `nodesInLevel` over the levels 0 .. height-1 gives the node count. */
  lemma {:induction false} LevelsSumToSize(t: Tree)
    ensures NodesInLevels(t, Height(t)) == Size(t)
  {
    LevelSumIsSize(t, Height(t));
    SumsAgree(t, Height(t));
  }

  lemma {:induction false} SumsAgree(t: Tree, n: nat)
    ensures NodesInLevels(t, n) == LevelSum(t, n)
  {
    if n > 0 {
      SumsAgree(t, n - 1);
      NodesInLevelIsLevelCount(t, n - 1);
    }
  }
}
