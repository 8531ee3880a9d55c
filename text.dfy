/// The text views of Tree.java over tree values: `inOrderToString`,
/// `toString` (the rotated shape with parent keys), `printAllPaths` (one line
/// per root-to-leaf path) and the label of a single node.
module Text {
  import opened Trees

  // ---------------------------------------------------------------------
  // Decimal rendering of a key, as `key + ""` does for an Integer.

  predicate IsDigit(c: char) { '0' <= c <= '9' }

  function DigitChar(d: int): (c: char)
    requires 0 <= d < 10
    ensures IsDigit(c)
  {
    (('0' as int) + d) as char
  }

  function NatToString(n: nat): (s: string)
    ensures s != []
    decreases n
  {
    if n < 10 then [DigitChar(n)] else NatToString(n / 10) + [DigitChar(n % 10)]
  }

  predicate AllDigits(s: string) {
    forall i | 0 <= i < |s| :: IsDigit(s[i])
  }

  lemma {:induction false} NatToStringDigits(n: nat)
    ensures AllDigits(NatToString(n))
    decreases n
  {
    if n >= 10 {
      NatToStringDigits(n / 10);
      var s := NatToString(n);
      forall i | 0 <= i < |s| ensures IsDigit(s[i]) {
        if i < |s| - 1 {
          assert s[i] == NatToString(n / 10)[i];
        }
      }
    }
  }

  /** Decimal text of an integer: a minus sign for negatives, then the digits. */
  function IntToString(x: int): string {
    if x < 0 then "-" + NatToString(-x) else NatToString(x)
  }

  /** The value of a string of digits. */
  function DigitsValue(s: string): int
    decreases |s|
  {
    if s == [] then 0 else 10 * DigitsValue(s[..|s| - 1]) + (s[|s| - 1] as int - '0' as int)
  }

  /** Reads back an optional minus sign followed by digits. */
  function ParseInt(s: string): int {
    if s != [] && s[0] == '-' then -DigitsValue(s[1..]) else DigitsValue(s)
  }

  lemma {:induction false} NatToStringValue(n: nat)
    ensures DigitsValue(NatToString(n)) == n
    decreases n
  {
    if n >= 10 {
      NatToStringValue(n / 10);
      var s := NatToString(n);
      assert s[..|s| - 1] == NatToString(n / 10);
    }
  }

  /** The rendering of a key reads back as that key. */
  lemma IntToStringRoundTrip(x: int)
    ensures ParseInt(IntToString(x)) == x
  {
    if x < 0 {
      NatToStringValue(-x);
      assert IntToString(x)[1..] == NatToString(-x);
    } else {
      NatToStringValue(x);
      NatToStringDigits(x);
      assert IsDigit(IntToString(x)[0]);
    }
  }

  /** The rendering of a key holds no space, bracket, angle bracket or line break. */
  predicate Plain(c: char) { IsDigit(c) || c == '-' }

  lemma IntToStringIsPlain(x: int)
    ensures IntToString(x) != []
    ensures forall i | 0 <= i < |IntToString(x)| :: Plain(IntToString(x)[i])
  {
    var n := NatToString(if x < 0 then -x else x);
    NatToStringDigits(if x < 0 then -x else x);
    if x < 0 {
      forall i | 0 <= i < |IntToString(x)| ensures Plain(IntToString(x)[i]) {
        if i > 0 {
          assert IntToString(x)[i] == n[i - 1];
        }
      }
    }
  }

  predicate Avoids(w: string, c: char) {
    forall i | 0 <= i < |w| :: w[i] != c
  }

  /** The rendering of a key never holds a character other than digits and '-'. */
  lemma IntToStringAvoids(x: int, c: char)
    requires !Plain(c)
    ensures Avoids(IntToString(x), c)
  {
    IntToStringIsPlain(x);
  }

  lemma SeparatorNotBefore(w: string, x: string, c: char, j: int)
    requires Avoids(w, c) && 0 <= j < |w|
    ensures (w + [c] + x)[j] != c
  {
    assert (w + [c] + x)[j] == w[j];
  }

  /** Two words free of a separator, each followed by it, split the same way. */
  lemma SplitAtSeparator(w1: string, x: string, w2: string, y: string, c: char)
    requires Avoids(w1, c) && Avoids(w2, c)
    requires w1 + [c] + x == w2 + [c] + y
    ensures w1 == w2 && x == y
  {
    var s1, s2 := w1 + [c] + x, w2 + [c] + y;
    assert s1[|w1|] == c && s2[|w2|] == c;
    if |w1| < |w2| {
      SeparatorNotBefore(w2, y, c, |w1|);
    } else if |w2| < |w1| {
      SeparatorNotBefore(w1, x, c, |w2|);
    }
    assert w1 == s1[..|w1|] && w2 == s2[..|w2|];
    assert x == s1[|w1| + 1..] && y == s2[|w2| + 1..];
  }

  // ---------------------------------------------------------------------
  // `inOrderToString`: the name, a colon, and every key in in-order.

  /** Tree.java `findInOrderRec(node)`. */
  function FindInOrderRec(t: Tree): string {
    match t
    case Leaf => ""
    case Node(l, k, r) => FindInOrderRec(l) + IntToString(k) + " " + FindInOrderRec(r)
  }

  /** Tree.java `inOrderToString()`. */
  function InOrderToString(name: string, t: Tree): string {
    name + ": " + FindInOrderRec(t)
  }

  /** Each key of `s` written by `render` and followed by one space. */
  function Spaced(render: int -> string, s: seq<int>): string
    decreases |s|
  {
    if s == [] then "" else render(s[0]) + " " + Spaced(render, s[1..])
  }

  /** Reference rendering of a key listing: each key in decimal, then a space. */
  function KeysLine(s: seq<int>): string {
    Spaced(IntToString, s)
  }

  lemma {:induction false} SpacedAppend(render: int -> string, a: seq<int>, b: seq<int>)
    ensures Spaced(render, a + b) == Spaced(render, a) + Spaced(render, b)
    decreases |a|
  {
    if a == [] {
      assert a + b == b;
    } else {
      var w := render(a[0]) + " ";
      var x, y := Spaced(render, a[1..]), Spaced(render, b);
      assert Spaced(render, a + b) == w + (x + y) by {
        var ab := a + b;
        assert ab != [] && ab[0] == a[0] && ab[1..] == a[1..] + b;
        SpacedAppend(render, a[1..], b);
      }
      assert w + (x + y) == (w + x) + y;
    }
  }

  /** `findInOrderRec` writes the in-order listing, each key followed by a space. */
  lemma {:induction false} FindInOrderRecListsInOrder(t: Tree)
    ensures FindInOrderRec(t) == KeysLine(InOrder(t))
  {
    match t
    case Leaf =>
    case Node(l, k, r) =>
      FindInOrderRecListsInOrder(l);
      FindInOrderRecListsInOrder(r);
      KeysLineAroundPivot(InOrder(l), k, InOrder(r));
      FindInOrderRecAroundPivot(l, k, r);
  }

  lemma KeysLineAroundPivot(a: seq<int>, k: int, b: seq<int>)
    ensures KeysLine(a + [k] + b) == KeysLine(a) + (IntToString(k) + " ") + KeysLine(b)
  {
    SpacedAroundPivot(IntToString, a, k, b);
  }

  lemma SpacedAroundPivot(render: int -> string, a: seq<int>, k: int, b: seq<int>)
    ensures Spaced(render, a + [k] + b) == Spaced(render, a) + (render(k) + " ") + Spaced(render, b)
  {
    SpacedAppend(render, a + [k], b);
    SpacedAppend(render, a, [k]);
    assert Spaced(render, [k]) == render(k) + " " + Spaced(render, []);
  }

  lemma FindInOrderRecAroundPivot(l: Tree, k: int, r: Tree)
    ensures FindInOrderRec(Node(l, k, r)) == FindInOrderRec(l) + (IntToString(k) + " ") + FindInOrderRec(r)
  {
    var x, w, y := FindInOrderRec(l), IntToString(k), FindInOrderRec(r);
    assert x + w + " " + y == x + (w + " ") + y;
  }

  /** A key line determines its keys: different listings never print alike. */
  lemma {:induction false} KeysLineInjective(a: seq<int>, b: seq<int>)
    requires KeysLine(a) == KeysLine(b)
    ensures a == b
    decreases |a|
  {
    if a != [] && b != [] {
      IntToStringAvoids(a[0], ' ');
      IntToStringAvoids(b[0], ' ');
      assert KeysLine(a) == IntToString(a[0]) + [' '] + KeysLine(a[1..]);
      assert KeysLine(b) == IntToString(b[0]) + [' '] + KeysLine(b[1..]);
      SplitAtSeparator(IntToString(a[0]), KeysLine(a[1..]), IntToString(b[0]), KeysLine(b[1..]), ' ');
      IntToStringRoundTrip(a[0]);
      IntToStringRoundTrip(b[0]);
      KeysLineInjective(a[1..], b[1..]);
      assert a == [a[0]] + a[1..] && b == [b[0]] + b[1..];
    }
  }

  /** `inOrderToString` is the name, ": ", then the in-order keys each followed
      by a space; two trees with the same name print alike exactly when their
      in-order listings agree. */
  lemma InOrderToStringLists(name: string, t: Tree, u: Tree)
    ensures InOrderToString(name, t) == name + ": " + KeysLine(InOrder(t))
    ensures InOrderToString(name, t) == InOrderToString(name, u) <==> InOrder(t) == InOrder(u)
  {
    FindInOrderRecListsInOrder(t);
    FindInOrderRecListsInOrder(u);
    if InOrderToString(name, t) == InOrderToString(name, u) {
      var p := name + ": ";
      assert KeysLine(InOrder(t)) == InOrderToString(name, t)[|p|..];
      assert KeysLine(InOrder(u)) == InOrderToString(name, u)[|p|..];
      KeysLineInjective(InOrder(t), InOrder(u));
    }
  }

  // ---------------------------------------------------------------------
  // `toString`: the tree turned on its side, right subtree on top.

  /** The indentation `makeStringRec` builds with its loop: two spaces per
      level (none for a depth below one). */
  function Indent(depth: int): string
    decreases depth
  {
    if depth <= 0 then "" else Indent(depth - 1) + "  "
  }

  lemma {:induction false} IndentIsBlank(depth: int)
    ensures |Indent(depth)| == if depth <= 0 then 0 else 2 * depth
    ensures forall i | 0 <= i < |Indent(depth)| :: Indent(depth)[i] == ' '
    decreases depth
  {
    if depth > 0 {
      IndentIsBlank(depth - 1);
      var w := Indent(depth - 1);
      forall i | 0 <= i < |Indent(depth)| ensures Indent(depth)[i] == ' ' {
        if i < |w| {
          assert Indent(depth)[i] == w[i];
        }
      }
    }
  }

  /** `nullParent`: the parent's key, or "no parent" at the root. */
  function ParentLabel(parent: Option<int>): string {
    match parent
    case None => "no parent"
    case Some(pk) => IntToString(pk)
  }

  /** One line of `toString`: indent, key, the parent label in brackets. */
  function RowLine(depth: int, key: int, parent: Option<int>): string {
    Indent(depth) + IntToString(key) + "[" + ParentLabel(parent) + "]\n"
  }

  /** Tree.java `makeStringRec(node, depth)`; `parent` is the key held by
      `node.parent`, `None` when that link is null. */
  function MakeStringRec(t: Tree, parent: Option<int>, depth: nat): string {
    match t
    case Leaf => ""
    case Node(l, k, r) =>
      MakeStringRec(r, Some(k), depth + 1) + RowLine(depth, k, parent) + MakeStringRec(l, Some(k), depth + 1)
  }

  /** Tree.java `toString()`. */
  function ToString(name: string, t: Tree): string {
    if t == Leaf then "Empty Tree" else name + "\n" + MakeStringRec(t, None, 0)
  }

  /** Reference description of the lines: one row per node, top to bottom. */
  datatype Row = Row(depth: nat, key: int, parent: Option<int>)

  function Rows(t: Tree, parent: Option<int>, depth: nat): (rows: seq<Row>)
    ensures |rows| == Size(t)
  {
    match t
    case Leaf => []
    case Node(l, k, r) =>
      Rows(r, Some(k), depth + 1) + [Row(depth, k, parent)] + Rows(l, Some(k), depth + 1)
  }

  function Line(row: Row): string {
    RowLine(row.depth, row.key, row.parent)
  }

  /** The parts of `parts` written one after the other, each by `render`. */
  function Concat<T>(render: T -> string, parts: seq<T>): string
    decreases |parts|
  {
    if parts == [] then "" else render(parts[0]) + Concat(render, parts[1..])
  }

  lemma {:induction false} ConcatAppend<T>(render: T -> string, a: seq<T>, b: seq<T>)
    ensures Concat(render, a + b) == Concat(render, a) + Concat(render, b)
    decreases |a|
  {
    if a == [] {
      assert a + b == b;
    } else {
      var w := render(a[0]);
      var x, y := Concat(render, a[1..]), Concat(render, b);
      assert Concat(render, a + b) == w + (x + y) by {
        var ab := a + b;
        assert ab != [] && ab[0] == a[0] && ab[1..] == a[1..] + b;
        ConcatAppend(render, a[1..], b);
      }
      assert w + (x + y) == (w + x) + y;
    }
  }

  lemma ConcatAroundPivot<T>(render: T -> string, a: seq<T>, x: T, b: seq<T>)
    ensures Concat(render, a + [x] + b) == Concat(render, a) + render(x) + Concat(render, b)
  {
    ConcatAppend(render, a + [x], b);
    ConcatAppend(render, a, [x]);
    assert Concat(render, [x]) == render(x) + Concat(render, []);
  }

  /** `makeStringRec` writes the rows, one line each, in the order `Rows` lists them. */
  lemma {:induction false} MakeStringRecWritesRows(t: Tree, parent: Option<int>, depth: nat)
    ensures MakeStringRec(t, parent, depth) == Concat(Line, Rows(t, parent, depth))
  {
    match t
    case Leaf =>
    case Node(l, k, r) =>
      MakeStringRecWritesRows(r, Some(k), depth + 1);
      MakeStringRecWritesRows(l, Some(k), depth + 1);
      var row := Row(depth, k, parent);
      ConcatAroundPivot(Line, Rows(r, Some(k), depth + 1), row, Rows(l, Some(k), depth + 1));
      assert Line(row) == RowLine(depth, k, parent);
  }

  function RowKeys(rows: seq<Row>): (s: seq<int>)
    ensures |s| == |rows|
    ensures forall i | 0 <= i < |rows| :: s[i] == rows[i].key
  {
    seq(|rows|, i requires 0 <= i < |rows| => rows[i].key)
  }

  /** Reading the rows top to bottom lists the keys in reverse in-order. */
  lemma {:induction false} RowsListReverseInOrder(t: Tree, parent: Option<int>, depth: nat)
    ensures RowKeys(Rows(t, parent, depth)) == Reverse(InOrder(t))
  {
    match t
    case Leaf =>
    case Node(l, k, r) =>
      RowsListReverseInOrder(r, Some(k), depth + 1);
      RowsListReverseInOrder(l, Some(k), depth + 1);
      ReverseAroundPivot(InOrder(l), k, InOrder(r));
      var a, b := Rows(r, Some(k), depth + 1), Rows(l, Some(k), depth + 1);
      assert RowKeys(a + [Row(depth, k, parent)] + b) == RowKeys(a) + [k] + RowKeys(b);
  }

  /** Every row is indented between `depth` and `depth + height - 1` levels. */
  predicate DepthsWithin(rows: seq<Row>, lo: int, hi: int) {
    forall i | 0 <= i < |rows| :: lo <= rows[i].depth < hi
  }

  /** The rows at the top depth are the subtree root's, with the given parent label. */
  predicate TopRowsAre(rows: seq<Row>, depth: int, key: int, parent: Option<int>) {
    forall i | 0 <= i < |rows| :: rows[i].depth == depth ==> rows[i].key == key && rows[i].parent == parent
  }

  /** Every deeper row names a parent, and that parent is a key of the subtree. */
  predicate DeeperRowsHaveParent(rows: seq<Row>, depth: int, keys: multiset<int>) {
    forall i | 0 <= i < |rows| :: rows[i].depth > depth ==> rows[i].parent.Some? && rows[i].parent.value in keys
  }

  lemma {:induction false} RowsDepths(t: Tree, parent: Option<int>, depth: nat)
    ensures DepthsWithin(Rows(t, parent, depth), depth, depth + Height(t))
  {
    match t
    case Leaf =>
    case Node(l, k, r) =>
      RowsDepths(r, Some(k), depth + 1);
      RowsDepths(l, Some(k), depth + 1);
      var a, b := Rows(r, Some(k), depth + 1), Rows(l, Some(k), depth + 1);
      var rows := a + [Row(depth, k, parent)] + b;
      forall i | 0 <= i < |rows| ensures depth <= rows[i].depth < depth + Height(t) {
        if i < |a| {
          assert rows[i] == a[i];
        } else if i > |a| {
          assert rows[i] == b[i - |a| - 1];
        }
      }
  }

  /** Only the subtree root sits at the top depth, labelled with its own
      parent; every row below names a parent key from the subtree. */
  lemma {:induction false} RowsParents(t: Tree, parent: Option<int>, depth: nat)
    requires t.Node?
    ensures TopRowsAre(Rows(t, parent, depth), depth, t.key, parent)
    ensures DeeperRowsHaveParent(Rows(t, parent, depth), depth, Elems(t))
    decreases t, 0
  {
    var Node(l, k, r) := t;
    ChildRowsDeeper(r, k, depth, Elems(t));
    ChildRowsDeeper(l, k, depth, Elems(t));
    JoinRows(Rows(r, Some(k), depth + 1), Row(depth, k, parent), Rows(l, Some(k), depth + 1), depth, Elems(t));
  }

  /** All rows sit below `depth` and name a parent key from `keys`. */
  predicate AllDeeper(rows: seq<Row>, depth: int, keys: multiset<int>) {
    forall i | 0 <= i < |rows| :: rows[i].depth > depth && rows[i].parent.Some? && rows[i].parent.value in keys
  }

  lemma {:induction false} ChildRowsDeeper(c: Tree, k: int, depth: nat, keys: multiset<int>)
    requires k in keys && Elems(c) <= keys
    ensures AllDeeper(Rows(c, Some(k), depth + 1), depth, keys)
    decreases c, 1
  {
    if c.Node? {
      RowsDepths(c, Some(k), depth + 1);
      RowsParents(c, Some(k), depth + 1);
    }
  }

  lemma JoinRows(a: seq<Row>, row: Row, b: seq<Row>, depth: int, keys: multiset<int>)
    requires AllDeeper(a, depth, keys) && AllDeeper(b, depth, keys) && row.depth == depth
    ensures TopRowsAre(a + [row] + b, depth, row.key, row.parent)
    ensures DeeperRowsHaveParent(a + [row] + b, depth, keys)
  {
    var rows := a + [row] + b;
    forall i | 0 <= i < |rows|
      ensures rows[i].depth == depth ==> rows[i] == row
      ensures rows[i].depth > depth ==> rows[i].parent.Some? && rows[i].parent.value in keys
    {
      if i < |a| {
        assert rows[i] == a[i];
      } else if i > |a| {
        assert rows[i] == b[i - |a| - 1];
      }
    }
  }

  /** One line per node: a non-empty tree's text has exactly as many line
      breaks as the name has plus the number of nodes. */
  lemma ToStringLines(name: string, t: Tree)
    requires t.Node?
    ensures Occurrences(ToString(name, t), '\n') == Occurrences(name, '\n') + 1 + Size(t)
  {
    OccurrencesAppend(name, "\n", '\n');
    OccurrencesAppend(name + "\n", MakeStringRec(t, None, 0), '\n');
    MakeStringRecWritesRows(t, None, 0);
    RowsLines(Rows(t, None, 0));
  }

  /** How many times `c` occurs in `s`. */
  function Occurrences(s: string, c: char): nat
    decreases |s|
  {
    if s == [] then 0 else (if s[0] == c then 1 else 0) + Occurrences(s[1..], c)
  }

  lemma {:induction false} OccurrencesAppend(a: string, b: string, c: char)
    ensures Occurrences(a + b, c) == Occurrences(a, c) + Occurrences(b, c)
    decreases |a|
  {
    if a == [] {
      assert a + b == b;
    } else {
      assert (a + b)[1..] == a[1..] + b;
      OccurrencesAppend(a[1..], b, c);
    }
  }

  lemma {:induction false} AvoidsMeansNone(w: string, c: char)
    requires Avoids(w, c)
    ensures Occurrences(w, c) == 0
    decreases |w|
  {
    if w != [] {
      AvoidsMeansNone(w[1..], c);
    }
  }

  lemma LineHasOneBreak(row: Row)
    ensures Occurrences(Line(row), '\n') == 1
  {
    var ind, key, lab := Indent(row.depth), IntToString(row.key), ParentLabel(row.parent);
    IndentIsBlank(row.depth);
    IntToStringAvoids(row.key, '\n');
    if row.parent.Some? {
      IntToStringAvoids(row.parent.value, '\n');
    }
    OneBreakAtEnd(ind, key, lab);
  }

  lemma OneBreakAtEnd(ind: string, key: string, lab: string)
    requires Avoids(ind, '\n') && Avoids(key, '\n') && Avoids(lab, '\n')
    ensures Occurrences(ind + key + "[" + lab + "]\n", '\n') == 1
  {
    AvoidsMeansNone(ind, '\n');
    AvoidsMeansNone(key, '\n');
    AvoidsMeansNone(lab, '\n');
    OccurrencesAppend(ind, key, '\n');
    OccurrencesAppend(ind + key, "[", '\n');
    OccurrencesAppend(ind + key + "[", lab, '\n');
    OccurrencesAppend(ind + key + "[" + lab, "]\n", '\n');
  }

  lemma {:induction false} RowsLines(rows: seq<Row>)
    ensures Occurrences(Concat(Line, rows), '\n') == |rows|
    decreases |rows|
  {
    if rows != [] {
      RowsLines(rows[1..]);
      LineHasOneBreak(rows[0]);
      OccurrencesAppend(Line(rows[0]), Concat(Line, rows[1..]), '\n');
    }
  }

  // ---------------------------------------------------------------------
  // `printAllPaths`: one line per root-to-leaf path, left subtree first.

  /** Tree.java `printNextRec(node, msg)`: the lines it prints, in order.
      It reads `node.key` first, so `node` must not be null. */
  function PrintNextRec(t: Tree, msg: string): seq<string>
    requires t.Node?
    decreases t
  {
    var line := msg + IntToString(t.key) + " ";
    if t.left == Leaf && t.right == Leaf then [line]
    else
      (if t.left.Node? then PrintNextRec(t.left, line) else [])
      + (if t.right.Node? then PrintNextRec(t.right, line) else [])
  }

  /** Tree.java `printAllPaths()`; an empty tree dereferences a null root. */
  function PrintAllPaths(t: Tree): seq<string>
    requires t.Node?
  {
    PrintNextRec(t, "")
  }

  /** Reference definition: the keys on every root-to-leaf path, left first. */
  function Paths(t: Tree): seq<seq<int>> {
    match t
    case Leaf => []
    case Node(Leaf, k, Leaf) => [[k]]
    case Node(l, k, r) => Prefixed(k, Paths(l) + Paths(r))
  }

  function Prefixed(k: int, ps: seq<seq<int>>): (r: seq<seq<int>>)
    ensures |r| == |ps| && forall i | 0 <= i < |ps| :: r[i] == [k] + ps[i]
  {
    seq(|ps|, i requires 0 <= i < |ps| => [k] + ps[i])
  }

  /** The keys from the root down to a node without children. */
  predicate IsRootToLeaf(t: Tree, p: seq<int>) {
    match t
    case Leaf => false
    case Node(l, k, r) =>
      && p != [] && p[0] == k
      && if l == Leaf && r == Leaf then |p| == 1
         else IsRootToLeaf(l, p[1..]) || IsRootToLeaf(r, p[1..])
  }

  /** The number of nodes without children. */
  function LeafCount(t: Tree): nat {
    match t
    case Leaf => 0
    case Node(Leaf, _, Leaf) => 1
    case Node(l, _, r) => LeafCount(l) + LeafCount(r)
  }

  /** `Paths` lists exactly the root-to-leaf paths, one per childless node. */
  lemma {:induction false} PathsAreRootToLeaf(t: Tree, p: seq<int>)
    ensures p in Paths(t) <==> IsRootToLeaf(t, p)
    ensures |Paths(t)| == LeafCount(t)
  {
    match t
    case Leaf =>
    case Node(l, k, r) =>
      if l == Leaf && r == Leaf {
        if IsRootToLeaf(t, p) {
          assert p == [k];
        }
      } else {
        var rest := if p == [] then p else p[1..];
        PathsAreRootToLeaf(l, rest);
        PathsAreRootToLeaf(r, rest);
        PrefixedMember(k, Paths(l) + Paths(r), p);
      }
  }

  lemma PrefixedMember(k: int, ps: seq<seq<int>>, p: seq<int>)
    ensures p in Prefixed(k, ps) <==> p != [] && p[0] == k && p[1..] in ps
  {
    var qs := Prefixed(k, ps);
    if p in qs {
      var i :| 0 <= i < |qs| && qs[i] == p;
      assert p[1..] == ps[i];
    }
    if p != [] && p[0] == k && p[1..] in ps {
      var i :| 0 <= i < |ps| && ps[i] == p[1..];
      assert p == [k] + p[1..];
      assert qs[i] == p;
    }
  }

  /** The lines printed for some paths below a common prefix `msg`. */
  function PathLines(msg: string, ps: seq<seq<int>>): (lines: seq<string>)
    ensures |lines| == |ps| && forall i | 0 <= i < |ps| :: lines[i] == msg + KeysLine(ps[i])
  {
    seq(|ps|, i requires 0 <= i < |ps| => msg + KeysLine(ps[i]))
  }

  lemma SpacedCons(render: int -> string, k: int, p: seq<int>)
    ensures Spaced(render, [k] + p) == render(k) + " " + Spaced(render, p)
  {
    assert ([k] + p)[1..] == p;
  }

  /** `printNextRec(node, msg)` prints, for each root-to-leaf path of the
      subtree, `msg` followed by the path's keys each followed by a space. */
  lemma {:induction false} PrintNextRecPrintsPaths(t: Tree, msg: string)
    requires t.Node?
    ensures PrintNextRec(t, msg) == PathLines(msg, Paths(t))
    decreases t
  {
    var Node(l, k, r) := t;
    var line := msg + IntToString(k) + " ";
    PrefixedLines(msg, k, if l == Leaf && r == Leaf then [[]] else Paths(l) + Paths(r));
    if l == Leaf && r == Leaf {
      var e: seq<int> := [];
      assert [k] + e == [k] && line + KeysLine(e) == line;
      assert Prefixed(k, [e])[0] == [k] && PathLines(line, [e])[0] == line;
      assert Prefixed(k, [e]) == [[k]];
      assert PathLines(line, [e]) == [line];
    } else {
      if l.Node? {
        PrintNextRecPrintsPaths(l, line);
      }
      if r.Node? {
        PrintNextRecPrintsPaths(r, line);
      }
      PathLinesAppend(line, Paths(l), Paths(r));
    }
  }

  lemma PathLinesAppend(msg: string, a: seq<seq<int>>, b: seq<seq<int>>)
    ensures PathLines(msg, a + b) == PathLines(msg, a) + PathLines(msg, b)
  {
    var lhs, rhs := PathLines(msg, a + b), PathLines(msg, a) + PathLines(msg, b);
    forall i | 0 <= i < |lhs| ensures lhs[i] == rhs[i] {
      if i < |a| {
        assert (a + b)[i] == a[i];
      } else {
        assert (a + b)[i] == b[i - |a|];
      }
    }
  }

  /** Printing paths under a key is printing the rest under the key's text. */
  lemma PrefixedLines(msg: string, k: int, ps: seq<seq<int>>)
    ensures PathLines(msg, Prefixed(k, ps)) == PathLines(msg + IntToString(k) + " ", ps)
  {
    var w := IntToString(k);
    var lhs, rhs := PathLines(msg, Prefixed(k, ps)), PathLines(msg + w + " ", ps);
    forall i | 0 <= i < |ps| ensures lhs[i] == rhs[i] {
      SpacedCons(IntToString, k, ps[i]);
      Regroup(msg, w, KeysLine(ps[i]));
    }
  }

  lemma Regroup(msg: string, w: string, rest: string)
    ensures msg + (w + " " + rest) == msg + w + " " + rest
  {
  }

  /** `printAllPaths` prints one line per root-to-leaf path: its keys, each
      followed by a space. */
  lemma PrintAllPathsLines(t: Tree)
    requires t.Node?
    ensures |PrintAllPaths(t)| == LeafCount(t)
    ensures forall line | line in PrintAllPaths(t) ::
      exists p | IsRootToLeaf(t, p) :: line == KeysLine(p)
  {
    PrintNextRecPrintsPaths(t, "");
    var lines := PrintAllPaths(t);
    forall line | line in lines ensures exists p | IsRootToLeaf(t, p) :: line == KeysLine(p) {
      var i :| 0 <= i < |lines| && lines[i] == line;
      var p := Paths(t)[i];
      PathsAreRootToLeaf(t, p);
      assert "" + KeysLine(p) == KeysLine(p);
    }
    PathsAreRootToLeaf(t, []);
  }

  // ---------------------------------------------------------------------
  // `BinaryTreeNode.toString()`.

  /** "Node:", the key, then the parent's key in angle brackets, or "<>" when
      the parent link is null. */
  function NodeLabel(key: int, parent: Option<int>): string {
    "Node:" + IntToString(key) + (match parent case None => "<>" case Some(pk) => "<" + IntToString(pk) + ">")
  }

  /** What follows the key's `<` in a label. */
  function ParentTail(parent: Option<int>): string {
    if parent.None? then ">" else IntToString(parent.value) + ">"
  }

  lemma NodeLabelParts(key: int, parent: Option<int>)
    ensures NodeLabel(key, parent) == "Node:" + (IntToString(key) + ['<'] + ParentTail(parent))
  {
  }

  lemma DropCommonPrefix(pre: string, a: string, b: string)
    requires pre + a == pre + b
    ensures a == b
  {
    assert a == (pre + a)[|pre|..];
    assert b == (pre + b)[|pre|..];
  }

  lemma IntToStringInjective(x: int, y: int)
    requires IntToString(x) == IntToString(y)
    ensures x == y
  {
    IntToStringRoundTrip(x);
    IntToStringRoundTrip(y);
  }

  lemma ParentTailInjective(p1: Option<int>, p2: Option<int>)
    requires ParentTail(p1) == ParentTail(p2)
    ensures p1 == p2
  {
    if p1.Some? {
      IntToStringIsPlain(p1.value);
    }
    if p2.Some? {
      IntToStringIsPlain(p2.value);
    }
    if p1.Some? && p2.Some? {
      var t1, t2 := ParentTail(p1), ParentTail(p2);
      assert IntToString(p1.value) == t1[..|t1| - 1];
      assert IntToString(p2.value) == t2[..|t2| - 1];
      IntToStringInjective(p1.value, p2.value);
    }
  }

  /** A node's label determines its key and its parent's key. */
  lemma NodeLabelInjective(k1: int, p1: Option<int>, k2: int, p2: Option<int>)
    requires NodeLabel(k1, p1) == NodeLabel(k2, p2)
    ensures k1 == k2 && p1 == p2
  {
    var w1, w2 := IntToString(k1), IntToString(k2);
    var x1, x2 := ParentTail(p1), ParentTail(p2);
    NodeLabelParts(k1, p1);
    NodeLabelParts(k2, p2);
    DropCommonPrefix("Node:", w1 + ['<'] + x1, w2 + ['<'] + x2);
    IntToStringAvoids(k1, '<');
    IntToStringAvoids(k2, '<');
    SplitAtSeparator(w1, x1, w2, x2, '<');
    IntToStringInjective(k1, k2);
    ParentTailInjective(p1, p2);
  }
}
