/**
 * The in-order AVL_Iterator of avl.c (avl.c:313-378) and AVL_DeepComparator (avl.c:380-392).
 * A position is a node with the parents above it, which stands in for the current node and its
 * parent links; its rank is the index of its pair among the tree's in-order pairs.
 */
module AVLIterator {
  import opened Wrappers
  import opened Poly
  import opened AVLNode
  import opened AVLPath
  import opened AVL

  /** A node of a tree with the parents above it. */
  datatype Position = Position(node: Node, path: seq<Frame>)

  /** The index of a position's pair among the in-order pairs. */
  function Rank(pos: Position): int
  {
    |Before(pos.path)| + if pos.node.Node? then |Items(pos.node.left)| else 0
  }

  /** The pair at a position of root is the one at its rank. */
  lemma RankPair(pos: Position, root: Node)
    requires pos.node.Node? && Zip(pos.node, pos.path) == root
    ensures 0 <= Rank(pos) < |Items(root)| && Items(root)[Rank(pos)] == (pos.node.key, pos.node.value)
  {
    ZipItems(pos.node, pos.path);
    var b, l := Before(pos.path), Items(pos.node.left);
    var s := b + Items(pos.node);
    assert Items(pos.node)[|l|] == (pos.node.key, pos.node.value);
    assert s[|b| + |l|] == Items(pos.node)[|l|];
    assert Items(root) == s + After(pos.path);
  }

  /** The walk down left links (avl.c:327, 353-356): it ends on the first pair of the subtree it starts from. */
  method Leftmost(start: Node, above: seq<Frame>) returns (pos: Position)
    requires start.Node?
    ensures pos.node.Node? && Zip(pos.node, pos.path) == Zip(start, above)
    ensures Rank(pos) == |Before(above)|
  {
    var node, path := start, above;
    while node.left.Node?
      invariant node.Node? && Zip(node, path) == Zip(start, above) && Before(path) == Before(above)
      decreases node
    {
      assert ([Down(node, Left)] + path)[1..] == path;
      node, path := node.left, [Down(node, Left)] + path;
    }
    pos := Position(node, path);
  }

  class Iterator {
    const tree: Tree
    var current: Option<Position>

    /** current, when there is one, is a node of the tree. */
    ghost predicate Valid()
      reads this, tree
    {
      current.Some? ==> current.value.node.Node? && Zip(current.value.node, current.value.path) == tree.root
    }

    /** The rank of current, -1 when there is none. */
    ghost function Index(): int
      reads this
    {
      if current.Some? then Rank(current.value) else -1
    }

    /** AVL_InitializeIterator (avl.c:313-318): no current node. */
    constructor (tree: Tree)
      ensures this.tree == tree && current == None && Valid()
    {
      this.tree := tree;
      current := None;
    }

    /**
     * AVL_Next (avl.c:320-361): from no current node, the first pair; from a node, its in-order
     * successor, and no current node after the last pair. Returns 1 when there is a current node.
     */
    method Next() returns (r: int)
      requires Valid()
      modifies this
      ensures Valid()
      ensures Index() == if old(Index()) + 1 < |Items(tree.root)| then old(Index()) + 1 else -1
      ensures r == 1 <==> current.Some?
      ensures r == 0 <==> current.None?
    {
      if current.Some? {
        var Position(node, path) := current.value;
        RankPair(current.value, tree.root);
        if node.right.Node? {
          var pos := Leftmost(node.right, [Down(node, Right)] + path);
          assert ([Down(node, Right)] + path)[1..] == path;
          RankPair(pos, tree.root);
          current := Some(pos);
        } else if path != [] {
          assert |Items(node)| == |Items(node.left)| + 1;
          if path[0].side == Right {
            var n, p := node, path;
            while p != [] && p[0].side == Right
              invariant n.Node? && Zip(n, p) == tree.root
              invariant |Before(p)| + |Items(n)| == Rank(Position(node, path)) + 1
              decreases |p|
            {
              assert |Before(p)| == |Before(p[1..])| + |Items(p[0].other)| + 1;
              n, p := Plug(p[0], n), p[1..];
            }
            if p != [] {
              assert Before(p) == Before(p[1..]);
              current := Some(Position(Plug(p[0], n), p[1..]));
              RankPair(current.value, tree.root);
            } else {
              assert n == tree.root;
              current := None;
            }
          } else {
            assert Before(path) == Before(path[1..]);
            current := Some(Position(Plug(path[0], node), path[1..]));
            RankPair(current.value, tree.root);
          }
        } else {
          assert Items(node) == Items(node.left) + [(node.key, node.value)];
          current := None;
        }
      } else {
        if tree.root.Node? {
          var pos := Leftmost(tree.root, []);
          RankPair(pos, tree.root);
          current := Some(pos);
        } else {
          current := None;
        }
      }
      r := if current.Some? then 1 else 0;
    }

    /** AVL_Key (avl.c:363-367): the key of the pair at the current rank, POLY_DEFAULT with no current node. */
    method Key() returns (k: Poly)
      requires Valid()
      ensures current.None? ==> k == DEFAULT
      ensures current.Some? ==> 0 <= Index() < |Items(tree.root)| && k == Items(tree.root)[Index()].0
    {
      if current.Some? {
        RankPair(current.value, tree.root);
        k := current.value.node.key;
      } else {
        k := DEFAULT;
      }
    }

    /** AVL_Value (avl.c:369-373): the value of the pair at the current rank, POLY_DEFAULT with no current node. */
    method Value() returns (v: Poly)
      requires Valid()
      ensures current.None? ==> v == DEFAULT
      ensures current.Some? ==> 0 <= Index() < |Items(tree.root)| && v == Items(tree.root)[Index()].1
    {
      if current.Some? {
        RankPair(current.value, tree.root);
        v := current.value.node.value;
      } else {
        v := DEFAULT;
      }
    }

    /** AVL_Reset (avl.c:375-378): back to no current node. */
    method Reset()
      modifies this
      ensures current == None && Valid()
    {
      current := None;
    }
  }

  // --- DeepComparator -----------------------------------------------------------------------------

  /** The keys of a sequence of pairs. */
  function Keys(s: seq<(Poly, Poly)>): (ks: seq<Poly>)
    ensures |ks| == |s| && forall i :: 0 <= i < |s| ==> ks[i] == s[i].0
  {
    seq(|s|, i requires 0 <= i < |s| => s[i].0)
  }

  /** The comparison of the first pair of keys that compares unequal, 0 when the shorter sequence runs out first. */
  function FirstDifference(cmp: (Poly, Poly) -> int, a: seq<Poly>, b: seq<Poly>): int
    decreases |a|
  {
    if a == [] || b == [] then 0
    else if cmp(a[0], b[0]) != 0 then cmp(a[0], b[0])
    else FirstDifference(cmp, a[1..], b[1..])
  }

  /** AVL_DeepComparator's order on trees: size first, then the first differing keys. */
  function DeepOrder(cmp: (Poly, Poly) -> int, size1: int, size2: int, a: seq<Poly>, b: seq<Poly>): int
  {
    if size1 < size2 then -1 else if size1 > size2 then 1 else FirstDifference(cmp, a, b)
  }

  /** Under a total order, key sequences of one length compare 0 exactly when they are equal. */
  lemma {:induction false} FirstDifferenceZero(cmp: (Poly, Poly) -> int, a: seq<Poly>, b: seq<Poly>)
    requires TotalOrder(cmp) && |a| == |b|
    ensures FirstDifference(cmp, a, b) == 0 <==> a == b
    decreases |a|
  {
    if a != [] {
      FirstDifferenceZero(cmp, a[1..], b[1..]);
      if a[0] == b[0] && a[1..] == b[1..] {
        assert a == [a[0]] + a[1..] && b == [b[0]] + b[1..];
      }
    }
  }

  /** Under a total order, swapping the sequences flips the sign of the comparison. */
  lemma {:induction false} FirstDifferenceSwap(cmp: (Poly, Poly) -> int, a: seq<Poly>, b: seq<Poly>)
    requires TotalOrder(cmp)
    ensures FirstDifference(cmp, a, b) < 0 <==> FirstDifference(cmp, b, a) > 0
    ensures FirstDifference(cmp, a, b) == 0 <==> FirstDifference(cmp, b, a) == 0
    decreases |a|
  {
    if a != [] && b != [] {
      FirstDifferenceSwap(cmp, a[1..], b[1..]);
    }
  }

  /**
   * The loop condition of AVL_DeepComparator and the two AVL_Key calls of its body: advance the
   * first iterator and, when that found a pair, the second; both stand at rank i when both found one.
   */
  method NextPair(iter1: Iterator, iter2: Iterator, ghost i: int) returns (both: bool, k1: Poly, k2: Poly)
    requires iter1 != iter2 && iter1.Valid() && iter2.Valid() && 0 <= i
    requires iter1.Index() == i - 1 && iter2.Index() == i - 1
    modifies iter1, iter2
    ensures iter1.Valid() && iter2.Valid()
    ensures both <==> i < |Items(iter1.tree.root)| && i < |Items(iter2.tree.root)|
    ensures both ==> iter1.Index() == i && iter2.Index() == i
    ensures both ==> k1 == Keys(Items(iter1.tree.root))[i] && k2 == Keys(Items(iter2.tree.root))[i]
  {
    k1, k2 := DEFAULT, DEFAULT;
    var more := iter1.Next();
    if more == 0 {
      return false, k1, k2;
    }
    more := iter2.Next();
    if more == 0 {
      return false, k1, k2;
    }
    k1 := iter1.Key();
    k2 := iter2.Key();
    both := true;
  }

  /** One step of the comparison at index i. */
  lemma FirstDifferenceAt(cmp: (Poly, Poly) -> int, a: seq<Poly>, b: seq<Poly>, i: int)
    requires 0 <= i < |a| && i < |b|
    ensures FirstDifference(cmp, a[i..], b[i..]) ==
      if cmp(a[i], b[i]) != 0 then cmp(a[i], b[i]) else FirstDifference(cmp, a[i + 1..], b[i + 1..])
  {
    assert a[i..][1..] == a[i + 1..] && b[i..][1..] == b[i + 1..];
  }

  /**
   * AVL_DeepComparator (avl.c:380-392) on two trees: the sizes decide first; then both trees are
   * walked in order with an iterator each, and the first pair of keys that tree1's comparator finds
   * unequal decides. Values are not compared.
   */
  method DeepComparator(tree1: Tree, tree2: Tree) returns (c: int)
    requires tree1.Valid() && tree2.Valid()
    ensures c == DeepOrder(tree1.comparator, tree1.size, tree2.size, Keys(Items(tree1.root)), Keys(Items(tree2.root)))
  {
    if tree1.size < tree2.size {
      return -1;
    } else if tree1.size > tree2.size {
      return 1;
    }
    c := CompareInOrder(tree1, tree2);
  }

  /** The iterator loop of AVL_DeepComparator (avl.c:384-391). */
  method CompareInOrder(tree1: Tree, tree2: Tree) returns (c: int)
    ensures c == FirstDifference(tree1.comparator, Keys(Items(tree1.root)), Keys(Items(tree2.root)))
  {
    ghost var a, b := Keys(Items(tree1.root)), Keys(Items(tree2.root));
    var iter1 := new Iterator(tree1);
    var iter2 := new Iterator(tree2);
    c := 0;
    ghost var i := 0;
    while true
      invariant iter1.Valid() && iter2.Valid() && iter1.tree == tree1 && iter2.tree == tree2
      invariant 0 <= i <= |a| && i <= |b|
      invariant iter1.Index() == i - 1 && iter2.Index() == i - 1
      invariant c == 0 && FirstDifference(tree1.comparator, a, b) == FirstDifference(tree1.comparator, a[i..], b[i..])
      decreases |a| - i
    {
      var both, k1, k2 := NextPair(iter1, iter2, i);
      if !both {
        break;
      }
      c := tree1.comparator(k1, k2);
      FirstDifferenceAt(tree1.comparator, a, b, i);
      if c != 0 {
        break;
      }
      i := i + 1;
    }
  }
}
