/**
 * The nodes of the AVL map of avl.c as values: a subtree is NULL or a node holding its children,
 * its key, its value and its stored height. The parent links are not stored in the node; the
 * paths of AVLPath carry them.
 */
module AVLNode {
  import opened Poly

  /**
   * What the comparator promises (avl.h:23-26): zero exactly when the keys are equal, a negative
   * value when the first is less, a positive one when it is greater, and "less" is transitive.
   */
  ghost predicate TotalOrder(cmp: (Poly, Poly) -> int)
  {
    (forall a, b :: cmp(a, b) == 0 <==> a == b) &&
    (forall a, b :: cmp(a, b) < 0 <==> cmp(b, a) > 0) &&
    (forall a, b, c {:trigger Chain(a, b, c)} :: cmp(a, b) < 0 && cmp(b, c) < 0 ==> cmp(a, c) < 0)
  }

  /**
   * Names a chain of three keys. Transitivity is put to use only through Trans, which mentions
   * the chain it needs; left to itself the solver would chain every pair of comparisons it sees.
   */
  ghost predicate Chain(a: Poly, b: Poly, c: Poly)
  {
    true
  }

  /** "Less" is transitive. */
  lemma Trans(cmp: (Poly, Poly) -> int, a: Poly, b: Poly, c: Poly)
    requires TotalOrder(cmp) && cmp(a, b) < 0 && cmp(b, c) < 0
    ensures cmp(a, c) < 0
  {
    assert Chain(a, b, c);
  }

  /** A stored height: every node the code builds has height at least 1 (avl.c:189, 64-83). */
  type Height = h: int | 1 <= h witness 1

  /** AVL_Node without its parent link. */
  datatype Node = Nil | Node(left: Node, key: Poly, value: Poly, height: Height, right: Node)

  /** The height a subtree counts as: NULL is 0. */
  function H(t: Node): (h: int)
    ensures 0 <= h && (t.Node? ==> 1 <= h)
  {
    if t.Nil? then 0 else t.height
  }

  function Max(a: int, b: int): int
  {
    if a < b then b else a
  }

  /** AVL_RecalcHeight: the node's height becomes one more than its taller child's. */
  function RecalcHeight(t: Node): (t': Node)
    requires t.Node?
    ensures t' == t.(height := 1 + Max(H(t.left), H(t.right)))
  {
    if t.right.Node? then
      if t.left.Node? then
        if t.right.height > t.left.height then t.(height := t.right.height + 1) else t.(height := t.left.height + 1)
      else t.(height := t.right.height + 1)
    else
      if t.left.Node? then t.(height := t.left.height + 1) else t.(height := 1)
  }

  /** AVL_Balance: left height minus right height, a missing child counting 0. */
  function Balance(t: Node): (b: int)
    requires t.Node?
    ensures b == H(t.left) - H(t.right)
  {
    if t.left.Node? then
      if t.right.Node? then t.left.height - t.right.height else t.left.height
    else
      if t.right.Node? then -(t.right.height as int) else 0
  }

  /** The key/value pairs of a subtree in order: left subtree, the node, right subtree. */
  function Items(t: Node): seq<(Poly, Poly)>
  {
    if t.Nil? then [] else Items(t.left) + [(t.key, t.value)] + Items(t.right)
  }

  /** The key of pair i. */
  function KeyAt(s: seq<(Poly, Poly)>, i: int): Poly
    requires 0 <= i < |s|
  {
    s[i].0
  }

  /**
   * Keys strictly ascending under the comparator. (Stated on KeyAt, so that the solver compares
   * the keys a proof names rather than every pair of elements of every sequence in sight.)
   */
  ghost predicate Ordered(cmp: (Poly, Poly) -> int, s: seq<(Poly, Poly)>)
  {
    forall i, j :: 0 <= i < j < |s| ==> cmp(KeyAt(s, i), KeyAt(s, j)) < 0
  }

  /** Every stored height is right and every balance factor is -1, 0 or 1. */
  ghost predicate Balanced(t: Node)
  {
    t.Nil? ||
    (Balanced(t.left) && Balanced(t.right) && t.height == 1 + Max(H(t.left), H(t.right)) &&
     -1 <= H(t.left) - H(t.right) <= 1)
  }

  /**
   * AVL_Ascend of the left child of t: that child becomes the subtree's root, t its right child
   * taking over the child's right subtree; the heights of t and then of the child are recalculated.
   */
  function AscendLeft(t: Node): (t': Node)
    requires t.Node? && t.left.Node?
    ensures t'.Node? && Items(t') == Items(t)
  {
    var parent := RecalcHeight(t.(left := t.left.right));
    RecalcHeight(t.left.(right := parent))
  }

  /** AVL_Ascend of the right child of t, the mirror image. */
  function AscendRight(t: Node): (t': Node)
    requires t.Node? && t.right.Node?
    ensures t'.Node? && Items(t') == Items(t)
  {
    var parent := RecalcHeight(t.(right := t.right.left));
    RecalcHeight(t.right.(left := parent))
  }
}
