/**
 * The AVL_Tree of avl.c: a root, a size counter and a comparator. The methods walk and rebuild
 * the node values of AVLNode the way the C code walks and relinks its nodes; each is tied to the
 * function of AVLMap that describes its result, whose properties are proved there.
 */
module AVL {
  import opened Wrappers
  import opened Poly
  import opened AVLNode
  import opened AVLPath
  import opened AVLRepair
  import opened AVLMap

  class Tree {
    var root: Node
    var size: nat
    const comparator: (Poly, Poly) -> int

    /** The comparator is a total order, the pairs are in ascending key order and size counts them. */
    ghost predicate Valid()
      reads this
    {
      TotalOrder(comparator) && Ordered(comparator, Items(root)) && size == |Items(root)|
    }

    /** AVL_Initialize (avl.c:11-19): an empty tree. */
    constructor (comparator: (Poly, Poly) -> int)
      requires TotalOrder(comparator)
      ensures Valid() && root == Nil && size == 0 && this.comparator == comparator
    {
      root := Nil;
      size := 0;
      this.comparator := comparator;
    }

    /**
     * AVL_Clear (avl.c:33-37): every node is released (AVL_DestroyNode, avl.c:23-31) and size is set
     * to zero, but root still names the released nodes, so the tree is valid again only if it was empty.
     */
    method Clear()
      requires Valid()
      modifies this
      ensures size == 0 && root == old(root)
      ensures Valid() <==> old(root) == Nil
    {
      size := 0;
    }

    /** AVL_GetNode (avl.c:42-52): the node the search stops on and the parents above it. */
    method GetNode(key: Poly) returns (current: Node, path: seq<Frame>)
      ensures (current, path) == Descend(comparator, key, root, [])
    {
      current, path := root, [];
      while current.Node? && comparator(key, current.key) != 0
        invariant Descend(comparator, key, current, path) == Descend(comparator, key, root, [])
        decreases current
      {
        var comparison := comparator(key, current.key);
        if comparison > 0 {
          current, path := current.right, [Down(current, Right)] + path;
        } else {
          current, path := current.left, [Down(current, Left)] + path;
        }
      }
    }

    /** AVL_Get (avl.c:54-59): the value bound to the key, POLY_DEFAULT when there is none. */
    method Get(key: Poly) returns (value: Poly)
      requires Valid()
      ensures value == match Lookup(Items(root), key) case Some(v) => v case None => DEFAULT
    {
      var node, _ := GetNode(key);
      GetContains(comparator, root, key);
      if node.Node? {
        value := node.value;
      } else {
        value := DEFAULT;
      }
    }

    /** AVL_Contains (avl.c:300-303): 1 when the key is bound, 0 otherwise. */
    method Contains(key: Poly) returns (r: int)
      requires Valid()
      ensures r == 1 <==> Lookup(Items(root), key).Some?
      ensures r == 0 <==> Lookup(Items(root), key).None?
    {
      var node, _ := GetNode(key);
      GetContains(comparator, root, key);
      r := if node.Node? then 1 else 0;
    }

    /** AVL_Size (avl.c:308-311): the number of pairs. */
    method Size() returns (n: nat)
      requires Valid()
      ensures n == |Items(root)|
    {
      n := size;
    }

    /** AVL_Repair (avl.c:138-159): one RepairStep per parent on the way up; the last subtree is the root. */
    method Repair(node: Node, path: seq<Frame>)
      requires node.Node?
      modifies this
      ensures root == RepairUp(node, path) && size == old(size)
    {
      var current, p := node, path;
      while p != []
        invariant current.Node? && RepairUp(current, p) == RepairUp(node, path)
        decreases |p|
      {
        current, p := RepairStep(current, p[0]), p[1..];
      }
      root := current;
    }

    /**
     * AVL_Set (avl.c:161-211). The walk is the one of GetNode: an equal key has its value replaced;
     * otherwise a new leaf goes where the walk fell off the tree, size grows and the path is repaired.
     */
    method Set(key: Poly, value: Poly)
      requires Valid()
      modifies this
      ensures Valid() && root == SetNode(comparator, old(root), key, value)
      ensures forall k :: Lookup(Items(root), k) == if k == key then Some(value) else Lookup(old(Items(root)), k)
      ensures size == old(size) + if Lookup(old(Items(root)), key).Some? then 0 else 1
      ensures Balanced(old(root)) ==> Balanced(root)
    {
      SetNodeMap(comparator, root, key, value);
      if Balanced(root) {
        SetNodeBalanced(comparator, root, key, value);
      }
      DescendFinds(comparator, key, root);
      var parent, path := GetNode(key);
      if parent.Node? {
        root := Zip(parent.(value := value), path);
        return;
      }
      size := size + 1;
      Repair(Node(Nil, key, value, 1, Nil), path);
    }

    /** AVL_Insert (avl.c:213-216): Set with POLY_DEFAULT as the value. */
    method Insert(key: Poly)
      requires Valid()
      modifies this
      ensures Valid() && root == SetNode(comparator, old(root), key, DEFAULT)
      ensures forall k :: Lookup(Items(root), k) == if k == key then Some(DEFAULT) else Lookup(old(Items(root)), k)
      ensures size == old(size) + if Lookup(old(Items(root)), key).Some? then 0 else 1
      ensures Balanced(old(root)) ==> Balanced(root)
    {
      Set(key, DEFAULT);
    }

    /**
     * The end of AVL_Delete (avl.c:290-296): with no parent the subtree F is the root; otherwise the
     * parent's height is recalculated and the repair starts from its right child, else its left
     * child, else the parent itself.
     */
    method Rejoin(F: Node, q: seq<Frame>)
      modifies this
      ensures root == Reattach(F, q) && size == old(size)
    {
      if q == [] {
        root := F;
      } else {
        var parent := RecalcHeight(Plug(q[0], F));
        if parent.right.Node? {
          Repair(parent.right, [Down(parent, Right)] + q[1..]);
        } else if parent.left.Node? {
          Repair(parent.left, [Down(parent, Left)] + q[1..]);
        } else {
          Repair(parent, q[1..]);
        }
      }
    }

    /**
     * AVL_Delete (avl.c:218-298): an absent key changes nothing. A container with two children
     * takes the pair of its in-order predecessor, found by walking right from its left child, and
     * the predecessor is unlinked in favour of its left subtree; otherwise the container is
     * unlinked in favour of its only child or of NULL.
     */
    method Delete(key: Poly)
      requires Valid()
      modifies this
      ensures Valid() && root == DeleteNode(comparator, old(root), key)
      ensures forall k :: Lookup(Items(root), k) == if k == key then None else Lookup(old(Items(root)), k)
      ensures size == old(size) - if Lookup(old(Items(root)), key).Some? then 1 else 0
    {
      DeleteNodeMap(comparator, root, key);
      DescendFinds(comparator, key, root);
      var container, path := GetNode(key);
      if container.Nil? {
        return;
      }
      size := size - 1;
      if container.right.Node? && container.left.Node? {
        var delete, below := container.left, [];
        while delete.right.Node?
          invariant delete.Node? && Rightmost(delete, below) == Rightmost(container.left, [])
          decreases delete
        {
          delete, below := delete.right, [Down(delete, Right)] + below;
        }
        Rejoin(delete.left, below + ([Frame(Left, delete.key, delete.value, container.height, container.right)] + path));
      } else if container.right.Node? {
        Rejoin(container.right, path);
      } else {
        Rejoin(container.left, path);
      }
    }
  }
}
