/**
 * AVL_Repair (avl.c:138-159): from a node, walk the parent links to the root, recalculating each
 * parent's height and rotating where a balance factor has reached 2 or -2.
 */
module AVLRepair {
  import opened Poly
  import opened AVLNode
  import opened AVLPath

  /** t with its child on `side` replaced by c. */
  function WithChild(t: Node, side: Side, c: Node): (t': Node)
    requires t.Node?
    ensures t'.Node? && t'.key == t.key && t'.value == t.value && t'.height == t.height
    ensures side == Left ==> t'.left == c && t'.right == t.right
    ensures side == Right ==> t'.left == t.left && t'.right == c
  {
    if side == Left then t.(left := c) else t.(right := c)
  }

  /**
   * One pass of the loop: `node` is t and `parent` the frame f. The parent's height is
   * recalculated; at balance 2 the left child is rotated up, first rotating the right child of
   * `node` up when node's balance is -1, and symmetrically at -2. The result is the subtree that
   * the next pass takes as `node`. (Ascend also recalculates the grandparent's height, which the
   * next pass recalculates again before reading it.)
   */
  function RepairStep(t: Node, f: Frame): (t': Node)
    requires t.Node?
    ensures t'.Node? && Items(t') == Items(Plug(f, t))
  {
    var parent := RecalcHeight(Plug(f, t));
    if Balance(parent) == 2 then
      var parent1 := if Balance(t) == -1 then RecalcHeight(WithChild(parent, f.side, AscendRight(t))) else parent;
      AscendLeft(parent1)
    else if Balance(parent) == -2 then
      var parent1 := if Balance(t) == 1 then RecalcHeight(WithChild(parent, f.side, AscendLeft(t))) else parent;
      AscendRight(parent1)
    else parent
  }

  /** The loop to the root: the tree AVL_Repair leaves, starting at t with the parents p above it. */
  function RepairUp(t: Node, p: seq<Frame>): (r: Node)
    requires t.Node?
    ensures r.Node?
    decreases |p|
  {
    if p == [] then t else RepairUp(RepairStep(t, p[0]), p[1..])
  }

  /** Repairing rotates only: the in-order pairs of the whole tree do not change. */
  lemma {:induction false} RepairUpItems(t: Node, p: seq<Frame>)
    requires t.Node?
    ensures Items(RepairUp(t, p)) == Items(Zip(t, p))
    decreases |p|
  {
    if p != [] {
      RepairUpItems(RepairStep(t, p[0]), p[1..]);
      SameItems(RepairStep(t, p[0]), Plug(p[0], t), p[1..]);
    }
  }

  // --- Balance after an insertion ----------------------------------------------------------------

  /** The frames p would form a balanced tree around a balanced child of height h. */
  ghost predicate PathFits(p: seq<Frame>, h: int)
    decreases |p|
  {
    p == [] ||
    (Balanced(p[0].other) && -1 <= h - H(p[0].other) <= 1 && p[0].height == 1 + Max(h, H(p[0].other)) &&
     PathFits(p[1..], p[0].height))
  }

  /** A tree is balanced exactly when the subtree at any position and the path above it are. */
  lemma {:induction false} ZipBalanced(t: Node, p: seq<Frame>)
    ensures Balanced(Zip(t, p)) <==> Balanced(t) && PathFits(p, H(t))
    decreases |p|
  {
    if p != [] {
      ZipBalanced(Plug(p[0], t), p[1..]);
    }
  }

  /**
   * t replaces a subtree of height h that fitted its place, and is balanced and at most one
   * taller; when it is taller and not a single node, it leans to one side.
   */
  ghost predicate Grown(t: Node, h: int)
  {
    t.Node? && Balanced(t) && (H(t) == h || (H(t) == h + 1 && (2 <= H(t) ==> Balance(t) != 0)))
  }

  /** One pass keeps that: the parent subtree it leaves replaces the old parent in the same way. */
  lemma RepairStepGrown(t: Node, p: seq<Frame>, h: int)
    requires Grown(t, h) && PathFits(p, h) && p != []
    ensures Grown(RepairStep(t, p[0]), p[0].height)
  {
    var f := p[0];
    var parent := RecalcHeight(Plug(f, t));
    if Balance(parent) == 2 {
      assert f.side == Left;
      LeftHeavy(t, f, h);
    } else if Balance(parent) == -2 {
      assert f.side == Right;
      RightHeavy(t, f, h);
    }
  }

  /** Balance 2 at the parent: the single or the double rotation restores the old height. */
  lemma LeftHeavy(t: Node, f: Frame, h: int)
    requires Grown(t, h) && Balanced(f.other) && -1 <= h - H(f.other) <= 1 && f.height == 1 + Max(h, H(f.other))
    requires f.side == Left && Balance(RecalcHeight(Plug(f, t))) == 2
    ensures Grown(RepairStep(t, f), f.height)
  {
    if Balance(t) == -1 {
      LeftDouble(t, f, h);
    } else {
      LeftSingle(t, f, h);
    }
  }

  /** The double rotation of LeftHeavy. */
  lemma LeftDouble(t: Node, f: Frame, h: int)
    requires Grown(t, h) && Balanced(f.other) && -1 <= h - H(f.other) <= 1 && f.height == 1 + Max(h, H(f.other))
    requires f.side == Left && Balance(RecalcHeight(Plug(f, t))) == 2
    requires Balance(t) == -1
    ensures Grown(RepairStep(t, f), f.height)
  {
    var parent := RecalcHeight(Plug(f, t));
    assert H(t) == h + 1 && H(f.other) == h - 1;
    var b := t.right;
    assert H(t.left) == h - 1 && H(b) == h && Balanced(t.left) && Balanced(b);
    assert b.height == 1 + Max(H(b.left), H(b.right)) && -1 <= H(b.left) - H(b.right) <= 1;
    assert Balanced(b.left) && Balanced(b.right);
    var inner := AscendRight(t);
    var low := RecalcHeight(t.(right := b.left));
    assert H(low) == h && Balanced(low);
    assert inner == RecalcHeight(b.(left := low));
    var parent1 := RecalcHeight(WithChild(parent, f.side, inner));
    assert parent1.left == inner && parent1.right == f.other;
    var top := RecalcHeight(parent1.(left := inner.right));
    assert inner.right == b.right;
    assert H(top) == h && Balanced(top);
    assert RepairStep(t, f) == RecalcHeight(inner.(right := top));
  }

  /** The single rotation of LeftHeavy. */
  lemma LeftSingle(t: Node, f: Frame, h: int)
    requires Grown(t, h) && Balanced(f.other) && -1 <= h - H(f.other) <= 1 && f.height == 1 + Max(h, H(f.other))
    requires f.side == Left && Balance(RecalcHeight(Plug(f, t))) == 2
    requires Balance(t) != -1
    ensures Grown(RepairStep(t, f), f.height)
  {
    var parent := RecalcHeight(Plug(f, t));
    assert H(t) == h + 1 && H(f.other) == h - 1;
    assert Balance(t) == 1;
    assert H(t.left) == h && H(t.right) == h - 1 && Balanced(t.left) && Balanced(t.right);
    var top := RecalcHeight(parent.(left := t.right));
    assert H(top) == h && Balanced(top);
    assert RepairStep(t, f) == RecalcHeight(t.(right := top));
  }

  /** Balance -2 at the parent, the mirror image. */
  lemma RightHeavy(t: Node, f: Frame, h: int)
    requires Grown(t, h) && Balanced(f.other) && -1 <= h - H(f.other) <= 1 && f.height == 1 + Max(h, H(f.other))
    requires f.side == Right && Balance(RecalcHeight(Plug(f, t))) == -2
    ensures Grown(RepairStep(t, f), f.height)
  {
    if Balance(t) == 1 {
      RightDouble(t, f, h);
    } else {
      RightSingle(t, f, h);
    }
  }

  /** The double rotation of RightHeavy. */
  lemma RightDouble(t: Node, f: Frame, h: int)
    requires Grown(t, h) && Balanced(f.other) && -1 <= h - H(f.other) <= 1 && f.height == 1 + Max(h, H(f.other))
    requires f.side == Right && Balance(RecalcHeight(Plug(f, t))) == -2
    requires Balance(t) == 1
    ensures Grown(RepairStep(t, f), f.height)
  {
    var parent := RecalcHeight(Plug(f, t));
    assert H(t) == h + 1 && H(f.other) == h - 1;
    var b := t.left;
    assert H(t.right) == h - 1 && H(b) == h && Balanced(t.right) && Balanced(b);
    assert b.height == 1 + Max(H(b.left), H(b.right)) && -1 <= H(b.left) - H(b.right) <= 1;
    assert Balanced(b.left) && Balanced(b.right);
    var inner := AscendLeft(t);
    var low := RecalcHeight(t.(left := b.right));
    assert H(low) == h && Balanced(low);
    assert inner == RecalcHeight(b.(right := low));
    var parent1 := RecalcHeight(WithChild(parent, f.side, inner));
    assert parent1.right == inner && parent1.left == f.other;
    var top := RecalcHeight(parent1.(right := inner.left));
    assert inner.left == b.left;
    assert H(top) == h && Balanced(top);
    assert RepairStep(t, f) == RecalcHeight(inner.(left := top));
  }

  /** The single rotation of RightHeavy. */
  lemma RightSingle(t: Node, f: Frame, h: int)
    requires Grown(t, h) && Balanced(f.other) && -1 <= h - H(f.other) <= 1 && f.height == 1 + Max(h, H(f.other))
    requires f.side == Right && Balance(RecalcHeight(Plug(f, t))) == -2
    requires Balance(t) != 1
    ensures Grown(RepairStep(t, f), f.height)
  {
    var parent := RecalcHeight(Plug(f, t));
    assert H(t) == h + 1 && H(f.other) == h - 1;
    assert Balance(t) == -1;
    assert H(t.right) == h && H(t.left) == h - 1 && Balanced(t.left) && Balanced(t.right);
    var top := RecalcHeight(parent.(right := t.left));
    assert H(top) == h && Balanced(top);
    assert RepairStep(t, f) == RecalcHeight(t.(left := top));
  }

  /** After an insertion, repairing up to the root leaves every node balanced with its height right. */
  lemma {:induction false} RepairUpBalanced(t: Node, p: seq<Frame>, h: int)
    requires Grown(t, h) && PathFits(p, h)
    ensures Balanced(RepairUp(t, p))
    decreases |p|
  {
    if p == [] {
    } else {
      RepairStepGrown(t, p, h);
      RepairUpBalanced(RepairStep(t, p[0]), p[1..], p[0].height);
    }
  }
}
