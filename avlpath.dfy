/**
 * Parent links as paths. A position in a tree is a subtree together with the frames above it,
 * nearest first: each frame is a parent seen from below, with the side its child hangs on, the
 * parent's key, value and stored height, and its other child. Walking `node->parent` is taking
 * the first frame off the path; walking to a child is pushing one.
 */
module AVLPath {
  import opened Poly
  import opened AVLNode

  datatype Side = Left | Right

  /** A parent as its child sees it. */
  datatype Frame = Frame(side: Side, key: Poly, value: Poly, height: Height, other: Node)

  /** The parent subtree: the frame's node with t hanging on the frame's side. */
  function Plug(f: Frame, t: Node): (p: Node)
    ensures p.Node? && p.key == f.key && p.value == f.value && p.height == f.height
    ensures f.side == Left ==> p.left == t && p.right == f.other
    ensures f.side == Right ==> p.left == f.other && p.right == t
  {
    if f.side == Left then Node(t, f.key, f.value, f.height, f.other) else Node(f.other, f.key, f.value, f.height, t)
  }

  /** The whole tree around t, t hanging at the end of the path p. */
  function Zip(t: Node, p: seq<Frame>): Node
    decreases |p|
  {
    if p == [] then t else Zip(Plug(p[0], t), p[1..])
  }

  /** The child of t on a side. */
  function Child(t: Node, side: Side): Node
    requires t.Node?
  {
    if side == Left then t.left else t.right
  }

  /** The frame t leaves behind when the walk goes down to its child on `side`. */
  function Down(t: Node, side: Side): (f: Frame)
    requires t.Node?
    ensures Plug(f, Child(t, side)) == t
  {
    if side == Left then Frame(Left, t.key, t.value, t.height, t.right) else Frame(Right, t.key, t.value, t.height, t.left)
  }

  /** The pairs left of the subtree at the end of p. */
  function Before(p: seq<Frame>): seq<(Poly, Poly)>
    decreases |p|
  {
    if p == [] then []
    else if p[0].side == Right then Before(p[1..]) + Items(p[0].other) + [(p[0].key, p[0].value)]
    else Before(p[1..])
  }

  /** The pairs right of the subtree at the end of p. */
  function After(p: seq<Frame>): seq<(Poly, Poly)>
    decreases |p|
  {
    if p == [] then []
    else if p[0].side == Left then [(p[0].key, p[0].value)] + Items(p[0].other) + After(p[1..])
    else After(p[1..])
  }

  /** The in-order pairs of a tree split around any position in it. */
  lemma {:induction false} ZipItems(t: Node, p: seq<Frame>)
    ensures Items(Zip(t, p)) == Before(p) + Items(t) + After(p)
    decreases |p|
  {
    if p != [] {
      var f := p[0];
      ZipItems(Plug(f, t), p[1..]);
      if f.side == Right {
        Regroup(Before(p[1..]), Items(f.other), [(f.key, f.value)], Items(t), After(p[1..]));
      } else {
        Regroup(Before(p[1..]), Items(t), [(f.key, f.value)], Items(f.other), After(p[1..]));
      }
    }
  }

  /** The two ways of regrouping a node's pairs between the pairs before and after it. */
  lemma Regroup(b: seq<(Poly, Poly)>, l: seq<(Poly, Poly)>, x: seq<(Poly, Poly)>, r: seq<(Poly, Poly)>, a: seq<(Poly, Poly)>)
    ensures b + (l + x + r) + a == (b + l + x) + r + a
    ensures b + (l + x + r) + a == b + l + (x + r + a)
    ensures b + (l + x + r) + a == (b + l) + x + (r + a)
  {
  }

  /** Two subtrees with the same pairs give trees with the same pairs at the same position. */
  lemma SameItems(t: Node, t': Node, p: seq<Frame>)
    requires Items(t) == Items(t')
    ensures Items(Zip(t, p)) == Items(Zip(t', p))
  {
    ZipItems(t, p);
    ZipItems(t', p);
  }

  lemma {:induction false} BeforeAppend(a: seq<Frame>, b: seq<Frame>)
    ensures Before(a + b) == Before(b) + Before(a)
    decreases |a|
  {
    if a != [] {
      assert (a + b)[1..] == a[1..] + b;
      BeforeAppend(a[1..], b);
    } else {
      assert a + b == b;
    }
  }

  lemma {:induction false} AfterAppend(a: seq<Frame>, b: seq<Frame>)
    ensures After(a + b) == After(a) + After(b)
    decreases |a|
  {
    if a != [] {
      assert (a + b)[1..] == a[1..] + b;
      AfterAppend(a[1..], b);
    } else {
      assert a + b == b;
    }
  }

  /** Going up past the whole path a, then past b. */
  lemma {:induction false} ZipAppend(t: Node, a: seq<Frame>, b: seq<Frame>)
    ensures Zip(t, a + b) == Zip(Zip(t, a), b)
    decreases |a|
  {
    if a != [] {
      assert (a + b)[1..] == a[1..] + b;
      ZipAppend(Plug(a[0], t), a[1..], b);
    } else {
      assert a + b == b;
    }
  }
}
