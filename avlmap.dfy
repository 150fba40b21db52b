/**
 * The map operations of avl.c on tree values: the search walk of AVL_GetNode, insertion with
 * repair (AVL_Set) and deletion through the in-order predecessor with repair (AVL_Delete), and
 * what each does to the in-order key/value pairs.
 */
module AVLMap {
  import opened Wrappers
  import opened Poly
  import opened AVLNode
  import opened AVLPath
  import opened AVLRepair

  // --- Pairs --------------------------------------------------------------------------------------

  /** The value bound to a key in a sequence of pairs: the first pair with that key. */
  function Lookup(s: seq<(Poly, Poly)>, key: Poly): Option<Poly>
  {
    if s == [] then None else if s[0].0 == key then Some(s[0].1) else Lookup(s[1..], key)
  }

  /** Regrouping the pairs around a removed node. */
  lemma {:induction false} Regroup2(a: seq<(Poly, Poly)>, l: seq<(Poly, Poly)>, r: seq<(Poly, Poly)>, b: seq<(Poly, Poly)>)
    ensures a + (l + r) + b == (a + l) + (r + b)
  {
  }

  /** Looking up in a concatenation: the first part decides when it has the key. */
  lemma {:induction false} LookupAppend(a: seq<(Poly, Poly)>, b: seq<(Poly, Poly)>, key: Poly)
    ensures Lookup(a + b, key) == if Lookup(a, key).Some? then Lookup(a, key) else Lookup(b, key)
  {
    if a != [] {
      assert (a + b)[1..] == a[1..] + b;
      LookupAppend(a[1..], b, key);
    } else {
      assert a + b == b;
    }
  }

  /** A key no pair has is bound to nothing. */
  lemma {:induction false} LookupMissing(s: seq<(Poly, Poly)>, key: Poly)
    requires forall i :: 0 <= i < |s| ==> s[i].0 != key
    ensures Lookup(s, key) == None
  {
    if s != [] {
      LookupMissing(s[1..], key);
    }
  }

  /** Every key of s is less than key. */
  ghost predicate Below(cmp: (Poly, Poly) -> int, s: seq<(Poly, Poly)>, key: Poly)
  {
    forall i :: 0 <= i < |s| ==> cmp(KeyAt(s, i), key) < 0
  }

  /** Every key of s is greater than key. */
  ghost predicate Above(cmp: (Poly, Poly) -> int, s: seq<(Poly, Poly)>, key: Poly)
  {
    forall i :: 0 <= i < |s| ==> cmp(key, KeyAt(s, i)) < 0
  }

  /** A key strictly between the two parts is in neither. */
  lemma {:induction false} Outside(cmp: (Poly, Poly) -> int, a: seq<(Poly, Poly)>, b: seq<(Poly, Poly)>, key: Poly)
    requires TotalOrder(cmp) && Below(cmp, a, key) && Above(cmp, b, key)
    ensures Lookup(a, key) == None && Lookup(b, key) == None
  {
    assert cmp(key, key) == 0;
    forall i | 0 <= i < |a|
      ensures a[i].0 != key
    {
      assert cmp(KeyAt(a, i), key) < 0;
    }
    forall i | 0 <= i < |b|
      ensures b[i].0 != key
    {
      assert cmp(key, KeyAt(b, i)) < 0;
    }
    LookupMissing(a, key);
    LookupMissing(b, key);
  }

  /** A pair with a key between the two parts of an ordered sequence can sit between them. */
  lemma {:induction false} OrderedInsert(cmp: (Poly, Poly) -> int, a: seq<(Poly, Poly)>, b: seq<(Poly, Poly)>, x: (Poly, Poly))
    requires Ordered(cmp, a + b) && Below(cmp, a, x.0) && Above(cmp, b, x.0)
    ensures Ordered(cmp, a + [x] + b)
  {
    var s := a + [x] + b;
    forall i, j | 0 <= i < j < |s|
      ensures cmp(KeyAt(s, i), KeyAt(s, j)) < 0
    {
      if j < |a| {
        assert KeyAt(s, i) == KeyAt(a + b, i) && KeyAt(s, j) == KeyAt(a + b, j);
      } else if j == |a| {
        assert KeyAt(s, i) == KeyAt(a, i) && KeyAt(s, j) == x.0;
      } else if i < |a| {
        assert KeyAt(s, i) == KeyAt(a + b, i) && KeyAt(s, j) == KeyAt(a + b, j - 1);
      } else if i == |a| {
        assert KeyAt(s, i) == x.0 && KeyAt(s, j) == KeyAt(b, j - |a| - 1);
      } else {
        assert KeyAt(s, i) == KeyAt(a + b, i - 1) && KeyAt(s, j) == KeyAt(a + b, j - 1);
      }
    }
  }

  /** Taking one pair out of an ordered sequence leaves it ordered. */
  lemma {:induction false} OrderedRemove(cmp: (Poly, Poly) -> int, a: seq<(Poly, Poly)>, b: seq<(Poly, Poly)>, x: (Poly, Poly))
    requires Ordered(cmp, a + [x] + b)
    ensures Ordered(cmp, a + b)
  {
    var s := a + [x] + b;
    forall i, j | 0 <= i < j < |a + b|
      ensures cmp(KeyAt(a + b, i), KeyAt(a + b, j)) < 0
    {
      if j < |a| {
        assert KeyAt(a + b, i) == KeyAt(s, i) && KeyAt(a + b, j) == KeyAt(s, j);
      } else if i < |a| {
        assert KeyAt(a + b, i) == KeyAt(s, i) && KeyAt(a + b, j) == KeyAt(s, j + 1);
      } else {
        assert KeyAt(a + b, i) == KeyAt(s, i + 1) && KeyAt(a + b, j) == KeyAt(s, j + 1);
      }
    }
  }

  /** In an ordered sequence, the pairs before x have smaller keys and the pairs after it greater ones. */
  lemma {:induction false} OrderedSplit(cmp: (Poly, Poly) -> int, a: seq<(Poly, Poly)>, b: seq<(Poly, Poly)>, x: (Poly, Poly))
    requires Ordered(cmp, a + [x] + b)
    ensures Below(cmp, a, x.0) && Above(cmp, b, x.0)
  {
    var s := a + [x] + b;
    forall i | 0 <= i < |a|
      ensures cmp(KeyAt(a, i), x.0) < 0
    {
      assert KeyAt(s, i) == KeyAt(a, i) && KeyAt(s, |a|) == x.0;
    }
    forall i | 0 <= i < |b|
      ensures cmp(x.0, KeyAt(b, i)) < 0
    {
      assert KeyAt(s, |a|) == x.0 && KeyAt(s, |a| + 1 + i) == KeyAt(b, i);
    }
  }

  // --- The search walk ----------------------------------------------------------------------------

  /**
   * AVL_GetNode's loop (avl.c:42-52) from the subtree t with the parents p above it: go right on
   * a positive comparison, left on a negative one, stop at an equal key or at NULL.
   */
  function Descend(cmp: (Poly, Poly) -> int, key: Poly, t: Node, p: seq<Frame>): (r: (Node, seq<Frame>))
    ensures Zip(r.0, r.1) == Zip(t, p)
    ensures r.0.Node? ==> cmp(key, r.0.key) == 0
    decreases t
  {
    if t.Nil? then (t, p)
    else
      var comparison := cmp(key, t.key);
      if comparison == 0 then (t, p)
      else if comparison > 0 then Descend(cmp, key, t.right, [Down(t, Right)] + p)
      else Descend(cmp, key, t.left, [Down(t, Left)] + p)
  }

  /** Keys below a pair and below key, with the pair itself below key, are still below key. */
  lemma {:induction false} BelowStep(cmp: (Poly, Poly) -> int, a: seq<(Poly, Poly)>, l: seq<(Poly, Poly)>, x: (Poly, Poly), key: Poly)
    requires TotalOrder(cmp) && Below(cmp, a, key) && Below(cmp, l, x.0) && cmp(x.0, key) < 0
    ensures Below(cmp, a + l + [x], key)
  {
    var s := a + l + [x];
    forall i | 0 <= i < |s|
      ensures cmp(KeyAt(s, i), key) < 0
    {
      if i < |a| {
        assert KeyAt(s, i) == KeyAt(a, i);
      } else if i < |a| + |l| {
        assert KeyAt(s, i) == KeyAt(l, i - |a|);
        Trans(cmp, KeyAt(l, i - |a|), x.0, key);
      } else {
        assert KeyAt(s, i) == x.0;
      }
    }
  }

  /** The mirror of BelowStep. */
  lemma {:induction false} AboveStep(cmp: (Poly, Poly) -> int, x: (Poly, Poly), r: seq<(Poly, Poly)>, b: seq<(Poly, Poly)>, key: Poly)
    requires TotalOrder(cmp) && Above(cmp, b, key) && Above(cmp, r, x.0) && cmp(key, x.0) < 0
    ensures Above(cmp, [x] + r + b, key)
  {
    var s := [x] + r + b;
    forall i | 0 <= i < |s|
      ensures cmp(key, KeyAt(s, i)) < 0
    {
      if i == 0 {
        assert KeyAt(s, i) == x.0;
      } else if i < 1 + |r| {
        assert KeyAt(s, i) == KeyAt(r, i - 1);
        Trans(cmp, key, x.0, KeyAt(r, i - 1));
      } else {
        assert KeyAt(s, i) == KeyAt(b, i - 1 - |r|);
      }
    }
  }

  /** What the walk keeps, where it stands at t below the parents p. */
  ghost predicate Between(cmp: (Poly, Poly) -> int, key: Poly, t: Node, p: seq<Frame>)
  {
    Ordered(cmp, Items(Zip(t, p))) && Below(cmp, Before(p), key) && Above(cmp, After(p), key)
  }

  /** A run of pairs taken out of an ordered sequence is ordered. */
  lemma {:induction false} OrderedMiddle(cmp: (Poly, Poly) -> int, a: seq<(Poly, Poly)>, m: seq<(Poly, Poly)>, b: seq<(Poly, Poly)>)
    requires Ordered(cmp, a + m + b)
    ensures Ordered(cmp, m)
  {
    forall i, j | 0 <= i < j < |m|
      ensures cmp(KeyAt(m, i), KeyAt(m, j)) < 0
    {
      assert KeyAt(m, i) == KeyAt(a + m + b, |a| + i) && KeyAt(m, j) == KeyAt(a + m + b, |a| + j);
    }
  }

  /** The subtrees of t hold the pairs below and above t's own. */
  lemma {:induction false} OrderedSides(cmp: (Poly, Poly) -> int, t: Node, p: seq<Frame>)
    requires t.Node? && Ordered(cmp, Items(Zip(t, p)))
    ensures Below(cmp, Items(t.left), t.key) && Above(cmp, Items(t.right), t.key)
  {
    ZipItems(t, p);
    OrderedMiddle(cmp, Before(p), Items(t), After(p));
    OrderedSplit(cmp, Items(t.left), Items(t.right), (t.key, t.value));
  }

  /** A step right keeps the key between. */
  lemma {:induction false} StepRight(cmp: (Poly, Poly) -> int, key: Poly, t: Node, p: seq<Frame>)
    requires TotalOrder(cmp) && t.Node? && cmp(key, t.key) > 0 && Between(cmp, key, t, p)
    ensures Between(cmp, key, t.right, [Down(t, Right)] + p)
  {
    var p' := [Down(t, Right)] + p;
    assert p'[1..] == p;
    assert Zip(t.right, p') == Zip(t, p);
    assert Before(p') == Before(p) + Items(t.left) + [(t.key, t.value)];
    OrderedSides(cmp, t, p);
    BelowStep(cmp, Before(p), Items(t.left), (t.key, t.value), key);
  }

  /** A step left keeps the key between. */
  lemma {:induction false} StepLeft(cmp: (Poly, Poly) -> int, key: Poly, t: Node, p: seq<Frame>)
    requires TotalOrder(cmp) && t.Node? && cmp(key, t.key) < 0 && Between(cmp, key, t, p)
    ensures Between(cmp, key, t.left, [Down(t, Left)] + p)
  {
    var p' := [Down(t, Left)] + p;
    assert p'[1..] == p;
    assert Zip(t.left, p') == Zip(t, p);
    assert After(p') == [(t.key, t.value)] + Items(t.right) + After(p);
    OrderedSides(cmp, t, p);
    AboveStep(cmp, (t.key, t.value), Items(t.right), After(p), key);
  }

  /**
   * In an ordered tree the walk keeps the key between the pairs left of it and those right of it:
   * where it stops on NULL, the key belongs exactly there.
   */
  lemma {:induction false} DescendBetween(cmp: (Poly, Poly) -> int, key: Poly, t: Node, p: seq<Frame>)
    requires TotalOrder(cmp) && Between(cmp, key, t, p)
    ensures Between(cmp, key, Descend(cmp, key, t, p).0, Descend(cmp, key, t, p).1)
    decreases t
  {
    if t.Node? && cmp(key, t.key) > 0 {
      StepRight(cmp, key, t, p);
      DescendBetween(cmp, key, t.right, [Down(t, Right)] + p);
    } else if t.Node? && cmp(key, t.key) < 0 {
      StepLeft(cmp, key, t, p);
      DescendBetween(cmp, key, t.left, [Down(t, Left)] + p);
    }
  }

  /** Looking up around one pair. */
  lemma {:induction false} LookupAround(a: seq<(Poly, Poly)>, x: (Poly, Poly), b: seq<(Poly, Poly)>, key: Poly)
    ensures Lookup(a + [x] + b, key) ==
      if Lookup(a, key).Some? then Lookup(a, key) else if key == x.0 then Some(x.1) else Lookup(b, key)
  {
    LookupAppend(a + [x], b, key);
    LookupAppend(a, [x], key);
  }

  /**
   * In an ordered tree the walk stops on a node exactly when the key is bound, and that node holds
   * the key and its value; either way the pairs split around where it stops.
   */
  lemma {:induction false} DescendFinds(cmp: (Poly, Poly) -> int, key: Poly, t: Node)
    requires TotalOrder(cmp) && Ordered(cmp, Items(t))
    ensures Items(t) == Before(Descend(cmp, key, t, []).1) + Items(Descend(cmp, key, t, []).0) + After(Descend(cmp, key, t, []).1)
    ensures Between(cmp, key, Descend(cmp, key, t, []).0, Descend(cmp, key, t, []).1)
    ensures Descend(cmp, key, t, []).0.Node? <==> Lookup(Items(t), key).Some?
    ensures Descend(cmp, key, t, []).0.Node? ==>
      Descend(cmp, key, t, []).0.key == key && Lookup(Items(t), key) == Some(Descend(cmp, key, t, []).0.value)
  {
    var (f, p) := Descend(cmp, key, t, []);
    DescendBetween(cmp, key, t, []);
    ZipItems(f, p);
    FoundAt(cmp, key, f, p);
  }

  /** Where the walk stops, the key is bound exactly when it stopped on a node, and to that node's value. */
  lemma {:induction false} FoundAt(cmp: (Poly, Poly) -> int, key: Poly, f: Node, p: seq<Frame>)
    requires TotalOrder(cmp) && Between(cmp, key, f, p) && (f.Node? ==> cmp(key, f.key) == 0)
    ensures f.Node? <==> Lookup(Before(p) + Items(f) + After(p), key).Some?
    ensures f.Node? ==> f.key == key && Lookup(Before(p) + Items(f) + After(p), key) == Some(f.value)
  {
    Outside(cmp, Before(p), After(p), key);
    if f.Nil? {
      LookupAppend(Before(p), After(p), key);
      assert Before(p) + Items(f) + After(p) == Before(p) + After(p);
    } else {
      OrderedSides(cmp, f, p);
      Outside(cmp, Items(f.left), [], key);
      LookupAppend(Before(p), Items(f.left), key);
      Regroup(Before(p), Items(f.left), [(f.key, f.value)], Items(f.right), After(p));
      LookupAround(Before(p) + Items(f.left), (f.key, f.value), Items(f.right) + After(p), key);
    }
  }

  // --- Get and Contains ---------------------------------------------------------------------------

  /** AVL_Get (avl.c:54-59): the value of the node the walk finds, POLY_DEFAULT when there is none. */
  function Get(cmp: (Poly, Poly) -> int, t: Node, key: Poly): Poly
  {
    var f := Descend(cmp, key, t, []).0;
    if f.Node? then f.value else DEFAULT
  }

  /** AVL_Contains (avl.c:300-303): 1 when the walk finds a node, 0 otherwise. */
  function Contains(cmp: (Poly, Poly) -> int, t: Node, key: Poly): int
  {
    if Descend(cmp, key, t, []).0.Node? then 1 else 0
  }

  /** On an ordered tree Get returns the bound value and Contains tells whether there is one. */
  lemma {:induction false} GetContains(cmp: (Poly, Poly) -> int, t: Node, key: Poly)
    requires TotalOrder(cmp) && Ordered(cmp, Items(t))
    ensures Get(cmp, t, key) == match Lookup(Items(t), key) case Some(v) => v case None => DEFAULT
    ensures Contains(cmp, t, key) == 1 <==> Lookup(Items(t), key).Some?
    ensures Contains(cmp, t, key) == 0 <==> Lookup(Items(t), key).None?
  {
    DescendFinds(cmp, key, t);
  }

  // --- Set ----------------------------------------------------------------------------------------

  /**
   * AVL_Set (avl.c:161-211): a node with an equal key takes the new value; otherwise a leaf of
   * height 1 goes where the walk fell off the tree and the path above it is repaired.
   */
  function SetNode(cmp: (Poly, Poly) -> int, t: Node, key: Poly, value: Poly): Node
  {
    var (f, p) := Descend(cmp, key, t, []);
    if f.Node? then Zip(f.(value := value), p) else RepairUp(Node(Nil, key, value, 1, Nil), p)
  }

  /** Giving the pair x a new value keeps the order and every other binding. */
  lemma {:induction false} ReplaceMap(cmp: (Poly, Poly) -> int, a: seq<(Poly, Poly)>, x: (Poly, Poly), b: seq<(Poly, Poly)>, value: Poly)
    requires TotalOrder(cmp) && Ordered(cmp, a + [x] + b)
    ensures Ordered(cmp, a + [(x.0, value)] + b)
    ensures forall k :: Lookup(a + [(x.0, value)] + b, k) == if k == x.0 then Some(value) else Lookup(a + [x] + b, k)
  {
    OrderedSplit(cmp, a, b, x);
    OrderedRemove(cmp, a, b, x);
    OrderedInsert(cmp, a, b, (x.0, value));
    Outside(cmp, a, [], x.0);
    forall k
      ensures Lookup(a + [(x.0, value)] + b, k) == if k == x.0 then Some(value) else Lookup(a + [x] + b, k)
    {
      LookupAround(a, x, b, k);
      LookupAround(a, (x.0, value), b, k);
    }
  }

  /** Putting x between the pairs below and above its key keeps the order and binds it. */
  lemma {:induction false} InsertMap(cmp: (Poly, Poly) -> int, a: seq<(Poly, Poly)>, x: (Poly, Poly), b: seq<(Poly, Poly)>)
    requires TotalOrder(cmp) && Ordered(cmp, a + b) && Below(cmp, a, x.0) && Above(cmp, b, x.0)
    ensures Ordered(cmp, a + [x] + b)
    ensures forall k :: Lookup(a + [x] + b, k) == if k == x.0 then Some(x.1) else Lookup(a + b, k)
  {
    OrderedInsert(cmp, a, b, x);
    Outside(cmp, a, b, x.0);
    forall k
      ensures Lookup(a + [x] + b, k) == if k == x.0 then Some(x.1) else Lookup(a + b, k)
    {
      LookupAround(a, x, b, k);
      LookupAppend(a, b, k);
    }
  }

  /**
   * On an ordered tree Set binds the key to the value, keeps every other binding and the order,
   * and adds one pair exactly when the key was not bound.
   */
  lemma {:induction false} SetNodeMap(cmp: (Poly, Poly) -> int, t: Node, key: Poly, value: Poly)
    requires TotalOrder(cmp) && Ordered(cmp, Items(t))
    ensures Ordered(cmp, Items(SetNode(cmp, t, key, value)))
    ensures forall k :: Lookup(Items(SetNode(cmp, t, key, value)), k) == if k == key then Some(value) else Lookup(Items(t), k)
    ensures |Items(SetNode(cmp, t, key, value))| == |Items(t)| + if Lookup(Items(t), key).Some? then 0 else 1
  {
    var (f, p) := Descend(cmp, key, t, []);
    DescendFinds(cmp, key, t);
    if f.Node? {
      SetExisting(cmp, t, key, value, Items(SetNode(cmp, t, key, value)));
    } else {
      RepairUpItems(Node(Nil, key, value, 1, Nil), p);
      SetNew(cmp, t, key, value, Items(SetNode(cmp, t, key, value)));
    }
  }

  /** SetNodeMap where the key is bound: s are the pairs once the found node has the new value. */
  lemma {:induction false} SetExisting(cmp: (Poly, Poly) -> int, t: Node, key: Poly, value: Poly, s: seq<(Poly, Poly)>)
    requires TotalOrder(cmp) && Ordered(cmp, Items(t))
    requires Descend(cmp, key, t, []).0.Node?
    requires s == Items(Zip(Descend(cmp, key, t, []).0.(value := value), Descend(cmp, key, t, []).1))
    ensures Ordered(cmp, s) && |s| == |Items(t)|
    ensures forall k :: Lookup(s, k) == if k == key then Some(value) else Lookup(Items(t), k)
  {
    var (f, p) := Descend(cmp, key, t, []);
    DescendFinds(cmp, key, t);
    var a, b := Before(p) + Items(f.left), Items(f.right) + After(p);
    ZipItems(f.(value := value), p);
    Regroup(Before(p), Items(f.left), [(key, f.value)], Items(f.right), After(p));
    Regroup(Before(p), Items(f.left), [(key, value)], Items(f.right), After(p));
    ReplaceMap(cmp, a, (key, f.value), b, value);
  }

  /** SetNodeMap where the key is not bound: s are the pairs once the new leaf has its place. */
  lemma {:induction false} SetNew(cmp: (Poly, Poly) -> int, t: Node, key: Poly, value: Poly, s: seq<(Poly, Poly)>)
    requires TotalOrder(cmp) && Ordered(cmp, Items(t))
    requires Descend(cmp, key, t, []).0.Nil?
    requires s == Items(Zip(Node(Nil, key, value, 1, Nil), Descend(cmp, key, t, []).1))
    ensures Ordered(cmp, s) && |s| == |Items(t)| + 1
    ensures forall k :: Lookup(s, k) == if k == key then Some(value) else Lookup(Items(t), k)
  {
    var p := Descend(cmp, key, t, []).1;
    DescendFinds(cmp, key, t);
    ZipItems(Node(Nil, key, value, 1, Nil), p);
    assert Items(t) == Before(p) + After(p);
    assert s == Before(p) + [(key, value)] + After(p) by {
      assert Items(Node(Nil, key, value, 1, Nil)) == [(key, value)];
    }
    InsertMap(cmp, Before(p), (key, value), After(p));
  }

  /** Set on a balanced tree leaves it balanced, every stored height right. */
  lemma {:induction false} SetNodeBalanced(cmp: (Poly, Poly) -> int, t: Node, key: Poly, value: Poly)
    requires Balanced(t)
    ensures Balanced(SetNode(cmp, t, key, value))
  {
    var (f, p) := Descend(cmp, key, t, []);
    ZipBalanced(f, p);
    if f.Node? {
      ZipBalanced(f.(value := value), p);
    } else {
      RepairUpBalanced(Node(Nil, key, value, 1, Nil), p, 0);
    }
  }

  // --- Delete -------------------------------------------------------------------------------------

  /** AVL_Delete's walk to the in-order predecessor (avl.c:228-229): right links down to a node with no right child. */
  function Rightmost(t: Node, p: seq<Frame>): (r: (Node, seq<Frame>))
    requires t.Node?
    ensures r.0.Node? && r.0.right.Nil? && Zip(r.0, r.1) == Zip(t, p) && After(r.1) == After(p)
    decreases t
  {
    if t.right.Nil? then (t, p) else Rightmost(t.right, [Down(t, Right)] + p)
  }

  /**
   * The tail of AVL_Delete (avl.c:290-296): the subtree F has taken the unlinked node's place
   * under the parents q. Without a parent F is the new root; otherwise the parent's height is
   * recalculated and the repair starts from its right child, else its left child, else itself.
   */
  function Reattach(F: Node, q: seq<Frame>): Node
  {
    if q == [] then F
    else
      var parent := RecalcHeight(Plug(q[0], F));
      if parent.right.Node? then RepairUp(parent.right, [Down(parent, Right)] + q[1..])
      else if parent.left.Node? then RepairUp(parent.left, [Down(parent, Left)] + q[1..])
      else RepairUp(parent, q[1..])
  }

  /**
   * AVL_Delete once the walk has found the container c under the parents p (avl.c:224-289).
   * With two children, the predecessor d is unlinked in favour of its left subtree and the
   * container takes d's key and value; with one child or none, the container is unlinked in
   * favour of that child.
   */
  function Unlink(c: Node, p: seq<Frame>): Node
    requires c.Node?
  {
    if c.right.Node? && c.left.Node? then
      var (d, qs) := Rightmost(c.left, []);
      Reattach(d.left, qs + ([Frame(Left, d.key, d.value, c.height, c.right)] + p))
    else if c.right.Node? then Reattach(c.right, p)
    else Reattach(c.left, p)
  }

  /** AVL_Delete (avl.c:218-298): nothing happens when the walk finds no node with the key. */
  function DeleteNode(cmp: (Poly, Poly) -> int, t: Node, key: Poly): Node
  {
    var (c, p) := Descend(cmp, key, t, []);
    if c.Nil? then t else Unlink(c, p)
  }

  /** Reattaching only rotates: the pairs are those of F at its place. */
  lemma {:induction false} ReattachItems(F: Node, q: seq<Frame>)
    ensures Items(Reattach(F, q)) == Items(Zip(F, q))
  {
    if q != [] {
      var parent := RecalcHeight(Plug(q[0], F));
      if parent.right.Node? {
        var q' := [Down(parent, Right)] + q[1..];
        assert q'[1..] == q[1..];
        RepairUpItems(parent.right, q');
      } else if parent.left.Node? {
        var q' := [Down(parent, Left)] + q[1..];
        assert q'[1..] == q[1..];
        RepairUpItems(parent.left, q');
      } else {
        RepairUpItems(parent, q[1..]);
      }
      SameItems(parent, Plug(q[0], F), q[1..]);
    }
  }

  /** Unlinking removes exactly the container's own pair. */
  lemma {:induction false} UnlinkItems(c: Node, p: seq<Frame>)
    requires c.Node?
    ensures Items(Unlink(c, p)) == Before(p) + (Items(c.left) + Items(c.right)) + After(p)
  {
    if c.right.Node? && c.left.Node? {
      UnlinkBothItems(c, p);
    } else if c.right.Node? {
      ReattachItems(c.right, p);
      ZipItems(c.right, p);
    } else {
      ReattachItems(c.left, p);
      ZipItems(c.left, p);
    }
  }

  /** The two-children case of UnlinkItems: the predecessor's pair moves up into the container. */
  lemma {:induction false} UnlinkBothItems(c: Node, p: seq<Frame>)
    requires c.Node? && c.left.Node? && c.right.Node?
    ensures Items(Unlink(c, p)) == Before(p) + (Items(c.left) + Items(c.right)) + After(p)
  {
    var (d, qs) := Rightmost(c.left, []);
    var q := qs + ([Frame(Left, d.key, d.value, c.height, c.right)] + p);
    assert Unlink(c, p) == Reattach(d.left, q);
    ReattachItems(d.left, q);
    PredecessorMoves(c, p);
  }

  /** The pairs once the predecessor's left subtree has its place and the container its pair. */
  lemma {:induction false} PredecessorMoves(c: Node, p: seq<Frame>)
    requires c.Node? && c.left.Node? && c.right.Node?
    ensures
      var (d, qs) := Rightmost(c.left, []);
      Items(Zip(d.left, qs + ([Frame(Left, d.key, d.value, c.height, c.right)] + p))) ==
        Before(p) + (Items(c.left) + Items(c.right)) + After(p)
  {
    var (d, qs) := Rightmost(c.left, []);
    PredecessorItems(d, qs, Frame(Left, d.key, d.value, c.height, c.right), p);
    RightmostItems(c.left);
    Shift(Before(p), Before(qs) + Items(d.left), (d.key, d.value), Items(c.right), After(p));
  }

  /** The predecessor's pair is the last of the subtree it was found in, after its own left subtree. */
  lemma {:induction false} RightmostItems(t: Node)
    requires t.Node?
    ensures Items(t) == Before(Rightmost(t, []).1) + Items(Rightmost(t, []).0.left) + [(Rightmost(t, []).0.key, Rightmost(t, []).0.value)]
  {
    var (d, qs) := Rightmost(t, []);
    ZipItems(d, qs);
    assert After(qs) == [];
  }

  /** Reattaching the predecessor's left subtree below the container that took its pair. */
  lemma {:induction false} PredecessorItems(d: Node, qs: seq<Frame>, cf: Frame, p: seq<Frame>)
    requires d.Node? && After(qs) == [] && cf.side == Left && cf.key == d.key && cf.value == d.value
    ensures Items(Zip(d.left, qs + ([cf] + p))) ==
      Before(p) + Before(qs) + Items(d.left) + ([(d.key, d.value)] + Items(cf.other) + After(p))
  {
    var q := qs + ([cf] + p);
    ZipItems(d.left, q);
    BeforeAppend(qs, [cf] + p);
    AfterAppend(qs, [cf] + p);
    assert ([cf] + p)[1..] == p;
  }

  /** Moving a pair across a boundary. */
  lemma {:induction false} Shift(a: seq<(Poly, Poly)>, l: seq<(Poly, Poly)>, x: (Poly, Poly), r: seq<(Poly, Poly)>, b: seq<(Poly, Poly)>)
    ensures a + l + ([x] + r + b) == a + ((l + [x]) + r) + b
  {
  }

  /** Dropping the pair x from an ordered sequence keeps the order and unbinds exactly its key. */
  lemma {:induction false} RemoveMap(cmp: (Poly, Poly) -> int, a: seq<(Poly, Poly)>, x: (Poly, Poly), b: seq<(Poly, Poly)>)
    requires TotalOrder(cmp) && Ordered(cmp, a + [x] + b)
    ensures Ordered(cmp, a + b)
    ensures forall k :: Lookup(a + b, k) == if k == x.0 then None else Lookup(a + [x] + b, k)
  {
    OrderedSplit(cmp, a, b, x);
    OrderedRemove(cmp, a, b, x);
    Outside(cmp, a, b, x.0);
    forall k
      ensures Lookup(a + b, k) == if k == x.0 then None else Lookup(a + [x] + b, k)
    {
      LookupAround(a, x, b, k);
      LookupAppend(a, b, k);
    }
  }

  /**
   * On an ordered tree Delete unbinds the key, keeps every other binding and the order, and drops
   * one pair exactly when the key was bound.
   */
  lemma {:induction false} DeleteNodeMap(cmp: (Poly, Poly) -> int, t: Node, key: Poly)
    requires TotalOrder(cmp) && Ordered(cmp, Items(t))
    ensures Ordered(cmp, Items(DeleteNode(cmp, t, key)))
    ensures forall k :: Lookup(Items(DeleteNode(cmp, t, key)), k) == if k == key then None else Lookup(Items(t), k)
    ensures |Items(DeleteNode(cmp, t, key))| == |Items(t)| - if Lookup(Items(t), key).Some? then 1 else 0
  {
    var (c, p) := Descend(cmp, key, t, []);
    DescendFinds(cmp, key, t);
    if c.Node? {
      var a, b := Before(p) + Items(c.left), Items(c.right) + After(p);
      UnlinkItems(c, p);
      Regroup(Before(p), Items(c.left), [(key, c.value)], Items(c.right), After(p));
      Regroup2(Before(p), Items(c.left), Items(c.right), After(p));
      RemoveMap(cmp, a, (key, c.value), b);
    }
  }
}
