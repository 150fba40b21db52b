/**
 * The doubly linked list of list.c. Nodes are heap objects whose prev/next links the methods
 * relink in place; the ghost fields `nodes` (the nodes from first to last) and `contents` (their
 * values) are the abstract view that every method keeps up to date.
 */
module LinkedList {
  import opened Poly

  /** LIST_Node: a value between two links. */
  class Node {
    var prev: Node?
    var next: Node?
    var value: Poly

    /** The malloc and the three field writes at the top of LIST_Insert. */
    constructor (value: Poly, prev: Node?, next: Node?)
      ensures this.value == value && this.prev == prev && this.next == next
    {
      this.value := value;
      this.prev := prev;
      this.next := next;
    }
  }

  /** The position an iterator moves to from `index` over a list of n values; -1 is "no current node". */
  function Step(index: int, n: nat): (r: int)
    requires -1 <= index < n
    ensures -1 <= r < n
    ensures r == -1 <==> index == n - 1
    ensures r != -1 ==> r == index + 1
  {
    if index + 1 < n then index + 1 else -1
  }

  /** The position after k steps. */
  function Steps(index: int, n: nat, k: nat): (r: int)
    requires -1 <= index < n
    ensures -1 <= r < n
  {
    if k == 0 then index else Step(Steps(index, n, k - 1), n)
  }

  /** From a reset iterator the first k steps land on positions 0, 1, ..., k - 1, in order. */
  lemma {:induction false} StepsInOrder(n: nat, k: nat)
    requires 1 <= k <= n
    ensures Steps(-1, n, k) == k - 1
  {
    if k > 1 {
      StepsInOrder(n, k - 1);
    }
  }

  /** After the last value, one more step leaves the iterator reset again. */
  lemma StepsPastEnd(n: nat)
    ensures Steps(-1, n, n + 1) == -1
    ensures n > 0 ==> Steps(-1, n, n) == n - 1
  {
    if n > 0 {
      StepsInOrder(n, n);
    }
  }

  /** Every node appears once. */
  ghost predicate Distinct(ns: seq<Node>)
  {
    forall i, j :: 0 <= i < j < |ns| ==> ns[i] != ns[j]
  }

  /** Each node's prev is the node before it and its next the node after it, NULL past either end. */
  ghost predicate Linked(ns: seq<Node>)
    reads ns
  {
    (forall i {:trigger ns[i].prev} :: 0 <= i < |ns| ==> ns[i].prev == if i == 0 then null else ns[i - 1]) &&
    (forall i {:trigger ns[i].next} :: 0 <= i < |ns| ==> ns[i].next == if i == |ns| - 1 then null else ns[i + 1])
  }

  /**
   * ns is a list of nodes going from first to last, holding the values vs: the ends are NULL
   * exactly when there are no nodes, every node appears once and the links of neighbours agree.
   */
  ghost predicate Chain(ns: seq<Node>, vs: seq<Poly>, first: Node?, last: Node?)
    reads ns
  {
    |vs| == |ns| &&
    (|ns| == 0 ==> first == null && last == null) &&
    (|ns| > 0 ==> first == ns[0] && last == ns[|ns| - 1]) &&
    (forall i :: 0 <= i < |ns| ==> ns[i].value == vs[i]) &&
    Distinct(ns) && Linked(ns)
  }

  /** The elements of s with x placed at position k. */
  lemma InsertIndex<T>(s: seq<T>, x: T, k: int)
    requires 0 <= k <= |s|
    ensures |s[..k] + [x] + s[k..]| == |s| + 1
    ensures forall i :: 0 <= i <= |s| ==> (s[..k] + [x] + s[k..])[i] == if i < k then s[i] else if i == k then x else s[i - 1]
  {
  }

  /** The elements of s without position k. */
  lemma RemoveIndex<T>(s: seq<T>, k: int)
    requires 0 <= k < |s|
    ensures |s[..k] + s[k + 1..]| == |s| - 1
    ensures forall i :: 0 <= i < |s| - 1 ==> (s[..k] + s[k + 1..])[i] == if i < k then s[i] else s[i + 1]
  {
  }

  /** A node not in s placed among distinct nodes keeps them distinct. */
  lemma InsertedDistinct(s: seq<Node>, node: Node, k: int)
    requires 0 <= k <= |s| && Distinct(s) && node !in s
    ensures Distinct(s[..k] + [node] + s[k..])
  {
    InsertIndex(s, node, k);
  }

  /**
   * A node linked in between positions k - 1 and k of a linked sequence s, every other link
   * being as it was, gives a linked sequence again.
   */
  lemma InsertedLinked(s: seq<Node>, node: Node, k: int)
    requires 0 <= k <= |s|
    requires node.prev == (if k == 0 then null else s[k - 1]) && node.next == (if k == |s| then null else s[k])
    requires k > 0 ==> s[k - 1].next == node
    requires k < |s| ==> s[k].prev == node
    requires forall i {:trigger s[i].next} :: 0 <= i < |s| && i != k - 1 ==> s[i].next == if i == |s| - 1 then null else s[i + 1]
    requires forall i {:trigger s[i].prev} :: 0 <= i < |s| && i != k ==> s[i].prev == if i == 0 then null else s[i - 1]
    ensures Linked(s[..k] + [node] + s[k..])
  {
    var ns := s[..k] + [node] + s[k..];
    InsertIndex(s, node, k);
    forall i | 0 <= i < |ns|
      ensures ns[i].next == if i == |ns| - 1 then null else ns[i + 1]
    {
      if i < k - 1 {
        assert ns[i].next == s[i].next;
      } else if i > k {
        assert ns[i].next == s[i - 1].next;
      }
    }
    forall i | 0 <= i < |ns|
      ensures ns[i].prev == if i == 0 then null else ns[i - 1]
    {
      if i < k {
        assert ns[i].prev == s[i].prev;
      } else if i > k + 1 {
        assert ns[i].prev == s[i - 1].prev;
      }
    }
  }

  /** Inserting at position k: the new node and its value join the chain there, with the ends updated. */
  lemma InsertedChain(s: seq<Node>, vs: seq<Poly>, node: Node, k: int, first: Node?, last: Node?)
    requires 0 <= k <= |s| && |vs| == |s| && Distinct(s) && node !in s
    requires first == if k == 0 then node else s[0]
    requires last == if k == |s| then node else s[|s| - 1]
    requires Linked(s[..k] + [node] + s[k..])
    requires forall i :: 0 <= i < |s| ==> s[i].value == vs[i]
    ensures Chain(s[..k] + [node] + s[k..], vs[..k] + [node.value] + vs[k..], first, last)
  {
    InsertIndex(s, node, k);
    InsertIndex(vs, node.value, k);
    InsertedDistinct(s, node, k);
  }

  /** Distinct nodes stay distinct when one is taken out. */
  lemma RemovedDistinct(s: seq<Node>, k: int)
    requires 0 <= k < |s| && Distinct(s)
    ensures Distinct(s[..k] + s[k + 1..])
  {
    RemoveIndex(s, k);
  }

  /**
   * The node at position k of a linked sequence s bypassed (its neighbours pointing at each
   * other), every other link being as it was, leaves a linked sequence.
   */
  lemma RemovedLinked(s: seq<Node>, k: int)
    requires 0 <= k < |s|
    requires k > 0 ==> s[k - 1].next == if k == |s| - 1 then null else s[k + 1]
    requires k < |s| - 1 ==> s[k + 1].prev == if k == 0 then null else s[k - 1]
    requires forall i {:trigger s[i].next} :: 0 <= i < |s| && i != k - 1 ==> s[i].next == if i == |s| - 1 then null else s[i + 1]
    requires forall i {:trigger s[i].prev} :: 0 <= i < |s| && i != k + 1 ==> s[i].prev == if i == 0 then null else s[i - 1]
    ensures Linked(s[..k] + s[k + 1..])
  {
    var ns := s[..k] + s[k + 1..];
    RemoveIndex(s, k);
    forall i | 0 <= i < |ns|
      ensures ns[i].next == if i == |ns| - 1 then null else ns[i + 1]
    {
      if i < k - 1 {
        assert ns[i].next == s[i].next;
      } else if i >= k {
        assert ns[i].next == s[i + 1].next;
      }
    }
    forall i | 0 <= i < |ns|
      ensures ns[i].prev == if i == 0 then null else ns[i - 1]
    {
      if i < k {
        assert ns[i].prev == s[i].prev;
      } else if i > k {
        assert ns[i].prev == s[i + 1].prev;
      }
    }
  }

  /** Deleting position k: the node and its value leave the chain, with the ends updated. */
  lemma RemovedChain(s: seq<Node>, vs: seq<Poly>, k: int, first: Node?, last: Node?)
    requires 0 <= k < |s| && |vs| == |s| && Distinct(s)
    requires first == if |s| == 1 then null else if k == 0 then s[1] else s[0]
    requires last == if |s| == 1 then null else if k == |s| - 1 then s[|s| - 2] else s[|s| - 1]
    requires Linked(s[..k] + s[k + 1..])
    requires forall i :: 0 <= i < |s| ==> s[i].value == vs[i]
    ensures Chain(s[..k] + s[k + 1..], vs[..k] + vs[k + 1..], first, last)
  {
    RemoveIndex(s, k);
    RemoveIndex(vs, k);
    RemovedDistinct(s, k);
  }

  /** LIST_List: the two ends and the size counter. */
  class List {
    var first: Node?
    var last: Node?
    var size: nat
    ghost var nodes: seq<Node>
    ghost var contents: seq<Poly>

    /**
     * Every node is in the footprint and appears once, size counts the nodes, the ends are
     * NULL exactly when there are none, and the prev/next links of neighbours agree.
     */
    ghost predicate Valid()
      reads this, nodes
    {
      size == |nodes| && Chain(nodes, contents, first, last)
    }

    /** A list allocated and passed to LIST_Initialize. */
    constructor ()
      ensures Valid() && contents == []
    {
      new;
      Initialize();
    }

    /** LIST_Initialize (list.c:11-17): both ends NULL and size 0, whatever the fields held before. */
    method Initialize()
      modifies this
      ensures Valid() && contents == [] && first == null && last == null
    {
      first, last, size := null, null, 0;
      nodes, contents := [], [];
    }

    /**
     * LIST_Clear (list.c:28-38): walks the chain from first, releasing every node, then sets size
     * to 0. The ends keep their old (now dangling) values, so a list that had nodes is no longer
     * valid and only Initialize makes it usable again. `freed` lists the nodes in release order.
     */
    method Clear() returns (ghost freed: seq<Node>)
      requires Valid()
      modifies this
      ensures freed == old(nodes)
      ensures size == 0 && first == old(first) && last == old(last)
      ensures nodes == [] && contents == []
      ensures Valid() <==> old(nodes) == []
    {
      var node := first;
      freed := [];
      while node != null
        invariant |freed| <= |nodes| && freed == nodes[..|freed|]
        invariant node == if |freed| < |nodes| then nodes[|freed|] else null
        decreases |nodes| - |freed|
      {
        var next := node.next;
        assert nodes[..|freed| + 1] == freed + [node];
        freed := freed + [node];
        node := next;
      }
      assert freed == nodes;
      size := 0;
      nodes, contents := [], [];
    }

    /**
     * LIST_Insert (list.c:42-53): links a new node between prev and next, which the callers pass
     * as neighbours (position k of the list, NULL standing for the far side of an end).
     */
    method Insert(value: Poly, prev: Node?, next: Node?, ghost k: int)
      requires Valid() && 0 <= k <= |nodes|
      requires prev == if k == 0 then null else nodes[k - 1]
      requires next == if k == |nodes| then null else nodes[k]
      modifies this, nodes
      ensures Valid() && |nodes| == old(|nodes|) + 1 && fresh(nodes[k])
      ensures nodes == old(nodes[..k]) + [nodes[k]] + old(nodes[k..])
      ensures contents == old(contents[..k]) + [value] + old(contents[k..])
    {
      ghost var s, vs := nodes, contents;
      var node := new Node(value, prev, next);
      size := size + 1;
      nodes := s[..k] + [node] + s[k..];
      contents := vs[..k] + [value] + vs[k..];
      if prev != null {
        prev.next := node;
      } else {
        first := node;
      }
      if next != null {
        next.prev := node;
      } else {
        last := node;
      }
      forall i | 0 <= i < |s| && i != k - 1
        ensures s[i].next == if i == |s| - 1 then null else s[i + 1]
      {
        assert s[i] != prev;
        assert s[i].next == old(s[i].next);
      }
      forall i | 0 <= i < |s| && i != k
        ensures s[i].prev == if i == 0 then null else s[i - 1]
      {
        assert s[i] != next;
        assert s[i].prev == old(s[i].prev);
      }
      forall i | 0 <= i < |s|
        ensures s[i].value == vs[i]
      {
        assert s[i].value == old(s[i].value);
      }
      InsertedLinked(s, node, k);
      InsertedChain(s, vs, node, k, first, last);
    }

    /** LIST_InsertHead (list.c:55-58): the value goes in front. */
    method InsertHead(value: Poly)
      requires Valid()
      modifies this, nodes
      ensures Valid() && forall n :: n in nodes ==> n in old(nodes) || fresh(n)
      ensures contents == [value] + old(contents) && size == old(size) + 1
    {
      Insert(value, null, first, 0);
    }

    /** LIST_InsertTail (list.c:60-63): the value goes at the back. */
    method InsertTail(value: Poly)
      requires Valid()
      modifies this, nodes
      ensures Valid() && forall n :: n in nodes ==> n in old(nodes) || fresh(n)
      ensures contents == old(contents) + [value] && size == old(size) + 1
    {
      Insert(value, last, null, |nodes|);
      assert old(contents)[..|old(contents)|] == old(contents);
    }

    /** LIST_Delete (list.c:67-75): unlinks the node at position k and releases it. */
    method Delete(node: Node, ghost k: int)
      requires Valid() && 0 <= k < |nodes| && nodes[k] == node
      modifies this, nodes
      ensures Valid()
      ensures nodes == old(nodes[..k] + nodes[k + 1..])
      ensures contents == old(contents[..k] + contents[k + 1..])
    {
      ghost var s, vs := nodes, contents;
      size := size - 1;
      nodes := s[..k] + s[k + 1..];
      contents := vs[..k] + vs[k + 1..];
      if node.prev != null {
        node.prev.next := node.next;
      } else {
        first := node.next;
      }
      if node.next != null {
        node.next.prev := node.prev;
      } else {
        last := node.prev;
      }
      forall i | 0 <= i < |s| && i != k - 1
        ensures s[i].next == if i == |s| - 1 then null else s[i + 1]
      {
        assert k > 0 ==> s[i] != s[k - 1];
        assert s[i].next == old(s[i].next);
      }
      forall i | 0 <= i < |s| && i != k + 1
        ensures s[i].prev == if i == 0 then null else s[i - 1]
      {
        assert k < |s| - 1 ==> s[i] != s[k + 1];
        assert s[i].prev == old(s[i].prev);
      }
      forall i | 0 <= i < |s|
        ensures s[i].value == vs[i]
      {
        assert s[i].value == old(s[i].value);
      }
      RemovedLinked(s, k);
      RemovedChain(s, vs, k, first, last);
    }

    /** LIST_TakeHead (list.c:77-83): removes and returns the first value; POLY_DEFAULT and no change on an empty list. */
    method TakeHead() returns (r: Poly)
      requires Valid()
      modifies this, nodes
      ensures Valid() && forall n :: n in nodes ==> n in old(nodes)
      ensures old(contents) == [] ==> r == DEFAULT && contents == [] && size == 0
      ensures old(contents) != [] ==> r == old(contents[0]) && contents == old(contents[1..]) && size == old(size) - 1
    {
      if first == null {
        return DEFAULT;
      }
      r := first.value;
      Delete(first, 0);
    }

    /** LIST_TakeTail (list.c:85-91): removes and returns the last value; POLY_DEFAULT and no change on an empty list. */
    method TakeTail() returns (r: Poly)
      requires Valid()
      modifies this, nodes
      ensures Valid() && forall n :: n in nodes ==> n in old(nodes)
      ensures old(contents) == [] ==> r == DEFAULT && contents == [] && size == 0
      ensures old(contents) != [] ==> r == old(contents[|contents| - 1]) && contents == old(contents[..|contents| - 1]) && size == old(size) - 1
    {
      if last == null {
        return DEFAULT;
      }
      r := last.value;
      Delete(last, |nodes| - 1);
    }

    /** LIST_PeekHead (list.c:93-97): the first value, POLY_DEFAULT on an empty list. */
    method PeekHead() returns (r: Poly)
      requires Valid()
      ensures r == if contents == [] then DEFAULT else contents[0]
    {
      if first == null {
        return DEFAULT;
      }
      return first.value;
    }

    /** LIST_PeekTail (list.c:99-103): the last value, POLY_DEFAULT on an empty list. */
    method PeekTail() returns (r: Poly)
      requires Valid()
      ensures r == if contents == [] then DEFAULT else contents[|contents| - 1]
    {
      if last == null {
        return DEFAULT;
      }
      return last.value;
    }

    /** LIST_Size (list.c:105-108): the number of values; it is 0 exactly when both ends are NULL. */
    method Size() returns (n: nat)
      requires Valid()
      ensures n == |contents|
      ensures n == 0 <==> first == null
      ensures n == 0 <==> last == null
    {
      return size;
    }
  }

  /** LIST_Iterator: a list and the current node, NULL before the first Next and after the last. */
  class Iterator {
    const list: List
    var current: Node?
    ghost var index: int

    /** The list is valid and `index` is the position of the current node, -1 for NULL. */
    ghost predicate Valid()
      reads this, list, list.nodes
    {
      list.Valid() && -1 <= index < |list.nodes| &&
      current == if index == -1 then null else list.nodes[index]
    }

    /** LIST_InitializeIterator (list.c:110-115): an iterator over list with no current node. */
    constructor (list: List)
      requires list.Valid()
      ensures Valid() && this.list == list && index == -1
    {
      this.list := list;
      current := null;
      index := -1;
    }

    /**
     * LIST_Next (list.c:117-129): from no current node to the first, otherwise to the successor;
     * 1 when there is a current node afterwards, 0 when the walk fell off the end.
     */
    method Next() returns (r: int)
      requires Valid()
      modifies this
      ensures Valid() && index == Step(old(index), |list.contents|)
      ensures r == if index == -1 then 0 else 1
    {
      if current != null {
        current := current.next;
      } else {
        current := list.first;
      }
      index := Step(index, |list.nodes|);
      if current != null {
        r := 1;
      } else {
        r := 0;
      }
    }

    /** LIST_Peek (list.c:131-135): the value at the current node, POLY_DEFAULT when there is none. */
    method Peek() returns (r: Poly)
      requires Valid()
      ensures r == if index == -1 then DEFAULT else list.contents[index]
    {
      if current != null {
        return current.value;
      }
      return DEFAULT;
    }

    /** LIST_Reset (list.c:137-140): back to no current node. */
    method Reset()
      requires Valid()
      modifies this
      ensures Valid() && index == -1
    {
      current := null;
      index := -1;
    }
  }
}
