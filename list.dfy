/**
  A doubly linked list of integers with a cursor (List.h).

  The list holds pointers to its first and last nodes and a count.  The ghost field `Nodes`
  is the chain of nodes from head to tail and `Contents` their values; `Valid` ties the two to
  the pointers: the ends are the first and last nodes with null outer links, and neighbours
  point at each other both ways.  Freeing nodes is not modelled: a node taken out of the list
  is simply no longer in `Nodes`.
*/
module LinkedList {
  import opened Sequences

  class Node {
    var prev: Node?
    var next: Node?
    var val: int

    constructor (prev: Node?, next: Node?, val: int)
      ensures this.prev == prev && this.next == next && this.val == val
    {
      this.prev := prev;
      this.next := next;
      this.val := val;
    }
  }

  /** A fresh node carrying value, linked in between the neighbours a and b. */
  method Splice(a: Node, b: Node, value: int) returns (x: Node)
    requires a != b
    modifies a, b
    ensures fresh(x) && x.prev == a && x.next == b && x.val == value
    ensures a.next == x && a.prev == old(a.prev) && a.val == old(a.val)
    ensures b.prev == x && b.next == old(b.next) && b.val == old(b.val)
  {
    x := new Node(a, b, value);
    a.next := x;
    b.prev := x;
  }

  /** After a splice between positions i - 1 and i that leaves every other node of the
      chain as it was, the chain with the new node inserted at i is linked throughout. */
  twostate lemma SplicedLinks(ns: seq<Node>, new cs: seq<int>, new i: int, new x: Node, new v: int)
    requires 0 < i < |ns| == |cs|
    requires old(forall k {:trigger Linked(ns, cs, k)} :: 0 <= k < |ns| ==> Linked(ns, cs, k))
    requires x.prev == ns[i - 1] && x.next == ns[i] && x.val == v
    requires ns[i - 1].next == x && ns[i - 1].prev == old(ns[i - 1].prev) && ns[i - 1].val == old(ns[i - 1].val)
    requires ns[i].prev == x && ns[i].next == old(ns[i].next) && ns[i].val == old(ns[i].val)
    requires forall k :: 0 <= k < |ns| && k != i - 1 && k != i ==> unchanged(ns[k])
    ensures forall k {:trigger Linked(InsertAt(ns, i, x), InsertAt(cs, i, v), k)} ::
      0 <= k <= |ns| ==> Linked(InsertAt(ns, i, x), InsertAt(cs, i, v), k)
  {
    var ms, ds := InsertAt(ns, i, x), InsertAt(cs, i, v);
    forall k | 0 <= k <= |ns|
      ensures Linked(ms, ds, k)
    {
      if k < i {
        assert old(Linked(ns, cs, k));
      } else if k > i {
        assert old(Linked(ns, cs, k - 1));
      }
    }
  }

  /** The position of node n in a chain. */
  ghost function IndexOf(ns: seq<Node>, n: Node): (i: nat)
    requires n in ns
    ensures i < |ns| && ns[i] == n
  {
    if ns[0] == n then 0 else 1 + IndexOf(ns[1..], n)
  }

  /** Positions i and j of the chain hold different nodes. */
  ghost predicate Apart(ns: seq<Node>, i: int, j: int)
    requires 0 <= i < |ns| && 0 <= j < |ns|
  {
    ns[i] != ns[j]
  }

  /** No node appears twice in the chain.  The pairwise facts are drawn out one pair at a
      time, by naming the pair with Apart. */
  ghost predicate Distinct(ns: seq<Node>)
  {
    forall i, j {:trigger Apart(ns, i, j)} :: 0 <= i < |ns| && 0 <= j < |ns| && i != j ==> Apart(ns, i, j)
  }

  /** In a chain without repeats a node's position is the one index that holds it. */
  lemma IndexOfUnique(ns: seq<Node>, n: Node, i: int)
    requires Distinct(ns) && 0 <= i < |ns| && ns[i] == n
    ensures IndexOf(ns, n) == i
  {
    var j := IndexOf(ns, n);
    assert i == j || Apart(ns, i, j);
  }

  /** A chain stays free of repeats when a node not in it is added. */
  lemma DistinctInsert(ns: seq<Node>, i: int, x: Node)
    requires Distinct(ns) && 0 <= i <= |ns| && x !in ns
    ensures Distinct(InsertAt(ns, i, x))
  {
    var ms := InsertAt(ns, i, x);
    forall k, j | 0 <= k < |ms| && 0 <= j < |ms| && k != j
      ensures Apart(ms, k, j)
    {
      if k != i && j != i {
        var k', j' := if k < i then k else k - 1, if j < i then j else j - 1;
        assert Apart(ns, k', j');
      } else if k == i {
        assert ms[j] in ns;
      } else {
        assert ms[k] in ns;
      }
    }
  }

  /** A chain stays free of repeats when a node is taken out. */
  lemma DistinctRemove(ns: seq<Node>, i: int)
    requires Distinct(ns) && 0 <= i < |ns|
    ensures Distinct(RemoveAt(ns, i))
  {
    var ms := RemoveAt(ns, i);
    forall k, j | 0 <= k < |ms| && 0 <= j < |ms| && k != j
      ensures Apart(ms, k, j)
    {
      assert Apart(ns, if k < i then k else k + 1, if j < i then j else j + 1);
    }
  }

  /** The first node of a chain, null for an empty chain. */
  ghost function First(ns: seq<Node>): Node?
  {
    if |ns| == 0 then null else ns[0]
  }

  /** The last node of a chain, null for an empty chain. */
  ghost function Last(ns: seq<Node>): Node?
  {
    if |ns| == 0 then null else ns[|ns| - 1]
  }

  /** The node that follows position k, null after the last. */
  ghost function After(ns: seq<Node>, k: int): Node?
    requires 0 <= k < |ns|
  {
    if k + 1 < |ns| then ns[k + 1] else null
  }

  /** The node that precedes position k, null before the first. */
  ghost function Before(ns: seq<Node>, k: int): Node?
    requires 0 <= k < |ns|
  {
    if k > 0 then ns[k - 1] else null
  }

  /** The node at position k links to its neighbours in the chain (null at either end) and
      holds the value at position k. */
  ghost predicate Linked(ns: seq<Node>, cs: seq<int>, k: int)
    requires 0 <= k < |ns| == |cs|
    reads ns[k]
  {
    ns[k].next == After(ns, k) && ns[k].prev == Before(ns, k) && ns[k].val == cs[k]
  }

  class List {
    ghost var Nodes: seq<Node>
    ghost var Contents: seq<int>
    ghost var Repr: set<object>

    var head: Node?
    var tail: Node?
    var size: nat

    ghost predicate Valid()
      reads this, Repr
      ensures Valid() ==> this in Repr
    {
      this in Repr &&
      size == |Nodes| == |Contents| &&
      head == First(Nodes) && tail == Last(Nodes) &&
      Distinct(Nodes) &&
      (forall k :: 0 <= k < |Nodes| ==> Nodes[k] in Repr) &&
      (forall k {:trigger Linked(Nodes, Contents, k)} :: 0 <= k < |Nodes| ==> Linked(Nodes, Contents, k))
    }

    /** List(): the empty list. */
    constructor ()
      ensures Valid() && fresh(Repr)
      ensures Contents == []
    {
      head, tail, size := null, null, 0;
      Nodes, Contents := [], [];
      Repr := {this};
    }

    /** insert_head(value): a new first node. */
    method InsertHead(value: int)
      requires Valid()
      modifies Repr
      ensures Valid() && fresh(Repr - old(Repr))
      ensures Contents == [value] + old(Contents)
      ensures fresh(head) && Nodes == [head] + old(Nodes)
      ensures old(size) == 0 ==> tail == head
    {
      ghost var ns, cs := Nodes, Contents;
      var node := new Node(null, head, value);
      if head != null {
        assert head == ns[0];
        head.prev := node;
        head := node;
      } else {
        head := node;
        tail := node;
      }
      size := size + 1;
      Nodes := [node] + ns;
      Contents := [value] + cs;
      Repr := Repr + {node};
      InsertAtEnds(ns, node);
      DistinctInsert(ns, 0, node);
      forall k | 0 <= k < |Nodes|
        ensures Linked(Nodes, Contents, k)
      {
        if k > 0 {
          assert old(Linked(ns, cs, k - 1));
          assert k > 1 ==> Apart(ns, k - 1, 0);
        }
      }
    }

    /** insert_tail(value): a new last node. */
    method InsertTail(value: int)
      requires Valid()
      modifies Repr
      ensures Valid() && fresh(Repr - old(Repr))
      ensures Contents == old(Contents) + [value]
      ensures fresh(tail) && Nodes == old(Nodes) + [tail]
      ensures old(size) == 0 ==> head == tail
    {
      ghost var ns, cs := Nodes, Contents;
      var node := new Node(tail, null, value);
      if tail != null {
        assert tail == ns[|ns| - 1];
        tail.next := node;
        tail := node;
      } else {
        head := node;
        tail := node;
      }
      size := size + 1;
      Nodes := ns + [node];
      Contents := cs + [value];
      Repr := Repr + {node};
      InsertAtEnds(ns, node);
      DistinctInsert(ns, |ns|, node);
      forall k | 0 <= k < |Nodes|
        ensures Linked(Nodes, Contents, k)
      {
        if k < |ns| {
          assert old(Linked(ns, cs, k));
          assert k < |ns| - 1 ==> Apart(ns, k, |ns| - 1);
        }
      }
    }

    /** insert(node, value): a new node just before node, which is the head (possibly null, on
        an empty list) or another node of the list. */
    method Insert(node: Node?, value: int) returns (inserted: Node)
      requires Valid() && (node == head || node in Nodes)
      modifies Repr
      ensures Valid() && fresh(Repr - old(Repr)) && fresh(inserted)
      ensures var i := if node == old(head) then 0 else IndexOf(old(Nodes), node);
        Contents == InsertAt(old(Contents), i, value) && Nodes == InsertAt(old(Nodes), i, inserted)
    {
      if node == head {
        InsertAtEnds(Contents, value);
        InsertAtEnds(Nodes, head);
        ghost var ns := Nodes;
        InsertHead(value);
        InsertAtEnds(ns, head);
        inserted := head;
      } else {
        inserted := InsertBefore(node, value);
      }
    }

    /** The inner case of insert(node, value): node has a predecessor, and the new node is
        linked in between the two. */
    method InsertBefore(node: Node, value: int) returns (inserted: Node)
      requires Valid() && node in Nodes && node != head
      modifies Repr
      ensures Valid() && fresh(Repr - old(Repr)) && fresh(inserted)
      ensures var i := IndexOf(old(Nodes), node);
        Contents == InsertAt(old(Contents), i, value) && Nodes == InsertAt(old(Nodes), i, inserted)
    {
      ghost var ns, cs := Nodes, Contents;
      ghost var i := IndexOf(ns, node);
      assert Linked(ns, cs, i) && i > 0 && Apart(ns, i - 1, i);
      inserted := Splice(node.prev, node, value);
      forall k | 0 <= k < |ns| && k != i - 1 && k != i
        ensures unchanged(ns[k])
      {
        assert Apart(ns, k, i - 1) && Apart(ns, k, i);
      }
      SplicedLinks(ns, cs, i, inserted, value);
      size := size + 1;
      Nodes := InsertAt(ns, i, inserted);
      Contents := InsertAt(cs, i, value);
      Repr := Repr + {inserted};
      DistinctInsert(ns, i, inserted);
    }

    /** remove_head(): drop the first node. */
    method RemoveHead()
      requires Valid() && |Contents| > 0
      modifies Repr
      ensures Valid() && Repr == old(Repr)
      ensures Contents == old(Contents)[1..] && Nodes == old(Nodes)[1..]
      ensures head == null ==> old(size) == 1 && tail == null
    {
      ghost var ns, cs := Nodes, Contents;
      assert Linked(ns, cs, 0);
      var nextHead := head.next;
      head := nextHead;
      if head != null {
        head.prev := null;
      } else {
        tail := null;
      }
      size := size - 1;
      Nodes := ns[1..];
      Contents := cs[1..];
      DistinctRemove(ns, 0);
      RemoveAtEnds(ns);
      forall k | 0 <= k < |Nodes|
        ensures Linked(Nodes, Contents, k)
      {
        assert old(Linked(ns, cs, k + 1));
        assert k > 0 ==> Apart(ns, k + 1, 1);
      }
    }

    /** remove_tail(): drop the last node. */
    method RemoveTail()
      requires Valid() && |Contents| > 0
      modifies Repr
      ensures Valid() && Repr == old(Repr)
      ensures Contents == old(Contents)[..old(size) - 1] && Nodes == old(Nodes)[..old(size) - 1]
      ensures tail == null ==> old(size) == 1 && head == null
    {
      ghost var ns, cs := Nodes, Contents;
      assert Linked(ns, cs, |ns| - 1);
      var nextTail := tail.prev;
      tail := nextTail;
      if tail != null {
        tail.next := null;
      } else {
        head := null;
      }
      size := size - 1;
      Nodes := ns[..size];
      Contents := cs[..size];
      DistinctRemove(ns, |ns| - 1);
      RemoveAtEnds(ns);
      forall k | 0 <= k < |Nodes|
        ensures Linked(Nodes, Contents, k)
      {
        assert old(Linked(ns, cs, k));
        assert k < |Nodes| - 1 ==> Apart(ns, k, |ns| - 2);
      }
    }

    /** remove(node): unlink node, whichever of first, last or inner node it is. */
    method Remove(node: Node)
      requires Valid() && node in Nodes
      modifies Repr
      ensures Valid() && Repr == old(Repr)
      ensures var i := IndexOf(old(Nodes), node);
        Contents == RemoveAt(old(Contents), i) && Nodes == RemoveAt(old(Nodes), i)
    {
      ghost var ns := Nodes;
      ghost var i := IndexOf(ns, node);
      if node == head {
        IndexOfUnique(ns, node, 0);
      }
      if node == tail {
        IndexOfUnique(ns, node, |ns| - 1);
      }
      var isHead := node == head;
      var isTail := node == tail;
      RemoveAtEnds(Contents);
      RemoveAtEnds(ns);
      if isHead && isTail {
        RemoveHead();
      } else if isHead {
        RemoveHead();
      } else if isTail {
        RemoveTail();
      } else {
        Unlink(node);
      }
    }

    /** The inner case of remove(node): node has neighbours on both sides, which are linked to
        each other. */
    method Unlink(node: Node)
      requires Valid() && node in Nodes && node != head && node != tail
      modifies Repr
      ensures Valid() && Repr == old(Repr)
      ensures var i := IndexOf(old(Nodes), node);
        Contents == RemoveAt(old(Contents), i) && Nodes == RemoveAt(old(Nodes), i)
    {
      ghost var ns, cs := Nodes, Contents;
      ghost var i := IndexOf(ns, node);
      assert 0 < i < |ns| - 1 && Linked(ns, cs, i);
      var prevNode := node.prev;
      var nextNode := node.next;
      prevNode.next := nextNode;
      nextNode.prev := prevNode;
      size := size - 1;
      Nodes := RemoveAt(ns, i);
      Contents := RemoveAt(cs, i);
      DistinctRemove(ns, i);
      forall k | 0 <= k < |Nodes|
        ensures Linked(Nodes, Contents, k)
      {
        if k < i {
          assert old(Linked(ns, cs, k));
          assert k < i - 1 ==> Apart(ns, k, i - 1);
          assert Apart(ns, k, i + 1);
        } else {
          assert old(Linked(ns, cs, k + 1));
          assert Apart(ns, k + 1, i - 1);
          assert k > i ==> Apart(ns, k + 1, i + 1);
        }
      }
    }

    /** head(): the first value. */
    method Head() returns (x: int)
      requires Valid() && |Contents| > 0
      ensures x == Contents[0]
    {
      assert Linked(Nodes, Contents, 0);
      x := head.val;
    }

    /** tail(): the last value. */
    method Tail() returns (x: int)
      requires Valid() && |Contents| > 0
      ensures x == Contents[|Contents| - 1]
    {
      assert Linked(Nodes, Contents, |Nodes| - 1);
      x := tail.val;
    }

    /** size(). */
    method Size() returns (n: int)
      requires Valid()
      ensures n == |Contents|
    {
      n := size;
    }

    /** empty(). */
    method Empty() returns (b: bool)
      requires Valid()
      ensures b <==> Contents == []
    {
      b := size == 0;
    }

    /** clear() as written: walks the chain node by node (freeing each) and leaves head, tail
        and size as they were, so a non-empty list still claims its old contents. */
    method Clear()
      requires Valid()
      ensures Valid() && Contents == old(Contents)
    {
      var it := head;
      ghost var k := 0;
      while it != null
        invariant 0 <= k <= size
        invariant it == if k < size then Nodes[k] else null
        decreases size - k
      {
        assert Linked(Nodes, Contents, k);
        var next := it.next;
        it := next;
        k := k + 1;
      }
    }

    /** clear() as evidently intended: the list is left empty. */
    method ClearFixed()
      requires Valid()
      modifies this
      ensures Valid() && Contents == [] && Repr == old(Repr)
    {
      head, tail, size := null, null, 0;
      Nodes, Contents := [], [];
    }

    /** iterator(): a cursor on the first node (null on an empty list). */
    method Iterator() returns (it: ListIterator)
      requires Valid()
      ensures fresh(it) && it.Valid() && it.owner == this && it.node == head
    {
      it := new ListIterator(this, head);
    }
  }

  /** List::Iterator (ConstIterator has the same traversal and is covered by it): a cursor
      that stands on a node of the list or on null, past either end. */
  class ListIterator {
    var owner: List
    var node: Node?

    ghost predicate Valid()
      reads this, owner, owner.Repr
    {
      owner.Valid() && this !in owner.Repr && (node == null || node in owner.Nodes)
    }

    constructor (owner: List, node: Node?)
      requires owner.Valid() && (node == null || node in owner.Nodes)
      ensures Valid() && this.owner == owner && this.node == node
    {
      this.owner := owner;
      this.node := node;
    }

    /** get(): the value under the cursor. */
    method Get() returns (x: int)
      requires Valid() && node != null
      ensures x == owner.Contents[IndexOf(owner.Nodes, node)]
    {
      assert Linked(owner.Nodes, owner.Contents, IndexOf(owner.Nodes, node));
      x := node.val;
    }

    /** set(value): overwrite the value under the cursor. */
    method Set(value: int)
      requires Valid() && node != null
      modifies owner, node
      ensures Valid() && owner.Nodes == old(owner.Nodes) && node == old(node)
      ensures owner.Repr == old(owner.Repr)
      ensures owner.Contents == old(owner.Contents)[IndexOf(owner.Nodes, node) := value]
    {
      ghost var ns, cs := owner.Nodes, owner.Contents;
      ghost var i := IndexOf(ns, node);
      IndexOfUnique(ns, node, i);
      assert Linked(ns, cs, i);
      node.val := value;
      owner.Contents := cs[i := value];
      forall k | 0 <= k < |ns|
        ensures Linked(owner.Nodes, owner.Contents, k)
      {
        assert old(Linked(ns, cs, k));
        assert k != i ==> Apart(ns, k, i);
      }
    }

    /** insert(value): insert before the cursor and move the cursor onto the new node. */
    method Insert(value: int)
      requires Valid() && (node == owner.head || node != null)
      modifies this, owner.Repr
      ensures Valid() && owner == old(owner) && fresh(owner.Repr - old(owner.Repr)) && fresh(node)
      ensures var i := if old(node) == old(owner.head) then 0 else IndexOf(old(owner.Nodes), old(node));
        owner.Contents == InsertAt(old(owner.Contents), i, value) &&
        owner.Nodes == InsertAt(old(owner.Nodes), i, node) && node == owner.Nodes[i]
    {
      node := owner.Insert(node, value);
    }

    /** remove(): remove the node under the cursor and move the cursor to the node that
        followed it (null when it was the last). */
    method Remove()
      requires Valid() && node != null
      modifies this, owner.Repr
      ensures Valid() && owner == old(owner) && owner.Repr == old(owner.Repr)
      ensures var i := IndexOf(old(owner.Nodes), old(node));
        owner.Contents == RemoveAt(old(owner.Contents), i) &&
        owner.Nodes == RemoveAt(old(owner.Nodes), i) &&
        node == (if i < |owner.Nodes| then owner.Nodes[i] else null) &&
        node == old(node.next)
    {
      ghost var i := IndexOf(owner.Nodes, node);
      assert Linked(owner.Nodes, owner.Contents, i);
      var nextNode := node.next;
      owner.Remove(node);
      node := nextNode;
      assert node != null ==> i < |owner.Nodes| && node == owner.Nodes[i];
    }

    /** next(): step to the following node (null past the last). */
    method Next()
      requires Valid() && node != null
      modifies this
      ensures Valid() && owner == old(owner)
      ensures var i := IndexOf(owner.Nodes, old(node));
        node == if i + 1 < |owner.Nodes| then owner.Nodes[i + 1] else null
    {
      assert Linked(owner.Nodes, owner.Contents, IndexOf(owner.Nodes, node));
      node := node.next;
    }

    /** prev(): step to the preceding node (null before the first). */
    method Prev()
      requires Valid() && node != null
      modifies this
      ensures Valid() && owner == old(owner)
      ensures var i := IndexOf(owner.Nodes, old(node));
        node == if i > 0 then owner.Nodes[i - 1] else null
    {
      assert Linked(owner.Nodes, owner.Contents, IndexOf(owner.Nodes, node));
      node := node.prev;
    }

    /** hasNext(): the cursor stands on a node (the same test as hasPrev). */
    method HasNext() returns (b: bool)
      requires Valid()
      ensures b <==> node != null
    {
      b := node != null;
    }

    /** hasPrev(): the cursor stands on a node (the same test as hasNext). */
    method HasPrev() returns (b: bool)
      requires Valid()
      ensures b <==> node != null
    {
      b := node != null;
    }
  }
}
