/** The doubly linked list of DoubleLinkedList.cpp: heap nodes linked by
    next and prev, owned through head, with a cached size. Each operation
    is proved against the sequence function in ListSpec that gives its
    meaning. */
module DoubleLinkedList {
  import opened ListSpec

  /** One element of the chain. */
  class Node<T> {
    var data: T
    var next: Node?<T>
    var prev: Node?<T>

    constructor (data: T)
      ensures this.data == data && next == null && prev == null
    {
      this.data := data;
      next := null;
      prev := null;
    }
  }

  /** A forward cursor: the node it references and its logical index. */
  datatype ListIterator<T> = ListIterator(ptr: Node?<T>, index: nat) {

    /** getNodeIndex() */
    function NodeIndex(): nat
    {
      index
    }

    /** operator*: the element of the referenced node. */
    function Deref(): T
      reads ptr
      requires ptr != null
    {
      ptr.data
    }

    /** operator++: the next node, one index further. */
    function Next(): ListIterator<T>
      reads ptr
      requires ptr != null
    {
      ListIterator(ptr.next, index + 1)
    }
  }

  /** ns is wired as a doubly linked chain: of two neighbours the first's
      next is the second and the second's prev the first; the first node's
      prev and the last node's next are null. */
  ghost predicate Wired<T>(ns: seq<Node<T>>)
    reads ns
  {
    (ns != [] ==> ns[0].prev == null && ns[|ns| - 1].next == null) &&
    forall i, j {:trigger ns[i], ns[j]} :: 0 <= i && j == i + 1 && j < |ns| ==>
      ns[i].next == ns[j] && ns[j].prev == ns[i]
  }

  /** As Wired, except that the nodes with index in [lo, hi) have their next
      and prev swapped: the state reverse leaves behind while it walks. */
  ghost predicate WiredSwapped<T>(ns: seq<Node<T>>, lo: int, hi: int)
    reads ns
  {
    (ns != [] ==>
      (if lo <= 0 < hi then ns[0].next else ns[0].prev) == null &&
      (if lo <= |ns| - 1 < hi then ns[|ns| - 1].prev else ns[|ns| - 1].next) == null) &&
    forall i, j {:trigger ns[i], ns[j]} :: 0 <= i && j == i + 1 && j < |ns| ==>
      (if lo <= i < hi then ns[i].prev else ns[i].next) == ns[j] &&
      (if lo <= j < hi then ns[j].next else ns[j].prev) == ns[i]
  }

  /** The links inside and around a reversed range [start, e], other than
      the two that join it to the rest: nodes inside have next and prev
      swapped, nodes outside are wired as before. */
  ghost predicate RangeLinks<T>(ns: seq<Node<T>>, start: nat, e: nat)
    reads ns
  {
    forall i, j {:trigger ns[i], ns[j]} :: 0 <= i && j == i + 1 && j < |ns| && j != start && i != e ==>
      (if start <= i <= e then ns[i].prev else ns[i].next) == ns[j] &&
      (if start <= j <= e then ns[j].next else ns[j].prev) == ns[i]
  }

  /** The reversed range [start, e] is joined to its predecessor, or is at
      the front. */
  ghost predicate FrontLinked<T>(ns: seq<Node<T>>, start: nat, e: nat)
    requires start <= e < |ns|
    reads ns
  {
    if start == 0 then ns[e].prev == null
    else ns[0].prev == null && ns[start - 1].next == ns[e] && ns[e].prev == ns[start - 1]
  }

  /** The reversed range [start, e] is joined to its successor, or is at
      the back. */
  ghost predicate BackLinked<T>(ns: seq<Node<T>>, start: nat, e: nat)
    requires start <= e < |ns|
    reads ns
  {
    if e + 1 == |ns| then ns[start].next == null
    else ns[|ns| - 1].next == null && ns[start].next == ns[e + 1] && ns[e + 1].prev == ns[start]
  }

  /** The first join of reverse(start, end)'s close: startNode->_next and
      cur->_prev, where cur is the last node of the swapped range. */
  method HookFront<T>(startNode: Node?<T>, cur: Node<T>, ghost ns: seq<Node<T>>, ghost start: nat, ghost e: nat)
    requires Distinct(ns) && start <= e < |ns| && cur == ns[e]
    requires startNode == if start == 0 then null else ns[start - 1]
    requires WiredSwapped(ns, start, e + 1)
    modifies startNode, cur
    ensures RangeLinks(ns, start, e) && FrontLinked(ns, start, e)
    ensures e + 1 < |ns| ==> ns[|ns| - 1].next == null
    ensures forall i :: 0 <= i < |ns| ==> ns[i].data == old(ns[i].data)
  {
    if startNode != null {
      startNode.next := cur;
    }
    cur.prev := startNode;
  }

  /** The second join: firstNode->_next and last->_prev, where firstNode is
      the first node of the range and last the node after it. */
  method HookBack<T>(firstNode: Node<T>, last: Node?<T>, ghost ns: seq<Node<T>>, ghost start: nat, ghost e: nat)
    requires Distinct(ns) && start <= e < |ns| && firstNode == ns[start]
    requires last == if e + 1 < |ns| then ns[e + 1] else null
    requires RangeLinks(ns, start, e) && FrontLinked(ns, start, e)
    requires e + 1 < |ns| ==> ns[|ns| - 1].next == null
    modifies firstNode, last
    ensures RangeLinks(ns, start, e) && FrontLinked(ns, start, e) && BackLinked(ns, start, e)
    ensures forall i :: 0 <= i < |ns| ==> ns[i].data == old(ns[i].data)
  {
    firstNode.next := last;
    if last != null {
      last.prev := firstNode;
    }
  }

  /** std::swap(cur->_prev, cur->_next) on the node at index m, the first
      one past a swapped run [lo, m): the run grows by one. */
  method SwapLinks<T>(cur: Node<T>, ghost ns: seq<Node<T>>, ghost lo: nat, ghost m: nat)
    requires Distinct(ns) && lo <= m < |ns| && cur == ns[m] && WiredSwapped(ns, lo, m)
    modifies cur
    ensures WiredSwapped(ns, lo, m + 1)
    ensures cur.next == old(cur.prev) && cur.prev == old(cur.next) && cur.data == old(cur.data)
  {
    cur.prev, cur.next := cur.next, cur.prev;
  }

  /** In a wired chain the next of node k is node k + 1, or null at the tail. */
  lemma NextOf<T>(ns: seq<Node<T>>, k: nat)
    requires Wired(ns) && k < |ns|
    ensures ns[k].next == if k + 1 < |ns| then ns[k + 1] else null
  {
    if k + 1 < |ns| {
      assert ns[k].next == ns[k + 1];
    }
  }

  /** In a wired chain the prev of node k is node k - 1, or null at the head. */
  lemma PrevOf<T>(ns: seq<Node<T>>, k: nat)
    requires Wired(ns) && k < |ns|
    ensures ns[k].prev == if k > 0 then ns[k - 1] else null
  {
    if k > 0 {
      assert ns[k - 1].next == ns[k];
    }
  }

  /** The splice insert performs: with the new node n linked to the node
      before index p = min(pos, |ns|) and to the node at p, and every other
      pair of neighbours still linked, the chain with n at p is wired. */
  lemma InsertedWired<T>(ns: seq<Node<T>>, n: Node<T>, pos: nat)
    requires var p := Min(pos, |ns|);
      (if p == 0 then n.prev == null else ns[p - 1].next == n && n.prev == ns[p - 1]) &&
      (if p == |ns| then n.next == null else n.next == ns[p] && ns[p].prev == n) &&
      (0 < p ==> ns[0].prev == null) && (p < |ns| ==> ns[|ns| - 1].next == null)
    requires forall i, j {:trigger ns[i], ns[j]} :: 0 <= i && j == i + 1 && j < |ns| && j != Min(pos, |ns|) ==>
      ns[i].next == ns[j] && ns[j].prev == ns[i]
    ensures Wired(Inserted(ns, n, pos))
  {
    var p, r := Min(pos, |ns|), Inserted(ns, n, pos);
    forall j | 0 <= j <= |ns|
      ensures r[j] == if j < p then ns[j] else if j == p then n else ns[j - 1]
    {
      InsertedAt(ns, n, pos, j);
    }
    assert |r| == |ns| + 1;
    forall i, j | 0 <= i && j == i + 1 && j < |r|
      ensures r[i].next == r[j] && r[j].prev == r[i]
    {
      if j < p {
        assert r[i] == ns[i] && r[j] == ns[j];
      } else if j == p {
        assert r[i] == ns[i] && r[j] == n;
      } else if i == p {
        assert r[i] == n && r[j] == ns[p];
      } else {
        assert r[i] == ns[i - 1] && r[j] == ns[j - 1];
      }
    }
  }

  /** The splice remove performs: with the nodes either side of index p
      linked to each other and every pair of neighbours not involving p
      still linked, the chain without node p is wired. */
  lemma RemovedWired<T>(ns: seq<Node<T>>, p: nat)
    requires p < |ns|
    requires 0 < p ==> ns[0].prev == null && ns[p - 1].next == (if p + 1 < |ns| then ns[p + 1] else null)
    requires p + 1 < |ns| ==> ns[|ns| - 1].next == null && ns[p + 1].prev == (if 0 < p then ns[p - 1] else null)
    requires forall i, j {:trigger ns[i], ns[j]} :: 0 <= i && j == i + 1 && j < |ns| && i != p && j != p ==>
      ns[i].next == ns[j] && ns[j].prev == ns[i]
    ensures Wired(Removed(ns, p))
  {
    var r := Removed(ns, p);
    forall j | 0 <= j < |ns| - 1
      ensures r[j] == if j < p then ns[j] else ns[j + 1]
    {
      RemovedAt(ns, p, j);
    }
    assert |r| == |ns| - 1;
    forall i, j | 0 <= i && j == i + 1 && j < |r|
      ensures r[i].next == r[j] && r[j].prev == r[i]
    {
      if j < p {
        assert r[i] == ns[i] && r[j] == ns[j];
      } else if j == p {
        assert r[i] == ns[p - 1] && r[j] == ns[p + 1];
      } else {
        assert r[i] == ns[i + 1] && r[j] == ns[j + 1];
      }
    }
  }

  /** Inserting a node not yet in a chain of distinct nodes that carry es
      keeps it distinct and carrying es with the value inserted alike. */
  lemma InsertedCarries<T>(ns: seq<Node<T>>, es: seq<T>, repr: set<object>, n: Node<T>, v: T, pos: nat)
    requires |es| == |ns| && Distinct(ns) && n !in ns && n.data == v
    requires forall i :: 0 <= i < |ns| ==> ns[i] in repr && ns[i].data == es[i]
    ensures var r := Inserted(ns, n, pos);
      |r| == |ns| + 1 && |Inserted(es, v, pos)| == |es| + 1 && Distinct(r) &&
      r[0] == (if pos == 0 || ns == [] then n else ns[0]) &&
      forall j :: 0 <= j < |r| ==> r[j] in repr + {n} && r[j].data == Inserted(es, v, pos)[j]
  {
    var r := Inserted(ns, n, pos);
    forall j | 0 <= j <= |ns|
      ensures r[j] == if j < Min(pos, |ns|) then ns[j] else if j == Min(pos, |ns|) then n else ns[j - 1]
      ensures r[j] in repr + {n} && r[j].data == Inserted(es, v, pos)[j]
    {
      InsertedAt(ns, n, pos, j);
      InsertedAt(es, v, pos, j);
    }
  }

  /** Removing node p from a chain of distinct nodes that carry es keeps it
      distinct, drops node p from the footprint and carries es without p. */
  lemma RemovedCarries<T>(ns: seq<Node<T>>, es: seq<T>, repr: set<object>, p: nat)
    requires p < |ns| && |es| == |ns| && Distinct(ns)
    requires forall i :: 0 <= i < |ns| ==> ns[i] in repr && ns[i].data == es[i]
    ensures var r := Removed(ns, p);
      |r| == |ns| - 1 && |Removed(es, p)| == |es| - 1 && Distinct(r) &&
      (r != [] ==> r[0] == ns[if p == 0 then 1 else 0]) &&
      forall j :: 0 <= j < |r| ==> r[j] in repr - {ns[p]} && r[j].data == Removed(es, p)[j]
  {
    var r := Removed(ns, p);
    forall j | 0 <= j < |ns| - 1
      ensures r[j] == if j < p then ns[j] else ns[j + 1]
      ensures r[j] in repr - {ns[p]} && r[j].data == Removed(es, p)[j]
    {
      RemovedAt(ns, p, j);
      RemovedAt(es, p, j);
    }
  }

  /** The relinking reverse(start, end) ends with, for e the last index of
      the range: pairs of neighbours outside the range keep their links,
      neighbours inside it point the other way, the node before the range
      and the last node of the range point at each other, and so do the
      first node of the range and the node after it. Read in its new order
      the chain is then wired. */
  lemma RangeReversedWired<T>(ns: seq<Node<T>>, start: nat, end: nat)
    requires start < |ns| && start <= end
    requires RangeLinks(ns, start, Min(end, |ns| - 1))
    requires FrontLinked(ns, start, Min(end, |ns| - 1))
    requires BackLinked(ns, start, Min(end, |ns| - 1))
    ensures Wired(ReversedRange(ns, start, end))
  {
    var n, e := |ns|, Min(end, |ns| - 1);
    var r := ReversedRange(ns, start, end);
    forall j | 0 <= j < n
      ensures r[j] == if start <= j <= e then ns[start + e - j] else ns[j]
    {
      ReversedRangeAt(ns, start, end, j);
    }
    assert |r| == n;
    forall i, j | 0 <= i && j == i + 1 && j < n
      ensures r[i].next == r[j] && r[j].prev == r[i]
    {
      if j < start || e + 1 < i {
        assert r[i] == ns[i] && r[j] == ns[j];
      } else if j == start {
        assert r[i] == ns[start - 1] && r[j] == ns[e];
      } else if j <= e {
        var a := start + e - i;
        assert r[i] == ns[a] && r[j] == ns[a - 1];
        assert ns[a - 1].prev == ns[a] && ns[a].next == ns[a - 1];
      } else if i == e {
        assert r[i] == ns[start] && r[j] == ns[e + 1];
      } else {
        assert r[i] == ns[i] && r[j] == ns[j];
      }
    }
  }

  /** Reversing a range of distinct nodes that carry es in some footprint
      gives distinct nodes, still in it, that carry es reversed the same way;
      the new first node is the range's last when the range starts at 0. */
  lemma ReversedRangeCarries<T>(ns: seq<Node<T>>, es: seq<T>, repr: set<object>, start: nat, end: nat)
    requires start < |ns| && start <= end && |es| == |ns| && Distinct(ns)
    requires forall i :: 0 <= i < |ns| ==> ns[i] in repr && ns[i].data == es[i]
    ensures var r := ReversedRange(ns, start, end);
      |r| == |ns| && Distinct(r) &&
      r[0] == ns[if start == 0 then Min(end, |ns| - 1) else 0] &&
      forall j :: 0 <= j < |r| ==> r[j] in repr && r[j].data == ReversedRange(es, start, end)[j]
  {
    ReversedRangeDistinct(ns, start, end);
    forall j | 0 <= j < |ns|
      ensures ReversedRange(ns, start, end)[j] in repr
      ensures ReversedRange(ns, start, end)[j].data == ReversedRange(es, start, end)[j]
    {
      ReversedRangeAt(ns, start, end, j);
      ReversedRangeAt(es, start, end, j);
    }
    ReversedRangeAt(ns, start, end, 0);
  }

  /** The list: head owns the chain, size caches its length. */
  class List<T(==)> {
    var head: Node?<T>
    var size: nat

    /** The elements, head first. */
    ghost var elems: seq<T>
    /** The nodes of the chain, head first. */
    ghost var nodes: seq<Node<T>>
    ghost var Repr: set<object>

    /** The chain from head runs through nodes in order, wired in both
        directions, and no node repeats, so the chain is acyclic. */
    ghost predicate Chain()
      reads this, Repr
    {
      this in Repr &&
      (forall i :: 0 <= i < |nodes| ==> nodes[i] in Repr) &&
      Distinct(nodes) &&
      head == (if nodes == [] then null else nodes[0]) &&
      Wired(nodes)
    }

    /** The ghost bookkeeping alone, without the links: what survives while
        an operation has the links half rewired. */
    ghost predicate Owned()
      reads this`nodes, this`elems, this`Repr
    {
      this in Repr &&
      (forall i :: 0 <= i < |nodes| ==> nodes[i] in Repr) &&
      Distinct(nodes) &&
      |elems| == |nodes|
    }

    /** The chain carries elems in order. */
    ghost predicate Linked()
      reads this, Repr
    {
      Chain() &&
      |elems| == |nodes| &&
      forall i :: 0 <= i < |nodes| ==> nodes[i].data == elems[i]
    }

    /** The object invariant: as Linked, and the cached size is right. */
    ghost predicate Valid()
      reads this, Repr
    {
      Linked() && size == |elems|
    }

    /** it references the node at its index, or is the end sentinel. */
    ghost predicate Points(it: ListIterator<T>)
      reads this
    {
      it.index <= |nodes| && it.ptr == (if it.index < |nodes| then nodes[it.index] else null)
    }

    // -------------------------------------------------------------------
    // construction, copy and move

    /** The default constructor: an empty list. */
    constructor ()
      ensures Valid() && fresh(Repr) && elems == []
    {
      head := null;
      size := 0;
      elems := [];
      nodes := [];
      Repr := {this};
    }

    /** The copy constructor: a new chain with the same elements. */
    constructor Copy(other: List<T>)
      requires other.Valid()
      ensures Valid() && fresh(Repr) && elems == other.elems
    {
      head := null;
      size := 0;
      elems := [];
      nodes := [];
      Repr := {this};
      new;
      Assign(other);
    }

    /** Copy assignment from another list: this gets a chain of fresh nodes
        holding other's elements; other is left as it was. */
    method Assign(other: List<T>)
      requires Linked() && other.Valid() && other != this && this !in other.Repr
      modifies this
      ensures Valid() && fresh(Repr - {this}) && elems == other.elems
    {
      size := other.size;
      if other.head == null {
        head := null;
        Describe([], [], {this});
        return;
      }
      var h;
      ghost var ns, r;
      h, ns, r := CopyChain(other);
      head := h;
      Describe(ns, other.elems, {this} + r);
    }

    /** The copying loop shared by the copy constructor and copy assignment:
        a fresh node per node of other, wired in the same order. */
    static method CopyChain(other: List<T>) returns (h: Node<T>, ghost ns: seq<Node<T>>, ghost r: set<object>)
      requires other.Linked() && other.head != null
      ensures fresh(r) && Distinct(ns) && Wired(ns)
      ensures ns != [] && h == ns[0] && |ns| == |other.elems|
      ensures forall i :: 0 <= i < |ns| ==> ns[i] in r && ns[i].data == other.elems[i]
    {
      var curOther := other.head;
      var cur := new Node(curOther.data);
      var preCur: Node?<T> := null;
      h := cur;
      ghost var k := 0;
      ns, r := [cur], {cur};
      while curOther.next != null
        invariant 0 <= k < |other.nodes| && curOther == other.nodes[k]
        invariant |ns| == k + 1 && cur == ns[k] && h == ns[0]
        invariant preCur == (if k == 0 then null else ns[k - 1])
        invariant fresh(r) && forall i :: 0 <= i <= k ==> ns[i] in r
        invariant Distinct(ns)
        invariant forall i :: 0 <= i <= k ==> ns[i].data == other.elems[i]
        invariant ns[0].prev == null && cur.next == null
        invariant forall i, j {:trigger ns[i], ns[j]} :: 0 <= i && j == i + 1 && j <= k ==>
          ns[i].next == ns[j] && (j < k ==> ns[j].prev == ns[i])
        decreases |other.nodes| - k
      {
        NextOf(other.nodes, k);
        curOther := curOther.next;
        cur.next := new Node(curOther.data);
        cur.prev := preCur;
        preCur := cur;
        cur := cur.next;
        k := k + 1;
        ns, r := ns + [cur], r + {cur};
      }
      NextOf(other.nodes, k);
      cur.prev := preCur;
    }

    /** Move assignment: this takes other's chain, and other is left empty. */
    method MoveAssign(other: List<T>)
      requires Linked() && other.Valid() && Repr !! other.Repr
      modifies this, other
      ensures Valid() && other.Valid()
      ensures elems == old(other.elems) && other.elems == []
      ensures Repr == old(other.Repr) - {other} + {this} && other.Repr == {other}
    {
      ghost var ns, es, r := other.nodes, other.elems, other.Repr - {other} + {this};
      head, other.head := other.head, head;
      size, other.size := other.size, size;
      other.head := null;
      other.size := 0;
      Describe(ns, es, r);
      other.Describe([], [], {other});
    }

    // -------------------------------------------------------------------
    // queries

    /** operator[] (either overload) read: the element at pos, found by
        walking from head, or out_of_range when pos >= size(). */
    method At(pos: nat) returns (r: Result<T>)
      requires Valid()
      ensures r == if pos < |elems| then Ok(elems[pos]) else Err(OutOfRange)
    {
      if pos >= size {
        return Err(OutOfRange);
      }
      var res := head;
      for i := 0 to pos
        invariant res == nodes[i]
      {
        res := res.next;
      }
      return Ok(res.data);
    }

    /** Assignment through the reference operator[] returns: the element at
        pos is replaced and nothing else changes. */
    method SetAt(pos: nat, v: T) returns (r: Outcome)
      requires Valid()
      modifies Repr
      ensures Valid() && Repr == old(Repr) && nodes == old(nodes)
      ensures r == if pos < old(|elems|) then Pass else Fail(OutOfRange)
      ensures elems == if pos < old(|elems|) then old(elems)[pos := v] else old(elems)
    {
      if pos >= size {
        return Fail(OutOfRange);
      }
      var res := head;
      for i := 0 to pos
        invariant res == nodes[i]
      {
        res := res.next;
      }
      res.data := v;
      elems := elems[pos := v];
      return Pass;
    }

    /** size() */
    function Size(): (n: nat)
      reads this, Repr
      requires Valid()
      ensures n == |elems|
    {
      size
    }

    /** isEmpty(): there is no head. */
    function IsEmpty(): (b: bool)
      reads this, Repr
      requires Linked()
      ensures b <==> elems == []
    {
      head == null
    }

    /** begin(): an iterator at the head, index 0. */
    function Begin(): (it: ListIterator<T>)
      reads this, Repr
      requires Linked()
      ensures Points(it) && it.index == 0
    {
      ListIterator(head, 0)
    }

    /** end(): the sentinel with no node and index size(). */
    function End(): (it: ListIterator<T>)
      reads this, Repr
      requires Valid()
      ensures Points(it) && it.index == |elems| && it.ptr == null
    {
      ListIterator(null, size)
    }

    /** operator* and operator++ on an iterator at an existing position:
        it yields that element and steps to the next position. */
    lemma IteratorStep(it: ListIterator<T>)
      requires Linked() && Points(it) && it.index < |elems|
      ensures it.ptr != null && it.Deref() == elems[it.index]
      ensures Points(it.Next()) && it.Next().NodeIndex() == it.NodeIndex() + 1
    {
    }

    /** getNode(pos): an iterator at pos, or out_of_range when pos >= size(). */
    method GetNode(pos: nat) returns (r: Result<ListIterator<T>>)
      requires Valid()
      ensures r.Ok? <==> pos < |elems|
      ensures r.Ok? ==> Points(r.value) && r.value.NodeIndex() == pos
      ensures r.Err? ==> r.error == OutOfRange
    {
      if pos >= size {
        return Err(OutOfRange);
      }
      var it := Begin();
      for i := 0 to pos
        invariant Points(it) && it.index == i
      {
        it := it.Next();
      }
      return Ok(it);
    }

    /** find(needle) as written: the scan stops on the last node without
        comparing it. */
    method Find(needle: T) returns (found: bool)
      requires Linked()
      ensures found == FindAsWritten(elems, needle)
    {
      if head == null {
        return false;
      }
      var cur := head;
      ghost var k := 0;
      while cur.next != null
        invariant 0 <= k < |nodes| && cur == nodes[k]
        invariant needle !in elems[..k]
        decreases |nodes| - k
      {
        if cur.data == needle {
          assert elems[..|elems| - 1][k] == needle;
          return true;
        }
        NextOf(nodes, k);
        cur := cur.next;
        k := k + 1;
      }
      NextOf(nodes, k);
      assert elems[..|elems| - 1] == elems[..k];
      return false;
    }

    /** find with the scan running to the tail, as intended: true exactly
        when needle is an element. */
    method FindIntended(needle: T) returns (found: bool)
      requires Linked()
      ensures found <==> needle in elems
    {
      var cur := head;
      ghost var k := 0;
      while cur != null
        invariant 0 <= k <= |nodes| && cur == (if k < |nodes| then nodes[k] else null)
        invariant needle !in elems[..k]
        decreases |nodes| - k
      {
        if cur.data == needle {
          return true;
        }
        NextOf(nodes, k);
        cur := cur.next;
        k := k + 1;
      }
      assert elems[..k] == elems;
      return false;
    }

    // -------------------------------------------------------------------
    // insertion

    /** Records a new ghost description of the chain; the fields the
        source has are left alone. */
    ghost method Describe(ns: seq<Node<T>>, es: seq<T>, r: set<object>)
      modifies this
      ensures nodes == ns && elems == es && Repr == r
      ensures head == old(head) && size == old(size)
    {
      nodes, elems, Repr := ns, es, r;
    }

    /** The walk insert makes from the head: steps times to the next node,
        stopping early at the tail. */
    method WalkClamped(steps: nat) returns (cur: Node<T>, ghost k: nat)
      requires Linked() && nodes != []
      ensures k == Min(steps, |nodes| - 1) && cur == nodes[k]
    {
      cur := head;
      k := 0;
      var p := steps;
      while p != 0 && cur.next != null
        invariant 0 <= k < |nodes| && cur == nodes[k] && k + p == steps
        decreases p
      {
        NextOf(nodes, k);
        p := p - 1;
        cur := cur.next;
        k := k + 1;
      }
      NextOf(nodes, k);
    }

    /** insert(data, pos): a new node at index min(pos, size()). */
    method Insert(data: T, pos: nat)
      requires Valid()
      modifies Repr
      ensures Valid() && fresh(Repr - old(Repr)) && size == old(size) + 1
      ensures elems == Inserted(old(elems), data, pos)
    {
      size := size + 1;
      if head == null {
        var n := new Node(data);
        head := n;
        nodes, elems, Repr := [n], [data], Repr + {n};
      } else if pos == 0 {
        LinkFront(data);
      } else {
        LinkAfterWalk(data, pos);
      }
    }

    /** insert's branch for pos 0 on a non-empty list: the new node becomes
        the head and the old head its successor. */
    method LinkFront(data: T)
      requires Linked() && nodes != []
      modifies Repr
      ensures Linked() && fresh(Repr - old(Repr)) && size == old(size)
      ensures elems == [data] + old(elems)
    {
      var saved := head;
      var n := new Node(data);
      head := n;
      head.next := saved;
      saved.prev := head;
      ghost var ns, es := nodes, elems;
      InsertedEnds(es, data);
      InsertedWired(ns, n, 0);
      InsertedCarries(ns, es, Repr, n, data, 0);
      Describe(Inserted(ns, n, 0), Inserted(es, data, 0), Repr + {n});
    }

    /** insert's branch for pos > 0 on a non-empty list: the walk stops at
        index min(pos, size()) - 1 and the new node is linked in after it. */
    method LinkAfterWalk(data: T, pos: nat)
      requires Linked() && nodes != [] && 0 < pos
      modifies Repr
      ensures Linked() && fresh(Repr - old(Repr)) && size == old(size)
      ensures elems == Inserted(old(elems), data, pos)
    {
      var cur;
      ghost var k;
      cur, k := WalkClamped(pos - 1);
      NextOf(nodes, k);
      if cur.next == null {
        LinkAtTail(cur, k, data, pos);
      } else {
        LinkBetween(cur, k, data, pos);
      }
    }

    /** The splice when cur, at index min(pos, size()) - 1, is the tail. */
    method LinkAtTail(cur: Node<T>, ghost k: nat, data: T, ghost pos: nat)
      requires Linked() && k + 1 == |nodes| && cur == nodes[k] && k + 1 == Min(pos, |nodes|)
      modifies Repr
      ensures Linked() && fresh(Repr - old(Repr)) && size == old(size)
      ensures elems == Inserted(old(elems), data, pos)
    {
      NextOf(nodes, k);
      var saved := cur.next;
      var n := new Node(data);
      cur.next := n;
      n.next := saved;
      n.prev := cur;
      ghost var ns, es := nodes, elems;
      InsertedWired(ns, n, pos);
      InsertedCarries(ns, es, Repr, n, data, pos);
      Describe(Inserted(ns, n, pos), Inserted(es, data, pos), Repr + {n});
    }

    /** The splice when cur, at index min(pos, size()) - 1, has a successor:
        the new node goes between them. */
    method LinkBetween(cur: Node<T>, ghost k: nat, data: T, ghost pos: nat)
      requires Linked() && k + 1 < |nodes| && cur == nodes[k] && k + 1 == Min(pos, |nodes|)
      modifies Repr
      ensures Linked() && fresh(Repr - old(Repr)) && size == old(size)
      ensures elems == Inserted(old(elems), data, pos)
    {
      NextOf(nodes, k);
      PrevOf(nodes, k + 1);
      var saved := cur.next;
      var n := new Node(data);
      cur.next := n;
      n.next := saved;
      n.prev := cur;
      saved.prev := n;
      ghost var ns, es := nodes, elems;
      InsertedWired(ns, n, pos);
      InsertedCarries(ns, es, Repr, n, data, pos);
      Describe(Inserted(ns, n, pos), Inserted(es, data, pos), Repr + {n});
    }

    /** pushBack(data): insert at size(). */
    method PushBack(data: T)
      requires Valid()
      modifies Repr
      ensures Valid() && fresh(Repr - old(Repr))
      ensures elems == old(elems) + [data]
    {
      Insert(data, size);
    }

    /** pushFront(data): insert at 0. */
    method PushFront(data: T)
      requires Valid()
      modifies Repr
      ensures Valid() && fresh(Repr - old(Repr))
      ensures elems == [data] + old(elems)
    {
      Insert(data, 0);
    }

    /** insertAfter(data, it): insert at the iterator's index plus one. */
    method InsertAfter(data: T, it: ListIterator<T>)
      requires Valid()
      modifies Repr
      ensures Valid() && fresh(Repr - old(Repr))
      ensures elems == Inserted(old(elems), data, it.NodeIndex() + 1)
    {
      Insert(data, it.NodeIndex() + 1);
    }

    // -------------------------------------------------------------------
    // removal

    /** clear(): the chain is released and the list is empty. */
    method Clear()
      requires Linked()
      modifies this
      ensures Valid() && Repr == {this} && elems == []
    {
      head := null;
      size := 0;
      elems, nodes, Repr := [], [], {this};
    }

    /** remove(pos): the node at pos is unlinked, or out_of_range when
        pos >= size(). */
    method Remove(pos: nat) returns (r: Outcome)
      requires Valid()
      modifies Repr
      ensures Valid() && Repr <= old(Repr)
      ensures r == if pos < old(|elems|) then Pass else Fail(OutOfRange)
      ensures elems == if pos < old(|elems|) then Removed(old(elems), pos) else old(elems)
      ensures size == if pos < old(size) then old(size) - 1 else old(size)
    {
      if pos >= size {
        return Fail(OutOfRange);
      }
      size := size - 1;
      if pos == 0 {
        UnlinkHead();
      } else {
        var cur;
        ghost var k;
        cur, k := Walk(pos - 1);
        UnlinkNext(cur, k);
      }
      return Pass;
    }

    /** The walk remove makes from the head: steps times to the next node,
        which exists for every step. */
    method Walk(steps: nat) returns (cur: Node<T>, ghost k: nat)
      requires Linked() && steps < |nodes|
      ensures k == steps && cur == nodes[k]
    {
      cur := head;
      k := 0;
      var p := steps;
      while p != 0
        invariant k + p == steps && cur == nodes[k]
        decreases p
      {
        NextOf(nodes, k);
        cur := cur.next;
        p := p - 1;
        k := k + 1;
      }
    }

    /** remove's branch for pos 0: the head's successor becomes the head. */
    method UnlinkHead()
      requires Linked() && nodes != []
      modifies Repr
      ensures Linked() && Repr <= old(Repr) && size == old(size)
      ensures elems == Removed(old(elems), 0) && nodes == Removed(old(nodes), 0)
    {
      NextOf(nodes, 0);
      if 1 < |nodes| {
        PrevOf(nodes, 1);
      }
      var saved := head.next;
      var cur := head;
      head := saved;
      cur.next := null;
      if head != null {
        head.prev := null;
      }
      ghost var ns, es := nodes, elems;
      RemovedWired(ns, 0);
      RemovedCarries(ns, es, Repr, 0);
      Describe(Removed(ns, 0), Removed(es, 0), Repr - {cur});
    }

    /** remove's splice for pos > 0: the successor of cur, the node at
        index pos - 1, is unlinked. */
    method UnlinkNext(cur: Node<T>, ghost k: nat)
      requires Linked() && k + 1 < |nodes| && cur == nodes[k]
      modifies Repr
      ensures Linked() && Repr <= old(Repr) && size == old(size)
      ensures elems == Removed(old(elems), k + 1) && nodes == Removed(old(nodes), k + 1)
    {
      NextOf(nodes, k);
      NextOf(nodes, k + 1);
      if k + 2 < |nodes| {
        PrevOf(nodes, k + 2);
      }
      ghost var victim := cur.next;
      var saved := cur.next.next;
      cur.next.next := null;
      cur.next := saved;
      if cur.next != null {
        cur.next.prev := cur;
      }
      ghost var ns, es := nodes, elems;
      RemovedWired(ns, k + 1);
      RemovedCarries(ns, es, Repr, k + 1);
      Describe(Removed(ns, k + 1), Removed(es, k + 1), Repr - {victim});
    }

    /** popBack(): remove(size() - 1), where size() - 1 wraps on an empty
        list, so that remove throws. */
    method PopBack() returns (r: Outcome)
      requires Valid()
      modifies Repr
      ensures Valid() && Repr <= old(Repr)
      ensures r == if old(elems) != [] then Pass else Fail(OutOfRange)
      ensures elems == if old(elems) != [] then old(elems)[..|old(elems)| - 1] else old(elems)
    {
      if size > 0 {
        assert Removed(elems, size - 1) == elems[..size - 1];
      }
      r := Remove(SizeDecrement(size));
    }

    /** popFront(): remove(0). */
    method PopFront() returns (r: Outcome)
      requires Valid()
      modifies Repr
      ensures Valid() && Repr <= old(Repr)
      ensures r == if old(elems) != [] then Pass else Fail(OutOfRange)
      ensures elems == if old(elems) != [] then old(elems)[1..] else old(elems)
    {
      if size > 0 {
        assert Removed(elems, 0) == elems[1..];
      }
      r := Remove(0);
    }

    /** remove(it): remove at the iterator's index. */
    method RemoveIterator(it: ListIterator<T>) returns (r: Outcome)
      requires Valid()
      modifies Repr
      ensures Valid() && Repr <= old(Repr)
      ensures r == if it.NodeIndex() < old(|elems|) then Pass else Fail(OutOfRange)
      ensures elems == if it.NodeIndex() < old(|elems|) then Removed(old(elems), it.NodeIndex()) else old(elems)
    {
      r := Remove(it.NodeIndex());
    }

    /** removeAfter(it): remove at the iterator's index plus one. */
    method RemoveAfter(it: ListIterator<T>) returns (r: Outcome)
      requires Valid()
      modifies Repr
      ensures Valid() && Repr <= old(Repr)
      ensures r == if it.NodeIndex() + 1 < old(|elems|) then Pass else Fail(OutOfRange)
      ensures elems == if it.NodeIndex() + 1 < old(|elems|) then Removed(old(elems), it.NodeIndex() + 1) else old(elems)
    {
      r := Remove(it.NodeIndex() + 1);
    }

    // -------------------------------------------------------------------
    // forEach, map, filter

    /** forEach(fn): every element replaced by fn of it, in place. */
    method ForEach(fn: T -> T)
      requires Linked()
      modifies Repr
      ensures Linked() && Repr == old(Repr) && nodes == old(nodes) && size == old(size)
      ensures elems == Mapped(fn, old(elems))
    {
      if head == null {
        return;
      }
      var cur := head;
      ghost var k := 0;
      while cur != null
        invariant nodes == old(nodes) && elems == old(elems) && Repr == old(Repr)
        invariant head == old(head) && size == old(size) && Chain()
        invariant 0 <= k <= |nodes| && cur == (if k < |nodes| then nodes[k] else null)
        invariant forall i :: 0 <= i < |nodes| ==>
          nodes[i].data == if i < k then fn(elems[i]) else elems[i]
        decreases |nodes| - k
      {
        cur.data := fn(cur.data);
        cur := cur.next;
        k := k + 1;
      }
      forall i | 0 <= i < |elems| {
        MappedAt(fn, elems, i);
      }
      elems := Mapped(fn, elems);
    }

    /** map(fn): a copy of the list with forEach(fn) applied; the list
        itself is untouched. */
    method Map(fn: T -> T) returns (list: List<T>)
      requires Valid()
      ensures list.Valid() && fresh(list.Repr)
      ensures list.elems == Mapped(fn, elems)
    {
      list := new List.Copy(this);
      list.ForEach(fn);
    }

    /** filter(fn) as written: leading rejected nodes are dropped until one
        is accepted; after that a rejected node is unlinked and the walk
        steps onto its successor without testing it. The cached size is
        never updated. If no element is accepted the source dereferences a
        null head, so that case is excluded. */
    method Filter(fn: T -> bool)
      requires Linked()
      requires elems == [] || exists i :: 0 <= i < |elems| && fn(elems[i])
      modifies Repr
      ensures Linked() && Repr <= old(Repr)
      ensures size == old(size)
      ensures elems == FilteredAsWritten(fn, old(elems))
    {
      if head == null {
        return;
      }
      DropRejectedHeads(fn);
      ghost var e := elems;
      assert FilterMask(fn, e) == [true] + KeepRest(fn, e[1..]);
      assert e[..1] == [e[0]];
      KeepAfterHead(fn);
    }

    /** The first loop of filter as written: while the head fails fn it is
        unlinked. Some element is accepted, so the loop stops at a head
        that passes. */
    method DropRejectedHeads(fn: T -> bool)
      requires Linked() && exists i :: 0 <= i < |elems| && fn(elems[i])
      modifies Repr
      ensures Linked() && Repr <= old(Repr) && size == old(size)
      ensures elems != [] && fn(elems[0])
      ensures FilteredAsWritten(fn, elems) == FilteredAsWritten(fn, old(elems))
    {
      var cur := head;
      while !fn(head.data)
        invariant Linked() && Repr <= old(Repr) && size == old(size)
        invariant head != null && cur == head
        invariant exists i :: 0 <= i < |elems| && fn(elems[i])
        invariant FilteredAsWritten(fn, elems) == FilteredAsWritten(fn, old(elems))
        decreases |elems|
      {
        NextOf(nodes, 0);
        if head.next != null {
          ghost var w :| 0 <= w < |elems| && fn(elems[w]);
          ghost var e := elems;
          assert FilterMask(fn, e) == [false] + FilterMask(fn, e[1..]);
          UnlinkHead();
          assert elems == e[1..];
          assert fn(elems[w - 1]);
          cur := head;
        } else {
          assert false;
        }
      }
    }

    /** The second loop of filter as written: from the accepted head, a
        rejected successor is unlinked and the walk then steps onto the
        node that followed it, untested. */
    method KeepAfterHead(fn: T -> bool)
      requires Linked() && elems != []
      modifies Repr
      ensures Linked() && Repr <= old(Repr) && size == old(size)
      ensures elems == KeptFrom(fn, old(elems), 0)
    {
      var cur: Node?<T> := head;
      ghost var k: nat := 0;
      ghost var goal := KeptFrom(fn, elems, 0);
      while cur != null
        invariant Linked() && Repr <= old(Repr) && size == old(size)
        invariant cur != null ==> k < |nodes| && cur == nodes[k] && goal == KeptFrom(fn, elems, k)
        invariant cur == null ==> goal == elems
        decreases if cur == null then 0 else |nodes| - k
      {
        NextOf(nodes, k);
        if cur.next == null {
          KeptFromLast(fn, elems, k);
          break;
        }
        cur, k := KeepAfterStep(fn, cur, k);
      }
    }

    /** One turn of filter's second loop, past the node cur at index k: a
        rejected successor is unlinked; either way the walk steps onto
        cur's next node, which is then k + 1. */
    method KeepAfterStep(fn: T -> bool, cur: Node<T>, ghost k: nat) returns (next: Node?<T>, ghost k': nat)
      requires Linked() && k + 1 < |nodes| && cur == nodes[k]
      modifies Repr
      ensures Linked() && Repr <= old(Repr) && size == old(size)
      ensures k' == k + 1 && |nodes| <= old(|nodes|)
      ensures next != null ==> k' < |nodes| && next == nodes[k'] && old(KeptFrom(fn, elems, k)) == KeptFrom(fn, elems, k')
      ensures next == null ==> old(KeptFrom(fn, elems, k)) == elems
    {
      NextOf(nodes, k);
      ghost var e := elems;
      k' := k + 1;
      NextOf(nodes, k + 1);
      if fn(cur.next.data) {
        KeepRestAccepted(fn, e, k);
      } else if cur.next.next != null {
        KeepRestRejected(fn, e, k);
        UnlinkNext(cur, k);
        NextOf(nodes, k);
      } else {
        KeepRestRejectedLast(fn, e, k);
        UnlinkNext(cur, k);
        NextOf(nodes, k);
      }
      next := cur.next;
    }

    /** filter(fn) as evidently intended: every node whose element fails fn
        is unlinked, whatever precedes it, and the cached size follows. An
        all-rejecting fn leaves the list empty. */
    method FilterIntended(fn: T -> bool)
      requires Valid()
      modifies Repr
      ensures Valid() && Repr <= old(Repr)
      ensures elems == Filtered(fn, old(elems))
    {
      DropRejectedHeadsIntended(fn);
      if head != null {
        assert elems[..1] == [elems[0]];
        FilterAfterHead(fn);
      }
    }

    /** Rejected heads are unlinked, and the last one too. */
    method DropRejectedHeadsIntended(fn: T -> bool)
      requires Valid()
      modifies Repr
      ensures Valid() && Repr <= old(Repr)
      ensures elems != [] ==> fn(elems[0])
      ensures Filtered(fn, elems) == Filtered(fn, old(elems))
    {
      while head != null && !fn(head.data)
        invariant Valid() && Repr <= old(Repr)
        invariant Filtered(fn, elems) == Filtered(fn, old(elems))
        decreases |elems|
      {
        ghost var e := elems;
        size := size - 1;
        UnlinkHead();
        assert elems == e[1..];
      }
    }

    /** After an accepted head, each successor is tested, and a rejected one
        unlinked before the walk goes on. */
    method FilterAfterHead(fn: T -> bool)
      requires Valid() && elems != []
      modifies Repr
      ensures Valid() && Repr <= old(Repr)
      ensures elems == FilteredFrom(fn, old(elems), 0)
    {
      var cur := head;
      ghost var k: nat := 0;
      ghost var goal := FilteredFrom(fn, elems, 0);
      while cur.next != null
        invariant Valid() && Repr <= old(Repr)
        invariant k < |nodes| && cur == nodes[k] && goal == FilteredFrom(fn, elems, k)
        decreases |nodes| - k
      {
        NextOf(nodes, k);
        cur, k := FilterStep(fn, cur, k);
      }
      NextOf(nodes, k);
      FilteredFromLast(fn, elems, k);
    }

    /** One turn of the corrected loop, past the node cur at index k: a
        rejected successor is unlinked and the walk stays; an accepted one
        becomes the new cur. */
    method FilterStep(fn: T -> bool, cur: Node<T>, ghost k: nat) returns (next: Node<T>, ghost k': nat)
      requires Valid() && k + 1 < |nodes| && cur == nodes[k]
      modifies Repr
      ensures Valid() && Repr <= old(Repr)
      ensures k' < |nodes| && next == nodes[k'] && |nodes| - k' < old(|nodes|) - k
      ensures old(FilteredFrom(fn, elems, k)) == FilteredFrom(fn, elems, k')
    {
      NextOf(nodes, k);
      ghost var e := elems;
      if !fn(cur.next.data) {
        FilteredRejected(fn, e, k);
        size := size - 1;
        UnlinkNext(cur, k);
        next, k' := cur, k;
      } else {
        FilteredAccepted(fn, e, k);
        next, k' := cur.next, k + 1;
      }
    }

    // -------------------------------------------------------------------
    // reversal

    /** reverse(): every node's next and prev are swapped while walking, and
        the former tail becomes head. */
    method Reverse()
      requires Linked()
      modifies Repr
      ensures Linked() && Repr == old(Repr) && size == old(size)
      ensures elems == Reversed(old(elems))
    {
      if head == null {
        return;
      }
      ghost var ns, n := nodes, |nodes|;
      var cur := head;
      ghost var k := 0;
      while cur != null
        invariant nodes == ns && elems == old(elems) && Repr == old(Repr) && size == old(size)
        invariant Owned() && forall i :: 0 <= i < n ==> ns[i].data == elems[i]
        invariant 0 <= k <= n && cur == (if k < n then ns[k] else null)
        invariant head == ns[if k == 0 then 0 else k - 1]
        invariant WiredSwapped(ns, 0, k)
        decreases n - k
      {
        if k + 1 < n {
          assert ns[k].next == ns[k + 1];
        }
        SwapLinks(cur, ns, 0, k);
        head := cur;
        cur := cur.prev;
        k := k + 1;
      }
      ReversedRangeWhole(elems, n - 1);
      AdoptReversedRange(0, n - 1);
    }

    /** reverse(start, end): the closed range [start, end] is reversed in
        place and spliced back between its predecessor and successor; an
        end past the tail means the tail, and start >= size() throws. When
        start > end the source computes end - start with size_t wrap-around
        and links a node back to one before it, so that case is excluded. */
    method ReverseRange(start: nat, end: nat) returns (r: Outcome)
      requires Valid()
      requires start < |elems| ==> start <= end
      modifies Repr
      ensures Valid() && Repr == old(Repr)
      ensures r == if start < old(|elems|) then Pass else Fail(OutOfRange)
      ensures elems == if start < old(|elems|) then ReversedRange(old(elems), start, end) else old(elems)
    {
      if start >= size {
        return Fail(OutOfRange);
      }
      var last := NodeAfter(end);
      var count := end - start;
      var startNode, cur := SeekStart(start);
      var firstNode := cur;
      assert Owned();
      ghost var m;
      cur, m := SwapRun(cur, nodes, elems, Repr - {this}, start, count);
      CloseRange(startNode, cur, firstNode, last, start, end);
      return Pass;
    }

    /** The first loop of reverse(start, end): last is the node after index
        end, or null when end is at or past the tail. */
    method NodeAfter(end: nat) returns (last: Node?<T>)
      requires Linked()
      ensures last == if end + 1 < |nodes| then nodes[end + 1] else null
    {
      last := head;
      var i := 0;
      while i <= end && last != null
        invariant 0 <= i <= |nodes| && i <= end + 1
        invariant last == (if i < |nodes| then nodes[i] else null)
        decreases |nodes| - i
      {
        NextOf(nodes, i);
        last := last.next;
        i := i + 1;
      }
    }

    /** The second loop of reverse(start, end): cur is the node at start
        and startNode the one before it, or null when start is 0. */
    method SeekStart(start: nat) returns (startNode: Node?<T>, cur: Node<T>)
      requires Linked() && start < |nodes|
      ensures cur == nodes[start]
      ensures startNode == if start == 0 then null else nodes[start - 1]
    {
      cur := head;
      startNode := null;
      var s := start;
      ghost var j: nat := 0;
      while s != 0 && cur.next != null
        invariant j + s == start && cur == nodes[j]
        invariant startNode == (if j == 0 then null else nodes[j - 1])
        decreases s
      {
        NextOf(nodes, j);
        s := s - 1;
        startNode := cur;
        cur := cur.next;
        j := j + 1;
      }
      NextOf(nodes, j);
    }

    /** The third loop of reverse(start, end) and the swap after it: from
        the node at start, the next and prev of each node are swapped while
        it has a successor and count allows, and then those of the node the
        loop stopped on. cur ends on that node, the last of the range; only
        node links change. */
    static method SwapRun(cur0: Node<T>, ghost ns: seq<Node<T>>, ghost es: seq<T>, ghost fp: set<object>, ghost start: nat, count0: nat)
      returns (cur: Node<T>, ghost m: nat)
      requires Wired(ns) && Distinct(ns) && start < |ns| && cur0 == ns[start] && |es| == |ns|
      requires forall i :: 0 <= i < |ns| ==> ns[i] in fp && ns[i].data == es[i]
      modifies fp
      ensures m == Min(start + count0, |ns| - 1) && cur == ns[m]
      ensures WiredSwapped(ns, start, m + 1)
      ensures forall i :: 0 <= i < |ns| ==> ns[i].data == es[i]
    {
      cur, m := cur0, start;
      var count := count0;
      while cur.next != null && count != 0
        invariant start <= m < |ns| && cur == ns[m] && m - start + count == count0
        invariant WiredSwapped(ns, start, m)
        invariant forall i :: 0 <= i < |ns| ==> ns[i].data == es[i]
        decreases count
      {
        assert cur.next == ns[m + 1] by {
          assert ns[m].next == ns[m + 1];
        }
        count := count - 1;
        SwapLinks(cur, ns, start, m);
        cur := cur.prev;
        m := m + 1;
      }
      if m + 1 < |ns| {
        assert ns[m].next == ns[m + 1];
      }
      SwapLinks(cur, ns, start, m);
    }

    /** The close of reverse(start, end): the last node of the swapped range
        becomes the successor of startNode (or the head), and the first node
        of the range is linked to last. */
    method CloseRange(startNode: Node?<T>, cur: Node<T>, firstNode: Node<T>, last: Node?<T>, ghost start: nat, ghost end: nat)
      requires Owned() && start < |nodes| && start <= end && size == |elems| && head == nodes[0]
      requires forall i :: 0 <= i < |nodes| ==> nodes[i].data == elems[i]
      requires WiredSwapped(nodes, start, Min(end, |nodes| - 1) + 1)
      requires cur == nodes[Min(end, |nodes| - 1)] && firstNode == nodes[start]
      requires startNode == if start == 0 then null else nodes[start - 1]
      requires last == if end + 1 < |nodes| then nodes[end + 1] else null
      modifies Repr
      ensures Valid() && Repr == old(Repr)
      ensures elems == ReversedRange(old(elems), start, end)
    {
      ghost var ns, e := nodes, Min(end, |nodes| - 1);
      if startNode == null {
        head := cur;
      }
      HookFront(startNode, cur, ns, start, e);
      HookBack(firstNode, last, ns, start, e);
      AdoptReversedRange(start, end);
    }

    /** The ghost side of reverse(start, end): once the links are those of
        the reversed range, nodes and elems are reordered to match. */
    ghost method AdoptReversedRange(start: nat, end: nat)
      requires Owned() && start < |nodes| && start <= end
      requires forall i :: 0 <= i < |nodes| ==> nodes[i].data == elems[i]
      requires head == nodes[if start == 0 then Min(end, |nodes| - 1) else 0]
      requires RangeLinks(nodes, start, Min(end, |nodes| - 1))
      requires FrontLinked(nodes, start, Min(end, |nodes| - 1))
      requires BackLinked(nodes, start, Min(end, |nodes| - 1))
      modifies this
      ensures Linked() && Repr == old(Repr) && size == old(size) && |elems| == old(|elems|)
      ensures elems == ReversedRange(old(elems), start, end)
    {
      ghost var ns := nodes;
      RangeReversedWired(ns, start, end);
      ReversedRangeCarries(ns, elems, Repr, start, end);
      Describe(ReversedRange(ns, start, end), ReversedRange(elems, start, end), Repr);
    }

    /** getReverseList(): a reversed copy; the list itself is untouched. */
    method GetReverseList() returns (list: List<T>)
      requires Valid()
      ensures list.Valid() && fresh(list.Repr)
      ensures list.elems == Reversed(elems)
    {
      list := new List.Copy(this);
      list.Reverse();
    }

    /** getReverseList(start, end): a copy with reverse(start, end) applied;
        the list itself is untouched. The copy is made before the bounds
        check, so out_of_range is raised from the copy. */
    method GetReverseListRange(start: nat, end: nat) returns (r: Result<List<T>>)
      requires Valid()
      requires start < |elems| ==> start <= end
      ensures r.Ok? <==> start < |elems|
      ensures r.Ok? ==> (r.value.Valid() && fresh(r.value.Repr) &&
        r.value.elems == ReversedRange(elems, start, end))
      ensures r.Err? ==> r.error == OutOfRange
    {
      var list := new List.Copy(this);
      var outcome := list.ReverseRange(start, end);
      if outcome.Fail? {
        return Err(outcome.error);
      }
      return Ok(list);
    }
  
    // -------------------------------------------------------------------
    // uses that combine operations

    /** getReverseList applied twice gives a list with this list's elements
        back, and this list is left as it was. */
    method ReverseListTwice() returns (list: List<T>)
      requires Valid()
      ensures Valid() && list.Valid() && fresh(list.Repr)
      ensures list.elems == elems
    {
      var once := GetReverseList();
      list := once.GetReverseList();
      ReversedReversed(elems);
    }

    /** A copy is independent of its source: pushing onto the copy changes
        only the copy. */
    method CopyThenPush(v: T) returns (copy: List<T>)
      requires Valid()
      ensures Valid() && copy.Valid() && fresh(copy.Repr)
      ensures copy.elems == elems + [v]
    {
      copy := new List.Copy(this);
      copy.PushBack(v);
    }

    /** filter applied twice on the same list: the second call runs on the
        list the first one left, cached size and all, and the elements are
        filter-as-written of filter-as-written. */
    method FilterTwice(fn: T -> bool)
      requires Linked()
      requires elems == [] || exists i :: 0 <= i < |elems| && fn(elems[i])
      modifies Repr
      ensures Linked() && Repr <= old(Repr) && size == old(size)
      ensures elems == FilteredAsWritten(fn, FilteredAsWritten(fn, old(elems)))
    {
      Filter(fn);
      if elems != [] {
        FilterFirstAccepted(fn, old(elems));
        assert fn(elems[0]);
      }
      Filter(fn);
    }
  }

  /** Keeping the even values of the heap list [2, 1, 3] twice: the first
      filter leaves [2, 3], the second [2], and the cached size stays 3
      throughout. */
  method FilterEvensTwice() returns (list: List<int>)
    ensures list.Linked() && list.elems == [2] && list.size == 3
  {
    list := new List();
    list.PushBack(2);
    list.PushBack(1);
    list.PushBack(3);
    assert list.elems == [2, 1, 3];
    FilterKeepsUntestedOdd();
    FilterNotIdempotent();
    assert IsEven(list.elems[0]);
    list.Filter(IsEven);
    assert list.elems == [2, 3];
    assert IsEven(list.elems[0]);
    list.Filter(IsEven);
  }
}
