/**
 * LinkedCollection: a circular singly linked list with one dummy node, and
 * its fail-fast iterator.
 *
 * The abstract state is the sequence `elems`. The ring of nodes is `nodes`:
 * `nodes[0]` is the dummy, which holds no element and always sits right after
 * `tail`; `nodes[i]` holds `elems[i - 1]`; and the last node is `tail`. In an
 * empty collection the dummy is the tail and links to itself. Every mutation
 * bumps `version`, which is how an iterator notices that it is stale.
 */
module LinkedCollections {
  import opened Links
  import opened Failures

  /** The contents of a slot: the dummy node holds None (the source's null). */
  datatype Option<T> = None | Some(value: T)

  /** `ns[0]` is the dummy and the other nodes hold `es`, in order. */
  ghost predicate Stores<E>(ns: seq<Node<Option<E>>>, es: seq<E>) {
    |ns| == |es| + 1 && ns[0].data == None &&
    forall i :: 1 <= i < |ns| ==> ns[i].data == Some(es[i - 1])
  }

  /** A node holding `e` added at the end stores `e` at the end. */
  lemma StoresAppend<E>(ns: seq<Node<Option<E>>>, es: seq<E>, x: Node<Option<E>>, e: E)
    requires Stores(ns, es) && x.data == Some(e)
    ensures Stores(ns + [x], es + [e])
  {
    var t, u := ns + [x], es + [e];
    forall i | 1 <= i < |t|
      ensures t[i].data == Some(u[i - 1])
    {
      if i < |ns| {
        assert t[i] == ns[i] && u[i - 1] == es[i - 1];
      }
    }
  }

  /** Dropping the node at `c` drops the element it held. */
  lemma StoresRemove<E>(ns: seq<Node<Option<E>>>, es: seq<E>, c: nat)
    requires Stores(ns, es) && 0 < c < |ns|
    ensures Stores(ns[..c] + ns[c + 1..], es[..c - 1] + es[c..])
  {
    var t, u := ns[..c] + ns[c + 1..], es[..c - 1] + es[c..];
    forall i | 1 <= i < |t|
      ensures t[i].data == Some(u[i - 1])
    {
      if i < c {
        assert t[i] == ns[i] && u[i - 1] == es[i - 1];
      } else {
        assert t[i] == ns[i + 1] && u[i - 1] == es[i];
      }
    }
    assert t[0] == ns[0];
  }

  class LinkedCollection<E> {
    var count: int
    var tail: Node?<Option<E>>
    var version: int

    /** The elements, in insertion order. */
    ghost var elems: seq<E>
    /** The ring, starting at the dummy and ending at `tail`. */
    ghost var nodes: seq<Node<Option<E>>>
    /**
     * The objects this collection owns. It only grows: nodes that remove and
     * clear unlink stay in it although nothing reaches them, which keeps every
     * mutator's frame `Repr == old(Repr)` or a simple union.
     */
    ghost var Repr: set<object>

    /** The invariant: `nodes` is a ring of distinct nodes that starts at the dummy and stores `elems`. */
    ghost predicate Valid()
      reads this, Repr
      ensures Valid() ==> this in Repr
    {
      this in Repr &&
      (forall i :: 0 <= i < |nodes| ==> nodes[i] in Repr) &&
      Stores(nodes, elems) && Distinct(nodes) && Linked(nodes, nodes[0]) &&
      tail == nodes[|nodes| - 1] && count == |elems|
    }

    ghost function NodeSet(): set<Node<Option<E>>>
      reads this
    {
      set i | 0 <= i < |nodes| :: nodes[i]
    }

    /**
     * The conditions the source's checker tests, on the real fields and links
     * alone: tail is not null; the walk from tail meets no null and comes back
     * to tail, first after count + 1 steps; and the node after tail is the
     * dummy, with no element.
     */
    ghost predicate RingShape()
      reads *
    {
      tail != null && 0 <= count && CyclesAt(tail, count + 1) &&
      tail.next != null && tail.next.data == None
    }

    /** An empty collection: the dummy alone, linked to itself. */
    constructor ()
      ensures Valid() && fresh(Repr)
      ensures elems == [] && count == 0 && version == 0
      ensures tail.next == tail && tail.data == None
    {
      count := 0;
      version := 0;
      tail := new Node(None, null);
      new;
      tail.next := tail;
      nodes := [tail];
      elems := [];
      Repr := {this, tail};
    }

    /**
     * The checker `wellFormed` with its tortoise and hare made null-safe: true
     * exactly when the fields and links have the required shape.
     */
    method WellFormed(ghost S: set<Node<Option<E>>>) returns (ok: bool)
      requires Closed(S) && (tail == null || tail in S)
      ensures ok <==> RingShape()
    {
      if tail == null {
        return false;
      }
      if tail.next == null {
        return false;
      }
      var ring;
      ghost var bound;
      ring, bound := ComesBack(S);
      if !ring {
        return false;
      }
      ok := DummyAndCount(bound);
    }

    /**
     * The checker `wellFormed` as the source writes it: the hare's double step
     * dereferences a null link when the chain from tail ends in null after an
     * even number of nodes, and the checker then throws NullPointerException
     * instead of reporting the broken list. On every other state it answers
     * like WellFormed.
     */
    method WellFormedAsWritten(ghost S: set<Node<Option<E>>>) returns (r: Result<bool>)
      requires Closed(S) && (tail == null || tail in S)
      ensures r.Ok? || r == Err(NullPointer)
      ensures r == Err(NullPointer) <==> tail != null && EvenChain(tail)
      ensures r.Ok? ==> (r.value <==> RingShape())
    {
      if tail == null {
        return Ok(false);
      }
      if tail.next == null {
        forall m: nat | EndsAt(tail, m)
          ensures m == 1
        {
          EndsAtUnique(tail, m, 1);
        }
        return Ok(false);
      }
      var ring;
      ghost var bound;
      ring, bound := ComesBackAsWritten(S);
      if ring.Err? {
        return ring;
      }
      if !ring.value {
        return Ok(false);
      }
      var ok := DummyAndCount(bound);
      r := Ok(ok);
    }

    /**
     * The tortoise and hare of `wellFormed`, with a null check before the
     * hare's double step: true exactly when the walk from tail comes back to
     * tail (within `bound` steps).
     */
    method ComesBack(ghost S: set<Node<Option<E>>>) returns (ok: bool, ghost bound: nat)
      requires Closed(S) && tail != null && tail in S && tail.next != null
      ensures ok ==> 0 < bound && Walk(tail, bound) == tail
      ensures !ok ==> forall k: nat :: 0 < k ==> Walk(tail, k) != tail
    {
      FloydTerminates(S, tail);
      ghost var stop: nat :| FloydStop(tail, stop);
      var turtle := tail;
      var rabbit := tail.next;
      ghost var t: nat := 0;
      bound := 0;
      while turtle.next != tail
        invariant t <= stop
        invariant turtle == Walk(tail, t) && rabbit == Walk(tail, 2 * t + 1) && turtle != null
        invariant forall k :: 0 < k <= t ==> Walk(tail, k) != tail
        decreases stop - t
      {
        WalkNext(tail, t);
        if turtle == null || rabbit == null {
          NullMeansNoReturn(tail, 2 * t + 1);
          return false, 0;
        }
        if turtle == rabbit {
          MeetingMeansNoReturn(tail, t);
          return false, 0;
        }
        if rabbit == tail {
          bound := 2 * t + 1;
          break;
        }
        WalkNext(tail, 2 * t + 1);
        if rabbit.next == null {
          NullMeansNoReturn(tail, 2 * t + 2);
          return false, 0;
        }
        WalkNext(tail, 2 * t + 2);
        WalkNonNullBefore(tail, t + 1, 2 * t + 2);
        turtle := turtle.next;
        rabbit := rabbit.next.next;
        t := t + 1;
      }
      if turtle.next == tail {
        WalkNext(tail, t);
        bound := t + 1;
      }
      ok := true;
    }

    /**
     * The tortoise and hare of `wellFormed` exactly as written: when the hare
     * stands on the last node of a null-terminated chain, its double step
     * throws NullPointerException.
     */
    method ComesBackAsWritten(ghost S: set<Node<Option<E>>>) returns (r: Result<bool>, ghost bound: nat)
      requires Closed(S) && tail != null && tail in S && tail.next != null
      ensures r.Ok? || r == Err(NullPointer)
      ensures r == Err(NullPointer) <==> EvenChain(tail)
      ensures r == Ok(true) ==> 0 < bound && Walk(tail, bound) == tail
      ensures r == Ok(false) ==> forall k: nat :: 0 < k ==> Walk(tail, k) != tail
    {
      FloydTerminates(S, tail);
      ghost var stop: nat :| FloydStop(tail, stop);
      var turtle := tail;
      var rabbit := tail.next;
      ghost var t: nat := 0;
      bound := 0;
      while turtle.next != tail
        invariant t <= stop
        invariant turtle == Walk(tail, t) && rabbit == Walk(tail, 2 * t + 1) && turtle != null
        invariant Walk(tail, 2 * t) != null
        invariant forall k :: 0 < k <= t ==> Walk(tail, k) != tail
        decreases stop - t
      {
        WalkNext(tail, t);
        if turtle == null || rabbit == null {
          NullMeansNoReturn(tail, 2 * t + 1);
          forall k | 0 <= k < 2 * t + 1
            ensures Walk(tail, k) != null
          {
            WalkNonNullBefore(tail, k, 2 * t);
          }
          forall m: nat | EndsAt(tail, m)
            ensures m == 2 * t + 1
          {
            EndsAtUnique(tail, m, 2 * t + 1);
          }
          return Ok(false), 0;
        }
        if turtle == rabbit {
          MeetingMeansNoReturn(tail, t);
          WalkNeverNull(tail, t, 2 * t + 1);
          return Ok(false), 0;
        }
        if rabbit == tail {
          WalkNeverNull(tail, 0, 2 * t + 1);
          bound := 2 * t + 1;
          break;
        }
        WalkNext(tail, 2 * t + 1);
        if rabbit.next == null {
          forall k | 0 <= k < 2 * t + 2
            ensures Walk(tail, k) != null
          {
            WalkNonNullBefore(tail, k, 2 * t + 1);
          }
          assert EndsAt(tail, 2 * t + 2);
          return Err(NullPointer), 0;
        }
        WalkNext(tail, 2 * t + 2);
        WalkNonNullBefore(tail, t + 1, 2 * t + 2);
        turtle := turtle.next;
        rabbit := rabbit.next.next;
        t := t + 1;
      }
      if turtle.next == tail {
        WalkNext(tail, t);
        WalkNeverNull(tail, 0, t + 1);
        bound := t + 1;
      }
      r := Ok(true);
    }

    /**
     * The last two checks of `wellFormed`, on a walk from tail that comes back
     * to tail: the node after tail is the dummy, and the ring has count + 1 nodes.
     */
    method DummyAndCount(ghost bound: nat) returns (ok: bool)
      requires tail != null && 0 < bound && Walk(tail, bound) == tail
      ensures ok <==> RingShape()
    {
      assert Walk(tail, 1) == tail.next;
      WalkNeverNull(tail, 0, bound);
      assert Walk(tail, 1) != null;
      if tail.next.data != None {
        return false;
      }
      var nodeCount := CountRing(bound);
      if 0 <= count && CyclesAt(tail, count + 1) {
        CyclesAtUnique(tail, count + 1, nodeCount);
      }
      ok := nodeCount == count + 1;
    }

    /** The node count of `wellFormed`: the length of the ring through tail. */
    method CountRing(ghost bound: nat) returns (nodeCount: int)
      requires tail != null && 0 < bound && Walk(tail, bound) == tail
      ensures 0 <= nodeCount && CyclesAt(tail, nodeCount)
    {
      nodeCount := 0;
      var j: Node?<Option<E>> := null;
      var i := tail;
      ghost var n: nat := 0;
      while i != j
        invariant n <= bound && i == Walk(tail, n) && nodeCount == n
        invariant j == (if n == 0 then null else tail)
        invariant forall k :: 0 < k < n ==> Walk(tail, k) != tail
        decreases bound - n
      {
        WalkNonNullBefore(tail, n, bound);
        WalkNext(tail, n);
        nodeCount := nodeCount + 1;
        j := tail;
        i := i.next;
        n := n + 1;
      }
    }

    /** Walking from tail goes round the ring: first the dummy, then the element nodes. */
    lemma {:induction false} WalkAroundRing(k: nat)
      requires Valid() && k <= |nodes|
      ensures Walk(tail, k) == if k == 0 then tail else nodes[k - 1]
    {
      if k > 0 {
        WalkAroundRing(k - 1);
        WalkNext(tail, k - 1);
        if k == 1 {
          assert tail.next == Successor(nodes, |nodes| - 1, nodes[0]);
        } else {
          assert nodes[k - 2].next == Successor(nodes, k - 2, nodes[0]);
        }
      }
    }

    /** Every valid state passes the checker: the node set is closed and the ring has the required shape. */
    lemma ValidIsRingShape()
      requires Valid()
      ensures Closed(NodeSet()) && tail in NodeSet()
      ensures RingShape()
    {
      forall m | m in NodeSet()
        ensures m.next == null || m.next in NodeSet()
      {
        var i :| 0 <= i < |nodes| && nodes[i] == m;
        assert m.next == Successor(nodes, i, nodes[0]);
      }
      forall k | 0 <= k <= |nodes|
        ensures Walk(tail, k) == if k == 0 then tail else nodes[k - 1]
      {
        WalkAroundRing(k);
      }
      forall k | 0 < k < |nodes|
        ensures Walk(tail, k) != tail
      {
        assert Apart(nodes, k - 1, |nodes| - 1);
      }
      assert tail.next == Successor(nodes, |nodes| - 1, nodes[0]);
    }

    /** The number of elements. */
    method Size() returns (n: int)
      requires Valid()
      ensures n == |elems|
    {
      n := count;
    }

    /** Add `element` at the end; always true. */
    method Add(element: E) returns (b: bool)
      requires Valid()
      modifies Repr
      ensures Valid() && fresh(Repr - old(Repr))
      ensures b && elems == old(elems) + [element]
      ensures count == old(count) + 1 && version == old(version) + 1
      ensures nodes[0] == old(nodes[0]) && tail.next == nodes[0]
    {
      ghost var ns, es := nodes, elems;
      var newNode := LinkAtEnd(element);
      nodes, elems := ns + [newNode], es + [element];
      Repr := Repr + {newNode};
      Appended(newNode);
      assert tail.next == Successor(nodes, |nodes| - 1, nodes[0]);
      b := true;
    }

    /** The pointer updates of Add: a new node between tail and the dummy becomes the tail. */
    method LinkAtEnd(element: E) returns (newNode: Node<Option<E>>)
      requires tail != null
      modifies this, tail
      ensures fresh(newNode) && newNode.data == Some(element) && newNode.next == old(tail.next)
      ensures old(tail).next == newNode && tail == newNode
      ensures count == old(count) + 1 && version == old(version) + 1
      ensures nodes == old(nodes) && elems == old(elems) && Repr == old(Repr)
    {
      var temp := tail.next;
      newNode := new Node(Some(element), null);
      tail.next := newNode;
      newNode.next := temp;
      tail := newNode;
      count := count + 1;
      version := version + 1;
    }

    /** The state Add leaves is valid. */
    twostate lemma Appended(new node: Node<Option<E>>)
      requires old(Valid()) && !old(allocated(node))
      requires unchanged(old(Repr) - {this, old(tail)})
      requires old(tail).next == node && node.next == old(tail.next)
      requires nodes == old(nodes) + [node] && node.data.Some? && elems == old(elems) + [node.data.value]
      requires tail == node && count == old(count) + 1 && Repr == old(Repr) + {node}
      ensures Valid()
    {
      ghost var ns, c := old(nodes), |old(nodes)| - 1;
      forall i | 0 <= i < c
        ensures ns[i].next == old(ns[i].next)
      {
        assert ns[i] in old(Repr) && Apart(ns, i, c);
      }
      assert old(tail.next) == Successor(ns, c, ns[0]);
      LinkedInsert(ns, c, node, ns[0]);
      assert ns[..c + 1] + [node] + ns[c + 1..] == nodes;
      DistinctInsert(ns, c + 1, node);
      StoresAppend(ns, old(elems), node, node.data.value);
    }

    /**
     * Remove every element: the dummy becomes the tail, linked to itself.
     * An empty collection is left exactly as it is, version included.
     */
    method Clear()
      requires Valid()
      modifies Repr
      ensures Valid() && Repr == old(Repr)
      ensures elems == [] && nodes == [old(nodes[0])] && tail == old(nodes[0])
      ensures old(count) == 0 ==> unchanged(old(Repr))
      ensures old(count) != 0 ==> version == old(version) + 1
    {
      if count == 0 {
        return;
      }
      ghost var dummy := nodes[0];
      var temp := tail.next;
      assert temp == Successor(nodes, |nodes| - 1, dummy);
      temp.next := temp;
      tail := temp;
      count := 0;
      version := version + 1;
      nodes, elems := [dummy], [];
      assert Linked(nodes, dummy) by {
        assert Successor(nodes, 0, dummy) == dummy;
      }
    }

    /**
     * The state the iterator's remove leaves is valid: the node at `c` is
     * bypassed and its element dropped; when it was the tail, the node before
     * it is the new tail.
     */
    twostate lemma Bypassed(c: nat)
      requires old(Valid()) && 0 < c < |old(nodes)|
      requires unchanged(old(Repr) - {this, old(nodes[c - 1])})
      requires old(nodes)[c - 1].next == old(nodes[c].next)
      requires nodes == old(nodes[..c] + nodes[c + 1..]) && elems == old(elems[..c - 1] + elems[c..])
      requires count == old(count) - 1 && Repr == old(Repr)
      requires tail == (if c == |old(nodes)| - 1 then old(nodes[c - 1]) else old(tail))
      ensures Valid()
    {
      ghost var ns := old(nodes);
      forall i | 0 <= i < |ns| && i != c - 1
        ensures ns[i].next == old(ns[i].next)
      {
        assert ns[i] in old(Repr) && Apart(ns, i, c - 1);
      }
      assert old(ns[c].next) == Successor(ns, c, ns[0]);
      LinkedBypass(ns, c, ns[0]);
      assert nodes[0] == ns[0];
      DistinctRemove(ns, c);
      StoresRemove(ns, old(elems), c);
      assert c == |ns| - 1 ==> nodes[|nodes| - 1] == ns[c - 1];
      assert c < |ns| - 1 ==> nodes[|nodes| - 1] == ns[|ns| - 1];
    }

    /** A fresh iterator over this collection, before its first element. */
    method Iterator() returns (it: MyIterator<E>)
      requires Valid()
      ensures fresh(it) && it.coll == this && it.Valid() && !it.Stale()
      ensures it.pos == 0 && !it.removable
    {
      it := new MyIterator(this);
    }
  }

  /**
   * The fail-fast iterator. `pos` is the position of the cursor in the ring:
   * the elements before it, elems[..pos], have been returned. `removable`
   * says whether the last element returned may still be removed; the
   * precursor is then the node before the cursor, and otherwise the cursor
   * itself.
   */
  class MyIterator<E> {
    const coll: LinkedCollection<E>
    var precursor: Node?<Option<E>>
    var cursor: Node?<Option<E>>
    var myVersion: int

    ghost var pos: nat
    ghost var removable: bool

    /**
     * The invariant: the collection is valid and the iterator never runs
     * ahead of its version; while the versions agree, cursor and precursor
     * sit at `pos`.
     */
    ghost predicate Valid()
      reads this, coll, coll.Repr
    {
      coll.Valid() && this !in coll.Repr && myVersion <= coll.version &&
      (myVersion == coll.version ==>
         pos < |coll.nodes| && cursor == coll.nodes[pos] && (removable ==> 0 < pos) &&
         precursor == (if removable then coll.nodes[pos - 1] else cursor))
    }

    /** The collection has changed since this iterator last did. */
    ghost predicate Stale()
      reads this, coll
    {
      myVersion != coll.version
    }

    /**
     * The conditions the source's iterator checker tests, on the real fields
     * and links alone: the collection has its shape and, while the versions
     * agree, precursor is a node of the ring, cursor is precursor or the node
     * after it, and cursor is the dummy only when it is precursor.
     */
    ghost predicate Shape()
      reads *
    {
      coll.RingShape() &&
      (myVersion == coll.version ==>
         precursor != null && Reaches(coll.tail, coll.count + 1, precursor) &&
         (cursor == precursor || cursor == precursor.next) &&
         (cursor == coll.tail.next ==> cursor == precursor))
    }

    /** An iterator before the first element: cursor and precursor at the dummy. */
    constructor (c: LinkedCollection<E>)
      requires c.Valid()
      ensures Valid() && coll == c && !Stale() && pos == 0 && !removable
    {
      coll := c;
      myVersion := c.version;
      precursor := c.tail.next;
      cursor := c.tail.next;
      pos := 0;
      removable := false;
      new;
      assert c.tail.next == Successor(c.nodes, |c.nodes| - 1, c.nodes[0]);
    }

    /** The source's iterator checker `wellFormed`: true exactly when the fields and links have the required shape. */
    method WellFormed(ghost S: set<Node<Option<E>>>) returns (ok: bool)
      requires Closed(S) && (coll.tail == null || coll.tail in S)
      ensures ok <==> Shape()
    {
      var collOk := coll.WellFormed(S);
      if !collOk {
        return false;
      }
      if myVersion != coll.version {
        return true;
      }
      ghost var len: nat := coll.count + 1;
      WalkNeverNull(coll.tail, 0, len);
      var precursorFound := false;
      var j: Node?<Option<E>> := null;
      var i := coll.tail;
      ghost var n: nat := 0;
      while i != j
        invariant n <= len && i == Walk(coll.tail, n)
        invariant forall k: nat :: Walk(coll.tail, k) != null
        invariant j == (if n == 0 then null else coll.tail)
        invariant precursorFound <==> Reaches(coll.tail, n, precursor)
        decreases len - n
      {
        if precursor == i {
          precursorFound := true;
        }
        WalkNext(coll.tail, n);
        j := coll.tail;
        i := i.next;
        n := n + 1;
      }
      if !precursorFound {
        return false;
      }
      if cursor != precursor && cursor != precursor.next {
        return false;
      }
      if cursor == coll.tail.next && cursor != precursor {
        return false;
      }
      return true;
    }

    /** Every valid iterator passes the checker. */
    lemma ValidIsShape()
      requires Valid()
      ensures Closed(coll.NodeSet()) && coll.tail in coll.NodeSet()
      ensures Shape()
    {
      coll.ValidIsRingShape();
      if myVersion == coll.version {
        var ns := coll.nodes;
        var q := if removable then pos - 1 else pos;
        coll.WalkAroundRing(if q == |ns| - 1 then 0 else q + 1);
        assert precursor == ns[q];
        if removable {
          assert precursor.next == Successor(ns, pos - 1, ns[0]);
          assert Apart(ns, pos, 0);
        }
        assert coll.tail.next == Successor(ns, |ns| - 1, ns[0]);
      }
    }

    /** Whether an element is left; ConcurrentModificationException when stale. */
    method HasNext() returns (r: Result<bool>)
      requires Valid()
      ensures Stale() ==> r == Err(ConcurrentModification)
      ensures !Stale() ==> r == Ok(pos < |coll.elems|)
    {
      if coll.version != myVersion {
        return Err(ConcurrentModification);
      }
      assert pos < |coll.elems| ==> Apart(coll.nodes, pos, |coll.nodes| - 1);
      if cursor != coll.tail {
        return Ok(true);
      }
      return Ok(false);
    }

    /**
     * The next element, in insertion order. ConcurrentModificationException
     * when stale and NoSuchElementException when every element has been
     * returned; the iterator is then unchanged.
     */
    method Next() returns (r: Result<E>)
      requires Valid()
      modifies this
      ensures Valid()
      ensures old(Stale()) ==> r == Err(ConcurrentModification) && unchanged(this)
      ensures !old(Stale()) && old(pos) == |coll.elems| ==> r == Err(NoSuchElement) && unchanged(this)
      ensures !old(Stale()) && old(pos) < |coll.elems| ==>
                r == Ok(coll.elems[old(pos)]) && pos == old(pos) + 1 && removable && !Stale()
    {
      var hasNext := HasNext();
      if hasNext.Err? {
        return Err(hasNext.error);
      }
      if !hasNext.value {
        return Err(NoSuchElement);
      }
      assert cursor.next == Successor(coll.nodes, pos, coll.nodes[0]);
      precursor := cursor;
      cursor := cursor.next;
      pos := pos + 1;
      removable := true;
      r := Ok(cursor.data.value);
    }

    /**
     * Remove the element the last next() returned. ConcurrentModificationException
     * when stale, IllegalStateException when no element may be removed (before
     * the first next() or twice in a row); nothing changes then. Otherwise
     * both versions move on together and the iterator stands before the
     * element that followed the removed one.
     */
    method Remove() returns (r: Outcome)
      requires Valid()
      modifies this, coll.Repr
      ensures Valid() && coll.Repr == old(coll.Repr)
      ensures old(Stale()) ==> r == Fail(ConcurrentModification) && unchanged(this) && unchanged(old(coll.Repr))
      ensures !old(Stale()) && !old(removable) ==>
                r == Fail(IllegalState) && unchanged(this) && unchanged(old(coll.Repr))
      ensures !old(Stale()) && old(removable) ==>
                r == Pass && coll.elems == old(coll.elems[..pos - 1] + coll.elems[pos..]) &&
                coll.nodes == old(coll.nodes[..pos] + coll.nodes[pos + 1..]) &&
                pos == old(pos) - 1 && !removable && !Stale() &&
                coll.version == old(coll.version) + 1 && coll.count == old(coll.count) - 1 &&
                coll.tail == (if old(cursor == coll.tail) then old(precursor) else old(coll.tail))
    {
      if coll.version != myVersion {
        return Fail(ConcurrentModification);
      }
      assert removable ==> Apart(coll.nodes, pos - 1, pos);
      if cursor == precursor {
        return Fail(IllegalState);
      }
      if cursor != coll.tail {
        RemoveInner();
      } else {
        RemoveLast();
      }
      r := Pass;
    }

    /** Remove when the last element returned is not the tail. */
    method RemoveInner()
      requires Valid() && !Stale() && removable && cursor != coll.tail
      modifies this, coll.Repr
      ensures Valid() && coll.Repr == old(coll.Repr)
      ensures coll.elems == old(coll.elems[..pos - 1] + coll.elems[pos..])
      ensures coll.nodes == old(coll.nodes[..pos] + coll.nodes[pos + 1..])
      ensures pos == old(pos) - 1 && !removable && !Stale()
      ensures coll.version == old(coll.version) + 1 && coll.count == old(coll.count) - 1
      ensures coll.tail == old(coll.tail)
    {
      ghost var ns, es, p := coll.nodes, coll.elems, pos;
      Unlink();
      coll.nodes, coll.elems := ns[..p] + ns[p + 1..], es[..p - 1] + es[p..];
      pos, removable := p - 1, false;
      assert p != |ns| - 1;
      coll.Bypassed(p);
    }

    /** Remove when the last element returned is the tail: the precursor becomes the tail. */
    method RemoveLast()
      requires Valid() && !Stale() && removable && cursor == coll.tail
      modifies this, coll.Repr
      ensures Valid() && coll.Repr == old(coll.Repr)
      ensures coll.elems == old(coll.elems[..pos - 1] + coll.elems[pos..])
      ensures coll.nodes == old(coll.nodes[..pos] + coll.nodes[pos + 1..])
      ensures pos == old(pos) - 1 && !removable && !Stale()
      ensures coll.version == old(coll.version) + 1 && coll.count == old(coll.count) - 1
      ensures coll.tail == old(precursor)
    {
      ghost var ns, es, p := coll.nodes, coll.elems, pos;
      assert !Apart(ns, p, |ns| - 1);
      UnlinkTail();
      coll.nodes, coll.elems := ns[..p] + ns[p + 1..], es[..p - 1] + es[p..];
      pos, removable := p - 1, false;
      coll.Bypassed(p);
    }

    /** The pointer updates of remove when the cursor is not the tail. */
    method Unlink()
      requires precursor != null && cursor != null
      modifies this, coll, precursor
      ensures old(precursor).next == old(cursor.next) && cursor == old(precursor) && precursor == old(precursor)
      ensures coll.count == old(coll.count) - 1 && coll.tail == old(coll.tail)
      ensures myVersion == old(myVersion) + 1 && coll.version == old(coll.version) + 1
      ensures coll.nodes == old(coll.nodes) && coll.elems == old(coll.elems) && coll.Repr == old(coll.Repr)
      ensures pos == old(pos) && removable == old(removable)
    {
      precursor.next := cursor.next;
      cursor := precursor;
      coll.count := coll.count - 1;
      myVersion := myVersion + 1;
      coll.version := coll.version + 1;
    }

    /** The pointer updates of remove when the cursor is the tail. */
    method UnlinkTail()
      requires precursor != null && cursor != null
      modifies this, coll, precursor
      ensures old(precursor).next == old(cursor.next) && cursor == old(precursor) && precursor == old(precursor)
      ensures coll.count == old(coll.count) - 1 && coll.tail == old(precursor)
      ensures myVersion == old(myVersion) + 1 && coll.version == old(coll.version) + 1
      ensures coll.nodes == old(coll.nodes) && coll.elems == old(coll.elems) && coll.Repr == old(coll.Repr)
      ensures pos == old(pos) && removable == old(removable)
    {
      precursor.next := cursor.next;
      coll.tail := precursor;
      cursor := coll.tail;
      coll.count := coll.count - 1;
      myVersion := myVersion + 1;
      coll.version := coll.version + 1;
    }
  }

  /** The elements an iterator returns, from a fresh one until hasNext is false: all of them, in insertion order. */
  method Elements<E>(c: LinkedCollection<E>) returns (xs: seq<E>)
    requires c.Valid()
    ensures xs == c.elems
  {
    var it := c.Iterator();
    xs := [];
    var more := it.HasNext();
    while more == Ok(true)
      invariant it.Valid() && it.coll == c && !it.Stale()
      invariant xs == c.elems[..it.pos] && more == Ok(it.pos < |c.elems|)
      decreases |c.elems| - it.pos
    {
      var x := it.Next();
      xs := xs + [x.value];
      more := it.HasNext();
    }
  }

  /**
   * A broken collection whose tail links to the dummy and the dummy to null:
   * the checker as written throws NullPointerException on it, while the
   * null-safe checker reports that the invariant fails.
   */
  method DummyLinkedToNull() returns (asWritten: Result<bool>, corrected: bool)
    ensures asWritten == Err(NullPointer) && !corrected
  {
    var c := new LinkedCollection<int>();
    var dummy := c.tail;
    var last := new Node(Some(7), dummy);
    dummy.next := null;
    c.tail := last;
    c.count := 1;
    assert Walk(last, 1) == dummy;
    WalkNext(last, 1);
    assert EndsAt(last, 2);
    asWritten := c.WellFormedAsWritten({last, dummy});
    corrected := c.WellFormed({last, dummy});
  }

  /**
   * A remove through one iterator makes every other iterator over the same
   * collection stale: it throws ConcurrentModificationException, while the
   * iterator that removed stays live.
   */
  method RemoveMakesOthersStale<E>(it1: MyIterator<E>, it2: MyIterator<E>) returns (removed: Outcome, other: Result<bool>)
    requires it1.Valid() && it2.Valid() && it2.coll == it1.coll && it1 != it2
    requires !it1.Stale() && it1.removable
    modifies it1, it1.coll.Repr
    ensures removed == Pass && it1.Valid() && !it1.Stale()
    ensures it2.Valid() && it2.Stale() && other == Err(ConcurrentModification)
  {
    removed := it1.Remove();
    other := it2.HasNext();
  }

  /** An add makes every iterator over the collection stale. */
  method AddMakesIteratorsStale<E>(c: LinkedCollection<E>, it: MyIterator<E>, element: E) returns (next: Result<E>)
    requires c.Valid() && it.Valid() && it.coll == c
    modifies c.Repr, it
    ensures c.elems == old(c.elems) + [element]
    ensures it.Valid() && it.Stale() && next == Err(ConcurrentModification)
  {
    var _ := c.Add(element);
    next := it.Next();
  }

  /** A clear of a non-empty collection makes every iterator over it stale. */
  method ClearMakesIteratorsStale<E>(c: LinkedCollection<E>, it: MyIterator<E>) returns (more: Result<bool>)
    requires c.Valid() && it.Valid() && it.coll == c && c.elems != []
    modifies c.Repr
    ensures c.elems == []
    ensures it.Valid() && it.Stale() && more == Err(ConcurrentModification)
  {
    c.Clear();
    more := it.HasNext();
  }

  /**
   * Removing every element through one iterator, next() then remove() until
   * hasNext is false, leaves the collection as clear() does: empty, with the
   * dummy as the tail, linked to itself; a new iterator has no element.
   */
  method RemoveEveryElement<E>(c: LinkedCollection<E>) returns (afterwards: Result<bool>)
    requires c.Valid()
    modifies c.Repr
    ensures c.Valid() && c.elems == [] && c.tail == old(c.nodes[0]) && c.tail.next == c.tail
    ensures afterwards == Ok(false)
  {
    ghost var dummy := c.nodes[0];
    var it := c.Iterator();
    var more := it.HasNext();
    while more == Ok(true)
      invariant it.Valid() && it.coll == c && !it.Stale() && it.pos == 0 && !it.removable
      invariant c.nodes[0] == dummy && c.Repr == old(c.Repr)
      invariant more == Ok(0 < |c.elems|)
      decreases |c.elems|
    {
      var _ := it.Next();
      var _ := it.Remove();
      more := it.HasNext();
    }
    assert c.tail.next == Successor(c.nodes, 0, dummy);
    var again := c.Iterator();
    afterwards := again.HasNext();
  }
}
