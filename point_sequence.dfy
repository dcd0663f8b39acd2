/**
 * PointSequence: a non-circular singly linked list with an external cursor.
 *
 * The abstract state is the sequence `elems` and the index `current` of the
 * current element; `current == |elems|` means that there is no current
 * element. The precursor is then the node at `current - 1`, or null.
 */
module PointSequences {
  import opened Links
  import opened Failures

  class PointSequence<T> {
    var manyNodes: int
    var head: Node?<T>
    var tail: Node?<T>
    var cursor: Node?<T>
    var precursor: Node?<T>

    /** The elements, front to back. */
    ghost var elems: seq<T>
    /** The index of the current element, or |elems| when there is none. */
    ghost var current: nat
    /** The nodes of the list, in the order `next` links them. */
    ghost var nodes: seq<Node<T>>
    /**
     * The objects this sequence owns. It only grows: removed nodes and the
     * clone that addAll splices in stay in it although nothing reaches them,
     * which keeps every mutator's frame `Repr == old(Repr)` or a simple union.
     */
    ghost var Repr: set<object>

    /** The invariant: `nodes` is the chain from head to tail, and cursor/precursor sit at `current`. */
    ghost predicate Valid()
      reads this, Repr
      ensures Valid() ==> this in Repr
    {
      this in Repr &&
      (forall i :: 0 <= i < |nodes| ==> nodes[i] in Repr) &&
      Distinct(nodes) && Linked(nodes, null) && Carries(nodes, elems) &&
      manyNodes == |nodes| &&
      head == (if |nodes| == 0 then null else nodes[0]) &&
      tail == (if |nodes| == 0 then null else nodes[|nodes| - 1]) &&
      current <= |nodes| &&
      cursor == (if current < |nodes| then nodes[current] else null) &&
      precursor == (if 0 < current < |nodes| then nodes[current - 1] else null)
    }

    /** There is a current element. */
    ghost predicate HasCurrent()
      reads this
    {
      current < |elems|
    }

    ghost function NodeSet(): set<Node<T>>
      reads this
    {
      set i | 0 <= i < |nodes| :: nodes[i]
    }

    /**
     * The conditions the source's checker tests, on the real fields and links
     * alone: (1, 3) the chain from head has no cycle and exactly manyNodes
     * nodes; (2) tail is its last node, null when it is empty; (4) precursor is
     * null or a node of the chain other than tail; (5) cursor is the node after
     * precursor, or null or head when precursor is null; and no precursor
     * without a cursor.
     */
    ghost predicate Shape()
      reads *
    {
      0 <= manyNodes && EndsAt(head, manyNodes) &&
      tail == (if manyNodes == 0 then null else Walk(head, manyNodes - 1)) &&
      (precursor != null ==> precursor != tail && Reaches(head, manyNodes, precursor)) &&
      (precursor != null && cursor != null ==> cursor == precursor.next) &&
      (precursor == null ==> cursor == null || cursor == head) &&
      (cursor == null ==> precursor == null)
    }

    /** An empty sequence. */
    constructor ()
      ensures Valid() && fresh(Repr)
      ensures elems == [] && !HasCurrent()
      ensures manyNodes == 0 && head == null && tail == null && cursor == null && precursor == null
    {
      manyNodes := 0;
      head := null;
      tail := null;
      cursor := null;
      precursor := null;
      elems := [];
      current := 0;
      nodes := [];
      Repr := {this};
    }

    /** The field-by-field copy that Object.clone makes: the nodes are shared with `other`. */
    constructor Copy(other: PointSequence<T>)
      ensures manyNodes == other.manyNodes && head == other.head && tail == other.tail
      ensures cursor == other.cursor && precursor == other.precursor
    {
      manyNodes := other.manyNodes;
      head := other.head;
      tail := other.tail;
      cursor := other.cursor;
      precursor := other.precursor;
    }

    /** The source's checker `wellFormed`: true exactly when the fields and links have the required shape. */
    method WellFormed(ghost S: set<Node<T>>) returns (ok: bool)
      requires Closed(S) && (head == null || head in S)
      ensures ok <==> Shape()
    {
      // 1. the list is not cyclic
      var acyclic;
      ghost var bound;
      acyclic, bound := IsAcyclic(S);
      if !acyclic {
        return false;
      }
      // 2. tail is the last node of the list
      var tailIsLast;
      ghost var len;
      tailIsLast, len := TailIsLast(bound);
      if !tailIsLast {
        return false;
      }
      // 3. manyNodes is the number of nodes
      var counted := CountIsRight(len);
      if !counted {
        return false;
      }
      // 4. and 5. precursor and cursor
      ok := CursorsFit(len);
    }

    /** Check 1 of `wellFormed`, Floyd's tortoise and hare: true exactly when the chain from head ends. */
    method IsAcyclic(ghost S: set<Node<T>>) returns (ok: bool, ghost bound: nat)
      requires Closed(S) && (head == null || head in S)
      ensures ok ==> Walk(head, bound) == null
      ensures !ok ==> forall k: nat :: Walk(head, k) != null
    {
      bound := 0;
      if head != null {
        FloydTerminates(S, head);
        ghost var stop: nat :| FloydStop(head, stop);
        var fast := head.next;
        var p := head;
        ghost var i: nat := 0;
        while fast != null && fast.next != null
          invariant i <= stop
          invariant p == Walk(head, i) && fast == Walk(head, 2 * i + 1) && p != null
          decreases stop - i
        {
          if p == fast {
            WalkNeverNull(head, i, 2 * i + 1);
            return false, 0;
          }
          WalkNext(head, i);
          WalkNext(head, 2 * i + 1);
          WalkNext(head, 2 * i + 2);
          WalkNonNullBefore(head, i + 1, 2 * i + 2);
          fast := fast.next.next;
          p := p.next;
          i := i + 1;
        }
        if fast != null {
          WalkNext(head, 2 * i + 1);
        } else {
          WalkNullStays(head, 2 * i + 1, 2 * i + 2);
        }
        bound := 2 * i + 2;
      }
      ok := true;
    }

    /**
     * Check 2 of `wellFormed`, on a chain that ends within `bound` steps:
     * true exactly when tail is its last node, or null when it is empty.
     * `len` is the length of the chain.
     */
    method TailIsLast(ghost bound: nat) returns (ok: bool, ghost len: nat)
      requires Walk(head, bound) == null
      ensures EndsAt(head, len)
      ensures ok <==> tail == (if len == 0 then null else Walk(head, len - 1))
    {
      len := 0;
      if head != null {
        var f := head;
        ghost var n: nat := 0;
        while f.next != null
          invariant f == Walk(head, n) && f != null && n < bound
          decreases bound - n
        {
          WalkNext(head, n);
          f := f.next;
          n := n + 1;
          BeforeEnd(head, n, bound);
        }
        WalkNext(head, n);
        forall k | 0 <= k <= n
          ensures Walk(head, k) != null
        {
          WalkNonNullBefore(head, k, n);
        }
        len := n + 1;
        ok := f == tail;
      } else {
        ok := tail == null;
      }
    }

    /** Check 3 of `wellFormed`, on a chain of `len` nodes: true exactly when manyNodes is `len`. */
    method CountIsRight(ghost len: nat) returns (ok: bool)
      requires EndsAt(head, len)
      ensures ok <==> manyNodes == len
    {
      if head == null && manyNodes != 0 {
        assert Walk(head, 0) == null;
        return false;
      }
      var f := head;
      var n := 0;
      while f != null
        invariant 0 <= n <= len && f == Walk(head, n)
        decreases len - n
      {
        WalkNext(head, n);
        n := n + 1;
        f := f.next;
      }
      ok := manyNodes == n;
    }

    /**
     * Checks 4 and 5 of `wellFormed`, on a chain of `len` nodes: true exactly
     * when precursor is null or a node of the chain other than tail, and
     * cursor is the node after it, or null or head when there is no precursor.
     */
    method CursorsFit(ghost len: nat) returns (ok: bool)
      requires EndsAt(head, len)
      ensures ok <==>
                (precursor != null ==> precursor != tail && Reaches(head, len, precursor)) &&
                (precursor != null && cursor != null ==> cursor == precursor.next) &&
                (precursor == null ==> cursor == null || cursor == head) &&
                (cursor == null ==> precursor == null)
    {
      if precursor != null {
        if precursor == tail {
          return false;
        }
        var f := head;
        var inList := false;
        ghost var n: nat := 0;
        while f != null
          invariant 0 <= n <= len && f == Walk(head, n)
          invariant inList <==> Reaches(head, n, precursor)
          decreases len - n
        {
          if precursor == f {
            inList := true;
          }
          WalkNext(head, n);
          f := f.next;
          n := n + 1;
        }
        if !inList {
          return false;
        }
        if cursor != null {
          if cursor != precursor.next {
            return false;
          }
        }
      } else {
        if cursor != null && cursor != head {
          return false;
        }
      }
      if cursor == null && precursor != null {
        return false;
      }
      return true;
    }

    /** Walking from head follows `nodes` and then reaches null. */
    lemma {:induction false} WalkAlongNodes(k: nat)
      requires Valid() && k <= |nodes|
      ensures Walk(head, k) == if k < |nodes| then nodes[k] else null
    {
      if k > 0 {
        WalkAlongNodes(k - 1);
        WalkNext(head, k - 1);
        assert nodes[k - 1].next == Successor(nodes, k - 1, null);
      }
    }

    /** Every valid state passes the checker: the node set is closed and the shape holds. */
    lemma ValidIsShape()
      requires Valid()
      ensures Closed(NodeSet()) && (head == null || head in NodeSet())
      ensures Shape()
    {
      forall m | m in NodeSet()
        ensures m.next == null || m.next in NodeSet()
      {
        var i :| 0 <= i < |nodes| && nodes[i] == m;
        assert m.next == Successor(nodes, i, null);
      }
      if head != null {
        assert head == nodes[0];
      }
      forall k | 0 <= k <= |nodes|
        ensures Walk(head, k) == if k < |nodes| then nodes[k] else null
      {
        WalkAlongNodes(k);
      }
      if precursor != null {
        assert Walk(head, current - 1) == precursor && Apart(nodes, current - 1, |nodes| - 1);
        assert precursor.next == Successor(nodes, current - 1, null);
      }
    }

    /** The number of elements. */
    method Size() returns (n: int)
      requires Valid()
      ensures n == |elems|
    {
      n := manyNodes;
    }

    /** Make the front element current; an empty sequence then has no current element. */
    method Start()
      requires Valid()
      modifies this
      ensures Valid() && Repr == old(Repr) && elems == old(elems)
      ensures current == 0
    {
      cursor := head;
      precursor := null;
      current := 0;
    }

    /** Whether there is a current element. */
    method IsCurrent() returns (b: bool)
      requires Valid()
      ensures b == HasCurrent()
    {
      b := cursor != null;
    }

    /** The current element; IllegalStateException when there is none. */
    method GetCurrent() returns (r: Result<T>)
      requires Valid()
      ensures HasCurrent() ==> r == Ok(elems[current])
      ensures !HasCurrent() ==> r == Err(IllegalState)
    {
      var isCurrent := IsCurrent();
      if isCurrent {
        r := Ok(cursor.data);
      } else {
        r := Err(IllegalState);
      }
    }

    /**
     * Move to the next element; past the last one there is no current element.
     * IllegalStateException, and no change, when there is no current element.
     */
    method Advance() returns (r: Outcome)
      requires Valid()
      modifies this
      ensures Valid() && Repr == old(Repr) && elems == old(elems)
      ensures old(HasCurrent()) ==> r == Pass && current == old(current) + 1
      ensures !old(HasCurrent()) ==> r == Fail(IllegalState) && unchanged(this)
    {
      var isCurrent := IsCurrent();
      if isCurrent {
        assert cursor.next == Successor(nodes, current, null);
        assert cursor == tail ==> !Apart(nodes, current, |nodes| - 1);
        if cursor == tail {
          precursor := null;
          cursor := null;
        } else {
          precursor := cursor;
          cursor := cursor.next;
        }
        current := current + 1;
        r := Pass;
      } else {
        r := Fail(IllegalState);
      }
    }

    /**
     * Insert `element` after the current element, or at the front when there is
     * none; the new element becomes current and no other element moves.
     */
    method Append(element: T)
      requires Valid()
      modifies Repr
      ensures Valid() && fresh(Repr - old(Repr))
      ensures old(HasCurrent()) ==>
                elems == old(elems[..current + 1]) + [element] + old(elems[current + 1..]) &&
                current == old(current) + 1
      ensures !old(HasCurrent()) ==> elems == [element] + old(elems) && current == 0
    {
      var isCurrent := IsCurrent();
      if isCurrent {
        AppendAfterCursor(element);
      } else {
        AppendAtFront(element);
      }
    }

    /** Append when there is a current element: the new node goes in right after the cursor. */
    method AppendAfterCursor(element: T)
      requires Valid() && HasCurrent()
      modifies Repr
      ensures Valid() && fresh(Repr - old(Repr))
      ensures elems == old(elems[..current + 1]) + [element] + old(elems[current + 1..])
      ensures current == old(current) + 1
    {
      ghost var ns, es, c := nodes, elems, current;
      var node := LinkAfterCursor(element);
      nodes := ns[..c + 1] + [node] + ns[c + 1..];
      elems := es[..c + 1] + [element] + es[c + 1..];
      current := c + 1;
      Repr := Repr + {node};
      forall i | 0 <= i < |ns| && i != c
        ensures ns[i].next == old(ns[i].next)
      {
        assert Apart(ns, i, c);
      }
      InsertedAfterCursor(node);
    }

    /** The pointer updates of Append when there is a current element. */
    method LinkAfterCursor(element: T) returns (node: Node<T>)
      requires cursor != null
      modifies this, cursor
      ensures fresh(node) && node.data == element && node.next == old(cursor.next)
      ensures old(cursor).next == node && tail == (if old(cursor) == old(tail) then node else old(tail))
      ensures precursor == old(cursor) && cursor == node && manyNodes == old(manyNodes) + 1 && head == old(head)
      ensures nodes == old(nodes) && elems == old(elems) && current == old(current) && Repr == old(Repr)
    {
      node := new Node(element, cursor.next);
      cursor.next := node;
      if cursor == tail {
        tail := node;
      }
      precursor := cursor;
      cursor := node;
      manyNodes := manyNodes + 1;
    }

    /** Append when there is no current element: the new node becomes the head. */
    method AppendAtFront(element: T)
      requires Valid() && !HasCurrent()
      modifies Repr
      ensures Valid() && fresh(Repr - old(Repr))
      ensures elems == [element] + old(elems) && current == 0
    {
      ghost var ns, es := nodes, elems;
      var node := LinkAtFront(element);
      nodes := [node] + ns;
      elems := [element] + es;
      current := 0;
      Repr := Repr + {node};
      InsertedAtFront(node);
    }

    /** The pointer updates of Append when there is no current element. */
    method LinkAtFront(element: T) returns (node: Node<T>)
      modifies this
      ensures fresh(node) && node.data == element && node.next == old(head)
      ensures head == node && cursor == node && tail == (if old(manyNodes) == 0 then node else old(tail))
      ensures precursor == old(precursor) && manyNodes == old(manyNodes) + 1
      ensures nodes == old(nodes) && elems == old(elems) && current == old(current) && Repr == old(Repr)
    {
      node := new Node(element, head);
      if manyNodes == 0 {
        cursor, head, tail := node, node, node;
      } else {
        cursor, head := node, node;
      }
      manyNodes := manyNodes + 1;
    }

    /** The state Append leaves when there is a current element is valid. */
    twostate lemma InsertedAfterCursor(new node: Node<T>)
      requires old(Valid()) && old(HasCurrent()) && !old(allocated(node))
      requires forall i :: 0 <= i < |old(nodes)| && i != old(current) ==> old(nodes)[i].next == old(nodes[i].next)
      requires old(cursor).next == node && node.next == old(cursor.next)
      requires nodes == old(nodes[..current + 1]) + [node] + old(nodes[current + 1..])
      requires elems == old(elems[..current + 1]) + [node.data] + old(elems[current + 1..])
      requires manyNodes == old(manyNodes) + 1 && head == old(head) && current == old(current) + 1
      requires tail == (if old(cursor) == old(tail) then node else old(tail))
      requires precursor == old(cursor) && cursor == node && Repr == old(Repr) + {node}
      ensures Valid()
    {
      ghost var ns, c := old(nodes), old(current);
      assert old(cursor.next) == Successor(ns, c, null);
      assert old(cursor) == old(tail) ==> !Apart(ns, c, |ns| - 1);
      LinkedInsert(ns, c, node, null);
      DistinctInsert(ns, c + 1, node);
      CarriesInsert(ns, old(elems), c + 1, node);
    }

    /** The state Append leaves when there is no current element is valid. */
    twostate lemma InsertedAtFront(new node: Node<T>)
      requires old(Valid()) && !old(allocated(node)) && node.next == old(head)
      requires unchanged(old(Repr) - {this})
      requires nodes == [node] + old(nodes) && elems == [node.data] + old(elems)
      requires manyNodes == old(manyNodes) + 1 && head == node && cursor == node && current == 0
      requires tail == (if old(manyNodes) == 0 then node else old(tail))
      requires precursor == null && Repr == old(Repr) + {node}
      ensures Valid()
    {
      ghost var ns := old(nodes);
      LinkedConcat([node], ns, null);
      DistinctInsert(ns, 0, node);
      CarriesInsert(ns, old(elems), 0, node);
      assert ns[..0] + [node] + ns[0..] == [node] + ns;
      assert old(elems)[..0] + [node.data] + old(elems)[0..] == [node.data] + old(elems);
    }

    /**
     * Delete the current element; the element after it, if any, becomes current.
     * IllegalStateException, and no change, when there is no current element.
     */
    method RemoveCurrent() returns (r: Outcome)
      requires Valid()
      modifies Repr
      ensures Valid() && Repr == old(Repr)
      ensures old(HasCurrent()) ==>
                r == Pass &&
                nodes == old(nodes[..current] + nodes[current + 1..]) &&
                elems == old(elems[..current] + elems[current + 1..]) &&
                current == old(current)
      ensures old(HasCurrent()) && old(current) == old(|elems|) - 1 && old(|elems|) > 1 ==>
                tail == old(precursor)
      ensures !old(HasCurrent()) ==> r == Fail(IllegalState) && unchanged(Repr)
    {
      var isCurrent := IsCurrent();
      if isCurrent {
        if manyNodes == 1 {
          RemoveOnly();
        } else {
          if cursor == head {
            RemoveHead();
          } else if cursor == tail {
            RemoveTail();
          } else {
            RemoveInner();
          }
        }
        r := Pass;
      } else {
        r := Fail(IllegalState);
      }
    }

    /** RemoveCurrent on a one-element sequence: it becomes empty. */
    method RemoveOnly()
      requires Valid() && HasCurrent() && manyNodes == 1
      modifies this
      ensures Valid() && Repr == old(Repr)
      ensures nodes == old(nodes[..current] + nodes[current + 1..])
      ensures elems == old(elems[..current] + elems[current + 1..]) && current == old(current)
    {
      head, tail, precursor, cursor := null, null, null, null;
      manyNodes := manyNodes - 1;
      nodes, elems := [], [];
    }

    /** RemoveCurrent when the head of several nodes is current: the head moves on. */
    method RemoveHead()
      requires Valid() && HasCurrent() && manyNodes != 1 && cursor == head
      modifies this
      ensures Valid() && Repr == old(Repr)
      ensures nodes == old(nodes[..current] + nodes[current + 1..])
      ensures elems == old(elems[..current] + elems[current + 1..]) && current == old(current)
    {
      ghost var ns, es := nodes, elems;
      assert !Apart(ns, 0, current);
      head := head.next;
      cursor := cursor.next;
      manyNodes := manyNodes - 1;
      nodes, elems := ns[1..], es[1..];
      RemovedFront();
      assert ns[..0] + ns[1..] == ns[1..];
    }

    /** RemoveCurrent when the tail of several nodes is current: the precursor becomes the tail. */
    method RemoveTail()
      requires Valid() && HasCurrent() && manyNodes != 1 && cursor != head && cursor == tail
      modifies Repr
      ensures Valid() && Repr == old(Repr) && tail == old(precursor)
      ensures nodes == old(nodes[..current] + nodes[current + 1..])
      ensures elems == old(elems[..current] + elems[current + 1..]) && current == old(current)
    {
      ghost var ns, es, c := nodes, elems, current;
      assert cursor.next == Successor(ns, c, null);
      assert !Apart(ns, c, |ns| - 1);
      tail := precursor;
      tail.next := null;
      precursor, cursor := null, null;
      manyNodes := manyNodes - 1;
      nodes, elems := ns[..c] + ns[c + 1..], es[..c] + es[c + 1..];
      RemovedAfterPrecursor();
    }

    /** RemoveCurrent on a node strictly inside the list: the precursor is linked past it. */
    method RemoveInner()
      requires Valid() && HasCurrent() && manyNodes != 1 && cursor != head && cursor != tail
      modifies Repr
      ensures Valid() && Repr == old(Repr)
      ensures nodes == old(nodes[..current] + nodes[current + 1..])
      ensures elems == old(elems[..current] + elems[current + 1..]) && current == old(current)
    {
      ghost var ns, es, c := nodes, elems, current;
      precursor.next := cursor.next;
      cursor := cursor.next;
      manyNodes := manyNodes - 1;
      nodes, elems := ns[..c] + ns[c + 1..], es[..c] + es[c + 1..];
      RemovedAfterPrecursor();
    }

    /** Removing the current element when it is the first of several leaves a valid state. */
    twostate lemma RemovedFront()
      requires old(Valid()) && old(current) == 0 && old(manyNodes) > 1
      requires unchanged(old(Repr) - {this})
      requires nodes == old(nodes[1..]) && elems == old(elems[1..])
      requires manyNodes == old(manyNodes) - 1 && head == old(head.next) && cursor == old(cursor.next)
      requires tail == old(tail) && precursor == old(precursor) && current == 0
      requires Repr == old(Repr)
      ensures Valid()
    {
      ghost var ns, es := old(nodes), old(elems);
      assert old(head.next) == Successor(ns, 0, null);
      forall i | 0 < i < |ns|
        ensures ns[i].next == old(ns[i].next)
      {
        assert ns[i] in old(Repr) - {this};
      }
      LinkedDrop(ns, null);
      DistinctRemove(ns, 0);
      CarriesRemove(ns, es, 0);
      assert ns[..0] + ns[1..] == ns[1..];
      assert es[..0] + es[1..] == es[1..];
      assert Linked(nodes, null) && Distinct(nodes) && Carries(nodes, elems);
      assert forall i :: 0 <= i < |nodes| ==> nodes[i] in Repr;
    }

    /**
     * Removing the current element when it is not the first one, by pointing
     * the precursor past it, leaves a valid state.
     */
    twostate lemma RemovedAfterPrecursor()
      requires old(Valid()) && old(HasCurrent()) && old(cursor) != old(head)
      requires unchanged(old(Repr) - {this, old(precursor)})
      requires old(precursor).next == old(cursor.next)
      requires nodes == old(nodes[..current] + nodes[current + 1..])
      requires elems == old(elems[..current] + elems[current + 1..])
      requires manyNodes == old(manyNodes) - 1 && head == old(head) && current == old(current)
      requires tail == (if old(cursor) == old(tail) then old(precursor) else old(tail))
      requires cursor == old(cursor.next)
      requires precursor == (if old(cursor) == old(tail) then null else old(precursor))
      requires Repr == old(Repr)
      ensures Valid()
    {
      ghost var ns, c := old(nodes), old(current);
      assert old(cursor.next) == Successor(ns, c, null);
      forall i | 0 <= i < |ns| && i != c - 1
        ensures ns[i].next == old(ns[i].next)
      {
        assert ns[i] in old(Repr) && Apart(ns, i, c - 1);
      }
      LinkedBypass(ns, c, null);
      DistinctRemove(ns, c);
      CarriesRemove(ns, old(elems), c);
      assert old(cursor) == old(tail) ==> !Apart(ns, c, |ns| - 1);
    }

    /**
     * A copy with its own nodes, the same elements in the same order and the
     * same current position; the original is unchanged.
     */
    method Clone() returns (result: PointSequence<T>)
      requires Valid()
      ensures result.Valid() && fresh(result.Repr)
      ensures result.elems == elems && result.current == current
    {
      result := new PointSequence<T>.Copy(this);
      ghost var copies: seq<Node<T>> := [];
      if head != null {
        copies := CopyChain(result);
      }
      result.Adopt(copies, elems, current);
    }

    /**
     * The copying part of Clone, for a non-empty sequence: `result`, a field
     * by field copy of this sequence, gets a chain of fresh nodes holding the
     * same elements, with its cursor and precursor at the same positions.
     */
    method CopyChain(result: PointSequence<T>) returns (ghost copies: seq<Node<T>>)
      requires Valid() && head != null && result != this
      requires result.cursor == cursor && result.precursor == precursor && result.manyNodes == manyNodes
      modifies result
      ensures |copies| == |nodes| && (forall i :: 0 <= i < |copies| ==> fresh(copies[i]))
      ensures Distinct(copies) && Linked(copies, null) && Carries(copies, elems)
      ensures result.manyNodes == |copies| && result.head == copies[0] && result.tail == copies[|copies| - 1]
      ensures result.cursor == (if current < |copies| then copies[current] else null)
      ensures result.precursor == (if 0 < current < |copies| then copies[current - 1] else null)
    {
      ghost var ns, es, c := nodes, elems, current;
      var resultHead := new Node(head.data, null);
      result.head := resultHead;
      result.tail := resultHead;
      var iteratingNode := head;
      if cursor == head {
        result.cursor := resultHead;
      }
      if precursor == head {
        result.precursor := resultHead;
      }
      if c < |ns| && c != 0 {
        assert Apart(ns, 0, c);
      }
      if 0 < c < |ns| && c != 1 {
        assert Apart(ns, 0, c - 1);
      }
      copies := [resultHead];
      while iteratingNode.next != null
        invariant 1 <= |copies| <= |ns| && iteratingNode == ns[|copies| - 1]
        invariant forall i :: 0 <= i < |copies| ==> fresh(copies[i])
        invariant forall i :: 0 <= i < |copies| ==> copies[i].data == es[i]
        invariant Distinct(copies) && Linked(copies, null)
        invariant result.head == copies[0] && result.tail == copies[|copies| - 1]
        invariant result.manyNodes == manyNodes
        invariant result.cursor == if c < |copies| then copies[c] else cursor
        invariant result.precursor ==
                    if 0 < c < |ns| && c - 1 < |copies| then copies[c - 1] else precursor
        decreases |ns| - |copies|
      {
        ghost var k := |copies|;
        assert iteratingNode.next == Successor(ns, k - 1, null);
        iteratingNode := iteratingNode.next;
        if 0 < c < |ns| && c - 1 != k {
          assert Apart(ns, c - 1, k);
        }
        if c < |ns| && c != k {
          assert Apart(ns, c, k);
        }
        var iteratingNodeCopy := CopyNext(result, iteratingNode, copies);
        DistinctInsert(copies, k, iteratingNodeCopy);
        assert copies[..k] + [iteratingNodeCopy] + copies[k..] == copies + [iteratingNodeCopy];
        copies := copies + [iteratingNodeCopy];
      }
      assert iteratingNode.next == Successor(ns, |copies| - 1, null);
    }

    /**
     * The last step of Clone, on the copy: the abstract state is set to
     * describe the chain `ns` of fresh nodes holding `es`, with `c` current.
     */
    ghost method Adopt(ns: seq<Node<T>>, es: seq<T>, c: nat)
      requires Distinct(ns) && Linked(ns, null) && Carries(ns, es) && c <= |ns|
      requires manyNodes == |ns| && head == (if |ns| == 0 then null else ns[0])
      requires tail == (if |ns| == 0 then null else ns[|ns| - 1])
      requires cursor == (if c < |ns| then ns[c] else null)
      requires precursor == (if 0 < c < |ns| then ns[c - 1] else null)
      modifies this
      ensures Valid() && elems == es && current == c && Repr == {this} + set i | 0 <= i < |ns| :: ns[i]
    {
      nodes, elems, current := ns, es, c;
      Repr := {this} + set i | 0 <= i < |ns| :: ns[i];
      assert Linked(ns, null) by {
        forall i | 0 <= i < |ns|
          ensures ns[i].next == Successor(ns, i, null)
        {
        }
      }
    }

    /**
     * One round of Clone's loop: a copy of `node` is linked in after
     * `result`'s tail and becomes its tail, and it takes over as `result`'s
     * cursor or precursor when `node` is this sequence's cursor or precursor.
     */
    method CopyNext(result: PointSequence<T>, node: Node<T>, ghost copies: seq<Node<T>>) returns (copy: Node<T>)
      requires result != this && |copies| > 0 && result.tail == copies[|copies| - 1]
      requires Distinct(copies) && Linked(copies, null)
      modifies result, result.tail
      ensures fresh(copy) && copy.data == node.data
      ensures Linked(copies + [copy], null)
      ensures result.head == old(result.head) && result.tail == copy && result.manyNodes == old(result.manyNodes)
      ensures result.cursor == (if cursor == node then copy else old(result.cursor))
      ensures result.precursor == (if precursor == node then copy else old(result.precursor))
    {
      copy := new Node(node.data, null);
      if precursor == node {
        result.precursor := copy;
      }
      if cursor == node {
        result.cursor := copy;
      }
      result.tail.next := copy;
      result.tail := result.tail.next;
      assert Linked(copies, copy) by {
        forall i | 0 <= i < |copies|
          ensures copies[i].next == Successor(copies, i, copy)
        {
          if i < |copies| - 1 {
            assert Apart(copies, i, |copies| - 1) && Successor(copies, i, copy) == Successor(copies, i, null);
          }
        }
      }
      LinkedSnoc(copies, copy, null);
    }

    /**
     * Append a copy of `addend`'s elements; the current element of this
     * sequence, if any, stays current, and `addend` is unchanged.
     * NullPointerException when `addend` is null.
     */
    method AddAll(addend: PointSequence?<T>) returns (r: Outcome)
      requires Valid()
      requires addend != null ==> addend.Valid() && (addend == this || addend.Repr !! Repr)
      modifies Repr
      ensures Valid() && fresh(Repr - old(Repr))
      ensures addend == null ==> r == Fail(NullPointer) && unchanged(old(Repr))
      ensures addend != null ==> r == Pass && elems == old(elems) + old(addend.elems)
      ensures HasCurrent() == old(HasCurrent()) && (HasCurrent() ==> current == old(current))
      ensures cursor == old(cursor) && precursor == old(precursor)
      ensures addend != null && addend != this ==>
                addend.Valid() && addend.elems == old(addend.elems) && addend.current == old(addend.current)
    {
      if addend == null {
        return Fail(NullPointer);
      }
      var addendClone := addend.Clone();
      Splice(addendClone);
      r := Pass;
    }

    /**
     * The linking part of AddAll: the chain of `other`, a sequence with nodes
     * of its own, is linked in after the tail of this one.
     */
    method Splice(other: PointSequence<T>)
      requires Valid() && other.Valid() && other.Repr !! Repr
      modifies Repr
      ensures Valid() && Repr == old(Repr) + other.Repr
      ensures elems == old(elems) + other.elems
      ensures current == (if old(current) == old(|elems|) then |elems| else old(current))
      ensures cursor == old(cursor) && precursor == old(precursor)
    {
      ghost var ns, es, c := nodes, elems, current;
      LinkChain(other);
      nodes, elems := ns + other.nodes, es + other.elems;
      if c == |es| {
        current := |es| + |other.elems|;
      }
      Repr := Repr + other.Repr;
      Spliced(other);
    }

    /** The pointer updates of addAll once the addend has been cloned. */
    method LinkChain(other: PointSequence<T>)
      requires head != null ==> tail != null
      modifies this, tail
      ensures old(tail) != null && old(head) != null ==> old(tail).next == old(other.head)
      ensures head == (if old(head) == null then old(other.head) else old(head))
      ensures tail == (if old(head) != null && old(other.tail) == null then old(tail) else old(other.tail))
      ensures manyNodes == old(manyNodes) + old(other.manyNodes)
      ensures cursor == old(cursor) && precursor == old(precursor)
      ensures nodes == old(nodes) && elems == old(elems) && current == old(current) && Repr == old(Repr)
    {
      if head != null {
        tail.next := other.head;
        if other.tail != null {
          tail := other.tail;
        }
      } else {
        head := other.head;
        tail := other.tail;
      }
      manyNodes := manyNodes + other.manyNodes;
    }

    /** Linking the chain of a sequence with nodes of its own after this one's leaves a valid state. */
    twostate lemma Spliced(other: PointSequence<T>)
      requires old(Valid()) && old(other.Valid()) && old(other.Repr !! Repr)
      requires unchanged(old(Repr) - {this, old(tail)}) && unchanged(old(other.Repr))
      requires old(tail) != null ==> old(tail).next == old(other.head)
      requires nodes == old(nodes) + old(other.nodes) && elems == old(elems) + old(other.elems)
      requires manyNodes == old(manyNodes) + old(other.manyNodes)
      requires head == (if old(head) == null then old(other.head) else old(head))
      requires tail == (if old(other.tail) == null then old(tail) else old(other.tail))
      requires cursor == old(cursor) && precursor == old(precursor)
      requires current == (if old(current) == old(|elems|) then |elems| else old(current))
      requires Repr == old(Repr) + old(other.Repr)
      ensures Valid()
    {
      ghost var ns, ms := old(nodes), old(other.nodes);
      assert Linked(ms, null) by {
        forall i | 0 <= i < |ms|
          ensures ms[i].next == Successor(ms, i, null)
        {
          assert ms[i] in old(other.Repr);
        }
      }
      ghost var e := if |ms| == 0 then null else ms[0];
      assert Linked(ns, e) by {
        forall i | 0 <= i < |ns|
          ensures ns[i].next == Successor(ns, i, e)
        {
          if i < |ns| - 1 {
            assert ns[i] in old(Repr) && Apart(ns, i, |ns| - 1) && Successor(ns, i, e) == Successor(ns, i, null);
          }
        }
      }
      LinkedConcat(ns, ms, null);
      forall x | x in ns
        ensures x !in ms
      {
        assert x in old(Repr);
      }
      DistinctConcat(ns, ms);
      CarriesConcat(ns, old(elems), ms, old(other.elems));
    }
  }
}
