# PointSequence and LinkedCollection in Dafny

This project models the two hand-built linked collections of GravSim and
proves that their operations keep their structural invariants.

- **`PointSequence`** is a cursor sequence of points. It is a singly linked,
  null-terminated list with `head`, `tail` and `manyNodes`, plus a
  `cursor`/`precursor` pair that marks the current element. It supports
  `start`, `isCurrent`, `getCurrent`, `advance`, `append`, `removeCurrent`,
  `addAll` and `clone`.
- **`LinkedCollection<E>`** is a circular singly linked list with one dummy
  node, which always sits right after `tail`. It keeps an element `count`
  and a `version` stamp, and supports `add`, `size` and `clear`. Its
  fail-fast iterator returns the elements in insertion order, removes the
  last one it returned, and throws ConcurrentModificationException once
  another mutation has moved `version` on.

Both are imperative, and the model keeps that form:

- Each collection is a Dafny `class` with the source's fields. Its node
  class `Links.Node` has a `next` field that the methods rewrite in place.
- Ghost fields hold the abstract state:
  - `elems`, the elements in order;
  - `nodes`, the chain or ring of nodes in link order;
  - `current`, for the sequence's cursor position;
  - `pos` and `removable`, for the iterator.
- `Valid()` ties the real fields and links to this abstract state.
- Every operation is a method that requires `Valid()`. The queries (`Size`,
  `IsCurrent`, `GetCurrent`, `HasNext`) change nothing. Every other operation
  also ensures `Valid()`, and states the new abstract state in terms of the
  old one. This is the model of the
  source's `assert wellFormed()` at entry and exit.
- Java exceptions become return values: `Failures.Result` and
  `Failures.Outcome`, over `Failures.Error`.

The source's invariant checkers are modelled as loop methods over the real
heap, with the same loops: Floyd's tortoise and hare, the node count, and the
precursor search. Each one is proved to return true exactly when a heap-only
predicate holds (`Shape`, `RingShape`). Separate lemmas (`ValidIsShape`,
`ValidIsRingShape`) prove that every valid state passes its checker.

A checker walks an arbitrary, possibly corrupted heap. Its loops terminate
because the caller passes a finite ghost set of nodes that no link leaves
(`Closed`).

The elements (`Point`, `E`) are a type parameter. The sentinel's Java `null`
payload is `None` of `LinkedCollections.Option`, and every element node holds
`Some(e)`. A null element is therefore `Some` of some value and never meets
the sentinel's `None`. The source's checker cannot tell the two apart; see
`LinkedCollection.WellFormed` under "Left out".

Module layout:

- `failures.dfy`: the exception values.
- `links.dfy`:
  - the shared node class;
  - walks along `next` links on an arbitrary heap, with the pigeonhole and
    Floyd facts the checkers need;
  - the chain lemmas used to re-establish `Valid()` after a pointer update.
- `point_sequence.dfy`: `PointSequences.PointSequence`.
- `linked_collection.dfy`: `LinkedCollections.LinkedCollection`, its
  `MyIterator`, and client methods. The client methods drain the collection,
  show iterators going stale, and exhibit the checker bug described under
  "Findings".

## Model

| member | source | states |
|---|---|---|
| Links.Node.constructor | src/PointSequence.java:3-11 | A new node holds the given element and link. `data` is a `const`, as neither node class (also src/LinkedCollection.java:8-16) assigns it after construction; only `next` is updated. |
| PointSequences.PointSequence.constructor | src/PointSequence.java:127-135 | A new sequence is valid and empty, with no current element; `head`, `tail`, `cursor` and `precursor` are null and `manyNodes` is 0. |
| PointSequences.PointSequence.WellFormed | src/PointSequence.java:42-116 | Taken together, the checker's five checks return true exactly when `Shape()` holds. The chain from head is acyclic and has `manyNodes` nodes. `tail` is its last node, or null when it is empty. `precursor` is null or a chain node other than `tail`. `cursor` follows `precursor`, or is null or `head` when there is no precursor. A null cursor means a null precursor. |
| PointSequences.PointSequence.IsAcyclic | src/PointSequence.java:59-67 | Floyd's tortoise and hare on the chain from head. True: the chain reaches null. False: the walk never does, because it is a cycle. |
| PointSequences.PointSequence.TailIsLast | src/PointSequence.java:69-79 | On a finite chain, true exactly when `tail` is its last node, or null for an empty chain. Also gives the chain's length. |
| PointSequences.PointSequence.CountIsRight | src/PointSequence.java:81-90 | On a chain of `len` nodes, true exactly when `manyNodes == len`. This includes the early false for a null head with a non-zero count. |
| PointSequences.PointSequence.CursorsFit | src/PointSequence.java:91-112 | True exactly when the precursor and cursor conditions of the invariant hold. |
| PointSequences.PointSequence.ValidIsShape | src/PointSequence.java:42-116 | Every valid state passes the checker: its node set is closed under `next`, and `Shape()` holds. |
| PointSequences.PointSequence.WalkAlongNodes | src/PointSequence.java:86-88 | In a valid state, walking `k` links from head reaches `nodes[k]`, and null after the last node. |
| PointSequences.PointSequence.Size | src/PointSequence.java:145-150 | Returns the number of elements. |
| PointSequences.PointSequence.Start | src/PointSequence.java:160-166 | The first element becomes current, or there is none when the sequence is empty. The elements are unchanged. |
| PointSequences.PointSequence.IsCurrent | src/PointSequence.java:176-184 | True exactly when there is a current element. |
| PointSequences.PointSequence.GetCurrent | src/PointSequence.java:195-202 | Returns the current element, `elems[current]`. Without one it returns IllegalStateException. Nothing changes. |
| PointSequences.PointSequence.Advance | src/PointSequence.java:217-231 | Moves the current index on by one, which leaves no current element past the last. Without a current element: IllegalStateException and no change. The elements never change. |
| PointSequences.PointSequence.Append | src/PointSequence.java:246-265 | Inserts the element right after the current element, or at the front when there is none. The new element becomes current, and every other element keeps its order. |
| PointSequences.PointSequence.AppendAfterCursor | src/PointSequence.java:248-256 | The element is inserted at `current + 1`, which becomes the current index. |
| PointSequences.PointSequence.AppendAtFront | src/PointSequence.java:257-263 | The element is put in front of the elements and becomes current. |
| PointSequences.PointSequence.RemoveCurrent | src/PointSequence.java:279-306 | Deletes exactly the current node and its element; every other node keeps its place. The index stays, so the following element becomes current, or there is none after the last, and the precursor becomes the tail. A one-element sequence becomes empty. Without a current element: IllegalStateException and no change. |
| PointSequences.PointSequence.RemoveOnly | src/PointSequence.java:284-286 | A one-element sequence becomes empty. |
| PointSequences.PointSequence.RemoveHead | src/PointSequence.java:288-291 | Removing the current head of several nodes drops the first element. |
| PointSequences.PointSequence.RemoveTail | src/PointSequence.java:292-296 | Removing the current tail drops the last node and element. The precursor becomes the tail, and there is no current element. |
| PointSequences.PointSequence.RemoveInner | src/PointSequence.java:297-301 | Removing an inner current node drops its element, and the next one becomes current. |
| PointSequences.PointSequence.Clone | src/PointSequence.java:351-408 | Returns a valid copy built on fresh nodes only. It has the same elements in the same order and the same current index. The original is not modified. |
| PointSequences.PointSequence.CopyChain | src/PointSequence.java:372-403 | The copy loop. It builds a chain of fresh, distinct nodes holding the same elements, ending in null. The result's cursor and precursor sit on the copies of the original's. |
| PointSequences.PointSequence.CopyNext | src/PointSequence.java:389-400 | One step of the copy loop. A fresh node holding the same element is linked after the result's tail and becomes its tail. It takes over the cursor or precursor when the original node held them. |
| PointSequences.PointSequence.AddAll | src/PointSequence.java:319-339 | The addend's elements are added after this sequence's. The current element, cursor and precursor are unchanged. A distinct addend is unchanged; adding a sequence to itself appends a copy of its old elements. A null addend gives NullPointerException. |
| PointSequences.PointSequence.Copy | src/PointSequence.java:357 | `super.clone()`: a new object whose count, head, tail, cursor and precursor are the same references as the original's. |
| PointSequences.PointSequence.LinkAfterCursor | src/PointSequence.java:249-256 | A fresh node holding the element and linked to the cursor's old successor is linked after the cursor. It becomes the tail when the cursor was the tail. The old cursor becomes the precursor, the new node the cursor, and the count goes up by one. |
| PointSequences.PointSequence.LinkAtFront | src/PointSequence.java:258-262 | A fresh node holding the element and linked to the old head becomes head and cursor. It is also the tail when the sequence was empty. The count goes up by one. |
| PointSequences.PointSequence.LinkChain | src/PointSequence.java:327-337 | A non-empty sequence's tail is linked to the other head; an empty one takes the other head. The tail becomes the other tail unless that is null. The counts add up. Cursor and precursor are kept. |
| PointSequences.PointSequence.Splice | src/PointSequence.java:327-336 | Linking a sequence that owns its nodes after this one concatenates the elements. The current element is kept; a missing one stays missing, at the new end. |
| LinkedCollections.LinkedCollection.constructor | src/LinkedCollection.java:80-86 | A new collection is valid and empty, with `count` and `version` 0. Its tail is the dummy: it holds no element and links to itself. |
| LinkedCollections.LinkedCollection.WellFormed | src/LinkedCollection.java:49-72 | The checker, with the hare's double step made null-safe, returns true exactly when `RingShape()` holds. `tail` is not null. The walk from tail first comes back to tail after `count + 1` steps. The node after tail holds no element. |
| LinkedCollections.LinkedCollection.WellFormedAsWritten | src/LinkedCollection.java:49-72 | The checker as written. It throws NullPointerException exactly when the chain from tail is null-terminated with an even number of nodes. Otherwise it answers like `WellFormed`. |
| LinkedCollections.LinkedCollection.ComesBack | src/LinkedCollection.java:54-63 | The null-safe tortoise and hare. True: the walk from tail comes back to tail. False: it never does. |
| LinkedCollections.LinkedCollection.ComesBackAsWritten | src/LinkedCollection.java:54-63 | The tortoise and hare as written. NullPointerException exactly on an even-length null-terminated chain. True: the walk comes back to tail. False: it never does. |
| LinkedCollections.LinkedCollection.DummyAndCount | src/LinkedCollection.java:64-71 | On a walk that comes back to tail, true exactly when the node after tail is the dummy and the ring has `count + 1` nodes. |
| LinkedCollections.LinkedCollection.CountRing | src/LinkedCollection.java:65-69 | The node count is the length of the ring through tail. |
| LinkedCollections.LinkedCollection.WalkAroundRing | src/LinkedCollection.java:65-69 | In a valid state, one step from tail reaches the dummy, and step `k` reaches `nodes[k - 1]`. |
| LinkedCollections.LinkedCollection.ValidIsRingShape | src/LinkedCollection.java:49-72 | Every valid collection passes the checker: its node set is closed under `next`, and `RingShape()` holds. |
| LinkedCollections.LinkedCollection.Size | src/LinkedCollection.java:171-173 | Returns the number of elements. |
| LinkedCollections.LinkedCollection.Add | src/LinkedCollection.java:175-186 | Returns true and appends the element as the last one. `count` and `version` go up by one. The same dummy stays at `tail.next`. |
| LinkedCollections.LinkedCollection.LinkAtEnd | src/LinkedCollection.java:177-183 | A fresh node holding the element is linked between the tail and its old successor and becomes the tail. `count` and `version` go up by one. |
| LinkedCollections.LinkedCollection.Clear | src/LinkedCollection.java:188-195 | Leaves no elements; the dummy becomes the tail and links to itself. A non-empty collection's version goes up by one. An empty one is not changed at all, version included. |
| LinkedCollections.LinkedCollection.Iterator | src/LinkedCollection.java:166-168 | Returns a fresh, current iterator over this collection, before the first element. |
| LinkedCollections.MyIterator.constructor | src/LinkedCollection.java:118-123 | A new iterator has the collection's version. Its cursor and precursor are both at the dummy, so nothing has been returned and nothing may be removed. |
| LinkedCollections.MyIterator.WellFormed | src/LinkedCollection.java:94-112 | The iterator checker returns true exactly when `Shape()` holds. The collection has its ring shape and, while the versions agree, three things hold. The precursor is a node of the ring. The cursor is the precursor or the node after it. The cursor is the dummy only when it is the precursor. |
| LinkedCollections.MyIterator.ValidIsShape | src/LinkedCollection.java:94-112 | Every valid iterator passes the iterator checker. |
| LinkedCollections.MyIterator.HasNext | src/LinkedCollection.java:126-131 | Stale: ConcurrentModificationException. Otherwise: whether elements remain, `pos < |elems|`. That is the source's `cursor != tail`. |
| LinkedCollections.MyIterator.Next | src/LinkedCollection.java:134-141 | Stale: ConcurrentModificationException and no change. At the end: NoSuchElementException and no change. Otherwise it returns `elems[pos]`, moves on by one, and makes that element removable. |
| LinkedCollections.MyIterator.Remove | src/LinkedCollection.java:143-162 | Stale: ConcurrentModificationException. Nothing removable: IllegalStateException. Neither case changes anything. Otherwise it unlinks exactly the last element returned. `count` goes down by one, and `version` and `myVersion` both go up by one. A removed tail is replaced by the precursor. |
| LinkedCollections.MyIterator.RemoveInner | src/LinkedCollection.java:147-152 | Removing a node other than the tail drops its element. The tail stays. |
| LinkedCollections.MyIterator.RemoveLast | src/LinkedCollection.java:153-160 | Removing the tail drops the last element, and the precursor becomes the tail. |
| LinkedCollections.MyIterator.Unlink | src/LinkedCollection.java:148-152 | The precursor is linked past the cursor, which moves back to the precursor. The tail stays. `count` goes down by one, and `myVersion` and `version` go up by one. |
| LinkedCollections.MyIterator.UnlinkTail | src/LinkedCollection.java:154-159 | The precursor is linked past the cursor and becomes both the tail and the cursor. `count` goes down by one, and `myVersion` and `version` go up by one. |
| LinkedCollections.Elements | src/LinkedCollection.java:126-141 | A fresh iterator, asked for `next()` until `hasNext()` is false, returns exactly the elements, in insertion order. |
| LinkedCollections.RemoveEveryElement | src/LinkedCollection.java:143-162 | Removing every element through one iterator leaves the collection as `clear()` does: empty, with the dummy as tail, linked to itself. A new iterator then has no element. |
| LinkedCollections.RemoveMakesOthersStale | src/LinkedCollection.java:143-162 | For every collection, a successful remove through one iterator makes every other iterator over it stale, so it throws ConcurrentModificationException. The iterator that removed stays live. |
| LinkedCollections.AddMakesIteratorsStale | src/LinkedCollection.java:175-186 | For every collection, an `add` makes every iterator over it stale, so its `next()` throws ConcurrentModificationException. |
| LinkedCollections.ClearMakesIteratorsStale | src/LinkedCollection.java:188-195 | For every non-empty collection, `clear` makes every iterator over it stale, so its `hasNext()` throws ConcurrentModificationException. |
| LinkedCollections.DummyLinkedToNull | src/LinkedCollection.java:57-63 | On a broken ring tail → dummy → null, the checker as written throws NullPointerException, while the null-safe checker returns false. |
| Links.FloydTerminates | src/PointSequence.java:59-67 | On a finite closed node set, the tortoise (step `i`) and hare (step `2i + 1`) always stop: the hare or its successor is null, or they meet. |
| Links.WalkNeverNull | src/PointSequence.java:59-67 | A walk that revisits a node never reaches null. |
| Links.MeetingMeansNoReturn | src/LinkedCollection.java:57-63 | If tortoise and hare meet before the walk has come back to its start, it never comes back. |
| Links.NullMeansNoReturn | src/LinkedCollection.java:57-63 | A walk that reaches null never comes back to its start. |
| Links.LinkedInsert | src/PointSequence.java:249-250 | Relinking one node to a new node, which links on to the old successor, gives the chain with the new node inserted. |
| Links.LinkedBypass | src/PointSequence.java:298 | Linking a node to its successor's successor gives the chain without that successor. |

## Left out

- The `report` method, `doReport` and their printing are left out. A checker
  model returns false without a message.
- `OutOfMemoryError` is left out, because allocation always succeeds in Dafny.
- Clone's `CloneNotSupportedException` cannot happen: the class implements
  `Cloneable`. `super.clone()` is modelled by the constructor
  `PointSequence.Copy`, a field-by-field shallow copy.
- The private "do not use" test constructors are left out. So are the
  `AbstractCollection` methods that LinkedCollection inherits without
  overriding them.
- Integer width is not modelled: `manyNodes`, `count`, `version`,
  `myVersion` and the checkers' node counters are unbounded. Java would wrap
  them at 2^31. A `version` that wraps all the way round after 2^32
  mutations could make a stale iterator look current. A list of more than
  2^31 nodes would make a node counter wrap.
- `assert wellFormed()` at entry and exit becomes `requires Valid()` and
  `ensures Valid()`. Each `ValidIsShape`/`ValidIsRingShape` lemma proves
  that a valid state passes its checker. `clear()` has no such assertion in
  the source, but `Clear` is still proved to keep `Valid()`.
- `PointSequences.PointSequence.AddAll`: the source first calls
  `addend.wellFormed()` and only then tests for null. With a null addend
  both throw `NullPointerException`, so the model tests for null alone.
- `PointSequences.PointSequence.AddAll`: its precondition requires an
  addend that is either this sequence or owns nodes disjoint from this one's.
  In the source every sequence owns its private nodes, so this always holds.
- `LinkedCollections.MyIterator.WellFormed` calls the null-safe collection
  checker. The source calls the as-written one (line 96), and that one can
  throw; see "Findings".
- `LinkedCollections.LinkedCollection.WellFormed`: line 64 accepts any node
  after `tail` whose data
  is null, including an element node that holds a null element, for example
  `tail = A(x) → B(null) → A` with `count` 1. The model's `RingShape` asks
  for the sentinel's `None` there. `DummyAndCount`, which makes that test,
  returns false on such a heap, so the model's checker rejects it while the
  source accepts it. A null element stored in a valid collection is
  unaffected, because the dummy is then still the node after `tail`.
- `LinkedCollections.LinkedCollection.WellFormedAsWritten`: the same gap at
  line 64. It answers through `DummyAndCount` too, so it returns false on a
  ring whose node after `tail` holds a null element, where the source
  returns true.
- `LinkedCollections.MyIterator.Valid` includes `myVersion <= version`.
  The source's checker does not test this. It follows from how the two
  counters move, and it is what makes every other iterator stale after a
  mutation.
- Aliasing between collections is left out. An iterator is not part of its
  collection's representation (`this !in coll.Repr` in `MyIterator.Valid`).
  No two sequences share nodes (`AddAll` and `Splice` require disjoint
  `Repr`s).
- `Repr` only grows: nodes that are unlinked, and the clone that `addAll`
  splices in, stay in it. This is sound, but it makes the disjointness that
  `AddAll` requires of a later addend stronger than the source needs.

## Findings

| source | as written | input that shows it | evidently intended | confidence | as-written member | corrected member |
|---|---|---|---|---|---|---|
| src/LinkedCollection.java:57-63 | The hare steps with `rabbit = rabbit.next.next` after testing only `rabbit` for null. | Any chain from `tail` that ends in null after an even number of nodes, for example `tail → dummy → null`. `rabbit.next` is null, so `wellFormed` throws NullPointerException. | Report the broken list by returning false, as the comment at lines 40-43 describes: stop if we hit null. | not executed | LinkedCollections.LinkedCollection.WellFormedAsWritten, LinkedCollections.DummyLinkedToNull | LinkedCollections.LinkedCollection.WellFormed |
