/**
 * The node shape shared by both collections, and facts about walking a chain of
 * nodes along their `next` links on an arbitrary (possibly corrupted) heap.
 * These facts are what the two structural checkers (Floyd's tortoise and hare)
 * rely on.
 */
module Links {

  /**
   * A node: one element slot and one forward link. PointSequence.java and
   * LinkedCollection.java each declare a private class of exactly this shape.
   */
  class Node<T> {
    const data: T
    var next: Node?<T>

    constructor (data: T, next: Node?<T>)
      ensures this.data == data && this.next == next
    {
      this.data := data;
      this.next := next;
    }
  }

  /** The node reached from `n` after `k` steps along `next`; null once the chain has ended. */
  ghost function Walk<T>(n: Node?<T>, k: nat): Node?<T>
    reads *
    decreases k
  {
    if k == 0 || n == null then n else Walk(n.next, k - 1)
  }

  /** The chain from `n` has exactly `len` nodes: the first `len` exist and the next link is null. */
  ghost predicate EndsAt<T>(n: Node?<T>, len: nat)
    reads *
  {
    Walk(n, len) == null && forall k :: 0 <= k < len ==> Walk(n, k) != null
  }

  /** `x` is one of the first `len` nodes of the walk from `n`. */
  ghost predicate Reaches<T>(n: Node?<T>, len: nat, x: Node?<T>)
    reads *
  {
    exists j :: 0 <= j < len && Walk(n, j) == x
  }

  /** No link leaves `S`: the finite part of the heap that a walk from a node of `S` stays in. */
  ghost predicate Closed<T>(S: set<Node<T>>)
    reads S
  {
    forall m :: m in S ==> m.next == null || m.next in S
  }

  /** One more step of a walk follows one more link. */
  lemma {:induction false} WalkNext<T>(n: Node?<T>, k: nat)
    requires Walk(n, k) != null
    ensures Walk(n, k + 1) == Walk(n, k).next
    decreases k
  {
    if k > 0 {
      WalkNext(n.next, k - 1);
    }
  }

  /** Walking `a + b` steps is walking `a` steps and then `b` more. */
  lemma {:induction false} WalkAdd<T>(n: Node?<T>, a: nat, b: nat)
    ensures Walk(n, a + b) == Walk(Walk(n, a), b)
    decreases a
  {
    if a > 0 && n != null {
      WalkAdd(n.next, a - 1, b);
    }
  }

  /** Once a walk has reached null it stays there. */
  lemma WalkNullStays<T>(n: Node?<T>, a: nat, b: nat)
    requires a <= b && Walk(n, a) == null
    ensures Walk(n, b) == null
  {
    WalkAdd(n, a, b - a);
  }

  /** A node that is reached at step `b` was preceded by real nodes at every earlier step. */
  lemma WalkNonNullBefore<T>(n: Node?<T>, a: nat, b: nat)
    requires a <= b && Walk(n, b) != null
    ensures Walk(n, a) != null
  {
    if Walk(n, a) == null {
      WalkNullStays(n, a, b);
    }
  }

  /** A position that still holds a node comes before any position that is null. */
  lemma BeforeEnd<T>(n: Node?<T>, a: nat, b: nat)
    requires Walk(n, a) != null && Walk(n, b) == null
    ensures a < b
  {
    if b <= a {
      WalkNullStays(n, b, a);
    }
  }

  /** A walk that starts in a closed set never leaves it. */
  lemma {:induction false} WalkInside<T>(S: set<Node<T>>, n: Node?<T>, k: nat)
    requires Closed(S) && (n == null || n in S)
    ensures Walk(n, k) == null || Walk(n, k) in S
    decreases k
  {
    if k > 0 && n != null {
      WalkInside(S, n.next, k - 1);
    }
  }

  /** Two positions that reach the same node stay in step afterwards. */
  lemma WalkShift<T>(n: Node?<T>, a: nat, b: nat, t: nat)
    requires Walk(n, a) == Walk(n, b)
    ensures Walk(n, a + t) == Walk(n, b + t)
  {
    WalkAdd(n, a, t);
    WalkAdd(n, b, t);
  }

  /** If the walk repeats with period `p` from position `a`, it repeats with every multiple of `p` from there on. */
  lemma {:induction false} WalkPeriodic<T>(n: Node?<T>, a: nat, p: nat, i: nat, q: nat)
    requires a <= i && Walk(n, a) == Walk(n, a + p)
    ensures Walk(n, i + q * p) == Walk(n, i)
    decreases q
  {
    if q > 0 {
      WalkPeriodic(n, a, p, i, q - 1);
      assert i + (q - 1) * p + p == i + q * p;
      WalkShift(n, a, a + p, i + (q - 1) * p - a);
    }
  }

  lemma MulAtLeast(k: nat, d: nat)
    requires d >= 1
    ensures k * d >= k
  {
    assert k * d == k * (d - 1) + k;
  }

  /** A walk that comes back to a node it has visited is a cycle: it never reaches null. */
  lemma WalkNeverNull<T>(n: Node?<T>, a: nat, b: nat)
    requires a < b && Walk(n, a) == Walk(n, b) && Walk(n, a) != null
    ensures forall k: nat :: Walk(n, k) != null
  {
    forall k: nat
      ensures Walk(n, k) != null
    {
      WalkPeriodic(n, a, b - a, a, k);
      MulAtLeast(k, b - a);
      if Walk(n, k) == null {
        WalkNullStays(n, k, a + k * (b - a));
      }
    }
  }

  /**
   * On a ring through `n` of length `p`, a node met again after `d` more steps
   * means that `n` itself comes back after `d` steps.
   */
  lemma CycleReturn<T>(n: Node?<T>, p: nat, x: nat, d: nat)
    requires p > 0 && Walk(n, p) == n && Walk(n, x) == Walk(n, x + d)
    ensures Walk(n, d) == n
  {
    WalkPeriodic(n, 0, p, 0, x);
    MulAtLeast(x, p);
    WalkShift(n, x, x + d, x * p - x);
    WalkPeriodic(n, 0, p, d, x);
  }

  /** A sequence longer than the set its elements come from holds some element twice. */
  lemma {:induction false} Pigeonhole<X>(s: seq<X>, S: set<X>)
    requires forall i :: 0 <= i < |s| ==> s[i] in S
    requires |s| > |S|
    ensures exists a, b :: 0 <= a < b < |s| && s[a] == s[b]
    decreases |s|
  {
    var x := s[0];
    if b :| 1 <= b < |s| && s[b] == x {
      assert s[0] == s[b];
    } else {
      var t := s[1..];
      forall i | 0 <= i < |t|
        ensures t[i] in S - {x}
      {
        assert t[i] == s[i + 1];
      }
      Pigeonhole(t, S - {x});
      var a, b :| 0 <= a < b < |t| && t[a] == t[b];
      assert s[a + 1] == s[b + 1];
    }
  }

  /** The first `len` nodes of the walk from `n`. */
  ghost function Trace<T>(n: Node?<T>, len: nat): (r: seq<Node?<T>>)
    reads *
    ensures |r| == len && forall k :: 0 <= k < len ==> r[k] == Walk(n, k)
  {
    if len == 0 then [] else Trace(n, len - 1) + [Walk(n, len - 1)]
  }

  /**
   * Position `i` is where a tortoise at step `i` and a hare at step `2i + 1`
   * stop: the hare (or its next node) is null, or the two meet.
   */
  ghost predicate FloydStop<T>(n: Node?<T>, i: nat)
    reads *
  {
    Walk(n, 2 * i + 1) == null || Walk(n, 2 * i + 2) == null || Walk(n, i) == Walk(n, 2 * i + 1)
  }

  /**
   * Floyd's cycle detection stops on a finite heap: from any node of a closed
   * set, the hare reaches null or meets the tortoise.
   */
  lemma FloydTerminates<T>(S: set<Node<T>>, n: Node<T>)
    requires Closed(S) && n in S
    ensures exists i: nat :: FloydStop(n, i)
  {
    if k: nat :| Walk(n, k) == null {
      var i := k / 2;
      WalkNullStays(n, k, 2 * i + 1);
      assert FloydStop(n, i);
    } else {
      var s := Trace(n, |S| + 1);
      var S': set<Node?<T>> := S;
      forall j | 0 <= j < |s|
        ensures s[j] in S'
      {
        WalkInside(S, n, j);
      }
      Pigeonhole(s, S');
      var a, b :| 0 <= a < b < |s| && s[a] == s[b];
      var p := b - a;
      MulAtLeast(a + 1, p);
      var i: nat := (a + 1) * p - 1;
      WalkPeriodic(n, a, p, i, a + 1);
      assert 2 * i + 1 == i + (a + 1) * p;
      assert FloydStop(n, i);
    }
  }

  /** The walk from `n` first comes back to `n` after `len` steps: a ring of `len` nodes through `n`. */
  ghost predicate CyclesAt<T>(n: Node?<T>, len: nat)
    reads *
  {
    0 < len && Walk(n, len) == n && forall k :: 0 < k < len ==> Walk(n, k) != n
  }

  /** The chain from `n` ends in null after an even number of nodes. */
  ghost predicate EvenChain<T>(n: Node?<T>)
    reads *
  {
    exists m: nat :: m % 2 == 0 && EndsAt(n, m)
  }

  /** A chain has one length. */
  lemma EndsAtUnique<T>(n: Node?<T>, a: nat, b: nat)
    requires EndsAt(n, a) && EndsAt(n, b)
    ensures a == b
  {
  }

  /** A ring has one length. */
  lemma CyclesAtUnique<T>(n: Node?<T>, a: nat, b: nat)
    requires CyclesAt(n, a) && CyclesAt(n, b)
    ensures a == b
  {
  }

  /** A walk that meets null never comes back to its start. */
  lemma NullMeansNoReturn<T>(n: Node<T>, m: nat)
    requires Walk(n, m) == null
    ensures forall k: nat :: 0 < k ==> Walk(n, k) != n
  {
    forall k: nat | 0 < k
      ensures Walk(n, k) != n
    {
      if Walk(n, k) == n {
        WalkNeverNull(n, 0, k);
      }
    }
  }

  /**
   * A tortoise at step `t` that meets the hare at step `2t + 1`, before the
   * walk has come back to `n`, shows that it never comes back.
   */
  lemma MeetingMeansNoReturn<T>(n: Node?<T>, t: nat)
    requires Walk(n, t) == Walk(n, 2 * t + 1)
    requires forall k :: 0 < k <= t + 1 ==> Walk(n, k) != n
    ensures forall k: nat :: 0 < k ==> Walk(n, k) != n
  {
    forall k: nat | 0 < k
      ensures Walk(n, k) != n
    {
      if Walk(n, k) == n {
        CycleReturn(n, k, t, t + 1);
      }
    }
  }

  /** Positions `i` and `j` of `s` hold different elements. */
  ghost predicate Apart<X>(s: seq<X>, i: int, j: int)
    requires 0 <= i < |s| && 0 <= j < |s|
  {
    s[i] != s[j]
  }

  /**
   * No element occurs twice. A proof learns that two positions differ by
   * mentioning `Apart(s, i, j)`.
   */
  ghost predicate Distinct<X>(s: seq<X>) {
    forall i, j {:trigger Apart(s, i, j)} :: 0 <= i < |s| && 0 <= j < |s| && i != j ==> Apart(s, i, j)
  }

  /** The node after position `i` of a chain `ns` that ends at `end`. */
  ghost function Successor<T>(ns: seq<Node<T>>, i: int, end: Node?<T>): Node?<T>
    requires 0 <= i < |ns|
  {
    if i + 1 < |ns| then ns[i + 1] else end
  }

  /**
   * Each node of `ns` links to the one after it, and the last one links to
   * `end`. A proof learns the link at position `i` by mentioning
   * `Successor(ns, i, end)`.
   */
  ghost predicate Linked<T>(ns: seq<Node<T>>, end: Node?<T>)
    reads ns
  {
    forall i {:trigger Successor(ns, i, end)} :: 0 <= i < |ns| ==> ns[i].next == Successor(ns, i, end)
  }

  /** The nodes hold the elements `xs`, in order. */
  ghost predicate Carries<T>(ns: seq<Node<T>>, xs: seq<T>) {
    |ns| == |xs| && forall i :: 0 <= i < |ns| ==> ns[i].data == xs[i]
  }

  lemma DistinctInsert<X>(s: seq<X>, k: nat, x: X)
    requires Distinct(s) && x !in s && k <= |s|
    ensures Distinct(s[..k] + [x] + s[k..])
  {
    var t := s[..k] + [x] + s[k..];
    forall i, j | 0 <= i < |t| && 0 <= j < |t| && i != j
      ensures Apart(t, i, j)
    {
      var i', j' := if i < k then i else i - 1, if j < k then j else j - 1;
      if i != k && j != k {
        assert t[i] == s[i'] && t[j] == s[j'] && Apart(s, i', j');
      } else {
        assert t[i] == (if i == k then x else s[i']) && t[j] == (if j == k then x else s[j']);
      }
    }
  }

  lemma DistinctRemove<X>(s: seq<X>, k: nat)
    requires Distinct(s) && k < |s|
    ensures Distinct(s[..k] + s[k + 1..])
  {
    var t := s[..k] + s[k + 1..];
    forall i, j | 0 <= i < |t| && 0 <= j < |t| && i != j
      ensures Apart(t, i, j)
    {
      var i', j' := if i < k then i else i + 1, if j < k then j else j + 1;
      assert t[i] == s[i'] && t[j] == s[j'] && Apart(s, i', j');
    }
  }

  lemma DistinctConcat<X>(a: seq<X>, b: seq<X>)
    requires Distinct(a) && Distinct(b)
    requires forall x :: x in a ==> x !in b
    ensures Distinct(a + b)
  {
    var t := a + b;
    forall i, j | 0 <= i < |t| && 0 <= j < |t| && i != j
      ensures Apart(t, i, j)
    {
      if i < |a| && j < |a| {
        assert t[i] == a[i] && t[j] == a[j] && Apart(a, i, j);
      } else if |a| <= i && |a| <= j {
        assert t[i] == b[i - |a|] && t[j] == b[j - |a|] && Apart(b, i - |a|, j - |a|);
      } else if i < |a| {
        assert t[i] in a && t[j] == b[j - |a|];
      } else {
        assert t[j] in a && t[i] == b[i - |a|];
      }
    }
  }

  lemma CarriesInsert<T>(ns: seq<Node<T>>, xs: seq<T>, k: nat, x: Node<T>)
    requires Carries(ns, xs) && k <= |ns|
    ensures Carries(ns[..k] + [x] + ns[k..], xs[..k] + [x.data] + xs[k..])
  {
    var t, u := ns[..k] + [x] + ns[k..], xs[..k] + [x.data] + xs[k..];
    forall i | 0 <= i < |t|
      ensures t[i].data == u[i]
    {
      if i < k {
        assert t[i] == ns[i] && u[i] == xs[i];
      } else if k < i {
        assert t[i] == ns[i - 1] && u[i] == xs[i - 1];
      }
    }
  }

  lemma CarriesRemove<T>(ns: seq<Node<T>>, xs: seq<T>, k: nat)
    requires Carries(ns, xs) && k < |ns|
    ensures Carries(ns[..k] + ns[k + 1..], xs[..k] + xs[k + 1..])
  {
    var t, u := ns[..k] + ns[k + 1..], xs[..k] + xs[k + 1..];
    forall i | 0 <= i < |t|
      ensures t[i].data == u[i]
    {
      if i < k {
        assert t[i] == ns[i] && u[i] == xs[i];
      } else {
        assert t[i] == ns[i + 1] && u[i] == xs[i + 1];
      }
    }
  }

  lemma CarriesConcat<T>(ns: seq<Node<T>>, xs: seq<T>, ms: seq<Node<T>>, ys: seq<T>)
    requires Carries(ns, xs) && Carries(ms, ys)
    ensures Carries(ns + ms, xs + ys)
  {
    forall i | |ns| <= i < |ns| + |ms|
      ensures (ns + ms)[i].data == (xs + ys)[i]
    {
      assert (ns + ms)[i] == ms[i - |ns|];
    }
  }

  /**
   * Linking `x` in after position `c` of a chain whose other links are as
   * before: the chain grows by `x`.
   */
  lemma LinkedInsert<T>(ns: seq<Node<T>>, c: nat, x: Node<T>, end: Node?<T>)
    requires c < |ns|
    requires forall i {:trigger Successor(ns, i, end)} :: 0 <= i < |ns| && i != c ==> ns[i].next == Successor(ns, i, end)
    requires ns[c].next == x && x.next == Successor(ns, c, end)
    ensures Linked(ns[..c + 1] + [x] + ns[c + 1..], end)
  {
    var t := ns[..c + 1] + [x] + ns[c + 1..];
    forall i | 0 <= i < |t|
      ensures t[i].next == Successor(t, i, end)
    {
      if i < c {
        assert t[i] == ns[i] && Successor(t, i, end) == Successor(ns, i, end);
      } else if i == c {
        assert t[i] == ns[c] && t[i + 1] == x;
      } else if i == c + 1 {
        assert t[i] == x && Successor(t, i, end) == Successor(ns, c, end);
      } else {
        assert t[i] == ns[i - 1] && Successor(t, i, end) == Successor(ns, i - 1, end);
      }
    }
  }

  /**
   * Pointing the node before position `c` past it, the links other than
   * those two as before: the chain loses the node at `c`.
   */
  lemma LinkedBypass<T>(ns: seq<Node<T>>, c: nat, end: Node?<T>)
    requires 0 < c < |ns|
    requires forall i {:trigger Successor(ns, i, end)} :: 0 <= i < |ns| && i != c - 1 && i != c ==>
               ns[i].next == Successor(ns, i, end)
    requires ns[c - 1].next == Successor(ns, c, end)
    ensures Linked(ns[..c] + ns[c + 1..], end)
  {
    var t := ns[..c] + ns[c + 1..];
    forall i | 0 <= i < |t|
      ensures t[i].next == Successor(t, i, end)
    {
      if i < c - 1 {
        assert t[i] == ns[i] && Successor(t, i, end) == Successor(ns, i, end);
      } else if i == c - 1 {
        assert t[i] == ns[c - 1] && Successor(t, i, end) == Successor(ns, c, end);
      } else {
        assert t[i] == ns[i + 1] && Successor(t, i, end) == Successor(ns, i + 1, end);
      }
    }
  }

  /** A chain whose links after the first node are as before, without its first node. */
  lemma LinkedDrop<T>(ns: seq<Node<T>>, end: Node?<T>)
    requires |ns| > 0
    requires forall i {:trigger Successor(ns, i, end)} :: 0 < i < |ns| ==> ns[i].next == Successor(ns, i, end)
    ensures Linked(ns[1..], end)
  {
    var t := ns[1..];
    forall i | 0 <= i < |t|
      ensures t[i].next == Successor(t, i, end)
    {
      assert t[i] == ns[i + 1] && Successor(t, i, end) == Successor(ns, i + 1, end);
    }
  }

  /** A chain that ends at `b`'s first node, followed by the chain `b`. */
  lemma LinkedConcat<T>(a: seq<Node<T>>, b: seq<Node<T>>, end: Node?<T>)
    requires Linked(a, if |b| == 0 then end else b[0]) && Linked(b, end)
    ensures Linked(a + b, end)
  {
    var t, e := a + b, if |b| == 0 then end else b[0];
    forall i | 0 <= i < |t|
      ensures t[i].next == Successor(t, i, end)
    {
      if i < |a| {
        assert t[i] == a[i] && Successor(t, i, end) == Successor(a, i, e);
      } else {
        assert t[i] == b[i - |a|] && Successor(t, i, end) == Successor(b, i - |a|, end);
      }
    }
  }

  /** A chain that ends at `x`, followed by `x`. */
  lemma LinkedSnoc<T>(ns: seq<Node<T>>, x: Node<T>, end: Node?<T>)
    requires Linked(ns, x) && x.next == end
    ensures Linked(ns + [x], end)
  {
    var t := ns + [x];
    forall i | 0 <= i < |t|
      ensures t[i].next == Successor(t, i, end)
    {
      if i < |ns| {
        assert t[i] == ns[i] && Successor(t, i, end) == Successor(ns, i, x);
      }
    }
  }
}
