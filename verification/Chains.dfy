/** Singly linked lists on the heap: the bucket lists of src/hash.cc, and List::nreverse. */
module Chains {
  import opened Buckets

  class Node<K, V> {
    var key: K
    var value: V
    var next: Node?<K, V>
    /** The bucket this node was made for. */
    ghost const bucket: int

    constructor (k: K, v: V, tail: Node?<K, V>, ghost b: int)
      ensures key == k && value == v && next == tail && bucket == b
    {
      key, value, next, bucket := k, v, tail, b;
    }
  }

  function After<K, V>(spine: seq<Node<K, V>>, a: nat): Node?<K, V> {
    if a + 1 < |spine| then spine[a + 1] else null
  }

  /** The nodes from head, in order, are those of spine. */
  ghost predicate Chain<K, V>(head: Node?<K, V>, spine: seq<Node<K, V>>)
    reads spine`next
  {
    && head == (if |spine| == 0 then null else spine[0])
    && forall a: nat :: a < |spine| ==> spine[a].next == After(spine, a)
  }

  ghost function Items<K, V>(spine: seq<Node<K, V>>): (s: seq<(K, V)>)
    reads spine`key, spine`value
    ensures |s| == |spine| && forall a: nat :: a < |spine| ==> s[a] == (spine[a].key, spine[a].value)
  {
    if |spine| == 0 then [] else [(spine[0].key, spine[0].value)] + Items(spine[1..])
  }

  /** No node occurs twice in a chain. */
  lemma {:induction false} ChainDistinct<K, V>(head: Node?<K, V>, spine: seq<Node<K, V>>, a: nat, c: nat)
    requires Chain(head, spine) && a < c < |spine|
    ensures spine[a] != spine[c]
    decreases |spine| - c
  {
    assert spine[a].next == After(spine, a) && spine[c].next == After(spine, c);
    if c + 1 < |spine| {
      ChainDistinct(head, spine, a + 1, c + 1);
    }
  }

  lemma ChainCons<K, V>(node: Node<K, V>, head: Node?<K, V>, spine: seq<Node<K, V>>)
    requires Chain(head, spine) && node.next == head
    ensures Chain(node, [node] + spine) && Items([node] + spine) == [(node.key, node.value)] + Items(spine)
  {
    assert ([node] + spine)[1..] == spine;
    forall a: nat | a < |[node] + spine|
      ensures ([node] + spine)[a].next == After([node] + spine, a)
    {
      if a > 0 {
        assert ([node] + spine)[a] == spine[a - 1];
        assert spine[a - 1].next == After(spine, a - 1);
      }
    }
  }

  /** Search a chain for a key. */
  method FindIn<K(==), V>(head: Node?<K, V>, ghost spine: seq<Node<K, V>>, x: K)
    returns (p: Node?<K, V>, ghost at: nat)
    requires Chain(head, spine)
    ensures at <= |spine| && p == (if at < |spine| then spine[at] else null)
    ensures p != null ==> p.key == x
    ensures forall a: nat :: a < at ==> spine[a].key != x
  {
    p, at := head, 0;
    while p != null
      invariant at <= |spine| && p == (if at < |spine| then spine[at] else null)
      invariant forall a: nat :: a < at ==> spine[a].key != x
      decreases |spine| - at
    {
      if p.key == x {
        break;
      }
      p, at := p.next, at + 1;
    }
  }

  /** Take the node at a out of a chain, between its predecessor and its successor. */
  method UnlinkAfter<K, V>(p: Node<K, V>, ghost head: Node?<K, V>, ghost spine: seq<Node<K, V>>, ghost a: nat)
    requires Chain(head, spine) && a + 1 < |spine| && p == spine[a]
    modifies p`next
    ensures Chain(head, spine[..a + 1] + spine[a + 2..])
  {
    forall c: nat | c < |spine| && c != a
      ensures spine[c] != p
    {
      if c < a { ChainDistinct(head, spine, c, a); } else { ChainDistinct(head, spine, a, c); }
    }
    assert p.next == After(spine, a) && spine[a + 1].next == After(spine, a + 1);
    p.next := p.next.next;
    ghost var shorter := spine[..a + 1] + spine[a + 2..];
    forall c: nat | c < |shorter|
      ensures shorter[c].next == After(shorter, c)
    {
      assert shorter[c] == if c <= a then spine[c] else spine[c + 1];
    }
  }

  lemma NextIs<K, V>(head: Node?<K, V>, spine: seq<Node<K, V>>, a: nat)
    requires Chain(head, spine) && a < |spine|
    ensures spine[a].next == After(spine, a)
  {
  }

  lemma ChainTail<K, V>(head: Node<K, V>, spine: seq<Node<K, V>>)
    requires Chain(head, spine)
    ensures |spine| > 0 && head == spine[0] && Chain(head.next, spine[1..])
  {
    assert spine[0].next == After(spine, 0);
    forall c: nat | c < |spine| - 1
      ensures spine[1..][c].next == After(spine[1..], c)
    {
      assert spine[1..][c] == spine[c + 1];
    }
  }

  /** The loop of `remove`, behind the first node: the node before the first one with key x. */
  method FindBefore<K(==), V>(head: Node<K, V>, ghost spine: seq<Node<K, V>>, x: K)
    returns (p: Node?<K, V>, ghost at: nat)
    requires Chain(head, spine) && head.key != x
    ensures 0 < at <= |spine| && (at < |spine| ==> spine[at].key == x)
    ensures p == if at < |spine| then spine[at - 1] else null
    ensures forall a: nat :: a < at ==> spine[a].key != x
    ensures p != null ==> p in spine && p.next != null && p.next.key == x
    ensures p == null <==> forall node :: node in spine ==> node.key != x
  {
    p, at := head, 1;
    NextIs(head, spine, 0);
    while p != null && p.next != null
      invariant 0 < at <= |spine| && p == spine[at - 1] && p.next == After(spine, at - 1)
      invariant forall b: nat :: b < at ==> spine[b].key != x
      decreases |spine| - at
    {
      if p.next.key == x {
        return;
      }
      NextIs(head, spine, at);
      p, at := p.next, at + 1;
    }
    p := null;
  }

  method RemoveLater<K(==), V>(head: Node<K, V>, ghost spine: seq<Node<K, V>>, x: K) returns (ghost at: nat)
    requires Chain(head, spine) && head.key != x
    modifies spine`next
    ensures 0 < at <= |spine| && (at < |spine| ==> spine[at].key == x)
    ensures forall a: nat :: a < at ==> spine[a].key != x
    ensures Chain(head, Without(spine, at))
  {
    hide Chain;
    var p;
    p, at := FindBefore(head, spine, x);
    if p != null {
      UnlinkAfter(p, head, spine, at - 1);
    }
  }

  /** Remove the first node with key x, if there is one. The source looks at the first node without a test;
      ok is whether there is one. */
  method RemoveFrom<K(==), V>(head: Node?<K, V>, ghost spine: seq<Node<K, V>>, x: K)
    returns (ok: bool, newHead: Node?<K, V>, ghost at: nat)
    requires Chain(head, spine)
    modifies spine`next
    ensures ok <==> spine != []
    ensures at <= |spine| && (at < |spine| ==> spine[at].key == x)
    ensures forall a: nat :: a < at ==> spine[a].key != x
    ensures Chain(newHead, Without(spine, at))
  {
    ok := head != null;
    if !ok {
      newHead, at := null, 0;
      return;
    }
    ChainTail(head, spine);
    hide Chain;
    if head.key == x {
      newHead, at := head.next, 0;
      assert spine[..0] + spine[1..] == spine[1..];
    } else {
      newHead := head;
      at := RemoveLater(head, spine, x);
    }
  }

  // ---------------------------------------------------------------- nreverse

  function Reversed<T>(s: seq<T>): (r: seq<T>)
    ensures |r| == |s| && forall i: nat :: i < |s| ==> r[i] == s[|s| - 1 - i]
  {
    if |s| == 0 then [] else Reversed(s[1..]) + [s[0]]
  }

  /** The nodes from done on still point to their successors, those between the first and done to their
      predecessors. */
  ghost predicate Turned<K, V>(spine: seq<Node<K, V>>, done: nat)
    reads spine
  {
    && (forall a: nat :: done <= a < |spine| ==> spine[a].next == After(spine, a))
    && (forall a: nat :: 1 <= a < done && a < |spine| ==> spine[a].next == spine[a - 1])
  }

  ghost predicate Distinct<T>(s: seq<T>) {
    forall a: nat, c: nat :: a < c < |s| ==> s[a] != s[c]
  }

  lemma TurnedNext<K, V>(spine: seq<Node<K, V>>, done: nat)
    requires Turned(spine, done) && done < |spine|
    ensures spine[done].next == After(spine, done)
  {
  }

  /** `point->tail() = prev;`. */
  method TurnOne<K, V>(point: Node<K, V>, prev: Node<K, V>, ghost spine: seq<Node<K, V>>, ghost done: nat)
    requires Turned(spine, done) && Distinct(spine) && 1 <= done < |spine| && point == spine[done] && prev == spine[done - 1]
    modifies point`next
    ensures Turned(spine, done + 1)
  {
    DistinctFrom(spine, done);
    hide Distinct;
    point.next := prev;
  }

  lemma DistinctFrom<T>(s: seq<T>, i: nat)
    requires Distinct(s) && i < |s|
    ensures forall a: nat :: a < |s| && a != i ==> s[a] != s[i]
  {
  }

  /** `this->tail() = NULL;` completes the reversal. */
  method TurnFirst<K, V>(self: Node<K, V>, ghost spine: seq<Node<K, V>>)
    requires Turned(spine, |spine|) && Distinct(spine) && |spine| > 0 && self == spine[0]
    modifies self`next
    ensures Chain(spine[|spine| - 1], Reversed(spine))
  {
    DistinctFrom(spine, 0);
    hide Distinct;
    self.next := null;
    ghost var rev := Reversed(spine);
    forall a: nat | a < |rev|
      ensures rev[a].next == After(rev, a)
    {
      assert rev[a] == spine[|spine| - 1 - a];
      assert a + 1 < |rev| ==> spine[|spine| - 1 - a].next == spine[|spine| - 2 - a];
    }
  }

  /** Reverse a non-empty chain in place: same nodes, opposite order. */
  method NReverse<K, V>(self: Node<K, V>, ghost spine: seq<Node<K, V>>) returns (r: Node<K, V>)
    requires Chain(self, spine)
    modifies spine`next
    ensures Chain(r, Reversed(spine))
  {
    NextIs(self, spine, 0);
    if self.next == null {
      return self;
    }
    NextIs(self, spine, 1);
    forall a: nat, c: nat | a < c < |spine|
      ensures spine[a] != spine[c]
    {
      ChainDistinct(self, spine, a, c);
    }
    assert Distinct(spine) && Turned(spine, 1) && self == spine[0];
    hide Chain, Distinct, Turned;
    var prev, point, next := self, self.next, self.next.next;
    ghost var done := 1;
    while true
      invariant 1 <= done < |spine| && Turned(spine, done)
      invariant prev == spine[done - 1] && point == spine[done] && next == After(spine, done)
      decreases |spine| - done
    {
      TurnOne(point, prev, spine, done);
      if next == null {
        TurnFirst(self, spine);
        return point;
      }
      TurnedNext(spine, done + 1);
      prev, point, next := point, next, next.next;
      done := done + 1;
    }
  }
}
