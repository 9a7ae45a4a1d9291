/**
 * `SpanList`: a circular doubly linked list with a sentinel, on heap nodes.
 * `nodes` is the list as the page and central caches see it, front first.
 */
module SpanLists {
  import opened Seqs

  class SpanNode {
    var next: SpanNode?
    var prev: SpanNode?

    constructor ()
      ensures next == null && prev == null
    {
      next, prev := null, null;
    }
  }

  ghost predicate Linked(ring: seq<SpanNode>)
    requires ring != []
    reads ring
  {
    && (forall i {:trigger ring[i].next} | 0 <= i < |ring| - 1 :: ring[i].next == ring[i + 1])
    && (forall i {:trigger ring[i].prev} | 0 < i < |ring| :: ring[i].prev == ring[i - 1])
    && ring[|ring| - 1].next == ring[0]
    && ring[0].prev == ring[|ring| - 1]
  }

  class SpanList {
    var head: SpanNode
    /** The sentinel followed by the nodes. */
    ghost var ring: seq<SpanNode>

    ghost function Nodes(): seq<SpanNode>
      requires ring != []
      reads this
    {
      ring[1..]
    }

    ghost predicate Valid()
      reads this, ring
    {
      && ring != [] && ring[0] == head
      && NoDup(ring)
      && Linked(ring)
    }

    constructor ()
      ensures Valid() && Nodes() == [] && fresh(head)
    {
      var sentinel := new SpanNode();
      head, ring := sentinel, [sentinel];
      new;
      head.next := head;
      head.prev := head;
    }

    /** `empty()`. */
    method Empty() returns (b: bool)
      requires Valid()
      ensures b <==> Nodes() == []
    {
      assert ring[0].next == if |ring| == 1 then ring[0] else ring[1];
      b := head.next == head;
    }

    /** `front()`; on an empty list the source hands back the sentinel. */
    method Front() returns (s: SpanNode?)
      requires Valid()
      ensures s == if Nodes() == [] then head else Nodes()[0]
    {
      assert ring[0].next == if |ring| == 1 then ring[0] else ring[1];
      s := head.next;
    }

    method PushFront(s: SpanNode)
      requires Valid() && s !in ring
      modifies this`ring, ring, s
      ensures Valid() && head == old(head) && Nodes() == [s] + old(Nodes())
    {
      assert ring[0].next == if |ring| == 1 then ring[0] else ring[1];
      s.next := head.next;
      s.prev := head;
      head.next.prev := s;
      head.next := s;
      ring := [head, s] + ring[1..];
    }

    method PushBack(s: SpanNode)
      requires Valid() && s !in ring
      modifies this`ring, ring, s
      ensures Valid() && head == old(head) && Nodes() == old(Nodes()) + [s]
    {
      s.next := head;
      s.prev := head.prev;
      head.prev.next := s;
      head.prev := s;
      ring := ring + [s];
    }

    /** Unlinks `s` in constant time, whatever its position. */
    method Remove(s: SpanNode)
      requires Valid() && s in Nodes()
      modifies this`ring, ring
      ensures Valid() && head == old(head) && Nodes() == Without(old(Nodes()), s)
      ensures s.next == null && s.prev == null
    {
      ghost var k :| 0 < k < |ring| && ring[k] == s;
      Bypass(s, k);
      RelinkedWithout(ring, k);
      CutFromRing(ring, k);
      ring := ring[..k] + ring[k + 1..];
      hide NoDup, Linked;
      s.next := null;
      s.prev := null;
    }

    method Bypass(s: SpanNode, ghost k: nat)
      requires Valid() && 0 < k < |ring| && s == ring[k]
      modifies ring
      ensures Bypassed(ring, k)
    {
      assert ring[k].next == ring[if k + 1 < |ring| then k + 1 else 0];
      assert ring[k].prev == ring[k - 1];
      s.prev.next := s.next;
      s.next.prev := s.prev;
    }

    method Size() returns (count: nat)
      requires Valid()
      ensures count == |Nodes()|
    {
      count := 0;
      assert ring[0].next == if |ring| == 1 then ring[0] else ring[1];
      var cur := head.next;
      while cur != head
        invariant 0 <= count < |ring|
        invariant cur == if count + 1 == |ring| then head else ring[count + 1]
        decreases |ring| - count
      {
        assert ring[count + 1].next == if count + 2 == |ring| then ring[0] else ring[count + 2];
        cur := cur.next;
        count := count + 1;
      }
    }
  }

  lemma {:induction false} WithoutAt<T>(list: seq<T>, k: nat)
    requires k < |list| && NoDup(list)
    ensures Without(list, list[k]) == list[..k] + list[k + 1..]
  {
    if k > 0 {
      assert list[1..][k - 1] == list[k] && NoDup(list[1..]);
      WithoutAt(list[1..], k - 1);
    }
  }

  /** The links of the ring after the node at `k` has been bypassed. */
  ghost predicate Bypassed(ring: seq<SpanNode>, k: nat)
    requires 0 < k < |ring|
    reads ring
  {
    && (forall i {:trigger ring[i].next} | 0 <= i < |ring| - 1 && i != k && i != k - 1 :: ring[i].next == ring[i + 1])
    && (forall i {:trigger ring[i].prev} | 0 < i < |ring| && i != k && i != k + 1 :: ring[i].prev == ring[i - 1])
    && (k + 1 < |ring| ==>
          && ring[k - 1].next == ring[k + 1] && ring[k + 1].prev == ring[k - 1]
          && ring[|ring| - 1].next == ring[0] && ring[0].prev == ring[|ring| - 1])
    && (k + 1 == |ring| ==> ring[k - 1].next == ring[0] && ring[0].prev == ring[k - 1])
  }

  lemma RelinkedWithout(ring: seq<SpanNode>, k: nat)
    requires 0 < k < |ring| && Bypassed(ring, k)
    ensures Linked(ring[..k] + ring[k + 1..])
  {
    var cut := ring[..k] + ring[k + 1..];
    assert forall i | 0 <= i < |cut| :: cut[i] == ring[if i < k then i else i + 1];
  }

  lemma CutFromRing<T>(ring: seq<T>, k: nat)
    requires 0 < k < |ring| && NoDup(ring)
    ensures (ring[..k] + ring[k + 1..])[1..] == Without(ring[1..], ring[k])
    ensures NoDup(ring[..k] + ring[k + 1..]) && ring[k] !in ring[..k] + ring[k + 1..]
  {
    WithoutAt(ring[1..], k - 1);
    assert (ring[..k] + ring[k + 1..])[1..] == ring[1..][..k - 1] + ring[1..][k..];
  }
}
