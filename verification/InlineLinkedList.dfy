/**
  InlineLinkedList (AK/InlineLinkedList.h) as the timer queue uses it: a doubly linked list
  through the nodes themselves.  Every VERIFY of the source is an assert.
 */
module InlineLinkedLists {
  import opened Common

  /** Kernel::Timer. */
  class Timer {
    const expires: int
    const realtime: bool
    var id: nat
    var next: Timer?
    var prev: Timer?

    constructor (expires: int, realtime: bool)
      ensures this.expires == expires && this.realtime == realtime && next == null && prev == null
    {
      this.expires, this.realtime, id, next, prev := expires, realtime, 0, null, null;
    }
  }

  class InlineLinkedList {
    var head: Timer?
    var tail: Timer?
    ghost var items: seq<Timer>

    /** The element at i, or null outside the list. */
    ghost function At(i: int): Timer?
      reads this
    {
      if 0 <= i < |items| then items[i] else null
    }

    ghost predicate LinkedAt(i: int)
      requires 0 <= i < |items|
      reads this, items`next, items`prev
    {
      items[i].prev == At(i - 1) && items[i].next == At(i + 1)
    }

    ghost predicate Valid()
      reads this, items`next, items`prev
    {
      && head == At(0) && tail == At(|items| - 1)
      && (forall i, j | 0 <= i < j < |items| :: items[i] != items[j])
      && (forall i | 0 <= i < |items| :: LinkedAt(i))
    }

    constructor ()
      ensures Valid() && items == []
    {
      head, tail, items := null, null, [];
    }

    predicate IsEmpty()
      requires Valid()
      reads this, items`next, items`prev
      ensures IsEmpty() <==> items == []
    {
      head == null
    }

    method Append(node: Timer)
      requires Valid() && node !in items
      modifies this, items`next, node`next, node`prev
      ensures Valid() && items == old(items) + [node]
    {
      if tail == null {
        assert head == null;
        head := node;
        tail := node;
        node.prev := null;
        node.next := null;
      } else {
        assert head != null;
        tail.next := node;
        node.prev := tail;
        node.next := null;
        tail := node;
      }
      items := items + [node];
      forall i | 0 <= i < |items| ensures LinkedAt(i) {
        assert i < |old(items)| ==> old(LinkedAt(i));
      }
    }

    method InsertBefore(before: Timer, node: Timer, ghost k: nat)
      requires Valid() && node !in items && k < |items| && items[k] == before
      modifies this, items`next, items`prev, node`next, node`prev
      ensures Valid() && items == InsertAt(old(items), k, node)
    {
      assert LinkedAt(k) && before != node && head != null;
      if head == before {
        assert before.prev == null;
        head := node;
        node.prev := null;
        node.next := before;
        before.prev := node;
      } else {
        assert before.prev != null && LinkedAt(k - 1);
        node.prev := before.prev;
        before.prev.next := node;
        node.next := before;
        before.prev := node;
      }
      items := InsertAt(items, k, node);
      forall i | 0 <= i < |items| ensures LinkedAt(i) {
        assert i < k ==> old(LinkedAt(i));
        assert i > k ==> old(LinkedAt(i - 1));
      }
    }

    method Remove(node: Timer, ghost k: nat)
      requires Valid() && k < |items| && items[k] == node
      modifies this, items`next, items`prev
      ensures Valid() && items == Without(old(items), k)
      ensures node.next == null && node.prev == null
    {
      assert LinkedAt(k);
      assert k > 0 ==> LinkedAt(k - 1);
      assert k + 1 < |items| ==> LinkedAt(k + 1);
      if node.prev != null {
        assert node != head;
        node.prev.next := node.next;
      } else {
        assert node == head;
        head := node.next;
      }
      if node.next != null {
        assert node != tail;
        node.next.prev := node.prev;
      } else {
        assert node == tail;
        tail := node.prev;
      }
      node.next := null;
      node.prev := null;
      items := Without(items, k);
      forall i | 0 <= i < |items| ensures LinkedAt(i) {
        assert i < k ==> old(LinkedAt(i));
        assert i >= k ==> old(LinkedAt(i + 1));
      }
    }

    method ContainsSlow(value: Timer) returns (found: bool, ghost k: nat)
      requires Valid()
      ensures found <==> value in items
      ensures found ==> k < |items| && items[k] == value
    {
      var node := head;
      k := 0;
      while node != null
        invariant k <= |items| && node == At(k) && value !in items[..k]
        decreases |items| - k
      {
        if node == value {
          return true, k;
        }
        assert LinkedAt(k);
        assert items[..k + 1] == items[..k] + [items[k]];
        node := node.next;
        k := k + 1;
      }
      assert items[..k] == items;
      return false, k;
    }

    /** for_each with the test of add_timer_locked: the first timer that expires later. */
    method FirstLater(expires: int) returns (node: Timer?, ghost k: nat)
      requires Valid()
      ensures k <= |items| && node == At(k)
      ensures forall i | 0 <= i < k :: items[i].expires <= expires
      ensures k < |items| ==> items[k].expires > expires
    {
      node := head;
      k := 0;
      while node != null
        invariant k <= |items| && node == At(k) && forall i | 0 <= i < k :: items[i].expires <= expires
        decreases |items| - k
      {
        if node.expires > expires {
          return;
        }
        assert LinkedAt(k);
        node := node.next;
        k := k + 1;
      }
    }

    /** for_each with the test of cancel_timer: the first timer with the id. */
    method FirstWithId(id: nat) returns (node: Timer?, ghost k: nat)
      requires Valid()
      ensures k <= |items| && node == At(k)
      ensures forall i | 0 <= i < k :: items[i].id != id
      ensures k < |items| ==> items[k].id == id
    {
      node := head;
      k := 0;
      while node != null
        invariant k <= |items| && node == At(k) && forall i | 0 <= i < k :: items[i].id != id
        decreases |items| - k
      {
        if node.id == id {
          return;
        }
        assert LinkedAt(k);
        node := node.next;
        k := k + 1;
      }
    }
  }
}
