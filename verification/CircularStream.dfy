/**
  CircularQueue and CircularDuplexStream (AK/CircularQueue.h, AK/CircularDuplexStream.h): a
  ring of bytes that is read as a queue and also looked back into.
 */
module CircularStreams {
  import opened Common

  // ----- positions in a ring -----

  lemma ModAdd(a: nat, b: nat, c: nat)
    requires c > 0
    ensures (a % c + b) % c == (a + b) % c
  {
    ModShift(a % c + b, a / c, c);
    assert a / c * c + a % c == a;
  }

  lemma {:induction false} ModShift(a: nat, k: nat, c: nat)
    requires c > 0
    ensures (a + k * c) % c == a % c
  {
    if k > 0 {
      ModShift(a, k - 1, c);
      ModStep(a + (k - 1) * c, c);
      assert a + (k - 1) * c + c == a + k * c;
    }
  }

  lemma ModStep(x: nat, c: nat)
    requires c > 0
    ensures (x + c) % c == x % c
  {
    var q, r := x / c, x % c;
    assert x == q * c + r;
    assert x + c == (q + 1) * c + r;
    DivUnique(x + c, q + 1, r, c);
  }

  lemma DivUnique(x: nat, q: nat, r: nat, c: nat)
    requires c > 0 && x == q * c + r && r < c
    ensures x % c == r
  {
    var p, s := x / c, x % c;
    assert x == p * c + s;
    assert (q - p) * c == s - r;
    MultipleFar(q - p, c);
  }

  lemma MultipleFar(k: int, c: int)
    requires c > 0
    ensures k >= 1 ==> k * c >= c
    ensures k <= -1 ==> k * c <= -c
  {
  }

  /** Positions less than a ring apart are in different slots. */
  lemma ModApart(i: nat, j: nat, c: nat)
    requires c > 0 && i < j < i + c
    ensures i % c != j % c
  {
    var d := j - i;
    ModAdd(i, d, c);
    var r := i % c;
    if r + d < c {
      DivUnique(r + d, 0, r + d, c);
    } else {
      DivUnique(r + d, 1, r + d - c, c);
    }
  }

  /** The ring holds the bytes of all from one position on, each in its slot. */
  ghost predicate Ring(storage: seq<byte>, all: seq<byte>, from: nat) {
    |storage| > 0 && from <= |all| <= from + |storage|
      && forall i | from <= i < |all| :: storage[i % |storage|] == all[i]
  }

  /** One byte more, in the slot of the oldest. */
  lemma RingGrows(storage: seq<byte>, all: seq<byte>, from: nat, x: byte)
    requires Ring(storage, all, from)
    ensures Ring(storage[|all| % |storage| := x], all + [x], if |all| + 1 - from > |storage| then from + 1 else from)
  {
    var next := storage[|all| % |storage| := x];
    var start := if |all| + 1 - from > |storage| then from + 1 else from;
    forall i | start <= i < |all| + 1 ensures next[i % |storage|] == (all + [x])[i] {
      if i < |all| {
        ModApart(i, |all|, |storage|);
      }
    }
  }

  /** Several bytes more, in slots that follow each other. */
  lemma {:induction false} RingFills(storage: seq<byte>, all: seq<byte>, from: nat, bytes: seq<byte>)
    requires Ring(storage, all, from) && |all| % |storage| + |bytes| <= |storage|
    ensures
      var start := |all| % |storage|;
      var oldest := if |all| + |bytes| - from > |storage| then |all| + |bytes| - |storage| else from;
      Ring(storage[..start] + bytes + storage[start + |bytes|..], all + bytes, oldest)
    decreases |bytes|
  {
    var c, start := |storage|, |all| % |storage|;
    if bytes == [] {
      assert storage[..start] + bytes + storage[start..] == storage && all + bytes == all;
    } else {
      var next, longer := storage[start := bytes[0]], all + [bytes[0]];
      RingGrows(storage, all, from, bytes[0]);
      assert all + bytes == longer + bytes[1..];
      if |bytes| == 1 {
        assert storage[..start] + bytes + storage[start + 1..] == next && all + bytes == longer;
      } else {
        ModAdd(|all|, 1, c);
        DivUnique(start + 1, 0, start + 1, c);
        RingFills(next, longer, if |all| + 1 - from > c then from + 1 else from, bytes[1..]);
        assert next[..start + 1] + bytes[1..] + next[start + |bytes|..] ==
          storage[..start] + bytes + storage[start + |bytes|..];
      }
    }
  }

  /** Bytes that were written before, written over in their slots. */
  lemma RingOverwrites(storage: seq<byte>, all: seq<byte>, from: nat, position: nat, bytes: seq<byte>)
    requires Ring(storage, all, from) && from <= position && position + |bytes| <= |all|
    requires position % |storage| + |bytes| <= |storage|
    ensures
      var start := position % |storage|;
      Ring(storage[..start] + bytes + storage[start + |bytes|..],
           all[..position] + bytes + all[position + |bytes|..], from)
  {
    var c, start := |storage|, position % |storage|;
    var next := storage[..start] + bytes + storage[start + |bytes|..];
    var others := all[..position] + bytes + all[position + |bytes|..];
    forall i | from <= i < |all| ensures next[i % c] == others[i] {
      if position <= i < position + |bytes| {
        ModAdd(position, i - position, c);
        DivUnique(start + (i - position), 0, start + (i - position), c);
      } else if start <= i % c < start + |bytes| {
        var j := position + (i % c - start);
        ModAdd(position, j - position, c);
        DivUnique(i % c, 0, i % c, c);
        ModApart(if i < j then i else j, if i < j then j else i, c);
      }
    }
  }

  lemma OneMore(a: seq<byte>, bytes: seq<byte>, i: nat)
    requires i < |bytes|
    ensures a + bytes[..i] + [bytes[i]] == a + bytes[..i + 1]
  {
    assert bytes[..i + 1] == bytes[..i] + [bytes[i]];
  }

  // ----- the queue -----

  /** CircularQueue<u8, Capacity>, with everything ever enqueued as a ghost. */
  class CircularQueue {
    const capacity: nat
    const storage: array<byte>
    var size: nat
    var head: nat
    ghost var all: seq<byte>

    constructor (capacity: nat)
      requires capacity > 0
      ensures Valid() && this.capacity == capacity && fresh(storage) && size == 0 && all == []
    {
      this.capacity, size, head, all := capacity, 0, 0, [];
      storage := new byte[capacity](_ => 0);
    }

    /** The oldest byte the ring still holds. */
    ghost function From(): nat
      reads this
    {
      if |all| > capacity then |all| - capacity else 0
    }

    ghost predicate Valid()
      reads this, storage
    {
      && capacity > 0 && storage.Length == capacity && size <= capacity && size <= |all|
      && head == (|all| - size) % capacity
      && Ring(storage[..], all, From())
    }

    ghost function Contents(): seq<byte>
      requires size <= |all|
      reads this
    {
      all[|all| - size..]
    }

    /** enqueue; when the queue is full the oldest element goes. */
    method Enqueue(x: byte)
      requires Valid()
      modifies this, storage
      ensures Valid() && all == old(all) + [x]
      ensures Contents() == (if old(size) == capacity then old(Contents())[1..] else old(Contents())) + [x]
      ensures size == Min(old(size) + 1, capacity)
    {
      Store(x);
      Advance();
      all := all + [x];
    }

    /** The byte goes into the slot after the last. */
    method Store(x: byte)
      requires Valid()
      modifies storage
      ensures Ring(storage[..], all + [x], if |all| + 1 > capacity then |all| + 1 - capacity else 0)
    {
      ModAdd(|all| - size, size, capacity);
      RingGrows(storage[..], all, From(), x);
      ghost var was := storage[..];
      storage[(head + size) % capacity] := x;
      assert storage[..] == was[|all| % capacity := x];
    }

    method Advance()
      requires capacity > 0 && size <= capacity && size <= |all| && head == (|all| - size) % capacity
      modifies this`head, this`size
      ensures size == Min(old(size) + 1, capacity) && head == (|all| + 1 - size) % capacity
    {
      if size == capacity {
        ModAdd(|all| - size, 1, capacity);
        head := (head + 1) % capacity;
      } else {
        size := size + 1;
      }
    }

    method Dequeue() returns (x: byte)
      requires Valid() && size > 0
      modifies this
      ensures Valid() && all == old(all) && x == old(Contents())[0] && Contents() == old(Contents())[1..]
        && size == old(size) - 1
    {
      ModAdd(|all| - size, 1, capacity);
      x := storage[head];
      head := (head + 1) % capacity;
      size := size - 1;
    }

    method At(index: nat) returns (x: byte)
      requires Valid() && index < size
      ensures x == Contents()[index]
    {
      ModAdd(|all| - size, index, capacity);
      x := storage[(head + index) % capacity];
    }
  }

  // ----- the stream -----

  class CircularDuplexStream {
    const queue: CircularQueue
    var totalWritten: nat
    var error: bool

    constructor (capacity: nat)
      requires capacity > 0
      ensures Valid() && fresh(queue) && fresh(queue.storage) && queue.capacity == capacity && queue.all == [] && !error
    {
      queue := new CircularQueue(capacity);
      totalWritten, error := 0, false;
    }

    ghost predicate Valid()
      reads this, queue, queue.storage
    {
      queue.Valid() && totalWritten == |queue.all|
    }

    /** What was written and not yet read. */
    ghost function Unread(): seq<byte>
      requires Valid()
      reads this, queue, queue.storage
    {
      queue.Contents()
    }

    method Write(bytes: seq<byte>) returns (count: nat)
      requires Valid()
      modifies this`totalWritten, queue, queue.storage
      ensures Valid() && count == Min(|bytes|, queue.capacity - |old(Unread())|)
      ensures queue.all == old(queue.all) + bytes[..count] && Unread() == old(Unread()) + bytes[..count]
    {
      count := Min(|bytes|, queue.capacity - queue.size);
      for i := 0 to count
        invariant queue.Valid() && queue.size == old(queue.size) + i && totalWritten == old(totalWritten)
        invariant queue.all == old(queue.all) + bytes[..i] && queue.Contents() == old(Unread()) + bytes[..i]
      {
        OneMore(old(queue.all), bytes, i);
        OneMore(old(Unread()), bytes, i);
        queue.Enqueue(bytes[i]);
      }
      totalWritten := totalWritten + count;
    }

    /** Takes count bytes off the queue: the loop of read and of discard_or_error. */
    method Take(count: nat) returns (bytes: seq<byte>)
      requires Valid() && count <= |Unread()|
      modifies queue
      ensures Valid() && queue.all == old(queue.all) && bytes == old(Unread())[..count]
        && Unread() == old(Unread())[count..]
    {
      bytes := [];
      for i := 0 to count
        invariant queue.Valid() && queue.all == old(queue.all) && queue.size == old(queue.size) - i
        invariant bytes == old(Unread())[..i] && queue.Contents() == old(Unread())[i..]
      {
        var x := queue.Dequeue();
        bytes := bytes + [x];
      }
    }

    method Read(size: nat) returns (bytes: seq<byte>)
      requires Valid()
      modifies queue
      ensures Valid() && queue.all == old(queue.all)
      ensures bytes == if error then [] else old(Unread())[..Min(size, |old(Unread())|)]
      ensures Unread() == old(Unread())[|bytes|..]
    {
      if error {
        return [];
      }
      bytes := Take(Min(size, queue.size));
    }

    method DiscardOrError(count: nat) returns (ok: bool)
      requires Valid()
      modifies this`error, queue
      ensures Valid() && queue.all == old(queue.all) && ok == (count <= |old(Unread())|) && error == (old(error) || !ok)
      ensures Unread() == if ok then old(Unread())[count..] else old(Unread())
    {
      if queue.size < count {
        error := true;
        return false;
      }
      var dropped := Take(count);
      return true;
    }

    /** Looking back: the first bytes of the last `seekback` ever written, whatever was read since. */
    method ReadBack(size: nat, seekback: nat) returns (bytes: seq<byte>)
      requires Valid()
      modifies this`error
      ensures Valid() && queue.all == old(queue.all) && Unread() == old(Unread())
      ensures error == (old(error) || seekback > queue.capacity || seekback > |queue.all|)
      ensures if seekback > queue.capacity || seekback > |queue.all| then bytes == []
              else bytes == queue.all[|queue.all| - seekback..][..Min(size, seekback)]
    {
      if seekback > queue.capacity || seekback > totalWritten {
        error := true;
        return [];
      }
      bytes := [];
      ghost var from := totalWritten - seekback;
      for i := 0 to Min(size, seekback)
        invariant bytes == queue.all[from..from + i] && Valid()
      {
        bytes := bytes + [queue.storage[(totalWritten - seekback + i) % queue.capacity]];
      }
    }

    function RemainingContiguousSpace(): (n: int)
      requires Valid()
      reads this, queue, queue.storage
      ensures 0 <= n <= queue.capacity - queue.size
    {
      Min(queue.capacity - queue.size, queue.capacity - (queue.head + queue.size) % queue.capacity)
    }

    /** reserve_contigous_space: what is in the span counts as written. */
    method ReserveContiguousSpace(count: nat) returns (start: nat)
      requires Valid() && count <= RemainingContiguousSpace()
      modifies this`totalWritten, queue
      ensures Valid() && start == old(|queue.all|) % queue.capacity && start + count <= queue.capacity
      ensures queue.all == old(queue.all) + queue.storage[start..start + count]
      ensures Unread() == old(Unread()) + queue.storage[start..start + count]
    {
      ModAdd(|queue.all| - queue.size, queue.size, queue.capacity);
      start := (queue.head + queue.size) % queue.capacity;
      ghost var span := queue.storage[start..start + count];
      RingFills(queue.storage[..], queue.all, queue.From(), span);
      assert queue.storage[..start] + span + queue.storage[start + count..] == queue.storage[..];
      queue.size := queue.size + count;
      totalWritten := totalWritten + count;
      queue.all := queue.all + span;
    }

    /** The caller fills a span of the ring at any later time: those bytes of what was written change, no others. */
    method FillSpan(start: nat, bytes: seq<byte>, ghost position: nat)
      requires Valid() && start == position % queue.capacity && start + |bytes| <= queue.capacity
      requires queue.From() <= position && position + |bytes| <= |queue.all|
      modifies queue, queue.storage
      ensures Valid() && |Unread()| == |old(Unread())|
      ensures queue.all == old(queue.all)[..position] + bytes + old(queue.all)[position + |bytes|..]
    {
      RingOverwrites(queue.storage[..], queue.all, queue.From(), position, bytes);
      CopyInto(queue.storage, start, bytes);
      queue.all := queue.all[..position] + bytes + queue.all[position + |bytes|..];
    }

    /** Filling at once is writing. */
    method ReserveAndFill(bytes: seq<byte>)
      requires Valid() && |bytes| <= RemainingContiguousSpace()
      modifies this`totalWritten, queue, queue.storage
      ensures Valid() && queue.all == old(queue.all) + bytes && Unread() == old(Unread()) + bytes
    {
      ghost var position := |queue.all|;
      var start := ReserveContiguousSpace(|bytes|);
      FillSpan(start, bytes, position);
    }
  }

  method CopyInto(storage: array<byte>, start: nat, bytes: seq<byte>)
    requires start + |bytes| <= storage.Length
    modifies storage
    ensures storage[..] == old(storage[..start]) + bytes + old(storage[start + |bytes|..])
  {
    for i := 0 to |bytes|
      invariant forall k | 0 <= k < storage.Length ::
                  storage[k] == if start <= k < start + i then bytes[k - start] else old(storage[k])
    {
      storage[start + i] := bytes[i];
    }
  }
}
