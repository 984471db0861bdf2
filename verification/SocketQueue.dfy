/** The ring of accepted sockets inside `struct mg_context`: 20 slots and two counters that
    are rebased together, so that they stay bounded while the difference is unchanged. */
module SocketQueue {

  const CAPACITY := 20

  /** An accepted connection, named by its descriptor. */
  type Socket = int

  type Slots = s: seq<Socket> | |s| == CAPACITY witness seq(CAPACITY, _ => 0)

  /** The value of the ring: `head` counts insertions, `tail` removals, both modulo rebasing. */
  datatype Ring = Ring(slots: Slots, head: int, tail: int) {

    predicate Valid() {
      0 <= tail <= CAPACITY && 0 <= head - tail <= CAPACITY
    }

    function Size(): int {
      head - tail
    }

    /** The queued sockets, oldest first. */
    function Contents(): (s: seq<Socket>)
      requires Valid()
    {
      seq(head - tail, k requires 0 <= k < head - tail => slots[(tail + k) % CAPACITY])
    }

    function Put(x: Socket): Ring {
      Ring(slots[head % CAPACITY := x], head + 1, tail)
    }

    function Oldest(): Socket {
      slots[tail % CAPACITY]
    }

    function Take(): Ring {
      Ring(slots, head, tail + 1).Rebased()
    }

    function Rebased(): Ring
      decreases tail
    {
      if tail > CAPACITY then Ring(slots, head - CAPACITY, tail - CAPACITY).Rebased() else this
    }
  }

  const EmptyRing := Ring(seq(CAPACITY, _ => 0), 0, 0)

  lemma PutAppends(r: Ring, x: Socket)
    requires r.Valid() && r.Size() < CAPACITY
    ensures r.Put(x).Valid()
    ensures r.Put(x).Contents() == r.Contents() + [x]
  {
    var after := r.Put(x).Contents();
    forall k | 0 <= k < r.Size()
      ensures after[k] == r.Contents()[k]
    {
      assert (r.tail + k) % CAPACITY != r.head % CAPACITY;
    }
    assert after[r.Size()] == x;
  }

  lemma TakeRemovesOldest(r: Ring)
    requires r.Valid() && r.Size() > 0
    ensures r.Take().Valid() && r.Take().Size() == r.Size() - 1
    ensures r.Contents() == [r.Oldest()] + r.Take().Contents()
  {
    var after := r.Take();
    if r.tail == CAPACITY {
      var rebased := Ring(r.slots, r.head - CAPACITY, 1);
      assert after == rebased.Rebased() == rebased;
    }
    forall k | 0 <= k < after.Size()
      ensures after.Contents()[k] == r.Contents()[k + 1]
    {
      assert (after.tail + k) % CAPACITY == (r.tail + k + 1) % CAPACITY;
    }
  }

  /** The queue fields of `struct mg_context`, updated in place by the two critical sections. */
  class Context {
    const queue: array<Socket>
    var sqHead: int
    var sqTail: int

    ghost function View(): (r: Ring)
      requires queue.Length == CAPACITY
      reads this, queue
    {
      Ring(queue[..], sqHead, sqTail)
    }

    ghost predicate Valid()
      reads this, queue
    {
      queue.Length == CAPACITY && View().Valid()
    }

    constructor ()
      ensures Valid() && fresh(queue)
      ensures View().Contents() == []
    {
      queue := new Socket[CAPACITY](_ => 0);
      sqHead, sqTail := 0, 0;
    }

    /** What the master does once it holds the mutex and has seen a free slot. */
    method Produce(sp: Socket)
      requires Valid() && sqHead - sqTail < CAPACITY
      modifies this, queue
      ensures Valid()
      ensures View() == old(View()).Put(sp)
      ensures View().Contents() == old(View().Contents()) + [sp]
    {
      PutAppends(View(), sp);
      queue[sqHead % CAPACITY] := sp;
      sqHead := sqHead + 1;
      assert View().slots == old(View()).Put(sp).slots;
    }

    /** What a worker does once it holds the mutex and has seen a queued socket. */
    method Consume() returns (sp: Socket)
      requires Valid() && sqHead > sqTail
      modifies this
      ensures Valid()
      ensures View() == old(View()).Take()
      ensures old(View().Contents()) == [sp] + View().Contents()
    {
      TakeRemovesOldest(View());
      sp := queue[sqTail % CAPACITY];
      sqTail := sqTail + 1;
      while sqTail > CAPACITY
        invariant View().Rebased() == old(View()).Take()
        invariant queue[..] == old(queue[..])
      {
        sqTail := sqTail - CAPACITY;
        sqHead := sqHead - CAPACITY;
      }
    }
  }
}
