/** structure/ringbuf.h: a ring of pointers for one producer and one consumer. */
module RingBufs {
  import opened Machine
  import opened Bits
  import opened Fifo

  /** ringbuf_t; `ins` and `outs` are its counters `in` and `out`. */
  class RingBuf {
    var buf: array<Ptr>
    var mask: nat
    var ins: nat
    var outs: nat

    ghost predicate Valid()
      reads this, buf
    {
      Sized(buf.Length) && mask == buf.Length - 1 && ins < WORD && outs < WORD && Count(ins, outs) <= buf.Length
    }

    /** The queued pointers, oldest first. */
    ghost function Contents(): seq<Ptr>
      reads this, buf
      requires Valid()
    {
      Capacities(buf.Length);
      Window(buf[..], outs, Count(ins, outs))
    }

    /** ringbuf_init; the capacity is what the assertion demands. */
    constructor (buf: array<Ptr>, capacity: nat)
      requires 0 < capacity < WORD && And(capacity, capacity - 1) == 0 && buf.Length == capacity
      ensures Valid() && this.buf == buf && Contents() == []
    {
      AssertedCapacity(capacity);
      this.buf, mask, ins, outs := buf, capacity - 1, 0, 0;
    }

    function Capacity(): (c: nat)
      requires Valid()
      reads this, buf
      ensures c == buf.Length > 0
    {
      Capacities(buf.Length);
      (mask + 1) % WORD
    }

    function Len(): (n: nat)
      requires Valid()
      reads this, buf
      ensures n == |Contents()|
    {
      Count(ins, outs)
    }

    function FreeCount(): (n: nat)
      requires Valid()
      reads this, buf
      ensures n + |Contents()| == buf.Length
    {
      (Capacity() - Len()) % WORD
    }

    predicate IsEmpty()
      requires Valid()
      reads this, buf
      ensures IsEmpty() <==> Contents() == []
    {
      CountZero(ins, outs);
      ins == outs
    }

    predicate IsFull()
      requires Valid()
      reads this, buf
      ensures IsFull() <==> |Contents()| == buf.Length
    {
      Len() >= Capacity()
    }

    /** ringbuf_push: refused exactly when the ring is full. */
    method Push(ptr: Ptr) returns (ok: bool)
      requires Valid()
      modifies this`ins, buf
      ensures Valid() && (ok <==> |old(Contents())| < buf.Length)
      ensures Contents() == if ok then old(Contents()) + [ptr] else old(Contents())
    {
      hide Slot, And, Count, Window;
      if IsFull() {
        return false;
      }
      PushFits(buf[..], ins, outs, ptr);
      ghost var was := buf[..];
      buf[And(ins, mask)] := ptr;
      assert buf[..] == was[And(ins, mask) := ptr];
      ins := (ins + 1) % WORD;
      ok := true;
    }

    /** ringbuf_pop: NULL when the ring is empty, and otherwise the oldest pointer. */
    method Pop() returns (ptr: Ptr)
      requires Valid()
      modifies this`outs
      ensures Valid()
      ensures old(Contents()) == [] ==> ptr == 0 && Contents() == []
      ensures old(Contents()) != [] ==> ptr == old(Contents())[0] && Contents() == old(Contents())[1..]
    {
      hide Slot, And, Count, Window;
      if IsEmpty() {
        return 0;
      }
      CountZero(ins, outs);
      PopFits(buf[..], ins, outs);
      ptr := buf[And(outs, mask)];
      outs := (outs + 1) % WORD;
    }

    method Peek() returns (ptr: Ptr)
      requires Valid()
      ensures Valid() && ptr == if Contents() == [] then 0 else Contents()[0]
    {
      hide Slot, And, Count, Window;
      if IsEmpty() {
        return 0;
      }
      CountZero(ins, outs);
      PopFits(buf[..], ins, outs);
      ptr := buf[And(outs, mask)];
    }
  }

  lemma Capacities(c: nat)
    requires Sized(c)
    ensures c > 0 && c % WORD == c
  {
    MaskIsSlot(0, c);
  }

  /** What a push does to the two counters and the array. */
  lemma PushFits(buf: seq<Ptr>, ins: nat, outs: nat, p: Ptr)
    requires Sized(|buf|) && ins < WORD && outs < WORD && Count(ins, outs) < |buf|
    ensures And(ins, |buf| - 1) < |buf| && Count((ins + 1) % WORD, outs) == Count(ins, outs) + 1
    ensures Window(buf[And(ins, |buf| - 1) := p], outs, Count(ins, outs) + 1)
            == Window(buf, outs, Count(ins, outs)) + [p]
  {
    var n := Count(ins, outs);
    CountUp(ins, outs);
    MaskIsSlot(ins, |buf|);
    CountEnd(ins, outs);
    WrapSlot(outs + n, |buf|);
    WindowPush(buf, outs, n, p);
  }

  /** What a pop does. */
  lemma PopFits(buf: seq<Ptr>, ins: nat, outs: nat)
    requires Sized(|buf|) && ins < WORD && outs < WORD && 0 < Count(ins, outs) <= |buf|
    ensures And(outs, |buf| - 1) < |buf| && Count(ins, (outs + 1) % WORD) == Count(ins, outs) - 1
    ensures Window(buf, outs, Count(ins, outs))
            == [buf[And(outs, |buf| - 1)]] + Window(buf, (outs + 1) % WORD, Count(ins, outs) - 1)
  {
    CountDown(ins, outs);
    MaskIsSlot(outs, |buf|);
    WindowPop(buf, outs, Count(ins, outs));
    WrapWindow(buf, outs + 1, Count(ins, outs) - 1);
  }
}
