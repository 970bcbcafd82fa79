/** structure/objpool.h: the same ring, holding the free objects of a slab. */
module ObjPools {
  import opened Machine
  import opened Bits
  import opened Fifo
  import opened RingBufs

  /** The addresses of `capacity` objects of `esize` bytes. */
  function Slab(base: Ptr, esize: nat, capacity: nat): seq<Ptr> {
    seq(capacity, i requires 0 <= i < capacity => base + i * esize)
  }

  /** Object `i` lies `i` sizes behind the start of the slab, the objects do not overlap, and the last
      one ends where the slab does. */
  lemma SlabLayout(base: Ptr, esize: nat, capacity: nat, i: nat)
    requires i < capacity
    ensures |Slab(base, esize, capacity)| == capacity
    ensures Slab(base, esize, capacity)[0] == base
    ensures Slab(base, esize, capacity)[i] == base + i * esize
    ensures Slab(base, esize, capacity)[i] + esize <= base + capacity * esize
    ensures i + 1 < capacity ==>
              Slab(base, esize, capacity)[i] + esize == Slab(base, esize, capacity)[i + 1]
    ensures i + 1 == capacity ==> Slab(base, esize, capacity)[i] + esize == base + capacity * esize
  {
    NextMultiple(i, esize);
    MultipleWithin(i + 1, capacity, esize);
  }

  lemma NextMultiple(i: nat, m: nat)
    ensures (i + 1) * m == i * m + m
  {
  }

  lemma {:induction false} MultipleWithin(i: nat, n: nat, m: nat)
    requires i <= n
    ensures i * m <= n * m
    decreases n
  {
    if i < n {
      MultipleWithin(i, n - 1, m);
      NextMultiple(n - 1, m);
    }
  }

  /** objpool_t */
  class ObjPool {
    var slots: array<Ptr>
    var slab: Ptr
    var esize: nat
    var mask: nat
    var ins: nat
    var outs: nat

    ghost predicate Valid()
      reads this, slots
    {
      Sized(slots.Length) && mask == slots.Length - 1 && ins < WORD && outs < WORD && Count(ins, outs) <= slots.Length
    }

    /** The free objects, the next one to be acquired first. */
    ghost function Contents(): seq<Ptr>
      reads this, slots
      requires Valid()
    {
      Capacities(slots.Length);
      Window(slots[..], outs, Count(ins, outs))
    }

    /** objpool_init: every object of the slab is free. */
    constructor (slots: array<Ptr>, slab: Ptr, capacity: nat, esize: nat)
      requires 0 < capacity < WORD && And(capacity, capacity - 1) == 0 && slots.Length == capacity
      modifies slots
      ensures Valid() && this.slots == slots && Contents() == Slab(slab, esize, capacity)
    {
      AssertedCapacity(capacity);
      this.slots, this.slab, this.esize, mask, ins, outs := slots, slab, esize, capacity - 1, capacity, 0;
      new;
      var i := 0;
      while i < capacity
        modifies slots
        invariant 0 <= i <= capacity && slots[..i] == Slab(slab, esize, i)
      {
        slots[i] := slab + i * esize;
        assert slots[..i + 1] == slots[..i] + [slots[i]];
        i := i + 1;
      }
      CapacityCount(capacity);
      WholeWindow(slots[..]);
      assert slots[..] == slots[..capacity];
    }

    function Capacity(): (c: nat)
      requires Valid()
      reads this, slots
      ensures c == slots.Length > 0
    {
      Capacities(slots.Length);
      (mask + 1) % WORD
    }

    function Available(): (n: nat)
      requires Valid()
      reads this, slots
      ensures n == |Contents()|
    {
      Count(ins, outs)
    }

    predicate IsEmpty()
      requires Valid()
      reads this, slots
      ensures IsEmpty() <==> Contents() == []
    {
      CountZero(ins, outs);
      ins == outs
    }

    predicate IsFull()
      requires Valid()
      reads this, slots
      ensures IsFull() <==> |Contents()| == slots.Length
    {
      Available() >= Capacity()
    }

    /** objpool_acquire: NULL when no object is free. */
    method Acquire() returns (ptr: Ptr)
      requires Valid()
      modifies this`outs
      ensures Valid()
      ensures old(Contents()) == [] ==> ptr == 0 && Contents() == []
      ensures old(Contents()) != [] ==> ptr == old(Contents())[0] && Contents() == old(Contents())[1..]
    {
      hide Slot, And, Count, Window;
      if IsEmpty() {
        return 0;
      }
      CountZero(ins, outs);
      PopFits(slots[..], ins, outs);
      ptr := slots[And(outs, mask)];
      outs := (outs + 1) % WORD;
    }

    /** objpool_release; a release into a full pool is the one that trips the assertion. */
    method Release(obj: Ptr) returns (ok: bool)
      requires Valid()
      modifies this`ins, slots
      ensures Valid() && (ok <==> |old(Contents())| < slots.Length)
      ensures Contents() == if ok then old(Contents()) + [obj] else old(Contents())
    {
      hide Slot, And, Count, Window;
      if IsFull() {
        return false;
      }
      PushFits(slots[..], ins, outs, obj);
      ghost var was := slots[..];
      slots[And(ins, mask)] := obj;
      assert slots[..] == was[And(ins, mask) := obj];
      ins := (ins + 1) % WORD;
      ok := true;
    }
  }

  lemma CapacityCount(c: nat)
    requires c < WORD
    ensures Count(c, 0) == c
  {
  }

  lemma WholeWindow(buf: seq<Ptr>)
    requires |buf| > 0
    ensures Window(buf, 0, |buf|) == buf
  {
    var w := Window(buf, 0, |buf|);
    forall k | 0 <= k < |buf| ensures w[k] == buf[k] {
      DivModUnique(k, |buf|, 0, k);
      assert w[k] == buf[Slot(0 + k, |buf|)];
    }
  }
}
