/** The zero-copy pipeline of structure/ringbuf_example.c: a producer and a consumer pass the packets
    of a pool through a ring, one shared-memory access at a time.

    The same step function runs on 32-bit counters, as the code does, and on unbounded ones. */
module Pipeline {
  import opened Machine
  import opened Bits
  import opened Fifo
  import opened ObjPools

  datatype Word = Bits32 | Unbounded

  /** The counters `in` and `out`, and the array they index. */
  datatype Ring = Ring(buf: seq<Ptr>, ins: nat, outs: nat)

  /** Where the producer is; `i` is its loop counter. */
  datatype Producer =
    | Looping(i: nat)              // at the head of the for loop (line 55)
    | Reading(i: nat)              // the pool is not empty: about to load the slot (objpool.h:75)
    | Acquiring(i: nat, pkt: Ptr)  // about to advance pool.out (objpool.h:76)
    | Filling(i: nat, pkt: Ptr)    // about to store pkt->seq (line 63)
    | Pushing(i: nat, pkt: Ptr)    // about to test whether the ring is full (line 67)
    | Storing(i: nat, pkt: Ptr)    // about to store the slot (ringbuf.h:101)
    | Publishing(i: nat, pkt: Ptr) // about to advance rb.in (ringbuf.h:103)
    | Stopped                      // running has been cleared (line 77)

  /** Where the consumer is. */
  datatype Consumer =
    | Popping                      // about to test whether the ring is empty (line 95)
    | Loading                      // it is not: about to load the slot (ringbuf.h:114)
    | Advancing(pkt: Ptr)          // about to advance rb.out (ringbuf.h:115)
    | Asking                       // pop returned NULL: about to load running (line 96)
    | Rechecking                   // not running: about to test the ring once more (line 96)
    | Checking(pkt: Ptr)           // about to look at pkt->seq (line 102)
    | Releasing(pkt: Ptr)          // about to test whether the pool is full (line 111)
    | Returning(pkt: Ptr)          // about to store the slot (objpool.h:89)
    | Returned(pkt: Ptr)           // about to advance pool.in (objpool.h:91)
    | Failed                       // the assertion of objpool_release (objpool.h:85)
    | Done

  datatype Sys = Sys(pool: Ring, rb: Ring, running: bool, seqOf: map<Ptr, nat>, total: nat,
                     prod: Producer, cons: Consumer, received: nat, expected: nat, reorder: nat)

  /** Who moves. */
  datatype Event = Produce | Consume

  function Increment(w: Word, x: nat): nat {
    if w == Bits32 then (x + 1) % WORD else x + 1
  }

  /** `x & mask` */
  function Index(r: Ring, x: nat): nat {
    if |r.buf| == 0 then 0 else And(x, |r.buf| - 1)
  }

  function Load(r: Ring, x: nat): Ptr {
    if Index(r, x) < |r.buf| then r.buf[Index(r, x)] else 0
  }

  function Store(r: Ring, x: nat, p: Ptr): Ring {
    if Index(r, x) < |r.buf| then r.(buf := r.buf[Index(r, x) := p]) else r
  }

  predicate IsFull(r: Ring) {
    Count(r.ins, r.outs) >= |r.buf|
  }

  function ProducerStep(w: Word, s: Sys): Sys {
    match s.prod
    case Looping(i) =>
      if i == s.total then s.(running := false, prod := Stopped)
      else if s.pool.ins == s.pool.outs then s
      else s.(prod := Reading(i))
    case Reading(i) => s.(prod := Acquiring(i, Load(s.pool, s.pool.outs)))
    case Acquiring(i, p) =>
      s.(pool := s.pool.(outs := Increment(w, s.pool.outs)), prod := if p == 0 then Looping(i) else Filling(i, p))
    case Filling(i, p) => s.(seqOf := s.seqOf[p := i], prod := Pushing(i, p))
    case Pushing(i, p) => if IsFull(s.rb) then s else s.(prod := Storing(i, p))
    case Storing(i, p) => s.(rb := Store(s.rb, s.rb.ins, p), prod := Publishing(i, p))
    case Publishing(i, _) => s.(rb := s.rb.(ins := Increment(w, s.rb.ins)), prod := Looping(i + 1))
    case Stopped => s
  }

  function ConsumerStep(w: Word, s: Sys): Sys {
    match s.cons
    case Popping => s.(cons := if s.rb.ins == s.rb.outs then Asking else Loading)
    case Loading => s.(cons := Advancing(Load(s.rb, s.rb.outs)))
    case Advancing(p) =>
      s.(rb := s.rb.(outs := Increment(w, s.rb.outs)), cons := if p == 0 then Asking else Checking(p))
    case Asking => s.(cons := if s.running then Popping else Rechecking)
    case Rechecking => s.(cons := if s.rb.ins == s.rb.outs then Done else Popping)
    case Checking(p) =>
      var seqNo := if p in s.seqOf then s.seqOf[p] else 0;
      s.(expected := seqNo + 1, reorder := if seqNo != s.expected then s.reorder + 1 else s.reorder,
         received := s.received + 1, cons := Releasing(p))
    case Releasing(p) => s.(cons := if IsFull(s.pool) then Failed else Returning(p))
    case Returning(p) => s.(pool := Store(s.pool, s.pool.ins, p), cons := Returned(p))
    case Returned(_) => s.(pool := s.pool.(ins := Increment(w, s.pool.ins)), cons := Popping)
    case Failed => s
    case Done => s
  }

  function Next(w: Word, s: Sys, e: Event): Sys {
    if e == Produce then ProducerStep(w, s) else ConsumerStep(w, s)
  }

  function Run(w: Word, s: Sys, es: seq<Event>): Sys {
    if es == [] then s else Next(w, Run(w, s, es[..|es| - 1]), es[|es| - 1])
  }

  /** The state main leaves before it creates the threads; `buf` is the uninitialised ring array. */
  function Start(base: Ptr, esize: nat, total: nat, buf: seq<Ptr>, seqOf: map<Ptr, nat>): Sys {
    Sys(Ring(Slab(base, esize, |buf|), |buf|, 0), Ring(buf, 0, 0), true, seqOf, total, Looping(0), Popping, 0, 0, 0)
  }

  /* ---- The invariant ---- */

  /** The packet that carries item `k`: acquisition goes round the slab. */
  function Carrier(slab: seq<Ptr>, k: nat): Ptr
    requires |slab| > 0
  {
    slab[Slot(k, |slab|)]
  }

  ghost predicate GoodSlab(slab: seq<Ptr>) {
    && Sized(|slab|) && |slab| > 0 && 0 !in slab
    && forall i, j :: 0 <= i < j < |slab| ==> slab[i] != slab[j]
  }

  /** How many packets have been released. */
  function Released(s: Sys): int {
    s.pool.ins - |s.pool.buf|
  }

  /** Counters follow one another once round the ring. */
  predicate Ordered(s: Sys) {
    Released(s) >= 0 && Released(s) <= s.rb.outs <= s.rb.ins <= s.pool.outs <= s.pool.ins && s.pool.outs <= s.total
  }

  /** Item `k` lies in its slot of the ring and has its number. */
  predicate ItemAt(s: Sys, slab: seq<Ptr>, k: nat)
    requires |slab| > 0
  {
    s.rb.outs <= k < s.rb.ins ==>
      && Slot(k, |slab|) < |s.rb.buf| && s.rb.buf[Slot(k, |slab|)] == Carrier(slab, k)
      && Carrier(slab, k) in s.seqOf && s.seqOf[Carrier(slab, k)] == k
  }

  predicate ProducerOk(s: Sys, slab: seq<Ptr>)
    requires |slab| > 0
  {
    match s.prod
    case Looping(i) => i == s.rb.ins == s.pool.outs && s.running
    case Reading(i) => i == s.rb.ins == s.pool.outs < s.pool.ins && i < s.total && s.running
    case Acquiring(i, p) =>
      i == s.rb.ins == s.pool.outs < s.pool.ins && i < s.total && p == Carrier(slab, i) && s.running
    case Filling(i, p) => i == s.rb.ins && s.pool.outs == i + 1 && p == Carrier(slab, i) && s.running
    case Pushing(i, p) => Filled(s, slab, i, p)
    case Storing(i, p) => Filled(s, slab, i, p)
    case Publishing(i, p) => Filled(s, slab, i, p) && Slot(i, |slab|) < |s.rb.buf| && s.rb.buf[Slot(i, |slab|)] == p
    case Stopped => s.rb.ins == s.pool.outs == s.total && !s.running
  }

  predicate Filled(s: Sys, slab: seq<Ptr>, i: nat, p: Ptr)
    requires |slab| > 0
  {
    i == s.rb.ins && s.pool.outs == i + 1 && p == Carrier(slab, i) && p in s.seqOf && s.seqOf[p] == i && s.running
  }

  /** The consumer has counted packet `p` and not yet given it back. */
  predicate HandedOver(s: Sys, slab: seq<Ptr>, p: Ptr)
    requires |slab| > 0
  {
    s.received > 0 && s.received == s.rb.outs == Released(s) + 1 && p == Carrier(slab, s.received - 1)
  }

  predicate ConsumerOk(s: Sys, slab: seq<Ptr>)
    requires |slab| > 0
  {
    && s.expected == s.received && s.reorder == 0
    && match s.cons
       case Popping => s.received == s.rb.outs == Released(s)
       case Loading => s.received == s.rb.outs == Released(s) && s.rb.outs < s.rb.ins
       case Advancing(p) =>
         s.received == s.rb.outs == Released(s) && s.rb.outs < s.rb.ins && p == Carrier(slab, s.rb.outs)
       case Asking => s.received == s.rb.outs == Released(s)
       case Rechecking => s.received == s.rb.outs == Released(s) && !s.running
       case Checking(p) =>
         && s.received == Released(s) && s.rb.outs == s.received + 1 && p == Carrier(slab, s.received)
         && p in s.seqOf && s.seqOf[p] == s.received
       case Releasing(p) => HandedOver(s, slab, p)
       case Returning(p) => HandedOver(s, slab, p)
       case Returned(p) => HandedOver(s, slab, p)
       case Failed => false
       case Done => s.received == s.rb.outs == Released(s) == s.rb.ins == s.total && !s.running
  }

  /** `slab` lists the packets. The slots of the pool never change: every packet goes back to the slot
      it came from. */
  ghost predicate Inv(s: Sys, slab: seq<Ptr>) {
    && GoodSlab(slab) && s.pool.buf == slab && |s.rb.buf| == |slab| && Ordered(s)
    && ProducerOk(s, slab) && ConsumerOk(s, slab)
    && (!s.running ==> s.prod == Stopped)
    && forall k: nat {:trigger ItemAt(s, slab, k)} :: ItemAt(s, slab, k)
  }

  /* ---- Every step keeps it ---- */

  lemma StartOk(base: Ptr, esize: nat, total: nat, buf: seq<Ptr>, seqOf: map<Ptr, nat>)
    requires Sized(|buf|) && base > 0 && esize > 0
    ensures Inv(Start(base, esize, total, buf, seqOf), Slab(base, esize, |buf|))
  {
    var slab := Slab(base, esize, |buf|);
    MaskIsSlot(0, |buf|);
    forall i, j | 0 <= i < j < |slab| ensures slab[i] != slab[j] {
      MulBounds(j - i, esize);
      assert j * esize - i * esize == (j - i) * esize;
    }
    forall i | 0 <= i < |slab| ensures slab[i] != 0 {
      MulBounds(i, esize);
    }
  }

  /** Counters in the rings are less than a turn apart. */
  lemma Turns(s: Sys, slab: seq<Ptr>)
    requires Inv(s, slab)
    ensures 0 <= s.rb.ins - s.rb.outs <= |slab| < WORD && 0 <= s.pool.ins - s.pool.outs <= |slab|
    ensures IsFull(s.rb) <==> s.rb.ins - s.rb.outs == |slab|
    ensures IsFull(s.pool) <==> s.pool.ins - s.pool.outs == |slab|
  {
    DivModUnique(s.rb.ins - s.rb.outs, WORD, 0, s.rb.ins - s.rb.outs);
    DivModUnique(s.pool.ins - s.pool.outs, WORD, 0, s.pool.ins - s.pool.outs);
  }

  lemma Loads(r: Ring, x: nat)
    requires Sized(|r.buf|)
    ensures |r.buf| > 0 && Index(r, x) == Slot(x, |r.buf|) && Load(r, x) == r.buf[Slot(x, |r.buf|)]
  {
    MaskIsSlot(x, |r.buf|);
  }

  /** Items less than a turn apart have different carriers. */
  lemma CarriersDiffer(slab: seq<Ptr>, a: nat, b: nat)
    requires GoodSlab(slab) && a < b < a + |slab|
    ensures Carrier(slab, a) != Carrier(slab, b) && Slot(a, |slab|) != Slot(b, |slab|)
  {
    ModDistinct(a, b, |slab|);
    hide Slot;
    var i, j := Slot(a, |slab|), Slot(b, |slab|);
    assert if i < j then slab[i] != slab[j] else slab[j] != slab[i];
  }

  lemma CarrierNotNull(slab: seq<Ptr>, k: nat)
    requires GoodSlab(slab)
    ensures Carrier(slab, k) != 0 && Carrier(slab, k) in slab
  {
  }

  lemma ItemsSame(s: Sys, s': Sys, slab: seq<Ptr>)
    requires Inv(s, slab) && s'.rb.buf == s.rb.buf && s'.seqOf == s.seqOf
    requires s.rb.outs <= s'.rb.outs && s'.rb.ins == s.rb.ins
    ensures forall k: nat {:trigger ItemAt(s', slab, k)} :: ItemAt(s', slab, k)
  {
    hide Slot, Carrier;
    forall k: nat ensures ItemAt(s', slab, k) {
      assert ItemAt(s, slab, k);
    }
  }

  /** The producer's steps that touch neither the ring's array nor the packets. */
  lemma ProducerMoves(s: Sys, slab: seq<Ptr>)
    requires Inv(s, slab)
    requires s.prod.Looping? || s.prod.Reading? || s.prod.Acquiring? || s.prod.Pushing? || s.prod.Stopped?
    ensures Inv(ProducerStep(Unbounded, s), slab)
  {
    hide Slot, Carrier, Index, Load, GoodSlab, Count;
    var s' := ProducerStep(Unbounded, s);
    Turns(s, slab);
    ItemsSame(s, s', slab);
    if s.prod.Reading? {
      PoolLoad(s, slab);
    }
    if s.prod.Acquiring? {
      PoolLoad(s, slab);
    }
  }

  lemma PoolLoad(s: Sys, slab: seq<Ptr>)
    requires Inv(s, slab)
    ensures Load(s.pool, s.pool.outs) == Carrier(slab, s.pool.outs) != 0
  {
    Loads(s.pool, s.pool.outs);
    CarrierNotNull(slab, s.pool.outs);
  }

  lemma FillingOk(s: Sys, slab: seq<Ptr>)
    requires Inv(s, slab) && s.prod.Filling?
    ensures Inv(ProducerStep(Unbounded, s), slab)
  {
    hide Slot, Carrier, GoodSlab;
    var s', i := ProducerStep(Unbounded, s), s.prod.i;
    Turns(s, slab);
    forall k: nat ensures ItemAt(s', slab, k) {
      assert ItemAt(s, slab, k);
      if s.rb.outs <= k < s.rb.ins {
        CarriersDiffer(slab, k, i);
      }
    }
    if s.cons.Checking? {
      CarriersDiffer(slab, s.received, i);
    }
  }

  lemma StoringOk(s: Sys, slab: seq<Ptr>)
    requires Inv(s, slab) && s.prod.Storing?
    ensures Inv(ProducerStep(Unbounded, s), slab)
  {
    hide Slot, Carrier, GoodSlab, Index;
    var s', i := ProducerStep(Unbounded, s), s.prod.i;
    Turns(s, slab);
    RingSized(s, slab);
    Loads(s.rb, s.rb.ins);
    forall k: nat ensures ItemAt(s', slab, k) {
      assert ItemAt(s, slab, k);
      if s.rb.outs <= k < s.rb.ins {
        CarriersDiffer(slab, k, i);
      }
    }
  }

  lemma RingSized(s: Sys, slab: seq<Ptr>)
    requires Inv(s, slab)
    ensures Sized(|s.rb.buf|) && Sized(|s.pool.buf|) && |slab| > 0
  {
  }

  lemma PublishingOk(s: Sys, slab: seq<Ptr>)
    requires Inv(s, slab) && s.prod.Publishing?
    ensures Inv(ProducerStep(Unbounded, s), slab)
  {
    hide Slot, Carrier, GoodSlab;
    var s' := ProducerStep(Unbounded, s);
    Turns(s, slab);
    forall k: nat ensures ItemAt(s', slab, k) {
      assert ItemAt(s, slab, k);
    }
  }

  /** The consumer's steps that leave both arrays alone. */
  lemma ConsumerMoves(s: Sys, slab: seq<Ptr>)
    requires Inv(s, slab) && !s.cons.Advancing? && !s.cons.Returning? && !s.cons.Returned? && !s.cons.Loading?
    ensures Inv(ConsumerStep(Unbounded, s), slab)
  {
    hide Slot, Carrier, GoodSlab, Index, Load, Count;
    Turns(s, slab);
    ItemsSame(s, ConsumerStep(Unbounded, s), slab);
  }

  lemma LoadingOk(s: Sys, slab: seq<Ptr>)
    requires Inv(s, slab) && (s.cons.Loading? || s.cons.Advancing?)
    ensures Inv(ConsumerStep(Unbounded, s), slab)
  {
    hide Slot, Carrier, GoodSlab, Index, Load;
    RingSized(s, slab);
    Loads(s.rb, s.rb.outs);
    CarrierNotNull(slab, s.rb.outs);
    assert ItemAt(s, slab, s.rb.outs);
    ItemsSame(s, ConsumerStep(Unbounded, s), slab);
  }

  lemma TurnSlot(r: nat, c: nat)
    requires c > 0
    ensures Slot(c + r, c) == Slot(r, c)
  {
    DivShift(1, r, c);
  }

  /** A packet goes back into the slot it came from. */
  lemma ReturningOk(s: Sys, slab: seq<Ptr>)
    requires Inv(s, slab) && (s.cons.Returning? || s.cons.Returned?)
    ensures Inv(ConsumerStep(Unbounded, s), slab)
  {
    hide Slot, GoodSlab, Index, Load;
    RingSized(s, slab);
    Loads(s.pool, s.pool.ins);
    TurnSlot(Released(s), |slab|);
    Turns(s, slab);
    ItemsSame(s, ConsumerStep(Unbounded, s), slab);
  }

  lemma StepKeeps(s: Sys, slab: seq<Ptr>, e: Event)
    requires Inv(s, slab)
    ensures Inv(Next(Unbounded, s, e), slab)
  {
    hide Inv, ProducerStep, ConsumerStep;
    if e == Produce {
      match s.prod {
        case Filling(_, _) => FillingOk(s, slab);
        case Storing(_, _) => StoringOk(s, slab);
        case Publishing(_, _) => PublishingOk(s, slab);
        case _ => ProducerMoves(s, slab);
      }
    } else {
      match s.cons {
        case Loading => LoadingOk(s, slab);
        case Advancing(_) => LoadingOk(s, slab);
        case Returning(_) => ReturningOk(s, slab);
        case Returned(_) => ReturningOk(s, slab);
        case _ => ConsumerMoves(s, slab);
      }
    }
  }

  lemma {:induction false} RunKeeps(s: Sys, slab: seq<Ptr>, es: seq<Event>)
    requires Inv(s, slab)
    ensures Inv(Run(Unbounded, s, es), slab)
    decreases |es|
  {
    hide Inv, Next;
    if es != [] {
      RunKeeps(s, slab, es[..|es| - 1]);
      StepKeeps(Run(Unbounded, s, es[..|es| - 1]), slab, es[|es| - 1]);
    }
  }
}
