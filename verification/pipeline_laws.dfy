/** What holds in every reachable state of the pipeline of structure/ringbuf_example.c. */
module PipelineLaws {
  import opened Machine
  import opened Bits
  import opened Fifo
  import opened ObjPools
  import opened Pipeline

  /* ---- Where the packets are ---- */

  /** A packet is free, with one of the threads, or in the ring; the number is a free-running index. */
  datatype Where = InPool(j: nat) | WithProducer | InRing(k: nat) | WithConsumer

  predicate IsAt(s: Sys, o: Ptr, w: Where) {
    match w
    case InPool(j) => s.pool.outs <= j < s.pool.ins && |s.pool.buf| > 0 && s.pool.buf[Slot(j, |s.pool.buf|)] == o
    case InRing(k) => s.rb.outs <= k < s.rb.ins && |s.rb.buf| > 0 && s.rb.buf[Slot(k, |s.rb.buf|)] == o
    case WithProducer =>
      (s.prod.Filling? || s.prod.Pushing? || s.prod.Storing? || s.prod.Publishing?) && s.prod.pkt == o
    case WithConsumer =>
      (s.cons.Checking? || s.cons.Releasing? || s.cons.Returning? || s.cons.Returned?) && s.cons.pkt == o
  }

  /** The item whose carrier is, was or will be the packet in this place. */
  function Number(s: Sys, w: Where): int {
    match w
    case InPool(j) => j
    case InRing(k) => k
    case WithProducer => s.rb.ins
    case WithConsumer => Released(s)
  }

  lemma NumberOf(s: Sys, slab: seq<Ptr>, o: Ptr, w: Where)
    requires Inv(s, slab) && IsAt(s, o, w)
    ensures Released(s) <= Number(s, w) < Released(s) + |slab| && o == Carrier(slab, Number(s, w))
  {
    hide Slot;
    match w {
      case InRing(k) => assert ItemAt(s, slab, k);
      case InPool(j) =>
      case WithProducer =>
      case WithConsumer =>
    }
  }

  /** Different places have different numbers. */
  lemma NumbersDiffer(s: Sys, slab: seq<Ptr>, o: Ptr, v: Where, w: Where)
    requires Inv(s, slab) && IsAt(s, o, v) && IsAt(s, o, w) && Number(s, v) == Number(s, w)
    ensures v == w
  {
    hide Slot, Carrier;
  }

  /** In every window of one turn some item has this packet as its carrier. */
  lemma CarriedItem(slab: seq<Ptr>, m: nat, from: nat) returns (n: nat)
    requires m < |slab|
    ensures from <= n < from + |slab| && Carrier(slab, n) == slab[m]
  {
    var d := (m - from) % |slab|;
    n := from + d;
    ModStep(m - from, from, |slab|);
    assert m - from + from == m;
    DivModUnique(m, |slab|, 0, m);
  }

  lemma Placed(s: Sys, slab: seq<Ptr>, n: nat) returns (w: Where)
    requires Inv(s, slab) && Released(s) <= n < Released(s) + |slab|
    ensures IsAt(s, Carrier(slab, n), w)
  {
    hide Slot;
    assert ItemAt(s, slab, n);
    w := if n < s.rb.outs then WithConsumer else if n < s.rb.ins then InRing(n)
         else if n < s.pool.outs then WithProducer else InPool(n);
  }

  /** Every packet is in exactly one place: the pool, the producer, the ring or the consumer. */
  lemma OnePlace(s: Sys, slab: seq<Ptr>, o: Ptr)
    requires Inv(s, slab) && o in slab
    ensures exists w :: IsAt(s, o, w)
    ensures forall v, w :: IsAt(s, o, v) && IsAt(s, o, w) ==> v == w
  {
    hide Inv, IsAt, Carrier, Slot;
    var m: nat :| m < |slab| && slab[m] == o;
    ReleasedNat(s, slab);
    var n := CarriedItem(slab, m, Released(s));
    var w := Placed(s, slab, n);
    forall v, w | IsAt(s, o, v) && IsAt(s, o, w) ensures v == w {
      Unique(s, slab, o, v, w);
    }
  }

  lemma ReleasedNat(s: Sys, slab: seq<Ptr>)
    requires Inv(s, slab)
    ensures Released(s) >= 0 && GoodSlab(slab) && |slab| > 0
  {
  }

  lemma Unique(s: Sys, slab: seq<Ptr>, o: Ptr, v: Where, w: Where)
    requires Inv(s, slab) && IsAt(s, o, v) && IsAt(s, o, w)
    ensures v == w
  {
    hide Inv, IsAt, Carrier, Slot, Number;
    ReleasedNat(s, slab);
    NumberOf(s, slab, o, v);
    NumberOf(s, slab, o, w);
    if Number(s, v) < Number(s, w) {
      CarriersDiffer(slab, Number(s, v), Number(s, w));
    } else if Number(s, w) < Number(s, v) {
      CarriersDiffer(slab, Number(s, w), Number(s, v));
    }
    NumbersDiffer(s, slab, o, v, w);
  }

  /* ---- What never happens, and what has happened in the end ---- */

  /** The ring always has room for a push and the pool for a release. */
  lemma NeverFull(s: Sys, slab: seq<Ptr>)
    requires Inv(s, slab)
    ensures s.prod.Pushing? ==> !IsFull(s.rb)
    ensures s.cons.Releasing? ==> !IsFull(s.pool)
    ensures !s.cons.Failed?
  {
    hide Slot, Carrier, GoodSlab, Count;
    Turns(s, slab);
  }

  /** No packet overtakes another, and the items seen are exactly the first ones. */
  lemma InOrder(s: Sys, slab: seq<Ptr>)
    requires Inv(s, slab)
    ensures s.reorder == 0 && s.expected == s.received <= s.total
    ensures s.cons.Checking? ==> s.cons.pkt in s.seqOf && s.seqOf[s.cons.pkt] == s.received
  {
    hide Slot, Carrier, GoodSlab;
  }

  /** The check is a real one: in any state, a packet with another number than the expected one is
      counted as out of order, and one with the expected number is not. */
  lemma ReorderCounted(w: Word, s: Sys)
    requires s.cons.Checking? && s.cons.pkt in s.seqOf
    ensures var s', n := ConsumerStep(w, s), s.seqOf[s.cons.pkt];
            && s'.reorder == (if n == s.expected then s.reorder else s.reorder + 1)
            && s'.expected == n + 1 && s'.received == s.received + 1
  {
  }

  /** The threads cannot wait for each other: while items are missing, either the producer finds a free
      packet, or one is on its way to the consumer. */
  lemma NoDeadlock(s: Sys, slab: seq<Ptr>)
    requires Inv(s, slab) && s.prod.Looping? && s.prod.i < s.total && s.pool.ins == s.pool.outs
    ensures s.rb.ins != s.rb.outs || exists o :: IsAt(s, o, WithConsumer)
  {
    hide Slot, Carrier;
    if s.rb.ins == s.rb.outs {
      assert IsAt(s, s.cons.pkt, WithConsumer);
    }
  }

  /* ---- The program can always be finished ---- */

  /** The producer has ended, or waits for a free packet. */
  predicate Blocked(s: Sys) {
    s.prod.Stopped? || (s.prod.Looping? && s.prod.i != s.total && s.pool.ins == s.pool.outs)
  }

  /** How many steps the producer still has to take. */
  function ProducerWork(s: Sys): nat {
    if s.prod.Stopped? || s.prod.i > s.total then 0
    else
      1 + 7 * (s.total - s.prod.i) +
      match s.prod
      case Looping(_) => 6
      case Reading(_) => 5
      case Acquiring(_, _) => 4
      case Filling(_, _) => 3
      case Pushing(_, _) => 2
      case Storing(_, _) => 1
      case Publishing(_, _) => 0
      case Stopped => 0
  }

  function Outstanding(s: Sys): nat {
    if s.total < Released(s) then 0 else s.total - Released(s)
  }

  /** How many steps the consumer is away from giving back its next packet or, when the ring is empty,
      from its end. */
  function ConsumerWork(s: Sys): nat {
    var empty := s.rb.ins == s.rb.outs;
    match s.cons
    case Asking => if empty then 2 else 10
    case Rechecking => if empty then 1 else 9
    case Popping => if empty then 3 else 8
    case Loading => 7
    case Advancing(_) => 6
    case Checking(_) => 5
    case Releasing(_) => 4
    case Returning(_) => 3
    case Returned(_) => 2
    case Failed => 0
    case Done => 0
  }

  lemma ProducerAdvances(s: Sys, slab: seq<Ptr>)
    requires Inv(s, slab) && !Blocked(s)
    ensures ProducerWork(ProducerStep(Unbounded, s)) < ProducerWork(s)
  {
    hide Slot, Index, Load, Store, IsFull, Carrier;
    NeverFull(s, slab);
    if s.prod.Acquiring? {
      CarrierNotNull(slab, s.prod.i);
    }
  }

  lemma ConsumerAdvances(s: Sys, slab: seq<Ptr>)
    requires Inv(s, slab) && Blocked(s) && !s.cons.Done?
    ensures var s' := ConsumerStep(Unbounded, s);
            && ProducerWork(s') == ProducerWork(s) && Outstanding(s') <= Outstanding(s)
            && (Outstanding(s') == Outstanding(s) ==> ConsumerWork(s') < ConsumerWork(s))
  {
    hide Slot, Index, Load, IsFull, Carrier;
    NeverFull(s, slab);
    if s.cons.Advancing? {
      CarrierNotNull(slab, s.rb.outs);
    }
  }

  lemma {:induction false} RunAppend(w: Word, s: Sys, a: seq<Event>, b: seq<Event>)
    ensures Run(w, s, a + b) == Run(w, Run(w, s, a), b)
    decreases |b|
  {
    hide Next;
    if b == [] {
      assert a + b == a;
    } else {
      assert (a + b)[..|a + b| - 1] == a + b[..|b| - 1];
      RunAppend(w, s, a, b[..|b| - 1]);
    }
  }

  lemma RunOne(w: Word, s: Sys, e: Event)
    ensures Run(w, s, [e]) == Next(w, s, e)
  {
    assert [e][..0] == [];
  }

  /** From every reachable state some schedule takes the consumer to its end: the threads never wait
      for each other for good. */
  lemma {:induction false} Finishes(s: Sys, slab: seq<Ptr>) returns (es: seq<Event>)
    requires Inv(s, slab)
    ensures Run(Unbounded, s, es).cons.Done?
    decreases ProducerWork(s), Outstanding(s), ConsumerWork(s)
  {
    hide Inv, Next, Run, Blocked, ProducerWork, Outstanding, ConsumerWork;
    if s.cons.Done? {
      RunNone(Unbounded, s);
      return [];
    }
    var e := if Blocked(s) then Consume else Produce;
    var s' := Next(Unbounded, s, e);
    Advances(s, slab);
    StepKeeps(s, slab, e);
    var rest := Finishes(s', slab);
    RunOne(Unbounded, s, e);
    RunAppend(Unbounded, s, [e], rest);
    es := [e] + rest;
  }

  lemma RunNone(w: Word, s: Sys)
    ensures Run(w, s, []) == s
  {
  }

  lemma Advances(s: Sys, slab: seq<Ptr>)
    requires Inv(s, slab) && !s.cons.Done?
    ensures var s' := Next(Unbounded, s, if Blocked(s) then Consume else Produce);
            || ProducerWork(s') < ProducerWork(s)
            || (ProducerWork(s') == ProducerWork(s) && Outstanding(s') < Outstanding(s))
            || (ProducerWork(s') == ProducerWork(s) && Outstanding(s') == Outstanding(s)
                && ConsumerWork(s') < ConsumerWork(s))
  {
    hide Inv, ProducerStep, ConsumerStep, Blocked, ProducerWork, Outstanding, ConsumerWork;
    if Blocked(s) {
      ConsumerAdvances(s, slab);
    } else {
      ProducerAdvances(s, slab);
    }
  }

  /* ---- The end ---- */

  /** When the consumer exits, it has seen every item, in order, and every packet is free again. */
  lemma AllDelivered(s: Sys, slab: seq<Ptr>)
    requires Inv(s, slab) && s.cons.Done?
    ensures s.received == s.total && s.reorder == 0 && s.prod.Stopped?
    ensures s.rb.ins == s.rb.outs && s.pool.ins - s.pool.outs == |slab|
    ensures forall o <- slab :: exists j :: IsAt(s, o, InPool(j))
  {
    forall o | o in slab ensures exists j :: IsAt(s, o, InPool(j)) {
      OnePlace(s, slab, o);
      var w :| IsAt(s, o, w);
      assert w.InPool?;
      assert IsAt(s, o, InPool(w.j));
    }
  }

  /* ---- The 32-bit counters ---- */

  function ImageRing(r: Ring): Ring {
    Ring(r.buf, r.ins % WORD, r.outs % WORD)
  }

  /** What the 32-bit code has in memory. */
  function Image(s: Sys): Sys {
    s.(pool := ImageRing(s.pool), rb := ImageRing(s.rb))
  }

  lemma RingImage(r: Ring)
    requires Sized(|r.buf|) && r.outs <= r.ins <= r.outs + |r.buf|
    ensures ImageRing(r).ins == ImageRing(r).outs <==> r.ins == r.outs
    ensures IsFull(ImageRing(r)) <==> IsFull(r)
    ensures Load(ImageRing(r), r.outs % WORD) == Load(r, r.outs)
    ensures forall p :: Store(ImageRing(r), r.ins % WORD, p) == ImageRing(Store(r, r.ins, p))
    ensures Increment(Bits32, r.ins % WORD) == (r.ins + 1) % WORD
    ensures Increment(Bits32, r.outs % WORD) == (r.outs + 1) % WORD
  {
    CountWrapped(r.ins, r.outs);
    DivModUnique(r.ins - r.outs, WORD, 0, r.ins - r.outs);
    ModStep(r.ins, 1, WORD);
    ModStep(r.outs, 1, WORD);
    IndexImage(r, r.ins);
    IndexImage(r, r.outs);
  }

  lemma IndexImage(r: Ring, x: nat)
    requires Sized(|r.buf|)
    ensures Index(ImageRing(r), x % WORD) == Index(r, x)
  {
    MaskIsSlot(x, |r.buf|);
    MaskIsSlot(x % WORD, |r.buf|);
    WrapSlot(x, |r.buf|);
  }

  /** The tests, loads and increments of a ring give the same answers on its image. */
  predicate Faithful(r: Ring) {
    && (ImageRing(r).ins == ImageRing(r).outs <==> r.ins == r.outs)
    && (IsFull(ImageRing(r)) <==> IsFull(r))
    && Load(ImageRing(r), r.outs % WORD) == Load(r, r.outs)
    && Increment(Bits32, r.ins % WORD) == Increment(Unbounded, r.ins) % WORD
    && Increment(Bits32, r.outs % WORD) == Increment(Unbounded, r.outs) % WORD
  }

  ghost predicate StoresAlike(r: Ring) {
    forall p :: Store(ImageRing(r), r.ins % WORD, p) == ImageRing(Store(r, r.ins, p))
  }

  lemma RingFaithful(r: Ring)
    requires Sized(|r.buf|) && r.outs <= r.ins <= r.outs + |r.buf|
    ensures Faithful(r) && StoresAlike(r)
  {
    hide Load, Store, IsFull, ImageRing;
    RingImage(r);
  }

  /** One step of the code is one step of the proof's unbounded counters, wrapped. */
  lemma StepImage(s: Sys, slab: seq<Ptr>, e: Event)
    requires Inv(s, slab)
    ensures Next(Bits32, Image(s), e) == Image(Next(Unbounded, s, e))
  {
    hide Inv, Image, Faithful, StoresAlike, ProducerStep, ConsumerStep, IsFull;
    RingSized(s, slab);
    Turns(s, slab);
    OrderedRings(s, slab);
    RingFaithful(s.pool);
    RingFaithful(s.rb);
    if e == Produce {
      ProducerImage(s);
    } else {
      ConsumerImage(s);
    }
  }

  lemma OrderedRings(s: Sys, slab: seq<Ptr>)
    requires Inv(s, slab)
    ensures s.pool.outs <= s.pool.ins && s.rb.outs <= s.rb.ins && |s.pool.buf| == |slab| == |s.rb.buf|
  {
  }

  lemma ProducerImage(s: Sys)
    requires Faithful(s.pool) && Faithful(s.rb)
    requires StoresAlike(s.rb)
    ensures ProducerStep(Bits32, Image(s)) == Image(ProducerStep(Unbounded, s))
  {
    hide Faithful, ProducerStep, Image, ImageRing, Store;
    if s.prod.Storing? || s.prod.Publishing? {
      PushImage(s);
    } else {
      AcquireImage(s);
    }
  }

  lemma PushImage(s: Sys)
    requires Faithful(s.pool) && Faithful(s.rb) && (s.prod.Storing? || s.prod.Publishing?)
    requires StoresAlike(s.rb)
    ensures ProducerStep(Bits32, Image(s)) == Image(ProducerStep(Unbounded, s))
  {
    hide Load, Store, IsFull, Increment;
  }

  lemma AcquireImage(s: Sys)
    requires Faithful(s.pool) && Faithful(s.rb) && !s.prod.Storing? && !s.prod.Publishing?
    ensures ProducerStep(Bits32, Image(s)) == Image(ProducerStep(Unbounded, s))
  {
    hide Load, Store, IsFull, Increment;
  }

  lemma ConsumerImage(s: Sys)
    requires Faithful(s.pool) && Faithful(s.rb)
    requires StoresAlike(s.pool)
    ensures ConsumerStep(Bits32, Image(s)) == Image(ConsumerStep(Unbounded, s))
  {
    hide Faithful, ConsumerStep, Image, ImageRing, Store;
    if s.cons.Returning? || s.cons.Returned? || s.cons.Releasing? || s.cons.Checking? {
      ReturnImage(s);
    } else {
      PopImage(s);
    }
  }

  lemma PopImage(s: Sys)
    requires Faithful(s.pool) && Faithful(s.rb)
    requires !s.cons.Returning? && !s.cons.Returned? && !s.cons.Releasing? && !s.cons.Checking?
    ensures ConsumerStep(Bits32, Image(s)) == Image(ConsumerStep(Unbounded, s))
  {
    hide Load, Store, IsFull, Increment;
  }

  lemma ReturnImage(s: Sys)
    requires Faithful(s.pool) && Faithful(s.rb)
    requires s.cons.Returning? || s.cons.Returned? || s.cons.Releasing? || s.cons.Checking?
    requires StoresAlike(s.pool)
    ensures ConsumerStep(Bits32, Image(s)) == Image(ConsumerStep(Unbounded, s))
  {
    hide Load, Store, IsFull, Increment;
  }

  lemma {:induction false} RunImage(s: Sys, slab: seq<Ptr>, es: seq<Event>)
    requires Inv(s, slab)
    ensures Run(Bits32, Image(s), es) == Image(Run(Unbounded, s, es))
    decreases |es|
  {
    hide Inv, Next, Image;
    if es != [] {
      var front := es[..|es| - 1];
      RunImage(s, slab, front);
      RunKeeps(s, slab, front);
      StepImage(Run(Unbounded, s, front), slab, es[|es| - 1]);
    }
  }

  /** Under every interleaving, number of items and capacity, the 32-bit program keeps its promises. */
  lemma ProgramDelivers(base: Ptr, esize: nat, total: nat, buf: seq<Ptr>, seqOf: map<Ptr, nat>, es: seq<Event>)
    requires Sized(|buf|) && base > 0 && esize > 0
    ensures var s := Run(Bits32, Start(base, esize, total, buf, seqOf), es);
            && s.reorder == 0 && s.received <= total && !s.cons.Failed?
            && (s.prod.Pushing? ==> !IsFull(s.rb)) && (s.cons.Releasing? ==> !IsFull(s.pool))
            && (s.cons.Done? ==> s.received == total && s.prod.Stopped? && Count(s.pool.ins, s.pool.outs) == |buf|)
  {
    var s0, slab := Start(base, esize, total, buf, seqOf), Slab(base, esize, |buf|);
    StartOk(base, esize, total, buf, seqOf);
    assert Image(s0) == s0;
    hide Inv, Next, Run, Start, Slab, IsFull;
    RunImage(s0, slab, es);
    RunKeeps(s0, slab, es);
    var s := Run(Unbounded, s0, es);
    NeverFull(s, slab);
    InOrder(s, slab);
    TotalKept(s0, es);
    Turns(s, slab);
    RingSized(s, slab);
    RingImage(s.rb);
    RingImage(s.pool);
    if s.cons.Done? {
      AllDelivered(s, slab);
      CountWrapped(s.pool.ins, s.pool.outs);
    }
  }

  lemma {:induction false} TotalKept(s: Sys, es: seq<Event>)
    ensures Run(Unbounded, s, es).total == s.total
    decreases |es|
  {
    if es != [] {
      TotalKept(s, es[..|es| - 1]);
    }
  }

  /** After any beginning, some continuation lets the 32-bit program end, with every item received. */
  lemma ProgramFinishes(base: Ptr, esize: nat, total: nat, buf: seq<Ptr>, seqOf: map<Ptr, nat>, es: seq<Event>)
    returns (rest: seq<Event>)
    requires Sized(|buf|) && base > 0 && esize > 0
    ensures var s := Run(Bits32, Start(base, esize, total, buf, seqOf), es + rest); s.cons.Done? && s.received == total
  {
    var s0, slab := Start(base, esize, total, buf, seqOf), Slab(base, esize, |buf|);
    StartOk(base, esize, total, buf, seqOf);
    assert Image(s0) == s0;
    hide Inv, Next, Run, Start, Slab;
    RunKeeps(s0, slab, es);
    rest := Finishes(Run(Unbounded, s0, es), slab);
    RunAppend(Unbounded, s0, es, rest);
    RunImage(s0, slab, es + rest);
    ProgramDelivers(base, esize, total, buf, seqOf, es + rest);
  }
}
