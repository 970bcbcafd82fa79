/** The multi-producer/multi-consumer ring of structure/mpmc.c, as a system of atomic steps.

    Any number of threads interleave one shared-memory access at a time; the weak
    compare-and-swap may fail for no reason. The same step function runs on 32-bit counters
    (what the code has) and on unbounded tickets (what the proofs count with). */
module Mpmc {
  import opened Options
  import opened Machine
  import opened Bits

  type Ptr = nat
  type Tid = nat

  /** Where a thread is; the fields are its local variables. */
  datatype Pc =
    | Idle
    | EnqLoaded(ptr: Ptr, head: nat)              // about to load cons.tail (line 92)
    | EnqChecked(ptr: Ptr, head: nat, tail: nat)  // not full: about to compare-and-swap (line 103)
    | EnqClaimed(ptr: Ptr, head: nat)             // about to store the slot (line 108)
    | EnqStored(ptr: Ptr, head: nat)              // spinning on prod.tail (line 111)
    | EnqTurn(ptr: Ptr, head: nat)                // about to publish prod.tail (line 121)
    | DeqLoaded(head: nat)                        // about to load prod.tail (line 135)
    | DeqChecked(head: nat, tail: nat)            // not empty: about to compare-and-swap (line 143)
    | DeqClaimed(head: nat)                       // about to load the slot (line 148)
    | DeqRead(head: nat, value: Ptr)              // spinning on cons.tail (line 151)
    | DeqTurn(head: nat, value: Ptr)              // about to publish cons.tail (line 161)

  datatype Ring = Ring(buf: seq<Ptr>, prodHead: nat, prodTail: nat, consHead: nat, consTail: nat,
                       threads: map<Tid, Pc>)

  datatype Call = Enqueue(ptr: Ptr) | Dequeue

  /** The scheduler picks a thread; `call` matters to an idle one, `spurious` to a compare-and-swap. */
  datatype Event = Event(t: Tid, call: Call, spurious: bool)

  datatype Word = Bits32 | Unbounded

  function Increment(w: Word, x: nat): nat {
    if w == Bits32 then (x + 1) % WORD else x + 1
  }

  /** `head & mask` */
  function Slot(r: Ring, head: nat): (i: nat)
    requires |r.buf| > 0
    ensures i < |r.buf|
  {
    AndBound(head, |r.buf| - 1);
    And(head, |r.buf| - 1)
  }

  /** `(head - tail) > mask` on uint32 */
  predicate TooFar(r: Ring, head: nat, tail: nat) {
    (head - tail) % WORD > |r.buf| - 1
  }

  function Goto(r: Ring, t: Tid, pc: Pc): Ring {
    r.(threads := r.threads[t := pc])
  }

  /** One atomic step of thread `e.t`. */
  function Next(w: Word, r: Ring, e: Event): (r': Ring)
    requires |r.buf| > 0
    ensures |r'.buf| == |r.buf| && r'.threads.Keys == r.threads.Keys
  {
    if e.t !in r.threads then r else
    match r.threads[e.t]
    case Idle =>
      if e.call.Enqueue? then Goto(r, e.t, EnqLoaded(e.call.ptr, r.prodHead))
      else Goto(r, e.t, DeqLoaded(r.consHead))
    case EnqLoaded(p, h) =>
      if TooFar(r, h, r.consTail) then Goto(r, e.t, Idle)
      else Goto(r, e.t, EnqChecked(p, h, r.consTail))
    case EnqChecked(p, h, _) =>
      if !e.spurious && r.prodHead == h
      then Goto(r.(prodHead := Increment(w, h)), e.t, EnqClaimed(p, h))
      else Goto(r, e.t, EnqLoaded(p, r.prodHead))
    case EnqClaimed(p, h) =>
      Goto(r.(buf := r.buf[Slot(r, h) := p]), e.t, EnqStored(p, h))
    case EnqStored(p, h) =>
      if r.prodTail == h then Goto(r, e.t, EnqTurn(p, h)) else r
    case EnqTurn(_, h) =>
      Goto(r.(prodTail := Increment(w, h)), e.t, Idle)
    case DeqLoaded(h) =>
      if (h - r.prodTail) % WORD == 0 then Goto(r, e.t, Idle)
      else Goto(r, e.t, DeqChecked(h, r.prodTail))
    case DeqChecked(h, _) =>
      if !e.spurious && r.consHead == h
      then Goto(r.(consHead := Increment(w, h)), e.t, DeqClaimed(h))
      else Goto(r, e.t, DeqLoaded(r.consHead))
    case DeqClaimed(h) =>
      Goto(r, e.t, DeqRead(h, r.buf[Slot(r, h)]))
    case DeqRead(h, v) =>
      if r.consTail == h then Goto(r, e.t, DeqTurn(h, v)) else r
    case DeqTurn(h, v) =>
      Goto(r.(consTail := Increment(w, h)), e.t, Idle)
  }

  /** mpmc_ring_create, for a given set of threads. */
  function Create(capacity: nat, tids: set<Tid>): Option<Ring> {
    if capacity < 8 || And(capacity, capacity - 1) != 0 then None
    else Some(Ring(seq(capacity, _ => 0), 0, 0, 0, 0, map t | t in tids :: Idle))
  }

  /* ---- The system with its history ---- */

  /** The ring on unbounded tickets, with what the proofs remember: `log[n]` is the pointer of
      the enqueue that claimed ticket n, `got[n]` what the dequeue of ticket n loaded, and
      `producers[n]`, `consumers[n]` the threads that claimed it. */
  datatype Sys = Sys(r: Ring, log: seq<Ptr>, got: map<nat, Ptr>, producers: map<nat, Tid>, consumers: map<nat, Tid>)

  function Step(s: Sys, e: Event): (s': Sys)
    requires |s.r.buf| > 0
    ensures |s'.r.buf| == |s.r.buf|
  {
    var r' := Next(Unbounded, s.r, e);
    if e.t !in s.r.threads then s else
    var pc := s.r.threads[e.t];
    if pc.EnqChecked? && r'.threads[e.t].EnqClaimed? then
      s.(r := r', log := s.log + [pc.ptr], producers := s.producers[pc.head := e.t])
    else if pc.DeqChecked? && r'.threads[e.t].DeqClaimed? then
      s.(r := r', consumers := s.consumers[pc.head := e.t])
    else if pc.DeqClaimed? then
      s.(r := r', got := s.got[pc.head := r'.threads[e.t].value])
    else
      s.(r := r')
  }

  function Start(r: Ring): Sys {
    Sys(r, [], map[], map[], map[])
  }

  function Run(s: Sys, es: seq<Event>): (s': Sys)
    requires |s.r.buf| > 0
    ensures |s'.r.buf| == |s.r.buf|
  {
    if es == [] then s else Step(Run(s, es[..|es| - 1]), es[|es| - 1])
  }

  /* ---- The invariant ---- */

  predicate Producing(pc: Pc, n: nat) {
    (pc.EnqClaimed? || pc.EnqStored? || pc.EnqTurn?) && pc.head == n
  }

  predicate Consuming(pc: Pc, n: nat) {
    (pc.DeqClaimed? || pc.DeqRead? || pc.DeqTurn?) && pc.head == n
  }

  ghost predicate Sized(capacity: nat) {
    IsPow2(capacity) && 8 <= capacity < WORD
  }

  /** cons.tail <= cons.head <= prod.tail <= prod.head <= cons.tail + capacity. */
  predicate Ordered(r: Ring) {
    r.consTail <= r.consHead <= r.prodTail <= r.prodHead <= r.consTail + |r.buf|
  }

  /** The slot of ticket `n` holds the pointer that was logged for it. */
  predicate SlotHolds(buf: seq<Ptr>, log: seq<Ptr>, n: nat) {
    |buf| > 0 && n < |log| && buf[n % |buf|] == log[n]
  }

  /** What a thread's position says about the shared state. */
  predicate ThreadOk(s: Sys, t: Tid, pc: Pc) {
    var r := s.r;
    match pc
    case Idle => true
    case EnqLoaded(_, h) => h <= r.prodHead
    case EnqChecked(_, h, tail) =>
      h <= r.prodHead && tail <= r.consTail && (h == r.prodHead ==> 0 <= h - tail < |r.buf|)
    case EnqClaimed(p, h) => OwnsProd(s, t, h) && s.log[h] == p
    case EnqStored(p, h) => OwnsProd(s, t, h) && SlotHolds(r.buf, s.log, h) && s.log[h] == p
    case EnqTurn(p, h) => OwnsProd(s, t, h) && SlotHolds(r.buf, s.log, h) && s.log[h] == p && h == r.prodTail
    case DeqLoaded(h) => h <= r.consHead
    case DeqChecked(h, tail) => h <= r.consHead && tail <= r.prodTail && (h == r.consHead ==> h < tail)
    case DeqClaimed(h) => OwnsCons(s, t, h)
    case DeqRead(h, v) => OwnsCons(s, t, h) && h in s.got && s.got[h] == v
    case DeqTurn(h, v) => OwnsCons(s, t, h) && h in s.got && s.got[h] == v && h == r.consTail
  }

  predicate OwnsProd(s: Sys, t: Tid, n: nat) {
    s.r.prodTail <= n < s.r.prodHead && n < |s.log| && n in s.producers && s.producers[n] == t
  }

  predicate OwnsCons(s: Sys, t: Tid, n: nat) {
    s.r.consTail <= n < s.r.consHead && n in s.consumers && s.consumers[n] == t
  }

  /** The thread that claimed ticket `n` is in the middle of that operation. */
  predicate ProducerAt(r: Ring, producers: map<nat, Tid>, n: nat) {
    n in producers && producers[n] in r.threads && Producing(r.threads[producers[n]], n)
  }

  predicate ConsumerAt(r: Ring, consumers: map<nat, Tid>, n: nat) {
    n in consumers && consumers[n] in r.threads && Consuming(r.threads[consumers[n]], n)
  }

  /** Every claimed, unpublished ticket has its thread. */
  ghost predicate Manned(s: Sys) {
    && (forall n: nat :: s.r.prodTail <= n < s.r.prodHead ==> ProducerAt(s.r, s.producers, n))
    && (forall n: nat :: s.r.consTail <= n < s.r.consHead ==> ConsumerAt(s.r, s.consumers, n))
  }

  /** The published, unconsumed tickets are in their slots; what was taken is what was put. */
  ghost predicate Stored(s: Sys) {
    && |s.log| == s.r.prodHead
    && (forall n: nat {:trigger SlotHolds(s.r.buf, s.log, n)} ::
          s.r.consTail <= n < s.r.prodTail ==> SlotHolds(s.r.buf, s.log, n))
    && (forall n <- s.got :: n < s.r.consHead && n < |s.log| && s.got[n] == s.log[n])
    && (forall n: nat {:trigger n in s.got} :: n < s.r.consTail ==> n in s.got)
  }

  ghost predicate Inv(s: Sys) {
    && Sized(|s.r.buf|) && Ordered(s.r) && Manned(s) && Stored(s)
    && forall t <- s.r.threads :: ThreadOk(s, t, s.r.threads[t])
  }

  /* ---- Every step keeps the invariant ---- */

  lemma SizedBounds(capacity: nat)
    requires Sized(capacity)
    ensures 8 <= capacity < WORD
  {
  }

  lemma SlotMod(r: Ring, n: nat)
    requires Sized(|r.buf|)
    ensures Slot(r, n) == n % |r.buf|
  {
    var k: nat :| |r.buf| == Pow2(k);
    AndMask(n, k);
  }

  /** Distinct tickets less than a capacity apart use distinct slots. */
  lemma TooFarExact(r: Ring, head: nat, tail: nat)
    requires 0 <= head - tail < WORD
    ensures TooFar(r, head, tail) <==> head - tail >= |r.buf|
  {
    DivModUnique(head - tail, WORD, 0, head - tail);
  }

  lemma HoldsLonger(buf: seq<Ptr>, log: seq<Ptr>, p: Ptr, n: nat)
    requires SlotHolds(buf, log, n)
    ensures SlotHolds(buf, log + [p], n)
  {
  }

  /** A store into the slot of ticket `h` spares the slots of the other live tickets. */
  lemma HoldsStore(r: Ring, log: seq<Ptr>, h: nat, p: Ptr, n: nat, low: nat)
    requires Sized(|r.buf|) && low <= h < low + |r.buf| && low <= n < low + |r.buf| && n != h
    requires SlotHolds(r.buf, log, n)
    ensures SlotHolds(r.buf[Slot(r, h) := p], log, n)
  {
    SlotMod(r, h);
    if n < h { ModDistinct(n, h, |r.buf|); } else { ModDistinct(h, n, |r.buf|); }
  }

  lemma HoldsNew(r: Ring, log: seq<Ptr>, h: nat, p: Ptr)
    requires Sized(|r.buf|) && h < |log| && log[h] == p
    ensures SlotHolds(r.buf[Slot(r, h) := p], log, h)
  {
    SlotMod(r, h);
  }

  lemma ReadsLog(s: Sys, h: nat)
    requires Sized(|s.r.buf|) && SlotHolds(s.r.buf, s.log, h)
    ensures s.r.buf[Slot(s.r, h)] == s.log[h]
  {
    SlotMod(s.r, h);
  }

  /** Steps that only move the thread: loads, tests, failed compare-and-swaps and spins. */
  lemma GotoKeeps(s: Sys, t: Tid, pc: Pc)
    requires Inv(s) && t in s.r.threads && ThreadOk(s, t, pc)
    requires forall n :: Producing(s.r.threads[t], n) ==> Producing(pc, n)
    requires forall n :: Consuming(s.r.threads[t], n) ==> Consuming(pc, n)
    ensures Inv(s.(r := Goto(s.r, t, pc)))
  {
    hide SlotHolds, Sized, ThreadOk, Manned;
    var s' := s.(r := Goto(s.r, t, pc));
    forall u <- s'.r.threads ensures ThreadOk(s', u, s'.r.threads[u]) {
      ThreadOkSame(s, s', u, s'.r.threads[u]);
    }
    MannedStep(s, s', t);
  }

  /** Only `t` moved; it may have claimed the next ticket, or published the oldest one. */
  lemma MannedStep(s: Sys, s': Sys, t: Tid)
    requires Manned(s) && t in s.r.threads && t in s'.r.threads && Ordered(s.r)
    requires s'.r.threads == s.r.threads[t := s'.r.threads[t]]
    requires forall n: nat :: s'.r.prodTail <= n < s'.r.prodHead && Producing(s.r.threads[t], n) ==>
               Producing(s'.r.threads[t], n)
    requires forall n: nat :: s'.r.consTail <= n < s'.r.consHead && Consuming(s.r.threads[t], n) ==>
               Consuming(s'.r.threads[t], n)
    requires s.r.prodTail <= s'.r.prodTail && s.r.consTail <= s'.r.consTail
    requires || (s'.producers == s.producers && s'.r.prodHead == s.r.prodHead)
             || (s'.producers == s.producers[s.r.prodHead := t] && s'.r.prodHead == s.r.prodHead + 1
                 && Producing(s'.r.threads[t], s.r.prodHead))
    requires || (s'.consumers == s.consumers && s'.r.consHead == s.r.consHead)
             || (s'.consumers == s.consumers[s.r.consHead := t] && s'.r.consHead == s.r.consHead + 1
                 && Consuming(s'.r.threads[t], s.r.consHead))
    ensures Manned(s')
  {
    forall n: nat | s'.r.prodTail <= n < s'.r.prodHead ensures ProducerAt(s'.r, s'.producers, n) {
      if n < s.r.prodHead {
        assert ProducerAt(s.r, s.producers, n);
      }
    }
    forall n: nat | s'.r.consTail <= n < s'.r.consHead ensures ConsumerAt(s'.r, s'.consumers, n) {
      if n < s.r.consHead {
        assert ConsumerAt(s.r, s.consumers, n);
      }
    }
  }

  /** A thread's condition does not look at the other threads. */
  lemma ThreadOkSame(s: Sys, s': Sys, t: Tid, pc: Pc)
    requires ThreadOk(s, t, pc) && s' == s.(r := s.r.(threads := s'.r.threads))
    ensures ThreadOk(s', t, pc)
  {
    hide SlotHolds;
  }

  lemma ClaimEnq(s: Sys, t: Tid)
    requires Inv(s) && t in s.r.threads && s.r.threads[t].EnqChecked? && s.r.threads[t].head == s.r.prodHead
    ensures var h, p := s.r.prodHead, s.r.threads[t].ptr;
            Inv(s.(r := Goto(s.r.(prodHead := h + 1), t, EnqClaimed(p, h)),
                   log := s.log + [p], producers := s.producers[h := t]))
  {
    hide SlotHolds, Sized, ThreadOk, Manned;
    var h, p := s.r.prodHead, s.r.threads[t].ptr;
    var s' := s.(r := Goto(s.r.(prodHead := h + 1), t, EnqClaimed(p, h)),
                 log := s.log + [p], producers := s.producers[h := t]);
    CheckedRoom(s, t);
    forall n: nat | SlotHolds(s.r.buf, s.log, n) ensures SlotHolds(s.r.buf, s.log + [p], n) {
      HoldsLonger(s.r.buf, s.log, p, n);
    }
    forall u <- s'.r.threads ensures ThreadOk(s', u, s'.r.threads[u]) {
      ClaimEnqThread(s, s', t, u);
    }
    MannedStep(s, s', t);
  }

  lemma CheckedRoom(s: Sys, t: Tid)
    requires Inv(s) && t in s.r.threads && s.r.threads[t].EnqChecked? && s.r.threads[t].head == s.r.prodHead
    ensures s.r.prodHead < s.r.consTail + |s.r.buf|
  {
    assert ThreadOk(s, t, s.r.threads[t]);
  }

  lemma ClaimEnqThread(s: Sys, s': Sys, t: Tid, u: Tid)
    requires t in s.r.threads && u in s.r.threads && s.r.threads[t].EnqChecked?
    requires ThreadOk(s, u, s.r.threads[u]) && |s.log| == s.r.prodHead && s.r.prodTail <= s.r.prodHead
    requires var h, p := s.r.prodHead, s.r.threads[t].ptr;
             s' == s.(r := Goto(s.r.(prodHead := h + 1), t, EnqClaimed(p, h)),
                      log := s.log + [p], producers := s.producers[h := t])
    ensures ThreadOk(s', u, s'.r.threads[u])
  {
    hide SlotHolds;
    var pc := s.r.threads[u];
    if (pc.EnqStored? || pc.EnqTurn?) && u != t {
      HoldsLonger(s.r.buf, s.log, s.r.threads[t].ptr, pc.head);
    }
  }

  lemma StoreEnq(s: Sys, t: Tid)
    requires Inv(s) && t in s.r.threads && s.r.threads[t].EnqClaimed?
    ensures var pc := s.r.threads[t];
            && |s.r.buf| > 0
            && Inv(s.(r := Goto(s.r.(buf := s.r.buf[Slot(s.r, pc.head) := pc.ptr]), t, EnqStored(pc.ptr, pc.head))))
  {
    hide SlotHolds, Sized, ThreadOk, Slot, Manned;
    SizedBounds(|s.r.buf|);
    var h, p := s.r.threads[t].head, s.r.threads[t].ptr;
    var buf := s.r.buf[Slot(s.r, h) := p];
    var s' := s.(r := Goto(s.r.(buf := buf), t, EnqStored(p, h)));
    ClaimedOwns(s, t);
    forall n: nat | SlotHolds(s.r.buf, s.log, n) && s.r.consTail <= n < s.r.prodHead && n != h
      ensures SlotHolds(buf, s.log, n)
    {
      HoldsStore(s.r, s.log, h, p, n, s.r.consTail);
    }
    HoldsNew(s.r, s.log, h, p);
    forall u <- s'.r.threads ensures ThreadOk(s', u, s'.r.threads[u]) {
      StoreEnqThread(s, s', t, u);
    }
    MannedStep(s, s', t);
  }

  lemma ClaimedOwns(s: Sys, t: Tid)
    requires Inv(s) && t in s.r.threads && s.r.threads[t].EnqClaimed?
    ensures OwnsProd(s, t, s.r.threads[t].head) && s.log[s.r.threads[t].head] == s.r.threads[t].ptr
  {
    assert ThreadOk(s, t, s.r.threads[t]);
  }

  lemma StoreEnqThread(s: Sys, s': Sys, t: Tid, u: Tid)
    requires t in s.r.threads && u in s.r.threads && s.r.threads[t].EnqClaimed? && Ordered(s.r)
    requires ThreadOk(s, u, s.r.threads[u]) && OwnsProd(s, t, s.r.threads[t].head)
    requires s.log[s.r.threads[t].head] == s.r.threads[t].ptr
    requires s' == s.(r := Goto(s.r.(buf := s'.r.buf), t, EnqStored(s.r.threads[t].ptr, s.r.threads[t].head)))
    requires |s'.r.buf| == |s.r.buf|
    requires SlotHolds(s'.r.buf, s.log, s.r.threads[t].head)
    requires forall n: nat ::
               SlotHolds(s.r.buf, s.log, n) && s.r.consTail <= n < s.r.prodHead && n != s.r.threads[t].head ==>
                 SlotHolds(s'.r.buf, s.log, n)
    ensures ThreadOk(s', u, s'.r.threads[u])
  {
    hide SlotHolds;
  }

  lemma PublishEnq(s: Sys, t: Tid)
    requires Inv(s) && t in s.r.threads && s.r.threads[t].EnqTurn?
    ensures Inv(s.(r := Goto(s.r.(prodTail := s.r.threads[t].head + 1), t, Idle)))
  {
    hide SlotHolds, Sized, ThreadOk, Manned;
    var h := s.r.threads[t].head;
    var s' := s.(r := Goto(s.r.(prodTail := h + 1), t, Idle));
    TurnHolds(s, t);
    forall u <- s'.r.threads ensures ThreadOk(s', u, s'.r.threads[u]) {
      PublishEnqThread(s, s', t, u);
    }
    MannedStep(s, s', t);
  }

  lemma TurnHolds(s: Sys, t: Tid)
    requires Inv(s) && t in s.r.threads && s.r.threads[t].EnqTurn?
    ensures var h := s.r.threads[t].head;
            OwnsProd(s, t, h) && h == s.r.prodTail && SlotHolds(s.r.buf, s.log, h)
  {
    assert ThreadOk(s, t, s.r.threads[t]);
  }

  lemma PublishEnqThread(s: Sys, s': Sys, t: Tid, u: Tid)
    requires t in s.r.threads && u in s.r.threads && s.r.threads[t].EnqTurn? && Ordered(s.r)
    requires ThreadOk(s, u, s.r.threads[u]) && ThreadOk(s, t, s.r.threads[t])
    requires s' == s.(r := Goto(s.r.(prodTail := s.r.threads[t].head + 1), t, Idle))
    ensures ThreadOk(s', u, s'.r.threads[u])
  {
    hide SlotHolds;
  }

  lemma ClaimDeq(s: Sys, t: Tid)
    requires Inv(s) && t in s.r.threads && s.r.threads[t].DeqChecked? && s.r.threads[t].head == s.r.consHead
    ensures var h := s.r.consHead;
            Inv(s.(r := Goto(s.r.(consHead := h + 1), t, DeqClaimed(h)), consumers := s.consumers[h := t]))
  {
    hide SlotHolds, Sized, ThreadOk, Manned;
    var h := s.r.consHead;
    var s' := s.(r := Goto(s.r.(consHead := h + 1), t, DeqClaimed(h)), consumers := s.consumers[h := t]);
    CheckedItem(s, t);
    forall u <- s'.r.threads ensures ThreadOk(s', u, s'.r.threads[u]) {
      ClaimDeqThread(s, s', t, u);
    }
    MannedStep(s, s', t);
  }

  lemma CheckedItem(s: Sys, t: Tid)
    requires Inv(s) && t in s.r.threads && s.r.threads[t].DeqChecked? && s.r.threads[t].head == s.r.consHead
    ensures s.r.consHead < s.r.prodTail
  {
    assert ThreadOk(s, t, s.r.threads[t]);
  }

  lemma ClaimDeqThread(s: Sys, s': Sys, t: Tid, u: Tid)
    requires t in s.r.threads && u in s.r.threads && s.r.threads[t].DeqChecked? && Ordered(s.r)
    requires ThreadOk(s, u, s.r.threads[u])
    requires var h := s.r.consHead;
             s' == s.(r := Goto(s.r.(consHead := h + 1), t, DeqClaimed(h)), consumers := s.consumers[h := t])
    ensures ThreadOk(s', u, s'.r.threads[u])
  {
    hide SlotHolds;
  }

  lemma LoadDeq(s: Sys, t: Tid)
    requires Inv(s) && t in s.r.threads && s.r.threads[t].DeqClaimed?
    ensures var h := s.r.threads[t].head;
            |s.r.buf| > 0 && var v := s.r.buf[Slot(s.r, h)];
            Inv(s.(r := Goto(s.r, t, DeqRead(h, v)), got := s.got[h := v]))
  {
    hide SlotHolds, Sized, ThreadOk, Slot, Manned;
    var h := s.r.threads[t].head;
    ClaimedOwnsDeq(s, t);
    ReadsLog(s, h);
    var v := s.r.buf[Slot(s.r, h)];
    var s' := s.(r := Goto(s.r, t, DeqRead(h, v)), got := s.got[h := v]);
    forall u <- s'.r.threads ensures ThreadOk(s', u, s'.r.threads[u]) {
      LoadDeqThread(s, s', t, u, v);
    }
    MannedStep(s, s', t);
  }

  lemma ClaimedOwnsDeq(s: Sys, t: Tid)
    requires Inv(s) && t in s.r.threads && s.r.threads[t].DeqClaimed?
    ensures OwnsCons(s, t, s.r.threads[t].head) && SlotHolds(s.r.buf, s.log, s.r.threads[t].head)
  {
    assert ThreadOk(s, t, s.r.threads[t]);
  }

  lemma LoadDeqThread(s: Sys, s': Sys, t: Tid, u: Tid, v: Ptr)
    requires t in s.r.threads && u in s.r.threads && s.r.threads[t].DeqClaimed?
    requires ThreadOk(s, u, s.r.threads[u]) && OwnsCons(s, t, s.r.threads[t].head)
    requires var h := s.r.threads[t].head;
             s' == s.(r := Goto(s.r, t, DeqRead(h, v)), got := s.got[h := v])
    ensures ThreadOk(s', u, s'.r.threads[u])
  {
    hide SlotHolds;
  }

  lemma PublishDeq(s: Sys, t: Tid)
    requires Inv(s) && t in s.r.threads && s.r.threads[t].DeqTurn?
    ensures Inv(s.(r := Goto(s.r.(consTail := s.r.threads[t].head + 1), t, Idle)))
  {
    hide SlotHolds, Sized, ThreadOk, Manned;
    var h := s.r.threads[t].head;
    var s' := s.(r := Goto(s.r.(consTail := h + 1), t, Idle));
    TurnGot(s, t);
    forall u <- s'.r.threads ensures ThreadOk(s', u, s'.r.threads[u]) {
      PublishDeqThread(s, s', t, u);
    }
    MannedStep(s, s', t);
  }

  lemma TurnGot(s: Sys, t: Tid)
    requires Inv(s) && t in s.r.threads && s.r.threads[t].DeqTurn?
    ensures var h := s.r.threads[t].head; OwnsCons(s, t, h) && h == s.r.consTail && h in s.got
  {
    assert ThreadOk(s, t, s.r.threads[t]);
  }

  lemma PublishDeqThread(s: Sys, s': Sys, t: Tid, u: Tid)
    requires t in s.r.threads && u in s.r.threads && s.r.threads[t].DeqTurn? && Ordered(s.r)
    requires ThreadOk(s, u, s.r.threads[u]) && ThreadOk(s, t, s.r.threads[t])
    requires s' == s.(r := Goto(s.r.(consTail := s.r.threads[t].head + 1), t, Idle))
    ensures ThreadOk(s', u, s'.r.threads[u])
  {
    hide SlotHolds;
  }

  lemma InvThread(s: Sys, t: Tid)
    requires Inv(s)
    ensures Ordered(s.r) && 8 <= |s.r.buf| < WORD && |s.log| == s.r.prodHead
    ensures t in s.r.threads ==> ThreadOk(s, t, s.r.threads[t])
  {
  }

  lemma StepKeepsEnq(s: Sys, e: Event)
    requires Inv(s) && e.t in s.r.threads
    requires var pc := s.r.threads[e.t];
             pc.EnqLoaded? || pc.EnqChecked? || pc.EnqClaimed? || pc.EnqStored? || pc.EnqTurn?
    ensures |s.r.buf| > 0 && Inv(Step(s, e))
  {
    hide SlotHolds, Inv, Slot, TooFar;
    InvThread(s, e.t);
    var s' := Step(s, e);
    match s.r.threads[e.t]
    case EnqLoaded(p, h) =>
      if h == s.r.prodHead {
        TooFarExact(s.r, h, s.r.consTail);
      }
      GotoKeeps(s, e.t, s'.r.threads[e.t]);
    case EnqChecked(p, h, _) =>
      if s'.r.threads[e.t].EnqClaimed? {
        ClaimEnq(s, e.t);
      } else {
        GotoKeeps(s, e.t, s'.r.threads[e.t]);
      }
    case EnqClaimed(_, _) => StoreEnq(s, e.t);
    case EnqStored(_, h) =>
      if h == s.r.prodTail {
        GotoKeeps(s, e.t, s'.r.threads[e.t]);
      }
    case EnqTurn(_, _) => PublishEnq(s, e.t);
  }

  lemma StepKeepsDeq(s: Sys, e: Event)
    requires Inv(s) && e.t in s.r.threads
    requires var pc := s.r.threads[e.t];
             pc.DeqLoaded? || pc.DeqChecked? || pc.DeqClaimed? || pc.DeqRead? || pc.DeqTurn?
    ensures |s.r.buf| > 0 && Inv(Step(s, e))
  {
    hide SlotHolds, Inv, Slot, TooFar;
    InvThread(s, e.t);
    var s' := Step(s, e);
    match s.r.threads[e.t]
    case DeqLoaded(h) => GotoKeeps(s, e.t, s'.r.threads[e.t]);
    case DeqChecked(h, _) =>
      if s'.r.threads[e.t].DeqClaimed? {
        ClaimDeq(s, e.t);
      } else {
        GotoKeeps(s, e.t, s'.r.threads[e.t]);
      }
    case DeqClaimed(_) => LoadDeq(s, e.t);
    case DeqRead(h, _) =>
      if h == s.r.consTail {
        GotoKeeps(s, e.t, s'.r.threads[e.t]);
      }
    case DeqTurn(_, _) => PublishDeq(s, e.t);
  }

  lemma StepKeeps(s: Sys, e: Event)
    requires Inv(s)
    ensures |s.r.buf| > 0 && Inv(Step(s, e))
  {
    hide SlotHolds, Inv, Slot, TooFar;
    InvThread(s, e.t);
    if e.t in s.r.threads {
      var pc := s.r.threads[e.t];
      if pc.Idle? {
        GotoKeeps(s, e.t, Step(s, e).r.threads[e.t]);
      } else if pc.EnqLoaded? || pc.EnqChecked? || pc.EnqClaimed? || pc.EnqStored? || pc.EnqTurn? {
        StepKeepsEnq(s, e);
      } else {
        StepKeepsDeq(s, e);
      }
    }
  }

  /* ---- Runs ---- */

  lemma CreateStarts(capacity: nat, tids: set<Tid>)
    requires capacity < WORD
    ensures Create(capacity, tids).Some? <==> IsPow2(capacity) && capacity >= 8
    ensures Create(capacity, tids).Some? ==>
              var r := Create(capacity, tids).value;
              && Inv(Start(r)) && |r.buf| == capacity && r.prodHead == r.prodTail == r.consHead == r.consTail == 0
              && r.threads.Keys == tids && forall t <- tids :: r.threads[t].Idle?
  {
    if capacity > 0 {
      AndPredecessor(capacity);
    }
  }

  /** Safety: every state of every run, with any threads and any schedule, satisfies the invariant. */
  lemma {:induction false} RunKeeps(s: Sys, es: seq<Event>)
    requires Inv(s)
    ensures |s.r.buf| > 0 && Inv(Run(s, es))
  {
    hide Inv, Step;
    InvThread(s, 0);
    if es != [] {
      RunKeeps(s, es[..|es| - 1]);
      StepKeeps(Run(s, es[..|es| - 1]), es[|es| - 1]);
    }
  }

  /** First in, first out: what the completed dequeues took, in ticket order, is exactly the
      beginning of what the enqueues put, and a dequeue returns what its own ticket put. */
  lemma FirstInFirstOut(s: Sys)
    requires Inv(s)
    ensures s.r.consTail <= |s.log|
    ensures forall n: nat :: n < s.r.consTail ==> n in s.got && s.got[n] == s.log[n]
    ensures forall t <- s.r.threads :: s.r.threads[t].DeqTurn? ==>
              s.r.threads[t].head < |s.log| && s.r.threads[t].value == s.log[s.r.threads[t].head]
  {
    forall t | t in s.r.threads && s.r.threads[t].DeqTurn?
      ensures s.r.threads[t].head < |s.log| && s.r.threads[t].value == s.log[s.r.threads[t].head]
    {
      assert ThreadOk(s, t, s.r.threads[t]);
    }
  }

  /** The ticket a thread holds between its claim and its publication. */
  function Held(pc: Pc): Option<nat> {
    if pc.EnqClaimed? || pc.EnqStored? || pc.EnqTurn? || pc.DeqClaimed? || pc.DeqRead? || pc.DeqTurn?
    then Some(pc.head) else None
  }

  /** No two threads in the middle of an operation, of either kind, touch the same slot. */
  lemma NoSharedSlot(s: Sys, t: Tid, u: Tid)
    requires Inv(s) && t in s.r.threads && u in s.r.threads && t != u
    requires Held(s.r.threads[t]).Some? && Held(s.r.threads[u]).Some?
    ensures |s.r.buf| > 0
    ensures Slot(s.r, Held(s.r.threads[t]).value) != Slot(s.r, Held(s.r.threads[u]).value)
  {
    hide Slot;
    InvThread(s, t);
    InvThread(s, u);
    var a, b := Held(s.r.threads[t]).value, Held(s.r.threads[u]).value;
    assert a != b;
    SlotMod(s.r, a);
    SlotMod(s.r, b);
    if a < b { ModDistinct(a, b, |s.r.buf|); } else { ModDistinct(b, a, |s.r.buf|); }
  }

  predicate InEnqueue(pc: Pc) {
    pc.EnqClaimed? || pc.EnqStored? || pc.EnqTurn?
  }

  predicate InDequeue(pc: Pc) {
    pc.DeqClaimed? || pc.DeqRead? || pc.DeqTurn?
  }

  /** The tickets in [prod.tail, prod.head) and the threads in the middle of an enqueue correspond one
      to one, and so do those in [cons.tail, cons.head) and the threads in the middle of a dequeue. */
  lemma TicketsAreThreads(s: Sys)
    requires Inv(s)
    ensures forall n: nat :: s.r.prodTail <= n < s.r.prodHead ==>
              n in s.producers && s.producers[n] in s.r.threads && Producing(s.r.threads[s.producers[n]], n)
    ensures forall n: nat :: s.r.consTail <= n < s.r.consHead ==>
              n in s.consumers && s.consumers[n] in s.r.threads && Consuming(s.r.threads[s.consumers[n]], n)
    ensures forall t <- s.r.threads :: InEnqueue(s.r.threads[t]) ==> OwnsProd(s, t, s.r.threads[t].head)
    ensures forall t <- s.r.threads :: InDequeue(s.r.threads[t]) ==> OwnsCons(s, t, s.r.threads[t].head)
  {
    forall t | t in s.r.threads
      ensures InEnqueue(s.r.threads[t]) ==> OwnsProd(s, t, s.r.threads[t].head)
      ensures InDequeue(s.r.threads[t]) ==> OwnsCons(s, t, s.r.threads[t].head)
    {
      assert ThreadOk(s, t, s.r.threads[t]);
    }
    forall n: nat | s.r.prodTail <= n < s.r.prodHead ensures n in s.producers {
      assert ProducerAt(s.r, s.producers, n);
    }
    forall n: nat | s.r.prodTail <= n < s.r.prodHead
      ensures s.producers[n] in s.r.threads && Producing(s.r.threads[s.producers[n]], n)
    {
      assert ProducerAt(s.r, s.producers, n);
    }
    forall n: nat | s.r.consTail <= n < s.r.consHead ensures n in s.consumers {
      assert ConsumerAt(s.r, s.consumers, n);
    }
    forall n: nat | s.r.consTail <= n < s.r.consHead
      ensures s.consumers[n] in s.r.threads && Consuming(s.r.threads[s.consumers[n]], n)
    {
      assert ConsumerAt(s.r, s.consumers, n);
    }
  }

  /* ---- The 32-bit counters ---- */

  function Image(x: nat): nat {
    x % WORD
  }

  function ImagePc(pc: Pc): Pc {
    match pc
    case Idle => Idle
    case EnqLoaded(p, h) => EnqLoaded(p, Image(h))
    case EnqChecked(p, h, tail) => EnqChecked(p, Image(h), Image(tail))
    case EnqClaimed(p, h) => EnqClaimed(p, Image(h))
    case EnqStored(p, h) => EnqStored(p, Image(h))
    case EnqTurn(p, h) => EnqTurn(p, Image(h))
    case DeqLoaded(h) => DeqLoaded(Image(h))
    case DeqChecked(h, tail) => DeqChecked(Image(h), Image(tail))
    case DeqClaimed(h) => DeqClaimed(Image(h))
    case DeqRead(h, v) => DeqRead(Image(h), v)
    case DeqTurn(h, v) => DeqTurn(Image(h), v)
  }

  function ImageThreads(threads: map<Tid, Pc>): map<Tid, Pc> {
    map t | t in threads :: ImagePc(threads[t])
  }

  /** What a machine with uint32 counters stores. */
  function Image32(r: Ring): Ring {
    Ring(r.buf, Image(r.prodHead), Image(r.prodTail), Image(r.consHead), Image(r.consTail), ImageThreads(r.threads))
  }

  /** No compare-and-swap takes another head for the one that was loaded: the low 32 bits agree only
      if all bits do. */
  predicate Fresh(s: Sys, e: Event) {
    e.t in s.r.threads && !e.spurious ==>
      match s.r.threads[e.t]
      case EnqChecked(_, h, _) => Image(h) == Image(s.r.prodHead) ==> h == s.r.prodHead
      case DeqChecked(h, _) => Image(h) == Image(s.r.consHead) ==> h == s.r.consHead
      case _ => true
  }

  /** That is so unless exactly a multiple of 2^32 claims came between load and compare-and-swap. */
  lemma FreshExactly(s: Sys, e: Event)
    requires Inv(s) && e.t in s.r.threads && !e.spurious
    ensures Fresh(s, e) <==>
              match s.r.threads[e.t]
              case EnqChecked(_, h, _) => h <= s.r.prodHead && ((s.r.prodHead - h) % WORD == 0 ==> h == s.r.prodHead)
              case DeqChecked(h, _) => h <= s.r.consHead && ((s.r.consHead - h) % WORD == 0 ==> h == s.r.consHead)
              case _ => true
  {
    hide Image, SlotHolds, Manned, Stored;
    InvThread(s, e.t);
    match s.r.threads[e.t]
    case EnqChecked(_, h, _) => ImageCongruent(s.r.prodHead, h);
    case DeqChecked(h, _) => ImageCongruent(s.r.consHead, h);
    case _ =>
  }

  lemma ImageCongruent(a: nat, b: nat)
    ensures Image(a) == Image(b) <==> (a - b) % WORD == 0
  {
    ModSub(a, b, WORD);
    var d := a % WORD - b % WORD;
    DivModUnique(d, WORD, if d < 0 then -1 else 0, if d < 0 then d + WORD else d);
  }

  /** uint32 subtraction of images. */
  lemma ImageSub(a: nat, b: nat)
    ensures (Image(a) - Image(b)) % WORD == (a - b) % WORD
  {
    ModSub(a, b, WORD);
  }

  lemma ModSub(a: int, b: int, m: int)
    requires m > 0
    ensures (a % m - b % m) % m == (a - b) % m
  {
    var q := a / m - b / m;
    assert a - b == q * m + (a % m - b % m) by {
      assert (a / m - b / m) * m == (a / m) * m - (b / m) * m;
    }
    DivShift(q, a % m - b % m, m);
  }

  lemma ImageNext(x: nat)
    ensures Increment(Bits32, Image(x)) == Image(x + 1)
  {
    ModSub(x + 1, 1, WORD);
    DivShift(x / WORD, x % WORD + 1, WORD);
    assert (x / WORD) * WORD + (x % WORD + 1) == x + 1;
  }

  lemma IncrementImage(h: nat)
    ensures Increment(Bits32, Image(h)) == Image(Increment(Unbounded, h))
  {
    ImageNext(h);
  }

  lemma ImageSame(a: nat, b: nat)
    requires a <= b < a + WORD
    ensures Image(a) == Image(b) <==> a == b
  {
    if a < b {
      ModDistinct(a, b, WORD);
    }
  }

  /** The slot of a ticket can be computed from its image, since the capacity divides 2^32. */
  lemma ImageSlot(r: Ring, n: nat)
    requires Sized(|r.buf|)
    ensures Slot(Image32(r), Image(n)) == Slot(r, n)
  {
    hide Slot, IsPow2;
    WrapMod(n, |r.buf|);
    SlotMod(r, n);
    SlotMod(Image32(r), Image(n));
  }

  /** The tests of the code give the same answers on images. */
  lemma ImageTests(s: Sys, e: Event)
    requires Inv(s) && Fresh(s, e) && e.t in s.r.threads
    ensures var r, i, pc := s.r, Image32(s.r), s.r.threads[e.t];
            match pc
            case Idle => true
            case EnqLoaded(_, h) => TooFar(i, Image(h), i.consTail) == TooFar(r, h, r.consTail)
            case EnqChecked(_, h, _) => e.spurious || (i.prodHead == Image(h)) == (r.prodHead == h)
            case EnqClaimed(_, h) => |r.buf| > 0 && Slot(i, Image(h)) == Slot(r, h)
            case EnqStored(_, h) => (i.prodTail == Image(h)) == (r.prodTail == h)
            case EnqTurn(_, h) => true
            case DeqLoaded(h) => ((Image(h) - i.prodTail) % WORD == 0) == ((h - r.prodTail) % WORD == 0)
            case DeqChecked(h, _) => e.spurious || (i.consHead == Image(h)) == (r.consHead == h)
            case DeqClaimed(h) => |r.buf| > 0 && Slot(i, Image(h)) == Slot(r, h)
            case DeqRead(h, _) => (i.consTail == Image(h)) == (r.consTail == h)
            case DeqTurn(h, _) => true
  {
    hide Image, Slot, SlotHolds, Manned, Stored;
    InvThread(s, e.t);
    match s.r.threads[e.t]
    case Idle =>
    case EnqLoaded(_, h) => ImageSub(h, s.r.consTail);
    case EnqChecked(_, h, _) =>
    case EnqClaimed(_, h) => ImageSlot(s.r, h);
    case EnqStored(_, h) => ImageSame(s.r.prodTail, h);
    case EnqTurn(_, h) =>
    case DeqLoaded(h) => ImageSub(h, s.r.prodTail);
    case DeqChecked(h, _) =>
    case DeqClaimed(h) => ImageSlot(s.r, h);
    case DeqRead(h, _) => ImageSame(s.r.consTail, h);
    case DeqTurn(h, _) =>
  }

  lemma ImageUpdate(threads: map<Tid, Pc>, t: Tid, pc: Pc)
    requires t in threads
    ensures t in ImageThreads(threads) && ImageThreads(threads)[t] == ImagePc(threads[t])
    ensures ImageThreads(threads[t := pc]) == ImageThreads(threads)[t := ImagePc(pc)]
  {
    hide Image, ImagePc;
    assert ImageThreads(threads[t := pc]) == ImageThreads(threads)[t := ImagePc(pc)];
  }

  /** A step of the machine with uint32 counters is the image of a step on unbounded tickets, exactly
      unless it takes a compare-and-swap for another one. */
  lemma StepImage(s: Sys, e: Event)
    requires Inv(s)
    ensures |s.r.buf| > 0
    ensures Next(Bits32, Image32(s.r), e) == Image32(Step(s, e).r) <==> Fresh(s, e)
  {
    hide Image, Slot, TooFar, Inv;
    InvThread(s, e.t);
    if !Fresh(s, e) {
      FooledStep(s.r, e);
    } else if e.t in s.r.threads {
      ImageTests(s, e);
      ImageStep(s.r, e);
    }
  }

  /** A compare-and-swap that should fail and succeeds leaves its thread elsewhere. */
  lemma FooledStep(r: Ring, e: Event)
    requires |r.buf| > 0 && e.t in r.threads && !e.spurious
    requires match r.threads[e.t]
             case EnqChecked(_, h, _) => Image(h) == Image(r.prodHead) && h != r.prodHead
             case DeqChecked(h, _) => Image(h) == Image(r.consHead) && h != r.consHead
             case _ => false
    ensures Next(Bits32, Image32(r), e) != Image32(Next(Unbounded, r, e))
  {
    hide Image, Slot, TooFar, ImageThreads, Increment;
    ImageUpdate(r.threads, e.t, Next(Unbounded, r, e).threads[e.t]);
    assert Image32(r).threads[e.t] == ImagePc(r.threads[e.t]);
  }

  lemma ImageStep(r: Ring, e: Event)
    requires |r.buf| > 0 && e.t in r.threads
    requires var i, pc := Image32(r), r.threads[e.t];
             match pc
             case Idle => true
             case EnqLoaded(_, h) => TooFar(i, Image(h), i.consTail) == TooFar(r, h, r.consTail)
             case EnqChecked(_, h, _) => e.spurious || (i.prodHead == Image(h)) == (r.prodHead == h)
             case EnqClaimed(_, h) => Slot(i, Image(h)) == Slot(r, h)
             case EnqStored(_, h) => (i.prodTail == Image(h)) == (r.prodTail == h)
             case EnqTurn(_, h) => true
             case DeqLoaded(h) => ((Image(h) - i.prodTail) % WORD == 0) == ((h - r.prodTail) % WORD == 0)
             case DeqChecked(h, _) => e.spurious || (i.consHead == Image(h)) == (r.consHead == h)
             case DeqClaimed(h) => Slot(i, Image(h)) == Slot(r, h)
             case DeqRead(h, _) => (i.consTail == Image(h)) == (r.consTail == h)
             case DeqTurn(h, _) => true
    ensures Next(Bits32, Image32(r), e) == Image32(Next(Unbounded, r, e))
  {
    hide Image, Slot, TooFar, ImageThreads, Increment;
    var pc := r.threads[e.t];
    ImageUpdate(r.threads, e.t, Next(Unbounded, r, e).threads[e.t]);
    if !pc.Idle? {
      IncrementImage(pc.head);
    }
  }

  predicate Windowed(s: Sys, es: seq<Event>)
    requires |s.r.buf| > 0
  {
    es == [] || (Windowed(s, es[..|es| - 1]) && Fresh(Run(s, es[..|es| - 1]), es[|es| - 1]))
  }

  /** A run of the bare machine, without history. */
  function RunRing(w: Word, r: Ring, es: seq<Event>): (r': Ring)
    requires |r.buf| > 0
    ensures |r'.buf| == |r.buf|
  {
    if es == [] then r else Next(w, RunRing(w, r, es[..|es| - 1]), es[|es| - 1])
  }

  lemma {:induction false} RunHasRing(s: Sys, es: seq<Event>)
    requires |s.r.buf| > 0
    ensures Run(s, es).r == RunRing(Unbounded, s.r, es)
  {
    if es != [] {
      RunHasRing(s, es[..|es| - 1]);
    }
  }

  /** Refinement: a run of the uint32 machine is, at every moment, the image of the run on tickets. */
  lemma {:induction false} RunImage(s: Sys, es: seq<Event>)
    requires Inv(s) && |s.r.buf| > 0 && Windowed(s, es)
    ensures RunRing(Bits32, Image32(s.r), es) == Image32(Run(s, es).r)
  {
    hide Inv, Step, Next, Image32, Fresh;
    if es != [] {
      var front := es[..|es| - 1];
      RunImage(s, front);
      RunKeeps(s, front);
      StepImage(Run(s, front), es[|es| - 1]);
    }
  }

  /* ---- What the callers see ---- */

  /** The pointers of the enqueues that returned true, in the order they returned. */
  function Accepted(w: Word, r: Ring, es: seq<Event>): seq<Ptr>
    requires |r.buf| > 0
  {
    if es == [] then [] else
    var front, e := es[..|es| - 1], es[|es| - 1];
    var before := RunRing(w, r, front);
    Accepted(w, r, front)
    + if e.t in before.threads && before.threads[e.t].EnqTurn? then [before.threads[e.t].ptr] else []
  }

  /** The pointers that the dequeues which returned true delivered, in the order they returned. */
  function Delivered(w: Word, r: Ring, es: seq<Event>): seq<Ptr>
    requires |r.buf| > 0
  {
    if es == [] then [] else
    var front, e := es[..|es| - 1], es[|es| - 1];
    var before := RunRing(w, r, front);
    Delivered(w, r, front)
    + if e.t in before.threads && before.threads[e.t].DeqTurn? then [before.threads[e.t].value] else []
  }

  lemma {:induction false} ResultsAreLog(r: Ring, es: seq<Event>)
    requires Inv(Start(r)) && r.prodTail == 0
    ensures |r.buf| > 0
    ensures var s := Run(Start(r), es);
            && Inv(s) && s.r.consTail <= s.r.prodTail <= |s.log|
            && Accepted(Unbounded, r, es) == s.log[..s.r.prodTail]
            && Delivered(Unbounded, r, es) == s.log[..s.r.consTail]
  {
    hide Inv, Next, Step;
    RunKeeps(Start(r), es);
    InvThread(Run(Start(r), es), 0);
    InvThread(Start(r), 0);
    if es != [] {
      var front, e := es[..|es| - 1], es[|es| - 1];
      ResultsAreLog(r, front);
      RunHasRing(Start(r), front);
      ResultStep(Run(Start(r), front), e);
    }
  }

  /** What one step returns to its caller, if anything. */
  lemma ResultStep(s: Sys, e: Event)
    requires Inv(s)
    ensures |s.r.buf| > 0
    ensures var s', pc := Step(s, e), if e.t in s.r.threads then s.r.threads[e.t] else Idle;
            && s.log <= s'.log && |s.log| == s.r.prodHead
            && (if pc.EnqTurn? then
                  s'.r.prodTail == s.r.prodTail + 1 && s.r.prodTail < |s.log| && s.log[s.r.prodTail] == pc.ptr
                else s'.r.prodTail == s.r.prodTail)
            && (if pc.DeqTurn? then
                  s'.r.consTail == s.r.consTail + 1 && s.r.consTail < |s.log| && s.log[s.r.consTail] == pc.value
                else s'.r.consTail == s.r.consTail)
  {
    hide Inv, Step;
    var pc := if e.t in s.r.threads then s.r.threads[e.t] else Idle;
    if pc.EnqTurn? {
      EnqueueReturns(s, e);
    } else if pc.DeqTurn? {
      DequeueReturns(s, e);
    } else {
      NothingReturns(s, e);
    }
  }

  lemma EnqueueReturns(s: Sys, e: Event)
    requires Inv(s) && e.t in s.r.threads && s.r.threads[e.t].EnqTurn?
    ensures |s.r.buf| > 0 && |s.log| == s.r.prodHead
    ensures var s' := Step(s, e);
            && s'.log == s.log && s'.r.consTail == s.r.consTail && s'.r.prodTail == s.r.prodTail + 1
            && s.r.prodTail < |s.log| && s.log[s.r.prodTail] == s.r.threads[e.t].ptr
  {
    hide SlotHolds, Slot, TooFar, Inv;
    InvThread(s, e.t);
  }

  lemma DequeueReturns(s: Sys, e: Event)
    requires Inv(s) && e.t in s.r.threads && s.r.threads[e.t].DeqTurn?
    ensures |s.r.buf| > 0 && |s.log| == s.r.prodHead
    ensures var s' := Step(s, e);
            && s'.log == s.log && s'.r.prodTail == s.r.prodTail && s'.r.consTail == s.r.consTail + 1
            && s.r.consTail < |s.log| && s.log[s.r.consTail] == s.r.threads[e.t].value
  {
    hide SlotHolds, Slot, TooFar, Inv;
    FirstInFirstOut(s);
    InvThread(s, e.t);
  }

  lemma NothingReturns(s: Sys, e: Event)
    requires Inv(s)
    requires e.t in s.r.threads ==> !s.r.threads[e.t].EnqTurn? && !s.r.threads[e.t].DeqTurn?
    ensures |s.r.buf| > 0 && |s.log| == s.r.prodHead
    ensures var s' := Step(s, e);
            s.log <= s'.log && s'.r.prodTail == s.r.prodTail && s'.r.consTail == s.r.consTail
  {
    hide SlotHolds, Slot, TooFar, Inv;
    InvThread(s, e.t);
  }

  lemma CreateImage(capacity: nat, tids: set<Tid>)
    requires Create(capacity, tids).Some?
    ensures Image32(Create(capacity, tids).value) == Create(capacity, tids).value
  {
    var r := Create(capacity, tids).value;
    assert ImageThreads(r.threads) == r.threads;
  }

  /** When the compare-and-swap succeeds, the uint32 test that preceded it was the true comparison. */
  lemma TestWasExact(s: Sys, t: Tid)
    requires Inv(s) && t in s.r.threads
    ensures s.r.threads[t].EnqChecked? && s.r.threads[t].head == s.r.prodHead ==>
              var h, tail := s.r.prodHead, s.r.threads[t].tail;
              (TooFar(s.r, h, tail) <==> h - tail > |s.r.buf| - 1) && !TooFar(s.r, h, tail)
    ensures s.r.threads[t].DeqChecked? && s.r.threads[t].head == s.r.consHead ==>
              s.r.threads[t].head < s.r.threads[t].tail <= s.r.prodTail
  {
    hide SlotHolds, Manned, Stored, TooFar;
    InvThread(s, t);
    var pc := s.r.threads[t];
    if pc.EnqChecked? && pc.head == s.r.prodHead {
      TooFarExact(s.r, pc.head, pc.tail);
    }
  }

  /** With an up-to-date head, an enqueue is refused exactly when the ring is full, and a dequeue
      exactly when no published item is unclaimed. */
  lemma RefusedExactly(s: Sys, e: Event)
    requires Inv(s) && e.t in s.r.threads
    ensures |s.r.buf| > 0
    ensures s.r.threads[e.t].EnqLoaded? && s.r.threads[e.t].head == s.r.prodHead ==>
              (Step(s, e).r.threads[e.t].Idle? <==> s.r.prodHead - s.r.consTail == |s.r.buf|)
    ensures s.r.threads[e.t].DeqLoaded? && s.r.threads[e.t].head == s.r.consHead ==>
              (Step(s, e).r.threads[e.t].Idle? <==> s.r.consHead == s.r.prodTail)
  {
    hide SlotHolds, Manned, Stored, TooFar, Slot;
    InvThread(s, e.t);
    var pc := s.r.threads[e.t];
    if pc.EnqLoaded? && pc.head == s.r.prodHead {
      TooFarExact(s.r, pc.head, s.r.consTail);
    }
    if pc.DeqLoaded? && pc.head == s.r.consHead {
      NegativeMod(s.r.prodTail - pc.head);
    }
  }

  /** With any head, however stale: once consumers are past it, the enqueue is refused unless they
      are ahead, modulo 2^32, by nothing or by more than 2^32 minus the capacity; before that, exactly
      when the ring was full at that head. */
  lemma RefusedWhen(s: Sys, e: Event)
    requires Inv(s) && e.t in s.r.threads && s.r.threads[e.t].EnqLoaded?
    ensures |s.r.buf| > 0
    ensures var head, tail, n := s.r.threads[e.t].head, s.r.consTail, |s.r.buf|;
            Step(s, e).r.threads[e.t].Idle?
            <==> if head < tail then 0 < (tail - head) % WORD <= WORD - n else head - tail == n
  {
    hide SlotHolds, Manned, Stored, Slot;
    InvThread(s, e.t);
    var head, tail := s.r.threads[e.t].head, s.r.consTail;
    if head < tail {
      NegatedMod(tail - head);
    } else {
      DivModUnique(head - tail, WORD, 0, head - tail);
    }
  }

  lemma NegatedMod(d: nat)
    ensures (0 - d) % WORD == if d % WORD == 0 then 0 else WORD - d % WORD
  {
    var q, r := d / WORD, d % WORD;
    assert d == q * WORD + r;
    if r == 0 {
      DivModUnique(0 - d, WORD, 0 - q, 0);
    } else {
      DivModUnique(0 - d, WORD, 0 - q - 1, WORD - r);
    }
  }

  /** A ring of eight slots, where thread 0 is about to check a head that it loaded right after the
      creation, and thread 1 is passing one item through. */
  function Passing(slot: Ptr, prodHead: nat, prodTail: nat, consHead: nat, consTail: nat, pc: Pc): Ring {
    Ring([slot, 0, 0, 0, 0, 0, 0, 0], prodHead, prodTail, consHead, consTail, map[0 := EnqLoaded(7, 0), 1 := pc])
  }

  lemma RunStep(w: Word, r: Ring, es: seq<Event>, e: Event, r': Ring)
    requires |r.buf| > 0 && RunRing(w, r, es) == r'
    ensures |r'.buf| > 0 && RunRing(w, r, es + [e]) == Next(w, r', e)
  {
    assert (es + [e])[..|es + [e]| - 1] == es;
  }

  lemma EnqueueClaims(r: Ring, es: seq<Event>) returns (es': seq<Event>)
    requires |r.buf| > 0 && RunRing(Bits32, r, es) == Passing(0, 0, 0, 0, 0, Idle)
    ensures RunRing(Bits32, r, es') == Passing(0, 1, 0, 0, 0, EnqClaimed(5, 0))
  {
    hide RunRing;
    var e := Event(1, Enqueue(5), false);
    RunStep(Bits32, r, es, e, Passing(0, 0, 0, 0, 0, Idle));
    RunStep(Bits32, r, es + [e], e, Passing(0, 0, 0, 0, 0, EnqLoaded(5, 0)));
    RunStep(Bits32, r, es + [e] + [e], e, Passing(0, 0, 0, 0, 0, EnqChecked(5, 0, 0)));
    es' := es + [e] + [e] + [e];
  }

  lemma EnqueuePublishes(r: Ring, es: seq<Event>) returns (es': seq<Event>)
    requires |r.buf| > 0 && RunRing(Bits32, r, es) == Passing(0, 1, 0, 0, 0, EnqClaimed(5, 0))
    ensures RunRing(Bits32, r, es') == Passing(5, 1, 1, 0, 0, Idle)
  {
    hide RunRing;
    var e := Event(1, Enqueue(5), false);
    RunStep(Bits32, r, es, e, Passing(0, 1, 0, 0, 0, EnqClaimed(5, 0)));
    RunStep(Bits32, r, es + [e], e, Passing(5, 1, 0, 0, 0, EnqStored(5, 0)));
    RunStep(Bits32, r, es + [e] + [e], e, Passing(5, 1, 0, 0, 0, EnqTurn(5, 0)));
    es' := es + [e] + [e] + [e];
  }

  lemma DequeueClaims(r: Ring, es: seq<Event>) returns (es': seq<Event>)
    requires |r.buf| > 0 && RunRing(Bits32, r, es) == Passing(5, 1, 1, 0, 0, Idle)
    ensures RunRing(Bits32, r, es') == Passing(5, 1, 1, 1, 0, DeqClaimed(0))
  {
    hide RunRing;
    var e := Event(1, Dequeue, false);
    RunStep(Bits32, r, es, e, Passing(5, 1, 1, 0, 0, Idle));
    RunStep(Bits32, r, es + [e], e, Passing(5, 1, 1, 0, 0, DeqLoaded(0)));
    RunStep(Bits32, r, es + [e] + [e], e, Passing(5, 1, 1, 0, 0, DeqChecked(0, 1)));
    es' := es + [e] + [e] + [e];
  }

  lemma DequeuePublishes(r: Ring, es: seq<Event>) returns (es': seq<Event>)
    requires |r.buf| > 0 && RunRing(Bits32, r, es) == Passing(5, 1, 1, 1, 0, DeqClaimed(0))
    ensures RunRing(Bits32, r, es') == Passing(5, 1, 1, 1, 1, Idle)
  {
    hide RunRing;
    var e := Event(1, Dequeue, false);
    RunStep(Bits32, r, es, e, Passing(5, 1, 1, 1, 0, DeqClaimed(0)));
    RunStep(Bits32, r, es + [e], e, Passing(5, 1, 1, 1, 0, DeqRead(0, 5)));
    RunStep(Bits32, r, es + [e] + [e], e, Passing(5, 1, 1, 1, 0, DeqTurn(0, 5)));
    es' := es + [e] + [e] + [e];
  }

  /** A refusal does not mean that the ring is full: after this run it is empty, and refuses. */
  lemma RefusedWhileEmpty() returns (es: seq<Event>)
    ensures Create(8, {0, 1}).Some? && |Create(8, {0, 1}).value.buf| > 0
    ensures var r := RunRing(Bits32, Create(8, {0, 1}).value, es);
            && r.prodHead == r.prodTail == r.consHead == r.consTail
            && 0 in r.threads && r.threads[0] == EnqLoaded(7, 0)
            && Next(Bits32, r, Event(0, Dequeue, false)).threads[0] == Idle
  {
    var r := Create(8, {0, 1}).value;
    var e := Event(0, Enqueue(7), false);
    assert RunRing(Bits32, r, []) == r;
    RunStep(Bits32, r, [], e, r);
    assert r.buf == [0, 0, 0, 0, 0, 0, 0, 0];
    assert Next(Bits32, r, e) == Passing(0, 0, 0, 0, 0, Idle);
    es := EnqueueClaims(r, [] + [e]);
    es := EnqueuePublishes(r, es);
    es := DequeueClaims(r, es);
    es := DequeuePublishes(r, es);
  }

  lemma NegativeMod(d: nat)
    requires d < WORD
    ensures (0 - d) % WORD == 0 <==> d == 0
  {
    if d > 0 {
      DivModUnique(0 - d, WORD, -1, WORD - d);
    }
  }

  /* ---- No deadlock ---- */

  lemma {:induction false} RunAppend(s: Sys, a: seq<Event>, b: seq<Event>)
    requires |s.r.buf| > 0
    ensures Run(s, a + b) == Run(Run(s, a), b)
    decreases |b|
  {
    hide Step;
    if b == [] {
      assert a + b == a;
    } else {
      var front := b[..|b| - 1];
      assert (a + b)[..|a + b| - 1] == a + front;
      RunAppend(s, a, front);
    }
  }

  /** The thread whose turn it is to publish can do so by its own steps alone. */
  lemma FinishEnqueue(s: Sys) returns (es: seq<Event>, s': Sys)
    requires Inv(s) && s.r.prodTail < s.r.prodHead
    ensures |s.r.buf| > 0 && s' == Run(s, es) && Inv(s')
    ensures s.r.prodTail in s.producers && forall e <- es :: e.t == s.producers[s.r.prodTail]
    ensures s'.r.prodTail == s.r.prodTail + 1 && s'.r.prodHead == s.r.prodHead
    ensures s'.r.consTail == s.r.consTail && s'.r.consHead == s.r.consHead
  {
    hide Inv, Next, Run;
    InvThread(s, 0);
    var t := OldestProducer(s);
    var e := Event(t, Dequeue, false);
    var s1 := AdvanceEnqueue(s, e);
    if s.r.threads[t].EnqTurn? {
      es, s' := [e], s1;
    } else {
      var s2 := AdvanceEnqueue(s1, e);
      if s1.r.threads[t].EnqTurn? {
        es, s' := [e, e], s2;
      } else {
        var s3 := AdvanceEnqueue(s2, e);
        es, s' := [e, e, e], s3;
      }
    }
    RunThree(s, e);
  }

  lemma RunThree(s: Sys, e: Event)
    requires |s.r.buf| > 0
    ensures Run(s, [e]) == Step(s, e) && Run(s, [e, e]) == Step(Step(s, e), e)
    ensures Run(s, [e, e, e]) == Step(Step(Step(s, e), e), e)
  {
    hide Step;
    assert [e, e, e][..2] == [e, e] && [e, e][..1] == [e] && [e][..0] == [];
    assert Run(s, []) == s;
    assert Run(s, [e]) == Step(s, e);
    assert Run(s, [e, e]) == Step(Run(s, [e]), e);
  }

  lemma OldestProducer(s: Sys) returns (t: Tid)
    requires Inv(s) && s.r.prodTail < s.r.prodHead
    ensures s.r.prodTail in s.producers && s.producers[s.r.prodTail] == t
    ensures t in s.r.threads && Producing(s.r.threads[t], s.r.prodTail)
  {
    assert ProducerAt(s.r, s.producers, s.r.prodTail);
    t := s.producers[s.r.prodTail];
  }

  /** One step of the thread holding prod.tail: store, then see its turn, then publish. */
  lemma AdvanceEnqueue(s: Sys, e: Event) returns (s': Sys)
    requires Inv(s) && e.t in s.r.threads && Producing(s.r.threads[e.t], s.r.prodTail)
    ensures |s.r.buf| > 0 && s' == Step(s, e) && Inv(s') && e.t in s'.r.threads
    ensures s'.r.prodHead == s.r.prodHead && s'.r.consTail == s.r.consTail && s'.r.consHead == s.r.consHead
    ensures s.r.threads[e.t].EnqClaimed? ==> s'.r.threads[e.t].EnqStored?
    ensures s.r.threads[e.t].EnqStored? ==> s'.r.threads[e.t].EnqTurn?
    ensures !s.r.threads[e.t].EnqTurn? ==> s'.r.prodTail == s.r.prodTail && Producing(s'.r.threads[e.t], s'.r.prodTail)
    ensures s.r.threads[e.t].EnqTurn? ==> s'.r.prodTail == s.r.prodTail + 1
  {
    hide Inv, Slot, TooFar;
    StepKeeps(s, e);
    s' := Step(s, e);
  }

  lemma FinishDequeue(s: Sys) returns (es: seq<Event>, s': Sys)
    requires Inv(s) && s.r.consTail < s.r.consHead
    ensures |s.r.buf| > 0 && s' == Run(s, es) && Inv(s')
    ensures s.r.consTail in s.consumers && forall e <- es :: e.t == s.consumers[s.r.consTail]
    ensures s'.r.consTail == s.r.consTail + 1 && s'.r.consHead == s.r.consHead
    ensures s'.r.prodTail == s.r.prodTail && s'.r.prodHead == s.r.prodHead
  {
    hide Inv, Next, Run;
    InvThread(s, 0);
    var t := OldestConsumer(s);
    var e := Event(t, Dequeue, false);
    var s1 := AdvanceDequeue(s, e);
    if s.r.threads[t].DeqTurn? {
      es, s' := [e], s1;
    } else {
      var s2 := AdvanceDequeue(s1, e);
      if s1.r.threads[t].DeqTurn? {
        es, s' := [e, e], s2;
      } else {
        var s3 := AdvanceDequeue(s2, e);
        es, s' := [e, e, e], s3;
      }
    }
    RunThree(s, e);
  }

  lemma OldestConsumer(s: Sys) returns (t: Tid)
    requires Inv(s) && s.r.consTail < s.r.consHead
    ensures s.r.consTail in s.consumers && s.consumers[s.r.consTail] == t
    ensures t in s.r.threads && Consuming(s.r.threads[t], s.r.consTail)
  {
    assert ConsumerAt(s.r, s.consumers, s.r.consTail);
    t := s.consumers[s.r.consTail];
  }

  lemma AdvanceDequeue(s: Sys, e: Event) returns (s': Sys)
    requires Inv(s) && e.t in s.r.threads && Consuming(s.r.threads[e.t], s.r.consTail)
    ensures |s.r.buf| > 0 && s' == Step(s, e) && Inv(s') && e.t in s'.r.threads
    ensures s'.r.prodHead == s.r.prodHead && s'.r.prodTail == s.r.prodTail && s'.r.consHead == s.r.consHead
    ensures s.r.threads[e.t].DeqClaimed? ==> s'.r.threads[e.t].DeqRead?
    ensures s.r.threads[e.t].DeqRead? ==> s'.r.threads[e.t].DeqTurn?
    ensures !s.r.threads[e.t].DeqTurn? ==> s'.r.consTail == s.r.consTail && Consuming(s'.r.threads[e.t], s'.r.consTail)
    ensures s.r.threads[e.t].DeqTurn? ==> s'.r.consTail == s.r.consTail + 1
  {
    hide Inv, Slot, TooFar;
    StepKeeps(s, e);
    s' := Step(s, e);
  }

  /** No spin loop deadlocks: from every reachable state there is a schedule that completes every
      claimed operation without any new claim. */
  lemma {:induction false} Drains(s: Sys) returns (es: seq<Event>)
    requires Inv(s)
    ensures |s.r.buf| > 0
    ensures var s' := Run(s, es);
            && Inv(s') && s'.r.prodTail == s'.r.prodHead == s.r.prodHead
            && s'.r.consTail == s'.r.consHead == s.r.consHead
    decreases s.r.prodHead - s.r.prodTail + s.r.consHead - s.r.consTail
  {
    hide Inv, Run, Step;
    InvThread(s, 0);
    var a, b, s1;
    if s.r.prodTail < s.r.prodHead {
      a, s1 := FinishEnqueue(s);
      InvThread(s1, 0);
      b := Drains(s1);
      es := a + b;
      RunAppend(s, a, b);
    } else if s.r.consTail < s.r.consHead {
      a, s1 := FinishDequeue(s);
      InvThread(s1, 0);
      b := Drains(s1);
      es := a + b;
      RunAppend(s, a, b);
    } else {
      es := [];
      RunNone(s);
    }
  }

  lemma RunNone(s: Sys)
    requires |s.r.buf| > 0
    ensures Run(s, []) == s
  {
  }
}
