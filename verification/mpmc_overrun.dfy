/** A run of the ring of structure/mpmc.c that overwrites an item: a producer sleeps between its check
    and its compare-and-swap while exactly 2^32 tickets are claimed, and wakes up when the ring is full. */
module MpmcOverrun {
  import opened Options
  import opened Machine
  import opened Bits
  import opened Mpmc
  import opened MpmcCalls

  /** Where a run has led, and what its callers have seen. */
  predicate Saw(start: Ring, es: seq<Event>, r: Ring, accepted: seq<Ptr>, delivered: seq<Ptr>)
    requires |start.buf| > 0
  {
    && RunRing(Bits32, start, es) == r
    && Accepted(Bits32, start, es) == accepted && Delivered(Bits32, start, es) == delivered
  }

  lemma SawNext(start: Ring, es: seq<Event>, r: Ring, a: seq<Ptr>, d: seq<Ptr>, e: Event)
    requires |start.buf| > 0 && Saw(start, es, r, a, d) && e.t in r.threads
    ensures |r.buf| > 0
    ensures Saw(start, es + [e], Next(Bits32, r, e),
                a + (if r.threads[e.t].EnqTurn? then [r.threads[e.t].ptr] else []),
                d + (if r.threads[e.t].DeqTurn? then [r.threads[e.t].value] else []))
  {
    assert (es + [e])[..|es + [e]| - 1] == es;
  }

  /** Two threads, of which thread 0 sleeps and thread 1 works. */
  function Two(buf: seq<Ptr>, head: nat, tail: nat, sleeper: Pc, worker: Pc): Ring {
    Ring(buf, head, head, tail, tail, map[0 := sleeper, 1 := worker])
  }

  function Fives(n: nat): seq<Ptr> {
    seq(n, _ => 5)
  }

  /** A step that completes no call. */
  lemma SawStep(start: Ring, es: seq<Event>, r: Ring, r': Ring, a: seq<Ptr>, d: seq<Ptr>, e: Event)
    requires |start.buf| > 0 && |r.buf| > 0 && Saw(start, es, r, a, d) && e.t in r.threads && Next(Bits32, r, e) == r'
    requires !r.threads[e.t].EnqTurn? && !r.threads[e.t].DeqTurn?
    ensures Saw(start, es + [e], r', a, d)
  {
    hide Saw, Next;
    SawNext(start, es, r, a, d, e);
    assert a + [] == a && d + [] == d;
  }

  /** Thread 1 in the middle of a call. */
  function Busy(buf: seq<Ptr>, prodHead: nat, prodTail: nat, consHead: nat, consTail: nat, pc: Pc, worker: Pc): Ring {
    Ring(buf, prodHead, prodTail, consHead, consTail, map[0 := pc, 1 := worker])
  }

  lemma EnqueueClaims(start: Ring, es: seq<Event>, buf: seq<Ptr>, h: nat, t: nat, pc: Pc, a: seq<Ptr>, d: seq<Ptr>)
    returns (es': seq<Event>)
    requires |start.buf| > 0 && |buf| == 8 && Saw(start, es, Two(buf, h, t, pc, Idle), a, d)
    requires (h - t) % WORD <= 7
    ensures Saw(start, es', Busy(buf, (h + 1) % WORD, h, t, t, pc, EnqClaimed(5, h)), a, d)
  {
    hide Saw;
    var e := Event(1, Enqueue(5), false);
    var r0, r1 := Two(buf, h, t, pc, Idle), Busy(buf, h, h, t, t, pc, EnqLoaded(5, h));
    var r2 := Busy(buf, h, h, t, t, pc, EnqChecked(5, h, t));
    SawStep(start, es, r0, r1, a, d, e);
    SawStep(start, es + [e], r1, r2, a, d, e);
    SawStep(start, es + [e] + [e], r2, Busy(buf, (h + 1) % WORD, h, t, t, pc, EnqClaimed(5, h)), a, d, e);
    es' := es + [e] + [e] + [e];
  }

  /** Thread 1 enqueues 5. */
  lemma EnqueueOne(start: Ring, es: seq<Event>, buf: seq<Ptr>, h: nat, t: nat, pc: Pc, a: seq<Ptr>, d: seq<Ptr>)
    returns (es': seq<Event>)
    requires |start.buf| > 0 && |buf| == 8 && Saw(start, es, Two(buf, h, t, pc, Idle), a, d)
    requires (h - t) % WORD <= 7
    ensures And(h, 7) < 8
    ensures Saw(start, es', Two(buf[And(h, 7) := 5], (h + 1) % WORD, t, pc, Idle), a + [5], d)
  {
    hide Saw, And;
    AndBound(h, 7);
    var es3 := EnqueueClaims(start, es, buf, h, t, pc, a, d);
    var e, n, buf' := Event(1, Enqueue(5), false), (h + 1) % WORD, buf[And(h, 7) := 5];
    var r3, r4 := Busy(buf, n, h, t, t, pc, EnqClaimed(5, h)), Busy(buf', n, h, t, t, pc, EnqStored(5, h));
    var r5 := Busy(buf', n, h, t, t, pc, EnqTurn(5, h));
    SawStep(start, es3, r3, r4, a, d, e);
    SawStep(start, es3 + [e], r4, r5, a, d, e);
    SawNext(start, es3 + [e] + [e], r5, a, d, e);
    es' := es3 + [e] + [e] + [e];
    assert d + [] == d;
    assert Next(Bits32, r5, e) == Two(buf', n, t, pc, Idle);
  }

  lemma DequeueClaims(start: Ring, es: seq<Event>, buf: seq<Ptr>, h: nat, t: nat, pc: Pc, a: seq<Ptr>, d: seq<Ptr>)
    returns (es': seq<Event>)
    requires |start.buf| > 0 && |buf| == 8 && Saw(start, es, Two(buf, h, t, pc, Idle), a, d)
    requires (t - h) % WORD != 0
    ensures Saw(start, es', Busy(buf, h, h, (t + 1) % WORD, t, pc, DeqClaimed(t)), a, d)
  {
    hide Saw;
    var e := Event(1, Dequeue, false);
    var r0, r1 := Two(buf, h, t, pc, Idle), Busy(buf, h, h, t, t, pc, DeqLoaded(t));
    var r2 := Busy(buf, h, h, t, t, pc, DeqChecked(t, h));
    SawStep(start, es, r0, r1, a, d, e);
    SawStep(start, es + [e], r1, r2, a, d, e);
    SawStep(start, es + [e] + [e], r2, Busy(buf, h, h, (t + 1) % WORD, t, pc, DeqClaimed(t)), a, d, e);
    es' := es + [e] + [e] + [e];
  }

  /** Thread 1 dequeues. */
  lemma DequeueOne(start: Ring, es: seq<Event>, buf: seq<Ptr>, h: nat, t: nat, pc: Pc, a: seq<Ptr>, d: seq<Ptr>)
    returns (es': seq<Event>)
    requires |start.buf| > 0 && |buf| == 8 && Saw(start, es, Two(buf, h, t, pc, Idle), a, d)
    requires (t - h) % WORD != 0
    ensures And(t, 7) < 8
    ensures Saw(start, es', Two(buf, h, (t + 1) % WORD, pc, Idle), a, d + [buf[And(t, 7)]])
  {
    hide Saw, And;
    AndBound(t, 7);
    var es3 := DequeueClaims(start, es, buf, h, t, pc, a, d);
    var e, n, v := Event(1, Dequeue, false), (t + 1) % WORD, buf[And(t, 7)];
    var r3, r4 := Busy(buf, h, h, n, t, pc, DeqClaimed(t)), Busy(buf, h, h, n, t, pc, DeqRead(t, v));
    var r5 := Busy(buf, h, h, n, t, pc, DeqTurn(t, v));
    SawStep(start, es3, r3, r4, a, d, e);
    SawStep(start, es3 + [e], r4, r5, a, d, e);
    SawNext(start, es3 + [e] + [e], r5, a, d, e);
    es' := es3 + [e] + [e] + [e];
    assert a + [] == a;
    assert Next(Bits32, r5, e) == Two(buf, h, n, pc, Idle);
  }

  /** The ring that both threads start with. */
  function New(): Ring {
    Ring([0, 0, 0, 0, 0, 0, 0, 0], 0, 0, 0, 0, map[0 := Idle, 1 := Idle])
  }

  lemma Creates()
    ensures Create(8, {0, 1}) == Some(New())
  {
    var r := Create(8, {0, 1});
    assert r.Some? && r.value.buf == New().buf;
    assert r.value.threads == New().threads;
  }

  /** Thread 0 has loaded head 0 and found room behind it; thread 1 passes `n` items through. */
  lemma {:induction false} Laps(n: nat) returns (es: seq<Event>, buf: seq<Ptr>)
    requires n < WORD
    ensures |buf| == 8 && Saw(New(), es, Two(buf, n, n, EnqChecked(7, 0, 0), Idle), Fives(n), Fives(n))
  {
    hide Saw, And;
    if n == 0 {
      var e := Event(0, Enqueue(7), false);
      buf := New().buf;
      SawNothing(New());
      SawStep(New(), [], New(), Two(buf, 0, 0, EnqLoaded(7, 0), Idle), [], [], e);
      SawStep(New(), [] + [e], Two(buf, 0, 0, EnqLoaded(7, 0), Idle),
              Two(buf, 0, 0, EnqChecked(7, 0, 0), Idle), [], [], e);
      es := [] + [e] + [e];
      assert Fives(0) == [];
    } else {
      es, buf := Laps(n - 1);
      es := EnqueueOne(New(), es, buf, n - 1, n - 1, EnqChecked(7, 0, 0), Fives(n - 1), Fives(n - 1));
      buf := buf[And(n - 1, 7) := 5];
      DivModUnique(n, WORD, 0, n);
      es := DequeueOne(New(), es, buf, n, n - 1, EnqChecked(7, 0, 0), Fives(n - 1) + [5], Fives(n - 1));
      assert Fives(n - 1) + [5] == Fives(n);
    }
  }

  lemma SawNothing(start: Ring)
    requires |start.buf| > 0
    ensures Saw(start, [], start, [], [])
  {
  }

  /** Then it enqueues `k` more, the first into slot 0. */
  lemma {:induction false} Fills(k: nat) returns (es: seq<Event>, buf: seq<Ptr>)
    requires k <= 8
    ensures |buf| == 8
    ensures Saw(New(), es, Two(buf, (WORD - 8 + k) % WORD, WORD - 8, EnqChecked(7, 0, 0), Idle),
                Fives(WORD - 8 + k), Fives(WORD - 8))
  {
    hide Saw, And;
    if k == 0 {
      es, buf := Laps(WORD - 8);
    } else {
      es, buf := Fills(k - 1);
      var a, h := Fives(WORD - 8 + k - 1), WORD - 8 + k - 1;
      es := EnqueueOne(New(), es, buf, h, WORD - 8, EnqChecked(7, 0, 0), a, Fives(WORD - 8));
      buf := buf[And(h, 7) := 5];
      assert a + [5] == Fives(WORD - 8 + k);
    }
  }

  /** Thread 0 wakes up: its compare-and-swap finds the low 32 bits unchanged, and its item lands on
      one that is still to be delivered. */
  lemma WakesUp(es: seq<Event>, buf: seq<Ptr>, a: seq<Ptr>, d: seq<Ptr>) returns (es': seq<Event>)
    requires |buf| == 8 && Saw(New(), es, Two(buf, 0, WORD - 8, EnqChecked(7, 0, 0), Idle), a, d)
    ensures Saw(New(), es', Two(buf[0 := 7], 1, WORD - 8, Idle, Idle), a + [7], d)
  {
    hide Saw;
    var e, t := Event(0, Enqueue(7), false), WORD - 8;
    var r0 := Two(buf, 0, t, EnqChecked(7, 0, 0), Idle);
    var r1 := r0.(prodHead := 1, threads := map[0 := EnqClaimed(7, 0), 1 := Idle]);
    var r2 := r1.(buf := buf[0 := 7], threads := map[0 := EnqStored(7, 0), 1 := Idle]);
    var r3 := r2.(threads := map[0 := EnqTurn(7, 0), 1 := Idle]);
    SawStep(New(), es, r0, r1, a, d, e);
    SawStep(New(), es + [e], r1, r2, a, d, e);
    SawStep(New(), es + [e] + [e], r2, r3, a, d, e);
    SawNext(New(), es + [e] + [e] + [e], r3, a, d, e);
    es' := es + [e] + [e] + [e] + [e];
    assert d + [] == d;
    assert Next(Bits32, r3, e) == Two(buf[0 := 7], 1, t, Idle, Idle);
  }

  /** Without its assumption the promise of MpmcWrap.Linearized does not hold: an accepted item is never
      delivered, and another one is delivered in its place. */
  lemma Overrun() returns (es: seq<Event>)
    ensures Create(8, {0, 1}).Some? && |Create(8, {0, 1}).value.buf| > 0
    ensures var r := Create(8, {0, 1}).value;
            && Submitted(Bits32, r, es) == Accepted(Bits32, r, es) == Fives(WORD) + [7]
            && Delivered(Bits32, r, es) == Fives(WORD - 8) + [7]
            && !(Delivered(Bits32, r, es) <= Accepted(Bits32, r, es))
  {
    Creates();
    var buf;
    es, buf := Fills(8);
    es := WakesUp(es, buf, Fives(WORD), Fives(WORD - 8));
    AndMask(WORD - 8, 3);
    assert Pow2(3) == 8;
    es := DequeueOne(New(), es, buf[0 := 7], 1, WORD - 8, Idle, Fives(WORD) + [7], Fives(WORD - 8));
    AcceptedIsSubmitted(Bits32, New(), es);
    var a, d := Fives(WORD) + [7], Fives(WORD - 8) + [7];
    assert a[WORD - 8] == 5 && d[WORD - 8] == 7;
  }
}
