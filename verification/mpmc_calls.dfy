/** Calls of the ring of structure/mpmc.c, from the event that begins one to the step that ends it: what
    was passed, what came of it, and when. */
module MpmcCalls {
  import opened Options
  import opened Machine
  import opened Bits
  import opened Mpmc

  /* ---- What the callers pass ---- */

  predicate IdleAt(r: Ring, t: Tid) {
    t in r.threads && r.threads[t].Idle?
  }

  /** The call that thread `t` is in after a run: the one of the event that took it out of Idle. */
  function CallOf(w: Word, r: Ring, es: seq<Event>, t: Tid): Option<Call>
    requires |r.buf| > 0
  {
    if es == [] then None else
    var front, e := es[..|es| - 1], es[|es| - 1];
    if e.t != t then CallOf(w, r, front, t)
    else if IdleAt(RunRing(w, r, es), t) then None
    else if IdleAt(RunRing(w, r, front), t) then Some(e.call)
    else CallOf(w, r, front, t)
  }

  /** The last event of a run ends an enqueue at its last line (line 122), which returns true. */
  predicate ReturnsTrue(w: Word, r: Ring, front: seq<Event>, e: Event)
    requires |r.buf| > 0
  {
    var before, after := RunRing(w, r, front), RunRing(w, r, front + [e]);
    e.t in before.threads && before.threads[e.t].EnqTurn? && IdleAt(after, e.t)
  }

  /** The arguments of the enqueue calls that returned true, in the order they returned. */
  function Submitted(w: Word, r: Ring, es: seq<Event>): seq<Ptr>
    requires |r.buf| > 0
  {
    if es == [] then [] else
    var front, e := es[..|es| - 1], es[|es| - 1];
    var call := CallOf(w, r, front, e.t);
    Submitted(w, r, front)
    + if call.Some? && call.value.Enqueue? && ReturnsTrue(w, r, front, e) then [call.value.ptr] else []
  }

  predicate InEnqueueCall(pc: Pc) {
    pc.EnqLoaded? || pc.EnqChecked? || pc.EnqClaimed? || pc.EnqStored? || pc.EnqTurn?
  }

  predicate AllIdle(r: Ring) {
    forall t <- r.threads :: r.threads[t].Idle?
  }

  /** A thread holds what its caller passed, from the beginning of the call to its end. */
  predicate Holds(call: Option<Call>, pc: Pc) {
    match pc
    case Idle => call == None
    case _ => call == Some(if InEnqueueCall(pc) then Enqueue(pc.ptr) else Dequeue)
  }

  lemma {:induction false} HoldsArgument(w: Word, r: Ring, es: seq<Event>, t: Tid)
    requires |r.buf| > 0 && AllIdle(r) && t in r.threads
    ensures t in RunRing(w, r, es).threads
    ensures Holds(CallOf(w, r, es, t), RunRing(w, r, es).threads[t])
    decreases |es|
  {
    hide Holds, AllIdle, Next;
    if es == [] {
      IdleHolds(r, t);
    } else {
      var front, e := es[..|es| - 1], es[|es| - 1];
      HoldsArgument(w, r, front, t);
      HoldsStep(w, RunRing(w, r, front), e, t, CallOf(w, r, front, t));
    }
  }

  lemma IdleHolds(r: Ring, t: Tid)
    requires AllIdle(r) && t in r.threads
    ensures Holds(None, r.threads[t])
  {
  }

  lemma HoldsStep(w: Word, r: Ring, e: Event, t: Tid, call: Option<Call>)
    requires |r.buf| > 0 && t in r.threads && Holds(call, r.threads[t])
    ensures var r' := Next(w, r, e);
            Holds(if e.t != t then call else if IdleAt(r', t) then None
                  else if IdleAt(r, t) then Some(e.call) else call, r'.threads[t])
  {
    hide Slot, TooFar, Increment;
  }

  /** Accepted lists the arguments of the calls that returned true. */
  lemma {:induction false} AcceptedIsSubmitted(w: Word, r: Ring, es: seq<Event>)
    requires |r.buf| > 0 && AllIdle(r)
    ensures Accepted(w, r, es) == Submitted(w, r, es)
    decreases |es|
  {
    hide RunRing, CallOf, Holds, ReturnsTrue, AllIdle;
    if es != [] {
      var front, e := es[..|es| - 1], es[|es| - 1];
      AcceptedIsSubmitted(w, r, front);
      TurnReturns(w, r, front, e);
      ThreadsStay(w, r, front);
      if e.t in r.threads {
        HoldsArgument(w, r, front, e.t);
        HeldCall(CallOf(w, r, front, e.t), RunRing(w, r, front).threads[e.t]);
      }
    }
  }

  lemma HeldCall(call: Option<Call>, pc: Pc)
    requires Holds(call, pc)
    ensures call.Some? && call.value.Enqueue? <==> InEnqueueCall(pc)
    ensures InEnqueueCall(pc) ==> call.value.ptr == pc.ptr
  {
  }

  lemma {:induction false} ThreadsStay(w: Word, r: Ring, es: seq<Event>)
    requires |r.buf| > 0
    ensures RunRing(w, r, es).threads.Keys == r.threads.Keys
    decreases |es|
  {
    hide Next;
    if es != [] {
      ThreadsStay(w, r, es[..|es| - 1]);
    }
  }

  lemma TurnReturns(w: Word, r: Ring, front: seq<Event>, e: Event)
    requires |r.buf| > 0
    ensures ReturnsTrue(w, r, front, e)
            <==> e.t in RunRing(w, r, front).threads && RunRing(w, r, front).threads[e.t].EnqTurn?
  {
    assert (front + [e])[..|front + [e]| - 1] == front;
  }

  /** In ticket order, the log lists what was passed to the enqueues that returned true, and its
      beginning what the dequeues that returned true delivered. */
  lemma SubmittedIsLog(r: Ring, es: seq<Event>)
    requires Inv(Start(r)) && AllIdle(r) && r.prodTail == 0
    ensures |r.buf| > 0
    ensures var s := Run(Start(r), es);
            && s.r.consTail <= s.r.prodTail <= |s.log|
            && Submitted(Unbounded, r, es) == s.log[..s.r.prodTail]
            && Delivered(Unbounded, r, es) == s.log[..s.r.consTail]
  {
    hide Inv, AllIdle, Run, Submitted, Delivered, Accepted;
    ResultsAreLog(r, es);
    AcceptedIsSubmitted(Unbounded, r, es);
  }

  /* ---- When a call returns ---- */

  /** A call ends only by publishing its ticket, or at the test of the counters, with no change, for a
      head from which the ring looks full or empty. Losing a race ends no call. */
  lemma ReturnsOnly(s: Sys, e: Event)
    requires Inv(s) && e.t in s.r.threads && !IdleAt(s.r, e.t)
    ensures |s.r.buf| > 0
    ensures var s', pc := Step(s, e), s.r.threads[e.t];
            IdleAt(s'.r, e.t) ==>
              if InEnqueueCall(pc) then
                || (s'.r.prodTail == s.r.prodTail + 1 && s'.r.consTail == s.r.consTail)
                || (s' == s.(r := Goto(s.r, e.t, Idle)) && (pc.head - s.r.consTail) % WORD >= |s.r.buf|)
              else
                || (s'.r.consTail == s.r.consTail + 1 && s'.r.prodTail == s.r.prodTail)
                || (s' == s.(r := Goto(s.r, e.t, Idle)) && (pc.head - s.r.prodTail) % WORD == 0)
  {
    hide SlotHolds, Manned, Stored, Slot, ThreadOk, Sized;
    InvThread(s, e.t);
  }

  /** A compare-and-swap that fails, because of a race or for no reason, changes nothing, and the call
      goes round with what it was passed and the head that is there. */
  lemma LostRaceGoesRound(s: Sys, e: Event)
    requires |s.r.buf| > 0 && e.t in s.r.threads
    requires var pc := s.r.threads[e.t];
             || (pc.EnqChecked? && (e.spurious || pc.head != s.r.prodHead))
             || (pc.DeqChecked? && (e.spurious || pc.head != s.r.consHead))
    ensures var s', pc := Step(s, e), s.r.threads[e.t];
            && e.t in s'.r.threads && s' == s.(r := Goto(s.r, e.t, s'.r.threads[e.t]))
            && (pc.EnqChecked? ==> s'.r.threads[e.t] == EnqLoaded(pc.ptr, s.r.prodHead))
            && (pc.DeqChecked? ==> s'.r.threads[e.t] == DeqLoaded(s.r.consHead))
  {
    hide Slot, TooFar, Increment;
  }

  /** A dequeue comes back empty-handed from its test exactly when its head is that of the last
      published ticket, modulo 2^32. */
  lemma EmptyHandedWhen(s: Sys, e: Event)
    requires Inv(s) && e.t in s.r.threads && s.r.threads[e.t].DeqLoaded?
    ensures |s.r.buf| > 0
    ensures IdleAt(Step(s, e).r, e.t) <==> (s.r.prodTail - s.r.threads[e.t].head) % WORD == 0
  {
    hide SlotHolds, Manned, Stored, Slot;
    InvThread(s, e.t);
    NegatedMod(s.r.prodTail - s.r.threads[e.t].head);
  }

  /* ---- A thread that runs alone ---- */

  /** Thread `t` makes `n` steps, and no compare-and-swap fails for no reason; `c` is the call it begins
      when it is idle. */
  function Alone(t: Tid, c: Call, n: nat): seq<Event> {
    seq(n, _ => Event(t, c, false))
  }

  /** After exactly `n` steps the thread is back from its call, and `s'` is what the call has done. */
  ghost predicate ReturnsAfter(s: Sys, t: Tid, c: Call, n: nat, s': Sys, accepted: seq<Ptr>, delivered: seq<Ptr>)
    requires |s.r.buf| > 0
  {
    && n > 0 && s' == Run(s, Alone(t, c, n)) && IdleAt(s'.r, t)
    && (forall m :: 0 < m < n ==> !IdleAt(Run(s, Alone(t, c, m)).r, t))
    && Accepted(Unbounded, s.r, Alone(t, c, n)) == accepted
    && Delivered(Unbounded, s.r, Alone(t, c, n)) == delivered
  }

  lemma {:induction false} ResultsAppend(r: Ring, e: Event, es: seq<Event>)
    requires |r.buf| > 0
    ensures var r1 := Next(Unbounded, r, e);
            && RunRing(Unbounded, r, [e] + es) == RunRing(Unbounded, r1, es)
            && Accepted(Unbounded, r, [e] + es) == Accepted(Unbounded, r, [e]) + Accepted(Unbounded, r1, es)
            && Delivered(Unbounded, r, [e] + es) == Delivered(Unbounded, r, [e]) + Delivered(Unbounded, r1, es)
    decreases |es|
  {
    hide Next;
    assert [e][..0] == [];
    if es == [] {
      assert [e] + es == [e];
    } else {
      var front := es[..|es| - 1];
      assert ([e] + es)[..|[e] + es| - 1] == [e] + front;
      ResultsAppend(r, e, front);
    }
  }

  lemma FirstResults(r: Ring, e: Event)
    requires |r.buf| > 0
    ensures Accepted(Unbounded, r, [e])
            == if e.t in r.threads && r.threads[e.t].EnqTurn? then [r.threads[e.t].ptr] else []
    ensures Delivered(Unbounded, r, [e])
            == if e.t in r.threads && r.threads[e.t].DeqTurn? then [r.threads[e.t].value] else []
  {
    assert [e][..0] == [];
  }

  lemma AloneFirst(s: Sys, t: Tid, c: Call, n: nat)
    requires |s.r.buf| > 0
    ensures Alone(t, c, n + 1) == [Event(t, c, false)] + Alone(t, c, n)
    ensures Run(s, Alone(t, c, n + 1)) == Run(Step(s, Event(t, c, false)), Alone(t, c, n))
  {
    hide Step;
    var e := Event(t, c, false);
    assert Alone(t, c, n + 1) == [e] + Alone(t, c, n);
    RunAppend(s, [e], Alone(t, c, n));
    assert [e][..0] == [];
  }

  /** The step that ends the call. */
  lemma ReturnsNow(s: Sys, t: Tid, c: Call)
    requires |s.r.buf| > 0 && t in s.r.threads && IdleAt(Step(s, Event(t, c, false)).r, t)
    ensures var pc := s.r.threads[t];
            ReturnsAfter(s, t, c, 1, Step(s, Event(t, c, false)),
                         if pc.EnqTurn? then [pc.ptr] else [], if pc.DeqTurn? then [pc.value] else [])
  {
    hide Step;
    AloneFirst(s, t, c, 0);
    assert Alone(t, c, 1) == [Event(t, c, false)];
    FirstResults(s.r, Event(t, c, false));
    assert Alone(t, c, 0) == [];
  }

  /** A step before that. */
  lemma ReturnsLater(s: Sys, t: Tid, c: Call, n: nat, s': Sys, a: seq<Ptr>, d: seq<Ptr>)
    requires |s.r.buf| > 0 && t in s.r.threads && !s.r.threads[t].EnqTurn? && !s.r.threads[t].DeqTurn?
    requires var s1 := Step(s, Event(t, c, false)); !IdleAt(s1.r, t) && ReturnsAfter(s1, t, c, n, s', a, d)
    ensures ReturnsAfter(s, t, c, n + 1, s', a, d)
  {
    hide Step, IdleAt, Accepted, Delivered, Run, Alone;
    var e := Event(t, c, false);
    var s1 := Step(s, e);
    StepRing(s, e);
    AloneFirst(s, t, c, n);
    ResultsAppend(s.r, e, Alone(t, c, n));
    FirstResults(s.r, e);
    assert [] + a == a && [] + d == d;
    forall m | 0 < m < n + 1 ensures !IdleAt(Run(s, Alone(t, c, m)).r, t) {
      AloneFirst(s, t, c, m - 1);
      AloneNone(s1, t, c);
    }
  }

  lemma AloneNone(s: Sys, t: Tid, c: Call)
    requires |s.r.buf| > 0
    ensures Run(s, Alone(t, c, 0)) == s
  {
  }

  lemma StepRing(s: Sys, e: Event)
    requires |s.r.buf| > 0
    ensures Step(s, e).r == Next(Unbounded, s.r, e)
  {
    hide Slot, TooFar, Increment;
  }

  /* ---- Dequeueing alone ---- */

  /** Thread `t` is about to begin a dequeue, or anywhere in one, and it is its turn: there is an item,
      and all claimed tickets before its own have been published. */
  predicate MayTake(s: Sys, t: Tid, c: Call) {
    var r := s.r;
    t in r.threads &&
    match r.threads[t]
    case Idle => c.Dequeue? && r.consTail == r.consHead < r.prodTail
    case DeqLoaded(h) => r.consTail == r.consHead < r.prodTail && (h - r.prodTail) % WORD != 0
    case DeqChecked(_, _) => r.consTail == r.consHead < r.prodTail
    case DeqClaimed(h) => h == r.consTail
    case DeqRead(h, _) => h == r.consTail
    case DeqTurn(h, _) => h == r.consTail
    case _ => false
  }

  /** How many steps are left. */
  function TakeSteps(s: Sys, t: Tid): nat
    requires t in s.r.threads
  {
    match s.r.threads[t]
    case Idle => 6
    case DeqLoaded(h) => if h == s.r.consHead then 5 else 7
    case DeqChecked(h, _) => if h == s.r.consHead then 4 else 6
    case DeqClaimed(_) => 3
    case DeqRead(_, _) => 2
    case _ => 1
  }

  /** The next step goes on with the call, towards its end, or ends it. */
  predicate TakesOn(s: Sys, t: Tid, c: Call) {
    && t in s.r.threads && |s.r.buf| > 0 && s.r.consTail < |s.log|
    && var s1, pc := Step(s, Event(t, c, false)), s.r.threads[t];
       && s1.log == s.log && s1.r.prodTail == s.r.prodTail && s1.r.prodHead == s.r.prodHead && s1.r.buf == s.r.buf
       && !pc.EnqTurn? && t in s1.r.threads && 1 <= TakeSteps(s, t) <= 7
       && if IdleAt(s1.r, t) then
            pc.DeqTurn? && pc.value == s.log[s.r.consTail] && s1.r.consTail == s.r.consTail + 1
          else
            !pc.DeqTurn? && s1.r.consTail == s.r.consTail && MayTake(s1, t, c)
            && TakeSteps(s1, t) < TakeSteps(s, t)
  }

  /** The thread, alone, delivers the item of ticket cons.tail, and that is all it does. */
  lemma {:induction false} DequeueAlone(s: Sys, t: Tid, c: Call) returns (n: nat, s': Sys)
    requires Inv(s) && MayTake(s, t, c)
    ensures |s.r.buf| > 0 && s.r.consTail < |s.log|
    ensures n <= TakeSteps(s, t) && ReturnsAfter(s, t, c, n, s', [], [s.log[s.r.consTail]]) && Inv(s')
    ensures s'.r.consTail == s.r.consTail + 1 && s'.r.prodTail == s.r.prodTail && s'.r.prodHead == s.r.prodHead
    ensures s'.log == s.log && s'.r.buf == s.r.buf
    decreases TakeSteps(s, t)
  {
    hide Inv, Step, MayTake, ReturnsAfter, TakeSteps;
    var e := Event(t, c, false);
    TakeStep(s, t, c);
    StepKeeps(s, e);
    if IdleAt(Step(s, e).r, t) {
      n, s' := 1, Step(s, e);
      ReturnsNow(s, t, c);
    } else {
      n, s' := DequeueAlone(Step(s, e), t, c);
      ReturnsLater(s, t, c, n, s', [], [s.log[s.r.consTail]]);
      n := n + 1;
    }
  }

  lemma TakeTicket(s: Sys, t: Tid, c: Call)
    requires t in s.r.threads && var pc := s.r.threads[t]; pc.DeqClaimed? || pc.DeqRead? || pc.DeqTurn?
    requires Inv(s) && MayTake(s, t, c)
    ensures TakesOn(s, t, c)
  {
    hide SlotHolds, Manned, Stored, Slot, TooFar;
    InvThread(s, t);
    FirstInFirstOut(s);
  }

  lemma TakeIdle(s: Sys, t: Tid, c: Call)
    requires t in s.r.threads && s.r.threads[t].Idle?
    requires Inv(s) && MayTake(s, t, c)
    ensures TakesOn(s, t, c)
  {
    hide SlotHolds, Manned, Stored, Slot, TooFar, Increment;
    InvThread(s, t);
    SeesItem(s);
  }

  lemma TakeLoaded(s: Sys, t: Tid, c: Call)
    requires t in s.r.threads && s.r.threads[t].DeqLoaded?
    requires Inv(s) && MayTake(s, t, c)
    ensures TakesOn(s, t, c)
  {
    hide SlotHolds, Manned, Stored, Slot, TooFar, Increment;
    InvThread(s, t);
    SeesItem(s);
  }

  lemma TakeChecked(s: Sys, t: Tid, c: Call)
    requires t in s.r.threads && s.r.threads[t].DeqChecked?
    requires Inv(s) && MayTake(s, t, c)
    ensures TakesOn(s, t, c)
  {
    hide SlotHolds, Manned, Stored, Slot, TooFar, Increment;
    InvThread(s, t);
    SeesItem(s);
  }

  /** From an up-to-date head the test sees an item. */
  lemma SeesItem(s: Sys)
    requires Inv(s) && s.r.consHead < s.r.prodTail
    ensures (s.r.consHead - s.r.prodTail) % WORD != 0
  {
    hide Inv;
    InvThread(s, 0);
    var d := s.r.prodTail - s.r.consHead;
    DivModUnique(0 - d, WORD, -1, WORD - d);
  }

  lemma TakeStep(s: Sys, t: Tid, c: Call)
    requires Inv(s) && MayTake(s, t, c)
    ensures TakesOn(s, t, c)
  {
    hide Inv, Step, TakeSteps;
    var pc := s.r.threads[t];
    if pc.DeqClaimed? || pc.DeqRead? || pc.DeqTurn? {
      TakeTicket(s, t, c);
    } else if pc.Idle? {
      TakeIdle(s, t, c);
    } else if pc.DeqLoaded? {
      TakeLoaded(s, t, c);
    } else {
      TakeChecked(s, t, c);
    }
  }

  /* ---- Enqueueing alone ---- */

  /** Thread `t` is about to begin an enqueue, or anywhere in one, and it is its turn: there is room, and
      all claimed tickets before its own have been published. */
  predicate MayPut(s: Sys, t: Tid, c: Call) {
    var r := s.r;
    t in r.threads &&
    match r.threads[t]
    case Idle => c.Enqueue? && r.prodTail == r.prodHead < r.consTail + |r.buf|
    case EnqLoaded(_, h) => r.prodTail == r.prodHead < r.consTail + |r.buf| && (h - r.consTail) % WORD < |r.buf|
    case EnqChecked(_, _, _) => r.prodTail == r.prodHead < r.consTail + |r.buf|
    case EnqClaimed(_, h) => h == r.prodTail
    case EnqStored(_, h) => h == r.prodTail
    case EnqTurn(_, h) => h == r.prodTail
    case _ => false
  }

  function PutSteps(s: Sys, t: Tid): nat
    requires t in s.r.threads
  {
    match s.r.threads[t]
    case Idle => 6
    case EnqLoaded(_, h) => if h == s.r.prodHead then 5 else 7
    case EnqChecked(_, h, _) => if h == s.r.prodHead then 4 else 6
    case EnqClaimed(_, _) => 3
    case EnqStored(_, _) => 2
    case _ => 1
  }

  /** What is being enqueued. */
  function Passed(s: Sys, t: Tid, c: Call): Ptr
    requires t in s.r.threads
  {
    var pc := s.r.threads[t];
    if InEnqueueCall(pc) then pc.ptr else if c.Enqueue? then c.ptr else 0
  }

  /** The next step goes on with the call, towards its end, or ends it. */
  predicate PutsOn(s: Sys, t: Tid, c: Call) {
    && t in s.r.threads && |s.r.buf| > 0
    && var s1, pc := Step(s, Event(t, c, false)), s.r.threads[t];
       && s.log <= s1.log && s1.r.consTail == s.r.consTail && s1.r.consHead == s.r.consHead
       && !pc.DeqTurn? && t in s1.r.threads && 1 <= PutSteps(s, t) <= 7
       && if IdleAt(s1.r, t) then
            && pc.EnqTurn? && pc.ptr == Passed(s, t, c) && s1.r.prodTail == s.r.prodTail + 1
            && s.r.prodTail < |s1.log| && s1.log[s.r.prodTail] == Passed(s, t, c)
          else
            && !pc.EnqTurn? && s1.r.prodTail == s.r.prodTail && MayPut(s1, t, c)
            && Passed(s1, t, c) == Passed(s, t, c) && PutSteps(s1, t) < PutSteps(s, t)
  }

  /** The thread, alone, puts its pointer at ticket prod.tail, and that is all it does. */
  lemma {:induction false} EnqueueAlone(s: Sys, t: Tid, c: Call) returns (n: nat, s': Sys)
    requires Inv(s) && MayPut(s, t, c)
    ensures |s.r.buf| > 0 && t in s.r.threads
    ensures n <= PutSteps(s, t) && ReturnsAfter(s, t, c, n, s', [Passed(s, t, c)], []) && Inv(s')
    ensures s'.r.prodTail == s.r.prodTail + 1 && s'.r.consTail == s.r.consTail && s'.r.consHead == s.r.consHead
    ensures s.log <= s'.log && s.r.prodTail < |s'.log| && s'.log[s.r.prodTail] == Passed(s, t, c)
    decreases PutSteps(s, t)
  {
    hide Inv, Step, MayPut, ReturnsAfter, PutSteps, Passed;
    var e := Event(t, c, false);
    PutStep(s, t, c);
    StepKeeps(s, e);
    if IdleAt(Step(s, e).r, t) {
      n, s' := 1, Step(s, e);
      ReturnsNow(s, t, c);
    } else {
      n, s' := EnqueueAlone(Step(s, e), t, c);
      ReturnsLater(s, t, c, n, s', [Passed(s, t, c)], []);
      n := n + 1;
    }
  }

  lemma PutTicket(s: Sys, t: Tid, c: Call)
    requires t in s.r.threads && var pc := s.r.threads[t]; pc.EnqClaimed? || pc.EnqStored? || pc.EnqTurn?
    requires Inv(s) && MayPut(s, t, c)
    ensures PutsOn(s, t, c)
  {
    hide SlotHolds, Manned, Stored, Slot, TooFar;
    InvThread(s, t);
  }

  /** From an up-to-date head the test sees the room. */
  lemma SeesRoom(s: Sys)
    requires Inv(s)
    ensures (s.r.prodHead - s.r.consTail) % WORD == s.r.prodHead - s.r.consTail
  {
    hide Inv;
    InvThread(s, 0);
    DivModUnique(s.r.prodHead - s.r.consTail, WORD, 0, s.r.prodHead - s.r.consTail);
  }

  lemma PutIdle(s: Sys, t: Tid, c: Call)
    requires t in s.r.threads && s.r.threads[t].Idle?
    requires Inv(s) && MayPut(s, t, c)
    ensures PutsOn(s, t, c)
  {
    hide SlotHolds, Manned, Stored, Slot, Increment;
    InvThread(s, t);
    SeesRoom(s);
  }

  lemma PutLoaded(s: Sys, t: Tid, c: Call)
    requires t in s.r.threads && s.r.threads[t].EnqLoaded?
    requires Inv(s) && MayPut(s, t, c)
    ensures PutsOn(s, t, c)
  {
    hide SlotHolds, Manned, Stored, Slot, Increment;
    InvThread(s, t);
    SeesRoom(s);
  }

  lemma PutChecked(s: Sys, t: Tid, c: Call)
    requires t in s.r.threads && s.r.threads[t].EnqChecked?
    requires Inv(s) && MayPut(s, t, c)
    ensures PutsOn(s, t, c)
  {
    hide SlotHolds, Manned, Stored, Slot, TooFar, Increment;
    InvThread(s, t);
    SeesRoom(s);
  }

  lemma PutStep(s: Sys, t: Tid, c: Call)
    requires Inv(s) && MayPut(s, t, c)
    ensures PutsOn(s, t, c)
  {
    hide Inv, Step, PutSteps;
    var pc := s.r.threads[t];
    if pc.EnqClaimed? || pc.EnqStored? || pc.EnqTurn? {
      PutTicket(s, t, c);
    } else if pc.Idle? {
      PutIdle(s, t, c);
    } else if pc.EnqLoaded? {
      PutLoaded(s, t, c);
    } else {
      PutChecked(s, t, c);
    }
  }
}
