/** What the calls of coding/pool.c do, from their first step to their last, when the thread is not
    interrupted; with the literal sizes of the code. */
module PoolCalls {
  import opened Options
  import opened Pool
  import opened PoolProof
  import opened PoolLaws

  predicate IdleAt(s: Sys, t: Tid) {
    t in s.threads && s.threads[t].pc.Idle?
  }

  /** `n` steps of thread `t` alone. */
  function Turns(t: Tid, n: nat): seq<Event> {
    seq(n, _ => Step(t))
  }

  /** The thread is in its call for `n` steps, and then in `s'`. */
  ghost predicate EndsIn(s: Sys, t: Tid, n: nat, s': Sys) {
    s' == Run(s, Turns(t, n)) && forall m :: 0 <= m < n ==> !IdleAt(Run(s, Turns(t, m)), t)
  }

  lemma {:induction false} RunFirst(s: Sys, e: Event, es: seq<Event>)
    ensures Run(s, [e] + es) == Run(Next(s, e), es)
    decreases |es|
  {
    hide Next;
    if es == [] {
      assert [e] + es == [e] && [e][..0] == [];
    } else {
      assert ([e] + es)[..|[e] + es| - 1] == [e] + es[..|es| - 1];
      RunFirst(s, e, es[..|es| - 1]);
    }
  }

  lemma EndsNow(s: Sys, t: Tid)
    ensures EndsIn(s, t, 0, s)
  {
  }

  lemma EndsLater(s: Sys, t: Tid, n: nat, s': Sys)
    requires !IdleAt(s, t) && EndsIn(Next(s, Step(t)), t, n, s')
    ensures EndsIn(s, t, n + 1, s')
  {
    hide Next, Run, IdleAt;
    var s1 := Next(s, Step(t));
    forall m | 0 <= m < n + 1
      ensures Run(s, Turns(t, m + 1)) == Run(s1, Turns(t, m)) && !IdleAt(Run(s, Turns(t, m)), t)
    {
      TurnsFirst(s, t, m);
      if m > 0 {
        TurnsFirst(s, t, m - 1);
      } else {
        NoTurns(s, t);
      }
    }
  }

  lemma NoTurns(s: Sys, t: Tid)
    ensures Run(s, Turns(t, 0)) == s
  {
  }

  lemma TurnsFirst(s: Sys, t: Tid, m: nat)
    ensures Run(s, Turns(t, m + 1)) == Run(Next(s, Step(t)), Turns(t, m))
  {
    hide Next;
    assert Turns(t, m + 1) == [Step(t)] + Turns(t, m);
    RunFirst(s, Step(t), Turns(t, m));
  }

  /** Nothing but thread `t` and what is said apart has changed. */
  predicate OthersSame(s: Sys, s': Sys, t: Tid) {
    s'.threads - {t} == s.threads - {t} && s'.threads.Keys == s.threads.Keys
  }

  /* ---- mp_alloc ---- */

  /** The caller gets the object in the top slot of the cache, which was not with any caller. */
  ghost predicate GivesTop(s: Sys, s': Sys, t: Tid) {
    && t in s.threads && 0 < s.threads[t].count <= |s.threads[t].slots|
    && var th := s.threads[t];
       var o := th.slots[th.count - 1];
       && o !in s.held && o in s.next && s'.held == s.held + {o}
       && s'.threads == s.threads[t := Thread(th.slots, th.count - 1, Idle)]
       && s'.next == s.next && s'.freeHead == s.freeHead && s'.lock == s.lock
  }

  /** mp_alloc with a cache that has something (lines 265-268). */
  lemma AllocGives(s: Sys, t: Tid)
    requires Inv(s) && IdleAt(s, t) && s.threads[t].count > 0
    ensures GivesTop(s, Next(s, Alloc(t)), t)
  {
    TopCached(s, t);
  }

  /** The end of mp_alloc after a refill (line 272). */
  lemma ReturningGives(s: Sys, t: Tid)
    requires Inv(s) && t in s.threads && s.threads[t].pc.Returning?
    ensures GivesTop(s, Next(s, Step(t)), t)
  {
    assert ThreadOk(s, t);
    TopCached(s, t);
  }

  lemma TopCached(s: Sys, t: Tid)
    requires Inv(s) && t in s.threads && s.threads[t].count > 0 && Own(s.threads[t]) == s.threads[t].count
    ensures var th := s.threads[t];
            && th.count <= |th.slots| && th.slots[th.count - 1] in s.place && th.slots[th.count - 1] in s.next
            && s.place[th.slots[th.count - 1]] == Cached(t, th.count - 1) && th.slots[th.count - 1] !in s.held
  {
    assert ThreadOk(s, t) && CacheAt(s, t, s.threads[t], s.threads[t].count - 1);
  }

  /* ---- What may happen at any time ---- */

  /** mp_thread_init gives a new thread an empty cache of 512 slots, and changes nothing else. */
  lemma ThreadBegins(s: Sys, t: Tid)
    requires t !in s.threads
    ensures var s' := Next(s, Init(t));
            && IdleAt(s', t) && s'.threads[t].count == 0 && |s'.threads[t].slots| == 512
            && s' == s.(threads := s.threads[t := s'.threads[t]])
  {
  }

  /** A caller may write anything to an object that is with a caller, in particular where its link was. */
  lemma CallerWrites(s: Sys, o: Obj, v: Option<Obj>)
    requires o in s.held
    ensures Next(s, Scribble(o, v)) == s.(next := s.next[o := v])
  {
  }

  /* ---- Refilling ---- */

  /** The smaller one of a batch and the length of the list. */
  function Batch(list: seq<Obj>): nat {
    if |list| < 32 then |list| else 32
  }

  /** `list` was free when the refill began: the cache holds its first objects, the rest is still free. */
  ghost predicate Refills(s: Sys, t: Tid, list: seq<Obj>) {
    && Inv(s) && t in s.threads && list != [] && |s.threads[t].slots| == 512
    && var th := s.threads[t];
       && th.count <= 32 && th.count <= |list| && th.slots[..th.count] == list[..th.count]
       && match th.pc
          case Sleeping => s.lock == None && th.count == 0 && FreeList(s) == list
          case Refilling => s.lock == None && th.count == 0 && FreeList(s) == list
          case Testing => s.lock == Some(t) && th.count == 0 && FreeList(s) == list
          case Taking(f) => s.lock == Some(t) && f == th.count && FreeList(s) == list[f..]
          case Storing(f, o) =>
            s.lock == Some(t) && f == th.count < Batch(list) && o == list[f] && FreeList(s) == list[f + 1..]
          case Leaving => s.lock == Some(t) && th.count == Batch(list) && FreeList(s) == list[th.count..]
          case Returning => s.lock == None && th.count == Batch(list) && FreeList(s) == list[th.count..]
          case _ => false
  }

  function RefillSteps(s: Sys, t: Tid): nat
    requires t in s.threads
  {
    match s.threads[t].pc
    case Sleeping => 70
    case Refilling => 69
    case Testing => 68
    case Taking(f) => if f <= 32 then 2 * (32 - f) + 3 else 3
    case Storing(f, _) => if f <= 32 then 2 * (32 - f) + 2 else 2
    case Leaving => 2
    case _ => 1
  }

  /** The list begins at free_head. */
  lemma ListHead(s: Sys)
    requires Inv(s)
    ensures FreeList(s) == [] <==> s.freeHead == None
    ensures s.freeHead.Some? ==> s.freeHead.value in s.next && FreeList(s)[0] == s.freeHead.value && |s.stack| > 0
    ensures FreeList(s) == Reverse(s.stack)
  {
    ListIsStack(s, |s.next|);
    if s.stack != [] {
      assert StackAt(s, |s.stack| - 1);
    }
  }

  lemma SameStack(s: Sys, s': Sys)
    requires Inv(s) && Inv(s') && s'.stack == s.stack
    ensures FreeList(s') == FreeList(s)
  {
    hide Inv, FreeList, Reverse;
    ListHead(s);
    ListHead(s');
  }

  /** The next step of thread `t` goes on with the refill. */
  ghost predicate RefillsOn(s: Sys, t: Tid, list: seq<Obj>)
    requires t in s.threads
  {
    var s1 := Next(s, Step(t));
    && Refills(s1, t, list) && RefillSteps(s1, t) < RefillSteps(s, t)
    && s1.held == s.held && OthersSame(s, s1, t)
  }

  /** A step before the last one. */
  lemma RefillStep(s: Sys, t: Tid, list: seq<Obj>)
    requires Refills(s, t, list) && !s.threads[t].pc.Returning?
    ensures RefillsOn(s, t, list)
  {
    hide Inv, FreeList, RefillsOn;
    if s.threads[t].pc.Taking? {
      TakingStep(s, t, list);
    } else if s.threads[t].pc.Storing? {
      StoringStep(s, t, list);
    } else {
      WaitingStep(s, t, list);
    }
  }

  lemma TakingStep(s: Sys, t: Tid, list: seq<Obj>)
    requires Refills(s, t, list) && s.threads[t].pc.Taking?
    ensures RefillsOn(s, t, list)
  {
    hide Inv, FreeList, Put, At;
    StepKeeps(s, Step(t));
    var s1, f := Next(s, Step(t)), s.threads[t].pc.fetched;
    ListHead(s);
    if f < 32 && f < |list| {
      ListPops(s, s1);
    } else {
      SameStack(s, s1);
    }
  }

  lemma StoringStep(s: Sys, t: Tid, list: seq<Obj>)
    requires Refills(s, t, list) && s.threads[t].pc.Storing?
    ensures RefillsOn(s, t, list)
  {
    hide Inv, FreeList, At;
    StepKeeps(s, Step(t));
    SameStack(s, Next(s, Step(t)));
  }

  /** The steps around the lock. */
  lemma WaitingStep(s: Sys, t: Tid, list: seq<Obj>)
    requires Refills(s, t, list)
    requires !s.threads[t].pc.Returning? && !s.threads[t].pc.Taking? && !s.threads[t].pc.Storing?
    ensures RefillsOn(s, t, list)
  {
    hide Inv, FreeList, Put, At;
    StepKeeps(s, Step(t));
    ListHead(s);
    SameStack(s, Next(s, Step(t)));
  }

  /** The list without its first object. */
  lemma ListPops(s: Sys, s': Sys)
    requires Inv(s) && Inv(s') && s.stack != [] && s'.stack == s.stack[..|s.stack| - 1]
    ensures FreeList(s) != [] && FreeList(s') == FreeList(s)[1..]
  {
    hide Inv, FreeList;
    ListHead(s);
    ListHead(s');
  }

  /** A refill ends with the caller getting the last object of the batch. */
  lemma {:induction false} RefillRuns(s: Sys, t: Tid, list: seq<Obj>) returns (n: nat, s': Sys)
    requires Refills(s, t, list)
    ensures t in s.threads && EndsIn(s, t, n, s') && Inv(s')
    ensures var k := Batch(list);
            && t in s'.threads && s'.threads[t].pc.Idle? && s'.threads[t].count == k - 1 && |s'.threads[t].slots| == 512
            && s'.threads[t].slots[..k] == list[..k] && FreeList(s') == list[k..]
            && list[k - 1] !in s.held && s'.held == s.held + {list[k - 1]}
            && OthersSame(s, s', t) && s'.lock == None
    decreases RefillSteps(s, t)
  {
    hide Inv, FreeList, RefillSteps, Next, EndsIn;
    var s1 := Next(s, Step(t));
    RefillBusy(s, t, list);
    if s.threads[t].pc.Returning? {
      n, s' := 1, s1;
      ReturningGives(s, t);
      StepKeeps(s, Step(t));
      SameList(s, s1);
      assert list[Batch(list) - 1] == list[..Batch(list)][Batch(list) - 1];
      EndsNow(s1, t);
      EndsLater(s, t, 0, s1);
    } else {
      RefillStep(s, t, list);
      n, s' := RefillRuns(s1, t, list);
      EndsLater(s, t, n, s');
      n := n + 1;
    }
  }

  lemma RefillBusy(s: Sys, t: Tid, list: seq<Obj>)
    requires Refills(s, t, list)
    ensures !IdleAt(s, t)
  {
  }

  lemma SameList(s: Sys, s': Sys)
    requires s'.next == s.next && s'.freeHead == s.freeHead
    ensures FreeList(s') == FreeList(s)
  {
  }

  /** mp_alloc with an empty cache, when the lock is free and some object is: at most 32 objects move
      from the head of the free list into the cache, in order, and the caller gets the last of them. */
  lemma AllocRefills(s: Sys, t: Tid) returns (n: nat, s': Sys)
    requires Inv(s) && IdleAt(s, t) && s.threads[t].count == 0 && s.lock == None && FreeList(s) != []
    ensures EndsIn(Next(s, Alloc(t)), t, n, s') && Inv(s') && IdleAt(s', t)
    ensures var list, k := FreeList(s), if |FreeList(s)| < 32 then |FreeList(s)| else 32;
            && s'.threads[t].count == k - 1 && |s'.threads[t].slots| == 512
            && s'.threads[t].slots[..k] == list[..k] && FreeList(s') == list[k..]
            && list[k - 1] !in s.held && s'.held == s.held + {list[k - 1]}
            && OthersSame(s, s', t) && s'.lock == None
  {
    var s1 := Next(s, Alloc(t));
    StepKeeps(s, Alloc(t));
    SameList(s, s1);
    assert ThreadOk(s, t);
    assert s1.threads[t].slots[..0] == FreeList(s)[..0];
    hide Inv, FreeList, EndsIn;
    n, s' := RefillRuns(s1, t, FreeList(s));
  }

  lemma WaitSteps(s: Sys, t: Tid)
    requires t in s.threads
    ensures s.threads[t].pc.Refilling? && s.lock == None ==>
              Next(s, Step(t)) == Goto(s, t, Testing).(lock := Some(t))
    ensures s.threads[t].pc.Testing? && s.freeHead == None ==> Next(s, Step(t)) == Goto(s, t, Giving)
    ensures s.threads[t].pc.Giving? ==> Next(s, Step(t)) == Goto(s, t, Sleeping).(lock := None)
  {
    hide Put, Take, Spliced, Segment, At;
  }

  /** With an empty cache and an empty list, mp_alloc waits without the lock, and nothing is changed. */
  lemma AllocWaits(s: Sys, t: Tid) returns (n: nat, s': Sys)
    requires Inv(s) && IdleAt(s, t) && s.threads[t].count == 0 && s.lock == None && FreeList(s) == []
    ensures EndsIn(Next(s, Alloc(t)), t, n, s') && t in s'.threads && s'.threads[t].pc.Sleeping?
    ensures s' == s.(threads := s.threads[t := s.threads[t].(pc := Sleeping)])
  {
    ListHead(s);
    var s1 := Goto(s, t, Refilling);
    assert Next(s, Alloc(t)) == s1;
    hide FreeList, EndsIn, Inv, Next;
    var s2 := Goto(s1, t, Testing).(lock := Some(t));
    var s3 := Goto(s2, t, Giving);
    s' := Goto(s3, t, Sleeping).(lock := None);
    WaitSteps(s1, t);
    WaitSteps(s2, t);
    WaitSteps(s3, t);
    n := 3;
    assert s'.threads == s.threads[t := s.threads[t].(pc := Sleeping)];
    EndsNow(s', t);
    EndsLater(s3, t, 0, s');
    EndsLater(s2, t, 1, s');
    EndsLater(s1, t, 2, s');
  }

  /** The same for a thread that has been waiting: once there is an object, it gets one. */
  lemma WaiterServed(s: Sys, t: Tid) returns (n: nat, s': Sys)
    requires Inv(s) && t in s.threads && s.threads[t].pc.Sleeping? && s.lock == None && FreeList(s) != []
    ensures EndsIn(s, t, n, s') && IdleAt(s', t) && s'.held > s.held
  {
    assert ThreadOk(s, t);
    assert s.threads[t].slots[..0] == FreeList(s)[..0];
    hide Inv, FreeList, EndsIn;
    n, s' := RefillRuns(s, t, FreeList(s));
    assert FreeList(s)[Batch(FreeList(s)) - 1] in s'.held;
  }

  /* ---- Giving back ---- */

  /** `back` is being spliced in front of `list`: objects[start..count) of the cache. */
  ghost predicate Flushes(s: Sys, t: Tid, p: Option<Obj>, start: nat, back: seq<Obj>, list: seq<Obj>) {
    && Inv(s) && t in s.threads && |s.threads[t].slots| == 512 && start + |back| <= 512
    && var th := s.threads[t];
       && th.slots[start..start + |back|] == back
       && th.count == (if th.pc.Putting? then start else start + |back|)
       && match th.pc
          case Linking(q, b, i) => q == p && b == start && i <= |back| && s.lock == None && FreeList(s) == list
          case Locking(q, b) => q == p && b == start && s.lock == None && FreeList(s) == list
          case Tailing(q, b) => q == p && b == start && s.lock == Some(t) && FreeList(s) == list
          case Heading(q, b) => q == p && b == start && s.lock == Some(t) && FreeList(s) == list
          case Unlocking(q, b) => q == p && b == start && s.lock == Some(t) && FreeList(s) == back + list
          case Lowering(q, b) => q == p && b == start && s.lock == None && FreeList(s) == back + list
          case Putting(o) => p == Some(o) && start < 512 && s.lock == None && FreeList(s) == back + list
          case _ => false
  }

  function FlushSteps(s: Sys, t: Tid): nat
    requires t in s.threads
  {
    match s.threads[t].pc
    case Linking(_, start, i) => if start + i <= 512 then 7 + (512 - start - i) else 7
    case Locking(_, _) => 6
    case Tailing(_, _) => 5
    case Heading(_, _) => 4
    case Unlocking(_, _) => 3
    case Lowering(_, _) => 2
    case _ => 1
  }

  /** The next step of thread `t` goes on with the flush. */
  ghost predicate FlushesOn(s: Sys, t: Tid, p: Option<Obj>, start: nat, back: seq<Obj>, list: seq<Obj>)
    requires t in s.threads
  {
    var s1 := Next(s, Step(t));
    && Flushes(s1, t, p, start, back, list) && FlushSteps(s1, t) < FlushSteps(s, t)
    && s1.held == s.held && OthersSame(s, s1, t) && s1.threads[t].slots == s.threads[t].slots
  }

  /** A step before the last one. */
  lemma FlushStep(s: Sys, t: Tid, p: Option<Obj>, start: nat, back: seq<Obj>, list: seq<Obj>)
    requires Flushes(s, t, p, start, back, list) && !s.threads[t].pc.Putting?
    requires s.threads[t].pc.Lowering? ==> p.Some?
    ensures FlushesOn(s, t, p, start, back, list)
  {
    hide Inv, FreeList, FlushesOn;
    if s.threads[t].pc.Heading? {
      FlushHead(s, t, p, start, back, list);
    } else if s.threads[t].pc.Linking? {
      FlushLink(s, t, p, start, back, list);
    } else {
      FlushMove(s, t, p, start, back, list);
    }
  }

  lemma FlushHead(s: Sys, t: Tid, p: Option<Obj>, start: nat, back: seq<Obj>, list: seq<Obj>)
    requires Flushes(s, t, p, start, back, list) && s.threads[t].pc.Heading?
    ensures FlushesOn(s, t, p, start, back, list)
  {
    hide Inv, FreeList, Spliced, Segment;
    StepKeeps(s, Step(t));
    SpliceReturns(s, t);
  }

  lemma FlushLink(s: Sys, t: Tid, p: Option<Obj>, start: nat, back: seq<Obj>, list: seq<Obj>)
    requires Flushes(s, t, p, start, back, list) && s.threads[t].pc.Linking?
    ensures FlushesOn(s, t, p, start, back, list)
  {
    hide Inv, FreeList, At;
    StepKeeps(s, Step(t));
    SameStack(s, Next(s, Step(t)));
    FlushRoom(s, t);
  }

  lemma FlushMove(s: Sys, t: Tid, p: Option<Obj>, start: nat, back: seq<Obj>, list: seq<Obj>)
    requires Flushes(s, t, p, start, back, list) && !s.threads[t].pc.Putting?
    requires !s.threads[t].pc.Heading? && !s.threads[t].pc.Linking? && (s.threads[t].pc.Lowering? ==> p.Some?)
    ensures FlushesOn(s, t, p, start, back, list)
  {
    hide Inv, FreeList, At;
    StepKeeps(s, Step(t));
    SameStack(s, Next(s, Step(t)));
    FlushRoom(s, t);
  }

  /** A flush keeps the lower half, so that there is room. */
  lemma FlushRoom(s: Sys, t: Tid)
    requires Inv(s) && t in s.threads
    ensures s.threads[t].pc.Lowering? && s.threads[t].pc.ptr.Some? ==> s.threads[t].pc.start == 256
    ensures s.threads[t].pc.Linking? ==>
              1 <= s.threads[t].pc.i && s.threads[t].pc.start + s.threads[t].pc.i <= s.threads[t].count
  {
    assert ThreadOk(s, t);
  }

  /** The last step. */
  lemma FlushEnd(s: Sys, t: Tid, p: Option<Obj>, start: nat, back: seq<Obj>, list: seq<Obj>)
    requires Flushes(s, t, p, start, back, list)
    requires s.threads[t].pc.Putting? || (s.threads[t].pc.Lowering? && p == None)
    ensures var s1, slots := Next(s, Step(t)), s.threads[t].slots;
            && Inv(s1) && FreeList(s1) == back + list && s1.held == s.held && OthersSame(s, s1, t) && s1.lock == None
            && t in s1.threads
            && (p.Some? ==> start < 512 && s1.threads[t] == Thread(slots[start := p.value], start + 1, Idle))
            && (p == None ==> s1.threads[t] == Thread(slots, start, Exited))
  {
    hide Inv, FreeList;
    StepKeeps(s, Step(t));
    SameStack(s, Next(s, Step(t)));
  }

  lemma {:induction false} FlushRuns(s: Sys, t: Tid, p: Option<Obj>, start: nat, back: seq<Obj>, list: seq<Obj>)
    returns (n: nat, s': Sys)
    requires Flushes(s, t, p, start, back, list)
    ensures EndsIn(s, t, n, s') && Inv(s') && t in s.threads && t in s'.threads && |s.threads[t].slots| == 512
    ensures FreeList(s') == back + list && s'.held == s.held && OthersSame(s, s', t) && s'.lock == None
    ensures p.Some? ==>
              start < 512 && s'.threads[t] == Thread(s.threads[t].slots[start := p.value], start + 1, Idle)
    ensures p == None ==> s'.threads[t] == Thread(s.threads[t].slots, start, Exited)
    decreases FlushSteps(s, t)
  {
    hide Inv, FreeList, FlushSteps, Next, EndsIn;
    FlushBusy(s, t, p, start, back, list);
    if s.threads[t].pc.Putting? || (s.threads[t].pc.Lowering? && p == None) {
      n, s' := 1, Next(s, Step(t));
      FlushEnd(s, t, p, start, back, list);
      EndsNow(s', t);
      EndsLater(s, t, 0, s');
    } else {
      FlushStep(s, t, p, start, back, list);
      n, s' := FlushRuns(Next(s, Step(t)), t, p, start, back, list);
      EndsLater(s, t, n, s');
      n := n + 1;
    }
  }

  lemma FlushBusy(s: Sys, t: Tid, p: Option<Obj>, start: nat, back: seq<Obj>, list: seq<Obj>)
    requires Flushes(s, t, p, start, back, list)
    ensures !IdleAt(s, t)
  {
  }

  /* ---- mp_free ---- */

  /** mp_free with room in the cache (lines 282-285): the object is no longer with its caller, but in
      the top slot of the cache, and the next mp_alloc of the thread returns it. */
  lemma FreeCaches(s: Sys, t: Tid, o: Obj)
    requires Inv(s) && IdleAt(s, t) && o in s.held && s.threads[t].count < 512
    ensures var th, s' := s.threads[t], Next(s, Release(t, o));
            && Inv(s') && s'.held == s.held - {o} && |th.slots| == 512
            && s'.threads == s.threads[t := Thread(th.slots[th.count := o], th.count + 1, Idle)]
            && IsAt(s', o, Cached(t, th.count)) && FreeList(s') == FreeList(s)
            && Next(s', Alloc(t)).held == s.held && Next(s', Alloc(t)).threads[t].count == th.count
  {
    assert ThreadOk(s, t);
    var s' := Next(s, Release(t, o));
    StepKeeps(s, Release(t, o));
    SameList(s, s');
    hide Inv, FreeList;
    AllocGives(s', t);
  }

  /** mp_free with a full cache, when the lock is free (lines 287-288): the upper 256 of the 512 objects
      go to the head of the free list, in order, and the object lies on top of the lower 256; the next
      mp_alloc of the thread returns it. */
  lemma FreeFlushes(s: Sys, t: Tid, o: Obj) returns (n: nat, s': Sys)
    requires Inv(s) && IdleAt(s, t) && o in s.held && s.threads[t].count == 512 && s.lock == None
    ensures Next(s, Release(t, o)).held == s.held - {o}
    ensures EndsIn(Next(s, Release(t, o)), t, n, s') && Inv(s') && IdleAt(s', t) && |s.threads[t].slots| == 512
    ensures s'.held == s.held - {o} && FreeList(s') == s.threads[t].slots[256..512] + FreeList(s)
    ensures s'.threads[t] == Thread(s.threads[t].slots[256 := o], 257, Idle) && IsAt(s', o, Cached(t, 256))
    ensures OthersSame(s, s', t) && s'.lock == None
    ensures Next(s', Alloc(t)).held == s.held && Next(s', Alloc(t)).threads[t].count == 256
  {
    assert ThreadOk(s, t);
    var s1 := Next(s, Release(t, o));
    StepKeeps(s, Release(t, o));
    SameList(s, s1);
    hide Inv, FreeList, EndsIn;
    n, s' := FlushRuns(s1, t, Some(o), 256, s.threads[t].slots[256..512], FreeList(s));
    AllocGives(s', t);
  }

  /* ---- The end of a thread ---- */

  lemma ExitStarts(s: Sys, t: Tid)
    requires Inv(s) && IdleAt(s, t) && s.threads[t].count > 0 && s.lock == None
    ensures var s1, th := Next(s, Exit(t)), s.threads[t];
            && th.count <= |th.slots| && Flushes(s1, t, None, 0, th.slots[..th.count], FreeList(s))
            && s1.threads[t].slots == th.slots && s1.held == s.held && OthersSame(s, s1, t)
  {
    assert ThreadOk(s, t);
    StepKeeps(s, Exit(t));
    SameList(s, Next(s, Exit(t)));
    hide Inv, FreeList;
    assert s.threads[t].slots[0..s.threads[t].count] == s.threads[t].slots[..s.threads[t].count];
  }

  /** A thread that ends gives its whole cache back, in order, if the lock is free when it needs it
      (lines 79-118). */
  lemma ExitReturns(s: Sys, t: Tid) returns (n: nat, s': Sys)
    requires Inv(s) && IdleAt(s, t) && (s.threads[t].count > 0 ==> s.lock == None)
    ensures EndsIn(Next(s, Exit(t)), t, n, s') && Inv(s')
    ensures t in s'.threads && s'.threads[t].pc.Exited? && s.threads[t].count <= |s.threads[t].slots|
    ensures FreeList(s') == s.threads[t].slots[..s.threads[t].count] + FreeList(s)
    ensures s'.held == s.held && OthersSame(s, s', t) && s'.lock == s.lock
  {
    hide Inv, FreeList, Flushes;
    var s1, th := Next(s, Exit(t)), s.threads[t];
    StepKeeps(s, Exit(t));
    if th.count == 0 {
      n, s' := 0, s1;
      SameList(s, s1);
      assert th.slots[..0] + FreeList(s) == FreeList(s);
    } else {
      hide EndsIn, Next;
      ExitStarts(s, t);
      n, s' := FlushRuns(s1, t, None, 0, th.slots[..th.count], FreeList(s));
    }
  }

  /* ---- Creation ---- */

  /** mp_pool_create leaves the objects on the free list from the last one down, 2048 bytes apart. */
  lemma CreatedList(count: nat)
    ensures |FreeList(Created(count))| == count
    ensures forall i :: 0 <= i < count ==> FreeList(Created(count))[i] == (count - 1 - i) * 2048
  {
    hide Inv, FreeList, Reverse;
    CreatedOk(count);
    CreatedStack(count);
    ListHead(Created(count));
    ReverseAt(Created(count).stack);
  }

  lemma {:induction false} CreatedStack(count: nat)
    ensures |Created(count).stack| == count
    ensures forall i :: 0 <= i < count ==> Created(count).stack[i] == i * 2048
  {
    if count > 0 {
      CreatedStack(count - 1);
    }
  }
}
