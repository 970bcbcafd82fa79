/** Runs of the 32-bit ring of structure/mpmc.c in which heads may come round: what its callers are
    promised, and the one thing that must not happen. */
module MpmcWrap {
  import opened Options
  import opened Machine
  import opened Bits
  import opened Mpmc
  import opened MpmcCalls

  /** The next step is a compare-and-swap that the 32-bit machine lets succeed. */
  predicate Claims(s: Sys, e: Event) {
    e.t in s.r.threads && !e.spurious &&
    match s.r.threads[e.t]
    case EnqChecked(_, h, _) => Image(h) == Image(s.r.prodHead)
    case DeqChecked(h, _) => Image(h) == Image(s.r.consHead)
    case _ => false
  }

  /** Whatever head the thread saw, there is room for the ticket it claims, or an item. */
  predicate Roomy(s: Sys, e: Event) {
    Claims(s, e) ==>
      if s.r.threads[e.t].EnqChecked? then s.r.prodHead < s.r.consTail + |s.r.buf| else s.r.consHead < s.r.prodTail
  }

  /** The thread as if it had loaded the head that is there now. */
  function Refreshed(s: Sys, e: Event): Sys {
    if !Claims(s, e) then s
    else
      match s.r.threads[e.t]
      case EnqChecked(p, _, _) => s.(r := Goto(s.r, e.t, EnqChecked(p, s.r.prodHead, s.r.consTail)))
      case DeqChecked(_, _) => s.(r := Goto(s.r, e.t, DeqChecked(s.r.consHead, s.r.prodTail)))
      case _ => s
  }

  /** What the 32-bit machine does, on tickets. */
  function WrapStep(s: Sys, e: Event): (s': Sys)
    requires |s.r.buf| > 0
    ensures |s'.r.buf| == |s.r.buf|
  {
    Step(Refreshed(s, e), e)
  }

  function WrapRun(s: Sys, es: seq<Event>): (s': Sys)
    requires |s.r.buf| > 0
    ensures |s'.r.buf| == |s.r.buf|
  {
    if es == [] then s else WrapStep(WrapRun(s, es[..|es| - 1]), es[|es| - 1])
  }

  /** No claim of the run goes beyond the room. */
  predicate RoomyRun(s: Sys, es: seq<Event>)
    requires |s.r.buf| > 0
  {
    es == [] || (RoomyRun(s, es[..|es| - 1]) && Roomy(WrapRun(s, es[..|es| - 1]), es[|es| - 1]))
  }

  lemma RefreshedKeeps(s: Sys, e: Event)
    requires Inv(s) && Roomy(s, e)
    ensures Inv(Refreshed(s, e)) && Fresh(Refreshed(s, e), e)
  {
    hide Inv, Image, SlotHolds;
    InvThread(s, e.t);
    if Claims(s, e) {
      GotoKeeps(s, e.t, Refreshed(s, e).r.threads[e.t]);
    }
  }

  /** No step looks at the tail that a thread has loaded. */
  lemma TailUnused(r: Ring, e: Event, pc: Pc)
    requires |r.buf| > 0 && e.t in r.threads
    requires match r.threads[e.t]
             case EnqChecked(p, h, _) => pc.EnqChecked? && pc.ptr == p && pc.head == h
             case DeqChecked(h, _) => pc.DeqChecked? && pc.head == h
             case _ => false
    ensures Next(Bits32, Goto(r, e.t, pc), e) == Next(Bits32, r, e)
  {
    hide Increment;
    var i, j := Next(Bits32, Goto(r, e.t, pc), e), Next(Bits32, r, e);
    assert i.threads == j.threads;
  }

  /** On 32 bits the refreshed head is the one that was there. */
  lemma RefreshedImage(s: Sys, e: Event)
    requires |s.r.buf| > 0
    ensures Next(Bits32, Image32(Refreshed(s, e).r), e) == Next(Bits32, Image32(s.r), e)
  {
    hide Image, Next, ImageThreads;
    if Claims(s, e) {
      var pc := Refreshed(s, e).r.threads[e.t];
      ImageUpdate(s.r.threads, e.t, pc);
      TailUnused(Image32(s.r), e, ImagePc(pc));
    }
  }

  lemma WrapStepKeeps(s: Sys, e: Event)
    requires Inv(s) && Roomy(s, e)
    ensures |s.r.buf| > 0 && Inv(WrapStep(s, e))
    ensures Next(Bits32, Image32(s.r), e) == Image32(WrapStep(s, e).r)
  {
    hide Inv, Next, Step, Refreshed, Image32, Fresh, Roomy;
    InvThread(s, e.t);
    RefreshedKeeps(s, e);
    RefreshedImage(s, e);
    StepKeeps(Refreshed(s, e), e);
    StepImage(Refreshed(s, e), e);
  }

  /** And a claim beyond the room leaves a memory that no state in the invariant has. */
  lemma RoomyExactly(s: Sys, e: Event)
    requires Inv(s)
    ensures |s.r.buf| > 0
    ensures Roomy(s, e) <==> exists s' :: Inv(s') && Image32(s'.r) == Next(Bits32, Image32(s.r), e)
  {
    hide Inv, Next, WrapStep;
    InvThread(s, e.t);
    if Roomy(s, e) {
      WrapStepKeeps(s, e);
    } else {
      forall s' | Inv(s') ensures Image32(s'.r) != Next(Bits32, Image32(s.r), e) {
        Overclaimed(s, e);
        Distances(s');
      }
    }
  }

  /** How many tickets the 32-bit counters say are claimed and not yet consumed, and how many items
      are published and not yet claimed. */
  function InUse(i: Ring): int {
    (i.prodHead - i.consTail) % WORD
  }

  function Waiting(i: Ring): int {
    (i.prodTail - i.consHead) % WORD
  }

  lemma Distances(s: Sys)
    requires Inv(s)
    ensures InUse(Image32(s.r)) <= |s.r.buf| && Waiting(Image32(s.r)) <= |s.r.buf| < WORD - 1
    ensures |Image32(s.r).buf| == |s.r.buf|
  {
    hide Inv, Image;
    InvThread(s, 0);
    CapacityHalf(s);
    var r := s.r;
    ImageSub(r.prodHead, r.consTail);
    ImageSub(r.prodTail, r.consHead);
    DivModUnique(r.prodHead - r.consTail, WORD, 0, r.prodHead - r.consTail);
    DivModUnique(r.prodTail - r.consHead, WORD, 0, r.prodTail - r.consHead);
  }

  lemma CapacityHalf(s: Sys)
    requires Inv(s)
    ensures |s.r.buf| < WORD - 1
  {
    hide Ordered, Manned, Stored, ThreadOk;
    var m := CapacityDivides(|s.r.buf|);
    MulBounds(m - 1, |s.r.buf|);
  }

  lemma Overclaimed(s: Sys, e: Event)
    requires Inv(s) && !Roomy(s, e) && |s.r.buf| > 0
    ensures var i := Next(Bits32, Image32(s.r), e);
            InUse(i) == |s.r.buf| + 1 || Waiting(i) == WORD - 1
  {
    hide Inv, Image, Next, Image32;
    InvThread(s, e.t);
    CapacityHalf(s);
    ClaimedImage(s.r, e);
    var r := s.r;
    if r.threads[e.t].EnqChecked? {
      ImageSub(r.prodHead + 1, r.consTail);
      DivModUnique(r.prodHead + 1 - r.consTail, WORD, 0, r.prodHead + 1 - r.consTail);
    } else {
      ImageSub(r.prodTail, r.consHead + 1);
      DivModUnique(r.prodTail - (r.consHead + 1), WORD, -1, r.prodTail - (r.consHead + 1) + WORD);
    }
  }

  /** The counters after a claim. */
  lemma ClaimedImage(r: Ring, e: Event)
    requires |r.buf| > 0 && e.t in r.threads && !e.spurious
    requires match r.threads[e.t]
             case EnqChecked(_, h, _) => Image(h) == Image(r.prodHead)
             case DeqChecked(h, _) => Image(h) == Image(r.consHead)
             case _ => false
    ensures |Image32(r).buf| > 0
    ensures var i := Next(Bits32, Image32(r), e);
            if r.threads[e.t].EnqChecked? then
              i.prodHead == Image(r.prodHead + 1) && i.consTail == Image(r.consTail)
            else
              i.consHead == Image(r.consHead + 1) && i.prodTail == Image(r.prodTail)
  {
    hide Image, ImageThreads, Increment;
    ImageUpdate(r.threads, e.t, Idle);
    ImageNext(r.prodHead);
    ImageNext(r.consHead);
  }

  /** A thread returns the same from a ring and from its image. */
  lemma TurnImage(r: Ring, t: Tid)
    ensures t in Image32(r).threads <==> t in r.threads
    ensures t in r.threads ==>
              var i, pc := Image32(r).threads[t], r.threads[t];
              && (i.EnqTurn? <==> pc.EnqTurn?) && (pc.EnqTurn? ==> i.ptr == pc.ptr)
              && (i.DeqTurn? <==> pc.DeqTurn?) && (pc.DeqTurn? ==> i.value == pc.value)
  {
  }

  lemma ImageBuf(r: Ring)
    ensures Image32(r).buf == r.buf
  {
  }

  /** A refreshed thread is not about to return, and nothing else differs. */
  lemma RefreshedTurn(s: Sys, e: Event)
    ensures var s' := Refreshed(s, e);
            && s'.log == s.log && s'.r.prodTail == s.r.prodTail && s'.r.consTail == s.r.consTail
            && s'.r.buf == s.r.buf && s'.r.threads.Keys == s.r.threads.Keys
    ensures e.t in s.r.threads && (s.r.threads[e.t].EnqTurn? || s.r.threads[e.t].DeqTurn?) ==> Refreshed(s, e) == s
    ensures e.t in s.r.threads && !s.r.threads[e.t].EnqTurn? && !s.r.threads[e.t].DeqTurn? ==>
              var pc := Refreshed(s, e).r.threads[e.t]; !pc.EnqTurn? && !pc.DeqTurn?
  {
  }

  /** The 32-bit run is the image of the run on tickets; what has returned is the published part of
      the log. */
  lemma {:induction false} WrapRunImage(s: Sys, es: seq<Event>)
    requires Inv(s) && s.r.prodTail == 0 && s.r.consTail == 0 && |s.r.buf| > 0 && RoomyRun(s, es)
    ensures var s', i := WrapRun(s, es), Image32(s.r);
            && |i.buf| > 0 && Inv(s') && RunRing(Bits32, i, es) == Image32(s'.r)
            && s'.r.consTail <= s'.r.prodTail <= |s'.log|
            && Accepted(Bits32, i, es) == s'.log[..s'.r.prodTail]
            && Delivered(Bits32, i, es) == s'.log[..s'.r.consTail]
  {
    hide Inv, Next, WrapStep, Image32, Roomy;
    ImageBuf(s.r);
    InvThread(s, 0);
    if es != [] {
      var front, e := es[..|es| - 1], es[|es| - 1];
      WrapRunImage(s, front);
      var s1 := WrapRun(s, front);
      WrapStepKeeps(s1, e);
      TurnImage(s1.r, e.t);
      WrapResult(s1, e);
      InvThread(WrapStep(s1, e), 0);
      InvThread(s1, 0);
      LogGrows(s1.log, WrapStep(s1, e).log, s1.r.prodTail);
      LogGrows(s1.log, WrapStep(s1, e).log, s1.r.consTail);
    }
  }

  lemma LogGrows(a: seq<Ptr>, b: seq<Ptr>, n: nat)
    requires a <= b && n <= |a|
    ensures b[..n] == a[..n] && (n < |a| ==> b[..n + 1] == a[..n] + [a[n]])
  {
  }

  lemma WrapResult(s: Sys, e: Event)
    requires Inv(s) && Roomy(s, e)
    ensures |s.r.buf| > 0
    ensures var s', pc := WrapStep(s, e), if e.t in s.r.threads then s.r.threads[e.t] else Idle;
            && s.log <= s'.log && |s.log| == s.r.prodHead
            && (if pc.EnqTurn? then
                  s'.r.prodTail == s.r.prodTail + 1 && s.r.prodTail < |s.log| && s.log[s.r.prodTail] == pc.ptr
                else s'.r.prodTail == s.r.prodTail)
            && (if pc.DeqTurn? then
                  s'.r.consTail == s.r.consTail + 1 && s.r.consTail < |s.log| && s.log[s.r.consTail] == pc.value
                else s'.r.consTail == s.r.consTail)
  {
    hide Inv, Step, Refreshed, Roomy, Fresh;
    InvThread(s, e.t);
    RefreshedKeeps(s, e);
    RefreshedTurn(s, e);
    ResultStep(Refreshed(s, e), e);
  }

  /** The promise of the ring, for the machine the code runs on: whatever the threads and the
      schedule, the pointers delivered are, in order, a prefix of those that callers passed to the
      enqueues that returned true: none lost, none invented, none twice, none out of order. */
  lemma Linearized(capacity: nat, tids: set<Tid>, es: seq<Event>)
    requires capacity < WORD && Create(capacity, tids).Some?
    requires RoomyRun(Start(Create(capacity, tids).value), es)
    ensures var r := Create(capacity, tids).value;
            Delivered(Bits32, r, es) <= Accepted(Bits32, r, es) == Submitted(Bits32, r, es)
  {
    hide Inv, RoomyRun, Delivered, Accepted, Submitted, WrapRun, RunRing;
    var r := Create(capacity, tids).value;
    CreateStarts(capacity, tids);
    CreateImage(capacity, tids);
    WrapRunImage(Start(r), es);
    AcceptedIsSubmitted(Bits32, r, es);
  }
}
