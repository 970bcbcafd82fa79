/** The thread-caching object pool of coding/pool.c, as a system of steps.

    Every thread has a cache of up to 512 objects; a spin lock guards a global list that runs through
    the free objects themselves. Threads interleave one shared access at a time. Waking up may happen
    at any moment, which covers every signal, every broadcast and every spurious wake-up. */
module Pool {
  import opened Options

  /** An object, by its distance from mmap_base; mp_free of NULL does nothing. */
  type Obj = nat
  type Tid = nat

  const CAPACITY: nat := 512
  const TARGET: nat := 256
  const BATCH: nat := 32

  /** Where a thread is. `ptr` is the object mp_free is to store after a flush, or None in the clean-up
      of an exiting thread; objects[start..count) are the ones being given back. */
  datatype Pc =
    | Idle
    | Exited
    | Linking(ptr: Option<Obj>, start: nat, i: nat)  // cur is objects[start + i - 1] (lines 93-97, 140-146)
    | Locking(ptr: Option<Obj>, start: nat)          // about to take the lock (lines 99, 148)
    | Tailing(ptr: Option<Obj>, start: nat)          // about to store cur->next (lines 101, 150)
    | Heading(ptr: Option<Obj>, start: nat)          // about to store free_head (lines 102, 151)
    | Unlocking(ptr: Option<Obj>, start: nat)        // about to release the lock (lines 103, 152)
    | Lowering(ptr: Option<Obj>, start: nat)         // about to lower count or free the cache (lines 114, 154)
    | Putting(p: Obj)                                // about to store the freed object (line 288)
    | Refilling                                      // about to take the lock (lines 167, 180)
    | Testing                                        // about to test free_head (line 169)
    | Giving                                         // list empty: about to release the lock (line 170)
    | Sleeping                                       // between lines 172 and 178
    | Taking(fetched: nat)                           // at the head of the fetching loop (line 184)
    | Storing(fetched: nat, n: Obj)                  // about to store the fetched object (line 187)
    | Leaving                                        // about to release the lock (line 191)
    | Returning                                      // about to take an object for the caller (line 272)

  /** thread_cache_t, with the place of its thread. */
  datatype Thread = Thread(slots: seq<Obj>, count: nat, pc: Pc)

  /** Where an object is: so high up in the free list, in that slot of a cache, in the hands of a
      running call, or with a caller. */
  datatype Place = Free(height: nat) | Cached(t: Tid, slot: nat) | Passing(t: Tid) | Held

  /** The last two fields are what the proofs remember, no step looks at them to decide anything:
      the free list from its bottom up, and the place of every object. */
  datatype Sys = Sys(next: map<Obj, Option<Obj>>, freeHead: Option<Obj>, lock: Option<Tid>,
                     threads: map<Tid, Thread>, held: set<Obj>, stack: seq<Obj>, place: map<Obj, Place>)

  datatype Event =
    | Step(t: Tid)
    | Alloc(t: Tid)
    | Release(t: Tid, o: Obj)                // mp_free of an object that some caller holds
    | Exit(t: Tid)
    | Init(t: Tid)
    | Scribble(o: Obj, v: Option<Obj>)       // a caller writes to an object it holds

  function At(th: Thread, k: int): Obj {
    if 0 <= k < |th.slots| then th.slots[k] else 0
  }

  function Put(th: Thread, p: Obj, pc: Pc): Thread {
    Thread(if th.count < |th.slots| then th.slots[th.count := p] else th.slots, th.count + 1, pc)
  }

  function Set(s: Sys, t: Tid, th: Thread): Sys {
    s.(threads := s.threads[t := th])
  }

  function Goto(s: Sys, t: Tid, pc: Pc): Sys
    requires t in s.threads
  {
    Set(s, t, s.threads[t].(pc := pc))
  }

  function Move(s: Sys, o: Obj, p: Place): map<Obj, Place> {
    s.place[o := p]
  }

  /** objects[start..count) as they lie in the list, bottom first. */
  function Segment(th: Thread, start: nat): seq<Obj>
    requires start <= th.count
  {
    seq(th.count - start, k requires 0 <= k < th.count - start => At(th, th.count - 1 - k))
  }

  function Spliced(s: Sys, t: Tid, start: nat, count: nat): map<Obj, Place> {
    map o | o in s.place ::
      if s.place[o].Cached? && s.place[o].t == t && start <= s.place[o].slot < count
      then Free(|s.stack| + count - 1 - s.place[o].slot) else s.place[o]
  }

  /** mp_alloc from a cache that has something. */
  function Take(s: Sys, t: Tid): Sys
    requires t in s.threads && s.threads[t].count > 0
  {
    var th := s.threads[t];
    var o := At(th, th.count - 1);
    Set(s, t, Thread(th.slots, th.count - 1, Idle)).(held := s.held + {o}, place := Move(s, o, Held))
  }

  /** One step of a thread that is in the middle of a call. */
  function Progress(s: Sys, t: Tid): Sys
    requires t in s.threads
  {
    var th := s.threads[t];
    match th.pc
    case Idle => s
    case Exited => s
    case Linking(p, start, i) =>
      if start + i < th.count
      then Goto(s, t, Linking(p, start, i + 1)).(next := s.next[At(th, start + i - 1) := Some(At(th, start + i))])
      else Goto(s, t, Locking(p, start)).(next := s.next[At(th, start + i - 1) := None])
    case Locking(p, start) =>
      if s.lock == None then Goto(s, t, Tailing(p, start)).(lock := Some(t)) else s
    case Tailing(p, start) =>
      Goto(s, t, Heading(p, start)).(next := s.next[At(th, th.count - 1) := s.freeHead])
    case Heading(p, start) =>
      if start <= th.count then
        Goto(s, t, Unlocking(p, start)).(freeHead := Some(At(th, start)), stack := s.stack + Segment(th, start),
                                         place := Spliced(s, t, start, th.count))
      else s
    case Unlocking(p, start) => Goto(s, t, Lowering(p, start)).(lock := None)
    case Lowering(p, start) =>
      if p.Some? then Set(s, t, Thread(th.slots, start, Putting(p.value)))
      else Set(s, t, Thread(th.slots, start, Exited))
    case Putting(p) => Set(s, t, Put(th, p, Idle)).(place := Move(s, p, Cached(t, th.count)))
    case Refilling => if s.lock == None then Goto(s, t, Testing).(lock := Some(t)) else s
    case Testing => if s.freeHead == None then Goto(s, t, Giving) else Goto(s, t, Taking(0))
    case Giving => Goto(s, t, Sleeping).(lock := None)
    case Sleeping => Goto(s, t, Refilling)
    case Taking(f) =>
      if f < BATCH && s.freeHead.Some? && s.freeHead.value in s.next then
        var n := s.freeHead.value;
        Goto(s, t, Storing(f, n)).(freeHead := s.next[n], place := Move(s, n, Passing(t)),
                                   stack := if s.stack == [] then [] else s.stack[..|s.stack| - 1])
      else Goto(s, t, Leaving)
    case Storing(f, n) => Set(s, t, Put(th, n, Taking(f + 1))).(place := Move(s, n, Cached(t, th.count)))
    case Leaving => Goto(s, t, Returning).(lock := None)
    case Returning => if th.count > 0 then Take(s, t) else Goto(s, t, Idle)
  }

  function Next(s: Sys, e: Event): Sys {
    match e
    case Step(t) => if t in s.threads then Progress(s, t) else s
    case Alloc(t) =>
      if t !in s.threads || s.threads[t].pc != Idle then s
      else if s.threads[t].count > 0 then Take(s, t)
      else Goto(s, t, Refilling)
    case Release(t, o) =>
      if t !in s.threads || s.threads[t].pc != Idle || o !in s.held then s
      else
        var th := s.threads[t];
        if th.count < CAPACITY then
          Set(s, t, Put(th, o, Idle)).(held := s.held - {o}, place := Move(s, o, Cached(t, th.count)))
        else
          Goto(s, t, Linking(Some(o), TARGET, 1)).(held := s.held - {o}, place := Move(s, o, Passing(t)))
    case Exit(t) =>
      if t !in s.threads || s.threads[t].pc != Idle then s
      else if s.threads[t].count == 0 then Goto(s, t, Exited)
      else Goto(s, t, Linking(None, 0, 1))
    case Init(t) =>
      if t in s.threads then s else Set(s, t, Thread(seq(CAPACITY, _ => 0), 0, Idle))
    case Scribble(o, v) =>
      if o in s.held then s.(next := s.next[o := v]) else s
  }

  function Run(s: Sys, es: seq<Event>): Sys {
    if es == [] then s else Next(Run(s, es[..|es| - 1]), es[|es| - 1])
  }

  /* ---- The invariant ---- */

  /** How many slots still belong to the cache: between the splice and the store to count, fewer than
      count says. */
  function Own(th: Thread): nat {
    match th.pc
    case Unlocking(_, start) => start
    case Lowering(_, start) => start
    case _ => th.count
  }

  /** The object a call has in its hands. */
  function Hand(pc: Pc): Option<Obj> {
    match pc
    case Linking(p, _, _) => p
    case Locking(p, _) => p
    case Tailing(p, _) => p
    case Heading(p, _) => p
    case Unlocking(p, _) => p
    case Lowering(p, _) => p
    case Putting(p) => Some(p)
    case Storing(_, n) => Some(n)
    case _ => None
  }

  predicate HasLock(pc: Pc) {
    pc.Tailing? || pc.Heading? || pc.Unlocking? || pc.Testing? || pc.Giving? || pc.Taking? || pc.Storing? || pc.Leaving?
  }

  predicate PlaceOk(s: Sys, o: Obj) {
    o in s.place && o in s.next &&
    match s.place[o]
    case Free(i) => i < |s.stack| && s.stack[i] == o
    case Cached(t, k) => t in s.threads && k < Own(s.threads[t]) && At(s.threads[t], k) == o
    case Passing(t) => t in s.threads && Hand(s.threads[t].pc) == Some(o)
    case Held => o in s.held
  }

  ghost predicate PlacesOk(s: Sys) {
    && s.next.Keys == s.place.Keys
    && (forall o {:trigger PlaceOk(s, o)} :: o in s.place ==> PlaceOk(s, o))
    && forall o <- s.held :: o in s.place && s.place[o] == Held
  }

  function Top(stack: seq<Obj>): Option<Obj> {
    if stack == [] then None else Some(stack[|stack| - 1])
  }

  function Under(stack: seq<Obj>, i: nat): Option<Obj>
    requires i < |stack|
  {
    if i == 0 then None else Some(stack[i - 1])
  }

  /** The free list: the object at height `i` points at the one below. */
  predicate StackAt(s: Sys, i: nat) {
    i < |s.stack| ==>
      s.stack[i] in s.place && s.place[s.stack[i]] == Free(i)
      && s.stack[i] in s.next && s.next[s.stack[i]] == Under(s.stack, i)
  }

  ghost predicate StackOk(s: Sys) {
    s.freeHead == Top(s.stack) && forall i: nat {:trigger StackAt(s, i)} :: StackAt(s, i)
  }

  predicate CacheAt(s: Sys, t: Tid, th: Thread, k: nat) {
    k < Own(th) ==> At(th, k) in s.place && s.place[At(th, k)] == Cached(t, k)
  }

  /** objects[k] points at objects[k + 1]. */
  predicate JoinAt(s: Sys, th: Thread, start: nat, n: nat, k: nat) {
    start <= k < n ==> At(th, k) in s.next && s.next[At(th, k)] == Some(At(th, k + 1))
  }

  ghost predicate Joined(s: Sys, th: Thread, start: nat, n: nat) {
    forall k: nat {:trigger JoinAt(s, th, start, n, k)} :: JoinAt(s, th, start, n, k)
  }

  /** A flush gives back half of a full cache, an exit everything. */
  predicate Returns(p: Option<Obj>, start: nat, count: nat) {
    start < count && if p.Some? then start == TARGET && count == CAPACITY else start == 0
  }

  ghost predicate PcOk(s: Sys, th: Thread) {
    match th.pc
    case Linking(p, start, i) =>
      Returns(p, start, th.count) && 1 <= i <= th.count - start && Joined(s, th, start, start + i - 1)
    case Locking(p, start) => Returns(p, start, th.count) && Joined(s, th, start, th.count - 1)
    case Tailing(p, start) => Returns(p, start, th.count) && Joined(s, th, start, th.count - 1)
    case Heading(p, start) =>
      && Returns(p, start, th.count) && Joined(s, th, start, th.count - 1)
      && At(th, th.count - 1) in s.next && s.next[At(th, th.count - 1)] == s.freeHead
    case Unlocking(p, start) => Returns(p, start, th.count)
    case Lowering(p, start) => Returns(p, start, th.count)
    case Putting(_) => th.count == TARGET
    case Refilling => th.count == 0
    case Testing => th.count == 0
    case Giving => th.count == 0
    case Sleeping => th.count == 0
    case Taking(f) => th.count == f <= BATCH && (f == 0 ==> s.freeHead.Some?)
    case Storing(f, _) => th.count == f < BATCH
    case Leaving => 0 < th.count <= BATCH
    case Returning => 0 < th.count <= BATCH
    case Exited => th.count == 0
    case Idle => true
  }

  ghost predicate ThreadOk(s: Sys, t: Tid) {
    t in s.threads ==>
      var th := s.threads[t];
      && |th.slots| == CAPACITY && th.count <= CAPACITY && PcOk(s, th)
      && (forall k: nat {:trigger CacheAt(s, t, th, k)} :: CacheAt(s, t, th, k))
      && (Hand(th.pc).Some? ==> Hand(th.pc).value in s.place && s.place[Hand(th.pc).value] == Passing(t))
  }

  predicate LockAt(s: Sys, t: Tid) {
    t in s.threads ==> (HasLock(s.threads[t].pc) <==> s.lock == Some(t))
  }

  ghost predicate LockOk(s: Sys) {
    (s.lock.Some? ==> s.lock.value in s.threads) && forall t {:trigger LockAt(s, t)} :: LockAt(s, t)
  }

  ghost predicate ThreadsOk(s: Sys) {
    forall t {:trigger ThreadOk(s, t)} :: ThreadOk(s, t)
  }

  ghost predicate Inv(s: Sys) {
    PlacesOk(s) && StackOk(s) && ThreadsOk(s) && LockOk(s)
  }
}
