/** Every step of coding/pool.c keeps the invariant of the pool. */
module PoolProof {
  import opened Options
  import opened Pool

  /* ---- What a step of one thread leaves alone ---- */

  /** The object belongs to another thread than `t`. */
  predicate Foreign(s: Sys, t: Tid, o: Obj) {
    o in s.place && ((s.place[o].Cached? && s.place[o].t != t) || (s.place[o].Passing? && s.place[o].t != t))
  }

  predicate SameObject(s: Sys, s': Sys, o: Obj) {
    && o in s.place && o in s.next && o in s'.place && o in s'.next
    && s'.place[o] == s.place[o] && s'.next[o] == s.next[o]
  }

  /** Seen from the other threads, a step of `t` changes nothing. */
  ghost predicate OnlyOf(s: Sys, s': Sys, t: Tid) {
    && (forall u :: u != t ==> (u in s'.threads <==> u in s.threads))
    && (forall u <- s.threads :: u != t ==> s'.threads[u] == s.threads[u])
    && (forall o {:trigger Foreign(s, t, o)} :: Foreign(s, t, o) ==> SameObject(s, s', o))
    && (s'.freeHead == s.freeHead || s.lock == Some(t))
  }

  lemma OtherThread(s: Sys, s': Sys, t: Tid, u: Tid)
    requires ThreadOk(s, u) && LockAt(s, u) && OnlyOf(s, s', t) && u != t
    ensures ThreadOk(s', u)
  {
    if u in s.threads {
      var th := s.threads[u];
      forall k: nat ensures CacheAt(s', u, th, k) {
        assert CacheAt(s, u, th, k);
        assert k < Own(th) ==> Foreign(s, t, At(th, k));
      }
      if Hand(th.pc).Some? {
        assert Foreign(s, t, Hand(th.pc).value);
      }
      OtherPc(s, s', t, u);
    }
  }

  lemma OtherJoined(s: Sys, s': Sys, t: Tid, u: Tid, start: nat, n: nat)
    requires OnlyOf(s, s', t) && u != t && u in s.threads && n <= Own(s.threads[u])
    requires forall k: nat {:trigger CacheAt(s, u, s.threads[u], k)} :: CacheAt(s, u, s.threads[u], k)
    requires Joined(s, s.threads[u], start, n)
    ensures Joined(s', s.threads[u], start, n)
  {
    var th := s.threads[u];
    forall k: nat ensures JoinAt(s', th, start, n, k) {
      assert JoinAt(s, th, start, n, k) && CacheAt(s, u, th, k);
      assert k < n ==> Foreign(s, t, At(th, k));
    }
  }

  lemma OtherPc(s: Sys, s': Sys, t: Tid, u: Tid)
    requires ThreadOk(s, u) && LockAt(s, u) && OnlyOf(s, s', t) && u != t && u in s.threads
    ensures PcOk(s', s.threads[u])
  {
    var th := s.threads[u];
    hide JoinAt, OnlyOf;
    match th.pc {
      case Linking(p, start, i) => OtherJoined(s, s', t, u, start, start + i - 1);
      case Locking(p, start) => OtherJoined(s, s', t, u, start, th.count - 1);
      case Tailing(p, start) => OtherJoined(s, s', t, u, start, th.count - 1);
      case Heading(p, start) =>
        OtherJoined(s, s', t, u, start, th.count - 1);
        OtherLast(s, s', t, u);
      case Taking(f) => SameHead(s, s', t);
      case _ =>
    }
  }

  lemma SameHead(s: Sys, s': Sys, t: Tid)
    requires OnlyOf(s, s', t)
    ensures s'.freeHead == s.freeHead || s.lock == Some(t)
  {
  }

  lemma OtherLast(s: Sys, s': Sys, t: Tid, u: Tid)
    requires ThreadOk(s, u) && LockAt(s, u) && OnlyOf(s, s', t) && u != t && u in s.threads && s.threads[u].pc.Heading?
    ensures var last := At(s.threads[u], s.threads[u].count - 1);
            last in s'.next && s'.next[last] == s'.freeHead
  {
    var th := s.threads[u];
    assert CacheAt(s, u, th, th.count - 1);
    assert Foreign(s, t, At(th, th.count - 1));
  }

  lemma Others(s: Sys, s': Sys, t: Tid)
    requires ThreadsOk(s) && LockOk(s) && OnlyOf(s, s', t) && ThreadOk(s', t)
    ensures ThreadsOk(s')
  {
    forall u ensures ThreadOk(s', u) {
      if u != t {
        assert ThreadOk(s, u) && LockAt(s, u);
        OtherThread(s, s', t, u);
      }
    }
  }

  lemma LockSame(s: Sys, s': Sys, t: Tid)
    requires LockOk(s) && t in s.threads && t in s'.threads && OnlyOf(s, s', t) && s'.lock == s.lock
    requires HasLock(s'.threads[t].pc) == HasLock(s.threads[t].pc)
    ensures LockOk(s')
  {
    forall u ensures LockAt(s', u) {
      assert LockAt(s, u);
    }
  }

  lemma LockTurns(s: Sys, s': Sys, t: Tid)
    requires LockOk(s) && t in s.threads && t in s'.threads && OnlyOf(s, s', t)
    requires s.lock == None || s.lock == Some(t)
    requires s'.lock == if HasLock(s'.threads[t].pc) then Some(t) else None
    ensures LockOk(s')
  {
    forall u ensures LockAt(s', u) {
      assert LockAt(s, u);
    }
  }

  /* ---- Steps that only move the thread on ---- */

  /** The thread's cache and hand are as before. */
  predicate SameHoldings(th: Thread, th': Thread) {
    th'.slots == th.slots && Own(th') == Own(th) && Hand(th'.pc) == Hand(th.pc)
  }

  lemma SetPlaces(s: Sys, t: Tid, th: Thread, l: Option<Tid>)
    requires PlacesOk(s) && StackOk(s) && t in s.threads && SameHoldings(s.threads[t], th)
    ensures PlacesOk(Set(s, t, th).(lock := l)) && StackOk(Set(s, t, th).(lock := l))
  {
    var s' := Set(s, t, th).(lock := l);
    forall o | o in s'.place ensures PlaceOk(s', o) {
      assert PlaceOk(s, o);
    }
    forall i: nat ensures StackAt(s', i) {
      assert StackAt(s, i);
    }
  }

  lemma SetThread(s: Sys, s': Sys, t: Tid)
    requires ThreadOk(s, t) && t in s.threads && t in s'.threads && SameHoldings(s.threads[t], s'.threads[t])
    requires s'.place == s.place && s'.threads[t].count <= CAPACITY && PcOk(s', s'.threads[t])
    ensures ThreadOk(s', t)
  {
    var th, th' := s.threads[t], s'.threads[t];
    forall k: nat ensures CacheAt(s', t, th', k) {
      assert CacheAt(s, t, th, k);
    }
  }

  lemma AllKept(s: Sys, s': Sys, t: Tid)
    requires PlacesOk(s) && s'.place == s.place && s'.next == s.next && t in s.threads && t in s'.threads
    requires s'.threads == s.threads[t := s'.threads[t]] && (s'.freeHead == s.freeHead || s.lock == Some(t))
    ensures OnlyOf(s, s', t)
  {
    forall o | Foreign(s, t, o) ensures SameObject(s, s', o) {
      assert PlaceOk(s, o);
    }
  }

  /** The lock stays as it is. */
  lemma StepOn(s: Sys, t: Tid, th: Thread)
    requires Inv(s) && t in s.threads && SameHoldings(s.threads[t], th)
    requires HasLock(th.pc) == HasLock(s.threads[t].pc) && th.count <= CAPACITY && PcOk(Set(s, t, th), th)
    ensures Inv(Set(s, t, th))
  {
    hide PlacesOk, StackOk, PcOk, LockOk, ThreadsOk, OnlyOf, SameHoldings, Hand, Own;
    var s' := Set(s, t, th);
    SetPlaces(s, t, th, s.lock);
    OneThread(s, t);
    AllKept(s, s', t);
    SetThread(s, s', t);
    Others(s, s', t);
    LockSame(s, s', t);
  }

  lemma OneThread(s: Sys, t: Tid)
    requires ThreadsOk(s)
    ensures ThreadOk(s, t)
  {
  }

  lemma OneLock(s: Sys, t: Tid)
    requires LockOk(s) && t in s.threads
    ensures HasLock(s.threads[t].pc) <==> s.lock == Some(t)
  {
    assert LockAt(s, t);
  }

  /** The lock is taken or released. */
  lemma StepLock(s: Sys, t: Tid, th: Thread)
    requires Inv(s) && t in s.threads && SameHoldings(s.threads[t], th)
    requires s.lock == None || s.lock == Some(t)
    requires th.count <= CAPACITY
    requires PcOk(Set(s, t, th).(lock := if HasLock(th.pc) then Some(t) else None), th)
    ensures Inv(Set(s, t, th).(lock := if HasLock(th.pc) then Some(t) else None))
  {
    hide PlacesOk, StackOk, PcOk, LockOk, ThreadsOk, OnlyOf, SameHoldings, Hand, Own;
    var l := if HasLock(th.pc) then Some(t) else None;
    var s' := Set(s, t, th).(lock := l);
    SetPlaces(s, t, th, l);
    OneThread(s, t);
    AllKept(s, s', t);
    SetThread(s, s', t);
    Others(s, s', t);
    LockTurns(s, s', t);
  }

  /* ---- Steps that write a link ---- */

  /** The state with another link of `o`. */
  function Write(s: Sys, o: Obj, v: Option<Obj>): Sys {
    s.(next := s.next[o := v])
  }

  lemma WritePlaces(s: Sys, t: Tid, th: Thread, o: Obj, v: Option<Obj>)
    requires PlacesOk(s) && StackOk(s) && t in s.threads && SameHoldings(s.threads[t], th)
    requires o in s.place && !s.place[o].Free?
    ensures PlacesOk(Write(Set(s, t, th), o, v)) && StackOk(Write(Set(s, t, th), o, v))
  {
    var s' := Write(Set(s, t, th), o, v);
    assert PlaceOk(s, o);
    forall x | x in s'.place ensures PlaceOk(s', x) {
      assert PlaceOk(s, x);
    }
    forall i: nat ensures StackAt(s', i) {
      assert StackAt(s, i);
    }
  }

  lemma WriteOthers(s: Sys, t: Tid, th: Thread, o: Obj, v: Option<Obj>)
    requires PlacesOk(s) && t in s.threads && o in s.place && !Foreign(s, t, o)
    ensures OnlyOf(s, Write(Set(s, t, th), o, v), t)
  {
    var s' := Write(Set(s, t, th), o, v);
    forall x | Foreign(s, t, x) ensures SameObject(s, s', x) {
      assert PlaceOk(s, x);
    }
  }

  /** A link of an object in the thread's own cache. */
  lemma StepWrite(s: Sys, t: Tid, th: Thread, o: Obj, v: Option<Obj>)
    requires Inv(s) && t in s.threads && SameHoldings(s.threads[t], th)
    requires HasLock(th.pc) == HasLock(s.threads[t].pc) && th.count <= CAPACITY
    requires o in s.place && s.place[o].Cached? && s.place[o].t == t && PcOk(Write(Set(s, t, th), o, v), th)
    ensures Inv(Write(Set(s, t, th), o, v))
  {
    hide PlacesOk, StackOk, PcOk, LockOk, ThreadsOk, OnlyOf, SameHoldings, Hand, Own;
    var s' := Write(Set(s, t, th), o, v);
    WritePlaces(s, t, th, o, v);
    OneThread(s, t);
    WriteOthers(s, t, th, o, v);
    SetThread(s, s', t);
    Others(s, s', t);
    LockSame(s, s', t);
  }

  /** The slots of a cache hold different objects. */
  lemma SlotsDiffer(s: Sys, t: Tid, k: nat, m: nat)
    requires ThreadOk(s, t) && t in s.threads && k < Own(s.threads[t]) && m < Own(s.threads[t]) && k != m
    ensures At(s.threads[t], k) != At(s.threads[t], m)
  {
    assert CacheAt(s, t, s.threads[t], k) && CacheAt(s, t, s.threads[t], m);
  }

  /** Writing the link of objects[m] keeps the links of the slots before it. */
  lemma JoinedKept(s: Sys, t: Tid, th: Thread, start: nat, m: nat, v: Option<Obj>)
    requires ThreadOk(s, t) && t in s.threads && m < Own(s.threads[t]) && th.slots == s.threads[t].slots
    requires Joined(s, s.threads[t], start, m)
    ensures Joined(Write(Set(s, t, th), At(th, m), v), th, start, m)
    ensures v == Some(At(th, m + 1)) ==> Joined(Write(Set(s, t, th), At(th, m), v), th, start, m + 1)
  {
    var s' := Write(Set(s, t, th), At(th, m), v);
    forall k: nat ensures JoinAt(s', th, start, m, k) {
      assert JoinAt(s, s.threads[t], start, m, k);
      if k < m {
        SlotsDiffer(s, t, k, m);
      }
    }
    if v == Some(At(th, m + 1)) {
      var n := m + 1;
      forall k: nat ensures JoinAt(s', th, start, n, k) {
        assert JoinAt(s', th, start, m, k);
      }
    }
  }

  lemma LinkingKeeps(s: Sys, t: Tid)
    requires Inv(s) && t in s.threads && s.threads[t].pc.Linking?
    ensures Inv(Progress(s, t))
  {
    hide PlacesOk, StackOk, LockOk, Joined;
    var th := s.threads[t];
    var p, start, i := th.pc.ptr, th.pc.start, th.pc.i;
    OneThread(s, t);
    assert CacheAt(s, t, th, start + i - 1);
    if start + i < th.count {
      JoinedKept(s, t, th.(pc := Linking(p, start, i + 1)), start, start + i - 1, Some(At(th, start + i)));
      StepWrite(s, t, th.(pc := Linking(p, start, i + 1)), At(th, start + i - 1), Some(At(th, start + i)));
    } else {
      JoinedKept(s, t, th.(pc := Locking(p, start)), start, start + i - 1, None);
      StepWrite(s, t, th.(pc := Locking(p, start)), At(th, start + i - 1), None);
    }
  }

  lemma TailingKeeps(s: Sys, t: Tid)
    requires Inv(s) && t in s.threads && s.threads[t].pc.Tailing?
    ensures Inv(Progress(s, t))
  {
    hide PlacesOk, StackOk, LockOk, Joined;
    var th := s.threads[t];
    var p, start := th.pc.ptr, th.pc.start;
    OneThread(s, t);
    assert CacheAt(s, t, th, th.count - 1);
    JoinedKept(s, t, th.(pc := Heading(p, start)), start, th.count - 1, s.freeHead);
    StepWrite(s, t, th.(pc := Heading(p, start)), At(th, th.count - 1), s.freeHead);
  }

  /** Joined looks at the slots and at `next` only. */
  lemma JoinedSame(s: Sys, s': Sys, th: Thread, th': Thread, start: nat, n: nat)
    requires Joined(s, th, start, n) && s'.next == s.next && th'.slots == th.slots
    ensures Joined(s', th', start, n)
  {
    forall k: nat ensures JoinAt(s', th', start, n, k) {
      assert JoinAt(s, th, start, n, k);
    }
  }

  lemma LockingKeeps(s: Sys, t: Tid)
    requires Inv(s) && t in s.threads && s.threads[t].pc.Locking?
    ensures Inv(Progress(s, t))
  {
    hide PlacesOk, StackOk, LockOk, Joined;
    var th := s.threads[t];
    var p, start := th.pc.ptr, th.pc.start;
    OneThread(s, t);
    if s.lock == None {
      var th' := th.(pc := Tailing(p, start));
      JoinedSame(s, Set(s, t, th').(lock := Some(t)), th, th', start, th.count - 1);
      StepLock(s, t, th');
    }
  }

  /** The steps that only move on, take the lock or release it. */
  lemma MoveKeeps(s: Sys, t: Tid)
    requires Inv(s) && t in s.threads
    requires var pc := s.threads[t].pc;
             pc.Unlocking? || pc.Lowering? || pc.Refilling? || pc.Testing? || pc.Giving? || pc.Sleeping? || pc.Leaving?
    ensures Inv(Progress(s, t))
  {
    hide PlacesOk, StackOk, LockOk;
    var th := s.threads[t];
    OneThread(s, t);
    OneLock(s, t);
    match th.pc {
      case Unlocking(p, start) => StepLock(s, t, th.(pc := Lowering(p, start)));
      case Lowering(p, start) => StepOn(s, t, Thread(th.slots, start, if p.Some? then Putting(p.value) else Exited));
      case Refilling =>
        if s.lock == None {
          StepLock(s, t, th.(pc := Testing));
        }
      case Testing => StepOn(s, t, th.(pc := if s.freeHead == None then Giving else Taking(0)));
      case Giving => StepLock(s, t, th.(pc := Sleeping));
      case Sleeping => StepOn(s, t, th.(pc := Refilling));
      case Leaving => StepLock(s, t, th.(pc := Returning));
    }
  }

  /* ---- Objects that change places ---- */

  /** An object goes into the next slot of the thread's cache, out of its hand or from a caller. */
  function Stored(s: Sys, t: Tid, o: Obj, pc: Pc): Sys
    requires t in s.threads
  {
    var th := s.threads[t];
    Set(s, t, Put(th, o, pc)).(held := s.held - {o}, place := Move(s, o, Cached(t, th.count)))
  }

  lemma StoredPlaces(s: Sys, t: Tid, o: Obj, pc: Pc)
    requires PlacesOk(s) && StackOk(s) && ThreadOk(s, t) && t in s.threads && s.threads[t].count < CAPACITY
    requires o in s.place && (s.place[o] == Held || (s.place[o] == Passing(t) && Hand(s.threads[t].pc) == Some(o)))
    requires Hand(s.threads[t].pc).Some? ==> Hand(s.threads[t].pc) == Some(o)
    requires Own(s.threads[t]) == s.threads[t].count && Own(Put(s.threads[t], o, pc)) == s.threads[t].count + 1
    ensures PlacesOk(Stored(s, t, o, pc)) && StackOk(Stored(s, t, o, pc))
  {
    hide Hand, Own;
    var s' := Stored(s, t, o, pc);
    assert PlaceOk(s, o);
    forall x | x in s'.place ensures PlaceOk(s', x) {
      assert PlaceOk(s, x);
    }
    forall i: nat ensures StackAt(s', i) {
      assert StackAt(s, i);
    }
  }

  lemma StoredOthers(s: Sys, t: Tid, o: Obj, pc: Pc)
    requires PlacesOk(s) && t in s.threads && o in s.place && !Foreign(s, t, o)
    ensures OnlyOf(s, Stored(s, t, o, pc), t)
  {
    var s' := Stored(s, t, o, pc);
    forall x | Foreign(s, t, x) ensures SameObject(s, s', x) {
      assert PlaceOk(s, x);
    }
  }

  lemma StoredThread(s: Sys, t: Tid, o: Obj, pc: Pc)
    requires ThreadOk(s, t) && t in s.threads && s.threads[t].count < CAPACITY
    requires o in s.place && !s.place[o].Cached? && Hand(pc) == None
    requires PcOk(Stored(s, t, o, pc), Put(s.threads[t], o, pc))
    requires Own(s.threads[t]) == s.threads[t].count && Own(Put(s.threads[t], o, pc)) == s.threads[t].count + 1
    ensures ThreadOk(Stored(s, t, o, pc), t)
  {
    hide PcOk, Own, Hand;
    var th, s' := s.threads[t], Stored(s, t, o, pc);
    forall k: nat ensures CacheAt(s', t, s'.threads[t], k) {
      assert CacheAt(s, t, th, k);
    }
  }

  lemma StepStore(s: Sys, t: Tid, o: Obj, pc: Pc)
    requires Inv(s) && t in s.threads && s.threads[t].count < CAPACITY
    requires o in s.place && (s.place[o] == Held || (s.place[o] == Passing(t) && Hand(s.threads[t].pc) == Some(o)))
    requires Hand(s.threads[t].pc).Some? ==> Hand(s.threads[t].pc) == Some(o)
    requires Own(s.threads[t]) == s.threads[t].count && Own(Put(s.threads[t], o, pc)) == s.threads[t].count + 1
    requires Hand(pc) == None && PcOk(Stored(s, t, o, pc), Put(s.threads[t], o, pc))
    requires HasLock(pc) == HasLock(s.threads[t].pc)
    ensures Inv(Stored(s, t, o, pc))
  {
    hide PlacesOk, StackOk, PcOk, LockOk, ThreadsOk, OnlyOf, Hand, Own;
    OneThread(s, t);
    StoredPlaces(s, t, o, pc);
    StoredOthers(s, t, o, pc);
    StoredThread(s, t, o, pc);
    Others(s, Stored(s, t, o, pc), t);
    LockSame(s, Stored(s, t, o, pc), t);
  }

  /** An object in a call's hand is not with a caller. */
  lemma InHand(s: Sys, t: Tid)
    requires Inv(s) && t in s.threads && Hand(s.threads[t].pc).Some?
    ensures var o := Hand(s.threads[t].pc).value;
            o in s.place && s.place[o] == Passing(t) && o !in s.held && s.held - {o} == s.held
  {
    OneThread(s, t);
  }

  lemma PuttingKeeps(s: Sys, t: Tid)
    requires Inv(s) && t in s.threads && (s.threads[t].pc.Putting? || s.threads[t].pc.Storing?)
    ensures Inv(Progress(s, t))
  {
    hide PlacesOk, StackOk, LockOk;
    InHand(s, t);
    OneThread(s, t);
    match s.threads[t].pc {
      case Putting(p) => StepStore(s, t, p, Idle);
      case Storing(f, n) => StepStore(s, t, n, Taking(f + 1));
    }
  }

  /* An object goes from the top slot of the cache to the caller. */

  lemma TakePlaces(s: Sys, t: Tid)
    requires PlacesOk(s) && StackOk(s) && ThreadOk(s, t) && t in s.threads && s.threads[t].count > 0
    requires Own(s.threads[t]) == s.threads[t].count && Hand(s.threads[t].pc) == None
    ensures PlacesOk(Take(s, t)) && StackOk(Take(s, t))
  {
    hide PcOk;
    var s', th := Take(s, t), s.threads[t];
    assert CacheAt(s, t, th, th.count - 1);
    forall x | x in s'.place ensures PlaceOk(s', x) {
      assert PlaceOk(s, x);
    }
    forall i: nat ensures StackAt(s', i) {
      assert StackAt(s, i);
    }
  }

  lemma TakeOthers(s: Sys, t: Tid)
    requires PlacesOk(s) && ThreadOk(s, t) && t in s.threads && s.threads[t].count > 0
    requires Own(s.threads[t]) == s.threads[t].count
    ensures OnlyOf(s, Take(s, t), t) && ThreadOk(Take(s, t), t)
  {
    var s', th := Take(s, t), s.threads[t];
    assert CacheAt(s, t, th, th.count - 1);
    forall x | Foreign(s, t, x) ensures SameObject(s, s', x) {
      assert PlaceOk(s, x);
    }
    forall k: nat ensures CacheAt(s', t, s'.threads[t], k) {
      assert CacheAt(s, t, th, k);
    }
  }

  lemma TakeKeeps(s: Sys, t: Tid)
    requires Inv(s) && t in s.threads && s.threads[t].count > 0 && (s.threads[t].pc.Idle? || s.threads[t].pc.Returning?)
    ensures Inv(Take(s, t))
  {
    hide PlacesOk, StackOk, PcOk, LockOk, ThreadsOk, OnlyOf;
    OneThread(s, t);
    TakePlaces(s, t);
    TakeOthers(s, t);
    Others(s, Take(s, t), t);
    LockSame(s, Take(s, t), t);
  }

  /* An object goes from a caller into the hand of a call. */

  function Grasped(s: Sys, t: Tid, o: Obj, pc: Pc): Sys
    requires t in s.threads
  {
    Goto(s, t, pc).(held := s.held - {o}, place := Move(s, o, Passing(t)))
  }

  lemma GraspPlaces(s: Sys, t: Tid, o: Obj, pc: Pc)
    requires PlacesOk(s) && StackOk(s) && t in s.threads && o in s.held
    requires Hand(s.threads[t].pc) == None && Hand(pc) == Some(o) && Own(s.threads[t].(pc := pc)) == Own(s.threads[t])
    ensures PlacesOk(Grasped(s, t, o, pc)) && StackOk(Grasped(s, t, o, pc))
  {
    hide Hand, Own;
    var s' := Grasped(s, t, o, pc);
    assert PlaceOk(s, o);
    forall x | x in s'.place ensures PlaceOk(s', x) {
      assert PlaceOk(s, x);
    }
    forall i: nat ensures StackAt(s', i) {
      assert StackAt(s, i);
    }
  }

  lemma GraspThreads(s: Sys, t: Tid, o: Obj, pc: Pc)
    requires PlacesOk(s) && ThreadOk(s, t) && t in s.threads && o in s.held
    requires Hand(pc) == Some(o) && Own(s.threads[t].(pc := pc)) == Own(s.threads[t])
    requires PcOk(Grasped(s, t, o, pc), s.threads[t].(pc := pc))
    ensures OnlyOf(s, Grasped(s, t, o, pc), t) && ThreadOk(Grasped(s, t, o, pc), t)
  {
    hide PcOk, Own, Hand;
    var th, s' := s.threads[t], Grasped(s, t, o, pc);
    assert PlaceOk(s, o);
    forall x | Foreign(s, t, x) ensures SameObject(s, s', x) {
      assert PlaceOk(s, x);
    }
    forall k: nat ensures CacheAt(s', t, s'.threads[t], k) {
      assert CacheAt(s, t, th, k);
    }
  }

  lemma StartKeeps(s: Sys, t: Tid, o: Obj)
    requires Inv(s) && t in s.threads && s.threads[t].pc.Idle? && o in s.held && s.threads[t].count == CAPACITY
    ensures Inv(Grasped(s, t, o, Linking(Some(o), TARGET, 1)))
  {
    hide PlacesOk, StackOk, LockOk, ThreadsOk, OnlyOf;
    var pc := Linking(Some(o), TARGET, 1);
    OneThread(s, t);
    GraspPlaces(s, t, o, pc);
    assert PcOk(Grasped(s, t, o, pc), s.threads[t].(pc := pc)) by {
      NothingJoined(Grasped(s, t, o, pc), s.threads[t].(pc := pc), TARGET);
    }
    GraspThreads(s, t, o, pc);
    Others(s, Grasped(s, t, o, pc), t);
    LockSame(s, Grasped(s, t, o, pc), t);
  }

  lemma NothingJoined(s: Sys, th: Thread, start: nat)
    ensures Joined(s, th, start, start)
  {
  }

  lemma ReleaseKeeps(s: Sys, t: Tid, o: Obj)
    requires Inv(s)
    ensures Inv(Next(s, Release(t, o)))
  {
    hide PlacesOk, StackOk, LockOk, ThreadsOk;
    if t in s.threads && s.threads[t].pc == Idle && o in s.held {
      OneThread(s, t);
      HeldPlace(s, o);
      if s.threads[t].count < CAPACITY {
        StepStore(s, t, o, Idle);
      } else {
        StartKeeps(s, t, o);
      }
    }
  }

  lemma HeldPlace(s: Sys, o: Obj)
    requires Inv(s) && o in s.held
    ensures o in s.place && s.place[o] == Held && o in s.next
  {
    assert PlaceOk(s, o);
  }

  lemma AllocKeeps(s: Sys, t: Tid)
    requires Inv(s)
    ensures Inv(Next(s, Alloc(t)))
  {
    hide PlacesOk, StackOk, LockOk, ThreadsOk;
    if t in s.threads && s.threads[t].pc == Idle {
      OneThread(s, t);
      if s.threads[t].count > 0 {
        TakeKeeps(s, t);
      } else {
        StepOn(s, t, s.threads[t].(pc := Refilling));
      }
    }
  }

  lemma ExitKeeps(s: Sys, t: Tid)
    requires Inv(s)
    ensures Inv(Next(s, Exit(t)))
  {
    hide PlacesOk, StackOk, LockOk, ThreadsOk;
    if t in s.threads && s.threads[t].pc == Idle {
      OneThread(s, t);
      if s.threads[t].count == 0 {
        StepOn(s, t, s.threads[t].(pc := Exited));
      } else {
        var th := s.threads[t].(pc := Linking(None, 0, 1));
        NothingJoined(Set(s, t, th), th, 0);
        StepOn(s, t, th);
      }
    }
  }

  lemma InitKeeps(s: Sys, t: Tid)
    requires Inv(s)
    ensures Inv(Next(s, Init(t)))
  {
    var s' := Next(s, Init(t));
    if t !in s.threads {
      forall x | x in s'.place ensures PlaceOk(s', x) {
        assert PlaceOk(s, x);
      }
      forall i: nat ensures StackAt(s', i) {
        assert StackAt(s, i);
      }
      forall x | Foreign(s, t, x) ensures SameObject(s, s', x) {
        assert PlaceOk(s, x);
      }
      forall u ensures LockAt(s', u) {
        assert LockAt(s, u);
      }
      hide PlacesOk, StackOk, LockOk, PlaceOk;
      Others(s, s', t);
    }
  }

  lemma ScribbleKeeps(s: Sys, o: Obj, v: Option<Obj>)
    requires Inv(s)
    ensures Inv(Next(s, Scribble(o, v)))
  {
    var s' := Next(s, Scribble(o, v));
    if o in s.held {
      HeldPlace(s, o);
      forall x | x in s'.place ensures PlaceOk(s', x) {
        assert PlaceOk(s, x);
      }
      forall i: nat ensures StackAt(s', i) {
        assert StackAt(s, i);
      }
      forall t ensures ThreadOk(s', t) {
        assert ThreadOk(s, t) && LockAt(s, t);
        var u := if t == 0 then 1 else 0;
        ScribbleOthers(s, o, v, u);
        OtherThread(s, s', u, t);
      }
      forall u ensures LockAt(s', u) {
        assert LockAt(s, u);
      }
    }
  }

  lemma ScribbleOthers(s: Sys, o: Obj, v: Option<Obj>, t: Tid)
    requires Inv(s) && o in s.held
    ensures OnlyOf(s, Next(s, Scribble(o, v)), t)
  {
    HeldPlace(s, o);
    forall x | Foreign(s, t, x) ensures SameObject(s, Next(s, Scribble(o, v)), x) {
      assert PlaceOk(s, x);
    }
  }

  /* ---- The free list grows and shrinks ---- */

  /** The list after free_head has been stored: objects[start] on top, then its successors, then the old list. */
  lemma HeadingStack(s: Sys, t: Tid)
    requires PlacesOk(s) && StackOk(s) && ThreadOk(s, t) && t in s.threads && s.threads[t].pc.Heading?
    ensures StackOk(Progress(s, t))
  {
    var th, s' := s.threads[t], Progress(s, t);
    var start, n := th.pc.start, |s.stack|;
    forall i: nat ensures StackAt(s', i) {
      if i < n {
        assert StackAt(s, i);
      } else if i < |s'.stack| {
        var k := th.count - 1 - (i - n);
        assert s'.stack[i] == At(th, k);
        assert CacheAt(s, t, th, k);
        assert PlaceOk(s, At(th, k));
        if k + 1 < th.count {
          assert JoinAt(s, th, start, th.count - 1, k);
          assert s'.stack[i - 1] == At(th, k + 1);
        }
      }
    }
  }

  lemma HeadingPlaces(s: Sys, t: Tid)
    requires PlacesOk(s) && ThreadOk(s, t) && t in s.threads && s.threads[t].pc.Heading?
    ensures PlacesOk(Progress(s, t))
  {
    var th, s' := s.threads[t], Progress(s, t);
    hide PcOk;
    forall x | x in s'.place ensures PlaceOk(s', x) {
      assert PlaceOk(s, x);
    }
  }

  lemma HeadingThreads(s: Sys, t: Tid)
    requires PlacesOk(s) && ThreadOk(s, t) && t in s.threads && s.threads[t].pc.Heading? && s.lock == Some(t)
    ensures OnlyOf(s, Progress(s, t), t) && ThreadOk(Progress(s, t), t)
  {
    var th, s' := s.threads[t], Progress(s, t);
    forall x | Foreign(s, t, x) ensures SameObject(s, s', x) {
      assert PlaceOk(s, x);
    }
    forall k: nat ensures CacheAt(s', t, s'.threads[t], k) {
      assert CacheAt(s, t, th, k);
    }
  }

  lemma HeadingKeeps(s: Sys, t: Tid)
    requires Inv(s) && t in s.threads && s.threads[t].pc.Heading?
    ensures Inv(Progress(s, t))
  {
    hide PlacesOk, StackOk, PcOk, LockOk, ThreadsOk, OnlyOf;
    OneThread(s, t);
    OneLock(s, t);
    HeadingStack(s, t);
    HeadingPlaces(s, t);
    HeadingThreads(s, t);
    Others(s, Progress(s, t), t);
    LockSame(s, Progress(s, t), t);
  }

  lemma TakingPlaces(s: Sys, t: Tid)
    requires PlacesOk(s) && StackOk(s) && t in s.threads && s.threads[t].pc.Taking?
    requires s.freeHead.Some? && s.threads[t].pc.fetched < BATCH
    ensures s.freeHead.value in s.next && PlacesOk(Progress(s, t)) && StackOk(Progress(s, t))
  {
    var s', top := Progress(s, t), |s.stack| - 1;
    assert StackAt(s, top);
    forall x | x in s'.place ensures PlaceOk(s', x) {
      assert PlaceOk(s, x);
    }
    forall i: nat ensures StackAt(s', i) {
      assert StackAt(s, i);
    }
  }

  lemma TakingThreads(s: Sys, t: Tid)
    requires PlacesOk(s) && StackOk(s) && ThreadOk(s, t)
    requires t in s.threads && s.threads[t].pc.Taking? && s.lock == Some(t)
    requires s.freeHead.Some? && s.threads[t].pc.fetched < BATCH && s.freeHead.value in s.next
    ensures OnlyOf(s, Progress(s, t), t) && ThreadOk(Progress(s, t), t)
  {
    var th, s' := s.threads[t], Progress(s, t);
    assert StackAt(s, |s.stack| - 1);
    forall x | Foreign(s, t, x) ensures SameObject(s, s', x) {
      assert PlaceOk(s, x);
    }
    forall k: nat ensures CacheAt(s', t, s'.threads[t], k) {
      assert CacheAt(s, t, th, k);
    }
  }

  lemma TakingKeeps(s: Sys, t: Tid)
    requires Inv(s) && t in s.threads && s.threads[t].pc.Taking?
    ensures Inv(Progress(s, t))
  {
    hide PlacesOk, StackOk, LockOk, ThreadsOk, OnlyOf;
    OneThread(s, t);
    OneLock(s, t);
    if s.freeHead.Some? && s.threads[t].pc.fetched < BATCH {
      TakingPlaces(s, t);
      TakingThreads(s, t);
      Others(s, Progress(s, t), t);
      LockSame(s, Progress(s, t), t);
    } else {
      StepOn(s, t, s.threads[t].(pc := Leaving));
    }
  }

  /* ---- Every step, every run ---- */

  lemma ProgressKeeps(s: Sys, t: Tid)
    requires Inv(s) && t in s.threads
    ensures Inv(Progress(s, t))
  {
    var th := s.threads[t];
    hide Inv, Progress, Hand;
    match th.pc {
      case Idle => Stays(s, t);
      case Exited => Stays(s, t);
      case Linking(_, _, _) => LinkingKeeps(s, t);
      case Locking(_, _) => LockingKeeps(s, t);
      case Tailing(_, _) => TailingKeeps(s, t);
      case Heading(_, _) => HeadingKeeps(s, t);
      case Putting(_) => PuttingKeeps(s, t);
      case Storing(_, _) => PuttingKeeps(s, t);
      case Taking(_) => TakingKeeps(s, t);
      case Returning => ReturningKeeps(s, t);
      case _ => MoveKeeps(s, t);
    }
  }

  lemma Stays(s: Sys, t: Tid)
    requires t in s.threads && (s.threads[t].pc.Idle? || s.threads[t].pc.Exited?)
    ensures Progress(s, t) == s
  {
  }

  /** A refill always brings something, so that mp_alloc does not return NULL: the caller gets the
      object in the top slot, which was with nobody. */
  lemma ReturningKeeps(s: Sys, t: Tid)
    requires Inv(s) && t in s.threads && s.threads[t].pc.Returning?
    ensures Inv(Progress(s, t)) && 0 < s.threads[t].count <= |s.threads[t].slots|
    ensures var th, s' := s.threads[t], Progress(s, t);
            && th.slots[th.count - 1] !in s.held && s'.held == s.held + {th.slots[th.count - 1]}
            && s'.threads == s.threads[t := Thread(th.slots, th.count - 1, Idle)]
  {
    OneThread(s, t);
    assert ThreadOk(s, t) && CacheAt(s, t, s.threads[t], s.threads[t].count - 1);
    hide Inv;
    TakeKeeps(s, t);
  }

  lemma StepKeeps(s: Sys, e: Event)
    requires Inv(s)
    ensures Inv(Next(s, e))
  {
    hide Inv, Progress;
    match e {
      case Step(t) =>
        if t in s.threads {
          ProgressKeeps(s, t);
        }
      case Alloc(t) => AllocKeeps(s, t);
      case Release(t, o) => ReleaseKeeps(s, t, o);
      case Exit(t) => ExitKeeps(s, t);
      case Init(t) => InitKeeps(s, t);
      case Scribble(o, v) => ScribbleKeeps(s, o, v);
    }
  }

  lemma {:induction false} RunKeeps(s: Sys, es: seq<Event>)
    requires Inv(s)
    ensures Inv(Run(s, es))
    decreases |es|
  {
    hide Inv;
    if es != [] {
      RunKeeps(s, es[..|es| - 1]);
      StepKeeps(Run(s, es[..|es| - 1]), es[|es| - 1]);
    }
  }
}
