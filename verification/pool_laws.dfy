/** What holds in every reachable state of the pool of coding/pool.c, said of its memory alone. */
module PoolLaws {
  import opened Options
  import opened Pool
  import opened PoolProof

  const OBJECT_SIZE: nat := 2048

  /** The objects met on the way from `p` along the links, at most `fuel` of them. */
  function Walk(next: map<Obj, Option<Obj>>, p: Option<Obj>, fuel: nat): seq<Obj>
    decreases fuel
  {
    if fuel == 0 || p == None || p.value !in next then [] else [p.value] + Walk(next, next[p.value], fuel - 1)
  }

  /** The free list, from free_head on. */
  function FreeList(s: Sys): seq<Obj> {
    Walk(s.next, s.freeHead, |s.next|)
  }

  /** Object `o` is in place `p`. */
  predicate IsAt(s: Sys, o: Obj, p: Place) {
    match p
    case Free(i) => i < |FreeList(s)| && FreeList(s)[|FreeList(s)| - 1 - i] == o
    case Cached(t, k) => t in s.threads && k < Own(s.threads[t]) && At(s.threads[t], k) == o
    case Passing(t) => t in s.threads && Hand(s.threads[t].pc) == Some(o)
    case Held => o in s.held
  }

  /* ---- The free list ---- */

  function Reverse(a: seq<Obj>): seq<Obj> {
    if a == [] then [] else [a[|a| - 1]] + Reverse(a[..|a| - 1])
  }

  lemma {:induction false} ReverseAt(a: seq<Obj>)
    ensures |Reverse(a)| == |a| && forall i :: 0 <= i < |a| ==> Reverse(a)[i] == a[|a| - 1 - i]
  {
    if a != [] {
      ReverseAt(a[..|a| - 1]);
    }
  }

  lemma {:induction false} WalkDown(s: Sys, n: nat, fuel: nat)
    requires StackOk(s) && n <= |s.stack| && n <= fuel
    ensures Walk(s.next, Top(s.stack[..n]), fuel) == Reverse(s.stack[..n])
  {
    if n > 0 {
      assert StackAt(s, n - 1);
      assert s.stack[..n][..n - 1] == s.stack[..n - 1];
      WalkDown(s, n - 1, fuel - 1);
    }
  }

  lemma {:induction false} Distinct(s: Sys, n: nat)
    requires StackOk(s) && PlacesOk(s) && n <= |s.stack|
    ensures |set i | 0 <= i < n :: s.stack[i]| == n && (set i | 0 <= i < n :: s.stack[i]) <= s.next.Keys
  {
    if n > 0 {
      Distinct(s, n - 1);
      var below := set i | 0 <= i < n - 1 :: s.stack[i];
      assert StackAt(s, n - 1);
      forall i | 0 <= i < n - 1 ensures s.stack[i] != s.stack[n - 1] {
        assert StackAt(s, i);
      }
      assert (set i | 0 <= i < n :: s.stack[i]) == below + {s.stack[n - 1]};
    }
  }

  lemma ListIsStack(s: Sys, fuel: nat)
    requires Inv(s) && fuel >= |s.next|
    ensures |s.stack| <= |s.next| && Walk(s.next, s.freeHead, fuel) == Reverse(s.stack)
  {
    Distinct(s, |s.stack|);
    SubsetSize(set i | 0 <= i < |s.stack| :: s.stack[i], s.next.Keys);
    assert s.stack[..|s.stack|] == s.stack;
    WalkDown(s, |s.stack|, fuel);
  }

  lemma {:induction false} SubsetSize(a: set<Obj>, b: set<Obj>)
    requires a <= b
    ensures |a| <= |b|
  {
    if a != {} {
      var x :| x in a;
      SubsetSize(a - {x}, b - {x});
    }
  }

  /** The free list ends, however long one walks, and no object is on it twice. */
  lemma ListEnds(s: Sys, fuel: nat)
    requires Inv(s) && fuel >= |s.next|
    ensures Walk(s.next, s.freeHead, fuel) == FreeList(s)
    ensures forall i, j :: 0 <= i < j < |FreeList(s)| ==> FreeList(s)[i] != FreeList(s)[j]
  {
    ListIsStack(s, fuel);
    ListIsStack(s, |s.next|);
    ReverseAt(s.stack);
    forall i, j | 0 <= i < j < |s.stack| ensures s.stack[i] != s.stack[j] {
      assert StackAt(s, i) && StackAt(s, j);
    }
  }

  /* ---- Every object is somewhere, and nowhere else ---- */

  /** Every object is in exactly one place: at one height of the free list, in one slot of one cache,
      in one call's hand, or with a caller. */
  lemma OnePlace(s: Sys, o: Obj)
    requires Inv(s) && o in s.next
    ensures exists p :: IsAt(s, o, p)
    ensures forall p, q :: IsAt(s, o, p) && IsAt(s, o, q) ==> p == q
  {
    ListIsStack(s, |s.next|);
    ReverseAt(s.stack);
    assert PlaceOk(s, o);
    assert IsAt(s, o, s.place[o]);
    forall p | IsAt(s, o, p) ensures p == s.place[o] {
      OnlyPlace(s, o, p);
    }
  }

  lemma OnlyPlace(s: Sys, o: Obj, p: Place)
    requires Inv(s) && IsAt(s, o, p)
    ensures o in s.place && p == s.place[o]
  {
    ListIsStack(s, |s.next|);
    ReverseAt(s.stack);
    match p {
      case Free(i) => assert StackAt(s, i);
      case Cached(t, k) => assert ThreadOk(s, t) && CacheAt(s, t, s.threads[t], k);
      case Passing(t) => assert ThreadOk(s, t);
      case Held =>
    }
  }

  /** The count of a cache stays within the array, and a refill within a batch. */
  lemma CountsBounded(s: Sys, t: Tid)
    requires Inv(s) && t in s.threads
    ensures s.threads[t].count <= |s.threads[t].slots| == 512
    ensures s.threads[t].pc.Putting? || s.threads[t].pc.Storing? ==> s.threads[t].count < 512
    ensures s.threads[t].pc.Storing? ==> s.threads[t].count < 32
  {
    assert ThreadOk(s, t);
  }

  lemma OneHolder(s: Sys, t: Tid, u: Tid)
    requires Inv(s) && t in s.threads && u in s.threads && HasLock(s.threads[t].pc) && HasLock(s.threads[u].pc)
    ensures t == u
  {
    assert LockAt(s, t) && LockAt(s, u);
  }

  /* ---- What is given back ---- */

  /** The store to free_head puts objects[start..count) in front of the list, in order. */
  lemma SpliceReturns(s: Sys, t: Tid)
    requires Inv(s) && t in s.threads && s.threads[t].pc.Heading?
    ensures s.threads[t].pc.start <= s.threads[t].count <= |s.threads[t].slots|
    ensures FreeList(Progress(s, t)) == s.threads[t].slots[s.threads[t].pc.start..s.threads[t].count] + FreeList(s)
  {
    hide Inv, PlacesOk, StackOk, LockOk;
    var th, s' := s.threads[t], Progress(s, t);
    GivenBack(s, t);
    HeadingKeeps(s, t);
    ListIsStack(s, |s.next|);
    ListIsStack(s', |s'.next|);
    ReversedOver(s.stack, th, th.pc.start);
  }

  lemma GivenBack(s: Sys, t: Tid)
    requires Inv(s) && t in s.threads && s.threads[t].pc.Heading?
    ensures s.threads[t].pc.start <= s.threads[t].count <= |s.threads[t].slots|
  {
    assert ThreadOk(s, t);
  }

  lemma ReversedOver(stack: seq<Obj>, th: Thread, start: nat)
    requires start <= th.count <= |th.slots|
    ensures Reverse(stack + Segment(th, start)) == th.slots[start..th.count] + Reverse(stack)
  {
    hide Reverse;
    var all := stack + Segment(th, start);
    ReverseAt(stack);
    ReverseAt(all);
    var a, b := Reverse(all), th.slots[start..th.count] + Reverse(stack);
    forall i | 0 <= i < |a| ensures a[i] == b[i] {
      assert a[i] == all[|all| - 1 - i];
      if i < th.count - start {
        var k := th.count - start - 1 - i;
        assert all[|all| - 1 - i] == Segment(th, start)[k] == At(th, th.count - 1 - k);
        assert b[i] == th.slots[start + i];
      } else {
        var k := i - (th.count - start);
        assert all[|all| - 1 - i] == stack[|stack| - 1 - k];
        assert b[i] == Reverse(stack)[k];
      }
    }
  }

  /** A thread that has exited keeps nothing. */
  lemma ExitedKeepsNothing(s: Sys, t: Tid, o: Obj)
    requires Inv(s) && t in s.threads && s.threads[t].pc.Exited?
    ensures !IsAt(s, o, Passing(t)) && forall k :: !IsAt(s, o, Cached(t, k))
  {
    assert ThreadOk(s, t);
  }

  lemma NotExited(s: Sys, o: Obj)
    requires Inv(s) && o in s.next
    ensures PlaceOk(s, o)
    ensures s.place[o].Cached? || s.place[o].Passing? ==>
              s.place[o].t in s.threads && !s.threads[s.place[o].t].pc.Exited?
  {
    assert PlaceOk(s, o);
    if s.place[o].Cached? || s.place[o].Passing? {
      assert ThreadOk(s, s.place[o].t);
    }
  }

  /** Once every thread has exited and no caller holds anything, the free list is the whole pool. */
  lemma AllHome(s: Sys)
    requires Inv(s) && s.held == {} && forall t <- s.threads :: s.threads[t].pc.Exited?
    ensures forall o <- s.next :: o in FreeList(s)
    ensures |FreeList(s)| == |s.next|
  {
    ListIsStack(s, |s.next|);
    ReverseAt(s.stack);
    Distinct(s, |s.stack|);
    var all := set i | 0 <= i < |s.stack| :: s.stack[i];
    forall o | o in s.next ensures o in FreeList(s) && o in all {
      NotExited(s, o);
      var i := s.place[o].height;
      assert FreeList(s)[|s.stack| - 1 - i] == o;
    }
    assert all == s.next.Keys;
  }

  /** Two states with the same memory, threads and callers. */
  predicate SameMemory(s: Sys, r: Sys) {
    && r.next == s.next && r.freeHead == s.freeHead && r.lock == s.lock && r.threads == s.threads && r.held == s.held
  }

  /** What the proofs remember, no step depends on. */
  lemma HistoryUnused(s: Sys, r: Sys, e: Event)
    requires SameMemory(s, r)
    ensures SameMemory(Next(s, e), Next(r, e))
  {
    hide Progress, Take, Put;
    match e {
      case Step(t) =>
        if t in s.threads {
          hide SameMemory;
          StepHistoryUnused(s, r, t);
        }
      case Alloc(t) =>
        if t in s.threads && s.threads[t].count > 0 {
          TakeHistoryUnused(s, r, t);
        }
      case _ =>
    }
  }

  lemma TakeHistoryUnused(s: Sys, r: Sys, t: Tid)
    requires SameMemory(s, r) && t in s.threads && s.threads[t].count > 0
    ensures t in r.threads && r.threads[t].count > 0 && SameMemory(Take(s, t), Take(r, t))
  {
  }

  lemma StepHistoryUnused(s: Sys, r: Sys, t: Tid)
    requires SameMemory(s, r) && t in s.threads
    ensures t in r.threads && SameMemory(Progress(s, t), Progress(r, t))
  {
    hide Progress;
    var pc := s.threads[t].pc;
    if pc.Linking? || pc.Locking? || pc.Tailing? || pc.Heading? {
      ReturnHistoryUnused(s, r, t);
    } else if pc.Taking? || pc.Storing? || pc.Leaving? || pc.Returning? {
      FetchHistoryUnused(s, r, t);
    } else {
      MoveHistoryUnused(s, r, t);
    }
  }

  lemma ReturnHistoryUnused(s: Sys, r: Sys, t: Tid)
    requires SameMemory(s, r) && t in s.threads
    requires var pc := s.threads[t].pc; pc.Linking? || pc.Locking? || pc.Tailing? || pc.Heading?
    ensures SameMemory(Progress(s, t), Progress(r, t))
  {
    hide Progress;
    if s.threads[t].pc.Linking? || s.threads[t].pc.Heading? {
      LinkHistoryUnused(s, r, t);
    } else {
      LockHistoryUnused(s, r, t);
    }
  }

  lemma LinkHistoryUnused(s: Sys, r: Sys, t: Tid)
    requires SameMemory(s, r) && t in s.threads && (s.threads[t].pc.Linking? || s.threads[t].pc.Heading?)
    ensures SameMemory(Progress(s, t), Progress(r, t))
  {
    hide Spliced, Segment, Move, At, Put, Take;
  }

  lemma LockHistoryUnused(s: Sys, r: Sys, t: Tid)
    requires SameMemory(s, r) && t in s.threads && (s.threads[t].pc.Locking? || s.threads[t].pc.Tailing?)
    ensures SameMemory(Progress(s, t), Progress(r, t))
  {
    hide Spliced, Segment, Move, At, Put, Take;
  }

  lemma FetchHistoryUnused(s: Sys, r: Sys, t: Tid)
    requires SameMemory(s, r) && t in s.threads
    requires var pc := s.threads[t].pc; pc.Taking? || pc.Storing? || pc.Leaving? || pc.Returning?
    ensures SameMemory(Progress(s, t), Progress(r, t))
  {
    hide Spliced, Segment, Move, At, Put, Take;
    if s.threads[t].pc.Returning? && s.threads[t].count > 0 {
      TakeHistoryUnused(s, r, t);
    }
  }

  lemma MoveHistoryUnused(s: Sys, r: Sys, t: Tid)
    requires SameMemory(s, r) && t in s.threads
    requires var pc := s.threads[t].pc;
             && !pc.Linking? && !pc.Locking? && !pc.Tailing? && !pc.Heading?
             && !pc.Taking? && !pc.Storing? && !pc.Leaving? && !pc.Returning?
    ensures SameMemory(Progress(s, t), Progress(r, t))
  {
    hide Progress;
    var pc := s.threads[t].pc;
    if pc.Unlocking? || pc.Lowering? || pc.Putting? || pc.Refilling? {
      LowerHistoryUnused(s, r, t);
    } else {
      WaitHistoryUnused(s, r, t);
    }
  }

  lemma LowerHistoryUnused(s: Sys, r: Sys, t: Tid)
    requires SameMemory(s, r) && t in s.threads
    requires var pc := s.threads[t].pc; pc.Unlocking? || pc.Lowering? || pc.Putting? || pc.Refilling?
    ensures SameMemory(Progress(s, t), Progress(r, t))
  {
    hide Spliced, Segment, Move, At, Put;
  }

  lemma WaitHistoryUnused(s: Sys, r: Sys, t: Tid)
    requires SameMemory(s, r) && t in s.threads
    requires var pc := s.threads[t].pc; pc.Testing? || pc.Giving? || pc.Sleeping? || pc.Idle? || pc.Exited?
    ensures SameMemory(Progress(s, t), Progress(r, t))
  {
    hide Spliced, Segment, Move, At, Put;
  }

  /* ---- Creation ---- */

  /** What creation leaves: objects OBJECT_SIZE apart, each linked to the one before it. */
  function Created(count: nat): Sys {
    if count == 0 then Sys(map[], None, None, map[], {}, [], map[])
    else Added(Created(count - 1), (count - 1) * OBJECT_SIZE)
  }

  function Added(s: Sys, p: Obj): Sys {
    Sys(s.next[p := s.freeHead], Some(p), None, map[], {}, s.stack + [p], s.place[p := Free(|s.stack|)])
  }

  lemma {:induction false} CreatedOk(count: nat)
    ensures Inv(Created(count)) && |Created(count).next| == count == |Created(count).stack|
    ensures forall i :: 0 <= i < count ==> i * OBJECT_SIZE in Created(count).next
    ensures forall o <- Created(count).next :: o < count * OBJECT_SIZE
    ensures Created(count).threads == map[] && Created(count).held == {} && Created(count).lock == None
  {
    hide Inv;
    if count == 0 {
      NothingYet();
    } else {
      CreatedOk(count - 1);
      CreateStep(Created(count - 1), (count - 1) * OBJECT_SIZE);
    }
  }

  lemma NothingYet()
    ensures Inv(Sys(map[], None, None, map[], {}, [], map[]))
  {
  }

  lemma CreateStep(s: Sys, p: Obj)
    requires Inv(s) && p !in s.next && s.lock == None && s.threads == map[] && s.held == {}
    ensures Inv(Added(s, p))
  {
    var s' := Added(s, p);
    forall x | x in s'.place ensures PlaceOk(s', x) {
      assert x != p ==> PlaceOk(s, x);
    }
    forall i: nat ensures StackAt(s', i) {
      assert StackAt(s, i);
    }
    forall t ensures ThreadOk(s', t) && LockAt(s', t) {
    }
  }

  /** mp_pool_create: `count` objects, the last one on top of the list. */
  method Create(count: nat) returns (s: Sys)
    ensures s == Created(count) && Inv(s) && s.threads == map[] && s.held == {} && |s.next| == count
    ensures forall i :: 0 <= i < count ==> i * OBJECT_SIZE in s.next
  {
    hide Inv;
    var next: map<Obj, Option<Obj>> := map[];
    var freeHead: Option<Obj> := None;
    var p: Obj := 0;
    s := Sys(next, freeHead, None, map[], {}, [], map[]);
    var i := 0;
    while i < count
      invariant 0 <= i <= count && p == i * OBJECT_SIZE
      invariant s == Created(i) && s == Sys(next, freeHead, None, map[], {}, s.stack, s.place)
    {
      CreatedOk(i);
      next := next[p := freeHead];
      freeHead := Some(p);
      s := Sys(next, freeHead, None, map[], {}, s.stack + [p], s.place[p := Free(i)]);
      p := p + OBJECT_SIZE;
      i := i + 1;
    }
    CreatedOk(count);
  }

  /* ---- Every run ---- */

  /** No step makes or loses an object. */
  lemma StepObjects(s: Sys, e: Event)
    requires Inv(s)
    ensures Next(s, e).next.Keys == s.next.Keys
  {
    hide Spliced, Segment, Put, StackOk, LockOk;
    match e {
      case Scribble(o, v) =>
      case Step(t) =>
        if t in s.threads {
          assert ThreadOk(s, t);
          var th := s.threads[t];
          if th.pc.Linking? {
            assert CacheAt(s, t, th, th.pc.start + th.pc.i - 1);
          } else if th.pc.Tailing? {
            assert CacheAt(s, t, th, th.count - 1);
          }
        }
      case _ =>
    }
  }

  lemma {:induction false} RunObjects(s: Sys, es: seq<Event>)
    requires Inv(s)
    ensures Run(s, es).next.Keys == s.next.Keys
    decreases |es|
  {
    hide Inv, Next;
    if es != [] {
      RunObjects(s, es[..|es| - 1]);
      RunKeeps(s, es[..|es| - 1]);
      StepObjects(Run(s, es[..|es| - 1]), es[|es| - 1]);
    }
  }

  /** Whatever the threads do with a pool of `count` objects, in whatever order: it still has exactly
      these, each in one place; no cache overflows; one thread at most holds the lock; and once all
      threads have exited and nothing is held, all objects are on the free list. */
  lemma PoolKeeps(count: nat, es: seq<Event>)
    ensures var s := Run(Created(count), es);
            && s.next.Keys == Created(count).next.Keys && |s.next| == count
            && (forall o <- s.next ::
                 (exists p :: IsAt(s, o, p)) && forall p, q :: IsAt(s, o, p) && IsAt(s, o, q) ==> p == q)
            && (forall t <- s.threads :: s.threads[t].count <= |s.threads[t].slots| == 512)
            && (forall t, u ::
                 t in s.threads && u in s.threads && HasLock(s.threads[t].pc) && HasLock(s.threads[u].pc) ==> t == u)
            && (s.held == {} && (forall t <- s.threads :: s.threads[t].pc.Exited?) ==>
                 |FreeList(s)| == count && forall o <- s.next :: o in FreeList(s))
  {
    hide Inv, Run, IsAt, HasLock, FreeList, Created;
    var s := Run(Created(count), es);
    CreatedOk(count);
    RunKeeps(Created(count), es);
    RunObjects(Created(count), es);
    SameSize(s.next, Created(count).next);
    forall o | o in s.next
      ensures (exists p :: IsAt(s, o, p)) && forall p, q :: IsAt(s, o, p) && IsAt(s, o, q) ==> p == q
    {
      OnePlace(s, o);
    }
    forall t | t in s.threads ensures s.threads[t].count <= |s.threads[t].slots| == 512 {
      CountsBounded(s, t);
    }
    forall t, u | t in s.threads && u in s.threads && HasLock(s.threads[t].pc) && HasLock(s.threads[u].pc)
      ensures t == u
    {
      OneHolder(s, t, u);
    }
    if s.held == {} && forall t <- s.threads :: s.threads[t].pc.Exited? {
      AllHome(s);
    }
  }

  lemma SameSize(a: map<Obj, Option<Obj>>, b: map<Obj, Option<Obj>>)
    requires a.Keys == b.Keys
    ensures |a| == |b|
  {
    assert |a| == |a.Keys| && |b| == |b.Keys|;
  }
}
