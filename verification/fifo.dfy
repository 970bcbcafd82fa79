/** A queue in a power-of-two array between two free-running 32-bit counters: the arithmetic behind
    structure/ringbuf.h and structure/objpool.h. */
module Fifo {
  import opened Machine
  import opened Bits

  /** A pointer; 0 is NULL. */
  type Ptr = nat

  /** The capacities that both init functions assert. */
  ghost predicate Sized(c: nat) {
    IsPow2(c) && c < WORD
  }

  /** `in - out` on uint32 */
  function Count(ins: int, outs: int): nat {
    (ins - outs) % WORD
  }

  /** The place of a free-running index. */
  function Slot(x: nat, c: nat): (i: nat)
    requires c > 0
    ensures i < c
  {
    x % c
  }

  /** `n` entries from the free-running index `outs` on. */
  function Window(buf: seq<Ptr>, outs: nat, n: nat): seq<Ptr>
    requires |buf| > 0
  {
    seq(n, k requires 0 <= k < n => buf[Slot(outs + k, |buf|)])
  }

  /** What the init functions assert. */
  lemma AssertedCapacity(c: nat)
    requires 0 < c < WORD
    ensures And(c, c - 1) == 0 <==> Sized(c)
  {
    AndPredecessor(c);
  }

  /** `x & mask` */
  lemma MaskIsSlot(x: nat, c: nat)
    requires Sized(c)
    ensures c > 0 && And(x, c - 1) == Slot(x, c)
  {
    var k: nat :| c == Pow2(k);
    AndMask(x, k);
  }

  /** A wrapped counter names the same slot. */
  lemma WrapSlot(x: nat, c: nat)
    requires Sized(c)
    ensures c > 0 && Slot(x % WORD, c) == Slot(x, c)
  {
    hide IsPow2;
    WrapMod(x, c);
  }

  lemma WrapSlotPlus(x: nat, k: nat, c: nat)
    requires Sized(c)
    ensures c > 0 && Slot(x % WORD + k, c) == Slot(x + k, c)
  {
    WrapSlot(x + k, c);
    WrapSlot(x % WORD + k, c);
    ModStep(x, k, WORD);
  }

  /** Wrapping the lower counter changes nothing. */
  lemma WrapWindow(buf: seq<Ptr>, outs: nat, n: nat)
    requires Sized(|buf|)
    ensures |buf| > 0 && Window(buf, outs % WORD, n) == Window(buf, outs, n)
  {
    hide Slot;
    WrapSlot(outs, |buf|);
    var a, b := Window(buf, outs % WORD, n), Window(buf, outs, n);
    forall k | 0 <= k < n ensures a[k] == b[k] {
      WrapSlotPlus(outs, k, |buf|);
    }
  }

  lemma SlotsDiffer(a: nat, b: nat, c: nat)
    requires a < b < a + c
    ensures Slot(a, c) != Slot(b, c)
  {
    ModDistinct(a, b, c);
  }

  /** Storing behind the last entry. */
  lemma WindowPush(buf: seq<Ptr>, outs: nat, n: nat, p: Ptr)
    requires n < |buf|
    ensures Window(buf[Slot(outs + n, |buf|) := p], outs, n + 1) == Window(buf, outs, n) + [p]
  {
    hide Slot;
    var a, b := Window(buf[Slot(outs + n, |buf|) := p], outs, n + 1), Window(buf, outs, n) + [p];
    forall k | 0 <= k < n + 1 ensures a[k] == b[k] {
      if k < n {
        SlotsDiffer(outs + k, outs + n, |buf|);
      }
    }
  }

  /** Stepping over the first entry. */
  lemma WindowPop(buf: seq<Ptr>, outs: nat, n: nat)
    requires 0 < n && 0 < |buf|
    ensures Window(buf, outs, n) == [buf[Slot(outs, |buf|)]] + Window(buf, outs + 1, n - 1)
  {
    hide Slot;
    var a, b := Window(buf, outs, n), [buf[Slot(outs, |buf|)]] + Window(buf, outs + 1, n - 1);
    forall k | 0 <= k < n ensures a[k] == b[k] {
    }
  }

  /* ---- Counting on wrapped counters ---- */

  lemma CountUp(ins: nat, outs: nat)
    requires Count(ins, outs) < WORD - 1
    ensures Count((ins + 1) % WORD, outs) == Count(ins, outs) + 1
  {
    ModStep(ins + 1, 0 - outs, WORD);
    ModStep(ins - outs, 1, WORD);
    assert ins + 1 + (0 - outs) == ins - outs + 1;
  }

  lemma CountDown(ins: nat, outs: nat)
    requires Count(ins, outs) > 0
    ensures Count(ins, (outs + 1) % WORD) == Count(ins, outs) - 1
  {
    var q := (outs + 1) / WORD;
    assert ins - (outs + 1) % WORD == q * WORD + (ins - outs - 1);
    DivShift(q, ins - outs - 1, WORD);
    ModStep(ins - outs, 0 - 1, WORD);
  }

  lemma CountZero(ins: nat, outs: nat)
    requires ins < WORD && outs < WORD
    ensures Count(ins, outs) == 0 <==> ins == outs
  {
    if ins < outs {
      DivModUnique(ins - outs, WORD, -1, ins - outs + WORD);
    } else {
      DivModUnique(ins - outs, WORD, 0, ins - outs);
    }
  }

  lemma CountEnd(ins: nat, outs: nat)
    requires ins < WORD
    ensures (outs + Count(ins, outs)) % WORD == ins
  {
    ModStep(ins - outs, outs, WORD);
    DivModUnique(ins, WORD, 0, ins);
  }

  /** Unbounded counters less than 2^32 apart. */
  lemma CountWrapped(ins: nat, outs: nat)
    requires outs <= ins < outs + WORD
    ensures Count(ins % WORD, outs % WORD) == ins - outs
    ensures ins % WORD == outs % WORD <==> ins == outs
  {
    ModStep(ins, 0 - outs % WORD, WORD);
    var q := outs / WORD;
    assert ins - outs % WORD == q * WORD + (ins - outs);
    DivShift(q, ins - outs, WORD);
    DivModUnique(ins - outs, WORD, 0, ins - outs);
    if ins != outs {
      ModDistinct(outs, ins, WORD);
    }
  }
}
