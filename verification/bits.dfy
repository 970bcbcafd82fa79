/** Unsigned machine words as natural numbers: powers of two and the bitwise operators. */
module Bits {
  import opened Machine

  function Pow2(n: nat): (p: nat)
    ensures p > 0
  {
    if n == 0 then 1 else 2 * Pow2(n - 1)
  }

  /** `a & b` */
  function And(a: nat, b: nat): nat {
    if a == 0 || b == 0 then 0
    else 2 * And(a / 2, b / 2) + (if a % 2 == 1 && b % 2 == 1 then 1 else 0)
  }

  /** `a | b` */
  function Or(a: nat, b: nat): nat
    decreases a + b
  {
    if a == 0 then b else if b == 0 then a
    else 2 * Or(a / 2, b / 2) + (if a % 2 == 1 || b % 2 == 1 then 1 else 0)
  }

  /** `x >> k` */
  function Shr(x: nat, k: nat): nat {
    DivNonNegative(x, Pow2(k));
    x / Pow2(k)
  }

  lemma DivNonNegative(x: nat, m: nat)
    requires m > 0
    ensures x / m >= 0
  {
    MulBounds(x / m, m);
  }

  /** The greatest power of two that divides `x`. */
  function LowBit(x: nat): (p: nat)
    requires x > 0
    ensures p > 0
  {
    if x % 2 == 1 then 1 else 2 * LowBit(x / 2)
  }

  ghost predicate IsPow2(x: nat) {
    exists n: nat :: x == Pow2(n)
  }

  /* ---- Powers ---- */

  lemma {:induction false} Pow2Add(a: nat, b: nat)
    ensures Pow2(a + b) == Pow2(a) * Pow2(b)
    decreases a
  {
    if a > 0 {
      Pow2Add(a - 1, b);
      Double(Pow2(a - 1), Pow2(b));
    }
  }

  lemma Double(p: nat, q: nat)
    ensures 2 * (p * q) == (2 * p) * q
  {
  }

  lemma PowerZero()
    ensures Pow2(0) == 1
  {
  }

  lemma PowerStep(k: nat)
    requires k > 0
    ensures Pow2(k) == 2 * Pow2(k - 1)
  {
  }

  lemma MulDouble(a: nat, p: nat)
    ensures a * (2 * p) == 2 * (a * p)
  {
  }

  lemma MulAssoc(a: int, b: int, c: int)
    ensures a * (b * c) == (a * b) * c
  {
  }

  lemma {:induction false} Pow2Monotone(a: nat, b: nat)
    requires a <= b
    ensures Pow2(a) <= Pow2(b)
    ensures a < b ==> Pow2(a) < Pow2(b)
    decreases b
  {
    if a < b {
      Pow2Monotone(a, b - 1);
    }
  }

  lemma Pow2Words()
    ensures Pow2(8) == 0x100 && Pow2(16) == 0x1_0000 && Pow2(32) == 0x1_0000_0000
    ensures Pow2(63) == 0x8000_0000_0000_0000 && Pow2(64) == 0x1_0000_0000_0000_0000
    ensures Pow2(128) == 0x1_0000_0000_0000_0000 * 0x1_0000_0000_0000_0000
  {
    assert Pow2(4) == 16;
    assert Pow2(8) == 0x100;
    Pow2Add(8, 8);
    Pow2Add(16, 16);
    Pow2Add(32, 32);
    Pow2Add(64, 64);
    assert Pow2(64) == 2 * Pow2(63);
  }

  /** Euclidean division is unique. */
  lemma DivModUnique(x: int, m: int, q: int, r: int)
    requires m > 0 && 0 <= r < m && x == q * m + r
    ensures x / m == q && x % m == r
  {
    var d := x / m - q;
    assert x == (x / m) * m + x % m;
    assert d * m == r - x % m by {
      assert (x / m - q) * m == (x / m) * m - q * m;
    }
    MulBounds(d, m);
  }

  lemma MulBounds(d: int, m: int)
    requires m > 0
    ensures d >= 1 ==> d * m >= m
    ensures d <= -1 ==> d * m <= -m
    ensures d <= 0 ==> d * m <= 0
  {
  }

  lemma DivShift(q: int, x: int, m: int)
    requires m > 0
    ensures (q * m + x) / m == q + x / m && (q * m + x) % m == x % m
  {
    var d, r := x / m, x % m;
    assert q * m + x == (q + d) * m + r by {
      assert (q + d) * m == q * m + d * m;
    }
    DivModUnique(q * m + x, m, q + d, r);
  }

  /** Numbers less than a turn apart have different remainders. */
  lemma ModDistinct(a: nat, b: nat, c: nat)
    requires a < b < a + c
    ensures a % c != b % c
  {
    var q := b / c - a / c;
    assert b - a == q * c + (b % c - a % c) by {
      assert (b / c - a / c) * c == (b / c) * c - (a / c) * c;
    }
    MulBounds(q, c);
  }

  lemma ModMod(x: nat, m: nat, c: nat)
    requires c > 0 && m > 0
    ensures m * c > 0 && (x % (m * c)) % c == x % c
  {
    MulBounds(m, c);
    var n := m * c;
    var q, r := x / n, x % n;
    assert x == q * n + r;
    MulAssoc(q, m, c);
    DivShift(q * m, r, c);
  }

  lemma ModStep(x: int, k: int, c: int)
    requires c > 0
    ensures (x % c + k) % c == (x + k) % c
  {
    DivShift(x / c, x % c + k, c);
  }

  /** A capacity divides 2^32. */
  lemma CapacityDivides(c: nat) returns (m: nat)
    requires IsPow2(c) && c < WORD
    ensures m > 0 && WORD == m * c
  {
    var k: nat :| c == Pow2(k);
    hide Pow2;
    Pow2Words();
    if k >= 32 {
      Pow2Monotone(32, k);
    }
    Pow2Add(32 - k, k);
    m := Pow2(32 - k);
  }

  /** A wrapped counter has the same remainder. */
  lemma WrapMod(x: nat, c: nat)
    requires IsPow2(c) && c < WORD
    ensures c > 0 && (x % WORD) % c == x % c
  {
    var m := CapacityDivides(c);
    hide IsPow2;
    ModMod(x, m, c);
  }

  /** The low bit of a remainder, and of a quotient, by a doubled modulus. */
  lemma ModDouble(x: nat, m: nat)
    requires m > 0
    ensures x % (2 * m) == 2 * ((x / 2) % m) + x % 2
    ensures x / (2 * m) == (x / 2) / m
  {
    var q, r := (x / 2) / m, (x / 2) % m;
    assert x / 2 == q * m + r;
    assert x == 2 * (q * m + r) + x % 2;
    Double(q, m);
    assert x == q * (2 * m) + (2 * r + x % 2) by {
      assert q * (2 * m) == 2 * (q * m);
    }
    DivModUnique(x, 2 * m, q, 2 * r + x % 2);
  }

  /* ---- And ---- */

  /** One binary digit of `a & b`. */
  lemma AndStep(a: nat, b: nat)
    ensures And(a, b) == 2 * And(a / 2, b / 2) + (if a % 2 == 1 && b % 2 == 1 then 1 else 0)
  {
  }

  /** The last digits of `2p - q`. */
  lemma HalfDifference(p: nat, q: nat)
    requires 0 < q <= 2 * p
    ensures (2 * p - q) % 2 == q % 2
    ensures (2 * p - q) / 2 == if q % 2 == 1 then p - 1 - q / 2 else p - q / 2
  {
  }

  lemma {:induction false} AndBound(a: nat, b: nat)
    ensures And(a, b) <= b
    decreases b
  {
    if a > 0 && b > 0 {
      AndBound(a / 2, b / 2);
    }
  }

  lemma AndNone(x: nat)
    ensures And(x, 0) == 0 && And(0, x) == 0
  {
  }

  /** Masking with 2^k - 1 takes the remainder by 2^k. */
  lemma {:induction false} AndMask(x: nat, k: nat)
    ensures And(x, Pow2(k) - 1) == x % Pow2(k)
    decreases k
  {
    hide And;
    if k == 0 {
      AndNone(x);
    } else {
      hide Pow2;
      PowerStep(k);
      AndMask(x / 2, k - 1);
      MaskStep(x, Pow2(k - 1));
    }
  }

  lemma MaskStep(x: nat, p: nat)
    requires p > 0 && And(x / 2, p - 1) == (x / 2) % p
    ensures And(x, 2 * p - 1) == x % (2 * p)
  {
    hide And;
    HalfDifference(p, 1);
    AndStep(x, 2 * p - 1);
    ModDouble(x, p);
  }

  /** The `n - k` high bits of a word of `n` bits. */
  function HighMask(n: nat, k: nat): nat
    requires k <= n
  {
    Pow2Monotone(k, n);
    Pow2(n) - Pow2(k)
  }

  /** Masking with the high bits clears the low ones. */
  lemma {:induction false} AndHigh(x: nat, n: nat, k: nat)
    requires k <= n && x < Pow2(n)
    ensures And(x, HighMask(n, k)) == x - x % Pow2(k)
    decreases k
  {
    hide And;
    if k == 0 {
      AndMask(x, n);
      DivModUnique(x, Pow2(n), 0, x);
    } else {
      hide Pow2;
      PowerStep(k);
      PowerStep(n);
      Pow2Monotone(k - 1, n - 1);
      AndStep(x, HighMask(n, k));
      AndHigh(x / 2, n - 1, k - 1);
      ModDouble(x, Pow2(k - 1));
    }
  }

  /** `x & -x` in a word of `w` bits isolates the lowest set bit. */
  lemma {:induction false} AndNegate(x: nat, w: nat)
    requires 0 < x < Pow2(w)
    ensures And(x, Pow2(w) - x) == LowBit(x)
    decreases x
  {
    hide And;
    assert w > 0;
    PowerStep(w);
    hide Pow2;
    HalfDifference(Pow2(w - 1), x);
    AndStep(x, Pow2(w) - x);
    if x % 2 == 1 {
      AndComplement(x / 2, w - 1);
    } else {
      AndNegate(x / 2, w - 1);
    }
  }

  /** A word and its complement share no bit. */
  lemma {:induction false} AndComplement(x: nat, w: nat)
    requires x < Pow2(w)
    ensures And(x, Pow2(w) - 1 - x) == 0
    decreases w
  {
    hide And;
    if w == 0 {
      AndNone(0);
    } else {
      PowerStep(w);
      hide Pow2;
      HalfDifference(Pow2(w - 1), x + 1);
      AndStep(x, Pow2(w) - 1 - x);
      AndComplement(x / 2, w - 1);
    }
  }

  /** The usual test for a power of two. */
  lemma {:induction false} AndPredecessor(x: nat)
    requires x > 0
    ensures And(x, x - 1) == 0 <==> IsPow2(x)
    decreases x
  {
    if x == 1 {
      assert x == Pow2(0);
    } else if x % 2 == 1 {
      AndSelf(x / 2);
      assert (x - 1) / 2 == x / 2;
      OddNotPow2(x);
    } else {
      AndPredecessor(x / 2);
      assert (x - 1) / 2 == x / 2 - 1;
      if IsPow2(x / 2) {
        var n: nat :| x / 2 == Pow2(n);
        assert x == Pow2(n + 1);
      }
      if IsPow2(x) {
        var n: nat :| x == Pow2(n);
        assert x / 2 == Pow2(n - 1);
      }
    }
  }

  lemma OddNotPow2(x: nat)
    requires x > 1 && x % 2 == 1
    ensures !IsPow2(x)
  {
    forall n: nat ensures x != Pow2(n) {
      assert n > 0 ==> Pow2(n) == 2 * Pow2(n - 1);
    }
  }

  lemma {:induction false} AndSelf(x: nat)
    ensures And(x, x) == x
  {
    if x > 0 {
      AndSelf(x / 2);
    }
  }

  /* ---- Or ---- */

  /** Disjoint bits add. */
  lemma {:induction false} OrAdd(x: nat, k: nat, y: nat)
    requires x < Pow2(k)
    ensures Or(y * Pow2(k), x) == y * Pow2(k) + x
    decreases k
  {
    hide Or;
    if k == 0 {
      OrZero(y * Pow2(0));
    } else {
      var h := y * Pow2(k - 1);
      assert y * Pow2(k) == 2 * h by { hide *; PowerStep(k); MulDouble(y, Pow2(k - 1)); }
      hide Pow2;
      OrAdd(x / 2, k - 1, y) by { PowerStep(k); }
      OrStep(h, x);
    }
  }

  lemma OrZero(x: nat)
    ensures Or(x, 0) == x
  {
  }

  /** One binary digit of `2h | x`. */
  lemma OrStep(h: nat, x: nat)
    ensures Or(2 * h, x) == 2 * Or(h, x / 2) + x % 2
  {
  }

  /* ---- The lowest set bit ---- */

  lemma {:induction false} LowBitDivides(x: nat)
    requires x > 0
    ensures IsPow2(LowBit(x)) && x % LowBit(x) == 0 && LowBit(x) <= x
    ensures (x / LowBit(x)) % 2 == 1
  {
    if x % 2 == 1 {
      assert LowBit(x) == Pow2(0);
    } else {
      var p := LowBit(x / 2);
      LowBitDivides(x / 2);
      var n: nat :| p == Pow2(n);
      assert LowBit(x) == Pow2(n + 1);
      ModDouble(x, p);
    }
  }
}
