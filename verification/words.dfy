/** Bytes in network order, and 128-bit values held in two 64-bit words. */
module Words {
  import opened Machine
  import opened Bits

  const TWO64: nat := 0x1_0000_0000_0000_0000
  const ONES64: u64 := 0xffff_ffff_ffff_ffff
  const TWO128: nat := TWO64 * TWO64

  /** The number a byte string denotes, most significant byte first. */
  function Value(s: seq<byte>): nat {
    if s == [] then 0 else Value(s[..|s| - 1]) * 0x100 + s[|s| - 1]
  }

  function ToBytes(v: nat, n: nat): (s: seq<byte>)
    ensures |s| == n
  {
    if n == 0 then [] else ToBytes(v / 0x100, n - 1) + [v % 0x100]
  }

  lemma {:induction false} ValueBound(s: seq<byte>)
    ensures Value(s) < Pow2(8 * |s|)
  {
    if s != [] {
      ValueBound(s[..|s| - 1]);
      Pow2Add(8, 8 * (|s| - 1));
      Pow2Words();
    }
  }

  lemma {:induction false} ValueToBytes(v: nat, n: nat)
    requires v < Pow2(8 * n)
    ensures Value(ToBytes(v, n)) == v
    decreases n
  {
    hide Pow2, Value, ToBytes;
    if n == 0 {
      PowerZero();
      NoBytes(v);
    } else {
      Pow2Add(8, 8 * (n - 1));
      Pow2Words();
      ValueToBytes(v / 0x100, n - 1);
      LastByteOf(v, n);
    }
  }

  lemma NoBytes(v: nat)
    ensures Value(ToBytes(v, 0)) == 0
  {
  }

  lemma LastByteOf(v: nat, n: nat)
    requires n > 0
    ensures Value(ToBytes(v, n)) == Value(ToBytes(v / 0x100, n - 1)) * 0x100 + v % 0x100
  {
    var s := ToBytes(v, n);
    assert s[..|s| - 1] == ToBytes(v / 0x100, n - 1);
  }

  lemma {:induction false} ValueAppend(a: seq<byte>, b: seq<byte>)
    ensures Value(a + b) == Value(a) * Pow2(8 * |b|) + Value(b)
    decreases |b|
  {
    if b == [] {
      assert a + b == a;
    } else {
      var f := b[..|b| - 1];
      assert (a + b)[..|a + b| - 1] == a + f;
      ValueAppend(a, f);
      Pow2Add(8, 8 * |f|);
      Pow2Words();
      Distribute(Value(a), Pow2(8 * |f|), Value(f));
    }
  }

  lemma Distribute(a: nat, p: nat, f: nat)
    ensures (a * p + f) * 0x100 == a * (0x100 * p) + f * 0x100
  {
  }

  /** Byte `i` of the encoding is a shifted and truncated word. */
  lemma {:induction false} ToBytesAt(v: nat, n: nat, i: nat)
    requires i < n
    ensures ToBytes(v, n)[i] == (v / Pow2(8 * (n - 1 - i))) % 0x100
    decreases n
  {
    if i < n - 1 {
      ToBytesAt(v / 0x100, n - 1, i);
      var p := Pow2(8 * (n - 2 - i));
      Pow2Add(8, 8 * (n - 2 - i));
      Pow2Words();
      DivDiv(v, 0x100, p);
    }
  }

  lemma DivDiv(x: nat, a: nat, b: nat)
    requires a > 0 && b > 0
    ensures a * b > 0 && (x / a) / b == x / (a * b)
  {
    var q := (x / a) / b;
    var r := ((x / a) % b) * a + x % a;
    assert x / a == q * b + (x / a) % b;
    assert x == (x / a) * a + x % a;
    assert (q * b + (x / a) % b) * a == q * (a * b) + ((x / a) % b) * a by { Rearrange(q, a, b, (x / a) % b); }
    Below((x / a) % b, x % a, a, b);
    DivModUnique(x, a * b, q, r);
  }

  lemma Rearrange(q: nat, a: nat, b: nat, r: nat)
    ensures (q * b + r) * a == q * (a * b) + r * a
  {
    assert (q * b + r) * a == (q * b) * a + r * a;
    assert (q * b) * a == q * (a * b);
  }

  lemma Below(i: nat, j: nat, a: nat, b: nat)
    requires i < b && j < a
    ensures i * a + j < a * b && a * b > 0
  {
    assert i * a + a == (i + 1) * a;
    assert (i + 1) * a <= b * a by { MulBounds(b - i - 1, a); assert b * a == (i + 1) * a + (b - i - 1) * a; }
  }

  /* ---- 64-bit arithmetic ---- */

  function Add64(a: u64, b: u64): u64 { (a + b) % TWO64 }

  function Sub64(a: u64, b: u64): u64 { (a - b) % TWO64 }

  function Or64(a: u64, b: u64): u64 {
    Pow2Words();
    OrBound(a, b, 64);
    Or(a, b)
  }

  lemma {:induction false} OrBound(a: nat, b: nat, k: nat)
    requires a < Pow2(k) && b < Pow2(k)
    ensures Or(a, b) < Pow2(k)
    decreases k
  {
    if a > 0 && b > 0 {
      OrBound(a / 2, b / 2, k - 1);
    }
  }

  /** `a & -a` on uint64 */
  function Isolate64(a: u64): u64
    requires a > 0
  {
    AndBound(a, Sub64(0, a));
    And(a, Sub64(0, a))
  }

  lemma Isolate64IsLowBit(a: u64)
    requires a > 0
    ensures Isolate64(a) == LowBit(a)
  {
    hide And, LowBit, Pow2;
    Pow2Words();
    AndNegate(a, 64);
    DivModUnique(0 - a, TWO64, -1, TWO64 - a);
  }

  /* ---- 128 bits in two words ---- */

  function Wide(h: nat, l: nat): nat { h * TWO64 + l }

  lemma WideParts(h: u64, l: u64)
    ensures Wide(h, l) < TWO128
    ensures Wide(h, l) / TWO64 == h && Wide(h, l) % TWO64 == l
  {
    DivModUnique(Wide(h, l), TWO64, h, l);
  }

  /** compare_128 */
  function Compare128(ah: u64, al: u64, bh: u64, bl: u64): int {
    if ah != bh then (if ah > bh then 1 else -1)
    else if al != bl then (if al > bl then 1 else -1)
    else 0
  }

  lemma Compare128IsOrder(ah: u64, al: u64, bh: u64, bl: u64)
    ensures Compare128(ah, al, bh, bl) > 0 <==> Wide(ah, al) > Wide(bh, bl)
    ensures Compare128(ah, al, bh, bl) < 0 <==> Wide(ah, al) < Wide(bh, bl)
  {
  }

  /** The lowest set bit of a wide value is that of its low word, or of its high word, shifted. */
  lemma LowBitLow(h: nat, l: nat, k: nat)
    requires 0 < l < Pow2(k)
    ensures h * Pow2(k) + l > 0 && LowBit(h * Pow2(k) + l) == LowBit(l)
    decreases k
  {
    var p := Pow2(k - 1);
    MulDouble(h, p);
    var x := h * Pow2(k) + l;
    assert x % 2 == l % 2 && x / 2 == h * p + l / 2;
    if l % 2 == 0 {
      LowBitLow(h, l / 2, k - 1);
    }
  }

  lemma LowBitHigh(h: nat, k: nat)
    requires h > 0
    ensures h * Pow2(k) > 0 && LowBit(h * Pow2(k)) == LowBit(h) * Pow2(k)
    decreases k
  {
    if k > 0 {
      var p := Pow2(k - 1);
      LowBitHigh(h, k - 1);
      MulDouble(h, p);
      MulDouble(LowBit(h), p);
      var x := h * Pow2(k);
      assert x == 2 * (h * p);
      assert x % 2 == 0 && x / 2 == h * p;
    }
  }

  /** Lines 674-677 of patricia.c: the difference of two wide values, with its borrow. */
  function Diff128(eh: u64, el: u64, sh: u64, sl: u64): (u64, u64) {
    (if el < sl then Sub64(Sub64(eh, sh), 1) else Sub64(eh, sh), Sub64(el, sl))
  }

  lemma Diff128IsSub(eh: u64, el: u64, sh: u64, sl: u64)
    requires Wide(sh, sl) <= Wide(eh, el)
    ensures var d := Diff128(eh, el, sh, sl); Wide(d.0, d.1) == Wide(eh, el) - Wide(sh, sl)
  {
    assert eh >= sh;
    DivModUnique(eh - sh, TWO64, 0, eh - sh);
    if el < sl {
      assert eh > sh;
      DivModUnique(eh - sh - 1, TWO64, 0, eh - sh - 1);
      DivModUnique(el - sl, TWO64, -1, el - sl + TWO64);
    } else {
      DivModUnique(el - sl, TWO64, 0, el - sl);
    }
  }

  /** Lines 755-759: the sum of two wide values, with its carry. */
  function Sum128(sh: u64, sl: u64, bh: u64, bl: u64): (u64, u64) {
    var l := Add64(sl, bl);
    (if l < sl then Add64(Add64(sh, bh), 1) else Add64(sh, bh), l)
  }

  lemma Sum128IsAdd(sh: u64, sl: u64, bh: u64, bl: u64)
    requires Wide(sh, sl) + Wide(bh, bl) < TWO128
    ensures var s := Sum128(sh, sl, bh, bl); Wide(s.0, s.1) == Wide(sh, sl) + Wide(bh, bl)
  {
    if sl + bl < TWO64 {
      DivModUnique(sl + bl, TWO64, 0, sl + bl);
      DivModUnique(sh + bh, TWO64, 0, sh + bh);
    } else {
      DivModUnique(sl + bl, TWO64, 1, sl + bl - TWO64);
      assert sh + bh + 1 < TWO64;
      DivModUnique(sh + bh, TWO64, 0, sh + bh);
      DivModUnique(sh + bh + 1, TWO64, 0, sh + bh + 1);
    }
  }

  /** `(x << 8) | b` on uint64. */
  function PushByte(x: u64, b: byte): u64 {
    Or64((x * 0x100) % TWO64, b)
  }

  lemma PushByteIsAppend(x: u64, b: byte)
    requires x * 0x100 < TWO64
    ensures PushByte(x, b) == x * 0x100 + b
  {
    DivModUnique(x * 0x100, TWO64, 0, x * 0x100);
    Pow2Words();
    OrAdd(b, 8, x);
  }

  /** Lines 708-709: a mask of ones grows by one bit. */
  function GrowMask(h: u64, l: u64): (u64, u64) {
    Pow2Words();
    (Or64((2 * h) % TWO64, l / 0x8000_0000_0000_0000), Or64((2 * l) % TWO64, 1))
  }

  lemma GrowMaskIsDouble(h: u64, l: u64)
    requires 2 * Wide(h, l) + 1 < TWO128
    ensures var m := GrowMask(h, l); Wide(m.0, m.1) == 2 * Wide(h, l) + 1
  {
    var top := l / 0x8000_0000_0000_0000;
    assert top < 2 && h < 0x8000_0000_0000_0000;
    DivModUnique(2 * h, TWO64, 0, 2 * h);
    assert Pow2(1) == 2;
    OrAdd(top, 1, h);
    var r := 2 * l - top * TWO64;
    assert 0 <= r < TWO64 && r % 2 == 0;
    DivModUnique(2 * l, TWO64, top, r);
    OrAdd(1, 1, r / 2);
    assert (r / 2) * 2 == r;
  }

  /** Lines 736-737: a wide value shifted right by one. */
  function Halve(h: u64, l: u64): (u64, u64) {
    (h / 2, Or64(l / 2, (h * 0x8000_0000_0000_0000) % TWO64))
  }

  lemma HalveIsDiv(h: u64, l: u64)
    ensures var v := Halve(h, l); Wide(v.0, v.1) == Wide(h, l) / 2
  {
    var b := h % 2;
    var half := 0x8000_0000_0000_0000;
    assert h * half == (h / 2) * TWO64 + b * half;
    DivModUnique(h * half, TWO64, h / 2, b * half);
    Pow2Words();
    OrAdd(l / 2, 63, b);
    OrCommutes(l / 2, b * half);
    assert Wide(h, l) == 2 * ((h / 2) * TWO64 + b * half + l / 2) + l % 2;
  }

  lemma {:induction false} OrCommutes(a: nat, b: nat)
    ensures Or(a, b) == Or(b, a)
    decreases a + b
  {
    if a > 0 && b > 0 {
      OrCommutes(a / 2, b / 2);
    }
  }

  /** The byte `(uint8_t)(x >> 8 * k)`. */
  function ByteOf(x: u64, k: nat): byte {
    Shr(x, 8 * k) % 0x100
  }

  /** The bytes of the two words, high word first, are the bytes of the wide value. */
  lemma WideBytes(h: u64, l: u64, i: nat)
    requires i < 8
    ensures ToBytes(Wide(h, l), 16)[i] == ByteOf(h, 7 - i)
    ensures ToBytes(Wide(h, l), 16)[i + 8] == ByteOf(l, 7 - i)
  {
    var x := Wide(h, l);
    ToBytesAt(x, 16, i);
    ToBytesAt(x, 16, i + 8);
    var p := Pow2(8 * (7 - i));
    Pow2Add(64, 8 * (7 - i));
    Pow2Words();
    DivDiv(x, TWO64, p);
    WideParts(h, l);
    LowBytes(h, l, 7 - i);
  }

  lemma LowBytes(h: u64, l: u64, k: nat)
    requires k < 8
    ensures (Wide(h, l) / Pow2(8 * k)) % 0x100 == (l / Pow2(8 * k)) % 0x100
  {
    hide Pow2, Wide;
    var p, n := Pow2(8 * k), Pow2(8 * (7 - k));
    Pow2Words();
    Pow2Add(8 * k, 8 * (7 - k));
    Pow2Add(56, 8);
    HighPart(h, l, p, n * 0x100);
    ModWhole(h, n, l / p);
  }

  lemma HighPart(h: nat, l: nat, p: nat, n: nat)
    requires p > 0 && TWO64 == p * n
    ensures Wide(h, l) / p == h * n + l / p
  {
    Regroup(h, p, n);
    var q := h * n + l / p;
    assert (h * n + l / p) * p == (h * n) * p + (l / p) * p;
    DivModUnique(Wide(h, l), p, q, l % p);
  }

  lemma Regroup(h: nat, p: nat, n: nat)
    ensures h * (p * n) == (h * n) * p
  {
  }

  lemma ModWhole(h: nat, n: nat, q: nat)
    ensures (h * (n * 0x100) + q) % 0x100 == q % 0x100
  {
    var m := h * n;
    assert h * (n * 0x100) == m * 0x100;
    DivModUnique(m * 0x100 + q, 0x100, m + q / 0x100, q % 0x100);
  }
}
