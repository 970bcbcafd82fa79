/** Bit tests, prefix comparison and masking of network-order keys (structure/patricia.c:68-94 and
    527-543, structure/patricia.h:110), and what they mean for the blocks of a split range. */
module PrefixMatching {
  import opened Machine
  import opened Bits
  import opened Words
  import opened Cidr
  import opened RangeSplit

  /** BIT_TEST: bit `i`, counted from the most significant bit of the first byte. */
  function BitTest(a: seq<byte>, i: nat): nat
    requires i < 8 * |a|
  {
    And(Shr(a[i / 8], 7 - i % 8), 1)
  }

  /** `(uint8_t)(0xFF << (8 - rem))` */
  function ByteMask(rem: nat): nat
    requires 0 < rem < 8
  {
    (0xFF * Pow2(8 - rem)) % 0x100
  }

  /** `(m < n) ? m : n` */
  function Least(m: nat, n: nat): nat {
    if m < n then m else n
  }

  /** prefix_match; the byte comparison stands for memcmp. */
  predicate PrefixMatch(key: seq<byte>, keyBits: nat, prefix: seq<byte>, prefixBits: nat)
    requires Least(keyBits, prefixBits) <= 8 * |key| && Least(keyBits, prefixBits) <= 8 * |prefix|
  {
    var n := Least(keyBits, prefixBits);
    var bytes, rem := n / 8, n % 8;
    && key[..bytes] == prefix[..bytes]
    && (rem > 0 ==> And(key[bytes], ByteMask(rem)) == And(prefix[bytes], ByteMask(rem)))
  }

  /* ---- Bytes as numbers ---- */

  /** The first `n` bits of a number of `w` bits. */
  function TopBits(v: nat, w: nat, n: nat): nat
    requires n <= w
  {
    Shr(v, w - n)
  }

  lemma {:induction false} ValueInjective(a: seq<byte>, b: seq<byte>)
    requires |a| == |b|
    ensures Value(a) == Value(b) <==> a == b
    decreases |a|
  {
    if a != [] {
      var f, g := a[..|a| - 1], b[..|b| - 1];
      ValueInjective(f, g);
      DivModUnique(Value(a), 0x100, Value(f), a[|a| - 1]);
      DivModUnique(Value(b), 0x100, Value(g), b[|b| - 1]);
      assert a == f + [a[|a| - 1]] && b == g + [b[|b| - 1]];
    }
  }

  /** The first whole bytes are the first bits. */
  lemma TopBytes(s: seq<byte>, q: nat)
    requires q <= |s|
    ensures TopBits(Value(s), 8 * |s|, 8 * q) == Value(s[..q])
  {
    var post := s[q..];
    assert s == s[..q] + post;
    ValueAppend(s[..q], post);
    ValueBound(post);
    DivModUnique(Value(s), Pow2(8 * |post|), Value(s[..q]), Value(post));
  }

  /** The first bits, when they end inside byte `q`. */
  lemma TopBitsInside(s: seq<byte>, q: nat, r: nat)
    requires q < |s| && 0 < r < 8
    ensures TopBits(Value(s), 8 * |s|, 8 * q + r) == Value(s[..q]) * Pow2(r) + Shr(s[q], 8 - r)
    ensures Shr(s[q], 8 - r) < Pow2(r)
  {
    hide Pow2, Value;
    var v, w, k := Value(s), 8 * |s|, 8 * (|s| - q - 1);
    TopBytes(s, q + 1);
    NextByte(s, q);
    Pow2Add(k, 8 - r);
    ShrShr(v, k, 8 - r);
    assert k + (8 - r) == w - (8 * q + r) && k == w - 8 * (q + 1);
    hide Shr;
    SplitByte(Value(s[..q]), s[q], r);
  }

  lemma NextByte(s: seq<byte>, q: nat)
    requires q < |s|
    ensures Value(s[..q + 1]) == Value(s[..q]) * 0x100 + s[q]
  {
    assert s[..q + 1][..q] == s[..q];
  }

  lemma ShrShr(x: nat, j: nat, k: nat)
    ensures Shr(x, j + k) == Shr(Shr(x, j), k)
  {
    hide Pow2;
    Pow2Add(j, k);
    DivDiv(x, Pow2(j), Pow2(k));
  }

  lemma SplitByte(a: nat, b: byte, r: nat)
    requires 0 < r < 8
    ensures Shr(a * 0x100 + b, 8 - r) == a * Pow2(r) + Shr(b, 8 - r)
    ensures Shr(b, 8 - r) < Pow2(r)
  {
    hide Pow2;
    Pow2Add(r, 8 - r);
    Pow2Words();
    SplitAt(a, b, Pow2(r), Pow2(8 - r));
  }

  lemma SplitAt(a: nat, b: nat, p: nat, m: nat)
    requires p * m == 0x100 && m > 0 && b < 0x100
    ensures (a * 0x100 + b) / m == a * p + b / m && b / m < p
  {
    MulAssoc(a, p, m);
    DivShift(a * p, b, m);
    QuotientBelow(b, m, p);
  }

  lemma QuotientBelow(b: nat, m: nat, p: nat)
    requires m > 0 && b < p * m
    ensures 0 <= b / m < p
  {
    MulBounds(b / m, m);
    MulBounds(b / m - p, m);
    assert (b / m) * m == p * m + (b / m - p) * m;
  }

  /* ---- prefix_match compares the first bits ---- */

  lemma ByteMaskIsHigh(rem: nat)
    requires 0 < rem < 8
    ensures ByteMask(rem) == HighMask(8, 8 - rem)
  {
    hide Pow2;
    Pow2Words();
    Pow2Monotone(8 - rem, 8);
    ShiftedOnes(Pow2(8 - rem));
  }

  lemma ShiftedOnes(p: nat)
    requires 0 < p <= 0x100
    ensures (0xFF * p) % 0x100 == 0x100 - p
  {
    DivModUnique(0xFF * p, 0x100, p - 1, 0x100 - p);
  }

  lemma MaskedEqual(a: byte, b: byte, rem: nat)
    requires 0 < rem < 8
    ensures And(a, ByteMask(rem)) == And(b, ByteMask(rem)) <==> Shr(a, 8 - rem) == Shr(b, 8 - rem)
  {
    hide And, Pow2, HighMask, ByteMask;
    ByteMaskIsHigh(rem);
    Pow2Words();
    AndHigh(a, 8, 8 - rem);
    AndHigh(b, 8, 8 - rem);
    SameQuotient(a, b, Pow2(8 - rem));
  }

  lemma SameQuotient(a: nat, b: nat, m: nat)
    requires m > 0
    ensures a - a % m == b - b % m <==> a / m == b / m
  {
    MultipleOf(a, m);
    MultipleOf(b, m);
    var p, q := a / m, b / m;
    if p != q {
      assert (p - q) * m == p * m - q * m;
      MulBounds(p - q, m);
    }
  }

  lemma MultipleOf(x: nat, m: nat)
    requires m > 0
    ensures x - x % m == (x / m) * m
  {
  }

  /** prefix_match holds exactly when the numbers agree on the first bits. */
  lemma PrefixMatchIsTopBits(key: seq<byte>, keyBits: nat, prefix: seq<byte>, prefixBits: nat)
    requires Least(keyBits, prefixBits) <= 8 * |key| && Least(keyBits, prefixBits) <= 8 * |prefix|
    ensures var n := Least(keyBits, prefixBits);
            PrefixMatch(key, keyBits, prefix, prefixBits)
            <==> TopBits(Value(key), 8 * |key|, n) == TopBits(Value(prefix), 8 * |prefix|, n)
  {
    hide TopBits, ByteMask, Value, And, Pow2, Shr, Least;
    var n := Least(keyBits, prefixBits);
    var q, r := n / 8, n % 8;
    ValueInjective(key[..q], prefix[..q]);
    if r == 0 {
      TopBytes(key, q);
      TopBytes(prefix, q);
    } else {
      TopBitsInside(key, q, r);
      TopBitsInside(prefix, q, r);
      MaskedEqual(key[q], prefix[q], r);
      PairsEqual(Value(key[..q]), Shr(key[q], 8 - r), Value(prefix[..q]), Shr(prefix[q], 8 - r), Pow2(r));
    }
  }

  lemma PairsEqual(a: nat, x: nat, b: nat, y: nat, m: nat)
    requires x < m && y < m
    ensures a * m + x == b * m + y <==> a == b && x == y
  {
    DivModUnique(a * m + x, m, a, x);
    DivModUnique(b * m + y, m, b, y);
  }

  /* ---- and so does the bit-by-bit comparison ---- */

  lemma BitTestIsBit(s: seq<byte>, i: nat)
    requires i < 8 * |s|
    ensures TopBits(Value(s), 8 * |s|, i + 1) == 2 * TopBits(Value(s), 8 * |s|, i) + BitTest(s, i)
  {
    var w := 8 * |s|;
    var x := TopBits(Value(s), w, i + 1);
    Pow2Add(w - i - 1, 1);
    assert Pow2(1) == 2;
    DivDiv(Value(s), Pow2(w - i - 1), 2);
    assert TopBits(Value(s), w, i) == x / 2;
    LowBitOfTop(s, i);
  }

  lemma LowBitOfTop(s: seq<byte>, i: nat)
    requires i < 8 * |s|
    ensures TopBits(Value(s), 8 * |s|, i + 1) % 2 == BitTest(s, i)
  {
    hide TopBits, Value;
    var q, r := i / 8, i % 8;
    var c := Shr(s[q], 7 - r);
    AndMask(c, 1);
    assert Pow2(1) == 2;
    if r == 7 {
      TopBytes(s, q + 1);
      LastByte(s, q);
    } else {
      TopBitsInside(s, q, r + 1);
      EvenPart(Value(s[..q]), r, c);
    }
  }

  lemma LastByte(s: seq<byte>, q: nat)
    requires q < |s|
    ensures Value(s[..q + 1]) % 2 == Shr(s[q], 0) % 2
  {
    assert s[..q + 1][..q] == s[..q];
  }

  lemma EvenPart(a: nat, r: nat, c: nat)
    ensures (a * Pow2(r + 1) + c) % 2 == c % 2
  {
    MulDouble(a, Pow2(r));
  }

  lemma {:induction false} BitsAreTopBits(a: seq<byte>, b: seq<byte>, n: nat)
    requires n <= 8 * |a| && n <= 8 * |b|
    ensures (forall i :: 0 <= i < n ==> BitTest(a, i) == BitTest(b, i))
            <==> TopBits(Value(a), 8 * |a|, n) == TopBits(Value(b), 8 * |b|, n)
    decreases n
  {
    hide TopBits, Value, BitTest;
    if n == 0 {
      TopNone(a);
      TopNone(b);
    } else {
      BitsAreTopBits(a, b, n - 1);
      BitTestIsBit(a, n - 1);
      BitTestIsBit(b, n - 1);
      BitRange(a, n - 1);
      BitRange(b, n - 1);
    }
  }

  lemma TopNone(s: seq<byte>)
    ensures TopBits(Value(s), 8 * |s|, 0) == 0
  {
    hide Value, Pow2;
    ValueBound(s);
    QuotientBelow(Value(s), Pow2(8 * |s|), 1);
  }

  lemma BitRange(s: seq<byte>, i: nat)
    requires i < 8 * |s|
    ensures BitTest(s, i) < 2
  {
    AndMask(Shr(s[i / 8], 7 - i % 8), 1);
    assert Pow2(1) == 2;
  }

  /** The byte-and-mask comparison and the bit-by-bit one agree, on all keys and all lengths. */
  lemma PrefixMatchIsBits(key: seq<byte>, keyBits: nat, prefix: seq<byte>, prefixBits: nat)
    requires Least(keyBits, prefixBits) <= 8 * |key| && Least(keyBits, prefixBits) <= 8 * |prefix|
    ensures PrefixMatch(key, keyBits, prefix, prefixBits)
            <==> forall i :: 0 <= i < keyBits && i < prefixBits ==> BitTest(key, i) == BitTest(prefix, i)
  {
    hide PrefixMatch, TopBits, Value, BitTest;
    PrefixMatchIsTopBits(key, keyBits, prefix, prefixBits);
    BitsAreTopBits(key, prefix, Least(keyBits, prefixBits));
  }

  /** find_first_diff_bit. It returns the smaller length exactly for keys that prefix_match accepts. */
  method FindFirstDiffBit(a: seq<byte>, aBits: nat, b: seq<byte>, bBits: nat) returns (i: nat)
    requires Least(aBits, bBits) <= 8 * |a| && Least(aBits, bBits) <= 8 * |b|
    ensures i <= Least(aBits, bBits)
    ensures forall k :: 0 <= k < i ==> BitTest(a, k) == BitTest(b, k)
    ensures i < Least(aBits, bBits) ==> BitTest(a, i) != BitTest(b, i)
    ensures i == Least(aBits, bBits) <==> PrefixMatch(a, aBits, b, bBits)
  {
    hide BitTest, PrefixMatch;
    PrefixMatchIsBits(a, aBits, b, bBits);
    var max := if aBits < bBits then aBits else bBits;
    i := 0;
    while i < max
      invariant i <= max
      invariant forall k :: 0 <= k < i ==> BitTest(a, k) == BitTest(b, k)
    {
      if BitTest(a, i) != BitTest(b, i) {
        return;
      }
      i := i + 1;
    }
  }

  /* ---- Membership ---- */

  /** An address is in a CIDR block exactly when it agrees with it on the first bits. */
  lemma InIsTopBits(w: nat, b: Block, a: nat)
    requires IsCidr(w, b)
    ensures In(w, b, a) <==> TopBits(a, w, b.len) == TopBits(b.addr, w, b.len)
  {
    var p := Size(w, b);
    MultipleOf(b.addr, p);
    var i, j := a / p, b.addr / p;
    assert a == i * p + a % p;
    assert a - b.addr == (i - j) * p + a % p by { assert (i - j) * p == i * p - j * p; }
    MulBounds(i - j, p);
    if i == j {
      assert (i - j) * p == 0;
    }
  }

  /** A tree node keeps only the bytes the prefix reaches into (make_leaf, lines 39-61); the
      comparison reads no others, whatever the length of the key. */
  lemma StoredKeySuffices(key: seq<byte>, keyBits: nat, prefix: seq<byte>, n: nat)
    requires Least(keyBits, n) <= 8 * |key| && n <= 8 * |prefix|
    ensures PrefixMatch(key, keyBits, prefix[..(n + 7) / 8], n) <==> PrefixMatch(key, keyBits, prefix, n)
  {
    var q := Least(keyBits, n) / 8;
    assert prefix[..(n + 7) / 8][..q] == prefix[..q];
  }

  /** An address lies in the range exactly when prefix_match holds against one of the prefixes that
      the range was split into. `n` is 4 for IPv4 and 16 for IPv6. */
  lemma RangeMatches(n: nat, start: nat, span: nat, key: seq<byte>)
    requires start + span <= Pow2(8 * n) && |key| == n
    ensures start <= Value(key) < start + span
            <==> exists p <- Rest(n, 8 * n, start, span) :: Matches(n, key, p)
  {
    hide Split, PrefixMatch, ToBytes, Value, In, IsCidr;
    var bs := Split(8 * n, start, span);
    SplitCovers(8 * n, start, span, Value(key));
    var ps := Rest(n, 8 * n, start, span);
    forall i | 0 <= i < |bs|
      ensures bs[i].len <= 8 * n && (Matches(n, key, ps[i]) <==> In(8 * n, bs[i], Value(key)))
    {
      assert bs[i] in bs;
      MatchIsIn(n, key, bs[i]);
    }
    if exists b <- bs :: b.len <= 8 * n && In(8 * n, b, Value(key)) {
      var b :| b in bs && b.len <= 8 * n && In(8 * n, b, Value(key));
      var i :| 0 <= i < |bs| && bs[i] == b;
      assert ps[i] in ps;
    }
    if exists p <- ps :: Matches(n, key, p) {
      var p :| p in ps && Matches(n, key, p);
      var i :| 0 <= i < |ps| && ps[i] == p;
      assert bs[i] in bs;
    }
  }

  predicate Matches(n: nat, key: seq<byte>, p: Prefix) {
    |key| == n && |p.key| == n && p.len <= 8 * n && PrefixMatch(key, 8 * n, p.key, p.len)
  }

  lemma MatchIsIn(n: nat, key: seq<byte>, b: Block)
    requires |key| == n && IsCidr(8 * n, b)
    ensures b.len <= 8 * n
    ensures Matches(n, key, Prefix(ToBytes(b.addr, n), b.len)) <==> In(8 * n, b, Value(key))
  {
    hide PrefixMatch, TopBits, ToBytes, Value;
    PrefixMatchIsTopBits(key, 8 * n, ToBytes(b.addr, n), b.len);
    ValueToBytes(b.addr, n);
    InIsTopBits(8 * n, b, Value(key));
  }

  /* ---- apply_cidr_mask ---- */

  /** apply_cidr_mask rounds the key down to the base of its block; a length that is too long keeps
      all of it. */
  method ApplyCidrMask(key: array<byte>, bitLen: nat, maxBytes: nat)
    requires maxBytes <= key.Length
    modifies key
    ensures var cut := 8 * maxBytes - Least(bitLen, 8 * maxBytes);
            Value(key[..maxBytes]) == Shr(old(Value(key[..maxBytes])), cut) * Pow2(cut)
    ensures key[maxBytes..] == old(key[maxBytes..])
  {
    hide Value, And, ByteMask;
    ghost var s := key[..maxBytes];
    var bytes := bitLen / 8;
    var rem := bitLen % 8;
    if bytes < maxBytes {
      if rem > 0 {
        MaskedByte(key[bytes], rem);
        key[bytes] := And(key[bytes], ByteMask(rem));
        bytes := bytes + 1;
      }
      ghost var kept := key[..bytes];
      while bytes < maxBytes
        invariant |kept| <= bytes <= maxBytes && key[..|kept|] == kept
        invariant forall k :: |kept| <= k < bytes ==> key[k] == 0
        invariant key[maxBytes..] == old(key[maxBytes..])
      {
        key[bytes] := 0;
        bytes := bytes + 1;
      }
      MaskedValue(s, key[..maxBytes], bitLen, kept);
    } else {
      WholeValue(s);
    }
  }

  lemma MaskedByte(b: byte, rem: nat)
    requires 0 < rem < 8
    ensures And(b, ByteMask(rem)) == Shr(b, 8 - rem) * Pow2(8 - rem) <= b
  {
    hide And, Pow2, HighMask, ByteMask;
    ByteMaskIsHigh(rem);
    Pow2Words();
    AndHigh(b, 8, 8 - rem);
    MultipleOf(b, Pow2(8 - rem));
  }

  lemma WholeValue(s: seq<byte>)
    ensures Value(s) == Shr(Value(s), 8 * |s| - 8 * |s|) * Pow2(8 * |s| - 8 * |s|)
  {
  }

  /** The kept bytes, followed by zeros: the mask fell on a byte boundary, or inside the last one. */
  lemma MaskedValue(s: seq<byte>, t: seq<byte>, bitLen: nat, kept: seq<byte>)
    requires |s| == |t| && bitLen < 8 * |s|
    requires var q, r := bitLen / 8, bitLen % 8;
             && |kept| == (if r > 0 then q + 1 else q) && kept <= t && s[..q] == t[..q]
             && (r > 0 ==> t[q] == Shr(s[q], 8 - r) * Pow2(8 - r))
    requires forall k :: |kept| <= k < |t| ==> t[k] == 0
    ensures Value(t) == TopBits(Value(s), 8 * |s|, bitLen) * Pow2(8 * |s| - bitLen)
  {
    hide TopBits, Value, Pow2, Shr;
    var q, r := bitLen / 8, bitLen % 8;
    ZeroTail(t, kept);
    if r == 0 {
      TopBytes(s, q);
      assert kept == s[..q];
    } else {
      assert kept[..q] == s[..q] && kept[q] == t[q];
      MaskedInside(s, kept, q, r);
    }
  }

  lemma ZeroTail(t: seq<byte>, kept: seq<byte>)
    requires kept <= t && forall k :: |kept| <= k < |t| ==> t[k] == 0
    ensures Value(t) == Value(kept) * Pow2(8 * |t| - 8 * |kept|)
  {
    hide Value, Pow2;
    var zeros := t[|kept|..];
    assert t == kept + zeros;
    ValueAppend(kept, zeros);
    ZeroValue(zeros);
  }

  lemma MaskedInside(s: seq<byte>, kept: seq<byte>, q: nat, r: nat)
    requires 0 < r < 8 && q < |s| && |kept| == q + 1 && kept[..q] == s[..q]
    requires kept[q] == Shr(s[q], 8 - r) * Pow2(8 - r)
    ensures Value(kept) * Pow2(8 * |s| - 8 * (q + 1))
            == TopBits(Value(s), 8 * |s|, 8 * q + r) * Pow2(8 * |s| - (8 * q + r))
  {
    hide TopBits, Value, Pow2, Shr;
    TopBitsInside(s, q, r);
    LastAppend(kept);
    var n := 8 * |s| - 8 * (q + 1);
    Pow2Add(8 - r, n);
    Pow2Add(r, 8 - r);
    Pow2Words();
    Scale(Value(s[..q]), Pow2(r), Shr(s[q], 8 - r), Pow2(8 - r), Pow2(n));
  }

  lemma LastAppend(s: seq<byte>)
    requires s != []
    ensures Value(s) == Value(s[..|s| - 1]) * 0x100 + s[|s| - 1]
  {
  }

  lemma Scale(a: nat, p: nat, c: nat, m: nat, n: nat)
    requires p * m == 0x100
    ensures (a * 0x100 + c * m) * n == (a * p + c) * (m * n)
  {
    assert a * 0x100 == (a * p) * m by { Words.Regroup(a, p, m); }
    assert a * 0x100 + c * m == (a * p + c) * m by { assert (a * p + c) * m == (a * p) * m + c * m; }
    Words.Regroup(a * p + c, m, n);
  }

  lemma {:induction false} ZeroValue(s: seq<byte>)
    requires forall k :: 0 <= k < |s| ==> s[k] == 0
    ensures Value(s) == 0
    decreases |s|
  {
    if s != [] {
      ZeroValue(s[..|s| - 1]);
    }
  }
}
