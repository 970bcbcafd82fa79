/** Splitting an address range into CIDR blocks: the greedy split over plain integers, and why it
    is the best one (the algorithm of structure/patricia.c:609-762). */
module Cidr {
  import opened Bits

  /** The block of the addresses that agree with `addr` on the first `len` of `w` bits. */
  datatype Block = Block(addr: nat, len: nat)

  function Size(w: nat, b: Block): nat
    requires b.len <= w
  {
    Pow2(w - b.len)
  }

  predicate IsCidr(w: nat, b: Block) {
    b.len <= w && b.addr % Size(w, b) == 0 && b.addr + Size(w, b) <= Pow2(w)
  }

  predicate In(w: nat, b: Block, a: nat)
    requires b.len <= w
  {
    b.addr <= a < b.addr + Size(w, b)
  }

  /** The exponent of the largest aligned power-of-two block that starts at `start` and spans at
      most `span` addresses. */
  function BlockExp(start: nat, span: nat): nat
    requires span > 0
    decreases span
  {
    if start % 2 == 0 && span >= 2 then 1 + BlockExp(start / 2, span / 2) else 0
  }

  /** The greedy split of [start, start + span). */
  function Split(w: nat, start: nat, span: nat): seq<Block>
    requires start + span <= Pow2(w)
    decreases span
  {
    if span == 0 then [] else
    var j := BlockExp(start, span);
    BlockFits(w, start, span);
    [Block(start, w - j)] + Split(w, start + Pow2(j), span - Pow2(j))
  }

  /* ---- The block size ---- */

  /** The block is aligned and fits, and no larger one is and does. */
  lemma {:induction false} BlockExpLargest(start: nat, span: nat)
    requires span > 0
    ensures var j := BlockExp(start, span);
            && start % Pow2(j) == 0 && Pow2(j) <= span
            && !(start % Pow2(j + 1) == 0 && Pow2(j + 1) <= span)
    decreases span
  {
    if start % 2 == 0 && span >= 2 {
      var j := BlockExp(start / 2, span / 2);
      BlockExpLargest(start / 2, span / 2);
      ModDouble(start, Pow2(j));
      ModDouble(start, Pow2(j + 1));
    }
  }

  lemma BlockFits(w: nat, start: nat, span: nat)
    requires span > 0 && start + span <= Pow2(w)
    ensures BlockExp(start, span) <= w && Pow2(BlockExp(start, span)) <= span
  {
    BlockExpLargest(start, span);
    var j := BlockExp(start, span);
    if j > w {
      Pow2Monotone(w, j);
    }
  }

  lemma {:induction false} AlignedSmaller(x: nat, i: nat, j: nat)
    requires i <= j && x % Pow2(j) == 0
    ensures x % Pow2(i) == 0
    decreases j
  {
    if i < j {
      ModHalf(x, Pow2(j - 1));
      AlignedSmaller(x, i, j - 1);
    }
  }

  lemma ModHalf(x: nat, m: nat)
    requires m > 0 && x % (2 * m) == 0
    ensures x % m == 0
  {
    var q := x / (2 * m);
    assert x == (2 * q) * m by {
      assert x == q * (2 * m);
      Double(q, m);
      assert q * (2 * m) == 2 * (q * m);
    }
    DivModUnique(x, m, 2 * q, 0);
  }

  /** Any exponent that is aligned and fits is at most the greedy one. */
  lemma BlockExpBounds(start: nat, span: nat, i: nat)
    requires span > 0 && start % Pow2(i) == 0 && Pow2(i) <= span
    ensures i <= BlockExp(start, span)
  {
    var j := BlockExp(start, span);
    BlockExpLargest(start, span);
    if i > j {
      AlignedSmaller(start, j + 1, i);
      Pow2Monotone(j + 1, i);
    }
  }

  /* ---- The split is a partition into CIDR blocks ---- */

  /** The blocks follow each other without gap or overlap from `start` up to `stop`. */
  ghost predicate Chained(w: nat, bs: seq<Block>, start: nat, stop: nat) {
    && (forall i :: 0 <= i < |bs| ==> IsCidr(w, bs[i]))
    && (if bs == [] then start == stop else
        bs[0].addr == start && bs[|bs| - 1].addr + Size(w, bs[|bs| - 1]) == stop)
    && (forall i :: 0 <= i < |bs| - 1 ==> bs[i + 1].addr == bs[i].addr + Size(w, bs[i]))
  }

  lemma {:induction false} SplitChained(w: nat, start: nat, span: nat)
    requires start + span <= Pow2(w)
    ensures Chained(w, Split(w, start, span), start, start + span)
    decreases span
  {
    hide BlockExp, Pow2, IsCidr, Size, Chained;
    if span == 0 {
      NoneChained(w, start);
    } else {
      var j := BlockExp(start, span);
      GreedyBlock(w, start, span);
      SplitChained(w, start + Pow2(j), span - Pow2(j));
      ChainedCons(w, Block(start, w - j), Split(w, start + Pow2(j), span - Pow2(j)), start + span);
    }
  }

  lemma NoneChained(w: nat, start: nat)
    ensures Chained(w, [], start, start)
  {
  }

  /** The block that the greedy split takes is a CIDR block. */
  lemma GreedyBlock(w: nat, start: nat, span: nat)
    requires span > 0 && start + span <= Pow2(w)
    ensures var j := BlockExp(start, span);
            j <= w && Pow2(j) <= span && IsCidr(w, Block(start, w - j)) && Size(w, Block(start, w - j)) == Pow2(j)
  {
    hide BlockExp, Pow2;
    BlockFits(w, start, span);
    BlockExpLargest(start, span);
    var j := BlockExp(start, span);
    assert w - (w - j) == j;
  }

  lemma ChainedCons(w: nat, b: Block, bs: seq<Block>, stop: nat)
    requires IsCidr(w, b) && Chained(w, bs, b.addr + Size(w, b), stop)
    ensures Chained(w, [b] + bs, b.addr, stop)
  {
    hide IsCidr, Size;
    var s := [b] + bs;
    assert forall i :: 0 < i < |s| ==> s[i] == bs[i - 1];
  }

  /** In a chain, the addresses rise; so the blocks are disjoint and in ascending order. */
  lemma {:induction false} ChainedAscends(w: nat, bs: seq<Block>, start: nat, stop: nat, i: nat, j: nat)
    requires Chained(w, bs, start, stop) && i < j < |bs|
    ensures bs[i].addr + Size(w, bs[i]) <= bs[j].addr
    decreases j
  {
    assert IsCidr(w, bs[i]) && IsCidr(w, bs[j - 1]);
    if i < j - 1 {
      ChainedAscends(w, bs, start, stop, i, j - 1);
    }
  }

  lemma {:induction false} ChainedFind(w: nat, bs: seq<Block>, start: nat, stop: nat, a: nat) returns (i: nat)
    requires Chained(w, bs, start, stop) && start <= a < stop
    ensures i < |bs| && IsCidr(w, bs[i]) && In(w, bs[i], a)
    decreases |bs|
  {
    i := |bs| - 1;
    if a < bs[i].addr {
      assert bs[|bs| - 1] == bs[i];
      var front := bs[..i];
      assert forall x :: 0 <= x < |front| ==> front[x] == bs[x];
      if i > 0 {
        assert bs[i - 1 + 1].addr == bs[i - 1].addr + Size(w, bs[i - 1]);
      }
      i := ChainedFind(w, front, start, bs[i].addr, a);
    }
  }

  lemma ChainedInside(w: nat, bs: seq<Block>, start: nat, stop: nat, i: nat)
    requires Chained(w, bs, start, stop) && i < |bs|
    ensures IsCidr(w, bs[i]) && start <= bs[i].addr && bs[i].addr + Size(w, bs[i]) <= stop
  {
    assert IsCidr(w, bs[0]) && IsCidr(w, bs[|bs| - 1]);
    if i > 0 { ChainedAscends(w, bs, start, stop, 0, i); }
    if i < |bs| - 1 { ChainedAscends(w, bs, start, stop, i, |bs| - 1); }
  }

  /** An address is in the range exactly when it is in one of the blocks. */
  lemma SplitCovers(w: nat, start: nat, span: nat, a: nat)
    requires start + span <= Pow2(w)
    ensures forall b <- Split(w, start, span) :: IsCidr(w, b)
    ensures start <= a < start + span <==> exists b <- Split(w, start, span) :: b.len <= w && In(w, b, a)
  {
    hide Chained, Split, Size;
    var bs := Split(w, start, span);
    SplitChained(w, start, span);
    forall b | b in bs ensures IsCidr(w, b) && start <= b.addr && b.addr + Size(w, b) <= start + span {
      var i :| 0 <= i < |bs| && bs[i] == b;
      ChainedInside(w, bs, start, start + span, i);
    }
    if start <= a < start + span {
      var i := ChainedFind(w, bs, start, start + span, a);
      assert bs[i] in bs;
    }
  }

  /* ---- Optimality ---- */

  /** `b` lies in [start, stop), and so does no CIDR block that properly contains it. */
  ghost predicate Maximal(w: nat, b: Block, start: nat, stop: nat) {
    && IsCidr(w, b) && start <= b.addr && b.addr + Size(w, b) <= stop
    && forall c: Block :: IsCidr(w, c) && start <= c.addr && c.addr + Size(w, c) <= stop && In(w, c, b.addr) ==>
         c.len >= b.len
  }

  predicate Inside(w: nat, c: Block, b: Block)
    requires c.len <= w && b.len <= w
  {
    b.addr <= c.addr && c.addr + Size(w, c) <= b.addr + Size(w, b)
  }

  /** Two CIDR blocks that meet are nested: the smaller one lies inside the larger one. */
  lemma Nested(w: nat, b: Block, c: Block)
    requires IsCidr(w, b) && IsCidr(w, c) && c.len <= b.len
    requires In(w, c, b.addr) || In(w, b, c.addr)
    ensures Inside(w, b, c)
  {
    Pow2Add(w - b.len, b.len - c.len);
    var p, n := Size(w, b), Pow2(b.len - c.len);
    assert Size(w, c) == n * p by { assert p * n == n * p; }
    MultipleGap(b.addr, c.addr, p, n, Size(w, c));
  }

  lemma MultipleGap(x: nat, y: nat, p: nat, n: nat, q: nat)
    requires p > 0 && n > 0 && q == n * p && q > 0 && x % p == 0 && y % q == 0
    requires y <= x < y + q || x <= y < x + p
    ensures y <= x && x + p <= y + q
  {
    var i, j := x / p, y / q;
    var k := j * n;
    assert x == i * p;
    assert y == k * p by {
      assert y == j * q;
      MulAssoc(j, n, p);
    }
    assert y + q == (k + n) * p by { assert (k + n) * p == k * p + n * p; }
    assert x - y == (i - k) * p by { assert (i - k) * p == i * p - k * p; }
    assert y + q - x == (k + n - i) * p by { assert (k + n - i) * p == (k + n) * p - i * p; }
    MulBounds(i - k, p);
    MulBounds(k + n - i, p);
    MulBounds(k - i, p);
    assert y - x == (k - i) * p by { assert (k - i) * p == k * p - i * p; }
    if i < k {
      MulBounds(k - i - 1, p);
    }
  }

  /** Every block of the split is the largest CIDR block of the range around its address. */
  lemma {:induction false} SplitMaximal(w: nat, start: nat, span: nat, b: Block, c: Block)
    requires start + span <= Pow2(w) && b in Split(w, start, span)
    requires IsCidr(w, c) && start <= c.addr && c.addr + Size(w, c) <= start + span && b.len <= w && In(w, c, b.addr)
    ensures c.len >= b.len
    decreases span
  {
    BlockFits(w, start, span);
    var j := BlockExp(start, span);
    var b0, rest := Block(start, w - j), Split(w, start + Pow2(j), span - Pow2(j));
    if c.addr == start {
      FirstMaximal(w, start, span, c);
    }
    if b != b0 {
      assert b in rest;
      if c.addr >= start + Pow2(j) {
        SplitMaximal(w, start + Pow2(j), span - Pow2(j), b, c);
      } else {
        RestAbove(w, start + Pow2(j), span - Pow2(j), b);
        BlockExpLargest(start, span);
        if c.len < b0.len {
          Nested(w, b0, c);
        } else {
          Nested(w, c, b0);
        }
      }
    }
  }

  lemma FirstMaximal(w: nat, start: nat, span: nat, c: Block)
    requires span > 0 && start + span <= Pow2(w)
    requires IsCidr(w, c) && c.addr == start && start + Size(w, c) <= start + span
    ensures w - BlockExp(start, span) <= c.len
  {
    BlockExpBounds(start, span, w - c.len);
  }

  lemma RestAbove(w: nat, start: nat, span: nat, b: Block)
    requires start + span <= Pow2(w) && b in Split(w, start, span)
    ensures IsCidr(w, b) && start <= b.addr && b.addr + Size(w, b) <= start + span
  {
    var bs := Split(w, start, span);
    SplitChained(w, start, span);
    var i :| 0 <= i < |bs| && bs[i] == b;
    ChainedInside(w, bs, start, start + span, i);
  }

  lemma SplitBlocksMaximal(w: nat, start: nat, span: nat)
    requires start + span <= Pow2(w)
    ensures forall b <- Split(w, start, span) :: Maximal(w, b, start, start + span)
  {
    forall b | b in Split(w, start, span) ensures Maximal(w, b, start, start + span) {
      RestAbove(w, start, span, b);
      forall c: Block | IsCidr(w, c) && start <= c.addr && c.addr + Size(w, c) <= start + span && In(w, c, b.addr)
        ensures c.len >= b.len
      {
        SplitMaximal(w, start, span, b, c);
      }
    }
  }

  /** A set of blocks whose union is the range [start, stop). */
  ghost predicate Covers(w: nat, cs: set<Block>, start: nat, stop: nat) {
    && (forall c <- cs :: IsCidr(w, c))
    && (forall a: nat {:trigger CoveredBy(w, cs, a)} :: CoveredBy(w, cs, a) <==> start <= a < stop)
  }

  ghost predicate CoveredBy(w: nat, cs: set<Block>, a: nat)
  {
    exists c <- cs :: c.len <= w && In(w, c, a)
  }

  /** A member of a cover lies in the range. */
  lemma MemberInRange(w: nat, cs: set<Block>, start: nat, stop: nat, c: Block)
    requires Covers(w, cs, start, stop) && c in cs
    ensures IsCidr(w, c) && start <= c.addr && c.addr + Size(w, c) <= stop
  {
    assert In(w, c, c.addr) && CoveredBy(w, cs, c.addr);
    var last := c.addr + Size(w, c) - 1;
    assert In(w, c, last) && CoveredBy(w, cs, last);
  }

  /** The member of a cover that holds the first address of a maximal block lies inside that block. */
  lemma MemberInside(w: nat, cs: set<Block>, start: nat, stop: nat, b: Block) returns (c: Block)
    requires Covers(w, cs, start, stop) && Maximal(w, b, start, stop)
    ensures c in cs && c.len <= w && b.len <= w && Inside(w, c, b)
  {
    assert start <= b.addr < stop;
    assert CoveredBy(w, cs, b.addr);
    c :| c in cs && c.len <= w && In(w, c, b.addr);
    MemberInRange(w, cs, start, stop, c);
    assert c.len >= b.len;
    if c.addr <= b.addr {
      NestedSame(w, b, c);
    }
  }

  lemma NestedSame(w: nat, b: Block, c: Block)
    requires IsCidr(w, b) && IsCidr(w, c) && In(w, c, b.addr) && c.len >= b.len
    ensures Inside(w, c, b)
  {
    Nested(w, c, b);
  }

  /** Disjoint blocks that each contain a member of `cs` are no more than the members. */
  lemma {:induction false} AtLeastAsMany(w: nat, bs: seq<Block>, start: nat, stop: nat, cs: set<Block>,
                                         f: map<nat, Block>)
    requires Chained(w, bs, start, stop)
    requires forall c <- cs :: c.len <= w
    requires forall i :: 0 <= i < |bs| ==> i in f && f[i] in cs && Inside(w, f[i], bs[i])
    ensures |bs| <= |cs|
    decreases |bs|
  {
    if bs != [] {
      var n := |bs| - 1;
      var last := f[n];
      var front := bs[..n];
      assert forall i :: 0 <= i < n ==> front[i] == bs[i];
      assert bs[n] == bs[|bs| - 1];
      if n > 0 {
        assert bs[n - 1 + 1].addr == bs[n - 1].addr + Size(w, bs[n - 1]);
      }
      forall i | 0 <= i < n ensures f[i] != last {
        ChainedAscends(w, bs, start, stop, i, n);
      }
      AtLeastAsMany(w, front, start, bs[n].addr, cs - {last}, f);
    }
  }

  /** The split is optimal: no set of CIDR blocks with the same union has fewer members. */
  lemma SplitOptimal(w: nat, start: nat, span: nat, cs: set<Block>)
    requires start + span <= Pow2(w) && Covers(w, cs, start, start + span)
    ensures |Split(w, start, span)| <= |cs|
  {
    hide Split, Maximal, Covers, Chained, Inside;
    var bs := Split(w, start, span);
    SplitChained(w, start, span);
    SplitBlocksMaximal(w, start, span);
    CoverLens(w, cs, start, start + span);
    var f := Picks(w, bs, cs, start, start + span, |bs|);
    AtLeastAsMany(w, bs, start, start + span, cs, f);
  }

  lemma CoverLens(w: nat, cs: set<Block>, start: nat, stop: nat)
    requires Covers(w, cs, start, stop)
    ensures forall c <- cs :: c.len <= w
  {
  }

  lemma {:induction false} Picks(w: nat, bs: seq<Block>, cs: set<Block>, start: nat, stop: nat, n: nat)
    returns (f: map<nat, Block>)
    requires n <= |bs| && Covers(w, cs, start, stop)
    requires forall b <- bs :: Maximal(w, b, start, stop)
    ensures forall i :: 0 <= i < n ==> i in f && f[i] in cs && f[i].len <= w && bs[i].len <= w && Inside(w, f[i], bs[i])
  {
    hide Covers, Maximal, Inside;
    f := map[];
    if n > 0 {
      f := Picks(w, bs, cs, start, stop, n - 1);
      assert bs[n - 1] in bs;
      var c := MemberInside(w, cs, start, stop, bs[n - 1]);
      f := f[n - 1 := c];
    }
  }

  /* ---- How many blocks ---- */

  /** Block sizes strictly rise. */
  ghost predicate SizesRise(bs: seq<Block>) {
    forall i, j :: 0 <= i < j < |bs| ==> bs[i].len > bs[j].len
  }

  /** Block sizes strictly fall. */
  ghost predicate SizesFall(bs: seq<Block>) {
    forall i, j :: 0 <= i < j < |bs| ==> bs[i].len < bs[j].len
  }

  /** Once the span is the limit, sizes strictly fall: at most `j` blocks fit below 2^j. */
  lemma {:induction false} SplitFalls(w: nat, start: nat, span: nat, j: nat)
    requires start + span <= Pow2(w) && start % Pow2(j) == 0 && span < Pow2(j)
    ensures |Split(w, start, span)| <= j
    ensures SizesFall(Split(w, start, span)) && forall b <- Split(w, start, span) :: b.len > w - j
    decreases span
  {
    hide BlockExp, Pow2, SizesFall;
    if span == 0 {
      NoneFall();
    } else {
      var i := BlockExp(start, span);
      LastHalf(w, start, span, j);
      SplitFalls(w, start + Pow2(i), span - Pow2(i), i);
      FallCons(Block(start, w - i), Split(w, start + Pow2(i), span - Pow2(i)));
    }
  }

  /** Below the alignment, the block takes more than half of the span. */
  lemma LastHalf(w: nat, start: nat, span: nat, j: nat)
    requires 0 < span < Pow2(j) && start + span <= Pow2(w) && start % Pow2(j) == 0
    ensures var i := BlockExp(start, span);
            && i < j && i <= w && Pow2(i) <= span < Pow2(i) + Pow2(i) && (start + Pow2(i)) % Pow2(i) == 0
  {
    hide BlockExp, Pow2;
    BlockFits(w, start, span);
    BlockExpLargest(start, span);
    var i := BlockExp(start, span);
    if i >= j {
      Pow2Monotone(j, i);
    }
    AlignedSmaller(start, i + 1, j);
    PowerStep(i + 1);
    ModStep(start, Pow2(i));
  }

  lemma NoneFall()
    ensures SizesFall([])
  {
  }

  lemma FallCons(b: Block, bs: seq<Block>)
    requires SizesFall(bs) && forall c <- bs :: c.len > b.len
    ensures SizesFall([b] + bs)
  {
  }

  /** While alignment is the limit, sizes strictly rise; then they strictly fall: `k` blocks of the
      split rise, the others fall. */
  lemma {:induction false} SplitShape(w: nat, start: nat, span: nat, i: nat) returns (k: nat)
    requires start + span <= Pow2(w) && start % Pow2(i) == 0
    ensures k <= |Split(w, start, span)|
    ensures SizesRise(Split(w, start, span)[..k]) && SizesFall(Split(w, start, span)[k..])
    ensures forall b <- Split(w, start, span)[..k] :: b.len <= w - i
    decreases span
  {
    hide BlockExp, SizesFall, SizesRise, Pow2;
    k := 0;
    NoneRise();
    var bs := Split(w, start, span);
    assert bs[..0] == [] && bs[0..] == bs;
    if span < Pow2(i) {
      SplitFalls(w, start, span, i);
      return;
    }
    BlockFits(w, start, span);
    BlockExpLargest(start, span);
    BlockExpBounds(start, span, i);
    var j := BlockExp(start, span);
    if start % Pow2(j + 1) == 0 {
      SplitFalls(w, start, span, j + 1);
    } else {
      NextAligned(start, j);
      var rest := Split(w, start + Pow2(j), span - Pow2(j));
      var n := SplitShape(w, start + Pow2(j), span - Pow2(j), j + 1);
      k := n + 1;
      RiseCons(Block(start, w - j), rest[..n]);
      assert bs[..k] == [Block(start, w - j)] + rest[..n] && bs[k..] == rest[n..];
    }
  }

  lemma NoneRise()
    ensures SizesRise([])
  {
  }

  lemma RiseCons(b: Block, bs: seq<Block>)
    requires SizesRise(bs) && forall c <- bs :: c.len < b.len
    ensures SizesRise([b] + bs)
  {
  }

  lemma ModStep(x: nat, m: nat)
    requires m > 0 && x % m == 0
    ensures (x + m) % m == 0
  {
    var q := x / m;
    assert x + m == (q + 1) * m by { assert (q + 1) * m == q * m + m; }
    DivModUnique(x + m, m, q + 1, 0);
  }

  /** The rising blocks and the falling ones together are not more than the exponents allow. */
  lemma {:induction false} SplitRises(w: nat, start: nat, span: nat, i: nat)
    requires 2 <= w && 0 < start && start + span <= Pow2(w) && start % Pow2(i) == 0 && i < w
    ensures |Split(w, start, span)| <= 2 * w - 2 - i
    decreases w - i
  {
    if span > 0 {
      BlockFits(w, start, span);
      BlockExpLargest(start, span);
      var j := BlockExp(start, span);
      if span < Pow2(i) {
        SplitFalls(w, start, span, i);
      } else {
        BlockExpBounds(start, span, i);
        AboveHalf(w, start, span, j);
        if j == w - 1 {
          assert span - Pow2(j) == 0;
        } else if start % Pow2(j + 1) == 0 {
          SplitFalls(w, start, span, j + 1);
        } else {
          NextAligned(start, j);
          if span > Pow2(j) {
            SplitRises(w, start + Pow2(j), span - Pow2(j), j + 1);
          }
        }
      }
    }
  }

  /** From a positive address, a block of half the space ends the space. */
  lemma AboveHalf(w: nat, start: nat, span: nat, j: nat)
    requires w >= 1 && 0 < start && start % Pow2(j) == 0 && Pow2(j) <= span && start + span <= Pow2(w)
    ensures j <= w - 1 && (j == w - 1 ==> span == Pow2(j))
  {
    MultipleAtLeast(start, Pow2(j));
    if j >= w {
      Pow2Monotone(w, j);
    }
    assert Pow2(w) == 2 * Pow2(w - 1);
  }

  lemma MultipleAtLeast(x: nat, p: nat)
    requires x > 0 && p > 0 && x % p == 0
    ensures x >= p
  {
    var q := x / p;
    assert x == q * p;
    MulBounds(q, p);
  }

  lemma NextAligned(x: nat, j: nat)
    requires x % Pow2(j) == 0 && x % Pow2(j + 1) != 0
    ensures (x + Pow2(j)) % Pow2(j + 1) == 0
  {
    var p := Pow2(j);
    var q := x / p;
    assert x == q * p;
    if q % 2 == 0 {
      assert x == (q / 2) * (2 * p) by { MulAssoc(q / 2, 2, p); }
      DivModUnique(x, 2 * p, q / 2, 0);
    }
    var r := (q + 1) / 2;
    assert x + p == (q + 1) * p by { assert (q + 1) * p == q * p + p; }
    assert x + p == r * (2 * p) by { MulAssoc(r, 2, p); }
    DivModUnique(x + p, 2 * p, r, 0);
  }

  /** A range other than the whole space needs at most 2w - 2 blocks: 62 for 32 bits, 254 for 128. */
  lemma SplitCount(w: nat, start: nat, span: nat)
    requires 2 <= w && start + span <= Pow2(w) && span < Pow2(w)
    ensures |Split(w, start, span)| <= 2 * w - 2
  {
    if start == 0 {
      SplitFalls(w, start, span, w);
    } else {
      SplitRises(w, start, span, 0);
    }
  }

  lemma BlockExpIs(start: nat, span: nat, j: nat)
    requires span > 0 && start % Pow2(j) == 0 && Pow2(j) <= span
    requires start % Pow2(j + 1) != 0 || span < Pow2(j + 1)
    ensures BlockExp(start, span) == j
  {
    BlockExpBounds(start, span, j);
    BlockExpLargest(start, span);
    var i := BlockExp(start, span);
    if i > j {
      AlignedSmaller(start, j + 1, i);
      Pow2Monotone(j + 1, i);
    }
  }

  lemma {:induction false} FallsTight(w: nat, start: nat, j: nat)
    requires start + Pow2(j) - 1 <= Pow2(w) && start % Pow2(j) == 0
    ensures |Split(w, start, Pow2(j) - 1)| == j
    decreases j
  {
    if j > 0 {
      var i := j - 1;
      AlignedSmaller(start, i, j);
      BlockExpIs(start, Pow2(j) - 1, i);
      ModStep(start, Pow2(i));
      FallsTight(w, start + Pow2(i), i);
    }
  }

  lemma {:induction false} RisesTight(w: nat, i: nat)
    requires 2 <= w && i < w
    ensures Pow2(i) + 1 <= Pow2(w) && |Split(w, Pow2(i), Pow2(w) - 1 - Pow2(i))| == 2 * w - 2 - i
    decreases w - i
  {
    var p, span := Pow2(i), Pow2(w) - 1 - Pow2(i);
    Pow2Monotone(i, w);
    if i == w - 1 {
      DivModUnique(p, p, 1, 0);
      FallsTight(w, p, i);
    } else {
      RisesBlock(w, i);
      RisesTight(w, i + 1);
      hide BlockExp;
      assert Split(w, p, span)[1..] == Split(w, Pow2(i + 1), Pow2(w) - 1 - Pow2(i + 1));
    }
  }

  /** The first block of all addresses from 2^i to the last but one. */
  lemma RisesBlock(w: nat, i: nat)
    requires i + 1 < w
    ensures Pow2(i) + Pow2(i) == Pow2(i + 1) && Pow2(i + 1) < Pow2(w) - 1
    ensures BlockExp(Pow2(i), Pow2(w) - 1 - Pow2(i)) == i
  {
    var p := Pow2(i);
    Pow2Monotone(i + 1, w - 1);
    assert Pow2(w) == 2 * Pow2(w - 1);
    DivModUnique(p, p, 1, 0);
    DivModUnique(p, Pow2(i + 1), 0, p);
    BlockExpIs(p, Pow2(w) - 1 - p, i);
  }

  /** The bound is reached, in every width: all addresses but the first and the last. */
  lemma SplitCountTight(w: nat)
    requires 2 <= w
    ensures Pow2(w) >= 2 && |Split(w, 1, Pow2(w) - 2)| == 2 * w - 2
  {
    RisesTight(w, 0);
  }
}
