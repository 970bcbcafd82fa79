/** patricia_insert_range_v4 and patricia_insert_range_v6 (structure/patricia.c:609-762), line by
    line, against the greedy split over plain integers. */
module RangeSplit {
  import opened Machine
  import opened Bits
  import opened Words
  import opened Cidr

  /** What the range routines hand to patricia_insert: a network-order key and a prefix length. */
  datatype Prefix = Prefix(key: seq<byte>, len: nat)

  /** patricia_insert, as far as these routines see it: it refuses an empty or overlong prefix, and
      any call after the first `limit` (out of memory, or a bad protocol slot when `limit` is 0). */
  predicate Accepts(table: seq<Prefix>, limit: nat, bitLen: int) {
    0 < bitLen <= 128 && |table| < limit
  }

  function Prefixes(n: nat, bs: seq<Block>): seq<Prefix> {
    seq(|bs|, i requires 0 <= i < |bs| => Prefix(ToBytes(bs[i].addr, n), bs[i].len))
  }

  /** The outcome of inserting `all`, of which at most `limit` are accepted. */
  ghost predicate Inserted(rc: int, table: seq<Prefix>, all: seq<Prefix>, limit: nat) {
    if |all| <= limit then rc == 0 && table == all else rc == -1 && table == all[..limit]
  }

  /* ---- The block, in terms of bits ---- */

  lemma LowBitIsBlock(start: nat, span: nat)
    requires start > 0 && 0 < LowBit(start) <= span
    ensures Pow2(BlockExp(start, span)) == LowBit(start)
  {
    LowBitDivides(start);
    var n: nat :| LowBit(start) == Pow2(n);
    OddMultiple(start, Pow2(n));
    BlockExpIs(start, span, n);
  }

  lemma OddMultiple(x: nat, p: nat)
    requires p > 0 && x % p == 0 && (x / p) % 2 == 1
    ensures x % (2 * p) != 0
  {
    var q := x / p;
    assert x == q * p;
    var h := q / 2;
    assert q == 2 * h + 1;
    assert x == h * (2 * p) + p by { assert (2 * h + 1) * p == h * (2 * p) + p; }
    DivModUnique(x, 2 * p, h, p);
  }

  /** When the alignment is no limit, the block is the largest power of two in the span. */
  lemma FloorIsBlock(start: nat, span: nat, j: nat)
    requires Pow2(j) <= span < Pow2(j + 1)
    requires start > 0 ==> LowBit(start) > span
    ensures BlockExp(start, span) == j
  {
    if start > 0 {
      LowBitDivides(start);
      var n: nat :| LowBit(start) == Pow2(n);
      if n <= j {
        Pow2Monotone(n, j);
      }
      AlignedSmaller(start, j, n);
    }
    BlockExpIs(start, span, j);
  }

  /* ---- IPv4 ---- */

  /** Lines 617-624. */
  method BlockV4(start: nat, span: nat) returns (block: nat, ghost j: nat)
    requires start < WORD && 0 < span && start + span <= WORD
    ensures j == BlockExp(start, span) && block == Pow2(j) && j <= 32
  {
    hide And, LowBit, Pow2, BlockExp;
    Pow2Words();
    block := if start != 0 then And(start, (0 - start) % WORD) else WORD;
    if start != 0 {
      IsolateV4(start);
    }
    if block > span {
      block := 1;
      j := 0;
      PowerZero();
      while block <= span / 2
        invariant block == Pow2(j) <= span
        decreases span - block
      {
        block := 2 * block;
        j := j + 1;
        PowerStep(j);
      }
      PowerStep(j + 1);
      FloorIsBlock(start, span, j);
    } else if start == 0 {
      PowerStep(33);
      BlockExpIs(0, span, 32);
      j := 32;
    } else {
      LowBitIsBlock(start, span);
      j := BlockExp(start, span);
    }
    BlockFits(32, start, span);
  }

  /** `start & -start` on uint32 */
  lemma IsolateV4(start: nat)
    requires 0 < start < WORD
    ensures And(start, (0 - start) % WORD) == LowBit(start) > 0
  {
    hide And, LowBit, Pow2;
    Pow2Words();
    AndNegate(start, 32);
    DivModUnique(0 - start, WORD, -1, WORD - start);
  }

  /** Lines 626-632. */
  method ShiftV4(block: nat, ghost j: nat) returns (shift: nat)
    requires block == Pow2(j)
    ensures shift == j
  {
    var temp := block;
    shift := 0;
    while temp > 1
      invariant shift <= j && temp == Pow2(j - shift)
      decreases temp
    {
      temp := temp / 2;
      shift := shift + 1;
    }
    Pow2One(j - shift);
  }

  lemma Pow2One(i: nat)
    ensures Pow2(i) <= 1 ==> i == 0
  {
  }

  /** What is still to be inserted, as the split of the rest of the range. */
  function Rest(n: nat, w: nat, start: nat, span: nat): seq<Prefix>
    requires start + span <= Pow2(w)
  {
    Prefixes(n, Split(w, start, span))
  }

  lemma RestStep(n: nat, w: nat, start: nat, span: nat, j: nat)
    requires span > 0 && start + span <= Pow2(w) && j == BlockExp(start, span)
    ensures j <= w && Pow2(j) <= span && start + Pow2(j) <= Pow2(w) && (span < Pow2(w) ==> j < w)
    ensures Rest(n, w, start, span)
         == [Prefix(ToBytes(start, n), w - j)] + Rest(n, w, start + Pow2(j), span - Pow2(j))
  {
    BlockFits(w, start, span);
  }

  lemma RestNone(n: nat, w: nat, start: nat)
    requires start <= Pow2(w)
    ensures Rest(n, w, start, 0) == []
  {
  }

  /** A refused call leaves the prefixes accepted so far. */
  lemma StopsHere(table: seq<Prefix>, p: Prefix, rest: seq<Prefix>, limit: nat)
    requires |table| == limit
    ensures Inserted(-1, table, table + ([p] + rest), limit)
  {
  }

  lemma ExpOfSpace(w: nat)
    ensures BlockExp(0, Pow2(w)) == w
  {
    BlockExpIs(0, Pow2(w), w);
  }

  /** patricia_insert_range_v4. The prefixes inserted are the greedy split of the range, in order;
      the whole address space is refused, since its prefix length is 0. */
  method InsertRangeV4(startHost: nat, endHost: nat, limit: nat) returns (rc: int, table: seq<Prefix>)
    requires startHost < WORD && endHost < WORD
    ensures startHost > endHost ==> rc == -1 && table == []
    ensures startHost == 0 && endHost == WORD - 1 ==> rc == -1 && table == []
    ensures startHost <= endHost && endHost - startHost + 1 < WORD ==>
              endHost + 1 <= Pow2(32) && Inserted(rc, table, Rest(4, 32, startHost, endHost - startHost + 1), limit)
  {
    hide Pow2, BlockExp, Rest, Split, ToBytes;
    table := [];
    if startHost > endHost {
      return -1, table;
    }
    Pow2Words();
    ExpOfSpace(32);
    ghost var all := Rest(4, 32, startHost, endHost - startHost + 1);
    ghost var whole := endHost - startHost + 1 == WORD;
    var start := startHost;
    while start <= endHost
      invariant startHost <= start <= endHost
      invariant whole ==> start == startHost && table == []
      invariant |table| <= limit && all == table + Rest(4, 32, start, endHost - start + 1)
      decreases endHost - start
    {
      var span := endHost - start + 1;
      var block, j := BlockV4(start, span);
      var shift := ShiftV4(block, j);
      var bitLen := 32 - shift;
      RestStep(4, 32, start, span, j);
      ghost var p, rest := Prefix(ToBytes(start, 4), 32 - j), Rest(4, 32, start + block, span - block);
      if !Accepts(table, limit, bitLen) {
        if !whole {
          StopsHere(table, p, rest, limit);
        }
        return -1, table;
      }
      assert table + ([p] + rest) == (table + [p]) + rest;
      table := table + [Prefix(ToBytes(start, 4), bitLen)];
      if span == block {
        RestNone(4, 32, start + block);
        return 0, table;
      }
      start := (start + block) % WORD;
    }
    rc := 0;
  }

  /* ---- IPv6 ---- */

  /** Lines 661-667, for one address. */
  method LoadAddress(net: seq<byte>) returns (h: u64, l: u64)
    requires |net| == 16
    ensures Wide(h, l) == Value(net)
  {
    hide Pow2, PushByte;
    Pow2Words();
    h, l := 0, 0;
    var i := 0;
    while i < 8
      invariant 0 <= i <= 8 && h == Value(net[..i]) && l == Value(net[8..8 + i])
    {
      LoadStep(net, i);
      h := PushByte(h, net[i]);
      l := PushByte(l, net[i + 8]);
      i := i + 1;
    }
    assert net[..8] + net[8..16] == net;
    ValueAppend(net[..8], net[8..16]);
  }

  lemma LoadStep(net: seq<byte>, i: nat)
    requires |net| == 16 && i < 8
    ensures Value(net[..i]) * 0x100 < TWO64 && Value(net[8..8 + i]) * 0x100 < TWO64
    ensures PushByte(Value(net[..i]), net[i]) == Value(net[..i + 1])
    ensures PushByte(Value(net[8..8 + i]), net[i + 8]) == Value(net[8..8 + i + 1])
  {
    hide PushByte;
    PushStep(net[..i + 1]);
    PushStep(net[8..8 + i + 1]);
    assert net[..i + 1][..i] == net[..i];
    assert net[8..8 + i + 1][..i] == net[8..8 + i];
  }

  lemma PushStep(s: seq<byte>)
    requires 0 < |s| <= 8
    ensures Value(s[..|s| - 1]) * 0x100 < TWO64 && PushByte(Value(s[..|s| - 1]), s[|s| - 1]) == Value(s)
  {
    var f := s[..|s| - 1];
    ValueBound(f);
    Pow2Monotone(8 * |f|, 56);
    Pow2Add(56, 8);
    Pow2Words();
    PushByteIsAppend(Value(f), s[|s| - 1]);
  }

  /** Lines 742-747. */
  method StoreAddress(h: u64, l: u64) returns (key: seq<byte>)
    ensures key == ToBytes(Wide(h, l), 16)
  {
    hide ByteOf, ToBytes;
    ghost var want := ToBytes(Wide(h, l), 16);
    var bytes := new byte[16];
    var i := 0;
    while i < 8
      invariant 0 <= i <= 8 && bytes.Length == 16
      invariant bytes[..i] == want[..i] && bytes[8..8 + i] == want[8..8 + i]
    {
      WideBytes(h, l, i);
      bytes[i] := ByteOf(h, 7 - i);
      bytes[i + 8] := ByteOf(l, 7 - i);
      i := i + 1;
    }
    key := bytes[..];
    assert key == bytes[..8] + bytes[8..16];
    assert want == want[..8] + want[8..16];
  }

  /** Lines 704-719: the longest mask of low ones that does not exceed the difference. */
  method LargestMask(dh: u64, dl: u64) returns (mh: u64, ml: u64, ghost j: nat)
    requires Wide(dh, dl) < TWO128 - 1
    ensures Wide(mh, ml) == Pow2(j) - 1 <= Wide(dh, dl) && Wide(dh, dl) + 1 < Pow2(j + 1) && j < 128
  {
    hide Pow2, GrowMask, Compare128;
    Pow2Words();
    PowerZero();
    mh, ml, j := 0, 0, 0;
    while true
      invariant Wide(mh, ml) == Pow2(j) - 1 <= Wide(dh, dl)
      decreases Wide(dh, dl) - Wide(mh, ml)
    {
      MaskBits(j, Wide(dh, dl));
      PowerStep(j + 1);
      AllOnes();
      GrowMaskIsDouble(mh, ml);
      var (nh, nl) := GrowMask(mh, ml);
      Compare128IsOrder(nh, nl, dh, dl);
      if Compare128(nh, nl, dh, dl) <= 0 {
        mh, ml := nh, nl;
        j := j + 1;
        if mh == ONES64 && ml == ONES64 {
          assert false;
        }
      } else {
        return;
      }
    }
  }

  lemma AllOnes()
    ensures Wide(ONES64, ONES64) == TWO128 - 1
  {
  }

  lemma MaskBits(j: nat, d: nat)
    requires Pow2(j) - 1 <= d < TWO128 - 1
    ensures j < 128 && 2 * (Pow2(j) - 1) + 1 < TWO128
  {
    Pow2Words();
    if j >= 128 {
      Pow2Monotone(128, j);
    } else {
      Pow2Monotone(j + 1, 128);
    }
  }

  /** The block routine's answer: the mask is one less than the block, which is the greedy one. */
  ghost predicate IsBlock(start: nat, d: nat, bh: u64, bl: u64, mh: u64, ml: u64, j: nat) {
    j == BlockExp(start, d + 1) && Wide(bh, bl) == Pow2(j) && Wide(mh, ml) == Pow2(j) - 1
  }

  /** Lines 679-700: the block, and its mask, that the alignment of the start allows. */
  method AlignV6(sh: u64, sl: u64) returns (bh: u64, bl: u64, mh: u64, ml: u64)
    ensures Wide(sh, sl) > 0 ==> Wide(bh, bl) == LowBit(Wide(sh, sl)) == Wide(mh, ml) + 1
    ensures Wide(sh, sl) == 0 ==> Wide(mh, ml) == TWO128 - 1 && bh == 0 && bl == 0
  {
    hide Isolate64, Wide;
    bh, bl := 0, 0;
    if sl != 0 {
      bl := Isolate64(sl);
    } else if sh != 0 {
      bh := Isolate64(sh);
    }
    IsolatePositive(sh); IsolatePositive(sl);
    if bl != 0 {
      mh, ml := 0, bl - 1;
    } else if bh != 0 {
      mh, ml := bh - 1, ONES64;
    } else {
      mh, ml := ONES64, ONES64;
    }
    AlignmentBlock(sh, sl, bh, bl, mh, ml);
    WideZero(sh, sl);
  }

  lemma IsolatePositive(x: u64)
    ensures x > 0 ==> Isolate64(x) > 0
  {
    if x > 0 {
      Isolate64IsLowBit(x);
    }
  }

  lemma WideZero(h: u64, l: u64)
    ensures Wide(h, l) == 0 <==> h == 0 && l == 0
  {
  }

  /** Lines 679-730. Only for the whole address space does the block wrap around to zero. */
  method BlockV6(sh: u64, sl: u64, dh: u64, dl: u64) returns (bh: u64, bl: u64, mh: u64, ml: u64, ghost j: nat)
    requires Wide(sh, sl) + Wide(dh, dl) < TWO128
    ensures Wide(dh, dl) == TWO128 - 1 ==> bh == 0 && bl == 0 && mh == dh && ml == dl
    ensures Wide(dh, dl) < TWO128 - 1 ==> IsBlock(Wide(sh, sl), Wide(dh, dl), bh, bl, mh, ml, j)
  {
    hide Wide, LowBit, BlockExp, Pow2;
    j := 0;
    bh, bl, mh, ml := AlignV6(sh, sl);
    Compare128IsOrder(mh, ml, dh, dl);
    Compare128IsOrder(dh, dl, mh, ml);
    WideParts(dh, dl);
    if Compare128(mh, ml, dh, dl) > 0 {
      WideParts(mh, ml);
      mh, ml, j := LargestMask(dh, dl);
      if ml == ONES64 {
        bl, bh := 0, Add64(mh, 1);
      } else {
        bl, bh := ml + 1, mh;
      }
      MaskBlock(mh, ml, bh, bl, j);
      FloorIsBlock(Wide(sh, sl), Wide(dh, dl) + 1, j);
    } else if Wide(dh, dl) < TWO128 - 1 {
      AlignedBlockExact(Wide(sh, sl), Wide(dh, dl), Wide(bh, bl));
      j := BlockExp(Wide(sh, sl), Wide(dh, dl) + 1);
    }
  }

  /** The block and the mask that the alignment of the start allows. */
  lemma AlignmentBlock(sh: u64, sl: u64, bh: u64, bl: u64, mh: u64, ml: u64)
    requires if sl != 0 then bl == Isolate64(sl) && bh == 0 && mh == 0 && bl > 0 && ml == bl - 1
             else if sh != 0 then bl == 0 && bh == Isolate64(sh) && bh > 0 && mh == bh - 1 && ml == ONES64
             else bl == 0 && bh == 0 && mh == ONES64 && ml == ONES64
    ensures Wide(sh, sl) > 0 ==> Wide(bh, bl) == LowBit(Wide(sh, sl)) == Wide(mh, ml) + 1
    ensures Wide(sh, sl) == 0 ==> Wide(mh, ml) == TWO128 - 1
  {
    hide Isolate64, Pow2, LowBit;
    Pow2Words();
    if sl != 0 {
      Isolate64IsLowBit(sl);
      LowBitLow(sh, sl, 64);
    } else if sh != 0 {
      Isolate64IsLowBit(sh);
      LowBitHigh(sh, 64);
    } else {
      AllOnes();
    }
  }

  lemma MaskBlock(mh: u64, ml: u64, bh: u64, bl: u64, j: nat)
    requires Wide(mh, ml) == Pow2(j) - 1 && j < 128
    requires if ml == ONES64 then bl == 0 && bh == Add64(mh, 1) else bl == ml + 1 && bh == mh
    ensures Wide(bh, bl) == Pow2(j)
  {
    hide Pow2;
    Pow2Words();
    Pow2Monotone(j, 128);
    if ml == ONES64 {
      DivModUnique(mh + 1, TWO64, 0, mh + 1);
    }
  }

  lemma AlignedBlockExact(start: nat, d: nat, block: nat)
    requires start > 0 && block == LowBit(start) && block - 1 <= d
    ensures Pow2(BlockExp(start, d + 1)) == block
  {
    LowBitIsBlock(start, d + 1);
  }

  /** Lines 732-740. */
  method ShiftV6(bh: u64, bl: u64, ghost j: nat) returns (shift: nat)
    requires Wide(bh, bl) == Pow2(j) || (Wide(bh, bl) == 0 && j == 0)
    ensures shift == j
  {
    hide Halve, Wide;
    var th, tl := bh, bl;
    shift := 0;
    Compare128IsOrder(th, tl, 0, 1);
    WideOne();
    while Compare128(th, tl, 0, 1) > 0
      invariant shift <= j && (Wide(th, tl) == Pow2(j - shift) || (Wide(th, tl) == 0 && j == 0))
      invariant Compare128(th, tl, 0, 1) > 0 <==> Wide(th, tl) > 1
      decreases j - shift
    {
      HalveIsDiv(th, tl);
      var half := Halve(th, tl);
      th, tl := half.0, half.1;
      shift := shift + 1;
      Compare128IsOrder(th, tl, 0, 1);
    }
    Pow2One(j - shift);
  }

  lemma WideOne()
    ensures Wide(0, 1) == 1
  {
  }

  /** patricia_insert_range_v6. The two-word code inserts the greedy split over plain integers, for
      every range but one: for :: to all ones the block wraps to zero, and the routine reports
      success after inserting the single address ::/128. */
  method InsertRangeV6(startNet: seq<byte>, endNet: seq<byte>, limit: nat) returns (rc: int, table: seq<Prefix>)
    requires |startNet| == 16 && |endNet| == 16
    ensures Value(startNet) > Value(endNet) ==> rc == -1 && table == []
    ensures Value(startNet) == 0 && Value(endNet) == TWO128 - 1 ==>
              Inserted(rc, table, [Prefix(ToBytes(0, 16), 128)], limit)
    ensures Value(startNet) <= Value(endNet) && Value(endNet) - Value(startNet) < TWO128 - 1 ==>
              Value(endNet) + 1 <= Pow2(128)
              && Inserted(rc, table, Rest(16, 128, Value(startNet), Value(endNet) - Value(startNet) + 1), limit)
  {
    hide Pow2, BlockExp, Rest, Split, ToBytes, Value, Wide, Diff128, Sum128, IsBlock;
    table := [];
    var sh, sl := LoadAddress(startNet);
    var eh, el := LoadAddress(endNet);
    Compare128IsOrder(sh, sl, eh, el);
    WideParts(sh, sl); WideParts(eh, el);
    Pow2Words();
    if Compare128(sh, sl, eh, el) > 0 {
      return -1, table;
    }
    ghost var stop := Wide(eh, el) + 1;
    ghost var whole := Wide(eh, el) - Wide(sh, sl) == TWO128 - 1;
    ghost var all := Rest(16, 128, Wide(sh, sl), stop - Wide(sh, sl));
    while Compare128(sh, sl, eh, el) <= 0
      invariant Wide(sh, sl) < stop && Compare128(sh, sl, eh, el) <= 0
      invariant whole ==> table == [] && Wide(eh, el) - Wide(sh, sl) == TWO128 - 1
      invariant !whole ==> Wide(eh, el) - Wide(sh, sl) < TWO128 - 1
      invariant |table| <= limit && all == table + Rest(16, 128, Wide(sh, sl), stop - Wide(sh, sl))
      decreases stop - Wide(sh, sl)
    {
      Diff128IsSub(eh, el, sh, sl);
      var diff := Diff128(eh, el, sh, sl);
      var bh, bl, mh, ml, j := BlockV6(sh, sl, diff.0, diff.1);
      BlockFacts(Wide(sh, sl), Wide(diff.0, diff.1), bh, bl, mh, ml, j);
      SameWide(mh, ml, diff.0, diff.1);
      if !whole {
        RestStep(16, 128, Wide(sh, sl), stop - Wide(sh, sl), j);
      }
      var shift := ShiftV6(bh, bl, if whole then 0 else j);
      var bitLen := 128 - shift;
      var key := StoreAddress(sh, sl);
      if !Accepts(table, limit, bitLen) {
        if !whole {
          StopsHere(table, Prefix(key, bitLen),
                    Rest(16, 128, Wide(sh, sl) + Pow2(j), stop - Wide(sh, sl) - Pow2(j)), limit);
        } else {
          WideZero(sh, sl);
          StopsHere([], Prefix(key, 128), [], limit);
        }
        return -1, table;
      }
      ghost var before := table;
      table := table + [Prefix(key, bitLen)];
      if mh == diff.0 && ml == diff.1 {
        if !whole {
          RestNone(16, 128, stop);
        }
        return 0, table;
      }
      assert before + ([Prefix(key, bitLen)] + Rest(16, 128, Wide(sh, sl) + Pow2(j), stop - Wide(sh, sl) - Pow2(j)))
          == table + Rest(16, 128, Wide(sh, sl) + Pow2(j), stop - Wide(sh, sl) - Pow2(j));
      Sum128IsAdd(sh, sl, bh, bl);
      var sum := Sum128(sh, sl, bh, bl);
      sh, sl := sum.0, sum.1;
      Compare128IsOrder(sh, sl, eh, el);
      WideParts(sh, sl);
    }
    rc := 0;
  }

  lemma SameWide(ah: u64, al: u64, bh: u64, bl: u64)
    ensures Wide(ah, al) == Wide(bh, bl) <==> ah == bh && al == bl
  {
    WideParts(ah, al);
    WideParts(bh, bl);
  }

  lemma BlockFacts(start: nat, d: nat, bh: u64, bl: u64, mh: u64, ml: u64, j: nat)
    requires d < TWO128 - 1 ==> IsBlock(start, d, bh, bl, mh, ml, j)
    requires d == TWO128 - 1 ==> bh == 0 && bl == 0
    ensures d < TWO128 - 1 ==> j == BlockExp(start, d + 1) && Wide(bh, bl) == Pow2(j) && Wide(mh, ml) == Pow2(j) - 1
    ensures d == TWO128 - 1 ==> Wide(bh, bl) == 0
  {
    hide BlockExp, Pow2;
  }

  /* ---- Exactly which ranges are inserted as they are ---- */

  /** The blocks InsertRangeV6 inserts when no call is refused. */
  function EmittedV6(start: nat, span: nat): seq<Block>
    requires start + span <= Pow2(128)
  {
    if span == Pow2(128) then [Block(0, 128)] else Split(128, start, span)
  }

  /** Some block of the list holds the address. */
  predicate Hit(w: nat, bs: seq<Block>, a: nat) {
    exists b <- bs :: b.len <= w && In(w, b, a)
  }

  /** The addresses covered by what InsertRangeV6 inserts are those of the range if and only if the
      range is not the whole address space. */
  lemma V6CoversExactly(start: nat, span: nat)
    requires 0 < span && start + span <= Pow2(128)
    ensures (forall a: nat :: Hit(128, EmittedV6(start, span), a) <==> start <= a < start + span)
            <==> span < Pow2(128)
  {
    hide Pow2, Split;
    var bs := EmittedV6(start, span);
    if span < Pow2(128) {
      forall a: nat ensures Hit(128, bs, a) <==> start <= a < start + span {
        SplitCovers(128, start, span, a);
      }
    } else {
      Pow2Words();
      OneAddress();
      assert !Hit(128, bs, 1);
    }
  }

  lemma OneAddress()
    ensures Size(128, Block(0, 128)) == 1
  {
  }

  /** InsertRangeV4 inserts a range, rather than refusing it, if and only if it is not the whole
      address space: only there does the first block have prefix length 0. */
  lemma V4FirstLength(start: nat, span: nat)
    requires 0 < span && start + span <= Pow2(32)
    ensures Split(32, start, span)[0].len == 0 <==> span == Pow2(32)
  {
    hide Pow2, BlockExp, Rest;
    RestStep(4, 32, start, span, BlockExp(start, span));
    ExpOfSpace(32);
    assert span == Pow2(32) ==> start == 0;
  }
}
