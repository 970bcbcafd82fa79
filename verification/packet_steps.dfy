/** Lemmas about the states that the methods of coding/packet.c pass through. */
module PacketSteps {
  import opened Options
  import opened Machine
  import opened Sets
  import opened PacketHeap

  lemma NewAddresses(h: Heap, l: Layout)
    requires Inv(h, l, {})
    ensures forall x: Id :: h.unused <= x ==> x !in h.mbufs && x !in h.bufs
  {
  }

  lemma AddedAndTaken(t: map<Id, seq<byte>>, p: Id, m: Id)
    requires p in t && m !in t
    ensures (t[m := []] - {m})[p := t[m := []][p] + t[m := []][m]] == t
  {
    assert t[p] + [] == t[p];
  }

  function Last(fs: seq<Id>): Id {
    if fs == [] then 0 else fs[|fs| - 1]
  }

  lemma InvCounted(h: Heap, l: Layout, d: set<Id>)
    requires Inv(h, l, d)
    ensures Counted(h)
    ensures forall m <- h.mbufs :: InBuffer(h, h.mbufs[m])
  {
  }

  lemma PacketNames(h: Heap, l: Layout)
    ensures forall p :: p in Text(h, l) <==> p in l.chains
  {
  }

  lemma OnlyViewer(h: Heap, m: Id)
    requires Counted(h) && m in h.mbufs && h.mbufs[m].sh in h.bufs && h.bufs[h.mbufs[m].sh].refcnt == 1
    ensures Viewers(h, h.mbufs[m].sh) == {m}
  {
    assert m in Viewers(h, h.mbufs[m].sh);
    OnlyMember(Viewers(h, h.mbufs[m].sh), m);
  }

  lemma UnshareOnly(h: Heap, l: Layout, m: Id)
    requires Inv(h, l, {}) && m in h.mbufs && h.mbufs[m].sh in h.bufs
    ensures Viewers(Unshare(h, m), h.unused) == {m}
  {
    NoViewers(h, h.unused);
    UnshareViewers(h, m);
  }

  lemma WriteText(h: Heap, l: Layout, d: set<Id>, p: Id, bytes: seq<byte>)
    requires Inv(h, l, d) && p in l.chains && l.chains[p] != [] && Last(l.chains[p]) in h.mbufs
    requires var m := Last(l.chains[p]);
             && h.mbufs[m].sh in h.bufs && h.bufs[h.mbufs[m].sh].refcnt == 1 && 0 <= h.mbufs[m].tail
             && h.mbufs[m].tail + |bytes| <= |h.bufs[h.mbufs[m].sh].bytes|
    ensures p in Text(h, l)
    ensures Text(Write(h, Last(l.chains[p]), bytes), l) == Text(h, l)[p := Text(h, l)[p] + bytes]
  {
    hide Inv, Chained, Counted, View, Content, Write;
    var fs := l.chains[p];
    var i, h' := |fs| - 1, Write(h, Last(fs), bytes);
    WriteKeeps(h, l, d, Last(fs), bytes);
    OneViewText(h, h', l, d, p, i);
    ContentStep(h, fs, i);
    assert fs[..i + 1] == fs && fs[i + 1..] == [];
    ContentSame(h, h', []);
    EmptyContent(h);
    var a, b := Content(h, fs[..i]), View(h, fs[i]);
    assert a + (b + bytes) + [] == (a + b) + bytes;
  }

  lemma EmptyContent(h: Heap)
    ensures Content(h, []) == []
  {
  }

  lemma LastRoom(h: Heap, l: Layout, p: Id)
    requires Inv(h, l, {}) && p in l.chains
    ensures Tailroom(h, Last(l.chains[p])) >= 0
  {
    LastLive(h, l, p);
  }

  lemma LastLive(h: Heap, l: Layout, p: Id)
    requires Inv(h, l, {}) && p in l.chains
    ensures Last(l.chains[p]) in h.mbufs && InBuffer(h, h.mbufs[Last(l.chains[p])])
  {
    ChainFacts(h, l, {}, p);
  }

  function First(gs: seq<Id>): Option<Id> {
    if gs == [] then None else Some(gs[0])
  }

  /** The live views `gs`, linked one behind the other, belong to no packet of the layout. */
  ghost predicate Loose(h: Heap, l: Layout, gs: seq<Id>) {
    && Inv(h, l, SetOf(gs))
    && (forall i, j :: 0 <= i < j < |gs| ==> gs[i] != gs[j]) && Linked(h, gs)
  }

  ghost predicate Linked(h: Heap, gs: seq<Id>) {
    forall i :: 0 <= i < |gs| ==> gs[i] in h.mbufs && h.mbufs[gs[i]].next == NextIn(gs, i)
  }

  lemma MinusOneMore(a: map<Id, Mbuf>, s: set<Id>, x: Id)
    ensures a - s - {x} == a - (s + {x})
  {
  }

  lemma NoneLeft(gs: seq<Id>)
    ensures gs[0..] == gs && SetOf(gs[..0]) == {}
  {
  }

  lemma OneMore(gs: seq<Id>, k: nat)
    requires k < |gs| && forall i, j :: 0 <= i < j < |gs| ==> gs[i] != gs[j]
    ensures gs[k] in SetOf(gs[k..]) && SetOf(gs[k..]) - {gs[k]} == SetOf(gs[k + 1..])
    ensures SetOf(gs[..k + 1]) == SetOf(gs[..k]) + {gs[k]} && gs[k] !in SetOf(gs[..k])
  {
    assert gs[k..] == [gs[k]] + gs[k + 1..];
    assert gs[..k + 1] == gs[..k] + [gs[k]];
  }

  lemma AllDone(gs: seq<Id>, k: nat)
    requires k <= |gs| && First(gs[k..]) == None
    ensures gs[..k] == gs && SetOf(gs[k..]) == {}
  {
  }

  lemma LooseNext(h: Heap, h0: Heap, l: Layout, gs: seq<Id>, k: nat)
    requires Loose(h0, l, gs) && k < |gs| && Inv(h, l, SetOf(gs[k..]))
    requires h.mbufs == h0.mbufs - SetOf(gs[..k])
    ensures First(gs[k..]) == Some(gs[k]) && gs[k] in h.mbufs && h.mbufs[gs[k]].sh in h.bufs
    ensures h.mbufs[gs[k]].next == First(gs[k + 1..])
  {
    OneMore(gs, k);
    assert h.mbufs[gs[k]] == h0.mbufs[gs[k]];
    assert InBuffer(h, h.mbufs[gs[k]]);
  }

  lemma DetachLoose(h: Heap, l: Layout, p: Id)
    requires Inv(h, l, {}) && p in l.chains
    ensures var l' := l.(chains := l.chains - {p});
            && Loose(h, l', l.chains[p]) && Text(h, l') == Text(h, l) - {p} && First(l.chains[p]) == Some(p)
            && forall q <- l'.chains :: q !in SetOf(l.chains[p])
  {
    hide Inv, Chained, Counted;
    DetachKeeps(h, l, p);
    ChainLinks(h, l, {}, p);
    ChainFacts(h, l, {}, p);
    forall q | q in l.chains && q != p ensures q !in SetOf(l.chains[p]) {
      ChainFacts(h, l, {}, q);
      assert l.place[l.chains[q][0]] == (q, 0);
    }
  }

  lemma HeadsLive(h: Heap, l: Layout)
    requires Inv(h, l, {})
    ensures forall p <- Text(h, l) :: p in l.chains && p in h.mbufs
  {
    forall p | p in l.chains ensures p in h.mbufs {
      ChainFacts(h, l, {}, p);
    }
  }

  /* ---- Cloning ---- */

  /** The heap with one more view of the buffer that `src` looks at. */
  function Share(h: Heap, src: Id): Heap
    requires src in h.mbufs && h.mbufs[src].sh in h.bufs
  {
    var v := h.mbufs[src].(next := None);
    var b := h.bufs[v.sh];
    AddMbuf(h, h.unused, v, b.(refcnt := b.refcnt + 1))
  }

  /** View by view, `ds` looks at the very buffers, and the same part of them, that `fs` looked at. */
  predicate Shares(h: Heap, h': Heap, fs: seq<Id>, ds: seq<Id>) {
    && |ds| <= |fs|
    && forall j :: 0 <= j < |ds| ==>
         && ds[j] in h'.mbufs && fs[j] in h.mbufs
         && h'.mbufs[ds[j]].sh == h.mbufs[fs[j]].sh
         && h'.mbufs[ds[j]].data == h.mbufs[fs[j]].data && h'.mbufs[ds[j]].tail == h.mbufs[fs[j]].tail
  }

  /** The views and buffers of `h`, with only the views `ds` added. */
  ghost predicate OnlyAdded(h: Heap, h': Heap, ds: seq<Id>) {
    && h'.mbufs - SetOf(ds) == h.mbufs
    && forall s <- h'.bufs :: s in h.bufs && h'.bufs[s].bytes == h.bufs[s].bytes
  }

  /** The packets of `l`, and besides them `n`, of `i` views. */
  ghost predicate OnePacketMore(l: Layout, l': Layout, n: Id, i: nat) {
    n !in l.chains && n in l'.chains && |l'.chains[n]| == i && l'.chains - {n} == l.chains
  }

  /** Their bytes: those of `h`, and for `n` those of the first `i` views of `p`. */
  ghost predicate TextSoFar(h: Heap, l: Layout, h': Heap, l': Layout, p: Id, n: Id, i: nat) {
    && p in l.chains && i <= |l.chains[p]|
    && Text(h', l') == Text(h, l)[n := Content(h, l.chains[p][..i])]
  }

  ghost predicate LenCopied(h: Heap, h': Heap, p: Id, n: Id) {
    n in h'.mbufs && p in h.mbufs && h'.mbufs[n].pktLen == h.mbufs[p].pktLen
  }

  /** The first `i` views of packet `p` of `h` have been cloned into the packet `n` of `h'`. */
  ghost predicate Cloning(h: Heap, l: Layout, h': Heap, l': Layout, p: Id, n: Id, i: nat) {
    && Inv(h, l, {}) && AllSized(h, l, None) && p in l.chains && i <= |l.chains[p]|
    && Inv(h', l', {}) && AllSized(h', l', Some(n)) && n in l'.chains
    && OnePacketMore(l, l', n, i) && TextSoFar(h, l, h', l', p, n, i)
    && OnlyAdded(h, h', l'.chains[n]) && Shares(h, h', l.chains[p], l'.chains[n]) && LenCopied(h, h', p, n)
  }

  lemma CloneStarts(h: Heap, l: Layout, p: Id)
    requires Inv(h, l, {}) && AllSized(h, l, None) && p in l.chains && p in h.mbufs && h.mbufs[p].sh in h.bufs
    ensures var n, h', l' := h.unused, Share(h, p), AddChain(l, h.unused);
            && Cloning(h, l, h', l', p, n, 1) && n in l'.chains && Last(l'.chains[n]) == n
            && p in h'.mbufs && h'.mbufs[p].next == First(l.chains[p][1..])
  {
    hide Chained, Counted, Bounded, Text, Content, View;
    var n, h', l' := h.unused, Share(h, p), AddChain(l, h.unused);
    var fs := l.chains[p];
    ChainLinks(h, l, {}, p);
    ChainFacts(h, l, {}, p);
    NewAddresses(h, l);
    ShareKeeps(h, l, {}, p);
    ShareText(h, l, p);
    PacketNames(h, l);
    assert fs[..1] == [p];
    ContentOne(h, p);
    assert h'.mbufs - SetOf([n]) == h.mbufs;
  }

  lemma ShareText(h: Heap, l: Layout, src: Id)
    requires Inv(h, l, {}) && src in h.mbufs
    ensures h.mbufs[src].sh in h.bufs && h.unused !in l.chains && h.unused !in Text(h, l)
    ensures Text(Share(h, src), AddChain(l, h.unused)) == Text(h, l)[h.unused := View(h, src)]
  {
    hide Chained, Text;
    assert InBuffer(h, h.mbufs[src]);
    var v := h.mbufs[src].(next := None);
    var b := h.bufs[v.sh];
    AddText(h, l, {}, h.unused, v, b.(refcnt := b.refcnt + 1));
  }

  lemma SourceKept(h: Heap, l: Layout, h': Heap, l': Layout, p: Id, n: Id, i: nat)
    requires Cloning(h, l, h', l', p, n, i) && i < |l.chains[p]|
    ensures var m := l.chains[p][i];
            && First(l.chains[p][i..]) == Some(m) && m in h.mbufs && m in h'.mbufs && h'.mbufs[m] == h.mbufs[m]
            && Inv(h', l', {}) && View(h', m) == View(h, m) && m !in SetOf(l'.chains[n])
            && h'.unused !in l'.chains
  {
    NewAddresses(h', l');
    forall q | q in l'.chains ensures q in h'.mbufs {
      ChainFacts(h', l', {}, q);
    }
    hide Chained, Text;
    var m := l.chains[p][i];
    ChainFacts(h, l, {}, p);
    assert m in h'.mbufs && h'.mbufs[m] == h.mbufs[m];
    assert InBuffer(h', h'.mbufs[m]);
  }

  lemma CloneStep(h: Heap, l: Layout, h1: Heap, l1: Layout, p: Id, n: Id, i: nat)
    requires Cloning(h, l, h1, l1, p, n, i) && 0 < i < |l.chains[p]|
    requires l.chains[p][i] in h1.mbufs && h1.mbufs[l.chains[p][i]].sh in h1.bufs
    ensures var src, m, last := l.chains[p][i], h1.unused, Last(l1.chains[n]);
            var h2, l2 := Share(h1, src), AddChain(l1, m);
            && last in h2.mbufs && n in l2.chains
            && var h3, l3 := LinkMbuf(h2, last, m), LinkChain(l2, n, m);
               && Cloning(h, l, h3, l3, p, n, i + 1) && n in l3.chains && Last(l3.chains[n]) == m
               && src in h3.mbufs && h3.mbufs[src].next == First(l.chains[p][i + 1..])
  {
    hide Inv, AllSized, OnlyAdded, OnePacketMore, TextSoFar, LenCopied, Shares, Share, LinkMbuf, AddChain, LinkChain;
    var src, m, last := l.chains[p][i], h1.unused, Last(l1.chains[n]);
    var h2, l2 := Share(h1, src), AddChain(l1, m);
    SourceKept(h, l, h1, l1, p, n, i);
    StepPlaces(h1, l1, n, src);
    StepLayout(l, l1, n, m, i);
    var h3, l3 := LinkMbuf(h2, last, m), LinkChain(l2, n, m);
    StepText(h, l, h1, l1, p, n, i);
    StepSized(h, l, h1, l1, p, n, i, src, h3, l3);
    StepAdded(h, h1, l.chains[p], l1.chains[n], src);
    NextSource(h, l, h1, p, i, last);
  }

  lemma StepLayout(l: Layout, l1: Layout, n: Id, m: Id, i: nat)
    requires OnePacketMore(l, l1, n, i) && m !in l1.chains
    ensures n in AddChain(l1, m).chains
    ensures var l3 := LinkChain(AddChain(l1, m), n, m);
            OnePacketMore(l, l3, n, i + 1) && l3.chains[n] == l1.chains[n] + [m] && Last(l3.chains[n]) == m
  {
  }

  lemma NextSource(h: Heap, l: Layout, h1: Heap, p: Id, i: nat, last: Id)
    requires Inv(h, l, {}) && p in l.chains && i < |l.chains[p]|
    requires var src := l.chains[p][i];
             && src in h.mbufs && src in h1.mbufs && h1.mbufs[src] == h.mbufs[src] && h1.mbufs[src].sh in h1.bufs
             && last in h1.mbufs && last != src && h1.unused !in h1.mbufs
    ensures var src := l.chains[p][i];
            var h3 := LinkMbuf(Share(h1, src), last, h1.unused);
            src in h3.mbufs && h3.mbufs[src].next == First(l.chains[p][i + 1..])
  {
    ChainLinks(h, l, {}, p);
    ChainFacts(h, l, {}, p);
  }

  /** The shape after one more view has been cloned and linked. */
  lemma StepPlaces(h1: Heap, l1: Layout, n: Id, src: Id)
    requires Inv(h1, l1, {}) && n in l1.chains && src in h1.mbufs && h1.mbufs[src].sh in h1.bufs
    ensures var m, last := h1.unused, Last(l1.chains[n]);
            var h2, l2 := Share(h1, src), AddChain(l1, m);
            && m != n && m !in l1.chains && m !in h1.mbufs
            && last in h1.mbufs && last in h2.mbufs && l1.chains[n] != [] && l1.chains[n][|l1.chains[n]| - 1] == last
            && Inv(LinkMbuf(h2, last, m), LinkChain(l2, n, m), {}) && m in l2.chains && l2.chains[m] == [m]
  {
    hide Chained, Counted, Bounded;
    var m := h1.unused;
    NewAddresses(h1, l1);
    ChainFacts(h1, l1, {}, n);
    ShareText(h1, l1, src);
    ShareKeeps(h1, l1, {}, src);
    LinkKeeps(Share(h1, src), AddChain(l1, m), {}, n, m);
  }

  lemma StepText(h: Heap, l: Layout, h1: Heap, l1: Layout, p: Id, n: Id, i: nat)
    requires Inv(h1, l1, {}) && p in l.chains && n in l1.chains && 0 < i < |l.chains[p]|
    requires l.chains[p][i] in h1.mbufs && View(h1, l.chains[p][i]) == View(h, l.chains[p][i])
    requires TextSoFar(h, l, h1, l1, p, n, i)
    ensures h1.mbufs[l.chains[p][i]].sh in h1.bufs && Last(l1.chains[n]) in h1.mbufs
    ensures var src, m, last := l.chains[p][i], h1.unused, Last(l1.chains[n]);
            var h2, l2 := Share(h1, src), AddChain(l1, m);
            n in l2.chains && TextSoFar(h, l, LinkMbuf(h2, last, m), LinkChain(l2, n, m), p, n, i + 1)
  {
    hide Inv, View, Content, Text;
    var src, m, last := l.chains[p][i], h1.unused, Last(l1.chains[n]);
    InvCounted(h1, l1, {});
    StepPlaces(h1, l1, n, src);
    ShareText(h1, l1, src);
    var h2, l2 := Share(h1, src), AddChain(l1, m);
    LinkText(h2, l2, n, m);
    ContentStep(h, l.chains[p], i);
    var a, b := Content(h, l.chains[p][..i]), View(h, src);
    TakenTogether(Text(h, l), n, m, a, b);
  }

  lemma TakenTogether(t: map<Id, seq<byte>>, n: Id, m: Id, a: seq<byte>, b: seq<byte>)
    requires n != m && m !in t[n := a]
    ensures (t[n := a][m := b] - {m})[n := a + b] == t[n := a + b]
  {
  }

  lemma StepSized(h: Heap, l: Layout, h1: Heap, l1: Layout, p: Id, n: Id, i: nat, src: Id, h3: Heap, l3: Layout)
    requires Inv(h1, l1, {}) && AllSized(h1, l1, Some(n)) && n in l1.chains
    requires src in h1.mbufs && h1.mbufs[src].sh in h1.bufs
    requires Last(l1.chains[n]) in h1.mbufs && h3 == LinkMbuf(Share(h1, src), Last(l1.chains[n]), h1.unused)
    requires LenCopied(h, h1, p, n)
    requires TextSoFar(h, l, h1, l1, p, n, i) && TextSoFar(h, l, h3, l3, p, n, i + 1)
    ensures AllSized(h3, l3, Some(n)) && LenCopied(h, h3, p, n)
  {
    hide Inv, Text;
    NewAddresses(h1, l1);
    forall q | q in Text(h3, l3) && q != n ensures Sized(h3, l3, q) {
      assert Sized(h1, l1, q);
    }
  }

  lemma StepAdded(h: Heap, h1: Heap, fs: seq<Id>, ds: seq<Id>, src: Id)
    requires OnlyAdded(h, h1, ds) && Shares(h, h1, fs, ds) && 0 < |ds| < |fs| && src == fs[|ds|]
    requires src in h.mbufs && src in h1.mbufs && h1.mbufs[src] == h.mbufs[src] && h1.mbufs[src].sh in h1.bufs
    requires Last(ds) in h1.mbufs && h1.unused !in h1.mbufs
    ensures var h3 := LinkMbuf(Share(h1, src), Last(ds), h1.unused);
            OnlyAdded(h, h3, ds + [h1.unused]) && Shares(h, h3, fs, ds + [h1.unused])
  {
    var m, last := h1.unused, Last(ds);
    var h3 := LinkMbuf(Share(h1, src), last, m);
    assert SetOf(ds + [m]) == SetOf(ds) + {m};
    assert last in SetOf(ds);
    assert h3.mbufs - SetOf(ds + [m]) == h.mbufs;
  }

  lemma CloneDetach(h: Heap, l: Layout, h': Heap, l': Layout, p: Id, n: Id, i: nat)
    requires Cloning(h, l, h', l', p, n, i)
    ensures var l1 := l'.(chains := l'.chains - {n});
            && Loose(h', l1, l'.chains[n]) && First(l'.chains[n]) == Some(n) && Text(h', l1) == Text(h, l)
            && h'.mbufs - SetOf(l'.chains[n]) == h.mbufs && l1.chains == l.chains
            && forall s <- h'.bufs :: s in h.bufs && h'.bufs[s].bytes == h.bufs[s].bytes
  {
    hide Inv, Text, Loose;
    DetachLoose(h', l', n);
    PacketNames(h, l);
  }

  lemma CloneUndone(h: Heap, l: Layout, h': Heap, l': Layout)
    requires Inv(h, l, {}) && AllSized(h, l, None) && Inv(h', l', {}) && Text(h', l') == Text(h, l)
    requires h'.mbufs == h.mbufs && forall s <- h'.bufs :: s in h.bufs && h'.bufs[s].bytes == h.bufs[s].bytes
    ensures h'.bufs == h.bufs && AllSized(h', l', None)
  {
    hide Chained, Text;
    CountsDetermined(h, h');
    forall q | q in Text(h', l') ensures Sized(h', l', q) {
      assert Sized(h, l, q);
    }
  }

  lemma CloneEnds(h: Heap, l: Layout, h': Heap, l': Layout, p: Id, n: Id, i: nat)
    requires Cloning(h, l, h', l', p, n, i) && First(l.chains[p][i..]) == None
    ensures i == |l.chains[p]| && p in Text(h, l) && n !in Text(h, l) && Inv(h', l', {}) && n in l'.chains
    ensures Text(h', l') == Text(h, l)[n := Text(h, l)[p]] && AllSized(h', l', None)
    ensures Shares(h, h', l.chains[p], l'.chains[n]) && l'.chains - {n} == l.chains
  {
    assert l.chains[p][..i] == l.chains[p];
    assert Text(h, l)[p] == Content(h, l.chains[p]);
    hide Inv, Text, Content, Shares, OnlyAdded;
    PacketNames(h, l);
    forall q | q in Text(h', l') ensures Sized(h', l', q) {
      if q == n {
        assert Sized(h, l, p);
      }
    }
  }

  /* ---- Reading ---- */

  /** At most `len` bytes of `c` from `offset` on. */
  function Range(c: seq<byte>, offset: nat, len: int): seq<byte> {
    if len <= 0 || |c| <= offset then []
    else c[offset..if offset + len <= |c| then offset + len else |c|]
  }

  /** `out` is what `c` holds from `offset` on. */
  predicate Copied(c: seq<byte>, offset: nat, out: seq<byte>) {
    offset + |out| <= |c| && out == c[offset..offset + |out|]
  }

  lemma RangeNone(c: seq<byte>, offset: nat, len: int)
    ensures |c| <= offset || len <= 0 ==> Range(c, offset, len) == []
    ensures offset <= |c| ==> Copied(c, offset, [])
  {
  }

  lemma FirstNext(fs: seq<Id>, i: nat)
    requires i <= |fs|
    ensures First(fs[i..]).Some? <==> i < |fs|
    ensures i < |fs| ==> First(fs[i..]) == Some(fs[i]) && NextIn(fs, i) == First(fs[i + 1..])
  {
  }

  lemma FirstNone(fs: seq<Id>, i: nat)
    requires i <= |fs|
    ensures First(fs[i..]) == None ==> fs[..i] == fs
  {
  }

  lemma CopiedBound(c: seq<byte>, offset: nat, out: seq<byte>)
    requires Copied(c, offset, out)
    ensures offset + |out| <= |c|
  {
  }

  lemma RangeIs(c: seq<byte>, offset: nat, len: int, out: seq<byte>)
    requires Copied(c, offset, out) && offset < |c|
    requires |out| == len || (len <= 0 && out == []) || (|out| < len && offset + |out| == |c|)
    ensures out == Range(c, offset, len)
  {
  }

  lemma TextIs(h: Heap, l: Layout, p: Id)
    requires p in l.chains
    ensures p in Text(h, l) && Text(h, l)[p] == Content(h, l.chains[p])
  {
  }

  lemma ViewLength(h: Heap, m: Id)
    requires m in h.mbufs && InBuffer(h, h.mbufs[m])
    ensures |View(h, m)| == h.mbufs[m].tail - h.mbufs[m].data
  {
  }

  lemma ViewAt(h: Heap, fs: seq<Id>, i: nat, start: nat, n: nat)
    requires i < |fs| && fs[i] in h.mbufs && InBuffer(h, h.mbufs[fs[i]]) && start + n <= |View(h, fs[i])|
    ensures var v := h.mbufs[fs[i]];
            var at := |Content(h, fs[..i])| + start;
            && v.data + start + n <= |h.bufs[v.sh].bytes| && at + n <= |Content(h, fs)|
            && Content(h, fs)[at..at + n] == h.bufs[v.sh].bytes[v.data + start..v.data + start + n]
  {
    hide Content, View;
    ContentStep(h, fs, i);
    ViewSlice(h, fs[i], start, n);
    MiddleSlice(Content(h, fs[..i]), View(h, fs[i]), Content(h, fs[i + 1..]), start, n);
  }

  lemma ViewSlice(h: Heap, m: Id, start: nat, n: nat)
    requires m in h.mbufs && InBuffer(h, h.mbufs[m]) && start + n <= |View(h, m)|
    ensures var v := h.mbufs[m];
            && v.data + start + n <= |h.bufs[v.sh].bytes|
            && View(h, m)[start..start + n] == h.bufs[v.sh].bytes[v.data + start..v.data + start + n]
  {
    var v := h.mbufs[m];
    SliceOfSlice(h.bufs[v.sh].bytes, v.data, v.tail, start, n);
  }

  lemma SliceOfSlice(s: seq<byte>, lo: nat, hi: nat, start: nat, n: nat)
    requires lo + start + n <= hi <= |s|
    ensures s[lo..hi][start..start + n] == s[lo + start..lo + start + n]
  {
    var t := s[lo..hi][start..start + n];
    assert forall k :: 0 <= k < n ==> t[k] == s[lo + start + k];
  }

  lemma MiddleSlice(a: seq<byte>, b: seq<byte>, c: seq<byte>, start: nat, n: nat)
    requires start + n <= |b|
    ensures (a + (b + c))[|a| + start..|a| + start + n] == b[start..start + n]
  {
  }

  /** The bytes in front of a view, from `data + offset` on; none for an offset that is not negative. */
  function Ahead(h: Heap, m: Id, offset: int): seq<byte> {
    if m in h.mbufs && InBuffer(h, h.mbufs[m]) && 0 <= h.mbufs[m].data + offset < h.mbufs[m].data then
      h.bufs[h.mbufs[m].sh].bytes[h.mbufs[m].data + offset..h.mbufs[m].data]
    else []
  }

  /** A packet, with the headroom of its first fragment that a negative offset reaches into. */
  function Reached(h: Heap, fs: seq<Id>, offset: int): seq<byte> {
    (if fs == [] then [] else Ahead(h, fs[0], offset)) + Content(h, fs)
  }

  /** Where in those bytes the offset points. */
  function Origin(offset: int): nat {
    if offset < 0 then 0 else offset
  }

  /** The offset stays within the buffer of the first fragment. */
  predicate InFront(h: Heap, fs: seq<Id>, offset: int) {
    fs != [] ==> fs[0] in h.mbufs && InBuffer(h, h.mbufs[fs[0]]) && 0 <= h.mbufs[fs[0]].data + offset
  }

  lemma ReachedLength(h: Heap, fs: seq<Id>, offset: int)
    ensures 0 <= offset ==> Reached(h, fs, offset) == Content(h, fs)
    ensures fs != [] && InFront(h, fs, offset) ==>
              |Reached(h, fs, offset)| == |Content(h, fs)| + Origin(offset) - offset
  {
    if fs != [] && 0 <= offset {
      assert Ahead(h, fs[0], offset) == [];
    }
  }

  lemma ReachedNone(h: Heap, fs: seq<Id>, offset: int)
    ensures fs == [] ==> Reached(h, fs, offset) == []
    ensures |Reached(h, fs, offset)| >= |Content(h, fs)|
  {
  }

  lemma BufferLive(h: Heap, m: Id)
    requires m in h.mbufs && InBuffer(h, h.mbufs[m])
    ensures h.mbufs[m].sh in h.bufs
  {
  }

  /** A stretch of one fragment's buffer is where the offsets say it is. */
  lemma ReachedAt(h: Heap, fs: seq<Id>, i: nat, start: int, n: nat, offset: int)
    requires i < |fs| && fs[i] in h.mbufs && InBuffer(h, h.mbufs[fs[i]]) && start + n <= |View(h, fs[i])|
    requires InFront(h, fs, offset) && (start < 0 ==> i == 0 && start == offset)
    ensures var v := h.mbufs[fs[i]];
            var at := |Content(h, fs[..i])| + start + Origin(offset) - offset;
            && 0 <= v.data + start && v.data + start + n <= |h.bufs[v.sh].bytes|
            && 0 <= at && at + n <= |Reached(h, fs, offset)|
            && Reached(h, fs, offset)[at..at + n] == h.bufs[v.sh].bytes[v.data + start..v.data + start + n]
  {
    hide Content, View, Ahead;
    ReachedLength(h, fs, offset);
    if 0 <= start {
      ViewAt(h, fs, i, start, n);
      SkipFront(Ahead(h, fs[0], offset), Content(h, fs), |Content(h, fs[..i])| + start, n);
    } else {
      assert fs[..0] == [];
      EmptyContent(h);
      ContentStep(h, fs, 0);
      assert fs[0..] == fs;
      AheadAt(h, fs[0], offset, n);
      TakeFront(Ahead(h, fs[0], offset), View(h, fs[0]), Content(h, fs[1..]), n);
    }
  }

  lemma SkipFront(gap: seq<byte>, c: seq<byte>, at: nat, n: nat)
    requires at + n <= |c|
    ensures (gap + c)[|gap| + at..|gap| + at + n] == c[at..at + n]
  {
  }

  lemma TakeFront(gap: seq<byte>, a: seq<byte>, b: seq<byte>, n: nat)
    requires n <= |gap + a|
    ensures (gap + (a + b))[..n] == (gap + a)[..n]
  {
    assert gap + (a + b) == (gap + a) + b;
  }

  lemma AheadAt(h: Heap, m: Id, offset: int, n: nat)
    requires m in h.mbufs && InBuffer(h, h.mbufs[m]) && 0 <= h.mbufs[m].data + offset && offset < 0
    requires offset + n <= |View(h, m)|
    ensures var v := h.mbufs[m];
            && v.data + offset + n <= |h.bufs[v.sh].bytes| && n <= |Ahead(h, m, offset) + View(h, m)|
            && (Ahead(h, m, offset) + View(h, m))[..n] == h.bufs[v.sh].bytes[v.data + offset..v.data + offset + n]
  {
    var v := h.mbufs[m];
    var s := h.bufs[v.sh].bytes;
    Resliced(s, v.data, v.tail, offset);
    SliceOfSlice(s, v.data + offset, v.tail, 0, n);
    assert s[v.data + offset..v.tail][..n] == s[v.data + offset..v.tail][0..n];
  }

  /** One turn of the copying loop. */
  lemma CopyGrows(h: Heap, fs: seq<Id>, i: nat, start: int, n: nat, offset: int, out: seq<byte>)
    requires i < |fs| && fs[i] in h.mbufs && InBuffer(h, h.mbufs[fs[i]]) && start + n <= |View(h, fs[i])|
    requires InFront(h, fs, offset) && (start < 0 ==> i == 0 && out == [])
    requires |Content(h, fs[..i])| + start == offset + |out| && Copied(Reached(h, fs, offset), Origin(offset), out)
    ensures var v := h.mbufs[fs[i]];
            && 0 <= v.data + start && v.data + start + n <= |h.bufs[v.sh].bytes|
            && Copied(Reached(h, fs, offset), Origin(offset),
                      out + h.bufs[v.sh].bytes[v.data + start..v.data + start + n])
  {
    hide View, Content, InBuffer, Reached;
    if start < 0 {
      assert fs[..0] == [];
      EmptyContent(h);
    }
    ReachedAt(h, fs, i, start, n, offset);
    OutGrows(Reached(h, fs, offset), Origin(offset), out, n);
  }

  lemma OutGrows(c: seq<byte>, offset: nat, out: seq<byte>, n: nat)
    requires offset + |out| + n <= |c| && out == c[offset..offset + |out|]
    ensures out + c[offset + |out|..offset + |out| + n] == c[offset..offset + |out| + n]
  {
  }

  /** What mbuf_header_pointer returns: nothing, a pointer into a fragment, or the caller's buffer. */
  datatype Pointer = Null | InFrag(m: Id, at: int) | Scratch(bytes: seq<byte>)

  /** The packet `c` behind view `m` after its front has moved by `len`. */
  function Pulled(h: Heap, m: Id, c: seq<byte>, len: int): seq<byte> {
    if 0 <= len <= |c| then c[len..] else Ahead(h, m, len) + c
  }

  lemma PullText(h: Heap, l: Layout, m: Id, len: int)
    requires Inv(h, l, {}) && m in l.chains && m in h.mbufs && h.mbufs[m].sh in h.bufs
    requires 0 <= h.mbufs[m].data + len <= h.mbufs[m].tail
    ensures var v := h.mbufs[m];
            var h' := Reslice(h, m, v.data + len, v.tail, v.pktLen - len);
            && Inv(h', l, {}) && m in Text(h, l)
            && Text(h', l) == Text(h, l)[m := Pulled(h, m, Text(h, l)[m], len)]
            && |Pulled(h, m, Text(h, l)[m], len)| == |Text(h, l)[m]| - len
  {
    hide Inv, Content, Counted, View, Text, Chained, Pulled;
    var v := h.mbufs[m];
    var fs, h' := l.chains[m], Reslice(h, m, v.data + len, v.tail, v.pktLen - len);
    InvCounted(h, l, {});
    ResliceKeeps(h, l, {}, m, v.data + len, v.tail, v.pktLen - len);
    ChainFacts(h, l, {}, m);
    OneViewText(h, h', l, {}, m, 0);
    TextIs(h, l, m);
    PullContent(h, fs, m, len);
  }

  lemma PullContent(h: Heap, fs: seq<Id>, m: Id, len: int)
    requires fs != [] && fs[0] == m && m in h.mbufs && InBuffer(h, h.mbufs[m])
    requires 0 <= h.mbufs[m].data + len <= h.mbufs[m].tail
    ensures var v, c := h.mbufs[m], Content(h, fs);
            var h' := Reslice(h, m, v.data + len, v.tail, v.pktLen - len);
            && Content(h, fs[..0]) + View(h', m) + Content(h, fs[1..]) == Pulled(h, m, c, len)
            && |Pulled(h, m, c, len)| == |c| - len
  {
    hide Content, View, Reslice;
    PullView(h, m, len);
    ContentStep(h, fs, 0);
    assert fs[..0] == [] && fs[0..] == fs;
    EmptyContent(h);
    var v := h.mbufs[m];
    var h' := Reslice(h, m, v.data + len, v.tail, v.pktLen - len);
    var gap := if len < 0 then h.bufs[v.sh].bytes[v.data + len..v.data] else [];
    PulledFront(View(h, m), View(h', m), Content(h, fs[1..]), len, gap);
  }

  lemma PullView(h: Heap, m: Id, len: int)
    requires m in h.mbufs && InBuffer(h, h.mbufs[m]) && 0 <= h.mbufs[m].data + len <= h.mbufs[m].tail
    ensures var v := h.mbufs[m];
            var h' := Reslice(h, m, v.data + len, v.tail, v.pktLen - len);
            && (0 <= len ==> len <= |View(h, m)| && View(h', m) == View(h, m)[len..])
            && (len < 0 ==> View(h', m) == h.bufs[v.sh].bytes[v.data + len..v.data] + View(h, m))
  {
    Resliced(h.bufs[h.mbufs[m].sh].bytes, h.mbufs[m].data, h.mbufs[m].tail, len);
  }

  lemma PulledFront(a: seq<byte>, b: seq<byte>, c: seq<byte>, len: int, gap: seq<byte>)
    requires if 0 <= len then len <= |a| && b == a[len..] else b == gap + a
    ensures if 0 <= len then [] + b + c == (a + c)[len..] else [] + b + c == gap + (a + c)
  {
  }

  lemma Resliced(s: seq<byte>, lo: nat, hi: nat, len: int)
    requires 0 <= lo + len <= hi && lo <= hi <= |s|
    ensures 0 <= len ==> s[lo + len..hi] == s[lo..hi][len..]
    ensures len < 0 ==> s[lo + len..hi] == s[lo + len..lo] + s[lo..hi]
  {
  }

  /** The `len` bytes at a pointer into a fragment are `bytes`. */
  predicate PointsAt(h: Heap, p: Pointer, len: int, bytes: seq<byte>) {
    && p.InFrag? && p.m in h.mbufs && h.mbufs[p.m].sh in h.bufs
    && 0 <= p.at && p.at + len <= h.mbufs[p.m].tail && h.mbufs[p.m].tail <= |h.bufs[h.mbufs[p.m].sh].bytes|
    && bytes == if len <= 0 then [] else h.bufs[h.mbufs[p.m].sh].bytes[p.at..p.at + len]
  }

  lemma FragPoints(h: Heap, fs: seq<Id>, i: nat, start: int, offset: int, len: int)
    requires i < |fs| && fs[i] in h.mbufs && InBuffer(h, h.mbufs[fs[i]])
    requires InFront(h, fs, offset) && (start < 0 ==> i == 0)
    requires offset == |Content(h, fs[..i])| + start && start < |View(h, fs[i])| && start + len <= |View(h, fs[i])|
    ensures PointsAt(h, InFrag(fs[i], h.mbufs[fs[i]].data + start), len,
                     Range(Reached(h, fs, offset), Origin(offset), len))
  {
    hide Content, View, Range, Reached;
    ViewLength(h, fs[i]);
    RangeNone(Reached(h, fs, offset), Origin(offset), len);
    if start < 0 {
      assert fs[..0] == [];
      EmptyContent(h);
    }
    ReachedAt(h, fs, i, start, if 0 < len then len else 0, offset);
    if 0 < len {
      RangeInside(Reached(h, fs, offset), Origin(offset), len);
    }
  }

  lemma RangeInside(c: seq<byte>, offset: nat, len: nat)
    requires 0 < len && offset + len <= |c|
    ensures Range(c, offset, len) == c[offset..offset + len]
  {
  }

  /* ---- Trimming ---- */

  /** After the views behind view `i` of chain `p` have been cut off and freed, shortening view `i`
      to `keep` bytes leaves the packet with its first bytes. */
  lemma TrimText(h: Heap, fs: seq<Id>, h2: Heap, l2: Layout, p: Id, i: nat, keep: nat)
    requires Inv(h2, l2, {}) && p in l2.chains && i < |fs| && l2.chains[p] == fs[..i + 1]
    requires fs[i] in h2.mbufs && View(h2, fs[i]) == View(h, fs[i]) && keep <= |View(h, fs[i])|
    requires Content(h2, fs[..i + 1]) == Content(h, fs[..i + 1])
    ensures var v := h2.mbufs[fs[i]];
            var h3 := Reslice(h2, fs[i], v.data, v.data + keep, v.pktLen);
            var n := |Content(h, fs[..i])| + keep;
            && Inv(h3, l2, {}) && n <= |Content(h, fs)| && p in Text(h2, l2)
            && Text(h3, l2) == Text(h2, l2)[p := Content(h, fs)[..n]]
  {
    hide Inv, Content, Counted, View, Text, Chained;
    var v := h2.mbufs[fs[i]];
    var h3 := Reslice(h2, fs[i], v.data, v.data + keep, v.pktLen);
    InvCounted(h2, l2, {});
    ViewLength(h2, fs[i]);
    ResliceKeeps(h2, l2, {}, fs[i], v.data, v.data + keep, v.pktLen);
    OneViewText(h2, h3, l2, {}, p, i);
    TextIs(h2, l2, p);
    TrimView(h2, fs[i], keep);
    assert fs[..i + 1][..i] == fs[..i] && fs[..i + 1][i + 1..] == [];
    EmptyContent(h2);
    ContentStep(h2, fs, i);
    ContentStep(h, fs, i);
    SamePrefix(Content(h2, fs[..i]), Content(h, fs[..i]), View(h, fs[i]));
    TrimmedFront(Content(h, fs[..i]), View(h, fs[i]), Content(h, fs[i + 1..]), keep);
  }

  lemma TrimView(h: Heap, m: Id, keep: nat)
    requires m in h.mbufs && InBuffer(h, h.mbufs[m]) && keep <= |View(h, m)|
    ensures var v := h.mbufs[m];
            View(Reslice(h, m, v.data, v.data + keep, v.pktLen), m) == View(h, m)[..keep]
  {
    SliceOfSlice(h.bufs[h.mbufs[m].sh].bytes, h.mbufs[m].data, h.mbufs[m].tail, 0, keep);
    assert View(h, m)[..keep] == View(h, m)[0..keep];
  }

  lemma SamePrefix(a: seq<byte>, b: seq<byte>, c: seq<byte>)
    requires a + c == b + c
    ensures a == b
  {
    assert |a| == |b|;
    assert a == (a + c)[..|a|] && b == (b + c)[..|a|];
  }

  lemma TrimmedFront(a: seq<byte>, b: seq<byte>, c: seq<byte>, keep: nat)
    requires keep <= |b|
    ensures a + b[..keep] + [] == (a + (b + c))[..|a| + keep]
  {
  }

  lemma CutLinks(h: Heap, l: Layout, p: Id, i: nat)
    requires Inv(h, l, {}) && p in l.chains && i < |l.chains[p]|
    ensures l.chains[p][i] in h.mbufs && First(l.chains[p][i + 1..]) == h.mbufs[l.chains[p][i]].next
    ensures Linked(CutMbuf(h, l.chains[p][i]), l.chains[p][i + 1..])
  {
    hide Inv;
    ChainLinks(h, l, {}, p);
    ChainFacts(h, l, {}, p);
  }

  /** Cutting chain `p` behind view `i`: what is cut off is loose, the rest is as before. */
  lemma CutLoose(h: Heap, l: Layout, p: Id, i: nat)
    requires Inv(h, l, {}) && p in l.chains && i < |l.chains[p]|
    ensures l.chains[p][i] in h.mbufs
    ensures var fs, h', l' := l.chains[p], CutMbuf(h, l.chains[p][i]), CutLayout(l, p, i);
            && Loose(h', l', fs[i + 1..]) && First(fs[i + 1..]) == h.mbufs[fs[i]].next
            && fs[i] !in SetOf(fs[i + 1..]) && p !in SetOf(fs[i + 1..])
            && Text(h', l') == Text(h, l)[p := Content(h, fs[..i + 1])]
            && forall q <- l.chains :: q !in SetOf(fs[i + 1..])
  {
    hide Inv, Content, View, Text, Chained, Counted, Linked;
    var fs := l.chains[p];
    CutLinks(h, l, p, i);
    ChainFacts(h, l, {}, p);
    CutKeeps(h, l, p, i);
    CutText(h, l, p, i);
    forall q | q in l.chains ensures q !in SetOf(fs[i + 1..]) {
      ChainFacts(h, l, {}, q);
      assert l.place[l.chains[q][0]] == (q, 0);
    }
  }

  lemma CutChain(l: Layout, p: Id, i: nat)
    requires p in l.chains && i < |l.chains[p]|
    ensures p in CutLayout(l, p, i).chains && CutLayout(l, p, i).chains[p] == l.chains[p][..i + 1]
  {
  }

  /** A view that outlives the freeing of others shows the same bytes. */
  lemma SameAfterFree(h: Heap, h1: Heap, h2: Heap, l: Layout, m: Id)
    requires m in h.mbufs && h1 == CutMbuf(h, m) && Inv(h2, l, {}) && m in h2.mbufs && h2.mbufs[m] == h1.mbufs[m]
    requires forall s <- h2.bufs :: s in h1.bufs && h2.bufs[s].bytes == h1.bufs[s].bytes
    ensures View(h2, m) == View(h, m)
  {
    assert InBuffer(h2, h2.mbufs[m]);
  }

  lemma BrokenView(h: Heap, l: Layout, m: Id)
    requires m in h.mbufs && (h.mbufs[m].tail < h.mbufs[m].data || h.mbufs[m].data < 0)
    ensures !Inv(h, l, {})
  {
    assert !InBuffer(h, h.mbufs[m]);
  }

  /** All heads are sized when the cut one is and the others are as before. */
  lemma TrimSized(h: Heap, l: Layout, h': Heap, l': Layout, m: Id)
    requires AllSized(h, l, None) && m in Text(h', l') && Text(h', l') - {m} == Text(h, l) - {m}
    requires m in h'.mbufs && h'.mbufs[m].pktLen == |Text(h', l')[m]|
    requires forall q <- Text(h', l') :: q in h.mbufs && q in h'.mbufs
    requires forall q <- Text(h', l') :: q != m ==> h'.mbufs[q].pktLen == h.mbufs[q].pktLen
    ensures AllSized(h', l', None)
  {
    hide Text;
    forall q | q in Text(h', l') ensures Sized(h', l', q) {
      if q != m {
        assert q in Text(h', l') - {m} && q in Text(h, l) - {m};
        assert Sized(h, l, q) && (Text(h', l') - {m})[q] == (Text(h, l) - {m})[q];
      }
    }
  }

  lemma HeadSized(h: Heap, l: Layout, p: Id)
    requires AllSized(h, l, None) && p in l.chains
    ensures p in h.mbufs && h.mbufs[p].pktLen == |Text(h, l)[p]|
  {
    assert Sized(h, l, p);
  }
}
