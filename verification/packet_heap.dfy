/** The heap behind coding/packet.c: packet buffers shared through reference counts, the views into
    them, and the fragment chains the views form. Freed objects leave the heap, so that a use after
    free, a double free or a leak would show. */
module PacketHeap {
  import opened Options
  import opened Machine
  import opened Sets

  type Id = nat

  /** mbuf_shared_info_t: its bytes lie at offsets 0 .. |bytes| - 1. */
  datatype Shared = Shared(refcnt: int, bytes: seq<byte>)

  /** mbuf_t: `data` and `tail` are offsets into the shared buffer, whose bounds `head` and `end` always
      are; `next` is next_frag. The queue link of the C structure is never used. */
  datatype Mbuf = Mbuf(next: Option<Id>, pktLen: int, sh: Id, data: int, tail: int)

  /** Live objects, by address; `unused` is the next unused address. */
  datatype Heap = Heap(mbufs: map<Id, Mbuf>, bufs: map<Id, Shared>, unused: Id)

  /** Which views form which packet: the views of each named chain in order, and the place of each view. */
  datatype Layout = Layout(chains: map<Id, seq<Id>>, place: map<Id, (Id, nat)>)

  /* ---- The invariant ---- */

  function Viewers(h: Heap, s: Id): set<Id> {
    set m | m in h.mbufs && h.mbufs[m].sh == s
  }

  predicate InBuffer(h: Heap, v: Mbuf) {
    v.sh in h.bufs && 0 <= v.data <= v.tail <= |h.bufs[v.sh].bytes|
  }

  /** Each shared buffer is counted exactly as often as live views point at it, and at least once. */
  ghost predicate Counted(h: Heap) {
    && (forall m <- h.mbufs :: InBuffer(h, h.mbufs[m]))
    && (forall s <- h.bufs :: h.bufs[s].refcnt == |Viewers(h, s)| > 0)
  }

  /** The link that belongs behind view `i` of the chain `fs`. */
  function NextIn(fs: seq<Id>, i: nat): Option<Id>
    requires i < |fs|
  {
    if i + 1 < |fs| then Some(fs[i + 1]) else None
  }

  /** View `i` of chain `p` is live, is linked to its successor, and is nowhere else. */
  predicate Spot(h: Heap, l: Layout, p: Id, i: nat) {
    && p in l.chains && i < |l.chains[p]|
    && var m := l.chains[p][i];
       m in h.mbufs && h.mbufs[m].next == NextIn(l.chains[p], i) && m in l.place && l.place[m] == (p, i)
  }

  /** The live view `m` is where the layout places it. */
  predicate Placed(l: Layout, m: Id) {
    && m in l.place && l.place[m].0 in l.chains && l.place[m].1 < |l.chains[l.place[m].0]|
    && l.chains[l.place[m].0][l.place[m].1] == m
  }

  /** Every chain is linked, and every live view outside `d` is in exactly one place of one chain. */
  ghost predicate Chained(h: Heap, l: Layout, d: set<Id>) {
    && (forall p <- l.chains :: l.chains[p] != [] && l.chains[p][0] == p)
    && (forall p, i: nat {:trigger Spot(h, l, p, i)} :: p in l.chains && i < |l.chains[p]| ==> Spot(h, l, p, i))
    && (forall m <- h.mbufs :: m !in d ==> Placed(l, m))
    && (forall p, i: nat :: p in l.chains && i < |l.chains[p]| ==> l.chains[p][i] !in d)
  }

  ghost predicate Bounded(h: Heap) {
    (forall m <- h.mbufs :: m < h.unused) && (forall s <- h.bufs :: s < h.unused)
  }

  /** `d` holds the views that are being freed. */
  ghost predicate Inv(h: Heap, l: Layout, d: set<Id>) {
    Counted(h) && Chained(h, l, d) && Bounded(h)
  }

  /* ---- Contents ---- */

  /** `data .. tail` of one view. */
  function View(h: Heap, m: Id): seq<byte> {
    if m in h.mbufs && InBuffer(h, h.mbufs[m]) then
      h.bufs[h.mbufs[m].sh].bytes[h.mbufs[m].data..h.mbufs[m].tail]
    else []
  }

  /** mbuf_tailroom: the bytes behind the tail. */
  function Tailroom(h: Heap, m: Id): int {
    if m in h.mbufs && h.mbufs[m].sh in h.bufs then |h.bufs[h.mbufs[m].sh].bytes| - h.mbufs[m].tail else 0
  }

  /** The bytes of a packet: its views, one after the other. */
  function Content(h: Heap, fs: seq<Id>): seq<byte> {
    if fs == [] then [] else View(h, fs[0]) + Content(h, fs[1..])
  }

  /** What the heap says at the level of its callers: the bytes of each packet, by its head. */
  function Text(h: Heap, l: Layout): map<Id, seq<byte>> {
    map p | p in l.chains :: Content(h, l.chains[p])
  }

  /** pkt_len of a head is the length of its whole packet. */
  predicate Sized(h: Heap, l: Layout, p: Id) {
    p in h.mbufs && p in Text(h, l) && h.mbufs[p].pktLen == |Text(h, l)[p]|
  }

  /** ... of every head, except perhaps of `but`. */
  ghost predicate AllSized(h: Heap, l: Layout, but: Option<Id>) {
    forall p <- Text(h, l) :: Some(p) != but ==> Sized(h, l, p)
  }

  lemma {:induction false} ContentSame(h: Heap, h': Heap, fs: seq<Id>)
    requires forall i :: 0 <= i < |fs| ==> View(h', fs[i]) == View(h, fs[i])
    ensures Content(h', fs) == Content(h, fs)
    decreases |fs|
  {
    if fs != [] {
      ContentSame(h, h', fs[1..]);
    }
  }

  lemma {:induction false} ContentAppend(h: Heap, a: seq<Id>, b: seq<Id>)
    ensures Content(h, a + b) == Content(h, a) + Content(h, b)
    decreases |a|
  {
    if a == [] {
      assert a + b == b;
    } else {
      assert (a + b)[1..] == a[1..] + b;
      ContentAppend(h, a[1..], b);
    }
  }

  lemma ContentOne(h: Heap, m: Id)
    ensures Content(h, [m]) == View(h, m)
  {
    assert [m][1..] == [];
  }

  lemma ContentStep(h: Heap, fs: seq<Id>, i: nat)
    requires i < |fs|
    ensures Content(h, fs[i..]) == View(h, fs[i]) + Content(h, fs[i + 1..])
    ensures Content(h, fs[..i + 1]) == Content(h, fs[..i]) + View(h, fs[i])
    ensures Content(h, fs) == Content(h, fs[..i]) + Content(h, fs[i..])
  {
    hide View;
    assert fs[i..][1..] == fs[i + 1..];
    hide Content;
    ContentFirst(h, fs[i..]);
    assert fs[..i + 1] == fs[..i] + [fs[i]];
    ContentAppend(h, fs[..i], [fs[i]]);
    ContentOne(h, fs[i]);
    assert fs == fs[..i] + fs[i..];
    ContentAppend(h, fs[..i], fs[i..]);
  }

  lemma ContentFirst(h: Heap, fs: seq<Id>)
    requires fs != []
    ensures Content(h, fs) == View(h, fs[0]) + Content(h, fs[1..])
  {
  }

  lemma ChainFacts(h: Heap, l: Layout, d: set<Id>, p: Id)
    requires Inv(h, l, d) && p in l.chains
    ensures l.chains[p] != [] && l.chains[p][0] == p && p < h.unused
    ensures forall i :: 0 <= i < |l.chains[p]| ==> l.chains[p][i] in h.mbufs && InBuffer(h, h.mbufs[l.chains[p][i]])
    ensures forall i :: 0 <= i < |l.chains[p]| ==> l.chains[p][i] in l.place && l.place[l.chains[p][i]] == (p, i)
  {
    forall i | 0 <= i < |l.chains[p]|
      ensures Spot(h, l, p, i) && InBuffer(h, h.mbufs[l.chains[p][i]])
    {
      assert Spot(h, l, p, i);
    }
  }

  lemma ChainLinks(h: Heap, l: Layout, d: set<Id>, p: Id)
    requires Inv(h, l, d) && p in l.chains
    ensures forall i :: 0 <= i < |l.chains[p]| ==> l.chains[p][i] in h.mbufs
    ensures forall i :: 0 <= i < |l.chains[p]| ==> h.mbufs[l.chains[p][i]].next == NextIn(l.chains[p], i)
  {
    forall i | 0 <= i < |l.chains[p]|
      ensures l.chains[p][i] in h.mbufs && h.mbufs[l.chains[p][i]].next == NextIn(l.chains[p], i)
    {
      assert Spot(h, l, p, i);
    }
  }

  /** Every view of `fs` shows the same bytes in both heaps. */
  ghost predicate SameViews(h: Heap, h': Heap, fs: seq<Id>) {
    forall i :: 0 <= i < |fs| ==> View(h', fs[i]) == View(h, fs[i])
  }

  /** Packets whose chain and views are the same in both heaps have the same bytes in both. */
  lemma Elsewhere(h: Heap, h': Heap, l: Layout, l': Layout, p: Id)
    requires p in l'.chains
    requires forall q :: q != p ==> (q in l'.chains <==> q in l.chains)
    requires forall q <- l'.chains :: q != p ==> l'.chains[q] == l.chains[q] && SameViews(h, h', l.chains[q])
    ensures Text(h', l') == Text(h, l)[p := Content(h', l'.chains[p])]
  {
    hide View, Content;
    forall q | q in l'.chains && q != p ensures Content(h', l'.chains[q]) == Content(h, l.chains[q]) {
      ContentSame(h, h', l.chains[q]);
    }
  }

  /* ---- The elementary changes ---- */

  /** A new view `m`, and the buffer it looks at. */
  function AddMbuf(h: Heap, m: Id, v: Mbuf, b: Shared): Heap {
    Heap(h.mbufs[m := v], h.bufs[v.sh := b], m + 1)
  }

  lemma ViewersAdd(h: Heap, m: Id, v: Mbuf, b: Shared)
    requires m !in h.mbufs
    ensures Viewers(AddMbuf(h, m, v, b), v.sh) == Viewers(h, v.sh) + {m} && m !in Viewers(h, v.sh)
    ensures forall s :: s != v.sh ==> Viewers(AddMbuf(h, m, v, b), s) == Viewers(h, s)
  {
  }

  lemma NoViewers(h: Heap, s: Id)
    requires Counted(h) && s !in h.bufs
    ensures Viewers(h, s) == {}
  {
    forall m | m in h.mbufs ensures h.mbufs[m].sh != s {
      assert InBuffer(h, h.mbufs[m]);
    }
  }

  /** The layout with a new chain `[m]`. */
  function AddChain(l: Layout, m: Id): Layout {
    Layout(l.chains[m := [m]], l.place[m := (m, 0)])
  }

  lemma AddChainKeeps(h: Heap, l: Layout, d: set<Id>, m: Id, v: Mbuf, b: Shared)
    requires Chained(h, l, d) && Bounded(h) && h.unused <= m && m !in d && v.next == None
    ensures Chained(AddMbuf(h, m, v, b), AddChain(l, m), d)
  {
    var h', l' := AddMbuf(h, m, v, b), AddChain(l, m);
    forall p | p in l.chains ensures p < m {
      assert Spot(h, l, p, 0);
    }
    forall p, i: nat | p in l'.chains && i < |l'.chains[p]| ensures Spot(h', l', p, i) && l'.chains[p][i] !in d {
      if p != m {
        assert Spot(h, l, p, i);
      }
    }
    forall x | x in h'.mbufs && x !in d ensures Placed(l', x) {
      if x != m {
        assert Placed(l, x);
      }
    }
  }

  /** mbuf_alloc: a view and a buffer, both new. */
  lemma AllocKeeps(h: Heap, l: Layout, d: set<Id>, v: Mbuf, b: Shared)
    requires Inv(h, l, d) && (forall x <- d :: x < h.unused)
    requires v.sh == h.unused && v.next == None && b.refcnt == 1 && 0 <= v.data <= v.tail <= |b.bytes|
    ensures Inv(AddMbuf(h, h.unused + 1, v, b), AddChain(l, h.unused + 1), d)
  {
    hide Chained, Viewers;
    var m := h.unused + 1;
    NoViewers(h, v.sh);
    ViewersAdd(h, m, v, b);
    AddChainKeeps(h, l, d, m, v, b);
  }

  /** __mbuf_clone_one: another view of the same buffer. */
  lemma ShareKeeps(h: Heap, l: Layout, d: set<Id>, src: Id)
    requires Inv(h, l, d) && src in h.mbufs && (forall x <- d :: x < h.unused)
    ensures h.mbufs[src].sh in h.bufs
    ensures var v := h.mbufs[src].(next := None);
            var b := h.bufs[v.sh];
            Inv(AddMbuf(h, h.unused, v, b.(refcnt := b.refcnt + 1)), AddChain(l, h.unused), d)
  {
    hide Chained, Viewers;
    var m, v := h.unused, h.mbufs[src].(next := None);
    assert InBuffer(h, h.mbufs[src]);
    var b := h.bufs[v.sh];
    ViewersAdd(h, m, v, b.(refcnt := b.refcnt + 1));
    AddChainKeeps(h, l, d, m, v, b.(refcnt := b.refcnt + 1));
  }

  lemma ViewersKept(h: Heap, h': Heap)
    requires h'.mbufs.Keys == h.mbufs.Keys && forall m <- h.mbufs :: h'.mbufs[m].sh == h.mbufs[m].sh
    ensures forall s :: Viewers(h', s) == Viewers(h, s)
  {
  }

  /** Links the chain `[m]` behind the last view of chain `p`. */
  function LinkMbuf(h: Heap, last: Id, m: Id): Heap
    requires last in h.mbufs
  {
    h.(mbufs := h.mbufs[last := h.mbufs[last].(next := Some(m))])
  }

  function LinkChain(l: Layout, p: Id, m: Id): Layout
    requires p in l.chains
  {
    Layout((l.chains - {m})[p := l.chains[p] + [m]], l.place[m := (p, |l.chains[p]|)])
  }

  lemma LinkKeeps(h: Heap, l: Layout, d: set<Id>, p: Id, m: Id)
    requires Inv(h, l, d) && p in l.chains && m in l.chains && m != p && l.chains[m] == [m]
    ensures l.chains[p] != [] && l.chains[p][|l.chains[p]| - 1] in h.mbufs
    ensures Inv(LinkMbuf(h, l.chains[p][|l.chains[p]| - 1], m), LinkChain(l, p, m), d)
  {
    hide Viewers, Chained;
    ChainFacts(h, l, d, p);
    ViewersKept(h, LinkMbuf(h, l.chains[p][|l.chains[p]| - 1], m));
    LinkChained(h, l, d, p, m);
  }

  lemma LinkChained(h: Heap, l: Layout, d: set<Id>, p: Id, m: Id)
    requires Chained(h, l, d) && p in l.chains && m in l.chains && m != p && l.chains[m] == [m]
    requires l.chains[p] != [] && l.chains[p][|l.chains[p]| - 1] in h.mbufs
    ensures Chained(LinkMbuf(h, l.chains[p][|l.chains[p]| - 1], m), LinkChain(l, p, m), d)
  {
    var fs := l.chains[p];
    var n := |fs| - 1;
    var h', l' := LinkMbuf(h, fs[n], m), LinkChain(l, p, m);
    assert Spot(h, l, m, 0) && Spot(h, l, p, n);
    forall q, i: nat | q in l'.chains && i < |l'.chains[q]| ensures Spot(h', l', q, i) && l'.chains[q][i] !in d {
      if q == p && i == |fs| {
        assert l'.chains[p][i] == m;
      } else {
        assert Spot(h, l, q, i);
      }
    }
    forall x | x in h'.mbufs && x !in d ensures Placed(l', x) {
      assert Placed(l, x);
    }
  }

  /** One step of mbuf_free_chain: the view goes, and with the last view its buffer. */
  function Drop(h: Heap, m: Id): Heap
    requires m in h.mbufs && h.mbufs[m].sh in h.bufs
  {
    var s := h.mbufs[m].sh;
    var b := h.bufs[s];
    Heap(h.mbufs - {m}, if b.refcnt == 1 then h.bufs - {s} else h.bufs[s := b.(refcnt := b.refcnt - 1)], h.unused)
  }

  lemma DropKeeps(h: Heap, l: Layout, d: set<Id>, m: Id)
    requires Inv(h, l, d) && m in d && m in h.mbufs
    ensures h.mbufs[m].sh in h.bufs && Inv(Drop(h, m), l, d - {m})
  {
    hide Chained, Viewers;
    assert InBuffer(h, h.mbufs[m]);
    ViewersDrop(h, m);
    DropCounted(h, m);
    DropChained(h, l, d, m);
  }

  lemma ViewersDrop(h: Heap, m: Id)
    requires m in h.mbufs && h.mbufs[m].sh in h.bufs
    ensures m in Viewers(h, h.mbufs[m].sh) && Viewers(Drop(h, m), h.mbufs[m].sh) == Viewers(h, h.mbufs[m].sh) - {m}
    ensures forall s :: s != h.mbufs[m].sh ==> Viewers(Drop(h, m), s) == Viewers(h, s)
  {
  }

  lemma OnlyMember(s: set<Id>, m: Id)
    requires m in s
    ensures |s| == 1 ==> s == {m}
    ensures |s - {m}| == |s| - 1
  {
    assert s == (s - {m}) + {m};
  }

  lemma DropCounted(h: Heap, m: Id)
    requires Counted(h) && m in h.mbufs && h.mbufs[m].sh in h.bufs
    ensures Counted(Drop(h, m))
  {
    var s, h' := h.mbufs[m].sh, Drop(h, m);
    ViewersDrop(h, m);
    OnlyMember(Viewers(h, s), m);
    forall x | x in h'.mbufs ensures InBuffer(h', h'.mbufs[x]) {
      assert InBuffer(h, h.mbufs[x]);
      if h.mbufs[x].sh == s {
        assert x in Viewers(h', s);
      }
    }
  }

  lemma DropChained(h: Heap, l: Layout, d: set<Id>, m: Id)
    requires Chained(h, l, d) && m in d && m in h.mbufs && h.mbufs[m].sh in h.bufs
    ensures Chained(Drop(h, m), l, d - {m})
  {
    var h' := Drop(h, m);
    forall p, i: nat | p in l.chains && i < |l.chains[p]| ensures Spot(h', l, p, i) {
      assert Spot(h, l, p, i);
    }
  }

  /** mbuf_ensure_writable on a shared buffer: the view moves to a copy of its own. */
  function Unshare(h: Heap, m: Id): Heap
    requires m in h.mbufs && h.mbufs[m].sh in h.bufs
  {
    var s := h.mbufs[m].sh;
    var b := h.bufs[s];
    Heap(h.mbufs[m := h.mbufs[m].(sh := h.unused)],
         h.bufs[s := b.(refcnt := b.refcnt - 1)][h.unused := Shared(1, b.bytes)], h.unused + 1)
  }

  lemma UnshareKeeps(h: Heap, l: Layout, d: set<Id>, m: Id)
    requires Inv(h, l, d) && m in h.mbufs && h.mbufs[m].sh in h.bufs && h.bufs[h.mbufs[m].sh].refcnt != 1
    ensures Inv(Unshare(h, m), l, d)
    ensures forall x :: View(Unshare(h, m), x) == View(h, x)
  {
    hide Chained, Viewers;
    NoViewers(h, h.unused);
    UnshareViewers(h, m);
    UnshareCounted(h, m);
    SameLinksChained(h, Unshare(h, m), l, d);
  }

  lemma UnshareCounted(h: Heap, m: Id)
    requires Counted(h) && Bounded(h) && m in h.mbufs && h.mbufs[m].sh in h.bufs && h.bufs[h.mbufs[m].sh].refcnt != 1
    ensures Counted(Unshare(h, m))
    ensures forall x :: View(Unshare(h, m), x) == View(h, x)
  {
    hide View, Viewers, InBuffer;
    var s, h' := h.mbufs[m].sh, Unshare(h, m);
    forall x | x in h'.mbufs ensures InBuffer(h', h'.mbufs[x]) && View(h', x) == View(h, x) {
      UnshareView(h, m, x);
    }
    forall x | x !in h'.mbufs ensures View(h', x) == View(h, x) {
      NoView(h, x);
      NoView(h', x);
    }
    NoViewers(h, h.unused);
    UnshareViewers(h, m);
    OnlyMember(Viewers(h, s), m);
  }

  lemma NoView(h: Heap, m: Id)
    requires m !in h.mbufs
    ensures View(h, m) == []
  {
  }

  lemma UnshareView(h: Heap, m: Id, x: Id)
    requires m in h.mbufs && h.mbufs[m].sh in h.bufs && x in h.mbufs && Bounded(h)
    requires InBuffer(h, h.mbufs[x])
    ensures var h' := Unshare(h, m);
            x in h'.mbufs && InBuffer(h', h'.mbufs[x]) && View(h', x) == View(h, x)
  {
  }

  lemma UnshareViewers(h: Heap, m: Id)
    requires m in h.mbufs && h.mbufs[m].sh in h.bufs && Viewers(h, h.unused) == {} && h.mbufs[m].sh != h.unused
    ensures var s, h' := h.mbufs[m].sh, Unshare(h, m);
            && m in Viewers(h, s) && Viewers(h', s) == Viewers(h, s) - {m} && Viewers(h', h.unused) == {m}
            && forall x :: x != s && x != h.unused ==> Viewers(h', x) == Viewers(h, x)
  {
    var s, h' := h.mbufs[m].sh, Unshare(h, m);
    forall x: Id ensures x in Viewers(h', h.unused) <==> x == m {
      assert x in Viewers(h', h.unused) && x != m ==> x in Viewers(h, h.unused);
    }
  }

  lemma SameLinksChained(h: Heap, h': Heap, l: Layout, d: set<Id>)
    requires Chained(h, l, d) && h'.mbufs.Keys == h.mbufs.Keys && h.unused <= h'.unused
    requires forall m <- h.mbufs :: h'.mbufs[m].next == h.mbufs[m].next
    ensures Chained(h', l, d)
  {
    forall p, i: nat | p in l.chains && i < |l.chains[p]| ensures Spot(h', l, p, i) {
      assert Spot(h, l, p, i);
    }
  }

  /** Changes of one view that move neither its buffer nor its link. */
  function Reslice(h: Heap, m: Id, data: int, tail: int, pktLen: int): Heap
    requires m in h.mbufs
  {
    h.(mbufs := h.mbufs[m := h.mbufs[m].(data := data, tail := tail, pktLen := pktLen)])
  }

  lemma ResliceKeeps(h: Heap, l: Layout, d: set<Id>, m: Id, data: int, tail: int, pktLen: int)
    requires Inv(h, l, d) && m in h.mbufs && h.mbufs[m].sh in h.bufs
    requires 0 <= data <= tail <= |h.bufs[h.mbufs[m].sh].bytes|
    ensures Inv(Reslice(h, m, data, tail, pktLen), l, d)
    ensures forall x :: x != m ==> View(Reslice(h, m, data, tail, pktLen), x) == View(h, x)
  {
    hide Chained, Viewers;
    var h' := Reslice(h, m, data, tail, pktLen);
    forall x | x in h'.mbufs ensures InBuffer(h', h'.mbufs[x]) && (x != m ==> View(h', x) == View(h, x)) {
      assert InBuffer(h, h.mbufs[x]);
    }
    ViewersKept(h, h');
    SameLinksChained(h, h', l, d);
  }

  /** Bytes written behind the tail of a view. */
  function Write(h: Heap, m: Id, p: seq<byte>): Heap
    requires m in h.mbufs && h.mbufs[m].sh in h.bufs
    requires 0 <= h.mbufs[m].tail && h.mbufs[m].tail + |p| <= |h.bufs[h.mbufs[m].sh].bytes|
  {
    var v := h.mbufs[m];
    var b := h.bufs[v.sh];
    Heap(h.mbufs[m := v.(tail := v.tail + |p|)],
         h.bufs[v.sh := b.(bytes := b.bytes[..v.tail] + p + b.bytes[v.tail + |p|..])], h.unused)
  }

  /** In a buffer that no other view shares, a write behind the tail appends to this view and
      leaves every other view alone. */
  lemma WriteKeeps(h: Heap, l: Layout, d: set<Id>, m: Id, p: seq<byte>)
    requires Inv(h, l, d) && m in h.mbufs && h.mbufs[m].sh in h.bufs && h.bufs[h.mbufs[m].sh].refcnt == 1
    requires 0 <= h.mbufs[m].tail && h.mbufs[m].tail + |p| <= |h.bufs[h.mbufs[m].sh].bytes|
    ensures Inv(Write(h, m, p), l, d)
    ensures View(Write(h, m, p), m) == View(h, m) + p
    ensures forall x :: x != m ==> View(Write(h, m, p), x) == View(h, x)
  {
    hide Chained, Viewers, View;
    WriteCounted(h, m, p);
    WriteView(h, m, p);
    SameLinksChained(h, Write(h, m, p), l, d);
  }

  lemma WriteCounted(h: Heap, m: Id, p: seq<byte>)
    requires Counted(h) && m in h.mbufs && h.mbufs[m].sh in h.bufs && h.bufs[h.mbufs[m].sh].refcnt == 1
    requires 0 <= h.mbufs[m].tail && h.mbufs[m].tail + |p| <= |h.bufs[h.mbufs[m].sh].bytes|
    ensures Counted(Write(h, m, p)) && InBuffer(h, h.mbufs[m])
    ensures forall x :: x != m ==> View(Write(h, m, p), x) == View(h, x)
  {
    var s, h' := h.mbufs[m].sh, Write(h, m, p);
    assert InBuffer(h, h.mbufs[m]);
    assert m in Viewers(h, s);
    OnlyMember(Viewers(h, s), m);
    forall x | x in h'.mbufs ensures InBuffer(h', h'.mbufs[x]) && (x != m ==> View(h', x) == View(h, x)) {
      assert InBuffer(h, h.mbufs[x]);
      assert x != m ==> x !in Viewers(h, s);
    }
    ViewersKept(h, h');
  }

  lemma WriteView(h: Heap, m: Id, p: seq<byte>)
    requires m in h.mbufs && InBuffer(h, h.mbufs[m])
    requires h.mbufs[m].tail + |p| <= |h.bufs[h.mbufs[m].sh].bytes|
    ensures var h' := Write(h, m, p); InBuffer(h', h'.mbufs[m]) && View(h', m) == View(h, m) + p
  {
  }

  /* ---- Taking views out of their chain ---- */

  /** Unlinks what follows view `i` of chain `p`. */
  function CutMbuf(h: Heap, m: Id): Heap
    requires m in h.mbufs
  {
    h.(mbufs := h.mbufs[m := h.mbufs[m].(next := None)])
  }

  function CutLayout(l: Layout, p: Id, i: nat): Layout
    requires p in l.chains && i < |l.chains[p]|
  {
    l.(chains := l.chains[p := l.chains[p][..i + 1]])
  }

  lemma CutKeeps(h: Heap, l: Layout, p: Id, i: nat)
    requires Inv(h, l, {}) && p in l.chains && i < |l.chains[p]|
    ensures l.chains[p][i] in h.mbufs
    ensures Inv(CutMbuf(h, l.chains[p][i]), CutLayout(l, p, i), SetOf(l.chains[p][i + 1..]))
  {
    hide Viewers, Chained;
    ChainFacts(h, l, {}, p);
    var h' := CutMbuf(h, l.chains[p][i]);
    ViewersKept(h, h');
    CutChained(h, l, p, i);
  }

  lemma CutSet(h: Heap, l: Layout, p: Id, i: nat)
    requires Chained(h, l, {}) && p in l.chains && i < |l.chains[p]|
    ensures forall x :: x in SetOf(l.chains[p][i + 1..]) ==> x in l.place && l.place[x].0 == p && l.place[x].1 > i
    ensures forall j :: i < j < |l.chains[p]| ==> l.chains[p][j] in SetOf(l.chains[p][i + 1..])
  {
    var fs := l.chains[p];
    forall j | i < j < |fs| ensures fs[j] in SetOf(fs[i + 1..]) {
      assert fs[i + 1..][j - i - 1] == fs[j];
    }
    forall x | x in SetOf(fs[i + 1..]) ensures x in l.place && l.place[x].0 == p && l.place[x].1 > i {
      var j :| 0 <= j < |fs[i + 1..]| && fs[i + 1..][j] == x;
      assert Spot(h, l, p, i + 1 + j);
    }
  }

  lemma CutSpots(h: Heap, l: Layout, p: Id, i: nat)
    requires Chained(h, l, {}) && p in l.chains && i < |l.chains[p]| && l.chains[p][i] in h.mbufs
    ensures forall q, j: nat {:trigger Spot(CutMbuf(h, l.chains[p][i]), CutLayout(l, p, i), q, j)} ::
              q in CutLayout(l, p, i).chains && j < |CutLayout(l, p, i).chains[q]| ==>
                Spot(CutMbuf(h, l.chains[p][i]), CutLayout(l, p, i), q, j)
    ensures forall q, j: nat :: q in CutLayout(l, p, i).chains && j < |CutLayout(l, p, i).chains[q]| ==>
              CutLayout(l, p, i).chains[q][j] !in SetOf(l.chains[p][i + 1..])
  {
    var h', l' := CutMbuf(h, l.chains[p][i]), CutLayout(l, p, i);
    CutSet(h, l, p, i);
    hide SetOf;
    assert Spot(h, l, p, i);
    forall q, j: nat | q in l'.chains && j < |l'.chains[q]|
      ensures Spot(h', l', q, j) && l'.chains[q][j] !in SetOf(l.chains[p][i + 1..])
    {
      assert Spot(h, l, q, j);
    }
  }

  lemma CutChained(h: Heap, l: Layout, p: Id, i: nat)
    requires Chained(h, l, {}) && p in l.chains && i < |l.chains[p]| && l.chains[p][i] in h.mbufs
    ensures Chained(CutMbuf(h, l.chains[p][i]), CutLayout(l, p, i), SetOf(l.chains[p][i + 1..]))
  {
    var h', l' := CutMbuf(h, l.chains[p][i]), CutLayout(l, p, i);
    var d := SetOf(l.chains[p][i + 1..]);
    CutSet(h, l, p, i);
    CutSpots(h, l, p, i);
    hide SetOf, Spot;
    forall x | x in h'.mbufs && x !in d ensures Placed(l', x) {
      assert Placed(l, x);
    }
  }

  /** Takes a whole packet out of the layout, to be freed. */
  lemma DetachKeeps(h: Heap, l: Layout, p: Id)
    requires Inv(h, l, {}) && p in l.chains
    ensures Inv(h, l.(chains := l.chains - {p}), SetOf(l.chains[p]))
  {
    var fs, l', d := l.chains[p], l.(chains := l.chains - {p}), SetOf(l.chains[p]);
    forall j | 0 <= j < |fs| ensures fs[j] in d {
    }
    forall x | x in d ensures x in l.place && l.place[x].0 == p {
      var j :| 0 <= j < |fs| && fs[j] == x;
      assert Spot(h, l, p, j);
    }
    forall q, j: nat | q in l'.chains && j < |l'.chains[q]| ensures Spot(h, l', q, j) && l'.chains[q][j] !in d {
      assert Spot(h, l, q, j);
    }
    forall x | x in h.mbufs && x !in d ensures Placed(l', x) {
      assert Placed(l, x);
    }
  }

  /* ---- What the changes do to the packets ---- */

  lemma AddViews(h: Heap, l: Layout, d: set<Id>, m: Id, v: Mbuf, b: Shared, q: Id)
    requires Inv(h, l, d) && h.unused <= m && q in l.chains
    requires v.sh in h.bufs ==> h.bufs[v.sh].bytes == b.bytes
    ensures q < m && SameViews(h, AddMbuf(h, m, v, b), l.chains[q])
  {
    ChainFacts(h, l, d, q);
  }

  lemma AddText(h: Heap, l: Layout, d: set<Id>, m: Id, v: Mbuf, b: Shared)
    requires Inv(h, l, d) && h.unused <= m && 0 <= v.data <= v.tail <= |b.bytes|
    requires v.sh in h.bufs ==> h.bufs[v.sh].bytes == b.bytes
    ensures m !in l.chains && m !in Text(h, l)
    ensures Text(AddMbuf(h, m, v, b), AddChain(l, m)) == Text(h, l)[m := b.bytes[v.data..v.tail]]
  {
    var h', l' := AddMbuf(h, m, v, b), AddChain(l, m);
    assert View(h', m) == b.bytes[v.data..v.tail];
    ContentOne(h', m);
    hide Inv, View, Content, SameViews;
    forall q | q in l.chains ensures q < m && SameViews(h, h', l.chains[q]) {
      AddViews(h, l, d, m, v, b, q);
    }
    Elsewhere(h, h', l, l', m);
  }

  lemma LinkViews(h: Heap, last: Id, m: Id)
    requires last in h.mbufs
    ensures forall x :: View(LinkMbuf(h, last, m), x) == View(h, x)
  {
  }

  lemma TextWithout(h: Heap, l: Layout, p: Id, m: Id)
    requires p in l.chains && m in l.chains
    ensures p in Text(h, l) && Text(h, l)[p] == Content(h, l.chains[p])
    ensures m in Text(h, l) && Text(h, l)[m] == Content(h, l.chains[m])
    ensures Text(h, l.(chains := l.chains - {m})) == Text(h, l) - {m}
  {
    hide Content;
  }

  lemma LinkText(h: Heap, l: Layout, p: Id, m: Id)
    requires p in l.chains && m in l.chains && m != p && l.chains[m] == [m]
    requires l.chains[p] != [] && l.chains[p][|l.chains[p]| - 1] in h.mbufs
    ensures var h' := LinkMbuf(h, l.chains[p][|l.chains[p]| - 1], m);
            Text(h', LinkChain(l, p, m)) == (Text(h, l) - {m})[p := Text(h, l)[p] + Text(h, l)[m]]
  {
    hide View, Content, Text;
    var fs := l.chains[p];
    var h', l' := LinkMbuf(h, fs[|fs| - 1], m), LinkChain(l, p, m);
    LinkViews(h, fs[|fs| - 1], m);
    ContentSame(h, h', fs + [m]);
    ContentAppend(h, fs, [m]);
    TextWithout(h, l, p, m);
    Elsewhere(h, h', l.(chains := l.chains - {m}), l', p);
  }

  lemma SameText(h: Heap, h': Heap, l: Layout)
    requires forall p <- l.chains :: SameViews(h, h', l.chains[p])
    ensures Text(h', l) == Text(h, l)
  {
    hide View, Content;
    forall p | p in l.chains ensures Content(h', l.chains[p]) == Content(h, l.chains[p]) {
      ContentSame(h, h', l.chains[p]);
    }
  }

  lemma DropText(h: Heap, l: Layout, d: set<Id>, m: Id)
    requires Inv(h, l, d) && m in d && m in h.mbufs && h.mbufs[m].sh in h.bufs && Inv(Drop(h, m), l, d - {m})
    ensures Text(Drop(h, m), l) == Text(h, l)
  {
    forall p | p in l.chains ensures SameViews(h, Drop(h, m), l.chains[p]) {
      ChainFacts(h, l, d, p);
      ChainFacts(Drop(h, m), l, d - {m}, p);
    }
    SameText(h, Drop(h, m), l);
  }

  /** Only one view of chain `p` differs. */
  lemma OneViewText(h: Heap, h': Heap, l: Layout, d: set<Id>, p: Id, i: nat)
    requires Inv(h, l, d) && p in l.chains && i < |l.chains[p]|
    requires forall x :: x != l.chains[p][i] ==> View(h', x) == View(h, x)
    ensures var fs := l.chains[p];
            Text(h', l) == Text(h, l)[p := Content(h, fs[..i]) + View(h', fs[i]) + Content(h, fs[i + 1..])]
  {
    hide Inv, View, Content, InBuffer;
    var fs := l.chains[p];
    ChainFacts(h, l, d, p);
    forall q | q in l.chains && q != p ensures SameViews(h, h', l.chains[q]) {
      ChainFacts(h, l, d, q);
    }
    Elsewhere(h, h', l, l, p);
    OneViewContent(h, h', fs, i);
  }

  lemma OneViewContent(h: Heap, h': Heap, fs: seq<Id>, i: nat)
    requires i < |fs| && (forall j :: 0 <= j < |fs| && j != i ==> View(h', fs[j]) == View(h, fs[j]))
    ensures Content(h', fs) == Content(h, fs[..i]) + View(h', fs[i]) + Content(h, fs[i + 1..])
  {
    hide View, Content;
    ContentStep(h', fs, i);
    ContentSame(h, h', fs[..i]);
    ContentSame(h, h', fs[i + 1..]);
  }

  lemma CutText(h: Heap, l: Layout, p: Id, i: nat)
    requires p in l.chains && i < |l.chains[p]| && l.chains[p][i] in h.mbufs
    ensures Text(CutMbuf(h, l.chains[p][i]), CutLayout(l, p, i)) == Text(h, l)[p := Content(h, l.chains[p][..i + 1])]
  {
    var h', l' := CutMbuf(h, l.chains[p][i]), CutLayout(l, p, i);
    ContentSame(h, h', l.chains[p][..i + 1]);
    assert forall q <- l.chains :: SameViews(h, h', l.chains[q]);
    hide View, Content, SameViews;
    Elsewhere(h, h', l, l', p);
  }

  /** The buffers, and how often each is counted, follow from the views and the bytes. */
  lemma CountsDetermined(h: Heap, h': Heap)
    requires Counted(h) && Counted(h') && h'.mbufs == h.mbufs
    requires forall s <- h'.bufs :: s in h.bufs ==> h'.bufs[s].bytes == h.bufs[s].bytes
    ensures h'.bufs == h.bufs
  {
    forall s: Id ensures Viewers(h', s) == Viewers(h, s) && (s in h.bufs <==> s in h'.bufs) {
      if s !in h.bufs {
        NoViewers(h, s);
      }
      if s !in h'.bufs {
        NoViewers(h', s);
      }
    }
  }

  /** A buffer lives exactly as long as some view points at it. */
  lemma LiveWhileViewed(h: Heap)
    requires Counted(h)
    ensures forall s: Id :: s in h.bufs <==> Viewers(h, s) != {}
    ensures forall s <- h.bufs :: h.bufs[s].refcnt == |Viewers(h, s)|
  {
    forall s: Id ensures s in h.bufs <==> Viewers(h, s) != {} {
      if s !in h.bufs {
        NoViewers(h, s);
      }
    }
  }

  /** A new pkt_len changes nothing else. */
  lemma SetLenKeeps(h: Heap, l: Layout, d: set<Id>, m: Id, pktLen: int)
    requires Inv(h, l, d) && m in h.mbufs
    ensures var h' := Reslice(h, m, h.mbufs[m].data, h.mbufs[m].tail, pktLen);
            Inv(h', l, d) && Text(h', l) == Text(h, l)
  {
    assert InBuffer(h, h.mbufs[m]);
    ResliceKeeps(h, l, d, m, h.mbufs[m].data, h.mbufs[m].tail, pktLen);
    hide Inv, Chained, Counted, Text;
    SameText(h, Reslice(h, m, h.mbufs[m].data, h.mbufs[m].tail, pktLen), l);
  }
}
