/** coding/packet.c: fragmented packets over buffers that are shared until they are written. A packet
    is named by its head view, as the C pointer does; Packets() gives the bytes of every packet. */
module Packet {
  import opened Options
  import opened Machine
  import opened Sets
  import opened PacketHeap
  import opened PacketSteps

  const HEADROOM: nat := 128
  const FRAG_SIZE: nat := 128

  /** `k` new fragments hold the bytes, out of `len`, that `room` cannot take, and `k - 1` would not. */
  predicate FragsNeeded(k: int, len: int, room: int) {
    len - room <= 128 * k && (k == 0 || 128 * (k - 1) < len - room)
  }

  class PacketMemory {
    var mbufs: map<Id, Mbuf>
    var bufs: map<Id, Shared>
    var unused: Id
    ghost var layout: Layout

    ghost function H(): Heap
      reads this
    {
      Heap(mbufs, bufs, unused)
    }

    ghost predicate Valid()
      reads this
    {
      Inv(H(), layout, {}) && AllSized(H(), layout, None)
    }

    ghost function Packets(): map<Id, seq<byte>>
      reads this
    {
      Text(H(), layout)
    }

    /** A packet pointer that may be NULL. */
    ghost predicate Known(m: Option<Id>)
      reads this
    {
      m.Some? ==> m.value in Packets()
    }

    /** The bytes behind a packet pointer; none behind NULL. */
    ghost function Bytes(m: Option<Id>): seq<byte>
      reads this
    {
      if m.Some? && m.value in Packets() then Packets()[m.value] else []
    }

    /** The views behind a packet pointer. */
    ghost function Frags(m: Option<Id>): seq<Id>
      reads this
    {
      if m.Some? && m.value in layout.chains then layout.chains[m.value] else []
    }

    /** The tailroom of the last fragment of a packet. */
    ghost function EndRoom(head: Id): int
      reads this
    {
      Tailroom(H(), Last(Frags(Some(head))))
    }

    constructor ()
      ensures Valid() && Packets() == map[]
    {
      mbufs, bufs, unused, layout := map[], map[], 0, Layout(map[], map[]);
    }

    /** mbuf_alloc, when malloc succeeds. What malloc leaves in the buffer is not part of the contract. */
    method Alloc(payloadSize: nat) returns (m: Id)
      requires Valid()
      modifies this
      ensures Valid() && m !in old(Packets()) && Packets() == old(Packets())[m := []]
      ensures m !in old(mbufs) && m in mbufs && mbufs == old(mbufs)[m := mbufs[m]]
      ensures mbufs[m].sh !in old(bufs) && mbufs[m].sh in bufs && bufs == old(bufs)[mbufs[m].sh := bufs[mbufs[m].sh]]
      ensures mbufs[m].data == 128 && |bufs[mbufs[m].sh].bytes| - mbufs[m].tail == payloadSize
      ensures layout == AddChain(old(layout), m)
    {
      hide Inv, Text, Chained, Counted;
      ghost var h := H();
      var sh := unused;
      var total := payloadSize + HEADROOM;
      var buffer: seq<byte> := seq(total, _ => 0);
      m := unused + 1;
      var v := Mbuf(None, 0, sh, HEADROOM, HEADROOM);
      NewAddresses(h, layout);
      AllocKeeps(h, layout, {}, v, Shared(1, buffer));
      AddText(h, layout, {}, m, v, Shared(1, buffer));
      bufs := bufs[sh := Shared(1, buffer)];
      mbufs := mbufs[m := v];
      unused := unused + 2;
      layout := AddChain(layout, m);
      assert H() == AddMbuf(h, m, v, Shared(1, buffer));
    }

    /** mbuf_ensure_writable: afterwards no other view looks at the buffer of `m`. */
    method EnsureWritable(m: Id)
      requires Valid() && m in mbufs
      modifies this
      ensures Valid() && Packets() == old(Packets()) && layout == old(layout)
      ensures mbufs.Keys == old(mbufs.Keys) && m in mbufs && mbufs[m].sh in bufs && old(mbufs[m].sh in bufs)
      ensures bufs[mbufs[m].sh].bytes == old(bufs[mbufs[m].sh].bytes)
      ensures old(bufs[mbufs[m].sh].refcnt) == 1 ==> mbufs == old(mbufs) && bufs == old(bufs)
      ensures mbufs == old(mbufs)[m := old(mbufs[m]).(sh := mbufs[m].sh)] && Viewers(H(), mbufs[m].sh) == {m}
    {
      hide Inv, Text, Chained, Viewers;
      ghost var h := H();
      InvCounted(h, layout, {});
      var b := bufs[mbufs[m].sh];
      if b.refcnt == 1 {
        OnlyViewer(h, m);
        return;
      }
      UnshareKeeps(h, layout, {}, m);
      UnshareOnly(h, layout, m);
      SameText(h, Unshare(h, m), layout);
      bufs := bufs[mbufs[m].sh := b.(refcnt := b.refcnt - 1)][unused := Shared(1, b.bytes)];
      mbufs := mbufs[m := mbufs[m].(sh := unused)];
      unused := unused + 1;
      assert H() == Unshare(h, m);
    }

    /** One turn of the copying loop that finds room: memcpy behind the tail, then tail and pkt_len. */
    method Fill(head: Id, curr: Id, bytes: seq<byte>)
      requires Valid() && head in layout.chains && curr == Last(layout.chains[head]) && curr in mbufs
      requires mbufs[curr].sh in bufs && Viewers(H(), mbufs[curr].sh) == {curr}
      requires |bytes| <= Tailroom(H(), curr)
      modifies this
      ensures Valid() && layout == old(layout) && head in old(Packets())
      ensures Tailroom(H(), curr) == old(Tailroom(H(), curr)) - |bytes|
      ensures Packets() == old(Packets())[head := old(Packets())[head] + bytes]
    {
      hide Inv, Text, Chained, Viewers;
      ghost var h := H();
      InvCounted(h, layout, {});
      ghost var fs := layout.chains[head];
      ChainFacts(h, layout, {}, head);
      WriteKeeps(h, layout, {}, curr, bytes);
      WriteText(h, layout, {}, head, bytes);
      var v := mbufs[curr];
      var b := bufs[v.sh];
      bufs := bufs[v.sh := b.(bytes := b.bytes[..v.tail] + bytes + b.bytes[v.tail + |bytes|..])];
      mbufs := mbufs[curr := v.(tail := v.tail + |bytes|)];
      ghost var h1 := H();
      assert h1 == Write(h, curr, bytes);
      SetLenKeeps(h1, layout, {}, head, mbufs[head].pktLen + |bytes|);
      mbufs := mbufs[head := mbufs[head].(pktLen := mbufs[head].pktLen + |bytes|)];
      assert Sized(H(), layout, head);
    }

    /** The turn that finds no room: a fresh fragment behind the last one. */
    method Grow(head: Id, curr: Id) returns (frag: Id)
      requires Valid() && head in layout.chains && curr == Last(layout.chains[head]) && curr in mbufs
      modifies this
      ensures Valid() && Packets() == old(Packets())
      ensures head in layout.chains && layout.chains[head] == old(layout.chains[head]) + [frag]
      ensures layout.chains - {head} == old(layout).chains - {head} && Tailroom(H(), frag) == FRAG_SIZE
    {
      hide Inv, Text, Chained, Viewers;
      InvCounted(H(), layout, {});
      PacketNames(H(), layout);
      ghost var t := Packets();
      frag := Alloc(FRAG_SIZE);
      ghost var h := H();
      AddedAndTaken(t, head, frag);
      LinkKeeps(h, layout, {}, head, frag);
      LinkText(h, layout, head, frag);
      mbufs := mbufs[curr := mbufs[curr].(next := Some(frag))];
      layout := LinkChain(layout, head, frag);
      assert H() == LinkMbuf(h, curr, frag);
    }

    /** mbuf_append_large: the packet grows by the first `len` bytes of `buf`; every other packet, and
        so every clone that shares a buffer with this one, keeps its bytes. Fragments are added behind
        the old ones, and only as many as the bytes that do not fit need. */
    method Append(head: Id, buf: seq<byte>, len: int)
      requires Valid() && head in Packets() && len <= |buf|
      modifies this
      ensures Valid() && head in old(Packets())
      ensures Packets() == old(Packets())[head := old(Packets())[head] + buf[..if len < 0 then 0 else len]]
      ensures old(Frags(Some(head))) <= Frags(Some(head))
      ensures FragsNeeded(|Frags(Some(head))| - |old(Frags(Some(head)))|, len, old(EndRoom(head)))
      ensures layout.chains - {head} == old(layout).chains - {head}
    {
      hide Inv, Text, Chained, Viewers, AllSized, View, Content, InBuffer;
      PacketNames(H(), layout);
      ghost var t, fs, k := Packets(), layout.chains[head], 0;
      var curr := FindLast(head);
      ghost var room0 := Tailroom(H(), curr);
      var p, remain := 0, len;
      LastRoom(H(), layout, head);
      assert t[head] + buf[..0] == t[head];
      assert t == t[head := t[head] + buf[..0]];
      while remain > 0
        invariant 0 <= p && p + remain == len && (remain >= 0 || p == 0)
        invariant Valid() && head in layout.chains && curr == Last(layout.chains[head])
        invariant p <= |buf| && Packets() == t[head := t[head] + buf[..p]]
        invariant fs <= layout.chains[head] && k == |layout.chains[head]| - |fs|
        invariant layout.chains - {head} == old(layout).chains - {head}
        invariant remain - Tailroom(H(), curr) == len - room0 - FRAG_SIZE * k && Tailroom(H(), curr) >= 0
        invariant k == 0 || FRAG_SIZE * (k - 1) < len - room0
        decreases remain, if Tailroom(H(), curr) > 0 then 0 else 1
      {
        LastLive(H(), layout, head);
        EnsureWritable(curr);
        var room := |bufs[mbufs[curr].sh].bytes| - mbufs[curr].tail;
        if room > 0 {
          var n := if remain < room then remain else room;
          Fill(head, curr, buf[p..p + n]);
          assert t[head] + buf[..p] + buf[p..p + n] == t[head] + buf[..p + n];
          p := p + n;
          remain := remain - n;
        } else {
          curr := Grow(head, curr);
          k := k + 1;
        }
      }
    }

    /** The walk to the last fragment. */
    method FindLast(head: Id) returns (curr: Id)
      requires Valid() && head in layout.chains
      ensures Valid() && curr == Last(layout.chains[head])
    {
      hide Inv, Text, Chained;
      ghost var fs := layout.chains[head];
      ChainLinks(H(), layout, {}, head);
      ChainFacts(H(), layout, {}, head);
      curr := head;
      ghost var i := 0;
      while mbufs[curr].next.Some?
        invariant i < |fs| && curr == fs[i]
        decreases |fs| - i
      {
        curr := mbufs[curr].next.value;
        i := i + 1;
      }
    }

    /** mbuf_free_chain, on views that have been taken out of the layout: exactly they go, the
        remaining packets keep their bytes, and every buffer goes with its last view. */
    method FreeChain(m: Option<Id>, ghost gs: seq<Id>)
      requires Loose(H(), layout, gs) && m == First(gs)
      modifies this
      ensures Inv(H(), layout, {}) && layout == old(layout) && Packets() == old(Packets())
      ensures mbufs == old(mbufs) - SetOf(gs) && unused == old(unused)
      ensures forall s <- bufs :: s in old(bufs) && bufs[s].bytes == old(bufs)[s].bytes
    {
      hide Inv, Text, Chained, Counted, SetOf, First, Linked;
      var rest := m;
      ghost var k := 0;
      NoneLeft(gs);
      while rest.Some?
        invariant k <= |gs| && rest == First(gs[k..])
        invariant Inv(H(), layout, SetOf(gs[k..])) && layout == old(layout) && Packets() == old(Packets())
        invariant mbufs == old(mbufs) - SetOf(gs[..k]) && unused == old(unused)
        invariant forall s <- bufs :: s in old(bufs) && bufs[s].bytes == old(bufs)[s].bytes
        decreases |gs| - k
      {
        ghost var h := H();
        FirstNext(gs, k);
        OneMore(gs, k);
        LooseNext(h, old(H()), layout, gs, k);
        var v := mbufs[rest.value];
        DropKeeps(h, layout, SetOf(gs[k..]), rest.value);
        DropText(h, layout, SetOf(gs[k..]), rest.value);
        MinusOneMore(old(mbufs), SetOf(gs[..k]), rest.value);
        mbufs := mbufs - {rest.value};
        var b := bufs[v.sh];
        bufs := if b.refcnt == 1 then bufs - {v.sh} else bufs[v.sh := b.(refcnt := b.refcnt - 1)];
        assert H() == Drop(h, rest.value);
        rest := v.next;
        k := k + 1;
      }
      AllDone(gs, k);
    }

    /** mbuf_free_chain on a whole packet, or on NULL. */
    method Free(packet: Option<Id>)
      requires Valid() && Known(packet)
      modifies this
      ensures Valid() && Packets() == if packet == None then old(Packets()) else old(Packets()) - {packet.value}
      ensures mbufs == old(mbufs) - SetOf(old(Frags(packet)))
      ensures forall s <- bufs :: s in old(bufs) && bufs[s].bytes == old(bufs)[s].bytes
    {
      hide Inv, Text, Chained, Counted;
      if packet == None {
        return;
      }
      var head := packet.value;
      PacketNames(H(), layout);
      ghost var fs := layout.chains[head];
      DetachLoose(H(), layout, head);
      layout := layout.(chains := layout.chains - {head});
      FreeChain(Some(head), fs);
      HeadsLive(H(), layout);
    }

    /** __mbuf_clone_one; `ok` says whether malloc succeeds. */
    method CloneOne(src: Id, ok: bool) returns (dst: Option<Id>)
      requires Inv(H(), layout, {}) && src in mbufs
      modifies this
      ensures !ok ==> dst == None && H() == old(H()) && layout == old(layout)
      ensures ok ==> dst == Some(old(unused)) && Inv(H(), layout, {})
      ensures old(mbufs[src].sh in bufs)
      ensures ok ==> H() == Share(old(H()), src) && layout == AddChain(old(layout), old(unused))
    {
      hide Inv, Chained, Counted;
      InvCounted(H(), layout, {});
      if !ok {
        return None;
      }
      ShareKeeps(H(), layout, {}, src);
      var m := unused;
      var v := mbufs[src].(next := None);
      var b := bufs[v.sh];
      mbufs := mbufs[m := v];
      bufs := bufs[v.sh := b.(refcnt := b.refcnt + 1)];
      unused := unused + 1;
      layout := AddChain(layout, m);
      dst := Some(m);
    }

    /** One turn of the cloning loop: the next view is cloned and linked. */
    method CloneNext(ghost h: Heap, ghost l: Layout, ghost p: Id, n: Id, ghost i: nat, src: Id, dst: Id, ok: bool)
      returns (frag: Option<Id>, next: Option<Id>)
      requires Cloning(h, l, H(), layout, p, n, i) && 0 < i < |l.chains[p]| && src == l.chains[p][i]
      requires n in layout.chains && dst == Last(layout.chains[n])
      modifies this
      ensures frag.Some? <==> ok
      ensures !ok ==> H() == old(H()) && layout == old(layout)
      ensures ok ==> Cloning(h, l, H(), layout, p, n, i + 1) && next == First(l.chains[p][i + 1..])
      ensures ok ==> n in layout.chains && frag == Some(Last(layout.chains[n]))
    {
      hide Inv, Cloning, AddChain, LinkChain, View, First, SetOf, Share, Last;
      next := None;
      SourceKept(h, l, H(), layout, p, n, i);
      ghost var h1, l1 := H(), layout;
      frag := CloneOne(src, ok);
      if frag.Some? {
        CloneStep(h, l, h1, l1, p, n, i);
        mbufs := mbufs[dst := mbufs[dst].(next := frag)];
        layout := LinkChain(layout, n, frag.value);
        next := mbufs[src].next;
      }
    }

    /** The clean-up after a malloc that failed half-way. */
    method CloneUndo(ghost h: Heap, ghost l: Layout, ghost p: Id, n: Id, ghost i: nat)
      requires Cloning(h, l, H(), layout, p, n, i)
      modifies this
      ensures Valid() && mbufs == h.mbufs && bufs == h.bufs && Packets() == Text(h, l)
    {
      CloneDetach(h, l, H(), layout, p, n, i);
      assert n in layout.chains && Inv(h, l, {}) && AllSized(h, l, None);
      hide Inv, Text, Cloning, Loose, AllSized;
      ghost var ds := layout.chains[n];
      layout := layout.(chains := layout.chains - {n});
      FreeChain(Some(n), ds);
      CloneUndone(h, l, H(), layout);
    }

    /** mbuf_clone: a new packet with the same bytes, none of them copied. `room` is the number of
        mallocs that succeed; when one fails, every view and every count is as before. */
    method Clone(packet: Option<Id>, room: nat) returns (r: Option<Id>)
      requires Valid() && Known(packet)
      modifies this
      ensures Valid()
      ensures r.None? <==> packet == None || room < |old(Frags(packet))|
      ensures r.None? ==> mbufs == old(mbufs) && bufs == old(bufs) && Packets() == old(Packets())
      ensures r.Some? ==> r.value !in old(Packets()) && Packets() == old(Packets())[r.value := old(Bytes(packet))]
      ensures r.Some? ==> r.value in layout.chains && layout.chains - {r.value} == old(layout).chains
      ensures r.Some? ==> Shares(old(H()), H(), old(Frags(packet)), layout.chains[r.value])
    {
      hide Inv, Text, Cloning, Share, Shares, AddChain, AllSized, Loose, SetOf;
      if packet == None {
        return None;
      }
      var head := packet.value;
      PacketNames(H(), layout);
      ghost var h, l := H(), layout;
      ghost var fs := layout.chains[head];
      ChainFacts(h, l, {}, head);
      var newHead := CloneOne(head, 0 < room);
      if newHead.None? {
        return None;
      }
      CloneStarts(h, l, head);
      var currSrc, currDst, used := mbufs[head].next, newHead.value, 1;
      while currSrc.Some?
        invariant 1 <= used <= |fs| && currSrc == First(fs[used..]) && used <= room
        invariant Cloning(h, l, H(), layout, head, newHead.value, used)
        invariant newHead.value in layout.chains && currDst == Last(layout.chains[newHead.value])
        decreases |fs| - used
      {
        var frag, next := CloneNext(h, l, head, newHead.value, used, currSrc.value, currDst, used < room);
        if frag.None? {
          CloneUndo(h, l, head, newHead.value, used);
          return None;
        }
        currDst := frag.value;
        currSrc := next;
        used := used + 1;
      }
      CloneEnds(h, l, H(), layout, head, newHead.value, used);
      r := newHead;
    }

    /* ---- Reading ---- */

    lemma FragsFirst(m: Option<Id>)
      requires Valid() && Known(m)
      ensures m.Some? ==> |Frags(m)| > 0 && Frags(m)[0] == m.value
      ensures m.None? ==> Frags(m) == []
    {
      if m.Some? {
        PacketNames(H(), layout);
        ChainFacts(H(), layout, {}, m.value);
      }
    }

    lemma FragFacts(m: Option<Id>)
      requires Valid() && Known(m)
      ensures Bytes(m) == Content(H(), Frags(m)) && m == First(Frags(m))
      ensures forall i :: 0 <= i < |Frags(m)| ==> Frags(m)[i] in mbufs && InBuffer(H(), mbufs[Frags(m)[i]])
      ensures forall i :: 0 <= i < |Frags(m)| ==> mbufs[Frags(m)[i]].next == NextIn(Frags(m), i)
    {
      if m.Some? {
        PacketNames(H(), layout);
        TextIs(H(), layout, m.value);
        ChainFacts(H(), layout, {}, m.value);
        ChainLinks(H(), layout, {}, m.value);
      }
    }

    /** The headroom that a negative offset reaches into, and the packet. */
    ghost function Onward(m: Option<Id>, offset: int): seq<byte>
      reads this
    {
      Reached(H(), Frags(m), offset)
    }

    /** The loop that looks for the fragment holding `offset`. */
    method Seek(m: Option<Id>, offset: int) returns (curr: Option<Id>, start: int, ghost i: nat)
      requires Valid() && Known(m)
      ensures Valid() && Known(m) && i <= |Frags(m)| && curr == First(Frags(m)[i..])
      ensures offset == |Content(H(), Frags(m)[..i])| + start && (offset < 0 ==> i == 0)
      ensures curr.None? <==> m.None? || offset >= |Bytes(m)|
      ensures curr.Some? ==> start < |View(H(), curr.value)| && (0 <= offset ==> 0 <= start)
    {
      hide Inv, Content, View, Text, First, NextIn, Known, Bytes, Frags;
      ghost var fs := Frags(m);
      FragFacts(m);
      curr, start, i := m, offset, 0;
      EmptyContent(H());
      assert fs[0..] == fs && fs[..0] == [];
      FirstNext(fs, 0);
      while curr.Some? && start >= mbufs[curr.value].tail - mbufs[curr.value].data
        invariant 0 <= i <= |fs| && curr == First(fs[i..]) && (curr.Some? ==> i < |fs| && curr.value == fs[i])
        invariant offset == |Content(H(), fs[..i])| + start && (0 <= offset ==> 0 <= start) && (offset < 0 ==> i == 0)
        decreases |fs| - i
      {
        ContentStep(H(), fs, i);
        ViewLength(H(), fs[i]);
        FirstNext(fs, i);
        start := start - (mbufs[curr.value].tail - mbufs[curr.value].data);
        curr := mbufs[curr.value].next;
        i := i + 1;
        FirstNext(fs, i);
      }
      if curr.Some? {
        ContentStep(H(), fs, i);
        ViewLength(H(), fs[i]);
      } else {
        FirstNone(fs, i);
      }
    }

    /** mbuf_copy_bits: 0 exactly when the packet reaches from behind `offset` to behind all `len` bytes;
        `out` is what has been stored at `to`, also when the result is -1. With a negative offset it
        starts with as many bytes of headroom as the offset says. */
    method CopyBits(m: Option<Id>, offset: int, len: int) returns (r: int, out: seq<byte>)
      requires Valid() && Known(m)
      requires 0 < len ==> InFront(H(), Frags(m), offset)
      ensures Valid() && out == Range(Onward(m, offset), Origin(offset), len)
      ensures 0 <= offset ==> Onward(m, offset) == Bytes(m)
      ensures m.Some? && 0 < len ==> |Onward(m, offset)| == |Bytes(m)| + Origin(offset) - offset
      ensures r == if m.Some? && offset < |Bytes(m)| && offset + len <= |Bytes(m)| then 0 else -1
    {
      hide Inv, Content, View, Text, Range, Copied, First, NextIn, Known, Bytes, Frags, InBuffer, Reached;
      out := [];
      var curr, start, i := Seek(m, offset);
      ghost var h, fs, c, o := H(), Frags(m), Onward(m, offset), Origin(offset);
      FragFacts(m);
      FragsFirst(m);
      ReachedLength(h, fs, offset);
      ReachedNone(h, fs, offset);
      RangeNone(c, o, len);
      if curr.None? {
        return -1, [];
      }
      FirstNext(fs, i);
      var copyLen := len;
      while curr.Some? && copyLen > 0
        invariant 0 <= i <= |fs| && curr == First(fs[i..]) && (curr.Some? <==> i < |fs|)
        invariant copyLen > 0 ==> |Content(h, fs[..i])| + start == offset + |out|
        invariant curr.Some? && copyLen > 0 ==> start <= |View(h, fs[i])|
        invariant (curr.None? ==> start == 0) && (start < 0 ==> i == 0 && out == [])
        invariant copyLen == len - |out| && (copyLen >= 0 || out == [])
        invariant Copied(c, o, out)
        decreases |fs| - i
      {
        FirstNext(fs, i);
        ViewLength(h, fs[i]);
        ContentStep(h, fs, i);
        var v := mbufs[curr.value];
        var avail := v.tail - v.data - start;
        if avail > 0 {
          var toCopy := if copyLen < avail then copyLen else avail;
          CopyGrows(h, fs, i, start, toCopy, offset, out);
          BufferLive(h, fs[i]);
          out := out + bufs[v.sh].bytes[v.data + start..v.data + start + toCopy];
          copyLen := copyLen - toCopy;
        }
        start := 0;
        curr := v.next;
        i := i + 1;
        FirstNext(fs, i);
      }
      FirstNone(fs, i);
      CopiedBound(c, o, out);
      if 0 < len {
        RangeIs(c, o, len, out);
      }
      r := if copyLen > 0 then -1 else 0;
    }

    /** mbuf_header_pointer: null exactly when the packet does not reach over the range; without a copy
        exactly when one fragment, the one that holds `offset`, reaches as far as the range. The
        pointer lies in the headroom exactly for a negative offset. */
    method HeaderPointer(m: Option<Id>, offset: int, len: int) returns (p: Pointer, ghost i: nat)
      requires Valid() && Known(m) && InFront(H(), Frags(m), offset)
      ensures Valid()
      ensures p.Null? <==> m.None? || offset >= |Bytes(m)| || offset + len > |Bytes(m)|
      ensures p.Scratch? ==> p.bytes == Range(Onward(m, offset), Origin(offset), len)
      ensures p.InFrag? ==>
                && i < |Frags(m)| && p.m == Frags(m)[i] && p.m in mbufs
                && PointsAt(H(), p, len, Range(Onward(m, offset), Origin(offset), len))
                && p.at == mbufs[p.m].data + offset - |Content(H(), Frags(m)[..i])|
                && (p.at < mbufs[p.m].data <==> offset < 0)
      ensures 0 <= offset ==> Onward(m, offset) == Bytes(m)
      ensures m.Some? ==> |Onward(m, offset)| == |Bytes(m)| + Origin(offset) - offset
      ensures m.Some? && offset < |Bytes(m)| ==>
                && i < |Frags(m)| && (if offset < 0 then i == 0 else |Content(H(), Frags(m)[..i])| <= offset)
                && offset < |Content(H(), Frags(m)[..i + 1])|
                && (p.InFrag? <==> offset + len <= |Content(H(), Frags(m)[..i + 1])|)
    {
      hide Inv, Content, View, Text, Range, NextIn, First, PointsAt, Known, Bytes, Frags, InBuffer, Reached;
      var curr, start;
      curr, start, i := Seek(m, offset);
      ghost var h, fs := H(), Frags(m);
      FragFacts(m);
      FragsFirst(m);
      ReachedLength(h, fs, offset);
      FirstNext(fs, i);
      if curr.None? {
        return Null, i;
      }
      ViewLength(h, fs[i]);
      ContentStep(h, fs, i);
      var v := mbufs[curr.value];
      if v.tail - v.data - start >= len {
        p := InFrag(curr.value, v.data + start);
        FragPoints(h, fs, i, start, offset, len);
        return;
      }
      var r, out := CopyBits(m, offset, len);
      p := if r < 0 then Null else Scratch(out);
    }

    /** mbuf_pull: takes `len` bytes off the front, if the first fragment holds that many. A negative
        `len` makes headroom part of the packet again; one beyond the headroom leaves a view whose data
        lies before its buffer. */
    method Pull(m: Id, len: int) returns (data: Option<int>)
      requires Valid() && m in Packets() && m in mbufs
      modifies this
      ensures Valid() <==> 0 <= old(mbufs[m].data) + len
      ensures layout == old(layout) && old(mbufs[m].sh in bufs) && m in old(Packets())
      ensures data.None? <==> len > |old(View(H(), m))|
      ensures data.None? ==> Packets() == old(Packets()) && mbufs == old(mbufs) && bufs == old(bufs)
      ensures data.Some? ==> m in mbufs && data.value == mbufs[m].data == old(mbufs[m].data) + len && bufs == old(bufs)
      ensures data.Some? && Valid() ==> Packets() == old(Packets())[m := Pulled(old(H()), m, old(Packets())[m], len)]
    {
      hide Inv, View, Text, Pulled, Counted;
      PacketNames(H(), layout);
      InvCounted(H(), layout, {});
      ViewLength(H(), m);
      if len > mbufs[m].tail - mbufs[m].data {
        return None;
      }
      ghost var h := H();
      if 0 <= mbufs[m].data + len {
        PullText(h, layout, m, len);
        assert Sized(h, layout, m);
      }
      var v := mbufs[m];
      mbufs := mbufs[m := v.(data := v.data + len)];
      mbufs := mbufs[m := mbufs[m].(pktLen := mbufs[m].pktLen - len)];
      assert H() == Reslice(h, m, v.data + len, v.tail, v.pktLen - len);
      if mbufs[m].data < 0 {
        BrokenView(H(), layout, m);
      }
      data := Some(mbufs[m].data);
    }

    /** mbuf_trim lets go of everything behind view `i`. */
    method CutOff(m: Id, curr: Id, ghost i: nat)
      requires Valid() && m in layout.chains && i < |layout.chains[m]| && curr == layout.chains[m][i]
      modifies this
      ensures Inv(H(), layout, {}) && layout == CutLayout(old(layout), m, i) && old(curr in mbufs)
      ensures Packets() == old(Packets())[m := Content(old(H()), old(layout).chains[m][..i + 1])]
      ensures curr in mbufs && mbufs[curr] == old(mbufs[curr]).(next := None) && View(H(), curr) == View(old(H()), curr)
      ensures forall q <- Packets() :: q in mbufs && q in old(mbufs) && mbufs[q].pktLen == old(mbufs)[q].pktLen
    {
      hide Inv, Text, View, Content, SetOf, Loose, CutLayout, AllSized;
      ghost var h, l := H(), layout;
      PacketNames(h, l);
      CutLoose(h, l, m, i);
      var next := mbufs[curr].next;
      mbufs := mbufs[curr := mbufs[curr].(next := None)];
      layout := CutLayout(l, m, i);
      ghost var h1 := H();
      assert h1 == CutMbuf(h, curr);
      FreeChain(next, l.chains[m][i + 1..]);
      SameAfterFree(h, h1, H(), layout, curr);
      PacketNames(H(), layout);
      HeadsLive(H(), layout);
    }

    /** The cut of mbuf_trim inside view `i`. The stores to `tail` and `next_frag` touch only this
        view and the freeing only the later ones, so that their order does not matter. */
    method TrimAt(m: Id, curr: Id, keep: int, newLen: int, ghost i: nat)
      requires Valid() && m in layout.chains && i < |layout.chains[m]| && curr == layout.chains[m][i]
      requires newLen == |Content(H(), layout.chains[m][..i])| + keep && keep < |View(H(), curr)|
      requires keep < 0 ==> i == 0
      modifies this
      ensures Valid() <==> 0 <= keep
      ensures 0 <= keep ==> m in old(Packets()) && newLen <= |old(Packets())[m]|
      ensures 0 <= keep ==> Packets() == old(Packets())[m := old(Packets())[m][..newLen]]
    {
      hide Inv, Text, View, Content, CutLayout, InBuffer, AllSized;
      ghost var h, l := H(), layout;
      TextIs(h, l, m);
      ChainFacts(h, l, {}, m);
      PacketNames(h, l);
      CutOff(m, curr, i);
      ghost var h2 := H();
      CutChain(l, m, i);
      TextIs(h2, layout, m);
      var v := mbufs[curr];
      mbufs := mbufs[curr := v.(tail := v.data + keep)];
      ghost var h3 := H();
      mbufs := mbufs[m := mbufs[m].(pktLen := newLen)];
      if keep < 0 {
        BrokenView(H(), layout, curr);
      } else {
        TrimText(h, l.chains[m], h2, layout, m, i, keep);
        assert h3 == Reslice(h2, curr, v.data, v.data + keep, v.pktLen);
        SetLenKeeps(h3, layout, {}, m, newLen);
        assert H() == Reslice(h3, m, h3.mbufs[m].data, h3.mbufs[m].tail, newLen);
        TrimSized(h, l, H(), layout, m);
      }
    }

    /** mbuf_trim: keeps the first `newLen` bytes of a longer packet. A negative `newLen` leaves a view
        whose tail lies before its data. */
    method Trim(m: Id, newLen: int)
      requires Valid() && m in Packets()
      modifies this
      ensures m in old(Packets())
      ensures newLen >= |old(Packets())[m]| ==> Packets() == old(Packets()) && layout == old(layout)
      ensures newLen >= |old(Packets())[m]| ==> mbufs == old(mbufs) && bufs == old(bufs) && unused == old(unused)
      ensures Valid() <==> 0 <= newLen
      ensures 0 <= newLen < |old(Packets())[m]| ==> Packets() == old(Packets())[m := old(Packets())[m][..newLen]]
    {
      hide Inv, Text, View, Content, First, AllSized;
      PacketNames(H(), layout);
      ghost var fs := layout.chains[m];
      TextIs(H(), layout, m);
      ChainFacts(H(), layout, {}, m);
      ChainLinks(H(), layout, {}, m);
      HeadSized(H(), layout, m);
      if newLen >= mbufs[m].pktLen {
        return;
      }
      var currentLen := 0;
      var curr := Some(m);
      ghost var i := 0;
      EmptyContent(H());
      FirstNext(fs, 0);
      assert fs[..0] == [] && fs[0..] == fs;
      while curr.Some?
        invariant i <= |fs| && curr == First(fs[i..])
        invariant mbufs == old(mbufs) && bufs == old(bufs) && layout == old(layout) && unused == old(unused)
        invariant currentLen == |Content(H(), fs[..i])| && (currentLen <= newLen || i == 0)
        decreases |fs| - i
      {
        FirstNext(fs, i);
        ContentStep(H(), fs, i);
        ViewLength(H(), fs[i]);
        var v := mbufs[curr.value];
        if currentLen + (v.tail - v.data) > newLen {
          TrimAt(m, curr.value, newLen - currentLen, newLen, i);
          return;
        }
        currentLen := currentLen + (v.tail - v.data);
        curr := v.next;
        i := i + 1;
      }
      FirstNone(fs, i);
      assert false;
    }
  }
}
