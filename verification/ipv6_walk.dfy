/** The IPv6 extension-header walk of structure/check_ip.c, against a printer for header chains
    (section 4 of RFC 8200 and section 2.2 of RFC 4302). */
module Ipv6Walk {
  import opened Options
  import opened Machine

  const BASE: nat := 40       // sizeof(struct ip6_hdr)
  const NEXT_AT: nat := 6     // where ip6_nxt lies
  const FAILED: byte := 0xFF

  const HOPOPTS: byte := 0
  const ICMP: byte := 1
  const TCP: byte := 6
  const UDP: byte := 17
  const ROUTING: byte := 43
  const FRAGMENT: byte := 44
  const AH: byte := 51
  const ICMPV6: byte := 58
  const NONE: byte := 59
  const DSTOPTS: byte := 60

  /** The numbers at which the walk stops with an answer. */
  predicate IsUpper(p: byte) {
    p == TCP || p == UDP || p == ICMPV6 || p == ICMP || p == NONE
  }

  /** The extension headers whose length counts units of eight bytes. */
  predicate IsOptions(p: byte) {
    p == HOPOPTS || p == ROUTING || p == DSTOPTS
  }

  /** The length of an options or routing header, by its length byte. */
  function OptionsSize(extLen: int): int {
    (extLen + 1) * 8
  }

  /** The length of an authentication header, by its length byte. */
  function AuthSize(ahLen: int): int {
    (ahLen + 2) * 4
  }

  /** The fragment offset, by the two bytes that hold it and the flags. */
  function FragOffset(hi: int, lo: int): int {
    (hi * 0x100 + lo) / 8
  }

  /** `(int)offset` */
  function ToInt(offset: nat): int {
    (offset + 0x8000_0000) % 0x1_0000_0000 - 0x8000_0000
  }

  /** The return value, and what has been stored at ip6_head_len, if anything. */
  datatype Answer = Answer(proto: byte, headLen: Option<int>)

  /* ---- Chains of headers, by the numbers of the standards ---- */

  /** An extension header without its first byte, which names the header that follows. */
  datatype Header =
    | OptionsHeader(kind: byte, body: seq<byte>)            // what follows the length byte
    | FirstFragment(reserved: byte, flags: byte, id: seq<byte>)
    | Authentication(body: seq<byte>)

  predicate WellFormed(h: Header) {
    match h
    case OptionsHeader(kind, body) => kind in {0, 43, 60} && 8 <= |body| + 2 <= 256 * 8 && (|body| + 2) % 8 == 0
    case FirstFragment(_, flags, id) => flags < 8 && |id| == 4
    case Authentication(body) => 2 * 4 <= |body| + 2 <= 257 * 4 && (|body| + 2) % 4 == 0
  }

  function Kind(h: Header): byte {
    match h
    case OptionsHeader(kind, _) => kind
    case FirstFragment(_, _, _) => 44
    case Authentication(_) => 51
  }

  /** The number that announces the chain. */
  function Announces(hs: seq<Header>, upper: byte): byte {
    if hs == [] then upper else Kind(hs[0])
  }

  function EncodeOne(h: Header, next: byte): (s: seq<byte>)
    requires WellFormed(h)
    ensures |s| >= 8 && s[0] == next
  {
    match h
    case OptionsHeader(_, body) => [next, (|body| + 2) / 8 - 1] + body
    case FirstFragment(reserved, flags, id) => [next, reserved, 0, flags] + id
    case Authentication(body) => [next, (|body| + 2) / 4 - 2] + body
  }

  ghost predicate AllWellFormed(hs: seq<Header>) {
    forall h <- hs :: WellFormed(h)
  }

  /** The bytes of a chain that ends in `upper`. */
  function Encode(hs: seq<Header>, upper: byte): seq<byte>
    requires forall h <- hs :: WellFormed(h)
  {
    if hs == [] then [] else EncodeOne(hs[0], Announces(hs[1..], upper)) + Encode(hs[1..], upper)
  }

  /** The packet is a base header, the chain `hs` ending in `upper`, and anything. */
  ghost predicate Reads(packet: seq<byte>, hs: seq<Header>, upper: byte) {
    && |packet| >= 40 && AllWellFormed(hs) && upper in {1, 6, 17, 58, 59} && packet[6] == Announces(hs, upper)
    && Encode(hs, upper) <= packet[40..]
  }

  /* ---- The walk ---- */

  /** The loop from `offset` on, where `next` announces the header. */
  function Walk(packet: seq<byte>, next: byte, offset: nat): (a: Answer)
    requires offset <= |packet|
    decreases |packet| - offset
  {
    if IsUpper(next) then
      Answer(next, Some(ToInt(offset)))
    else if IsOptions(next) then
      if offset + 2 > |packet| then Answer(FAILED, None)
      else
        var size := OptionsSize(packet[offset + 1]);
        if offset + size > |packet| then Answer(FAILED, None) else Walk(packet, packet[offset], offset + size)
    else if next == FRAGMENT then
      if offset + 8 > |packet| then Answer(FAILED, None)
      else if FragOffset(packet[offset + 2], packet[offset + 3]) != 0 then Answer(FAILED, None)
      else Walk(packet, packet[offset], offset + 8)
    else if next == AH then
      if offset + 2 > |packet| then Answer(FAILED, None)
      else
        var size := AuthSize(packet[offset + 1]);
        if offset + size > |packet| then Answer(FAILED, None) else Walk(packet, packet[offset], offset + size)
    else
      Answer(FAILED, None)
  }

  /** get_ipv6_final_next_header. A NULL packet is None; `wantsLength` says that ip6_head_len is not NULL. */
  function FinalNextHeader(packet: Option<seq<byte>>, wantsLength: bool): Answer {
    if packet == None || !wantsLength || |packet.value| < BASE then Answer(FAILED, None)
    else Walk(packet.value, packet.value[NEXT_AT], BASE)
  }

  method GetIpv6FinalNextHeader(packet: Option<seq<byte>>, wantsLength: bool)
    returns (proto: byte, headLen: Option<int>)
    ensures Answer(proto, headLen) == FinalNextHeader(packet, wantsLength)
  {
    headLen := None;
    if packet == None || !wantsLength || |packet.value| < BASE {
      return FAILED, headLen;
    }
    var p := packet.value;
    var next := p[NEXT_AT];
    var offset := BASE;
    while true
      invariant BASE <= offset <= |p| && headLen == None
      invariant FinalNextHeader(packet, wantsLength) == Walk(p, next, offset)
      decreases |p| - offset
    {
      if next == TCP || next == UDP || next == ICMPV6 || next == ICMP || next == NONE {
        headLen := Some(ToInt(offset));
        return next, headLen;
      } else if next == HOPOPTS || next == ROUTING || next == DSTOPTS {
        if offset + 2 > |p| {
          return FAILED, headLen;
        }
        var size := OptionsSize(p[offset + 1]);
        if offset + size > |p| {
          return FAILED, headLen;
        }
        next := p[offset];
        offset := offset + size;
      } else if next == FRAGMENT {
        if offset + 8 > |p| {
          return FAILED, headLen;
        }
        if FragOffset(p[offset + 2], p[offset + 3]) != 0 {
          return FAILED, headLen;
        }
        next := p[offset];
        offset := offset + 8;
      } else if next == AH {
        if offset + 2 > |p| {
          return FAILED, headLen;
        }
        var size := AuthSize(p[offset + 1]);
        if offset + size > |p| {
          return FAILED, headLen;
        }
        next := p[offset];
        offset := offset + size;
      } else {
        return FAILED, headLen;
      }
    }
  }

  /* ---- The numbers of the wire format ---- */

  function At(packet: seq<byte>, i: nat): int {
    if i < |packet| then packet[i] else 0
  }

  /** One turn of the loop, by the protocol numbers and lengths of RFC 8200 and RFC 4302. */
  lemma TurnOnTheWire(packet: seq<byte>, next: byte, offset: nat)
    requires offset <= |packet|
    ensures var a, n := Walk(packet, next, offset), |packet|;
            && (next in {1, 6, 17, 58, 59} ==>
                 a == Answer(next, Some((offset + 0x8000_0000) % 0x1_0000_0000 - 0x8000_0000)))
            && (next in {0, 43, 60} ==>
                 a == if offset + 2 > n || offset + 8 * (At(packet, offset + 1) + 1) > n then Answer(0xFF, None)
                      else Walk(packet, packet[offset], offset + 8 * (At(packet, offset + 1) + 1)))
            && (next == 44 ==>
                 a == if offset + 8 > n || packet[offset + 2] != 0 || packet[offset + 3] >= 8 then Answer(0xFF, None)
                      else Walk(packet, packet[offset], offset + 8))
            && (next == 51 ==>
                 a == if offset + 2 > n || offset + 4 * (At(packet, offset + 1) + 2) > n then Answer(0xFF, None)
                      else Walk(packet, packet[offset], offset + 4 * (At(packet, offset + 1) + 2)))
            && (next !in {0, 1, 6, 17, 43, 44, 51, 58, 59, 60} ==> a == Answer(0xFF, None))
  {
    if next == 44 && offset + 8 <= |packet| {
      FirstPart(packet[offset + 2], packet[offset + 3]);
    }
  }

  /** The upper thirteen bits of two bytes are zero. */
  lemma FirstPart(hi: byte, lo: byte)
    ensures FragOffset(hi, lo) == 0 <==> hi == 0 && lo < 8
  {
  }

  /** What the function answers, by the bytes of the packet: byte 6 announces what follows the forty
      bytes of the base header. */
  lemma AnswerOnTheWire(packet: seq<byte>)
    ensures FinalNextHeader(None, true) == FinalNextHeader(Some(packet), false) == Answer(0xFF, None)
    ensures var a, n := FinalNextHeader(Some(packet), true), |packet|;
            if n < 40 then a == Answer(0xFF, None)
            else
              && (packet[6] in {1, 6, 17, 58, 59} ==> a == Answer(packet[6], Some(40)))
              && (packet[6] in {0, 43, 60} ==>
                   a == if n < 42 || 40 + 8 * (At(packet, 41) + 1) > n then Answer(0xFF, None)
                        else Walk(packet, packet[40], 40 + 8 * (At(packet, 41) + 1)))
              && (packet[6] == 44 ==>
                   a == if n < 48 || packet[42] != 0 || packet[43] >= 8 then Answer(0xFF, None)
                        else Walk(packet, packet[40], 48))
              && (packet[6] == 51 ==>
                   a == if n < 42 || 40 + 4 * (At(packet, 41) + 2) > n then Answer(0xFF, None)
                        else Walk(packet, packet[40], 40 + 4 * (At(packet, 41) + 2)))
              && (packet[6] !in {0, 1, 6, 17, 43, 44, 51, 58, 59, 60} ==> a == Answer(0xFF, None))
  {
    hide Walk;
    if |packet| >= 40 {
      TurnOnTheWire(packet, packet[6], 40);
    }
  }

  /* ---- From chains to answers ---- */

  /** `h` is the header that lies at `offset`. */
  predicate LiesAt(packet: seq<byte>, offset: nat, h: Header) {
    && offset + 8 <= |packet| && WellFormed(h)
    && match h
       case OptionsHeader(_, body) =>
         && offset + OptionsSize(packet[offset + 1]) <= |packet|
         && body == packet[offset + 2..offset + OptionsSize(packet[offset + 1])]
       case FirstFragment(r, f, id) =>
         packet[offset + 1] == r && packet[offset + 2] == 0 && packet[offset + 3] == f
         && id == packet[offset + 4..offset + 8]
       case Authentication(body) =>
         && offset + AuthSize(packet[offset + 1]) <= |packet|
         && body == packet[offset + 2..offset + AuthSize(packet[offset + 1])]
  }

  lemma PrintedLies(packet: seq<byte>, offset: nat, h: Header, next: byte)
    requires WellFormed(h) && offset <= |packet| && EncodeOne(h, next) <= packet[offset..]
    ensures LiesAt(packet, offset, h) && packet[offset] == next
  {
    var s := EncodeOne(h, next);
    var t := packet[offset..];
    assert t[..|s|] == s;
    assert packet[offset] == t[0] == s[0] && packet[offset + 1] == t[1] == s[1];
    match h {
      case OptionsHeader(_, body) => assert body == s[2..] == t[2..|s|] == packet[offset + 2..offset + |s|];
      case FirstFragment(_, _, id) =>
        assert packet[offset + 2] == t[2] == s[2] && packet[offset + 3] == t[3] == s[3];
        assert id == s[4..] == t[4..8] == packet[offset + 4..offset + 8];
      case Authentication(body) => assert body == s[2..] == t[2..|s|] == packet[offset + 2..offset + |s|];
    }
  }

  lemma PrintedSize(packet: seq<byte>, offset: nat, h: Header, next: byte)
    requires LiesAt(packet, offset, h)
    ensures offset + |EncodeOne(h, next)| <= |packet|
    ensures |EncodeOne(h, next)| == match h
                                    case OptionsHeader(_, _) => OptionsSize(packet[offset + 1])
                                    case FirstFragment(_, _, _) => 8
                                    case Authentication(_) => AuthSize(packet[offset + 1])
  {
  }

  /** One header is stepped over. */
  lemma WalkOne(packet: seq<byte>, offset: nat, h: Header, next: byte)
    requires LiesAt(packet, offset, h) && packet[offset] == next
    ensures WellFormed(h) && offset + |EncodeOne(h, next)| <= |packet|
    ensures Walk(packet, Kind(h), offset) == Walk(packet, next, offset + |EncodeOne(h, next)|)
  {
    hide ToInt, EncodeOne;
    PrintedSize(packet, offset, h, next);
    if h.FirstFragment? {
      FirstOffset(h.flags);
    }
  }

  lemma FirstOffset(flags: int)
    ensures 0 <= flags < 8 ==> FragOffset(0, flags) == 0
  {
  }

  lemma WalkEnd(packet: seq<byte>, upper: byte, offset: nat)
    requires IsUpper(upper) && offset <= |packet|
    ensures Walk(packet, upper, offset) == Answer(upper, Some(ToInt(offset)))
  {
  }

  lemma PrefixSplit(s: seq<byte>, rest: seq<byte>, packet: seq<byte>, offset: nat)
    requires offset <= |packet| && s + rest <= packet[offset..]
    ensures s <= packet[offset..] && offset + |s| <= |packet| && rest <= packet[offset + |s|..]
  {
    var t := packet[offset..];
    assert t[..|s|] == (s + rest)[..|s|] == s;
    assert rest == (s + rest)[|s|..];
    assert t[|s|..] == packet[offset + |s|..];
    assert t[|s|..][..|rest|] == t[|s|..|s| + |rest|] == rest;
  }

  /** The walk over a printed chain ends at its upper protocol and behind its last byte. */
  lemma {:induction false} WalkPrinted(packet: seq<byte>, offset: nat, hs: seq<Header>, upper: byte)
    requires AllWellFormed(hs) && IsUpper(upper) && offset <= |packet| && Encode(hs, upper) <= packet[offset..]
    ensures Walk(packet, Announces(hs, upper), offset) == Answer(upper, Some(ToInt(offset + |Encode(hs, upper)|)))
    decreases |hs|
  {
    hide Walk, EncodeOne, IsUpper, WellFormed, ToInt, LiesAt;
    if hs == [] {
      WalkEnd(packet, upper, offset);
    } else {
      var next := Announces(hs[1..], upper);
      var s, rest := EncodeOne(hs[0], next), Encode(hs[1..], upper);
      PrefixSplit(s, rest, packet, offset);
      PrintedLies(packet, offset, hs[0], next);
      WalkOne(packet, offset, hs[0], next);
      WalkPrinted(packet, offset + |s|, hs[1..], upper);
    }
  }

  /* ---- From answers to chains ---- */

  /** The header that the walk steps over at `offset`. */
  lemma ReadOne(packet: seq<byte>, kind: byte, offset: nat) returns (h: Header)
    requires offset <= |packet| && !IsUpper(kind) && Walk(packet, kind, offset).proto != FAILED
    ensures offset < |packet| && WellFormed(h) && Kind(h) == kind
    ensures EncodeOne(h, packet[offset]) <= packet[offset..]
    ensures Walk(packet, kind, offset) == Walk(packet, packet[offset], offset + |EncodeOne(h, packet[offset])|)
  {
    hide ToInt, LiesAt, EncodeOne;
    if IsOptions(kind) {
      h := ReadOptions(packet, kind, offset);
    } else if kind == FRAGMENT {
      h := ReadFragment(packet, offset);
    } else {
      h := ReadAuthentication(packet, offset);
    }
    PrintsBack(packet, offset, h);
    WalkOne(packet, offset, h, packet[offset]);
  }

  lemma ReadOptions(packet: seq<byte>, kind: byte, offset: nat) returns (h: Header)
    requires offset + 2 <= |packet| && IsOptions(kind) && offset + OptionsSize(packet[offset + 1]) <= |packet|
    ensures LiesAt(packet, offset, h) && Kind(h) == kind
  {
    h := OptionsHeader(kind, packet[offset + 2..offset + OptionsSize(packet[offset + 1])]);
  }

  lemma ReadFragment(packet: seq<byte>, offset: nat) returns (h: Header)
    requires offset + 8 <= |packet| && FragOffset(packet[offset + 2], packet[offset + 3]) == 0
    ensures LiesAt(packet, offset, h) && Kind(h) == FRAGMENT
  {
    h := FirstFragment(packet[offset + 1], packet[offset + 3], packet[offset + 4..offset + 8]);
  }

  lemma ReadAuthentication(packet: seq<byte>, offset: nat) returns (h: Header)
    requires offset + 2 <= |packet| && offset + AuthSize(packet[offset + 1]) <= |packet|
    ensures LiesAt(packet, offset, h) && Kind(h) == AH
  {
    h := Authentication(packet[offset + 2..offset + AuthSize(packet[offset + 1])]);
  }

  lemma PrintsBack(packet: seq<byte>, offset: nat, h: Header)
    requires LiesAt(packet, offset, h)
    ensures offset < |packet| && WellFormed(h) && EncodeOne(h, packet[offset]) <= packet[offset..]
  {
    var s := EncodeOne(h, packet[offset]);
    assert |s| <= |packet[offset..]|;
    forall i | 0 <= i < |s| ensures s[i] == packet[offset..][i] {
    }
  }

  /** Whatever the walk accepts is a printed chain. */
  lemma {:induction false} ReadAll(packet: seq<byte>, kind: byte, offset: nat) returns (hs: seq<Header>)
    requires offset <= |packet| && Walk(packet, kind, offset).proto != FAILED
    ensures var upper := Walk(packet, kind, offset).proto;
            && AllWellFormed(hs) && IsUpper(upper) && kind == Announces(hs, upper)
            && Encode(hs, upper) <= packet[offset..]
    decreases |packet| - offset
  {
    hide Walk, EncodeOne, WellFormed, IsUpper, ToInt, Kind;
    if IsUpper(kind) {
      hs := [];
      WalkEnd(packet, kind, offset);
    } else {
      var upper := Walk(packet, kind, offset).proto;
      var h := ReadOne(packet, kind, offset);
      var s := EncodeOne(h, packet[offset]);
      var rest := ReadAll(packet, packet[offset], offset + |s|);
      hs := [h] + rest;
      assert hs[1..] == rest;
      PrefixJoin(s, Encode(rest, upper), packet, offset);
    }
  }

  lemma PrefixJoin(s: seq<byte>, rest: seq<byte>, packet: seq<byte>, offset: nat)
    requires offset + |s| <= |packet| && s <= packet[offset..] && rest <= packet[offset + |s|..]
    ensures s + rest <= packet[offset..]
  {
    assert packet[offset..] == s + packet[offset + |s|..];
  }

  /* ---- The results ---- */

  /** A buffer that reads as a chain gets the chain's upper protocol and its exact length. */
  lemma ChainAccepted(packet: seq<byte>, hs: seq<Header>, upper: byte)
    requires Reads(packet, hs, upper)
    ensures FinalNextHeader(Some(packet), true) == Answer(upper, Some(ToInt(40 + |Encode(hs, upper)|)))
    ensures 40 + |Encode(hs, upper)| <= |packet| && upper != 0xFF
  {
    WalkPrinted(packet, BASE, hs, upper);
  }

  /** The walk answers exactly for the buffers that read as a chain, and then with that chain's upper
      protocol; otherwise it fails and stores nothing. */
  lemma AnsweredExactly(packet: seq<byte>)
    ensures var a := FinalNextHeader(Some(packet), true);
            && (a.proto != 0xFF <==> exists hs, upper :: Reads(packet, hs, upper))
            && (a.proto == 0xFF ==> a.headLen == None)
            && forall hs, upper :: Reads(packet, hs, upper) ==>
                 AllWellFormed(hs) && a.proto == upper && a.headLen == Some(ToInt(40 + |Encode(hs, upper)|))
  {
    hide FinalNextHeader, Reads, Encode, ToInt;
    var a := FinalNextHeader(Some(packet), true);
    AnswerRead(packet);
    FailedStoresNothing(packet);
    forall hs, upper | Reads(packet, hs, upper)
      ensures AllWellFormed(hs) && a.proto == upper != 0xFF && a.headLen == Some(ToInt(40 + |Encode(hs, upper)|))
    {
      ReadsWell(packet, hs, upper);
      ChainAccepted(packet, hs, upper);
    }
  }

  lemma ReadsWell(packet: seq<byte>, hs: seq<Header>, upper: byte)
    requires Reads(packet, hs, upper)
    ensures AllWellFormed(hs)
  {
  }

  lemma AnswerRead(packet: seq<byte>)
    ensures var a := FinalNextHeader(Some(packet), true);
            a.proto != FAILED ==> exists hs :: Reads(packet, hs, a.proto)
  {
    var a := FinalNextHeader(Some(packet), true);
    if a.proto != FAILED {
      var hs := ReadAll(packet, packet[NEXT_AT], BASE);
      assert Reads(packet, hs, a.proto);
    }
  }

  lemma FailedStoresNothing(packet: seq<byte>)
    ensures FinalNextHeader(Some(packet), true).proto == FAILED ==> FinalNextHeader(Some(packet), true).headLen == None
  {
    if |packet| >= BASE {
      WalkFailed(packet, packet[NEXT_AT], BASE);
    }
  }

  lemma {:induction false} WalkFailed(packet: seq<byte>, next: byte, offset: nat)
    requires offset <= |packet|
    ensures Walk(packet, next, offset).proto == FAILED ==> Walk(packet, next, offset).headLen == None
    decreases |packet| - offset
  {
    if offset + 8 <= |packet| && !IsUpper(next) {
      if IsOptions(next) {
        if offset + OptionsSize(packet[offset + 1]) <= |packet| {
          WalkFailed(packet, packet[offset], offset + OptionsSize(packet[offset + 1]));
        }
      } else if next == FRAGMENT {
        WalkFailed(packet, packet[offset], offset + 8);
      } else if next == AH && offset + AuthSize(packet[offset + 1]) <= |packet| {
        WalkFailed(packet, packet[offset], offset + AuthSize(packet[offset + 1]));
      }
    }
  }

  /** For a buffer of less than 2 GiB the stored length is the true one. */
  lemma LengthExact(packet: seq<byte>, hs: seq<Header>, upper: byte)
    requires Reads(packet, hs, upper) && |packet| < 0x8000_0000
    ensures FinalNextHeader(Some(packet), true).headLen == Some(40 + |Encode(hs, upper)|)
  {
    hide Reads, Encode, FinalNextHeader;
    ReadsLength(packet, hs, upper);
    ChainAccepted(packet, hs, upper);
  }

  lemma ReadsLength(packet: seq<byte>, hs: seq<Header>, upper: byte)
    requires Reads(packet, hs, upper)
    ensures 40 + |Encode(hs, upper)| <= |packet|
  {
  }

  /** No buffer reads as two chains. */
  lemma {:induction false} OneReading(s: seq<byte>, a: seq<Header>, b: seq<Header>, u: byte, v: byte)
    requires AllWellFormed(a) && AllWellFormed(b) && IsUpper(u) && IsUpper(v) && Announces(a, u) == Announces(b, v)
    requires Encode(a, u) <= s && Encode(b, v) <= s
    ensures a == b && u == v
    decreases |a|
  {
    hide EncodeOne, WellFormed, IsUpper, Kind;
    ChainEnds(a, u);
    ChainEnds(b, v);
    if a != [] {
      var m, n := Announces(a[1..], u), Announces(b[1..], v);
      var x, y := EncodeOne(a[0], m), EncodeOne(b[0], n);
      assert s[0..] == s;
      PrefixSplit(x, Encode(a[1..], u), s, 0);
      PrefixSplit(y, Encode(b[1..], v), s, 0);
      SameHeader(s, a[0], b[0], m, n);
      OneReading(s[|x|..], a[1..], b[1..], u, v);
      assert a == [a[0]] + a[1..] && b == [b[0]] + b[1..];
    }
  }

  /** A chain announces an upper protocol only when it is empty. */
  lemma ChainEnds(hs: seq<Header>, upper: byte)
    requires AllWellFormed(hs) && IsUpper(upper)
    ensures IsUpper(Announces(hs, upper)) <==> hs == []
  {
    assert hs != [] ==> WellFormed(hs[0]);
  }

  lemma SameHeader(s: seq<byte>, g: Header, h: Header, m: byte, n: byte)
    requires WellFormed(g) && WellFormed(h) && Kind(g) == Kind(h)
    requires EncodeOne(g, m) <= s && EncodeOne(h, n) <= s
    ensures g == h && m == n
  {
    var x, y := EncodeOne(g, m), EncodeOne(h, n);
    assert s[0] == x[0] == y[0] && s[1] == x[1] == y[1];
    assert |x| == |y|;
    assert x == s[..|x|] == y;
    match g {
      case OptionsHeader(_, body) => assert body == x[2..] && h.body == y[2..];
      case FirstFragment(_, _, id) => assert id == x[4..] && h.id == y[4..] && x[3] == y[3];
      case Authentication(body) => assert body == x[2..] && h.body == y[2..];
    }
  }
}
