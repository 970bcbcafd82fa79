/** What linking and unlinking a node does to a skip list, level by level (structure/skiplist.h). */
module SkipSteps {
  import opened SkipShape

  function Inserted<T>(s: seq<T>, r: nat, x: T): seq<T>
    requires r <= |s|
  {
    s[..r] + [x] + s[r..]
  }

  function Removed<T>(s: seq<T>, r: nat): seq<T>
    requires r < |s|
  {
    s[..r] + s[r + 1..]
  }

  /* ---- The stores ---- */

  function SetHead(m: Mem, i: nat, v: Node?): Mem
    requires i < |m.head|
  {
    m.(head := m.head[i := v])
  }

  function SetNext(m: Mem, x: Node, i: nat, v: Node?): Mem
    requires x in m.at && i < |m.at[x].next|
  {
    m.(at := m.at[x := m.at[x].(next := m.at[x].next[i := v])])
  }

  function SetPrev(m: Mem, x: Node, v: Node?): Mem
    requires x in m.at
  {
    m.(at := m.at[x := m.at[x].(prev := v)])
  }

  /** Every node of the memory has its array of links. */
  ghost predicate Wide(m: Mem) {
    |m.head| == MAX_LEVEL && forall x <- m.at :: |m.at[x].next| == MAX_LEVEL
  }

  /** The two stores that link `x` into level `i` behind `u`, or behind the head. */
  function LinkAt(m: Mem, x: Node, u: Node?, i: nat): Mem
    requires Wide(m) && x in m.at && (u != null ==> u in m.at) && i < MAX_LEVEL
  {
    if u == null then SetHead(SetNext(m, x, i, m.head[i]), i, x)
    else SetNext(SetNext(m, x, i, m.at[u].next[i]), u, i, x)
  }

  /** The store, if any, that unlinks `x` from level `i`. */
  function UnlinkAt(m: Mem, x: Node, u: Node?, i: nat): Mem
    requires Wide(m) && x in m.at && (u != null ==> u in m.at) && i < MAX_LEVEL
  {
    if u == null then
      if m.head[i] == x then SetHead(m, i, m.at[x].next[i]) else m
    else
      if m.at[u].next[i] == x then SetNext(m, u, i, m.at[x].next[i]) else m
  }

  /** Nothing differs but the links of level `i`. */
  ghost predicate OnlyLevel(m: Mem, m': Mem, i: nat) {
    && Wide(m) && Wide(m') && m'.at.Keys == m.at.Keys
    && (forall x <- m.at :: m'.at[x].prev == m.at[x].prev && m'.at[x].level == m.at[x].level)
    && forall k: nat :: k < MAX_LEVEL && k != i ==> SameLevel(m, m', k)
  }

  ghost predicate SameLevel(m: Mem, m': Mem, k: nat)
    requires Wide(m) && Wide(m') && m'.at.Keys == m.at.Keys && k < MAX_LEVEL
  {
    m'.head[k] == m.head[k] && forall x <- m.at :: m'.at[x].next[k] == m.at[x].next[k]
  }

  lemma LinkOnly(m: Mem, x: Node, u: Node?, i: nat)
    requires Wide(m) && x in m.at && (u != null ==> u in m.at) && i < MAX_LEVEL
    ensures OnlyLevel(m, LinkAt(m, x, u, i), i)
  {
  }

  lemma UnlinkOnly(m: Mem, x: Node, u: Node?, i: nat)
    requires Wide(m) && x in m.at && (u != null ==> u in m.at) && i < MAX_LEVEL
    ensures OnlyLevel(m, UnlinkAt(m, x, u, i), i)
  {
  }

  lemma OtherLevelsKept(m: Mem, m': Mem, nodes: seq<Node>, hs: seq<int>, i: nat)
    requires OnlyLevel(m, m', i) && Known(m, nodes, hs)
    ensures Known(m', nodes, hs)
    ensures forall k: nat :: k < MAX_LEVEL && k != i && LevelOk(m, nodes, hs, k) ==> LevelOk(m', nodes, hs, k)
    ensures PrevOk(m, nodes) ==> PrevOk(m', nodes)
  {
    forall k: nat | k < MAX_LEVEL && k != i && LevelOk(m, nodes, hs, k) ensures LevelOk(m', nodes, hs, k) {
      assert SameLevel(m, m', k);
      forall j: nat ensures LinkOk(m', nodes, hs, k, j) {
        assert LinkOk(m, nodes, hs, k, j);
      }
    }
    if PrevOk(m, nodes) {
      forall j: nat ensures BackOk(m', nodes, j) {
        assert BackOk(m, nodes, j);
      }
    }
  }

  /* ---- Insertion ---- */

  lemma NextBeforeInsert(hs: seq<int>, r: nat, h: int, from: nat, i: int)
    requires from <= r <= |hs|
    ensures var k := NextTall(hs, from, i);
            NextTall(Inserted(hs, r, h), from, i) == if k < r then k else if h > i then r else k + 1
  {
    var k := NextTall(hs, from, i);
    NextTallIs(Inserted(hs, r, h), from, i, if k < r then k else if h > i then r else k + 1);
  }

  lemma NextAfterInsert(hs: seq<int>, r: nat, h: int, from: nat, i: int)
    requires r <= from <= |hs|
    ensures NextTall(Inserted(hs, r, h), from + 1, i) == NextTall(hs, from, i) + 1
  {
    NextTallIs(Inserted(hs, r, h), from + 1, i, NextTall(hs, from, i) + 1);
  }

  /** Level `i` after the insertion: node `j` of the old list keeps the link it had, unless the new node
      comes between. */
  lemma LinkAfterInsert(nodes: seq<Node>, hs: seq<int>, x: Node, h: int, r: nat, i: nat, from: nat)
    requires |nodes| == |hs| && from <= r <= |hs|
    ensures var k := NextTall(hs, from, i);
            At(Inserted(nodes, r, x), NextTall(Inserted(hs, r, h), from, i))
            == if k < r || h <= i then At(nodes, k) else x
  {
    NextBeforeInsert(hs, r, h, from, i);
  }

  lemma LinkPastInsert(nodes: seq<Node>, hs: seq<int>, x: Node, h: int, r: nat, i: nat, from: nat)
    requires |nodes| == |hs| && r <= from <= |hs|
    ensures At(Inserted(nodes, r, x), NextTall(Inserted(hs, r, h), from + 1, i)) == At(nodes, NextTall(hs, from, i))
  {
    NextAfterInsert(hs, r, h, from, i);
  }

  lemma InsertHeight(m: Mem, nodes: seq<Node>, hs: seq<int>, x: Node, r: nat)
    requires Known(m, nodes, hs) && r <= |nodes| && x in m.at && 1 <= m.at[x].level <= MAX_LEVEL
    ensures Known(m, Inserted(nodes, r, x), Inserted(hs, r, m.at[x].level))
  {
  }

  /** A level the new node does not reach. */
  lemma InsertAbove(m: Mem, nodes: seq<Node>, hs: seq<int>, x: Node, r: nat, i: nat)
    requires Known(m, nodes, hs) && i < MAX_LEVEL && LevelOk(m, nodes, hs, i)
    requires r <= |nodes| && x in m.at && 1 <= m.at[x].level <= i
    ensures Known(m, Inserted(nodes, r, x), Inserted(hs, r, m.at[x].level))
    ensures LevelOk(m, Inserted(nodes, r, x), Inserted(hs, r, m.at[x].level), i)
  {
    hide At, NextTall;
    var h := m.at[x].level;
    var nodes', hs' := Inserted(nodes, r, x), Inserted(hs, r, h);
    InsertHeight(m, nodes, hs, x, r);
    LinkAfterInsert(nodes, hs, x, h, r, i, 0);
    forall j: nat ensures LinkOk(m, nodes', hs', i, j) {
      if j < r {
        LinkAfterInsert(nodes, hs, x, h, r, i, j + 1);
        assert LinkOk(m, nodes, hs, i, j);
      } else if r < j <= |nodes| {
        LinkPastInsert(nodes, hs, x, h, r, i, j);
        assert LinkOk(m, nodes, hs, i, j - 1);
      }
    }
  }

  /** A level the new node is linked into. */
  lemma InsertLevel(m: Mem, nodes: seq<Node>, hs: seq<int>, x: Node, r: nat, p: nat, i: nat)
    requires Known(m, nodes, hs) && i < MAX_LEVEL && LevelOk(m, nodes, hs, i)
    requires LastTall(hs, r, i, p) && x in m.at && x !in nodes && i < m.at[x].level <= MAX_LEVEL && Ascending(nodes)
    ensures var m' := LinkAt(m, x, Before(nodes, p), i);
            && Known(m', Inserted(nodes, r, x), Inserted(hs, r, m.at[x].level))
            && LevelOk(m', Inserted(nodes, r, x), Inserted(hs, r, m.at[x].level), i)
  {
    var h := m.at[x].level;
    var nodes', hs', m' := Inserted(nodes, r, x), Inserted(hs, r, h), LinkAt(m, x, Before(nodes, p), i);
    OldLink(m, nodes, hs, i, p);
    LinkOnly(m, x, Before(nodes, p), i);
    OtherLevelsKept(m, m', nodes, hs, i);
    InsertHeight(m', nodes, hs, x, r);
    LinkAfterInsert(nodes, hs, x, h, r, i, 0);
    forall j: nat ensures LinkOk(m', nodes', hs', i, j) {
      if j < |nodes'| && hs'[j] > i {
        InsertedLink(m, nodes, hs, x, r, p, i, j);
      }
    }
  }

  /** The link of a node after the two stores of LinkAt. */
  lemma LinkedNext(m: Mem, x: Node, u: Node?, i: nat, y: Node)
    requires Wide(m) && x in m.at && (u != null ==> u in m.at) && i < MAX_LEVEL && u != x && y in m.at
    ensures var m' := LinkAt(m, x, u, i);
            && y in m'.at && |m'.at[y].next| == MAX_LEVEL
            && m'.at[y].next[i] == if y == x then (if u == null then m.head[i] else m.at[u].next[i])
                                   else if y == u then x else m.at[y].next[i]
  {
  }

  lemma OldLink(m: Mem, nodes: seq<Node>, hs: seq<int>, i: nat, p: nat)
    requires Known(m, nodes, hs) && i < MAX_LEVEL && LevelOk(m, nodes, hs, i)
    requires p <= |nodes| && (p > 0 ==> hs[p - 1] > i)
    ensures Before(nodes, p) == null || Before(nodes, p) in m.at
    ensures At(nodes, NextTall(hs, p, i)) == if p == 0 then m.head[i] else m.at[nodes[p - 1]].next[i]
  {
    if p > 0 {
      assert LinkOk(m, nodes, hs, i, p - 1);
    }
  }

  lemma InsertedNext(m: Mem, nodes: seq<Node>, hs: seq<int>, x: Node, r: nat, p: nat, i: nat, k: nat)
    requires Known(m, nodes, hs) && i < MAX_LEVEL && LevelOk(m, nodes, hs, i) && LastTall(hs, r, i, p)
    requires x in m.at && x !in nodes && Ascending(nodes) && k < |nodes| && hs[k] > i
    requires Before(nodes, p) == null || Before(nodes, p) in m.at
    ensures var m' := LinkAt(m, x, Before(nodes, p), i);
            && x in m'.at && i < |m'.at[x].next| && m'.at[x].next[i] == At(nodes, NextTall(hs, p, i))
            && nodes[k] in m'.at && i < |m'.at[nodes[k]].next|
            && m'.at[nodes[k]].next[i] == if k + 1 == p then x else At(nodes, NextTall(hs, k + 1, i))
  {
    hide At, NextTall, LevelOk, LinkAt, Ascending;
    OldLink(m, nodes, hs, i, p);
    NewNext(m, nodes, hs, x, r, p, i);
    LinkedNext(m, x, Before(nodes, p), i, nodes[k]);
    OldLink(m, nodes, hs, i, k + 1);
    BeforeIs(nodes, hs, r, i, p, k);
  }

  lemma NewNext(m: Mem, nodes: seq<Node>, hs: seq<int>, x: Node, r: nat, p: nat, i: nat)
    requires Known(m, nodes, hs) && i < MAX_LEVEL && LevelOk(m, nodes, hs, i) && LastTall(hs, r, i, p)
    requires x in m.at && x !in nodes && (Before(nodes, p) == null || Before(nodes, p) in m.at)
    ensures var m' := LinkAt(m, x, Before(nodes, p), i);
            x in m'.at && i < |m'.at[x].next| && m'.at[x].next[i] == At(nodes, NextTall(hs, p, i))
  {
    hide At, NextTall, LevelOk, LinkAt;
    OldLink(m, nodes, hs, i, p);
    LinkedNext(m, x, Before(nodes, p), i, x);
  }

  lemma InsertedLink(m: Mem, nodes: seq<Node>, hs: seq<int>, x: Node, r: nat, p: nat, i: nat, j: nat)
    requires Known(m, nodes, hs) && i < MAX_LEVEL && LevelOk(m, nodes, hs, i)
    requires LastTall(hs, r, i, p) && x in m.at && x !in nodes && i < m.at[x].level <= MAX_LEVEL && Ascending(nodes)
    requires j < |nodes| + 1 && Inserted(hs, r, m.at[x].level)[j] > i
    requires Before(nodes, p) == null || Before(nodes, p) in m.at
    ensures var m', nodes' := LinkAt(m, x, Before(nodes, p), i), Inserted(nodes, r, x);
            var hs' := Inserted(hs, r, m.at[x].level);
            LinkOk(m', nodes', hs', i, j)
  {
    hide LevelOk, LinkAt, NextTall, At, Before, Ascending;
    var h := m.at[x].level;
    if j < r {
      LinkAfterInsert(nodes, hs, x, h, r, i, j + 1);
      InsertedNext(m, nodes, hs, x, r, p, i, j);
      TallBefore(hs, r, i, p, j);
    } else {
      LinkPastInsert(nodes, hs, x, h, r, i, j);
      TallBefore(hs, r, i, p, r);
      if j == r {
        NewNext(m, nodes, hs, x, r, p, i);
      } else {
        InsertedNext(m, nodes, hs, x, r, p, i, j - 1);
      }
    }
  }

  /** A tall node before place `r` is the last one exactly when nothing tall follows it before `r`. */
  lemma TallBefore(hs: seq<int>, r: nat, i: int, p: nat, j: nat)
    requires LastTall(hs, r, i, p) && j <= r
    ensures j < r && hs[j] > i ==> (NextTall(hs, j + 1, i) >= r <==> j + 1 == p)
    ensures j == r ==> NextTall(hs, p, i) == NextTall(hs, r, i)
  {
    if j == r {
      NextTallIs(hs, p, i, NextTall(hs, r, i));
    } else if hs[j] > i && j + 1 < p {
      assert NextTall(hs, j + 1, i) <= p - 1;
    }
  }

  lemma InsertOrder(nodes: seq<Node>, x: Node, r: nat)
    requires Ascending(nodes) && Rank(nodes, x.key, r) && (r < |nodes| ==> nodes[r].key != x.key)
    ensures Ascending(Inserted(nodes, r, x)) && x !in nodes
  {
  }

  lemma InsertHighest(hs: seq<int>, r: nat, h: int, level: int)
    requires Highest(hs, level) && r <= |hs| && 1 <= h <= MAX_LEVEL
    ensures Highest(Inserted(hs, r, h), if h > level then h else level)
  {
    var hs' := Inserted(hs, r, h);
    assert hs'[r] == h;
    if h <= level {
      var j :| 0 <= j < |hs| && hs[j] == level;
      assert hs'[if j < r then j else j + 1] == level;
    }
  }

  lemma SetPrevKeeps(m: Mem, y: Node, v: Node?, nodes: seq<Node>, hs: seq<int>)
    requires Levels(m, nodes, hs) && y in m.at
    ensures Levels(SetPrev(m, y, v), nodes, hs)
  {
    var m' := SetPrev(m, y, v);
    forall i: nat | i < MAX_LEVEL ensures LevelOk(m', nodes, hs, i) {
      assert LevelOk(m, nodes, hs, i);
      forall j: nat ensures LinkOk(m', nodes, hs, i, j) {
        assert LinkOk(m, nodes, hs, i, j);
      }
    }
  }

  /** The backward pointers after an insertion. */
  lemma InsertPrev(m: Mem, nodes: seq<Node>, x: Node, r: nat)
    requires PrevOk(m, nodes) && Ascending(nodes) && r <= |nodes| && x in m.at && x !in nodes
    ensures r < |nodes| ==> nodes[r] in m.at
    ensures var m1 := SetPrev(m, x, Before(nodes, r));
            PrevOk(if r < |nodes| then SetPrev(m1, nodes[r], x) else m1, Inserted(nodes, r, x))
  {
    assert BackOk(m, nodes, r);
    var m1 := SetPrev(m, x, Before(nodes, r));
    var m2 := if r < |nodes| then SetPrev(m1, nodes[r], x) else m1;
    var nodes' := Inserted(nodes, r, x);
    forall j: nat ensures BackOk(m2, nodes', j) {
      if j < r {
        assert BackOk(m, nodes, j);
        assert r < |nodes| ==> nodes[j].key < nodes[r].key;
      } else if r < j <= |nodes| {
        assert BackOk(m, nodes, j - 1);
        assert j > r + 1 ==> nodes[r].key < nodes[j - 1].key;
      }
    }
  }

  /* ---- Erasure ---- */

  lemma NextBeforeRemove(hs: seq<int>, r: nat, from: nat, i: int)
    requires from <= r < |hs|
    ensures var k := NextTall(hs, from, i);
            NextTall(Removed(hs, r), from, i)
            == if k < r then k else if k == r then NextTall(hs, r + 1, i) - 1 else k - 1
  {
    var k := NextTall(hs, from, i);
    NextTallIs(Removed(hs, r), from, i, if k < r then k else if k == r then NextTall(hs, r + 1, i) - 1 else k - 1);
  }

  lemma NextAfterRemove(hs: seq<int>, r: nat, from: nat, i: int)
    requires r < from <= |hs|
    ensures NextTall(Removed(hs, r), from - 1, i) == NextTall(hs, from, i) - 1
  {
    NextTallIs(Removed(hs, r), from - 1, i, NextTall(hs, from, i) - 1);
  }

  lemma LinkBeforeRemove(nodes: seq<Node>, hs: seq<int>, r: nat, i: nat, from: nat)
    requires |nodes| == |hs| && from <= r < |hs|
    ensures At(Removed(nodes, r), NextTall(Removed(hs, r), from, i))
            == if NextTall(hs, from, i) == r then At(nodes, NextTall(hs, r + 1, i))
               else At(nodes, NextTall(hs, from, i))
  {
    NextBeforeRemove(hs, r, from, i);
  }

  lemma LinkPastRemove(nodes: seq<Node>, hs: seq<int>, r: nat, i: nat, from: nat)
    requires |nodes| == |hs| && r < from <= |hs|
    ensures At(Removed(nodes, r), NextTall(Removed(hs, r), from - 1, i)) == At(nodes, NextTall(hs, from, i))
  {
    NextAfterRemove(hs, r, from, i);
  }

  lemma RemoveHeight(m: Mem, nodes: seq<Node>, hs: seq<int>, r: nat)
    requires Known(m, nodes, hs) && r < |nodes|
    ensures Known(m, Removed(nodes, r), Removed(hs, r))
  {
  }

  /** A level that does not link the node. */
  lemma RemoveAbove(m: Mem, nodes: seq<Node>, hs: seq<int>, r: nat, i: nat)
    requires Known(m, nodes, hs) && i < MAX_LEVEL && LevelOk(m, nodes, hs, i) && r < |nodes| && hs[r] <= i
    ensures Known(m, Removed(nodes, r), Removed(hs, r)) && LevelOk(m, Removed(nodes, r), Removed(hs, r), i)
  {
    hide At, NextTall;
    var nodes', hs' := Removed(nodes, r), Removed(hs, r);
    RemoveHeight(m, nodes, hs, r);
    LinkBeforeRemove(nodes, hs, r, i, 0);
    forall j: nat ensures LinkOk(m, nodes', hs', i, j) {
      if j < r {
        LinkBeforeRemove(nodes, hs, r, i, j + 1);
        assert LinkOk(m, nodes, hs, i, j);
      } else if j < |nodes'| {
        LinkPastRemove(nodes, hs, r, i, j + 2);
        assert LinkOk(m, nodes, hs, i, j + 1);
      }
    }
  }

  /** A level that does. */
  lemma RemoveLevel(m: Mem, nodes: seq<Node>, hs: seq<int>, r: nat, p: nat, i: nat)
    requires Known(m, nodes, hs) && i < MAX_LEVEL && LevelOk(m, nodes, hs, i) && r < |nodes| && hs[r] > i
    requires LastTall(hs, r, i, p) && Ascending(nodes)
    ensures var m' := UnlinkAt(m, nodes[r], Before(nodes, p), i);
            Known(m', Removed(nodes, r), Removed(hs, r)) && LevelOk(m', Removed(nodes, r), Removed(hs, r), i)
  {
    hide At, NextTall;
    var nodes', hs', m' := Removed(nodes, r), Removed(hs, r), UnlinkAt(m, nodes[r], Before(nodes, p), i);
    OldLink(m, nodes, hs, i, p);
    UnlinkOnly(m, nodes[r], Before(nodes, p), i);
    OtherLevelsKept(m, m', nodes, hs, i);
    RemoveHeight(m', nodes, hs, r);
    RemovedHead(m, nodes, hs, r, p, i);
    forall j: nat ensures LinkOk(m', nodes', hs', i, j) {
      if j < |nodes'| && hs'[j] > i {
        RemovedLink(m, nodes, hs, r, p, i, j);
      }
    }
  }

  /** What UnlinkAt finds and leaves, when `u` is the node before `x`. */
  lemma UnlinkedNext(m: Mem, x: Node, u: Node?, i: nat, y: Node)
    requires Wide(m) && x in m.at && (u != null ==> u in m.at) && i < MAX_LEVEL && u != x && y in m.at
    requires x == if u == null then m.head[i] else m.at[u].next[i]
    ensures var m' := UnlinkAt(m, x, u, i);
            && y in m'.at && |m'.at[y].next| == MAX_LEVEL && |m'.head| == MAX_LEVEL
            && m'.head[i] == (if u == null then m.at[x].next[i] else m.head[i])
            && m'.at[y].next[i] == if y == u then m.at[x].next[i] else m.at[y].next[i]
  {
  }

  lemma FoundBefore(m: Mem, nodes: seq<Node>, hs: seq<int>, r: nat, p: nat, i: nat)
    requires Known(m, nodes, hs) && i < MAX_LEVEL && LevelOk(m, nodes, hs, i) && r < |nodes| && hs[r] > i
    requires LastTall(hs, r, i, p) && Ascending(nodes)
    ensures var u := Before(nodes, p);
            && (u != null ==> u in m.at) && u != nodes[r] && NextTall(hs, p, i) == r
            && nodes[r] == if u == null then m.head[i] else m.at[u].next[i]
  {
    NextTallIs(hs, p, i, r);
    OldLink(m, nodes, hs, i, p);
    assert p > 0 ==> nodes[p - 1].key < nodes[r].key;
  }

  lemma RemovedHead(m: Mem, nodes: seq<Node>, hs: seq<int>, r: nat, p: nat, i: nat)
    requires Known(m, nodes, hs) && i < MAX_LEVEL && LevelOk(m, nodes, hs, i) && r < |nodes| && hs[r] > i
    requires LastTall(hs, r, i, p) && Ascending(nodes) && (Before(nodes, p) != null ==> Before(nodes, p) in m.at)
    ensures var m' := UnlinkAt(m, nodes[r], Before(nodes, p), i);
            i < |m'.head| && m'.head[i] == At(Removed(nodes, r), NextTall(Removed(hs, r), 0, i))
  {
    hide At, NextTall, LevelOk, UnlinkAt;
    FoundBefore(m, nodes, hs, r, p, i);
    UnlinkedNext(m, nodes[r], Before(nodes, p), i, nodes[r]);
    LinkBeforeRemove(nodes, hs, r, i, 0);
    OldLink(m, nodes, hs, i, 0);
    OldLink(m, nodes, hs, i, r + 1);
    FirstIsLast(hs, r, i, p, 0);
  }

  lemma RemovedNext(m: Mem, nodes: seq<Node>, hs: seq<int>, r: nat, p: nat, i: nat, k: nat)
    requires Known(m, nodes, hs) && i < MAX_LEVEL && LevelOk(m, nodes, hs, i) && r < |nodes| && hs[r] > i
    requires LastTall(hs, r, i, p) && Ascending(nodes) && (Before(nodes, p) != null ==> Before(nodes, p) in m.at)
    requires k < |nodes| && hs[k] > i
    ensures var m' := UnlinkAt(m, nodes[r], Before(nodes, p), i);
            && nodes[k] in m'.at && i < |m'.at[nodes[k]].next|
            && m'.at[nodes[k]].next[i] == At(nodes, NextTall(hs, if k + 1 == p then r + 1 else k + 1, i))
  {
    hide At, NextTall, LevelOk, UnlinkAt, Ascending, LastTall, Before;
    FoundBefore(m, nodes, hs, r, p, i);
    UnlinkedNext(m, nodes[r], Before(nodes, p), i, nodes[k]);
    OldLink(m, nodes, hs, i, k + 1);
    OldLink(m, nodes, hs, i, r + 1);
    BeforeIs(nodes, hs, r, i, p, k);
  }

  lemma BeforeIs(nodes: seq<Node>, hs: seq<int>, r: nat, i: int, p: nat, k: nat)
    requires Ascending(nodes) && k < |nodes| == |hs| && LastTall(hs, r, i, p)
    ensures Before(nodes, p) == nodes[k] <==> k + 1 == p
  {
    assert p > 0 && k + 1 != p ==> nodes[k].key != nodes[p - 1].key;
  }

  lemma RemovedLink(m: Mem, nodes: seq<Node>, hs: seq<int>, r: nat, p: nat, i: nat, j: nat)
    requires Known(m, nodes, hs) && i < MAX_LEVEL && LevelOk(m, nodes, hs, i) && r < |nodes| && hs[r] > i
    requires LastTall(hs, r, i, p) && Ascending(nodes) && (Before(nodes, p) != null ==> Before(nodes, p) in m.at)
    requires j < |nodes| - 1 && Removed(hs, r)[j] > i
    ensures var m', nodes', hs' := UnlinkAt(m, nodes[r], Before(nodes, p), i), Removed(nodes, r), Removed(hs, r);
            LinkOk(m', nodes', hs', i, j)
  {
    hide At, NextTall, LevelOk, UnlinkAt, Before, Ascending;
    if j < r {
      RemovedNext(m, nodes, hs, r, p, i, j);
      LinkBeforeRemove(nodes, hs, r, i, j + 1);
      FirstIsLast(hs, r, i, p, j + 1);
    } else {
      RemovedNext(m, nodes, hs, r, p, i, j + 1);
      LinkPastRemove(nodes, hs, r, i, j + 2);
    }
  }

  /** From a place behind a tall node, the next tall one is at `r` exactly when that node is the last
      before `r`. */
  lemma FirstIsLast(hs: seq<int>, r: nat, i: int, p: nat, from: nat)
    requires LastTall(hs, r, i, p) && r < |hs| && hs[r] > i && from <= r && (from > 0 ==> hs[from - 1] > i)
    ensures NextTall(hs, from, i) == r <==> from == p
  {
    if from == p {
      NextTallIs(hs, p, i, r);
    } else if from < p {
      assert NextTall(hs, from, i) <= p - 1;
    }
  }

  lemma RemoveOrder(nodes: seq<Node>, r: nat)
    requires Ascending(nodes) && r < |nodes|
    ensures Ascending(Removed(nodes, r)) && nodes[r] !in Removed(nodes, r)
  {
    forall j | 0 <= j < |nodes| && j != r ensures nodes[j] != nodes[r] {
      assert nodes[j].key != nodes[r].key;
    }
  }

  lemma RemovePrev(m: Mem, nodes: seq<Node>, r: nat)
    requires PrevOk(m, nodes) && Ascending(nodes) && r < |nodes|
    ensures nodes[r] in m.at && (r + 1 < |nodes| ==> nodes[r + 1] in m.at)
    ensures PrevOk(if r + 1 < |nodes| then SetPrev(m, nodes[r + 1], m.at[nodes[r]].prev) else m, Removed(nodes, r))
  {
    assert BackOk(m, nodes, r) && BackOk(m, nodes, r + 1);
    var m' := if r + 1 < |nodes| then SetPrev(m, nodes[r + 1], m.at[nodes[r]].prev) else m;
    var nodes' := Removed(nodes, r);
    forall j: nat ensures BackOk(m', nodes', j) {
      var k := if j < r then j else j + 1;
      assert BackOk(m, nodes, k);
      assert r + 1 < |nodes| && k < |nodes| && k != r + 1 ==> nodes[k].key != nodes[r + 1].key;
    }
  }

  /* ---- The loops over the levels ---- */

  /** ps[i] is the place behind the node that level `i` links last before place `r`. */
  ghost predicate Update(hs: seq<int>, r: nat, ps: seq<nat>) {
    |ps| == MAX_LEVEL && forall i :: 0 <= i < MAX_LEVEL ==> LastTall(hs, r, i, ps[i])
  }

  /** The levels below `i` already link the new node `x`. */
  ghost predicate Linking(m: Mem, nodes: seq<Node>, hs: seq<int>, x: Node, r: nat, i: nat) {
    && Known(m, nodes, hs) && Ascending(nodes) && r <= |nodes| && x in m.at && x !in nodes
    && 1 <= m.at[x].level <= MAX_LEVEL && PrevOk(m, nodes)
    && Known(m, Inserted(nodes, r, x), Inserted(hs, r, m.at[x].level))
    && (forall k: nat :: k < i && k < MAX_LEVEL ==>
         LevelOk(m, Inserted(nodes, r, x), Inserted(hs, r, m.at[x].level), k))
    && (forall k: nat :: i <= k < MAX_LEVEL ==> LevelOk(m, nodes, hs, k))
  }

  lemma LinkStep(m: Mem, nodes: seq<Node>, hs: seq<int>, x: Node, r: nat, ps: seq<nat>, i: nat)
    requires Linking(m, nodes, hs, x, r, i) && Update(hs, r, ps) && i < m.at[x].level
    ensures Before(nodes, ps[i]) == null || Before(nodes, ps[i]) in m.at
    ensures var m' := LinkAt(m, x, Before(nodes, ps[i]), i);
            Linking(m', nodes, hs, x, r, i + 1) && x in m'.at && m'.at[x].level == m.at[x].level
  {
    hide LevelOk, PrevOk, LinkAt, NextTall, At;
    assert LastTall(hs, r, i, ps[i]);
    OldLink(m, nodes, hs, i, ps[i]);
    var u := Before(nodes, ps[i]);
    var m' := LinkAt(m, x, u, i);
    LinkOnly(m, x, u, i);
    OtherLevelsKept(m, m', nodes, hs, i);
    OtherLevelsKept(m, m', Inserted(nodes, r, x), Inserted(hs, r, m.at[x].level), i);
    InsertLevel(m, nodes, hs, x, r, ps[i], i);
    hide Known, Ascending, Inserted;
  }

  lemma LinkDone(m: Mem, nodes: seq<Node>, hs: seq<int>, x: Node, r: nat)
    requires x in m.at && 0 <= m.at[x].level && Linking(m, nodes, hs, x, r, m.at[x].level)
    ensures Levels(m, Inserted(nodes, r, x), Inserted(hs, r, m.at[x].level))
  {
    hide LevelOk, PrevOk;
    var nodes', hs' := Inserted(nodes, r, x), Inserted(hs, r, m.at[x].level);
    forall k: nat | k < MAX_LEVEL ensures LevelOk(m, nodes', hs', k) {
      if m.at[x].level <= k {
        InsertAbove(m, nodes, hs, x, r, k);
      }
    }
  }

  /** The levels below `i` no longer link node `r`. */
  ghost predicate Unlinking(m: Mem, nodes: seq<Node>, hs: seq<int>, r: nat, i: nat) {
    && Known(m, nodes, hs) && Ascending(nodes) && r < |nodes| && PrevOk(m, nodes)
    && Known(m, Removed(nodes, r), Removed(hs, r)) && LinkOk(m, nodes, hs, 0, r)
    && (forall k: nat :: k < i && k < MAX_LEVEL ==> LevelOk(m, Removed(nodes, r), Removed(hs, r), k))
    && (forall k: nat :: i <= k < MAX_LEVEL ==> LevelOk(m, nodes, hs, k))
  }

  lemma UnlinkStep(m: Mem, nodes: seq<Node>, hs: seq<int>, r: nat, ps: seq<nat>, i: nat)
    requires Unlinking(m, nodes, hs, r, i) && Update(hs, r, ps) && i < hs[r]
    ensures nodes[r] in m.at && (Before(nodes, ps[i]) == null || Before(nodes, ps[i]) in m.at)
    ensures Unlinking(UnlinkAt(m, nodes[r], Before(nodes, ps[i]), i), nodes, hs, r, i + 1)
  {
    hide LevelOk, PrevOk, UnlinkAt, NextTall, At;
    assert LastTall(hs, r, i, ps[i]);
    OldLink(m, nodes, hs, i, ps[i]);
    var u := Before(nodes, ps[i]);
    var m' := UnlinkAt(m, nodes[r], u, i);
    UnlinkOnly(m, nodes[r], u, i);
    OtherLevelsKept(m, m', nodes, hs, i);
    OtherLevelsKept(m, m', Removed(nodes, r), Removed(hs, r), i);
    RemoveLevel(m, nodes, hs, r, ps[i], i);
    FoundBefore(m, nodes, hs, r, ps[i], i);
    UnlinkOwn(m, nodes[r], u, i);
  }

  lemma UnlinkOwn(m: Mem, x: Node, u: Node?, i: nat)
    requires Wide(m) && x in m.at && (u != null ==> u in m.at) && i < MAX_LEVEL && u != x
    ensures x in UnlinkAt(m, x, u, i).at && UnlinkAt(m, x, u, i).at[x] == m.at[x]
  {
  }

  lemma UnlinkDone(m: Mem, nodes: seq<Node>, hs: seq<int>, r: nat)
    requires r < |hs| && Unlinking(m, nodes, hs, r, if hs[r] < 0 then 0 else hs[r])
    ensures Levels(m, Removed(nodes, r), Removed(hs, r))
  {
    hide LevelOk, PrevOk;
    forall k: nat | k < MAX_LEVEL ensures LevelOk(m, Removed(nodes, r), Removed(hs, r), k) {
      if hs[r] <= k {
        RemoveAbove(m, nodes, hs, r, k);
      }
    }
  }

  /* ---- Linear scans of level 0 ---- */

  function FindScan(nodes: seq<Node>, key: int): Node? {
    if nodes == [] || key < nodes[0].key then null
    else if key == nodes[0].key then nodes[0]
    else FindScan(nodes[1..], key)
  }

  /** `x` is the last node passed so far. */
  function FindLeScan(nodes: seq<Node>, key: int, x: Node?): Node? {
    if nodes == [] || key < nodes[0].key then x
    else if key == nodes[0].key then nodes[0]
    else FindLeScan(nodes[1..], key, nodes[0])
  }

  lemma {:induction false} FindScanIs(nodes: seq<Node>, key: int, r: nat)
    requires Ascending(nodes) && Rank(nodes, key, r)
    ensures FindScan(nodes, key) == if r < |nodes| && nodes[r].key == key then nodes[r] else null
  {
    if r > 0 {
      assert nodes[0].key < key;
      FindScanIs(nodes[1..], key, r - 1);
    }
  }

  lemma {:induction false} FindLeScanIs(nodes: seq<Node>, key: int, r: nat, x: Node?)
    requires Ascending(nodes) && Rank(nodes, key, r)
    ensures FindLeScan(nodes, key, x)
            == if r < |nodes| && nodes[r].key == key then nodes[r] else if r == 0 then x else nodes[r - 1]
  {
    if r > 0 {
      assert nodes[0].key < key;
      FindLeScanIs(nodes[1..], key, r - 1, nodes[0]);
    }
  }
}
