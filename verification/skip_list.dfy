/** The routines of structure/skiplist.h on node objects. `nodes` is the list, `hs` the heights. */
module SkipList {
  import opened SkipShape
  import opened SkipSteps

  class List {
    var head: seq<Node?>
    var level: int
    ghost var nodes: seq<Node>
    ghost var hs: seq<int>

    /** The fields of the nodes in `s`. */
    ghost function Snap(s: set<Node>): Mem
      reads this`head, s
    {
      Mem(head, map x | x in s :: Cell(x.prev, x.next, x.level))
    }

    ghost function Nodes(): set<Node>
      reads this`nodes
    {
      set x | x in nodes
    }

    ghost predicate Valid()
      reads this, Nodes()
    {
      Sound(Snap(Nodes()), nodes, hs, level)
    }

    constructor ()
      ensures Valid() && nodes == [] && hs == []
    {
      head, level, nodes, hs := seq(MAX_LEVEL, _ => null), 0, [], [];
      new;
      assert forall i: nat :: i < MAX_LEVEL ==> LevelOk(Snap({}), [], [], i);
      assert Nodes() == {};
    }

    /* The stores. */

    method StoreHead(i: nat, v: Node?, ghost s: set<Node>)
      requires i < |head|
      modifies this`head
      ensures Snap(s).at.Keys == s && Snap(s) == SetHead(old(Snap(s)), i, v)
    {
      head := head[i := v];
    }

    method StoreNext(x: Node, i: nat, v: Node?, ghost s: set<Node>)
      requires x in s && i < |x.next|
      modifies x`next
      ensures Snap(s).at.Keys == s && Snap(s) == SetNext(old(Snap(s)), x, i, v)
    {
      x.next := x.next[i := v];
    }

    method StorePrev(x: Node, v: Node?, ghost s: set<Node>)
      requires x in s
      modifies x`prev
      ensures Snap(s).at.Keys == s && Snap(s) == SetPrev(old(Snap(s)), x, v)
    {
      x.prev := v;
    }

    /** What a walk reads: the link of level `i` behind place `p`. */
    lemma ReadLink(i: nat, p: nat)
      requires Valid() && i < MAX_LEVEL && p <= |nodes| && (p > 0 ==> p <= |hs| && hs[p - 1] > i)
      ensures |head| == MAX_LEVEL && |hs| == |nodes|
      ensures p > 0 ==> |nodes[p - 1].next| == MAX_LEVEL
      ensures At(nodes, NextTall(hs, p, i)) == if p == 0 then head[i] else nodes[p - 1].next[i]
    {
      assert LevelOk(Snap(Nodes()), nodes, hs, i);
      OldLink(Snap(Nodes()), nodes, hs, i, p);
    }

    /** The same, from the node before that place. */
    lemma ReadFrom(i: nat, p: nat, x: Node?)
      requires Valid() && i < MAX_LEVEL && p <= |nodes| && (p > 0 ==> p <= |hs| && hs[p - 1] > i)
      requires x == Before(nodes, p)
      ensures |head| == MAX_LEVEL && |hs| == |nodes| && (x != null ==> |x.next| == MAX_LEVEL)
      ensures At(nodes, NextTall(hs, p, i)) == if x == null then head[i] else x.next[i]
    {
      hide Sound;
      ReadLink(i, p);
    }

    lemma Heights()
      requires Valid()
      ensures |hs| == |nodes| && |head| == MAX_LEVEL && 0 <= level <= MAX_LEVEL && Ascending(nodes)
      ensures forall j :: 0 <= j < |hs| ==>
                1 <= hs[j] <= level && nodes[j].level == hs[j] && |nodes[j].next| == MAX_LEVEL
    {
    }

    lemma Widths()
      requires Valid()
      ensures |hs| == |nodes| && |head| == MAX_LEVEL && 0 <= level <= MAX_LEVEL && Ascending(nodes)
    {
    }

    method IsEmpty() returns (b: bool)
      requires Valid()
      ensures Valid() && (b <==> nodes == [])
    {
      ReadLink(0, 0);
      Heights();
      b := head[0] == null;
    }

    method First() returns (x: Node?)
      requires Valid()
      ensures Valid() && x == At(nodes, 0)
    {
      ReadLink(0, 0);
      Heights();
      x := head[0];
    }

    /** skiplist_next; `j` is the place of the node. */
    method Next(x: Node, ghost j: nat) returns (y: Node?)
      requires Valid() && j < |nodes| && nodes[j] == x
      ensures Valid() && y == At(nodes, j + 1)
    {
      Heights();
      ReadLink(0, j + 1);
      y := x.next[0];
    }

    /** skiplist_prev undoes skiplist_next. */
    method Prev(x: Node, ghost j: nat) returns (y: Node?)
      requires Valid() && j < |nodes| && nodes[j] == x
      ensures Valid() && y == Before(nodes, j)
    {
      assert BackOk(Snap(Nodes()), nodes, j);
      y := x.prev;
    }

    /** skiplist_last. */
    method Last() returns (x: Node?)
      requires Valid()
      ensures Valid() && x == Before(nodes, |nodes|)
    {
      hide Sound, NextTall;
      Heights();
      x := null;
      ghost var p: nat := 0;
      var i := level - 1;
      while i >= 0
        invariant -1 <= i < level && p <= |nodes| && x == Before(nodes, p) && (p > 0 ==> hs[p - 1] > i)
        invariant i < level - 1 ==> NextTall(hs, p, i + 1) == |hs|
      {
        ReadLink(i, p);
        var next := if x == null then head[i] else x.next[i];
        while next != null
          invariant p <= |nodes| && x == Before(nodes, p) && (p > 0 ==> hs[p - 1] > i)
          invariant next == At(nodes, NextTall(hs, p, i))
          decreases |nodes| - p
        {
          p := NextTall(hs, p, i) + 1;
          x := next;
          ReadLink(i, p);
          next := x.next[i];
        }
        i := i - 1;
      }
      LastPlace(nodes, hs, p, level);
    }

    /** skiplist_find finds what a scan of level 0 finds. */
    method Find(key: int) returns (x: Node?)
      requires Valid()
      ensures Valid() && x == FindScan(nodes, key)
      ensures x != null ==> x in nodes && x.key == key
      ensures x == null <==> forall j :: 0 <= j < |nodes| ==> nodes[j].key != key
    {
      hide Sound, NextTall, FindScan, FindLeScan, Stops, Ascending, Rank, Passed, At;
      Heights();
      NonePassed(nodes, key);
      x := null;
      ghost var p: nat := 0;
      var i := level - 1;
      while i >= 0
        invariant -1 <= i < level && p <= |nodes| && x == Before(nodes, p) && (p > 0 ==> hs[p - 1] > i)
        invariant Passed(nodes, key, p)
        invariant i < level - 1 ==> Stops(nodes, hs, key + 1, i + 1, p)
      {
        ReadLink(i, p);
        var next := if x == null then head[i] else x.next[i];
        while next != null
          invariant p <= |nodes| && x == Before(nodes, p) && (p > 0 ==> hs[p - 1] > i)
          invariant next == At(nodes, NextTall(hs, p, i)) && Passed(nodes, key, p)
          decreases |nodes| - p
        {
          PlaceOf(nodes, NextTall(hs, p, i));
          if key < next.key {
            break;
          }
          if key == next.key {
            FoundAt(nodes, key, NextTall(hs, p, i));
            return next;
          }
          PassesTo(nodes, key, p, NextTall(hs, p, i));
          p := NextTall(hs, p, i) + 1;
          x := next;
          ReadLink(i, p);
          next := x.next[i];
        }
        StopsHere(nodes, hs, key + 1, i, p);
        i := i - 1;
      }
      StopsAtRank(nodes, hs, key, p, level);
      NotFound(nodes, key, p);
      return null;
    }

    /** skiplist_find_le finds what a scan of level 0 finds: the last node whose key is at most `key`. */
    method FindLe(key: int) returns (x: Node?)
      requires Valid()
      ensures Valid() && x == FindLeScan(nodes, key, null)
      ensures x != null ==> x in nodes && x.key <= key
      ensures forall j :: 0 <= j < |nodes| && nodes[j].key <= key ==> x != null && nodes[j].key <= x.key
    {
      hide Sound, NextTall, FindScan, FindLeScan, Stops, Ascending, Rank, Passed, At;
      Heights();
      NonePassed(nodes, key);
      x := null;
      ghost var p: nat := 0;
      var i := level - 1;
      while i >= 0
        invariant -1 <= i < level && p <= |nodes| && x == Before(nodes, p) && (p > 0 ==> hs[p - 1] > i)
        invariant Passed(nodes, key, p)
        invariant i < level - 1 ==> Stops(nodes, hs, key + 1, i + 1, p)
      {
        ReadLink(i, p);
        var next := if x == null then head[i] else x.next[i];
        while next != null
          invariant p <= |nodes| && x == Before(nodes, p) && (p > 0 ==> hs[p - 1] > i)
          invariant next == At(nodes, NextTall(hs, p, i)) && Passed(nodes, key, p)
          decreases |nodes| - p
        {
          PlaceOf(nodes, NextTall(hs, p, i));
          if key < next.key {
            break;
          }
          x := next;
          if key == next.key {
            FoundAt(nodes, key, NextTall(hs, p, i));
            return x;
          }
          PassesTo(nodes, key, p, NextTall(hs, p, i));
          p := NextTall(hs, p, i) + 1;
          ReadLink(i, p);
          next := x.next[i];
        }
        StopsHere(nodes, hs, key + 1, i, p);
        i := i - 1;
      }
      StopsAtRank(nodes, hs, key, p, level);
      NotFound(nodes, key, p);
    }

    /** The search that insertion and erasure share: the nodes behind which each level is to change. */
    method Search(key: int) returns (update: seq<Node?>, ghost ps: seq<nat>, ghost r: nat)
      requires Valid()
      ensures Valid() && |update| == MAX_LEVEL && Update(hs, r, ps) && Rank(nodes, key, r)
      ensures forall i :: 0 <= i < MAX_LEVEL ==> update[i] == Before(nodes, ps[i])
      ensures update[0] == Before(nodes, r) && forall k :: level <= k < MAX_LEVEL ==> update[k] == null
    {
      hide Sound, NextTall, Ascending, Rank, Stops, Update, Passed, Marks, At, Before;
      Widths();
      NonePassed(nodes, key);
      NoMarks(nodes, hs, key, level);
      update := seq(MAX_LEVEL, _ => null);
      ps := seq(MAX_LEVEL, _ => 0);
      var x: Node? := null;
      ghost var p: nat := 0;
      NoneBefore(nodes);
      var i := level - 1;
      while i >= 0
        invariant -1 <= i < level && p <= |nodes| && x == Before(nodes, p) && (p > 0 ==> hs[p - 1] > i)
        invariant Passed(nodes, key, p) && Marks(nodes, hs, key, level, i, p, update, ps)
      {
        ReadFrom(i, p, x);
        var next := if x == null then head[i] else x.next[i];
        ghost var p0 := p;
        while next != null
          invariant p <= |nodes| && x == Before(nodes, p) && (p > 0 ==> hs[p - 1] > i)
          invariant next == At(nodes, NextTall(hs, p, i)) && Passed(nodes, key, p)
          invariant p0 <= p
          decreases |nodes| - p
        {
          PlaceOf(nodes, NextTall(hs, p, i));
          if key <= next.key {
            break;
          }
          PassesTo(nodes, key, p, NextTall(hs, p, i));
          p := NextTall(hs, p, i) + 1;
          x := next;
          ReadFrom(i, p, x);
          next := x.next[i];
        }
        StopsHere(nodes, hs, key, i, p);
        MarksStep(nodes, hs, key, level, i, p0, p, update, ps);
        MarksWide(nodes, hs, key, level, i, p0, update, ps);
        update := update[i := x];
        ps := ps[i := p];
        i := i - 1;
      }
      r := p;
      Heights();
      SearchEnds(nodes, hs, key, p, level, update, ps);
    }

    /** On level 0 every node is linked. */
    lemma LowestLink(r: nat)
      requires Valid() && r <= |nodes|
      ensures |head| == MAX_LEVEL && (r > 0 ==> |nodes[r - 1].next| == MAX_LEVEL)
      ensures At(nodes, r) == if r == 0 then head[0] else nodes[r - 1].next[0]
    {
      Heights();
      ReadLink(0, r);
      NextTallIs(hs, r, 0, r);
    }

    /** Links `x` into level `i` behind `u`. */
    method LinkInto(x: Node, u: Node?, i: nat, ghost s: set<Node>)
      requires x in s && (u != null ==> u in s) && i < MAX_LEVEL && Wide(Snap(s))
      modifies this`head, s
      ensures Snap(s) == LinkAt(old(Snap(s)), x, u, i)
    {
      if u == null {
        StoreNext(x, i, head[i], s);
        StoreHead(i, x, s);
      } else {
        assert |Snap(s).at[u].next| == MAX_LEVEL && |Snap(s).at[x].next| == MAX_LEVEL;
        StoreNext(x, i, u.next[i], s);
        StoreNext(u, i, x, s);
      }
    }

    /** skiplist_insert. A height above the maximum is cut down; a key that is present already leaves
        the list alone. */
    method Insert(node: Node) returns (x: Node?, ghost r: nat)
      requires Valid() && |node.next| == MAX_LEVEL && 1 <= node.level
      modifies this, Nodes(), node
      ensures Valid() && Rank(old(nodes), node.key, r)
      ensures node.level == if old(node.level) > 16 then 16 else old(node.level)
      ensures x == null <==> exists j :: 0 <= j < |old(nodes)| && old(nodes)[j].key == node.key
      ensures x == null ==>
                Snap(old(Nodes())) == old(Snap(Nodes())) && nodes == old(nodes) && hs == old(hs) && level == old(level)
      ensures x != null ==>
                x == node && nodes == Inserted(old(nodes), r, node) && hs == Inserted(old(hs), r, node.level)
    {
      hide Sound, NextTall, Ascending, Rank, Update, Snap, Levels, PrevOk, Highest, Linking, LinkAt, Inserted;
      ghost var s := Nodes() + {node};
      Heights();
      var lvl := node.level;
      if lvl > MAX_LEVEL {
        assert node !in nodes;
        lvl := MAX_LEVEL;
        node.level := lvl;
      }
      var update; ghost var ps;
      update, ps, r := Search(node.key);
      SearchedPlaces(nodes, hs, node.key, r, ps);
      LowestLink(r);
      var next0 := if update[0] == null then head[0] else update[0].next[0];
      RankDecides(nodes, node.key, r);
      if next0 != null && next0.key == node.key {
        return null, r;
      }
      assert node !in nodes;
      var i := level;
      while i < lvl
        modifies {}
        invariant |update| == |ps| == MAX_LEVEL && forall k :: 0 <= k < MAX_LEVEL ==> update[k] == Before(nodes, ps[k])
        invariant forall k :: level <= k < MAX_LEVEL ==> update[k] == null
        invariant level <= i
      {
        update := update[i := null];
        i := i + 1;
      }
      LinkStarts(node, r, s);
      InsertHighest(hs, r, lvl, level);
      InsertOrder(nodes, node, r);
      if lvl > level {
        level := lvl;
      }
      LinkLevels(node, update, ps, r, s);
      LinkBack(node, update[0], r, s);
      x := node;
    }

    lemma LinkStarts(x: Node, r: nat, s: set<Node>)
      requires Valid() && s == Nodes() + {x} && x !in nodes && |x.next| == MAX_LEVEL && 1 <= x.level <= MAX_LEVEL
      requires Rank(nodes, x.key, r)
      ensures Linking(Snap(s), nodes, hs, x, r, 0) && Snap(s).at[x].level == x.level && Highest(hs, level)
      ensures r <= |nodes| == |hs|
    {
      hide NextTall, At;
      Heights();
      SameCells(Snap(Nodes()), Snap(s), nodes, hs);
      InsertHeight(Snap(s), nodes, hs, x, r);
    }

    /** The linking loop. */
    method LinkLevels(x: Node, update: seq<Node?>, ghost ps: seq<nat>, ghost r: nat, ghost s: set<Node>)
      requires x in s && 1 <= x.level <= MAX_LEVEL && |update| == MAX_LEVEL && Update(hs, r, ps)
      requires forall k :: 0 <= k < MAX_LEVEL ==> update[k] == Before(nodes, ps[k])
      requires Linking(Snap(s), nodes, hs, x, r, 0)
      modifies this`head, s
      ensures x.level == old(x.level) && Linking(Snap(s), nodes, hs, x, r, old(x.level))
    {
      hide Snap, Linking, LinkAt, Update, Before, NextTall;
      var i := 0;
      LevelIn(x, s);
      while i < x.level
        invariant 0 <= i <= x.level == old(x.level)
        invariant Linking(Snap(s), nodes, hs, x, r, i)
      {
        LevelIn(x, s);
        LinkingWide(Snap(s), nodes, hs, x, r, i);
        LinkStep(Snap(s), nodes, hs, x, r, ps, i);
        LinkInto(x, update[i], i, s);
        LevelIn(x, s);
        i := i + 1;
      }
    }

    lemma LevelIn(x: Node, s: set<Node>)
      requires x in s
      ensures Snap(s).at.Keys == s && Snap(s).at[x].level == x.level
    {
    }

    /** The backward pointers. */
    method LinkBack(x: Node, u: Node?, ghost r: nat, ghost s: set<Node>)
      requires x in s && 1 <= x.level <= MAX_LEVEL && Linking(Snap(s), nodes, hs, x, r, x.level)
      requires u == Before(nodes, r)
      requires r <= |nodes| && r <= |hs|
      requires s == Nodes() + {x} && Ascending(Inserted(nodes, r, x)) && Highest(Inserted(hs, r, x.level), level)
      modifies this`nodes, this`hs, s
      ensures Valid() && r <= |old(nodes)| == |old(hs)|
      ensures nodes == Inserted(old(nodes), r, x) && hs == Inserted(old(hs), r, old(x.level))
      ensures x.level == old(x.level)
    {
      hide Linking, Levels, PrevOk, Known, Highest, Ascending, Snap, Inserted, Before, At;
      LevelIn(x, s);
      ghost var m, nodes', hs' := Snap(s), Inserted(nodes, r, x), Inserted(hs, r, x.level);
      LinkDone(m, nodes, hs, x, r);
      NewLink(m, nodes, hs, x, r);
      InsertPrev(m, nodes, x, r);
      NextIn(x, s);
      AtIs(nodes, r);
      var y := x.next[0];
      SetPrevKeeps(m, x, u, nodes', hs');
      StorePrev(x, u, s);
      NextIn(x, s);
      if y != null {
        SetPrevKeeps(Snap(s), y, x, nodes', hs');
        StorePrev(y, x, s);
      }
      InsertedNodes(nodes, x, r);
      nodes, hs := nodes', hs';
      LevelIn(x, s);
    }

    lemma NextIn(x: Node, s: set<Node>)
      requires x in s
      ensures Snap(s).at.Keys == s && Snap(s).at[x].next == x.next
      ensures Snap(s).at[x].prev == x.prev && Snap(s).head == head
    {
    }

    lemma ShrinkStarts(m: Mem, s: set<Node>, r: nat, level: int, nodes0: seq<Node>, hs0: seq<int>)
      requires m == Snap(s) && r < |nodes0| == |hs0| && nodes == Removed(nodes0, r) && hs == Removed(hs0, r)
      requires s == set x | x in nodes0
      requires Ascending(nodes0) && Levels(m, nodes, hs) && PrevOk(m, nodes)
      requires 0 <= level <= MAX_LEVEL && forall j :: 0 <= j < |hs0| ==> hs0[j] <= level
      ensures Shrinking(Snap(Nodes()), nodes, hs, level) && |head| == MAX_LEVEL
    {
      hide LevelOk, PrevOk;
      RemoveOrder(nodes0, r);
      forall x | x in nodes ensures x in s {
      }
      SameCells(m, Snap(Nodes()), nodes, hs);
    }

    /** Unlinks `x` from level `i`, where `u` comes before it. */
    method UnlinkFrom(x: Node, u: Node?, i: nat, ghost s: set<Node>)
      requires x in s && (u != null ==> u in s) && i < MAX_LEVEL && Wide(Snap(s))
      modifies this`head, s
      ensures Snap(s) == UnlinkAt(old(Snap(s)), x, u, i)
    {
      assert |Snap(s).at[x].next| == MAX_LEVEL;
      if u == null {
        if head[i] == x {
          StoreHead(i, x.next[i], s);
        }
      } else {
        assert |Snap(s).at[u].next| == MAX_LEVEL;
        if u.next[i] == x {
          StoreNext(u, i, x.next[i], s);
        }
      }
    }

    /** skiplist_erase: the node leaves every level, the others keep their heights and their order. */
    method Erase(node: Node) returns (ghost r: nat)
      requires Valid() && node in nodes
      modifies this, Nodes()
      ensures Valid() && r < |old(nodes)| == |old(hs)| && old(nodes)[r] == node
      ensures nodes == Removed(old(nodes), r) && hs == Removed(old(hs), r)
    {
      hide Sound, Rank, Update, Snap, Unlinking, Removed, Ascending, Shrinking;
      Heights();
      ghost var s := Nodes();
      var update; ghost var ps;
      update, ps, r := Search(node.key);
      RankOf(nodes, node, r);
      UnlinkStarts(r);
      UnlinkLevels(node, update, ps, r, s);
      UnlinkBack(node, r, s);
      while level > 0 && head[level - 1] == null
        invariant Shrinking(Snap(Nodes()), nodes, hs, level)
        invariant nodes == Removed(old(nodes), r) && hs == Removed(old(hs), r)
        invariant 0 <= level <= |head|
        decreases level
      {
        HeadIn(Nodes());
        ShrinkStep(Snap(Nodes()), nodes, hs, level);
        level := level - 1;
      }
      HeadIn(Nodes());
      ShrinkEnds(Snap(Nodes()), nodes, hs, level);
    }

    lemma HeadIn(s: set<Node>)
      ensures Snap(s).head == head
    {
    }

    lemma UnlinkStarts(r: nat)
      requires Valid() && r < |nodes|
      ensures |hs| == |nodes| && Unlinking(Snap(Nodes()), nodes, hs, r, 0)
    {
      RemoveHeight(Snap(Nodes()), nodes, hs, r);
      assert LevelOk(Snap(Nodes()), nodes, hs, 0);
    }

    /** The unlinking loop. */
    method UnlinkLevels(x: Node, update: seq<Node?>, ghost ps: seq<nat>, ghost r: nat, ghost s: set<Node>)
      requires x in s && r < |nodes| == |hs| && nodes[r] == x && x.level == hs[r] >= 1
      requires |update| == MAX_LEVEL && Update(hs, r, ps)
      requires forall k :: 0 <= k < MAX_LEVEL ==> update[k] == Before(nodes, ps[k])
      requires Unlinking(Snap(s), nodes, hs, r, 0) && hs[r] <= MAX_LEVEL
      modifies this`head, s
      ensures Unlinking(Snap(s), nodes, hs, r, hs[r])
    {
      hide Snap, Unlinking, UnlinkAt, Update, Before, NextTall;
      var i := 0;
      while i < x.level
        invariant 0 <= i <= x.level == hs[r]
        invariant Unlinking(Snap(s), nodes, hs, r, i)
      {
        LevelIn(x, s);
        UnlinkingFacts(Snap(s), nodes, hs, r, i);
        UnlinkStep(Snap(s), nodes, hs, r, ps, i);
        UnlinkFrom(x, update[i], i, s);
        LevelIn(x, s);
        UnlinkingFacts(Snap(s), nodes, hs, r, i + 1);
        i := i + 1;
      }
    }

    /** The backward pointer of the node behind. */
    method UnlinkBack(x: Node, ghost r: nat, ghost s: set<Node>)
      requires x in s && s == Nodes() && r < |nodes| == |hs| && nodes[r] == x
      requires hs[r] >= 1 && Unlinking(Snap(s), nodes, hs, r, hs[r])
      requires 0 <= level <= MAX_LEVEL && forall j :: 0 <= j < |hs| ==> hs[j] <= level
      modifies this`nodes, this`hs, s
      ensures r < |old(nodes)| == |old(hs)| && nodes == Removed(old(nodes), r) && hs == Removed(old(hs), r)
      ensures Shrinking(Snap(Nodes()), nodes, hs, level) && level <= |head|
    {
      hide Unlinking, Levels, PrevOk, Known, Ascending, Snap, Removed, Before, At, Shrinking;
      LevelIn(x, s);
      ghost var m, nodes', hs' := Snap(s), Removed(nodes, r), Removed(hs, r);
      UnlinkDone(m, nodes, hs, r);
      UnlinkingFacts(m, nodes, hs, r, hs[r]);
      OldNext(m, nodes, hs, r);
      RemovePrev(m, nodes, r);
      NextIn(x, s);
      AtIs(nodes, r + 1);
      var y := x.next[0];
      if y != null {
        SetPrevKeeps(m, y, x.prev, nodes', hs');
        StorePrev(y, x.prev, s);
      }
      ghost var m2 := Snap(s);
      nodes, hs := nodes', hs';
      NextIn(x, s);
      ShrinkStarts(m2, s, r, level, old(nodes), old(hs));
    }
  }

  /** skiplist_random_level; `coins` are the draws of rand() & 1. */
  method RandomLevel(coins: seq<bool>) returns (lvl: int)
    requires |coins| >= 15
    ensures 1 <= lvl <= 16
    ensures forall k :: 0 <= k < lvl - 1 ==> coins[k]
    ensures lvl < 16 ==> !coins[lvl - 1]
  {
    lvl := 1;
    while lvl < MAX_LEVEL && coins[lvl - 1]
      invariant 1 <= lvl <= MAX_LEVEL && forall k :: 0 <= k < lvl - 1 ==> coins[k]
    {
      lvl := lvl + 1;
    }
  }

  /** Every node before place `p` has a key below `key`. */
  ghost predicate Passed(nodes: seq<Node>, key: int, p: nat) {
    p <= |nodes| && forall j :: 0 <= j < p ==> nodes[j].key < key
  }

  lemma NoneBefore(nodes: seq<Node>)
    ensures Before(nodes, 0) == null
  {
  }

  lemma PlaceOf(nodes: seq<Node>, k: nat)
    ensures At(nodes, k) != null ==> k < |nodes| && At(nodes, k) == nodes[k] == Before(nodes, k + 1)
  {
  }

  lemma NonePassed(nodes: seq<Node>, key: int)
    ensures Passed(nodes, key, 0)
  {
  }

  lemma PassesTo(nodes: seq<Node>, key: int, p: nat, k: nat)
    requires Ascending(nodes) && Passed(nodes, key, p) && k < |nodes| && nodes[k].key < key
    ensures Passed(nodes, key, k + 1)
  {
  }

  /** Level `i` has nothing behind place `p` with a key below `key`. */
  ghost predicate Stops(nodes: seq<Node>, hs: seq<int>, key: int, i: int, p: nat) {
    p <= |hs| && (NextTall(hs, p, i) < |nodes| ==> key <= nodes[NextTall(hs, p, i)].key)
  }

  lemma StopsHere(nodes: seq<Node>, hs: seq<int>, key: int, i: int, p: nat)
    requires p <= |hs| == |nodes|
    requires At(nodes, NextTall(hs, p, i)) == null
             || (NextTall(hs, p, i) < |nodes| && key <= nodes[NextTall(hs, p, i)].key)
    ensures Stops(nodes, hs, key, i, p)
  {
  }

  lemma AllPlaces(nodes: seq<Node>, hs: seq<int>, key: int, p: nat, level: int)
    requires Ascending(nodes) && |hs| == |nodes| && forall j :: 0 <= j < |hs| ==> 1 <= hs[j] <= level
    requires p <= |hs| && (level > 0 ==> Stops(nodes, hs, key, 0, p))
    ensures forall j :: p <= j < |nodes| ==> key <= nodes[j].key
  {
    if p < |nodes| {
      assert hs[p] >= 1;
      NextTallIs(hs, p, 0, p);
    }
  }

  lemma StopsAtRank(nodes: seq<Node>, hs: seq<int>, key: int, p: nat, level: int)
    requires Ascending(nodes) && |hs| == |nodes| && forall j :: 0 <= j < |hs| ==> 1 <= hs[j] <= level
    requires Passed(nodes, key, p) && (level > 0 ==> Stops(nodes, hs, key + 1, 0, p))
    ensures Rank(nodes, key, p) && (p < |nodes| ==> nodes[p].key != key)
  {
    AllPlaces(nodes, hs, key + 1, p, level);
  }

  lemma NotFound(nodes: seq<Node>, key: int, p: nat)
    requires Ascending(nodes) && Rank(nodes, key, p) && (p < |nodes| ==> nodes[p].key != key)
    ensures FindScan(nodes, key) == null && forall j :: 0 <= j < |nodes| ==> nodes[j].key != key
    ensures FindLeScan(nodes, key, null) == Before(nodes, p)
    ensures forall j :: 0 <= j < |nodes| && nodes[j].key <= key ==> p > 0 && nodes[j].key <= nodes[p - 1].key
    ensures p > 0 ==> nodes[p - 1] in nodes && nodes[p - 1].key <= key
  {
    FindScanIs(nodes, key, p);
    FindLeScanIs(nodes, key, p, null);
  }

  /** The search has dealt with the levels above `i`, and stands behind place `p`. */
  ghost predicate Marks(nodes: seq<Node>, hs: seq<int>, key: int, level: int, i: int, p: nat,
                        update: seq<Node?>, ps: seq<nat>) {
    && |update| == |ps| == MAX_LEVEL && |hs| == |nodes| && p <= |hs|
    && (forall k :: 0 <= k < MAX_LEVEL ==> update[k] == Before(nodes, ps[k]) && ps[k] <= p)
    && (forall k :: 0 <= k < MAX_LEVEL && (k <= i || level <= k) ==> ps[k] == 0)
    && (forall k :: 0 <= k < MAX_LEVEL && i < k < level ==>
          Stops(nodes, hs, key, k, ps[k]) && (ps[k] > 0 ==> hs[ps[k] - 1] > k))
    && (-1 <= i < level - 1 && i + 1 < MAX_LEVEL ==> ps[i + 1] == p)
  }

  lemma NoMarks(nodes: seq<Node>, hs: seq<int>, key: int, level: int)
    requires |hs| == |nodes| && level <= MAX_LEVEL
    ensures Marks(nodes, hs, key, level, level - 1, 0, seq(MAX_LEVEL, _ => null), seq(MAX_LEVEL, _ => 0))
  {
  }

  lemma MarksWide(nodes: seq<Node>, hs: seq<int>, key: int, level: int, i: int, p: nat,
                  update: seq<Node?>, ps: seq<nat>)
    requires Marks(nodes, hs, key, level, i, p, update, ps)
    ensures |update| == |ps| == MAX_LEVEL
  {
  }

  lemma MarksStep(nodes: seq<Node>, hs: seq<int>, key: int, level: int, i: nat, p0: nat, p: nat,
                  update: seq<Node?>, ps: seq<nat>)
    requires Marks(nodes, hs, key, level, i, p0, update, ps) && i < level <= MAX_LEVEL && p0 <= p
    requires Stops(nodes, hs, key, i, p) && (p > 0 ==> p <= |hs| && hs[p - 1] > i)
    ensures Marks(nodes, hs, key, level, i - 1, p, update[i := Before(nodes, p)], ps[i := p])
  {
    hide Stops, Before;
  }

  /** A level that stops behind place `p` has nothing tall between `p` and the rank of the key. */
  lemma SearchEnds(nodes: seq<Node>, hs: seq<int>, key: int, p: nat, level: int, update: seq<Node?>, ps: seq<nat>)
    requires Ascending(nodes) && |hs| == |nodes| && forall j :: 0 <= j < |hs| ==> 1 <= hs[j] <= level
    requires Passed(nodes, key, p) && 0 <= level <= MAX_LEVEL && Marks(nodes, hs, key, level, -1, p, update, ps)
    ensures |update| == MAX_LEVEL && forall i :: 0 <= i < MAX_LEVEL ==> update[i] == Before(nodes, ps[i])
    ensures forall k :: level <= k < MAX_LEVEL ==> update[k] == null
    ensures Rank(nodes, key, p) && Update(hs, p, ps) && ps[0] == p
  {
    AllPlaces(nodes, hs, key, p, level);
    assert |hs| > 0 ==> hs[0] >= 1;
    forall k | 0 <= k < MAX_LEVEL ensures LastTall(hs, p, k, ps[k]) {
      if k < level {
        assert Stops(nodes, hs, key, k, ps[k]);
      }
    }
  }

  lemma LastPlace(nodes: seq<Node>, hs: seq<int>, p: nat, level: int)
    requires |hs| == |nodes| && p <= |hs| && (forall j :: 0 <= j < |hs| ==> 1 <= hs[j] <= level)
    requires level > 0 ==> NextTall(hs, p, 0) == |hs|
    ensures p == |nodes|
  {
    if p < |nodes| {
      assert hs[p] >= 1;
    }
  }

  lemma FoundAt(nodes: seq<Node>, key: int, k: nat)
    requires Ascending(nodes) && k < |nodes| && nodes[k].key == key
    ensures FindScan(nodes, key) == nodes[k] && FindLeScan(nodes, key, null) == nodes[k]
    ensures nodes[k] in nodes && forall j :: 0 <= j < |nodes| && nodes[j].key <= key ==> nodes[j].key <= nodes[k].key
  {
    assert Rank(nodes, key, k);
    FindScanIs(nodes, key, k);
    FindLeScanIs(nodes, key, k, null);
  }

  lemma RankDecides(nodes: seq<Node>, key: int, r: nat)
    requires Ascending(nodes) && Rank(nodes, key, r)
    ensures (exists j :: 0 <= j < |nodes| && nodes[j].key == key) <==> At(nodes, r) != null && At(nodes, r).key == key
  {
  }

  /** Only the nodes of the list matter. */
  lemma SameCells(m: Mem, m': Mem, nodes: seq<Node>, hs: seq<int>)
    requires Levels(m, nodes, hs) && PrevOk(m, nodes) && m'.head == m.head && Wide(m')
    requires forall j :: 0 <= j < |nodes| ==> nodes[j] in m'.at && nodes[j] in m.at && m'.at[nodes[j]] == m.at[nodes[j]]
    ensures Levels(m', nodes, hs) && PrevOk(m', nodes)
  {
    hide At, NextTall, Before;
    forall j: nat ensures BackOk(m', nodes, j) {
      assert BackOk(m, nodes, j);
    }
    forall i: nat | i < MAX_LEVEL ensures LevelOk(m', nodes, hs, i) {
      assert LevelOk(m, nodes, hs, i);
      forall j: nat ensures LinkOk(m', nodes, hs, i, j) {
        assert LinkOk(m, nodes, hs, i, j);
      }
    }
  }

  lemma LinkingWide(m: Mem, nodes: seq<Node>, hs: seq<int>, x: Node, r: nat, i: nat)
    requires Linking(m, nodes, hs, x, r, i)
    ensures Wide(m) && x in m.at
  {
  }

  lemma SearchedPlaces(nodes: seq<Node>, hs: seq<int>, key: int, r: nat, ps: seq<nat>)
    requires Rank(nodes, key, r) && Update(hs, r, ps)
    ensures r <= |nodes| && |ps| == MAX_LEVEL
  {
  }

  lemma AtIs(nodes: seq<Node>, r: nat)
    ensures At(nodes, r) == if r < |nodes| then nodes[r] else null
  {
  }

  /** The new node's link of level 0, once it is linked. */
  lemma NewLink(m: Mem, nodes: seq<Node>, hs: seq<int>, x: Node, r: nat)
    requires x in m.at && 0 <= m.at[x].level && Linking(m, nodes, hs, x, r, m.at[x].level)
    requires r <= |hs| && r <= |nodes| && Levels(m, Inserted(nodes, r, x), Inserted(hs, r, m.at[x].level))
    ensures |m.at[x].next| == MAX_LEVEL && m.at[x].next[0] == At(nodes, r) && |nodes| == |hs|
    ensures r < |nodes| ==> nodes[r] in m.at
    ensures x !in nodes && PrevOk(m, nodes) && Ascending(nodes)
  {
    var nodes', hs' := Inserted(nodes, r, x), Inserted(hs, r, m.at[x].level);
    assert LevelOk(m, nodes', hs', 0);
    assert LinkOk(m, nodes', hs', 0, r);
    if r < |nodes| {
      assert hs'[r + 1] == hs[r];
      assert nodes[r] in m.at && m.at[nodes[r]].level == hs[r];
    }
    NextTallIs(hs', r + 1, 0, r + 1);
  }

  lemma InsertedNodes(nodes: seq<Node>, x: Node, r: nat)
    requires r <= |nodes|
    ensures (set y | y in Inserted(nodes, r, x)) == (set y | y in nodes) + {x}
  {
    assert forall y :: y in Inserted(nodes, r, x) <==> y in nodes || y == x;
  }

  lemma RankOf(nodes: seq<Node>, x: Node, r: nat)
    requires Ascending(nodes) && Rank(nodes, x.key, r) && x in nodes
    ensures r < |nodes| && nodes[r] == x
  {
    var j :| 0 <= j < |nodes| && nodes[j] == x;
  }

  /** What holds while list->level is coming down. */
  ghost predicate Shrinking(m: Mem, nodes: seq<Node>, hs: seq<int>, level: int) {
    && Ascending(nodes) && Levels(m, nodes, hs) && PrevOk(m, nodes)
    && 0 <= level <= MAX_LEVEL && forall j :: 0 <= j < |hs| ==> hs[j] <= level
  }

  lemma ShrinkStep(m: Mem, nodes: seq<Node>, hs: seq<int>, level: int)
    requires Shrinking(m, nodes, hs, level) && 0 < level <= |m.head| && m.head[level - 1] == null
    ensures Shrinking(m, nodes, hs, level - 1)
  {
    assert LevelOk(m, nodes, hs, level - 1);
    assert forall j :: 0 <= j < |hs| ==> hs[j] <= level - 1;
  }

  lemma ShrinkEnds(m: Mem, nodes: seq<Node>, hs: seq<int>, level: int)
    requires Shrinking(m, nodes, hs, level) && (level > 0 ==> level <= |m.head| && m.head[level - 1] != null)
    ensures Sound(m, nodes, hs, level)
  {
    if level > 0 {
      assert LevelOk(m, nodes, hs, level - 1);
      assert hs[NextTall(hs, 0, level - 1)] == level;
    }
  }

  lemma UnlinkingFacts(m: Mem, nodes: seq<Node>, hs: seq<int>, r: nat, i: nat)
    requires Unlinking(m, nodes, hs, r, i)
    ensures Wide(m) && r < |nodes| == |hs| && nodes[r] in m.at && m.at[nodes[r]].level == hs[r]
    ensures PrevOk(m, nodes) && Ascending(nodes)
  {
  }

  /** The link of level 0 that the erased node keeps. */
  lemma OldNext(m: Mem, nodes: seq<Node>, hs: seq<int>, r: nat)
    requires r < |hs| && 1 <= hs[r] && Unlinking(m, nodes, hs, r, hs[r])
    ensures r < |nodes| && nodes[r] in m.at && 0 < |m.at[nodes[r]].next| && m.at[nodes[r]].next[0] == At(nodes, r + 1)
  {
    NextTallIs(hs, r + 1, 0, r + 1);
  }
}
