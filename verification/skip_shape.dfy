/** The memory of an intrusive skip list (structure/skiplist.h), and the list it stands for: the nodes
    of level 0 in order, and the height of each. Level `i` links the nodes taller than `i`. */
module SkipShape {
  const MAX_LEVEL: nat := 16

  /** skiplist_node_t, together with the key its owner embeds it next to. */
  class Node {
    const key: int
    var prev: Node?
    var next: seq<Node?>
    var level: int

    constructor (key: int, level: int)
      ensures this.key == key && this.level == level && |next| == MAX_LEVEL
    {
      this.key, this.level := key, level;
      prev, next := null, seq(MAX_LEVEL, _ => null);
    }
  }

  datatype Cell = Cell(prev: Node?, next: seq<Node?>, level: int)

  datatype Mem = Mem(head: seq<Node?>, at: map<Node, Cell>)

  /* ---- The list ---- */

  /** The first place from `from` on whose node is taller than `i`. */
  function NextTall(hs: seq<int>, from: nat, i: int): (k: nat)
    requires from <= |hs|
    ensures from <= k <= |hs| && (k < |hs| ==> hs[k] > i) && forall j :: from <= j < k ==> hs[j] <= i
    decreases |hs| - from
  {
    if from == |hs| || hs[from] > i then from else NextTall(hs, from + 1, i)
  }

  lemma NextTallIs(hs: seq<int>, from: nat, i: int, k: nat)
    requires from <= k <= |hs| && (k < |hs| ==> hs[k] > i) && forall j :: from <= j < k ==> hs[j] <= i
    ensures NextTall(hs, from, i) == k
  {
  }

  /** The node at place `k`, or the end of the list. */
  function At(nodes: seq<Node>, k: nat): Node? {
    if k < |nodes| then nodes[k] else null
  }

  /** The node before place `p`, or the list head. */
  function Before(nodes: seq<Node>, p: nat): Node? {
    if 0 < p <= |nodes| then nodes[p - 1] else null
  }

  predicate Ascending(nodes: seq<Node>) {
    forall j, k :: 0 <= j < k < |nodes| ==> nodes[j].key < nodes[k].key
  }

  /** Every node lies in the memory, with its height. */
  ghost predicate Known(m: Mem, nodes: seq<Node>, hs: seq<int>) {
    && |nodes| == |hs| && |m.head| == MAX_LEVEL
    && (forall x <- m.at :: |m.at[x].next| == MAX_LEVEL)
    && forall j :: 0 <= j < |nodes| ==> nodes[j] in m.at && m.at[nodes[j]].level == hs[j] && 1 <= hs[j] <= MAX_LEVEL
  }

  /** If node `j` is taller than `i`, its link of level `i` names the next such node. */
  predicate LinkOk(m: Mem, nodes: seq<Node>, hs: seq<int>, i: nat, j: nat) {
    j < |nodes| && j < |hs| && hs[j] > i ==>
      nodes[j] in m.at && i < |m.at[nodes[j]].next| && m.at[nodes[j]].next[i] == At(nodes, NextTall(hs, j + 1, i))
  }

  /** Level `i` links exactly the nodes taller than `i`, in order. */
  ghost predicate LevelOk(m: Mem, nodes: seq<Node>, hs: seq<int>, i: nat)
    requires Known(m, nodes, hs) && i < MAX_LEVEL
  {
    && m.head[i] == At(nodes, NextTall(hs, 0, i))
    && forall j: nat {:trigger LinkOk(m, nodes, hs, i, j)} :: LinkOk(m, nodes, hs, i, j)
  }

  predicate BackOk(m: Mem, nodes: seq<Node>, j: nat) {
    j < |nodes| ==> nodes[j] in m.at && m.at[nodes[j]].prev == Before(nodes, j)
  }

  /** `prev` is the inverse of `next[0]`. */
  ghost predicate PrevOk(m: Mem, nodes: seq<Node>) {
    forall j: nat {:trigger BackOk(m, nodes, j)} :: BackOk(m, nodes, j)
  }

  ghost predicate Levels(m: Mem, nodes: seq<Node>, hs: seq<int>) {
    Known(m, nodes, hs) && forall i: nat :: i < MAX_LEVEL ==> LevelOk(m, nodes, hs, i)
  }

  /** list->level is the greatest height. */
  predicate Highest(hs: seq<int>, level: int) {
    && 0 <= level <= MAX_LEVEL && (forall j :: 0 <= j < |hs| ==> hs[j] <= level)
    && (level > 0 ==> exists j :: 0 <= j < |hs| && hs[j] == level)
  }

  ghost predicate Sound(m: Mem, nodes: seq<Node>, hs: seq<int>, level: int) {
    Ascending(nodes) && Levels(m, nodes, hs) && PrevOk(m, nodes) && Highest(hs, level)
  }

  /** The place of `key`: how many nodes have a smaller key. */
  predicate Rank(nodes: seq<Node>, key: int, r: nat) {
    && r <= |nodes|
    && (forall j :: 0 <= j < r ==> nodes[j].key < key)
    && (forall j :: r <= j < |nodes| ==> key <= nodes[j].key)
  }

  /** The node before place `p` is the last one before place `r` that level `i` links. */
  predicate LastTall(hs: seq<int>, r: nat, i: int, p: nat) {
    p <= r <= |hs| && (p > 0 ==> hs[p - 1] > i) && forall j :: p <= j < r ==> hs[j] <= i
  }

  /* ---- Level by level ---- */

  /** The nodes of level `i`, from place `from` on. */
  function Level(nodes: seq<Node>, hs: seq<int>, i: int, from: nat): (s: seq<Node>)
    requires |nodes| == |hs| && from <= |nodes|
    decreases |nodes| - from
  {
    if from == |nodes| then []
    else if hs[from] > i then [nodes[from]] + Level(nodes, hs, i, from + 1)
    else Level(nodes, hs, i, from + 1)
  }

  lemma {:induction false} LevelFirst(nodes: seq<Node>, hs: seq<int>, i: int, from: nat)
    requires |nodes| == |hs| && from <= |nodes|
    ensures var k := NextTall(hs, from, i);
            Level(nodes, hs, i, from) == if k == |nodes| then [] else [nodes[k]] + Level(nodes, hs, i, k + 1)
    decreases |nodes| - from
  {
    if from < |nodes| && hs[from] <= i {
      LevelFirst(nodes, hs, i, from + 1);
    }
  }

  /** The chain of level `i`: what is reached from the pointer `p` along next[i]. */
  ghost predicate Chain(m: Mem, i: nat, p: Node?, s: seq<Node>)
    decreases |s|
  {
    if s == [] then p == null
    else p == s[0] && s[0] in m.at && i < |m.at[s[0]].next| && Chain(m, i, m.at[s[0]].next[i], s[1..])
  }

  lemma {:induction false} LevelChain(m: Mem, nodes: seq<Node>, hs: seq<int>, i: nat, from: nat)
    requires Known(m, nodes, hs) && i < MAX_LEVEL && LevelOk(m, nodes, hs, i) && from <= |nodes|
    ensures Chain(m, i, At(nodes, NextTall(hs, from, i)), Level(nodes, hs, i, from))
    decreases |nodes| - from
  {
    var k := NextTall(hs, from, i);
    LevelFirst(nodes, hs, i, from);
    if k < |nodes| {
      assert LinkOk(m, nodes, hs, i, k);
      LevelChain(m, nodes, hs, i, k + 1);
      hide Known, LevelOk, Level, NextTall;
      assert ([nodes[k]] + Level(nodes, hs, i, k + 1))[1..] == Level(nodes, hs, i, k + 1);
    }
  }

  predicate Subsequence(s: seq<Node>, t: seq<Node>)
    decreases |t|
  {
    s == [] || (t != [] && (Subsequence(s, t[1..]) || (s[0] == t[0] && Subsequence(s[1..], t[1..]))))
  }

  lemma {:induction false} LevelBelow(nodes: seq<Node>, hs: seq<int>, i: int, from: nat)
    requires |nodes| == |hs| && from <= |nodes|
    ensures Subsequence(Level(nodes, hs, i + 1, from), Level(nodes, hs, i, from))
    decreases |nodes| - from
  {
    if from < |nodes| {
      LevelBelow(nodes, hs, i, from + 1);
      var s, t := Level(nodes, hs, i + 1, from), Level(nodes, hs, i, from);
      if hs[from] > i {
        assert t[1..] == Level(nodes, hs, i, from + 1);
      }
      if hs[from] > i + 1 {
        assert s[1..] == Level(nodes, hs, i + 1, from + 1);
      }
    }
  }

  lemma {:induction false} LevelAll(nodes: seq<Node>, hs: seq<int>, from: nat)
    requires |nodes| == |hs| && from <= |nodes| && forall j :: 0 <= j < |hs| ==> hs[j] >= 1
    ensures Level(nodes, hs, 0, from) == nodes[from..]
    decreases |nodes| - from
  {
    if from < |nodes| {
      LevelAll(nodes, hs, from + 1);
    }
  }

  lemma {:induction false} LevelMembers(nodes: seq<Node>, hs: seq<int>, i: int, from: nat, x: Node)
    requires |nodes| == |hs| && from <= |nodes|
    ensures x in Level(nodes, hs, i, from) <==> exists j :: from <= j < |nodes| && nodes[j] == x && hs[j] > i
    decreases |nodes| - from
  {
    if from < |nodes| {
      LevelMembers(nodes, hs, i, from + 1, x);
    }
  }

  lemma {:induction false} LevelAscending(nodes: seq<Node>, hs: seq<int>, i: int, from: nat)
    requires |nodes| == |hs| && from <= |nodes| && Ascending(nodes)
    ensures Ascending(Level(nodes, hs, i, from))
    decreases |nodes| - from
  {
    if from < |nodes| {
      LevelAscending(nodes, hs, i, from + 1);
      forall x | x in Level(nodes, hs, i, from + 1) ensures nodes[from].key < x.key {
        LevelMembers(nodes, hs, i, from + 1, x);
      }
    }
  }

  /** The chain that level `i` really links holds exactly the nodes taller than `i`, in strictly
      ascending order, and the chain below holds them too. */
  lemma LevelsAre(m: Mem, nodes: seq<Node>, hs: seq<int>, level: int, i: nat)
    requires Sound(m, nodes, hs, level) && i < MAX_LEVEL
    ensures var s := Level(nodes, hs, i, 0);
            && Chain(m, i, m.head[i], s) && Ascending(s) && (i == 0 ==> s == nodes)
            && (forall j :: 0 <= j < |nodes| ==> (nodes[j] in s <==> m.at[nodes[j]].level > i))
            && (i + 1 < MAX_LEVEL ==> Subsequence(Level(nodes, hs, i + 1, 0), s))
            && (s == [] <==> level <= i)
  {
    LevelChain(m, nodes, hs, i, 0);
    LevelAscending(nodes, hs, i, 0);
    LevelBelow(nodes, hs, i, 0);
    if i == 0 {
      LevelAll(nodes, hs, 0);
    }
    LevelFirst(nodes, hs, i, 0);
    forall j | 0 <= j < |nodes| ensures nodes[j] in Level(nodes, hs, i, 0) <==> hs[j] > i {
      LevelMembers(nodes, hs, i, 0, nodes[j]);
    }
  }
}
