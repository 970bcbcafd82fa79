/** Key order, in-order neighbours and height (structure/rbtree.h:67-152 and 222-267). */
module RbOrder {
  import opened Options
  import opened Bits
  import opened Sets
  import opened RbMemory
  import opened RbTree
  import opened RbInsert
  import opened RbUnlink

  /** Strictly ascending keys: the order the caller's comparison function defines. */
  ghost predicate Sorted(s: seq<Node>) {
    forall i, j :: 0 <= i < j < |s| ==> s[i].key < s[j].key
  }

  ghost predicate Below(s: seq<Node>, key: int) {
    forall x <- s :: x.key < key
  }

  ghost predicate Above(s: seq<Node>, key: int) {
    forall x <- s :: key < x.key
  }

  lemma SortedSplit(a: seq<Node>, x: Node, b: seq<Node>)
    requires Sorted(a + [x] + b)
    ensures Below(a, x.key) && Above(b, x.key) && Sorted(a) && Sorted(b)
  {
    var s := a + [x] + b;
    assert s[|a|] == x;
    forall i | 0 <= i < |a| ensures a[i].key < x.key { assert s[i] == a[i]; }
    forall i | 0 <= i < |b| ensures x.key < b[i].key { assert s[|a| + 1 + i] == b[i]; }
    forall i, j | 0 <= i < j < |a| ensures a[i].key < a[j].key { assert s[i] == a[i] && s[j] == a[j]; }
    forall i, j | 0 <= i < j < |b| ensures b[i].key < b[j].key {
      assert s[|a| + 1 + i] == b[i] && s[|a| + 1 + j] == b[j];
    }
  }

  lemma SortedJoin(a: seq<Node>, x: Node, b: seq<Node>)
    requires Sorted(a + b) && Below(a, x.key) && Above(b, x.key)
    ensures Sorted(a + [x] + b)
  {
    var s, t := a + [x] + b, a + b;
    forall i, j | 0 <= i < j < |s| ensures s[i].key < s[j].key {
      if i < |a| && j > |a| {
        assert s[i] == a[i] && s[j] == b[j - |a| - 1];
      } else if i > |a| {
        assert s[i] == t[i - 1] && s[j] == t[j - 1];
      } else if j < |a| {
        assert s[i] == t[i] && s[j] == t[j];
      }
    }
  }

  /** What stands to the left and to the right of the node in focus. */
  lemma FocusOrder(k: Context, t: Tree)
    requires t.Fork? && Sorted(Inorder(Plug(k, t)))
    ensures Inorder(Plug(k, t)) == (Before(k) + Inorder(t.left)) + [t.node] + (Inorder(t.right) + After(k))
    ensures Below(Before(k) + Inorder(t.left), t.node.key) && Above(Inorder(t.right) + After(k), t.node.key)
  {
    hide Plug, Below, Above;
    InorderPlug(k, t);
    var a, b := Before(k) + Inorder(t.left), Inorder(t.right) + After(k);
    InorderAround(Before(k), t, After(k));
    SortedSplit(a, t.node, b);
  }

  lemma InorderAround(a: seq<Node>, t: Tree, b: seq<Node>)
    requires t.Fork?
    ensures a + Inorder(t) + b == (a + Inorder(t.left)) + [t.node] + (Inorder(t.right) + b)
  {
  }

  /** The first element is below all others, which are sorted themselves. */
  lemma SortedHead(s: seq<Node>)
    requires s != [] && Sorted(s)
    ensures Above(s[1..], s[0].key) && Sorted(s[1..])
  {
    assert [] + [s[0]] + s[1..] == s;
    SortedSplit([], s[0], s[1..]);
  }

  lemma SortedCons(x: Node, s: seq<Node>)
    requires Above(s, x.key) && Sorted(s)
    ensures Sorted([x] + s)
  {
    assert [] + s == s && [] + [x] + s == [x] + s;
    SortedJoin([], x, s);
  }

  lemma {:induction false} SortedMinus(s: seq<Node>, x: Node)
    requires Sorted(s)
    ensures Sorted(Minus(s, x)) && forall y <- Minus(s, x) :: y in s
  {
    hide Sorted;
    if s != [] {
      SortedHead(s);
      SortedMinus(s[1..], x);
      SortedCons(s[0], Minus(s[1..], x));
    }
  }

  /* ---- Insertion ---- */

  /** Everything left of the hole is smaller than `key`, everything right of it greater. */
  ghost predicate Between(k: Context, key: int) {
    Below(Before(k), key) && Above(After(k), key)
  }

  lemma AboveCons(x: Node, b: seq<Node>, key: int)
    requires Above(b, x.key) && key < x.key
    ensures Above([x] + b, key)
  {
  }

  lemma BelowSnoc(a: seq<Node>, x: Node, key: int)
    requires Below(a, x.key) && x.key < key
    ensures Below(a + [x], key)
  {
  }

  lemma AboveAbsent(b: seq<Node>, key: int)
    requires Above(b, key)
    ensures key !in Keys(b)
  {
  }

  lemma GoLeft(k: Context, t: Tree, key: int)
    requires t.Fork? && Sorted(Inorder(Plug(k, t))) && Between(k, key) && key < t.node.key
    ensures Between(In(k, Left, t.node, t.color, t.right), key)
    ensures Plug(In(k, Left, t.node, t.color, t.right), t.left) == Plug(k, t)
    ensures key !in Keys([t.node] + Inorder(t.right) + After(k))
  {
    hide Inorder, Below, Above, Keys, Sorted;
    FocusOrder(k, t);
    var b := Inorder(t.right) + After(k);
    AboveCons(t.node, b, key);
    assert [t.node] + Inorder(t.right) + After(k) == [t.node] + b;
    AboveAbsent([t.node] + b, key);
  }

  lemma GoRight(k: Context, t: Tree, key: int)
    requires t.Fork? && Sorted(Inorder(Plug(k, t))) && Between(k, key) && t.node.key < key
    ensures Between(In(k, Right, t.node, t.color, t.left), key)
    ensures Plug(In(k, Right, t.node, t.color, t.left), t.right) == Plug(k, t)
  {
    hide Inorder, Below, Above, Sorted;
    FocusOrder(k, t);
    BelowSnoc(Before(k) + Inorder(t.left), t.node, key);
  }

  function Keys(s: seq<Node>): set<int> {
    set x | x in s :: x.key
  }

  /** At an empty place between smaller and greater keys, the key is not in the tree. */
  lemma NotFound(k: Context, key: int)
    requires Between(k, key)
    ensures key !in Keys(Inorder(Plug(k, Leaf)))
  {
    InorderPlug(k, Leaf);
    assert Before(k) + [] + After(k) == Before(k) + After(k);
  }

  lemma KeyFound(k: Context, t: Tree)
    requires t.Fork?
    ensures t.node in Inorder(Plug(k, t)) && t.node.key in Keys(Inorder(Plug(k, t)))
  {
    PlugNodes(k, t);
    InorderNodes(Plug(k, t));
    assert t.node in Inorder(Plug(k, t));
  }

  lemma AttachFocus(m: Mem, k: Context, node: Node)
    requires Focus(m, k, Leaf) && node in m.at && node !in ContextNodes(k)
    ensures Known(m, ContextPtr(k))
    ensures Focus(Attach(m, node, ContextPtr(k), if k.In? then k.d else Left), k, Fork(Leaf, node, Red, Leaf))
  {
    var m' := Attach(m, node, ContextPtr(k), if k.In? then k.d else Left);
    ContextHole(m, m', k, null, node);
  }

  /** rbtree_insert after the search: attach the node, then repair. */
  lemma InsertSound(m: Mem, k: Context, node: Node) returns (m': Mem, t': Tree)
    requires Closed(m) && Focus(m, k, Leaf) && RedBlack(Plug(k, Leaf)) && node in m.at && node !in ContextNodes(k)
    requires Sorted(Inorder(Plug(k, Leaf))) && Between(k, node.key)
    ensures Known(m, ContextPtr(k))
    ensures var a := Attach(m, node, ContextPtr(k), if k.In? then k.d else Left);
            Closed(a) && InsertFixup(a, node, Depth(k)) == Some(Some(m'))
    ensures Closed(m') && m'.at.Keys == m.at.Keys && Focus(m', Top, t') && RedBlack(t')
    ensures Inorder(Plug(k, Leaf)) == Before(k) + After(k)
    ensures Inorder(t') == Before(k) + [node] + After(k) && Sorted(Inorder(t'))
  {
    hide Plug, Focus, Attach, InsertFixup, Sorted;
    var t := Fork(Leaf, node, Red, Leaf);
    AttachFocus(m, k, node);
    SoundPlug(k, Leaf);
    var a := Attach(m, node, ContextPtr(k), if k.In? then k.d else Left);
    m', t' := InsertFixupSound(a, k, t, Depth(k));
    InorderPlug(k, Leaf);
    InorderPlug(k, t);
    assert Before(k) + [] + After(k) == Before(k) + After(k);
    assert Inorder(t) == [node];
    SortedJoin(Before(k), node, After(k));
  }

  /** The representation only depends on the cells of the tree and on the root. */
  lemma FocusFrame(m: Mem, m': Mem, k: Context, t: Tree)
    requires Focus(m, k, t) && m'.root == m.root && Agree(m, m', Nodes(t) + ContextNodes(k))
    ensures Focus(m', k, t)
  {
    RepFrame(m, m', t, ContextPtr(k), Ptr(t));
    ContextFrame(m, m', k, Ptr(t));
  }

  /** The in-order sequence determines the footprint. */
  lemma SameNodes(t: Tree, s: set<Node>, a: seq<Node>, node: Node, b: seq<Node>, u: Tree)
    requires Inorder(t) == a + [node] + b && Inorder(u) == a + b && Nodes(u) == s
    ensures Nodes(t) == s + {node}
  {
    InorderNodes(t);
    InorderNodes(u);
    SetOfSplit(a, [node] + b);
    SetOfSplit([node], b);
    SetOfSplit(a, b);
    assert a + [node] + b == a + ([node] + b);
    assert SetOf([node]) == {node};
  }

  /* ---- In-order neighbours ---- */

  function First(s: seq<Node>): Node? {
    if s == [] then null else s[0]
  }

  function Last(s: seq<Node>): Node? {
    if s == [] then null else s[|s| - 1]
  }

  /** The element after `x`. */
  function Successor(s: seq<Node>, x: Node): Node? {
    if s == [] then null else if s[0] == x then First(s[1..]) else Successor(s[1..], x)
  }

  /** The element before `x`. */
  function Predecessor(s: seq<Node>, x: Node): Node? {
    if s == [] then null
    else if s[|s| - 1] == x then Last(s[..|s| - 1])
    else Predecessor(s[..|s| - 1], x)
  }

  lemma {:induction false} SuccessorSplit(a: seq<Node>, x: Node, b: seq<Node>)
    requires x !in a
    ensures Successor(a + [x] + b, x) == First(b)
  {
    var s := a + [x] + b;
    if a == [] {
      assert s[1..] == b;
    } else {
      assert s[1..] == a[1..] + [x] + b;
      SuccessorSplit(a[1..], x, b);
    }
  }

  lemma {:induction false} PredecessorSplit(a: seq<Node>, x: Node, b: seq<Node>)
    requires x !in b
    ensures Predecessor(a + [x] + b, x) == Last(a)
  {
    var s := a + [x] + b;
    if b == [] {
      assert s[..|s| - 1] == a;
    } else {
      assert s[..|s| - 1] == a + [x] + b[..|b| - 1];
      PredecessorSplit(a, x, b[..|b| - 1]);
    }
  }

  /** In a sorted sequence the successor of an element is the next one, and the last one has none. */
  lemma {:induction false} SuccessorAt(s: seq<Node>, i: nat)
    requires Sorted(s) && i < |s|
    ensures Successor(s, s[i]) == if i + 1 < |s| then s[i + 1] else null
  {
    hide Successor;
    assert s == s[..i] + [s[i]] + s[i + 1..];
    SuccessorSplit(s[..i], s[i], s[i + 1..]);
  }

  /** The predecessor is the one before, and the first one has none. */
  lemma {:induction false} PredecessorAt(s: seq<Node>, i: nat)
    requires Sorted(s) && i < |s|
    ensures Predecessor(s, s[i]) == if i > 0 then s[i - 1] else null
  {
    hide Predecessor;
    assert s == s[..i] + [s[i]] + s[i + 1..];
    PredecessorSplit(s[..i], s[i], s[i + 1..]);
  }

  /** Going forward and then back returns to the same node. */
  lemma PredecessorUndoesSuccessor(s: seq<Node>, x: Node)
    requires Sorted(s) && x in s && Successor(s, x) != null
    ensures Successor(s, x) in s && Predecessor(s, Successor(s, x)) == x
  {
    hide Successor, Predecessor, Sorted;
    var i :| 0 <= i < |s| && s[i] == x;
    SuccessorAt(s, i);
    PredecessorAt(s, i + 1);
  }

  /** Finds the place of a node. */
  lemma {:induction false} Locate(k: Context, t: Tree, x: Node) returns (j: Context, u: Tree)
    requires x in Nodes(t)
    ensures u.Fork? && u.node == x && Plug(j, u) == Plug(k, t)
    decreases t
  {
    if t.node == x {
      j, u := k, t;
    } else if x in Nodes(t.left) {
      j, u := Locate(In(k, Left, t.node, t.color, t.right), t.left, x);
    } else {
      j, u := Locate(In(k, Right, t.node, t.color, t.left), t.right, x);
    }
  }

  lemma Neighbours(k: Context, t: Tree)
    requires t.Fork? && Sorted(Inorder(Plug(k, t)))
    ensures Successor(Inorder(Plug(k, t)), t.node) == First(Inorder(t.right) + After(k))
    ensures Predecessor(Inorder(Plug(k, t)), t.node) == Last(Before(k) + Inorder(t.left))
  {
    hide Plug, Successor, Predecessor;
    FocusOrder(k, t);
    SuccessorSplit(Before(k) + Inorder(t.left), t.node, Inorder(t.right) + After(k));
    PredecessorSplit(Before(k) + Inorder(t.left), t.node, Inorder(t.right) + After(k));
  }

  /** The leftmost node comes first, the rightmost last. */
  lemma EndsOf(t: Tree)
    requires t.Fork?
    ensures Inorder(t) != []
    ensures t.left.Fork? ==> Inorder(t.left) != [] && First(Inorder(t)) == First(Inorder(t.left))
    ensures t.left.Leaf? ==> First(Inorder(t)) == t.node
    ensures t.right.Fork? ==> Inorder(t.right) != [] && Last(Inorder(t)) == Last(Inorder(t.right))
    ensures t.right.Leaf? ==> Last(Inorder(t)) == t.node
  {
  }

  /* ---- Height ---- */

  function Height(t: Tree): nat {
    if t.Leaf? then 0
    else 1 + if Height(t.left) >= Height(t.right) then Height(t.left) else Height(t.right)
  }

  lemma SquareMonotone(p: nat, q: nat)
    requires p <= q
    ensures p * p <= q * q
  {
    assert p * p <= p * q <= q * q;
  }

  lemma {:induction false} HeightBound(t: Tree)
    requires Sound(t)
    ensures Height(t) <= 2 * BlackHeight(t) + 1 - Weight(RootColor(t))
    ensures Pow2(BlackHeight(t)) <= |Inorder(t)| + 1
  {
    if t.Fork? {
      HeightBound(t.left);
      HeightBound(t.right);
    }
  }

  /** The height of a red-black tree of n nodes is at most 2 log2 (n + 1). */
  lemma HeightLog(t: Tree)
    requires RedBlack(t)
    ensures Pow2(Height(t)) <= (|Inorder(t)| + 1) * (|Inorder(t)| + 1)
  {
    hide Pow2, Height, BlackHeight;
    var h := BlackHeight(t);
    HeightBound(t);
    Pow2Monotone(Height(t), h + h);
    Pow2Add(h, h);
    SquareMonotone(Pow2(h), |Inorder(t)| + 1);
  }
}
