/** The unlink and transplant stage of rbtree_erase (structure/rbtree.h:379-433). */
module RbUnlink {
  import opened Options
  import opened RbMemory
  import opened RbTree
  import opened RbInsert
  import opened RbErase

  /** A node with at most one child gives its place to that child. */
  lemma SpliceFocus(m: Mem, k: Context, t: Tree, u: Tree)
    requires Closed(m) && Focus(m, k, t) && t.Fork?
    requires (t.left == Leaf && u == t.right) || (t.right == Leaf && u == t.left)
    ensures t.node in m.at && Known(m, Ptr(u)) && Focus(Splice(m, t.node, Ptr(u)), k, u)
    ensures Agree(m, Splice(m, t.node, Ptr(u)), m.at.Keys - ContextRoot(k) - Root(u))
  {
    hide Splice;
    var x := t.node;
    var side := if u == t.right then Right else Left;
    RepPtr(m, u, x, Child(m, x, side));
    if k.In? {
      FocusNeighbours(m, k, t);
    }
    SpliceCells(m, k, x, u);
    var m' := Splice(m, x, Ptr(u));
    assert Agree(m, m', Nodes(u) - Root(u));
    RepReparent(m, m', u, x, ContextPtr(k), Ptr(u));
    ContextHole(m, m', k, x, Ptr(u));
  }

  lemma SpliceCells(m: Mem, k: Context, x: Node, u: Tree)
    requires Closed(m) && x in m.at && m.at[x].parent == ContextPtr(k)
    requires k.In? ==> k.node in m.at && Child(m, k.node, k.d) == x && Child(m, k.node, k.d.Other()) != x
    requires k.Top? ==> m.root == x
    requires u.Fork? ==> u.node in m.at
    requires Root(u) !! ContextRoot(k)
    ensures var m' := Splice(m, x, Ptr(u));
            && HoleCell(m, m', k, Ptr(u))
            && (u.Fork? ==> m'.at[u.node] == m.at[u.node].(parent := ContextPtr(k)))
            && Agree(m, m', m.at.Keys - ContextRoot(k) - Root(u))
  {
  }

  /** `s`, a node outside the tree, takes the place of the tree's node. */
  lemma TransplantFocus(m: Mem, k: Context, t: Tree, s: Node)
    requires Closed(m) && Focus(m, k, t) && t.Fork? && s in m.at
    requires s !in Nodes(t) && s !in ContextNodes(k)
    ensures t.node in m.at && Focus(Transplant(m, t.node, s), k, t.(node := s))
    ensures Transplant(m, t.node, s).at[t.node] == m.at[t.node]
  {
    hide Transplant;
    var x := t.node;
    RepPtr(m, t.left, x, m.at[x].left);
    RepPtr(m, t.right, x, m.at[x].right);
    if k.In? {
      FocusNeighbours(m, k, t);
    }
    TransplantCells(m, k, x, s, t.left, t.right);
    TransplantParts(m, Transplant(m, x, s), k, t, s);
  }

  lemma TransplantParts(m: Mem, m': Mem, k: Context, t: Tree, s: Node)
    requires Focus(m, k, t) && t.Fork? && s in m.at && s !in Nodes(t) && s !in ContextNodes(k)
    requires t.node in m.at && m.at[t.node].left == Ptr(t.left) && m.at[t.node].right == Ptr(t.right)
    requires s in m'.at && m'.at[s] == m.at[t.node] && HoleCell(m, m', k, s)
    requires forall u <- {t.left, t.right} :: u.Fork? ==>
               u.node in m.at && u.node in m'.at && m'.at[u.node] == m.at[u.node].(parent := s)
    requires Agree(m, m', m.at.Keys - ContextRoot(k) - Root(t.left) - Root(t.right) - {s})
    ensures Focus(m', k, t.(node := s))
  {
    var x := t.node;
    assert Agree(m, m', Nodes(t.left) - Root(t.left)) && Agree(m, m', Nodes(t.right) - Root(t.right));
    RepReparent(m, m', t.left, x, s, Ptr(t.left));
    RepReparent(m, m', t.right, x, s, Ptr(t.right));
    ContextHole(m, m', k, x, s);
  }

  lemma TransplantCells(m: Mem, k: Context, x: Node, s: Node, l: Tree, r: Tree)
    requires Closed(m) && x in m.at && s in m.at && x != s && m.at[x].parent == ContextPtr(k)
    requires m.at[x].left == Ptr(l) && m.at[x].right == Ptr(r)
    requires k.In? ==> k.node in m.at && Child(m, k.node, k.d) == x && Child(m, k.node, k.d.Other()) != x
    requires k.Top? ==> m.root == x
    requires Root(l) !! Root(r) !! ContextRoot(k) !! {x, s}
    ensures var m' := Transplant(m, x, s);
            && HoleCell(m, m', k, s)
            && m'.at[s] == m.at[x] && m'.at[x] == m.at[x]
            && (l.Fork? ==> m'.at[l.node] == m.at[l.node].(parent := s))
            && (r.Fork? ==> m'.at[r.node] == m.at[r.node].(parent := s))
            && Agree(m, m', m.at.Keys - ContextRoot(k) - Root(l) - Root(r) - {s})
  {
  }

  /* ---- The successor ---- */

  /** The context `k`, filled with the context `rel`. */
  function Append(rel: Context, k: Context): Context {
    match rel
    case Top => k
    case In(up, d, x, c, s) => In(Append(up, k), d, x, c, s)
  }

  lemma {:induction false} FocusAppend(m: Mem, rel: Context, k: Context, t: Tree)
    ensures Focus(m, Append(rel, k), t) <==> Focus(m, k, Plug(rel, t))
    decreases rel
  {
    match rel
    case Top =>
    case In(up, d, x, c, s) =>
      FocusUp(m, Append(up, k), d, x, c, s, t);
      FocusAppend(m, up, k, Mk(d, t, x, c, s));
  }

  /** A path of left links: the way down to the leftmost node. */
  predicate LeftPath(rel: Context) {
    match rel
    case Top => true
    case In(up, d, _, _, _) => d == Left && LeftPath(up)
  }

  lemma {:induction false} LeftPathBefore(rel: Context)
    requires LeftPath(rel)
    ensures Before(rel) == []
  {
    match rel
    case Top =>
    case In(up, _, _, _, _) => LeftPathBefore(up);
  }

  lemma {:induction false} SoundAppend(rel: Context, k: Context, c: Color, d: Side, x: Node, y: Node, s: Tree, h: nat)
    requires k.In? && k == In(k.up, d, x, c, s)
    ensures SoundContext(Append(rel, k), h) <==> SoundContext(Append(rel, In(k.up, d, y, c, s)), h)
    ensures ContextColor(Append(rel, k)) == ContextColor(Append(rel, In(k.up, d, y, c, s)))
  {
    match rel
    case Top =>
    case In(up, _, _, c1, s1) => SoundAppend(up, k, c, d, x, y, s, h + Weight(c1));
  }

  /** The stage for a node with two children: the successor `s` is spliced out and takes over. */
  lemma UnlinkTwo(m: Mem, k: Context, l: Tree, x: Node, c: Color, rel: Context, s: Node, cs: Color, sr: Tree)
    requires Closed(m) && l.Fork? && LeftPath(rel)
    requires Focus(m, k, Fork(l, x, c, Plug(rel, Fork(Leaf, s, cs, sr))))
    ensures x in m.at && m.at[x].left == Ptr(l) && m.at[x].right != null
    ensures s in m.at && m.at[s].right == Ptr(sr) && m.at[s].color == cs
    ensures m.at[s].parent == ContextPtr(Append(rel, In(k, Right, x, c, l)))
    ensures Focus(Unlink(m, x, s), Append(rel, In(k, Right, s, c, l)), sr)
    ensures Unlink(m, x, s).at[x] == m.at[x].(right := Ptr(Plug(rel, sr)))
    ensures s != x
  {
    hide Splice, Transplant;
    var t := Fork(l, x, c, Plug(rel, Fork(Leaf, s, cs, sr)));
    var j := In(k, Right, x, c, l);
    var js := Append(rel, j);
    var leaf := Fork(Leaf, s, cs, sr);
    FocusUp(m, k, Right, x, c, l, Plug(rel, leaf));
    FocusAppend(m, rel, j, leaf);
    SuccessorReads(m, k, l, x, c, rel, leaf);
    SpliceFocus(m, js, leaf, sr);
    var m1 := Splice(m, s, Ptr(sr));
    FocusAppend(m1, rel, j, sr);
    FocusUp(m1, k, Right, x, c, l, Plug(rel, sr));
    var t1 := Fork(l, x, c, Plug(rel, sr));
    SpliceKeeps(m, m1, k, l, x, c, rel, leaf, sr);
    TransplantFocus(m1, k, t1, s);
    var m2 := Transplant(m1, x, s);
    FocusUp(m2, k, Right, s, c, l, Plug(rel, sr));
    FocusAppend(m2, rel, In(k, Right, s, c, l), sr);
  }

  lemma SuccessorReads(m: Mem, k: Context, l: Tree, x: Node, c: Color, rel: Context, leaf: Tree)
    requires Focus(m, k, Fork(l, x, c, Plug(rel, leaf))) && leaf.Fork? && leaf.left == Leaf
    ensures x in m.at && m.at[x].left == Ptr(l) && m.at[x].right != null && m.at[x].parent == ContextPtr(k)
    ensures m.at[x].color == c
    ensures leaf.node in m.at && m.at[leaf.node].right == Ptr(leaf.right) && m.at[leaf.node].color == leaf.color
    ensures m.at[leaf.node].parent == ContextPtr(Append(rel, In(k, Right, x, c, l)))
    ensures leaf.node != x && leaf.node !in Nodes(l) && leaf.node !in ContextNodes(k) && x !in ContextNodes(k)
  {
    var j := In(k, Right, x, c, l);
    FocusUp(m, k, Right, x, c, l, Plug(rel, leaf));
    FocusAppend(m, rel, j, leaf);
    PlugNodes(rel, leaf);
    RepPtr(m, l, x, m.at[x].left);
    RepPtr(m, Plug(rel, leaf), x, m.at[x].right);
    RepPtr(m, leaf.right, leaf.node, m.at[leaf.node].right);
  }

  /** The splice leaves the cell of `x` alone, but for its right link, and frees `leaf.node`. */
  lemma SpliceKeeps(m: Mem, m1: Mem, k: Context, l: Tree, x: Node, c: Color, rel: Context, leaf: Tree, sr: Tree)
    requires Focus(m, k, Fork(l, x, c, Plug(rel, leaf))) && leaf.Fork?
    requires Focus(m1, k, Fork(l, x, c, Plug(rel, sr))) && Nodes(sr) == Nodes(leaf) - {leaf.node}
    ensures x in m.at && x in m1.at && m1.at[x] == m.at[x].(right := Ptr(Plug(rel, sr)))
    ensures leaf.node !in Nodes(Fork(l, x, c, Plug(rel, sr))) && leaf.node !in ContextNodes(k)
  {
    PlugNodes(rel, leaf);
    PlugNodes(rel, sr);
    RepPtr(m, l, x, m.at[x].left);
    RepPtr(m1, l, x, m1.at[x].left);
    RepPtr(m1, Plug(rel, sr), x, m1.at[x].right);
    RelNodes(m, k, l, x, c, rel, leaf);
  }

  lemma RelNodes(m: Mem, k: Context, l: Tree, x: Node, c: Color, rel: Context, leaf: Tree)
    requires Focus(m, k, Fork(l, x, c, Plug(rel, leaf))) && leaf.Fork?
    ensures leaf.node !in ContextNodes(rel)
  {
    FocusUp(m, k, Right, x, c, l, Plug(rel, leaf));
    FocusAppend(m, rel, In(k, Right, x, c, l), leaf);
    AppendNodes(rel, In(k, Right, x, c, l));
  }

  lemma {:induction false} AppendNodes(rel: Context, k: Context)
    ensures ContextNodes(Append(rel, k)) == ContextNodes(rel) + ContextNodes(k)
  {
    match rel
    case Top =>
    case In(up, _, _, _, _) => AppendNodes(up, k);
  }

  /* ---- Erasing, when the fixup starts at the right place ---- */

  /** The sequence without `x`. */
  function Minus(s: seq<Node>, x: Node): seq<Node> {
    if s == [] then []
    else if s[0] == x then Minus(s[1..], x)
    else [s[0]] + Minus(s[1..], x)
  }

  lemma {:induction false} MinusAbsent(s: seq<Node>, x: Node)
    requires x !in s
    ensures Minus(s, x) == s
  {
    if s != [] {
      MinusAbsent(s[1..], x);
    }
  }

  lemma {:induction false} MinusSplit(a: seq<Node>, x: Node, b: seq<Node>)
    requires x !in a && x !in b
    ensures Minus(a + [x] + b, x) == a + b
  {
    var s := a + [x] + b;
    if a == [] {
      assert s[1..] == b;
      MinusAbsent(b, x);
    } else {
      assert s[1..] == a[1..] + [x] + b;
      MinusSplit(a[1..], x, b);
    }
  }

  /** The memory holds a red-black tree with the in-order sequence `s`. */
  ghost predicate Holds(m: Mem, s: seq<Node>) {
    exists t :: Focus(m, Top, t) && RedBlack(t) && Inorder(t) == s
  }

  /** The erase ended, without a NULL dereference, in a red-black tree of the in-order sequence `s`. */
  ghost predicate Succeeds(r: Option<Option<Mem>>, s: seq<Node>) {
    r.Some? && r.value.Some? && Holds(r.value.value, s)
  }

  lemma InorderMinus(m: Mem, k: Context, t: Tree)
    requires Focus(m, k, t) && t.Fork?
    ensures Minus(Inorder(Plug(k, t)), t.node) == Before(k) + Inorder(t.left) + (Inorder(t.right) + After(k))
  {
    hide Minus, Focus, Plug;
    InorderPlug(k, t);
    InorderFork(t);
    Surround(Before(k), Inorder(t.left), t.node, Inorder(t.right), After(k));
    NodeOnce(m, k, t);
    MinusSplit(Before(k) + Inorder(t.left), t.node, Inorder(t.right) + After(k));
  }

  lemma InorderFork(t: Tree)
    requires t.Fork?
    ensures Inorder(t) == Inorder(t.left) + [t.node] + Inorder(t.right)
  {
  }

  lemma Surround<T>(a: seq<T>, b: seq<T>, x: T, c: seq<T>, d: seq<T>)
    ensures a + (b + [x] + c) + d == (a + b) + [x] + (c + d)
  {
  }

  lemma NodeOnce(m: Mem, k: Context, t: Tree)
    requires Focus(m, k, t) && t.Fork?
    ensures t.node !in Before(k) + Inorder(t.left) && t.node !in Inorder(t.right) + After(k)
  {
    hide Rep, RepContext;
    ContextInorder(k);
    InorderNodes(t.left);
    InorderNodes(t.right);
  }

  lemma {:induction false} ContextInorder(k: Context)
    ensures forall x :: x in Before(k) || x in After(k) ==> x in ContextNodes(k)
  {
    match k
    case Top =>
    case In(up, _, _, _, s) => ContextInorder(up); InorderNodes(s);
  }

  /** Finishing from a hole that is one black node short, or not short at all. */
  lemma FinishErase(m: Mem, k: Context, t: Tree, gone: Color, fuel: nat, s: seq<Node>)
    requires Closed(m) && Focus(m, k, t) && s == Inorder(Plug(k, t))
    requires gone == Black ==> Short(k, t) && fuel >= Depth(k)
    requires gone == Red ==> RedBlack(Plug(k, t))
    ensures Known(m, Ptr(t)) && Known(m, ContextPtr(k))
    ensures Succeeds(if gone == Black then EraseFixup(m, Ptr(t), ContextPtr(k), fuel) else Some(Some(m)), s)
  {
    hide Focus, Plug, Inorder, EraseFixup, Short;
    if gone == Black {
      var m', t' := EraseFixupSound(m, k, t, fuel);
    } else {
      FocusPlug(m, k, t);
      FocusKnown(m, k, t);
    }
  }

  lemma FocusKnown(m: Mem, k: Context, t: Tree)
    requires Focus(m, k, t)
    ensures Known(m, Ptr(t)) && Known(m, ContextPtr(k))
  {
  }

  lemma SoundOne(k: Context, t: Tree, u: Tree)
    requires RedBlack(Plug(k, t)) && t.Fork?
    requires (t.left == Leaf && u == t.right) || (t.right == Leaf && u == t.left)
    ensures t.color == Black ==> Short(k, u)
    ensures t.color == Red ==> RedBlack(Plug(k, u))
  {
    hide Plug;
    SoundPlug(k, t);
    SoundPlug(k, u);
  }

  /** Erase, read for a node with at most one child. */
  lemma EraseOneReads(m: Mem, x: Node, s: Node, fuel: nat)
    requires Closed(m) && x in m.at && s in m.at && (m.at[x].left == null || m.at[x].right == null)
    ensures var m1 := Splice(m, x, OnlyChild(m, x));
            Erase(m, x, s, fuel) ==
            if m.at[x].color == Black then EraseFixup(m1, OnlyChild(m, x), m.at[x].parent, fuel) else Some(Some(m1))
  {
    hide Splice, EraseFixup;
  }

  lemma ForkReads(m: Mem, k: Context, t: Tree)
    requires Focus(m, k, t) && t.Fork?
    ensures t.node in m.at && m.at[t.node] == Cell(ContextPtr(k), Ptr(t.left), Ptr(t.right), t.color)
  {
    RepPtr(m, t.left, t.node, m.at[t.node].left);
    RepPtr(m, t.right, t.node, m.at[t.node].right);
  }

  lemma EraseOne(m: Mem, k: Context, t: Tree, u: Tree, s: Node, fuel: nat)
    requires Closed(m) && Focus(m, k, t) && t.Fork? && RedBlack(Plug(k, t)) && s in m.at && fuel >= Depth(k)
    requires (t.left == Leaf && u == t.right) || (t.right == Leaf && u == t.left)
    ensures t.node in m.at && Succeeds(Erase(m, t.node, s, fuel), Minus(Inorder(Plug(k, t)), t.node))
  {
    hide Splice, Erase, EraseFixup, Plug, Minus, Short, Succeeds, Focus, Inorder;
    var x := t.node;
    ForkReads(m, k, t);
    EraseOneReads(m, x, s, fuel);
    SpliceFocus(m, k, t, u);
    SoundOne(k, t, u);
    InorderMinus(m, k, t);
    InorderPlug(k, u);
    InorderLeaf(t.left); InorderLeaf(t.right);
    FinishErase(Splice(m, x, Ptr(u)), k, u, t.color, fuel, Minus(Inorder(Plug(k, t)), x));
  }

  lemma InorderLeaf(t: Tree)
    ensures t.Leaf? ==> Inorder(t) == []
  {
  }

  lemma SoundTwo(k: Context, l: Tree, x: Node, c: Color, rel: Context, s: Node, cs: Color, sr: Tree)
    requires RedBlack(Plug(k, Fork(l, x, c, Plug(rel, Fork(Leaf, s, cs, sr)))))
    ensures var js := Append(rel, In(k, Right, s, c, l));
            && (cs == Black ==> Short(js, sr))
            && (cs == Red ==> RedBlack(Plug(js, sr)))
            && (cs == Black ==> sr == Leaf || sr.color == Red)
  {
    hide Plug;
    var leaf := Fork(Leaf, s, cs, sr);
    var j := In(k, Right, x, c, l);
    var js := Append(rel, In(k, Right, s, c, l));
    PlugAppend(rel, j, leaf);
    PlugRight(k, x, c, l, Plug(rel, leaf));
    SoundPlug(Append(rel, j), leaf);
    SoundPlug(js, sr);
    SoundAppend(rel, j, c, Right, x, s, l, 0 + Weight(cs));
  }

  lemma PlugRight(k: Context, x: Node, c: Color, l: Tree, r: Tree)
    ensures Plug(In(k, Right, x, c, l), r) == Plug(k, Fork(l, x, c, r))
  {
  }

  lemma PlugIn(k: Context, d: Side, x: Node, c: Color, s: Tree, t: Tree)
    ensures Plug(In(k, d, x, c, s), t) == Plug(k, Mk(d, t, x, c, s))
  {
  }

  lemma {:induction false} PlugAppend(rel: Context, k: Context, t: Tree)
    ensures Plug(Append(rel, k), t) == Plug(k, Plug(rel, t))
    decreases rel
  {
    match rel
    case Top =>
    case In(up, d, x, c, s) => PlugAppend(up, k, Mk(d, t, x, c, s));
  }

  /** The sequences below the hole, with and without the successor. */
  lemma LeafPlugged(rel: Context, s: Node, cs: Color, sr: Tree)
    requires LeftPath(rel)
    ensures Inorder(Plug(rel, sr)) == Inorder(sr) + After(rel)
    ensures Inorder(Plug(rel, Fork(Leaf, s, cs, sr))) == [s] + (Inorder(sr) + After(rel))
  {
    hide Plug, After, LeftPath;
    InorderPlug(rel, Fork(Leaf, s, cs, sr));
    InorderPlug(rel, sr);
    LeftPathBefore(rel);
    assert Inorder(Fork(Leaf, s, cs, sr)) == [s] + Inorder(sr);
    hide Inorder, Before;
    assert [] + ([s] + Inorder(sr)) + After(rel) == [s] + (Inorder(sr) + After(rel));
  }

  lemma Slide(a: seq<Node>, b: seq<Node>, s: Node, c: seq<Node>, d: seq<Node>)
    ensures a + b + ([s] + c + d) == a + (b + [s] + c) + d
  {
  }

  lemma InorderTwo(m: Mem, k: Context, l: Tree, x: Node, c: Color, rel: Context, s: Node, cs: Color, sr: Tree)
    requires Focus(m, k, Fork(l, x, c, Plug(rel, Fork(Leaf, s, cs, sr)))) && LeftPath(rel)
    ensures Minus(Inorder(Plug(k, Fork(l, x, c, Plug(rel, Fork(Leaf, s, cs, sr))))), x)
         == Inorder(Plug(Append(rel, In(k, Right, s, c, l)), sr))
    ensures Inorder(Plug(Append(rel, In(k, Right, s, c, l)), sr))
         == Inorder(Plug(k, Fork(l, s, c, Plug(rel, sr))))
  {
    hide Plug, Minus, Focus, Inorder, Before, After, LeftPath, Append;
    InorderMinus(m, k, Fork(l, x, c, Plug(rel, Fork(Leaf, s, cs, sr))));
    PlugAppend(rel, In(k, Right, s, c, l), sr);
    PlugRight(k, s, c, l, Plug(rel, sr));
    var t := Fork(l, s, c, Plug(rel, sr));
    InorderPlug(k, t);
    InorderFork(t);
    LeafPlugged(rel, s, cs, sr);
    Slide(Before(k), Inorder(l), s, Inorder(sr) + After(rel), After(k));
  }

  /** Two children, and the fixup is given the true parent of the hole, or has nothing to do. */
  lemma EraseTwo(m: Mem, k: Context, l: Tree, x: Node, c: Color, rel: Context, s: Node, cs: Color, sr: Tree, fuel: nat)
    requires Closed(m) && l.Fork? && LeftPath(rel)
    requires Focus(m, k, Fork(l, x, c, Plug(rel, Fork(Leaf, s, cs, sr))))
    requires RedBlack(Plug(k, Fork(l, x, c, Plug(rel, Fork(Leaf, s, cs, sr)))))
    requires rel.In? || cs == Red || sr.Fork?
    requires fuel >= Depth(Append(rel, In(k, Right, s, c, l)))
    ensures x in m.at && s in m.at
    ensures Succeeds(Erase(m, x, s, fuel),
                     Minus(Inorder(Plug(k, Fork(l, x, c, Plug(rel, Fork(Leaf, s, cs, sr))))), x))
  {
    hide Unlink, EraseFixup, Plug, Minus, Focus, Short, Succeeds, Inorder;
    var js := Append(rel, In(k, Right, s, c, l));
    UnlinkTwo(m, k, l, x, c, rel, s, cs, sr);
    SoundTwo(k, l, x, c, rel, s, cs, sr);
    InorderTwo(m, k, l, x, c, rel, s, cs, sr);
    var m1 := Unlink(m, x, s);
    FinishErase(m1, js, sr, cs, fuel, Inorder(Plug(js, sr)));
    if rel.Top? && cs == Black {
      RedChildStops(m1, js, sr, x, fuel);
    }
  }

  /** A red child ends the loop before `parent` is looked at. */
  lemma RedChildStops(m: Mem, k: Context, t: Tree, p: Node, fuel: nat)
    requires Closed(m) && Focus(m, k, t) && t.Fork? && t.color == Red && p in m.at
    ensures t.node in m.at && Known(m, ContextPtr(k))
    ensures EraseFixup(m, t.node, p, fuel) == EraseFixup(m, t.node, ContextPtr(k), fuel)
  {
  }
}
