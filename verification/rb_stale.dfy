/** rbtree_erase when the successor is the erased node's own right child (structure/rbtree.h:381-436).

    `parent` is read before the transplant, so it then names the erased node. With a black
    childless successor the fixup starts at that unlinked node. Proved here: exactly when the
    routine still succeeds. */
module RbStale {
  import opened Options
  import opened RbMemory
  import opened RbTree
  import opened RbInsert
  import opened RbErase
  import opened RbUnlink

  /** Two children, the right one black and childless. */
  predicate StaleParent(m: Mem, x: Node)
    requires Closed(m) && x in m.at
  {
    var r := m.at[x].right;
    m.at[x].left != null && r != null && m.at[r].color == Black && m.at[r].left == null && m.at[r].right == null
  }

  /** The erased node is a black right child, and its left child is black and childless: the fixup
      reddens that child and goes on, by luck, at the right place. */
  predicate Recovers(m: Mem, x: Node)
    requires Closed(m) && x in m.at && m.at[x].left != null
  {
    var l, p := m.at[x].left, m.at[x].parent;
    && m.at[x].color == Black && p != null && m.at[p].right == x
    && m.at[l].color == Black && m.at[l].left == null && m.at[l].right == null
  }

  predicate EraseOk(m: Mem, x: Node)
    requires Closed(m) && x in m.at
  {
    StaleParent(m, x) ==> Recovers(m, x)
  }

  /* ---- A memory holds at most one tree ---- */

  lemma {:induction false} RepUnique(m: Mem, t: Tree, u: Tree, p: Node?, n: Node?)
    requires Rep(m, t, p, n) && Rep(m, u, p, n)
    ensures t == u
  {
    if t.Fork? {
      RepUnique(m, t.left, u.left, n, m.at[n].left);
      RepUnique(m, t.right, u.right, n, m.at[n].right);
    }
  }

  lemma HoldsNot(m: Mem, k: Context, t: Tree, s: seq<Node>)
    requires Focus(m, k, t) && !RedBlack(Plug(k, t))
    ensures !Holds(m, s)
  {
    FocusPlug(m, k, t);
    forall u | Focus(m, Top, u) ensures u == Plug(k, t) {
      RepUnique(m, Plug(k, t), u, null, m.root);
    }
  }

  /* ---- Links that survive in a damaged memory ---- */

  function Spine(k: Context): set<Node> {
    if k.Top? then {} else {k.node} + Spine(k.up)
  }

  /** Child pointers lead from the root along the context to `f`; parents and siblings do not matter. */
  ghost predicate Linked(m: Mem, k: Context, f: Node?) {
    match k
    case Top => m.root == f
    case In(up, d, x, _, _) => x in m.at && Child(m, x, d) == f && Linked(m, up, x)
  }

  ghost predicate SameLinks(m: Mem, m': Mem) {
    && m'.root == m.root && m'.at.Keys == m.at.Keys
    && forall x <- m.at :: m'.at[x] == m.at[x].(color := m'.at[x].color)
  }

  lemma {:induction false} LinkedSame(m: Mem, m': Mem, k: Context, f: Node?)
    requires Linked(m, k, f) && SameLinks(m, m')
    ensures Linked(m', k, f)
  {
    if k.In? {
      LinkedSame(m, m', k.up, k.node);
    }
  }

  lemma {:induction false} ContextLinked(m: Mem, k: Context, f: Node?)
    requires RepContext(m, k, f)
    ensures Linked(m, k, f) && Spine(k) <= ContextNodes(k)
  {
    if k.In? {
      ContextLinked(m, k.up, k.node);
    }
  }

  lemma {:induction false} LinkedSubtree(m: Mem, k: Context, f: Node, t: Tree) returns (u: Tree, p: Node?)
    requires Linked(m, k, f) && Rep(m, t, null, m.root)
    ensures Rep(m, u, p, f) && Nodes(u) <= Nodes(t)
    decreases k
  {
    match k
    case Top => u, p := t, null;
    case In(up, d, x, _, _) =>
      var v, q := LinkedSubtree(m, up, x, t);
      u, p := Sub(v, d), x;
  }

  /** A tree in which `x` is still linked is not the tree without `x`. */
  lemma LinkedSpoils(m: Mem, k: Context, x: Node, s: seq<Node>)
    requires Linked(m, k, x)
    ensures !Holds(m, Minus(s, x))
  {
    forall t | Focus(m, Top, t) ensures Inorder(t) != Minus(s, x) {
      var u, p := LinkedSubtree(m, k, x, t);
      assert x in Nodes(t);
      InorderNodes(t);
      MinusLacks(s, x);
    }
  }

  lemma {:induction false} MinusLacks(s: seq<Node>, x: Node)
    ensures x !in Minus(s, x)
  {
    if s != [] {
      MinusLacks(s[1..], x);
    }
  }

  /** A rotation, as links, in any memory: `y` hangs where the code re-links, and `z` below it. */
  lemma RotateLinks(m: Mem, k: Context, d: Side, z: Node, y: Node, b: Tree)
    requires Closed(m) && Cells(m, k, d, z, y, b) && {z, y} !! Spine(k)
    requires k.In? ==> k.node !in Spine(k.up) && Linked(m, k.up, k.node)
    ensures Linked(Rotate(m, z, d), k, y)
    ensures RotatedCells(m, Rotate(m, z, d), k, d, z, y, b)
  {
    hide Rotate, Linked;
    RotateCells(m, k, d, z, y, b);
    var m' := Rotate(m, z, d);
    if k.In? {
      RotatedSpine(m, m', k, d, z, y, b);
      LinkedChildren(m, m', k.up, k.node);
    }
    LinkedStep(m', k, y);
  }

  lemma RotatedSpine(m: Mem, m': Mem, k: Context, d: Side, z: Node, y: Node, b: Tree)
    requires Cells(m, k, d, z, y, b) && RotatedCells(m, m', k, d, z, y, b)
    requires k.In? && {z, y} !! Spine(k) && k.node !in Spine(k.up)
    ensures SameChildren(m, m', Spine(k.up))
  {
  }

  lemma LinkedStep(m: Mem, k: Context, y: Node)
    requires k.Top? ==> m.root == y
    requires k.In? ==> k.node in m.at && Child(m, k.node, k.d) == y && Linked(m, k.up, k.node)
    ensures Linked(m, k, y)
  {
  }

  ghost predicate SameChildren(m: Mem, m': Mem, s: set<Node>) {
    && m'.root == m.root
    && forall w <- s :: w in m.at ==> w in m'.at && m'.at[w].left == m.at[w].left && m'.at[w].right == m.at[w].right
  }

  lemma {:induction false} LinkedChildren(m: Mem, m': Mem, k: Context, f: Node?)
    requires Linked(m, k, f) && SameChildren(m, m', Spine(k))
    ensures Linked(m', k, f)
  {
    if k.In? {
      LinkedChildren(m, m', k.up, k.node);
    }
  }

  /* ---- The fixup started at the erased node ---- */

  /** After the transplant: `s` stands where `x` stood; `x` keeps its links, its right one now NULL. */
  ghost predicate Stale(m: Mem, k: Context, l: Tree, x: Node, s: Node, c: Color) {
    && Closed(m) && Focus(m, k, Fork(l, s, c, Leaf)) && l.Fork?
    && x in m.at && m.at[x] == Cell(ContextPtr(k), Ptr(l), null, c)
    && x != s && x !in Nodes(l) && x !in ContextNodes(k)
    && Sound(l) && BlackHeight(l) == 1 && SoundContext(k, 1 + Weight(c))
    && (c == Red ==> l.color == Black && ContextColor(k) == Black)
  }

  /** Where a rotation of the unlinked node hangs its new parent: always on the left. */
  function Displaced(k: Context): Context {
    if k.Top? then Top else In(k.up, Left, k.node, k.color, k.sibling)
  }

  lemma StaleReads(m: Mem, k: Context, l: Tree, x: Node, s: Node, c: Color)
    requires Stale(m, k, l, x, s, c)
    ensures m.root != null && m.root != x
    ensures l.node in m.at && m.at[l.node] == Cell(s, Ptr(l.left), Ptr(l.right), l.color)
    ensures k.In? ==> k.node in m.at && m.at[k.node].left != x && m.at[k.node].right != x
                      && Child(m, k.node, k.d) == s && m.at[k.node].color == k.color
    ensures k.In? ==> Linked(m, k.up, k.node) && k.node !in Spine(k.up)
    ensures Spine(k) <= ContextNodes(k) && s != l.node
    ensures x !in ContextNodes(k) && l.node !in ContextNodes(k)
  {
    var t := Fork(l, s, c, Leaf);
    FocusUp(m, k, Left, s, c, Leaf, l);
    ForkReads(m, In(k, Left, s, c, Leaf), l);
    FocusPlug(m, k, t);
    PlugNodes(k, t);
    assert s in Nodes(Plug(k, t));
    ContextLinked(m, k, s);
    if k.In? {
      FocusNeighbours(m, k, t);
      ContextLinked(m, k.up, k.node);
    }
  }

  lemma StaleSubtree(m: Mem, k: Context, l: Tree, x: Node, s: Node, c: Color, side: Side)
    requires Stale(m, k, l, x, s, c)
    ensures var u := Sub(l, side);
            u.Fork? ==> u.node in m.at && u.node in Nodes(l) && u.node !in ContextNodes(k)
                        && u.node != l.node && u.node != s && u.node != x
                        && m.at[u.node] == Cell(l.node, Ptr(u.left), Ptr(u.right), u.color)
  {
    hide RepContext;
    var u := Sub(l, side);
    var j := In(k, Left, s, c, Leaf);
    FocusUp(m, k, Left, s, c, Leaf, l);
    SubMk(l, side);
    FocusUp(m, j, side, l.node, l.color, Sub(l, side.Other()), u);
    if u.Fork? {
      ForkReads(m, In(j, side, l.node, l.color, Sub(l, side.Other())), u);
    }
  }

  lemma LoopStarts(m: Mem, x: Node, fuel: nat)
    requires Closed(m) && x in m.at && m.root != null && m.at[x].left != null && fuel > 0
    ensures EraseFixup(m, null, x, fuel) ==
            var r := EraseStep(m, x, Right);
            if r.None? then Some(None) else EraseFixup(r.value.0, r.value.1, r.value.2, fuel - 1)
  {
    hide EraseStep;
  }

  lemma LoopEnds(m: Mem, x: Node, p: Node?, fuel: nat)
    requires Closed(m) && x in m.at && Known(m, p) && (x == m.root || m.at[x].color == Red)
    ensures EraseFixup(m, x, p, fuel) == Some(Some(SetColor(m, x, Black)))
  {
  }

  function FinishColors(m: Mem, x: Node, y: Node): Mem
    requires Closed(m) && x in m.at && y in m.at && m.at[y].left != null
  {
    SetColor(SetColor(SetColor(m, y, m.at[x].color), x, Black), m.at[y].left, Black)
  }

  lemma FinishReads(m: Mem, x: Node, y: Node)
    requires Closed(m) && x in m.at && y in m.at && m.at[x].left == y && m.at[y].left != null
    ensures SameLinks(m, FinishColors(m, x, y)) && Closed(FinishColors(m, x, y))
    ensures EraseFinish(m, x, y, Right) == Some(Rotate(FinishColors(m, x, y), x, Right))
  {
    hide Rotate;
  }

  /** Case 4 at the unlinked node leaves it linked below its former child. */
  lemma FinishLinks(m: Mem, k: Context, x: Node, y: Node, b: Tree)
    requires Closed(m) && Cells(m, k, Right, x, y, b) && {x, y} !! Spine(k)
    requires k.In? ==> k.node !in Spine(k.up) && Linked(m, k.up, k.node)
    requires m.at[y].left != null
    ensures var r := EraseFinish(m, x, y, Right);
            r.Some? && Linked(r.value, In(k, Right, y, Black, Leaf), x)
  {
    hide Rotate, Linked, EraseFinish;
    FinishReads(m, x, y);
    var m2 := FinishColors(m, x, y);
    if k.In? {
      LinkedSame(m, m2, k.up, k.node);
    }
    CellsSame(m, m2, k, Right, x, y, b);
    RotateLinks(m2, k, Right, x, y, b);
    LinkedStep(Rotate(m2, x, Right), In(k, Right, y, Black, Leaf), x);
  }

  lemma FinishSpoils(m: Mem, k: Context, x: Node, y: Node, b: Tree, o: seq<Node>)
    requires Closed(m) && Cells(m, k, Right, x, y, b) && {x, y} !! Spine(k)
    requires k.In? ==> k.node !in Spine(k.up) && Linked(m, k.up, k.node)
    requires m.at[y].left != null
    ensures var r := EraseFinish(m, x, y, Right);
            r.Some? && r.value.root != null && !Holds(SetColor(r.value, r.value.root, Black), Minus(o, x))
  {
    hide EraseFinish, Holds, Minus, Linked;
    FinishLinks(m, k, x, y, b);
    ColorSpoils(EraseFinish(m, x, y, Right).value, In(k, Right, y, Black, Leaf), x, o);
  }

  /** Blackening the root, or the node itself, does not unlink it. */
  lemma ColorSpoils(m: Mem, k: Context, x: Node, o: seq<Node>)
    requires Closed(m) && Linked(m, k, x)
    ensures m.root != null && !Holds(SetColor(m, m.root, Black), Minus(o, x))
    ensures x in m.at ==> !Holds(SetColor(m, x, Black), Minus(o, x))
  {
    hide Holds, Minus, Linked;
    LinkedRoot(m, k, x);
    LinkedSame(m, SetColor(m, m.root, Black), k, x);
    LinkedSpoils(SetColor(m, m.root, Black), k, x, o);
    if x in m.at {
      LinkedSame(m, SetColor(m, x, Black), k, x);
      LinkedSpoils(SetColor(m, x, Black), k, x, o);
    }
  }

  lemma {:induction false} LinkedRoot(m: Mem, k: Context, f: Node)
    requires Linked(m, k, f) && Closed(m)
    ensures m.root != null && m.root in m.at
  {
    if k.In? {
      LinkedRoot(m, k.up, k.node);
    }
  }

  lemma CellsSame(m: Mem, m': Mem, k: Context, d: Side, x: Node, y: Node, b: Tree)
    requires Cells(m, k, d, x, y, b) && SameLinks(m, m')
    ensures Cells(m', k, d, x, y, b)
  {
  }

  /** A black left child with a red outer child: the unlinked node is rotated back in. */
  lemma StaleOuter(m: Mem, k: Context, l: Tree, x: Node, s: Node, c: Color, fuel: nat, o: seq<Node>)
    requires Stale(m, k, l, x, s, c) && l.color == Black && RootColor(l.left) == Red && fuel > 0
    ensures EraseFixup(m, null, x, fuel).Some? && !Succeeds(EraseFixup(m, null, x, fuel), Minus(o, x))
  {
    hide Rotate, Holds, Minus, EraseFinish, EraseFixup, Linked, Focus, SoundContext, Sound, ContextNodes, Nodes;
    var y := l.node;
    StaleReads(m, k, l, x, s, c);
    StaleSubtree(m, k, l, x, s, c, Left);
    StaleSubtree(m, k, l, x, s, c, Right);
    LoopStarts(m, x, fuel);
    DisplacedSpine(k);
    FinishSpoils(m, Displaced(k), x, y, l.right, o);
    var r := EraseFinish(m, x, y, Right).value;
    OuterStep(m, x, y);
    LoopEnds(r, r.root, null, fuel - 1);
  }

  lemma OuterStep(m: Mem, x: Node, y: Node)
    requires Closed(m) && x in m.at && y in m.at && m.at[x].left == y && m.at[y].color == Black
    requires m.at[y].left != null && m.at[m.at[y].left].color == Red && EraseFinish(m, x, y, Right).Some?
    ensures var r := EraseFinish(m, x, y, Right).value;
            EraseStep(m, x, Right) == Some((r, r.root, null))
  {
    hide EraseFinish, Rotate;
    assert EraseFarNephew(m, x, y, Right) == (m, y);
  }

  lemma DisplacedSpine(k: Context)
    ensures Spine(Displaced(k)) == Spine(k) && ContextPtr(Displaced(k)) == ContextPtr(k)
    ensures ContextRoot(Displaced(k)) == ContextRoot(k) <= ContextNodes(k)
    ensures k.In? ==> Displaced(k).In? && Displaced(k).up == k.up && Displaced(k).node == k.node
                      && Displaced(k).d == Left
  {
  }

  lemma LowRed(t: Tree)
    requires Sound(t) && BlackHeight(t) == 0 && t.Fork?
    ensures t.color == Red && t.left == Leaf && t.right == Leaf
  {
  }

  /** A black left child with only a red inner child: its NULL outer child is dereferenced. */
  lemma StaleInner(m: Mem, k: Context, l: Tree, x: Node, s: Node, c: Color, fuel: nat)
    requires Stale(m, k, l, x, s, c) && fuel > 0
    requires l.color == Black && l.left == Leaf && RootColor(l.right) == Red
    ensures EraseFixup(m, null, x, fuel) == Some(None)
  {
    hide Rotate, EraseFixup, Focus, SoundContext, ContextNodes, Nodes, ContextRoot;
    var y, n := l.node, l.right.node;
    LowRed(l.right);
    StaleReads(m, k, l, x, s, c);
    StaleSubtree(m, k, l, x, s, c, Right);
    LoopStarts(m, x, fuel);
    var m2 := SetColor(SetColor(m, n, Black), y, Red);
    RotateAway(m2, s, x, y, n);
    var m3 := Rotate(m2, y, Left);
    assert EraseFarNephew(m, x, y, Right) == (m3, y);
    assert EraseFinish(m3, x, y, Right) == None;
  }

  /** The rotation of case 3, below the wrong parent: the cell of `x` keeps its left link. */
  lemma RotateAway(m: Mem, s: Node, x: Node, y: Node, n: Node)
    requires Closed(m) && x in m.at && y in m.at && n in m.at && s in m.at
    requires m.at[y].parent == s && m.at[y].left == null && m.at[y].right == n && m.at[x].left == y
    requires n != y && n != x && y != x && s != x && s != y && m.at[n].left != x && m.at[n].left != y
    ensures var m' := Rotate(m, y, Left);
            m'.at[x].left == y && m'.at[y].left == null
  {
  }

  /* ---- A red left child ---- */

  /** After case 1: `x` hangs below `y`, red, with the black tree `u` on its left. */
  ghost predicate Swung(m: Mem, k: Context, x: Node, y: Node, u: Tree) {
    && Closed(m) && x in m.at && y in m.at && u.Fork? && u.node in m.at
    && Linked(m, k, y) && m.at[y].right == x
    && m.at[x] == Cell(y, u.node, null, Red)
    && m.at[u.node] == Cell(x, Ptr(u.left), Ptr(u.right), Black)
    && Known(m, Ptr(u.left)) && Known(m, Ptr(u.right))
    && (u.left.Fork? ==> m.at[u.left.node].color == u.left.color)
    && (u.right.Fork? ==> m.at[u.right.node] == Cell(u.node, null, null, u.right.color))
    && SwungApart(k, x, y, u)
  }

  ghost predicate SwungApart(k: Context, x: Node, y: Node, u: Tree)
    requires u.Fork?
  {
    && x != y && {x, y} !! {u.node} !! Root(u.left) !! Root(u.right)
    && {x, y, u.node} + Root(u.left) + Root(u.right) !! Spine(k)
  }

  lemma SwungNoNephew(m: Mem, k: Context, x: Node, y: Node, u: Tree, fuel: nat, o: seq<Node>)
    requires Swung(m, k, x, y, u) && u.left == Leaf && u.right == Leaf
    ensures var r := EraseBlackSibling(m, x, u.node, Right);
            r.Some? && var f := EraseFixup(r.value.0, r.value.1, r.value.2, fuel);
                       f.Some? && !Succeeds(f, Minus(o, x))
  {
    hide EraseFixup, Holds, Minus, Linked, Closed;
    var m1 := SetColor(m, u.node, Red);
    var j := In(k, Right, y, Black, Leaf);
    LinkedStep(m, j, x);
    LinkedSame(m, m1, j, x);
    LoopEnds(m1, x, y, fuel);
    ColorSpoils(m1, j, x, o);
  }

  lemma SwungOuter(m: Mem, k: Context, x: Node, y: Node, u: Tree, fuel: nat, o: seq<Node>)
    requires Swung(m, k, x, y, u) && RootColor(u.left) == Red
    ensures var r := EraseBlackSibling(m, x, u.node, Right);
            r.Some? && var f := EraseFixup(r.value.0, r.value.1, r.value.2, fuel);
                       f.Some? && !Succeeds(f, Minus(o, x))
  {
    hide EraseFixup, Holds, Minus, Linked, Closed, EraseFinish;
    FinishSpoils(m, In(k, Right, y, Black, Leaf), x, u.node, u.right, o);
    assert EraseFarNephew(m, x, u.node, Right) == (m, u.node);
    var r := EraseFinish(m, x, u.node, Right).value;
    LoopEnds(r, r.root, null, fuel);
  }

  lemma SwungInner(m: Mem, k: Context, x: Node, y: Node, u: Tree, fuel: nat, o: seq<Node>)
    requires Swung(m, k, x, y, u) && u.left == Leaf && RootColor(u.right) == Red
    ensures var r := EraseBlackSibling(m, x, u.node, Right);
            r.Some? && var f := EraseFixup(r.value.0, r.value.1, r.value.2, fuel);
                       f.Some? && !Succeeds(f, Minus(o, x))
  {
    hide EraseFixup, Holds, Minus, Linked, Closed, EraseFinish, Rotate;
    var n := u.right.node;
    var m2 := SwungNear(m, k, x, y, u);
    FinishSpoils(m2, In(k, Right, y, Black, Leaf), x, n, Leaf, o);
    var r := EraseFinish(m2, x, n, Right).value;
    LoopEnds(r, r.root, null, fuel);
  }

  /** Case 3 below the unlinked node: the red near nephew comes up. */
  lemma SwungNear(m: Mem, k: Context, x: Node, y: Node, u: Tree) returns (m2: Mem)
    requires Swung(m, k, x, y, u) && u.left == Leaf && RootColor(u.right) == Red
    ensures !(IsBlack(m, Child(m, u.node, Left)) && IsBlack(m, Child(m, u.node, Right)))
    ensures EraseFarNephew(m, x, u.node, Right) == (m2, u.right.node)
    ensures Closed(m2) && u.right.node in m2.at && m2.at[u.right.node].left == u.node
    ensures Cells(m2, In(k, Right, y, Black, Leaf), Right, x, u.right.node, Leaf)
    ensures Linked(m2, k, y)
  {
    hide Linked, Closed, Rotate;
    var n := u.right.node;
    var m1 := SetColor(SetColor(m, n, Black), u.node, Red);
    var j := In(k, Right, y, Black, Leaf);
    LinkedStep(m, j, x);
    LinkedSame(m, m1, j, x);
    var i := In(j, Left, x, Red, Leaf);
    SwungTurn(m, m1, k, x, y, u);
    RotateLinks(m1, i, Left, u.node, n, Leaf);
    m2 := Rotate(m1, u.node, Left);
    LinkedUp(m2, i, n);
    LinkedUp(m2, j, x);
    SwungTurned(m, m1, m2, k, x, y, u);
  }

  lemma SwungTurn(m: Mem, m1: Mem, k: Context, x: Node, y: Node, u: Tree)
    requires Swung(m, k, x, y, u) && u.left == Leaf && u.right.Fork?
    requires m1 == SetColor(SetColor(m, u.right.node, Black), u.node, Red)
    ensures var i := In(In(k, Right, y, Black, Leaf), Left, x, Red, Leaf);
            Cells(m1, i, Left, u.node, u.right.node, Leaf) && {u.node, u.right.node} !! Spine(i)
  {
  }

  lemma SwungTurned(m: Mem, m1: Mem, m2: Mem, k: Context, x: Node, y: Node, u: Tree)
    requires Swung(m, k, x, y, u) && u.left == Leaf && u.right.Fork?
    requires m1 == SetColor(SetColor(m, u.right.node, Black), u.node, Red)
    requires var i := In(In(k, Right, y, Black, Leaf), Left, x, Red, Leaf);
             Cells(m1, i, Left, u.node, u.right.node, Leaf)
             && RotatedCells(m1, m2, i, Left, u.node, u.right.node, Leaf)
    ensures m2.at[u.right.node].left == u.node
    ensures Cells(m2, In(k, Right, y, Black, Leaf), Right, x, u.right.node, Leaf)
  {
  }

  lemma LinkedUp(m: Mem, k: Context, f: Node?)
    requires Linked(m, k, f) && k.In?
    ensures k.node in m.at && Child(m, k.node, k.d) == f && Linked(m, k.up, k.node)
  {
  }

  lemma StaleSwings(m: Mem, k: Context, l: Tree, x: Node, s: Node)
    requires Stale(m, k, l, x, s, Black) && l.color == Red
    ensures Child(m, x, Left) == l.node
    ensures var r := EraseRedSibling(m, x, l.node, Right);
            l.right.Fork? && r.1 == l.right.node && Swung(r.0, Displaced(k), x, l.node, l.right)
  {
    hide Rotate, Linked, Focus, Closed, SoundContext, Sound, Nodes, Swung;
    var y, u := l.node, l.right;
    StaleReads(m, k, l, x, s, Black);
    StaleSubtree(m, k, l, x, s, Black, Right);
    StaleGrandchildren(m, k, l, x, s, Black);
    DisplacedSpine(k);
    var m1 := SetColor(SetColor(m, y, Black), x, Red);
    if k.In? {
      LinkedSame(m, m1, k.up, k.node);
    }
    RotateLinks(m1, Displaced(k), Right, x, y, u);
    StaleSwung(m, m1, Rotate(m1, x, Right), k, l, x, s);
  }

  lemma StaleSwung(m: Mem, m1: Mem, r: Mem, k: Context, l: Tree, x: Node, s: Node)
    requires Stale(m, k, l, x, s, Black) && l.color == Red && l.right.Fork? && l.node in m.at
    requires m1 == SetColor(SetColor(m, l.node, Black), x, Red)
    requires Cells(m1, Displaced(k), Right, x, l.node, l.right)
    requires RotatedCells(m1, r, Displaced(k), Right, x, l.node, l.right)
    requires Closed(r) && Linked(r, Displaced(k), l.node)
    ensures Swung(r, Displaced(k), x, l.node, l.right)
  {
    hide Linked, Focus, Closed, SwungApart, SoundContext, Sound, Nodes;
    StaleReads(m, k, l, x, s, Black);
    StaleSubtree(m, k, l, x, s, Black, Right);
    StaleGrandchildren(m, k, l, x, s, Black);
    StaleApart(m, k, l, x, s);
  }

  lemma StaleApart(m: Mem, k: Context, l: Tree, x: Node, s: Node)
    requires Stale(m, k, l, x, s, Black) && l.color == Red
    ensures l.right.Fork? && SwungApart(Displaced(k), x, l.node, l.right)
    ensures ContextRoot(Displaced(k)) !! Root(l.right.left) + Root(l.right.right)
  {
    hide Linked, Focus, Closed;
    StaleReads(m, k, l, x, s, Black);
    StaleSubtree(m, k, l, x, s, Black, Right);
    StaleGrandchildren(m, k, l, x, s, Black);
    DisplacedSpine(k);
  }

  lemma StaleGrandchildren(m: Mem, k: Context, l: Tree, x: Node, s: Node, c: Color)
    requires Stale(m, k, l, x, s, c) && l.color == Red
    ensures l.right.Fork? && l.right.color == Black && l.node !in ContextNodes(k) && l.right.node !in ContextNodes(k)
    ensures forall g <- {l.right.left, l.right.right} :: g.Fork? ==>
              g.node in m.at && m.at[g.node] == Cell(l.right.node, null, null, Red)
              && g.color == Red && g.node != x && g.node != l.node && g.node != l.right.node
              && g.node !in ContextNodes(k)
    ensures l.right.left.Fork? && l.right.right.Fork? ==> l.right.left.node != l.right.right.node
  {
    hide RepContext;
    var j := In(k, Left, s, c, Leaf);
    var u := l.right;
    FocusUp(m, k, Left, s, c, Leaf, l);
    FocusUp(m, j, Right, l.node, l.color, l.left, u);
    assert Sound(u) && BlackHeight(u) == 1 && RootColor(u) == Black;
    assert Sound(u.left) && Sound(u.right) && BlackHeight(u.left) == 0 && BlackHeight(u.right) == 0;
    BottomReads(m, In(j, Right, l.node, l.color, l.left), u, Left);
    BottomReads(m, In(j, Right, l.node, l.color, l.left), u, Right);
  }

  lemma BottomReads(m: Mem, j: Context, u: Tree, side: Side)
    requires Focus(m, j, u) && u.Fork? && Sound(Sub(u, side)) && BlackHeight(Sub(u, side)) == 0
    ensures var g := Sub(u, side); g.Fork? ==>
              g.node in m.at && m.at[g.node] == Cell(u.node, null, null, Red) && g.color == Red
              && g.node != u.node && g.node in Nodes(u) && g.node !in ContextNodes(j)
  {
    var g := Sub(u, side);
    SubMk(u, side);
    FocusUp(m, j, side, u.node, u.color, Sub(u, side.Other()), g);
    if g.Fork? {
      LowRed(g);
      ForkReads(m, In(j, side, u.node, u.color, Sub(u, side.Other())), g);
    }
  }

  lemma StaleRed(m: Mem, k: Context, l: Tree, x: Node, s: Node, fuel: nat, o: seq<Node>)
    requires Stale(m, k, l, x, s, Black) && l.color == Red && fuel > 0
    ensures EraseFixup(m, null, x, fuel).Some? && !Succeeds(EraseFixup(m, null, x, fuel), Minus(o, x))
  {
    hide EraseFixup, Holds, Minus, Linked, Closed, EraseRedSibling, EraseBlackSibling, Focus, Swung, Succeeds;
    var u := l.right;
    StaleReads(m, k, l, x, s, Black);
    StaleSwings(m, k, l, x, s);
    StaleGrandchildren(m, k, l, x, s, Black);
    LoopStarts(m, x, fuel);
    var m1 := EraseRedSibling(m, x, l.node, Right).0;
    if u.left.Fork? {
      SwungOuter(m1, Displaced(k), x, l.node, u, fuel - 1, o);
    } else if u.right.Fork? {
      SwungInner(m1, Displaced(k), x, l.node, u, fuel - 1, o);
    } else {
      SwungNoNephew(m1, Displaced(k), x, l.node, u, fuel - 1, o);
    }
  }

  /* ---- A black childless left child ---- */

  /** Case 2 at the unlinked node: the left child becomes red, in its true place below `s`. */
  lemma StaleCase2(m: Mem, k: Context, l: Tree, x: Node, s: Node, c: Color)
    requires Stale(m, k, l, x, s, c) && l.color == Black && l.left == Leaf && l.right == Leaf
    ensures l.node in m.at
    ensures var m1 := SetColor(m, l.node, Red);
            && EraseStep(m, x, Right) == Some((m1, x, ContextPtr(k)))
            && Focus(m1, k, Fork(l.(color := Red), s, c, Leaf)) && Closed(m1) && m1.at[x] == m.at[x]
    ensures m.root != null && m.root != x && (k.In? ==> k.node in m.at && m.at[k.node].left != x)
  {
    hide Focus, Closed;
    StaleReads(m, k, l, x, s, c);
    FocusColorChild(m, k, Left, l, s, c, Leaf, Red);
  }

  lemma StaleRedParent(m: Mem, k: Context, l: Tree, x: Node, s: Node, fuel: nat, o: seq<Node>)
    requires Stale(m, k, l, x, s, Red) && l.left == Leaf && l.right == Leaf && fuel > 0
    ensures EraseFixup(m, null, x, fuel).Some? && !Succeeds(EraseFixup(m, null, x, fuel), o)
  {
    hide EraseFixup, EraseStep, Holds, Closed;
    StaleCase2(m, k, l, x, s, Red);
    LoopStarts(m, x, fuel);
    var m1 := SetColor(m, l.node, Red);
    LoopEnds(m1, x, ContextPtr(k), fuel - 1);
    var t := Fork(l.(color := Red), s, Red, Leaf);
    var m2 := SetColor(m1, x, Black);
    ColorOutside(m1, k, t, x);
    SoundPlug(k, t);
    HoldsNot(m2, k, t, o);
  }

  lemma ColorOutside(m: Mem, k: Context, t: Tree, x: Node)
    requires Focus(m, k, t) && x in m.at && x !in Nodes(t) && x !in ContextNodes(k)
    ensures Focus(SetColor(m, x, Black), k, t)
  {
    var m' := SetColor(m, x, Black);
    RepFrame(m, m', t, ContextPtr(k), Ptr(t));
    ContextFrame(m, m', k, Ptr(t));
  }

  lemma StaleRoot(m: Mem, l: Tree, x: Node, s: Node, c: Color, fuel: nat)
    requires Stale(m, Top, l, x, s, c) && l.color == Black && l.left == Leaf && l.right == Leaf && fuel > 1
    requires c == Black
    ensures EraseFixup(m, null, x, fuel) == Some(None)
  {
    hide EraseStep, Closed, Focus;
    StaleCase2(m, Top, l, x, s, c);
    LoopStarts(m, x, fuel);
  }

  /** Below a left link the second iteration repairs the wrong side. */
  lemma StaleLeftChild(m: Mem, k: Context, l: Tree, x: Node, s: Node, fuel: nat, o: seq<Node>)
    requires Stale(m, k, l, x, s, Black) && l.color == Black && l.left == Leaf && l.right == Leaf && fuel > 1
    requires k.In? && k.d == Left && (k.up.Top? ==> k.color == Black)
    ensures EraseFixup(m, null, x, fuel).Some? && !Succeeds(EraseFixup(m, null, x, fuel), o)
  {
    hide EraseStep, Closed, Focus, Holds, EraseFixup, Rotate, EraseFinish;
    StaleCase2(m, k, l, x, s, Black);
    LoopStarts(m, x, fuel);
    var m1 := SetColor(m, l.node, Red);
    var p, w, up := k.node, k.sibling, k.up;
    var red := l.(color := Red);
    var t := Fork(red, s, Black, Leaf);
    LoopSecond(m1, x, p, fuel - 1);
    FocusUp(m1, up, Left, p, k.color, w, t);
    EraseCase4(m1, up, Right, w, p, k.color, Leaf, s, red);
    var r := EraseFinish(m1, p, s, Right).value;
    WrongSideStep(m1, k, t, p, s, red);
    var u := Mk(Right, Mk(Right, w, p, Black, Leaf), s, k.color, l);
    SoundMk(Right, w, p, Black, Leaf);
    SoundMk(Right, Mk(Right, w, p, Black, Leaf), s, k.color, l);
    SoundPlug(up, u);
    RootStays(m1, k, t, r, up, u);
    LoopEnds(r, r.root, null, fuel - 2);
    HoldsNot(r, up, u, o);
  }

  lemma LoopSecond(m: Mem, x: Node, p: Node, fuel: nat)
    requires Closed(m) && x in m.at && p in m.at && m.root != x
    requires m.at[x].color == Black && m.at[p].left != x && fuel > 0
    ensures EraseFixup(m, x, p, fuel) ==
            var r := EraseStep(m, p, Right);
            if r.None? then Some(None) else EraseFixup(r.value.0, r.value.1, r.value.2, fuel - 1)
  {
    hide EraseStep;
  }

  lemma WrongSideStep(m: Mem, k: Context, t: Tree, p: Node, s: Node, red: Tree)
    requires Closed(m) && Focus(m, k, t) && t == Fork(red, s, Black, Leaf) && red.Fork? && red.color == Red
    requires k.In? && k.d == Left && k.node == p
    ensures p in m.at && Child(m, p, Left) == s
    ensures var f := EraseFinish(m, p, s, Right);
            EraseStep(m, p, Right) == if f.None? then None else Some((f.value, f.value.root, null))
  {
    hide EraseFinish, Closed;
    FocusNeighbours(m, k, t);
    ForkReads(m, k, t);
    SiblingReads(m, k, Left, red, s, Black, Leaf);
    assert EraseFarNephew(m, p, s, Right) == (m, s);
  }

  /** The root the loop ends at is already black. */
  lemma RootStays(m: Mem, k: Context, t: Tree, r: Mem, up: Context, u: Tree)
    requires Focus(r, up, u) && Closed(r) && u.Fork?
    requires k.In? && up == k.up && SoundContext(k, 2) && (up.Top? ==> u.color == Black)
    ensures r.root != null && SetColor(r, r.root, Black) == r
  {
    FocusPlug(r, up, u);
    BottomBlack(up, 2 + Weight(k.color));
    if up.In? {
      PlugRoot(up, u);
      PlugRootColor(up, u);
    }
    var w := Plug(up, u);
    ForkReads(r, Top, w);
  }

  function BottomColor(k: Context): Color
    requires k.In?
  {
    if k.up.Top? then k.color else BottomColor(k.up)
  }

  lemma {:induction false} BottomBlack(k: Context, h: nat)
    requires SoundContext(k, h)
    ensures k.In? ==> BottomColor(k) == Black
  {
    if k.In? {
      BottomBlack(k.up, h + Weight(k.color));
    }
  }

  lemma {:induction false} PlugRootColor(k: Context, t: Tree)
    requires k.In?
    ensures Plug(k, t).Fork? && Plug(k, t).color == BottomColor(k)
    decreases k
  {
    if k.up.In? {
      PlugRootColor(k.up, Mk(k.d, t, k.node, k.color, k.sibling));
    }
  }

  /** Below a right link the second iteration happens to be the one the tree needs. */
  lemma StaleRightChild(m: Mem, k: Context, l: Tree, x: Node, s: Node, fuel: nat)
    requires Stale(m, k, l, x, s, Black) && l.color == Black && l.left == Leaf && l.right == Leaf
    requires k.In? && k.d == Right && fuel > Depth(k)
    ensures Succeeds(EraseFixup(m, null, x, fuel), Inorder(Plug(k, Fork(l, s, Black, Leaf))))
  {
    hide EraseStep, Closed, Focus, EraseFixup, Inorder, Plug;
    StaleCase2(m, k, l, x, s, Black);
    LoopStarts(m, x, fuel);
    var m1 := SetColor(m, l.node, Red);
    var red := l.(color := Red);
    var t := Fork(red, s, Black, Leaf);
    LoopSecond(m1, x, k.node, fuel - 1);
    SoundMk(Left, red, s, Black, Leaf);
    var k1, t1 := EraseStepSound(m1, k, t);
    var r := EraseStep(m1, k.node, Right).value;
    var m2, t2 := EraseFixupSound(r.0, k1, t1, fuel - 2);
    InorderPlug(k, t);
    InorderPlug(k, Fork(l, s, Black, Leaf));
    InorderColor(l, Red);
    InorderFork(t); InorderFork(Fork(l, s, Black, Leaf));
  }

  /* ---- The exact condition ---- */

  lemma BecomesStale(m: Mem, k: Context, l: Tree, x: Node, c: Color, s: Node, fuel: nat)
    requires Closed(m) && l.Fork? && Focus(m, k, Fork(l, x, c, Fork(Leaf, s, Black, Leaf)))
    requires RedBlack(Plug(k, Fork(l, x, c, Fork(Leaf, s, Black, Leaf))))
    ensures x in m.at && s in m.at && Stale(Unlink(m, x, s), k, l, x, s, c)
    ensures Erase(m, x, s, fuel) == EraseFixup(Unlink(m, x, s), null, x, fuel)
    ensures k.In? && k.up.Top? ==> k.color == Black
  {
    hide Unlink, EraseFixup, Plug;
    var t := Fork(l, x, c, Fork(Leaf, s, Black, Leaf));
    PlugTop(Fork(Leaf, s, Black, Leaf));
    PlugTop(Leaf);
    UnlinkTwo(m, k, l, x, c, Top, s, Black, Leaf);
    FocusUp(Unlink(m, x, s), k, Right, s, c, l, Leaf);
    SoundPlug(k, t);
    ForkReads(m, k, t);
    StaleRightReads(m, k, l, x, c, s);
  }

  lemma StaleRightReads(m: Mem, k: Context, l: Tree, x: Node, c: Color, s: Node)
    requires Focus(m, k, Fork(l, x, c, Fork(Leaf, s, Black, Leaf)))
    ensures s in m.at && m.at[s] == Cell(x, null, null, Black)
  {
    var t := Fork(l, x, c, Fork(Leaf, s, Black, Leaf));
    FocusUp(m, k, Right, x, c, l, t.right);
    ForkReads(m, In(k, Right, x, c, l), t.right);
  }

  lemma StaleDecides(m: Mem, k: Context, l: Tree, x: Node, s: Node, c: Color, fuel: nat, o: seq<Node>)
    requires Stale(m, k, l, x, s, c) && fuel > Depth(k) + 1
    requires k.In? && k.up.Top? ==> k.color == Black
    requires Minus(o, x) == Inorder(Plug(k, Fork(l, s, c, Leaf)))
    ensures EraseFixup(m, null, x, fuel).Some?
    ensures Succeeds(EraseFixup(m, null, x, fuel), Minus(o, x)) <==>
            c == Black && k.In? && k.d == Right && l.color == Black && l.left == Leaf && l.right == Leaf
  {
    hide EraseFixup, Focus, Closed, Minus, Inorder, Plug, Holds;
    if l.color == Red {
      StaleRed(m, k, l, x, s, fuel, o);
    } else if l.left.Fork? {
      LowRed(l.left);
      StaleOuter(m, k, l, x, s, c, fuel, o);
    } else if l.right.Fork? {
      LowRed(l.right);
      StaleInner(m, k, l, x, s, c, fuel);
    } else if c == Red {
      StaleRedParent(m, k, l, x, s, fuel, Minus(o, x));
    } else if k.Top? {
      StaleRoot(m, l, x, s, c, fuel);
    } else if k.d == Left {
      StaleLeftChild(m, k, l, x, s, fuel, Minus(o, x));
    } else {
      StaleRightChild(m, k, l, x, s, fuel);
    }
  }

  /** The condition, read off the memory before the call. */
  lemma EraseOkReads(m: Mem, k: Context, l: Tree, x: Node, c: Color, rel: Context, s: Node, cs: Color, sr: Tree)
    requires Closed(m) && Focus(m, k, Fork(l, x, c, Plug(rel, Fork(Leaf, s, cs, sr)))) && l.Fork? && LeftPath(rel)
    ensures x in m.at && m.at[x].left != null
    ensures StaleParent(m, x) <==> rel == Top && cs == Black && sr == Leaf
    ensures Recovers(m, x)
            <==> c == Black && k.In? && k.d == Right && l.color == Black && l.left == Leaf && l.right == Leaf
  {
    hide Plug, Closed;
    var leaf := Fork(Leaf, s, cs, sr);
    var r := Plug(rel, leaf);
    var t := Fork(l, x, c, r);
    ForkReads(m, k, t);
    FocusUp(m, k, Left, x, c, r, l);
    ForkReads(m, In(k, Left, x, c, r), l);
    FocusUp(m, k, Right, x, c, l, r);
    LeftPathPlug(rel, leaf);
    ForkReads(m, In(k, Right, x, c, l), r);
    if k.In? {
      FocusNeighbours(m, k, t);
    }
  }

  lemma {:induction false} LeftPathPlug(rel: Context, t: Tree)
    requires LeftPath(rel) && t.Fork?
    ensures Plug(rel, t).Fork?
    ensures if rel.Top? then Plug(rel, t) == t else Plug(rel, t).left.Fork?
    decreases rel
  {
    if rel.In? {
      LeftPathPlug(rel.up, Mk(Left, t, rel.node, rel.color, rel.sibling));
    }
  }

  lemma {:induction false} DepthAppend(rel: Context, k: Context)
    ensures Depth(Append(rel, k)) == Depth(rel) + Depth(k)
  {
    if rel.In? {
      DepthAppend(rel.up, k);
    }
  }

  /** rbtree_erase on a node with two children: it leaves the red-black tree with exactly that node
      gone if and only if `EraseOk`, a condition on three cells read before the call. */
  lemma EraseTwoExactly(m: Mem, k: Context, l: Tree, x: Node, c: Color,
                        rel: Context, s: Node, cs: Color, sr: Tree, fuel: nat)
    requires Closed(m) && l.Fork? && LeftPath(rel)
    requires Focus(m, k, Fork(l, x, c, Plug(rel, Fork(Leaf, s, cs, sr))))
    requires RedBlack(Plug(k, Fork(l, x, c, Plug(rel, Fork(Leaf, s, cs, sr)))))
    requires fuel > Depth(k) + Depth(rel) + 1
    ensures x in m.at && s in m.at && Erase(m, x, s, fuel).Some?
    ensures Succeeds(Erase(m, x, s, fuel),
                     Minus(Inorder(Plug(k, Fork(l, x, c, Plug(rel, Fork(Leaf, s, cs, sr))))), x))
            <==> EraseOk(m, x)
  {
    hide Erase, EraseFixup, Focus, Closed, Minus, Inorder, Plug, StaleParent, Recovers, Stale, Holds, Unlink;
    EraseOkReads(m, k, l, x, c, rel, s, cs, sr);
    DepthAppend(rel, In(k, Right, s, c, l));
    if rel == Top && cs == Black && sr == Leaf {
      var leaf := Fork(Leaf, s, cs, sr);
      PlugTop(leaf);
      PlugTop(sr);
      BecomesStale(m, k, l, x, c, s, fuel);
      InorderTwo(m, k, l, x, c, rel, s, cs, sr);
      StaleDecides(Unlink(m, x, s), k, l, x, s, c, fuel, Inorder(Plug(k, Fork(l, x, c, Plug(rel, leaf)))));
    } else {
      EraseTwo(m, k, l, x, c, rel, s, cs, sr, fuel);
    }
  }

  /** The smallest failing input: three black nodes, of which the root is erased. */
  lemma EraseRootFails(x: Node, y: Node, z: Node, fuel: nat)
    requires x != y && x != z && y != z && fuel > 1
    ensures var m := Mem(x, map[x := Cell(null, y, z, Black),
                                y := Cell(x, null, null, Black), z := Cell(x, null, null, Black)]);
            var t := Fork(Fork(Leaf, y, Black, Leaf), x, Black, Fork(Leaf, z, Black, Leaf));
            && Closed(m) && Focus(m, Top, t) && RedBlack(t) && Inorder(t) == [y, x, z]
            && !Succeeds(Erase(m, x, z, fuel), [y, z])
  {
    hide Erase, Succeeds;
    var m := Mem(x, map[x := Cell(null, y, z, Black),
                        y := Cell(x, null, null, Black), z := Cell(x, null, null, Black)]);
    var l, r := Fork(Leaf, y, Black, Leaf), Fork(Leaf, z, Black, Leaf);
    var t := Fork(l, x, Black, r);
    assert Rep(m, Leaf, y, null) && Rep(m, Leaf, z, null);
    assert Rep(m, l, x, y) && Rep(m, r, x, z);
    assert m.at[x].left == y && m.at[x].right == z;
    assert Nodes(l) == {y} && Nodes(r) == {z} && Distinct(l) && Distinct(r);
    assert Sound(l) && Sound(r) && BlackHeight(l) == BlackHeight(r) == 1;
    assert Inorder(l) == [y] && Inorder(r) == [z];
    MinusSplit([y], x, [z]);
    assert [y] + [x] + [z] == [y, x, z] && [y] + [z] == [y, z];
    PlugTop(r);
    PlugTop(t);
    EraseTwoExactly(m, Top, l, x, Black, Top, z, Black, Leaf, fuel);
  }

  /** With at most one child the condition holds, and so does the result. */
  lemma EraseOneAlways(m: Mem, k: Context, t: Tree, fuel: nat)
    requires Closed(m) && Focus(m, k, t) && t.Fork? && RedBlack(Plug(k, t)) && fuel >= Depth(k)
    requires t.left == Leaf || t.right == Leaf
    ensures t.node in m.at && EraseOk(m, t.node)
    ensures Succeeds(Erase(m, t.node, t.node, fuel), Minus(Inorder(Plug(k, t)), t.node))
  {
    hide Erase, Plug, Inorder, Minus, Succeeds;
    ForkReads(m, k, t);
    EraseOne(m, k, t, if t.left == Leaf then t.right else t.left, t.node, fuel);
  }

  /** Erase, read as its two stages. */
  lemma EraseReads(m: Mem, node: Node, s: Node, fuel: nat)
    requires Closed(m) && node in m.at && s in m.at
    ensures var two := m.at[node].left != null && m.at[node].right != null;
            var gone := if two then s else node;
            var child := if two then m.at[s].right else OnlyChild(m, node);
            Known(m, child) && Known(m, m.at[gone].parent) &&
            Erase(m, node, s, fuel) ==
            if m.at[gone].color == Black then EraseFixup(Unlink(m, node, s), child, m.at[gone].parent, fuel)
            else Some(Some(Unlink(m, node, s)))
  {
    hide Unlink, EraseFixup;
  }
}
