/** Trees as values, one-hole contexts, and what it means for a memory to hold them. */
module RbTree {
  import opened Sets
  import opened RbMemory

  datatype Tree = Leaf | Fork(left: Tree, node: Node, color: Color, right: Tree)

  /** A tree with one subtree missing. `In(up, d, x, c, sibling)` says the hole is `x`'s `d`-child. */
  datatype Context = Top | In(up: Context, d: Side, node: Node, color: Color, sibling: Tree)

  function Mk(d: Side, near: Tree, x: Node, c: Color, far: Tree): Tree {
    if d == Left then Fork(near, x, c, far) else Fork(far, x, c, near)
  }

  function Plug(k: Context, t: Tree): Tree
    decreases k
  {
    match k
    case Top => t
    case In(up, d, x, c, s) => Plug(up, Mk(d, t, x, c, s))
  }

  function Inorder(t: Tree): seq<Node> {
    match t
    case Leaf => []
    case Fork(l, x, _, r) => Inorder(l) + [x] + Inorder(r)
  }

  /** The in-order sequence to the left and to the right of the hole. */
  function Before(k: Context): seq<Node> {
    match k
    case Top => []
    case In(up, d, x, _, s) => if d == Left then Before(up) else Before(up) + Inorder(s) + [x]
  }

  function After(k: Context): seq<Node> {
    match k
    case Top => []
    case In(up, d, x, _, s) => if d == Left then [x] + Inorder(s) + After(up) else After(up)
  }

  lemma {:induction false} InorderPlug(k: Context, t: Tree)
    ensures Inorder(Plug(k, t)) == Before(k) + Inorder(t) + After(k)
    decreases k
  {
    match k
    case Top =>
    case In(up, d, x, c, s) =>
      var u := Mk(d, t, x, c, s);
      InorderPlug(up, u);
      match d
      case Left => Regroup(Before(up), Inorder(t), [x], Inorder(s), After(up));
      case Right => Regroup(Before(up), Inorder(s), [x], Inorder(t), After(up));
  }

  lemma Regroup<T>(a: seq<T>, b: seq<T>, c: seq<T>, d: seq<T>, e: seq<T>)
    ensures a + (b + c + d) + e == a + b + (c + d + e)
    ensures a + (b + c + d) + e == (a + b + c) + d + e
  {
  }

  /* ---- Nodes and distinctness ---- */

  function Nodes(t: Tree): set<Node> {
    match t
    case Leaf => {}
    case Fork(l, x, _, r) => Nodes(l) + {x} + Nodes(r)
  }

  function ContextNodes(k: Context): set<Node> {
    match k
    case Top => {}
    case In(up, _, x, _, s) => ContextNodes(up) + {x} + Nodes(s)
  }

  ghost predicate Distinct(t: Tree) {
    match t
    case Leaf => true
    case Fork(l, x, _, r) =>
      x !in Nodes(l) && x !in Nodes(r) && Nodes(l) !! Nodes(r) && Distinct(l) && Distinct(r)
  }

  ghost predicate ContextDistinct(k: Context) {
    match k
    case Top => true
    case In(up, _, x, _, s) =>
      && x !in Nodes(s) && x !in ContextNodes(up) && Nodes(s) !! ContextNodes(up)
      && Distinct(s) && ContextDistinct(up)
  }

  lemma {:induction false} PlugNodes(k: Context, t: Tree)
    ensures Nodes(Plug(k, t)) == ContextNodes(k) + Nodes(t)
    decreases k
  {
    match k
    case Top =>
    case In(up, d, x, c, s) => PlugNodes(up, Mk(d, t, x, c, s));
  }

  lemma {:induction false} InorderNodes(t: Tree)
    ensures Nodes(t) == SetOf(Inorder(t))
  {
    if t.Fork? {
      InorderNodes(t.left);
      InorderNodes(t.right);
      SetOfSplit(Inorder(t.left) + [t.node], Inorder(t.right));
      SetOfSplit(Inorder(t.left), [t.node]);
      assert SetOf([t.node]) == {t.node};
    }
  }

  /* ---- Representation ---- */

  /** The pointer `n`, whose node has parent `p`, leads to `t`. */
  ghost predicate Rep(m: Mem, older t: Tree, p: Node?, n: Node?) {
    match t
    case Leaf => n == null
    case Fork(l, x, c, r) =>
      && n == x && x in m.at
      && m.at[x].parent == p && m.at[x].color == c
      && Rep(m, l, x, m.at[x].left) && Rep(m, r, x, m.at[x].right)
  }

  function Ptr(t: Tree): Node? {
    if t.Leaf? then null else t.node
  }

  function ContextPtr(k: Context): Node? {
    if k.Top? then null else k.node
  }

  /** The memory holds the context, with the pointer `f` in its hole. */
  ghost predicate RepContext(m: Mem, k: Context, f: Node?) {
    match k
    case Top => m.root == f
    case In(up, d, x, c, s) =>
      && x in m.at && m.at[x].color == c && m.at[x].parent == ContextPtr(up)
      && Child(m, x, d) == f
      && Rep(m, s, x, Child(m, x, d.Other()))
      && RepContext(m, up, x)
  }

  /** The memory holds the tree `Plug(k, t)`, seen from `t`. */
  ghost predicate Focus(m: Mem, k: Context, older t: Tree) {
    && Rep(m, t, ContextPtr(k), Ptr(t)) && RepContext(m, k, Ptr(t))
    && Distinct(t) && ContextDistinct(k) && Nodes(t) !! ContextNodes(k)
  }

  lemma RepMk(m: Mem, d: Side, a: Tree, x: Node, c: Color, b: Tree, p: Node?, n: Node?)
    ensures Rep(m, Mk(d, a, x, c, b), p, n) <==>
            && n == x && x in m.at
            && m.at[x].parent == p && m.at[x].color == c
            && Rep(m, a, x, Child(m, x, d)) && Rep(m, b, x, Child(m, x, d.Other()))
  {
    match d
    case Left =>
    case Right =>
  }

  lemma DistinctMk(d: Side, a: Tree, x: Node, c: Color, b: Tree)
    ensures Nodes(Mk(d, a, x, c, b)) == Nodes(a) + {x} + Nodes(b)
    ensures Distinct(Mk(d, a, x, c, b)) <==>
            x !in Nodes(a) && x !in Nodes(b) && Nodes(a) !! Nodes(b) && Distinct(a) && Distinct(b)
  {
    match d
    case Left =>
    case Right =>
  }

  lemma FocusUp(m: Mem, k: Context, d: Side, x: Node, c: Color, s: Tree, t: Tree)
    ensures Focus(m, In(k, d, x, c, s), t) <==> Focus(m, k, Mk(d, t, x, c, s))
  {
    DistinctMk(d, t, x, c, s);
    RepMk(m, d, t, x, c, s, ContextPtr(k), x);
    if x in m.at {
      RepPtr(m, t, x, Child(m, x, d));
    }
  }

  lemma RepPtr(m: Mem, t: Tree, p: Node?, n: Node?)
    ensures Rep(m, t, p, n) ==> n == Ptr(t)
  {
  }

  lemma {:induction false} FocusPlug(m: Mem, k: Context, t: Tree)
    ensures Focus(m, k, t) <==> Focus(m, Top, Plug(k, t))
    decreases k
  {
    match k
    case Top =>
    case In(up, d, x, c, s) =>
      FocusUp(m, up, d, x, c, s, t);
      FocusPlug(m, up, Mk(d, t, x, c, s));
  }

  lemma {:induction false} RepDomain(m: Mem, t: Tree, p: Node?, n: Node?)
    requires Rep(m, t, p, n)
    ensures Nodes(t) <= m.at.Keys
  {
    match t
    case Leaf =>
    case Fork(l, x, c, r) => RepDomain(m, l, x, m.at[x].left); RepDomain(m, r, x, m.at[x].right);
  }

  /** Every pointer in a tree's cells stays inside the tree, or is the root's parent. */
  lemma {:induction false} RepInside(m: Mem, t: Tree, p: Node?, n: Node?)
    requires Rep(m, t, p, n)
    ensures forall x <- Nodes(t) :: x in m.at
              && (m.at[x].parent == p || m.at[x].parent in Nodes(t))
              && (m.at[x].left == null || m.at[x].left in Nodes(t))
              && (m.at[x].right == null || m.at[x].right in Nodes(t))
  {
    if t.Fork? {
      RepInside(m, t.left, n, m.at[n].left);
      RepInside(m, t.right, n, m.at[n].right);
    }
  }

  lemma RepClosed(m: Mem, t: Tree, n: Node?)
    requires Rep(m, t, null, n) && m.root == n && m.at.Keys == Nodes(t)
    ensures Closed(m)
  {
    RepInside(m, t, null, n);
  }

  /* ---- Frames ---- */

  ghost predicate Agree(m: Mem, m': Mem, s: set<Node>) {
    forall x <- s :: x in m.at ==> x in m'.at && m'.at[x] == m.at[x]
  }

  lemma {:induction false} RepFrame(m: Mem, m': Mem, t: Tree, p: Node?, n: Node?)
    requires Rep(m, t, p, n) && Agree(m, m', Nodes(t))
    ensures Rep(m', t, p, n)
  {
    match t
    case Leaf =>
    case Fork(l, x, c, r) =>
      RepFrame(m, m', l, x, m.at[x].left);
      RepFrame(m, m', r, x, m.at[x].right);
  }

  /** Only the root's parent pointer changed. */
  lemma RepReparent(m: Mem, m': Mem, t: Tree, p: Node?, q: Node?, n: Node?)
    requires Rep(m, t, p, n) && Distinct(t)
    requires t.Fork? ==> t.node in m'.at && m'.at[t.node] == m.at[t.node].(parent := q)
    requires Agree(m, m', Nodes(t) - Root(t))
    ensures Rep(m', t, q, n)
  {
    if t.Fork? {
      RepFrame(m, m', t.left, t.node, m.at[t.node].left);
      RepFrame(m, m', t.right, t.node, m.at[t.node].right);
    }
  }

  function ContextRoot(k: Context): set<Node> {
    if k.Top? then {} else {k.node}
  }

  /** The pointer in the hole is now `f'`; the rest of the cell, or of the root, is as it was. */
  ghost predicate HoleCell(m: Mem, m': Mem, k: Context, f': Node?) {
    match k
    case Top => m'.root == f'
    case In(_, d, x, _, _) =>
      x in m.at && x in m'.at && m'.at[x] == SetChild(m, x, d, f').at[x] && m'.root == m.root
  }

  lemma {:induction false} ContextFrame(m: Mem, m': Mem, k: Context, f: Node?)
    requires RepContext(m, k, f) && Agree(m, m', ContextNodes(k)) && m'.root == m.root
    ensures RepContext(m', k, f)
  {
    match k
    case Top =>
    case In(up, d, x, c, s) =>
      RepFrame(m, m', s, x, Child(m, x, d.Other()));
      ContextFrame(m, m', up, x);
  }

  lemma ContextHole(m: Mem, m': Mem, k: Context, f: Node?, f': Node?)
    requires RepContext(m, k, f) && ContextDistinct(k)
    requires HoleCell(m, m', k, f') && Agree(m, m', ContextNodes(k) - ContextRoot(k))
    ensures RepContext(m', k, f')
  {
    if k.In? {
      assert Agree(m, m', Nodes(k.sibling)) && Agree(m, m', ContextNodes(k.up));
      RepFrame(m, m', k.sibling, k.node, Child(m, k.node, k.d.Other()));
      ContextFrame(m, m', k.up, k.node);
    }
  }

  /* ---- The three moves every routine is made of ---- */

  lemma FocusColor(m: Mem, k: Context, t: Tree, c: Color)
    requires Focus(m, k, t) && t.Fork?
    ensures Focus(SetColor(m, t.node, c), k, t.(color := c))
  {
    var m' := SetColor(m, t.node, c);
    RepFrame(m, m', t.left, t.node, m.at[t.node].left);
    RepFrame(m, m', t.right, t.node, m.at[t.node].right);
    ContextFrame(m, m', k, t.node);
  }

  /** A rotation moves the near child `b` of `y` over to `x` and turns the edge from `x` to `y`. */
  lemma FocusRotate(m: Mem, k: Context, d: Side, a: Tree, x: Node, cx: Color, b: Tree, y: Node, cy: Color, c: Tree)
    requires Closed(m)
    requires Focus(m, k, Mk(d, a, x, cx, Mk(d, b, y, cy, c)))
    ensures x in m.at && Child(m, x, d.Other()) == y
    ensures Focus(Rotate(m, x, d), k, Mk(d, Mk(d, a, x, cx, b), y, cy, c))
  {
    hide Rotate, Mk;
    RotateShape(m, k, d, a, x, cx, b, y, cy, c);
    RotateCells(m, k, d, x, y, b);
    RotateParts(m, Rotate(m, x, d), k, d, a, x, b, y, c);
    RotatedFocus(Rotate(m, x, d), k, d, a, x, cx, b, y, cy, c);
  }

  lemma RotateShape(m: Mem, k: Context, d: Side, a: Tree, x: Node, cx: Color, b: Tree, y: Node, cy: Color, c: Tree)
    requires Focus(m, k, Mk(d, a, x, cx, Mk(d, b, y, cy, c)))
    ensures x in m.at && y in m.at && x != y
    ensures Cells(m, k, d, x, y, b) && RepContext(m, k, x) && ContextDistinct(k)
    ensures m.at[x].color == cx && m.at[y].color == cy
    ensures Rep(m, a, x, Child(m, x, d)) && Rep(m, b, y, Ptr(b)) && Rep(m, c, y, Child(m, y, d.Other()))
    ensures ScatteredNodes(k, a, x, b, y, c)
  {
    var u := Mk(d, b, y, cy, c);
    DistinctMk(d, b, y, cy, c);
    DistinctMk(d, a, x, cx, u);
    RepMk(m, d, a, x, cx, u, ContextPtr(k), x);
    RepMk(m, d, b, y, cy, c, x, Child(m, x, d.Other()));
    RepPtr(m, b, y, Child(m, y, d));
    if k.In? {
      RepPtr(m, k.sibling, k.node, Child(m, k.node, k.d.Other()));
    }
  }

  /** The parts of a rotation share no node. */
  ghost predicate ScatteredNodes(k: Context, a: Tree, x: Node, b: Tree, y: Node, c: Tree) {
    && x != y && {x, y} !! Nodes(a) !! Nodes(b) !! Nodes(c) !! ContextNodes(k)
    && Distinct(a) && Distinct(b) && Distinct(c)
  }

  lemma RotatedFocus(m: Mem, k: Context, d: Side, a: Tree, x: Node, cx: Color, b: Tree, y: Node, cy: Color, c: Tree)
    requires x in m.at && y in m.at
    requires RepContext(m, k, y) && ContextDistinct(k) && ScatteredNodes(k, a, x, b, y, c)
    requires m.at[x].color == cx && m.at[y].color == cy && m.at[x].parent == y && m.at[y].parent == ContextPtr(k)
    requires Rep(m, a, x, Child(m, x, d)) && Rep(m, b, x, Child(m, x, d.Other()))
    requires Child(m, y, d) == x && Rep(m, c, y, Child(m, y, d.Other()))
    ensures Focus(m, k, Mk(d, Mk(d, a, x, cx, b), y, cy, c))
  {
    var u := Mk(d, a, x, cx, b);
    DistinctMk(d, a, x, cx, b);
    DistinctMk(d, u, y, cy, c);
    RepMk(m, d, a, x, cx, b, y, x);
    RepMk(m, d, u, y, cy, c, ContextPtr(k), y);
  }

  function Root(t: Tree): set<Node> {
    if t.Leaf? then {} else {t.node}
  }

  /** The side on which a rotation of `z` re-hangs the parent's link. */
  function HangSide(m: Mem, p: Node, d: Side, z: Node): Side
    requires p in m.at
  {
    if Child(m, p, d) == z then d else d.Other()
  }

  /** A rotation at `x` will hang `y` in the hole of `k` and move `b` over. */
  ghost predicate Cells(m: Mem, k: Context, d: Side, x: Node, y: Node, b: Tree) {
    && x in m.at && y in m.at && x != y && (b.Fork? ==> b.node in m.at)
    && m.at[x].parent == ContextPtr(k) && Child(m, x, d.Other()) == y && Child(m, y, d) == Ptr(b)
    && {x, y} !! Root(b) !! ContextRoot(k)
    && (k.In? ==> k.node in m.at && k.d == HangSide(m, k.node, d, x))
  }

  /** What a rotation writes. */
  ghost predicate RotatedCells(m: Mem, m': Mem, k: Context, d: Side, x: Node, y: Node, b: Tree)
    requires Cells(m, k, d, x, y, b)
  {
    && x in m'.at && y in m'.at
    && Agree(m, m', m.at.Keys - {x, y} - Root(b) - ContextRoot(k))
    && HoleCell(m, m', k, y)
    && m'.at[x] == SetChild(m, x, d.Other(), Ptr(b)).at[x].(parent := y)
    && m'.at[y] == SetChild(m, y, d, x).at[y].(parent := ContextPtr(k))
    && (b.Fork? ==> b.node in m'.at && m'.at[b.node] == m.at[b.node].(parent := x))
  }

  lemma RotateCells(m: Mem, k: Context, d: Side, x: Node, y: Node, b: Tree)
    requires Closed(m) && Cells(m, k, d, x, y, b)
    ensures RotatedCells(m, Rotate(m, x, d), k, d, x, y, b)
  {
    if k.Top? {
      RotateCellsTop(m, d, x, y, b);
    } else {
      RotateCellsIn(m, k, d, x, y, b);
    }
  }

  lemma RotateCellsTop(m: Mem, d: Side, x: Node, y: Node, b: Tree)
    requires Closed(m) && Cells(m, Top, d, x, y, b)
    ensures RotatedCells(m, Rotate(m, x, d), Top, d, x, y, b)
  {
  }

  lemma RotateCellsIn(m: Mem, k: Context, d: Side, x: Node, y: Node, b: Tree)
    requires Closed(m) && k.In? && Cells(m, k, d, x, y, b)
    ensures RotatedCells(m, Rotate(m, x, d), k, d, x, y, b)
  {
    if d == k.d {
      RotateCellsSame(m, k, x, y, b);
    } else {
      RotateCellsOther(m, k, x, y, b);
    }
  }

  lemma RotateCellsSame(m: Mem, k: Context, x: Node, y: Node, b: Tree)
    requires Closed(m) && k.In? && Cells(m, k, k.d, x, y, b)
    ensures RotatedCells(m, Rotate(m, x, k.d), k, k.d, x, y, b)
  {
    hide Closed;
  }

  lemma RotateCellsOther(m: Mem, k: Context, x: Node, y: Node, b: Tree)
    requires Closed(m) && k.In? && Cells(m, k, k.d.Other(), x, y, b)
    ensures RotatedCells(m, Rotate(m, x, k.d.Other()), k, k.d.Other(), x, y, b)
  {
    hide Closed;
  }

  lemma RotateParts(m: Mem, m': Mem, k: Context, d: Side, a: Tree, x: Node, b: Tree, y: Node, c: Tree)
    requires Cells(m, k, d, x, y, b) && RotatedCells(m, m', k, d, x, y, b)
    requires RepContext(m, k, x) && ContextDistinct(k) && ScatteredNodes(k, a, x, b, y, c)
    requires Rep(m, a, x, Child(m, x, d)) && Rep(m, b, y, Ptr(b)) && Rep(m, c, y, Child(m, y, d.Other()))
    ensures RepContext(m', k, y)
    ensures Rep(m', a, x, Child(m', x, d)) && Rep(m', b, x, Ptr(b)) && Rep(m', c, y, Child(m', y, d.Other()))
  {
    assert Agree(m, m', Nodes(a)) && Agree(m, m', Nodes(c)) && Agree(m, m', Nodes(b) - Root(b));
    RepFrame(m, m', a, x, Child(m, x, d));
    RepFrame(m, m', c, y, Child(m, y, d.Other()));
    RepReparent(m, m', b, y, x, Ptr(b));
    ContextHole(m, m', k, x, y);
  }
}
