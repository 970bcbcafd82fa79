/** The red-black conditions, and why rbtree_insert keeps them (structure/rbtree.h:161-267). */
module RbInsert {
  import opened Options
  import opened RbMemory
  import opened RbTree

  /* ---- The red-black conditions ---- */

  function Weight(c: Color): nat {
    if c == Black then 1 else 0
  }

  /** Black nodes on the leftmost path. */
  function BlackHeight(t: Tree): nat {
    match t
    case Leaf => 0
    case Fork(l, _, c, _) => BlackHeight(l) + Weight(c)
  }

  function RootColor(t: Tree): Color {
    if t.Leaf? then Black else t.color
  }

  /** Equal black height on every path, and no red node with a red child. */
  predicate Sound(t: Tree) {
    match t
    case Leaf => true
    case Fork(l, _, c, r) =>
      && Sound(l) && Sound(r) && BlackHeight(l) == BlackHeight(r)
      && (c == Red ==> RootColor(l) == Black && RootColor(r) == Black)
  }

  predicate RedBlack(t: Tree) {
    Sound(t) && RootColor(t) == Black
  }

  /** The colour above the hole; nothing red may be put at the top. */
  function ContextColor(k: Context): Color {
    if k.Top? then Red else k.color
  }

  /** Plugging in a sound tree of black height `h` gives a red-black tree, colour permitting. */
  predicate SoundContext(k: Context, h: nat) {
    match k
    case Top => true
    case In(up, _, _, c, s) =>
      && Sound(s) && BlackHeight(s) == h
      && (c == Red ==> RootColor(s) == Black && ContextColor(up) == Black)
      && SoundContext(up, h + Weight(c))
  }

  lemma SoundMk(d: Side, a: Tree, x: Node, c: Color, b: Tree)
    ensures Sound(Mk(d, a, x, c, b)) <==>
            && Sound(a) && Sound(b) && BlackHeight(a) == BlackHeight(b)
            && (c == Red ==> RootColor(a) == Black && RootColor(b) == Black)
    ensures Sound(Mk(d, a, x, c, b)) ==> BlackHeight(Mk(d, a, x, c, b)) == BlackHeight(a) + Weight(c)
    ensures RootColor(Mk(d, a, x, c, b)) == c
  {
    match d
    case Left =>
    case Right =>
  }

  lemma {:induction false} SoundPlug(k: Context, t: Tree)
    ensures RedBlack(Plug(k, t)) <==>
            && Sound(t) && SoundContext(k, BlackHeight(t))
            && (RootColor(t) == Red ==> ContextColor(k) == Black)
    decreases k
  {
    match k
    case Top =>
    case In(up, d, x, c, s) =>
      var u := Mk(d, t, x, c, s);
      SoundMk(d, t, x, c, s);
      SoundPlug(up, u);
  }

  /* ---- One iteration of the insert fixup ---- */

  lemma MkFlip(d: Side, a: Tree, x: Node, c: Color, b: Tree)
    ensures Mk(d, a, x, c, b) == Mk(d.Other(), b, x, c, a)
    ensures d.Other().Other() == d
  {
    match d
    case Left =>
    case Right =>
  }

  /** What the code reads around the focus. */
  lemma FocusNeighbours(m: Mem, k: Context, t: Tree)
    requires Focus(m, k, t) && k.In?
    ensures k.node in m.at && m.at[k.node].color == k.color && m.at[k.node].parent == ContextPtr(k.up)
    ensures Child(m, k.node, k.d) == Ptr(t) && Child(m, k.node, k.d.Other()) == Ptr(k.sibling)
    ensures k.sibling.Fork? ==> k.sibling.node in m.at && m.at[k.sibling.node].color == k.sibling.color
    ensures t.Fork? ==> t.node in m.at && m.at[t.node].parent == k.node && m.at[t.node].color == t.color
    ensures t.Fork? ==> t.node != k.node && Ptr(k.sibling) != t.node
    ensures Focus(m, k.up, Mk(k.d, t, k.node, k.color, k.sibling))
  {
    FocusUp(m, k.up, k.d, k.node, k.color, k.sibling, t);
    RepPtr(m, k.sibling, k.node, Child(m, k.node, k.d.Other()));
  }

  /** Recolours the root of a sibling, seen from the other side. */
  lemma FocusColorSibling(m: Mem, k: Context, d: Side, t: Tree, x: Node, c: Color, s: Tree, c': Color)
    requires Focus(m, k, Mk(d, t, x, c, s)) && s.Fork?
    ensures s.node in m.at && Focus(SetColor(m, s.node, c'), k, Mk(d, t, x, c, s.(color := c')))
  {
    MkFlip(d, t, x, c, s);
    FocusUp(m, k, d.Other(), x, c, t, s);
    FocusColor(m, In(k, d.Other(), x, c, t), s, c');
    var m' := SetColor(m, s.node, c');
    FocusUp(m', k, d.Other(), x, c, t, s.(color := c'));
    MkFlip(d, t, x, c, s.(color := c'));
  }

  lemma FocusColorMk(m: Mem, k: Context, d: Side, t: Tree, x: Node, c: Color, s: Tree, c': Color)
    requires Focus(m, k, Mk(d, t, x, c, s))
    ensures x in m.at && Focus(SetColor(m, x, c'), k, Mk(d, t, x, c', s))
  {
    FocusColor(m, k, Mk(d, t, x, c, s), c');
  }

  /** Recolours the child the focus came from. */
  lemma FocusColorChild(m: Mem, k: Context, d: Side, t: Tree, x: Node, c: Color, s: Tree, c': Color)
    requires Focus(m, k, Mk(d, t, x, c, s)) && t.Fork?
    ensures t.node in m.at && Focus(SetColor(m, t.node, c'), k, Mk(d, t.(color := c'), x, c, s))
  {
    FocusUp(m, k, d, x, c, s, t);
    FocusColor(m, In(k, d, x, c, s), t, c');
    FocusUp(SetColor(m, t.node, c'), k, d, x, c, s, t.(color := c'));
  }

  /** A red uncle: recolouring moves the red node two levels up. */
  lemma InsertRedUncle(m: Mem, k: Context, d: Side, g: Node, u: Tree, t: Tree)
    requires Closed(m) && t.Fork? && u.Fork? && u.color == Red
    requires Focus(m, k, Mk(d, t, g, Black, u))
    ensures t.node in m.at && u.node in m.at && g in m.at
    ensures Focus(SetColor(SetColor(SetColor(m, t.node, Black), u.node, Black), g, Red), k,
                  Mk(d, t.(color := Black), g, Red, u.(color := Black)))
  {
    FocusColorChild(m, k, d, t, g, Black, u, Black);
    var m1 := SetColor(m, t.node, Black);
    var t1 := t.(color := Black);
    FocusColorSibling(m1, k, d, t1, g, Black, u, Black);
    var m2 := SetColor(m1, u.node, Black);
    FocusColorMk(m2, k, d, t1, g, Black, u.(color := Black), Red);
  }

  /** The last rotation: `q` is red under the black grandparent `g` and has the red outer child `c`. */
  lemma InsertRotate(m: Mem, k: Context, d: Side, c: Tree, q: Node, b: Tree, g: Node, u: Tree)
    requires Closed(m) && Focus(m, k, Mk(d, Mk(d, c, q, Red, b), g, Black, u))
    ensures q in m.at && g in m.at && m.at[q].parent == g
    ensures Child(SetColor(SetColor(m, q, Black), g, Red), g, d) == q
    ensures Focus(Rotate(SetColor(SetColor(m, q, Black), g, Red), g, d.Other()), k,
                  Mk(d, c, q, Black, Mk(d, b, g, Red, u)))
  {
    var o := d.Other();
    var t := Mk(d, c, q, Red, b);
    var t1 := Mk(d, c, q, Black, b);
    FocusUp(m, k, d, g, Black, u, t);
    FocusNeighbours(m, In(k, d, g, Black, u), t);
    FocusColorChild(m, k, d, t, g, Black, u, Black);
    var m1 := SetColor(m, q, Black);
    FocusColorMk(m1, k, d, t1, g, Black, u, Red);
    var m2 := SetColor(m1, g, Red);
    MkFlip(d, t1, g, Red, u);
    MkFlip(d, c, q, Black, b);
    FocusRotate(m2, k, o, u, g, Red, b, q, Black, c);
    MkFlip(d, b, g, Red, u);
    MkFlip(d, c, q, Black, Mk(d, b, g, Red, u));
  }

  lemma SoundOuter(k: Context, d: Side, c: Tree, q: Node, b: Tree, g: Node, u: Tree)
    requires Sound(c) && Sound(b) && Sound(u) && BlackHeight(c) == BlackHeight(b) == BlackHeight(u)
    requires RootColor(b) == Black && RootColor(u) == Black
    requires SoundContext(k, BlackHeight(u) + 1)
    ensures RedBlack(Plug(k, Mk(d, c, q, Black, Mk(d, b, g, Red, u))))
  {
    SoundMk(d, b, g, Red, u);
    SoundMk(d, c, q, Black, Mk(d, b, g, Red, u));
    SoundPlug(k, Mk(d, c, q, Black, Mk(d, b, g, Red, u)));
  }

  lemma InorderMk(d: Side, a: Tree, x: Node, c: Color, b: Tree)
    ensures Inorder(Mk(d, a, x, c, b)) ==
            if d == Left then Inorder(a) + [x] + Inorder(b) else Inorder(b) + [x] + Inorder(a)
  {
  }

  /** Rotations keep the in-order sequence. */
  lemma InorderRotate(d: Side, a: Tree, x: Node, c: Color, b: Tree, y: Node, e: Color, f: Tree, c': Color, e': Color)
    ensures Inorder(Mk(d, Mk(d, a, x, c, b), y, e, f)) == Inorder(Mk(d, a, x, c', Mk(d, b, y, e', f)))
  {
    match d
    case Left => Regroup(Inorder(a), [x], Inorder(b), [y], Inorder(f));
    case Right => Regroup(Inorder(f), [y], Inorder(b), [x], Inorder(a));
  }

  function Sub(t: Tree, d: Side): Tree
    requires t.Fork?
  {
    if d == Left then t.left else t.right
  }

  /** What one iteration leaves: either a red-black tree, or the red node two levels up. */
  ghost predicate InsertProgress(m: Mem, k: Context, t: Tree, next: Node?) {
    && Closed(m) && Focus(m, k, t)
    && if next == null then RedBlack(Plug(k, t)) else
       t.Fork? && t.color == Red && next == t.node && Sound(t) && SoundContext(k, BlackHeight(t))
  }

  /** The red-uncle branch, as reads and writes. */
  lemma InsertStepRecolours(m: Mem, node: Node, p: Node, g: Node, u: Node, d: Side)
    requires Closed(m) && node in m.at && m.at[node].parent == p && p in m.at && m.at[p].parent == g
    requires g in m.at && Child(m, g, d.Other()) == u && u in m.at && m.at[u].color == Red
    ensures InsertStep(m, node, d) == Some((SetColor(SetColor(SetColor(m, p, Black), u, Black), g, Red), g))
  {
  }

  lemma InsertStepRotates(m: Mem, node: Node, p: Node, g: Node, u: Node?, d: Side)
    requires Closed(m) && node in m.at && m.at[node].parent == p && p in m.at && m.at[p].parent == g
    requires g in m.at && Child(m, g, d.Other()) == u && Known(m, u) && IsBlack(m, u)
    ensures node != Child(m, p, d.Other()) ==> InsertStep(m, node, d) == InsertTail(m, node, d)
    ensures node == Child(m, p, d.Other()) ==> InsertStep(m, node, d) == InsertTail(Rotate(m, p, d), p, d)
  {
    hide Rotate, InsertTail;
  }

  lemma InsertStepRed(m: Mem, k: Context, e: Side, t: Tree, p: Node, s: Tree, d: Side, g: Node, u: Tree)
    returns (t': Tree)
    requires Closed(m) && Focus(m, In(In(k, d, g, Black, u), e, p, Red, s), t)
    requires t.Fork? && t.color == Red && Sound(t)
    requires SoundContext(In(In(k, d, g, Black, u), e, p, Red, s), BlackHeight(t))
    requires u.Fork? && u.color == Red
    ensures t.node in m.at
    ensures var r := InsertStep(m, t.node, d);
            r.Some? && r.value.1 == g && InsertProgress(r.value.0, k, t', g)
    ensures t'.Fork? && t'.node == g
    ensures Inorder(t') == Inorder(Mk(d, Mk(e, t, p, Red, s), g, Black, u))
  {
    hide Focus, Closed, Inorder, InsertStep, Rotate;
    var q := Mk(e, t, p, Red, s);
    var q' := Mk(e, t, p, Black, s);
    FocusNeighbours(m, In(In(k, d, g, Black, u), e, p, Red, s), t);
    FocusNeighbours(m, In(k, d, g, Black, u), q);
    InsertStepRecolours(m, t.node, p, g, u.node, d);
    InsertRedUncle(m, k, d, g, u, q);
    var u' := u.(color := Black);
    t' := Mk(d, q', g, Red, u');
    SoundMk(e, t, p, Black, s);
    SoundMk(d, q', g, Red, u');
    InorderMk(e, t, p, Red, s); InorderMk(e, t, p, Black, s);
    InorderMk(d, q, g, Black, u); InorderMk(d, q', g, Red, u');
    InorderColor(u, Black);
  }

  lemma InorderColor(t: Tree, c: Color)
    requires t.Fork?
    ensures Inorder(t.(color := c)) == Inorder(t)
  {
  }

  /** The tail of the routine, when `q` is red with the red outer child `c`. */
  lemma InsertTailSound(m: Mem, k: Context, d: Side, c: Tree, q: Node, b: Tree, g: Node, u: Tree) returns (t': Tree)
    requires Closed(m) && Focus(m, k, Mk(d, Mk(d, c, q, Red, b), g, Black, u)) && c.Fork?
    requires Sound(c) && Sound(b) && Sound(u) && BlackHeight(c) == BlackHeight(b) == BlackHeight(u)
    requires RootColor(b) == Black && RootColor(u) == Black
    requires SoundContext(k, BlackHeight(u) + 1)
    ensures c.node in m.at
    ensures var r := InsertTail(m, c.node, d);
            r.Some? && r.value.1 == null && InsertProgress(r.value.0, k, t', null)
    ensures t'.Fork? && Inorder(t') == Inorder(Mk(d, Mk(d, c, q, Red, b), g, Black, u))
  {
    hide Focus, Closed, Rotate, Inorder, Sound, SoundContext, Plug;
    var t := Mk(d, c, q, Red, b);
    FocusUp(m, k, d, g, Black, u, t);
    FocusNeighbours(m, In(k, d, g, Black, u), t);
    FocusUp(m, In(k, d, g, Black, u), d, q, Red, b, c);
    FocusNeighbours(m, In(In(k, d, g, Black, u), d, q, Red, b), c);
    InsertRotate(m, k, d, c, q, b, g, u);
    t' := Mk(d, c, q, Black, Mk(d, b, g, Red, u));
    SoundOuter(k, d, c, q, b, g, u);
    InorderRotateInner(d, c, q, b, g, u);
  }

  lemma InorderRotateInner(d: Side, c: Tree, q: Node, b: Tree, g: Node, u: Tree)
    ensures Inorder(Mk(d, c, q, Black, Mk(d, b, g, Red, u))) == Inorder(Mk(d, Mk(d, c, q, Red, b), g, Black, u))
  {
    InorderRotate(d, c, q, Red, b, g, Black, u, Black, Red);
  }

  /** A black uncle and an outer red grandchild `t`. */
  lemma InsertStepOuter(m: Mem, k: Context, t: Tree, q: Node, b: Tree, d: Side, g: Node, u: Tree)
    returns (t': Tree)
    requires Closed(m) && Focus(m, In(In(k, d, g, Black, u), d, q, Red, b), t)
    requires t.Fork? && Sound(t) && t.color == Red
    requires SoundContext(In(In(k, d, g, Black, u), d, q, Red, b), BlackHeight(t))
    requires RootColor(u) == Black
    ensures t.node in m.at
    ensures var r := InsertStep(m, t.node, d);
            r.Some? && r.value.1 == null && InsertProgress(r.value.0, k, t', null)
    ensures t'.Fork? && Inorder(t') == Inorder(Mk(d, Mk(d, t, q, Red, b), g, Black, u))
  {
    hide Focus, Closed, Inorder, InsertStep, InsertTail, Rotate, Mk;
    FocusNeighbours(m, In(In(k, d, g, Black, u), d, q, Red, b), t);
    FocusUp(m, k, d, g, Black, u, Mk(d, t, q, Red, b));
    FocusNeighbours(m, In(k, d, g, Black, u), Mk(d, t, q, Red, b));
    SoundMk(d, t, q, Red, b);
    MkRoot(d, t, q, Red, b);
    InsertStepRotates(m, t.node, q, g, Ptr(u), d);
    t' := InsertTailSound(m, k, d, t, q, b, g, u);
  }

  lemma MkRoot(d: Side, a: Tree, x: Node, c: Color, b: Tree)
    ensures var t := Mk(d, a, x, c, b); t.Fork? && t.node == x && t.color == c && Ptr(t) == x
  {
  }

  /** A black uncle and an inner red grandchild: one more rotation makes it an outer one. */
  lemma InsertStepInner(m: Mem, k: Context, t: Tree, p: Node, s: Tree, d: Side, g: Node, u: Tree)
    returns (t': Tree)
    requires Closed(m) && Focus(m, In(In(k, d, g, Black, u), d.Other(), p, Red, s), t)
    requires t.Fork? && Sound(t) && t.color == Red
    requires SoundContext(In(In(k, d, g, Black, u), d.Other(), p, Red, s), BlackHeight(t))
    requires RootColor(u) == Black
    ensures t.node in m.at
    ensures var r := InsertStep(m, t.node, d);
            r.Some? && r.value.1 == null && InsertProgress(r.value.0, k, t', null)
    ensures t'.Fork? && Inorder(t') == Inorder(Mk(d, Mk(d.Other(), t, p, Red, s), g, Black, u))
  {
    hide Focus, Closed, Inorder, InsertStep, InsertTail, Rotate, Mk;
    var k1 := In(k, d, g, Black, u);
    var a, n, b := Sub(t, d), t.node, Sub(t, d.Other());
    SubMk(t, d);
    FocusNeighbours(m, In(k1, d.Other(), p, Red, s), t);
    FocusNeighbours(m, k1, Mk(d.Other(), t, p, Red, s));
    MkRoot(d.Other(), t, p, Red, s);
    MkFlip(d, s, p, Red, t);
    FocusRotate(m, k1, d, s, p, Red, a, n, Red, b);
    InsertStepRotates(m, n, p, g, Ptr(u), d);
    var m1 := Rotate(m, p, d);
    var c := Mk(d, s, p, Red, a);
    MkRoot(d, s, p, Red, a);
    SoundMk(d, a, n, Red, b);
    SoundMk(d, s, p, Red, a);
    FocusUp(m1, k, d, g, Black, u, Mk(d, c, n, Red, b));
    t' := InsertTailSound(m1, k, d, c, n, b, g, u);
    InorderRotate(d, s, p, Red, a, n, Red, b, Red, Red);
    InorderMk(d, Mk(d, c, n, Red, b), g, Black, u);
    InorderMk(d, Mk(d.Other(), t, p, Red, s), g, Black, u);
  }

  lemma SubMk(t: Tree, d: Side)
    requires t.Fork?
    ensures t == Mk(d, Sub(t, d), t.node, t.color, Sub(t, d.Other()))
  {
  }

  function Depth(k: Context): nat {
    if k.Top? then 0 else 1 + Depth(k.up)
  }

  /** The last store of the fixup: the root becomes black. */
  lemma BlackenRoot(m: Mem, k: Context, t: Tree) returns (t': Tree)
    requires Closed(m) && Focus(m, k, t) && t.Fork? && Sound(Plug(k, t))
    ensures m.root != null && m.root in m.at
    ensures Focus(SetColor(m, m.root, Black), Top, t') && RedBlack(t')
    ensures Inorder(t') == Inorder(Plug(k, t))
  {
    var u := Plug(k, t);
    FocusPlug(m, k, t);
    PlugNodes(k, t);
    assert t.node in Nodes(u);
    FocusColor(m, Top, u, Black);
    t' := u.(color := Black);
  }

  lemma PlugTop(t: Tree)
    ensures Plug(Top, t) == t
  {
  }

  /** The code's test `parent == parent->parent->left` finds the side the parent is on. */
  lemma InsertSide(m: Mem, k: Context, t: Tree)
    requires Focus(m, k, t) && t.Fork? && k.In? && k.up.In?
    ensures t.node in m.at && m.at[t.node].parent == k.node && m.at[t.node].color == t.color
    ensures k.node in m.at && m.at[k.node].parent == k.up.node && m.at[k.node].color == k.color
    ensures k.up.node in m.at && (k.node == m.at[k.up.node].left <==> k.up.d == Left)
  {
    FocusNeighbours(m, k, t);
    FocusNeighbours(m, k.up, Mk(k.d, t, k.node, k.color, k.sibling));
  }

  lemma InsertParent(m: Mem, k: Context, t: Tree)
    requires Focus(m, k, t) && t.Fork?
    ensures t.node in m.at && m.at[t.node].parent == ContextPtr(k)
    ensures k.In? ==> k.node in m.at && m.at[k.node].color == k.color
  {
    if k.In? {
      FocusNeighbours(m, k, t);
    }
  }

  /** One iteration, whatever the case. */
  lemma InsertIteration(m: Mem, k: Context, t: Tree) returns (t': Tree)
    requires InsertProgress(m, k, t, Ptr(t)) && t.Fork?
    requires k.In? && k.color == Red && k.up.In?
    ensures t.node in m.at
    ensures var r := InsertStep(m, t.node, k.up.d);
            r.Some? && (r.value.1 != null ==> t'.Fork? && r.value.1 == t'.node)
            && InsertProgress(r.value.0, k.up.up, t', r.value.1)
    ensures t'.Fork? && Inorder(Plug(k.up.up, t')) == Inorder(Plug(k, t))
  {
    hide Focus, Closed, Inorder, InsertStep, Mk;
    var k1 := k.up;
    var d, g, u, k2 := k1.d, k1.node, k1.sibling, k1.up;
    var x := Mk(d, Mk(k.d, t, k.node, Red, k.sibling), g, Black, u);
    if u.Fork? && u.color == Red {
      t' := InsertStepRed(m, k2, k.d, t, k.node, k.sibling, d, g, u);
    } else if k.d == d {
      t' := InsertStepOuter(m, k2, t, k.node, k.sibling, d, g, u);
    } else {
      t' := InsertStepInner(m, k2, t, k.node, k.sibling, d, g, u);
    }
    InorderPlug(k2, x);
    InorderPlug(k2, t');
  }

  /** The fixup ends with a red-black tree of the same in-order sequence; the red node climbs
      two levels an iteration, so the depth of the context bounds the iterations. */
  lemma {:induction false} InsertFixupSound(m: Mem, k: Context, t: Tree, fuel: nat) returns (m': Mem, t': Tree)
    requires InsertProgress(m, k, t, Ptr(t)) && t.Fork? && fuel >= Depth(k)
    ensures t.node in m.at && InsertFixup(m, t.node, fuel) == Some(Some(m'))
    ensures Closed(m') && m'.at.Keys == m.at.Keys && Focus(m', Top, t') && RedBlack(t')
    ensures Inorder(t') == Inorder(Plug(k, t))
    decreases fuel
  {
    hide Focus, Inorder, InsertStep, Plug;
    InsertParent(m, k, t);
    if k.Top? || k.color == Black {
      SoundPlug(k, t);
      PlugTop(t);
      t' := BlackenRoot(m, k, t);
      m' := SetColor(m, m.root, Black);
    } else {
      assert k.up.In?;
      InsertSide(m, k, t);
      var t1 := InsertIteration(m, k, t);
      var r := InsertStep(m, t.node, k.up.d).value;
      if r.1 == null {
        t' := BlackenRoot(r.0, k.up.up, t1);
        m' := SetColor(r.0, r.0.root, Black);
      } else {
        m', t' := InsertFixupSound(r.0, k.up.up, t1, fuel - 1);
      }
    }
  }
}
