/** Why the fixup of rbtree_erase restores the red-black conditions (structure/rbtree.h:269-370). */
module RbErase {
  import opened Options
  import opened RbMemory
  import opened RbTree
  import opened RbInsert

  function Blacken(t: Tree): Tree {
    if t.Leaf? then Leaf else t.(color := Black)
  }

  /** The tree in the hole is one black node short; its root may be red under a red parent. */
  ghost predicate Deficit(m: Mem, k: Context, t: Tree) {
    Closed(m) && Focus(m, k, t) && Short(k, t)
  }

  predicate Short(k: Context, t: Tree) {
    Sound(Blacken(t)) && SoundContext(k, BlackHeight(t) + 1)
  }

  /** Moves the focus from a tree to its sibling. */
  lemma FocusSibling(m: Mem, k: Context, d: Side, t: Tree, x: Node, c: Color, s: Tree)
    ensures Focus(m, k, Mk(d, t, x, c, s)) <==> Focus(m, In(k, d.Other(), x, c, t), s)
  {
    MkFlip(d, t, x, c, s);
    FocusUp(m, k, d.Other(), x, c, t, s);
  }

  /* ---- Case 1 ---- */

  lemma EraseCase1(m: Mem, k: Context, d: Side, t: Tree, p: Node, b: Tree, w: Node, c: Tree)
    requires Closed(m) && Focus(m, k, Mk(d, t, p, Black, Mk(d, b, w, Red, c)))
    ensures p in m.at && Child(m, p, d.Other()) == w
    ensures var r := EraseRedSibling(m, p, w, d);
            Focus(r.0, k, Mk(d, Mk(d, t, p, Red, b), w, Black, c)) && r.1 == Ptr(b)
  {
    hide Focus, Closed, Rotate;
    var s := Mk(d, b, w, Red, c);
    var s' := Mk(d, b, w, Black, c);
    MkRoot(d, b, w, Red, c);
    FocusUp(m, k, d, p, Black, s, t);
    FocusNeighbours(m, In(k, d, p, Black, s), t);
    FocusColorSibling(m, k, d, t, p, Black, s, Black);
    var m1 := SetColor(m, w, Black);
    FocusColorMk(m1, k, d, t, p, Black, s', Red);
    var m2 := SetColor(m1, p, Red);
    FocusRotate(m2, k, d, t, p, Red, b, w, Black, c);
    var m3 := Rotate(m2, p, d);
    var u := Mk(d, t, p, Red, b);
    FocusUp(m3, k, d, w, Black, c, u);
    FocusUp(m3, In(k, d, w, Black, c), d, p, Red, b, t);
    FocusNeighbours(m3, In(In(k, d, w, Black, c), d, p, Red, b), t);
  }

  /* ---- Case 3 ---- */

  lemma EraseCase3(m: Mem, k: Context, d: Side, t: Tree, p: Node, cp: Color,
                   x: Tree, n: Node, y: Tree, w: Node, f: Tree)
    requires Closed(m) && RootColor(f) == Black
    requires Focus(m, k, Mk(d, t, p, cp, Mk(d, Mk(d, x, n, Red, y), w, Black, f)))
    ensures p in m.at && Child(m, p, d.Other()) == w
    ensures w in m.at && !(IsBlack(m, Child(m, w, Left)) && IsBlack(m, Child(m, w, Right)))
    ensures var r := EraseFarNephew(m, p, w, d);
            Focus(r.0, k, Mk(d, t, p, cp, Mk(d, x, n, Black, Mk(d, y, w, Red, f)))) && r.1 == n
  {
    hide Focus, Closed, Rotate;
    var o := d.Other();
    var a := Mk(d, x, n, Red, y);
    var a' := Mk(d, x, n, Black, y);
    var s := Mk(d, a, w, Black, f);
    var j := In(k, o, p, cp, t);
    MkRoot(d, a, w, Black, f); MkRoot(d, x, n, Red, y);
    FocusSibling(m, k, d, t, p, cp, s);
    FocusNeighbours(m, j, s);
    SiblingReads(m, j, d, a, w, Black, f);
    FocusColorChild(m, j, d, a, w, Black, f, Black);
    var m1 := SetColor(m, n, Black);
    FocusColorMk(m1, j, d, a', w, Black, f, Red);
    var m2 := SetColor(m1, w, Red);
    MkFlip(d, a', w, Red, f); MkFlip(d, x, n, Black, y);
    FocusRotate(m2, j, o, f, w, Red, y, n, Black, x);
    var m3 := Rotate(m2, w, o);
    MkFlip(d, y, w, Red, f); MkFlip(d, x, n, Black, Mk(d, y, w, Red, f));
    var s' := Mk(d, x, n, Black, Mk(d, y, w, Red, f));
    MkRoot(d, x, n, Black, Mk(d, y, w, Red, f));
    FocusNeighbours(m3, j, s');
    FocusSibling(m3, k, d, t, p, cp, s');
  }

  /** The nephews, as the code reads them. */
  lemma SiblingReads(m: Mem, j: Context, d: Side, a: Tree, w: Node, c: Color, f: Tree)
    requires Focus(m, j, Mk(d, a, w, c, f)) && Closed(m)
    ensures w in m.at && m.at[w].color == c && Child(m, w, d) == Ptr(a) && Child(m, w, d.Other()) == Ptr(f)
    ensures IsBlack(m, Ptr(a)) <==> RootColor(a) == Black
    ensures IsBlack(m, Ptr(f)) <==> RootColor(f) == Black
    ensures IsBlack(m, Child(m, w, Left)) && IsBlack(m, Child(m, w, Right))
            <==> RootColor(a) == Black && RootColor(f) == Black
  {
    RepMk(m, d, a, w, c, f, ContextPtr(j), w);
    RepPtr(m, a, w, Child(m, w, d));
    RepPtr(m, f, w, Child(m, w, d.Other()));
  }

  /* ---- Case 4 ---- */

  lemma EraseCase4(m: Mem, k: Context, d: Side, t: Tree, p: Node, cp: Color, b: Tree, w: Node, f: Tree)
    requires Closed(m) && f.Fork? && f.color == Red
    requires Focus(m, k, Mk(d, t, p, cp, Mk(d, b, w, Black, f)))
    ensures p in m.at && Child(m, p, d.Other()) == w
    ensures var r := EraseFinish(m, p, w, d);
            r.Some? && Focus(r.value, k, Mk(d, Mk(d, t, p, Black, b), w, cp, f.(color := Black)))
  {
    hide Focus, Closed, Rotate;
    var o := d.Other();
    var s := Mk(d, b, w, Black, f);
    MkRoot(d, b, w, Black, f);
    var j := In(k, o, p, cp, t);
    FocusSibling(m, k, d, t, p, cp, s);
    FocusNeighbours(m, j, s);
    FocusColorMk(m, j, d, b, w, Black, f, cp);
    var m1 := SetColor(m, w, cp);
    var s1 := Mk(d, b, w, cp, f);
    FocusSibling(m1, k, d, t, p, cp, s1);
    FocusColorMk(m1, k, d, t, p, cp, s1, Black);
    var m2 := SetColor(m1, p, Black);
    FocusSibling(m2, k, d, t, p, Black, s1);
    SiblingReads(m2, In(k, o, p, Black, t), d, b, w, cp, f);
    FocusColorSibling(m2, In(k, o, p, Black, t), d, b, w, cp, f, Black);
    var m3 := SetColor(m2, f.node, Black);
    FocusSibling(m3, k, d, t, p, Black, Mk(d, b, w, cp, f.(color := Black)));
    FocusRotate(m3, k, d, t, p, Black, b, w, cp, f.(color := Black));
  }

  /* ---- One iteration ---- */

  /** What an iteration leaves: a shorter context, a red node to blacken, or the whole tree. */
  ghost predicate Advance(m: Mem, k0: Context, k: Context, t: Tree, child: Node?, parent: Node?) {
    && Deficit(m, k, t) && child == Ptr(t) && parent == ContextPtr(k)
    && (RootColor(t) == Red || Depth(k) < Depth(k0))
  }

  lemma SoundCase2(k: Context, d: Side, t: Tree, p: Node, cp: Color, s: Tree)
    requires Sound(t) && RootColor(t) == Black && Sound(s) && s.Fork? && s.color == Black
    requires RootColor(s.left) == Black && RootColor(s.right) == Black
    requires SoundContext(In(k, d, p, cp, s), BlackHeight(t) + 1)
    ensures Short(k, Mk(d, t, p, cp, s.(color := Red)))
  {
    var s' := s.(color := Red);
    SoundMk(d, t, p, Black, s');
    match d
    case Left =>
    case Right =>
  }

  lemma EraseCase2(m: Mem, k: Context, d: Side, t: Tree, p: Node, cp: Color, s: Tree) returns (t': Tree)
    requires Closed(m) && Focus(m, In(k, d, p, cp, s), t)
    requires Sound(t) && RootColor(t) == Black && Sound(s) && s.Fork? && s.color == Black
    requires RootColor(s.left) == Black && RootColor(s.right) == Black
    requires SoundContext(In(k, d, p, cp, s), BlackHeight(t) + 1)
    ensures p in m.at && Child(m, p, d.Other()) == s.node
    ensures var r := EraseBlackSibling(m, p, s.node, d);
            && r.Some? && Deficit(r.value.0, k, t') && r.value.1 == p && r.value.2 == ContextPtr(k)
            && t'.Fork? && t'.node == p && t'.color == cp
    ensures Inorder(t') == Inorder(Mk(d, t, p, cp, s))
  {
    hide Focus, Closed, Rotate, Inorder, Sound, Mk;
    var j := In(k, d.Other(), p, cp, t);
    FocusUp(m, k, d, p, cp, s, t);
    FocusNeighbours(m, In(k, d, p, cp, s), t);
    FocusSibling(m, k, d, t, p, cp, s);
    SubMk(s, Left);
    SiblingReads(m, j, Left, s.left, s.node, Black, s.right);
    FocusColorSibling(m, k, d, t, p, cp, s, Red);
    var m' := SetColor(m, s.node, Red);
    var s' := s.(color := Red);
    t' := Mk(d, t, p, cp, s');
    MkRoot(d, t, p, cp, s');
    FocusUp(m', k, d, p, cp, s', t);
    FocusNeighbours(m', In(k, d, p, cp, s'), t);
    SoundCase2(k, d, t, p, cp, s);
    InorderColor(s, Red);
    InorderMk(d, t, p, cp, s); InorderMk(d, t, p, cp, s');
  }

  lemma SoundCase4(k: Context, d: Side, t: Tree, p: Node, cp: Color, b: Tree, w: Node, f: Tree)
    requires Sound(t) && RootColor(t) == Black && Sound(Mk(d, b, w, Black, f)) && f.Fork? && f.color == Red
    requires SoundContext(In(k, d, p, cp, Mk(d, b, w, Black, f)), BlackHeight(t) + 1)
    ensures RedBlack(Plug(k, Mk(d, Mk(d, t, p, Black, b), w, cp, f.(color := Black))))
  {
    hide Plug, Mk;
    var f' := f.(color := Black);
    SoundMk(d, b, w, Black, f);
    SoundMk(d, t, p, Black, b);
    SoundMk(d, Mk(d, t, p, Black, b), w, cp, f');
    SoundPlug(k, Mk(d, Mk(d, t, p, Black, b), w, cp, f'));
  }

  lemma SoundBlacken(t: Tree)
    requires Sound(t)
    ensures Sound(Blacken(t)) && Inorder(Blacken(t)) == Inorder(t)
  {
  }

  /** Case 4 ends the loop: the whole tree is red-black. */
  lemma EraseLast(m: Mem, k: Context, d: Side, t: Tree, p: Node, cp: Color, b: Tree, w: Node, f: Tree)
    returns (t': Tree)
    requires Closed(m) && Focus(m, k, Mk(d, t, p, cp, Mk(d, b, w, Black, f)))
    requires Sound(t) && RootColor(t) == Black && Sound(Mk(d, b, w, Black, f)) && f.Fork? && f.color == Red
    requires SoundContext(In(k, d, p, cp, Mk(d, b, w, Black, f)), BlackHeight(t) + 1)
    ensures p in m.at && Child(m, p, d.Other()) == w
    ensures var r := EraseFinish(m, p, w, d);
            r.Some? && Deficit(r.value, Top, t') && r.value.root == Ptr(t')
    ensures Inorder(t') == Inorder(Plug(k, Mk(d, t, p, cp, Mk(d, b, w, Black, f))))
  {
    hide Rotate, Inorder, Mk, EraseFinish;
    EraseCase4(m, k, d, t, p, cp, b, w, f);
    var f' := f.(color := Black);
    var u := Mk(d, Mk(d, t, p, Black, b), w, cp, f');
    var m' := EraseFinish(m, p, w, d).value;
    FocusPlug(m', k, u);
    t' := Plug(k, u);
    SoundCase4(k, d, t, p, cp, b, w, f);
    SoundBlacken(t');
    InorderPlug(k, u);
    InorderPlug(k, Mk(d, t, p, cp, Mk(d, b, w, Black, f)));
    InorderColor(f, Black);
    InorderMk(d, Mk(d, t, p, Black, b), w, cp, f'); InorderMk(d, Mk(d, t, p, Black, b), w, cp, f);
    InorderRotate(d, t, p, Black, b, w, cp, f, cp, Black);
  }

  lemma EraseCase34(m: Mem, k: Context, d: Side, t: Tree, p: Node, cp: Color, b: Tree, w: Node, f: Tree)
    returns (t': Tree)
    requires Closed(m) && Focus(m, k, Mk(d, t, p, cp, Mk(d, b, w, Black, f)))
    requires Sound(t) && RootColor(t) == Black && Sound(Mk(d, b, w, Black, f))
    requires RootColor(b) == Red && RootColor(f) == Black
    requires SoundContext(In(k, d, p, cp, Mk(d, b, w, Black, f)), BlackHeight(t) + 1)
    ensures p in m.at && Child(m, p, d.Other()) == w
    ensures w in m.at && !(IsBlack(m, Child(m, w, Left)) && IsBlack(m, Child(m, w, Right)))
    ensures var r1 := EraseFarNephew(m, p, w, d);
            r1.1 != null && r1.1 in m.at
            && var r := EraseFinish(r1.0, p, r1.1, d);
               r.Some? && Deficit(r.value, Top, t') && r.value.root == Ptr(t')
    ensures Inorder(t') == Inorder(Plug(k, Mk(d, t, p, cp, Mk(d, b, w, Black, f))))
  {
    hide Focus, Rotate, Inorder, Mk, EraseFinish, EraseFarNephew, Closed, Plug;
    var x, n, y := Sub(b, d), b.node, Sub(b, d.Other());
    var s := Mk(d, b, w, Black, f);
    SubMk(b, d);
    SoundMk(d, b, w, Black, f);
    SoundMk(d, x, n, Red, y);
    EraseCase3(m, k, d, t, p, cp, x, n, y, w, f);
    var f' := Mk(d, y, w, Red, f);
    MkRoot(d, y, w, Red, f);
    SoundMk(d, y, w, Red, f);
    SoundMk(d, x, n, Black, f');
    t' := EraseLast(EraseFarNephew(m, p, w, d).0, k, d, t, p, cp, x, n, f');
    InorderRotate(d, x, n, Red, y, w, Black, f, Black, Red);
    InorderMk(d, t, p, cp, s); InorderMk(d, t, p, cp, Mk(d, x, n, Black, f'));
    InorderPlug(k, Mk(d, t, p, cp, s)); InorderPlug(k, Mk(d, t, p, cp, Mk(d, x, n, Black, f')));
  }

  lemma EraseBlackSiblingSound(m: Mem, k: Context, d: Side, t: Tree, p: Node, cp: Color, s: Tree)
    returns (k': Context, t': Tree)
    requires Closed(m) && Focus(m, In(k, d, p, cp, s), t)
    requires Sound(t) && RootColor(t) == Black && RootColor(s) == Black
    requires SoundContext(In(k, d, p, cp, s), BlackHeight(t) + 1)
    ensures s.Fork? && p in m.at && Child(m, p, d.Other()) == s.node
    ensures var r := EraseBlackSibling(m, p, s.node, d);
            r.Some? && Deficit(r.value.0, k', t') && r.value.1 == Ptr(t') && r.value.2 == ContextPtr(k')
    ensures k' == Top || (k' == k && t'.Fork? && t'.color == cp)
    ensures Inorder(Plug(k', t')) == Inorder(Plug(k, Mk(d, t, p, cp, s)))
  {
    hide Focus, Rotate, Inorder, Mk, EraseFinish, Closed, Deficit, Plug;
    var b, w, f := Sub(s, d), s.node, Sub(s, d.Other());
    SubMk(s, d);
    SoundMk(d, b, w, Black, f);
    FocusUp(m, k, d, p, cp, s, t);
    FocusSibling(m, k, d, t, p, cp, s);
    SiblingReads(m, In(k, d.Other(), p, cp, t), d, b, w, Black, f);
    if RootColor(b) == Black && RootColor(f) == Black {
      t' := EraseCase2(m, k, d, t, p, cp, s);
      k' := k;
      InorderPlug(k, Mk(d, t, p, cp, s)); InorderPlug(k, t');
    } else if RootColor(f) == Black {
      t' := EraseCase34(m, k, d, t, p, cp, b, w, f);
      k' := Top;
      PlugTop(t');
    } else {
      t' := EraseLast(m, k, d, t, p, cp, b, w, f);
      k' := Top;
      PlugTop(t');
    }
  }

  lemma EraseStepSound(m: Mem, k: Context, t: Tree) returns (k': Context, t': Tree)
    requires Deficit(m, k, t) && k.In? && RootColor(t) == Black
    ensures k.node in m.at
    ensures var r := EraseStep(m, k.node, k.d);
            r.Some? && Advance(r.value.0, k, k', t', r.value.1, r.value.2)
    ensures Inorder(Plug(k', t')) == Inorder(Plug(k, t))
  {
    hide Focus, Rotate, Inorder, Mk, EraseBlackSibling, EraseRedSibling, Closed;
    var d, p, s, up := k.d, k.node, k.sibling, k.up;
    assert Blacken(t) == t;
    FocusUp(m, up, d, p, k.color, s, t);
    FocusNeighbours(m, k, t);
    if s.color == Red {
      var b, w, c := Sub(s, d), s.node, Sub(s, d.Other());
      SubMk(s, d);
      SoundMk(d, b, w, Red, c);
      EraseCase1(m, up, d, t, p, b, w, c);
      var r := EraseRedSibling(m, p, w, d);
      var j := In(up, d, w, Black, c);
      var u := Mk(d, t, p, Red, b);
      FocusUp(r.0, up, d, w, Black, c, u);
      FocusUp(r.0, j, d, p, Red, b, t);
      k', t' := EraseBlackSiblingSound(r.0, j, d, t, p, Red, b);
      InorderRotate(d, t, p, Red, b, w, Black, c, Black, Red);
      InorderPlug(up, Mk(d, t, p, k.color, s));
      InorderPlug(up, Mk(d, u, w, Black, c));
    } else {
      RedSiblingSkipped(m, p, s.node, d);
      k', t' := EraseBlackSiblingSound(m, up, d, t, p, k.color, s);
    }
  }

  lemma RedSiblingSkipped(m: Mem, p: Node, s: Node, d: Side)
    requires Closed(m) && p in m.at && Child(m, p, d.Other()) == s && m.at[s].color == Black
    ensures EraseRedSibling(m, p, s, d) == (m, s)
  {
  }

  /* ---- The loop ---- */

  /** The code's test `child == parent->left` finds the side of the hole, even for a NULL child. */
  lemma EraseSide(m: Mem, k: Context, t: Tree)
    requires Deficit(m, k, t) && k.In?
    ensures k.node in m.at && (Ptr(t) == m.at[k.node].left <==> k.d == Left)
    ensures Known(m, Ptr(t)) && IsBlack(m, Ptr(t)) == (RootColor(t) == Black)
    ensures m.root != Ptr(t)
  {
    FocusNeighbours(m, k, t);
    FocusPlug(m, k, t);
    PlugRoot(k, t);
    DistinctRoot(m, k, t);
  }

  /** The node at the bottom of a context is the root of the tree. */
  function Bottom(k: Context): Node
    requires k.In?
  {
    if k.up.Top? then k.node else Bottom(k.up)
  }

  lemma {:induction false} PlugRoot(k: Context, t: Tree)
    requires k.In?
    ensures Plug(k, t).Fork? && Plug(k, t).node == Bottom(k) && Bottom(k) in ContextNodes(k)
    decreases k
  {
    var u := Mk(k.d, t, k.node, k.color, k.sibling);
    MkRoot(k.d, t, k.node, k.color, k.sibling);
    if k.up.In? {
      PlugRoot(k.up, u);
    }
  }

  lemma DistinctRoot(m: Mem, k: Context, t: Tree)
    requires Focus(m, k, t) && k.In?
    ensures Bottom(k) != Ptr(t)
  {
    PlugRoot(k, t);
  }

  lemma {:induction false} EraseFixupSound(m: Mem, k: Context, t: Tree, fuel: nat) returns (m': Mem, t': Tree)
    requires Deficit(m, k, t)
    requires RootColor(t) == Red || fuel >= Depth(k)
    ensures Known(m, Ptr(t)) && Known(m, ContextPtr(k))
    ensures EraseFixup(m, Ptr(t), ContextPtr(k), fuel) == Some(Some(m'))
    ensures Closed(m') && m'.at.Keys == m.at.Keys && Focus(m', Top, t') && RedBlack(t')
    ensures Inorder(t') == Inorder(Plug(k, t))
    decreases fuel, RootColor(t) == Black
  {
    hide Focus, Rotate, Inorder, Mk, EraseStep, Plug;
    if k.In? && RootColor(t) == Black {
      EraseSide(m, k, t);
      var k1, t1 := EraseStepSound(m, k, t);
      var r := EraseStep(m, k.node, k.d).value;
      m', t' := EraseFixupSound(r.0, k1, t1, fuel - 1);
    } else {
      m', t' := EraseBlacken(m, k, t, fuel);
    }
  }

  /** Leaving the loop: the child, when there is one, becomes black. */
  lemma EraseBlacken(m: Mem, k: Context, t: Tree, fuel: nat) returns (m': Mem, t': Tree)
    requires Deficit(m, k, t) && (k.Top? || RootColor(t) == Red)
    ensures Known(m, Ptr(t)) && Known(m, ContextPtr(k))
    ensures EraseFixup(m, Ptr(t), ContextPtr(k), fuel) == Some(Some(m'))
    ensures Closed(m') && m'.at.Keys == m.at.Keys && Focus(m', Top, t') && RedBlack(t')
    ensures Inorder(t') == Inorder(Plug(k, t))
  {
    hide Rotate, Inorder, Mk, EraseStep, Plug;
    if k.In? {
      EraseSide(m, k, t);
    }
    var u := Blacken(t);
    SoundPlug(k, u);
    InorderPlug(k, t); InorderPlug(k, u);
    if t.Leaf? {
      m' := m;
    } else {
      FocusColor(m, k, t, Black);
      InorderColor(t, Black);
      m' := SetColor(m, t.node, Black);
    }
    FocusPlug(m', k, u);
    t' := Plug(k, u);
  }
}
