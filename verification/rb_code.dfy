/** The routines of structure/rbtree.h on node objects, each proved against its memory function. */
module RbCode {
  import opened Options
  import opened Bits
  import opened RbMemory
  import opened RbTree
  import opened RbInsert
  import opened RbUnlink
  import opened RbStale
  import opened RbOrder

  /** rbtree_root_t. `shape` is the tree the nodes form. */
  class Root {
    var root: Node?
    ghost var shape: Tree

    /** The fields of the nodes in `s`. */
    ghost function Snap(s: set<Node>): Mem
      reads this`root, s
    {
      Mem(root, map x | x in s :: Cell(x.parent, x.left, x.right, x.color))
    }

    constructor ()
      ensures Valid() && Contents() == []
    {
      root, shape := null, Leaf;
    }

    /* The stores. `s` is the footprint whose memory they are described on. */

    method SetLeft(x: Node, y: Node?, ghost s: set<Node>)
      requires x in s
      modifies x`left
      ensures x.left == y && Snap(s).at.Keys == s && Snap(s) == SetChild(old(Snap(s)), x, Left, y)
    {
      x.left := y;
    }

    method SetRight(x: Node, y: Node?, ghost s: set<Node>)
      requires x in s
      modifies x`right
      ensures x.right == y && Snap(s).at.Keys == s && Snap(s) == SetChild(old(Snap(s)), x, Right, y)
    {
      x.right := y;
    }

    method SetParent(x: Node, p: Node?, ghost s: set<Node>)
      requires x in s
      modifies x`parent
      ensures x.parent == p && Snap(s).at.Keys == s && Snap(s) == RbMemory.SetParent(old(Snap(s)), x, p)
    {
      x.parent := p;
    }

    method SetColor(x: Node, c: Color, ghost s: set<Node>)
      requires x in s
      modifies x`color
      ensures x.color == c && Snap(s).at.Keys == s && Snap(s) == RbMemory.SetColor(old(Snap(s)), x, c)
    {
      x.color := c;
    }

    method SetRoot(y: Node?, ghost s: set<Node>)
      modifies this`root
      ensures root == y && Snap(s) == old(Snap(s)).(root := y)
      ensures Closed(old(Snap(s))) && Known(old(Snap(s)), y) ==> Closed(Snap(s))
    {
      root := y;
    }

    /** What the routines read, in terms of the memory. */
    lemma Reads(s: set<Node>, x: Node)
      requires x in s && Closed(Snap(s))
      ensures Snap(s).at.Keys == s && Snap(s).at[x] == Cell(x.parent, x.left, x.right, x.color)
      ensures x.parent != null ==> x.parent in s
      ensures x.left != null ==> x.left in s
      ensures x.right != null ==> x.right in s
      ensures root != null ==> root in s
    {
      assert Known(Snap(s), Snap(s).at[x].left) && Known(Snap(s), Snap(s).at[x].parent);
      assert Known(Snap(s), Snap(s).at[x].right);
    }

    /** `if (p) { if (p->left == x) p->left = y; else p->right = y; } else root = y;` */
    method RelinkLeft(p: Node?, x: Node, y: Node?, ghost s: set<Node>)
      requires Closed(Snap(s)) && Known(Snap(s), p) && Known(Snap(s), y)
      modifies this`root, s
      ensures Snap(s) == Relink(old(Snap(s)), p, Left, x, y)
    {
      hide Snap, Closed, SetChild;
      RootReads(s);
      if p == null {
        SetRoot(y, s);
      } else {
        Reads(s, p);
        if p.left == x {
          SetLeft(p, y, s);
        } else {
          SetRight(p, y, s);
        }
      }
    }

    /** `if (p) { if (p->right == x) p->right = y; else p->left = y; } else root = y;` */
    method RelinkRight(p: Node?, x: Node, y: Node?, ghost s: set<Node>)
      requires Closed(Snap(s)) && Known(Snap(s), p) && Known(Snap(s), y)
      modifies this`root, s
      ensures Snap(s) == Relink(old(Snap(s)), p, Right, x, y)
    {
      hide Snap, Closed, SetChild;
      RootReads(s);
      if p == null {
        SetRoot(y, s);
      } else {
        Reads(s, p);
        if p.right == x {
          SetRight(p, y, s);
        } else {
          SetLeft(p, y, s);
        }
      }
    }

    method RotateLeft(node: Node, ghost s: set<Node>)
      requires node in s && Closed(Snap(s)) && node.right != null
      modifies this`root, s
      ensures Snap(s) == Rotate(old(Snap(s)), node, Left)
    {
      hide Snap, Closed, SetChild, RbMemory.SetParent, Relink;
      Reads(s, node);
      var right := node.right;
      var parent := node.parent;
      Reads(s, right);
      SetRight(node, right.left, s);
      Reads(s, right);
      if right.left != null {
        SetParent(right.left, node, s);
      }
      SetParent(right, parent, s);
      RelinkLeft(parent, node, right, s);
      SetLeft(right, node, s);
      SetParent(node, right, s);
    }

    method RotateRight(node: Node, ghost s: set<Node>)
      requires node in s && Closed(Snap(s)) && node.left != null
      modifies this`root, s
      ensures Snap(s) == Rotate(old(Snap(s)), node, Right)
    {
      hide Snap, Closed, SetChild, RbMemory.SetParent, Relink;
      Reads(s, node);
      var left := node.left;
      var parent := node.parent;
      Reads(s, left);
      SetLeft(node, left.right, s);
      Reads(s, left);
      if left.right != null {
        SetParent(left.right, node, s);
      }
      SetParent(left, parent, s);
      RelinkRight(parent, node, left, s);
      SetRight(left, node, s);
      SetParent(node, left, s);
    }

    /* ---- Insertion ---- */

    method InsertFixupLeft(node: Node, ghost s: set<Node>) returns (next: Node?)
      requires node in s && Closed(Snap(s)) && InsertStep(Snap(s), node, Left).Some?
      modifies this`root, s
      ensures InsertStep(old(Snap(s)), node, Left) == Some((Snap(s), next))
    {
      hide Snap, Closed, SetChild, RbMemory.SetParent, RbMemory.SetColor, Rotate, InsertTail;
      Reads(s, node);
      var parent := node.parent;
      Reads(s, parent);
      var grand := parent.parent;
      Reads(s, grand);
      var uncle := grand.right;
      if uncle != null {
        Reads(s, uncle);
      }
      if uncle != null && uncle.color == Red {
        SetColor(parent, Black, s);
        SetColor(uncle, Black, s);
        SetColor(grand, Red, s);
        return grand;
      }
      var n := node;
      if node == parent.right {
        n := parent;
        RotateLeft(parent, s);
      }
      InsertTailLeft(n, s);
      next := null;
    }

    /** Lines 178-185. */
    method InsertTailLeft(node: Node, ghost s: set<Node>)
      requires node in s && Closed(Snap(s)) && InsertTail(Snap(s), node, Left).Some?
      modifies this`root, s
      ensures InsertTail(old(Snap(s)), node, Left) == Some((Snap(s), null))
    {
      hide Snap, Closed, RbMemory.SetColor, Rotate;
      Reads(s, node);
      var p := node.parent;
      Reads(s, p);
      var g := p.parent;
      SetColor(p, Black, s);
      SetColor(g, Red, s);
      Reads(s, g);
      RotateRight(g, s);
    }

    method InsertFixupRight(node: Node, ghost s: set<Node>) returns (next: Node?)
      requires node in s && Closed(Snap(s)) && InsertStep(Snap(s), node, Right).Some?
      modifies this`root, s
      ensures InsertStep(old(Snap(s)), node, Right) == Some((Snap(s), next))
    {
      hide Snap, Closed, SetChild, RbMemory.SetParent, RbMemory.SetColor, Rotate, InsertTail;
      Reads(s, node);
      var parent := node.parent;
      Reads(s, parent);
      var grand := parent.parent;
      Reads(s, grand);
      var uncle := grand.left;
      if uncle != null {
        Reads(s, uncle);
      }
      if uncle != null && uncle.color == Red {
        SetColor(parent, Black, s);
        SetColor(uncle, Black, s);
        SetColor(grand, Red, s);
        return grand;
      }
      var n := node;
      if node == parent.left {
        n := parent;
        RotateRight(parent, s);
      }
      InsertTailRight(n, s);
      next := null;
    }

    /** Lines 209-216. */
    method InsertTailRight(node: Node, ghost s: set<Node>)
      requires node in s && Closed(Snap(s)) && InsertTail(Snap(s), node, Right).Some?
      modifies this`root, s
      ensures InsertTail(old(Snap(s)), node, Right) == Some((Snap(s), null))
    {
      hide Snap, Closed, RbMemory.SetColor, Rotate;
      Reads(s, node);
      var p := node.parent;
      Reads(s, p);
      var g := p.parent;
      SetColor(p, Black, s);
      SetColor(g, Red, s);
      Reads(s, g);
      RotateLeft(g, s);
    }

    method InsertFixup(node: Node, ghost s: set<Node>, ghost fuel: nat)
      requires node in s && Closed(Snap(s))
      requires RbMemory.InsertFixup(Snap(s), node, fuel).Some?
      requires RbMemory.InsertFixup(Snap(s), node, fuel).value.Some?
      modifies this`root, s
      ensures RbMemory.InsertFixup(old(Snap(s)), node, fuel) == Some(Some(Snap(s)))
    {
      hide Snap, Closed, RbMemory.SetColor, InsertStep;
      ghost var f := fuel;
      ghost var m := Snap(s);
      var n: Node? := node;
      Reads(s, node);
      while n != null && n.parent != null && n.parent.color == Red
        invariant n != null ==> n in s && (n.parent != null ==> n.parent in s)
        invariant Closed(Snap(s)) && Snap(s).at.Keys == s
        invariant RbMemory.InsertFixup(Snap(s), n, f) == RbMemory.InsertFixup(m, node, fuel)
        decreases f
      {
        Reads(s, n);
        var parent := n.parent;
        Reads(s, parent);
        Reads(s, parent.parent);
        if parent == parent.parent.left {
          n := InsertFixupLeft(n, s);
        } else {
          n := InsertFixupRight(n, s);
        }
        f := f - 1;
        if n != null {
          Reads(s, n);
        }
      }
      if n != null {
        Reads(s, n);
        if n.parent != null {
          Reads(s, n.parent);
        }
      }
      RootReads(s);
      SetColor(root, Black, s);
    }

    lemma RootReads(s: set<Node>)
      requires Closed(Snap(s))
      ensures Snap(s).at.Keys == s && Snap(s).root == root && (root != null ==> root in s)
    {
    }

    /** The nodes form the ghost shape, a red-black tree in key order. */
    ghost predicate Valid()
      reads this, Nodes(shape)
    {
      var m := Snap(Nodes(shape));
      Closed(m) && Focus(m, Top, shape) && RedBlack(shape) && Sorted(Inorder(shape))
    }

    /** The abstract value: the nodes in key order. */
    ghost function Contents(): seq<Node>
      reads this`shape
    {
      Inorder(shape)
    }

    /** The focus, as the code reads it. */
    lemma FocusReads(s: set<Node>, k: Context, t: Tree)
      requires Closed(Snap(s)) && Focus(Snap(s), k, t)
      ensures k.Top? ==> root == Ptr(t)
      ensures t.Fork? ==> t.node in s && t.node.parent == ContextPtr(k)
      ensures t.Fork? ==> t.node.left == Ptr(t.left) && t.node.right == Ptr(t.right)
      ensures k.In? ==> k.node in s && (if k.d == Left then k.node.left else k.node.right) == Ptr(t)
      ensures k.In? && t.Fork? ==> (if k.d == Left then k.node.right else k.node.left) != t.node
      ensures k.In? ==> Focus(Snap(s), k.up, Mk(k.d, t, k.node, k.color, k.sibling))
    {
      var m := Snap(s);
      if t.Fork? {
        ForkReads(m, k, t);
      }
      if k.In? {
        FocusNeighbours(m, k, t);
      }
    }

    /** The memory the search leaves to Attach: the tree, and the new node with its links cleared. */
    ghost function WithNode(s: set<Node>, node: Node): Mem
      reads this`root, s
    {
      Mem(root, Snap(s).at[node := Cell(null, null, null, Red)])
    }

    /** Lines 260-264. */
    method Link(node: Node, parent: Node?, side: Side, ghost s: set<Node>)
      requires Closed(Snap(s)) && node !in s && (parent != null ==> parent in s)
      modifies this`root, node, s
      ensures Known(old(WithNode(s, node)), parent)
      ensures Snap(s + {node}) == Attach(old(WithNode(s, node)), node, parent, side)
    {
      Enter(node, parent, s);
      hide Snap, WithNode, Closed;
      if parent == null {
        SetRoot(node, s + {node});
      } else if side == Left {
        SetLeft(parent, node, s + {node});
      } else {
        SetRight(parent, node, s + {node});
      }
    }

    /** Lines 260-263. */
    method Enter(node: Node, parent: Node?, ghost s: set<Node>)
      requires node !in s
      modifies node
      ensures Snap(s + {node}).at.Keys == s + {node}
      ensures Snap(s + {node})
              == old(WithNode(s, node)).(at := old(WithNode(s, node)).at[node := Cell(parent, null, null, Red)])
    {
      node.parent := parent;
      node.left := null;
      node.right := null;
      node.color := Red;
    }

    /** Attaches the node at the place the search found, and repairs. */
    method InsertHere(node: Node, parent: Node?, side: Side, ghost k: Context)
      requires Valid() && node !in Nodes(shape) && shape == Plug(k, Leaf) && Focus(Snap(Nodes(shape)), k, Leaf)
      requires parent == ContextPtr(k) && side == (if k.In? then k.d else Left) && Between(k, node.key)
      modifies this, node, Nodes(shape)
      ensures Valid()
      ensures old(Contents()) == Before(k) + After(k) && Contents() == Before(k) + [node] + After(k)
    {
      hide Focus, Plug, Closed, RedBlack, Between, Sorted, Inorder, Snap, Nodes, Attach, RbMemory.InsertFixup;
      ghost var s := Nodes(shape);
      ghost var m := WithNode(s, node);
      WithNodeFocus(s, node, k);
      ghost var m', t := InsertSound(m, k, node);
      Link(node, parent, side, s);
      SnapKeys(s + {node});
      InsertFixup(node, s + {node}, Depth(k));
      SameNodes(t, s, Before(k), node, After(k), shape);
      shape := t;
    }

    lemma SnapKeys(s: set<Node>)
      ensures Snap(s).at.Keys == s
    {
    }

    lemma WithNodeFocus(s: set<Node>, node: Node, k: Context)
      requires Closed(Snap(s)) && Focus(Snap(s), k, Leaf) && node !in s && s == Nodes(Plug(k, Leaf))
      ensures var m := WithNode(s, node);
              Closed(m) && Focus(m, k, Leaf) && node in m.at && node !in ContextNodes(k) && m.at.Keys == s + {node}
      ensures ContextPtr(k) != null ==> ContextPtr(k) in s
    {
      PlugNodes(k, Leaf);
      FocusFrame(Snap(s), WithNode(s, node), k, Leaf);
    }

    /** rbtree_insert. */
    method Insert(node: Node) returns (r: Node?)
      requires Valid()
      modifies this, node, Nodes(shape)
      ensures Valid()
      ensures r == null <==> node.key in Keys(old(Contents()))
      ensures r == null ==> shape == old(shape) && Snap(Nodes(shape)) == old(Snap(Nodes(shape)))
      ensures r != null ==> r == node && exists a, b ::
                old(Contents()) == a + b && Contents() == a + [node] + b
    {
      hide Focus, Plug, Snap, Closed, RedBlack, Between, Sorted, Inorder, Keys, Nodes;
      BetweenTop(node.key);
      ghost var s := Nodes(shape);
      ghost var m := Snap(s);
      ghost var k, t := Top, shape;
      var parent: Node?, side, cur := null, Left, root;
      PlugTop(shape);
      FocusReads(s, k, t);
      while cur != null
        invariant Focus(m, k, t) && Plug(k, t) == shape && cur == Ptr(t)
        invariant parent == ContextPtr(k) && side == (if k.In? then k.d else Left)
        invariant Between(k, node.key)
        modifies {}
        decreases t
      {
        parent := cur;
        FocusReads(s, k, t);
        if node.key < parent.key {
          GoLeft(k, t, node.key);
          k, t := In(k, Left, t.node, t.color, t.right), t.left;
          FocusUp(m, k.up, Left, k.node, k.color, k.sibling, t);
          side, cur := Left, parent.left;
        } else if node.key > parent.key {
          GoRight(k, t, node.key);
          k, t := In(k, Right, t.node, t.color, t.left), t.right;
          FocusUp(m, k.up, Right, k.node, k.color, k.sibling, t);
          side, cur := Right, parent.right;
        } else {
          KeyFound(k, t);
          return null;
        }
      }
      NotFound(k, node.key);
      KeyAbsent(shape, node);
      InsertHere(node, parent, side, k);
      r := node;
    }

    /* ---- Erasing ---- */

    predicate BlackOrNull(x: Node?)
      reads x
    {
      x == null || x.color == Black
    }

    /** `ok` is false where the C code would dereference NULL. */
    method EraseFixupLeft(parent: Node, ghost s: set<Node>) returns (ok: bool, child: Node?, up: Node?)
      requires parent in s && Closed(Snap(s))
      modifies this`root, s
      ensures ok <==> EraseStep(old(Snap(s)), parent, Left).Some?
      ensures ok ==> EraseStep(old(Snap(s)), parent, Left) == Some((Snap(s), child, up))
    {
      hide Snap, Closed, RbMemory.SetColor, Rotate, EraseBlackSibling;
      Reads(s, parent);
      var sibling := parent.right;
      if sibling == null {
        return false, null, null;
      }
      Reads(s, sibling);
      if sibling.color == Red {
        SetColor(sibling, Black, s);
        SetColor(parent, Red, s);
        Reads(s, parent);
        RotateLeft(parent, s);
        Reads(s, parent);
        sibling := parent.right;
      }
      if sibling == null {
        return false, null, null;
      }
      ok, child, up := EraseBlackSiblingLeft(parent, sibling, s);
    }

    /** Lines 285-310. */
    method EraseBlackSiblingLeft(parent: Node, w: Node, ghost s: set<Node>) returns (ok: bool, child: Node?, up: Node?)
      requires parent in s && Closed(Snap(s)) && Child(Snap(s), parent, Right) == w
      modifies this`root, s
      ensures ok <==> EraseBlackSibling(old(Snap(s)), parent, w, Left).Some?
      ensures ok ==> EraseBlackSibling(old(Snap(s)), parent, w, Left) == Some((Snap(s), child, up))
    {
      hide Snap, Closed, RbMemory.SetColor, EraseFinish, EraseFarNephew;
      Reads(s, parent);
      Reads(s, w);
      if w.left != null { Reads(s, w.left); }
      if w.right != null { Reads(s, w.right); }
      if BlackOrNull(w.left) && BlackOrNull(w.right) {
        SetColor(w, Red, s);
        Reads(s, parent);
        return true, parent, parent.parent;
      }
      var sibling := FarNephewLeft(parent, w, s);
      if sibling == null {
        return false, null, null;
      }
      ok := FinishLeft(parent, sibling, s);
      if ok {
        RootReads(s);
      }
      return ok, root, null;
    }

    /** Lines 295-302. */
    method FarNephewLeft(parent: Node, w: Node, ghost s: set<Node>) returns (sibling: Node?)
      requires parent in s && Closed(Snap(s)) && Child(Snap(s), parent, Right) == w && w in s
      requires !(IsBlack(Snap(s), Child(Snap(s), w, Left)) && IsBlack(Snap(s), Child(Snap(s), w, Right)))
      modifies this`root, s
      ensures EraseFarNephew(old(Snap(s)), parent, w, Left) == (Snap(s), sibling)
    {
      hide Snap, Closed, RbMemory.SetColor, Rotate;
      sibling := w;
      Reads(s, w);
      if w.left != null { Reads(s, w.left); }
      if w.right != null { Reads(s, w.right); }
      if BlackOrNull(w.right) {
        SetColor(w.left, Black, s);
        SetColor(w, Red, s);
        Reads(s, w);
        RotateRight(w, s);
        Reads(s, parent);
        sibling := parent.right;
      }
    }

    /** Lines 304-309. */
    method FinishLeft(parent: Node, sibling: Node, ghost s: set<Node>) returns (ok: bool)
      requires parent in s && Closed(Snap(s)) && Child(Snap(s), parent, Right) == sibling
      modifies this`root, s
      ensures ok <==> EraseFinish(old(Snap(s)), parent, sibling, Left).Some?
      ensures ok ==> EraseFinish(old(Snap(s)), parent, sibling, Left) == Some(Snap(s))
    {
      hide Snap, Closed, RbMemory.SetColor, Rotate;
      Reads(s, parent);
      SetColor(sibling, parent.color, s);
      SetColor(parent, Black, s);
      Reads(s, sibling);
      if sibling.right == null {
        return false;
      }
      SetColor(sibling.right, Black, s);
      Reads(s, parent);
      RotateLeft(parent, s);
      ok := true;
    }

    method EraseFixupRight(parent: Node, ghost s: set<Node>) returns (ok: bool, child: Node?, up: Node?)
      requires parent in s && Closed(Snap(s))
      modifies this`root, s
      ensures ok <==> EraseStep(old(Snap(s)), parent, Right).Some?
      ensures ok ==> EraseStep(old(Snap(s)), parent, Right) == Some((Snap(s), child, up))
    {
      hide Snap, Closed, RbMemory.SetColor, Rotate, EraseBlackSibling;
      Reads(s, parent);
      var sibling := parent.left;
      if sibling == null {
        return false, null, null;
      }
      Reads(s, sibling);
      if sibling.color == Red {
        SetColor(sibling, Black, s);
        SetColor(parent, Red, s);
        Reads(s, parent);
        RotateRight(parent, s);
        Reads(s, parent);
        sibling := parent.left;
      }
      if sibling == null {
        return false, null, null;
      }
      ok, child, up := EraseBlackSiblingRight(parent, sibling, s);
    }

    /** Lines 326-348. */
    method EraseBlackSiblingRight(parent: Node, w: Node, ghost s: set<Node>) returns (ok: bool, child: Node?, up: Node?)
      requires parent in s && Closed(Snap(s)) && Child(Snap(s), parent, Left) == w
      modifies this`root, s
      ensures ok <==> EraseBlackSibling(old(Snap(s)), parent, w, Right).Some?
      ensures ok ==> EraseBlackSibling(old(Snap(s)), parent, w, Right) == Some((Snap(s), child, up))
    {
      hide Snap, Closed, RbMemory.SetColor, EraseFinish, EraseFarNephew;
      Reads(s, parent);
      Reads(s, w);
      if w.left != null { Reads(s, w.left); }
      if w.right != null { Reads(s, w.right); }
      if BlackOrNull(w.left) && BlackOrNull(w.right) {
        SetColor(w, Red, s);
        Reads(s, parent);
        return true, parent, parent.parent;
      }
      var sibling := FarNephewRight(parent, w, s);
      if sibling == null {
        return false, null, null;
      }
      ok := FinishRight(parent, sibling, s);
      if ok {
        RootReads(s);
      }
      return ok, root, null;
    }

    /** Lines 335-341. */
    method FarNephewRight(parent: Node, w: Node, ghost s: set<Node>) returns (sibling: Node?)
      requires parent in s && Closed(Snap(s)) && Child(Snap(s), parent, Left) == w && w in s
      requires !(IsBlack(Snap(s), Child(Snap(s), w, Left)) && IsBlack(Snap(s), Child(Snap(s), w, Right)))
      modifies this`root, s
      ensures EraseFarNephew(old(Snap(s)), parent, w, Right) == (Snap(s), sibling)
    {
      hide Snap, Closed, RbMemory.SetColor, Rotate;
      sibling := w;
      Reads(s, w);
      if w.left != null { Reads(s, w.left); }
      if w.right != null { Reads(s, w.right); }
      if BlackOrNull(w.left) {
        SetColor(w.right, Black, s);
        SetColor(w, Red, s);
        Reads(s, w);
        RotateLeft(w, s);
        Reads(s, parent);
        sibling := parent.left;
      }
    }

    /** Lines 342-347. */
    method FinishRight(parent: Node, sibling: Node, ghost s: set<Node>) returns (ok: bool)
      requires parent in s && Closed(Snap(s)) && Child(Snap(s), parent, Left) == sibling
      modifies this`root, s
      ensures ok <==> EraseFinish(old(Snap(s)), parent, sibling, Right).Some?
      ensures ok ==> EraseFinish(old(Snap(s)), parent, sibling, Right) == Some(Snap(s))
    {
      hide Snap, Closed, RbMemory.SetColor, Rotate;
      Reads(s, parent);
      SetColor(sibling, parent.color, s);
      SetColor(parent, Black, s);
      Reads(s, sibling);
      if sibling.left == null {
        return false;
      }
      SetColor(sibling.left, Black, s);
      Reads(s, parent);
      RotateRight(parent, s);
      ok := true;
    }

    /** The loop runs the memory function step by step; `fuel` only bounds it. */
    method EraseFixup(child: Node?, parent: Node?, ghost s: set<Node>, ghost fuel: nat) returns (ok: bool)
      requires Closed(Snap(s)) && Known(Snap(s), child) && Known(Snap(s), parent)
      requires RbMemory.EraseFixup(Snap(s), child, parent, fuel).Some?
      modifies this`root, s
      ensures ok <==> RbMemory.EraseFixup(old(Snap(s)), child, parent, fuel).value.Some?
      ensures ok ==> RbMemory.EraseFixup(old(Snap(s)), child, parent, fuel) == Some(Some(Snap(s)))
    {
      hide Snap, Closed, RbMemory.SetColor, EraseStep;
      ghost var f := fuel;
      ghost var m := Snap(s);
      var c, p := child, parent;
      RootReads(s);
      while true
        invariant Closed(Snap(s)) && Snap(s).at.Keys == s && Snap(s).root == root
        invariant Known(Snap(s), c) && Known(Snap(s), p)
        invariant RbMemory.EraseFixup(Snap(s), c, p, f) == RbMemory.EraseFixup(m, child, parent, fuel)
        decreases f
      {
        if c != null {
          Reads(s, c);
        }
        if c == root || !BlackOrNull(c) {
          break;
        }
        if p == null {
          return false;
        }
        Reads(s, p);
        if c == p.left {
          ok, c, p := EraseFixupLeft(p, s);
        } else {
          ok, c, p := EraseFixupRight(p, s);
        }
        if !ok {
          return false;
        }
        f := f - 1;
        RootReads(s);
      }
      if c != null {
        SetColor(c, Black, s);
      }
      ok := true;
    }

    /** Lines 390-397 and 421-432: `x` leaves its place to `child`. */
    method SpliceOut(x: Node, child: Node?, ghost s: set<Node>)
      requires x in s && Closed(Snap(s)) && Known(Snap(s), child)
      modifies this`root, s
      ensures Snap(s) == Splice(old(Snap(s)), x, child)
    {
      hide Snap, Closed, Relink, RbMemory.SetParent;
      Reads(s, x);
      var parent := x.parent;
      if child != null {
        SetParent(child, parent, s);
      }
      RelinkLeft(parent, x, child, s);
    }

    /** Lines 399-415. */
    method TransplantInto(x: Node, n: Node, ghost s: set<Node>)
      requires x in s && n in s && x != n && Closed(Snap(s))
      modifies this`root, s
      ensures Snap(s) == Transplant(old(Snap(s)), x, n)
    {
      hide Snap, Closed, Relink, SetParentIf, TakeOver;
      Reads(s, x);
      Overwrite(x, n, s);
      Reads(s, x);
      RelinkLeft(x.parent, x, n, s);
      AdoptChildren(x, n, s);
    }

    /** Lines 412-415. */
    method AdoptChildren(x: Node, n: Node, ghost s: set<Node>)
      requires x in s && n in s && Closed(Snap(s))
      modifies s
      ensures x in old(Snap(s)).at
      ensures var m := old(Snap(s)); Known(m, m.at[x].left) && Known(m, m.at[x].right)
      ensures var m := old(Snap(s));
              Snap(s) == SetParentIf(SetParentIf(m, m.at[x].left, n), m.at[x].right, n)
    {
      hide Snap, Closed;
      Reads(s, x);
      if x.left != null {
        SetParent(x.left, n, s);
      }
      Reads(s, x);
      if x.right != null {
        SetParent(x.right, n, s);
      }
    }

    method Overwrite(x: Node, n: Node, ghost s: set<Node>)
      requires x in s && n in s && x != n
      modifies n
      ensures Snap(s).at.Keys == s && Snap(s) == TakeOver(old(Snap(s)), x, n)
    {
      n.parent := x.parent;
      n.left := x.left;
      n.right := x.right;
      n.color := x.color;
    }

    /** A tree held by a larger footprint is held by its own nodes. */
    lemma OwnNodes(s: set<Node>, t: Tree)
      requires Focus(Snap(s), Top, t)
      ensures Focus(Snap(Nodes(t)), Top, t) && Closed(Snap(Nodes(t))) && Nodes(t) <= s
    {
      RepDomain(Snap(s), t, null, Ptr(t));
      FocusFrame(Snap(s), Snap(Nodes(t)), Top, t);
      RepClosed(Snap(Nodes(t)), t, Ptr(t));
    }

    /** Lines 381-385: the leftmost node of the right subtree. */
    method FindSuccessor(node: Node, ghost s: set<Node>, ghost k: Context, ghost t: Tree)
      returns (next: Node, ghost rel: Context, ghost leaf: Tree)
      requires Closed(Snap(s)) && Focus(Snap(s), k, t) && t.Fork? && t.node == node && t.right.Fork?
      ensures LeftPath(rel) && t.right == Plug(rel, leaf)
      ensures leaf.Fork? && leaf.left == Leaf && leaf.node == next && next in s
    {
      hide Snap, Focus, Closed, Plug;
      FocusReads(s, k, t);
      ghost var j := In(k, Right, node, t.color, t.left);
      FocusUp(Snap(s), k, Right, node, t.color, t.left, t.right);
      rel, leaf := Top, t.right;
      PlugTop(leaf);
      next := node.right;
      FocusReads(s, j, leaf);
      while next.left != null
        invariant LeftPath(rel) && t.right == Plug(rel, leaf) && leaf.Fork? && leaf.node == next
        invariant Focus(Snap(s), Append(rel, j), leaf)
        invariant next.left == Ptr(leaf.left) && next in s
        decreases leaf
      {
        hide Snap, Focus, Closed, Plug;
        ghost var x, c, r := leaf.node, leaf.color, leaf.right;
        FocusUp(Snap(s), Append(rel, j), Left, x, c, r, leaf.left);
        PlugIn(rel, Left, x, c, r, leaf.left);
        rel, leaf := In(rel, Left, x, c, r), leaf.left;
        next := next.left;
        FocusReads(s, Append(rel, j), leaf);
      }
    }

    /** Lines 381-415, for a node with two children. */
    method UnlinkTwo(node: Node, ghost s: set<Node>, ghost k: Context, ghost t: Tree)
      returns (child: Node?, parent: Node?, color: Color, ghost gone: Node, ghost rel: Context, ghost leaf: Tree)
      requires Closed(Snap(s)) && Focus(Snap(s), k, t) && t.Fork? && t.node == node && t.left.Fork? && t.right.Fork?
      modifies this`root, s
      ensures LeftPath(rel) && t.right == Plug(rel, leaf) && leaf.Fork? && leaf.left == Leaf && leaf.node == gone
      ensures node in old(Snap(s)).at && gone in old(Snap(s)).at
      ensures Snap(s) == Unlink(old(Snap(s)), node, gone)
      ensures old(Snap(s)).at[gone].right == child && old(Snap(s)).at[gone].parent == parent
      ensures old(Snap(s)).at[gone].color == color
    {
      hide Snap, Focus, Closed, Plug, Splice, Transplant;
      FocusReads(s, k, t);
      var next;
      next, rel, leaf := FindSuccessor(node, s, k, t);
      gone := next;
      SuccessorReads(Snap(s), k, t.left, node, t.color, rel, leaf);
      Reads(s, node);
      Reads(s, next);
      child := next.right;
      parent := next.parent;
      color := next.color;
      SpliceOut(next, child, s);
      TransplantInto(node, next, s);
    }

    /** Lines 418-432, for a node with at most one child. */
    method UnlinkOne(node: Node, ghost s: set<Node>) returns (child: Node?, parent: Node?, color: Color)
      requires Closed(Snap(s)) && node in s && (node.left == null || node.right == null)
      modifies this`root, s
      ensures node in old(Snap(s)).at && child == OnlyChild(old(Snap(s)), node)
      ensures Snap(s) == Unlink(old(Snap(s)), node, node)
      ensures old(Snap(s)).at[node].parent == parent && old(Snap(s)).at[node].color == color
    {
      hide Snap, Closed, Splice, Transplant;
      Reads(s, node);
      child := if node.left != null then node.left else node.right;
      parent := node.parent;
      color := node.color;
      SpliceOut(node, child, s);
    }

    /** rbtree_erase. It takes exactly `node` out of a tree in which the condition holds; otherwise it
        dereferences NULL or does not leave the red-black tree without `node`. */
    method Erase(node: Node) returns (ok: bool)
      requires Valid() && node in Nodes(shape)
      modifies this, Nodes(shape)
      ensures old(EraseOk(Snap(Nodes(shape)), node)) ==> ok && Valid() && Contents() == Minus(old(Contents()), node)
      ensures !old(EraseOk(Snap(Nodes(shape)), node)) ==>
                !ok || !Holds(Snap(old(Nodes(shape))), Minus(old(Contents()), node))
    {
      hide Focus, Plug, Snap, Closed, RedBlack, Sorted, Inorder, Minus, Holds, Nodes, EraseOk, Unlink,
           RbMemory.EraseFixup;
      ghost var s := Nodes(shape);
      ghost var m := Snap(s);
      ghost var k, t := Locate(Top, shape, node);
      PlugTop(shape);
      FocusPlug(m, k, t);
      FocusReads(s, k, t);
      Reads(s, node);
      ghost var fuel, gone := Depth(k), node;
      var child, parent, color;
      if node.left != null && node.right != null {
        ghost var rel, leaf;
        child, parent, color, gone, rel, leaf := UnlinkTwo(node, s, k, t);
        fuel := Depth(k) + Depth(rel) + 2;
        EraseTwoExactly(m, k, t.left, node, t.color, rel, gone, leaf.color, leaf.right, fuel);
      } else {
        child, parent, color := UnlinkOne(node, s);
        EraseOneAlways(m, k, t, fuel);
      }
      EraseReads(m, node, gone, fuel);
      ok := true;
      if color == Black {
        ok := EraseFixup(child, parent, s, fuel);
      }
      assert RbMemory.Erase(m, node, gone, fuel) == Some(if ok then Some(Snap(s)) else None);
      if ok && Holds(Snap(s), Minus(Inorder(shape), node)) {
        SortedMinus(Inorder(shape), node);
        ghost var t' := HeldTree(s, Minus(Inorder(shape), node));
        shape := t';
      }
    }

    lemma HeldTree(s: set<Node>, a: seq<Node>) returns (t: Tree)
      requires Holds(Snap(s), a) && Sorted(a)
      ensures Closed(Snap(Nodes(t))) && Focus(Snap(Nodes(t)), Top, t) && RedBlack(t) && Inorder(t) == a
      ensures Nodes(t) <= s
    {
      t :| Focus(Snap(s), Top, t) && RedBlack(t) && Inorder(t) == a;
      OwnNodes(s, t);
    }

    /* ---- Search and traversal ---- */

    /** rbtree_first. */
    method First() returns (r: Node?)
      requires Valid()
      ensures Valid() && r == RbOrder.First(Contents())
    {
      hide Focus, Snap, Closed, RedBlack, Sorted;
      ghost var k, t := Top, shape;
      ghost var s := Nodes(shape);
      r := null;
      var n := root;
      FocusReads(s, k, t);
      while n != null
        invariant Valid() && Closed(Snap(s)) && Focus(Snap(s), k, t) && n == Ptr(t)
        invariant if t.Fork? then RbOrder.First(Inorder(t)) == RbOrder.First(Contents())
                  else r == RbOrder.First(Contents())
        decreases t
      {
        EndsOf(t);
        FocusReads(s, k, t);
        FocusUp(Snap(s), k, Left, t.node, t.color, t.right, t.left);
        k, t := In(k, Left, t.node, t.color, t.right), t.left;
        r := n;
        n := n.left;
      }
    }

    /** rbtree_last. */
    method Last() returns (r: Node?)
      requires Valid()
      ensures r == RbOrder.Last(Contents())
    {
      hide Focus, Snap, Closed, RedBlack, Sorted;
      ghost var k, t := Top, shape;
      ghost var s := Nodes(shape);
      r := null;
      var n := root;
      FocusReads(s, k, t);
      while n != null
        invariant Closed(Snap(s)) && Focus(Snap(s), k, t) && n == Ptr(t)
        invariant if t.Fork? then RbOrder.Last(Inorder(t)) == RbOrder.Last(Contents())
                  else r == RbOrder.Last(Contents())
        decreases t
      {
        EndsOf(t);
        FocusReads(s, k, t);
        FocusUp(Snap(s), k, Right, t.node, t.color, t.left, t.right);
        k, t := In(k, Right, t.node, t.color, t.left), t.right;
        r := n;
        n := n.right;
      }
    }

    /** rbtree_next. */
    method Next(node: Node) returns (r: Node?)
      requires Valid() && node in Nodes(shape)
      ensures Valid() && r == Successor(Contents(), node)
    {
      hide Focus, Plug, Snap, Closed, RedBlack, Sorted, Inorder, Successor, Predecessor;
      ghost var s := Nodes(shape);
      ghost var k, t := Locate(Top, shape, node);
      PlugTop(shape);
      FocusPlug(Snap(s), k, t);
      FocusReads(s, k, t);
      Neighbours(k, t);
      if node.right != null {
        r := node.right;
        FocusUp(Snap(s), k, Right, t.node, t.color, t.left, t.right);
        k, t := In(k, Right, t.node, t.color, t.left), t.right;
        FocusReads(s, k, t);
        EndsOf(t);
        while r.left != null
          invariant Focus(Snap(s), k, t) && t.Fork? && r == t.node && r.left == Ptr(t.left)
          invariant Inorder(t) != [] && RbOrder.First(Inorder(t)) == Successor(Contents(), node)
          decreases t
        {
          hide Focus, Plug, Snap, Closed, Inorder, Successor;
          EndsOf(t);
          FocusUp(Snap(s), k, Left, t.node, t.color, t.right, t.left);
          k, t := In(k, Left, t.node, t.color, t.right), t.left;
          r := r.left;
          FocusReads(s, k, t);
        }
        EndsOf(t);
      } else {
        InorderLeaf(t.right);
        var n := node;
        r := node.parent;
        while r != null && n == r.right
          invariant Focus(Snap(s), k, t) && t.Fork? && n == t.node && r == ContextPtr(k)
          invariant RbOrder.First(After(k)) == Successor(Contents(), node)
          decreases k
        {
          hide Focus, Plug, Snap, Closed, Inorder, Successor;
          FocusReads(s, k, t);
          t := Mk(k.d, t, k.node, k.color, k.sibling);
          k := k.up;
          n := r;
          FocusReads(s, k, t);
          r := r.parent;
        }
        FocusReads(s, k, t);
      }
    }

    /** rbtree_prev. */
    method Prev(node: Node) returns (r: Node?)
      requires Valid() && node in Nodes(shape)
      ensures r == Predecessor(Contents(), node)
    {
      hide Focus, Plug, Snap, Closed, RedBlack, Sorted, Inorder, Successor, Predecessor;
      ghost var s := Nodes(shape);
      ghost var k, t := Locate(Top, shape, node);
      PlugTop(shape);
      FocusPlug(Snap(s), k, t);
      FocusReads(s, k, t);
      Neighbours(k, t);
      if node.left != null {
        r := node.left;
        FocusUp(Snap(s), k, Left, t.node, t.color, t.right, t.left);
        k, t := In(k, Left, t.node, t.color, t.right), t.left;
        FocusReads(s, k, t);
        EndsOf(t);
        while r.right != null
          invariant Focus(Snap(s), k, t) && t.Fork? && r == t.node && r.right == Ptr(t.right)
          invariant Inorder(t) != [] && RbOrder.Last(Inorder(t)) == Predecessor(Contents(), node)
          decreases t
        {
          hide Focus, Plug, Snap, Closed, Inorder, Predecessor;
          EndsOf(t);
          FocusUp(Snap(s), k, Right, t.node, t.color, t.left, t.right);
          k, t := In(k, Right, t.node, t.color, t.left), t.right;
          r := r.right;
          FocusReads(s, k, t);
        }
        EndsOf(t);
      } else {
        InorderLeaf(t.left);
        var n := node;
        r := node.parent;
        while r != null && n == r.left
          invariant Focus(Snap(s), k, t) && t.Fork? && n == t.node && r == ContextPtr(k)
          invariant RbOrder.Last(Before(k)) == Predecessor(Contents(), node)
          decreases k
        {
          hide Focus, Plug, Snap, Closed, Inorder, Predecessor;
          FocusReads(s, k, t);
          t := Mk(k.d, t, k.node, k.color, k.sibling);
          k := k.up;
          n := r;
          FocusReads(s, k, t);
          r := r.parent;
        }
        FocusReads(s, k, t);
      }
    }

    /** rbtree_for_each_entry: from rbtree_first, by rbtree_next, to the end. */
    method ForEach() returns (visited: seq<Node>)
      requires Valid()
      ensures visited == Contents()
    {
      hide Inorder, Successor, Closed, Focus, RedBlack, Sorted, Snap;
      visited := [];
      var n := First();
      while n != null
        invariant Valid() && |visited| <= |Contents()| && visited == Contents()[..|visited|]
        invariant n == RbOrder.First(Contents()[|visited|..])
        decreases |Contents()| - |visited|
      {
        ghost var i := |visited|;
        ContentsOrder(i);
        visited := visited + [n];
        n := Next(n);
      }
    }

    lemma ContentsOrder(i: nat)
      requires Valid() && i < |Contents()|
      ensures Contents()[i] in Nodes(shape)
      ensures Successor(Contents(), Contents()[i]) == RbOrder.First(Contents()[i + 1..])
    {
      hide Inorder, Nodes, Successor;
      InorderNodes(shape);
      SuccessorAt(Contents(), i);
    }

    /** rbtree_find. `steps` counts the comparisons. */
    method Find(key: int) returns (r: Node?, steps: nat)
      requires Valid()
      ensures r != null ==> r in Contents() && r.key == key
      ensures r == null ==> key !in Keys(Contents())
      ensures Pow2(steps) <= (|Contents()| + 1) * (|Contents()| + 1)
    {
      hide Focus, Plug, Snap, Closed, RedBlack, Sorted, Inorder, Pow2, Keys, Between;
      BetweenTop(key);
      ghost var s := Nodes(shape);
      ghost var k, t := Top, shape;
      var n := root;
      steps := 0;
      FocusReads(s, k, t);
      PlugTop(shape);
      while n != null
        invariant Closed(Snap(s)) && Focus(Snap(s), k, t) && Plug(k, t) == shape && n == Ptr(t)
        invariant Between(k, key) && steps + Height(t) <= Height(shape)
        decreases t
      {
        FocusReads(s, k, t);
        steps := steps + 1;
        if key < n.key {
          GoLeft(k, t, key);
          k, t := In(k, Left, t.node, t.color, t.right), t.left;
          FocusUp(Snap(s), k.up, Left, k.node, k.color, k.sibling, t);
          n := n.left;
        } else if key > n.key {
          GoRight(k, t, key);
          k, t := In(k, Right, t.node, t.color, t.left), t.right;
          FocusUp(Snap(s), k.up, Right, k.node, k.color, k.sibling, t);
          n := n.right;
        } else {
          KeyFound(k, t);
          StepsBound(steps, shape);
          return n, steps;
        }
      }
      NotFound(k, key);
      StepsBound(steps, shape);
      r := null;
    }
  }

  lemma KeyAbsent(t: Tree, x: Node)
    requires x.key !in Keys(Inorder(t))
    ensures x !in Nodes(t)
  {
    hide Inorder, Nodes;
    InorderNodes(t);
  }

  lemma BetweenTop(key: int)
    ensures Between(Top, key)
  {
  }

  lemma StepsBound(steps: nat, t: Tree)
    requires RedBlack(t) && steps <= Height(t)
    ensures Pow2(steps) <= (|Inorder(t)| + 1) * (|Inorder(t)| + 1)
  {
    hide Height, Pow2;
    HeightLog(t);
    Pow2Monotone(steps, Height(t));
  }
}
