/** The memory of an intrusive red-black tree (structure/rbtree.h), as a value.

    A `Mem` records the four fields of every node of a footprint and the root pointer.
    Each C routine has a function here that gives the memory it leaves behind; the
    left-handed and the right-handed copy of a routine are one function with a `Side`.
    `None` stands for a NULL dereference. */
module RbMemory {
  import opened Options

  datatype Color = Red | Black

  datatype Side = Left | Right {
    function Other(): Side {
      if this == Left then Right else Left
    }
  }

  /** rbtree_node_t, together with the key its owner embeds it next to. */
  class Node {
    const key: int
    var parent: Node?
    var left: Node?
    var right: Node?
    var color: Color

    constructor (key: int)
      ensures this.key == key
    {
      this.key := key;
      parent, left, right, color := null, null, null, Red;
    }
  }

  datatype Cell = Cell(parent: Node?, left: Node?, right: Node?, color: Color)

  datatype Mem = Mem(root: Node?, at: map<Node, Cell>)

  /** A pointer that is NULL or names a node of the footprint. */
  predicate Known(m: Mem, p: Node?) {
    p != null ==> p in m.at
  }

  ghost predicate Closed(m: Mem) {
    && Known(m, m.root)
    && forall x <- m.at :: Known(m, m.at[x].parent) && Known(m, m.at[x].left) && Known(m, m.at[x].right)
  }

  function Child(m: Mem, x: Node, d: Side): Node?
    requires x in m.at
  {
    if d == Left then m.at[x].left else m.at[x].right
  }

  function SetChild(m: Mem, x: Node, d: Side, y: Node?): (m': Mem)
    requires x in m.at
    ensures m'.at.Keys == m.at.Keys
    ensures Closed(m) && Known(m, y) ==> Closed(m')
  {
    m.(at := m.at[x := if d == Left then m.at[x].(left := y) else m.at[x].(right := y)])
  }

  function SetParent(m: Mem, x: Node, p: Node?): (m': Mem)
    requires x in m.at
    ensures m'.at.Keys == m.at.Keys
    ensures Closed(m) && Known(m, p) ==> Closed(m')
  {
    m.(at := m.at[x := m.at[x].(parent := p)])
  }

  /** `if (x != NULL) x->parent = p` */
  function SetParentIf(m: Mem, x: Node?, p: Node?): (m': Mem)
    requires Known(m, x)
    ensures m'.at.Keys == m.at.Keys
    ensures Closed(m) && Known(m, p) ==> Closed(m')
  {
    if x == null then m else SetParent(m, x, p)
  }

  function SetColor(m: Mem, x: Node, c: Color): (m': Mem)
    requires x in m.at
    ensures m'.at.Keys == m.at.Keys
    ensures Closed(m) ==> Closed(m')
  {
    m.(at := m.at[x := m.at[x].(color := c)])
  }

  /** Makes the link that leads from `p` to `x` (or the root link when `p` is NULL) lead to `y`;
      a node `x` that is not `p`'s `d`-child is taken to be its other child, as the code does. */
  function Relink(m: Mem, p: Node?, d: Side, x: Node, y: Node?): (m': Mem)
    requires Known(m, p)
    ensures m'.at.Keys == m.at.Keys
    ensures Closed(m) && Known(m, y) ==> Closed(m')
  {
    if p == null then m.(root := y)
    else SetChild(m, p, if Child(m, p, d) == x then d else d.Other(), y)
  }

  predicate IsBlack(m: Mem, x: Node?)
    requires Known(m, x)
  {
    x == null || m.at[x].color == Black
  }

  /** rbtree_rotate_left for `d == Left`, rbtree_rotate_right for `d == Right`. */
  function Rotate(m: Mem, x: Node, d: Side): (m': Mem)
    requires Closed(m) && x in m.at && Child(m, x, d.Other()) != null
    ensures Closed(m') && m'.at.Keys == m.at.Keys
  {
    var y := Child(m, x, d.Other());
    var p := m.at[x].parent;
    var m1 := SetChild(m, x, d.Other(), Child(m, y, d));
    var m2 := SetParentIf(m1, Child(m1, y, d), x);
    var m3 := SetParent(m2, y, p);
    var m4 := Relink(m3, p, d, x, y);
    var m5 := SetChild(m4, y, d, x);
    SetParent(m5, x, y)
  }

  /** rbtree_insert_fixup_left / _right: the new memory and the next node to examine. */
  function InsertStep(m: Mem, node: Node, d: Side): (r: Option<(Mem, Node?)>)
    requires Closed(m) && node in m.at
    ensures r.Some? ==> Closed(r.value.0) && r.value.0.at.Keys == m.at.Keys && Known(m, r.value.1)
  {
    var parent := m.at[node].parent;
    if parent == null then None else
    var grand := m.at[parent].parent;
    if grand == null then None else
    var uncle := Child(m, grand, d.Other());
    if uncle != null && m.at[uncle].color == Red then
      Some((SetColor(SetColor(SetColor(m, parent, Black), uncle, Black), grand, Red), grand))
    else
      var inner := node == Child(m, parent, d.Other());
      InsertTail(if inner then Rotate(m, parent, d) else m, if inner then parent else node, d)
  }

  /** The recolouring and the rotation at the end of rbtree_insert_fixup_left / _right. */
  function InsertTail(m: Mem, node: Node, d: Side): (r: Option<(Mem, Node?)>)
    requires Closed(m) && node in m.at
    ensures r.Some? ==> Closed(r.value.0) && r.value.0.at.Keys == m.at.Keys && Known(m, r.value.1)
  {
    var p := m.at[node].parent;
    if p == null then None else
    var g := m.at[p].parent;
    if g == null then None else
    var m1 := SetColor(SetColor(m, p, Black), g, Red);
    if Child(m1, g, d) == null then None else
    Some((Rotate(m1, g, d.Other()), null))
  }

  /** rbtree_insert_fixup. `fuel` bounds the loop's iterations; the outer `None` says it ran out. */
  function InsertFixup(m: Mem, node: Node?, fuel: nat): Option<Option<Mem>>
    requires Closed(m) && Known(m, node)
    decreases fuel
  {
    if node != null && m.at[node].parent != null && m.at[m.at[node].parent].color == Red then
      var parent := m.at[node].parent;
      if fuel == 0 then None
      else if m.at[parent].parent == null then Some(None)
      else
        var r := InsertStep(m, node, if parent == m.at[m.at[parent].parent].left then Left else Right);
        if r.None? then Some(None) else InsertFixup(r.value.0, r.value.1, fuel - 1)
    else if m.root == null then Some(None)
    else Some(Some(SetColor(m, m.root, Black)))
  }

  /** The stores of rbtree_insert before its fixup (lines 260-264). */
  function Attach(m: Mem, node: Node, parent: Node?, d: Side): (m': Mem)
    requires node in m.at && Known(m, parent)
    ensures m'.at.Keys == m.at.Keys
    ensures Closed(m) ==> Closed(m')
  {
    var m1 := m.(at := m.at[node := Cell(parent, null, null, Red)]);
    if parent == null then m1.(root := node) else SetChild(m1, parent, d, node)
  }

  /** Case 1 of the erase fixups: a red sibling is rotated away. */
  function EraseRedSibling(m: Mem, parent: Node, sibling: Node, d: Side): (r: (Mem, Node?))
    requires Closed(m) && parent in m.at && Child(m, parent, d.Other()) == sibling
    ensures Closed(r.0) && r.0.at.Keys == m.at.Keys && Known(m, r.1)
    ensures r.1 == Child(r.0, parent, d.Other())
  {
    if m.at[sibling].color == Red then
      var m1 := Rotate(SetColor(SetColor(m, sibling, Black), parent, Red), parent, d);
      (m1, Child(m1, parent, d.Other()))
    else
      (m, sibling)
  }

  /** Case 3 of the erase fixups: a black far nephew is replaced by the red near one. */
  function EraseFarNephew(m: Mem, parent: Node, sibling: Node, d: Side): (r: (Mem, Node?))
    requires Closed(m) && parent in m.at && Child(m, parent, d.Other()) == sibling
    requires !(IsBlack(m, Child(m, sibling, Left)) && IsBlack(m, Child(m, sibling, Right)))
    ensures Closed(r.0) && r.0.at.Keys == m.at.Keys && Known(m, r.1)
    ensures r.1 == Child(r.0, parent, d.Other())
  {
    if IsBlack(m, Child(m, sibling, d.Other())) then
      var m1 := SetColor(SetColor(m, Child(m, sibling, d), Black), sibling, Red);
      var m2 := Rotate(m1, sibling, d.Other());
      (m2, Child(m2, parent, d.Other()))
    else
      (m, sibling)
  }

  /** Case 4 of the erase fixups. */
  function EraseFinish(m: Mem, parent: Node, sibling: Node, d: Side): (r: Option<Mem>)
    requires Closed(m) && parent in m.at && Child(m, parent, d.Other()) == sibling
    ensures r.Some? ==> Closed(r.value) && r.value.at.Keys == m.at.Keys
  {
    var m1 := SetColor(SetColor(m, sibling, m.at[parent].color), parent, Black);
    var far := Child(m1, sibling, d.Other());
    if far == null then None else Some(Rotate(SetColor(m1, far, Black), parent, d))
  }

  /** Cases 2, 3 and 4 of the erase fixups. */
  function EraseBlackSibling(m: Mem, parent: Node, sibling: Node, d: Side): (r: Option<(Mem, Node?, Node?)>)
    requires Closed(m) && parent in m.at && Child(m, parent, d.Other()) == sibling
    ensures r.Some? ==> Closed(r.value.0) && r.value.0.at.Keys == m.at.Keys
                        && Known(m, r.value.1) && Known(m, r.value.2)
  {
    if IsBlack(m, Child(m, sibling, Left)) && IsBlack(m, Child(m, sibling, Right)) then
      var m1 := SetColor(m, sibling, Red);
      Some((m1, parent, m1.at[parent].parent))
    else
      var (m1, s1) := EraseFarNephew(m, parent, sibling, d);
      if s1 == null then None else
      var m2 := EraseFinish(m1, parent, s1, d);
      if m2.None? then None else Some((m2.value, m2.value.root, null))
  }

  /** rbtree_erase_fixup_left / _right: the new memory, the node returned and *parent_ptr. */
  function EraseStep(m: Mem, parent: Node, d: Side): (r: Option<(Mem, Node?, Node?)>)
    requires Closed(m) && parent in m.at
    ensures r.Some? ==> Closed(r.value.0) && r.value.0.at.Keys == m.at.Keys
                        && Known(m, r.value.1) && Known(m, r.value.2)
  {
    var s0 := Child(m, parent, d.Other());
    if s0 == null then None else
    var (m1, s1) := EraseRedSibling(m, parent, s0, d);
    if s1 == null then None else EraseBlackSibling(m1, parent, s1, d)
  }

  /** rbtree_erase_fixup, with `fuel` as in InsertFixup. */
  function EraseFixup(m: Mem, child: Node?, parent: Node?, fuel: nat): Option<Option<Mem>>
    requires Closed(m) && Known(m, child) && Known(m, parent)
    decreases fuel
  {
    if child != m.root && IsBlack(m, child) then
      if fuel == 0 then None
      else if parent == null then Some(None)
      else
        var r := EraseStep(m, parent, if child == m.at[parent].left then Left else Right);
        if r.None? then Some(None)
        else EraseFixup(r.value.0, r.value.1, r.value.2, fuel - 1)
    else if child == null then Some(Some(m))
    else Some(Some(SetColor(m, child, Black)))
  }

  /** The unlink stage for a node with at most one child (lines 418-432), also the first half of the
      two-child stage (lines 386-397): `x`, of which `child` is the only child, leaves the tree. */
  function Splice(m: Mem, x: Node, child: Node?): (m': Mem)
    requires Closed(m) && x in m.at && Known(m, child)
    ensures Closed(m') && m'.at.Keys == m.at.Keys
  {
    var parent := m.at[x].parent;
    Relink(SetParentIf(m, child, parent), parent, Left, x, child)
  }

  /** `s` takes over the links and the colour of `x` (lines 399-402). */
  function TakeOver(m: Mem, x: Node, s: Node): (m': Mem)
    requires x in m.at && s in m.at
    ensures m'.at.Keys == m.at.Keys
    ensures Closed(m) ==> Closed(m')
  {
    m.(at := m.at[s := m.at[x]])
  }

  /** The transplant (lines 399-415): `s` takes over the place of `x`. */
  function Transplant(m: Mem, x: Node, s: Node): (m': Mem)
    requires Closed(m) && x in m.at && s in m.at
    ensures Closed(m') && m'.at.Keys == m.at.Keys
  {
    var m1 := TakeOver(m, x, s);
    var m2 := Relink(m1, m1.at[x].parent, Left, x, s);
    SetParentIf(SetParentIf(m2, m2.at[x].left, s), m2.at[x].right, s)
  }

  /** The unlink stage of rbtree_erase. `s` is the in-order successor of a node with two children. */
  function Unlink(m: Mem, node: Node, s: Node): (m': Mem)
    requires Closed(m) && node in m.at && s in m.at
    ensures Closed(m') && m'.at.Keys == m.at.Keys
  {
    if m.at[node].left != null && m.at[node].right != null then
      Transplant(Splice(m, s, m.at[s].right), node, s)
    else
      Splice(m, node, OnlyChild(m, node))
  }

  function OnlyChild(m: Mem, x: Node): Node?
    requires x in m.at
  {
    if m.at[x].left != null then m.at[x].left else m.at[x].right
  }

  /** All of rbtree_erase: the unlink stage, then the fixup when a black node left its place.
      `parent` is read before the transplant, so it may still name the erased node. */
  function Erase(m: Mem, node: Node, s: Node, fuel: nat): Option<Option<Mem>>
    requires Closed(m) && node in m.at && s in m.at
  {
    var two := m.at[node].left != null && m.at[node].right != null;
    var gone := if two then s else node;
    var child := if two then m.at[s].right else OnlyChild(m, node);
    var m1 := Unlink(m, node, s);
    if m.at[gone].color == Black then EraseFixup(m1, child, m.at[gone].parent, fuel)
    else Some(Some(m1))
  }
}
