/** Red-black tree nodes kept in an arena: a node refers to its parent and
    children by index, and `Null` stands for the null pointer.  Each node
    also records its own address (`addr`), which the family lookups compare
    against, and its key. */
module Tree {
  import opened Wrappers

  datatype Color = Red | Black

  datatype Link = Null | Ref(idx: nat)

  datatype Node = Node(addr: nat, key: int, color: Color, parent: Link, left: Link, right: Link)

  type Arena = seq<Node>

  predicate InRange(a: Arena, l: Link) {
    l.Null? || l.idx < |a|
  }

  /** Every node stores its own index as its address and every link points
      into the arena. */
  predicate Closed(a: Arena) {
    forall i :: 0 <= i < |a| ==>
      a[i].addr == i && InRange(a, a[i].parent) && InRange(a, a[i].left) && InRange(a, a[i].right)
  }

  /** Two arenas that hold the same nodes up to their links. */
  predicate SameNodes(a: Arena, b: Arena) {
    |a| == |b| &&
    forall i :: 0 <= i < |a| ==> a[i].addr == b[i].addr && a[i].key == b[i].key && a[i].color == b[i].color
  }

  // ----- single-field writes through a pointer -----

  function WithLeft(a: Arena, i: nat, l: Link): (r: Arena)
    requires Closed(a) && i < |a| && InRange(a, l)
    ensures Closed(r) && SameNodes(a, r) && r == a[i := a[i].(left := l)]
  {
    a[i := a[i].(left := l)]
  }

  function WithRight(a: Arena, i: nat, l: Link): (r: Arena)
    requires Closed(a) && i < |a| && InRange(a, l)
    ensures Closed(r) && SameNodes(a, r) && r == a[i := a[i].(right := l)]
  {
    a[i := a[i].(right := l)]
  }

  function WithParent(a: Arena, i: nat, l: Link): (r: Arena)
    requires Closed(a) && i < |a| && InRange(a, l)
    ensures Closed(r) && SameNodes(a, r) && r == a[i := a[i].(parent := l)]
  {
    a[i := a[i].(parent := l)]
  }

  function WithColor(a: Arena, i: nat, c: Color): (r: Arena)
    requires Closed(a) && i < |a|
    ensures Closed(r) && |r| == |a| && r == a[i := a[i].(color := c)]
  {
    a[i := a[i].(color := c)]
  }

  // ----- nodes and their family -----

  /** `Node::new`: a red node with no parent and no children. */
  function NewNode(addr: nat, key: int): (n: Node)
    ensures n.color == Red && n.parent.Null? && n.left.Null? && n.right.Null?
    ensures n.addr == addr && n.key == key
  {
    Node(addr, key, Red, Null, Null, Null)
  }

  /** A fresh node written at the next free slot keeps the arena closed. */
  lemma NewNodeKeepsClosed(a: Arena, key: int)
    requires Closed(a)
    ensures Closed(a + [NewNode(|a|, key)])
  {
    var b := a + [NewNode(|a|, key)];
    forall i | 0 <= i < |b|
      ensures b[i].addr == i && InRange(b, b[i].parent) && InRange(b, b[i].left) && InRange(b, b[i].right)
    {
      if i < |a| {
        assert b[i] == a[i];
      }
    }
  }

  /** The address of the left child, if any. */
  function LeftId(a: Arena, p: nat): Option<nat>
    requires Closed(a) && p < |a|
  {
    match a[p].left
    case Null => None
    case Ref(c) => Some(a[c].addr)
  }

  /** The address of the right child, if any. */
  function RightId(a: Arena, p: nat): Option<nat>
    requires Closed(a) && p < |a|
  {
    match a[p].right
    case Null => None
    case Ref(c) => Some(a[c].addr)
  }

  function Grandparent(a: Arena, n: nat): (r: Link)
    requires Closed(a) && n < |a|
    ensures a[n].parent.Null? ==> r.Null?
    ensures a[n].parent.Ref? ==> r == a[a[n].parent.idx].parent
  {
    match a[n].parent
    case Null => Null
    case Ref(p) => a[p].parent
  }

  /** The parent's other child: the right one when `n` is the parent's
      left child, else the left one. */
  function Sibling(a: Arena, n: nat): (r: Link)
    requires Closed(a) && n < |a|
    ensures a[n].parent.Null? ==> r.Null?
    ensures a[n].parent.Ref? ==> var p := a[n].parent.idx;
              (a[p].left == Ref(n) ==> r == a[p].right) && (a[p].left != Ref(n) ==> r == a[p].left)
  {
    match a[n].parent
    case Null => Null
    case Ref(p) => if Some(a[n].addr) == LeftId(a, p) then a[p].right else a[p].left
  }

  /** The parent's sibling. */
  function Uncle(a: Arena, n: nat): (r: Link)
    requires Closed(a) && n < |a|
    ensures a[n].parent.Null? ==> r.Null?
    ensures a[n].parent.Ref? ==> r == Sibling(a, a[n].parent.idx)
  {
    match a[n].parent
    case Null => Null
    case Ref(p) => Sibling(a, p)
  }

  // ----- the abstract tree an arena represents -----

  datatype Tree = Leaf | Branch(left: Tree, idx: nat, right: Tree)

  function Root(t: Tree): Link {
    match t
    case Leaf => Null
    case Branch(_, i, _) => Ref(i)
  }

  function Nodes(t: Tree): set<nat> {
    match t
    case Leaf => {}
    case Branch(l, i, r) => Nodes(l) + {i} + Nodes(r)
  }

  /** The nodes in symmetric (in-order) order. */
  function Order(t: Tree): seq<nat> {
    match t
    case Leaf => []
    case Branch(l, i, r) => Order(l) + [i] + Order(r)
  }

  /** The roots of the two subtrees. */
  function Children(t: Tree): set<nat> {
    if t.Leaf? then {} else Idx(Root(t.left)) + Idx(Root(t.right))
  }

  /** The arena holds `t` under the link `l`, hanging from `par`: each
      node's links are exactly its children's roots and its parent, and no
      node occurs twice. */
  predicate Rep(a: Arena, l: Link, t: Tree, par: Link)
    decreases t
  {
    match t
    case Leaf => l == Null
    case Branch(lt, i, rt) =>
      && l == Ref(i) && i < |a|
      && a[i].parent == par && a[i].left == Root(lt) && a[i].right == Root(rt)
      && Rep(a, a[i].left, lt, Ref(i)) && Rep(a, a[i].right, rt, Ref(i))
      && i !in Nodes(lt) && i !in Nodes(rt) && Nodes(lt) !! Nodes(rt)
  }

  lemma {:induction false} RepInRange(a: Arena, l: Link, t: Tree, par: Link)
    requires Rep(a, l, t, par)
    ensures forall i :: i in Nodes(t) ==> i < |a|
    ensures l == Root(t)
    decreases t
  {
    if t.Branch? {
      RepInRange(a, a[t.idx].left, t.left, Ref(t.idx));
      RepInRange(a, a[t.idx].right, t.right, Ref(t.idx));
    }
  }

  /** Node `i` exists in both arenas with the same links. */
  predicate SameLinks(a: Arena, b: Arena, i: nat) {
    i < |a| && i < |b| && b[i].parent == a[i].parent && b[i].left == a[i].left && b[i].right == a[i].right
  }

  /** `Rep` looks only at the links of the tree's own nodes. */
  lemma {:induction false} RepFrame(a: Arena, b: Arena, l: Link, t: Tree, par: Link)
    requires Rep(a, l, t, par) && |b| == |a|
    requires forall i :: i in Nodes(t) ==>
               SameLinks(a, b, i)
    ensures Rep(b, l, t, par)
    decreases t
  {
    if t.Branch? {
      assert t.idx in Nodes(t) && SameLinks(a, b, t.idx);
      RepFrame(a, b, a[t.idx].left, t.left, Ref(t.idx));
      RepFrame(a, b, a[t.idx].right, t.right, Ref(t.idx));
    }
  }

  /** A tree whose root alone was given a new parent is still represented,
      under the new parent. */
  lemma RepReparent(a: Arena, b: Arena, t: Tree, par: Link, par': Link)
    requires Rep(a, Root(t), t, par) && |b| == |a|
    requires forall i :: i in Nodes(t) && Ref(i) != Root(t) ==>
               SameLinks(a, b, i)
    requires t.Branch? ==> b[t.idx] == a[t.idx].(parent := par')
    ensures Rep(b, Root(t), t, par')
  {
    if t.Branch? {
      RepFrame(a, b, a[t.idx].left, t.left, Ref(t.idx));
      RepFrame(a, b, a[t.idx].right, t.right, Ref(t.idx));
    }
  }

  /** Every node of a represented tree has its links fixed by the tree. */
  lemma {:induction false} RepFixesLinks(a: Arena, b: Arena, l: Link, t: Tree, par: Link)
    requires Rep(a, l, t, par) && Rep(b, l, t, par)
    ensures forall i :: i in Nodes(t) ==>
              SameLinks(a, b, i)
    decreases t
  {
    if t.Branch? {
      RepFixesLinks(a, b, a[t.idx].left, t.left, Ref(t.idx));
      RepFixesLinks(a, b, a[t.idx].right, t.right, Ref(t.idx));
    }
  }

  /** The indices a link names: none for `Null`. */
  function Idx(l: Link): set<nat> {
    if l.Null? then {} else {l.idx}
  }

  /** A tree none of whose nodes was written is still represented. */
  lemma RepUntouched(a: Arena, b: Arena, l: Link, t: Tree, par: Link, w: set<nat>)
    requires Rep(a, l, t, par) && |b| == |a| && Nodes(t) !! w
    requires forall i :: 0 <= i < |a| && i !in w ==> b[i] == a[i]
    ensures Rep(b, l, t, par)
  {
    RepInRange(a, l, t, par);
    forall i | i in Nodes(t)
      ensures SameLinks(a, b, i)
    {
      assert b[i] == a[i];
    }
    RepFrame(a, b, l, t, par);
  }

  /** Puts a node and its two represented subtrees together. */
  lemma RepJoin(a: Arena, lt: Tree, i: nat, rt: Tree, par: Link)
    requires i < |a| && a[i].parent == par && a[i].left == Root(lt) && a[i].right == Root(rt)
    requires Rep(a, Root(lt), lt, Ref(i)) && Rep(a, Root(rt), rt, Ref(i))
    requires i !in Nodes(lt) && i !in Nodes(rt) && Nodes(lt) !! Nodes(rt)
    ensures Rep(a, Ref(i), Branch(lt, i, rt), par)
  {
  }

  /** In a represented tree the family lookups find the tree's own
      relatives: a child's sibling is the other subtree's root, and a
      grandchild's grandparent and uncle are the root and the subtree on
      the other side. */
  lemma FamilyInTree(a: Arena, t: Tree, par: Link)
    requires Closed(a) && t.Branch? && Rep(a, Root(t), t, par)
    ensures t.left.Branch? ==> t.left.idx < |a| && Sibling(a, t.left.idx) == Root(t.right)
    ensures t.right.Branch? ==> t.right.idx < |a| && Sibling(a, t.right.idx) == Root(t.left)
    ensures forall c :: c in Children(t.left) ==>
              c < |a| && Grandparent(a, c) == Ref(t.idx) && Uncle(a, c) == Root(t.right)
    ensures forall c :: c in Children(t.right) ==>
              c < |a| && Grandparent(a, c) == Ref(t.idx) && Uncle(a, c) == Root(t.left)
  {
    RepInRange(a, Root(t), t, par);
    var l, r := t.left, t.right;
    assert Rep(a, Root(l), l, Ref(t.idx)) && Rep(a, Root(r), r, Ref(t.idx));
    if l.Branch? {
      assert l.idx in Nodes(l);
      assert Rep(a, Root(l.left), l.left, Ref(l.idx)) && Rep(a, Root(l.right), l.right, Ref(l.idx));
      assert l.left.Branch? ==> l.left.idx in Nodes(l.left);
      assert l.right.Branch? ==> l.right.idx in Nodes(l.right);
    }
    if r.Branch? {
      assert r.idx in Nodes(r);
      assert Rep(a, Root(r.left), r.left, Ref(r.idx)) && Rep(a, Root(r.right), r.right, Ref(r.idx));
      assert r.left.Branch? ==> r.left.idx in Nodes(r.left);
      assert r.right.Branch? ==> r.right.idx in Nodes(r.right);
    }
  }

  /** `par` is null, or one of its child links is `x`. */
  predicate Slot(a: Arena, par: Link, x: nat) {
    par.Null? || (par.idx < |a| && (a[par.idx].left == Ref(x) || a[par.idx].right == Ref(x)))
  }

  /** The parent's child link that pointed at `x` now points at `y`. */
  predicate Moved(a: Arena, r: Arena, par: Link, x: nat, y: nat)
    requires |r| == |a| && Slot(a, par, x)
  {
    par.Ref? ==>
      var q := par.idx;
      && r[q].parent == a[q].parent
      && (a[q].left == Ref(x) ==> r[q].left == Ref(y) && r[q].right == a[q].right)
      && (a[q].left != Ref(x) ==> r[q].right == Ref(y) && r[q].left == a[q].left)
  }

  // ----- rotations -----

  /** Points the parent's link that named `was` at `now` instead; a null
      parent (the root) has no such link. */
  function ReplaceChild(a: Arena, p: Link, was: nat, now: Link): (r: Arena)
    requires Closed(a) && InRange(a, p) && InRange(a, now)
    ensures Closed(r) && SameNodes(a, r)
  {
    if p.Null? then a
    else if Some(was) == LeftId(a, p.idx) then WithLeft(a, p.idx, now)
    else if Some(was) == RightId(a, p.idx) then WithRight(a, p.idx, now)
    else a
  }

  /** Gives the node at `l`, if any, the parent `par`. */
  function Adopt(a: Arena, l: Link, par: Link): (r: Arena)
    requires Closed(a) && InRange(a, l) && InRange(a, par)
    ensures Closed(r) && SameNodes(a, r)
  {
    if l.Null? then a else WithParent(a, l.idx, par)
  }

  /** `rotate_left` at `x`: its right child `y` takes its place, `x`
      becomes `y`'s left child and `y`'s old left subtree becomes `x`'s
      right one.  A node without a right child aborts. */
  function RotateLeft(a: Arena, x: nat): (r: Result<Arena>)
    requires Closed(a) && x < |a|
    ensures r.Err? <==> a[x].right.Null?
    ensures r.Err? ==> r.IsPanic()
    ensures r.Ok? ==> Closed(r.value) && SameNodes(a, r.value)
  {
    var nn := a[x].right;
    var p := a[x].parent;
    if nn.Null? then Err(Panic("rotate_left without a right child"))
    else
      var y := nn.idx;
      var a1 := WithRight(a, x, a[y].left);
      var a2 := WithLeft(a1, y, Ref(a1[x].addr));
      var a3 := WithParent(a2, x, nn);
      var a4 := Adopt(a3, a3[x].right, Ref(a3[x].addr));
      var a5 := ReplaceChild(a4, p, a4[x].addr, nn);
      Ok(WithParent(a5, y, p))
  }

  /** `rotate_right` at `x`: the mirror image of `RotateLeft`. */
  function RotateRight(a: Arena, x: nat): (r: Result<Arena>)
    requires Closed(a) && x < |a|
    ensures r.Err? <==> a[x].left.Null?
    ensures r.Err? ==> r.IsPanic()
    ensures r.Ok? ==> Closed(r.value) && SameNodes(a, r.value)
  {
    var nn := a[x].left;
    var p := a[x].parent;
    if nn.Null? then Err(Panic("rotate_right without a left child"))
    else
      var y := nn.idx;
      var a1 := WithLeft(a, x, a[y].right);
      var a2 := WithRight(a1, y, Ref(a1[x].addr));
      var a3 := WithParent(a2, x, nn);
      var a4 := Adopt(a3, a3[x].left, Ref(a3[x].addr));
      var a5 := ReplaceChild(a4, p, a4[x].addr, nn);
      Ok(WithParent(a5, y, p))
  }

  /** What `rotate_left` at `x` writes, node by node, when `y` is its
      right child and `x`'s parent link names `x`. */
  lemma RotateLeftWrites(a: Arena, x: nat, y: nat)
    requires Closed(a) && x < |a| && a[x].right == Ref(y) && x != y
    requires a[y].left != Ref(x) && a[y].left != Ref(y)
    requires a[x].parent != Ref(x) && a[x].parent != Ref(y)
    requires a[x].parent.Ref? ==> a[x].parent != a[y].left
    requires Slot(a, a[x].parent, x)
    ensures RotateLeft(a, x).Ok?
    ensures var r := RotateLeft(a, x).value;
            var par := a[x].parent;
            && r[x] == a[x].(right := a[y].left, parent := Ref(y))
            && r[y] == a[y].(left := Ref(x), parent := par)
            && (a[y].left.Ref? ==> r[a[y].left.idx] == a[a[y].left.idx].(parent := Ref(x)))
            && Moved(a, r, par, x, y)
  {
    var par := a[x].parent;
    var a1 := WithRight(a, x, a[y].left);
    var a2 := WithLeft(a1, y, Ref(x));
    var a3 := WithParent(a2, x, Ref(y));
    var a4 := Adopt(a3, a[y].left, Ref(x));
    var a5 := ReplaceChild(a4, par, x, Ref(y));
    var r := WithParent(a5, y, par);
    assert RotateLeft(a, x) == Ok(r);
    if par.Ref? {
      var q := par.idx;
      assert a4[q] == a[q];
      assert a[q].left.Ref? && a[q].left != Ref(x) ==> a4[a[q].left.idx].addr != x;
      assert a[q].right.Ref? && a[q].right != Ref(x) ==> a4[a[q].right.idx].addr != x;
    }
  }

  /** `rotate_left` at `x` writes no node but `x`, its child `y`, `y`'s
      left child and `x`'s parent. */
  lemma RotateLeftFrame(a: Arena, x: nat, y: nat)
    requires Closed(a) && x < |a| && a[x].right == Ref(y) && x != y
    requires a[y].left != Ref(x) && a[y].left != Ref(y)
    requires a[x].parent != Ref(x) && a[x].parent != Ref(y)
    requires a[x].parent.Ref? ==> a[x].parent != a[y].left
    requires Slot(a, a[x].parent, x)
    ensures RotateLeft(a, x).Ok?
    ensures var r := RotateLeft(a, x).value;
            forall i :: 0 <= i < |a| && i != x && i != y && Ref(i) != a[y].left && Ref(i) != a[x].parent ==>
              r[i] == a[i]
  {
    var par := a[x].parent;
    var a1 := WithRight(a, x, a[y].left);
    var a2 := WithLeft(a1, y, Ref(x));
    var a3 := WithParent(a2, x, Ref(y));
    var a4 := Adopt(a3, a[y].left, Ref(x));
    var a5 := ReplaceChild(a4, par, x, Ref(y));
    var r := WithParent(a5, y, par);
    assert RotateLeft(a, x) == Ok(r);
  }

  /** The mirror image of `RotateLeftWrites`. */
  lemma RotateRightWrites(a: Arena, x: nat, y: nat)
    requires Closed(a) && x < |a| && a[x].left == Ref(y) && x != y
    requires a[y].right != Ref(x) && a[y].right != Ref(y)
    requires a[x].parent != Ref(x) && a[x].parent != Ref(y)
    requires a[x].parent.Ref? ==> a[x].parent != a[y].right
    requires Slot(a, a[x].parent, x)
    ensures RotateRight(a, x).Ok?
    ensures var r := RotateRight(a, x).value;
            var par := a[x].parent;
            && r[x] == a[x].(left := a[y].right, parent := Ref(y))
            && r[y] == a[y].(right := Ref(x), parent := par)
            && (a[y].right.Ref? ==> r[a[y].right.idx] == a[a[y].right.idx].(parent := Ref(x)))
            && Moved(a, r, par, x, y)
  {
    var par := a[x].parent;
    var a1 := WithLeft(a, x, a[y].right);
    var a2 := WithRight(a1, y, Ref(x));
    var a3 := WithParent(a2, x, Ref(y));
    var a4 := Adopt(a3, a[y].right, Ref(x));
    var a5 := ReplaceChild(a4, par, x, Ref(y));
    var r := WithParent(a5, y, par);
    assert RotateRight(a, x) == Ok(r);
    if par.Ref? {
      var q := par.idx;
      assert a4[q] == a[q];
      assert a[q].left.Ref? && a[q].left != Ref(x) ==> a4[a[q].left.idx].addr != x;
      assert a[q].right.Ref? && a[q].right != Ref(x) ==> a4[a[q].right.idx].addr != x;
    }
  }

  /** `rotate_right` at `x` writes no node but `x`, its child `y`, `y`'s
      right child and `x`'s parent. */
  lemma RotateRightFrame(a: Arena, x: nat, y: nat)
    requires Closed(a) && x < |a| && a[x].left == Ref(y) && x != y
    requires a[y].right != Ref(x) && a[y].right != Ref(y)
    requires a[x].parent != Ref(x) && a[x].parent != Ref(y)
    requires a[x].parent.Ref? ==> a[x].parent != a[y].right
    requires Slot(a, a[x].parent, x)
    ensures RotateRight(a, x).Ok?
    ensures var r := RotateRight(a, x).value;
            forall i :: 0 <= i < |a| && i != x && i != y && Ref(i) != a[y].right && Ref(i) != a[x].parent ==>
              r[i] == a[i]
  {
    var par := a[x].parent;
    var a1 := WithLeft(a, x, a[y].right);
    var a2 := WithRight(a1, y, Ref(x));
    var a3 := WithParent(a2, x, Ref(y));
    var a4 := Adopt(a3, a[y].right, Ref(x));
    var a5 := ReplaceChild(a4, par, x, Ref(y));
    var r := WithParent(a5, y, par);
    assert RotateRight(a, x) == Ok(r);
  }

  // ----- rotations on the abstract tree -----

  /** The tree a left rotation produces: `Branch(A, x, Branch(B, y, C))`
      becomes `Branch(Branch(A, x, B), y, C)`. */
  function RotL(t: Tree): Tree
    requires t.Branch? && t.right.Branch?
  {
    Branch(Branch(t.left, t.idx, t.right.left), t.right.idx, t.right.right)
  }

  /** The tree a right rotation produces. */
  function RotR(t: Tree): Tree
    requires t.Branch? && t.left.Branch?
  {
    Branch(t.left.left, t.left.idx, Branch(t.left.right, t.idx, t.right))
  }

  /** Rotations keep the symmetric order, so they keep a search tree
      sorted, and each undoes the other. */
  lemma RotationsKeepOrder(t: Tree)
    ensures t.Branch? && t.right.Branch? ==> Order(RotL(t)) == Order(t) && RotR(RotL(t)) == t
    ensures t.Branch? && t.left.Branch? ==> Order(RotR(t)) == Order(t) && RotL(RotR(t)) == t
  {
  }

  /** What a left rotation at `x`, whose right child is `y`, writes: `x`
      takes `y`'s left subtree and `y` as its parent, `y` takes `x` as its
      left child and `x`'s old parent, `y`'s old left child is given `x` as
      parent, the parent's link moves from `x` to `y`, and no other node
      changes. */
  predicate LeftRotated(a: Arena, r: Arena, x: nat, y: nat) {
    && x < |a| && y < |a| && |r| == |a| && Slot(a, a[x].parent, x)
    && r[x] == a[x].(right := a[y].left, parent := Ref(y))
    && r[y] == a[y].(left := Ref(x), parent := a[x].parent)
    && (a[y].left.Ref? ==> a[y].left.idx < |a| && r[a[y].left.idx] == a[a[y].left.idx].(parent := Ref(x)))
    && Moved(a, r, a[x].parent, x, y)
    && (forall i :: 0 <= i < |a| && i != x && i != y && Ref(i) != a[y].left && Ref(i) != a[x].parent ==> r[i] == a[i])
  }

  /** The mirror image of `LeftRotated`. */
  predicate RightRotated(a: Arena, r: Arena, x: nat, y: nat) {
    && x < |a| && y < |a| && |r| == |a| && Slot(a, a[x].parent, x)
    && r[x] == a[x].(left := a[y].right, parent := Ref(y))
    && r[y] == a[y].(right := Ref(x), parent := a[x].parent)
    && (a[y].right.Ref? ==> a[y].right.idx < |a| && r[a[y].right.idx] == a[a[y].right.idx].(parent := Ref(x)))
    && Moved(a, r, a[x].parent, x, y)
    && (forall i :: 0 <= i < |a| && i != x && i != y && Ref(i) != a[y].right && Ref(i) != a[x].parent ==> r[i] == a[i])
  }

  /** `rotate_left` writes exactly what `LeftRotated` describes. */
  lemma RotateLeftDoes(a: Arena, x: nat, y: nat)
    requires Closed(a) && x < |a| && a[x].right == Ref(y) && x != y
    requires a[y].left != Ref(x) && a[y].left != Ref(y)
    requires a[x].parent != Ref(x) && a[x].parent != Ref(y)
    requires a[x].parent.Ref? ==> a[x].parent != a[y].left
    requires Slot(a, a[x].parent, x)
    ensures RotateLeft(a, x).Ok? && LeftRotated(a, RotateLeft(a, x).value, x, y)
  {
    RotateLeftWrites(a, x, y);
    RotateLeftFrame(a, x, y);
  }

  /** `rotate_right` writes exactly what `RightRotated` describes. */
  lemma RotateRightDoes(a: Arena, x: nat, y: nat)
    requires Closed(a) && x < |a| && a[x].left == Ref(y) && x != y
    requires a[y].right != Ref(x) && a[y].right != Ref(y)
    requires a[x].parent != Ref(x) && a[x].parent != Ref(y)
    requires a[x].parent.Ref? ==> a[x].parent != a[y].right
    requires Slot(a, a[x].parent, x)
    ensures RotateRight(a, x).Ok? && RightRotated(a, RotateRight(a, x).value, x, y)
  {
    RotateRightWrites(a, x, y);
    RotateRightFrame(a, x, y);
  }

  /** The facts about a represented subtree that a left rotation at its
      root relies on, with `w` the set of nodes the rotation writes. */
  lemma RotateLeftReady(a: Arena, t: Tree, par: Link)
    requires Closed(a) && t.Branch? && t.right.Branch?
    requires Rep(a, Root(t), t, par)
    requires par.Ref? ==> par.idx !in Nodes(t)
    requires Slot(a, par, t.idx)
    ensures var x := t.idx; var y := t.right.idx; var w := {x, y} + Idx(Root(t.right.left)) + Idx(par);
            && x < |a| && y < |a| && a[x].right == Ref(y) && x != y
            && a[y].left != Ref(x) && a[y].left != Ref(y)
            && a[x].parent == par && par != Ref(x) && par != Ref(y)
            && (par.Ref? ==> par != a[y].left)
            && a[x].left == Root(t.left) && a[y].left == Root(t.right.left) && a[y].right == Root(t.right.right)
            && Rep(a, Root(t.left), t.left, Ref(x)) && Rep(a, Root(t.right.left), t.right.left, Ref(y))
            && Rep(a, Root(t.right.right), t.right.right, Ref(y))
            && Nodes(t.left) !! w && Nodes(t.right.right) !! w
            && (t.right.left.Branch? ==> Nodes(t.right.left.left) !! w && Nodes(t.right.left.right) !! w)
  {
    var x, y := t.idx, t.right.idx;
    var ta, tb, tc := t.left, t.right.left, t.right.right;
    RepInRange(a, Root(t), t, par);
    assert Rep(a, Root(t.right), t.right, Ref(x));
    assert y in Nodes(t.right);
    assert tb.Branch? ==> tb.idx in Nodes(t.right) && tb.idx in Nodes(tb);
  }

  /** The subtrees of a left-rotated arena, under their new parents. */
  lemma LeftRotatedParts(a: Arena, r: Arena, t: Tree, par: Link)
    requires Closed(a) && t.Branch? && t.right.Branch?
    requires Rep(a, Root(t), t, par)
    requires par.Ref? ==> par.idx !in Nodes(t)
    requires Slot(a, par, t.idx)
    requires LeftRotated(a, r, t.idx, t.right.idx)
    ensures Rep(r, Root(t.left), t.left, Ref(t.idx))
    ensures Rep(r, Root(t.right.left), t.right.left, Ref(t.idx))
    ensures Rep(r, Root(t.right.right), t.right.right, Ref(t.right.idx))
  {
    var x, y := t.idx, t.right.idx;
    var ta, tb, tc := t.left, t.right.left, t.right.right;
    RotateLeftReady(a, t, par);
    var w := {x, y} + Idx(Root(tb)) + Idx(par);
    assert forall i :: 0 <= i < |a| && i !in w ==> r[i] == a[i];
    RepUntouched(a, r, Root(ta), ta, Ref(x), w);
    RepUntouched(a, r, Root(tc), tc, Ref(y), w);
    if tb.Branch? {
      RepUntouched(a, r, Root(tb.left), tb.left, Ref(tb.idx), w);
      RepUntouched(a, r, Root(tb.right), tb.right, Ref(tb.idx), w);
      RepJoin(r, tb.left, tb.idx, tb.right, Ref(x));
    }
  }

  /** A left-rotated arena holds the rotated subtree, and the nodes outside
      the subtree other than its parent are unchanged. */
  lemma LeftRotatedKeepsRep(a: Arena, r: Arena, t: Tree, par: Link)
    requires Closed(a) && t.Branch? && t.right.Branch?
    requires Rep(a, Root(t), t, par)
    requires par.Ref? ==> par.idx !in Nodes(t)
    requires Slot(a, par, t.idx)
    requires LeftRotated(a, r, t.idx, t.right.idx)
    ensures Rep(r, Root(RotL(t)), RotL(t), par)
    ensures forall i :: 0 <= i < |a| && i !in Nodes(t) && Ref(i) != par ==> r[i] == a[i]
  {
    var x, y := t.idx, t.right.idx;
    var ta, tb, tc := t.left, t.right.left, t.right.right;
    RotateLeftReady(a, t, par);
    LeftRotatedParts(a, r, t, par);
    assert x !in Nodes(ta) && x !in Nodes(tb) && Nodes(ta) !! Nodes(tb) by {
      assert Rep(a, Root(t.right), t.right, Ref(x));
    }
    RepJoin(r, ta, x, tb, Ref(y));
    assert y !in Nodes(Branch(ta, x, tb)) && y !in Nodes(tc) && Nodes(Branch(ta, x, tb)) !! Nodes(tc) by {
      assert Rep(a, Root(t.right), t.right, Ref(x));
    }
    RepJoin(r, Branch(ta, x, tb), y, tc, par);
    assert x in Nodes(t) && y in Nodes(t) && Nodes(tb) <= Nodes(t);
  }

  /** `rotate_left` on an arena that holds the subtree `t` under `par`
      leaves it holding the rotated subtree, re-points the parent's child
      link at the new root and touches nothing else. */
  lemma RotateLeftSpec(a: Arena, t: Tree, par: Link)
    requires Closed(a) && t.Branch? && t.right.Branch?
    requires Rep(a, Root(t), t, par)
    requires par.Ref? ==> par.idx !in Nodes(t)
    requires Slot(a, par, t.idx)
    ensures RotateLeft(a, t.idx).Ok?
    ensures var r := RotateLeft(a, t.idx).value;
            && Rep(r, Root(RotL(t)), RotL(t), par)
            && Moved(a, r, par, t.idx, t.right.idx)
            && (forall i :: 0 <= i < |a| && i !in Nodes(t) && Ref(i) != par ==> r[i] == a[i])
  {
    RotateLeftReady(a, t, par);
    RotateLeftDoes(a, t.idx, t.right.idx);
    LeftRotatedKeepsRep(a, RotateLeft(a, t.idx).value, t, par);
  }

  /** The mirror image of `RotateLeftReady`. */
  lemma RotateRightReady(a: Arena, t: Tree, par: Link)
    requires Closed(a) && t.Branch? && t.left.Branch?
    requires Rep(a, Root(t), t, par)
    requires par.Ref? ==> par.idx !in Nodes(t)
    requires Slot(a, par, t.idx)
    ensures var x := t.idx; var y := t.left.idx; var w := {x, y} + Idx(Root(t.left.right)) + Idx(par);
            && x < |a| && y < |a| && a[x].left == Ref(y) && x != y
            && a[y].right != Ref(x) && a[y].right != Ref(y)
            && a[x].parent == par && par != Ref(x) && par != Ref(y)
            && (par.Ref? ==> par != a[y].right)
            && a[x].right == Root(t.right) && a[y].left == Root(t.left.left) && a[y].right == Root(t.left.right)
            && Rep(a, Root(t.left.left), t.left.left, Ref(y)) && Rep(a, Root(t.left.right), t.left.right, Ref(y))
            && Rep(a, Root(t.right), t.right, Ref(x))
            && Nodes(t.left.left) !! w && Nodes(t.right) !! w
            && (t.left.right.Branch? ==> Nodes(t.left.right.left) !! w && Nodes(t.left.right.right) !! w)
  {
    var x, y := t.idx, t.left.idx;
    var ta, tb, tc := t.left.left, t.left.right, t.right;
    RepInRange(a, Root(t), t, par);
    assert Rep(a, Root(t.left), t.left, Ref(x));
    assert y in Nodes(t.left);
    assert tb.Branch? ==> tb.idx in Nodes(t.left) && tb.idx in Nodes(tb);
  }

  /** The subtrees of a right-rotated arena, under their new parents. */
  lemma RightRotatedParts(a: Arena, r: Arena, t: Tree, par: Link)
    requires Closed(a) && t.Branch? && t.left.Branch?
    requires Rep(a, Root(t), t, par)
    requires par.Ref? ==> par.idx !in Nodes(t)
    requires Slot(a, par, t.idx)
    requires RightRotated(a, r, t.idx, t.left.idx)
    ensures Rep(r, Root(t.right), t.right, Ref(t.idx))
    ensures Rep(r, Root(t.left.right), t.left.right, Ref(t.idx))
    ensures Rep(r, Root(t.left.left), t.left.left, Ref(t.left.idx))
  {
    var x, y := t.idx, t.left.idx;
    var ta, tb, tc := t.left.left, t.left.right, t.right;
    RotateRightReady(a, t, par);
    var w := {x, y} + Idx(Root(tb)) + Idx(par);
    assert forall i :: 0 <= i < |a| && i !in w ==> r[i] == a[i];
    RepUntouched(a, r, Root(ta), ta, Ref(y), w);
    RepUntouched(a, r, Root(tc), tc, Ref(x), w);
    if tb.Branch? {
      RepUntouched(a, r, Root(tb.left), tb.left, Ref(tb.idx), w);
      RepUntouched(a, r, Root(tb.right), tb.right, Ref(tb.idx), w);
      RepJoin(r, tb.left, tb.idx, tb.right, Ref(x));
    }
  }

  /** The mirror image of `LeftRotatedKeepsRep`. */
  lemma RightRotatedKeepsRep(a: Arena, r: Arena, t: Tree, par: Link)
    requires Closed(a) && t.Branch? && t.left.Branch?
    requires Rep(a, Root(t), t, par)
    requires par.Ref? ==> par.idx !in Nodes(t)
    requires Slot(a, par, t.idx)
    requires RightRotated(a, r, t.idx, t.left.idx)
    ensures Rep(r, Root(RotR(t)), RotR(t), par)
    ensures forall i :: 0 <= i < |a| && i !in Nodes(t) && Ref(i) != par ==> r[i] == a[i]
  {
    var x, y := t.idx, t.left.idx;
    var ta, tb, tc := t.left.left, t.left.right, t.right;
    RotateRightReady(a, t, par);
    RightRotatedParts(a, r, t, par);
    assert x !in Nodes(tb) && x !in Nodes(tc) && Nodes(tb) !! Nodes(tc) by {
      assert Rep(a, Root(t.left), t.left, Ref(x));
    }
    RepJoin(r, tb, x, tc, Ref(y));
    assert y !in Nodes(ta) && y !in Nodes(Branch(tb, x, tc)) && Nodes(ta) !! Nodes(Branch(tb, x, tc)) by {
      assert Rep(a, Root(t.left), t.left, Ref(x));
    }
    RepJoin(r, ta, y, Branch(tb, x, tc), par);
    assert x in Nodes(t) && y in Nodes(t) && Nodes(tb) <= Nodes(t);
  }

  /** The mirror image of `RotateLeftSpec`. */
  lemma RotateRightSpec(a: Arena, t: Tree, par: Link)
    requires Closed(a) && t.Branch? && t.left.Branch?
    requires Rep(a, Root(t), t, par)
    requires par.Ref? ==> par.idx !in Nodes(t)
    requires Slot(a, par, t.idx)
    ensures RotateRight(a, t.idx).Ok?
    ensures var r := RotateRight(a, t.idx).value;
            && Rep(r, Root(RotR(t)), RotR(t), par)
            && Moved(a, r, par, t.idx, t.left.idx)
            && (forall i :: 0 <= i < |a| && i !in Nodes(t) && Ref(i) != par ==> r[i] == a[i])
  {
    RotateRightReady(a, t, par);
    RotateRightDoes(a, t.idx, t.left.idx);
    RightRotatedKeepsRep(a, RotateRight(a, t.idx).value, t, par);
  }

  /** An arena left-rotated and then right-rotated back holds the same
      tree under the same parent, which fixes every node. */
  lemma RotatedBack(a: Arena, r: Arena, r2: Arena, t: Tree, par: Link)
    requires t.Branch? && t.right.Branch?
    requires Rep(a, Root(t), t, par) && Rep(r2, Root(t), t, par)
    requires par.Ref? ==> par.idx !in Nodes(t)
    requires par.Ref? ==> par.idx < |a| && a[par.idx].left != Ref(t.right.idx) && a[par.idx].right != Ref(t.right.idx)
    requires LeftRotated(a, r, t.idx, t.right.idx) && RightRotated(r, r2, t.right.idx, t.idx)
    requires SameNodes(a, r) && SameNodes(r, r2)
    ensures r2 == a
  {
    var x, y := t.idx, t.right.idx;
    RepInRange(a, Root(t), t, par);
    assert x in Nodes(t) && y in Nodes(t) by {
      assert Rep(a, Root(t.right), t.right, Ref(x));
    }
    RepFixesLinks(a, r2, Root(t), t, par);
    forall i | 0 <= i < |a|
      ensures r2[i] == a[i]
    {
      if i in Nodes(t) {
        assert SameLinks(a, r2, i);
      } else if Ref(i) == par {
        assert r2[i].parent == a[i].parent;
      } else {
        assert r[i] == a[i];
      }
    }
  }

  /** Rotating right at the node a left rotation lifted gives back the
      arena the left rotation started from. */
  lemma RotateRightUndoesRotateLeft(a: Arena, t: Tree, par: Link)
    requires Closed(a) && t.Branch? && t.right.Branch?
    requires Rep(a, Root(t), t, par)
    requires par.Ref? ==> par.idx !in Nodes(t)
    requires Slot(a, par, t.idx)
    requires par.Ref? ==> a[par.idx].left != Ref(t.right.idx) && a[par.idx].right != Ref(t.right.idx)
    ensures RotateLeft(a, t.idx).Ok?
    ensures RotateRight(RotateLeft(a, t.idx).value, t.right.idx) == Ok(a)
  {
    var x, y := t.idx, t.right.idx;
    RotateLeftReady(a, t, par);
    RotateLeftDoes(a, x, y);
    RotateLeftSpec(a, t, par);
    var r := RotateLeft(a, x).value;
    var t' := RotL(t);
    RotationsKeepOrder(t);
    assert Nodes(t') == Nodes(t);
    RotateRightReady(r, t', par);
    RotateRightDoes(r, y, x);
    RotateRightSpec(r, t', par);
    var r2 := RotateRight(r, y).value;
    RotatedBack(a, r, r2, t, par);
  }
}
