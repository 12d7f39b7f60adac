/** The four cases that rebalance a red-black tree after an insertion, on
    the node arena of module `Tree`.  The fourth case is given twice: as
    written, rotating the parent, and corrected, rotating the grandparent,
    and so is the dispatch that picks the case: `BalanceInsertAsWritten`
    uses the fourth case as written, `BalanceInsert` the corrected one. */
module TreeBalance {
  import opened Wrappers
  import opened Tree

  /** Two arenas holding the same keys at the same addresses. */
  predicate SameKeys(a: Arena, b: Arena) {
    |a| == |b| && forall i :: 0 <= i < |a| ==> a[i].addr == b[i].addr && a[i].key == b[i].key
  }

  /** Two arenas with the same nodes and links, whose colours may differ. */
  predicate SameShape(a: Arena, b: Arena) {
    |a| == |b| &&
    forall i :: 0 <= i < |a| ==> SameLinks(a, b, i) && a[i].addr == b[i].addr && a[i].key == b[i].key
  }

  /** The arena differs from `a` at most in the colours of `s`. */
  predicate RecolouredOnly(a: Arena, b: Arena, s: set<nat>) {
    SameShape(a, b) && forall i :: 0 <= i < |a| && i !in s ==> b[i] == a[i]
  }

  /** Recolouring keeps every tree the arena holds. */
  lemma {:induction false} RecolourKeepsRep(a: Arena, b: Arena, l: Link, t: Tree, par: Link)
    requires SameShape(a, b) && Rep(a, l, t, par)
    ensures Rep(b, l, t, par)
  {
    RepInRange(a, l, t, par);
    RepFrame(a, b, l, t, par);
  }

  // ----- the red-black invariant -----

  /** A null link or a black node. */
  predicate Blackish(a: Arena, t: Tree) {
    t.Leaf? || (t.idx < |a| && a[t.idx].color == Black)
  }

  /** `t` has `h` black nodes on every path from its root to a leaf, and no
      red node of `t` has a red child. */
  predicate RedBlack(a: Arena, t: Tree, h: nat)
    decreases t
  {
    match t
    case Leaf => h == 0
    case Branch(l, i, r) =>
      i < |a| &&
      if a[i].color == Black then
        h >= 1 && RedBlack(a, l, h - 1) && RedBlack(a, r, h - 1)
      else
        Blackish(a, l) && Blackish(a, r) && RedBlack(a, l, h) && RedBlack(a, r, h)
  }

  /** The invariant depends only on the colours of the tree's own nodes. */
  lemma {:induction false} RedBlackFrame(a: Arena, b: Arena, t: Tree, h: nat)
    requires RedBlack(a, t, h)
    requires forall i :: i in Nodes(t) ==> i < |a| && i < |b| && b[i].color == a[i].color
    ensures RedBlack(b, t, h)
    decreases t
  {
    if t.Branch? {
      assert t.idx in Nodes(t);
      var h' := if a[t.idx].color == Black then h - 1 else h;
      assert t.left.Branch? ==> t.left.idx in Nodes(t);
      assert t.right.Branch? ==> t.right.idx in Nodes(t);
      RedBlackFrame(a, b, t.left, h');
      RedBlackFrame(a, b, t.right, h');
    }
  }

  /** Rotations keep every colour, hence the invariant of every tree. */
  lemma {:induction false} RedBlackSameNodes(a: Arena, b: Arena, t: Tree, h: nat)
    requires SameNodes(a, b) && RedBlack(a, t, h)
    ensures RedBlack(b, t, h) && (Blackish(a, t) ==> Blackish(b, t))
    decreases t
  {
    if t.Branch? {
      var h' := if a[t.idx].color == Black then h - 1 else h;
      RedBlackSameNodes(a, b, t.left, h');
      RedBlackSameNodes(a, b, t.right, h');
      assert Blackish(a, t.left) ==> Blackish(b, t.left);
      assert Blackish(a, t.right) ==> Blackish(b, t.right);
    }
  }

  // ----- cases 1 to 3 -----

  /** Case 1: the node is the root, and turns black. */
  function Balance1(a: Arena, n: nat): (r: Arena)
    requires Closed(a) && n < |a|
    ensures Closed(r) && RecolouredOnly(a, r, {n}) && r[n].color == Black
  {
    WithColor(a, n, Black)
  }

  /** Case 1 keeps the tree the root heads, now with a black root. */
  lemma Balance1BlackensRoot(a: Arena, t: Tree, h: nat)
    requires Closed(a) && t.Branch? && Rep(a, Root(t), t, Null) && RedBlack(a, t.left, h) && RedBlack(a, t.right, h)
    ensures var r := Balance1(a, t.idx);
            Rep(r, Root(t), t, Null) && RedBlack(r, t, h + 1)
  {
    var r := Balance1(a, t.idx);
    RecolourKeepsRep(a, r, Root(t), t, Null);
    RepInRange(a, Root(t), t, Null);
    assert t.idx !in Nodes(t.left) && t.idx !in Nodes(t.right);
    assert Nodes(t.left) <= Nodes(t) && Nodes(t.right) <= Nodes(t);
    RedBlackFrame(a, r, t.left, h);
    RedBlackFrame(a, r, t.right, h);
  }

  /** Case 3: parent and uncle are red.  Both turn black and the
      grandparent red; the grandparent is then rebalanced in turn.  A
      missing parent, uncle or grandparent is a null dereference. */
  function Balance3(a: Arena, n: nat): (r: Result<(Arena, nat)>)
    requires Closed(a) && n < |a|
    ensures r.Err? <==> a[n].parent.Null? || Uncle(a, n).Null? || Grandparent(a, n).Null?
    ensures r.Err? ==> r.IsPanic()
    ensures r.Ok? ==>
              var (b, g) := r.value;
              var p := a[n].parent.idx;
              var u := Uncle(a, n).idx;
              && Closed(b) && RecolouredOnly(a, b, {p, u, g})
              && Ref(g) == a[p].parent
              && b[p].color == (if p == g then Red else Black)
              && b[u].color == (if u == g then Red else Black)
              && b[g].color == Red
  {
    if a[n].parent.Null? then Err(Panic("parent of the root dereferenced"))
    else
      var p := a[n].parent.idx;
      var u := Uncle(a, n);
      var g := Grandparent(a, n);
      if u.Null? then Err(Panic("null uncle dereferenced"))
      else if g.Null? then Err(Panic("null grandparent dereferenced"))
      else
        var a1 := WithColor(a, p, Black);
        var a2 := WithColor(a1, u.idx, Black);
        Ok((WithColor(a2, g.idx, Red), g.idx))
  }

  /** In a represented tree, case 3 on a grandchild `n` of `t`'s root
      recolours exactly the parent, the uncle and the grandparent. */
  lemma Balance3InTree(a: Arena, t: Tree, gpar: Link, n: nat)
    requires Closed(a) && t.Branch? && t.left.Branch? && t.right.Branch?
    requires Rep(a, Root(t), t, gpar)
    requires n in Children(t.left)
    ensures n < |a| && Balance3(a, n).Ok?
    ensures var (r, g) := Balance3(a, n).value;
            && g == t.idx && RecolouredOnly(a, r, {t.left.idx, t.right.idx, t.idx})
            && r[t.left.idx].color == Black && r[t.right.idx].color == Black && r[g].color == Red
  {
    var g, p, u := t.idx, t.left.idx, t.right.idx;
    FamilyInTree(a, t, gpar);
    RepInRange(a, Root(t), t, gpar);
    assert Rep(a, Root(t.left), t.left, Ref(g)) && Rep(a, Root(t.right), t.right, Ref(g));
    assert Rep(a, Root(t.left.left), t.left.left, Ref(p)) && Rep(a, Root(t.left.right), t.left.right, Ref(p));
    assert a[n].parent == Ref(p);
    assert p in Nodes(t.left) && u in Nodes(t.right);
    assert p != g && u != g && p != u;
  }

  /** Recolouring as case 3 does makes the subtree at `g` satisfy the
      red-black invariant with a red root, one black node deeper than the
      four subtrees below `p` and `u`. */
  lemma Recoloured3IsRedBlack(a: Arena, r: Arena, t: Tree, gpar: Link, k: nat)
    requires t.Branch? && t.left.Branch? && t.right.Branch?
    requires Rep(a, Root(t), t, gpar)
    requires RecolouredOnly(a, r, {t.left.idx, t.right.idx, t.idx})
    requires t.left.idx < |r| && t.right.idx < |r| && r[t.left.idx].color == Black && r[t.right.idx].color == Black && r[t.idx].color == Red
    requires RedBlack(a, t.left.left, k) && RedBlack(a, t.left.right, k)
    requires RedBlack(a, t.right.left, k) && RedBlack(a, t.right.right, k)
    ensures Rep(r, Root(t), t, gpar) && RedBlack(r, t, k + 1)
  {
    var g, p, u := t.idx, t.left.idx, t.right.idx;
    RepInRange(a, Root(t), t, gpar);
    RecolourKeepsRep(a, r, Root(t), t, gpar);
    assert Rep(a, Root(t.left), t.left, Ref(g)) && Rep(a, Root(t.right), t.right, Ref(g));
    assert p in Nodes(t.left) && u in Nodes(t.right);
    var s := {p, u, g};
    forall c | c in [t.left.left, t.left.right, t.right.left, t.right.right]
      ensures RedBlack(r, c, k)
    {
      assert Nodes(c) !! s;
      assert Nodes(c) <= Nodes(t);
      RedBlackFrame(a, r, c, k);
    }
  }

  /** Case 3 on a node `n` below a red parent `p` (the left child of `g`)
      whose uncle `u` is red: `p` and `u` turn black and `g` red, the tree
      keeps its shape, and the subtree at `g` satisfies the red-black
      invariant with a red root, one black node deeper than the four
      subtrees below `p` and `u`.  Rebalancing goes on at `g`. */
  lemma Balance3PushesUp(a: Arena, t: Tree, gpar: Link, n: nat, k: nat)
    requires Closed(a) && t.Branch? && t.left.Branch? && t.right.Branch?
    requires Rep(a, Root(t), t, gpar)
    requires n in Children(t.left)
    requires RedBlack(a, t.left.left, k) && RedBlack(a, t.left.right, k)
    requires RedBlack(a, t.right.left, k) && RedBlack(a, t.right.right, k)
    ensures n < |a| && Balance3(a, n).Ok?
    ensures var (r, g) := Balance3(a, n).value;
            && g == t.idx && Rep(r, Root(t), t, gpar)
            && r[g].color == Red && RedBlack(r, t, k + 1)
  {
    Balance3InTree(a, t, gpar, n);
    Recoloured3IsRedBlack(a, Balance3(a, n).value.0, t, gpar, k);
  }

  // ----- case 4 -----

  /** The first half of case 4: a node that is the inner grandchild (the
      right child of a left child, or the mirror image) is rotated to the
      outside, and its old parent takes its role.  Returns the arena and the
      node now in that role. */
  function Straighten(a: Arena, n: nat): (r: Result<(Arena, nat)>)
    requires Closed(a) && n < |a|
    ensures r.Ok? ==> Closed(r.value.0) && SameNodes(a, r.value.0) && r.value.1 < |a|
    ensures r.Err? ==> r.IsPanic()
    ensures a[n].parent.Null? || Grandparent(a, n).Null? ==> r.Err?
  {
    if a[n].parent.Null? then Err(Panic("parent of the root dereferenced"))
    else
      var p := a[n].parent.idx;
      if a[p].parent.Null? then Err(Panic("null grandparent dereferenced"))
      else
        var g := a[p].parent.idx;
        if Ref(n) == a[p].right && Ref(p) == a[g].left then
          match RotateLeft(a, p)
          case Err(e) => Err(e)
          case Ok(a1) => if a1[n].left.Null? then Err(Panic("null node dereferenced")) else Ok((a1, a1[n].left.idx))
        else if Ref(n) == a[p].left && Ref(p) == a[g].right then
          match RotateRight(a, p)
          case Err(e) => Err(e)
          case Ok(a1) => if a1[n].right.Null? then Err(Panic("null node dereferenced")) else Ok((a1, a1[n].right.idx))
        else Ok((a, n))
  }

  /** The last step of case 4: the parent turns black and the grandparent
      red. */
  function Recolour4(a: Arena, p: nat, g: Link): (r: Result<Arena>)
    requires Closed(a) && p < |a| && InRange(a, g)
    ensures r.Err? <==> g.Null?
    ensures r.Err? ==> r.IsPanic()
    ensures r.Ok? ==> Closed(r.value) && RecolouredOnly(a, r.value, {p, g.idx})
                      && r.value[g.idx].color == Red && (p != g.idx ==> r.value[p].color == Black)
  {
    if g.Null? then Err(Panic("null grandparent dereferenced"))
    else Ok(WithColor(WithColor(a, p, Black), g.idx, Red))
  }

  /** Case 4 as written: after straightening, it rotates the parent (right
      when the node is its left child, else left) and then recolours. */
  function Balance4AsWritten(a: Arena, n: nat): (r: Result<Arena>)
    requires Closed(a) && n < |a|
    ensures r.Ok? ==> Closed(r.value) && SameKeys(a, r.value)
    ensures r.Err? ==> r.IsPanic()
  {
    match Straighten(a, n)
    case Err(e) => Err(e)
    case Ok((a2, n2)) =>
      if a2[n2].parent.Null? then Err(Panic("parent of the root dereferenced"))
      else
        var p := a2[n2].parent.idx;
        var g := Grandparent(a2, n2);
        var rotated := if Some(a2[n2].addr) == LeftId(a2, p) then RotateRight(a2, p) else RotateLeft(a2, p);
        match rotated
        case Err(e) => Err(e)
        case Ok(a3) => Recolour4(a3, p, g)
  }

  /** Case 4, corrected: after straightening, the grandparent is rotated
      (right when the node is its parent's left child, else left), so the
      parent takes the grandparent's place. */
  function Balance4(a: Arena, n: nat): (r: Result<Arena>)
    requires Closed(a) && n < |a|
    ensures r.Ok? ==> Closed(r.value) && SameKeys(a, r.value)
    ensures r.Err? ==> r.IsPanic()
  {
    match Straighten(a, n)
    case Err(e) => Err(e)
    case Ok((a2, n2)) =>
      if a2[n2].parent.Null? then Err(Panic("parent of the root dereferenced"))
      else
        var p := a2[n2].parent.idx;
        var g := Grandparent(a2, n2);
        if g.Null? then Err(Panic("null grandparent dereferenced"))
        else
          var rotated := if Ref(n2) == a2[p].left then RotateRight(a2, g.idx) else RotateLeft(a2, g.idx);
          match rotated
          case Err(e) => Err(e)
          case Ok(a3) => Recolour4(a3, p, g)
  }

  // ----- dispatch -----

  /** `balance_insert` as written: picks the case for the freshly inserted
      node `n`, with case 4 rotating the parent.  Case 3 recurses on the
      grandparent; `fuel` bounds that recursion. */
  function BalanceInsertAsWritten(a: Arena, n: nat, fuel: nat): (r: Result<Arena>)
    requires Closed(a) && n < |a|
    ensures r.Ok? ==> Closed(r.value) && SameKeys(a, r.value)
    ensures r.Err? ==> r.IsPanic()
    decreases fuel
  {
    if a[n].parent.Null? then Ok(Balance1(a, n))
    else if a[a[n].parent.idx].color == Black then Ok(a)
    else
      var u := Uncle(a, n);
      if u.Ref? && a[u.idx].color == Red then
        match Balance3(a, n)
        case Err(e) => Err(e)
        case Ok((b, g)) =>
          if fuel == 0 then Err(Panic("rebalancing bound reached"))
          else BalanceInsertAsWritten(b, g, fuel - 1)
      else Balance4AsWritten(a, n)
  }

  /** `balance_insert` corrected: the same dispatch with the corrected
      case 4, rotating the grandparent. */
  function BalanceInsert(a: Arena, n: nat, fuel: nat): (r: Result<Arena>)
    requires Closed(a) && n < |a|
    ensures r.Ok? ==> Closed(r.value) && SameKeys(a, r.value)
    ensures r.Err? ==> r.IsPanic()
    decreases fuel
  {
    if a[n].parent.Null? then Ok(Balance1(a, n))
    else if a[a[n].parent.idx].color == Black then Ok(a)
    else
      var u := Uncle(a, n);
      if u.Ref? && a[u.idx].color == Red then
        match Balance3(a, n)
        case Err(e) => Err(e)
        case Ok((b, g)) =>
          if fuel == 0 then Err(Panic("rebalancing bound reached"))
          else BalanceInsert(b, g, fuel - 1)
      else Balance4(a, n)
  }

  // ----- what case 4 achieves -----

  /** In the outer left configuration (the node is the left child of a
      left child) straightening changes nothing. */
  lemma StraightenOuterLeft(a: Arena, t: Tree, gpar: Link)
    requires Closed(a) && t.Branch? && t.left.Branch? && t.left.left.Branch?
    requires Rep(a, Root(t), t, gpar)
    ensures t.left.left.idx < |a| && Straighten(a, t.left.left.idx) == Ok((a, t.left.left.idx))
  {
    RepInRange(a, Root(t), t, gpar);
    var g, p, n := t.idx, t.left.idx, t.left.left.idx;
    assert Rep(a, Root(t.left), t.left, Ref(g));
    assert Rep(a, Root(t.left.left), t.left.left, Ref(p));
    assert n in Nodes(t.left.left);
    assert p in Nodes(t.left);
    assert a[p].right != Ref(n) by {
      if t.left.right.Branch? {
        assert t.left.right.idx in Nodes(t.left.right);
      }
    }
    assert a[g].right != Ref(p) by {
      if t.right.Branch? {
        assert t.right.idx in Nodes(t.right);
      }
    }
  }

  /** The colours of the nodes outside `s` are those of `a`. */
  lemma KeepsColoursOutside(a: Arena, r: Arena, t: Tree, s: set<nat>)
    requires forall i :: 0 <= i < |a| && i !in s ==> i < |r| && r[i].color == a[i].color
    requires forall i :: i in Nodes(t) ==> i < |a|
    requires Nodes(t) !! s
    ensures forall i :: i in Nodes(t) ==> i < |a| && i < |r| && r[i].color == a[i].color
  {
  }

  /** In the outer left configuration the corrected case 4 is a right
      rotation at the grandparent followed by the recolouring. */
  lemma Balance4OuterLeftSteps(a: Arena, t: Tree, gpar: Link)
    requires Closed(a) && t.Branch? && t.left.Branch? && t.left.left.Branch?
    requires Rep(a, Root(t), t, gpar)
    ensures t.idx < |a| && t.left.idx < |a| && t.left.left.idx < |a|
    ensures RotateRight(a, t.idx).Ok?
    ensures var r1 := RotateRight(a, t.idx).value;
            Closed(r1) && Balance4(a, t.left.left.idx) == Recolour4(r1, t.left.idx, Ref(t.idx))
  {
    var g, p, n := t.idx, t.left.idx, t.left.left.idx;
    StraightenOuterLeft(a, t, gpar);
    assert Rep(a, Root(t.left), t.left, Ref(g));
    assert Rep(a, Root(t.left.left), t.left.left, Ref(p));
    assert a[n].parent == Ref(p) && a[p].parent == Ref(g) && a[p].left == Ref(n) && a[g].left == Ref(p);
  }

  /** Recolouring a right-rotated subtree as case 4 does: with `p` black
      and `g` red, the rotated subtree satisfies the red-black invariant
      one level higher than the subtrees below it. */
  lemma RecolouredRotationIsRedBlack(a: Arena, r1: Arena, r: Arena, t: Tree, gpar: Link, h: nat)
    requires t.Branch? && t.left.Branch?
    requires Rep(a, Root(t), t, gpar) && SameNodes(a, r1)
    requires Rep(r1, Root(RotR(t)), RotR(t), gpar)
    requires RecolouredOnly(r1, r, {t.idx, t.left.idx})
    requires r[t.left.idx].color == Black && r[t.idx].color == Red
    requires RedBlack(a, t.left.left, h) && RedBlack(a, t.left.right, h) && RedBlack(a, t.right, h)
    requires Blackish(a, t.left.right) && Blackish(a, t.right)
    ensures Rep(r, Root(RotR(t)), RotR(t), gpar) && RedBlack(r, RotR(t), h + 1)
  {
    var g, p := t.idx, t.left.idx;
    var tn, tc, tu := t.left.left, t.left.right, t.right;
    RecolourKeepsRep(r1, r, Root(RotR(t)), RotR(t), gpar);
    RepInRange(a, Root(t), t, gpar);
    assert g !in Nodes(tn) && g !in Nodes(tc) && g !in Nodes(tu) && p !in Nodes(tn) && p !in Nodes(tc) && p !in Nodes(tu) by {
      assert Rep(a, Root(t.left), t.left, Ref(g));
      assert Nodes(t.left) !! Nodes(tu);
      assert p in Nodes(t.left);
    }
    assert Nodes(tn) <= Nodes(t) && Nodes(tc) <= Nodes(t) && Nodes(tu) <= Nodes(t);
    assert forall i :: 0 <= i < |a| && i !in {p, g} ==> r[i].color == a[i].color;
    KeepsColoursOutside(a, r, tn, {p, g});
    KeepsColoursOutside(a, r, tc, {p, g});
    KeepsColoursOutside(a, r, tu, {p, g});
    RedBlackFrame(a, r, tn, h);
    RedBlackFrame(a, r, tc, h);
    RedBlackFrame(a, r, tu, h);
    assert tc.Branch? ==> tc.idx in Nodes(tc);
    assert tu.Branch? ==> tu.idx in Nodes(tu);
    assert RedBlack(r, Branch(tc, g, tu), h);
  }

  /** The corrected case 4, applied to a node `n` whose red parent `p` is
      the left child of its black grandparent `g`, when `n` is `p`'s left
      child and the uncle is black or null: the grandparent rotates right,
      `p` heads the subtree in `g`'s place, and the subtree satisfies the
      red-black invariant with one more black node on every path, provided
      the three subtrees below satisfied it with equal black heights.  The
      in-order sequence is unchanged. */
  lemma Balance4FixesOuterLeft(a: Arena, t: Tree, gpar: Link, h: nat)
    requires Closed(a) && t.Branch? && t.left.Branch? && t.left.left.Branch?
    requires Rep(a, Root(t), t, gpar) && (gpar.Ref? ==> gpar.idx !in Nodes(t)) && Slot(a, gpar, t.idx)
    requires a[t.idx].color == Black && a[t.left.idx].color == Red
    requires RedBlack(a, t.left.left, h) && RedBlack(a, t.left.right, h) && RedBlack(a, t.right, h)
    requires Blackish(a, t.left.right) && Blackish(a, t.right)
    ensures Balance4(a, t.left.left.idx).Ok?
    ensures var r := Balance4(a, t.left.left.idx).value;
            && Rep(r, Root(RotR(t)), RotR(t), gpar)
            && RedBlack(r, RotR(t), h + 1) && r[t.left.idx].color == Black
            && Order(RotR(t)) == Order(t)
  {
    var g, p, n := t.idx, t.left.idx, t.left.left.idx;
    Balance4OuterLeftSteps(a, t, gpar);
    RotateRightSpec(a, t, gpar);
    RotationsKeepOrder(t);
    var r1 := RotateRight(a, g).value;
    var r := Recolour4(r1, p, Ref(g)).value;
    assert p != g by {
      assert Rep(a, Root(t.left), t.left, Ref(g));
      assert p in Nodes(t.left);
    }
    RecolouredRotationIsRedBlack(a, r1, r, t, gpar, h);
    assert g in Nodes(t) && p in Nodes(t);
  }

  /** In the same configuration, the corrected case 4 re-points the link
      above the subtree at `p` and writes nothing outside the subtree. */
  lemma Balance4OuterLeftFrame(a: Arena, t: Tree, gpar: Link)
    requires Closed(a) && t.Branch? && t.left.Branch? && t.left.left.Branch?
    requires Rep(a, Root(t), t, gpar) && (gpar.Ref? ==> gpar.idx !in Nodes(t)) && Slot(a, gpar, t.idx)
    ensures t.left.left.idx < |a| && Balance4(a, t.left.left.idx).Ok?
    ensures var r := Balance4(a, t.left.left.idx).value;
            && |r| == |a|
            && Moved(a, r, gpar, t.idx, t.left.idx)
            && (forall i :: 0 <= i < |a| && i !in Nodes(t) && Ref(i) != gpar ==> r[i] == a[i])
  {
    var g, p := t.idx, t.left.idx;
    Balance4OuterLeftSteps(a, t, gpar);
    RotateRightSpec(a, t, gpar);
    var r1 := RotateRight(a, g).value;
    var r := Recolour4(r1, p, Ref(g)).value;
    assert g in Nodes(t) && p in Nodes(t) by {
      assert Rep(a, Root(t.left), t.left, Ref(g));
    }
    assert forall i :: 0 <= i < |a| && i != g && i != p ==> r[i] == r1[i];
  }

  /** The tree after straightening an inner left grandchild: `p` rotated
      left under `g`. */
  function StraightenedLeft(t: Tree): Tree
    requires t.Branch? && t.left.Branch? && t.left.right.Branch?
  {
    Branch(RotL(t.left), t.idx, t.right)
  }

  /** An arena in which the parent of an inner left grandchild was
      rotated left holds the straightened tree. */
  lemma StraightenedLeftRep(a: Arena, a1: Arena, t: Tree, gpar: Link)
    requires Closed(a) && t.Branch? && t.left.Branch? && t.left.right.Branch?
    requires Rep(a, Root(t), t, gpar) && (gpar.Ref? ==> gpar.idx !in Nodes(t))
    requires LeftRotated(a, a1, t.left.idx, t.left.right.idx) && SameNodes(a, a1)
    ensures Rep(a1, Root(StraightenedLeft(t)), StraightenedLeft(t), gpar)
    ensures Nodes(StraightenedLeft(t)) == Nodes(t)
  {
    var g, p, n := t.idx, t.left.idx, t.left.right.idx;
    var tu := t.right;
    RepInRange(a, Root(t), t, gpar);
    assert Rep(a, Root(t.left), t.left, Ref(g));
    assert g in Nodes(t) && p in Nodes(t.left) && Nodes(t.left) <= Nodes(t);
    assert Slot(a, Ref(g), p);
    LeftRotatedKeepsRep(a, a1, t.left, Ref(g));
    RotationsKeepOrder(t.left);
    assert Nodes(RotL(t.left)) == Nodes(t.left);
    assert a1[g] == a[g].(left := Ref(n)) by {
      assert a[g].left == Ref(p);
    }
    assert forall i :: i in Nodes(tu) ==> i < |a| && i !in Nodes(t.left) && i != g;
    assert Rep(a1, Root(tu), tu, Ref(g)) by {
      RepUntouched(a, a1, Root(tu), tu, Ref(g), Nodes(t.left) + {g});
    }
    RepJoin(a1, RotL(t.left), g, tu, gpar);
  }

  /** The parent of an inner left grandchild can be rotated left. */
  lemma InnerLeftRotatable(a: Arena, t: Tree, gpar: Link)
    requires Closed(a) && t.Branch? && t.left.Branch? && t.left.right.Branch?
    requires Rep(a, Root(t), t, gpar) && (gpar.Ref? ==> gpar.idx !in Nodes(t))
    ensures var p, n := t.left.idx, t.left.right.idx;
            && p < |a| && a[p].right == Ref(n) && p != n
            && a[n].left != Ref(p) && a[n].left != Ref(n)
            && a[p].parent == Ref(t.idx) && t.idx != p && t.idx != n
            && a[n].left != Ref(t.idx)
            && Slot(a, a[p].parent, p)
            && (gpar.Ref? ==> gpar.idx != p && gpar.idx != n && Ref(gpar.idx) != a[n].left)
  {
    var g, p, n := t.idx, t.left.idx, t.left.right.idx;
    var tb := t.left.right.left;
    RepInRange(a, Root(t), t, gpar);
    assert Rep(a, Root(t.left), t.left, Ref(g));
    assert Rep(a, Root(t.left.right), t.left.right, Ref(p));
    assert g !in Nodes(t.left);
    assert p in Nodes(t.left) && n in Nodes(t.left.right) && Nodes(t.left.right) <= Nodes(t.left);
    assert p != n;
    assert tb.Branch? ==> tb.idx in Nodes(t.left.right) && tb.idx != n && tb.idx != p;
    assert a[n].left == Root(tb);
    assert g in Nodes(t) && Nodes(t.left) <= Nodes(t);
  }

  /** Rotating the parent of an inner left grandchild leaves the arena
      holding the straightened tree. */
  lemma StraightenLeftTree(a: Arena, t: Tree, gpar: Link)
    requires Closed(a) && t.Branch? && t.left.Branch? && t.left.right.Branch?
    requires Rep(a, Root(t), t, gpar) && (gpar.Ref? ==> gpar.idx !in Nodes(t)) && Slot(a, gpar, t.idx)
    ensures t.left.idx < |a| && RotateLeft(a, t.left.idx).Ok?
    ensures var a1 := RotateLeft(a, t.left.idx).value;
            var t1 := StraightenedLeft(t);
            && Closed(a1) && SameNodes(a, a1) && Rep(a1, Root(t1), t1, gpar)
            && Nodes(t1) == Nodes(t) && Slot(a1, gpar, t.idx)
  {
    var p, n := t.left.idx, t.left.right.idx;
    InnerLeftRotatable(a, t, gpar);
    RotateLeftDoes(a, p, n);
    var a1 := RotateLeft(a, p).value;
    StraightenedLeftRep(a, a1, t, gpar);
    assert gpar.Ref? ==> a1[gpar.idx] == a[gpar.idx];
  }

  /** When the node is the right child of a left child, straightening
      rotates the parent left, after which case 4 goes on from the old
      parent exactly as in the outer left configuration. */
  lemma Balance4InnerLeftSteps(a: Arena, t: Tree, gpar: Link)
    requires Closed(a) && t.Branch? && t.left.Branch? && t.left.right.Branch?
    requires Rep(a, Root(t), t, gpar) && (gpar.Ref? ==> gpar.idx !in Nodes(t)) && Slot(a, gpar, t.idx)
    ensures t.left.idx < |a| && t.left.right.idx < |a| && RotateLeft(a, t.left.idx).Ok?
    ensures var a1 := RotateLeft(a, t.left.idx).value;
            Closed(a1) && Balance4(a, t.left.right.idx) == Balance4(a1, t.left.idx)
  {
    var g, p, n := t.idx, t.left.idx, t.left.right.idx;
    StraightenLeftTree(a, t, gpar);
    var a1 := RotateLeft(a, p).value;
    var t1 := StraightenedLeft(t);
    assert Rep(a, Root(t.left), t.left, Ref(g));
    assert Rep(a, Root(t.left.right), t.left.right, Ref(p));
    assert Rep(a1, Root(t1.left), t1.left, Ref(g));
    assert a[n].parent == Ref(p) && a[p].parent == Ref(g) && a[p].right == Ref(n) && a[g].left == Ref(p);
    assert a1[n].left == Ref(p);
    assert Straighten(a, n) == Ok((a1, p));
    StraightenOuterLeft(a1, t1, gpar);
  }

  /** The corrected case 4, applied to a node `n` that is the right child
      of its red parent `p`, itself the left child of the black
      grandparent `g`, when the uncle is black or null: `p` rotates left,
      then `g` rotates right, so `n` heads the subtree with `p` and `g` as
      its children; the subtree satisfies the red-black invariant with one
      more black node on every path and keeps its in-order sequence. */
  lemma Balance4FixesInnerLeft(a: Arena, t: Tree, gpar: Link, h: nat)
    requires Closed(a) && t.Branch? && t.left.Branch? && t.left.right.Branch?
    requires Rep(a, Root(t), t, gpar) && (gpar.Ref? ==> gpar.idx !in Nodes(t)) && Slot(a, gpar, t.idx)
    requires t.left.right.idx < |a| && a[t.idx].color == Black && a[t.left.idx].color == Red && a[t.left.right.idx].color == Red
    requires RedBlack(a, t.left.left, h) && RedBlack(a, t.left.right.left, h)
    requires RedBlack(a, t.left.right.right, h) && RedBlack(a, t.right, h)
    requires Blackish(a, t.left.left) && Blackish(a, t.left.right.left)
    requires Blackish(a, t.left.right.right) && Blackish(a, t.right)
    ensures t.left.right.idx < |a| && Balance4(a, t.left.right.idx).Ok?
    ensures var r := Balance4(a, t.left.right.idx).value;
            var t2 := RotR(StraightenedLeft(t));
            && Rep(r, Root(t2), t2, gpar) && RedBlack(r, t2, h + 1)
            && t2.idx == t.left.right.idx && r[t2.idx].color == Black
            && Order(t2) == Order(t)
  {
    var g, p, n := t.idx, t.left.idx, t.left.right.idx;
    var ta, tb, tc, tu := t.left.left, t.left.right.left, t.left.right.right, t.right;
    Balance4InnerLeftSteps(a, t, gpar);
    StraightenLeftTree(a, t, gpar);
    var a1 := RotateLeft(a, p).value;
    var t1 := StraightenedLeft(t);
    RedBlackSameNodes(a, a1, ta, h);
    RedBlackSameNodes(a, a1, tb, h);
    RedBlackSameNodes(a, a1, tc, h);
    RedBlackSameNodes(a, a1, tu, h);
    assert RedBlack(a1, t1.left.left, h);
    Balance4FixesOuterLeft(a1, t1, gpar, h);
    RotationsKeepOrder(t.left);
  }

  // ----- the rotation case 4 performs, as written and corrected -----

  /** Three nodes in a left-leaning line: a black grandparent 0 (key 30),
      its red left child 1 (key 20) and that node's red left child 2 (key
      10), freshly inserted; the uncle is null. */
  function LineArena(): Arena {
    [ Node(0, 30, Black, Null, Ref(1), Null),
      Node(1, 20, Red, Ref(0), Ref(2), Null),
      Node(2, 10, Red, Ref(1), Null, Null) ]
  }

  /** Case 4 as written rotates node 1 instead of node 0: node 0 stays on
      top, turns red and gets the red node 2 as its left child, so a red
      node keeps a red child and the root is red. */
  lemma Balance4AsWrittenLeavesRedRed()
    ensures var t := Branch(Branch(Branch(Leaf, 2, Leaf), 1, Leaf), 0, Leaf);
            && Closed(LineArena()) && Rep(LineArena(), Ref(0), t, Null)
            && Balance4AsWritten(LineArena(), 2).Ok?
            && var r := Balance4AsWritten(LineArena(), 2).value;
               var t' := Branch(Branch(Leaf, 2, Branch(Leaf, 1, Leaf)), 0, Leaf);
               && Rep(r, Ref(0), t', Null) && Order(t') == Order(t)
               && r[0].color == Red && r[2].color == Red
               && forall h :: !RedBlack(r, t', h)
  {
    var a := LineArena();
    var r1 := [ Node(0, 30, Black, Null, Ref(2), Null),
                Node(1, 20, Red, Ref(2), Null, Null),
                Node(2, 10, Red, Ref(0), Null, Ref(1)) ];
    assert Straighten(a, 2) == Ok((a, 2));
    RotateRightDoes(a, 1, 2);
    var q := RotateRight(a, 1).value;
    assert q[0] == r1[0] && q[1] == r1[1] && q[2] == r1[2];
    assert q == r1;
    var r := [ Node(0, 30, Red, Null, Ref(2), Null),
               Node(1, 20, Black, Ref(2), Null, Null),
               Node(2, 10, Red, Ref(0), Null, Ref(1)) ];
    var c := Recolour4(r1, 1, Ref(0)).value;
    assert c[0] == r[0] && c[1] == r[1] && c[2] == r[2];
    assert c == r;
    assert Balance4AsWritten(a, 2) == Ok(r);
  }

  /** The corrected case 4 on the same arena lifts node 1 to the root,
      black, with the red nodes 2 and 0 as its children: a valid red-black
      tree of black height 1 with the same in-order sequence. */
  lemma Balance4BalancesLine()
    ensures var t := Branch(Branch(Branch(Leaf, 2, Leaf), 1, Leaf), 0, Leaf);
            && Balance4(LineArena(), 2).Ok?
            && var r := Balance4(LineArena(), 2).value;
               var t' := Branch(Branch(Leaf, 2, Leaf), 1, Branch(Leaf, 0, Leaf));
               && Rep(r, Ref(1), t', Null) && Order(t') == Order(t)
               && RedBlack(r, t', 1)
  {
    var a := LineArena();
    var r1 := [ Node(0, 30, Black, Ref(1), Null, Null),
                Node(1, 20, Red, Null, Ref(2), Ref(0)),
                Node(2, 10, Red, Ref(1), Null, Null) ];
    assert Straighten(a, 2) == Ok((a, 2));
    RotateRightDoes(a, 0, 1);
    var q := RotateRight(a, 0).value;
    assert q[0] == r1[0] && q[1] == r1[1] && q[2] == r1[2];
    assert q == r1;
    var r := [ Node(0, 30, Red, Ref(1), Null, Null),
               Node(1, 20, Black, Null, Ref(2), Ref(0)),
               Node(2, 10, Red, Ref(1), Null, Null) ];
    var c := Recolour4(r1, 1, Ref(0)).value;
    assert c[0] == r[0] && c[1] == r[1] && c[2] == r[2];
    assert c == r;
    assert Balance4(a, 2) == Ok(r);
  }

  // ----- rebalancing after an insertion -----

  /** Inserting key 10 below the line 30, 20 as written: the parent is red
      and the uncle null, so `balance_insert` takes case 4, which leaves the
      red root 30 over the red node 10: no longer a red-black tree. */
  lemma BalanceInsertAsWrittenLine(fuel: nat)
    ensures BalanceInsertAsWritten(LineArena(), 2, fuel) == Balance4AsWritten(LineArena(), 2)
    ensures BalanceInsertAsWritten(LineArena(), 2, fuel).Ok?
    ensures var r := BalanceInsertAsWritten(LineArena(), 2, fuel).value;
            var t' := Branch(Branch(Leaf, 2, Branch(Leaf, 1, Leaf)), 0, Leaf);
            && Rep(r, Ref(0), t', Null) && r[0].color == Red && r[2].color == Red
            && forall h :: !RedBlack(r, t', h)
  {
    assert Uncle(LineArena(), 2) == Null;
    Balance4AsWrittenLeavesRedRed();
  }

  /** The same insertion with the corrected dispatch: case 4 yields a valid
      red-black tree headed by node 1. */
  lemma BalanceInsertLine(fuel: nat)
    ensures BalanceInsert(LineArena(), 2, fuel) == Balance4(LineArena(), 2)
    ensures var r := BalanceInsert(LineArena(), 2, fuel).value;
            var t' := Branch(Branch(Leaf, 2, Leaf), 1, Branch(Leaf, 0, Leaf));
            Rep(r, Ref(1), t', Null) && RedBlack(r, t', 1)
  {
    assert Uncle(LineArena(), 2) == Null;
    Balance4BalancesLine();
  }

  /** A black root 0 (key 20) with red children 1 (key 10) and 2 (key 30),
      and a fresh red node 3 (key 5) as 1's left child. */
  function BushArena(): Arena {
    [ Node(0, 20, Black, Null, Ref(1), Ref(2)),
      Node(1, 10, Red, Ref(0), Ref(3), Null),
      Node(2, 30, Red, Ref(0), Null, Null),
      Node(3, 5, Red, Ref(1), Null, Null) ]
  }

  /** Inserting key 5 there: case 3 blackens 1 and 2 and reddens 0, then
      case 1 blackens the root 0 again, leaving a valid red-black tree of
      black height 2.  One level of recursion is needed. */
  lemma BalanceInsertBush()
    ensures BalanceInsertAsWritten(BushArena(), 3, 1).Ok?
    ensures BalanceInsert(BushArena(), 3, 1) == BalanceInsertAsWritten(BushArena(), 3, 1)
    ensures var r := BalanceInsertAsWritten(BushArena(), 3, 1).value;
            var t := Branch(Branch(Branch(Leaf, 3, Leaf), 1, Leaf), 0, Branch(Leaf, 2, Leaf));
            && Rep(r, Ref(0), t, Null) && RedBlack(r, t, 2)
            && r == [ Node(0, 20, Black, Null, Ref(1), Ref(2)),
                      Node(1, 10, Black, Ref(0), Ref(3), Null),
                      Node(2, 30, Black, Ref(0), Null, Null),
                      Node(3, 5, Red, Ref(1), Null, Null) ]
  {
    var a := BushArena();
    assert Uncle(a, 3) == Ref(2);
    var b := [ Node(0, 20, Red, Null, Ref(1), Ref(2)),
               Node(1, 10, Black, Ref(0), Ref(3), Null),
               Node(2, 30, Black, Ref(0), Null, Null),
               Node(3, 5, Red, Ref(1), Null, Null) ];
    var b3 := Balance3(a, 3).value;
    assert b3.1 == 0;
    assert b3.0[0] == b[0] && b3.0[1] == b[1] && b3.0[2] == b[2] && b3.0[3] == b[3];
    assert b3.0 == b;
    var r := Balance1(b, 0);
    assert r[0] == Node(0, 20, Black, Null, Ref(1), Ref(2));
    assert BalanceInsertAsWritten(b, 0, 0) == Ok(r);
    assert BalanceInsert(b, 0, 0) == Ok(r);
  }
}
