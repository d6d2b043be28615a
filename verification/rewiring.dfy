/** Link surgery: after a rotation or a transplant rewrites a few slots of
    the arena, the arena spells out the expected new shape. */
module Rewiring {
  import opened Shapes
  import opened Links

  /** The links of a left rotation at `s.id`: its right child y takes its
      place under q, it becomes y's left child, and y's former left subtree b
      becomes its right subtree; every other node keeps its links. */
  ghost predicate RotatedLeft(ctx: seq<Frame>, s: Tree, lk: Links, lk': Links)
    requires s.Node? && s.right.Node?
  {
    var x, y, b, q := s.id, s.right.id, s.right.left, Up(ctx, NONE);
    Has(lk', y, x, Root(s.right.right), q) &&
    Has(lk', x, Root(s.left), Root(b), y) &&
    (b.Node? ==> Has(lk', b.id, Root(b.left), Root(b.right), x)) &&
    (ctx != [] ==>
       Has(lk', q, if ctx[0].LeftOf? then y else Root(ctx[0].sib),
                   if ctx[0].LeftOf? then Root(ctx[0].sib) else y, Up(ctx[1..], NONE))) &&
    forall j | j in Ids(Plug(ctx, s)) && j != x && j != y && j != Root(b) && j != q ::
      SameSlot(j, lk, lk')
  }

  ghost predicate RotatedRight(ctx: seq<Frame>, s: Tree, lk: Links, lk': Links)
    requires s.Node? && s.left.Node?
  {
    var x, y, b, q := s.id, s.left.id, s.left.right, Up(ctx, NONE);
    Has(lk', y, Root(s.left.left), x, q) &&
    Has(lk', x, Root(b), Root(s.right), y) &&
    (b.Node? ==> Has(lk', b.id, Root(b.left), Root(b.right), x)) &&
    (ctx != [] ==>
       Has(lk', q, if ctx[0].LeftOf? then y else Root(ctx[0].sib),
                   if ctx[0].LeftOf? then Root(ctx[0].sib) else y, Up(ctx[1..], NONE))) &&
    forall j | j in Ids(Plug(ctx, s)) && j != x && j != y && j != Root(b) && j != q ::
      SameSlot(j, lk, lk')
  }

  lemma {:induction false} RotLLocal(s: Tree, q: int, lk: Links, lk': Links)
    requires s.Node? && s.right.Node? && Linked(s, q, lk) && Distinct(s) && NIL !in Ids(s)
    requires var x, y, b := s.id, s.right.id, s.right.left;
      Has(lk', y, x, Root(s.right.right), q) &&
      Has(lk', x, Root(s.left), Root(b), y) &&
      (b.Node? ==> Has(lk', b.id, Root(b.left), Root(b.right), x)) &&
      forall j | j in Ids(s) && j != x && j != y && j != Root(b) :: SameSlot(j, lk, lk')
    ensures Linked(RotL(s), q, lk')
  {
    var x, y, a, b, c := s.id, s.right.id, s.left, s.right.left, s.right.right;
    assert Ids(s.right) == Ids(b) + {y} + Ids(c);
    assert Linked(s.right, x, lk) && Linked(b, y, lk);
    assert Distinct(s.right) && Distinct(b);
    if b.Node? {
      assert Ids(b) == Ids(b.left) + {b.id} + Ids(b.right);
      LinkedSame(b.left, b.id, lk, lk');
      LinkedSame(b.right, b.id, lk, lk');
    }
    LinkedSame(a, x, lk, lk');
    LinkedSame(c, y, lk, lk');
  }

  lemma {:induction false} RotRLocal(s: Tree, q: int, lk: Links, lk': Links)
    requires s.Node? && s.left.Node? && Linked(s, q, lk) && Distinct(s) && NIL !in Ids(s)
    requires var x, y, b := s.id, s.left.id, s.left.right;
      Has(lk', y, Root(s.left.left), x, q) &&
      Has(lk', x, Root(b), Root(s.right), y) &&
      (b.Node? ==> Has(lk', b.id, Root(b.left), Root(b.right), x)) &&
      forall j | j in Ids(s) && j != x && j != y && j != Root(b) :: SameSlot(j, lk, lk')
    ensures Linked(RotR(s), q, lk')
  {
    var x, y, a, b, c := s.id, s.left.id, s.left.left, s.left.right, s.right;
    assert Ids(s.left) == Ids(a) + {y} + Ids(b);
    assert Linked(s.left, x, lk) && Linked(b, y, lk);
    assert Distinct(s.left) && Distinct(b);
    if b.Node? {
      assert Ids(b) == Ids(b.left) + {b.id} + Ids(b.right);
      LinkedSame(b.left, b.id, lk, lk');
      LinkedSame(b.right, b.id, lk, lk');
    }
    LinkedSame(a, y, lk, lk');
    LinkedSame(c, x, lk, lk');
  }

  /** A subtree whose links were rewritten in place, with its parent's link
      redirected to the new subtree root, leaves the whole tree linked. */
  lemma Relinked(ctx: seq<Frame>, s: Tree, s': Tree, lk: Links, lk': Links)
    requires s.Node? && s'.Node?
    requires Linked(Plug(ctx, s), NONE, lk) && Distinct(Plug(ctx, s))
    requires Linked(s', Up(ctx, NONE), lk')
    requires ctx != [] ==>
       Has(lk', ctx[0].pid, if ctx[0].LeftOf? then s'.id else Root(ctx[0].sib),
                            if ctx[0].LeftOf? then Root(ctx[0].sib) else s'.id, Up(ctx[1..], NONE))
    requires forall j | j in CtxIds(ctx) && j != Up(ctx, NONE) :: SameSlot(j, lk, lk')
    ensures Linked(Plug(ctx, s'), NONE, lk')
  {
    NodeView(ctx, s, lk);
    LinkedCtxRefocus(ctx, s.id, s'.id, NONE, lk, lk');
    LinkedPlug(ctx, s', NONE, lk');
  }

  lemma RotLLinked(ctx: seq<Frame>, s: Tree, lk: Links, lk': Links)
    requires s.Node? && s.right.Node?
    requires Linked(Plug(ctx, s), NONE, lk) && Distinct(Plug(ctx, s))
    requires RotatedLeft(ctx, s, lk, lk')
    ensures Linked(Plug(ctx, RotL(s)), NONE, lk')
  {
    NodeView(ctx, s, lk);
    LinkedFlat(Plug(ctx, s), NONE, lk);
    RotLLocal(s, Up(ctx, NONE), lk, lk');
    forall j | j in CtxIds(ctx) && j != Up(ctx, NONE)
      ensures SameSlot(j, lk, lk')
    {
      assert j !in Ids(s);
    }
    Relinked(ctx, s, RotL(s), lk, lk');
  }

  lemma RotRLinked(ctx: seq<Frame>, s: Tree, lk: Links, lk': Links)
    requires s.Node? && s.left.Node?
    requires Linked(Plug(ctx, s), NONE, lk) && Distinct(Plug(ctx, s))
    requires RotatedRight(ctx, s, lk, lk')
    ensures Linked(Plug(ctx, RotR(s)), NONE, lk')
  {
    NodeView(ctx, s, lk);
    LinkedFlat(Plug(ctx, s), NONE, lk);
    RotRLocal(s, Up(ctx, NONE), lk, lk');
    forall j | j in CtxIds(ctx) && j != Up(ctx, NONE)
      ensures SameSlot(j, lk, lk')
    {
      assert j !in Ids(s);
    }
    Relinked(ctx, s, RotR(s), lk, lk');
  }

  /** The links around a node about to be rotated left, and which indices
      are apart. */
  lemma RotLView(ctx: seq<Frame>, s: Tree, lk: Links)
    requires s.Node? && s.right.Node?
    requires Linked(Plug(ctx, s), NONE, lk) && Distinct(Plug(ctx, s))
    ensures var x, y, b, q := s.id, s.right.id, s.right.left, Up(ctx, NONE);
      Has(lk, x, Root(s.left), y, q) && Has(lk, y, Root(b), Root(s.right.right), x) &&
      (b.Node? ==> Has(lk, b.id, Root(b.left), Root(b.right), y)) &&
      x != y && Root(b) != x && Root(b) != y &&
      q != x && q != y && q != Root(b) && q != NIL &&
      (ctx == [] <==> q == NONE) &&
      (ctx != [] ==>
         Slot(lk, q) && lk.parent[q] == Up(ctx[1..], NONE) &&
         (ctx[0].LeftOf? ==> lk.left[q] == x && lk.right[q] == Root(ctx[0].sib)) &&
         (ctx[0].RightOf? ==> lk.right[q] == x && lk.left[q] == Root(ctx[0].sib) &&
                              lk.left[q] != x))
  {
    NodeView(ctx, s, lk);
    var b := s.right.left;
    assert Ids(s) == Ids(s.left) + {s.id} + Ids(s.right);
    assert Ids(s.right) == Ids(b) + {s.right.id} + Ids(s.right.right);
    assert Linked(s.right, s.id, lk) && Linked(b, s.right.id, lk);
    if b.Node? {
      assert b.id in Ids(b);
    }
  }

  lemma RotRView(ctx: seq<Frame>, s: Tree, lk: Links)
    requires s.Node? && s.left.Node?
    requires Linked(Plug(ctx, s), NONE, lk) && Distinct(Plug(ctx, s))
    ensures var x, y, b, q := s.id, s.left.id, s.left.right, Up(ctx, NONE);
      Has(lk, x, y, Root(s.right), q) && Has(lk, y, Root(s.left.left), Root(b), x) &&
      (b.Node? ==> Has(lk, b.id, Root(b.left), Root(b.right), y)) &&
      x != y && Root(b) != x && Root(b) != y &&
      q != x && q != y && q != Root(b) && q != NIL &&
      (ctx == [] <==> q == NONE) &&
      (ctx != [] ==>
         Slot(lk, q) && lk.parent[q] == Up(ctx[1..], NONE) &&
         (ctx[0].RightOf? ==> lk.right[q] == x && lk.left[q] == Root(ctx[0].sib)) &&
         (ctx[0].LeftOf? ==> lk.left[q] == x && lk.right[q] == Root(ctx[0].sib) &&
                             lk.right[q] != x))
  {
    NodeView(ctx, s, lk);
    var b := s.left.right;
    assert Ids(s) == Ids(s.left) + {s.id} + Ids(s.right);
    assert Ids(s.left) == Ids(s.left.left) + {s.left.id} + Ids(b);
    assert Linked(s.left, s.id, lk) && Linked(b, s.left.id, lk);
    if b.Node? {
      assert b.id in Ids(b);
    }
  }

  /** The arena after the assignments of a left rotation at `x`, in the
      order the rotation makes them. */
  ghost function RotLLinks(lk: Links, x: int): Links
    requires 0 < x < |lk.left| && |lk.right| == |lk.left| && |lk.parent| == |lk.left|
    requires 0 < lk.right[x] < |lk.left| && 0 <= lk.left[lk.right[x]] < |lk.left|
    requires NONE <= lk.parent[x] < |lk.left|
  {
    var y := lk.right[x];
    var r1 := lk.right[x := lk.left[y]];
    var p1 := if lk.left[y] != NIL then lk.parent[lk.left[y] := x] else lk.parent;
    var p2 := p1[y := p1[x]];
    var q := p2[x];
    var l3 := if q != NONE && x == lk.left[q] then lk.left[q := y] else lk.left;
    var r3 := if q != NONE && x != lk.left[q] then r1[q := y] else r1;
    Links(l3[y := x], r3, p2[x := y])
  }

  ghost function RotRLinks(lk: Links, x: int): Links
    requires 0 < x < |lk.left| && |lk.right| == |lk.left| && |lk.parent| == |lk.left|
    requires 0 < lk.left[x] < |lk.left| && 0 <= lk.right[lk.left[x]] < |lk.left|
    requires NONE <= lk.parent[x] < |lk.left|
  {
    var y := lk.left[x];
    var l1 := lk.left[x := lk.right[y]];
    var p1 := if lk.right[y] != NIL then lk.parent[lk.right[y] := x] else lk.parent;
    var p2 := p1[y := p1[x]];
    var q := p2[x];
    var r3 := if q != NONE && x == lk.right[q] then lk.right[q := y] else lk.right;
    var l3 := if q != NONE && x != lk.right[q] then l1[q := y] else l1;
    Links(l3, r3[y := x], p2[x := y])
  }

  /** RotLLinks slot by slot, read off the arena alone. */
  lemma RotLLinksAt(lk: Links, x: int)
    requires 0 < x < |lk.left| && |lk.right| == |lk.left| && |lk.parent| == |lk.left|
    requires 0 < lk.right[x] < |lk.left| && 0 <= lk.left[lk.right[x]] < |lk.left|
    requires NONE <= lk.parent[x] < |lk.left|
    requires var y, b, q := lk.right[x], lk.left[lk.right[x]], lk.parent[x];
      x != y && b != x && b != y && q != x && q != y && q != b && q != NIL
    ensures var y, b, q, lk' := lk.right[x], lk.left[lk.right[x]], lk.parent[x], RotLLinks(lk, x);
      |lk'.left| == |lk.left| && |lk'.right| == |lk.left| && |lk'.parent| == |lk.left| &&
      lk'.right[y] == lk.right[y] && lk'.left[y] == x && lk'.parent[y] == q &&
      lk'.right[x] == b && lk'.left[x] == lk.left[x] && lk'.parent[x] == y &&
      (b != NIL ==> lk'.left[b] == lk.left[b] && lk'.right[b] == lk.right[b] && lk'.parent[b] == x) &&
      (q != NONE ==>
         lk'.parent[q] == lk.parent[q] &&
         if lk.left[q] == x then lk'.left[q] == y && lk'.right[q] == lk.right[q]
         else lk'.right[q] == y && lk'.left[q] == lk.left[q]) &&
      lk'.left[NIL] == lk.left[NIL] && lk'.right[NIL] == lk.right[NIL] &&
      lk'.parent[NIL] == lk.parent[NIL] &&
      forall j | 0 <= j < |lk.left| && j != x && j != y && j != b && j != q ::
        lk'.left[j] == lk.left[j] && lk'.right[j] == lk.right[j] && lk'.parent[j] == lk.parent[j]
  {
  }

  /** The writes of RotLLinks are the links RotatedLeft describes. */
  lemma RotLWrites(ctx: seq<Frame>, s: Tree, lk: Links)
    requires s.Node? && s.right.Node?
    requires Linked(Plug(ctx, s), NONE, lk) && Distinct(Plug(ctx, s))
    requires |lk.right| == |lk.left| && |lk.parent| == |lk.left|
    ensures 0 < s.id < |lk.left| && 0 < s.right.id < |lk.left| && lk.right[s.id] == s.right.id
    ensures 0 <= lk.left[s.right.id] < |lk.left| && lk.parent[s.id] == Up(ctx, NONE)
    ensures NONE <= Up(ctx, NONE) < |lk.left| && (Up(ctx, NONE) == NONE <==> ctx == [])
    ensures var lk' := RotLLinks(lk, s.id);
      RotatedLeft(ctx, s, lk, lk') && lk'.parent[NIL] == lk.parent[NIL] &&
      lk'.left[NIL] == lk.left[NIL] && lk'.right[NIL] == lk.right[NIL] &&
      |lk'.left| == |lk.left| && |lk'.right| == |lk.left| && |lk'.parent| == |lk.left|
  {
    RotLView(ctx, s, lk);
    RotLLinksAt(lk, s.id);
    var lk' := RotLLinks(lk, s.id);
    var x, y, b, q := s.id, s.right.id, s.right.left, Up(ctx, NONE);
    assert forall j | j in Ids(Plug(ctx, s)) && j != x && j != y && j != Root(b) && j != q ::
      SameSlot(j, lk, lk') by {
      LinkedFlat(Plug(ctx, s), NONE, lk);
    }
  }

  lemma RotLStep(ctx: seq<Frame>, s: Tree, lk: Links)
    requires s.Node? && s.right.Node?
    requires Linked(Plug(ctx, s), NONE, lk) && Distinct(Plug(ctx, s))
    requires |lk.right| == |lk.left| && |lk.parent| == |lk.left|
    ensures 0 < s.id < |lk.left| && 0 < s.right.id < |lk.left| && lk.right[s.id] == s.right.id
    ensures 0 <= lk.left[s.right.id] < |lk.left| && lk.parent[s.id] == Up(ctx, NONE)
    ensures NONE <= Up(ctx, NONE) < |lk.left| && (Up(ctx, NONE) == NONE <==> ctx == [])
    ensures var lk' := RotLLinks(lk, s.id);
      RotatedLeft(ctx, s, lk, lk') && Linked(Plug(ctx, RotL(s)), NONE, lk') &&
      lk'.parent[NIL] == lk.parent[NIL] &&
      lk'.left[NIL] == lk.left[NIL] && lk'.right[NIL] == lk.right[NIL] &&
      |lk'.left| == |lk.left| && |lk'.right| == |lk.left| && |lk'.parent| == |lk.left|
  {
    RotLWrites(ctx, s, lk);
    RotLLinked(ctx, s, lk, RotLLinks(lk, s.id));
  }

  /** RotRLinks slot by slot, read off the arena alone. */
  lemma RotRLinksAt(lk: Links, x: int)
    requires 0 < x < |lk.left| && |lk.right| == |lk.left| && |lk.parent| == |lk.left|
    requires 0 < lk.left[x] < |lk.left| && 0 <= lk.right[lk.left[x]] < |lk.left|
    requires NONE <= lk.parent[x] < |lk.left|
    requires var y, b, q := lk.left[x], lk.right[lk.left[x]], lk.parent[x];
      x != y && b != x && b != y && q != x && q != y && q != b && q != NIL
    ensures var y, b, q, lk' := lk.left[x], lk.right[lk.left[x]], lk.parent[x], RotRLinks(lk, x);
      |lk'.left| == |lk.left| && |lk'.right| == |lk.left| && |lk'.parent| == |lk.left| &&
      lk'.left[y] == lk.left[y] && lk'.right[y] == x && lk'.parent[y] == q &&
      lk'.left[x] == b && lk'.right[x] == lk.right[x] && lk'.parent[x] == y &&
      (b != NIL ==> lk'.left[b] == lk.left[b] && lk'.right[b] == lk.right[b] && lk'.parent[b] == x) &&
      (q != NONE ==>
         lk'.parent[q] == lk.parent[q] &&
         if lk.right[q] == x then lk'.right[q] == y && lk'.left[q] == lk.left[q]
         else lk'.left[q] == y && lk'.right[q] == lk.right[q]) &&
      lk'.left[NIL] == lk.left[NIL] && lk'.right[NIL] == lk.right[NIL] &&
      lk'.parent[NIL] == lk.parent[NIL] &&
      forall j | 0 <= j < |lk.left| && j != x && j != y && j != b && j != q ::
        lk'.left[j] == lk.left[j] && lk'.right[j] == lk.right[j] && lk'.parent[j] == lk.parent[j]
  {
  }

  /** The writes of RotRLinks are the links RotatedRight describes. */
  lemma RotRWrites(ctx: seq<Frame>, s: Tree, lk: Links)
    requires s.Node? && s.left.Node?
    requires Linked(Plug(ctx, s), NONE, lk) && Distinct(Plug(ctx, s))
    requires |lk.right| == |lk.left| && |lk.parent| == |lk.left|
    ensures 0 < s.id < |lk.left| && 0 < s.left.id < |lk.left| && lk.left[s.id] == s.left.id
    ensures 0 <= lk.right[s.left.id] < |lk.left| && lk.parent[s.id] == Up(ctx, NONE)
    ensures NONE <= Up(ctx, NONE) < |lk.left| && (Up(ctx, NONE) == NONE <==> ctx == [])
    ensures var lk' := RotRLinks(lk, s.id);
      RotatedRight(ctx, s, lk, lk') && lk'.parent[NIL] == lk.parent[NIL] &&
      lk'.left[NIL] == lk.left[NIL] && lk'.right[NIL] == lk.right[NIL] &&
      |lk'.left| == |lk.left| && |lk'.right| == |lk.left| && |lk'.parent| == |lk.left|
  {
    RotRView(ctx, s, lk);
    RotRLinksAt(lk, s.id);
    var lk' := RotRLinks(lk, s.id);
    var x, y, b, q := s.id, s.left.id, s.left.right, Up(ctx, NONE);
    assert forall j | j in Ids(Plug(ctx, s)) && j != x && j != y && j != Root(b) && j != q ::
      SameSlot(j, lk, lk') by {
      LinkedFlat(Plug(ctx, s), NONE, lk);
    }
  }

  lemma RotRStep(ctx: seq<Frame>, s: Tree, lk: Links)
    requires s.Node? && s.left.Node?
    requires Linked(Plug(ctx, s), NONE, lk) && Distinct(Plug(ctx, s))
    requires |lk.right| == |lk.left| && |lk.parent| == |lk.left|
    ensures 0 < s.id < |lk.left| && 0 < s.left.id < |lk.left| && lk.left[s.id] == s.left.id
    ensures 0 <= lk.right[s.left.id] < |lk.left| && lk.parent[s.id] == Up(ctx, NONE)
    ensures NONE <= Up(ctx, NONE) < |lk.left| && (Up(ctx, NONE) == NONE <==> ctx == [])
    ensures var lk' := RotRLinks(lk, s.id);
      RotatedRight(ctx, s, lk, lk') && Linked(Plug(ctx, RotR(s)), NONE, lk') &&
      lk'.parent[NIL] == lk.parent[NIL] &&
      lk'.left[NIL] == lk.left[NIL] && lk'.right[NIL] == lk.right[NIL] &&
      |lk'.left| == |lk.left| && |lk'.right| == |lk.left| && |lk'.parent| == |lk.left|
  {
    RotRWrites(ctx, s, lk);
    RotRLinked(ctx, s, lk, RotRLinks(lk, s.id));
  }

  /** The arena after `u` is replaced by `v` below u's parent: the parent's
      link that led to `u` (or the root, when u has no parent) now leads to
      `v`, and v's parent is u's parent. */
  ghost function TransplantLinks(lk: Links, u: int, v: int): Links
    requires 0 <= u < |lk.parent| && 0 <= v < |lk.parent|
    requires |lk.left| == |lk.parent| && |lk.right| == |lk.parent|
    requires NONE <= lk.parent[u] < |lk.parent|
  {
    var q := lk.parent[u];
    if q == NONE then Links(lk.left, lk.right, lk.parent[v := q])
    else if u == lk.left[q] then Links(lk.left[q := v], lk.right, lk.parent[v := q])
    else Links(lk.left, lk.right[q := v], lk.parent[v := q])
  }

  /** What `transplant(u, v)` does slot by slot: v's parent becomes u's,
      u's parent points at v on u's side, and no other slot changes. */
  lemma TransplantSlots(lk: Links, u: int, v: int)
    requires 0 <= u < |lk.parent| && 0 <= v < |lk.parent|
    requires |lk.left| == |lk.parent| && |lk.right| == |lk.parent|
    requires NONE <= lk.parent[u] < |lk.parent|
    ensures var lk', q := TransplantLinks(lk, u, v), lk.parent[u];
      |lk'.left| == |lk.left| && |lk'.right| == |lk.right| && |lk'.parent| == |lk.parent| &&
      lk'.parent[v] == q &&
      (forall j | Slot(lk, j) && j != v && j != q :: SameSlot(j, lk, lk')) &&
      (forall j | 0 <= j < |lk.parent| && j != v :: lk'.parent[j] == lk.parent[j]) &&
      (q != NONE && q != v ==>
         lk'.parent[q] == lk.parent[q] &&
         (if lk.left[q] == u then lk'.left[q] == v && lk'.right[q] == lk.right[q]
          else lk'.right[q] == v && lk'.left[q] == lk.left[q])) &&
      (q != NONE && q != NIL ==> lk'.left[NIL] == lk.left[NIL] && lk'.right[NIL] == lk.right[NIL]) &&
      (q == NONE ==> lk'.left == lk.left && lk'.right == lk.right)
  {
  }
}
