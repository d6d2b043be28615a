/** Taking a node out of the tree (`delete`, before the repair).

    A node `z` with an empty child is spliced out: its other child takes its
    place (`transplant`).  A node with two children is replaced by its
    successor `y`, the leftmost node of its right subtree: y is first spliced
    out of its own place (its left child is empty), then takes z's place,
    z's children and z's color.  In both cases the node that left the
    tree's shape is the one whose color counts: when it was black, the
    subtree that took its place is one black node short. */
module Removal {
  import opened Shapes
  import opened Links
  import opened Colors
  import opened KeyOrder
  import opened Rewiring
  import opened TreeOrder
  import opened Arena
  import opened Deletion
  import opened Repair

  /** `s` is a node with an empty child; `r` is its other child. */
  ghost predicate OneChild(s: Tree, r: Tree)
  {
    s.Node? && ((s.left.Nil? && r == s.right) || (s.right.Nil? && r == s.left))
  }

  // ----- keys -----

  /** Dropping position `i` of a sequence of indices drops the key at that
      position from its key sequence; on sorted keys that is the first
      occurrence of that key, and the keys stay sorted. */
  lemma RemovedKeys(o: seq<int>, i: int, key: seq<int>)
    requires 0 <= i < |o| && Sorted(KeySeq(o, key))
    ensures KeySeq(o[..i] + o[i + 1..], key) == RemoveFirst(KeySeq(o, key), KeyOf(key, o[i]))
    ensures Sorted(KeySeq(o[..i] + o[i + 1..], key))
  {
    var s := KeySeq(o, key);
    assert o == o[..i] + ([o[i]] + o[i + 1..]);
    KeySeqAppend(o[..i], [o[i]] + o[i + 1..], key);
    KeySeqAppend([o[i]], o[i + 1..], key);
    KeySeqAppend(o[..i], o[i + 1..], key);
    assert s[..i] == KeySeq(o[..i], key);
    assert s[i + 1..] == KeySeq(o[i + 1..], key);
    KeySeqAt(o, key, i);
    RemoveAtSorted(s, i, KeyOf(key, o[i]));
    RemoveFirstKeepsOrder(s, KeyOf(key, o[i]));
  }

  // ----- symmetric order -----

  /** Dropping position `j` of the middle part of `b + m + a`. */
  lemma DropInside(b: seq<int>, m: seq<int>, a: seq<int>, j: int)
    requires 0 <= j < |m|
    ensures var o, i := b + m + a, |b| + j;
      i < |o| && o[i] == m[j] && o[..i] + o[i + 1..] == b + (m[..j] + m[j + 1..]) + a
  {
    var o, i := b + m + a, |b| + j;
    assert o[..i] == b + m[..j];
    assert o[i + 1..] == m[j + 1..] + a;
  }

  /** Dropping `z` from `b + (pre + [z] + post) + a`. */
  lemma DropMiddle(b: seq<int>, pre: seq<int>, z: int, post: seq<int>, a: seq<int>)
    ensures var o, i := b + (pre + [z] + post) + a, |b| + |pre|;
      i < |o| && o[i] == z && o[..i] + o[i + 1..] == b + (pre + post) + a
  {
    var o, i := b + (pre + [z] + post) + a, |b| + |pre|;
    assert o[..i] == b + pre;
    assert o[i + 1..] == post + a;
  }

  /** Splicing out a node with an empty child removes exactly that node
      from the order. */
  lemma SpliceOrder(s: Tree, r: Tree)
    requires OneChild(s, r)
    ensures var j := |InOrder(s.left)|;
      j < |InOrder(s)| && InOrder(s)[j] == s.id && InOrder(r) == InOrder(s)[..j] + InOrder(s)[j + 1..]
  {
    var j := |InOrder(s.left)|;
    if s.left.Nil? {
      assert InOrder(s) == [s.id] + InOrder(r);
    } else {
      assert InOrder(s) == InOrder(r) + [s.id];
    }
  }

  /** Along a left spine nothing comes before the bottom node: taking the
      bottom node `y` out removes the first index of the order. */
  lemma SpineOrder(spine: seq<Frame>, y: int, c: Tree)
    requires Before(spine) == []
    ensures InOrder(Plug(spine, Node(Nil, y, c))) == [y] + InOrder(Plug(spine, c))
  {
    InOrderPlug(spine, Node(Nil, y, c));
    InOrderPlug(spine, c);
  }

  /** Replacing `z` by its successor `y` (first in z's right subtree `b`;
      `b'` is b without y) removes exactly z from the order. */
  lemma SuccessorOrder(a: Tree, z: int, b: Tree, y: int, b': Tree)
    requires InOrder(b) == [y] + InOrder(b')
    ensures InOrder(Node(a, y, b')) == InOrder(a) + InOrder(b)
  {
    assert InOrder(Node(a, y, b')) == InOrder(a) + ([y] + InOrder(b'));
  }

  /** A subtree replaced by one built from some of its nodes keeps the tree
      free of repeated indices. */
  lemma DistinctShrink(ctx: seq<Frame>, s: Tree, s': Tree)
    requires Distinct(Plug(ctx, s)) && Distinct(s') && Ids(s') <= Ids(s)
    ensures Distinct(Plug(ctx, s')) && Ids(Plug(ctx, s')) == Ids(s') + CtxIds(ctx)
  {
    DistinctPlug(ctx, s);
    DistinctPlug(ctx, s');
    IdsPlug(ctx, s');
  }

  // ----- colors -----

  /** Splicing out a node with an empty child from a red-black tree: a red
      node leaves a red-black tree; a black one leaves its other child one
      black node short. */
  lemma SpliceColors(ctx: seq<Frame>, s: Tree, r: Tree, c: seq<Color>)
    requires OneChild(s, r) && RedOK(Plug(ctx, s), c) && Balanced(Plug(ctx, s), c)
    ensures !IsRed(c, s.id) ==> Short(ctx, r, c)
    ensures IsRed(c, s.id) ==> RedOK(Plug(ctx, r), c) && Balanced(Plug(ctx, r), c)
  {
    RedPlug(ctx, s, c);
    BalancedPlug(ctx, s, c);
    RedPlug(ctx, r, c);
    BalancedPlug(ctx, r, c);
    RedCtxWeak(ctx, RedT(s, c), c);
    assert BH(r, c) == 0;
  }

  /** Renaming one frame's node to an index of the same color, with no
      other color changed on the way up, changes neither balance nor the
      red rule of a context. */
  lemma RelabelCtx(c1: seq<Frame>, f: Frame, f': Frame, c2: seq<Frame>, h: int, red: bool,
                   S: set<int>, c: seq<Color>, c': seq<Color>)
    requires f.sib == f'.sib && f.LeftOf? == f'.LeftOf? && IsRed(c', f'.pid) == IsRed(c, f.pid)
    requires CtxIds(c1) !! S && CtxIds(c2) !! S && Ids(f.sib) !! S
    requires forall j | j !in S :: IsRed(c, j) == IsRed(c', j)
    ensures BalancedCtx(c1 + ([f'] + c2), h, c') == BalancedCtx(c1 + ([f] + c2), h, c)
    ensures RedCtx(c1 + ([f'] + c2), red, c') == RedCtx(c1 + ([f] + c2), red, c)
  {
    BalancedCtxAppend(c1, [f] + c2, h, c);
    BalancedCtxAppend(c1, [f'] + c2, h, c');
    UnpaintedCtx(c1, h, S, c, c');
    var h1 := CtxH(c1, h, c);
    Unpainted(f.sib, S, c, c');
    UnpaintedCtx(c2, h1 + Bk(c, f.pid), S, c, c');
    RedCtxAppend(c1, [f] + c2, red, c);
    RedCtxAppend(c1, [f'] + c2, red, c');
    var top := if c1 == [] then red else IsRed(c, c1[|c1| - 1].pid);
    if c1 != [] {
      PlugTop(c1, Nil);
    }
    CtxCons(f, c2, h1, top, c);
    CtxCons(f', c2, h1, top, c');
  }

  /** The successor `y` seen from its own place: the path up is the spine,
      z's frame and z's context. */
  lemma SuccessorPlugs(ctx: seq<Frame>, a: Tree, z: int, spine: seq<Frame>, y: int, cy: Tree)
    ensures Plug(spine + ([RightOf(a, z)] + ctx), Node(Nil, y, cy)) ==
            Plug(ctx, Node(a, z, Plug(spine, Node(Nil, y, cy))))
    ensures Plug(spine + ([RightOf(a, y)] + ctx), cy) == Plug(ctx, Node(a, y, Plug(spine, cy)))
  {
    var sy := Node(Nil, y, cy);
    var up, up' := [RightOf(a, z)] + ctx, [RightOf(a, y)] + ctx;
    PlugAppend(spine, up, sy);
    PlugCons(RightOf(a, z), ctx, Plug(spine, sy));
    PlugAppend(spine, up', cy);
    PlugCons(RightOf(a, y), ctx, Plug(spine, cy));
  }

  /** The successor `y` is apart from everything around it. */
  lemma SuccessorApart(ctx: seq<Frame>, a: Tree, z: int, spine: seq<Frame>, y: int, cy: Tree)
    requires Distinct(Plug(ctx, Node(a, z, Plug(spine, Node(Nil, y, cy)))))
    ensures Plug(spine + ([RightOf(a, z)] + ctx), Node(Nil, y, cy)) ==
            Plug(ctx, Node(a, z, Plug(spine, Node(Nil, y, cy))))
    ensures Plug(spine + ([RightOf(a, y)] + ctx), cy) == Plug(ctx, Node(a, y, Plug(spine, cy)))
    ensures Distinct(Plug(spine + ([RightOf(a, z)] + ctx), Node(Nil, y, cy)))
    ensures CtxIds(spine) !! {y} && CtxIds(ctx) !! {y} && Ids(a) !! {y} && Ids(cy) !! {y} && y != z
  {
    var sy := Node(Nil, y, cy);
    var up := [RightOf(a, z)] + ctx;
    SuccessorPlugs(ctx, a, z, spine, y, cy);
    SuccessorIdsApart(spine, up, sy);
    assert CtxIds(up) == {z} + Ids(a) + CtxIds(ctx) by {
      assert up[1..] == ctx;
    }
  }

  /** In a tree without repeated indices, the focus's root is apart from
      the contexts it is plugged into. */
  lemma SuccessorIdsApart(spine: seq<Frame>, up: seq<Frame>, sy: Tree)
    requires sy.Node? && Distinct(Plug(spine + up, sy))
    ensures Distinct(sy) && CtxIds(spine) !! {sy.id} && CtxIds(up) !! {sy.id}
  {
    DistinctPlug(spine + up, sy);
    CtxIdsAppend(spine, up);
    assert sy.id in Ids(sy);
  }

  /** The two-child case on colors: the successor `y` is spliced out of its
      place and takes z's place with z's color.  A black y leaves its right
      subtree one black node short; a red y leaves a red-black tree. */
  lemma SuccessorColors(ctx: seq<Frame>, a: Tree, z: int, spine: seq<Frame>, y: int, cy: Tree,
                        c: seq<Color>, c': seq<Color>)
    requires Distinct(Plug(ctx, Node(a, z, Plug(spine, Node(Nil, y, cy)))))
    requires RedOK(Plug(ctx, Node(a, z, Plug(spine, Node(Nil, y, cy)))), c)
    requires Balanced(Plug(ctx, Node(a, z, Plug(spine, Node(Nil, y, cy)))), c)
    requires 0 <= z < |c| && 0 <= y < |c| && c' == c[y := c[z]]
    ensures !IsRed(c, y) ==> Short(spine + ([RightOf(a, y)] + ctx), cy, c')
    ensures IsRed(c, y) ==>
      RedOK(Plug(ctx, Node(a, y, Plug(spine, cy))), c') &&
      Balanced(Plug(ctx, Node(a, y, Plug(spine, cy))), c')
  {
    SuccessorApart(ctx, a, z, spine, y, cy);
    var up := [RightOf(a, z)] + ctx;
    SpliceColors(spine + up, Node(Nil, y, cy), cy, c);
    assert forall j | j !in {y} :: IsRed(c, j) == IsRed(c', j);
    if !IsRed(c, y) {
      RelabelShort(ctx, a, z, spine, y, cy, c, c');
    } else {
      RelabelRB(ctx, a, z, spine, y, cy, c, c');
    }
  }

  lemma RelabelShort(ctx: seq<Frame>, a: Tree, z: int, spine: seq<Frame>, y: int, cy: Tree,
                     c: seq<Color>, c': seq<Color>)
    requires CtxIds(spine) !! {y} && CtxIds(ctx) !! {y} && Ids(a) !! {y} && Ids(cy) !! {y}
    requires forall j | j !in {y} :: IsRed(c, j) == IsRed(c', j)
    requires IsRed(c', y) == IsRed(c, z)
    requires Short(spine + ([RightOf(a, z)] + ctx), cy, c)
    ensures Short(spine + ([RightOf(a, y)] + ctx), cy, c')
  {
    Unpainted(cy, {y}, c, c');
    RelabelCtx(spine, RightOf(a, z), RightOf(a, y), ctx, BH(cy, c) + 1, false, {y}, c, c');
  }

  lemma RelabelRB(ctx: seq<Frame>, a: Tree, z: int, spine: seq<Frame>, y: int, cy: Tree,
                  c: seq<Color>, c': seq<Color>)
    requires CtxIds(spine) !! {y} && CtxIds(ctx) !! {y} && Ids(a) !! {y} && Ids(cy) !! {y}
    requires forall j | j !in {y} :: IsRed(c, j) == IsRed(c', j)
    requires IsRed(c', y) == IsRed(c, z)
    requires RedOK(Plug(spine + ([RightOf(a, z)] + ctx), cy), c)
    requires Balanced(Plug(spine + ([RightOf(a, z)] + ctx), cy), c)
    ensures RedOK(Plug(spine + ([RightOf(a, y)] + ctx), cy), c')
    ensures Balanced(Plug(spine + ([RightOf(a, y)] + ctx), cy), c')
  {
    var up, up' := [RightOf(a, z)] + ctx, [RightOf(a, y)] + ctx;
    Unpainted(cy, {y}, c, c');
    RedPlug(spine + up, cy, c);
    BalancedPlug(spine + up, cy, c);
    RelabelCtx(spine, RightOf(a, z), RightOf(a, y), ctx, BH(cy, c), RedT(cy, c), {y}, c, c');
    RedPlug(spine + up', cy, c');
    BalancedPlug(spine + up', cy, c');
  }

  // ----- links -----

  function SetLeft(lk: Links, i: int, v: int): Links
    requires 0 <= i < |lk.left|
  {
    Links(lk.left[i := v], lk.right, lk.parent)
  }

  function SetRight(lk: Links, i: int, v: int): Links
    requires 0 <= i < |lk.right|
  {
    Links(lk.left, lk.right[i := v], lk.parent)
  }

  function SetParent(lk: Links, i: int, v: int): Links
    requires 0 <= i < |lk.parent|
  {
    Links(lk.left, lk.right, lk.parent[i := v])
  }

  /** Splicing out a node `s` with an empty child by `transplant(s, r)`
      leaves the links of the tree without s: r hangs where s did, and r's
      root (the sentinel when r is empty) has s's parent as its parent. */
  lemma SpliceLinked(ctx: seq<Frame>, s: Tree, r: Tree, lk: Links)
    requires OneChild(s, r) && Linked(Plug(ctx, s), NONE, lk) && Distinct(Plug(ctx, s))
    requires |lk.left| == |lk.parent| && |lk.right| == |lk.parent|
    ensures Has(lk, s.id, Root(s.left), Root(s.right), Up(ctx, NONE))
    ensures 0 <= Root(r) < |lk.parent| && NONE <= Up(ctx, NONE) < |lk.parent|
    ensures (ctx == []) == (Up(ctx, NONE) == NONE)
    ensures var lk' := TransplantLinks(lk, s.id, Root(r));
      Linked(Plug(ctx, r), NONE, lk') && lk'.parent[Root(r)] == Up(ctx, NONE) &&
      lk'.left[NIL] == lk.left[NIL] && lk'.right[NIL] == lk.right[NIL] &&
      |lk'.left| == |lk.left| && |lk'.right| == |lk.right| && |lk'.parent| == |lk.parent|
  {
    NodeView(ctx, s, lk);
    var q := Up(ctx, NONE);
    LinkedFlat(Plug(ctx, s), NONE, lk);
    assert Ids(s) == Ids(s.left) + {s.id} + Ids(s.right);
    if r.Node? {
      assert r.id in Ids(r);
    }
    var lk' := TransplantLinks(lk, s.id, Root(r));
    TransplantSlots(lk, s.id, Root(r));
    LinkedReparent(r, s.id, q, lk, lk');
    LinkedCtxRefocus(ctx, s.id, Root(r), NONE, lk, lk');
    LinkedPlug(ctx, r, NONE, lk');
  }

  /** The links after successor replacement when the successor `y` is z's
      own right child: `x.parent = y` for y's right child `rc`,
      `transplant(z, y)`, `y.left = z.left`, `y.left.parent = y`. */
  ghost function AdjacentLinks(lk: Links, z: int, y: int, rc: int): Links
    requires |lk.left| == |lk.parent| && |lk.right| == |lk.parent|
    requires 0 <= z < |lk.parent| && 0 <= y < |lk.parent| && 0 <= rc < |lk.parent|
    requires NONE <= lk.parent[z] < |lk.parent| && lk.parent[z] != z
    requires 0 <= lk.left[z] < |lk.parent|
  {
    var lk1 := SetParent(lk, rc, y);
    var lk2 := TransplantLinks(lk1, z, y);
    var lk3 := SetLeft(lk2, y, lk2.left[z]);
    SetParent(lk3, lk3.left[y], y)
  }

  /** Slot by slot: y takes z's place with z's left child `ra`, `ra` hangs
      under y, z's parent `q` points at y, and nothing else moves. */
  lemma AdjacentSlots(lk: Links, z: int, y: int, ra: int, rc: int, q: int)
    requires |lk.left| == |lk.parent| && |lk.right| == |lk.parent|
    requires Has(lk, z, ra, y, q) && Has(lk, y, NIL, rc, z) && Slot(lk, ra)
    requires 0 <= rc < |lk.parent| && (rc != NIL ==> lk.parent[rc] == y)
    requires q == NONE || (Slot(lk, q) && (lk.left[q] == z || lk.right[q] == z))
    requires z != y && z != ra && z != rc && z != q && y != ra && y != rc && y != q
    requires ra != rc && ra != q && rc != q
    ensures var lk' := AdjacentLinks(lk, z, y, rc);
      |lk'.left| == |lk.left| && |lk'.right| == |lk.right| && |lk'.parent| == |lk.parent| &&
      Has(lk', y, ra, rc, q) && lk'.parent[rc] == y &&
      Slot(lk', ra) && lk'.left[ra] == lk.left[ra] && lk'.right[ra] == lk.right[ra] &&
      lk'.parent[ra] == y &&
      (rc != NIL ==> SameSlot(rc, lk, lk')) &&
      (forall j | Slot(lk, j) && j != z && j != y && j != ra && j != q :: SameSlot(j, lk, lk')) &&
      (q != NONE ==>
         lk'.parent[q] == lk.parent[q] &&
         (if lk.left[q] == z then lk'.left[q] == y && lk'.right[q] == lk.right[q]
          else lk'.right[q] == y && lk'.left[q] == lk.left[q])) &&
      lk'.left[NIL] == lk.left[NIL] && lk'.right[NIL] == lk.right[NIL]
  {
    var lk1 := SetParent(lk, rc, y);
    TransplantSlots(lk1, z, y);
  }

  /** What the links say about z and its successor `y` when y is z's own
      right child. */
  lemma AdjacentView(ctx: seq<Frame>, a: Tree, z: int, y: int, cy: Tree, lk: Links)
    requires a.Node?
    requires Linked(Plug(ctx, Node(a, z, Node(Nil, y, cy))), NONE, lk)
    requires Distinct(Plug(ctx, Node(a, z, Node(Nil, y, cy))))
    ensures var q := Up(ctx, NONE);
      Has(lk, z, a.id, y, q) && Has(lk, y, NIL, Root(cy), z) && Slot(lk, a.id) &&
      0 <= Root(cy) < |lk.parent| && (cy.Node? ==> lk.parent[cy.id] == y) &&
      (q == NONE || (Slot(lk, q) && (lk.left[q] == z || lk.right[q] == z))) &&
      z != y && z != a.id && z != Root(cy) && z != q && y != a.id && y != Root(cy) && y != q &&
      a.id != Root(cy) && a.id != q && Root(cy) != q
    ensures Linked(a, z, lk) && Distinct(a) && Linked(cy, y, lk)
    ensures LinkedCtx(ctx, z, NONE, lk) && DistinctCtx(ctx)
    ensures forall j | j in Ids(a) ::
      Slot(lk, j) && j != z && j != y && j != Up(ctx, NONE)
    ensures forall j | j in Ids(cy) ::
      Slot(lk, j) && j != z && j != y && j != a.id && j != Up(ctx, NONE)
    ensures forall j | j in CtxIds(ctx) :: Slot(lk, j) && j != z && j != y && j != a.id
    ensures ctx != [] ==>
      Up(ctx, NONE) == ctx[0].pid && (lk.left[ctx[0].pid] == z <==> ctx[0].LeftOf?)
  {
    var s := Node(a, z, Node(Nil, y, cy));
    NodeView(ctx, s, lk);
    LinkedFlat(Plug(ctx, s), NONE, lk);
    assert Ids(s) == Ids(a) + {z} + ({y} + Ids(cy));
    assert a.id in Ids(a);
    if cy.Node? {
      assert cy.id in Ids(cy);
    }
  }

  /** Successor replacement when the successor `y` is z's own right child
      leaves y in z's place over z's left subtree and y's own right subtree. */
  lemma AdjacentLinked(ctx: seq<Frame>, a: Tree, z: int, y: int, cy: Tree, lk: Links)
    requires a.Node?
    requires Linked(Plug(ctx, Node(a, z, Node(Nil, y, cy))), NONE, lk)
    requires Distinct(Plug(ctx, Node(a, z, Node(Nil, y, cy))))
    requires |lk.left| == |lk.parent| && |lk.right| == |lk.parent|
    requires 0 <= Root(cy) < |lk.parent| && 0 <= z < |lk.parent| && 0 <= y < |lk.parent|
    requires NONE <= lk.parent[z] < |lk.parent| && lk.parent[z] != z
    requires 0 <= lk.left[z] < |lk.parent|
    ensures var lk' := AdjacentLinks(lk, z, y, Root(cy));
      Linked(Plug(ctx, Node(a, y, cy)), NONE, lk') && lk'.parent[Root(cy)] == y &&
      lk'.left[NIL] == lk.left[NIL] && lk'.right[NIL] == lk.right[NIL] &&
      |lk'.left| == |lk.left| && |lk'.right| == |lk.right| && |lk'.parent| == |lk.parent|
  {
    AdjacentView(ctx, a, z, y, cy, lk);
    AdjacentSlots(lk, z, y, a.id, Root(cy), Up(ctx, NONE));
    var lk' := AdjacentLinks(lk, z, y, Root(cy));
    LinkedSame(cy, y, lk, lk');
    Rehung(ctx, a, z, y, cy, lk, lk');
  }

  /** A node `y` that takes over z's place and z's left subtree `a`, with
      `b` already hanging under y, leaves the whole tree linked when no
      other slot of a or of the context changed. */
  lemma Rehung(ctx: seq<Frame>, a: Tree, z: int, y: int, b: Tree, lk: Links, lk': Links)
    requires a.Node? && Linked(a, z, lk) && Distinct(a)
    requires LinkedCtx(ctx, z, NONE, lk) && DistinctCtx(ctx)
    requires Linked(b, y, lk')
    requires Has(lk', y, a.id, Root(b), Up(ctx, NONE))
    requires Slot(lk', a.id) && lk'.left[a.id] == lk.left[a.id] && lk'.right[a.id] == lk.right[a.id] &&
             lk'.parent[a.id] == y
    requires forall j | j in Ids(a) && j != a.id :: SameSlot(j, lk, lk')
    requires forall j | j in CtxIds(ctx) && j != Up(ctx, NONE) :: SameSlot(j, lk, lk')
    requires ctx != [] ==>
      var p := ctx[0].pid;
      Slot(lk', p) && lk'.parent[p] == lk.parent[p] &&
      (if ctx[0].LeftOf? then lk'.left[p] == y && lk'.right[p] == lk.right[p]
       else lk'.right[p] == y && lk'.left[p] == lk.left[p])
    ensures Linked(Plug(ctx, Node(a, y, b)), NONE, lk')
  {
    LinkedReparent(a, z, y, lk, lk');
    LinkedCtxRefocus(ctx, z, y, NONE, lk, lk');
    LinkedPlug(ctx, Node(a, y, b), NONE, lk');
  }

  /** The links after the successor `y`, already spliced out of z's right
      subtree, replaces z: `y.right = z.right`, `y.right.parent = y`,
      `transplant(z, y)`, `y.left = z.left`, `y.left.parent = y`. */
  ghost function SubstituteLinks(lk: Links, z: int, y: int): Links
    requires |lk.left| == |lk.parent| && |lk.right| == |lk.parent|
    requires 0 <= z < |lk.parent| && 0 <= y < |lk.parent| && y != z
    requires NONE <= lk.parent[z] < |lk.parent| && lk.parent[z] != z
    requires 0 <= lk.left[z] < |lk.parent| && 0 <= lk.right[z] < |lk.parent| && lk.right[z] != z
  {
    var lk1 := SetRight(lk, y, lk.right[z]);
    var lk2 := SetParent(lk1, lk1.right[y], y);
    var lk3 := TransplantLinks(lk2, z, y);
    var lk4 := SetLeft(lk3, y, lk3.left[z]);
    SetParent(lk4, lk4.left[y], y)
  }

  /** Slot by slot: y takes z's links, both of z's children `ra` and `rb`
      hang under y, z's parent `q` points at y, and nothing else moves. */
  lemma SubstituteSlots(lk: Links, z: int, y: int, ra: int, rb: int, q: int)
    requires |lk.left| == |lk.parent| && |lk.right| == |lk.parent|
    requires Has(lk, z, ra, rb, q) && Slot(lk, y) && Slot(lk, ra) && Slot(lk, rb)
    requires q == NONE || (Slot(lk, q) && (lk.left[q] == z || lk.right[q] == z))
    requires z != y && z != ra && z != rb && z != q && y != ra && y != rb && y != q
    requires ra != rb && ra != q && rb != q
    ensures var lk' := SubstituteLinks(lk, z, y);
      |lk'.left| == |lk.left| && |lk'.right| == |lk.right| && |lk'.parent| == |lk.parent| &&
      Has(lk', y, ra, rb, q) &&
      Slot(lk', ra) && lk'.left[ra] == lk.left[ra] && lk'.right[ra] == lk.right[ra] &&
      lk'.parent[ra] == y &&
      Slot(lk', rb) && lk'.left[rb] == lk.left[rb] && lk'.right[rb] == lk.right[rb] &&
      lk'.parent[rb] == y &&
      (forall j | Slot(lk, j) && j != z && j != y && j != ra && j != rb && j != q ::
         SameSlot(j, lk, lk')) &&
      (forall j | 0 <= j < |lk.parent| && j != y && j != ra && j != rb ::
         lk'.parent[j] == lk.parent[j]) &&
      (q != NONE ==>
         lk'.parent[q] == lk.parent[q] &&
         (if lk.left[q] == z then lk'.left[q] == y && lk'.right[q] == lk.right[q]
          else lk'.right[q] == y && lk'.left[q] == lk.left[q])) &&
      lk'.left[NIL] == lk.left[NIL] && lk'.right[NIL] == lk.right[NIL]
  {
    var lk1 := SetRight(lk, y, lk.right[z]);
    var lk2 := SetParent(lk1, lk1.right[y], y);
    TransplantSlots(lk2, z, y);
  }

  /** What the links say about z, with two children, and a slot `y` that is
      not in the tree. */
  lemma SubstituteView(ctx: seq<Frame>, a: Tree, z: int, b: Tree, y: int, lk: Links)
    requires a.Node? && b.Node?
    requires Linked(Plug(ctx, Node(a, z, b)), NONE, lk) && Distinct(Plug(ctx, Node(a, z, b)))
    requires Slot(lk, y) && y !in Ids(Plug(ctx, Node(a, z, b)))
    ensures var q := Up(ctx, NONE);
      Has(lk, z, a.id, b.id, q) && Slot(lk, a.id) && Slot(lk, b.id) &&
      (q == NONE || (Slot(lk, q) && (lk.left[q] == z || lk.right[q] == z))) &&
      z != y && z != a.id && z != b.id && z != q && y != a.id && y != b.id && y != q &&
      a.id != b.id && a.id != q && b.id != q
    ensures Linked(a, z, lk) && Distinct(a) && Linked(b, z, lk) && Distinct(b)
    ensures LinkedCtx(ctx, z, NONE, lk) && DistinctCtx(ctx)
    ensures forall j | j in Ids(a) ::
      Slot(lk, j) && j != z && j != y && j != b.id && j != Up(ctx, NONE)
    ensures forall j | j in Ids(b) ::
      Slot(lk, j) && j != z && j != y && j != a.id && j != Up(ctx, NONE)
    ensures forall j | j in CtxIds(ctx) :: Slot(lk, j) && j != z && j != y && j != a.id && j != b.id
    ensures ctx != [] ==>
      Up(ctx, NONE) == ctx[0].pid && (lk.left[ctx[0].pid] == z <==> ctx[0].LeftOf?)
  {
    var s := Node(a, z, b);
    NodeView(ctx, s, lk);
    LinkedFlat(Plug(ctx, s), NONE, lk);
    assert Ids(s) == Ids(a) + {z} + Ids(b);
    assert a.id in Ids(a);
    assert b.id in Ids(b);
  }

  /** Once the successor `y` has been spliced out of z's right subtree `b`,
      the five link writes that put it in z's place leave y over z's two
      subtrees, and change no parent link outside y and z's children. */
  lemma SubstituteLinked(ctx: seq<Frame>, a: Tree, z: int, b: Tree, y: int, lk: Links)
    requires a.Node? && b.Node?
    requires Linked(Plug(ctx, Node(a, z, b)), NONE, lk) && Distinct(Plug(ctx, Node(a, z, b)))
    requires Slot(lk, y) && y !in Ids(Plug(ctx, Node(a, z, b)))
    requires |lk.left| == |lk.parent| && |lk.right| == |lk.parent|
    requires 0 <= z < |lk.parent| && y != z
    requires NONE <= lk.parent[z] < |lk.parent| && lk.parent[z] != z
    requires 0 <= lk.left[z] < |lk.parent| && 0 <= lk.right[z] < |lk.parent| && lk.right[z] != z
    ensures var lk' := SubstituteLinks(lk, z, y);
      Linked(Plug(ctx, Node(a, y, b)), NONE, lk') &&
      (forall j | 0 <= j < |lk.parent| && j != y && j != a.id && j != b.id ::
         lk'.parent[j] == lk.parent[j]) &&
      lk'.left[NIL] == lk.left[NIL] && lk'.right[NIL] == lk.right[NIL] &&
      |lk'.left| == |lk.left| && |lk'.right| == |lk.right| && |lk'.parent| == |lk.parent|
  {
    SubstituteView(ctx, a, z, b, y, lk);
    SubstituteSlots(lk, z, y, a.id, b.id, Up(ctx, NONE));
    var lk' := SubstituteLinks(lk, z, y);
    LinkedReparent(b, z, y, lk, lk');
    Rehung(ctx, a, z, y, b, lk, lk');
  }

  // ----- the arena -----

  /** A tree made of the nodes of a well-formed tree less the one at
      position `i` of the symmetric order, linked and sorted, is well formed
      under any coloring with a black sentinel; its keys lose the removed
      node's key, first occurrence. */
  lemma WfRemoved(t: Tree, root: int, key: seq<int>, color: seq<Color>, lk: Links, i: int,
                  t': Tree, root': int, color': seq<Color>, lk': Links)
    requires Wf(t, root, key, color, lk)
    requires 0 <= i < |InOrder(t)| && InOrder(t') == InOrder(t)[..i] + InOrder(t)[i + 1..]
    requires Distinct(t') && Ids(t') <= Ids(t) && root' == Root(t')
    requires Linked(t', NONE, lk') && |lk'.left| == |key| && |lk'.right| == |key| && |lk'.parent| == |key|
    requires lk'.left[NIL] == NONE && lk'.right[NIL] == NONE
    requires |color'| == |key| && color'[NIL] == Black
    ensures Wf(t', root', key, color', lk')
    ensures KeySeq(InOrder(t'), key) ==
            RemoveFirst(KeySeq(InOrder(t), key), KeyOf(key, InOrder(t)[i]))
  {
    RemovedKeys(InOrder(t), i, key);
  }

  /** Splicing out `s` leaves a tree without repeated indices; the root
      stays unless s was it. */
  lemma SpliceShape(ctx: seq<Frame>, s: Tree, r: Tree)
    requires OneChild(s, r) && Distinct(Plug(ctx, s))
    ensures var t, t' := Plug(ctx, s), Plug(ctx, r);
      Distinct(t') && Ids(t') <= Ids(t) && s.id !in Ids(t') &&
      (ctx == [] ==> t' == r && Root(t) == s.id) && (ctx != [] ==> Root(t') == Root(t))
  {
    DistinctPlug(ctx, s);
    IdsPlug(ctx, s);
    DistinctShrink(ctx, s, r);
    if ctx != [] {
      PlugRoot(ctx, s, r);
    }
  }

  /** Splicing out a node with no left child removes exactly its position
      from the order of the whole tree. */
  lemma SpliceOrderDown(ctx: seq<Frame>, z: int, r: Tree)
    ensures var o, i := InOrder(Plug(ctx, Node(Nil, z, r))), |Before(ctx)|;
      i < |o| && o[i] == z && InOrder(Plug(ctx, r)) == o[..i] + o[i + 1..]
  {
    InOrderPlug(ctx, Node(Nil, z, r));
    InOrderPlug(ctx, r);
    DropInside(Before(ctx), [z] + InOrder(r), After(ctx), 0);
    assert ([z] + InOrder(r))[1..] == InOrder(r);
  }

  /** The same for a node with no right child. */
  lemma SpliceOrderUp(ctx: seq<Frame>, r: Tree, z: int)
    ensures var o, i := InOrder(Plug(ctx, Node(r, z, Nil))), |Before(ctx)| + |InOrder(r)|;
      i < |o| && o[i] == z && InOrder(Plug(ctx, r)) == o[..i] + o[i + 1..]
  {
    InOrderPlug(ctx, Node(r, z, Nil));
    InOrderPlug(ctx, r);
    DropInside(Before(ctx), InOrder(r) + [z], After(ctx), |InOrder(r)|);
    assert (InOrder(r) + [z])[..|InOrder(r)|] == InOrder(r);
  }

  /** Splicing out a node `z` with an empty child by `transplant(z, r)`:
      the tree without z is well formed, its keys lose z's key, and r's
      root takes z's parent. */
  lemma SpliceWf(t: Tree, z: int, r: Tree, root: int, key: seq<int>, color: seq<Color>, lk: Links)
    requires Wf(t, root, key, color, lk) && z in Ids(t) && OneChild(SubAt(t, z), r)
    ensures 0 < z < |key| && 0 <= Root(r) < |key| && NONE <= lk.parent[z] < |key|
    ensures lk.left[z] == Root(SubAt(t, z).left) && lk.right[z] == Root(SubAt(t, z).right)
    ensures var ctx, lk' := CtxOf(t, z), TransplantLinks(lk, z, Root(r));
      var t', root' := Plug(ctx, r), if lk.parent[z] == NONE then Root(r) else root;
      Wf(t', root', key, color, lk') && t == Plug(ctx, SubAt(t, z)) &&
      KeySeq(InOrder(t'), key) == RemoveFirst(KeySeq(InOrder(t), key), key[z]) &&
      lk'.parent[Root(r)] == Up(ctx, NONE) &&
      (ctx == [] ==> root' == Root(r) && root == z) && (ctx != [] ==> root' == root)
  {
    var ctx, s := CtxOf(t, z), SubAt(t, z);
    SubAtSound(t, z);
    SpliceLinked(ctx, s, r, lk);
    SpliceShape(ctx, s, r);
    var t', lk' := Plug(ctx, r), TransplantLinks(lk, z, Root(r));
    var root' := if lk.parent[z] == NONE then Root(r) else root;
    assert root' == Root(t');
    assert Linked(t', NONE, lk') && Distinct(t') && Ids(t') <= Ids(t);
    assert lk'.left[NIL] == NONE && lk'.right[NIL] == NONE;
    assert |lk'.left| == |key| && |lk'.right| == |key| && |lk'.parent| == |key|;
    if s.left.Nil? {
      assert s == Node(Nil, z, r);
      SpliceKeysDown(ctx, z, r, root, key, color, lk, root', lk');
    } else {
      assert s == Node(r, z, Nil);
      SpliceKeysUp(ctx, r, z, root, key, color, lk, root', lk');
    }
  }

  /** Well-formedness and keys once a node with no left child is gone. */
  lemma SpliceKeysDown(ctx: seq<Frame>, z: int, r: Tree, root: int, key: seq<int>,
                       color: seq<Color>, lk: Links, root': int, lk': Links)
    requires Wf(Plug(ctx, Node(Nil, z, r)), root, key, color, lk) && 0 < z < |key|
    requires Distinct(Plug(ctx, r)) && Ids(Plug(ctx, r)) <= Ids(Plug(ctx, Node(Nil, z, r)))
    requires root' == Root(Plug(ctx, r)) && Linked(Plug(ctx, r), NONE, lk')
    requires |lk'.left| == |key| && |lk'.right| == |key| && |lk'.parent| == |key|
    requires lk'.left[NIL] == NONE && lk'.right[NIL] == NONE
    ensures Wf(Plug(ctx, r), root', key, color, lk')
    ensures KeySeq(InOrder(Plug(ctx, r)), key) ==
            RemoveFirst(KeySeq(InOrder(Plug(ctx, Node(Nil, z, r))), key), key[z])
  {
    SpliceOrderDown(ctx, z, r);
    WfRemoved(Plug(ctx, Node(Nil, z, r)), root, key, color, lk, |Before(ctx)|,
              Plug(ctx, r), root', color, lk');
  }

  /** Well-formedness and keys once a node with no right child is gone. */
  lemma SpliceKeysUp(ctx: seq<Frame>, r: Tree, z: int, root: int, key: seq<int>,
                     color: seq<Color>, lk: Links, root': int, lk': Links)
    requires Wf(Plug(ctx, Node(r, z, Nil)), root, key, color, lk) && 0 < z < |key|
    requires Distinct(Plug(ctx, r)) && Ids(Plug(ctx, r)) <= Ids(Plug(ctx, Node(r, z, Nil)))
    requires root' == Root(Plug(ctx, r)) && Linked(Plug(ctx, r), NONE, lk')
    requires |lk'.left| == |key| && |lk'.right| == |key| && |lk'.parent| == |key|
    requires lk'.left[NIL] == NONE && lk'.right[NIL] == NONE
    ensures Wf(Plug(ctx, r), root', key, color, lk')
    ensures KeySeq(InOrder(Plug(ctx, r)), key) ==
            RemoveFirst(KeySeq(InOrder(Plug(ctx, Node(r, z, Nil))), key), key[z])
  {
    SpliceOrderUp(ctx, r, z);
    WfRemoved(Plug(ctx, Node(r, z, Nil)), root, key, color, lk, |Before(ctx)| + |InOrder(r)|,
              Plug(ctx, r), root', color, lk');
  }

  /** On a red-black tree, splicing out a red node leaves a red-black tree;
      splicing out a black one leaves the tree one black node short at r. */
  lemma SpliceState(t: Tree, z: int, r: Tree, root: int, key: seq<int>, color: seq<Color>, lk: Links)
    requires Wf(t, root, key, color, lk) && !IsRed(color, root) && RedOK(t, color) && Balanced(t, color)
    requires z in Ids(t) && OneChild(SubAt(t, z), r)
    ensures 0 < z < |key| && 0 <= Root(r) < |key| && NONE <= lk.parent[z] < |key|
    ensures lk.left[z] == Root(SubAt(t, z).left) && lk.right[z] == Root(SubAt(t, z).right)
    ensures var ctx, lk' := CtxOf(t, z), TransplantLinks(lk, z, Root(r));
      var t', root' := Plug(ctx, r), if lk.parent[z] == NONE then Root(r) else root;
      Wf(t', root', key, color, lk') &&
      KeySeq(InOrder(t'), key) == RemoveFirst(KeySeq(InOrder(t), key), key[z]) &&
      (!IsRed(color, z) ==> DelState(t', ctx, r, Root(r), root', key, color, lk')) &&
      (IsRed(color, z) ==> !IsRed(color, root') && RedOK(t', color) && Balanced(t', color))
  {
    SubAtSound(t, z);
    SpliceWf(t, z, r, root, key, color, lk);
    SpliceColors(CtxOf(t, z), SubAt(t, z), r, color);
  }

  /** Replacing z by its successor `y`, the leftmost node of z's right
      subtree `b`, leaves a tree without repeated indices and without z; the
      root stays unless z was it, in which case y is the new root. */
  lemma SuccessorShape(ctx: seq<Frame>, a: Tree, z: int, spine: seq<Frame>, y: int, cy: Tree)
    requires Distinct(Plug(ctx, Node(a, z, Plug(spine, Node(Nil, y, cy)))))
    ensures var t, t' := Plug(ctx, Node(a, z, Plug(spine, Node(Nil, y, cy)))),
                         Plug(ctx, Node(a, y, Plug(spine, cy)));
      Distinct(t') && Ids(t') <= Ids(t) && y != z && z !in Ids(t') &&
      (ctx == [] ==> Root(t') == y && Root(t) == z) &&
      (ctx != [] ==> Root(t') == Root(t) && Root(t) != y)
  {
    var sy, b, b' := Node(Nil, y, cy), Plug(spine, Node(Nil, y, cy)), Plug(spine, cy);
    var s, s' := Node(a, z, b), Node(a, y, b');
    DistinctPlug(ctx, s);
    IdsPlug(ctx, s);
    DistinctPlug(spine, sy);
    IdsPlug(spine, sy);
    DistinctShrink(spine, sy, cy);
    assert y in Ids(sy);
    assert Distinct(s');
    DistinctShrink(ctx, s, s');
    if ctx != [] {
      PlugRoot(ctx, s, s');
      PlugTop(ctx, s);
    }
  }

  /** Replacing z by its successor removes exactly z's position from the
      order of the whole tree. */
  lemma SuccessorOrderAt(ctx: seq<Frame>, a: Tree, z: int, spine: seq<Frame>, y: int, cy: Tree)
    requires Before(spine) == []
    ensures var o, i := InOrder(Plug(ctx, Node(a, z, Plug(spine, Node(Nil, y, cy))))),
                        |Before(ctx)| + |InOrder(a)|;
      i < |o| && o[i] == z && InOrder(Plug(ctx, Node(a, y, Plug(spine, cy)))) == o[..i] + o[i + 1..]
  {
    var b, b' := Plug(spine, Node(Nil, y, cy)), Plug(spine, cy);
    SpineOrder(spine, y, cy);
    SuccessorOrder(a, z, b, y, b');
    InOrderPlug(ctx, Node(a, z, b));
    InOrderPlug(ctx, Node(a, y, b'));
    DropMiddle(Before(ctx), InOrder(a), z, InOrder(b), After(ctx));
  }

  /** Well-formedness and keys after successor replacement. */
  lemma SuccessorKeys(ctx: seq<Frame>, a: Tree, z: int, spine: seq<Frame>, y: int, cy: Tree,
                      root: int, key: seq<int>, color: seq<Color>, lk: Links,
                      root': int, color': seq<Color>, lk': Links)
    requires Wf(Plug(ctx, Node(a, z, Plug(spine, Node(Nil, y, cy)))), root, key, color, lk)
    requires Before(spine) == [] && 0 < z < |key|
    requires Distinct(Plug(ctx, Node(a, y, Plug(spine, cy))))
    requires Ids(Plug(ctx, Node(a, y, Plug(spine, cy)))) <=
             Ids(Plug(ctx, Node(a, z, Plug(spine, Node(Nil, y, cy)))))
    requires root' == Root(Plug(ctx, Node(a, y, Plug(spine, cy))))
    requires Linked(Plug(ctx, Node(a, y, Plug(spine, cy))), NONE, lk')
    requires |lk'.left| == |key| && |lk'.right| == |key| && |lk'.parent| == |key|
    requires lk'.left[NIL] == NONE && lk'.right[NIL] == NONE
    requires |color'| == |key| && color'[NIL] == Black
    ensures Wf(Plug(ctx, Node(a, y, Plug(spine, cy))), root', key, color', lk')
    ensures KeySeq(InOrder(Plug(ctx, Node(a, y, Plug(spine, cy)))), key) ==
            RemoveFirst(KeySeq(InOrder(Plug(ctx, Node(a, z, Plug(spine, Node(Nil, y, cy))))), key), key[z])
  {
    SuccessorOrderAt(ctx, a, z, spine, y, cy);
    WfRemoved(Plug(ctx, Node(a, z, Plug(spine, Node(Nil, y, cy)))), root, key, color, lk,
              |Before(ctx)| + |InOrder(a)|, Plug(ctx, Node(a, y, Plug(spine, cy))), root', color', lk');
  }

  /** After successor replacement on a red-black tree, with y taking z's
      color: the tree is well formed, its keys lose z's key, and it is
      red-black when y was red, or else one black node short at y's old
      right subtree `cy`, whose root `x` hangs where y was. */
  lemma SuccessorState(ctx: seq<Frame>, a: Tree, z: int, spine: seq<Frame>, y: int, cy: Tree,
                       root: int, key: seq<int>, color: seq<Color>, lk: Links, root': int, lk': Links)
    requires Wf(Plug(ctx, Node(a, z, Plug(spine, Node(Nil, y, cy)))), root, key, color, lk)
    requires !IsRed(color, root)
    requires RedOK(Plug(ctx, Node(a, z, Plug(spine, Node(Nil, y, cy)))), color)
    requires Balanced(Plug(ctx, Node(a, z, Plug(spine, Node(Nil, y, cy)))), color)
    requires Before(spine) == [] && 0 < z < |key| && 0 < y < |key|
    requires root' == (if ctx == [] then y else root)
    requires Linked(Plug(ctx, Node(a, y, Plug(spine, cy))), NONE, lk')
    requires |lk'.left| == |key| && |lk'.right| == |key| && |lk'.parent| == |key|
    requires lk'.left[NIL] == NONE && lk'.right[NIL] == NONE
    requires 0 <= Root(cy) < |key| && lk'.parent[Root(cy)] == Up(spine + ([RightOf(a, y)] + ctx), NONE)
    ensures var t, t', c' := Plug(ctx, Node(a, z, Plug(spine, Node(Nil, y, cy)))),
                             Plug(ctx, Node(a, y, Plug(spine, cy))), color[y := color[z]];
      Wf(t', root', key, c', lk') &&
      KeySeq(InOrder(t'), key) == RemoveFirst(KeySeq(InOrder(t), key), key[z]) &&
      (!IsRed(color, y) ==>
         DelState(t', spine + ([RightOf(a, y)] + ctx), cy, Root(cy), root', key, c', lk')) &&
      (IsRed(color, y) ==> !IsRed(c', root') && RedOK(t', c') && Balanced(t', c'))
  {
    var c' := color[y := color[z]];
    SuccessorShape(ctx, a, z, spine, y, cy);
    SuccessorKeys(ctx, a, z, spine, y, cy, root, key, color, lk, root', c', lk');
    SuccessorApart(ctx, a, z, spine, y, cy);
    SuccessorColors(ctx, a, z, spine, y, cy, color, c');
    assert !IsRed(c', root');
  }

  /** The links of a node `z` in the tree name its children, the sentinel
      standing for an empty one. */
  lemma ChildrenView(t: Tree, z: int, root: int, key: seq<int>, color: seq<Color>, lk: Links)
    requires Wf(t, root, key, color, lk) && z in Ids(t)
    ensures SubAt(t, z).Node? && SubAt(t, z).id == z && 0 < z < |key|
    ensures (lk.left[z] == NIL <==> SubAt(t, z).left.Nil?) &&
            (lk.right[z] == NIL <==> SubAt(t, z).right.Nil?)
  {
    var ctx, s := CtxOf(t, z), SubAt(t, z);
    SubAtSound(t, z);
    NodeView(ctx, s, lk);
  }

  /** What the links say about a node `z` with two children. */
  lemma TwoChildView(t: Tree, z: int, root: int, key: seq<int>, color: seq<Color>, lk: Links)
    requires Wf(t, root, key, color, lk) && z in Ids(t) && lk.left[z] != NIL && lk.right[z] != NIL
    ensures var ctx, s := CtxOf(t, z), SubAt(t, z);
      s.Node? && s.id == z && s.left.Node? && s.right.Node? && t == Plug(ctx, s) &&
      0 < z < |key| && lk.left[z] == s.left.id && lk.right[z] == s.right.id &&
      0 <= lk.left[z] < |key| &&
      s.right.id in Ids(t) && SubAt(t, s.right.id) == s.right &&
      NONE <= lk.parent[z] < |key| && lk.parent[z] != z && (lk.parent[z] == NONE <==> ctx == [])
  {
    var ctx, s := CtxOf(t, z), SubAt(t, z);
    SubAtSound(t, z);
    NodeView(ctx, s, lk);
    LinkedFlat(t, NONE, lk);
    var a, b := s.left, s.right;
    assert b.id in Ids(s);
    assert a.id in Ids(s);
    PlugCons(RightOf(a, z), ctx, b);
    SubAtPlug([RightOf(a, z)] + ctx, b);
  }

  /** Where z's successor sits, as the links show it: it is the leftmost
      node `y` of z's right subtree `b`, it has no left child, and its
      parent is z exactly when it is z's right child. */
  lemma SuccessorSpot(ctx: seq<Frame>, a: Tree, z: int, b: Tree, lk: Links)
    requires b.Node? && Linked(Plug(ctx, Node(a, z, b)), NONE, lk) && Distinct(Plug(ctx, Node(a, z, b)))
    requires |lk.left| == |lk.parent| && |lk.right| == |lk.parent|
    ensures var spine, y, cy := LeftSpine(b), Leftmost(b), LeftmostSub(b).right;
      b == Plug(spine, Node(Nil, y, cy)) && Before(spine) == [] &&
      0 < y < |lk.parent| && y != z && lk.right[y] == Root(cy) && 0 <= Root(cy) < |lk.parent| &&
      NONE < lk.parent[y] < |lk.parent| && (lk.parent[y] == z <==> spine == [])
  {
    var spine, y, cy := LeftSpine(b), Leftmost(b), LeftmostSub(b).right;
    LeftSpineSound(b);
    SuccessorApart(ctx, a, z, spine, y, cy);
    var up := spine + ([RightOf(a, z)] + ctx);
    NodeView(up, Node(Nil, y, cy), lk);
    LinkedFlat(Plug(up, Node(Nil, y, cy)), NONE, lk);
    if cy.Node? {
      assert cy.id in Ids(Node(Nil, y, cy));
    }
    assert Up(up, NONE) == if spine == [] then z else spine[0].pid;
    if spine != [] {
      DistinctPlug(spine, Node(Nil, y, cy));
      IdsPlug(spine, Node(Nil, y, cy));
      DistinctPlug(ctx, Node(a, z, b));
      assert spine[0].pid in CtxIds(spine);
    }
  }

  /** The first step when the successor `y` lies deeper than z's right
      child: `transplant(y, y.right)` splices y out of z's right subtree. */
  lemma DeepSplice(ctx: seq<Frame>, a: Tree, z: int, spine: seq<Frame>, y: int, cy: Tree, lk: Links)
    requires a.Node? && spine != []
    requires Linked(Plug(ctx, Node(a, z, Plug(spine, Node(Nil, y, cy)))), NONE, lk)
    requires Distinct(Plug(ctx, Node(a, z, Plug(spine, Node(Nil, y, cy)))))
    requires |lk.left| == |lk.parent| && |lk.right| == |lk.parent|
    ensures 0 < spine[0].pid < |lk.parent|
    ensures Has(lk, y, NIL, Root(cy), spine[0].pid) && 0 <= Root(cy) < |lk.parent|
    ensures var lk1, t1 := TransplantLinks(lk, y, Root(cy)), Plug(ctx, Node(a, z, Plug(spine, cy)));
      Linked(t1, NONE, lk1) && Slot(lk1, y) && lk1.parent[Root(cy)] == spine[0].pid &&
      lk1.left[NIL] == lk.left[NIL] && lk1.right[NIL] == lk.right[NIL] &&
      |lk1.left| == |lk.left| && |lk1.right| == |lk.right| && |lk1.parent| == |lk.parent|
  {
    var sy, up := Node(Nil, y, cy), spine + ([RightOf(a, z)] + ctx);
    SuccessorApart(ctx, a, z, spine, y, cy);
    SpliceLinked(up, sy, cy, lk);
    NodeView(up, sy, lk);
    assert up[0] == spine[0];
    PlugAppend(spine, [RightOf(a, z)] + ctx, cy);
    PlugCons(RightOf(a, z), ctx, Plug(spine, cy));
  }

  /** The tree with the successor spliced out has no repeated indices and
      no y. */
  lemma DeepShape(ctx: seq<Frame>, a: Tree, z: int, spine: seq<Frame>, y: int, cy: Tree)
    requires Distinct(Plug(ctx, Node(a, z, Plug(spine, Node(Nil, y, cy)))))
    requires NIL !in Ids(Plug(ctx, Node(a, z, Plug(spine, Node(Nil, y, cy)))))
    ensures var t1 := Plug(ctx, Node(a, z, Plug(spine, cy)));
      Distinct(t1) && y !in Ids(t1) && Distinct(Node(a, z, Plug(spine, Node(Nil, y, cy)))) &&
      NIL !in Ids(Node(a, z, Plug(spine, Node(Nil, y, cy))))
  {
    var sy, b, b' := Node(Nil, y, cy), Plug(spine, Node(Nil, y, cy)), Plug(spine, cy);
    var s := Node(a, z, b);
    DistinctPlug(ctx, s);
    IdsPlug(ctx, s);
    DistinctPlug(spine, sy);
    IdsPlug(spine, sy);
    DistinctShrink(spine, sy, cy);
    DistinctShrink(ctx, s, Node(a, z, b'));
    assert y in Ids(sy);
  }

  /** Below a nonempty spine, y's old right subtree is apart from y, from
      the top of the spine and from z's left subtree. */
  lemma DeepApart(a: Tree, z: int, spine: seq<Frame>, y: int, cy: Tree)
    requires a.Node? && spine != [] && Distinct(Node(a, z, Plug(spine, Node(Nil, y, cy))))
    requires NIL !in Ids(Node(a, z, Plug(spine, Node(Nil, y, cy))))
    ensures Plug(spine, cy).Node? && Root(cy) != Plug(spine, cy).id && Root(cy) != a.id &&
            Root(cy) != y && Root(cy) != z
  {
    var sy := Node(Nil, y, cy);
    DistinctPlug(spine, sy);
    IdsPlug(spine, sy);
    PlugRoot(spine, cy, cy);
    PlugTop(spine, cy);
    assert a.id in Ids(a);
    assert y in Ids(sy);
    if cy.Node? {
      assert cy.id in Ids(sy);
    }
  }

  /** When the successor `y` lies deeper than z's right child, the seven
      link writes of the two-child case (y spliced out, then put in z's
      place) leave y over z's two subtrees, with y's old right subtree
      where y was. */
  lemma DeepLinked(ctx: seq<Frame>, a: Tree, z: int, spine: seq<Frame>, y: int, cy: Tree, lk: Links)
    requires a.Node? && spine != []
    requires Linked(Plug(ctx, Node(a, z, Plug(spine, Node(Nil, y, cy)))), NONE, lk)
    requires Distinct(Plug(ctx, Node(a, z, Plug(spine, Node(Nil, y, cy)))))
    requires |lk.left| == |lk.parent| && |lk.right| == |lk.parent|
    ensures 0 < y < |lk.parent| && 0 <= Root(cy) < |lk.parent| && NONE <= lk.parent[y] < |lk.parent|
    ensures Root(cy) != z
    ensures var lk1 := TransplantLinks(lk, y, Root(cy));
      0 <= z < |lk1.parent| && y != z &&
      NONE <= lk1.parent[z] < |lk1.parent| && lk1.parent[z] != z &&
      0 <= lk1.left[z] < |lk1.parent| && 0 <= lk1.right[z] < |lk1.parent| && lk1.right[z] != z
    ensures var lk' := SubstituteLinks(TransplantLinks(lk, y, Root(cy)), z, y);
      Linked(Plug(ctx, Node(a, y, Plug(spine, cy))), NONE, lk') &&
      lk'.parent[Root(cy)] == spine[0].pid &&
      lk'.left[NIL] == lk.left[NIL] && lk'.right[NIL] == lk.right[NIL] &&
      |lk'.left| == |lk.left| && |lk'.right| == |lk.right| && |lk'.parent| == |lk.parent|
  {
    DeepSplice(ctx, a, z, spine, y, cy, lk);
    LinkedFlat(Plug(ctx, Node(a, z, Plug(spine, Node(Nil, y, cy)))), NONE, lk);
    DeepShape(ctx, a, z, spine, y, cy);
    DeepApart(a, z, spine, y, cy);
    var lk1, b' := TransplantLinks(lk, y, Root(cy)), Plug(spine, cy);
    NodeView(ctx, Node(a, z, b'), lk1);
    assert z in Ids(Node(a, z, b'));
    SubstituteLinked(ctx, a, z, b', y, lk1);
  }

  /** The links after the two-child case: which writes happen depends on
      whether the successor `y` is z's own right child. */
  ghost function SuccessorLinks(lk: Links, z: int, y: int, x: int): Links
    requires |lk.left| == |lk.parent| && |lk.right| == |lk.parent|
    requires 0 <= z < |lk.parent| && 0 <= y < |lk.parent| && 0 <= x < |lk.parent| && y != z
    requires NONE <= lk.parent[y] < |lk.parent|
    requires NONE <= lk.parent[z] < |lk.parent| && lk.parent[z] != z && 0 <= lk.left[z] < |lk.parent|
    requires lk.parent[y] != z ==>
      var lk1 := TransplantLinks(lk, y, x);
      NONE <= lk1.parent[z] < |lk1.parent| && lk1.parent[z] != z &&
      0 <= lk1.left[z] < |lk1.parent| && 0 <= lk1.right[z] < |lk1.parent| && lk1.right[z] != z
  {
    if lk.parent[y] == z then AdjacentLinks(lk, z, y, x)
    else SubstituteLinks(TransplantLinks(lk, y, x), z, y)
  }

  /** The links of the two-child case, with `y` the leftmost node of z's
      right subtree and `cy` its right subtree: the writes are well defined
      and leave y over z's subtrees, and cy where y was. */
  lemma SuccessorLinked(ctx: seq<Frame>, a: Tree, z: int, spine: seq<Frame>, y: int, cy: Tree, lk: Links)
    requires a.Node?
    requires Linked(Plug(ctx, Node(a, z, Plug(spine, Node(Nil, y, cy)))), NONE, lk)
    requires Distinct(Plug(ctx, Node(a, z, Plug(spine, Node(Nil, y, cy)))))
    requires |lk.left| == |lk.parent| && |lk.right| == |lk.parent|
    requires 0 < z < |lk.parent| && 0 < y < |lk.parent| && y != z && 0 <= Root(cy) < |lk.parent|
    requires NONE <= lk.parent[z] < |lk.parent| && lk.parent[z] != z && 0 <= lk.left[z] < |lk.parent|
    requires NONE < lk.parent[y] < |lk.parent| && (lk.parent[y] == z <==> spine == [])
    ensures Root(cy) != z
    ensures lk.parent[y] != z ==>
      var lk1 := TransplantLinks(lk, y, Root(cy));
      NONE <= lk1.parent[z] < |lk.parent| && lk1.parent[z] != z &&
      0 <= lk1.left[z] < |lk.parent| && 0 <= lk1.right[z] < |lk.parent| && lk1.right[z] != z
    ensures var lk' := SuccessorLinks(lk, z, y, Root(cy));
      |lk'.left| == |lk.left| && |lk'.right| == |lk.right| && |lk'.parent| == |lk.parent| &&
      Linked(Plug(ctx, Node(a, y, Plug(spine, cy))), NONE, lk') &&
      lk'.parent[Root(cy)] == Up(spine + ([RightOf(a, y)] + ctx), NONE) &&
      lk'.left[NIL] == lk.left[NIL] && lk'.right[NIL] == lk.right[NIL]
  {
    if spine == [] {
      AdjacentView(ctx, a, z, y, cy, lk);
      AdjacentLinked(ctx, a, z, y, cy, lk);
    } else {
      DeepSplice(ctx, a, z, spine, y, cy, lk);
      DeepLinked(ctx, a, z, spine, y, cy, lk);
      assert (spine + ([RightOf(a, y)] + ctx))[0] == spine[0];
    }
  }
}
