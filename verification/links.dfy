/** How the arena's `left`, `right` and `parent` sequences spell out a tree
    shape.  `Linked(t, p, lk)` says that every node of `t` has the roots of
    its subtrees as children and its tree parent as `parent`, the root of
    `t` having parent `p`. */
module Links {
  import opened Shapes

  datatype Links = Links(left: seq<int>, right: seq<int>, parent: seq<int>)

  /** `i` is a real (non-sentinel) slot of the arena. */
  ghost predicate Slot(lk: Links, i: int)
  {
    0 < i < |lk.left| && i < |lk.right| && i < |lk.parent|
  }

  ghost predicate Linked(t: Tree, p: int, lk: Links)
  {
    match t
    case Nil => true
    case Node(l, i, r) =>
      Slot(lk, i) && lk.left[i] == Root(l) && lk.right[i] == Root(r) && lk.parent[i] == p &&
      Linked(l, i, lk) && Linked(r, i, lk)
  }

  /** The links of the frames of a context, for a focus whose arena index is
      `f`; the outermost frame's node has parent `top`. */
  ghost predicate LinkedCtx(ctx: seq<Frame>, f: int, top: int, lk: Links)
    decreases |ctx|
  {
    ctx == [] ||
    (var p := ctx[0].pid;
     Slot(lk, p) && lk.parent[p] == Up(ctx[1..], top) && Linked(ctx[0].sib, p, lk) &&
     (if ctx[0].LeftOf? then lk.left[p] == f && lk.right[p] == Root(ctx[0].sib)
      else lk.right[p] == f && lk.left[p] == Root(ctx[0].sib)) &&
     LinkedCtx(ctx[1..], p, top, lk))
  }

  /** Slot `j` has exactly the links `l`, `r` and `p`. */
  ghost predicate Has(lk: Links, j: int, l: int, r: int, p: int)
  {
    Slot(lk, j) && lk.left[j] == l && lk.right[j] == r && lk.parent[j] == p
  }

  /** Slot `j` has the same links in both arenas. */
  ghost predicate SameSlot(j: int, lk: Links, lk': Links)
  {
    Slot(lk, j) && Slot(lk', j) &&
    lk'.left[j] == lk.left[j] && lk'.right[j] == lk.right[j] && lk'.parent[j] == lk.parent[j]
  }

  lemma {:induction false} LinkedPlug(ctx: seq<Frame>, t: Tree, top: int, lk: Links)
    ensures Linked(Plug(ctx, t), top, lk) <==>
            Linked(t, Up(ctx, top), lk) && LinkedCtx(ctx, Root(t), top, lk)
    decreases |ctx|
  {
    if ctx != [] {
      LinkedPlug(ctx[1..], Fill(ctx[0], t), top, lk);
    }
  }

  lemma {:induction false} LinkedSame(t: Tree, p: int, lk: Links, lk': Links)
    requires Linked(t, p, lk)
    requires forall j | j in Ids(t) :: SameSlot(j, lk, lk')
    ensures Linked(t, p, lk')
  {
    if t.Node? {
      assert t.id in Ids(t);
      LinkedSame(t.left, t.id, lk, lk');
      LinkedSame(t.right, t.id, lk, lk');
    }
  }

  /** Only the parent link of the subtree's root changed. */
  lemma {:induction false} LinkedReparent(t: Tree, p: int, p': int, lk: Links, lk': Links)
    requires Linked(t, p, lk) && Distinct(t)
    requires forall j | j in Ids(t) && j != Root(t) :: SameSlot(j, lk, lk')
    requires t.Node? ==> Slot(lk', t.id) && lk'.left[t.id] == lk.left[t.id] &&
                         lk'.right[t.id] == lk.right[t.id] && lk'.parent[t.id] == p'
    ensures Linked(t, p', lk')
  {
    if t.Node? {
      LinkedSame(t.left, t.id, lk, lk');
      LinkedSame(t.right, t.id, lk, lk');
    }
  }

  lemma {:induction false} LinkedCtxSame(ctx: seq<Frame>, f: int, top: int, lk: Links, lk': Links)
    requires LinkedCtx(ctx, f, top, lk)
    requires forall j | j in CtxIds(ctx) :: SameSlot(j, lk, lk')
    ensures LinkedCtx(ctx, f, top, lk')
    decreases |ctx|
  {
    if ctx != [] {
      assert ctx[0].pid in CtxIds(ctx);
      LinkedSame(ctx[0].sib, ctx[0].pid, lk, lk');
      LinkedCtxSame(ctx[1..], ctx[0].pid, top, lk, lk');
    }
  }

  /** Only the innermost frame's link to the focus changed, to `f'`. */
  lemma {:induction false} LinkedCtxRefocus(ctx: seq<Frame>, f: int, f': int, top: int,
                                            lk: Links, lk': Links)
    requires LinkedCtx(ctx, f, top, lk) && DistinctCtx(ctx)
    requires forall j | j in CtxIds(ctx) && j != Up(ctx, top) :: SameSlot(j, lk, lk')
    requires ctx != [] ==>
      var p := ctx[0].pid;
      Slot(lk', p) && lk'.parent[p] == lk.parent[p] &&
      (if ctx[0].LeftOf? then lk'.left[p] == f' && lk'.right[p] == lk.right[p]
       else lk'.right[p] == f' && lk'.left[p] == lk.left[p])
    ensures LinkedCtx(ctx, f', top, lk')
  {
    if ctx != [] {
      LinkedSame(ctx[0].sib, ctx[0].pid, lk, lk');
      LinkedCtxSame(ctx[1..], ctx[0].pid, top, lk, lk');
    }
  }

  /** What `Linked` says node by node: each child link of a node leads to a
      node of the tree whose parent link leads back. */
  lemma {:induction false} LinkedFlat(t: Tree, p: int, lk: Links)
    requires Linked(t, p, lk) && Distinct(t)
    ensures forall j | j in Ids(t) ::
              Slot(lk, j) &&
              (lk.left[j] != NIL ==>
                 lk.left[j] in Ids(t) && Slot(lk, lk.left[j]) &&
                 lk.parent[lk.left[j]] == j && lk.left[j] != lk.right[j]) &&
              (lk.right[j] != NIL ==>
                 lk.right[j] in Ids(t) && Slot(lk, lk.right[j]) && lk.parent[lk.right[j]] == j)
    ensures t.Node? ==> lk.parent[t.id] == p
    ensures NIL !in Ids(t) && NONE !in Ids(t)
  {
    if t.Node? {
      LinkedFlat(t.left, t.id, lk);
      LinkedFlat(t.right, t.id, lk);
    }
  }

  /** What the links say about a node at a known position: its own links,
      which side of its parent it hangs on, and which indices are apart. */
  lemma NodeView(ctx: seq<Frame>, s: Tree, lk: Links)
    requires s.Node? && Linked(Plug(ctx, s), NONE, lk) && Distinct(Plug(ctx, s))
    ensures Has(lk, s.id, Root(s.left), Root(s.right), Up(ctx, NONE))
    ensures Linked(s, Up(ctx, NONE), lk) && LinkedCtx(ctx, s.id, NONE, lk)
    ensures Distinct(s) && DistinctCtx(ctx) && Ids(s) !! CtxIds(ctx)
    ensures Ids(Plug(ctx, s)) == Ids(s) + CtxIds(ctx)
    ensures (ctx == []) == (Up(ctx, NONE) == NONE) && Up(ctx, NONE) != NIL
    ensures ctx != [] ==>
              Slot(lk, ctx[0].pid) && ctx[0].pid in CtxIds(ctx) &&
              (lk.left[ctx[0].pid] == s.id <==> ctx[0].LeftOf?) &&
              (lk.right[ctx[0].pid] == s.id <==> ctx[0].RightOf?)
  {
    LinkedPlug(ctx, s, NONE, lk);
    DistinctPlug(ctx, s);
    IdsPlug(ctx, s);
    if ctx != [] {
      assert ctx[0].pid in CtxIds(ctx);
      assert Ids(ctx[0].sib) <= CtxIds(ctx);
      if ctx[0].sib.Node? {
        assert ctx[0].sib.id in Ids(ctx[0].sib);
      }
    }
  }
}
