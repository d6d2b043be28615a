/** The arena side of `fix_delete`: the loop invariant on the links and
    colors, and one lemma per case saying what the case's color writes and
    rotation leave behind.  The focus `x` may be the sentinel NIL; its
    position is then known only through the ghost context, and its parent
    through the sentinel's own `parent` slot. */
module Repair {
  import opened Shapes
  import opened Links
  import opened Colors
  import opened KeyOrder
  import opened Rewiring
  import opened TreeOrder
  import opened Arena
  import opened Deletion

  /** The state of the repair loop: the arena spells out `t`, which is the
      subtree `tx` (rooted at `x`, possibly NIL) plugged into `ctx`; x's
      parent slot names its tree parent; x is one black node short; and the
      root is black unless it is x itself. */
  ghost predicate DelState(t: Tree, ctx: seq<Frame>, tx: Tree, x: int, root: int,
                           key: seq<int>, color: seq<Color>, lk: Links)
  {
    Wf(t, root, key, color, lk) && t == Plug(ctx, tx) && x == Root(tx) &&
    0 <= x < |key| && lk.parent[x] == Up(ctx, NONE) && Short(ctx, tx, color) &&
    (IsRed(color, root) ==> root == x)
  }

  /** Well-formedness reads the colors only at the sentinel. */
  lemma WfRecolor(t: Tree, root: int, key: seq<int>, color: seq<Color>, lk: Links, c': seq<Color>)
    requires Wf(t, root, key, color, lk) && |c'| == |color| && c'[NIL] == Black
    ensures Wf(t, root, key, c', lk)
  {
  }

  lemma PlugCons(f: Frame, up: seq<Frame>, t: Tree)
    ensures Plug([f] + up, t) == Plug(up, Fill(f, t))
  {
    assert ([f] + up)[1..] == up;
  }

  /** What the loop body reads around a focus that is not the root: its
      parent p, which side it hangs on, its sibling w (never NIL) and w's
      children. */
  lemma DelView(t: Tree, ctx: seq<Frame>, tx: Tree, x: int, root: int,
                key: seq<int>, color: seq<Color>, lk: Links)
    requires DelState(t, ctx, tx, x, root, key, color, lk)
    ensures x == root <==> ctx == []
    ensures ctx != [] ==>
      var p, w := ctx[0].pid, ctx[0].sib;
      p == lk.parent[x] && 0 < p < |key| && p in Ids(t) &&
      SubAt(t, p) == Fill(ctx[0], tx) && CtxOf(t, p) == ctx[1..] &&
      w.Node? && 0 < w.id < |key| && w.id != p && x != p && x != w.id &&
      (w.left.Node? ==> x != w.left.id) && (w.right.Node? ==> x != w.right.id) &&
      (lk.left[p] == x <==> ctx[0].LeftOf?) &&
      (if ctx[0].LeftOf? then lk.right[p] == w.id else lk.left[p] == w.id) &&
      lk.left[w.id] == Root(w.left) && lk.right[w.id] == Root(w.right) &&
      0 <= Root(w.left) < |key| && 0 <= Root(w.right) < |key|
  {
    if ctx == [] {
      assert t == tx;
    } else {
      var f, up := ctx[0], ctx[1..];
      assert ctx == [f] + up;
      PlugCons(f, up, tx);
      ShortCons(f, up, tx, color);
      assert f.sib.Node?;
      ParentView(up, f, tx, lk);
      SiblingView(f.sib, f.pid, lk);
      DistinctPlug(up, Fill(f, tx));
      FocusApart(f, tx, lk);
      assert t.Node? && lk.parent[root] == NONE by {
        LinkedFlat(t, NONE, lk);
        assert root in Ids(t);
      }
    }
  }

  /** The links around the parent of a focus with a nonempty sibling. */
  lemma ParentView(up: seq<Frame>, f: Frame, tx: Tree, lk: Links)
    requires f.sib.Node?
    requires Linked(Plug(up, Fill(f, tx)), NONE, lk) && Distinct(Plug(up, Fill(f, tx)))
    ensures var p, w, t := f.pid, f.sib, Plug(up, Fill(f, tx));
      Slot(lk, p) && lk.parent[p] == Up(up, NONE) &&
      p in Ids(t) && SubAt(t, p) == Fill(f, tx) && CtxOf(t, p) == up &&
      lk.left[p] == (if f.LeftOf? then Root(tx) else w.id) &&
      lk.right[p] == (if f.LeftOf? then w.id else Root(tx)) &&
      w.id != p && w.id != Root(tx)
    ensures Linked(f.sib, f.pid, lk)
  {
    var s := Fill(f, tx);
    NodeView(up, s, lk);
    SubAtPlug(up, s);
    assert Ids(s) == Ids(tx) + {f.pid} + Ids(f.sib);
    assert f.sib.id in Ids(f.sib);
    if tx.Node? {
      assert tx.id in Ids(tx);
    }
  }

  /** The focus is none of the nodes next to it: not its parent, its
      sibling or the sibling's children. */
  lemma FocusApart(f: Frame, tx: Tree, lk: Links)
    requires f.sib.Node? && 0 < f.pid && Distinct(Fill(f, tx)) && Linked(f.sib, f.pid, lk)
    ensures var w := f.sib;
      f.pid != Root(tx) && w.id != Root(tx) &&
      (w.left.Node? ==> w.left.id != Root(tx)) && (w.right.Node? ==> w.right.id != Root(tx))
  {
    var w := f.sib;
    assert Ids(Fill(f, tx)) == Ids(tx) + {f.pid} + Ids(w);
    assert Ids(w) == Ids(w.left) + {w.id} + Ids(w.right);
    if w.left.Node? {
      assert w.left.id in Ids(w.left);
    }
    if w.right.Node? {
      assert w.right.id in Ids(w.right);
    }
    if tx.Node? {
      assert tx.id in Ids(tx);
    }
  }

  /** The links of a nonempty sibling and of its children. */
  lemma SiblingView(w: Tree, p: int, lk: Links)
    requires w.Node? && Linked(w, p, lk)
    ensures Has(lk, w.id, Root(w.left), Root(w.right), p)
    ensures w.left.Node? ==> Slot(lk, w.left.id)
    ensures w.right.Node? ==> Slot(lk, w.right.id)
  {
  }

  /** Case 2: both children of the black sibling are black.  Painting the
      sibling red moves the deficit to the parent, one frame up. */
  lemma BlackNephews(t: Tree, ctx: seq<Frame>, tx: Tree, x: int, root: int,
                     key: seq<int>, color: seq<Color>, lk: Links)
    requires DelState(t, ctx, tx, x, root, key, color, lk) && ctx != [] && !IsRed(color, x)
    requires ctx[0].sib.Node? && !IsRed(color, ctx[0].sib.id)
    requires !RedT(ctx[0].sib.left, color) && !RedT(ctx[0].sib.right, color)
    ensures 0 < ctx[0].sib.id < |color|
    ensures DelState(t, ctx[1..], Fill(ctx[0], tx), ctx[0].pid, root, key,
                     color[ctx[0].sib.id := Red], lk)
  {
    DelView(t, ctx, tx, x, root, key, color, lk);
    var f, up := ctx[0], ctx[1..];
    var c2 := color[f.sib.id := Red];
    WfRecolor(t, root, key, color, lk, c2);
    assert ctx == [f] + up;
    NodeView(up, Fill(f, tx), lk);
    assert Ids(Fill(f, tx)) == Ids(tx) + {f.pid} + Ids(f.sib);
    assert Distinct(Fill(f, tx));
    assert f.sib.id in Ids(f.sib);
    Case2Tree(f, up, tx, color, c2);
  }

  // ----- case 1: a red sibling -----

  /** The shape after a left rotation at the focus's parent: the focus gets
      its old nephew as sibling, under the same parent, below the old
      sibling. */
  lemma RotLShape(up: seq<Frame>, tx: Tree, p: int, a: Tree, w: int, b: Tree)
    ensures Plug(up, RotL(Node(tx, p, Node(a, w, b)))) ==
            Plug([LeftOf(p, a)] + ([LeftOf(w, b)] + up), tx)
  {
    PlugCons(LeftOf(p, a), [LeftOf(w, b)] + up, tx);
    PlugCons(LeftOf(w, b), up, Node(tx, p, a));
  }

  lemma RotRShape(up: seq<Frame>, tx: Tree, p: int, a: Tree, w: int, b: Tree)
    ensures Plug(up, RotR(Node(Node(a, w, b), p, tx))) ==
            Plug([RightOf(b, p)] + ([RightOf(a, w)] + up), tx)
  {
    PlugCons(RightOf(b, p), [RightOf(a, w)] + up, tx);
    PlugCons(RightOf(a, w), up, Node(b, p, tx));
  }

  /** A rotation at a node `s.id` leaves the parent slot of every node
      other than the four it rewires, and of the sentinel, as it was. */
  lemma RotLParent(ctx: seq<Frame>, s: Tree, lk: Links, lk': Links, j: int)
    requires s.Node? && s.right.Node? && RotatedLeft(ctx, s, lk, lk')
    requires 0 < |lk.parent| && 0 < |lk'.parent| && lk'.parent[NIL] == lk.parent[NIL]
    requires j == NIL || (j in Ids(Plug(ctx, s)) && j != s.id && j != s.right.id &&
                          j != Root(s.right.left) && j != Up(ctx, NONE))
    ensures 0 <= j < |lk.parent| && 0 <= j < |lk'.parent| && lk'.parent[j] == lk.parent[j]
  {
  }

  lemma RotRParent(ctx: seq<Frame>, s: Tree, lk: Links, lk': Links, j: int)
    requires s.Node? && s.left.Node? && RotatedRight(ctx, s, lk, lk')
    requires 0 < |lk.parent| && 0 < |lk'.parent| && lk'.parent[NIL] == lk.parent[NIL]
    requires j == NIL || (j in Ids(Plug(ctx, s)) && j != s.id && j != s.left.id &&
                          j != Root(s.left.right) && j != Up(ctx, NONE))
    ensures 0 <= j < |lk.parent| && 0 <= j < |lk'.parent| && lk'.parent[j] == lk.parent[j]
  {
  }

  /** A left rotation at the parent `p` of a left focus `tx`: the arena
      spells out the rotated shape, the focus keeps `p` as parent, and the
      focus ends up two frames below the old sibling. */
  lemma RotateAtParentLeft(t: Tree, up: seq<Frame>, tx: Tree, p: int, w: Tree,
                           root: int, key: seq<int>, c: seq<Color>, lk: Links)
    requires Wf(t, root, key, c, lk) && t == Plug(up, Node(tx, p, w)) && w.Node?
    requires 0 <= Root(tx) < |key| && lk.parent[Root(tx)] == p
    ensures p in Ids(t) && SubAt(t, p).Node? && SubAt(t, p).right.Node?
    ensures 0 < p < |key| && 0 < w.id < |key| && lk.right[p] == w.id && lk.left[w.id] == Root(w.left)
    ensures 0 <= lk.left[w.id] < |key| && NONE <= lk.parent[p] < |key|
    ensures |lk.left| == |key| && |lk.right| == |key| && |lk.parent| == |key|
    ensures (lk.parent[p] == NONE) == (up == [])
    ensures var t', lk' := RotateLeftAt(t, p), RotLLinks(lk, p);
      Wf(t', if lk.parent[p] == NONE then w.id else root, key, c, lk') &&
      t' == Plug([LeftOf(p, w.left)] + ([LeftOf(w.id, w.right)] + up), tx) &&
      lk'.parent[Root(tx)] == p
  {
    var s := Node(tx, p, w);
    NodeView(up, s, lk);
    SubAtPlug(up, s);
    SiblingView(w, p, lk);
    assert Ids(s) == Ids(tx) + {p} + (Ids(w.left) + {w.id} + Ids(w.right));
    RotateLeftWf(t, p, root, key, c, lk);
    var lk' := RotLLinks(lk, p);
    RotLShape(up, tx, p, w.left, w.id, w.right);
    if tx.Node? {
      assert tx.id in Ids(tx);
    }
    RotLParent(up, s, lk, lk', Root(tx));
  }

  /** Away from the root, the root is black, and it is the focus's parent
      exactly when that parent has no parent. */
  lemma RootView(t: Tree, ctx: seq<Frame>, tx: Tree, x: int, root: int,
                 key: seq<int>, color: seq<Color>, lk: Links)
    requires DelState(t, ctx, tx, x, root, key, color, lk) && ctx != []
    ensures !IsRed(color, root) && root != NIL && root !in Ids(tx) && root !in Ids(ctx[0].sib)
    ensures root == ctx[0].pid <==> ctx[1..] == []
  {
    var f, up := ctx[0], ctx[1..];
    var s := Fill(f, tx);
    assert ctx == [f] + up;
    PlugCons(f, up, tx);
    DistinctPlug(up, s);
    IdsPlug(up, s);
    assert Ids(s) == Ids(tx) + {f.pid} + Ids(f.sib);
    assert root in Ids(t) && f.pid in Ids(t);
    if up != [] {
      PlugTop(up, s);
      assert root in CtxIds(up);
    }
    LinkedFlat(t, NONE, lk);
  }

  /** The color half of case 1 on the left. */
  lemma RedSiblingColorsLeft(t: Tree, ctx: seq<Frame>, tx: Tree, x: int, root: int,
                             key: seq<int>, color: seq<Color>, lk: Links)
    requires DelState(t, ctx, tx, x, root, key, color, lk) && ctx != [] && ctx[0].LeftOf?
    requires ctx[0].sib.Node? && IsRed(color, ctx[0].sib.id)
    ensures var p, w := ctx[0].pid, ctx[0].sib;
      0 < p < |color| && 0 < w.id < |color| && w.left.Node? &&
      var c1 := color[w.id := Black][p := Red];
      Short([LeftOf(p, w.left)] + ([LeftOf(w.id, w.right)] + ctx[1..]), tx, c1) &&
      IsRed(c1, p) && !IsRed(c1, w.left.id)
  {
    DelView(t, ctx, tx, x, root, key, color, lk);
    var f, up := ctx[0], ctx[1..];
    var p, w := f.pid, f.sib;
    var s := Fill(f, tx);
    assert ctx == [f] + up;
    PlugCons(f, up, tx);
    NodeView(up, s, lk);
    assert Ids(s) == Ids(tx) + {p} + (Ids(w.left) + {w.id} + Ids(w.right));
    Case1TreeLeft(up, tx, p, w.left, w.id, w.right, color, color[w.id := Black][p := Red]);
  }

  /** Case 1, focus on the left: the red sibling `w` turns black, the parent
      `p` red, and a left rotation at p gives x a black sibling (w's old
      left child) under the now red parent. */
  lemma RedSiblingLeft(t: Tree, ctx: seq<Frame>, tx: Tree, x: int, root: int,
                       key: seq<int>, color: seq<Color>, lk: Links)
    requires DelState(t, ctx, tx, x, root, key, color, lk) && ctx != [] && ctx[0].LeftOf?
    requires ctx[0].sib.Node? && IsRed(color, ctx[0].sib.id)
    ensures var p, w := ctx[0].pid, ctx[0].sib;
      p in Ids(t) && 0 < p < |key| && 0 < w.id < |key| && lk.right[p] == w.id &&
      SubAt(t, p).Node? && SubAt(t, p).right.Node? && w.left.Node? &&
      0 <= lk.left[w.id] < |key| && NONE <= lk.parent[p] < |key| &&
      |lk.left| == |key| && |lk.right| == |key| && |lk.parent| == |key|
    ensures var p, w := ctx[0].pid, ctx[0].sib;
      var c1 := color[w.id := Black][p := Red];
      Wf(t, root, key, c1, lk) &&
      DelState(RotateLeftAt(t, p), [LeftOf(p, w.left)] + ([LeftOf(w.id, w.right)] + ctx[1..]),
               tx, x, if lk.parent[p] == NONE then w.id else root, key, c1, RotLLinks(lk, p)) &&
      IsRed(c1, p) && !IsRed(c1, w.left.id)
  {
    DelView(t, ctx, tx, x, root, key, color, lk);
    var p, w := ctx[0].pid, ctx[0].sib;
    var c1 := color[w.id := Black][p := Red];
    RedSiblingColorsLeft(t, ctx, tx, x, root, key, color, lk);
    RootView(t, ctx, tx, x, root, key, color, lk);
    WfRecolor(t, root, key, color, lk, c1);
    PlugCons(ctx[0], ctx[1..], tx);
    assert ctx == [ctx[0]] + ctx[1..];
    RotateAtParentLeft(t, ctx[1..], tx, p, w, root, key, c1, lk);
  }

  /** The nodes a case-3 or case-4 step repaints are apart from the rest. */
  lemma ApartNear(tx: Tree, p: int, a1: Tree, v: int, a2: Tree, w: int, b: Tree, S: set<int>)
    requires Distinct(Node(tx, p, Node(Node(a1, v, a2), w, b)))
    requires Ids(Node(tx, p, Node(Node(a1, v, a2), w, b))) !! S
    ensures w != v && p !in {w, v}
    ensures {w, v} !! Ids(tx) + Ids(a1) + Ids(a2) + Ids(b) + S
  {
    var V := Node(a1, v, a2);
    var W := Node(V, w, b);
    assert Ids(W) == Ids(V) + {w} + Ids(b) && Ids(V) == Ids(a1) + {v} + Ids(a2);
    assert Ids(Node(tx, p, W)) == Ids(tx) + {p} + Ids(W);
    assert Distinct(W) && Distinct(V);
    assert w !in Ids(tx) && w !in Ids(V) && w !in Ids(b) && w !in S;
    assert v !in Ids(tx) && v !in Ids(a1) && v !in Ids(a2) && v !in Ids(b) && v !in S;
  }

  lemma ApartFar(tx: Tree, p: int, a: Tree, w: int, b1: Tree, v: int, b2: Tree, S: set<int>)
    requires Distinct(Node(tx, p, Node(a, w, Node(b1, v, b2))))
    requires Ids(Node(tx, p, Node(a, w, Node(b1, v, b2)))) !! S
    ensures p != w && p != v && w != v
    ensures {p, w, v} !! Ids(tx) + Ids(a) + Ids(b1) + Ids(b2) + S
  {
    var V := Node(b1, v, b2);
    var W := Node(a, w, V);
    assert Ids(W) == Ids(a) + {w} + Ids(V) && Ids(V) == Ids(b1) + {v} + Ids(b2);
    assert Ids(Node(tx, p, W)) == Ids(tx) + {p} + Ids(W);
    assert p !in Ids(tx) && p !in Ids(W) && p !in S;
    assert Distinct(W) && Distinct(V);
    assert w !in Ids(tx) && w !in Ids(a) && w !in Ids(V) && w !in S;
    assert v !in Ids(tx) && v !in Ids(a) && v !in Ids(b1) && v !in Ids(b2) && v !in S;
  }

  // ----- case 3: a black sibling whose near child is red and far child black -----

  /** A right rotation at the sibling `w` of a left focus: the arena spells
      out the rotated shape and the focus keeps its parent. */
  lemma RotateAtSiblingLeft(t: Tree, up: seq<Frame>, tx: Tree, p: int, w: Tree,
                            root: int, key: seq<int>, c: seq<Color>, lk: Links)
    requires Wf(t, root, key, c, lk) && t == Plug(up, Node(tx, p, w)) && w.Node? && w.left.Node?
    requires 0 <= Root(tx) < |key| && lk.parent[Root(tx)] == p
    ensures w.id in Ids(t) && SubAt(t, w.id).Node? && SubAt(t, w.id).left.Node?
    ensures 0 < w.id < |key| && lk.left[w.id] == w.left.id && 0 < w.left.id < |key|
    ensures 0 <= lk.right[w.left.id] < |key| && lk.parent[w.id] == p && 0 < p < |key|
    ensures |lk.left| == |key| && |lk.right| == |key| && |lk.parent| == |key|
    ensures var t', lk' := RotateRightAt(t, w.id), RotRLinks(lk, w.id);
      Wf(t', root, key, c, lk') && t' == Plug([LeftOf(p, RotR(w))] + up, tx) &&
      lk'.parent[Root(tx)] == p
  {
    var wctx := [RightOf(tx, p)] + up;
    PlugCons(RightOf(tx, p), up, w);
    NodeView(wctx, w, lk);
    SubAtPlug(wctx, w);
    SiblingView(w.left, w.id, lk);
    assert Ids(w) == (Ids(w.left.left) + {w.left.id} + Ids(w.left.right)) + {w.id} + Ids(w.right);
    IdsPlug(wctx, w);
    assert CtxIds(wctx) == {p} + Ids(tx) + CtxIds(up) by {
      assert wctx[1..] == up;
    }
    RotateRightWf(t, w.id, root, key, c, lk);
    var lk' := RotRLinks(lk, w.id);
    PlugCons(LeftOf(p, RotR(w)), up, tx);
    PlugCons(RightOf(tx, p), up, RotR(w));
    if tx.Node? {
      assert tx.id in Ids(tx);
    }
    RotRParent(wctx, w, lk, lk', Root(tx));
  }

  /** Case 3, focus on the left: the near child `v` of the black sibling
      `w` turns black, w red, and a right rotation at w makes v the
      sibling, with the red w as its far child. */
  lemma NearNephewLeft(t: Tree, ctx: seq<Frame>, tx: Tree, x: int, root: int,
                       key: seq<int>, color: seq<Color>, lk: Links)
    requires DelState(t, ctx, tx, x, root, key, color, lk) && ctx != [] && ctx[0].LeftOf?
    requires ctx[0].sib.Node? && !IsRed(color, ctx[0].sib.id)
    requires ctx[0].sib.left.Node? && IsRed(color, ctx[0].sib.left.id)
    requires !RedT(ctx[0].sib.right, color)
    ensures var p, w := ctx[0].pid, ctx[0].sib;
      w.id in Ids(t) && SubAt(t, w.id).Node? && SubAt(t, w.id).left.Node? &&
      0 < w.id < |key| && lk.left[w.id] == w.left.id && 0 < w.left.id < |key| &&
      0 <= lk.right[w.left.id] < |key| && lk.parent[w.id] == p && 0 < p < |key| &&
      |lk.left| == |key| && |lk.right| == |key| && |lk.parent| == |key| && |color| == |key|
    ensures var p, w := ctx[0].pid, ctx[0].sib;
      var c3 := color[w.left.id := Black][w.id := Red];
      Wf(t, root, key, c3, lk) &&
      DelState(RotateRightAt(t, w.id), [LeftOf(p, RotR(w))] + ctx[1..], tx, x, root, key, c3,
               RotRLinks(lk, w.id)) &&
      RotR(w).right.Node? && IsRed(c3, RotR(w).right.id) && !IsRed(c3, RotR(w).id)
  {
    DelView(t, ctx, tx, x, root, key, color, lk);
    RootView(t, ctx, tx, x, root, key, color, lk);
    var f, up := ctx[0], ctx[1..];
    var p, w := f.pid, f.sib;
    var c3 := color[w.left.id := Black][w.id := Red];
    NearNephewColorsLeft(t, ctx, tx, x, root, key, color, lk);
    WfRecolor(t, root, key, color, lk, c3);
    assert ctx == [f] + up;
    PlugCons(f, up, tx);
    RotateAtSiblingLeft(t, up, tx, p, w, root, key, c3, lk);
  }

  /** The color half of case 3 on the left. */
  lemma NearNephewColorsLeft(t: Tree, ctx: seq<Frame>, tx: Tree, x: int, root: int,
                             key: seq<int>, color: seq<Color>, lk: Links)
    requires DelState(t, ctx, tx, x, root, key, color, lk) && ctx != [] && ctx[0].LeftOf?
    requires ctx[0].sib.Node? && !IsRed(color, ctx[0].sib.id)
    requires ctx[0].sib.left.Node? && IsRed(color, ctx[0].sib.left.id)
    requires !RedT(ctx[0].sib.right, color)
    ensures var p, w := ctx[0].pid, ctx[0].sib;
      0 < w.id < |color| && 0 < w.left.id < |color| &&
      var c3 := color[w.left.id := Black][w.id := Red];
      Short([LeftOf(p, RotR(w))] + ctx[1..], tx, c3) &&
      IsRed(c3, w.id) && !IsRed(c3, w.left.id) && IsRed(c3, root) == IsRed(color, root)
  {
    DelView(t, ctx, tx, x, root, key, color, lk);
    RootView(t, ctx, tx, x, root, key, color, lk);
    var f, up := ctx[0], ctx[1..];
    var p, w := f.pid, f.sib;
    var v := w.left;
    var s := Fill(f, tx);
    assert ctx == [f] + up;
    PlugCons(f, up, tx);
    NodeView(up, s, lk);
    assert Ids(s) == Ids(tx) + {p} + ((Ids(v.left) + {v.id} + Ids(v.right)) + {w.id} + Ids(w.right));
    ApartNear(tx, p, v.left, v.id, v.right, w.id, w.right, CtxIds(up));
    Case3TreeLeft(up, tx, p, v.left, v.id, v.right, w.id, w.right, color,
                  color[v.id := Black][w.id := Red]);
  }

  // ----- case 4: a black sibling whose far child is red -----

  /** The repair is over: the whole tree obeys both rules with a black
      root, and the focus is the root. */
  lemma DelStateTop(t: Tree, root: int, key: seq<int>, color: seq<Color>, lk: Links)
    requires Wf(t, root, key, color, lk) && t.Node?
    requires !IsRed(color, root) && RedOK(t, color) && Balanced(t, color)
    ensures DelState(t, [], t, root, root, key, color, lk)
  {
    assert t.id in Ids(t);
  }

  /** Case 4, focus on the left: the sibling `w` takes the parent's color,
      the parent and w's far child turn black, and a left rotation at the
      parent ends the repair. */
  lemma FarNephewLeft(t: Tree, ctx: seq<Frame>, tx: Tree, x: int, root: int,
                      key: seq<int>, color: seq<Color>, lk: Links)
    requires DelState(t, ctx, tx, x, root, key, color, lk) && ctx != [] && ctx[0].LeftOf?
    requires !IsRed(color, x) && ctx[0].sib.Node? && !IsRed(color, ctx[0].sib.id)
    requires ctx[0].sib.right.Node? && IsRed(color, ctx[0].sib.right.id)
    ensures var p, w := ctx[0].pid, ctx[0].sib;
      p in Ids(t) && 0 < p < |key| && 0 < w.id < |key| && lk.right[p] == w.id &&
      SubAt(t, p).Node? && SubAt(t, p).right.Node? && 0 < w.right.id < |key| &&
      0 <= lk.left[w.id] < |key| && NONE <= lk.parent[p] < |key| &&
      |lk.left| == |key| && |lk.right| == |key| && |lk.parent| == |key| && |color| == |key|
    ensures var p, w := ctx[0].pid, ctx[0].sib;
      var c4 := color[w.id := color[p]][p := Black][w.right.id := Black];
      var t', root' := RotateLeftAt(t, p), if lk.parent[p] == NONE then w.id else root;
      Wf(t, root, key, c4, lk) &&
      Wf(t', root', key, c4, RotLLinks(lk, p)) && t'.Node? &&
      !IsRed(c4, root') && RedOK(t', c4) && Balanced(t', c4)
  {
    DelView(t, ctx, tx, x, root, key, color, lk);
    RootView(t, ctx, tx, x, root, key, color, lk);
    var f, up := ctx[0], ctx[1..];
    var p, w := f.pid, f.sib;
    var c4 := color[w.id := color[p]][p := Black][w.right.id := Black];
    FarNephewColorsLeft(t, ctx, tx, x, root, key, color, lk);
    WfRecolor(t, root, key, color, lk, c4);
    assert ctx == [f] + up;
    PlugCons(f, up, tx);
    RotateAtParentLeft(t, up, tx, p, w, root, key, c4, lk);
    RotLShape(up, tx, p, w.left, w.id, w.right);
    assert RotateLeftAt(t, p) == Plug(up, RotL(Node(tx, p, w)));
    if up != [] {
      PlugRoot(up, Node(tx, p, w), RotL(Node(tx, p, w)));
    }
  }

  /** The color half of case 4 on the left. */
  lemma FarNephewColorsLeft(t: Tree, ctx: seq<Frame>, tx: Tree, x: int, root: int,
                            key: seq<int>, color: seq<Color>, lk: Links)
    requires DelState(t, ctx, tx, x, root, key, color, lk) && ctx != [] && ctx[0].LeftOf?
    requires !IsRed(color, x) && ctx[0].sib.Node? && !IsRed(color, ctx[0].sib.id)
    requires ctx[0].sib.right.Node? && IsRed(color, ctx[0].sib.right.id)
    ensures var p, w := ctx[0].pid, ctx[0].sib;
      0 < p < |color| && 0 < w.id < |color| && 0 < w.right.id < |color| &&
      var c4 := color[w.id := color[p]][p := Black][w.right.id := Black];
      var t' := Plug(ctx[1..], RotL(Node(tx, p, w)));
      RedOK(t', c4) && Balanced(t', c4) &&
      (ctx[1..] == [] ==> !IsRed(c4, w.id)) && (ctx[1..] != [] ==> !IsRed(c4, root))
  {
    DelView(t, ctx, tx, x, root, key, color, lk);
    RootView(t, ctx, tx, x, root, key, color, lk);
    var f, up := ctx[0], ctx[1..];
    var p, w := f.pid, f.sib;
    var v := w.right;
    var s := Fill(f, tx);
    assert ctx == [f] + up;
    PlugCons(f, up, tx);
    NodeView(up, s, lk);
    assert Ids(s) == Ids(tx) + {p} + (Ids(w.left) + {w.id} + (Ids(v.left) + {v.id} + Ids(v.right)));
    ApartFar(tx, p, w.left, w.id, v.left, v.id, v.right, CtxIds(up));
    Case4TreeLeft(up, tx, p, w.left, w.id, v.left, v.id, v.right, color,
                  color[w.id := color[p]][p := Black][v.id := Black]);
  }

  // ----- the mirror cases: the focus is a right child -----

  lemma RotateAtParentRight(t: Tree, up: seq<Frame>, tx: Tree, p: int, w: Tree,
                            root: int, key: seq<int>, c: seq<Color>, lk: Links)
    requires Wf(t, root, key, c, lk) && t == Plug(up, Node(w, p, tx)) && w.Node?
    requires 0 <= Root(tx) < |key| && lk.parent[Root(tx)] == p
    ensures p in Ids(t) && SubAt(t, p).Node? && SubAt(t, p).left.Node?
    ensures 0 < p < |key| && 0 < w.id < |key| && lk.left[p] == w.id && lk.right[w.id] == Root(w.right)
    ensures 0 <= lk.right[w.id] < |key| && NONE <= lk.parent[p] < |key|
    ensures |lk.left| == |key| && |lk.right| == |key| && |lk.parent| == |key|
    ensures (lk.parent[p] == NONE) == (up == [])
    ensures var t', lk' := RotateRightAt(t, p), RotRLinks(lk, p);
      Wf(t', if lk.parent[p] == NONE then w.id else root, key, c, lk') &&
      t' == Plug([RightOf(w.right, p)] + ([RightOf(w.left, w.id)] + up), tx) &&
      lk'.parent[Root(tx)] == p
  {
    var s := Node(w, p, tx);
    NodeView(up, s, lk);
    SubAtPlug(up, s);
    SiblingView(w, p, lk);
    assert Ids(s) == (Ids(w.left) + {w.id} + Ids(w.right)) + {p} + Ids(tx);
    RotateRightWf(t, p, root, key, c, lk);
    var lk' := RotRLinks(lk, p);
    RotRShape(up, tx, p, w.left, w.id, w.right);
    if tx.Node? {
      assert tx.id in Ids(tx);
    }
    RotRParent(up, s, lk, lk', Root(tx));
  }

  lemma RedSiblingColorsRight(t: Tree, ctx: seq<Frame>, tx: Tree, x: int, root: int,
                              key: seq<int>, color: seq<Color>, lk: Links)
    requires DelState(t, ctx, tx, x, root, key, color, lk) && ctx != [] && ctx[0].RightOf?
    requires ctx[0].sib.Node? && IsRed(color, ctx[0].sib.id)
    ensures var p, w := ctx[0].pid, ctx[0].sib;
      0 < p < |color| && 0 < w.id < |color| && w.right.Node? &&
      var c1 := color[w.id := Black][p := Red];
      Short([RightOf(w.right, p)] + ([RightOf(w.left, w.id)] + ctx[1..]), tx, c1) &&
      IsRed(c1, p) && !IsRed(c1, w.right.id)
  {
    DelView(t, ctx, tx, x, root, key, color, lk);
    var f, up := ctx[0], ctx[1..];
    var p, w := f.pid, f.sib;
    var s := Fill(f, tx);
    assert ctx == [f] + up;
    PlugCons(f, up, tx);
    NodeView(up, s, lk);
    assert Ids(s) == (Ids(w.left) + {w.id} + Ids(w.right)) + {p} + Ids(tx);
    Case1TreeRight(up, tx, p, w.left, w.id, w.right, color, color[w.id := Black][p := Red]);
  }

  /** Case 1, focus on the right: as on the left, with a right rotation. */
  lemma RedSiblingRight(t: Tree, ctx: seq<Frame>, tx: Tree, x: int, root: int,
                        key: seq<int>, color: seq<Color>, lk: Links)
    requires DelState(t, ctx, tx, x, root, key, color, lk) && ctx != [] && ctx[0].RightOf?
    requires ctx[0].sib.Node? && IsRed(color, ctx[0].sib.id)
    ensures var p, w := ctx[0].pid, ctx[0].sib;
      p in Ids(t) && 0 < p < |key| && 0 < w.id < |key| && lk.left[p] == w.id &&
      SubAt(t, p).Node? && SubAt(t, p).left.Node? && w.right.Node? &&
      0 <= lk.right[w.id] < |key| && NONE <= lk.parent[p] < |key| &&
      |lk.left| == |key| && |lk.right| == |key| && |lk.parent| == |key|
    ensures var p, w := ctx[0].pid, ctx[0].sib;
      var c1 := color[w.id := Black][p := Red];
      Wf(t, root, key, c1, lk) &&
      DelState(RotateRightAt(t, p), [RightOf(w.right, p)] + ([RightOf(w.left, w.id)] + ctx[1..]),
               tx, x, if lk.parent[p] == NONE then w.id else root, key, c1, RotRLinks(lk, p)) &&
      IsRed(c1, p) && !IsRed(c1, w.right.id)
  {
    DelView(t, ctx, tx, x, root, key, color, lk);
    var p, w := ctx[0].pid, ctx[0].sib;
    var c1 := color[w.id := Black][p := Red];
    RedSiblingColorsRight(t, ctx, tx, x, root, key, color, lk);
    RootView(t, ctx, tx, x, root, key, color, lk);
    WfRecolor(t, root, key, color, lk, c1);
    PlugCons(ctx[0], ctx[1..], tx);
    assert ctx == [ctx[0]] + ctx[1..];
    RotateAtParentRight(t, ctx[1..], tx, p, w, root, key, c1, lk);
  }

  lemma ApartNearRight(tx: Tree, p: int, a: Tree, w: int, b1: Tree, v: int, b2: Tree, S: set<int>)
    requires Distinct(Node(Node(a, w, Node(b1, v, b2)), p, tx))
    requires Ids(Node(Node(a, w, Node(b1, v, b2)), p, tx)) !! S
    ensures w != v && p !in {w, v}
    ensures {w, v} !! Ids(tx) + Ids(a) + Ids(b1) + Ids(b2) + S
  {
    var V := Node(b1, v, b2);
    var W := Node(a, w, V);
    assert Ids(W) == Ids(a) + {w} + Ids(V) && Ids(V) == Ids(b1) + {v} + Ids(b2);
    assert Ids(Node(W, p, tx)) == Ids(W) + {p} + Ids(tx);
    assert Distinct(W) && Distinct(V);
    assert w !in Ids(tx) && w !in Ids(a) && w !in Ids(V) && w !in S;
    assert v !in Ids(tx) && v !in Ids(a) && v !in Ids(b1) && v !in Ids(b2) && v !in S;
  }

  lemma ApartFarRight(tx: Tree, p: int, a1: Tree, v: int, a2: Tree, w: int, b: Tree, S: set<int>)
    requires Distinct(Node(Node(Node(a1, v, a2), w, b), p, tx))
    requires Ids(Node(Node(Node(a1, v, a2), w, b), p, tx)) !! S
    ensures p != w && p != v && w != v
    ensures {p, w, v} !! Ids(tx) + Ids(a1) + Ids(a2) + Ids(b) + S
  {
    var V := Node(a1, v, a2);
    var W := Node(V, w, b);
    assert Ids(W) == Ids(V) + {w} + Ids(b) && Ids(V) == Ids(a1) + {v} + Ids(a2);
    assert Ids(Node(W, p, tx)) == Ids(W) + {p} + Ids(tx);
    assert p !in Ids(tx) && p !in Ids(W) && p !in S;
    assert Distinct(W) && Distinct(V);
    assert w !in Ids(tx) && w !in Ids(V) && w !in Ids(b) && w !in S;
    assert v !in Ids(tx) && v !in Ids(a1) && v !in Ids(a2) && v !in Ids(b) && v !in S;
  }

  lemma RotateAtSiblingRight(t: Tree, up: seq<Frame>, tx: Tree, p: int, w: Tree,
                             root: int, key: seq<int>, c: seq<Color>, lk: Links)
    requires Wf(t, root, key, c, lk) && t == Plug(up, Node(w, p, tx)) && w.Node? && w.right.Node?
    requires 0 <= Root(tx) < |key| && lk.parent[Root(tx)] == p
    ensures w.id in Ids(t) && SubAt(t, w.id).Node? && SubAt(t, w.id).right.Node?
    ensures 0 < w.id < |key| && lk.right[w.id] == w.right.id && 0 < w.right.id < |key|
    ensures 0 <= lk.left[w.right.id] < |key| && lk.parent[w.id] == p && 0 < p < |key|
    ensures |lk.left| == |key| && |lk.right| == |key| && |lk.parent| == |key|
    ensures var t', lk' := RotateLeftAt(t, w.id), RotLLinks(lk, w.id);
      Wf(t', root, key, c, lk') && t' == Plug([RightOf(RotL(w), p)] + up, tx) &&
      lk'.parent[Root(tx)] == p
  {
    var wctx := [LeftOf(p, tx)] + up;
    PlugCons(LeftOf(p, tx), up, w);
    NodeView(wctx, w, lk);
    SubAtPlug(wctx, w);
    SiblingView(w.right, w.id, lk);
    assert Ids(w) == Ids(w.left) + {w.id} + (Ids(w.right.left) + {w.right.id} + Ids(w.right.right));
    IdsPlug(wctx, w);
    assert CtxIds(wctx) == {p} + Ids(tx) + CtxIds(up) by {
      assert wctx[1..] == up;
    }
    RotateLeftWf(t, w.id, root, key, c, lk);
    var lk' := RotLLinks(lk, w.id);
    PlugCons(RightOf(RotL(w), p), up, tx);
    PlugCons(LeftOf(p, tx), up, RotL(w));
    if tx.Node? {
      assert tx.id in Ids(tx);
    }
    RotLParent(wctx, w, lk, lk', Root(tx));
  }

  lemma NearNephewColorsRight(t: Tree, ctx: seq<Frame>, tx: Tree, x: int, root: int,
                              key: seq<int>, color: seq<Color>, lk: Links)
    requires DelState(t, ctx, tx, x, root, key, color, lk) && ctx != [] && ctx[0].RightOf?
    requires ctx[0].sib.Node? && !IsRed(color, ctx[0].sib.id)
    requires ctx[0].sib.right.Node? && IsRed(color, ctx[0].sib.right.id)
    requires !RedT(ctx[0].sib.left, color)
    ensures var p, w := ctx[0].pid, ctx[0].sib;
      0 < w.id < |color| && 0 < w.right.id < |color| &&
      var c3 := color[w.right.id := Black][w.id := Red];
      Short([RightOf(RotL(w), p)] + ctx[1..], tx, c3) &&
      IsRed(c3, w.id) && !IsRed(c3, w.right.id) && IsRed(c3, root) == IsRed(color, root)
  {
    DelView(t, ctx, tx, x, root, key, color, lk);
    RootView(t, ctx, tx, x, root, key, color, lk);
    var f, up := ctx[0], ctx[1..];
    var p, w := f.pid, f.sib;
    var v := w.right;
    var s := Fill(f, tx);
    assert ctx == [f] + up;
    PlugCons(f, up, tx);
    NodeView(up, s, lk);
    ApartNearRight(tx, p, w.left, w.id, v.left, v.id, v.right, CtxIds(up));
    Case3TreeRight(up, tx, p, w.left, w.id, v.left, v.id, v.right, color,
                   color[v.id := Black][w.id := Red]);
  }

  /** Case 3, focus on the right: as on the left, with a left rotation at
      the sibling. */
  lemma NearNephewRight(t: Tree, ctx: seq<Frame>, tx: Tree, x: int, root: int,
                        key: seq<int>, color: seq<Color>, lk: Links)
    requires DelState(t, ctx, tx, x, root, key, color, lk) && ctx != [] && ctx[0].RightOf?
    requires ctx[0].sib.Node? && !IsRed(color, ctx[0].sib.id)
    requires ctx[0].sib.right.Node? && IsRed(color, ctx[0].sib.right.id)
    requires !RedT(ctx[0].sib.left, color)
    ensures var p, w := ctx[0].pid, ctx[0].sib;
      w.id in Ids(t) && SubAt(t, w.id).Node? && SubAt(t, w.id).right.Node? &&
      0 < w.id < |key| && lk.right[w.id] == w.right.id && 0 < w.right.id < |key| &&
      0 <= lk.left[w.right.id] < |key| && lk.parent[w.id] == p && 0 < p < |key| &&
      |lk.left| == |key| && |lk.right| == |key| && |lk.parent| == |key| && |color| == |key|
    ensures var p, w := ctx[0].pid, ctx[0].sib;
      var c3 := color[w.right.id := Black][w.id := Red];
      Wf(t, root, key, c3, lk) &&
      DelState(RotateLeftAt(t, w.id), [RightOf(RotL(w), p)] + ctx[1..], tx, x, root, key, c3,
               RotLLinks(lk, w.id)) &&
      RotL(w).left.Node? && IsRed(c3, RotL(w).left.id) && !IsRed(c3, RotL(w).id)
  {
    DelView(t, ctx, tx, x, root, key, color, lk);
    RootView(t, ctx, tx, x, root, key, color, lk);
    var f, up := ctx[0], ctx[1..];
    var p, w := f.pid, f.sib;
    var c3 := color[w.right.id := Black][w.id := Red];
    NearNephewColorsRight(t, ctx, tx, x, root, key, color, lk);
    WfRecolor(t, root, key, color, lk, c3);
    assert ctx == [f] + up;
    PlugCons(f, up, tx);
    RotateAtSiblingRight(t, up, tx, p, w, root, key, c3, lk);
  }

  lemma FarNephewColorsRight(t: Tree, ctx: seq<Frame>, tx: Tree, x: int, root: int,
                             key: seq<int>, color: seq<Color>, lk: Links)
    requires DelState(t, ctx, tx, x, root, key, color, lk) && ctx != [] && ctx[0].RightOf?
    requires !IsRed(color, x) && ctx[0].sib.Node? && !IsRed(color, ctx[0].sib.id)
    requires ctx[0].sib.left.Node? && IsRed(color, ctx[0].sib.left.id)
    ensures var p, w := ctx[0].pid, ctx[0].sib;
      0 < p < |color| && 0 < w.id < |color| && 0 < w.left.id < |color| &&
      var c4 := color[w.id := color[p]][p := Black][w.left.id := Black];
      var t' := Plug(ctx[1..], RotR(Node(w, p, tx)));
      RedOK(t', c4) && Balanced(t', c4) &&
      (ctx[1..] == [] ==> !IsRed(c4, w.id)) && (ctx[1..] != [] ==> !IsRed(c4, root))
  {
    DelView(t, ctx, tx, x, root, key, color, lk);
    RootView(t, ctx, tx, x, root, key, color, lk);
    var f, up := ctx[0], ctx[1..];
    var p, w := f.pid, f.sib;
    var v := w.left;
    var s := Fill(f, tx);
    assert ctx == [f] + up;
    PlugCons(f, up, tx);
    NodeView(up, s, lk);
    ApartFarRight(tx, p, v.left, v.id, v.right, w.id, w.right, CtxIds(up));
    Case4TreeRight(up, tx, p, v.left, v.id, v.right, w.id, w.right, color,
                   color[w.id := color[p]][p := Black][v.id := Black]);
  }

  /** Case 4, focus on the right: as on the left, with a right rotation at
      the parent. */
  lemma FarNephewRight(t: Tree, ctx: seq<Frame>, tx: Tree, x: int, root: int,
                       key: seq<int>, color: seq<Color>, lk: Links)
    requires DelState(t, ctx, tx, x, root, key, color, lk) && ctx != [] && ctx[0].RightOf?
    requires !IsRed(color, x) && ctx[0].sib.Node? && !IsRed(color, ctx[0].sib.id)
    requires ctx[0].sib.left.Node? && IsRed(color, ctx[0].sib.left.id)
    ensures var p, w := ctx[0].pid, ctx[0].sib;
      p in Ids(t) && 0 < p < |key| && 0 < w.id < |key| && lk.left[p] == w.id &&
      SubAt(t, p).Node? && SubAt(t, p).left.Node? && 0 < w.left.id < |key| &&
      0 <= lk.right[w.id] < |key| && NONE <= lk.parent[p] < |key| &&
      |lk.left| == |key| && |lk.right| == |key| && |lk.parent| == |key| && |color| == |key|
    ensures var p, w := ctx[0].pid, ctx[0].sib;
      var c4 := color[w.id := color[p]][p := Black][w.left.id := Black];
      var t', root' := RotateRightAt(t, p), if lk.parent[p] == NONE then w.id else root;
      Wf(t, root, key, c4, lk) &&
      Wf(t', root', key, c4, RotRLinks(lk, p)) && t'.Node? &&
      !IsRed(c4, root') && RedOK(t', c4) && Balanced(t', c4)
  {
    DelView(t, ctx, tx, x, root, key, color, lk);
    RootView(t, ctx, tx, x, root, key, color, lk);
    var f, up := ctx[0], ctx[1..];
    var p, w := f.pid, f.sib;
    var c4 := color[w.id := color[p]][p := Black][w.left.id := Black];
    FarNephewColorsRight(t, ctx, tx, x, root, key, color, lk);
    WfRecolor(t, root, key, color, lk, c4);
    assert ctx == [f] + up;
    PlugCons(f, up, tx);
    RotateAtParentRight(t, up, tx, p, w, root, key, c4, lk);
    RotRShape(up, tx, p, w.left, w.id, w.right);
    assert RotateRightAt(t, p) == Plug(up, RotR(Node(w, p, tx)));
    if up != [] {
      PlugRoot(up, Node(w, p, tx), RotR(Node(w, p, tx)));
    }
  }

  /** The loop stops at the root or at a red node; painting that node black
      leaves a red-black tree. */
  lemma DelDone(t: Tree, ctx: seq<Frame>, tx: Tree, x: int, root: int,
                key: seq<int>, color: seq<Color>, lk: Links)
    requires DelState(t, ctx, tx, x, root, key, color, lk) && (x == root || IsRed(color, x))
    ensures var c' := color[x := Black];
      Wf(t, root, key, c', lk) && !IsRed(c', root) && RedOK(t, c') && Balanced(t, c')
  {
    DelView(t, ctx, tx, x, root, key, color, lk);
    var c' := color[x := Black];
    WfRecolor(t, root, key, color, lk, c');
    if ctx == [] {
      if tx.Node? {
        BlackenTop(tx, color, c');
      }
    } else {
      ShortDone(ctx, tx, color, c');
    }
  }
}
