/** The repair after a black node left the tree (`fix_delete`).

    The node `x` that took the removed node's place carries an "extra
    black": its subtree `tx` has one black node fewer than the frames above
    it expect.  Each round of the repair either moves that deficit one level
    up (case 2) or removes it with at most three rotations (cases 1, 3, 4).
    The tree-level lemmas here state each case on shapes and colors alone;
    the arena-level lemmas tie them to the links. */
module Deletion {
  import opened Shapes
  import opened Links
  import opened Colors
  import opened KeyOrder
  import opened Rewiring
  import opened TreeOrder
  import opened Arena

  /** The subtree `tx` in context `ctx` is one black node short: the red rule
      holds below its root and above it (the root and its parent may both be
      red), and the frames expect one more black node than `tx` has. */
  ghost predicate Short(ctx: seq<Frame>, tx: Tree, c: seq<Color>)
  {
    RedOKBelow(tx, c) && RedCtxX(ctx, c) && Balanced(tx, c) &&
    BalancedCtx(ctx, BH(tx, c) + 1, c)
  }

  /** A short focus under one more frame `f`, condition by condition. */
  ghost predicate ShortUnder(f: Frame, up: seq<Frame>, tx: Tree, c: seq<Color>)
  {
    RedOKBelow(tx, c) && Balanced(tx, c) &&
    (IsRed(c, f.pid) ==> !RedT(f.sib, c)) && RedOK(f.sib, c) &&
    RedCtx(up, IsRed(c, f.pid), c) &&
    BH(f.sib, c) == BH(tx, c) + 1 && Balanced(f.sib, c) &&
    BalancedCtx(up, BH(tx, c) + 1 + Bk(c, f.pid), c)
  }

  lemma ShortCons(f: Frame, up: seq<Frame>, tx: Tree, c: seq<Color>)
    ensures Short([f] + up, tx, c) <==>
            RedOKBelow(tx, c) && Balanced(tx, c) &&
            (IsRed(c, f.pid) ==> !RedT(f.sib, c)) && RedOK(f.sib, c) &&
            RedCtx(up, IsRed(c, f.pid), c) &&
            BH(f.sib, c) == BH(tx, c) + 1 && Balanced(f.sib, c) &&
            BalancedCtx(up, BH(tx, c) + 1 + Bk(c, f.pid), c)
  {
    CtxCons(f, up, BH(tx, c) + 1, false, c);
  }

  // ----- case 1: the sibling is red -----

  /** Painting the red sibling `w` black and the parent `p` red, then
      rotating at the parent, keeps x short, now under a red parent with a
      black sibling. */
  lemma Case1TreeLeft(up: seq<Frame>, tx: Tree, p: int, a: Tree, w: int, b: Tree,
                      c: seq<Color>, c1: seq<Color>)
    requires p != w && {p, w} !! Ids(tx) + Ids(a) + Ids(b) + CtxIds(up)
    requires Short([LeftOf(p, Node(a, w, b))] + up, tx, c) && IsRed(c, w) && 0 <= p < |c|
    requires c1 == c[w := Black][p := Red]
    ensures a.Node? && !RedT(a, c1) && IsRed(c1, p)
    ensures Short([LeftOf(p, a)] + ([LeftOf(w, b)] + up), tx, c1)
  {
    var h := BH(tx, c);
    Case1Before(LeftOf(p, Node(a, w, b)), up, tx, c);
    Case1PaintAround(up, tx, p, w, c, c1);
    Case1PaintSibling(a, w, b, p, h, c, c1);
    Case1ShortLeft(up, tx, p, a, w, b, c1, h);
  }

  lemma Case1TreeRight(up: seq<Frame>, tx: Tree, p: int, a: Tree, w: int, b: Tree,
                       c: seq<Color>, c1: seq<Color>)
    requires p != w && {p, w} !! Ids(tx) + Ids(a) + Ids(b) + CtxIds(up)
    requires Short([RightOf(Node(a, w, b), p)] + up, tx, c) && IsRed(c, w) && 0 <= p < |c|
    requires c1 == c[w := Black][p := Red]
    ensures b.Node? && !RedT(b, c1) && IsRed(c1, p)
    ensures Short([RightOf(b, p)] + ([RightOf(a, w)] + up), tx, c1)
  {
    var h := BH(tx, c);
    Case1Before(RightOf(Node(a, w, b), p), up, tx, c);
    Case1PaintAround(up, tx, p, w, c, c1);
    Case1PaintSibling(a, w, b, p, h, c, c1);
    Case1ShortRight(up, tx, p, a, w, b, c1, h);
  }

  /** After case 1 the black sibling's subtree `a` (or `b`) sits beside x
      under the red parent, and the old sibling `w` sits above them. */
  lemma Case1ShortLeft(up: seq<Frame>, tx: Tree, p: int, a: Tree, w: int, b: Tree,
                       c1: seq<Color>, h: int)
    requires IsRed(c1, p) && !IsRed(c1, w)
    requires RedOKBelow(tx, c1) && Balanced(tx, c1) && BH(tx, c1) == h
    requires !RedT(a, c1) && RedOK(a, c1) && RedOK(b, c1)
    requires BH(a, c1) == h + 1 && Balanced(a, c1)
    requires BH(b, c1) == h + 1 && Balanced(b, c1)
    requires RedCtx(up, false, c1) && BalancedCtx(up, h + 2, c1)
    ensures Short([LeftOf(p, a)] + ([LeftOf(w, b)] + up), tx, c1)
  {
    CtxCons(LeftOf(w, b), up, h + 1, true, c1);
    ShortCons(LeftOf(p, a), [LeftOf(w, b)] + up, tx, c1);
  }

  lemma Case1ShortRight(up: seq<Frame>, tx: Tree, p: int, a: Tree, w: int, b: Tree,
                        c1: seq<Color>, h: int)
    requires IsRed(c1, p) && !IsRed(c1, w)
    requires RedOKBelow(tx, c1) && Balanced(tx, c1) && BH(tx, c1) == h
    requires !RedT(b, c1) && RedOK(a, c1) && RedOK(b, c1)
    requires BH(a, c1) == h + 1 && Balanced(a, c1)
    requires BH(b, c1) == h + 1 && Balanced(b, c1)
    requires RedCtx(up, false, c1) && BalancedCtx(up, h + 2, c1)
    ensures Short([RightOf(b, p)] + ([RightOf(a, w)] + up), tx, c1)
  {
    CtxCons(RightOf(a, w), up, h + 1, true, c1);
    ShortCons(RightOf(b, p), [RightOf(a, w)] + up, tx, c1);
  }

  /** Case 1 before the repaint: x is short under a black parent whose
      other child is the red sibling. */
  lemma Case1Before(f: Frame, up: seq<Frame>, tx: Tree, c: seq<Color>)
    requires Short([f] + up, tx, c) && f.sib.Node? && IsRed(c, f.sib.id)
    ensures !IsRed(c, f.pid) && RedOKBelow(tx, c) && Balanced(tx, c)
    ensures RedOK(f.sib, c) && Balanced(f.sib, c) && BH(f.sib, c) == BH(tx, c) + 1
    ensures RedCtx(up, false, c) && BalancedCtx(up, BH(tx, c) + 2, c)
  {
    ShortCons(f, up, tx, c);
  }

  /** Case 1, around the sibling: x's subtree and the context above the
      parent keep their colors when the sibling `w` is painted black and
      the parent `p` red. */
  lemma Case1PaintAround(up: seq<Frame>, tx: Tree, p: int, w: int, c: seq<Color>, c1: seq<Color>)
    requires p != w && {p, w} !! Ids(tx) + CtxIds(up)
    requires 0 <= p < |c| && IsRed(c, w) && !IsRed(c, p)
    requires RedOKBelow(tx, c) && Balanced(tx, c)
    requires RedCtx(up, false, c) && BalancedCtx(up, BH(tx, c) + 2, c)
    requires c1 == c[w := Black][p := Red]
    ensures IsRed(c1, p) && !IsRed(c1, w)
    ensures RedOKBelow(tx, c1) && Balanced(tx, c1) && BH(tx, c1) == BH(tx, c)
    ensures RedCtx(up, false, c1) && BalancedCtx(up, BH(tx, c) + 2, c1)
  {
    var S := {p, w};
    Paint2(c, S, w, Black, p, Red);
    Unpainted(tx, S, c, c1);
    UnpaintedCtx(up, BH(tx, c) + 2, S, c, c1);
  }

  /** Case 1, below the sibling: the red sibling's two children are black,
      of the sibling's black height `h + 1`, and keep their colors. */
  lemma Case1PaintSibling(a: Tree, w: int, b: Tree, p: int, h: nat, c: seq<Color>, c1: seq<Color>)
    requires {p, w} !! Ids(a) + Ids(b) && 0 <= p < |c| && IsRed(c, w)
    requires RedOK(Node(a, w, b), c) && Balanced(Node(a, w, b), c) && BH(Node(a, w, b), c) == h + 1
    requires c1 == c[w := Black][p := Red]
    ensures a.Node? && !RedT(a, c1) && RedOK(a, c1) && !RedT(b, c1) && RedOK(b, c1)
    ensures BH(a, c1) == h + 1 && Balanced(a, c1)
    ensures BH(b, c1) == h + 1 && Balanced(b, c1)
  {
    var S := {p, w};
    assert !RedT(a, c) && RedOK(a, c) && Balanced(a, c) && BH(a, c) == h + 1;
    assert !RedT(b, c) && RedOK(b, c) && Balanced(b, c) && BH(b, c) == h + 1;
    Paint2(c, S, w, Black, p, Red);
    Unpainted(a, S, c, c1);
    Unpainted(b, S, c, c1);
  }

  // ----- case 2: the sibling and both its children are black -----

  /** Painting the black sibling red, when both its children are black,
      moves the deficit up to the parent. */
  lemma Case2Tree(f: Frame, up: seq<Frame>, tx: Tree, c: seq<Color>, c2: seq<Color>)
    requires f.sib.Node? && f.sib.id != f.pid && 0 <= f.sib.id < |c|
    requires {f.sib.id} !! Ids(tx) + Ids(f.sib.left) + Ids(f.sib.right) + CtxIds(up)
    requires Short([f] + up, tx, c) && !RedT(tx, c)
    requires !IsRed(c, f.sib.id) && !RedT(f.sib.left, c) && !RedT(f.sib.right, c)
    requires c2 == c[f.sib.id := Red]
    ensures Short(up, Fill(f, tx), c2) && IsRed(c2, f.pid) == IsRed(c, f.pid)
  {
    ShortCons(f, up, tx, c);
    Case2Paint(f, up, tx, c, c2);
  }

  lemma Case2Paint(f: Frame, up: seq<Frame>, tx: Tree, c: seq<Color>, c2: seq<Color>)
    requires f.sib.Node? && f.sib.id != f.pid && 0 <= f.sib.id < |c|
    requires {f.sib.id} !! Ids(tx) + Ids(f.sib.left) + Ids(f.sib.right) + CtxIds(up)
    requires ShortUnder(f, up, tx, c) && !RedT(tx, c)
    requires !IsRed(c, f.sib.id) && !RedT(f.sib.left, c) && !RedT(f.sib.right, c)
    requires c2 == c[f.sib.id := Red]
    ensures Short(up, Fill(f, tx), c2) && IsRed(c2, f.pid) == IsRed(c, f.pid)
  {
    var h := BH(tx, c);
    var S := {f.sib.id};
    Paint1(c, S, f.sib.id, Red);
    Unpainted(tx, S, c, c2);
    Unpainted(f.sib.left, S, c, c2);
    Unpainted(f.sib.right, S, c, c2);
    UnpaintedCtx(up, h + 1 + Bk(c, f.pid), S, c, c2);
    RedCtxWeak(up, IsRed(c, f.pid), c2);
  }

  // ----- case 3: the sibling is black, its near child red, its far child black -----

  /** Swapping the colors of the sibling `w` and its near child `v` and
      rotating at the sibling keeps x short, with a sibling whose far child
      is red. */
  lemma Case3TreeLeft(up: seq<Frame>, tx: Tree, p: int, a1: Tree, v: int, a2: Tree, w: int, b: Tree,
                      c: seq<Color>, c3: seq<Color>)
    requires w != v && p !in {w, v}
    requires {w, v} !! Ids(tx) + Ids(a1) + Ids(a2) + Ids(b) + CtxIds(up)
    requires Short([LeftOf(p, Node(Node(a1, v, a2), w, b))] + up, tx, c)
    requires !IsRed(c, w) && IsRed(c, v) && !RedT(b, c)
    requires 0 <= w < |c| && 0 <= v < |c| && c3 == c[v := Black][w := Red]
    ensures Short([LeftOf(p, Node(a1, v, Node(a2, w, b)))] + up, tx, c3)
    ensures !IsRed(c3, v) && IsRed(c3, w)
  {
    ShortCons(LeftOf(p, Node(Node(a1, v, a2), w, b)), up, tx, c);
    var h := BH(tx, c);
    var W' := Node(a1, v, Node(a2, w, b));
    var S := {w, v};
    Paint2(c, S, v, Black, w, Red);
    Unpainted(tx, S, c, c3);
    Unpainted(a1, S, c, c3);
    Unpainted(a2, S, c, c3);
    Unpainted(b, S, c, c3);
    UnpaintedCtx(up, h + 1 + Bk(c, p), S, c, c3);
    assert BH(Node(a1, v, a2), c) == h && RedOK(Node(a1, v, a2), c);
    assert BH(Node(a2, w, b), c3) == h && Balanced(Node(a2, w, b), c3) && RedOK(Node(a2, w, b), c3);
    assert BH(W', c3) == h + 1 && Balanced(W', c3) && RedOK(W', c3);
    ShortCons(LeftOf(p, W'), up, tx, c3);
  }

  lemma Case3TreeRight(up: seq<Frame>, tx: Tree, p: int, a: Tree, w: int, b1: Tree, v: int, b2: Tree,
                       c: seq<Color>, c3: seq<Color>)
    requires w != v && p !in {w, v}
    requires {w, v} !! Ids(tx) + Ids(a) + Ids(b1) + Ids(b2) + CtxIds(up)
    requires Short([RightOf(Node(a, w, Node(b1, v, b2)), p)] + up, tx, c)
    requires !IsRed(c, w) && IsRed(c, v) && !RedT(a, c)
    requires 0 <= w < |c| && 0 <= v < |c| && c3 == c[v := Black][w := Red]
    ensures Short([RightOf(Node(Node(a, w, b1), v, b2), p)] + up, tx, c3)
    ensures !IsRed(c3, v) && IsRed(c3, w)
  {
    ShortCons(RightOf(Node(a, w, Node(b1, v, b2)), p), up, tx, c);
    var h := BH(tx, c);
    var W' := Node(Node(a, w, b1), v, b2);
    var S := {w, v};
    Paint2(c, S, v, Black, w, Red);
    Unpainted(tx, S, c, c3);
    Unpainted(a, S, c, c3);
    Unpainted(b1, S, c, c3);
    Unpainted(b2, S, c, c3);
    UnpaintedCtx(up, h + 1 + Bk(c, p), S, c, c3);
    assert BH(Node(b1, v, b2), c) == h && RedOK(Node(b1, v, b2), c);
    assert BH(Node(a, w, b1), c3) == h && Balanced(Node(a, w, b1), c3) && RedOK(Node(a, w, b1), c3);
    assert BH(W', c3) == h + 1 && Balanced(W', c3) && RedOK(W', c3);
    ShortCons(RightOf(W', p), up, tx, c3);
  }

  // ----- case 4: the sibling is black and its far child red -----

  /** The sibling `w` takes the parent's color, the parent and the far child
      `v` turn black, and a rotation at the parent ends the deficit: the
      whole tree obeys both rules (its root may still be red). */
  lemma Case4TreeLeft(up: seq<Frame>, tx: Tree, p: int, a: Tree, w: int, b1: Tree, v: int, b2: Tree,
                      c: seq<Color>, c4: seq<Color>)
    requires p != w && p != v && w != v
    requires {p, w, v} !! Ids(tx) + Ids(a) + Ids(b1) + Ids(b2) + CtxIds(up)
    requires Short([LeftOf(p, Node(a, w, Node(b1, v, b2)))] + up, tx, c) && !RedT(tx, c)
    requires !IsRed(c, w) && IsRed(c, v) && 0 <= p < |c| && 0 <= w < |c|
    requires c4 == c[w := c[p]][p := Black][v := Black]
    ensures var t' := Plug(up, Node(Node(tx, p, a), w, Node(b1, v, b2)));
      RedOK(t', c4) && Balanced(t', c4)
  {
    ShortCons(LeftOf(p, Node(a, w, Node(b1, v, b2))), up, tx, c);
    var h := BH(tx, c);
    var ns := Node(Node(tx, p, a), w, Node(b1, v, b2));
    var S := {p, w, v};
    Paint3(c, S, w, c[p], p, Black, v, Black);
    Unpainted(tx, S, c, c4);
    Unpainted(a, S, c, c4);
    Unpainted(b1, S, c, c4);
    Unpainted(b2, S, c, c4);
    UnpaintedCtx(up, h + 1 + Bk(c, p), S, c, c4);
    assert IsRed(c4, w) == IsRed(c, p);
    assert BH(a, c) == h && BH(Node(b1, v, b2), c) == h && RedOK(Node(b1, v, b2), c) && RedOK(tx, c);
    assert BH(ns.left, c4) == h + 1 && Balanced(ns.left, c4) && RedOK(ns.left, c4);
    assert BH(ns.right, c4) == h + 1 && Balanced(ns.right, c4) && RedOK(ns.right, c4);
    assert BH(ns, c4) == h + 1 + Bk(c, p) && Balanced(ns, c4) && RedOK(ns, c4);
    RedPlug(up, ns, c4);
    BalancedPlug(up, ns, c4);
  }

  lemma Case4TreeRight(up: seq<Frame>, tx: Tree, p: int, a1: Tree, v: int, a2: Tree, w: int, b: Tree,
                       c: seq<Color>, c4: seq<Color>)
    requires p != w && p != v && w != v
    requires {p, w, v} !! Ids(tx) + Ids(a1) + Ids(a2) + Ids(b) + CtxIds(up)
    requires Short([RightOf(Node(Node(a1, v, a2), w, b), p)] + up, tx, c) && !RedT(tx, c)
    requires !IsRed(c, w) && IsRed(c, v) && 0 <= p < |c| && 0 <= w < |c|
    requires c4 == c[w := c[p]][p := Black][v := Black]
    ensures var t' := Plug(up, Node(Node(a1, v, a2), w, Node(b, p, tx)));
      RedOK(t', c4) && Balanced(t', c4)
  {
    ShortCons(RightOf(Node(Node(a1, v, a2), w, b), p), up, tx, c);
    var h := BH(tx, c);
    var ns := Node(Node(a1, v, a2), w, Node(b, p, tx));
    var S := {p, w, v};
    Paint3(c, S, w, c[p], p, Black, v, Black);
    Unpainted(tx, S, c, c4);
    Unpainted(a1, S, c, c4);
    Unpainted(a2, S, c, c4);
    Unpainted(b, S, c, c4);
    UnpaintedCtx(up, h + 1 + Bk(c, p), S, c, c4);
    assert IsRed(c4, w) == IsRed(c, p);
    assert BH(b, c) == h && BH(Node(a1, v, a2), c) == h && RedOK(Node(a1, v, a2), c) && RedOK(tx, c);
    assert BH(ns.right, c4) == h + 1 && Balanced(ns.right, c4) && RedOK(ns.right, c4);
    assert BH(ns.left, c4) == h + 1 && Balanced(ns.left, c4) && RedOK(ns.left, c4);
    assert BH(ns, c4) == h + 1 + Bk(c, p) && Balanced(ns, c4) && RedOK(ns, c4);
    RedPlug(up, ns, c4);
    BalancedPlug(up, ns, c4);
  }

  /** Painting a subtree's root black: the red rule then holds throughout,
      and a red root adds one to the black height. */
  lemma BlackenTop(tx: Tree, c: seq<Color>, c': seq<Color>)
    requires tx.Node? && Distinct(tx) && 0 <= tx.id < |c| && c' == c[tx.id := Black]
    requires RedOKBelow(tx, c) && Balanced(tx, c)
    ensures RedOK(tx, c') && Balanced(tx, c') && !RedT(tx, c')
    ensures BH(tx, c') == BH(tx, c) + (if IsRed(c, tx.id) then 1 else 0)
  {
    Paint1(c, {tx.id}, tx.id, Black);
    Unpainted(tx.left, {tx.id}, c, c');
    Unpainted(tx.right, {tx.id}, c, c');
  }

  /** The loop's exit on a red `x`: painting it black pays the missing black
      node back, and the whole tree is a red-black tree again. */
  lemma ShortDone(ctx: seq<Frame>, tx: Tree, c: seq<Color>, c': seq<Color>)
    requires Short(ctx, tx, c) && tx.Node? && IsRed(c, tx.id) && Distinct(Plug(ctx, tx))
    requires c' == c[tx.id := Black]
    ensures RedOK(Plug(ctx, tx), c') && Balanced(Plug(ctx, tx), c')
  {
    DistinctPlug(ctx, tx);
    BlackenTop(tx, c, c');
    Paint1(c, {tx.id}, tx.id, Black);
    assert tx.id in Ids(tx);
    UnpaintedCtx(ctx, BH(tx, c) + 1, {tx.id}, c, c');
    RedPlug(ctx, tx, c');
    BalancedPlug(ctx, tx, c');
  }
}
