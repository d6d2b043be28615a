/** The red-black coloring rules, over a shape and the arena's colors.

    Black height is counted on node colors only (the sentinel leaves add
    nothing), so `BH(Nil) == 0`.  A context is balanced for a focus of black
    height `h` when every sibling on the way up has the black height the
    focus side has there. */
module Colors {
  import opened Shapes

  /** Out-of-range indices read as black, like the sentinel. */
  predicate IsRed(c: seq<Color>, i: int)
  {
    0 <= i < |c| && c[i] == Red
  }

  function Bk(c: seq<Color>, i: int): nat
  {
    if IsRed(c, i) then 0 else 1
  }

  /** Black nodes on the leftmost path. */
  ghost function BH(t: Tree, c: seq<Color>): nat
  {
    match t
    case Nil => 0
    case Node(l, i, r) => BH(l, c) + Bk(c, i)
  }

  /** Every node's two subtrees have the same black height. */
  ghost predicate Balanced(t: Tree, c: seq<Color>)
  {
    match t
    case Nil => true
    case Node(l, i, r) => BH(l, c) == BH(r, c) && Balanced(l, c) && Balanced(r, c)
  }

  ghost predicate BalancedCtx(ctx: seq<Frame>, h: int, c: seq<Color>)
    decreases |ctx|
  {
    ctx == [] ||
    (BH(ctx[0].sib, c) == h && Balanced(ctx[0].sib, c) &&
     BalancedCtx(ctx[1..], h + Bk(c, ctx[0].pid), c))
  }

  /** Black height at the top of a context whose focus has black height h. */
  ghost function CtxH(ctx: seq<Frame>, h: int, c: seq<Color>): int
    decreases |ctx|
  {
    if ctx == [] then h else CtxH(ctx[1..], h + Bk(c, ctx[0].pid), c)
  }

  /** The subtree's root is a red node (the sentinel is black). */
  ghost predicate RedT(t: Tree, c: seq<Color>)
  {
    t.Node? && IsRed(c, t.id)
  }

  /** No red node has a red child. */
  ghost predicate RedOK(t: Tree, c: seq<Color>)
  {
    match t
    case Nil => true
    case Node(l, i, r) =>
      (IsRed(c, i) ==> !RedT(l, c) && !RedT(r, c)) && RedOK(l, c) && RedOK(r, c)
  }

  /** The frames of a context obey the red rule, for a focus whose root is
      red exactly when `red`. */
  ghost predicate RedCtx(ctx: seq<Frame>, red: bool, c: seq<Color>)
    decreases |ctx|
  {
    ctx == [] ||
    ((IsRed(c, ctx[0].pid) ==> !red && !RedT(ctx[0].sib, c)) &&
     RedOK(ctx[0].sib, c) && RedCtx(ctx[1..], IsRed(c, ctx[0].pid), c))
  }

  /** As RedCtx, except that the focus and its parent may both be red. */
  ghost predicate RedCtxX(ctx: seq<Frame>, c: seq<Color>)
  {
    ctx == [] ||
    ((IsRed(c, ctx[0].pid) ==> !RedT(ctx[0].sib, c)) &&
     RedOK(ctx[0].sib, c) && RedCtx(ctx[1..], IsRed(c, ctx[0].pid), c))
  }

  /** Both subtrees obey the red rule; the root itself may be red with a red child. */
  ghost predicate RedOKBelow(t: Tree, c: seq<Color>)
  {
    t.Nil? || (RedOK(t.left, c) && RedOK(t.right, c))
  }

  // ----- lemmas -----

  lemma {:induction false} BalancedPlug(ctx: seq<Frame>, t: Tree, c: seq<Color>)
    ensures Balanced(Plug(ctx, t), c) <==> Balanced(t, c) && BalancedCtx(ctx, BH(t, c), c)
    decreases |ctx|
  {
    if ctx != [] {
      var f := Fill(ctx[0], t);
      BalancedPlug(ctx[1..], f, c);
    }
  }

  lemma {:induction false} BHPlug(ctx: seq<Frame>, t: Tree, c: seq<Color>)
    requires BalancedCtx(ctx, BH(t, c), c)
    ensures BH(Plug(ctx, t), c) == CtxH(ctx, BH(t, c), c)
    decreases |ctx|
  {
    if ctx != [] {
      BHPlug(ctx[1..], Fill(ctx[0], t), c);
    }
  }

  lemma {:induction false} BalancedCtxAppend(c1: seq<Frame>, c2: seq<Frame>, h: int, c: seq<Color>)
    ensures BalancedCtx(c1 + c2, h, c) <==>
            BalancedCtx(c1, h, c) && BalancedCtx(c2, CtxH(c1, h, c), c)
    ensures CtxH(c1 + c2, h, c) == CtxH(c2, CtxH(c1, h, c), c)
    decreases |c1|
  {
    if c1 != [] {
      assert (c1 + c2)[1..] == c1[1..] + c2;
      BalancedCtxAppend(c1[1..], c2, h + Bk(c, c1[0].pid), c);
    } else {
      assert c1 + c2 == c2;
    }
  }

  /** Black height and balance read colors only at the tree's own nodes. */
  lemma {:induction false} ColorFrame(t: Tree, c: seq<Color>, c': seq<Color>)
    requires forall j | j in Ids(t) :: IsRed(c, j) == IsRed(c', j)
    ensures BH(t, c') == BH(t, c) && Balanced(t, c') == Balanced(t, c)
  {
    if t.Node? {
      assert t.id in Ids(t);
      ColorFrame(t.left, c, c');
      ColorFrame(t.right, c, c');
    }
  }

  lemma {:induction false} CtxColorFrame(ctx: seq<Frame>, h: int, c: seq<Color>, c': seq<Color>)
    requires forall j | j in CtxIds(ctx) :: IsRed(c, j) == IsRed(c', j)
    ensures BalancedCtx(ctx, h, c') == BalancedCtx(ctx, h, c)
    ensures CtxH(ctx, h, c') == CtxH(ctx, h, c)
    decreases |ctx|
  {
    if ctx != [] {
      assert ctx[0].pid in CtxIds(ctx);
      ColorFrame(ctx[0].sib, c, c');
      CtxColorFrame(ctx[1..], h + Bk(c, ctx[0].pid), c, c');
    }
  }

  lemma {:induction false} RedPlug(ctx: seq<Frame>, t: Tree, c: seq<Color>)
    ensures RedOK(Plug(ctx, t), c) <==> RedOK(t, c) && RedCtx(ctx, RedT(t, c), c)
    decreases |ctx|
  {
    if ctx != [] {
      RedPlug(ctx[1..], Fill(ctx[0], t), c);
    }
  }

  lemma {:induction false} RedFrame(t: Tree, c: seq<Color>, c': seq<Color>)
    requires forall j | j in Ids(t) :: IsRed(c, j) == IsRed(c', j)
    ensures RedOK(t, c') == RedOK(t, c) && RedT(t, c') == RedT(t, c)
  {
    if t.Node? {
      assert t.id in Ids(t);
      RedFrame(t.left, c, c');
      RedFrame(t.right, c, c');
    }
  }

  lemma {:induction false} RedCtxFrame(ctx: seq<Frame>, red: bool, c: seq<Color>, c': seq<Color>)
    requires forall j | j in CtxIds(ctx) :: IsRed(c, j) == IsRed(c', j)
    ensures RedCtx(ctx, red, c') == RedCtx(ctx, red, c)
    ensures RedCtxX(ctx, c') == RedCtxX(ctx, c)
    decreases |ctx|
  {
    if ctx != [] {
      assert ctx[0].pid in CtxIds(ctx);
      RedFrame(ctx[0].sib, c, c');
      RedCtxFrame(ctx[1..], IsRed(c, ctx[0].pid), c, c');
    }
  }

  /** Turning nodes black never breaks the red rule. */
  lemma {:induction false} RedBlacken(t: Tree, c: seq<Color>, c': seq<Color>)
    requires forall j :: IsRed(c', j) ==> IsRed(c, j)
    requires RedOK(t, c)
    ensures RedOK(t, c')
  {
    if t.Node? {
      RedBlacken(t.left, c, c');
      RedBlacken(t.right, c, c');
    }
  }

  /** Replacing a subtree by one of the same black height, with colors
      changed only inside it, leaves the frames above as they were. */
  lemma Repaint(ctx: seq<Frame>, s: Tree, s': Tree, c: seq<Color>, c': seq<Color>)
    requires Ids(s) !! CtxIds(ctx)
    requires forall j | j !in Ids(s) :: IsRed(c, j) == IsRed(c', j)
    requires Balanced(Plug(ctx, s), c) && Balanced(s', c') && BH(s', c') == BH(s, c)
    ensures Balanced(Plug(ctx, s'), c')
    ensures RedCtx(ctx, false, c') == RedCtx(ctx, false, c)
    ensures RedCtx(ctx, true, c') == RedCtx(ctx, true, c)
    ensures RedCtxX(ctx, c') == RedCtxX(ctx, c)
  {
    assert forall j | j in CtxIds(ctx) :: IsRed(c, j) == IsRed(c', j);
    BalancedPlug(ctx, s, c);
    CtxColorFrame(ctx, BH(s, c), c, c');
    BalancedPlug(ctx, s', c');
    RedCtxFrame(ctx, false, c, c');
    RedCtxFrame(ctx, true, c, c');
  }

  /** Repainting nodes of `ids` changes no color outside `ids`. */
  lemma Paint2(c: seq<Color>, ids: set<int>, a: int, ca: Color, b: int, cb: Color)
    requires a in ids && b in ids && 0 <= a < |c| && 0 <= b < |c|
    ensures forall j | j !in ids :: IsRed(c, j) == IsRed(c[a := ca][b := cb], j)
  {
  }

  lemma Paint3(c: seq<Color>, ids: set<int>, a: int, ca: Color, b: int, cb: Color, d: int, cd: Color)
    requires a in ids && b in ids && d in ids && 0 <= a < |c| && 0 <= b < |c| && 0 <= d < |c|
    ensures forall j | j !in ids :: IsRed(c, j) == IsRed(c[a := ca][b := cb][d := cd], j)
  {
  }

  /** A red leaf node hung at a sentinel position of a red-black shape keeps
      the black heights; only it and its parent may break the red rule. */
  lemma GrowRed(ctx: seq<Frame>, z: int, c: seq<Color>)
    requires IsRed(c, z) && RedOK(Plug(ctx, Nil), c) && Balanced(Plug(ctx, Nil), c)
    ensures RedOK(Node(Nil, z, Nil), c) && RedCtxX(ctx, c)
    ensures Balanced(Plug(ctx, Node(Nil, z, Nil)), c)
  {
    RedPlug(ctx, Nil, c);
    BalancedPlug(ctx, Nil, c);
    BalancedPlug(ctx, Node(Nil, z, Nil), c);
  }

  lemma {:induction false} RedCtxAppend(c1: seq<Frame>, c2: seq<Frame>, red: bool, c: seq<Color>)
    ensures RedCtx(c1 + c2, red, c) ==
            (RedCtx(c1, red, c) &&
             RedCtx(c2, if c1 == [] then red else IsRed(c, c1[|c1| - 1].pid), c))
    decreases |c1|
  {
    if c1 != [] {
      assert (c1 + c2)[1..] == c1[1..] + c2;
      RedCtxAppend(c1[1..], c2, IsRed(c, c1[0].pid), c);
    } else {
      assert c1 + c2 == c2;
    }
  }

  /** Colors changed only at indices of `S` leave a subtree outside `S` as it was. */
  lemma Unpainted(t: Tree, S: set<int>, c: seq<Color>, c': seq<Color>)
    requires Ids(t) !! S && forall j | j !in S :: IsRed(c, j) == IsRed(c', j)
    ensures BH(t, c') == BH(t, c) && Balanced(t, c') == Balanced(t, c)
    ensures RedOK(t, c') == RedOK(t, c) && RedT(t, c') == RedT(t, c)
    ensures RedOKBelow(t, c') == RedOKBelow(t, c)
  {
    ColorFrame(t, c, c');
    RedFrame(t, c, c');
    if t.Node? {
      RedFrame(t.left, c, c');
      RedFrame(t.right, c, c');
    }
  }

  lemma UnpaintedCtx(ctx: seq<Frame>, h: int, S: set<int>, c: seq<Color>, c': seq<Color>)
    requires CtxIds(ctx) !! S && forall j | j !in S :: IsRed(c, j) == IsRed(c', j)
    ensures BalancedCtx(ctx, h, c') == BalancedCtx(ctx, h, c)
    ensures CtxH(ctx, h, c') == CtxH(ctx, h, c)
    ensures RedCtx(ctx, false, c') == RedCtx(ctx, false, c)
    ensures RedCtx(ctx, true, c') == RedCtx(ctx, true, c)
    ensures RedCtxX(ctx, c') == RedCtxX(ctx, c)
  {
    CtxColorFrame(ctx, h, c, c');
    RedCtxFrame(ctx, false, c, c');
    RedCtxFrame(ctx, true, c, c');
  }

  /** The conditions of a context with one more frame on the inside. */
  lemma CtxCons(f: Frame, up: seq<Frame>, h: int, red: bool, c: seq<Color>)
    ensures BalancedCtx([f] + up, h, c) <==>
            BH(f.sib, c) == h && Balanced(f.sib, c) && BalancedCtx(up, h + Bk(c, f.pid), c)
    ensures RedCtx([f] + up, red, c) <==>
            (IsRed(c, f.pid) ==> !red && !RedT(f.sib, c)) && RedOK(f.sib, c) &&
            RedCtx(up, IsRed(c, f.pid), c)
    ensures RedCtxX([f] + up, c) <==>
            (IsRed(c, f.pid) ==> !RedT(f.sib, c)) && RedOK(f.sib, c) &&
            RedCtx(up, IsRed(c, f.pid), c)
  {
    assert ([f] + up)[1..] == up;
  }

  /** A context that accepts a red focus also accepts a black one. */
  lemma RedCtxWeak(ctx: seq<Frame>, red: bool, c: seq<Color>)
    requires RedCtx(ctx, red, c)
    ensures RedCtx(ctx, false, c) && RedCtxX(ctx, c)
  {
  }

  lemma Paint1(c: seq<Color>, ids: set<int>, a: int, ca: Color)
    requires a in ids && 0 <= a < |c|
    ensures forall j | j !in ids :: IsRed(c, j) == IsRed(c[a := ca], j)
  {
  }
}
