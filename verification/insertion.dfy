/** Insertion: the descent to a sentinel position, the attachment of the
    new red leaf there, and the repair loop of fix_insert with what each of
    its cases does to the shape and the colors. */
module Insertion {
  import opened Shapes
  import opened Links
  import opened Colors
  import opened KeyOrder
  import opened Rewiring
  import opened TreeOrder
  import opened Arena

  /** The descent of an insertion of key `k`: `t` is the subtree at the
      current position `cur` and `ctx` the path above it, whose innermost
      node is `par`; keys met before the position are at most `k`, keys
      after it greater, and each step went left exactly when `k` was smaller
      than the node's key. */
  ghost predicate Descent(t0: Tree, ctx: seq<Frame>, t: Tree, cur: int, par: int, k: int, key: seq<int>)
  {
    Plug(ctx, t) == t0 && cur == Root(t) && par == Up(ctx, NONE) &&
    (forall j | j in Before(ctx) :: KeyOf(key, j) <= k) &&
    (forall j | j in After(ctx) :: k < KeyOf(key, j)) &&
    (ctx != [] ==> (ctx[0].LeftOf? <==> k < KeyOf(key, par)))
  }

  /** One step down from a node: its links lead to its subtrees, and the
      descent goes on left when `k` is smaller than the node's key. */
  lemma DescentStep(t0: Tree, ctx: seq<Frame>, t: Tree, cur: int, par: int, k: int,
                    root: int, key: seq<int>, color: seq<Color>, lk: Links)
    requires Wf(t0, root, key, color, lk) && Descent(t0, ctx, t, cur, par, k, key) && cur != NIL
    ensures t.Node? && 0 < cur < |key| && lk.left[cur] == Root(t.left) && lk.right[cur] == Root(t.right)
    ensures k < key[cur] ==> Descent(t0, [LeftOf(cur, t.right)] + ctx, t.left, lk.left[cur], cur, k, key)
    ensures key[cur] <= k ==> Descent(t0, [RightOf(t.left, cur)] + ctx, t.right, lk.right[cur], cur, k, key)
  {
    IdsPlug(ctx, t);
    LinkedPlug(ctx, t, NONE, lk);
    assert t.Node? && t.id in Ids(t0);
    SubOrder(ctx, t, key);
    NodeOrder(t, key);
    var l := [LeftOf(cur, t.right)] + ctx;
    var r := [RightOf(t.left, cur)] + ctx;
    assert l[1..] == ctx && r[1..] == ctx;
    assert Plug(l, t.left) == t0 && Plug(r, t.right) == t0;
    assert Before(l) == Before(ctx) && After(l) == [cur] + InOrder(t.right) + After(ctx);
    assert Before(r) == Before(ctx) + (InOrder(t.left) + [cur]) && After(r) == After(ctx);
  }

  /** The descent stops exactly at a sentinel position. */
  lemma DescentDone(t0: Tree, ctx: seq<Frame>, t: Tree, par: int, k: int,
                    root: int, key: seq<int>, color: seq<Color>, lk: Links)
    requires Wf(t0, root, key, color, lk) && Descent(t0, ctx, t, NIL, par, k, key)
    ensures t == Nil
  {
    IdsPlug(ctx, t);
    assert t.Node? ==> Root(t) in Ids(t0);
  }

  /** Arena links after the new node `z` is hung below `par` (or made the
      root when `par` is NONE), on the side `asLeft` says. */
  ghost function AttachLinks(lk: Links, z: int, par: int, asLeft: bool): Links
    requires 0 <= z < |lk.parent| && NONE <= par < |lk.left| && par < |lk.right|
  {
    var p' := lk.parent[z := par];
    if par == NONE then Links(lk.left, lk.right, p')
    else if asLeft then Links(lk.left[par := z], lk.right, p')
    else Links(lk.left, lk.right[par := z], p')
  }

  /** Keys before the sentinel position are at most `k` and keys after it
      greater, so a node with key `k` put there lands where InsertSorted
      puts `k`. */
  lemma AttachKeys(ctx: seq<Frame>, z: int, k: int, key: seq<int>)
    requires forall j | j in Before(ctx) :: KeyOf(key, j) <= k
    requires forall j | j in After(ctx) :: k < KeyOf(key, j)
    requires KeyOf(key, z) == k
    ensures KeySeq(InOrder(Plug(ctx, Node(Nil, z, Nil))), key) ==
            InsertSorted(KeySeq(InOrder(Plug(ctx, Nil)), key), k)
  {
    InOrderPlug(ctx, Nil);
    InOrderPlug(ctx, Node(Nil, z, Nil));
    assert Before(ctx) + InOrder(Nil) + After(ctx) == Before(ctx) + After(ctx);
    assert InOrder(Node(Nil, z, Nil)) == [z];
    InsertBetween(Before(ctx), After(ctx), z, key, k);
  }

  /** Hanging the fresh node at the sentinel position adds it to the shape
      at that position. */
  lemma AttachShape(t0: Tree, ctx: seq<Frame>, par: int, z: int, k: int,
                    root: int, key: seq<int>, color: seq<Color>, lk: Links)
    requires Wf(t0, root, key, color, lk) && Descent(t0, ctx, Nil, NIL, par, k, key)
    requires z !in Ids(t0) && Slot(lk, z)
    ensures NONE <= par < |key| && par != NIL && par != z
    ensures Ids(t0) == CtxIds(ctx) && DistinctCtx(ctx) && LinkedCtx(ctx, NIL, NONE, lk)
    ensures var t' := Plug(ctx, Node(Nil, z, Nil));
      Distinct(t') && (if par == NONE then z else root) == Root(t') &&
      Ids(t') == Ids(t0) + {z} && z in Ids(t') &&
      SubAt(t', z) == Node(Nil, z, Nil) && CtxOf(t', z) == ctx
  {
    var s := Node(Nil, z, Nil);
    assert Ids(t0) == CtxIds(ctx) && NIL !in Ids(t0) by {
      IdsPlug(ctx, Nil);
      LinkedFlat(t0, NONE, lk);
    }
    assert ctx != [] ==> ctx[0].pid in CtxIds(ctx);
    assert Ids(Plug(ctx, s)) == Ids(t0) + {z} && Distinct(Plug(ctx, s)) by {
      IdsPlug(ctx, s);
      DistinctPlug(ctx, Nil);
      DistinctPlug(ctx, s);
    }
    SubAtPlug(ctx, s);
    assert LinkedCtx(ctx, NIL, NONE, lk) && DistinctCtx(ctx) by {
      LinkedPlug(ctx, Nil, NONE, lk);
      DistinctPlug(ctx, Nil);
    }
    if ctx != [] {
      PlugRoot(ctx, Nil, s);
    }
  }

  /** ... and the rewritten links spell out the new shape. */
  lemma AttachLinked(t0: Tree, ctx: seq<Frame>, par: int, z: int, k: int,
                     root: int, key: seq<int>, color: seq<Color>, lk: Links)
    requires Wf(t0, root, key, color, lk) && Descent(t0, ctx, Nil, NIL, par, k, key)
    requires z !in Ids(t0) && Slot(lk, z) && lk.left[z] == NIL && lk.right[z] == NIL
    ensures NONE <= par < |key| && par != NIL
    ensures var lk' := AttachLinks(lk, z, par, par != NONE && k < key[par]);
      Linked(Plug(ctx, Node(Nil, z, Nil)), NONE, lk') &&
      |lk'.left| == |key| && |lk'.right| == |key| && |lk'.parent| == |key| &&
      lk'.left[NIL] == NONE && lk'.right[NIL] == NONE && lk'.parent[z] == par
  {
    AttachShape(t0, ctx, par, z, k, root, key, color, lk);
    var s := Node(Nil, z, Nil);
    var lk' := AttachLinks(lk, z, par, par != NONE && k < key[par]);
    forall j | j in CtxIds(ctx) && j != Up(ctx, NONE)
      ensures SameSlot(j, lk, lk')
    {
      assert j != z && j != par;
    }
    assert ctx != [] ==>
      var p := ctx[0].pid;
      Slot(lk', p) && lk'.parent[p] == lk.parent[p] &&
      (if ctx[0].LeftOf? then lk'.left[p] == z && lk'.right[p] == lk.right[p]
       else lk'.right[p] == z && lk'.left[p] == lk.left[p]) by {
      if ctx != [] {
        assert par == ctx[0].pid && par != z;
      }
    }
    LinkedCtxRefocus(ctx, NIL, z, NONE, lk, lk');
    assert Linked(s, Up(ctx, NONE), lk') by {
      assert Slot(lk', z) && lk'.left[z] == NIL && lk'.right[z] == NIL && lk'.parent[z] == par;
    }
    LinkedPlug(ctx, s, NONE, lk');
  }

  /** At the end of the descent, hanging the fresh red node at the sentinel
      position puts its key among the tree's keys in order, ties to the
      right, and leaves a tree the repair loop can start on. */
  lemma Attach(t0: Tree, ctx: seq<Frame>, par: int, z: int, k: int,
               root: int, key: seq<int>, color: seq<Color>, lk: Links)
    requires Wf(t0, root, key, color, lk) && Descent(t0, ctx, Nil, NIL, par, k, key)
    requires RedOK(t0, color) && Balanced(t0, color) && !IsRed(color, root)
    requires z !in Ids(t0) && Slot(lk, z) && key[z] == k && color[z] == Red
    requires lk.left[z] == NIL && lk.right[z] == NIL
    ensures NONE <= par < |key| && par != NIL
    ensures var lk' := AttachLinks(lk, z, par, par != NONE && k < key[par]);
      var root' := if par == NONE then z else root;
      var t' := Plug(ctx, Node(Nil, z, Nil));
      FixState(t', z, root', key, color, lk') && Ids(t') == Ids(t0) + {z} &&
      KeySeq(InOrder(t'), key) == InsertSorted(KeySeq(InOrder(t0), key), k)
  {
    var s := Node(Nil, z, Nil);
    var t' := Plug(ctx, s);
    AttachShape(t0, ctx, par, z, k, root, key, color, lk);
    AttachLinked(t0, ctx, par, z, k, root, key, color, lk);
    assert Sorted(KeySeq(InOrder(t'), key)) by {
      AttachKeys(ctx, z, k, key);
      InsertSortedKeepsOrder(KeySeq(InOrder(t0), key), k);
    }
    GrowRed(ctx, z, color);
    var lk' := AttachLinks(lk, z, par, par != NONE && k < key[par]);
    var root' := if par == NONE then z else root;
    assert FixState(t', z, root', key, color, lk');
    AttachKeys(ctx, z, k, key);
  }

  /** The state the repair loop keeps: a well-formed balanced tree where
      the red node `z` may be the red child of a red parent, and no other
      pair of nodes breaks the red rule; only `z` may be a red root. */
  ghost predicate FixState(t: Tree, z: int, root: int, key: seq<int>, color: seq<Color>, lk: Links)
  {
    Wf(t, root, key, color, lk) && z in Ids(t) && IsRed(color, z) &&
    RedOK(SubAt(t, z), color) && RedCtxX(CtxOf(t, z), color) && Balanced(t, color) &&
    (IsRed(color, root) ==> root == z) &&
    NONE <= lk.parent[z] < |key| && lk.parent[z] != NIL
  }

  /** The red rule holds below and above any node of a tree that obeys it. */
  lemma RedSplit(t: Tree, x: int, c: seq<Color>)
    requires RedOK(t, c) && x in Ids(t)
    ensures RedOK(SubAt(t, x), c) && RedCtxX(CtxOf(t, x), c)
  {
    SubAtSound(t, x);
    RedPlug(CtxOf(t, x), SubAt(t, x), c);
  }

  /** z, its red parent p and its grandparent g, read off the links. */
  lemma Family(t: Tree, z: int, root: int, key: seq<int>, color: seq<Color>, lk: Links)
    requires FixState(t, z, root, key, color, lk)
    requires lk.parent[z] != NONE && IsRed(color, lk.parent[z])
    ensures |CtxOf(t, z)| >= 2
    ensures var ctx, s := CtxOf(t, z), SubAt(t, z);
      var p, g := ctx[0].pid, ctx[1].pid;
      var ps := Fill(ctx[0], s);
      var gs := Fill(ctx[1], ps);
      s.Node? && s.id == z && lk.parent[z] == p && lk.parent[p] == g &&
      Slot(lk, p) && Slot(lk, g) && z != p && z != g && p != g &&
      IsRed(color, p) && !IsRed(color, g) && Root(t) != z && Root(t) != p &&
      NONE <= lk.parent[g] < |key| && lk.parent[g] != NIL &&
      t == Plug(ctx[2..], gs) && Distinct(gs) &&
      p in Ids(t) && SubAt(t, p) == ps && CtxOf(t, p) == ctx[1..] &&
      g in Ids(t) && SubAt(t, g) == gs && CtxOf(t, g) == ctx[2..] &&
      (lk.left[p] == z <==> ctx[0].LeftOf?) && (lk.right[p] == z <==> ctx[0].RightOf?) &&
      (lk.left[g] == p <==> ctx[1].LeftOf?) && (lk.right[g] == p <==> ctx[1].RightOf?) &&
      Root(ctx[1].sib) == (if ctx[1].LeftOf? then lk.right[g] else lk.left[g]) &&
      (IsRed(color, Root(ctx[1].sib)) <==> RedT(ctx[1].sib, color))
  {
    var ctx, s := CtxOf(t, z), SubAt(t, z);
    SubAtSound(t, z);
    NodeView(ctx, s, lk);
    var ps := Fill(ctx[0], s);
    assert t == Plug(ctx[1..], ps);
    if |ctx| == 1 {
      assert false;
    }
    var gs := Fill(ctx[1], ps);
    assert ctx[1..][1..] == ctx[2..];
    assert t == Plug(ctx[2..], gs);
    NodeView(ctx[1..], ps, lk);
    NodeView(ctx[2..], gs, lk);
    SubAtPlug(ctx[1..], ps);
    SubAtPlug(ctx[2..], gs);
    LinkedFlat(t, NONE, lk);
  }

  /** Case 1 on the grandparent's subtree: black height and balance are
      kept, and the red rule holds below the now red grandparent. */
  lemma RecolorLocal(f1: Frame, f2: Frame, s: Tree, c: seq<Color>, c': seq<Color>)
    requires Distinct(Fill(f2, Fill(f1, s))) && f2.sib.Node?
    requires 0 <= f1.pid < |c| && 0 <= f2.pid < |c| && 0 <= f2.sib.id < |c|
    requires c' == c[f1.pid := Black][f2.sib.id := Black][f2.pid := Red]
    requires IsRed(c, f1.pid) && !IsRed(c, f2.pid) && IsRed(c, f2.sib.id)
    requires RedOK(s, c) && RedOK(f1.sib, c) && RedOK(f2.sib, c)
    requires Balanced(Fill(f2, Fill(f1, s)), c)
    ensures RedOK(Fill(f2, Fill(f1, s)), c') && IsRed(c', f2.pid)
    ensures Balanced(Fill(f2, Fill(f1, s)), c')
    ensures BH(Fill(f2, Fill(f1, s)), c') == BH(Fill(f2, Fill(f1, s)), c)
  {
    var p, g, u := f1.pid, f2.pid, f2.sib;
    var y := u.id;
    assert p !in Ids(s) + Ids(f1.sib) + Ids(u) && g !in Ids(s) + Ids(f1.sib) + Ids(u);
    assert y !in Ids(s) + Ids(f1.sib) + Ids(u.left) + Ids(u.right);
    forall j | j in Ids(s) + Ids(f1.sib) + Ids(u.left) + Ids(u.right)
      ensures IsRed(c, j) == IsRed(c', j)
    {
    }
    RedFrame(s, c, c');
    RedFrame(f1.sib, c, c');
    RedFrame(u.left, c, c');
    RedFrame(u.right, c, c');
    ColorFrame(s, c, c');
    ColorFrame(f1.sib, c, c');
    ColorFrame(u.left, c, c');
    ColorFrame(u.right, c, c');
  }

  /** Case 1 on the whole shape: with z's parent and uncle black and its
      grandparent red, the grandparent is the only possible violation. */
  lemma RecolorTree(ctx: seq<Frame>, s: Tree, c: seq<Color>, c': seq<Color>)
    requires |ctx| >= 2 && ctx[1].sib.Node? && Distinct(Plug(ctx, s))
    requires 0 <= ctx[0].pid < |c| && 0 <= ctx[1].pid < |c| && 0 <= ctx[1].sib.id < |c|
    requires c' == c[ctx[0].pid := Black][ctx[1].sib.id := Black][ctx[1].pid := Red]
    requires IsRed(c, ctx[0].pid) && !IsRed(c, ctx[1].pid) && IsRed(c, ctx[1].sib.id)
    requires RedOK(s, c) && RedCtxX(ctx, c) && Balanced(Plug(ctx, s), c)
    ensures var gs := Fill(ctx[1], Fill(ctx[0], s));
      RedOK(gs, c') && RedCtxX(ctx[2..], c') && Balanced(Plug(ctx[2..], gs), c')
  {
    var f1, f2, ctxg := ctx[0], ctx[1], ctx[2..];
    var gs := Fill(f2, Fill(f1, s));
    assert Plug(ctx, s) == Plug(ctxg, gs) by {
      assert ctx == [f1, f2] + ctxg;
      PlugAppend([f1, f2], ctxg, s);
    }
    assert RedCtx(ctxg, false, c) by {
      assert RedCtx(ctx[1..], true, c);
      assert ctx[1..][1..] == ctxg;
    }
    DistinctPlug(ctxg, gs);
    BalancedPlug(ctxg, gs, c);
    RecolorLocal(f1, f2, s, c, c');
    Paint3(c, Ids(gs), f1.pid, Black, f2.sib.id, Black, f2.pid, Red);
    Repaint(ctxg, gs, gs, c, c');
  }

  /** Case 1 of fix_insert (red uncle): parent and uncle turn black, the
      grandparent red, and the grandparent becomes the node to repair. */
  lemma Recolor(t: Tree, z: int, p: int, g: int, y: int,
                root: int, key: seq<int>, color: seq<Color>, lk: Links)
    requires FixState(t, z, root, key, color, lk)
    requires p == lk.parent[z] && p != NONE && IsRed(color, p)
    requires g == lk.parent[p] && 0 <= g < |key|
    requires y == (if p == lk.left[g] then lk.right[g] else lk.left[g]) && IsRed(color, y)
    ensures FixState(t, g, root, key, color[p := Black][y := Black][g := Red], lk)
    ensures |CtxOf(t, g)| < |CtxOf(t, z)|
  {
    Family(t, z, root, key, color, lk);
    var c' := color[p := Black][y := Black][g := Red];
    var ctx, s := CtxOf(t, z), SubAt(t, z);
    assert ctx[1].sib.Node? && ctx[1].sib.id == y;
    RecolorTree(ctx, s, color, c');
    assert IsRed(c', root) ==> root == g by {
      assert IsRed(c', root) ==> root == g || IsRed(color, root);
    }
  }

  /** Case 3 on the grandparent's subtree, for a left-left line: after the
      recoloring the right rotation leaves a black root whose subtrees obey
      the red rule, with black height and balance kept. */
  lemma LineLocalLeft(s: Tree, b: Tree, u: Tree, p: int, g: int, c: seq<Color>, c': seq<Color>)
    requires Distinct(Node(Node(s, p, b), g, u))
    requires 0 <= p < |c| && 0 <= g < |c| && c' == c[p := Black][g := Red]
    requires IsRed(c, p) && !IsRed(c, g) && !RedT(b, c) && !RedT(u, c)
    requires RedOK(s, c) && RedOK(b, c) && RedOK(u, c)
    requires Balanced(Node(Node(s, p, b), g, u), c)
    ensures RedOK(Node(s, p, Node(b, g, u)), c') && !IsRed(c', p)
    ensures Balanced(Node(s, p, Node(b, g, u)), c')
    ensures BH(Node(s, p, Node(b, g, u)), c') == BH(Node(Node(s, p, b), g, u), c)
  {
    forall j | j in Ids(s) + Ids(b) + Ids(u)
      ensures IsRed(c, j) == IsRed(c', j)
    {
    }
    RedFrame(s, c, c');
    RedFrame(b, c, c');
    RedFrame(u, c, c');
    ColorFrame(s, c, c');
    ColorFrame(b, c, c');
    ColorFrame(u, c, c');
  }

  /** Case 3 on the whole shape, left-left line: after the recoloring and
      the right rotation at the grandparent the red rule holds everywhere. */
  lemma LineTreeLeft(ctx: seq<Frame>, s: Tree, c: seq<Color>, c': seq<Color>)
    requires |ctx| >= 2 && ctx[0].LeftOf? && ctx[1].LeftOf? && Distinct(Plug(ctx, s))
    requires 0 <= ctx[0].pid < |c| && 0 <= ctx[1].pid < |c|
    requires c' == c[ctx[0].pid := Black][ctx[1].pid := Red]
    requires IsRed(c, ctx[0].pid) && !IsRed(c, ctx[1].pid) && !RedT(ctx[1].sib, c)
    requires RedOK(s, c) && RedCtxX(ctx, c) && Balanced(Plug(ctx, s), c)
    ensures var ns := Node(s, ctx[0].pid, Node(ctx[0].sib, ctx[1].pid, ctx[1].sib));
      RedOK(Plug(ctx[2..], ns), c') && Balanced(Plug(ctx[2..], ns), c')
  {
    var f1, f2, ctxg := ctx[0], ctx[1], ctx[2..];
    var p, g := f1.pid, f2.pid;
    var gs := Fill(f2, Fill(f1, s));
    var ns := Node(s, p, Node(f1.sib, g, f2.sib));
    assert Plug(ctx, s) == Plug(ctxg, gs) by {
      assert ctx == [f1, f2] + ctxg;
      PlugAppend([f1, f2], ctxg, s);
    }
    assert RedCtx(ctxg, false, c) by {
      assert RedCtx(ctx[1..], true, c);
      assert ctx[1..][1..] == ctxg;
    }
    DistinctPlug(ctxg, gs);
    BalancedPlug(ctxg, gs, c);
    LineLocalLeft(s, f1.sib, f2.sib, p, g, c, c');
    Paint2(c, Ids(gs), p, Black, g, Red);
    Repaint(ctxg, gs, ns, c, c');
    RedPlug(ctxg, ns, c');
  }

  /** Case 3 of fix_insert, z a left child of a left child: the parent turns
      black, the grandparent red, and a right rotation at the grandparent
      leaves the red rule restored with z's parent black. */
  lemma LineLeft(t: Tree, z: int, p: int, g: int, root: int, key: seq<int>, color: seq<Color>, lk: Links)
    requires FixState(t, z, root, key, color, lk)
    requires p == lk.parent[z] && p != NONE && IsRed(color, p)
    requires g == lk.parent[p] && 0 <= g < |key|
    requires p == lk.left[g] && !IsRed(color, lk.right[g]) && z == lk.left[p]
    ensures g in Ids(t) && lk.left[g] != NIL && SubAt(t, g).Node? && SubAt(t, g).left.Node?
    ensures 0 < g < |key| && 0 < lk.left[g] < |key| && 0 <= lk.right[lk.left[g]] < |key|
    ensures NONE <= lk.parent[g] < |key|
    ensures Wf(t, root, key, color[p := Black][g := Red], lk)
    ensures var c', t', lk' := color[p := Black][g := Red], RotateRightAt(t, g), RotRLinks(lk, g);
      var root' := if lk.parent[g] == NONE then lk.left[g] else root;
      FixState(t', z, root', key, c', lk') && lk'.parent[z] == p && !IsRed(c', p) &&
      |CtxOf(t', z)| < |CtxOf(t, z)|
  {
    Family(t, z, root, key, color, lk);
    var c' := color[p := Black][g := Red];
    var ctx, s := CtxOf(t, z), SubAt(t, z);
    var f1, f2, ctxg := ctx[0], ctx[1], ctx[2..];
    var b, u := f1.sib, f2.sib;
    var gs := Fill(f2, Fill(f1, s));
    var ns := Node(s, p, Node(b, g, u));
    assert f1.LeftOf? && f2.LeftOf?;
    assert gs == Node(Node(s, p, b), g, u) && RotR(gs) == ns;
    RotateRightWf(t, g, root, key, c', lk);
    var t', lk' := RotateRightAt(t, g), RotRLinks(lk, g);
    var root' := if lk.parent[g] == NONE then lk.left[g] else root;
    assert t' == Plug(ctxg, ns);
    LineTreeLeft(ctx, s, color, c');
    RedSplit(t', z, c');
    // z's new position: left child of p.
    assert CtxOf(t', z) == [LeftOf(p, Node(b, g, u))] + ctxg && lk'.parent[z] == p by {
      var nctx := [LeftOf(p, Node(b, g, u))] + ctxg;
      PlugAppend([LeftOf(p, Node(b, g, u))], ctxg, s);
      assert t' == Plug(nctx, s);
      SubAtPlug(nctx, s);
      NodeView(nctx, s, lk');
    }
    assert !IsRed(c', root') by {
      if ctxg != [] {
        PlugRoot(ctxg, gs, ns);
        LinkedFlat(t, NONE, lk);
      }
    }
  }

  /** Case 2 on the whole shape, z a right child of a left child: after the
      left rotation at the parent, the old parent sits below z as its left
      child, and only that red pair may break the red rule. */
  lemma TriangleTreeLeft(ctx: seq<Frame>, s: Tree, c: seq<Color>)
    requires |ctx| >= 2 && ctx[0].RightOf? && s.Node?
    requires IsRed(c, ctx[0].pid) && IsRed(c, s.id)
    requires RedOK(s, c) && RedCtxX(ctx, c) && Balanced(Plug(ctx, s), c)
    ensures var np := Node(ctx[0].sib, ctx[0].pid, s.left);
      var nctx := [LeftOf(s.id, s.right)] + ctx[1..];
      Plug(nctx, np) == Plug(ctx[1..], RotL(Fill(ctx[0], s))) &&
      RedOK(np, c) && RedCtxX(nctx, c) && Balanced(Plug(nctx, np), c)
  {
    var np := Node(ctx[0].sib, ctx[0].pid, s.left);
    var nctx := [LeftOf(s.id, s.right)] + ctx[1..];
    var ns := RotL(Fill(ctx[0], s));
    assert ns == Node(np, s.id, s.right);
    assert Plug(nctx, np) == Plug(ctx[1..], ns) by {
      PlugAppend([LeftOf(s.id, s.right)], ctx[1..], np);
    }
    BalancedPlug(ctx[1..], Fill(ctx[0], s), c);
    BalancedPlug(ctx[1..], ns, c);
    assert RedCtx(ctx[1..], true, c);
    assert nctx[1..] == ctx[1..];
  }

  /** Case 2 of fix_insert, z a right child of a left child: a left rotation
      at the parent turns the zig-zag into a left-left line, with the old
      parent as the node to repair.  No color changes. */
  lemma TriangleLeft(t: Tree, z: int, p: int, g: int, root: int, key: seq<int>, color: seq<Color>, lk: Links)
    requires FixState(t, z, root, key, color, lk)
    requires p == lk.parent[z] && p != NONE && IsRed(color, p)
    requires g == lk.parent[p] && 0 <= g < |key|
    requires p == lk.left[g] && !IsRed(color, lk.right[g]) && z == lk.right[p]
    ensures p in Ids(t) && lk.right[p] != NIL && SubAt(t, p).Node? && SubAt(t, p).right.Node?
    ensures 0 < p < |key| && 0 < lk.right[p] < |key| && 0 <= lk.left[lk.right[p]] < |key|
    ensures NONE < lk.parent[p] < |key|
    ensures var t', lk' := RotateLeftAt(t, p), RotLLinks(lk, p);
      FixState(t', p, root, key, color, lk') &&
      z == lk'.parent[p] && z != NONE && IsRed(color, z) &&
      g == lk'.parent[z] && z == lk'.left[g] && !IsRed(color, lk'.right[g]) && p == lk'.left[z] &&
      |CtxOf(t', p)| == |CtxOf(t, z)|
  {
    Family(t, z, root, key, color, lk);
    var ctx, s := CtxOf(t, z), SubAt(t, z);
    var f1, f2, ctxg := ctx[0], ctx[1], ctx[2..];
    var a, u := f1.sib, f2.sib;
    var b, cz := s.left, s.right;
    var ps := Fill(f1, s);
    assert f1.RightOf? && f2.LeftOf?;
    assert ps == Node(a, p, Node(b, z, cz));
    var ns := Node(Node(a, p, b), z, cz);
    assert RotL(ps) == ns;
    RotateLeftWf(t, p, root, key, color, lk);
    var t', lk' := RotateLeftAt(t, p), RotLLinks(lk, p);
    assert t' == Plug(ctx[1..], ns);
    var nctx := [LeftOf(z, cz)] + ctx[1..];
    TriangleTreeLeft(ctx, s, color);
    SubAtPlug(nctx, Node(a, p, b));
    NodeView(nctx, Node(a, p, b), lk');
    assert nctx[1..] == ctx[1..];
    NodeView(ctx[1..], ns, lk');
  }

  /** Mirror of LineLocalLeft, for a right-right line. */
  lemma LineLocalRight(s: Tree, b: Tree, u: Tree, p: int, g: int, c: seq<Color>, c': seq<Color>)
    requires Distinct(Node(u, g, Node(b, p, s)))
    requires 0 <= p < |c| && 0 <= g < |c| && c' == c[p := Black][g := Red]
    requires IsRed(c, p) && !IsRed(c, g) && !RedT(b, c) && !RedT(u, c)
    requires RedOK(s, c) && RedOK(b, c) && RedOK(u, c)
    requires Balanced(Node(u, g, Node(b, p, s)), c)
    ensures RedOK(Node(Node(u, g, b), p, s), c') && !IsRed(c', p)
    ensures Balanced(Node(Node(u, g, b), p, s), c')
    ensures BH(Node(Node(u, g, b), p, s), c') == BH(Node(u, g, Node(b, p, s)), c)
  {
    forall j | j in Ids(s) + Ids(b) + Ids(u)
      ensures IsRed(c, j) == IsRed(c', j)
    {
    }
    RedFrame(s, c, c');
    RedFrame(b, c, c');
    RedFrame(u, c, c');
    ColorFrame(s, c, c');
    ColorFrame(b, c, c');
    ColorFrame(u, c, c');
  }

  /** Mirror of LineTreeLeft, for a right-right line. */
  lemma LineTreeRight(ctx: seq<Frame>, s: Tree, c: seq<Color>, c': seq<Color>)
    requires |ctx| >= 2 && ctx[0].RightOf? && ctx[1].RightOf? && Distinct(Plug(ctx, s))
    requires 0 <= ctx[0].pid < |c| && 0 <= ctx[1].pid < |c|
    requires c' == c[ctx[0].pid := Black][ctx[1].pid := Red]
    requires IsRed(c, ctx[0].pid) && !IsRed(c, ctx[1].pid) && !RedT(ctx[1].sib, c)
    requires RedOK(s, c) && RedCtxX(ctx, c) && Balanced(Plug(ctx, s), c)
    ensures var ns := Node(Node(ctx[1].sib, ctx[1].pid, ctx[0].sib), ctx[0].pid, s);
      RedOK(Plug(ctx[2..], ns), c') && Balanced(Plug(ctx[2..], ns), c')
  {
    var f1, f2, ctxg := ctx[0], ctx[1], ctx[2..];
    var p, g := f1.pid, f2.pid;
    var gs := Fill(f2, Fill(f1, s));
    var ns := Node(Node(f2.sib, g, f1.sib), p, s);
    assert Plug(ctx, s) == Plug(ctxg, gs) by {
      assert ctx == [f1, f2] + ctxg;
      PlugAppend([f1, f2], ctxg, s);
    }
    assert RedCtx(ctxg, false, c) by {
      assert RedCtx(ctx[1..], true, c);
      assert ctx[1..][1..] == ctxg;
    }
    DistinctPlug(ctxg, gs);
    BalancedPlug(ctxg, gs, c);
    LineLocalRight(s, f1.sib, f2.sib, p, g, c, c');
    Paint2(c, Ids(gs), p, Black, g, Red);
    Repaint(ctxg, gs, ns, c, c');
    RedPlug(ctxg, ns, c');
  }

  /** Mirror of LineLeft: z a right child of a right child, repaired by a
      left rotation at the grandparent. */
  lemma LineRight(t: Tree, z: int, p: int, g: int, root: int, key: seq<int>, color: seq<Color>, lk: Links)
    requires FixState(t, z, root, key, color, lk)
    requires p == lk.parent[z] && p != NONE && IsRed(color, p)
    requires g == lk.parent[p] && 0 <= g < |key|
    requires p == lk.right[g] && !IsRed(color, lk.left[g]) && z == lk.right[p]
    ensures g in Ids(t) && lk.right[g] != NIL && SubAt(t, g).Node? && SubAt(t, g).right.Node?
    ensures 0 < g < |key| && 0 < lk.right[g] < |key| && 0 <= lk.left[lk.right[g]] < |key|
    ensures NONE <= lk.parent[g] < |key|
    ensures Wf(t, root, key, color[p := Black][g := Red], lk)
    ensures var c', t', lk' := color[p := Black][g := Red], RotateLeftAt(t, g), RotLLinks(lk, g);
      var root' := if lk.parent[g] == NONE then lk.right[g] else root;
      FixState(t', z, root', key, c', lk') && lk'.parent[z] == p && !IsRed(c', p) &&
      |CtxOf(t', z)| < |CtxOf(t, z)|
  {
    Family(t, z, root, key, color, lk);
    var c' := color[p := Black][g := Red];
    var ctx, s := CtxOf(t, z), SubAt(t, z);
    var f1, f2, ctxg := ctx[0], ctx[1], ctx[2..];
    var b, u := f1.sib, f2.sib;
    var gs := Fill(f2, Fill(f1, s));
    var ns := Node(Node(u, g, b), p, s);
    assert f1.RightOf? && f2.RightOf?;
    assert gs == Node(u, g, Node(b, p, s)) && RotL(gs) == ns;
    RotateLeftWf(t, g, root, key, c', lk);
    var t', lk' := RotateLeftAt(t, g), RotLLinks(lk, g);
    var root' := if lk.parent[g] == NONE then lk.right[g] else root;
    assert t' == Plug(ctxg, ns);
    LineTreeRight(ctx, s, color, c');
    RedSplit(t', z, c');
    // z's new position: right child of p.
    assert CtxOf(t', z) == [RightOf(Node(u, g, b), p)] + ctxg && lk'.parent[z] == p by {
      var nctx := [RightOf(Node(u, g, b), p)] + ctxg;
      PlugAppend([RightOf(Node(u, g, b), p)], ctxg, s);
      assert t' == Plug(nctx, s);
      SubAtPlug(nctx, s);
      NodeView(nctx, s, lk');
    }
    assert !IsRed(c', root') by {
      if ctxg != [] {
        PlugRoot(ctxg, gs, ns);
        LinkedFlat(t, NONE, lk);
      }
    }
  }

  /** Mirror of TriangleTreeLeft: z a left child of a right child. */
  lemma TriangleTreeRight(ctx: seq<Frame>, s: Tree, c: seq<Color>)
    requires |ctx| >= 2 && ctx[0].LeftOf? && s.Node?
    requires IsRed(c, ctx[0].pid) && IsRed(c, s.id)
    requires RedOK(s, c) && RedCtxX(ctx, c) && Balanced(Plug(ctx, s), c)
    ensures var np := Node(s.right, ctx[0].pid, ctx[0].sib);
      var nctx := [RightOf(s.left, s.id)] + ctx[1..];
      Plug(nctx, np) == Plug(ctx[1..], RotR(Fill(ctx[0], s))) &&
      RedOK(np, c) && RedCtxX(nctx, c) && Balanced(Plug(nctx, np), c)
  {
    var np := Node(s.right, ctx[0].pid, ctx[0].sib);
    var nctx := [RightOf(s.left, s.id)] + ctx[1..];
    var ns := RotR(Fill(ctx[0], s));
    assert ns == Node(s.left, s.id, np);
    assert Plug(nctx, np) == Plug(ctx[1..], ns) by {
      PlugAppend([RightOf(s.left, s.id)], ctx[1..], np);
    }
    BalancedPlug(ctx[1..], Fill(ctx[0], s), c);
    BalancedPlug(ctx[1..], ns, c);
    assert RedCtx(ctx[1..], true, c);
    assert nctx[1..] == ctx[1..];
  }

  /** Mirror of TriangleLeft: z a left child of a right child, turned into a
      right-right line by a right rotation at the parent. */
  lemma TriangleRight(t: Tree, z: int, p: int, g: int, root: int, key: seq<int>, color: seq<Color>, lk: Links)
    requires FixState(t, z, root, key, color, lk)
    requires p == lk.parent[z] && p != NONE && IsRed(color, p)
    requires g == lk.parent[p] && 0 <= g < |key|
    requires p == lk.right[g] && !IsRed(color, lk.left[g]) && z == lk.left[p]
    ensures p in Ids(t) && lk.left[p] != NIL && SubAt(t, p).Node? && SubAt(t, p).left.Node?
    ensures 0 < p < |key| && 0 < lk.left[p] < |key| && 0 <= lk.right[lk.left[p]] < |key|
    ensures NONE < lk.parent[p] < |key|
    ensures var t', lk' := RotateRightAt(t, p), RotRLinks(lk, p);
      FixState(t', p, root, key, color, lk') &&
      z == lk'.parent[p] && z != NONE && IsRed(color, z) &&
      g == lk'.parent[z] && z == lk'.right[g] && !IsRed(color, lk'.left[g]) && p == lk'.right[z] &&
      |CtxOf(t', p)| == |CtxOf(t, z)|
  {
    Family(t, z, root, key, color, lk);
    var ctx, s := CtxOf(t, z), SubAt(t, z);
    var f1, f2, ctxg := ctx[0], ctx[1], ctx[2..];
    var a, u := f1.sib, f2.sib;
    var sl, sr := s.left, s.right;
    var ps := Fill(f1, s);
    assert f1.LeftOf? && f2.RightOf?;
    assert ps == Node(Node(sl, z, sr), p, a);
    var ns := Node(sl, z, Node(sr, p, a));
    assert RotR(ps) == ns;
    RotateRightWf(t, p, root, key, color, lk);
    var t', lk' := RotateRightAt(t, p), RotRLinks(lk, p);
    assert t' == Plug(ctx[1..], ns);
    var nctx := [RightOf(sl, z)] + ctx[1..];
    TriangleTreeRight(ctx, s, color);
    SubAtPlug(nctx, Node(sr, p, a));
    NodeView(nctx, Node(sr, p, a), lk');
    assert nctx[1..] == ctx[1..];
    NodeView(ctx[1..], ns, lk');
  }

  /** What the repair loop reads about z's parent, grandparent and uncle. */
  lemma FixView(t: Tree, z: int, root: int, key: seq<int>, color: seq<Color>, lk: Links)
    requires FixState(t, z, root, key, color, lk)
    ensures lk.parent[z] != NONE && IsRed(color, lk.parent[z]) ==>
      var p := lk.parent[z];
      var g := lk.parent[p];
      0 < p < |key| && 0 < g < |key| &&
      0 <= lk.left[p] < |key| && 0 <= lk.right[p] < |key| &&
      0 <= lk.left[g] < |key| && 0 <= lk.right[g] < |key| &&
      (z == lk.left[p] || z == lk.right[p]) && (p == lk.left[g] || p == lk.right[g])
  {
    if lk.parent[z] != NONE && IsRed(color, lk.parent[z]) {
      Family(t, z, root, key, color, lk);
      LinkedFlat(t, NONE, lk);
    }
  }

  /** When z is the root or has a black parent, the red rule holds
      everywhere, and blackening the root gives a red-black tree. */
  lemma FixDone(t: Tree, z: int, root: int, key: seq<int>, color: seq<Color>, lk: Links)
    requires FixState(t, z, root, key, color, lk)
    requires !(lk.parent[z] != NONE && IsRed(color, lk.parent[z]))
    ensures 0 <= root < |color|
    ensures var c' := color[root := Black];
      Wf(t, root, key, c', lk) && !IsRed(c', root) && RedOK(t, c') && Balanced(t, c')
  {
    var ctx, s := CtxOf(t, z), SubAt(t, z);
    SubAtSound(t, z);
    NodeView(ctx, s, lk);
    RedPlug(ctx, s, color);
    var c' := color[root := Black];
    assert t.Node? && root == t.id;
    RedBlacken(t, color, c');
    assert root !in Ids(t.left) + Ids(t.right);
    ColorFrame(t.left, color, c');
    ColorFrame(t.right, color, c');
  }
}
