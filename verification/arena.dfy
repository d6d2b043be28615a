/** The arena's well-formedness, and what each primitive edit of the
    arena (a fresh slot, a rotation) keeps of it. */
module Arena {
  import opened Shapes
  import opened Links
  import opened Colors
  import opened KeyOrder
  import opened Rewiring
  import opened TreeOrder

  /** The arena has one entry per slot in each field, the sentinel is black
      with no children, the links spell out the shape `t` rooted at `root`,
      and the keys read in symmetric order are sorted. */
  ghost predicate Wf(t: Tree, root: int, key: seq<int>, color: seq<Color>, lk: Links)
  {
    |key| >= 1 && |color| == |key| && |lk.left| == |key| && |lk.right| == |key| &&
    |lk.parent| == |key| &&
    color[NIL] == Black && lk.left[NIL] == NONE && lk.right[NIL] == NONE &&
    (forall j | j in Ids(t) :: 0 < j < |key|) &&
    root == Root(t) && Distinct(t) && Linked(t, NONE, lk) &&
    Sorted(KeySeq(InOrder(t), key))
  }

  lemma KeysAfterAppend(t: Tree, key: seq<int>, k: int)
    requires forall j | j in Ids(t) :: 0 <= j < |key|
    ensures KeySeq(InOrder(t), key + [k]) == KeySeq(InOrder(t), key)
  {
    OrdersHaveIds(t);
    var io := InOrder(t);
    forall i | 0 <= i < |io|
      ensures KeyOf(key + [k], io[i]) == KeyOf(key, io[i])
    {
      assert io[i] in io;
    }
    KeySeqFrame(io, key, key + [k]);
  }

  /** Appending a slot outside the tree keeps the arena well formed. */
  lemma NewSlotWf(t: Tree, root: int, key: seq<int>, color: seq<Color>, lk: Links, k: int)
    requires Wf(t, root, key, color, lk)
    ensures |key| !in Ids(t)
    ensures Wf(t, root, key + [k], color + [Red],
               Links(lk.left + [NIL], lk.right + [NIL], lk.parent + [NONE]))
    ensures KeySeq(InOrder(t), key + [k]) == KeySeq(InOrder(t), key)
    ensures IsRed(color + [Red], root) == IsRed(color, root)
    ensures RedOK(t, color + [Red]) == RedOK(t, color)
    ensures Balanced(t, color + [Red]) == Balanced(t, color)
  {
    LinkedSame(t, NONE, lk, Links(lk.left + [NIL], lk.right + [NIL], lk.parent + [NONE]));
    KeysAfterAppend(t, key, k);
    LinkedFlat(t, NONE, lk);
    RedFrame(t, color, color + [Red]);
    ColorFrame(t, color, color + [Red]);
  }

  /** A new shape with the same symmetric order and nodes, spelled out by
      new links of the same size, is well formed. */
  lemma WfReshaped(t: Tree, root: int, key: seq<int>, color: seq<Color>, lk: Links,
                   t': Tree, root': int, lk': Links)
    requires Wf(t, root, key, color, lk)
    requires InOrder(t') == InOrder(t) && Ids(t') == Ids(t) && Distinct(t') && root' == Root(t')
    requires Linked(t', NONE, lk') && |lk'.left| == |key| && |lk'.right| == |key| && |lk'.parent| == |key|
    requires lk'.left[NIL] == NONE && lk'.right[NIL] == NONE
    ensures Wf(t', root', key, color, lk')
  {
  }

  lemma RotateLeftWf(t: Tree, x: int, root: int, key: seq<int>, color: seq<Color>, lk: Links)
    requires Wf(t, root, key, color, lk) && x in Ids(t) && lk.right[x] != NIL
    ensures SubAt(t, x).Node? && SubAt(t, x).id == x && SubAt(t, x).right.Node?
    ensures 0 < lk.right[x] < |lk.left| && 0 <= lk.left[lk.right[x]] < |lk.left|
    ensures NONE <= lk.parent[x] < |lk.left| && lk.right[x] != x && lk.left[lk.right[x]] != x
    ensures var lk', root' := RotLLinks(lk, x), if lk.parent[x] == NONE then lk.right[x] else root;
      Wf(RotateLeftAt(t, x), root', key, color, lk') &&
      RotatedLeft(CtxOf(t, x), SubAt(t, x), lk, lk') && lk'.parent[NIL] == lk.parent[NIL]
    ensures InOrder(RotateLeftAt(t, x)) == InOrder(t) && Ids(RotateLeftAt(t, x)) == Ids(t)
  {
    var ctx, s := CtxOf(t, x), SubAt(t, x);
    SubAtSound(t, x);
    NodeView(ctx, s, lk);
    RotLView(ctx, s, lk);
    RotLStep(ctx, s, lk);
    RotateLeftAtKeeps(t, x);
    var lk', root' := RotLLinks(lk, x), if lk.parent[x] == NONE then lk.right[x] else root;
    assert root' == Root(RotateLeftAt(t, x)) by {
      if ctx != [] {
        PlugRoot(ctx, s, RotL(s));
      }
    }
    WfReshaped(t, root, key, color, lk, RotateLeftAt(t, x), root', lk');
  }

  lemma RotateRightWf(t: Tree, x: int, root: int, key: seq<int>, color: seq<Color>, lk: Links)
    requires Wf(t, root, key, color, lk) && x in Ids(t) && lk.left[x] != NIL
    ensures SubAt(t, x).Node? && SubAt(t, x).id == x && SubAt(t, x).left.Node?
    ensures 0 < lk.left[x] < |lk.left| && 0 <= lk.right[lk.left[x]] < |lk.left|
    ensures NONE <= lk.parent[x] < |lk.left| && lk.left[x] != x && lk.right[lk.left[x]] != x
    ensures var lk', root' := RotRLinks(lk, x), if lk.parent[x] == NONE then lk.left[x] else root;
      Wf(RotateRightAt(t, x), root', key, color, lk') &&
      RotatedRight(CtxOf(t, x), SubAt(t, x), lk, lk') && lk'.parent[NIL] == lk.parent[NIL]
    ensures InOrder(RotateRightAt(t, x)) == InOrder(t) && Ids(RotateRightAt(t, x)) == Ids(t)
  {
    var ctx, s := CtxOf(t, x), SubAt(t, x);
    SubAtSound(t, x);
    NodeView(ctx, s, lk);
    RotRView(ctx, s, lk);
    RotRStep(ctx, s, lk);
    RotateRightAtKeeps(t, x);
    var lk', root' := RotRLinks(lk, x), if lk.parent[x] == NONE then lk.left[x] else root;
    assert root' == Root(RotateRightAt(t, x)) by {
      if ctx != [] {
        PlugRoot(ctx, s, RotR(s));
      }
    }
    WfReshaped(t, root, key, color, lk, RotateRightAt(t, x), root', lk');
  }

  lemma SearchStep(t: Tree, key: seq<int>, k: int)
    requires t.Node? && Sorted(KeySeq(InOrder(t), key)) && k != KeyOf(key, t.id)
    ensures Sorted(KeySeq(InOrder(t.left), key)) && Sorted(KeySeq(InOrder(t.right), key))
    ensures k in KeySeq(InOrder(t), key) ==>
              k in KeySeq(InOrder(if k < KeyOf(key, t.id) then t.left else t.right), key)
  {
    NodeOrder(t, key);
    var l, r := InOrder(t.left), InOrder(t.right);
    KeySeqAppend(l + [t.id], r, key);
    KeySeqAppend(l, [t.id], key);
    if k < KeyOf(key, t.id) {
      forall p | 0 <= p < |r|
        ensures KeySeq(r, key)[p] != k
      {
        KeySeqAt(r, key, p);
        assert r[p] in r;
      }
    } else {
      forall p | 0 <= p < |l|
        ensures KeySeq(l, key)[p] != k
      {
        KeySeqAt(l, key, p);
        assert l[p] in l;
      }
    }
  }

  lemma SearchDone(t0: Tree, t: Tree, n: int, key: seq<int>, k: int)
    requires forall j | j in Ids(t0) :: 0 < j < |key|
    requires Ids(t) <= Ids(t0) && n == Root(t)
    requires n == NIL || k == key[n]
    requires k in KeySeq(InOrder(t0), key) ==> k in KeySeq(InOrder(t), key)
    ensures n == NIL <==> k !in KeySeq(InOrder(t0), key)
    ensures n != NIL ==> n in Ids(t0) && key[n] == k
  {
    if n != NIL {
      assert n in Ids(t);
      OrdersHaveIds(t0);
      KeySeqMember(InOrder(t0), key, n);
    } else {
      assert t.Node? ==> Root(t) in Ids(t);
    }
  }

  /** The subtree at a node of a well-formed tree is linked below the node's
      parent, sorted, and has a leftmost node with a smallest key. */
  lemma SubtreeFacts(t: Tree, x: int, root: int, key: seq<int>, color: seq<Color>, lk: Links)
    requires Wf(t, root, key, color, lk) && x in Ids(t)
    ensures SubAt(t, x).Node? && SubAt(t, x).id == x
    ensures Linked(SubAt(t, x), Up(CtxOf(t, x), NONE), lk) && Distinct(SubAt(t, x))
    ensures Ids(SubAt(t, x)) <= Ids(t)
    ensures Sorted(KeySeq(InOrder(SubAt(t, x)), key))
    ensures Leftmost(SubAt(t, x)) in Ids(SubAt(t, x))
    ensures forall j | j in Ids(SubAt(t, x)) ::
              KeyOf(key, Leftmost(SubAt(t, x))) <= KeyOf(key, j)
  {
    var ctx, s := CtxOf(t, x), SubAt(t, x);
    SubAtSound(t, x);
    NodeView(ctx, s, lk);
    SubOrder(ctx, s, key);
    LeftmostMin(s, key);
  }
}
