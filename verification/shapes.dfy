/** The shape of a red-black tree, as pure values.

    The arena of `RedBlackTree` stores keys, colors and links by node index;
    a `Tree` records only which index sits where.  A position inside a tree
    is a zipper context: the frames from the focused subtree up to the root,
    innermost frame first, and `Plug` puts a subtree back in its place. */
module Shapes {

  /** Index of the shared black sentinel in the arena. */
  const NIL: int := 0
  /** The root's `parent` value, distinct from NIL (Python's `None`). */
  const NONE: int := -1

  datatype Color = Red | Black

  datatype Tree = Nil | Node(left: Tree, id: int, right: Tree)

  /** One step up from a focused subtree: the focus is the left child of
      `pid` with right sibling `sib`, or the right child with left sibling. */
  datatype Frame = LeftOf(pid: int, sib: Tree) | RightOf(sib: Tree, pid: int)

  /** Arena index standing for the subtree: its root node, or NIL. */
  function Root(t: Tree): int
  {
    if t.Nil? then NIL else t.id
  }

  ghost function Ids(t: Tree): set<int>
  {
    match t
    case Nil => {}
    case Node(l, i, r) => Ids(l) + {i} + Ids(r)
  }

  /** No arena index occurs twice in the tree. */
  ghost predicate Distinct(t: Tree)
  {
    match t
    case Nil => true
    case Node(l, i, r) =>
      Distinct(l) && Distinct(r) && i !in Ids(l) && i !in Ids(r) && Ids(l) !! Ids(r)
  }

  /** Node indices in symmetric (left, node, right) order. */
  ghost function InOrder(t: Tree): seq<int>
  {
    match t
    case Nil => []
    case Node(l, i, r) => InOrder(l) + [i] + InOrder(r)
  }

  ghost function PreOrder(t: Tree): seq<int>
  {
    match t
    case Nil => []
    case Node(l, i, r) => [i] + PreOrder(l) + PreOrder(r)
  }

  ghost function PostOrder(t: Tree): seq<int>
  {
    match t
    case Nil => []
    case Node(l, i, r) => PostOrder(l) + PostOrder(r) + [i]
  }

  function Fill(f: Frame, t: Tree): Tree
  {
    match f
    case LeftOf(p, s) => Node(t, p, s)
    case RightOf(s, p) => Node(s, p, t)
  }

  /** Rebuild the enclosing tree from a context and the subtree in focus. */
  function Plug(ctx: seq<Frame>, t: Tree): Tree
    decreases |ctx|
  {
    if ctx == [] then t else Plug(ctx[1..], Fill(ctx[0], t))
  }

  /** The parent index of the focus; `top` when the focus is the whole tree. */
  function Up(ctx: seq<Frame>, top: int): int
  {
    if ctx == [] then top else ctx[0].pid
  }

  ghost function FrameIds(f: Frame): set<int>
  {
    {f.pid} + Ids(f.sib)
  }

  ghost function CtxIds(ctx: seq<Frame>): set<int>
    decreases |ctx|
  {
    if ctx == [] then {} else FrameIds(ctx[0]) + CtxIds(ctx[1..])
  }

  ghost predicate DistinctCtx(ctx: seq<Frame>)
    decreases |ctx|
  {
    ctx == [] ||
    (Distinct(ctx[0].sib) && ctx[0].pid !in Ids(ctx[0].sib) &&
     FrameIds(ctx[0]) !! CtxIds(ctx[1..]) && DistinctCtx(ctx[1..]))
  }

  /** In-order indices that come before / after the focus. */
  ghost function Before(ctx: seq<Frame>): seq<int>
    decreases |ctx|
  {
    if ctx == [] then []
    else Before(ctx[1..]) + (match ctx[0]
                             case LeftOf(_, _) => []
                             case RightOf(s, p) => InOrder(s) + [p])
  }

  ghost function After(ctx: seq<Frame>): seq<int>
    decreases |ctx|
  {
    if ctx == [] then []
    else (match ctx[0]
          case LeftOf(p, s) => [p] + InOrder(s)
          case RightOf(_, _) => []) + After(ctx[1..])
  }

  /** The subtree rooted at index `x`, and its context. */
  ghost function SubAt(t: Tree, x: int): Tree
    requires x in Ids(t)
  {
    if t.id == x then t
    else if x in Ids(t.left) then SubAt(t.left, x)
    else SubAt(t.right, x)
  }

  ghost function CtxOf(t: Tree, x: int): seq<Frame>
    requires x in Ids(t)
  {
    if t.id == x then []
    else if x in Ids(t.left) then CtxOf(t.left, x) + [LeftOf(t.id, t.right)]
    else CtxOf(t.right, x) + [RightOf(t.left, t.id)]
  }

  /** The leftmost node of a nonempty tree. */
  ghost function Leftmost(t: Tree): int
    requires t.Node?
  {
    if t.left.Nil? then t.id else Leftmost(t.left)
  }

  /** The subtree rooted at the leftmost node, and the path down to it. */
  ghost function LeftmostSub(t: Tree): (m: Tree)
    requires t.Node?
    ensures m.Node? && m.left.Nil?
  {
    if t.left.Nil? then t else LeftmostSub(t.left)
  }

  ghost function LeftSpine(t: Tree): seq<Frame>
    requires t.Node?
  {
    if t.left.Nil? then [] else LeftSpine(t.left) + [LeftOf(t.id, t.right)]
  }

  /** Left rotation of a subtree whose root has a right child: that child
      takes the root's place, and its left subtree moves under the old root. */
  ghost function RotL(s: Tree): Tree
    requires s.Node? && s.right.Node?
  {
    Node(Node(s.left, s.id, s.right.left), s.right.id, s.right.right)
  }

  ghost function RotR(s: Tree): Tree
    requires s.Node? && s.left.Node?
  {
    Node(s.left.left, s.left.id, Node(s.left.right, s.id, s.right))
  }

  /** Rotations performed at the node with index `x`. */
  ghost function RotateLeftAt(t: Tree, x: int): Tree
    requires x in Ids(t) && SubAt(t, x).Node? && SubAt(t, x).right.Node?
  {
    Plug(CtxOf(t, x), RotL(SubAt(t, x)))
  }

  ghost function RotateRightAt(t: Tree, x: int): Tree
    requires x in Ids(t) && SubAt(t, x).Node? && SubAt(t, x).left.Node?
  {
    Plug(CtxOf(t, x), RotR(SubAt(t, x)))
  }

  // ----- structural lemmas -----

  lemma {:induction false} PlugAppend(c1: seq<Frame>, c2: seq<Frame>, t: Tree)
    ensures Plug(c1 + c2, t) == Plug(c2, Plug(c1, t))
    decreases |c1|
  {
    if c1 != [] {
      assert (c1 + c2)[1..] == c1[1..] + c2;
      PlugAppend(c1[1..], c2, Fill(c1[0], t));
    } else {
      assert c1 + c2 == c2;
    }
  }

  lemma {:induction false} CtxIdsAppend(c1: seq<Frame>, c2: seq<Frame>)
    ensures CtxIds(c1 + c2) == CtxIds(c1) + CtxIds(c2)
    decreases |c1|
  {
    if c1 != [] {
      assert (c1 + c2)[1..] == c1[1..] + c2;
      CtxIdsAppend(c1[1..], c2);
    } else {
      assert c1 + c2 == c2;
    }
  }

  lemma {:induction false} IdsPlug(ctx: seq<Frame>, t: Tree)
    ensures Ids(Plug(ctx, t)) == Ids(t) + CtxIds(ctx)
    decreases |ctx|
  {
    if ctx != [] {
      IdsPlug(ctx[1..], Fill(ctx[0], t));
    }
  }

  lemma {:induction false} DistinctPlug(ctx: seq<Frame>, t: Tree)
    ensures Distinct(Plug(ctx, t)) <==>
            Distinct(t) && DistinctCtx(ctx) && Ids(t) !! CtxIds(ctx)
    decreases |ctx|
  {
    if ctx != [] {
      var f := Fill(ctx[0], t);
      DistinctPlug(ctx[1..], f);
      assert Ids(f) == Ids(t) + FrameIds(ctx[0]);
    }
  }

  lemma {:induction false} InOrderPlug(ctx: seq<Frame>, t: Tree)
    ensures InOrder(Plug(ctx, t)) == Before(ctx) + InOrder(t) + After(ctx)
    decreases |ctx|
  {
    if ctx != [] {
      InOrderPlug(ctx[1..], Fill(ctx[0], t));
    }
  }

  lemma {:induction false} SubAtSound(t: Tree, x: int)
    requires x in Ids(t)
    ensures SubAt(t, x).Node? && SubAt(t, x).id == x
    ensures Plug(CtxOf(t, x), SubAt(t, x)) == t
  {
    if t.id != x {
      if x in Ids(t.left) {
        SubAtSound(t.left, x);
        PlugAppend(CtxOf(t.left, x), [LeftOf(t.id, t.right)], SubAt(t.left, x));
      } else {
        SubAtSound(t.right, x);
        PlugAppend(CtxOf(t.right, x), [RightOf(t.left, t.id)], SubAt(t.right, x));
      }
    }
  }

  /** In a tree without repeated indices, the position of a node is unique:
      locating its index gives back the context it was plugged into. */
  lemma {:induction false} SubAtPlug(ctx: seq<Frame>, s: Tree)
    requires s.Node? && Distinct(Plug(ctx, s))
    ensures s.id in Ids(Plug(ctx, s))
    ensures SubAt(Plug(ctx, s), s.id) == s && CtxOf(Plug(ctx, s), s.id) == ctx
    decreases |ctx|
  {
    IdsPlug(ctx, s);
    if ctx != [] {
      var c0 := ctx[..|ctx| - 1];
      var last := ctx[|ctx| - 1];
      assert ctx == c0 + [last];
      PlugAppend(c0, [last], s);
      var inner := Plug(c0, s);
      DistinctPlug([last], inner);
      assert Distinct(inner);
      SubAtPlug(c0, s);
      IdsPlug([last], inner);
      assert s.id in Ids(inner);
      match last
      case LeftOf(p, sib) =>
        assert Plug([last], inner) == Node(inner, p, sib);
      case RightOf(sib, p) =>
        assert Plug([last], inner) == Node(sib, p, inner);
        assert s.id !in Ids(sib);
    }
  }

  lemma {:induction false} BeforeAfterAppend(c1: seq<Frame>, c2: seq<Frame>)
    ensures Before(c1 + c2) == Before(c2) + Before(c1)
    ensures After(c1 + c2) == After(c1) + After(c2)
    decreases |c1|
  {
    if c1 != [] {
      assert (c1 + c2)[1..] == c1[1..] + c2;
      BeforeAfterAppend(c1[1..], c2);
    } else {
      assert c1 + c2 == c2;
    }
  }

  /** The leftmost node splits a tree into a left spine, nothing before it in
      symmetric order, and its own right subtree. */
  lemma {:induction false} LeftSpineSound(t: Tree)
    requires t.Node?
    ensures Plug(LeftSpine(t), LeftmostSub(t)) == t
    ensures LeftmostSub(t).Node? && LeftmostSub(t).left.Nil?
    ensures LeftmostSub(t).id == Leftmost(t)
    ensures Before(LeftSpine(t)) == []
    ensures forall n | 0 <= n < |LeftSpine(t)| :: LeftSpine(t)[n].LeftOf?
    ensures LeftSpine(t) == [] <==> t.left.Nil?
  {
    if t.left.Node? {
      LeftSpineSound(t.left);
      PlugAppend(LeftSpine(t.left), [LeftOf(t.id, t.right)], LeftmostSub(t.left));
      BeforeAfterAppend(LeftSpine(t.left), [LeftOf(t.id, t.right)]);
    }
  }

  lemma RotLDistinct(a: Tree, x: int, b: Tree, y: int, c: Tree)
    ensures Distinct(Node(a, x, Node(b, y, c))) == Distinct(Node(Node(a, x, b), y, c))
  {
    assert Ids(Node(b, y, c)) == Ids(b) + {y} + Ids(c);
    assert Ids(Node(a, x, b)) == Ids(a) + {x} + Ids(b);
  }

  lemma RotLKeeps(s: Tree)
    requires s.Node? && s.right.Node?
    ensures InOrder(RotL(s)) == InOrder(s) && Ids(RotL(s)) == Ids(s)
    ensures Distinct(RotL(s)) == Distinct(s)
  {
    var a, x, b, y, c := s.left, s.id, s.right.left, s.right.id, s.right.right;
    assert Ids(s) == Ids(a) + {x} + (Ids(b) + {y} + Ids(c));
    assert Ids(RotL(s)) == (Ids(a) + {x} + Ids(b)) + {y} + Ids(c);
    RotLDistinct(a, x, b, y, c);
  }

  lemma RotRKeeps(s: Tree)
    requires s.Node? && s.left.Node?
    ensures InOrder(RotR(s)) == InOrder(s) && Ids(RotR(s)) == Ids(s)
    ensures Distinct(RotR(s)) == Distinct(s)
  {
    var a, y, b, x, c := s.left.left, s.left.id, s.left.right, s.id, s.right;
    assert Ids(s) == (Ids(a) + {y} + Ids(b)) + {x} + Ids(c);
    assert Ids(RotR(s)) == Ids(a) + {y} + (Ids(b) + {x} + Ids(c));
    RotLDistinct(a, y, b, x, c);
  }

  /** A rotation keeps the symmetric order and the set of nodes of the whole
      tree, and keeps indices distinct. */
  lemma {:induction false} RotateLeftAtKeeps(t: Tree, x: int)
    requires x in Ids(t) && SubAt(t, x).Node? && SubAt(t, x).right.Node?
    ensures InOrder(RotateLeftAt(t, x)) == InOrder(t)
    ensures Ids(RotateLeftAt(t, x)) == Ids(t)
    ensures Distinct(RotateLeftAt(t, x)) == Distinct(t)
  {
    var ctx, s := CtxOf(t, x), SubAt(t, x);
    SubAtSound(t, x);
    RotLKeeps(s);
    InOrderPlug(ctx, s);
    InOrderPlug(ctx, RotL(s));
    IdsPlug(ctx, s);
    IdsPlug(ctx, RotL(s));
    DistinctPlug(ctx, s);
    DistinctPlug(ctx, RotL(s));
  }

  lemma {:induction false} RotateRightAtKeeps(t: Tree, x: int)
    requires x in Ids(t) && SubAt(t, x).Node? && SubAt(t, x).left.Node?
    ensures InOrder(RotateRightAt(t, x)) == InOrder(t)
    ensures Ids(RotateRightAt(t, x)) == Ids(t)
    ensures Distinct(RotateRightAt(t, x)) == Distinct(t)
  {
    var ctx, s := CtxOf(t, x), SubAt(t, x);
    SubAtSound(t, x);
    RotRKeeps(s);
    InOrderPlug(ctx, s);
    InOrderPlug(ctx, RotR(s));
    IdsPlug(ctx, s);
    IdsPlug(ctx, RotR(s));
    DistinctPlug(ctx, s);
    DistinctPlug(ctx, RotR(s));
  }

  /** Below a nonempty context, the root of the whole tree does not depend
      on the subtree in focus. */
  lemma {:induction false} PlugRoot(ctx: seq<Frame>, t: Tree, t': Tree)
    requires ctx != []
    ensures Plug(ctx, t).Node? && Root(Plug(ctx, t)) == Root(Plug(ctx, t'))
    decreases |ctx|
  {
    if ctx[1..] != [] {
      PlugRoot(ctx[1..], Fill(ctx[0], t), Fill(ctx[0], t'));
    }
  }

  /** Below a nonempty context, the root of the whole tree is the node of
      the outermost frame. */
  lemma {:induction false} PlugTop(ctx: seq<Frame>, t: Tree)
    requires ctx != []
    ensures Root(Plug(ctx, t)) == ctx[|ctx| - 1].pid && ctx[|ctx| - 1].pid in CtxIds(ctx)
    decreases |ctx|
  {
    if ctx[1..] != [] {
      PlugTop(ctx[1..], Fill(ctx[0], t));
      assert ctx[1..][|ctx[1..]| - 1] == ctx[|ctx| - 1];
    }
  }

  lemma {:induction false} OrdersHaveIds(t: Tree)
    ensures forall j :: j in InOrder(t) <==> j in Ids(t)
    ensures multiset(PreOrder(t)) == multiset(InOrder(t))
    ensures multiset(PostOrder(t)) == multiset(InOrder(t))
  {
    if t.Node? {
      OrdersHaveIds(t.left);
      OrdersHaveIds(t.right);
    }
  }
}
