/** The red-black tree object: an arena of nodes addressed by index.

    Slot 0 is the shared black sentinel NIL; every other slot is a node that
    was once created by an insertion.  `key`, `color`, `left`, `right` and
    `parent` hold each node's fields; `parent` of the root is NONE.  The
    ghost field `T` records which slots form the tree and where, and
    `Valid` ties it to the links. */
module RedBlack {
  import opened Shapes
  import opened Links
  import opened Colors
  import opened KeyOrder
  import opened Rewiring
  import opened TreeOrder
  import opened Arena
  import opened Insertion
  import opened Deletion
  import opened Repair
  import opened Removal
  import opened Traversal

  class RedBlackTree {
    var key: seq<int>
    var color: seq<Color>
    var left: seq<int>
    var right: seq<int>
    var parent: seq<int>
    var root: int
    ghost var T: Tree

    ghost function Lk(): Links
      reads this
    {
      Links(left, right, parent)
    }

    /** Keys of the tree in symmetric order. */
    ghost function Keys(): seq<int>
      reads this
    {
      KeySeq(InOrder(T), key)
    }

    /** The links spell out the shape `T` rooted at `root`, and the keys are
        in order. */
    ghost predicate Valid()
      reads this
    {
      Wf(T, root, key, color, Lk())
    }

    /** The red-black properties: black root, no red node with a red child,
        the same number of black nodes on every path down. */
    ghost predicate IsRedBlack()
      reads this
    {
      !IsRed(color, root) && RedOK(T, color) && Balanced(T, color)
    }

    /** An empty tree: only the black sentinel, which is also the root. */
    constructor ()
      ensures Valid() && IsRedBlack()
      ensures T == Nil && Keys() == [] && root == NIL
      ensures key == [0] && color == [Black] && parent == [NONE]
    {
      key := [0];
      color := [Black];
      left := [NONE];
      right := [NONE];
      parent := [NONE];
      root := NIL;
      T := Nil;
    }

    /** A fresh red node with sentinel children and no parent, not yet in
        the tree. */
    method NewNode(k: int) returns (n: int)
      requires Valid()
      modifies this
      ensures Valid() && T == old(T) && root == old(root)
      ensures n == old(|key|) && n !in Ids(T) && n != NIL
      ensures key == old(key) + [k] && color == old(color) + [Red]
      ensures left == old(left) + [NIL] && right == old(right) + [NIL]
      ensures parent == old(parent) + [NONE]
      ensures Keys() == old(Keys()) && IsRedBlack() == old(IsRedBlack())
    {
      NewSlotWf(T, root, key, color, Lk(), k);
      n := |key|;
      key := key + [k];
      color := color + [Red];
      left := left + [NIL];
      right := right + [NIL];
      parent := parent + [NONE];
    }

    /** Left rotation at `x`: its right child takes its place. */
    method RotateLeft(x: int)
      requires Valid() && x in Ids(T) && right[x] != NIL
      modifies this
      ensures Valid()
      ensures SubAt(old(T), x).Node? && SubAt(old(T), x).right.Node?
      ensures T == RotateLeftAt(old(T), x)
      ensures InOrder(T) == old(InOrder(T)) && Ids(T) == old(Ids(T))
      ensures RotatedLeft(CtxOf(old(T), x), SubAt(old(T), x), old(Lk()), Lk())
      ensures old(0 < right[x] < |left| && 0 <= left[right[x]] < |left| && NONE <= parent[x] < |left|)
      ensures Lk() == RotLLinks(old(Lk()), x)
      ensures root == if old(parent[x]) == NONE then old(right[x]) else old(root)
      ensures key == old(key) && color == old(color) && parent[NIL] == old(parent[NIL])
    {
      RotateLeftWf(T, x, root, key, color, Lk());
      RewireLeft(x);
      T := RotateLeftAt(T, x);
    }

    /** The link assignments of a left rotation at `x`, in the order
        the rotation makes them, on local copies stored back at the end. */
    method RewireLeft(x: int)
      requires 0 < x < |left| && |right| == |left| && |parent| == |left|
      requires 0 < right[x] < |left| && 0 <= left[right[x]] < |left|
      requires NONE <= parent[x] < |left| && right[x] != x && left[right[x]] != x
      modifies this
      ensures Lk() == RotLLinks(old(Lk()), x)
      ensures root == if old(parent[x]) == NONE then old(right[x]) else old(root)
      ensures T == old(T) && key == old(key) && color == old(color)
    {
      var L, R, P := left, right, parent;
      var y := R[x];
      R := R[x := L[y]];
      if L[y] != NIL {
        P := P[L[y] := x];
      }
      P := P[y := P[x]];
      if P[x] == NONE {
        root := y;
      } else if x == L[P[x]] {
        L := L[P[x] := y];
      } else {
        R := R[P[x] := y];
      }
      L := L[y := x];
      P := P[x := y];
      assert Links(L, R, P) == RotLLinks(old(Lk()), x);
      left, right, parent := L, R, P;
    }

    /** Right rotation at `x`: its left child takes its place. */
    method RotateRight(x: int)
      requires Valid() && x in Ids(T) && left[x] != NIL
      modifies this
      ensures Valid()
      ensures SubAt(old(T), x).Node? && SubAt(old(T), x).left.Node?
      ensures T == RotateRightAt(old(T), x)
      ensures InOrder(T) == old(InOrder(T)) && Ids(T) == old(Ids(T))
      ensures RotatedRight(CtxOf(old(T), x), SubAt(old(T), x), old(Lk()), Lk())
      ensures old(0 < left[x] < |left| && 0 <= right[left[x]] < |left| && NONE <= parent[x] < |left|)
      ensures Lk() == RotRLinks(old(Lk()), x)
      ensures root == if old(parent[x]) == NONE then old(left[x]) else old(root)
      ensures key == old(key) && color == old(color) && parent[NIL] == old(parent[NIL])
    {
      RotateRightWf(T, x, root, key, color, Lk());
      RewireRight(x);
      T := RotateRightAt(T, x);
    }

    /** The link assignments of a right rotation at `x`, in the order
        the rotation makes them, on local copies stored back at the end. */
    method RewireRight(x: int)
      requires 0 < x < |left| && |right| == |left| && |parent| == |left|
      requires 0 < left[x] < |left| && 0 <= right[left[x]] < |left|
      requires NONE <= parent[x] < |left| && left[x] != x && right[left[x]] != x
      modifies this
      ensures Lk() == RotRLinks(old(Lk()), x)
      ensures root == if old(parent[x]) == NONE then old(left[x]) else old(root)
      ensures T == old(T) && key == old(key) && color == old(color)
    {
      var L, R, P := left, right, parent;
      var y := L[x];
      L := L[x := R[y]];
      if R[y] != NIL {
        P := P[R[y] := x];
      }
      P := P[y := P[x]];
      if P[x] == NONE {
        root := y;
      } else if x == R[P[x]] {
        R := R[P[x] := y];
      } else {
        L := L[P[x] := y];
      }
      R := R[y := x];
      P := P[x := y];
      assert Links(L, R, P) == RotRLinks(old(Lk()), x);
      left, right, parent := L, R, P;
    }

    /** Replace the subtree rooted at `u` by the one rooted at `v` in u's
        parent (or as the root). */
    method Transplant(u: int, v: int)
      requires 0 < u < |parent| && 0 <= v < |parent|
      requires |left| == |parent| && |right| == |parent| && NONE <= parent[u] < |parent|
      modifies this
      ensures Lk() == TransplantLinks(old(Lk()), u, v)
      ensures root == (if old(parent[u]) == NONE then v else old(root))
      ensures key == old(key) && color == old(color) && T == old(T)
    {
      if parent[u] == NONE {
        root := v;
      } else if u == left[parent[u]] {
        left := left[parent[u] := v];
      } else {
        right := right[parent[u] := v];
      }
      parent := parent[v := parent[u]];
    }

    /** The node holding `k`, or NIL when no node does. */
    method Search(k: int) returns (n: int)
      requires Valid()
      ensures n == NIL <==> k !in Keys()
      ensures n != NIL ==> n in Ids(T) && key[n] == k
    {
      ghost var t, gp := T, NONE;
      n := root;
      while n != NIL && k != key[n]
        invariant Linked(t, gp, Lk()) && Ids(t) <= Ids(T) && n == Root(t)
        invariant Sorted(KeySeq(InOrder(t), key))
        invariant k in Keys() ==> k in KeySeq(InOrder(t), key)
        decreases t
      {
        SearchStep(t, key, k);
        if k < key[n] {
          t, gp := t.left, n;
          n := left[n];
        } else {
          t, gp := t.right, n;
          n := right[n];
        }
      }
      SearchDone(T, t, n, key, k);
    }

    /** The node with the smallest key in the subtree rooted at `x`: its
        leftmost node. */
    method Minimum(x: int) returns (m: int)
      requires Valid() && x in Ids(T)
      ensures SubAt(T, x).Node? && m == Leftmost(SubAt(T, x))
      ensures Ids(SubAt(T, x)) <= Ids(T) && m in Ids(SubAt(T, x)) && left[m] == NIL
      ensures forall j | j in Ids(SubAt(T, x)) :: key[m] <= key[j]
    {
      SubtreeFacts(T, x, root, key, color, Lk());
      ghost var t, gp := SubAt(T, x), Up(CtxOf(T, x), NONE);
      m := x;
      while left[m] != NIL
        invariant t.Node? && m == t.id && Linked(t, gp, Lk()) && Ids(t) <= Ids(T)
        invariant Leftmost(t) == Leftmost(SubAt(T, x))
        decreases t
      {
        t, gp := t.left, m;
        m := left[m];
      }
    }

    /** `_inorder(n)`: the (key, color) pairs of the subtree at `n`, whose
        shape is the ghost `t` hanging under `p`, left subtree first. */
    function InorderFrom(ghost t: Tree, ghost p: int, n: int): (r: seq<(int, Color)>)
      reads this
      requires Linked(t, p, Lk()) && n == Root(t) && |color| == |key|
      requires forall j | j in Ids(t) :: 0 < j < |key|
      ensures r == Entries(InOrder(t), key, color)
      decreases t
    {
      if n == NIL then []
      else
        assert t.Node? && n in Ids(t) && Ids(t.left) <= Ids(t) && Ids(t.right) <= Ids(t);
        InOrderEntries(t.left, n, t.right, key, color);
        InorderFrom(t.left, n, left[n]) + [(key[n], color[n])] + InorderFrom(t.right, n, right[n])
    }

    /** `_preorder(n)`: the node's own pair first, then its subtrees. */
    function PreorderFrom(ghost t: Tree, ghost p: int, n: int): (r: seq<(int, Color)>)
      reads this
      requires Linked(t, p, Lk()) && n == Root(t) && |color| == |key|
      requires forall j | j in Ids(t) :: 0 < j < |key|
      ensures r == Entries(PreOrder(t), key, color)
      decreases t
    {
      if n == NIL then []
      else
        assert t.Node? && n in Ids(t) && Ids(t.left) <= Ids(t) && Ids(t.right) <= Ids(t);
        PreOrderEntries(t.left, n, t.right, key, color);
        [(key[n], color[n])] + PreorderFrom(t.left, n, left[n]) + PreorderFrom(t.right, n, right[n])
    }

    /** `_postorder(n)`: both subtrees first, then the node's own pair. */
    function PostorderFrom(ghost t: Tree, ghost p: int, n: int): (r: seq<(int, Color)>)
      reads this
      requires Linked(t, p, Lk()) && n == Root(t) && |color| == |key|
      requires forall j | j in Ids(t) :: 0 < j < |key|
      ensures r == Entries(PostOrder(t), key, color)
      decreases t
    {
      if n == NIL then []
      else
        assert t.Node? && n in Ids(t) && Ids(t.left) <= Ids(t) && Ids(t.right) <= Ids(t);
        PostOrderEntries(t.left, n, t.right, key, color);
        PostorderFrom(t.left, n, left[n]) + PostorderFrom(t.right, n, right[n]) + [(key[n], color[n])]
    }

    /** `inorder()`: every node's (key, color) pair, keys in non-decreasing
        order, the keys being exactly those of the tree. */
    function Inorder(): (r: seq<(int, Color)>)
      reads this
      requires Valid()
      ensures |r| == |Keys()| && forall n | 0 <= n < |r| :: r[n].0 == Keys()[n]
      ensures forall m, n | 0 <= m < n < |r| :: r[m].0 <= r[n].0
      ensures r == Entries(InOrder(T), key, color)
    {
      EntriesKeys(InOrder(T), key, color);
      InorderFrom(T, NONE, root)
    }

    /** `preorder()`: the same pairs as `inorder()`, each as often, the
        root's first. */
    function Preorder(): (r: seq<(int, Color)>)
      reads this
      requires Valid()
      ensures multiset(r) == multiset(Inorder())
      ensures root != NIL ==> r != [] && r[0] == (key[root], color[root])
      ensures r == Entries(PreOrder(T), key, color)
    {
      PreOrderAgrees(T, key, color);
      PreorderFrom(T, NONE, root)
    }

    /** `postorder()`: the same pairs as `inorder()`, each as often, the
        root's last. */
    function Postorder(): (r: seq<(int, Color)>)
      reads this
      requires Valid()
      ensures multiset(r) == multiset(Inorder())
      ensures root != NIL ==> r != [] && r[|r| - 1] == (key[root], color[root])
      ensures r == Entries(PostOrder(T), key, color)
    {
      PostOrderAgrees(T, key, color);
      PostorderFrom(T, NONE, root)
    }

    /** Insert a new node with key `k`: descend as in a binary search tree,
        equal keys going right, hang a red leaf at the sentinel reached, and
        repair the coloring. */
    method Insert(k: int) returns (ghost rotations: nat)
      requires Valid() && IsRedBlack()
      modifies this
      ensures Valid() && IsRedBlack()
      ensures Keys() == InsertSorted(old(Keys()), k)
      ensures Ids(T) == old(Ids(T)) + {old(|key|)}
      ensures rotations <= 2
    {
      var z := NewNode(k);
      var par := NONE;
      var cur := root;
      ghost var ctx: seq<Frame> := [];
      ghost var t := T;
      while cur != NIL
        invariant Descent(T, ctx, t, cur, par, k, key)
        modifies {}
        decreases t
      {
        DescentStep(T, ctx, t, cur, par, k, root, key, color, Lk());
        par := cur;
        if k < key[cur] {
          ctx, t := [LeftOf(cur, t.right)] + ctx, t.left;
          cur := left[cur];
        } else {
          ctx, t := [RightOf(t.left, cur)] + ctx, t.right;
          cur := right[cur];
        }
      }
      DescentDone(T, ctx, t, par, k, root, key, color, Lk());
      Attach(T, ctx, par, z, k, root, key, color, Lk());
      // The links are rewritten in local copies and stored back at once.
      var L, R, P := left, right, parent;
      P := P[z := par];
      if par == NONE {
        root := z;
      } else if k < key[par] {
        L := L[par := z];
      } else {
        R := R[par := z];
      }
      assert Links(L, R, P) == AttachLinks(Lk(), z, par, par != NONE && k < key[par]);
      left, right, parent := L, R, P;
      T := Plug(ctx, Node(Nil, z, Nil));
      rotations := FixInsert(z);
    }

    /** Restore the red-black properties after the red node `z` was attached
        as a leaf: recolor upwards while z's parent is red, and finish with
        at most two rotations. */
    method FixInsert(z0: int) returns (ghost rotations: nat)
      requires FixState(T, z0, root, key, color, Lk())
      modifies this
      ensures Valid() && IsRedBlack()
      ensures InOrder(T) == old(InOrder(T)) && Ids(T) == old(Ids(T)) && key == old(key)
      ensures rotations <= 2
    {
      var z := z0;
      rotations := 0;
      while parent[z] != NONE && color[parent[z]] == Red
        invariant FixState(T, z, root, key, color, Lk())
        invariant InOrder(T) == old(InOrder(T)) && Ids(T) == old(Ids(T)) && key == old(key)
        invariant rotations <= 2
        invariant rotations > 0 ==> !(parent[z] != NONE && color[parent[z]] == Red)
        decreases |CtxOf(T, z)|
      {
        FixView(T, z, root, key, color, Lk());
        ghost var r;
        if parent[z] == left[parent[parent[z]]] {
          z, r := FixInsertLeft(z);
        } else {
          z, r := FixInsertRight(z);
        }
        rotations := rotations + r;
      }
      FixDone(T, z, root, key, color, Lk());
      color := color[root := Black];
    }

    /** One round of the repair loop when z's red parent is a left child:
        case 1 recolors and moves z up to the grandparent; cases 2 and 3
        rotate (at most twice) and leave z with a black parent. */
    method FixInsertLeft(z0: int) returns (z: int, ghost rotations: nat)
      requires FixState(T, z0, root, key, color, Lk())
      requires parent[z0] != NONE && IsRed(color, parent[z0])
      requires 0 <= parent[parent[z0]] < |left| && parent[z0] == left[parent[parent[z0]]]
      modifies this
      ensures FixState(T, z, root, key, color, Lk())
      ensures InOrder(T) == old(InOrder(T)) && Ids(T) == old(Ids(T)) && key == old(key)
      ensures |CtxOf(T, z)| < old(|CtxOf(T, z0)|)
      ensures rotations <= 2 && (rotations > 0 ==> !(parent[z] != NONE && color[parent[z]] == Red))
    {
      FixView(T, z0, root, key, color, Lk());
      z := z0;
      rotations := 0;
      var p := parent[z];
      var g := parent[p];
      var y := right[g];
      if color[y] == Red {
        Recolor(T, z, p, g, y, root, key, color, Lk());
        color := color[p := Black];
        color := color[y := Black];
        color := color[g := Red];
        z := g;
      } else {
        if z == right[p] {
          TriangleLeft(T, z, p, g, root, key, color, Lk());
          z := p;
          RotateLeft(z);
          rotations := rotations + 1;
          p := parent[z];
        }
        LineLeft(T, z, p, g, root, key, color, Lk());
        color := color[p := Black];
        color := color[g := Red];
        RotateRight(g);
        rotations := rotations + 1;
      }
    }

    /** Mirror of FixInsertLeft, for a parent that is a right child. */
    method FixInsertRight(z0: int) returns (z: int, ghost rotations: nat)
      requires FixState(T, z0, root, key, color, Lk())
      requires parent[z0] != NONE && IsRed(color, parent[z0])
      requires 0 <= parent[parent[z0]] < |left| && parent[z0] != left[parent[parent[z0]]]
      modifies this
      ensures FixState(T, z, root, key, color, Lk())
      ensures InOrder(T) == old(InOrder(T)) && Ids(T) == old(Ids(T)) && key == old(key)
      ensures |CtxOf(T, z)| < old(|CtxOf(T, z0)|)
      ensures rotations <= 2 && (rotations > 0 ==> !(parent[z] != NONE && color[parent[z]] == Red))
    {
      FixView(T, z0, root, key, color, Lk());
      z := z0;
      rotations := 0;
      var p := parent[z];
      var g := parent[p];
      var y := left[g];
      if color[y] == Red {
        Recolor(T, z, p, g, y, root, key, color, Lk());
        color := color[p := Black];
        color := color[y := Black];
        color := color[g := Red];
        z := g;
      } else {
        if z == left[p] {
          TriangleRight(T, z, p, g, root, key, color, Lk());
          z := p;
          RotateRight(z);
          rotations := rotations + 1;
          p := parent[z];
        }
        LineRight(T, z, p, g, root, key, color, Lk());
        color := color[p := Black];
        color := color[g := Red];
        RotateLeft(g);
        rotations := rotations + 1;
      }
    }
  
    /** Delete one node holding `k`, if any.  The node `z` found by search
        is spliced out when it has an empty child; otherwise its successor
        `y` (the leftmost node of its right subtree) is spliced out of its
        place and takes z's place and color.  When the node that left its
        place was black, the repair starts at `x`, the node that took it. */
    method Delete(k: int) returns (found: bool, ghost rotations: nat)
      requires Valid() && IsRedBlack()
      modifies this
      ensures Valid() && IsRedBlack()
      ensures found <==> k in old(Keys())
      ensures Keys() == RemoveFirst(old(Keys()), k)
      ensures Ids(T) <= old(Ids(T)) && key == old(key)
      ensures !found ==> T == old(T) && root == old(root) && color == old(color) && Lk() == old(Lk())
      ensures rotations <= 3
    {
      var z := Search(k);
      if z == NIL {
        // The source reports the missing value and leaves the tree alone.
        RemoveFirstAbsent(Keys(), k);
        found, rotations := false, 0;
        return;
      }
      found := true;
      ChildrenView(T, z, root, key, color, Lk());
      var x: int;
      var yOriginalColor := color[z];
      ghost var ctx: seq<Frame>, tx: Tree;
      if left[z] == NIL {
        x := right[z];
        ctx, tx := SpliceOut(z, x);
      } else if right[z] == NIL {
        x := left[z];
        ctx, tx := SpliceOut(z, x);
      } else {
        x, yOriginalColor, ctx, tx := ReplaceBySuccessor(z);
      }
      if yOriginalColor == Black {
        rotations := FixDelete(x, ctx, tx);
      } else {
        rotations := 0;
      }
    }

    /** `transplant(z, x)` for a node z with an empty child and other child
        x: the tree loses z, and when z was black the subtree at x is one
        black node short. */
    method SpliceOut(z: int, x: int) returns (ghost ctx: seq<Frame>, ghost tx: Tree)
      requires Valid() && IsRedBlack() && z in Ids(T)
      requires (left[z] == NIL && x == right[z]) || (right[z] == NIL && x == left[z])
      modifies this
      ensures Valid() && key == old(key) && color == old(color) && Ids(T) <= old(Ids(T))
      ensures Keys() == RemoveFirst(old(Keys()), key[z])
      ensures old(color[z]) == Black ==> DelState(T, ctx, tx, x, root, key, color, Lk())
      ensures old(color[z]) != Black ==> IsRedBlack()
    {
      ChildrenView(T, z, root, key, color, Lk());
      ghost var s := SubAt(T, z);
      tx := if left[z] == NIL then s.right else s.left;
      SpliceState(T, z, tx, root, key, color, Lk());
      ctx := CtxOf(T, z);
      IdsPlug(ctx, tx);
      IdsPlug(ctx, s);
      SubAtSound(T, z);
      Transplant(z, x);
      T := Plug(ctx, tx);
    }

    /** The two-child case: `y`, the minimum of z's right subtree, is
        spliced out of its place (its right child `x` takes it) and put in
        z's place with z's color.  `yOriginalColor` is y's color before. */
    method ReplaceBySuccessor(z: int)
      returns (x: int, yOriginalColor: Color, ghost ctx: seq<Frame>, ghost tx: Tree)
      requires Valid() && IsRedBlack() && z in Ids(T) && left[z] != NIL && right[z] != NIL
      modifies this
      ensures Valid() && key == old(key) && Ids(T) <= old(Ids(T))
      ensures Keys() == RemoveFirst(old(Keys()), key[z])
      ensures yOriginalColor == Black ==> DelState(T, ctx, tx, x, root, key, color, Lk())
      ensures yOriginalColor != Black ==> IsRedBlack()
    {
      ghost var L0 := Lk();
      var y;
      ghost var zctx, a, spine, cy;
      y, zctx, a, spine, cy := Successor(z);
      SuccessorLinked(zctx, a, z, spine, y, cy, L0);
      yOriginalColor := color[y];
      x := right[y];
      RelinkSuccessor(z, y, x, Plug(zctx, Node(a, y, Plug(spine, cy))));
      SuccessorState(zctx, a, z, spine, y, cy, old(root), key, old(color), L0, root, Lk());
      SuccessorShape(zctx, a, z, spine, y, cy);
      ctx, tx := spine + ([RightOf(a, y)] + zctx), cy;
    }

    /** `y = minimum(z.right)` for a node z with two children, with where y
        sits: at the bottom of the left spine of z's right subtree, with no
        left child, its parent being z exactly when y is z's right child. */
    method Successor(z: int)
      returns (y: int, ghost zctx: seq<Frame>, ghost a: Tree, ghost spine: seq<Frame>, ghost cy: Tree)
      requires Valid() && z in Ids(T) && left[z] != NIL && right[z] != NIL
      ensures a.Node? && Before(spine) == [] && T == Plug(zctx, Node(a, z, Plug(spine, Node(Nil, y, cy))))
      ensures 0 < z < |key| && 0 < y < |key| && y != z && right[y] == Root(cy) && 0 <= Root(cy) < |key|
      ensures NONE <= parent[z] < |key| && parent[z] != z && (parent[z] == NONE <==> zctx == [])
      ensures 0 <= left[z] < |key| && NONE < parent[y] < |key| && (parent[y] == z <==> spine == [])
    {
      TwoChildView(T, z, root, key, color, Lk());
      zctx, a := CtxOf(T, z), SubAt(T, z).left;
      ghost var b := SubAt(T, z).right;
      SuccessorSpot(zctx, a, z, b, Lk());
      spine, cy := LeftSpine(b), LeftmostSub(b).right;
      y := Minimum(right[z]);
    }

    /** The writes of the two-child case, in the source's order: when y is
        z's right child only `x.parent = y`, otherwise `transplant(y, x)`,
        `y.right = z.right`, `y.right.parent = y`; then `transplant(z, y)`,
        `y.left = z.left`, `y.left.parent = y`, `y.color = z.color`.  The
        ghost shape becomes `t'`. */
    method RelinkSuccessor(z: int, y: int, x: int, ghost t': Tree)
      requires |left| == |parent| && |right| == |parent| && |color| == |parent|
      requires 0 < z < |parent| && 0 < y < |parent| && 0 <= x < |parent| && y != z && x != z
      requires x == right[y] && NONE < parent[y] < |parent|
      requires NONE <= parent[z] < |parent| && parent[z] != z && 0 <= left[z] < |parent|
      requires parent[y] != z ==>
        var lk1 := TransplantLinks(Lk(), y, x);
        NONE <= lk1.parent[z] < |parent| && lk1.parent[z] != z &&
        0 <= lk1.left[z] < |parent| && 0 <= lk1.right[z] < |parent| && lk1.right[z] != z
      modifies this
      ensures Lk() == SuccessorLinks(old(Lk()), z, y, x)
      ensures root == (if old(parent[z]) == NONE then y else old(root))
      ensures key == old(key) && color == old(color)[y := old(color)[z]] && T == t'
    {
      if parent[y] == z {
        parent := parent[x := y];
      } else {
        Transplant(y, right[y]);
        right := right[y := right[z]];
        parent := parent[right[y] := y];
      }
      Transplant(z, y);
      left := left[y := left[z]];
      parent := parent[left[y] := y];
      color := color[y := color[z]];
      T := t';
    }

    /** Restore the red-black properties after a black node left the tree:
        `x` heads the subtree that is one black node short (the ghost `ctx0`
        and `tx0` say where it sits).  While x is a black non-root node the
        deficit is moved up or removed with at most three rotations in all;
        then x is painted black. */
    method FixDelete(x0: int, ghost ctx0: seq<Frame>, ghost tx0: Tree) returns (ghost rotations: nat)
      requires DelState(T, ctx0, tx0, x0, root, key, color, Lk())
      modifies this
      ensures Valid() && IsRedBlack()
      ensures InOrder(T) == old(InOrder(T)) && Ids(T) == old(Ids(T)) && key == old(key)
      ensures rotations <= 3
    {
      var x := x0;
      ghost var ctx, tx := ctx0, tx0;
      rotations := 0;
      while x != root && color[x] == Black
        invariant DelState(T, ctx, tx, x, root, key, color, Lk())
        invariant InOrder(T) == old(InOrder(T)) && Ids(T) == old(Ids(T)) && key == old(key)
        invariant rotations <= 3
        invariant rotations > 0 ==> x == root || IsRed(color, x)
        decreases |ctx| + Bk(color, x)
      {
        DelView(T, ctx, tx, x, root, key, color, Lk());
        ghost var r;
        if x == left[parent[x]] {
          x, ctx, tx, r := FixDeleteLeft(x, ctx, tx);
        } else {
          x, ctx, tx, r := FixDeleteRight(x, ctx, tx);
        }
        rotations := rotations + r;
      }
      DelDone(T, ctx, tx, x, root, key, color, Lk());
      color := color[x := Black];
    }

    /** One round of the repair when x is a left child.  Case 1 (red
        sibling) rotates so that the sibling is black; case 2 (both nephews
        black) moves the deficit to the parent; otherwise case 3 (only the
        near nephew red) rotates at the sibling and case 4 rotates at the
        parent and ends the repair at the root. */
    method FixDeleteLeft(x0: int, ghost ctx0: seq<Frame>, ghost tx0: Tree)
      returns (x: int, ghost ctx: seq<Frame>, ghost tx: Tree, ghost rotations: nat)
      requires DelState(T, ctx0, tx0, x0, root, key, color, Lk())
      requires x0 != root && !IsRed(color, x0)
      requires 0 <= parent[x0] < |left| && x0 == left[parent[x0]]
      modifies this
      ensures DelState(T, ctx, tx, x, root, key, color, Lk())
      ensures InOrder(T) == old(InOrder(T)) && Ids(T) == old(Ids(T)) && key == old(key)
      ensures |ctx| + Bk(color, x) < |ctx0| + old(Bk(color, x0))
      ensures rotations <= 3 && (rotations > 0 ==> x == root || IsRed(color, x))
    {
      DelView(T, ctx0, tx0, x0, root, key, color, Lk());
      x, ctx, tx := x0, ctx0, tx0;
      rotations := 0;
      var w := right[parent[x]];
      if color[w] == Red {
        ctx := RotateRedSiblingLeft(x, ctx, tx);
        rotations := rotations + 1;
      }
      ghost var r;
      x, ctx, tx, r := BlackSiblingLeft(x, ctx, tx);
      rotations := rotations + r;
    }

    /** The rest of a round on the left, once x's sibling is black: case 2
        when both nephews are black, else cases 3 and 4. */
    method BlackSiblingLeft(x0: int, ghost ctx0: seq<Frame>, ghost tx0: Tree)
      returns (x: int, ghost ctx: seq<Frame>, ghost tx: Tree, ghost rotations: nat)
      requires DelState(T, ctx0, tx0, x0, root, key, color, Lk()) && !IsRed(color, x0)
      requires ctx0 != [] && ctx0[0].LeftOf? && ctx0[0].sib.Node? && !IsRed(color, ctx0[0].sib.id)
      modifies this
      ensures DelState(T, ctx, tx, x, root, key, color, Lk())
      ensures InOrder(T) == old(InOrder(T)) && Ids(T) == old(Ids(T)) && key == old(key)
      ensures rotations <= 2
      ensures (rotations > 0 && x == root && ctx == []) ||
              (rotations == 0 && |ctx| == |ctx0| - 1 && IsRed(color, x) == old(IsRed(color, ctx0[0].pid)))
    {
      DelView(T, ctx0, tx0, x0, root, key, color, Lk());
      x, ctx, tx := x0, ctx0, tx0;
      rotations := 0;
      var w := right[parent[x]];
      if color[left[w]] == Black && color[right[w]] == Black {
        BlackNephews(T, ctx, tx, x, root, key, color, Lk());
        color := color[w := Red];
        x := parent[x];
        ctx, tx := ctx[1..], Fill(ctx[0], tx);
      } else {
        if color[right[w]] == Black {
          ctx := RotateNearNephewLeft(x, ctx, tx);
          rotations := rotations + 1;
        }
        RotateFarNephewLeft(x, ctx, tx);
        rotations := rotations + 1;
        x := root;
        ctx, tx := [], T;
      }
    }

    /** Case 1 on the left: the red sibling turns black, the parent red, and
        a left rotation at the parent gives x a black sibling. */
    method RotateRedSiblingLeft(x: int, ghost ctx0: seq<Frame>, ghost tx: Tree) returns (ghost ctx: seq<Frame>)
      requires DelState(T, ctx0, tx, x, root, key, color, Lk()) && !IsRed(color, x)
      requires ctx0 != [] && ctx0[0].LeftOf? && ctx0[0].sib.Node? && IsRed(color, ctx0[0].sib.id)
      modifies this
      ensures DelState(T, ctx, tx, x, root, key, color, Lk()) && !IsRed(color, x)
      ensures |ctx| == |ctx0| + 1 && ctx[0].LeftOf? && IsRed(color, ctx[0].pid)
      ensures ctx[0].sib.Node? && !IsRed(color, ctx[0].sib.id)
      ensures InOrder(T) == old(InOrder(T)) && Ids(T) == old(Ids(T)) && key == old(key)
    {
      DelView(T, ctx0, tx, x, root, key, color, Lk());
      ghost var W := ctx0[0].sib;
      RedSiblingLeft(T, ctx0, tx, x, root, key, color, Lk());
      var w := right[parent[x]];
      color := color[w := Black];
      color := color[parent[x] := Red];
      RotateLeft(parent[x]);
      ctx := [LeftOf(ctx0[0].pid, W.left)] + ([LeftOf(W.id, W.right)] + ctx0[1..]);
    }

    /** Case 3 on the left: the near nephew turns black, the sibling red,
        and a right rotation at the sibling makes the far nephew red. */
    method RotateNearNephewLeft(x: int, ghost ctx0: seq<Frame>, ghost tx: Tree) returns (ghost ctx: seq<Frame>)
      requires DelState(T, ctx0, tx, x, root, key, color, Lk()) && !IsRed(color, x)
      requires ctx0 != [] && ctx0[0].LeftOf? && ctx0[0].sib.Node? && !IsRed(color, ctx0[0].sib.id)
      requires RedT(ctx0[0].sib.left, color) && !RedT(ctx0[0].sib.right, color)
      modifies this
      ensures DelState(T, ctx, tx, x, root, key, color, Lk()) && !IsRed(color, x)
      ensures |ctx| == |ctx0| && ctx[0].LeftOf?
      ensures ctx[0].sib.Node? && !IsRed(color, ctx[0].sib.id) && RedT(ctx[0].sib.right, color)
      ensures InOrder(T) == old(InOrder(T)) && Ids(T) == old(Ids(T)) && key == old(key)
    {
      DelView(T, ctx0, tx, x, root, key, color, Lk());
      ghost var W := ctx0[0].sib;
      NearNephewLeft(T, ctx0, tx, x, root, key, color, Lk());
      var w := right[parent[x]];
      color := color[left[w] := Black];
      color := color[w := Red];
      RotateRight(w);
      ctx := [LeftOf(ctx0[0].pid, RotR(W))] + ctx0[1..];
    }

    /** Case 4 on the left: the sibling takes the parent's color, the parent
        and the far nephew turn black, and a left rotation at the parent
        removes the deficit. */
    method RotateFarNephewLeft(x: int, ghost ctx: seq<Frame>, ghost tx: Tree)
      requires DelState(T, ctx, tx, x, root, key, color, Lk()) && !IsRed(color, x)
      requires ctx != [] && ctx[0].LeftOf? && ctx[0].sib.Node? && !IsRed(color, ctx[0].sib.id)
      requires RedT(ctx[0].sib.right, color)
      modifies this
      ensures DelState(T, [], T, root, root, key, color, Lk())
      ensures InOrder(T) == old(InOrder(T)) && Ids(T) == old(Ids(T)) && key == old(key)
    {
      DelView(T, ctx, tx, x, root, key, color, Lk());
      FarNephewLeft(T, ctx, tx, x, root, key, color, Lk());
      var w := right[parent[x]];
      color := color[w := color[parent[x]]];
      color := color[parent[x] := Black];
      color := color[right[w] := Black];
      RotateLeft(parent[x]);
      DelStateTop(T, root, key, color, Lk());
    }

    /** Mirror of FixDeleteLeft, for an x that is a right child. */
    method FixDeleteRight(x0: int, ghost ctx0: seq<Frame>, ghost tx0: Tree)
      returns (x: int, ghost ctx: seq<Frame>, ghost tx: Tree, ghost rotations: nat)
      requires DelState(T, ctx0, tx0, x0, root, key, color, Lk())
      requires x0 != root && !IsRed(color, x0)
      requires 0 <= parent[x0] < |left| && x0 != left[parent[x0]]
      modifies this
      ensures DelState(T, ctx, tx, x, root, key, color, Lk())
      ensures InOrder(T) == old(InOrder(T)) && Ids(T) == old(Ids(T)) && key == old(key)
      ensures |ctx| + Bk(color, x) < |ctx0| + old(Bk(color, x0))
      ensures rotations <= 3 && (rotations > 0 ==> x == root || IsRed(color, x))
    {
      DelView(T, ctx0, tx0, x0, root, key, color, Lk());
      x, ctx, tx := x0, ctx0, tx0;
      rotations := 0;
      var w := left[parent[x]];
      if color[w] == Red {
        ctx := RotateRedSiblingRight(x, ctx, tx);
        rotations := rotations + 1;
      }
      ghost var r;
      x, ctx, tx, r := BlackSiblingRight(x, ctx, tx);
      rotations := rotations + r;
    }

    /** The rest of a round on the right, once x's sibling is black: case 2
        when both nephews are black, else cases 3 and 4. */
    method BlackSiblingRight(x0: int, ghost ctx0: seq<Frame>, ghost tx0: Tree)
      returns (x: int, ghost ctx: seq<Frame>, ghost tx: Tree, ghost rotations: nat)
      requires DelState(T, ctx0, tx0, x0, root, key, color, Lk()) && !IsRed(color, x0)
      requires ctx0 != [] && ctx0[0].RightOf? && ctx0[0].sib.Node? && !IsRed(color, ctx0[0].sib.id)
      modifies this
      ensures DelState(T, ctx, tx, x, root, key, color, Lk())
      ensures InOrder(T) == old(InOrder(T)) && Ids(T) == old(Ids(T)) && key == old(key)
      ensures rotations <= 2
      ensures (rotations > 0 && x == root && ctx == []) ||
              (rotations == 0 && |ctx| == |ctx0| - 1 && IsRed(color, x) == old(IsRed(color, ctx0[0].pid)))
    {
      DelView(T, ctx0, tx0, x0, root, key, color, Lk());
      x, ctx, tx := x0, ctx0, tx0;
      rotations := 0;
      var w := left[parent[x]];
      if color[right[w]] == Black && color[left[w]] == Black {
        BlackNephews(T, ctx, tx, x, root, key, color, Lk());
        color := color[w := Red];
        x := parent[x];
        ctx, tx := ctx[1..], Fill(ctx[0], tx);
      } else {
        if color[left[w]] == Black {
          ctx := RotateNearNephewRight(x, ctx, tx);
          rotations := rotations + 1;
        }
        RotateFarNephewRight(x, ctx, tx);
        rotations := rotations + 1;
        x := root;
        ctx, tx := [], T;
      }
    }

    /** Mirror of RotateRedSiblingLeft. */
    method RotateRedSiblingRight(x: int, ghost ctx0: seq<Frame>, ghost tx: Tree) returns (ghost ctx: seq<Frame>)
      requires DelState(T, ctx0, tx, x, root, key, color, Lk()) && !IsRed(color, x)
      requires ctx0 != [] && ctx0[0].RightOf? && ctx0[0].sib.Node? && IsRed(color, ctx0[0].sib.id)
      modifies this
      ensures DelState(T, ctx, tx, x, root, key, color, Lk()) && !IsRed(color, x)
      ensures |ctx| == |ctx0| + 1 && ctx[0].RightOf? && IsRed(color, ctx[0].pid)
      ensures ctx[0].sib.Node? && !IsRed(color, ctx[0].sib.id)
      ensures InOrder(T) == old(InOrder(T)) && Ids(T) == old(Ids(T)) && key == old(key)
    {
      DelView(T, ctx0, tx, x, root, key, color, Lk());
      ghost var W := ctx0[0].sib;
      RedSiblingRight(T, ctx0, tx, x, root, key, color, Lk());
      var w := left[parent[x]];
      color := color[w := Black];
      color := color[parent[x] := Red];
      RotateRight(parent[x]);
      ctx := [RightOf(W.right, ctx0[0].pid)] + ([RightOf(W.left, W.id)] + ctx0[1..]);
    }

    /** Mirror of RotateNearNephewLeft. */
    method RotateNearNephewRight(x: int, ghost ctx0: seq<Frame>, ghost tx: Tree) returns (ghost ctx: seq<Frame>)
      requires DelState(T, ctx0, tx, x, root, key, color, Lk()) && !IsRed(color, x)
      requires ctx0 != [] && ctx0[0].RightOf? && ctx0[0].sib.Node? && !IsRed(color, ctx0[0].sib.id)
      requires RedT(ctx0[0].sib.right, color) && !RedT(ctx0[0].sib.left, color)
      modifies this
      ensures DelState(T, ctx, tx, x, root, key, color, Lk()) && !IsRed(color, x)
      ensures |ctx| == |ctx0| && ctx[0].RightOf?
      ensures ctx[0].sib.Node? && !IsRed(color, ctx[0].sib.id) && RedT(ctx[0].sib.left, color)
      ensures InOrder(T) == old(InOrder(T)) && Ids(T) == old(Ids(T)) && key == old(key)
    {
      DelView(T, ctx0, tx, x, root, key, color, Lk());
      ghost var W := ctx0[0].sib;
      NearNephewRight(T, ctx0, tx, x, root, key, color, Lk());
      var w := left[parent[x]];
      color := color[right[w] := Black];
      color := color[w := Red];
      RotateLeft(w);
      ctx := [RightOf(RotL(W), ctx0[0].pid)] + ctx0[1..];
    }

    /** Mirror of RotateFarNephewLeft. */
    method RotateFarNephewRight(x: int, ghost ctx: seq<Frame>, ghost tx: Tree)
      requires DelState(T, ctx, tx, x, root, key, color, Lk()) && !IsRed(color, x)
      requires ctx != [] && ctx[0].RightOf? && ctx[0].sib.Node? && !IsRed(color, ctx[0].sib.id)
      requires RedT(ctx[0].sib.left, color)
      modifies this
      ensures DelState(T, [], T, root, root, key, color, Lk())
      ensures InOrder(T) == old(InOrder(T)) && Ids(T) == old(Ids(T)) && key == old(key)
    {
      DelView(T, ctx, tx, x, root, key, color, Lk());
      FarNephewRight(T, ctx, tx, x, root, key, color, Lk());
      var w := left[parent[x]];
      color := color[w := color[parent[x]]];
      color := color[parent[x] := Black];
      color := color[left[w] := Black];
      RotateRight(parent[x]);
      DelStateTop(T, root, key, color, Lk());
    }
  }
}
