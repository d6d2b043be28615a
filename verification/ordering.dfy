/** What sortedness of the keys in symmetric order says about one node and
    its subtrees. */
module TreeOrder {
  import opened Shapes
  import opened KeyOrder

  lemma {:induction false} KeySeqMember(ids: seq<int>, key: seq<int>, j: int)
    requires j in ids
    ensures KeyOf(key, j) in KeySeq(ids, key)
  {
    var p :| 0 <= p < |ids| && ids[p] == j;
    KeySeqAt(ids, key, p);
  }

  /** In a sorted concatenation, both parts are sorted and every key of the
      first part is at most every key of the second. */
  lemma SortedSplit(a: seq<int>, b: seq<int>, key: seq<int>)
    requires Sorted(KeySeq(a + b, key))
    ensures Sorted(KeySeq(a, key)) && Sorted(KeySeq(b, key))
    ensures forall i, j | i in a && j in b :: KeyOf(key, i) <= KeyOf(key, j)
  {
    KeySeqAppend(a, b, key);
    var s := KeySeq(a + b, key);
    assert KeySeq(a, key) == s[..|a|];
    assert KeySeq(b, key) == s[|a|..];
    forall i, j | i in a && j in b
      ensures KeyOf(key, i) <= KeyOf(key, j)
    {
      var p :| 0 <= p < |a| && a[p] == i;
      var q :| 0 <= q < |b| && b[q] == j;
      KeySeqAt(a + b, key, p);
      KeySeqAt(a + b, key, |a| + q);
    }
  }

  /** Keys of a node's left subtree are at most its key, keys of its right
      subtree at least its key. */
  lemma NodeOrder(t: Tree, key: seq<int>)
    requires t.Node? && Sorted(KeySeq(InOrder(t), key))
    ensures Sorted(KeySeq(InOrder(t.left), key)) && Sorted(KeySeq(InOrder(t.right), key))
    ensures forall j | j in InOrder(t.left) :: KeyOf(key, j) <= KeyOf(key, t.id)
    ensures forall j | j in InOrder(t.right) :: KeyOf(key, t.id) <= KeyOf(key, j)
  {
    var l, r := InOrder(t.left), InOrder(t.right);
    SortedSplit(l + [t.id], r, key);
    SortedSplit(l, [t.id], key);
    assert t.id in l + [t.id];
  }

  lemma SubOrder(ctx: seq<Frame>, t: Tree, key: seq<int>)
    requires Sorted(KeySeq(InOrder(Plug(ctx, t)), key))
    ensures Sorted(KeySeq(InOrder(t), key))
  {
    InOrderPlug(ctx, t);
    SortedSplit(Before(ctx) + InOrder(t), After(ctx), key);
    SortedSplit(Before(ctx), InOrder(t), key);
  }

  /** The leftmost node comes first in symmetric order, so on sorted keys
      it holds a smallest key. */
  lemma {:induction false} LeftmostFirst(t: Tree)
    requires t.Node?
    ensures InOrder(t) != [] && InOrder(t)[0] == Leftmost(t)
  {
    if t.left.Node? {
      LeftmostFirst(t.left);
    }
  }

  lemma LeftmostMin(t: Tree, key: seq<int>)
    requires t.Node? && Sorted(KeySeq(InOrder(t), key))
    ensures Leftmost(t) in Ids(t)
    ensures forall j | j in Ids(t) :: KeyOf(key, Leftmost(t)) <= KeyOf(key, j)
  {
    LeftmostFirst(t);
    OrdersHaveIds(t);
    var io := InOrder(t);
    KeySeqAt(io, key, 0);
    forall j | j in Ids(t)
      ensures KeyOf(key, Leftmost(t)) <= KeyOf(key, j)
    {
      var p :| 0 <= p < |io| && io[p] == j;
      KeySeqAt(io, key, p);
    }
  }
}
