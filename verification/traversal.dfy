/** What the three traversals report: for each visited node, its key and
    its color, in the order the visit reaches it. */
module Traversal {
  import opened Shapes
  import opened KeyOrder

  /** The pair reported for arena index `i`. */
  function Entry(key: seq<int>, color: seq<Color>, i: int): (int, Color)
  {
    (KeyOf(key, i), if 0 <= i < |color| then color[i] else Black)
  }

  /** The pairs reported for the indices `ids`, visited in that order. */
  function Entries(ids: seq<int>, key: seq<int>, color: seq<Color>): (r: seq<(int, Color)>)
    ensures |r| == |ids|
  {
    if ids == [] then [] else [Entry(key, color, ids[0])] + Entries(ids[1..], key, color)
  }

  /** The n-th pair reported is that of the n-th index visited. */
  lemma {:induction false} EntriesAt(ids: seq<int>, key: seq<int>, color: seq<Color>, n: int)
    requires 0 <= n < |ids|
    ensures Entries(ids, key, color)[n] == Entry(key, color, ids[n])
  {
    if n > 0 {
      EntriesAt(ids[1..], key, color, n - 1);
    }
  }

  /** Reporting two visits one after the other reports their pairs one
      after the other. */
  lemma {:induction false} EntriesAppend(a: seq<int>, b: seq<int>, key: seq<int>, color: seq<Color>)
    ensures Entries(a + b, key, color) == Entries(a, key, color) + Entries(b, key, color)
  {
    if a == [] {
      assert a + b == b;
    } else {
      assert (a + b)[1..] == a[1..] + b;
      EntriesAppend(a[1..], b, key, color);
    }
  }

  /** The keys a traversal reports are the keys of the visited indices. */
  lemma EntriesKeys(ids: seq<int>, key: seq<int>, color: seq<Color>)
    ensures forall n | 0 <= n < |ids| :: Entries(ids, key, color)[n].0 == KeySeq(ids, key)[n]
  {
    forall n | 0 <= n < |ids|
      ensures Entries(ids, key, color)[n].0 == KeySeq(ids, key)[n]
    {
      EntriesAt(ids, key, color, n);
      KeySeqAt(ids, key, n);
    }
  }

  /** The pairs of a subtree in symmetric order, from those of its two
      children. */
  lemma InOrderEntries(l: Tree, i: int, r: Tree, key: seq<int>, color: seq<Color>)
    ensures Entries(InOrder(Node(l, i, r)), key, color) ==
            Entries(InOrder(l), key, color) + [Entry(key, color, i)] + Entries(InOrder(r), key, color)
  {
    EntriesAppend(InOrder(l) + [i], InOrder(r), key, color);
    EntriesAppend(InOrder(l), [i], key, color);
  }

  /** The pairs of a subtree in pre-order, from those of its children. */
  lemma PreOrderEntries(l: Tree, i: int, r: Tree, key: seq<int>, color: seq<Color>)
    ensures Entries(PreOrder(Node(l, i, r)), key, color) ==
            [Entry(key, color, i)] + Entries(PreOrder(l), key, color) + Entries(PreOrder(r), key, color)
  {
    EntriesAppend([i] + PreOrder(l), PreOrder(r), key, color);
    EntriesAppend([i], PreOrder(l), key, color);
  }

  /** The pairs of a subtree in post-order, from those of its children. */
  lemma PostOrderEntries(l: Tree, i: int, r: Tree, key: seq<int>, color: seq<Color>)
    ensures Entries(PostOrder(Node(l, i, r)), key, color) ==
            Entries(PostOrder(l), key, color) + Entries(PostOrder(r), key, color) + [Entry(key, color, i)]
  {
    EntriesAppend(PostOrder(l) + PostOrder(r), [i], key, color);
    EntriesAppend(PostOrder(l), PostOrder(r), key, color);
  }

  /** Pre-order reports the same pairs as symmetric order, each as often. */
  lemma {:induction false} PreOrderAgrees(t: Tree, key: seq<int>, color: seq<Color>)
    ensures multiset(Entries(PreOrder(t), key, color)) == multiset(Entries(InOrder(t), key, color))
  {
    if t.Node? {
      var l, i, r := t.left, t.id, t.right;
      PreOrderAgrees(l, key, color);
      PreOrderAgrees(r, key, color);
      InOrderEntries(l, i, r, key, color);
      PreOrderEntries(l, i, r, key, color);
      var e := [Entry(key, color, i)];
      var il, ir := Entries(InOrder(l), key, color), Entries(InOrder(r), key, color);
      var pl, pr := Entries(PreOrder(l), key, color), Entries(PreOrder(r), key, color);
      assert multiset(il + e + ir) == multiset(il) + multiset(e) + multiset(ir);
      assert multiset(e + pl + pr) == multiset(e) + multiset(pl) + multiset(pr);
    }
  }

  /** Post-order reports the same pairs as symmetric order, each as often. */
  lemma {:induction false} PostOrderAgrees(t: Tree, key: seq<int>, color: seq<Color>)
    ensures multiset(Entries(PostOrder(t), key, color)) == multiset(Entries(InOrder(t), key, color))
  {
    if t.Node? {
      var l, i, r := t.left, t.id, t.right;
      PostOrderAgrees(l, key, color);
      PostOrderAgrees(r, key, color);
      InOrderEntries(l, i, r, key, color);
      PostOrderEntries(l, i, r, key, color);
      var e := [Entry(key, color, i)];
      var il, ir := Entries(InOrder(l), key, color), Entries(InOrder(r), key, color);
      var ql, qr := Entries(PostOrder(l), key, color), Entries(PostOrder(r), key, color);
      assert multiset(il + e + ir) == multiset(il) + multiset(e) + multiset(ir);
      assert multiset(ql + qr + e) == multiset(ql) + multiset(qr) + multiset(e);
    }
  }
}
