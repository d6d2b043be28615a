/** Key sequences read off a tree in symmetric order, and the two edits
    that insertion and deletion make to them. */
module KeyOrder {

  function KeyOf(key: seq<int>, i: int): int
  {
    if 0 <= i < |key| then key[i] else 0
  }

  /** The keys of the given arena indices, in that order. */
  function KeySeq(ids: seq<int>, key: seq<int>): (r: seq<int>)
    ensures |r| == |ids|
  {
    if ids == [] then [] else [KeyOf(key, ids[0])] + KeySeq(ids[1..], key)
  }

  lemma {:induction false} KeySeqAt(ids: seq<int>, key: seq<int>, n: int)
    requires 0 <= n < |ids|
    ensures KeySeq(ids, key)[n] == KeyOf(key, ids[n])
  {
    if n > 0 {
      KeySeqAt(ids[1..], key, n - 1);
    }
  }

  predicate Sorted(s: seq<int>)
  {
    forall i, j | 0 <= i < j < |s| :: s[i] <= s[j]
  }

  /** `s` with `k` inserted after every leading element not greater than `k`:
      on a sorted sequence, ties go to the right of the equal keys. */
  function InsertSorted(s: seq<int>, k: int): seq<int>
  {
    if s == [] then [k]
    else if k < s[0] then [k] + s
    else [s[0]] + InsertSorted(s[1..], k)
  }

  /** `s` without its first occurrence of `k` (unchanged if there is none). */
  function RemoveFirst(s: seq<int>, k: int): seq<int>
  {
    if s == [] then []
    else if s[0] == k then s[1..]
    else [s[0]] + RemoveFirst(s[1..], k)
  }

  lemma {:induction false} KeySeqAppend(a: seq<int>, b: seq<int>, key: seq<int>)
    ensures KeySeq(a + b, key) == KeySeq(a, key) + KeySeq(b, key)
  {
    if a == [] {
      assert a + b == b;
    } else {
      assert (a + b)[1..] == a[1..] + b;
      KeySeqAppend(a[1..], b, key);
    }
  }

  lemma {:induction false} KeySeqFrame(ids: seq<int>, key: seq<int>, key': seq<int>)
    requires forall n | 0 <= n < |ids| :: KeyOf(key, ids[n]) == KeyOf(key', ids[n])
    ensures KeySeq(ids, key') == KeySeq(ids, key)
  {
    if ids != [] {
      assert KeyOf(key, ids[0]) == KeyOf(key', ids[0]);
      assert forall n | 0 <= n < |ids[1..]| :: ids[1..][n] == ids[n + 1];
      KeySeqFrame(ids[1..], key, key');
    }
  }

  /** Inserting between the keys not greater than `k` and the keys greater
      than `k` is what `InsertSorted` does. */
  lemma {:induction false} InsertSortedSplit(a: seq<int>, b: seq<int>, k: int)
    requires forall n | 0 <= n < |a| :: a[n] <= k
    requires forall n | 0 <= n < |b| :: k < b[n]
    ensures InsertSorted(a + b, k) == a + [k] + b
  {
    if a == [] {
      assert a + b == b;
    } else {
      assert (a + b)[0] == a[0];
      assert (a + b)[1..] == a[1..] + b;
      InsertSortedSplit(a[1..], b, k);
    }
  }

  lemma {:induction false} InsertSortedBound(s: seq<int>, k: int, lo: int)
    requires lo <= k && forall n | 0 <= n < |s| :: lo <= s[n]
    ensures forall n | 0 <= n < |InsertSorted(s, k)| :: lo <= InsertSorted(s, k)[n]
  {
    if s != [] && k >= s[0] {
      InsertSortedBound(s[1..], k, lo);
    }
  }

  lemma {:induction false} InsertSortedCount(s: seq<int>, k: int)
    ensures multiset(InsertSorted(s, k)) == multiset(s) + multiset{k}
    ensures |InsertSorted(s, k)| == |s| + 1
  {
    if s != [] {
      assert s == [s[0]] + s[1..];
      if k >= s[0] {
        InsertSortedCount(s[1..], k);
      }
    }
  }

  lemma {:induction false} InsertSortedKeepsOrder(s: seq<int>, k: int)
    requires Sorted(s)
    ensures Sorted(InsertSorted(s, k))
    ensures multiset(InsertSorted(s, k)) == multiset(s) + multiset{k}
    ensures |InsertSorted(s, k)| == |s| + 1
  {
    InsertSortedCount(s, k);
    if s != [] {
      var out := InsertSorted(s, k);
      if k >= s[0] {
        var r := InsertSorted(s[1..], k);
        assert Sorted(s[1..]);
        InsertSortedKeepsOrder(s[1..], k);
        InsertSortedBound(s[1..], k, s[0]);
        assert out == [s[0]] + r;
        forall i, j | 0 <= i < j < |out|
          ensures out[i] <= out[j]
        {
          assert out[j] == r[j - 1];
          if i > 0 {
            assert out[i] == r[i - 1];
          }
        }
      } else {
        assert out == [k] + s;
        forall i, j | 0 <= i < j < |out|
          ensures out[i] <= out[j]
        {
          assert out[j] == s[j - 1];
          if i > 0 {
            assert out[i] == s[i - 1];
          }
        }
      }
    }
  }

  /** On a sorted sequence, removing any occurrence of `k` gives the same
      result as removing the first one. */
  lemma {:induction false} RemoveAtSorted(s: seq<int>, i: int, k: int)
    requires Sorted(s) && 0 <= i < |s| && s[i] == k
    ensures s[..i] + s[i + 1..] == RemoveFirst(s, k)
  {
    if s[0] == k {
      assert forall m | 0 <= m <= i :: s[m] == k;
    } else {
      RemoveAtSorted(s[1..], i - 1, k);
      assert s[..i] == [s[0]] + s[1..][..i - 1];
      assert s[i + 1..] == s[1..][i..];
    }
  }

  lemma {:induction false} RemoveFirstAbsent(s: seq<int>, k: int)
    requires k !in s
    ensures RemoveFirst(s, k) == s
  {
    if s != [] {
      RemoveFirstAbsent(s[1..], k);
      assert s == [s[0]] + s[1..];
    }
  }

  lemma {:induction false} RemoveFirstBound(s: seq<int>, k: int, lo: int)
    requires forall n | 0 <= n < |s| :: lo <= s[n]
    ensures forall n | 0 <= n < |RemoveFirst(s, k)| :: lo <= RemoveFirst(s, k)[n]
  {
    if s != [] && s[0] != k {
      RemoveFirstBound(s[1..], k, lo);
    }
  }

  lemma {:induction false} RemoveFirstKeepsOrder(s: seq<int>, k: int)
    requires Sorted(s)
    ensures Sorted(RemoveFirst(s, k))
    ensures k in s ==> multiset(RemoveFirst(s, k)) == multiset(s) - multiset{k}
    ensures k in s ==> |RemoveFirst(s, k)| == |s| - 1
  {
    if s != [] {
      assert s == [s[0]] + s[1..];
      if s[0] != k {
        RemoveFirstKeepsOrder(s[1..], k);
        RemoveFirstBound(s[1..], k, s[0]);
      }
    }
  }

  /** A bound on the keys of some indices is a bound on their key sequence. */
  lemma KeySeqAtMost(ids: seq<int>, key: seq<int>, k: int)
    requires forall j | j in ids :: KeyOf(key, j) <= k
    ensures forall n | 0 <= n < |KeySeq(ids, key)| :: KeySeq(ids, key)[n] <= k
  {
    forall n | 0 <= n < |KeySeq(ids, key)|
      ensures KeySeq(ids, key)[n] <= k
    {
      KeySeqAt(ids, key, n);
      assert ids[n] in ids;
    }
  }

  lemma KeySeqAbove(ids: seq<int>, key: seq<int>, k: int)
    requires forall j | j in ids :: k < KeyOf(key, j)
    ensures forall n | 0 <= n < |KeySeq(ids, key)| :: k < KeySeq(ids, key)[n]
  {
    forall n | 0 <= n < |KeySeq(ids, key)|
      ensures k < KeySeq(ids, key)[n]
    {
      KeySeqAt(ids, key, n);
      assert ids[n] in ids;
    }
  }

  /** A key `k` placed between indices whose keys are at most `k` and
      indices whose keys exceed it is where InsertSorted puts it. */
  lemma InsertBetween(bf: seq<int>, af: seq<int>, z: int, key: seq<int>, k: int)
    requires forall j | j in bf :: KeyOf(key, j) <= k
    requires forall j | j in af :: k < KeyOf(key, j)
    requires KeyOf(key, z) == k
    ensures KeySeq(bf + [z] + af, key) == InsertSorted(KeySeq(bf + af, key), k)
  {
    KeySeqAtMost(bf, key, k);
    KeySeqAbove(af, key, k);
    KeySeqAppend(bf, af, key);
    KeySeqAppend(bf, [z], key);
    KeySeqAppend(bf + [z], af, key);
    assert KeySeq([z], key) == [k] by {
      assert [z][1..] == [];
    }
    InsertSortedSplit(KeySeq(bf, key), KeySeq(af, key), k);
  }
}
