/** Facts about sequences and sets that several modules use. */
module Collections {
  lemma PrefixStep<T>(s: seq<T>, i: nat)
    requires i < |s|
    ensures s[..i + 1] == s[..i] + [s[i]]
  {
  }

  lemma {:induction false} DistinctCount<T>(s: seq<T>)
    requires forall i, j | 0 <= i < j < |s| :: s[i] != s[j]
    ensures |set x | x in s| == |s|
  {
    if s != [] {
      var last := |s| - 1;
      DistinctCount(s[..last]);
      assert (set x | x in s) == (set x | x in s[..last]) + {s[last]};
      assert s[last] !in s[..last];
    }
  }

  lemma SmallerSubset<T>(a: set<T>, b: set<T>)
    requires a <= b
    ensures |a| <= |b| && (|a| == |b| <==> a == b)
    ensures |b| == |a| + |b - a|
  {
    assert b == a + (b - a);
  }

  /** The last `n` of a sequence. */
  function Newest<T>(s: seq<T>, n: nat): seq<T> {
    if |s| <= n then s else s[|s| - n..]
  }

  lemma NewestOfAppended<T>(s: seq<T>, x: T, n: nat)
    requires n >= 1
    ensures Newest(Newest(s, n) + [x], n) == Newest(s + [x], n)
  {
  }
}
