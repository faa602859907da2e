/** Facts about sequences of keys: where a key first occurs, and the
    duplicate-free projection of a key sequence in first-occurrence order.
    Both deduplication steps of the reconciler are stated in these terms. */
module KeyOrder {

  /** No key occurs twice in `s`. */
  predicate NoDuplicates<K(==,!new)>(s: seq<K>)
  {
    forall i, j :: 0 <= i < j < |s| ==> s[i] != s[j]
  }

  /** Position of the first occurrence of `k` in `s`. */
  function FirstIndex<K(==,!new)>(s: seq<K>, k: K): (i: nat)
    requires k in s
    ensures i < |s| && s[i] == k
    ensures forall j :: 0 <= j < i ==> s[j] != k
  {
    if s[0] == k then 0 else 1 + FirstIndex(s[1..], k)
  }

  /** Any position holding `k` with no `k` before it is the first index. */
  lemma FirstIndexUnique<K(!new)>(s: seq<K>, k: K, i: nat)
    requires i < |s| && s[i] == k
    requires forall j :: 0 <= j < i ==> s[j] != k
    ensures FirstIndex(s, k) == i
  {
  }

  /** A key absent from `s` first occurs at the end of `s + [k]`. */
  lemma FirstIndexOfNew<K(!new)>(s: seq<K>, k: K)
    requires k !in s
    ensures FirstIndex(s + [k], k) == |s|
  {
    FirstIndexUnique(s + [k], k, |s|);
  }

  /** Appending keys does not move the first occurrence of a key already present. */
  lemma FirstIndexOfPrefix<K(!new)>(a: seq<K>, b: seq<K>, k: K)
    requires k in a
    ensures FirstIndex(a + b, k) == FirstIndex(a, k)
  {
    var i := FirstIndex(a, k);
    assert (a + b)[i] == k;
    forall j | 0 <= j < i ensures (a + b)[j] != k {
      assert (a + b)[j] == a[j];
    }
    FirstIndexUnique(a + b, k, i);
  }

  /** The keys of `s`, each once, in the order in which they first occur. */
  function Distinct<K(==,!new)>(s: seq<K>): (r: seq<K>)
    ensures NoDuplicates(r)
    ensures forall k :: k in r <==> k in s
    ensures |r| <= |s|
    decreases |s|
  {
    if s == [] then []
    else
      var p := Distinct(s[..|s| - 1]);
      assert s == s[..|s| - 1] + [s[|s| - 1]];
      if s[|s| - 1] in p then p else p + [s[|s| - 1]]
  }

  /** One more key is appended exactly when it is new. */
  lemma DistinctSnoc<K(!new)>(s: seq<K>, x: K)
    ensures Distinct(s + [x]) == if x in Distinct(s) then Distinct(s) else Distinct(s) + [x]
  {
    assert (s + [x])[..|s|] == s;
  }

  /** The keys of `Distinct(s)` are ordered by their first occurrence in `s`. */
  lemma {:induction false} DistinctFollowsFirstOccurrence<K(!new)>(s: seq<K>)
    ensures forall i, j :: 0 <= i < j < |Distinct(s)| ==>
              FirstIndex(s, Distinct(s)[i]) < FirstIndex(s, Distinct(s)[j])
  {
    if s != [] {
      var n := |s| - 1;
      var a := s[..n];
      assert s == a + [s[n]];
      DistinctFollowsFirstOccurrence(a);
      var p := Distinct(a);
      var d := Distinct(s);
      assert d == if s[n] in p then p else p + [s[n]];
      forall i, j | 0 <= i < j < |d|
        ensures FirstIndex(s, d[i]) < FirstIndex(s, d[j])
      {
        assert d[i] == p[i] && d[i] in a;
        FirstIndexOfPrefix(a, [s[n]], d[i]);
        if j < |p| {
          assert d[j] == p[j] && d[j] in a;
          FirstIndexOfPrefix(a, [s[n]], d[j]);
        } else {
          assert d[j] == s[n] && s[n] !in a;
          forall m | 0 <= m < n ensures s[m] != s[n] {
            assert s[m] == a[m];
          }
          FirstIndexUnique(s, s[n], n);
        }
      }
    }
  }
}
