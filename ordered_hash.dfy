/** Ruby's Hash is an insertion-ordered dictionary. It is modelled as a
    sequence of key/value pairs whose keys are pairwise distinct; `Put` is
    Ruby's `h[k] = v` (an existing key keeps its place, a new key goes last). */
module OrderedHash {

  datatype Option<T> = None | Some(value: T)

  predicate DistinctKeys<K(==, !new), V>(s: seq<(K, V)>)
  {
    forall i, j :: 0 <= i < j < |s| ==> s[i].0 != s[j].0
  }

  type Hash<K(==, !new), V> = s: seq<(K, V)> | DistinctKeys(s) witness []

  /** The keys of a hash, as a set. */
  function Keys<K(==, !new), V>(h: seq<(K, V)>): (r: set<K>)
    ensures forall i :: 0 <= i < |h| ==> h[i].0 in r
  {
    if |h| == 0 then {} else {h[0].0} + Keys(h[1..])
  }

  /** `h[k]`: the value stored under `k`, if any. */
  function Get<K(==, !new), V>(h: seq<(K, V)>, k: K): (r: Option<V>)
    ensures r.None? <==> k !in Keys(h)
  {
    if |h| == 0 then None
    else if h[0].0 == k then Some(h[0].1)
    else Get(h[1..], k)
  }

  /** In a hash with distinct keys, `Get` returns the one pair with that key. */
  lemma {:induction false} GetAt<K(!new), V>(h: Hash<K, V>, i: nat)
    requires i < |h|
    ensures Get(h, h[i].0) == Some(h[i].1)
  {
    if i > 0 {
      var t: Hash<K, V> := h[1..];
      GetAt(t, i - 1);
    }
  }

  /** The position of key `k` in `h`. */
  function IndexOf<K(==, !new), V>(h: seq<(K, V)>, k: K): (i: nat)
    requires k in Keys(h)
    ensures i < |h| && h[i].0 == k
  {
    if h[0].0 == k then 0 else 1 + IndexOf(h[1..], k)
  }

  /** Ruby's `h[k] = v` on a hash with distinct keys. */
  function Put<K(==, !new), V>(h: Hash<K, V>, k: K, v: V): (r: Hash<K, V>)
    ensures Keys(r) == Keys(h) + {k}
    ensures |r| == if k in Keys(h) then |h| else |h| + 1
    ensures Get(r, k) == Some(v)
    ensures forall k' :: k' != k ==> Get(r, k') == Get(h, k')
    ensures forall i :: 0 <= i < |h| ==> r[i].0 == h[i].0
    ensures k !in Keys(h) ==> r == h + [(k, v)]
  {
    if k in Keys(h) then
      var i := IndexOf(h, k);
      var r: seq<(K, V)> := h[i := (k, v)];
      assert DistinctKeys(r);
      GetAt(r, i);
      PutProps(h, r, k);
      r
    else
      var r: seq<(K, V)> := h + [(k, v)];
      assert DistinctKeys(r);
      GetAt(r, |h|);
      PutProps(h, r, k);
      r
  }

  /** Shared reasoning for both branches of `Put`: a hash whose keys are those of
      `h` in the same places, plus possibly `k` last, agrees with `h` off `k`. */
  lemma PutProps<K(!new), V>(h: Hash<K, V>, r: Hash<K, V>, k: K)
    requires |h| <= |r| <= |h| + 1
    requires forall i :: 0 <= i < |h| ==> r[i].0 == h[i].0
    requires forall i :: 0 <= i < |h| && h[i].0 != k ==> r[i] == h[i]
    requires |r| == |h| + 1 ==> r[|h|].0 == k
    ensures Keys(r) == Keys(h) + (if |r| == |h| then {} else {k})
    ensures forall k' :: k' != k ==> Get(r, k') == Get(h, k')
  {
    forall k' ensures k' in Keys(r) <==> k' in Keys(h) + (if |r| == |h| then {} else {k}) {
      InKeys(h, k');
      InKeys(r, k');
    }
    forall k' | k' != k && k' in Keys(h) ensures Get(r, k') == Get(h, k') {
      var j := IndexOf(h, k');
      assert r[j] == h[j];
      GetAt(h, j);
      GetAt(r, j);
    }
  }

  lemma InKeys<K(!new), V>(h: seq<(K, V)>, k: K)
    ensures k in Keys(h) <==> exists i :: 0 <= i < |h| && h[i].0 == k
  {
    if k in Keys(h) {
      var i := IndexOf(h, k);
    }
  }
}
