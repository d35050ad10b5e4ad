/**
  PHP's ordered arrays, as far as the row plugin uses them: a sequence of
  key/value pairs in insertion order, with at most one pair per key.
 */
module OrderedMap {

  /** The keys of `m`, in insertion order. */
  function Keys<K, V>(m: seq<(K, V)>): (ks: seq<K>)
    ensures |ks| == |m|
    ensures forall i :: 0 <= i < |m| ==> ks[i] == m[i].0
  {
    seq(|m|, i requires 0 <= i < |m| => m[i].0)
  }

  /** What every PHP array satisfies: no key occurs twice. */
  ghost predicate DistinctKeys<K, V>(m: seq<(K, V)>)
  {
    forall i, j :: 0 <= i < j < |m| ==> m[i].0 != m[j].0
  }

  /** The position of key `k` in `m`. */
  function IndexOf<K(==), V>(m: seq<(K, V)>, k: K): (i: nat)
    requires k in Keys(m)
    ensures i < |m| && m[i].0 == k
    ensures forall j :: 0 <= j < i ==> m[j].0 != k
  {
    if m[0].0 == k then 0
    else
      assert k in Keys(m[1..]) by {
        var p :| 0 <= p < |m| && Keys(m)[p] == k;
        assert Keys(m[1..])[p - 1] == k;
      }
      IndexOf(m[1..], k) + 1
  }

  /** `$m[$k]`, for a key that is present. */
  function Get<K(==), V>(m: seq<(K, V)>, k: K): V
    requires k in Keys(m)
  {
    m[IndexOf(m, k)].1
  }

  /** `$m[$k] = $v`: overwrites the value in place when `k` is present, appends otherwise. */
  function Put<K(==), V>(m: seq<(K, V)>, k: K, v: V): (r: seq<(K, V)>)
    ensures Keys(r) == if k in Keys(m) then Keys(m) else Keys(m) + [k]
    ensures k in Keys(r) && Get(r, k) == v
    ensures forall x :: x in Keys(m) && x != k ==> Get(r, x) == Get(m, x)
    ensures DistinctKeys(m) ==> DistinctKeys(r)
  {
    if k in Keys(m) then m[IndexOf(m, k) := (k, v)]
    else
      var r := m + [(k, v)];
      assert forall x :: x in Keys(m) ==> x in Keys(r) && IndexOf(r, x) == IndexOf(m, x) by {
        forall x | x in Keys(m) ensures x in Keys(r) && IndexOf(r, x) == IndexOf(m, x) {
          IndexOfIsFirst(r, x, IndexOf(m, x));
        }
      }
      r
  }

  /** The first position holding key `k` is the one IndexOf finds. */
  lemma IndexOfIsFirst<K, V>(m: seq<(K, V)>, k: K, i: nat)
    requires i < |m| && m[i].0 == k
    requires forall j :: 0 <= j < i ==> m[j].0 != k
    ensures k in Keys(m) && IndexOf(m, k) == i
  {
    assert Keys(m)[i] == k;
  }

  /** Putting a key whose first position is `i` overwrites that position. */
  lemma PutAt<K, V>(m: seq<(K, V)>, i: nat, v: V)
    requires i < |m| && forall j :: 0 <= j < i ==> m[j].0 != m[i].0
    ensures Put(m, m[i].0, v) == m[i := (m[i].0, v)]
  {
    IndexOfIsFirst(m, m[i].0, i);
  }

  /** Putting an absent key appends it. */
  lemma PutAbsent<K, V>(m: seq<(K, V)>, k: K, v: V)
    requires k !in Keys(m)
    ensures Put(m, k, v) == m + [(k, v)]
  {
  }

  /** The key of a pair that occurs in `m` is one of `m`'s keys. */
  lemma KeyOfMember<K, V>(m: seq<(K, V)>, kv: (K, V))
    requires kv in m
    ensures kv.0 in Keys(m)
  {
    var i :| 0 <= i < |m| && m[i] == kv;
    assert Keys(m)[i] == kv.0;
  }
}
