/**
 * PHP's ordered arrays, as far as the modelled code uses them: a list of
 * key/value pairs with distinct keys kept in insertion order.  Writing to a
 * key that is present replaces its value in place; writing to a new key
 * appends it.
 */
module PhpArrays {
  import opened Basics

  type Entries<K, V> = seq<(K, V)>

  function Keys<K, V>(a: Entries<K, V>): (ks: seq<K>)
    ensures |ks| == |a|
    ensures forall i :: 0 <= i < |a| ==> ks[i] == a[i].0
  {
    if |a| == 0 then [] else [a[0].0] + Keys(a[1..])
  }

  ghost predicate DistinctKeys<K, V>(a: Entries<K, V>) {
    forall i, j :: 0 <= i < j < |a| ==> a[i].0 != a[j].0
  }

  /** `$a[$k]` when `isset`, else nothing. */
  function Get<K(==), V>(a: Entries<K, V>, k: K): (r: Option<V>)
    ensures r.None? <==> k !in Keys(a)
    ensures r.Some? ==> exists i :: 0 <= i < |a| && a[i].0 == k && a[i].1 == r.value
  {
    if |a| == 0 then None
    else if a[0].0 == k then Some(a[0].1)
    else
      var r := Get(a[1..], k);
      assert Keys(a) == [a[0].0] + Keys(a[1..]);
      assert forall i :: 0 <= i < |a[1..]| ==> a[1..][i] == a[i + 1];
      r
  }

  /** `$a[$k] = $v`. */
  function Put<K(==), V>(a: Entries<K, V>, k: K, v: V): (r: Entries<K, V>)
    ensures Keys(r) == if k in Keys(a) then Keys(a) else Keys(a) + [k]
  {
    if |a| == 0 then [(k, v)]
    else if a[0].0 == k then [(k, v)] + a[1..]
    else
      var rest := Put(a[1..], k, v);
      assert Keys(a) == [a[0].0] + Keys(a[1..]);
      assert Keys([a[0]] + rest) == [a[0].0] + Keys(rest);
      [a[0]] + rest
  }

  /** After `$a[$k] = $v`, `$a[$k]` is `$v` and every other key reads as before. */
  lemma {:induction false} GetPut<K, V>(a: Entries<K, V>, k: K, v: V, k': K)
    ensures Get(Put(a, k, v), k') == if k' == k then Some(v) else Get(a, k')
  {
    if |a| > 0 && a[0].0 != k {
      GetPut(a[1..], k, v, k');
    }
  }

  /** Writing keeps the keys distinct. */
  lemma PutDistinct<K, V>(a: Entries<K, V>, k: K, v: V)
    requires DistinctKeys(a)
    ensures DistinctKeys(Put(a, k, v))
  {
    var r := Put(a, k, v);
    var ka, kr := Keys(a), Keys(r);
    forall i, j | 0 <= i < j < |r| ensures r[i].0 != r[j].0 {
      assert r[i].0 == kr[i] && r[j].0 == kr[j];
      if j < |a| {
        assert kr[i] == ka[i] == a[i].0 && kr[j] == ka[j] == a[j].0;
      } else {
        assert k !in ka && kr[j] == k && kr[i] == ka[i];
      }
    }
  }
}
