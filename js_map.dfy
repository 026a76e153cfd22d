/**
 * A JavaScript `Map`: bindings kept in insertion order, one per key.
 * `set` on a present key replaces the value where the binding stands;
 * on a new key it appends. `delete` removes the binding. Iteration
 * (`entries()`, `keys()`) follows the sequence order.
 */
module JsMap {
  import opened Wrappers

  type Bindings<K, V> = seq<(K, V)>

  /** No key is bound twice. */
  predicate Distinct<K(==), V>(m: Bindings<K, V>) {
    forall i, j :: 0 <= i < j < |m| ==> m[i].0 != m[j].0
  }

  /** Index of the binding of `k`, if any. */
  function IndexOf<K(==), V>(m: Bindings<K, V>, k: K): (r: Option<nat>)
    ensures r.Some? ==> r.value < |m| && m[r.value].0 == k
    ensures r.Some? ==> forall j :: 0 <= j < r.value ==> m[j].0 != k
    ensures r.None? ==> forall j :: 0 <= j < |m| ==> m[j].0 != k
  {
    if |m| == 0 then None
    else if m[0].0 == k then Some(0)
    else match IndexOf(m[1..], k)
      case None => None
      case Some(i) => Some(i + 1)
  }

  /** `has` */
  predicate Has<K(==), V>(m: Bindings<K, V>, k: K) {
    IndexOf(m, k).Some?
  }

  /** `get` */
  function Get<K(==), V>(m: Bindings<K, V>, k: K): Option<V> {
    match IndexOf(m, k)
    case None => None
    case Some(i) => Some(m[i].1)
  }

  /** `set` */
  function Set<K(==), V>(m: Bindings<K, V>, k: K, v: V): Bindings<K, V> {
    match IndexOf(m, k)
    case None => m + [(k, v)]
    case Some(i) => m[i := (k, v)]
  }

  /** `delete` */
  function Delete<K(==), V>(m: Bindings<K, V>, k: K): Bindings<K, V> {
    match IndexOf(m, k)
    case None => m
    case Some(i) => m[..i] + m[i + 1..]
  }

  /** In a map without repeated keys, the binding at index `i` is the one `get` finds. */
  lemma IndexOfDistinct<K, V>(m: Bindings<K, V>, i: nat)
    requires Distinct(m) && i < |m|
    ensures IndexOf(m, m[i].0) == Some(i)
  {
  }

  /**
   * `set` binds `k` to `v`, leaves every other key's value alone, keeps
   * keys unique, and puts a new key last while an existing key keeps its
   * place.
   */
  lemma SetSpec<K, V>(m: Bindings<K, V>, k: K, v: V)
    requires Distinct(m)
    ensures Distinct(Set(m, k, v))
    ensures Get(Set(m, k, v), k) == Some(v)
    ensures forall k' :: k' != k ==> Get(Set(m, k, v), k') == Get(m, k')
    ensures !Has(m, k) ==> Set(m, k, v) == m + [(k, v)]
    ensures Has(m, k) ==> |Set(m, k, v)| == |m| && IndexOf(Set(m, k, v), k) == IndexOf(m, k)
  {
    var r := Set(m, k, v);
    match IndexOf(m, k)
    case None =>
      IndexOfDistinct(r, |m|);
      forall k' | k' != k ensures Get(r, k') == Get(m, k') {
        match IndexOf(m, k')
        case None =>
        case Some(j) => IndexOfDistinct(r, j);
      }
    case Some(i) =>
      IndexOfDistinct(r, i);
      forall k' | k' != k ensures Get(r, k') == Get(m, k') {
        match IndexOf(m, k')
        case None =>
        case Some(j) => IndexOfDistinct(r, j);
      }
  }

  /** `delete` unbinds `k`, leaves every other key's value alone and keeps keys unique. */
  lemma DeleteSpec<K, V>(m: Bindings<K, V>, k: K)
    requires Distinct(m)
    ensures Distinct(Delete(m, k))
    ensures Get(Delete(m, k), k) == None
    ensures forall k' :: k' != k ==> Get(Delete(m, k), k') == Get(m, k')
    ensures |Delete(m, k)| == if Has(m, k) then |m| - 1 else |m|
  {
    var r := Delete(m, k);
    match IndexOf(m, k)
    case None =>
    case Some(i) =>
      assert forall j :: 0 <= j < |r| ==> r[j] == if j < i then m[j] else m[j + 1];
      forall k' | k' != k ensures Get(r, k') == Get(m, k') {
        match IndexOf(m, k')
        case None =>
        case Some(j) =>
          IndexOfDistinct(r, if j < i then j else j - 1);
      }
  }
}
