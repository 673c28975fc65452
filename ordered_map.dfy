/**
 * A JavaScript `Map` (and a Python `dict`) as the list of its entries in
 * insertion order.  `set` on a present key replaces the value in place;
 * on an absent key it appends an entry.
 */
module OrderedMap {
  import opened Base

  type Entries<K, V> = seq<(K, V)>

  predicate Distinct<T(==)>(s: seq<T>) {
    forall i, j :: 0 <= i < j < |s| ==> s[i] != s[j]
  }

  /** The keys in insertion order (`Array.from(m.keys())`). */
  function Keys<K, V>(m: Entries<K, V>): (ks: seq<K>)
    ensures |ks| == |m| && forall i :: 0 <= i < |m| ==> ks[i] == m[i].0
  {
    seq(|m|, i requires 0 <= i < |m| => m[i].0)
  }

  /** The position of the entry for k at or after i, if any: the first one. */
  function FindFrom<K(==), V>(m: Entries<K, V>, k: K, i: nat): (r: Option<nat>)
    requires i <= |m|
    ensures r.Some? ==> i <= r.value < |m| && m[r.value].0 == k
    ensures r.Some? ==> forall j :: i <= j < r.value ==> m[j].0 != k
    ensures r.None? ==> forall j :: i <= j < |m| ==> m[j].0 != k
    decreases |m| - i
  {
    if i == |m| then None else if m[i].0 == k then Some(i) else FindFrom(m, k, i + 1)
  }

  function Find<K(==), V>(m: Entries<K, V>, k: K): (r: Option<nat>)
    ensures r.Some? ==> r.value < |m| && m[r.value].0 == k
    ensures r.Some? ==> forall j :: 0 <= j < r.value ==> m[j].0 != k
    ensures r.None? <==> k !in Keys(m)
  {
    var r := FindFrom(m, k, 0);
    assert r.Some? ==> Keys(m)[r.value] == k;
    r
  }

  /** Find only looks at the keys. */
  lemma FindKeys<K, V>(m1: Entries<K, V>, m2: Entries<K, V>, k: K)
    requires Keys(m1) == Keys(m2)
    ensures Find(m1, k) == Find(m2, k)
  {
    var r1, r2 := Find(m1, k), Find(m2, k);
    assert forall j :: 0 <= j < |m1| ==> m1[j].0 == Keys(m1)[j] == m2[j].0;
    if r1.Some? && r2.Some? {
      assert m2[r1.value].0 == k && m1[r2.value].0 == k;
    }
  }

  /** `m.get(k)`: the value of the entry whose key is k, if any. */
  function Get<K(==), V>(m: Entries<K, V>, k: K): (r: Option<V>)
    ensures r.None? <==> k !in Keys(m)
  {
    match Find(m, k)
    case None => None
    case Some(i) => Some(m[i].1)
  }

  /** With distinct keys, `get` finds the value stored at the key's position. */
  lemma GetAt<K, V>(m: Entries<K, V>, i: nat)
    requires i < |m| && Distinct(Keys(m))
    ensures Get(m, m[i].0) == Some(m[i].1)
  {
    var r := Find(m, m[i].0);
    assert Keys(m)[i] == m[i].0;
    assert Keys(m)[r.value] == m[i].0;
  }

  /** `m.set(k, v)`: the entry of k takes the new value in place, or a new entry goes last. */
  function Set<K(==), V>(m: Entries<K, V>, k: K, v: V): Entries<K, V> {
    match Find(m, k)
    case Some(i) => m[i := (k, v)]
    case None => m + [(k, v)]
  }

  /** After `set`, `get` finds the new value at k and the old ones elsewhere; a new key is appended. */
  lemma SetFacts<K(!new), V>(m: Entries<K, V>, k: K, v: V)
    ensures var r := Set(m, k, v);
      && Get(r, k) == Some(v)
      && (forall k' :: k' != k ==> Get(r, k') == Get(m, k'))
      && (k in Keys(m) ==> Keys(r) == Keys(m))
      && (k !in Keys(m) ==> r == m + [(k, v)])
  {
    match Find(m, k)
    case Some(i) => SetReplace(m, k, v, i);
    case None => SetAppend(m, k, v);
  }

  lemma SetReplace<K, V>(m: Entries<K, V>, k: K, v: V, i: nat)
    requires Find(m, k) == Some(i)
    ensures var r := m[i := (k, v)];
      Keys(r) == Keys(m) && forall k' :: Find(r, k') == Find(m, k')
  {
    var r := m[i := (k, v)];
    assert Keys(r) == Keys(m);
    forall k' ensures Find(r, k') == Find(m, k') {
      FindKeys(r, m, k');
    }
  }

  lemma SetAppend<K, V>(m: Entries<K, V>, k: K, v: V)
    requires Find(m, k).None?
    ensures var r := m + [(k, v)];
      Find(r, k) == Some(|m|) && forall k' :: k' != k ==> Find(r, k') == Find(m, k')
  {
    var r := m + [(k, v)];
    forall k' | k' != k ensures Find(r, k') == Find(m, k') {
      var a, b := Find(r, k'), Find(m, k');
      if b.Some? {
        assert r[b.value].0 == k';
      }
      if a.Some? && a.value < |m| {
        assert m[a.value].0 == k' && Keys(m)[a.value] == k';
      }
    }
    assert r[|m|].0 == k;
    assert forall j :: 0 <= j < |m| ==> m[j].0 == Keys(m)[j];
  }

  /** A sequence of `set` calls, in order: `new Map(pairs)`, or a `forEach` that sets each entry. */
  function SetAll<K(==), V>(m: Entries<K, V>, es: Entries<K, V>, n: nat): Entries<K, V>
    requires n <= |es|
  {
    if n == 0 then m else Set(SetAll(m, es, n - 1), es[n - 1].0, es[n - 1].1)
  }

  /** Setting keys that are all new just appends the entries. */
  lemma {:induction false} SetAllFresh<K(!new), V>(es: Entries<K, V>, n: nat)
    requires n <= |es| && Distinct(Keys(es))
    ensures SetAll([], es, n) == es[..n]
  {
    if n > 0 {
      SetAllFresh(es, n - 1);
      var k := es[n - 1].0;
      SetFacts(es[..n - 1], k, es[n - 1].1);
      assert Keys(es)[n - 1] == k;
      var prefix := es[..n - 1];
      assert k !in Keys(prefix) by {
        forall j | 0 <= j < |prefix| ensures Keys(prefix)[j] != k {
          assert Keys(es)[j] == es[j].0;
        }
      }
      assert es[..n - 1] + [es[n - 1]] == es[..n];
    }
  }
}
