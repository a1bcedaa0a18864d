/**
 * The parts of the Kotlin collections library that the hint pipeline relies on:
 * `zip` over two lists, and `toMap`, which builds an insertion-ordered
 * (LinkedHashMap) map. An insertion-ordered map is represented as the sequence
 * of its entries in iteration order.
 */
module KotlinCollections {

  function Min(a: nat, b: nat): nat { if a <= b then a else b }

  /** `xs.zip(ys)`: pairs elements at equal positions, up to the shorter list. */
  function Zip<A, B>(xs: seq<A>, ys: seq<B>): (r: seq<(A, B)>)
    ensures |r| == Min(|xs|, |ys|)
    ensures forall i :: 0 <= i < |r| ==> r[i] == (xs[i], ys[i])
  {
    if xs == [] || ys == [] then []
    else [(xs[0], ys[0])] + Zip(xs[1..], ys[1..])
  }

  /** Position of the first entry with key `k`, or `|m|` when there is none. */
  function KeyIndex<K(==), V>(m: seq<(K, V)>, k: K): (i: nat)
    ensures i <= |m|
    ensures i < |m| ==> m[i].0 == k
  {
    if m == [] then 0
    else if m[0].0 == k then 0
    else 1 + KeyIndex(m[1..], k)
  }

  /** Position of the last entry with key `k`, or -1 when there is none. */
  function LastKeyIndex<K(==), V>(m: seq<(K, V)>, k: K): (i: int)
    ensures -1 <= i < |m|
    ensures 0 <= i ==> m[i].0 == k
  {
    if m == [] then -1
    else if m[|m| - 1].0 == k then |m| - 1
    else LastKeyIndex(m[..|m| - 1], k)
  }

  /**
   * `LinkedHashMap.put(k, v)`: an existing key keeps its position and gets the
   * new value; a new key is appended at the end.
   */
  function Put<K(==), V>(m: seq<(K, V)>, k: K, v: V): (r: seq<(K, V)>)
    ensures KeyIndex(m, k) < |m| ==> r == m[KeyIndex(m, k) := (k, v)]
    ensures KeyIndex(m, k) == |m| ==> r == m + [(k, v)]
  {
    if m == [] then [(k, v)]
    else if m[0].0 == k then [(k, v)] + m[1..]
    else [m[0]] + Put(m[1..], k, v)
  }

  /** `entries.toMap()`: the entries put one after the other into an empty map. */
  function ToMap<K(==), V>(es: seq<(K, V)>): (m: seq<(K, V)>)
  {
    if es == [] then []
    else
      var n := |es| - 1;
      Put(ToMap(es[..n]), es[n].0, es[n].1)
  }

  /** No entry before `KeyIndex(m, k)` has key `k`. */
  lemma {:induction false} KeyIndexIsFirst<K, V>(m: seq<(K, V)>, k: K, j: nat)
    requires j < |m| && m[j].0 == k
    ensures KeyIndex(m, k) <= j
  {
    if m[0].0 != k {
      KeyIndexIsFirst(m[1..], k, j - 1);
    }
  }

  /** No entry after `LastKeyIndex(m, k)` has key `k`. */
  lemma {:induction false} LastKeyIndexIsLast<K, V>(m: seq<(K, V)>, k: K, j: nat)
    requires j < |m| && m[j].0 == k
    ensures j <= LastKeyIndex(m, k)
  {
    if m[|m| - 1].0 != k {
      LastKeyIndexIsLast(m[..|m| - 1], k, j);
    }
  }

  lemma KeyIndexSnoc<K, V>(m: seq<(K, V)>, e: (K, V), k: K)
    ensures KeyIndex(m + [e], k) ==
      if KeyIndex(m, k) < |m| then KeyIndex(m, k)
      else if e.0 == k then |m| else |m| + 1
  {
    var a, b := KeyIndex(m + [e], k), KeyIndex(m, k);
    if b < |m| {
      KeyIndexIsFirst(m + [e], k, b);
    } else if e.0 == k {
      KeyIndexIsFirst(m + [e], k, |m|);
    }
    if a < |m| {
      assert (m + [e])[a] == m[a];
      KeyIndexIsFirst(m, k, a);
    }
  }

  lemma LastKeyIndexSnoc<K, V>(m: seq<(K, V)>, e: (K, V), k: K)
    ensures LastKeyIndex(m + [e], k) == if e.0 == k then |m| else LastKeyIndex(m, k)
  {
  }

  /** Replacing an entry by one with the same key leaves every key's position unchanged. */
  lemma KeyIndexSameKeys<K, V>(m: seq<(K, V)>, p: nat, e: (K, V), k: K)
    requires p < |m| && m[p].0 == e.0
    ensures KeyIndex(m[p := e], k) == KeyIndex(m, k)
  {
    var a, b := KeyIndex(m[p := e], k), KeyIndex(m, k);
    if b < |m| { KeyIndexIsFirst(m[p := e], k, b); }
    if a < |m| { KeyIndexIsFirst(m, k, a); }
  }

  /**
   * `m` is what `toMap` makes of the entry list `es`: every key of `m` occurs in
   * `es`, the keys of `m` follow the order of their FIRST occurrence in `es`
   * (so no key is repeated), each holds the value of its LAST occurrence, and
   * every key of `es` is in `m`.
   */
  ghost predicate MapsEntries<K, V>(es: seq<(K, V)>, m: seq<(K, V)>)
  {
    && (forall j1, j2 {:trigger KeyIndex(es, m[j1].0), KeyIndex(es, m[j2].0)} ::
          0 <= j1 < j2 < |m| ==> KeyIndex(es, m[j1].0) < KeyIndex(es, m[j2].0))
    && (forall j {:trigger KeyIndex(es, m[j].0)} :: 0 <= j < |m| ==> KeyIndex(es, m[j].0) < |es|)
    && (forall j {:trigger LastKeyIndex(es, m[j].0)} ::
          0 <= j < |m| ==> 0 <= LastKeyIndex(es, m[j].0) && m[j].1 == es[LastKeyIndex(es, m[j].0)].1)
    && (forall i {:trigger KeyIndex(m, es[i].0)} :: 0 <= i < |es| ==> KeyIndex(m, es[i].0) < |m|)
  }

  /** Putting a key already in the map keeps the correspondence one entry longer. */
  lemma PutExistingKey<K, V>(pre: seq<(K, V)>, e: (K, V), m0: seq<(K, V)>)
    requires MapsEntries(pre, m0)
    requires KeyIndex(m0, e.0) < |m0|
    ensures MapsEntries(pre + [e], Put(m0, e.0, e.1))
  {
    var es, n, p := pre + [e], |pre|, KeyIndex(m0, e.0);
    var m := Put(m0, e.0, e.1);
    assert m == m0[p := (e.0, e.1)];
    forall j | 0 <= j < |m0| ensures KeyIndex(es, m0[j].0) == KeyIndex(pre, m0[j].0) {
      KeyIndexSnoc(pre, e, m0[j].0);
    }
    forall j1, j2 | 0 <= j1 < j2 < |m| ensures KeyIndex(es, m[j1].0) < KeyIndex(es, m[j2].0) {
      assert m[j1].0 == m0[j1].0 && m[j2].0 == m0[j2].0;
    }
    forall j | 0 <= j < |m| ensures 0 <= LastKeyIndex(es, m[j].0) && m[j].1 == es[LastKeyIndex(es, m[j].0)].1 {
      LastKeyIndexSnoc(pre, e, m[j].0);
      if j != p {
        if j < p {
          assert KeyIndex(pre, m0[j].0) < KeyIndex(pre, m0[p].0);
        } else {
          assert KeyIndex(pre, m0[p].0) < KeyIndex(pre, m0[j].0);
        }
        assert m[j] == m0[j];
      }
    }
    forall i | 0 <= i < |es| ensures KeyIndex(m, es[i].0) < |m| {
      KeyIndexSameKeys(m0, p, (e.0, e.1), es[i].0);
      if i < n { assert es[i] == pre[i]; }
    }
  }

  /** Putting a new key appends it after every key seen so far. */
  lemma PutNewKey<K, V>(pre: seq<(K, V)>, e: (K, V), m0: seq<(K, V)>)
    requires MapsEntries(pre, m0)
    requires KeyIndex(m0, e.0) == |m0|
    ensures MapsEntries(pre + [e], Put(m0, e.0, e.1))
  {
    var es, n := pre + [e], |pre|;
    var m := Put(m0, e.0, e.1);
    assert m == m0 + [(e.0, e.1)];
    assert KeyIndex(pre, e.0) == n;
    KeyIndexSnoc(pre, e, e.0);
    LastKeyIndexSnoc(pre, e, e.0);
    forall j | 0 <= j < |m0| ensures KeyIndex(es, m0[j].0) == KeyIndex(pre, m0[j].0) < n
      && LastKeyIndex(es, m0[j].0) == LastKeyIndex(pre, m0[j].0)
    {
      KeyIndexSnoc(pre, e, m0[j].0);
      LastKeyIndexSnoc(pre, e, m0[j].0);
    }
    forall j1, j2 | 0 <= j1 < j2 < |m| ensures KeyIndex(es, m[j1].0) < KeyIndex(es, m[j2].0) {
      assert m[j1] == m0[j1];
      if j2 < |m0| { assert m[j2] == m0[j2]; }
    }
    forall j | 0 <= j < |m| ensures KeyIndex(es, m[j].0) < |es| && 0 <= LastKeyIndex(es, m[j].0)
      && m[j].1 == es[LastKeyIndex(es, m[j].0)].1
    {
      if j < |m0| { assert m[j] == m0[j]; }
    }
    forall i | 0 <= i < |es| ensures KeyIndex(m, es[i].0) < |m| {
      KeyIndexSnoc(m0, (e.0, e.1), es[i].0);
      if i < n { assert es[i] == pre[i]; }
    }
  }

  /**
   * What `toMap` keeps of a list of entries: every key occurs once, at the
   * position of its first occurrence in the list, and holds the value of its
   * last occurrence; no key is lost and none is invented.
   */
  lemma {:induction false} ToMapSpec<K, V>(es: seq<(K, V)>)
    ensures MapsEntries(es, ToMap(es))
  {
    if es != [] {
      var n := |es| - 1;
      var pre, e := es[..n], es[n];
      assert es == pre + [e];
      ToMapSpec(pre);
      if KeyIndex(ToMap(pre), e.0) < |ToMap(pre)| {
        PutExistingKey(pre, e, ToMap(pre));
      } else {
        PutNewKey(pre, e, ToMap(pre));
      }
    }
  }
}
