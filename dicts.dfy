/**
 * A Python `dict`: a map together with the order in which its keys were
 * first inserted, which is the order `for k in d` visits them.
 */
module Dicts {
  import opened Seqs

  datatype Dict<K(==), V> = Dict(keys: seq<K>, items: map<K, V>)
  {
    /** The keys are listed once each, and they are exactly the map's domain. */
    ghost predicate Valid()
    {
      && AllDistinct(keys)
      && (forall k | k in items :: k in keys)
      && (forall i | 0 <= i < |keys| :: keys[i] in items)
    }

    /** The values in key order (Python's `list(d.values())`). */
    function Values(): (vs: seq<V>)
      requires Valid()
      ensures |vs| == |keys|
    {
      seq(|keys|, i requires 0 <= i < |keys| => items[keys[i]])
    }

    /** The (key, value) pairs in key order (Python's `list(d.items())`). */
    function Items(): (es: seq<(K, V)>)
      requires Valid()
      ensures |es| == |keys|
    {
      seq(|keys|, i requires 0 <= i < |keys| => (keys[i], items[keys[i]]))
    }
  }

  function Empty<K(==), V>(): (d: Dict<K, V>)
    ensures d.Valid() && d.keys == []
  {
    Dict([], map[])
  }

  /**
   * `d[k] = v`: the value is replaced, and a key not present before is added
   * at the end of the iteration order.
   */
  function Put<K(==), V>(d: Dict<K, V>, k: K, v: V): Dict<K, V>
  {
    if k in d.items then Dict(d.keys, d.items[k := v]) else Dict(d.keys + [k], d.items[k := v])
  }

  /** Storing a value keeps the keys distinct and in step with the map, and maps the key to the value. */
  lemma PutValid<K, V>(d: Dict<K, V>, k: K, v: V)
    requires d.Valid()
    ensures Put(d, k, v).Valid()
    ensures Put(d, k, v).items == d.items[k := v]
  {
  }

  /** Storing each entry in turn. */
  function PutAll<K(==), V>(d: Dict<K, V>, es: seq<(K, V)>): Dict<K, V>
  {
    if es == [] then d else Put(PutAll(d, es[..|es| - 1]), es[|es| - 1].0, es[|es| - 1].1)
  }

  /** Storing under a new key appends the pair to the items. */
  lemma ItemsPutNew<K, V>(d: Dict<K, V>, k: K, v: V)
    requires d.Valid() && k !in d.items
    ensures Put(d, k, v).Valid()
    ensures Put(d, k, v).Items() == d.Items() + [(k, v)]
  {
    PutValid(d, k, v);
    var r := Put(d, k, v);
    forall i | 0 <= i < |d.keys|
      ensures r.Items()[i] == d.Items()[i]
    {
      assert d.keys[i] in d.items;
    }
  }

  /** Storing under a present key replaces its pair in place. */
  lemma ItemsPutOld<K, V>(d: Dict<K, V>, k: K, v: V, i: nat)
    requires d.Valid() && i < |d.keys| && d.keys[i] == k
    ensures Put(d, k, v).Valid()
    ensures Put(d, k, v).Items() == d.Items()[i := (k, v)]
  {
    PutValid(d, k, v);
    var r := Put(d, k, v);
    forall j | 0 <= j < |d.keys| && j != i
      ensures r.Items()[j] == d.Items()[j]
    {
      assert d.keys[j] != k;
    }
  }

  /** Storing entries one after the other keeps the dict well-formed. */
  lemma {:induction false} PutAllValid<K, V>(d: Dict<K, V>, es: seq<(K, V)>)
    requires d.Valid()
    ensures PutAll(d, es).Valid()
  {
    if es != [] {
      var n := |es| - 1;
      PutAllValid(d, es[..n]);
      PutValid(PutAll(d, es[..n]), es[n].0, es[n].1);
    }
  }

  /** Storing one more entry after a sequence of them. */
  lemma PutAllSnoc<K, V>(d: Dict<K, V>, es: seq<(K, V)>, k: K, v: V)
    ensures PutAll(d, es + [(k, v)]) == Put(PutAll(d, es), k, v)
  {
    assert (es + [(k, v)])[..|es|] == es;
  }

  /** The keys of a sequence of entries. */
  function Firsts<K, V>(es: seq<(K, V)>): (ks: seq<K>)
    ensures |ks| == |es| && forall i :: 0 <= i < |es| ==> ks[i] == es[i].0
  {
    seq(|es|, i requires 0 <= i < |es| => es[i].0)
  }

  /** A dict built from a sequence of entries iterates its keys in order of first appearance. */
  lemma {:induction false} PutAllKeys<K, V>(es: seq<(K, V)>)
    ensures PutAll(Empty(), es).keys == Distinct(Firsts(es))
  {
    if es != [] {
      var n := |es| - 1;
      var prev := es[..n];
      var k := es[n].0;
      PutAllKeys(prev);
      var d := PutAll(Empty(), prev);
      PutAllValid(Empty(), prev);
      assert Firsts(es) == Firsts(prev) + [k];
      DistinctSnoc(Firsts(prev), k);
      DistinctSpec(Firsts(prev));
      assert k in d.items <==> k in Firsts(prev);
    }
  }

  /** In a dict built from a sequence of entries, each key holds the value of its last entry. */
  lemma {:induction false} PutAllLastWins<K, V>(es: seq<(K, V)>, j: nat)
    requires j < |es|
    requires forall l :: j < l < |es| ==> es[l].0 != es[j].0
    ensures es[j].0 in PutAll(Empty(), es).items && PutAll(Empty(), es).items[es[j].0] == es[j].1
  {
    var n := |es| - 1;
    if j < n {
      var prev := es[..n];
      assert prev[j] == es[j];
      PutAllLastWins(prev, j);
    }
  }

  /** Every key of a dict built from entries comes from some entry. */
  lemma {:induction false} PutAllKeysFromEntries<K, V>(es: seq<(K, V)>, k: K)
    ensures k in PutAll(Empty(), es).items <==> exists j :: 0 <= j < |es| && es[j].0 == k
  {
    if es != [] {
      var n := |es| - 1;
      PutAllKeysFromEntries(es[..n], k);
      if exists j :: 0 <= j < n && es[..n][j].0 == k {
        var j :| 0 <= j < n && es[..n][j].0 == k;
        assert es[j].0 == k;
      }
      if exists j :: 0 <= j < |es| && es[j].0 == k {
        var j :| 0 <= j < |es| && es[j].0 == k;
        if j < n {
          assert es[..n][j].0 == k;
        }
      }
    }
  }

  /** Storing `a` then `b` is storing `a + b`. */
  lemma {:induction false} PutAllAppend<K, V>(d: Dict<K, V>, a: seq<(K, V)>, b: seq<(K, V)>)
    ensures PutAll(d, a + b) == PutAll(PutAll(d, a), b)
    decreases |b|
  {
    if b == [] {
      assert a + b == a;
    } else {
      var n := |b| - 1;
      var ab := a + b;
      PutAllAppend(d, a, b[..n]);
      assert ab[..|ab| - 1] == a + b[..n];
      assert ab[|ab| - 1] == b[n];
    }
  }

  /** Entries for other keys leave a key's presence and value alone. */
  lemma {:induction false} PutAllUntouched<K, V>(d: Dict<K, V>, es: seq<(K, V)>, k: K)
    requires forall j :: 0 <= j < |es| ==> es[j].0 != k
    ensures k in PutAll(d, es).items <==> k in d.items
    ensures k in d.items ==> PutAll(d, es).items[k] == d.items[k]
  {
    if es != [] {
      PutAllUntouched(d, es[..|es| - 1], k);
    }
  }

  /** When every entry for `k` carries `v`, and there is one, `k` ends up holding `v`. */
  lemma {:induction false} PutAllSame<K, V>(d: Dict<K, V>, es: seq<(K, V)>, k: K, v: V)
    requires exists j :: 0 <= j < |es| && es[j].0 == k
    requires forall j :: 0 <= j < |es| && es[j].0 == k ==> es[j].1 == v
    ensures k in PutAll(d, es).items && PutAll(d, es).items[k] == v
  {
    var n := |es| - 1;
    if es[n].0 != k {
      var j :| 0 <= j < |es| && es[j].0 == k;
      assert es[..n][j] == es[j];
      PutAllSame(d, es[..n], k, v);
    }
  }
}
