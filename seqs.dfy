/**
 * Sequence helpers shared by the scripts: first occurrences (pandas'
 * `drop_duplicates(keep="first")`, a dict's insertion order), selection of
 * positions, flattening and sums.
 */
module Seqs {
  /** No value occurs twice. */
  predicate AllDistinct<T(==)>(xs: seq<T>)
  {
    forall i, j :: 0 <= i < j < |xs| ==> xs[i] != xs[j]
  }

  /** Positions that hold the first occurrence of their value, in increasing order. */
  function FirstOccurrences<T(==)>(xs: seq<T>): (idx: seq<nat>)
    ensures |idx| <= |xs|
    ensures forall k :: 0 <= k < |idx| ==> idx[k] < |xs|
    ensures forall k, l :: 0 <= k < l < |idx| ==> idx[k] < idx[l]
  {
    if xs == [] then []
    else
      var n := |xs| - 1;
      FirstOccurrences(xs[..n]) + (if xs[n] in xs[..n] then [] else [n])
  }

  /** A position is listed exactly when its value does not occur earlier. */
  lemma {:induction false} FirstOccurrencesMembers<T>(xs: seq<T>, i: nat)
    requires i < |xs|
    ensures i in FirstOccurrences(xs) <==> xs[i] !in xs[..i]
  {
    var n := |xs| - 1;
    var prev := FirstOccurrences(xs[..n]);
    assert FirstOccurrences(xs) == prev + (if xs[n] in xs[..n] then [] else [n]);
    if i < n {
      FirstOccurrencesMembers(xs[..n], i);
      assert xs[..n][i] == xs[i] && xs[..n][..i] == xs[..i];
    } else {
      assert n !in prev;
    }
  }

  /** The elements at the given positions, in the given order. */
  function Select<T>(xs: seq<T>, idx: seq<nat>): (r: seq<T>)
    requires forall k :: 0 <= k < |idx| ==> idx[k] < |xs|
    ensures |r| == |idx|
  {
    seq(|idx|, k requires 0 <= k < |idx| => xs[idx[k]])
  }

  /** The values of `xs` without repeats, each at its first occurrence. */
  function Distinct<T(==)>(xs: seq<T>): seq<T>
  {
    Select(xs, FirstOccurrences(xs))
  }

  /** Every position shares its value with a first occurrence at or before it. */
  lemma {:induction false} FirstOccurrenceOf<T>(xs: seq<T>, i: nat)
    requires i < |xs|
    ensures exists k :: 0 <= k < |FirstOccurrences(xs)|
                        && FirstOccurrences(xs)[k] <= i && xs[FirstOccurrences(xs)[k]] == xs[i]
    decreases i
  {
    var idx := FirstOccurrences(xs);
    if xs[i] in xs[..i] {
      var j :| 0 <= j < i && xs[..i][j] == xs[i];
      FirstOccurrenceOf(xs, j);
    } else {
      FirstOccurrencesMembers(xs, i);
      var k :| 0 <= k < |idx| && idx[k] == i;
    }
  }

  /**
   * Keep-first deduplication: the result has no repeats, holds exactly the
   * values of `xs`, each at the position of its first occurrence, and is no
   * longer than `xs`.
   */
  lemma DistinctSpec<T>(xs: seq<T>)
    ensures AllDistinct(Distinct(xs))
    ensures forall x :: x in Distinct(xs) <==> x in xs
    ensures |Distinct(xs)| <= |xs|
    ensures forall k :: 0 <= k < |Distinct(xs)| ==>
              Distinct(xs)[k] == xs[FirstOccurrences(xs)[k]]
              && Distinct(xs)[k] !in xs[..FirstOccurrences(xs)[k]]
  {
    var idx := FirstOccurrences(xs);
    var d := Distinct(xs);
    forall k | 0 <= k < |d|
      ensures d[k] !in xs[..idx[k]]
    {
      assert idx[k] in idx;
      FirstOccurrencesMembers(xs, idx[k]);
    }
    forall k, l | 0 <= k < l < |d|
      ensures d[k] != d[l]
    {
      assert idx[k] < idx[l];
      assert xs[..idx[l]][idx[k]] == d[k];
    }
    forall x | x in xs
      ensures x in d
    {
      var i :| 0 <= i < |xs| && xs[i] == x;
      FirstOccurrenceOf(xs, i);
      var k :| 0 <= k < |idx| && idx[k] <= i && xs[idx[k]] == xs[i];
      assert d[k] == x;
    }
  }

  /** Appending one value extends the deduplicated sequence only when the value is new. */
  lemma DistinctSnoc<T>(xs: seq<T>, x: T)
    ensures Distinct(xs + [x]) == Distinct(xs) + (if x in xs then [] else [x])
  {
    var ys := xs + [x];
    assert ys[..|xs|] == xs;
  }

  /** The same, for a non-empty sequence and its last element. */
  lemma DistinctLast<T>(xs: seq<T>)
    requires xs != []
    ensures Distinct(xs) == Distinct(xs[..|xs| - 1]) + (if xs[|xs| - 1] in xs[..|xs| - 1] then [] else [xs[|xs| - 1]])
  {
    DistinctSnoc(xs[..|xs| - 1], xs[|xs| - 1]);
    assert xs == xs[..|xs| - 1] + [xs[|xs| - 1]];
  }

  /** `f` applied to every element, in order. */
  function Map<A, B>(xs: seq<A>, f: A -> B): (ys: seq<B>)
    ensures |ys| == |xs|
  {
    if xs == [] then [] else Map(xs[..|xs| - 1], f) + [f(xs[|xs| - 1])]
  }

  /** Element `i` of the mapped sequence is `f` of element `i`. */
  lemma {:induction false} MapAt<A, B>(xs: seq<A>, f: A -> B, i: nat)
    requires i < |xs|
    ensures Map(xs, f)[i] == f(xs[i])
  {
    var n := |xs| - 1;
    if i < n {
      MapAt(xs[..n], f, i);
    }
  }

  /** The concatenation of a sequence of sequences (Python's `list.extend` in a loop). */
  function Flatten<T>(xss: seq<seq<T>>): (r: seq<T>)
  {
    if xss == [] then [] else Flatten(xss[..|xss| - 1]) + xss[|xss| - 1]
  }

  /** Flattening one more member of a prefix appends that member. */
  lemma FlattenPrefixStep<T>(xss: seq<seq<T>>, i: nat)
    requires i < |xss|
    ensures Flatten(xss[..i + 1]) == Flatten(xss[..i]) + xss[i]
  {
    assert xss[..i + 1][..i] == xss[..i];
  }

  /** Every element of a member sequence is an element of the concatenation. */
  lemma {:induction false} FlattenMember<T>(xss: seq<seq<T>>, i: nat, x: T)
    requires i < |xss| && x in xss[i]
    ensures x in Flatten(xss)
  {
    var n := |xss| - 1;
    if i < n {
      FlattenMember(xss[..n], i, x);
    }
  }

  /** The sum of a sequence of naturals. */
  function Sum(xs: seq<nat>): nat
  {
    if xs == [] then 0 else Sum(xs[..|xs| - 1]) + xs[|xs| - 1]
  }

  /** The length of a concatenation is the sum of the lengths. */
  lemma {:induction false} FlattenLength<T>(xss: seq<seq<T>>)
    ensures |Flatten(xss)| == Sum(seq(|xss|, i requires 0 <= i < |xss| => |xss[i]|))
  {
    if xss != [] {
      var n := |xss| - 1;
      FlattenLength(xss[..n]);
      var lens := seq(|xss|, i requires 0 <= i < |xss| => |xss[i]|);
      assert lens[..n] == seq(n, i requires 0 <= i < n => |xss[..n][i]|);
    }
  }
}
