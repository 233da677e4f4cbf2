/** Python dictionaries as the reader uses them: keys are unique and keep the
    order in which they were first inserted; assigning to an existing key
    replaces its value in place, and `dict.update` assigns the other
    dictionary's entries one by one, in its order. */
module OrderedDict {
  import opened Wrappers

  predicate UniqueKeys<K(==), V>(d: seq<(K, V)>)
  {
    forall i, j | 0 <= i < j < |d| :: d[i].0 != d[j].0
  }

  /** An insertion-ordered dictionary: its entries in insertion order. */
  type ODict<K(==), V> = d: seq<(K, V)> | UniqueKeys(d) witness []

  /** `list(d.keys())`. */
  function Keys<K, V>(d: seq<(K, V)>): (r: seq<K>)
    ensures |r| == |d|
    ensures forall i :: 0 <= i < |d| ==> r[i] == d[i].0
  {
    seq(|d|, i requires 0 <= i < |d| => d[i].0)
  }

  /** Position of the first entry with key `k`. */
  function IndexOf<K(==), V>(d: seq<(K, V)>, k: K): (r: nat)
    requires k in Keys(d)
    ensures r < |d| && d[r].0 == k
    ensures forall j :: 0 <= j < r ==> d[j].0 != k
  {
    if d[0].0 == k then 0
    else
      assert Keys(d) == [d[0].0] + Keys(d[1..]);
      1 + IndexOf(d[1..], k)
  }

  /** `d.get(k)`. */
  function Get<K(==), V>(d: seq<(K, V)>, k: K): (r: Option<V>)
    ensures r.None? <==> k !in Keys(d)
  {
    if k in Keys(d) then Some(d[IndexOf(d, k)].1) else None
  }

  lemma UniqueIndex<K, V>(d: ODict<K, V>, i: nat)
    requires i < |d|
    ensures d[i].0 in Keys(d)
    ensures IndexOf(d, d[i].0) == i
    ensures Get(d, d[i].0) == Some(d[i].1)
  {
    assert Keys(d)[i] == d[i].0;
  }

  /** `d[k] = v`: `k` maps to `v`, every other key is unchanged, an existing
      key keeps its position and a new key goes last. */
  function Put<K(==,!new), V>(d: ODict<K, V>, k: K, v: V): (r: ODict<K, V>)
    ensures Get(r, k) == Some(v)
    ensures forall k' | k' != k :: Get(r, k') == Get(d, k')
    ensures k in Keys(d) ==> Keys(r) == Keys(d)
    ensures k !in Keys(d) ==> Keys(r) == Keys(d) + [k]
  {
    if k in Keys(d) then
      var i := IndexOf(d, k);
      var r: ODict<K, V> := d[i := (k, v)];
      assert Keys(r) == Keys(d);
      UniqueIndex(r, i);
      forall k' | k' != k
        ensures Get(r, k') == Get(d, k')
      {
        if k' in Keys(d) {
          var j := IndexOf(d, k');
          UniqueIndex(d, j);
          UniqueIndex(r, j);
        }
      }
      r
    else
      var r: ODict<K, V> := d + [(k, v)];
      assert Keys(r) == Keys(d) + [k];
      UniqueIndex(r, |d|);
      forall k' | k' != k
        ensures Get(r, k') == Get(d, k')
      {
        if k' in Keys(d) {
          var j := IndexOf(d, k');
          UniqueIndex(d, j);
          UniqueIndex(r, j);
        }
      }
      r
  }

  /** The keys of `ks` that are not in `have`, in order. */
  function Missing<K(==)>(have: seq<K>, ks: seq<K>): seq<K>
  {
    if ks == [] then []
    else (if ks[0] in have then [] else [ks[0]]) + Missing(have, ks[1..])
  }

  /** The distinct elements of `xs` in the order of their first occurrence:
      the key order of a dictionary whose keys are assigned in the order `xs`. */
  function FirstOccurrences<K(==,!new)>(xs: seq<K>): (r: seq<K>)
    ensures forall x :: x in r <==> x in xs
    ensures forall i, j | 0 <= i < j < |r| :: r[i] != r[j]
  {
    if xs == [] then []
    else
      var n := |xs| - 1;
      var prev := FirstOccurrences(xs[..n]);
      assert forall x :: x in xs <==> x in xs[..n] || x == xs[n];
      if xs[n] in prev then prev else prev + [xs[n]]
  }

  /** A dictionary keyed by the first occurrences of `xs` is keyed by those of
      `xs + [k]` once `k` is put into it. */
  lemma PutFirstOccurrences<K(!new), V>(d: ODict<K, V>, k: K, v: V, xs: seq<K>)
    requires Keys(d) == FirstOccurrences(xs)
    ensures Keys(Put(d, k, v)) == FirstOccurrences(xs + [k])
  {
    assert (xs + [k])[..|xs|] == xs;
  }

  /** `d.update(e)`: keys of `e` take `e`'s values, the rest keep `d`'s, and
      the keys of `d` stay where they were (`UpdateKeyOrder` places the others). */
  function Update<K(==,!new), V>(d: ODict<K, V>, e: ODict<K, V>): (r: ODict<K, V>)
    ensures forall k :: Get(r, k) == if k in Keys(e) then Get(e, k) else Get(d, k)
    ensures |r| >= |d| && Keys(r)[..|d|] == Keys(d)
    decreases |e|
  {
    if e == [] then d
    else
      var d' := Put(d, e[0].0, e[0].1);
      var r := Update(d', Rest(e));
      UpdateStep(d, e, r);
      KeysPrefix(d, d', r);
      r
  }

  /** After `d.update(e)` the keys of `d` come first, in their order, followed
      by the keys of `e` that `d` lacks, in `e`'s order. */
  lemma {:induction false} UpdateKeyOrder<K(!new), V>(d: ODict<K, V>, e: ODict<K, V>)
    ensures Keys(Update(d, e)) == Keys(d) + Missing(Keys(d), Keys(e))
    decreases |e|
  {
    if e == [] {
      assert Keys(d) + [] == Keys(d);
    } else {
      var d' := Put(d, e[0].0, e[0].1);
      UpdateKeyOrder(d', Rest(e));
      UpdateOrder(d, e, Update(d, e));
    }
  }

  /** One assignment of `d.update(e)`, for the key order: a key new to `d`
      goes right after `d`'s keys, before the new keys of the rest of `e`. */
  lemma UpdateOrder<K(!new), V>(d: ODict<K, V>, e: ODict<K, V>, r: ODict<K, V>)
    requires e != []
    requires var d' := Put(d, e[0].0, e[0].1); Keys(r) == Keys(d') + Missing(Keys(d'), Keys(e[1..]))
    ensures Keys(r) == Keys(d) + Missing(Keys(d), Keys(e))
  {
    var k := e[0].0;
    FirstAndRest(e);
    assert Keys(e) == [k] + Keys(e[1..]);
    if k !in Keys(d) {
      MissingSkips(Keys(d), k, Keys(e[1..]));
    }
  }

  /** A key absent from `ks` changes nothing when added to `have`. */
  lemma {:induction false} MissingSkips<K>(have: seq<K>, k: K, ks: seq<K>)
    requires k !in ks
    ensures Missing(have + [k], ks) == Missing(have, ks)
  {
    if ks != [] {
      MissingSkips(have, k, ks[1..]);
    }
  }

  /** The entries after the first, still a dictionary. */
  function Rest<K, V>(e: ODict<K, V>): (r: ODict<K, V>)
    requires e != []
    ensures r == e[1..]
  {
    assert forall i, j | 0 <= i < j < |e[1..]| :: e[1..][i] == e[i + 1] && e[1..][j] == e[j + 1];
    e[1..]
  }

  /** Key prefixes compose: if `d'` starts with the keys of `d` and `r` with
      the keys of `d'`, then `r` starts with the keys of `d`. */
  lemma KeysPrefix<K, V>(d: seq<(K, V)>, d': seq<(K, V)>, r: seq<(K, V)>)
    requires |d'| >= |d| && Keys(d')[..|d|] == Keys(d)
    requires |r| >= |d'| && Keys(r)[..|d'|] == Keys(d')
    ensures |r| >= |d| && Keys(r)[..|d|] == Keys(d)
  {
    assert Keys(r)[..|d|] == Keys(r)[..|d'|][..|d|];
  }

  /** One assignment of `d.update(e)`: if updating `d` with its first entry
      assigned answers like the rest of `e`, the whole update answers like `e`. */
  lemma UpdateStep<K(!new), V>(d: ODict<K, V>, e: ODict<K, V>, r: ODict<K, V>)
    requires e != []
    requires forall k :: Get(r, k) == if k in Keys(e[1..]) then Get(e[1..], k) else Get(Put(d, e[0].0, e[0].1), k)
    ensures forall k :: Get(r, k) == if k in Keys(e) then Get(e, k) else Get(d, k)
  {
    FirstAndRest(e);
  }

  /** The first entry of a dictionary and the dictionary of the remaining
      entries together answer every lookup. */
  lemma FirstAndRest<K(!new), V>(e: ODict<K, V>)
    requires e != []
    ensures e[0].0 !in Keys(e[1..])
    ensures Get(e, e[0].0) == Some(e[0].1)
    ensures forall k | k != e[0].0 :: Get(e[1..], k) == Get(e, k)
    ensures forall k :: k in Keys(e) <==> k == e[0].0 || k in Keys(e[1..])
  {
    var rest: ODict<K, V> := e[1..];
    assert Keys(e) == [e[0].0] + Keys(rest);
    forall j | 0 <= j < |rest|
      ensures Keys(rest)[j] != e[0].0
    {
      assert rest[j] == e[j + 1];
    }
    UniqueIndex(e, 0);
    forall k | k != e[0].0
      ensures Get(rest, k) == Get(e, k)
    {
      RestLookup(e, k);
    }
  }

  lemma RestLookup<K(!new), V>(e: ODict<K, V>, k: K)
    requires e != [] && k != e[0].0
    requires Keys(e) == [e[0].0] + Keys(e[1..])
    ensures Get(e[1..], k) == Get(e, k)
  {
    if k in Keys(e[1..]) {
      var j := IndexOf(e[1..], k);
      assert IndexOf(e, k) == 1 + j;
      assert e[1 + j] == e[1..][j];
    }
  }

  /** After `d.update(e)` a key is present exactly when it was in either. */
  lemma UpdatePresent<K(!new), V>(d: ODict<K, V>, e: ODict<K, V>, k: K)
    ensures Get(Update(d, e), k).Some? <==> Get(d, k).Some? || Get(e, k).Some?
  {
  }
}
