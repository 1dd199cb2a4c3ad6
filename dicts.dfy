/**
 * Python dictionaries as the scribe uses them: insertion-ordered, so that the
 * JSON written from them lists keys in the order they were first added.
 * A dictionary is a sequence of key/value pairs with no key twice.
 */
module Dicts {
  import opened Wrappers

  type Dict<K, V> = seq<(K, V)>

  /** The keys, in insertion order. */
  function Keys<K, V>(d: Dict<K, V>): (ks: seq<K>)
    ensures |ks| == |d| && forall i :: 0 <= i < |d| ==> ks[i] == d[i].0
  {
    if d == [] then [] else [d[0].0] + Keys(d[1..])
  }

  /** No element occurs twice. */
  predicate Distinct<T(==)>(s: seq<T>)
  {
    forall i, j :: 0 <= i < j < |s| ==> s[i] != s[j]
  }

  /** `d.get(k)`. */
  function Get<K(==), V>(d: Dict<K, V>, k: K): (r: Option<V>)
    ensures r.None? <==> k !in Keys(d)
  {
    if d == [] then None
    else
      assert Keys(d) == [d[0].0] + Keys(d[1..]);
      if d[0].0 == k then Some(d[0].1) else Get(d[1..], k)
  }

  /** A property of every stored value holds of the value `Get` finds. */
  lemma {:induction false} GetHolds<K, V>(d: Dict<K, V>, k: K, p: V -> bool)
    requires Get(d, k).Some? && forall i :: 0 <= i < |d| ==> p(d[i].1)
    ensures p(Get(d, k).value)
  {
    if d[0].0 != k {
      assert forall i :: 0 <= i < |d[1..]| ==> d[1..][i] == d[i + 1];
      GetHolds(d[1..], k, p);
    }
  }

  /** `d.get(k, default)`. */
  function GetOr<K(==), V>(d: Dict<K, V>, k: K, default: V): V
  {
    match Get(d, k)
    case None => default
    case Some(v) => v
  }

  /**
   * `d[k] = v`: the value under `k` becomes `v`, every other key keeps its
   * value, and a new key goes last while an old one keeps its place.
   */
  function Put<K(==,!new), V>(d: Dict<K, V>, k: K, v: V): (r: Dict<K, V>)
    ensures Get(r, k) == Some(v)
    ensures forall j :: j != k ==> Get(r, j) == Get(d, j)
  {
    if d == [] then [(k, v)]
    else if d[0].0 == k then
      var r := [(k, v)] + d[1..];
      assert r[0] == (k, v) && r[1..] == d[1..];
      r
    else
      var tail := Put(d[1..], k, v);
      var r := [d[0]] + tail;
      assert r[0] == d[0] && r[1..] == tail;
      r
  }

  /** A key already present keeps its place; a new key goes last. */
  lemma {:induction false} PutKeys<K(!new), V>(d: Dict<K, V>, k: K, v: V)
    ensures Keys(Put(d, k, v)) == if k in Keys(d) then Keys(d) else Keys(d) + [k]
  {
    if d != [] {
      var r := Put(d, k, v);
      assert Keys(d) == [d[0].0] + Keys(d[1..]);
      if d[0].0 == k {
        assert r == [(k, v)] + d[1..] && r[1..] == d[1..];
        assert Keys(r) == [k] + Keys(d[1..]);
      } else {
        PutKeys(d[1..], k, v);
        assert r == [d[0]] + Put(d[1..], k, v) && r[1..] == Put(d[1..], k, v);
        assert Keys(r) == [d[0].0] + Keys(Put(d[1..], k, v));
      }
    }
  }

  /** Storing a value keeps the keys distinct. */
  lemma PutDistinct<K(!new), V>(d: Dict<K, V>, k: K, v: V)
    requires Distinct(Keys(d))
    ensures Distinct(Keys(Put(d, k, v)))
  {
    PutKeys(d, k, v);
    var ks := Keys(d);
    if k !in ks {
      var ks' := ks + [k];
      forall i, j | 0 <= i < j < |ks'|
        ensures ks'[i] != ks'[j]
      {
        assert ks'[i] == ks[i];
        if j < |ks| {
          assert ks'[j] == ks[j];
        }
      }
    }
  }

  /** Storing the value a key already has changes nothing. */
  lemma {:induction false} PutSame<K(!new), V>(d: Dict<K, V>, k: K, v: V)
    requires Get(d, k) == Some(v)
    ensures Put(d, k, v) == d
  {
    assert d == [d[0]] + d[1..];
    if d[0].0 == k {
      assert d[0] == (k, v);
      assert Put(d, k, v) == [(k, v)] + d[1..];
    } else {
      assert Get(d[1..], k) == Some(v);
      PutSame(d[1..], k, v);
      assert Put(d, k, v) == [d[0]] + Put(d[1..], k, v);
    }
  }

  /** Storing under a new key appends the pair. */
  lemma {:induction false} PutNew<K(!new), V>(d: Dict<K, V>, k: K, v: V)
    requires k !in Keys(d)
    ensures Put(d, k, v) == d + [(k, v)]
  {
    if d != [] {
      assert Keys(d) == [d[0].0] + Keys(d[1..]);
      assert d[0].0 != k && k !in Keys(d[1..]);
      PutNew(d[1..], k, v);
      assert Put(d, k, v) == [d[0]] + Put(d[1..], k, v);
      assert [d[0]] + (d[1..] + [(k, v)]) == d + [(k, v)];
    }
  }

  /** A property every stored value has, and the new value too, holds of every value after `Put`. */
  lemma {:induction false} PutValues<K(!new), V>(d: Dict<K, V>, k: K, v: V, p: V -> bool)
    requires p(v) && forall i :: 0 <= i < |d| ==> p(d[i].1)
    ensures forall i :: 0 <= i < |Put(d, k, v)| ==> p(Put(d, k, v)[i].1)
  {
    if d != [] && d[0].0 != k {
      assert forall i :: 0 <= i < |d[1..]| ==> d[1..][i] == d[i + 1];
      PutValues(d[1..], k, v, p);
      var r := Put(d, k, v);
      assert forall i :: 0 < i < |r| ==> r[i] == Put(d[1..], k, v)[i - 1];
    }
  }

  /** The sum of `f` over the values. */
  function SumBy<K, V>(d: Dict<K, V>, f: V -> int): (s: int)
    ensures (forall i :: 0 <= i < |d| ==> f(d[i].1) >= 0) ==> s >= 0
  {
    if d == [] then 0 else f(d[0].1) + SumBy(d[1..], f)
  }

  /** The number of values for which `p` holds. */
  function CountBy<K, V>(d: Dict<K, V>, p: V -> bool): (n: nat)
    ensures n <= |d|
  {
    if d == [] then 0 else (if p(d[0].1) then 1 else 0) + CountBy(d[1..], p)
  }

  /** A sum of non-negative terms is zero exactly when every term is. */
  lemma {:induction false} SumByZero<K, V>(d: Dict<K, V>, f: V -> int)
    requires forall i :: 0 <= i < |d| ==> f(d[i].1) >= 0
    ensures SumBy(d, f) == 0 <==> forall i :: 0 <= i < |d| ==> f(d[i].1) == 0
  {
    if d != [] {
      assert forall i :: 0 <= i < |d[1..]| ==> d[1..][i] == d[i + 1];
      SumByZero(d[1..], f);
    }
  }

  /** Every value is counted exactly when `p` holds for all of them. */
  lemma {:induction false} CountByAll<K, V>(d: Dict<K, V>, p: V -> bool)
    ensures CountBy(d, p) == |d| <==> forall i :: 0 <= i < |d| ==> p(d[i].1)
  {
    if d != [] {
      assert forall i :: 0 <= i < |d[1..]| ==> d[1..][i] == d[i + 1];
      CountByAll(d[1..], p);
    }
  }

  /** Storing a value changes a sum by the difference between the new and the replaced value. */
  lemma {:induction false} SumByPut<K(!new), V>(d: Dict<K, V>, k: K, v: V, f: V -> int)
    requires Distinct(Keys(d))
    ensures SumBy(Put(d, k, v), f) == SumBy(d, f) + f(v) - (match Get(d, k) case None => 0 case Some(w) => f(w))
  {
    if d != [] {
      assert Keys(d) == [d[0].0] + Keys(d[1..]);
      assert Distinct(Keys(d[1..])) by {
        forall i, j | 0 <= i < j < |d[1..]| ensures Keys(d[1..])[i] != Keys(d[1..])[j] {
          assert Keys(d)[i + 1] != Keys(d)[j + 1];
        }
      }
      if d[0].0 == k {
        assert Get(d[1..], k).None? by {
          forall i | 0 <= i < |Keys(d[1..])| ensures Keys(d[1..])[i] != k {
            assert Keys(d)[i + 1] == Keys(d[1..])[i];
          }
        }
        assert ([(k, v)] + d[1..])[1..] == d[1..];
      } else {
        SumByPut(d[1..], k, v, f);
        assert ([d[0]] + Put(d[1..], k, v))[1..] == Put(d[1..], k, v);
      }
    }
  }

  /** A count is at most a sum to which each counted value adds at least one. */
  lemma {:induction false} CountBelowSum<K, V>(d: Dict<K, V>, p: V -> bool, f: V -> int)
    requires forall i :: 0 <= i < |d| ==> f(d[i].1) >= if p(d[i].1) then 1 else 0
    ensures CountBy(d, p) <= SumBy(d, f)
  {
    if d != [] {
      assert forall i :: 0 <= i < |d[1..]| ==> d[1..][i] == d[i + 1];
      CountBelowSum(d[1..], p, f);
    }
  }
}
