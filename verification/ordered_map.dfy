/** PHP ordered arrays with string keys, as sequences of key/value pairs in
    iteration order. Only the operations the plugin uses are modelled: key
    lookup, and the array union `$left + $right` in the one shape the plugin
    writes it, a one-entry literal on the left. */
module OrderedMap {
  import opened Php

  type OMap<V> = seq<(string, V)>

  function Keys<V>(m: OMap<V>): (ks: seq<string>)
    ensures |ks| == |m|
    ensures forall i :: 0 <= i < |m| ==> ks[i] == m[i].0
  {
    if |m| == 0 then [] else [m[0].0] + Keys(m[1..])
  }

  predicate HasKey<V>(m: OMap<V>, k: string)
  {
    exists i :: 0 <= i < |m| && m[i].0 == k
  }

  /** A PHP array never holds a key twice. */
  predicate UniqueKeys<V>(m: OMap<V>)
  {
    forall i, j :: 0 <= i < j < |m| ==> m[i].0 != m[j].0
  }

  /** `isset($m[$k]) ? $m[$k] : null`: the value stored under `k`. */
  function Get<V>(m: OMap<V>, k: string): (r: Option<V>)
    ensures r.None? <==> !HasKey(m, k)
    ensures r.Some? ==> exists i :: 0 <= i < |m| && m[i] == (k, r.value)
  {
    if |m| == 0 then None
    else if m[0].0 == k then Some(m[0].1)
    else
      var r := Get(m[1..], k);
      assert forall i :: 0 <= i < |m| - 1 ==> m[1..][i] == m[i + 1];
      r
  }

  /** The entries of `m` whose key is not `k`, in their original order. */
  function Without<V>(m: OMap<V>, k: string): (r: OMap<V>)
    ensures !HasKey(r, k)
    ensures |r| <= |m|
    ensures forall e :: e in r ==> e in m
  {
    if |m| == 0 then []
    else if m[0].0 == k then Without(m[1..], k)
    else [m[0]] + Without(m[1..], k)
  }

  /** `array(k => v) + m`: the left operand's entry comes first and wins, so
      an existing `k` moves to the front with the new value. */
  function Prepend<V>(m: OMap<V>, k: string, v: V): (r: OMap<V>)
  {
    [(k, v)] + Without(m, k)
  }

  lemma {:induction false} WithoutGet<V>(m: OMap<V>, k: string, j: string)
    requires j != k
    ensures Get(Without(m, k), j) == Get(m, j)
  {
    if |m| > 0 {
      WithoutGet(m[1..], k, j);
    }
  }

  lemma {:induction false} WithoutUnique<V>(m: OMap<V>, k: string)
    requires UniqueKeys(m)
    ensures UniqueKeys(Without(m, k))
  {
    if |m| > 0 {
      WithoutUnique(m[1..], k);
      var r := Without(m[1..], k);
      if m[0].0 != k {
        forall e | e in r
          ensures e.0 != m[0].0
        {
          var i :| 0 <= i < |m[1..]| && m[1..][i] == e;
          assert m[i + 1] == e;
        }
        var w := [m[0]] + r;
        forall i, j | 0 <= i < j < |w|
          ensures w[i].0 != w[j].0
        {
          if i == 0 {
            assert w[j] in r;
          } else {
            assert w[i] == r[i - 1] && w[j] == r[j - 1];
          }
        }
      }
    }
  }

  lemma {:induction false} WithoutAbsent<V>(m: OMap<V>, k: string)
    requires !HasKey(m, k)
    ensures Without(m, k) == m
  {
    if |m| > 0 {
      assert m[0].0 != k;
      WithoutAbsent(m[1..], k);
    }
  }

  /** Removing a key twice is removing it once, and removals commute. */
  lemma {:induction false} WithoutWithout<V>(m: OMap<V>, k: string, j: string)
    ensures Without(Without(m, k), j) == Without(Without(m, j), k)
  {
    if |m| > 0 {
      WithoutWithout(m[1..], k, j);
    }
  }

  /** Prepending puts the entry first, keeps keys unique, leaves every other
      key's value alone, and keeps every other entry in its relative order. */
  lemma PrependSpec<V>(m: OMap<V>, k: string, v: V)
    ensures Prepend(m, k, v)[0] == (k, v)
    ensures Get(Prepend(m, k, v), k) == Some(v)
    ensures forall j :: j != k ==> Get(Prepend(m, k, v), j) == Get(m, j)
    ensures Without(Prepend(m, k, v), k) == Without(m, k)
    ensures UniqueKeys(m) ==> UniqueKeys(Prepend(m, k, v))
  {
    var r := Prepend(m, k, v);
    forall j | j != k
      ensures Get(r, j) == Get(m, j)
    {
      assert r[1..] == Without(m, k);
      WithoutGet(m, k, j);
    }
    WithoutWithout(m, k, k);
    assert Without(r, k) == Without(Without(m, k), k);
    WithoutAbsent(Without(m, k), k);
    if UniqueKeys(m) {
      WithoutUnique(m, k);
      var w := Without(m, k);
      forall i, j | 0 <= i < j < |r|
        ensures r[i].0 != r[j].0
      {
        if i == 0 {
          assert r[j] == w[j - 1];
          assert !HasKey(w, k);
        } else {
          assert r[i] == w[i - 1] && r[j] == w[j - 1];
        }
      }
    }
  }

  /** The values of `m`, in order: what `in_array` searches. */
  function Values<V>(m: OMap<V>): (vs: seq<V>)
    ensures |vs| == |m|
    ensures forall i :: 0 <= i < |m| ==> vs[i] == m[i].1
  {
    if |m| == 0 then [] else [m[0].1] + Values(m[1..])
  }

  /** `$m[$k] = $v`: an existing key keeps its place and takes the new
      value; a new key is appended. */
  function Put<V>(m: OMap<V>, k: string, v: V): (r: OMap<V>)
    ensures |r| == if HasKey(m, k) then |m| else |m| + 1
  {
    if |m| == 0 then [(k, v)]
    else if m[0].0 == k then [(k, v)] + m[1..]
    else
      HasKeyCons(m, k);
      [m[0]] + Put(m[1..], k, v)
  }

  /** In a PHP array the stored value under each key is the one read back. */
  lemma {:induction false} GetUnique<V>(m: OMap<V>, i: int)
    requires UniqueKeys(m) && 0 <= i < |m|
    ensures Get(m, m[i].0) == Some(m[i].1)
    decreases i
  {
    if i > 0 {
      assert m[0].0 != m[i].0;
      assert m[1..][i - 1] == m[i];
      GetUnique(m[1..], i - 1);
    }
  }

  /** A key is in a non-empty map exactly when it heads it or is in the rest. */
  lemma HasKeyCons<V>(m: OMap<V>, k: string)
    requires |m| > 0
    ensures HasKey(m, k) <==> m[0].0 == k || HasKey(m[1..], k)
  {
    if HasKey(m, k) && m[0].0 != k {
      var i :| 0 <= i < |m| && m[i].0 == k;
      assert m[1..][i - 1].0 == k;
    }
    if HasKey(m[1..], k) {
      var i :| 0 <= i < |m[1..]| && m[1..][i].0 == k;
      assert m[i + 1].0 == k;
    }
  }

  /** After `$m[$k] = $v` the key reads back `v` and every other key reads
      as before. */
  lemma {:induction false} PutGet<V>(m: OMap<V>, k: string, v: V, j: string)
    ensures Get(Put(m, k, v), j) == if j == k then Some(v) else Get(m, j)
    decreases |m|
  {
    if |m| > 0 && m[0].0 != k {
      PutGet(m[1..], k, v, j);
      assert Put(m, k, v)[1..] == Put(m[1..], k, v);
    }
  }

  /** The key order is unchanged by an update and extended by `k` for a new
      key. */
  lemma {:induction false} PutKeys<V>(m: OMap<V>, k: string, v: V)
    ensures Keys(Put(m, k, v)) == if HasKey(m, k) then Keys(m) else Keys(m) + [k]
    decreases |m|
  {
    var r := Put(m, k, v);
    if |m| == 0 {
    } else if m[0].0 == k {
      assert HasKey(m, k) by { assert m[0].0 == k; }
      assert Keys(r) == Keys(m);
    } else {
      PutKeys(m[1..], k, v);
      HasKeyCons(m, k);
      assert r[1..] == Put(m[1..], k, v);
      assert Keys(r) == [m[0].0] + Keys(Put(m[1..], k, v));
      assert Keys(m) == [m[0].0] + Keys(m[1..]);
    }
  }

  /** An assignment keeps a PHP array's keys distinct. */
  lemma PutUnique<V>(m: OMap<V>, k: string, v: V)
    requires UniqueKeys(m)
    ensures UniqueKeys(Put(m, k, v))
  {
    var r := Put(m, k, v);
    PutKeys(m, k, v);
    var ks, km := Keys(r), Keys(m);
    forall a, b | 0 <= a < b < |r|
      ensures r[a].0 != r[b].0
    {
      assert r[a].0 == ks[a] && r[b].0 == ks[b];
      assert ks[a] == km[a] == m[a].0;
      if b < |m| {
        assert ks[b] == km[b] == m[b].0;
      } else {
        assert ks[b] == k && !HasKey(m, k);
      }
    }
  }
}
