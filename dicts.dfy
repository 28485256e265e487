/** A Python dict: a finite map that remembers the order in which its keys
    were first inserted. Assigning to a key already present keeps its place. */
module Dicts {
  import opened Dedup

  datatype Dict<K(==), V> = Dict(keys: seq<K>, entries: map<K, V>)

  /** The keys are listed once each, and exactly the keys of the map are listed. */
  predicate Valid<K(==), V>(d: Dict<K, V>)
  {
    && DistinctKeys(d.keys, Identity)
    && (forall k | k in d.entries :: k in d.keys)
    && (forall i | 0 <= i < |d.keys| :: d.keys[i] in d.entries)
  }

  function Empty<K(==), V>(): (r: Dict<K, V>)
    ensures Valid(r) && r.keys == []
  {
    Dict([], map[])
  }

  /** d[k] = v: a new key goes to the end, an existing key keeps its place. */
  function Put<K(==), V>(d: Dict<K, V>, k: K, v: V): (r: Dict<K, V>)
    requires Valid(d)
    ensures Valid(r)
    ensures r.entries == d.entries[k := v]
    ensures r.keys == if k in d.entries then d.keys else d.keys + [k]
  {
    if k in d.entries then Dict(d.keys, d.entries[k := v])
    else
      var keys := d.keys + [k];
      assert forall i | 0 <= i < |d.keys| :: keys[i] == d.keys[i];
      Dict(keys, d.entries[k := v])
  }

  /** list(d.values()): the values in key order. */
  function Values<K(==), V>(d: Dict<K, V>): (r: seq<V>)
    requires Valid(d)
    ensures |r| == |d.keys|
    ensures forall i | 0 <= i < |r| :: r[i] == d.entries[d.keys[i]]
  {
    seq(|d.keys|, i requires 0 <= i < |d.keys| => d.entries[d.keys[i]])
  }

  /** The sum of m's values at the listed keys. */
  function SumAt<K(==)>(keys: seq<K>, m: map<K, int>): int
    requires forall i | 0 <= i < |keys| :: keys[i] in m
  {
    if keys == [] then 0 else m[keys[0]] + SumAt(keys[1..], m)
  }

  function Sum(xs: seq<int>): int
  {
    if xs == [] then 0 else xs[0] + Sum(xs[1..])
  }

  lemma {:induction false} SumSnoc(xs: seq<int>, x: int)
    ensures Sum(xs + [x]) == Sum(xs) + x
    decreases |xs|
  {
    if xs == [] {
      assert [] + [x] == [x];
    } else {
      SumSnoc(xs[1..], x);
      assert (xs + [x])[1..] == xs[1..] + [x];
    }
  }

  /** Changing the value of a key listed once changes the sum by the same amount;
      changing a key not listed changes nothing. */
  lemma {:induction false} SumAtUpdate<K>(keys: seq<K>, m: map<K, int>, k: K, v: int)
    requires forall i | 0 <= i < |keys| :: keys[i] in m
    requires DistinctKeys(keys, Identity) && k in m
    ensures SumAt(keys, m[k := v]) == SumAt(keys, m) + (if k in keys then v - m[k] else 0)
    decreases |keys|
  {
    if keys != [] {
      var tail := keys[1..];
      assert DistinctKeys(tail, Identity) by {
        forall i, j | 0 <= i < j < |tail| ensures Identity(tail[i]) != Identity(tail[j]) {
          assert tail[i] == keys[i + 1] && tail[j] == keys[j + 1];
        }
      }
      SumAtUpdate(tail, m, k, v);
      if k == keys[0] {
        assert k !in tail by {
          forall j | 0 <= j < |tail| ensures tail[j] != k {
            assert Identity(keys[0]) != Identity(keys[j + 1]);
          }
        }
      } else {
        assert k in keys <==> k in tail;
      }
    }
  }

  /** A key appended at the end adds its value; the earlier keys keep theirs. */
  lemma {:induction false} SumAtSnoc<K>(keys: seq<K>, m: map<K, int>, k: K, v: int)
    requires forall i | 0 <= i < |keys| :: keys[i] in m
    requires k !in keys
    ensures SumAt(keys + [k], m[k := v]) == SumAt(keys, m) + v
    decreases |keys|
  {
    if keys == [] {
      assert [] + [k] == [k];
    } else {
      SumAtSnoc(keys[1..], m, k, v);
      assert (keys + [k])[1..] == keys[1..] + [k];
    }
  }

  /** The sum of the values of a valid dict. */
  function Total<K(==)>(d: Dict<K, int>): int
    requires Valid(d)
  {
    SumAt(d.keys, d.entries)
  }

  /** The sum of the values is the sum of the list of values. */
  lemma {:induction false} TotalIsSumOfValues<K>(keys: seq<K>, m: map<K, int>)
    requires forall i | 0 <= i < |keys| :: keys[i] in m
    ensures SumAt(keys, m) == Sum(seq(|keys|, i requires 0 <= i < |keys| => m[keys[i]]))
    decreases |keys|
  {
    if keys != [] {
      TotalIsSumOfValues(keys[1..], m);
      var vs := seq(|keys|, i requires 0 <= i < |keys| => m[keys[i]]);
      assert vs[1..] == seq(|keys[1..]|, i requires 0 <= i < |keys[1..]| => m[keys[1..][i]]);
    }
  }

  // ------------------------------------------------------------------
  // {k: v for k, v in zip(ks, vs)}

  /** The last index j < n with xs[j] == x. */
  predicate LastAt<T(==)>(xs: seq<T>, n: int, x: T, j: int)
    requires 0 <= n <= |xs|
  {
    0 <= j < n && xs[j] == x && forall j' | j < j' < n :: xs[j'] != x
  }

  /** dict(zip(ks, vs)) for the first n pairs: later pairs overwrite earlier ones. */
  function ZipPrefix<K(==), V>(ks: seq<K>, vs: seq<V>, n: nat): (r: Dict<K, V>)
    requires n <= |ks| && n <= |vs|
    ensures Valid(r)
    ensures r.keys == DropDuplicates(ks[..n])
    ensures forall k | k in r.entries :: exists j :: LastAt(ks, n, k, j) && r.entries[k] == vs[j]
    decreases n
  {
    if n == 0 then Empty()
    else
      var prev := ZipPrefix(ks, vs, n - 1);
      ZipStep(ks, vs, n, prev);
      Put(prev, ks[n - 1], vs[n - 1])
  }

  lemma ZipStep<K, V>(ks: seq<K>, vs: seq<V>, n: nat, prev: Dict<K, V>)
    requires 1 <= n <= |ks| && n <= |vs|
    requires Valid(prev) && prev.keys == DropDuplicates(ks[..n - 1])
    requires forall k | k in prev.entries :: exists j :: LastAt(ks, n - 1, k, j) && prev.entries[k] == vs[j]
    ensures Put(prev, ks[n - 1], vs[n - 1]).keys == DropDuplicates(ks[..n])
    ensures var r := Put(prev, ks[n - 1], vs[n - 1]);
      forall k | k in r.entries :: exists j :: LastAt(ks, n, k, j) && r.entries[k] == vs[j]
  {
    ZipStepKeys(ks, n, prev, vs[n - 1]);
    ZipStepValues(ks, vs, n, prev);
  }

  lemma ZipStepKeys<K, V>(ks: seq<K>, n: nat, prev: Dict<K, V>, v: V)
    requires 1 <= n <= |ks|
    requires Valid(prev) && prev.keys == DropDuplicates(ks[..n - 1])
    ensures Put(prev, ks[n - 1], v).keys == DropDuplicates(ks[..n])
  {
    var init, x := ks[..n - 1], ks[n - 1];
    assert ks[..n] == init + [x];
    DropDuplicatesSnoc(init, x);
    DropDuplicatesMembers(init);
    assert x in prev.entries <==> x in init;
  }

  lemma ZipStepValues<K, V>(ks: seq<K>, vs: seq<V>, n: nat, prev: Dict<K, V>)
    requires 1 <= n <= |ks| && n <= |vs|
    requires Valid(prev)
    requires forall k | k in prev.entries :: exists j :: LastAt(ks, n - 1, k, j) && prev.entries[k] == vs[j]
    ensures var r := Put(prev, ks[n - 1], vs[n - 1]);
      forall k | k in r.entries :: exists j :: LastAt(ks, n, k, j) && r.entries[k] == vs[j]
  {
    var r := Put(prev, ks[n - 1], vs[n - 1]);
    forall k | k in r.entries ensures exists j :: LastAt(ks, n, k, j) && r.entries[k] == vs[j] {
      if k == ks[n - 1] {
        assert LastAt(ks, n, k, n - 1);
      } else {
        var j :| LastAt(ks, n - 1, k, j) && prev.entries[k] == vs[j];
        assert LastAt(ks, n, k, j);
      }
    }
  }

  /** {k: v for k, v in zip(ks, vs)}: pairing stops at the shorter list; each key
      takes the value of its last pair, and keys keep their first-seen order. */
  function ZipDict<K(==), V>(ks: seq<K>, vs: seq<V>): (r: Dict<K, V>)
    ensures Valid(r)
    ensures r.keys == DropDuplicates(ks[..if |ks| <= |vs| then |ks| else |vs|])
    ensures forall k | k in r.entries ::
      exists j :: LastAt(ks, if |ks| <= |vs| then |ks| else |vs|, k, j) && r.entries[k] == vs[j]
  {
    ZipPrefix(ks, vs, if |ks| <= |vs| then |ks| else |vs|)
  }

  /** Two last positions of the same key are the same position. */
  lemma LastAtUnique<T>(xs: seq<T>, n: int, x: T, i: int, j: int)
    requires 0 <= n <= |xs| && LastAt(xs, n, x, i) && LastAt(xs, n, x, j)
    ensures i == j
  {
    assert !(i < j) && !(j < i);
  }

  /** A key paired for the last time at position i takes the value at i. */
  lemma ZipLastWins<K, V>(ks: seq<K>, vs: seq<V>, i: nat)
    requires i < |ks| && i < |vs|
    requires forall j | i < j < |ks| && j < |vs| :: ks[j] != ks[i]
    ensures var d := ZipDict(ks, vs);
      ks[i] in d.entries && d.entries[ks[i]] == vs[i]
  {
    var n := if |ks| <= |vs| then |ks| else |vs|;
    var d := ZipDict(ks, vs);
    DropDuplicatesMembers(ks[..n]);
    assert ks[i] == ks[..n][i];
    assert ks[i] in d.keys;
    var p :| 0 <= p < |d.keys| && d.keys[p] == ks[i];
    var j :| LastAt(ks, n, ks[i], j) && d.entries[ks[i]] == vs[j];
    assert LastAt(ks, n, ks[i], i);
    LastAtUnique(ks, n, ks[i], i, j);
  }
}
