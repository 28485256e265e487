/** pandas' DataFrame.drop_duplicates with its default keep="first": a row
    survives when no earlier row has the same values in the compared columns.
    Rows are elements of a sequence; the compared columns are a key function. */
module Dedup {

  /** The keys of the elements of xs. */
  function KeysOf<T, K(==)>(xs: seq<T>, key: T -> K): set<K>
  {
    set i | 0 <= i < |xs| :: key(xs[i])
  }

  /** No earlier element of xs has the key of xs[i]. */
  predicate FirstWithKey<T, K(==)>(xs: seq<T>, key: T -> K, i: int)
    requires 0 <= i < |xs|
  {
    forall j | 0 <= j < i :: key(xs[j]) != key(xs[i])
  }

  predicate DistinctKeys<T, K(==)>(xs: seq<T>, key: T -> K)
  {
    forall i, j | 0 <= i < j < |xs| :: key(xs[i]) != key(xs[j])
  }

  /** drop_duplicates(subset=...): keeps, in order, each element whose key
      no earlier element carries. The result has pairwise distinct keys,
      the same keys as the input, and only first occurrences. */
  function DedupBy<T, K(==)>(xs: seq<T>, key: T -> K): (r: seq<T>)
    ensures |r| <= |xs|
    ensures DistinctKeys(r, key)
    ensures KeysOf(r, key) == KeysOf(xs, key)
    ensures forall j | 0 <= j < |r| :: exists i | 0 <= i < |xs| :: r[j] == xs[i] && FirstWithKey(xs, key, i)
    decreases |xs|
  {
    if xs == [] then []
    else
      var init := xs[..|xs| - 1];
      var last := xs[|xs| - 1];
      var kept := DedupBy(init, key);
      assert xs == init + [last];
      KeysOfSnoc(init, last, key);
      assert forall i | 0 <= i < |init| && FirstWithKey(init, key, i) :: FirstWithKey(xs, key, i);
      if key(last) in KeysOf(init, key) then kept
      else
        var r := kept + [last];
        KeysOfSnoc(kept, last, key);
        assert FirstWithKey(xs, key, |xs| - 1);
        assert forall j | 0 <= j < |kept| :: r[j] == kept[j];
        assert forall j | 0 <= j < |kept| :: key(r[j]) in KeysOf(init, key);
        r
  }

  lemma KeysOfSnoc<T, K>(xs: seq<T>, x: T, key: T -> K)
    ensures KeysOf(xs + [x], key) == KeysOf(xs, key) + {key(x)}
  {
    var ys := xs + [x];
    assert forall i | 0 <= i < |xs| :: ys[i] == xs[i];
    assert ys[|xs|] == x;
  }

  function Identity<T>(x: T): T { x }

  /** drop_duplicates() with no subset: whole elements are compared. */
  function DropDuplicates<T(==)>(xs: seq<T>): seq<T>
  {
    DedupBy(xs, Identity)
  }

  lemma KeysOfIdentity<T>(xs: seq<T>)
    ensures KeysOf(xs, Identity) == set x | x in xs
  {
    forall x | x in xs ensures x in KeysOf(xs, Identity) {
      var i :| 0 <= i < |xs| && xs[i] == x;
      assert Identity(xs[i]) == x;
    }
  }

  /** Dropping duplicates keeps exactly the values that occur. */
  lemma DropDuplicatesMembers<T>(xs: seq<T>)
    ensures forall x :: x in DropDuplicates(xs) <==> x in xs
  {
    var d := DropDuplicates(xs);
    KeysOfIdentity(xs);
    KeysOfIdentity(d);
    assert KeysOf(d, Identity) == KeysOf(xs, Identity);
    var sd, sx := set y | y in d, set y | y in xs;
    assert sd == sx;
    forall x ensures x in d <==> x in xs {
      if x in d {
        assert x in sd;
      }
      if x in xs {
        assert x in sx;
      }
    }
  }

  /** One more element is kept, at the end, exactly when its key is new. */
  lemma DedupBySnoc<T, K>(xs: seq<T>, x: T, key: T -> K)
    ensures DedupBy(xs + [x], key) == if key(x) in KeysOf(xs, key) then DedupBy(xs, key) else DedupBy(xs, key) + [x]
  {
    var ys := xs + [x];
    assert ys[..|ys| - 1] == xs;
  }

  /** One more element is kept exactly when it is new. */
  lemma DropDuplicatesSnoc<T>(xs: seq<T>, x: T)
    ensures DropDuplicates(xs + [x]) == if x in xs then DropDuplicates(xs) else DropDuplicates(xs) + [x]
  {
    DedupBySnoc(xs, x, Identity);
    KeysOfIdentity(xs);
  }

  /** A sequence with pairwise distinct keys has as many elements as keys. */
  lemma {:induction false} DistinctKeysCount<T, K>(xs: seq<T>, key: T -> K)
    requires DistinctKeys(xs, key)
    ensures |KeysOf(xs, key)| == |xs|
    decreases |xs|
  {
    if xs != [] {
      var init := xs[..|xs| - 1];
      assert DistinctKeys(init, key) by {
        assert forall i | 0 <= i < |init| :: init[i] == xs[i];
      }
      DistinctKeysCount(init, key);
      assert forall i | 0 <= i < |init| :: init[i] == xs[i];
      assert xs == init + [xs[|xs| - 1]];
      KeysOfSnoc(init, xs[|xs| - 1], key);
      assert key(xs[|xs| - 1]) !in KeysOf(init, key);
    }
  }

  /** Dropping duplicates leaves one element per distinct key. */
  lemma DedupCount<T, K>(xs: seq<T>, key: T -> K)
    ensures |DedupBy(xs, key)| == |KeysOf(xs, key)|
  {
    DistinctKeysCount(DedupBy(xs, key), key);
  }

  /** Every first occurrence survives: the kept elements are exactly the
      first occurrences of their keys. */
  lemma DedupKeepsFirsts<T, K>(xs: seq<T>, key: T -> K, i: int)
    requires 0 <= i < |xs| && FirstWithKey(xs, key, i)
    ensures xs[i] in DedupBy(xs, key)
  {
    var r := DedupBy(xs, key);
    assert key(xs[i]) in KeysOf(r, key);
    var j :| 0 <= j < |r| && key(r[j]) == key(xs[i]);
    var i' :| 0 <= i' < |xs| && r[j] == xs[i'] && FirstWithKey(xs, key, i');
  }

  /** The kept elements stay in input order: of two first occurrences, the
      earlier is kept before the later. */
  lemma {:induction false} DedupKeepsOrder<T, K>(xs: seq<T>, key: T -> K, i1: int, i2: int)
    requires 0 <= i1 < i2 < |xs| && FirstWithKey(xs, key, i1) && FirstWithKey(xs, key, i2)
    ensures exists j1, j2 | 0 <= j1 < j2 < |DedupBy(xs, key)| :: DedupBy(xs, key)[j1] == xs[i1] && DedupBy(xs, key)[j2] == xs[i2]
    decreases |xs|
  {
    var init := xs[..|xs| - 1];
    var last := xs[|xs| - 1];
    var kept := DedupBy(init, key);
    var r := DedupBy(xs, key);
    assert xs == init + [last];
    DedupBySnoc(init, last, key);
    assert FirstWithKey(init, key, i1);
    if i2 == |xs| - 1 {
      assert key(last) !in KeysOf(init, key);
      DedupKeepsFirsts(init, key, i1);
      var j1 :| 0 <= j1 < |kept| && kept[j1] == xs[i1];
      assert r == kept + [last];
      assert r[j1] == xs[i1] && r[|kept|] == xs[i2];
    } else {
      assert FirstWithKey(init, key, i2);
      DedupKeepsOrder(init, key, i1, i2);
      var j1, j2 :| 0 <= j1 < j2 < |kept| && kept[j1] == xs[i1] && kept[j2] == xs[i2];
      assert r[j1] == kept[j1] && r[j2] == kept[j2];
    }
  }

  /** Sequences holding the same elements have the same keys. */
  lemma KeysOfSameElements<T, K>(xs: seq<T>, ys: seq<T>, key: T -> K)
    requires forall x :: x in xs <==> x in ys
    ensures KeysOf(xs, key) == KeysOf(ys, key)
  {
    forall k | k in KeysOf(xs, key) ensures k in KeysOf(ys, key) {
      var i :| 0 <= i < |xs| && key(xs[i]) == k;
      assert xs[i] in ys;
      var j :| 0 <= j < |ys| && ys[j] == xs[i];
    }
    forall k | k in KeysOf(ys, key) ensures k in KeysOf(xs, key) {
      var j :| 0 <= j < |ys| && key(ys[j]) == k;
      assert ys[j] in xs;
      var i :| 0 <= i < |xs| && xs[i] == ys[j];
    }
  }

  lemma DistinctKeysTail<T, K>(xs: seq<T>, key: T -> K)
    requires xs != [] && DistinctKeys(xs, key)
    ensures DistinctKeys(xs[1..], key)
  {
    var tail := xs[1..];
    forall i, j | 0 <= i < j < |tail| ensures key(tail[i]) != key(tail[j]) {
      assert tail[i] == xs[i + 1] && tail[j] == xs[j + 1];
    }
  }

  /** In a sequence with distinct keys every element occurs at most once. */
  lemma {:induction false} DistinctOnce<T, K>(xs: seq<T>, key: T -> K, x: T)
    requires DistinctKeys(xs, key)
    ensures multiset(xs)[x] <= 1
  {
    if xs != [] {
      var rest := xs[1..];
      assert xs == [xs[0]] + rest;
      DistinctKeysTail(xs, key);
      DistinctOnce(rest, key, x);
      if xs[0] == x {
        forall j | 0 <= j < |rest| ensures rest[j] != x {
          assert key(xs[0]) != key(xs[j + 1]);
        }
      }
    }
  }

  /** An element at two positions occurs at least twice. */
  lemma TwiceCounted<T>(xs: seq<T>, i: int, j: int)
    requires 0 <= i < j < |xs| && xs[i] == xs[j]
    ensures multiset(xs)[xs[i]] >= 2
  {
    var front, back := xs[..j], xs[j..];
    assert xs == front + back;
    assert front[i] == xs[i] && back[0] == xs[j];
    assert multiset(xs) == multiset(front) + multiset(back);
  }

  /** Reordering a sequence keeps its keys distinct. */
  lemma PermutationKeepsDistinctKeys<T, K>(a: seq<T>, b: seq<T>, key: T -> K)
    requires multiset(a) == multiset(b) && DistinctKeys(a, key)
    ensures DistinctKeys(b, key)
  {
    forall i, j | 0 <= i < j < |b| ensures key(b[i]) != key(b[j]) {
      if key(b[i]) == key(b[j]) {
        assert b[i] in multiset(a) && b[j] in multiset(a);
        var p :| 0 <= p < |a| && a[p] == b[i];
        var q :| 0 <= q < |a| && a[q] == b[j];
        assert p == q;
        TwiceCounted(b, i, j);
        DistinctOnce(a, key, b[i]);
        assert false;
      }
    }
  }
}
