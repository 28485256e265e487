/** collections.Counter over a list of values and Counter.most_common(), and
    the "most popular" selection that both dashboards run over the ranking:
    remember the first count, pick the singular or plural header from the
    second entry, then walk the ranking until a smaller count appears. */
module Ranking {
  import opened Wrappers
  import opened Dedup

  /** One (value, count) pair of a Counter. */
  datatype Entry<T> = Entry(value: T, count: nat)

  function CountOf<T>(e: Entry<T>): int { e.count }

  function ValueOf<T>(e: Entry<T>): T { e.value }

  // ------------------------------------------------------------------
  // Counter(xs)

  /** Counter(xs).items(): every distinct value of xs once, in the order of
      its first occurrence, with the number of times it occurs. */
  function Tally<T(==)>(xs: seq<T>): (r: seq<Entry<T>>)
    ensures |r| == |DropDuplicates(xs)| && forall i | 0 <= i < |r| :: r[i].value == DropDuplicates(xs)[i]
    ensures DistinctKeys(r, ValueOf)
    ensures forall i | 0 <= i < |r| :: r[i].value in xs && r[i].count == multiset(xs)[r[i].value] && r[i].count >= 1
    ensures forall x | x in xs :: exists i | 0 <= i < |r| :: r[i].value == x
  {
    var d := DropDuplicates(xs);
    var r := seq(|d|, i requires 0 <= i < |d| => Entry(d[i], multiset(xs)[d[i]]));
    KeysOfIdentity(xs);
    KeysOfIdentity(d);
    assert forall i | 0 <= i < |d| :: d[i] in xs by {
      forall i | 0 <= i < |d| ensures d[i] in xs {
        assert Identity(d[i]) in KeysOf(d, Identity);
      }
    }
    forall x | x in xs ensures exists i | 0 <= i < |r| :: r[i].value == x {
      assert x in KeysOf(d, Identity);
      var i :| 0 <= i < |d| && Identity(d[i]) == x;
      assert r[i].value == x;
    }
    assert forall i | 0 <= i < |r| :: ValueOf(r[i]) == Identity(d[i]);
    r
  }

  /** The counts of a ranking, added up. */
  function SumCounts<T>(s: seq<Entry<T>>): nat
  {
    if s == [] then 0 else s[0].count + SumCounts(s[1..])
  }

  function SumMultiplicities<T(==)>(d: seq<T>, m: multiset<T>): nat
  {
    if d == [] then 0 else m[d[0]] + SumMultiplicities(d[1..], m)
  }

  /** Adding one occurrence of x adds one to the multiplicities of distinct values exactly when x is among them. */
  lemma {:induction false} SumMultiplicitiesAdd<T>(d: seq<T>, m: multiset<T>, x: T)
    requires DistinctKeys(d, Identity)
    ensures SumMultiplicities(d, m + multiset{x}) == SumMultiplicities(d, m) + (if x in d then 1 else 0)
    decreases |d|
  {
    if d != [] {
      assert DistinctKeys(d[1..], Identity) by {
        forall i, j | 0 <= i < j < |d[1..]| ensures Identity(d[1..][i]) != Identity(d[1..][j]) {
          assert d[1..][i] == d[i + 1] && d[1..][j] == d[j + 1];
        }
      }
      SumMultiplicitiesAdd(d[1..], m, x);
      if x == d[0] {
        assert x !in d[1..] by {
          forall j | 0 <= j < |d[1..]| ensures d[1..][j] != x {
            assert Identity(d[0]) != Identity(d[j + 1]);
          }
        }
      } else {
        assert x in d <==> x in d[1..];
      }
    }
  }

  /** Distinct values that cover all of xs have multiplicities adding up to |xs|. */
  lemma {:induction false} SumMultiplicitiesAll<T>(d: seq<T>, xs: seq<T>)
    requires DistinctKeys(d, Identity)
    requires forall x | x in xs :: x in d
    ensures SumMultiplicities(d, multiset(xs)) == |xs|
    decreases |xs|
  {
    if xs == [] {
      SumMultiplicitiesEmpty(d);
    } else {
      var init := xs[..|xs| - 1];
      var last := xs[|xs| - 1];
      assert xs == init + [last];
      assert forall x | x in init :: x in xs;
      SumMultiplicitiesAll(d, init);
      assert multiset(xs) == multiset(init) + multiset{last};
      SumMultiplicitiesAdd(d, multiset(init), last);
    }
  }

  lemma {:induction false} SumMultiplicitiesEmpty<T>(d: seq<T>)
    ensures SumMultiplicities(d, multiset{}) == 0
    decreases |d|
  {
    if d != [] {
      SumMultiplicitiesEmpty(d[1..]);
    }
  }

  lemma {:induction false} SumCountsOfMultiplicities<T>(d: seq<T>, m: multiset<T>, s: seq<Entry<T>>)
    requires |s| == |d|
    requires forall i | 0 <= i < |s| :: s[i].count == m[d[i]]
    ensures SumCounts(s) == SumMultiplicities(d, m)
    decreases |s|
  {
    if s != [] {
      SumCountsOfMultiplicities(d[1..], m, s[1..]);
    }
  }

  /** Listing one more value adds its multiplicity. */
  lemma {:induction false} SumMultiplicitiesSnoc<T>(d: seq<T>, x: T, m: multiset<T>)
    ensures SumMultiplicities(d + [x], m) == SumMultiplicities(d, m) + m[x]
    decreases |d|
  {
    if d == [] {
      assert [] + [x] == [x];
      assert [x][1..] == [];
    } else {
      SumMultiplicitiesSnoc(d[1..], x, m);
      assert (d + [x])[1..] == d[1..] + [x];
    }
  }

  lemma TallyTotal<T>(xs: seq<T>)
    ensures SumCounts(Tally(xs)) == |xs|
  {
    var d := DropDuplicates(xs);
    var t := Tally(xs);
    KeysOfIdentity(xs);
    KeysOfIdentity(d);
    forall x | x in xs ensures x in d {
      assert x in KeysOf(d, Identity);
    }
    forall i | 0 <= i < |t| ensures t[i].count == multiset(xs)[d[i]] {
      assert t[i].value == d[i];
    }
    SumCountsOfMultiplicities(d, multiset(xs), t);
    SumMultiplicitiesAll(d, xs);
  }

  // ------------------------------------------------------------------
  // Python's sorted(..., reverse=True): a stable sort by descending key

  predicate Descending<T>(s: seq<T>, key: T -> int)
  {
    forall i, j | 0 <= i < j < |s| :: key(s[i]) >= key(s[j])
  }

  /** Inserts e in front of the first element whose key is at most e's key. */
  function Insert<T>(e: T, s: seq<T>, key: T -> int): (r: seq<T>)
    requires Descending(s, key)
    ensures multiset(r) == multiset(s) + multiset{e}
    ensures Descending(r, key)
    decreases |s|
  {
    if s == [] || key(s[0]) <= key(e) then
      ConsFront(e, s, key);
      [e] + s
    else
      var head, tail := s[0], s[1..];
      DescendingTail(s, key);
      var rest := Insert(e, tail, key);
      BoundedByHead(head, tail, e, rest, key);
      assert s == [head] + tail;
      [head] + rest
  }

  lemma ConsFront<T>(e: T, s: seq<T>, key: T -> int)
    requires Descending(s, key) && (s == [] || key(s[0]) <= key(e))
    ensures Descending([e] + s, key)
  {
    var r := [e] + s;
    forall i, j | 0 <= i < j < |r| ensures key(r[i]) >= key(r[j]) {
      assert r[j] == s[j - 1];
      if i > 0 {
        assert r[i] == s[i - 1];
      } else {
        assert key(s[0]) >= key(s[j - 1]);
      }
    }
  }

  lemma DescendingTail<T>(s: seq<T>, key: T -> int)
    requires s != [] && Descending(s, key)
    ensures Descending(s[1..], key)
  {
    var t := s[1..];
    forall i, j | 0 <= i < j < |t| ensures key(t[i]) >= key(t[j]) {
      assert t[i] == s[i + 1] && t[j] == s[j + 1];
    }
  }

  lemma BoundedByHead<T>(head: T, tail: seq<T>, e: T, rest: seq<T>, key: T -> int)
    requires Descending([head] + tail, key) && key(e) < key(head)
    requires Descending(rest, key) && multiset(rest) == multiset(tail) + multiset{e}
    ensures Descending([head] + rest, key)
  {
    var r := [head] + rest;
    forall i | 0 <= i < |rest| ensures key(rest[i]) <= key(head) {
      assert rest[i] in multiset(rest);
      if rest[i] != e {
        assert rest[i] in multiset(tail);
        var j :| 0 <= j < |tail| && tail[j] == rest[i];
        assert ([head] + tail)[0] == head && ([head] + tail)[j + 1] == tail[j];
      }
    }
    forall i, j | 0 <= i < j < |r| ensures key(r[i]) >= key(r[j]) {
      assert r[j] == rest[j - 1];
      if i > 0 {
        assert r[i] == rest[i - 1];
      }
    }
  }

  /** Stable sort by descending key: each element of xs goes in front of
      every element of equal key that comes after it in xs. */
  function SortDesc<T>(xs: seq<T>, key: T -> int): (r: seq<T>)
    ensures multiset(r) == multiset(xs)
    ensures Descending(r, key)
    decreases |xs|
  {
    if xs == [] then []
    else
      assert xs == [xs[0]] + xs[1..];
      Insert(xs[0], SortDesc(xs[1..], key), key)
  }

  /** The elements of s whose key is c, in their order in s. */
  function WithKey<T>(s: seq<T>, key: T -> int, c: int): (r: seq<T>)
    ensures forall i | 0 <= i < |r| :: key(r[i]) == c
    decreases |s|
  {
    if s == [] then []
    else (if key(s[0]) == c then [s[0]] else []) + WithKey(s[1..], key, c)
  }

  lemma {:induction false} InsertStable<T>(e: T, s: seq<T>, key: T -> int, c: int)
    requires Descending(s, key)
    ensures WithKey(Insert(e, s, key), key, c) == WithKey([e] + s, key, c)
    decreases |s|
  {
    if s == [] || key(s[0]) <= key(e) {
    } else {
      assert Descending(s[1..], key);
      InsertStable(e, s[1..], key, c);
      var rest := Insert(e, s[1..], key);
      assert ([s[0]] + rest)[1..] == rest;
      assert ([e] + s)[1..] == s;
      assert ([e] + s[1..])[1..] == s[1..];
    }
  }

  /** The sort is stable: for every key, the elements with that key keep their relative order. */
  lemma {:induction false} SortStable<T>(xs: seq<T>, key: T -> int, c: int)
    ensures WithKey(SortDesc(xs, key), key, c) == WithKey(xs, key, c)
    decreases |xs|
  {
    if xs != [] {
      SortStable(xs[1..], key, c);
      InsertStable(xs[0], SortDesc(xs[1..], key), key, c);
      assert ([xs[0]] + SortDesc(xs[1..], key))[1..] == SortDesc(xs[1..], key);
    }
  }

  // ------------------------------------------------------------------
  // Counter(xs).most_common()

  /** most_common(): the Counter's entries by descending count, ties in first-seen order. */
  function MostCommon<T(==)>(xs: seq<T>): seq<Entry<T>>
  {
    SortDesc(Tally(xs), CountOf)
  }

  /** A value occurring m times is among the entries of count m, and those
      entries are listed in the order of the values' first occurrences. */
  lemma MostCommonTies<T>(xs: seq<T>, m: nat)
    ensures WithKey(MostCommon(xs), CountOf, m) == WithKey(Tally(xs), CountOf, m)
    ensures Descending(MostCommon(xs), CountOf)
    ensures multiset(MostCommon(xs)) == multiset(Tally(xs))
  {
    SortStable(Tally(xs), CountOf, m);
  }

  /** The ranking has one entry per distinct value and its counts add up to |xs|. */
  lemma MostCommonTotal<T>(xs: seq<T>)
    ensures |MostCommon(xs)| == |DropDuplicates(xs)|
    ensures SumCounts(MostCommon(xs)) == |xs|
  {
    var t := Tally(xs);
    var r := MostCommon(xs);
    assert |r| == |multiset(r)| == |multiset(t)| == |t|;
    SumCountsPermutation(r, t);
    TallyTotal(xs);
  }

  lemma {:induction false} SumCountsPermutation<T>(a: seq<Entry<T>>, b: seq<Entry<T>>)
    requires multiset(a) == multiset(b)
    ensures SumCounts(a) == SumCounts(b)
    decreases |a|
  {
    if a == [] {
      assert |b| == |multiset(b)| == 0;
    } else {
      assert a[0] in multiset(b);
      var k :| 0 <= k < |b| && b[k] == a[0];
      var rest := b[..k] + b[k + 1..];
      RemoveOne(a, b, k);
      SumCountsPermutation(a[1..], rest);
      SumCountsRemove(b, k);
    }
  }

  lemma RemoveOne<T>(a: seq<T>, b: seq<T>, k: int)
    requires multiset(a) == multiset(b) && |a| >= 1 && 0 <= k < |b| && b[k] == a[0]
    ensures multiset(a[1..]) == multiset(b[..k] + b[k + 1..])
  {
    var x := a[0];
    var rest := b[..k] + b[k + 1..];
    assert b == b[..k] + [x] + b[k + 1..];
    assert multiset(b) == multiset(b[..k]) + multiset{x} + multiset(b[k + 1..]);
    assert multiset(rest) == multiset(b[..k]) + multiset(b[k + 1..]);
    assert a == [x] + a[1..];
    assert multiset(a) == multiset{x} + multiset(a[1..]);
    forall y ensures multiset(a[1..])[y] == multiset(rest)[y] {
      assert multiset(a)[y] == multiset{x}[y] + multiset(a[1..])[y];
      assert multiset(b)[y] == multiset(rest)[y] + multiset{x}[y];
    }
  }

  lemma SumCountsRemove<T>(b: seq<Entry<T>>, k: int)
    requires 0 <= k < |b|
    ensures SumCounts(b) == b[k].count + SumCounts(b[..k] + b[k + 1..])
  {
    var x := b[k];
    SumCountsAppend(b[..k], [x] + b[k + 1..]);
    SumCountsAppend(b[..k], b[k + 1..]);
    assert ([x] + b[k + 1..])[1..] == b[k + 1..];
    assert b == b[..k] + ([x] + b[k + 1..]);
  }

  lemma {:induction false} SumCountsAppend<T>(a: seq<Entry<T>>, b: seq<Entry<T>>)
    ensures SumCounts(a + b) == SumCounts(a) + SumCounts(b)
    decreases |a|
  {
    if a != [] {
      SumCountsAppend(a[1..], b);
      assert (a + b)[1..] == a[1..] + b;
    } else {
      assert a + b == b;
    }
  }

  /** The first entry of the ranking of a non-empty list holds the largest
      number of occurrences of any value. */
  lemma MostCommonFirst<T>(xs: seq<T>)
    requires |xs| >= 1
    ensures |MostCommon(xs)| >= 1
    ensures forall x | x in xs :: multiset(xs)[x] <= MostCommon(xs)[0].count
    ensures MostCommon(xs)[0].value in xs && MostCommon(xs)[0].count == multiset(xs)[MostCommon(xs)[0].value]
  {
    var t := Tally(xs);
    var r := MostCommon(xs);
    assert xs[0] in xs;
    assert |t| >= 1;
    assert |r| == |multiset(r)| == |multiset(t)| == |t|;
    assert r[0] in multiset(t);
    forall x | x in xs ensures multiset(xs)[x] <= r[0].count {
      var i :| 0 <= i < |t| && t[i].value == x;
      assert t[i] in multiset(r);
      var j :| 0 <= j < |r| && r[j] == t[i];
      assert CountOf(r[0]) >= CountOf(r[j]);
    }
  }

  // ------------------------------------------------------------------
  // The "most popular" selection

  /** top is the longest prefix of the ranking whose counts reach the first count. */
  ghost predicate TiedPrefix<T>(ranking: seq<Entry<T>>, top: seq<Entry<T>>)
  {
    && 1 <= |top| <= |ranking|
    && top == ranking[..|top|]
    && (forall i | 0 <= i < |top| :: top[i].count >= ranking[0].count)
    && (|top| < |ranking| ==> ranking[|top|].count < ranking[0].count)
  }

  /** The loop over the ranking that stops at the first count below the first
      entry's count; reading the first count fails on an empty ranking. */
  method SelectTop<T>(ranking: seq<Entry<T>>) returns (r: Result<seq<Entry<T>>, PyError>)
    ensures r.Failure? <==> |ranking| == 0
    ensures r.Failure? ==> r.error == IndexError
    ensures r.Success? ==> TiedPrefix(ranking, r.value)
  {
    if |ranking| == 0 {
      return Failure(IndexError);
    }
    var mostFreq := ranking[0].count;
    var top: seq<Entry<T>> := [];
    var i := 0;
    while i < |ranking|
      invariant 0 <= i <= |ranking|
      invariant top == ranking[..i]
      invariant forall j | 0 <= j < i :: ranking[j].count >= mostFreq
    {
      if ranking[i].count < mostFreq {
        break;
      }
      top := top + [ranking[i]];
      i := i + 1;
    }
    assert i == |ranking| || ranking[i].count < mostFreq;
    assert i >= 1;
    return Success(top);
  }

  /** On a descending ranking, the tied prefix is exactly the entries whose
      count is the first count. */
  lemma TiedPrefixIsWithKey<T>(ranking: seq<Entry<T>>, top: seq<Entry<T>>)
    requires Descending(ranking, CountOf) && TiedPrefix(ranking, top)
    ensures top == WithKey(ranking, CountOf, ranking[0].count)
  {
    var m := ranking[0].count;
    var n := |top|;
    WithKeyAppend(ranking[..n], ranking[n..], CountOf, m);
    assert ranking == ranking[..n] + ranking[n..];
    WithKeyAll(top, CountOf, m);
    WithKeyNone(ranking[n..], CountOf, m);
  }

  lemma {:induction false} WithKeyAppend<T>(a: seq<T>, b: seq<T>, key: T -> int, c: int)
    ensures WithKey(a + b, key, c) == WithKey(a, key, c) + WithKey(b, key, c)
    decreases |a|
  {
    if a != [] {
      WithKeyAppend(a[1..], b, key, c);
      assert (a + b)[1..] == a[1..] + b;
    } else {
      assert a + b == b;
    }
  }

  lemma {:induction false} WithKeyAll<T>(s: seq<T>, key: T -> int, c: int)
    requires forall i | 0 <= i < |s| :: key(s[i]) == c
    ensures WithKey(s, key, c) == s
    decreases |s|
  {
    if s != [] {
      WithKeyAll(s[1..], key, c);
    }
  }

  lemma {:induction false} WithKeyNone<T>(s: seq<T>, key: T -> int, c: int)
    requires forall i | 0 <= i < |s| :: key(s[i]) != c
    ensures WithKey(s, key, c) == []
    decreases |s|
  {
    if s != [] {
      WithKeyNone(s[1..], key, c);
    }
  }

  /** The selected entries of the ranking of a non-empty list are the values
      with the largest number of occurrences, in the order of their first
      occurrences, each with that number. */
  lemma TopOfMostCommon<T>(xs: seq<T>, top: seq<Entry<T>>)
    requires |xs| >= 1 && TiedPrefix(MostCommon(xs), top)
    ensures top == WithKey(Tally(xs), CountOf, MostCommon(xs)[0].count)
    ensures forall x | x in xs :: multiset(xs)[x] <= MostCommon(xs)[0].count
  {
    var r := MostCommon(xs);
    MostCommonTies(xs, r[0].count);
    TiedPrefixIsWithKey(r, top);
    MostCommonFirst(xs);
  }

  /** Lines 158-162 as written: the header reads the second entry, so a
      ranking of fewer than two entries raises IndexError. */
  function PluralHeaderAsWritten<T>(ranking: seq<Entry<T>>): (r: Result<bool, PyError>)
    ensures r.Failure? <==> |ranking| < 2
    ensures r.Failure? ==> r.error == IndexError
  {
    if |ranking| < 2 then Failure(IndexError)
    else Success(ranking[1].count == ranking[0].count)
  }

  /** The header as intended: plural exactly when a second entry ties the
      first; only an empty ranking has no first count to read. */
  function PluralHeader<T>(ranking: seq<Entry<T>>): (r: Result<bool, PyError>)
    ensures r.Failure? <==> |ranking| == 0
    ensures r.Failure? ==> r.error == IndexError
  {
    if |ranking| == 0 then Failure(IndexError)
    else Success(|ranking| >= 2 && ranking[1].count == ranking[0].count)
  }

  /** On a descending ranking the plural header is chosen exactly when more
      than one entry is selected. */
  lemma PluralIffSeveral<T>(ranking: seq<Entry<T>>, top: seq<Entry<T>>)
    requires Descending(ranking, CountOf) && TiedPrefix(ranking, top)
    ensures PluralHeader(ranking) == Success(|top| >= 2)
  {
    if |ranking| >= 2 {
      assert CountOf(ranking[0]) >= CountOf(ranking[1]);
      if |top| >= 2 {
        assert top[1] == ranking[1];
      }
    }
  }

  /** Where both read the second entry they agree. */
  lemma HeadersAgree<T>(ranking: seq<Entry<T>>)
    requires |ranking| >= 2
    ensures PluralHeaderAsWritten(ranking) == PluralHeader(ranking)
  {
  }

  /** As written, the header fails exactly when the list holds fewer than two distinct values. */
  lemma HeaderAsWrittenFails<T>(xs: seq<T>)
    ensures PluralHeaderAsWritten(MostCommon(xs)).Failure? <==> |set x | x in xs| < 2
  {
    MostCommonTotal(xs);
    DedupCount(xs, Identity);
    KeysOfIdentity(xs);
  }

  /** A single book genre (or author, or country): as written the header
      raises IndexError, while one entry is selected and the singular header is due. */
  lemma SingleValueCounterexample(v: string, n: nat)
    requires n >= 1
    ensures PluralHeaderAsWritten(MostCommon(seq(n, _ => v))) == Failure(IndexError)
    ensures PluralHeader(MostCommon(seq(n, _ => v))) == Success(false)
  {
    var xs := seq(n, _ => v);
    assert xs[0] == v;
    assert forall x | x in xs :: x == v;
    assert (set x | x in xs) == {v};
    HeaderAsWrittenFails(xs);
    MostCommonTotal(xs);
    DedupCount(xs, Identity);
    KeysOfIdentity(xs);
  }
}
