/** The two accumulation loops that both dashboards run: books per decade of
    writing or publication, and pages read per month of meetings. */
module Aggregation {
  import opened Wrappers
  import opened Dedup
  import opened Dicts
  import opened Books

  // ------------------------------------------------------------------
  // Books per decade

  /** A decade bucket (first year, last year) as the code labels it. */
  datatype Decade = Decade(first: int, last: int)

  /** y rounded down to a multiple of ten (Python's % with a positive divisor
      never returns a negative number, as Dafny's does). */
  function Floor10(y: int): (r: int)
    ensures r <= y < r + 10 && r % 10 == 0
  {
    y - y % 10
  }

  /** The bucket of a year: (y - y % 10 + 1, y + (10 - y % 10)). It covers the
      ten years Floor10(y) .. Floor10(y) + 9 and is labelled one year later,
      so a year ending in 0 goes to the bucket ending ten years after it. */
  function DecadeKey(y: int): (r: Decade)
    ensures r.first == Floor10(y) + 1 && r.last == Floor10(y) + 10
    ensures r.first - 1 <= y <= r.last - 1
  {
    Decade(y - y % 10 + 1, y + (10 - y % 10))
  }

  /** Python's list(range(start, stop, 10)). */
  function RangeBy10(start: int, stop: int): (r: seq<int>)
    ensures |r| == if start >= stop then 0 else (stop - start + 9) / 10
    ensures forall i | 0 <= i < |r| :: r[i] == start + 10 * i
    decreases stop - start
  {
    if start >= stop then [] else [start] + RangeBy10(start + 10, stop)
  }

  /** The bucket labels of lines 336-341: the multiples of ten from the first
      year's decade to one past the last year's decade, paired up neighbour by neighbour. */
  function DecadeLabels(firstYear: int, lastYear: int): (r: seq<Decade>)
    requires firstYear <= lastYear
    ensures |r| == (Floor10(lastYear) - Floor10(firstYear)) / 10 + 1
    ensures forall i | 0 <= i < |r| :: r[i] == Decade(Floor10(firstYear) + 10 * i + 1, Floor10(firstYear) + 10 * i + 10)
  {
    var start := firstYear - firstYear % 10;
    var end := lastYear + (10 - lastYear % 10);
    var ds := RangeBy10(start, end + 10);
    seq(|ds| - 1, i requires 0 <= i < |ds| - 1 => Decade(ds[i] + 1, ds[i + 1]))
  }

  /** The labels have strictly ascending first years, so they are distinct. */
  lemma DecadeLabelsDistinct(firstYear: int, lastYear: int)
    requires firstYear <= lastYear
    ensures DistinctKeys(DecadeLabels(firstYear, lastYear), Identity)
  {
    var r := DecadeLabels(firstYear, lastYear);
    forall i, j | 0 <= i < j < |r| ensures Identity(r[i]) != Identity(r[j]) {
      assert r[i].first < r[j].first;
    }
  }

  /** Every year between the first and the last falls into one of the labels. */
  lemma DecadeKeyListed(firstYear: int, lastYear: int, y: int)
    requires firstYear <= y <= lastYear
    ensures DecadeKey(y) in DecadeLabels(firstYear, lastYear)
  {
    var r := DecadeLabels(firstYear, lastYear);
    var j := (Floor10(y) - Floor10(firstYear)) / 10;
    assert Floor10(firstYear) <= Floor10(y) <= Floor10(lastYear);
    assert Floor10(y) == Floor10(firstYear) + 10 * j;
    assert r[j] == DecadeKey(y);
  }

  /** The counts of the first n years that fall into bucket k. */
  function DecadeTotal(years: seq<int>, counts: seq<nat>, n: nat, k: Decade): nat
    requires n <= |years| && n <= |counts|
  {
    if n == 0 then 0
    else DecadeTotal(years, counts, n - 1, k) + (if DecadeKey(years[n - 1]) == k then counts[n - 1] else 0)
  }

  predicate StrictlyAscending(years: seq<int>)
  {
    forall i, j | 0 <= i < j < |years| :: years[i] < years[j]
  }

  /** Lines 336-344 over the (year, count) pairs sorted by year: one bucket per
      decade from the first year's to the last year's, each holding the counts
      of its years; the buckets' total is the total count. Unpacking an empty
      list of pairs raises ValueError. */
  method BooksPerDecade(years: seq<int>, counts: seq<nat>) returns (r: Result<Dict<Decade, int>, PyError>)
    requires |years| == |counts|
    requires StrictlyAscending(years)
    ensures r.Failure? <==> |years| == 0
    ensures r.Failure? ==> r.error == ValueError
    ensures r.Success? ==> Valid(r.value)
    ensures r.Success? ==> r.value.keys == DecadeLabels(years[0], years[|years| - 1])
    ensures r.Success? ==> forall i | 0 <= i < |years| :: DecadeKey(years[i]) in r.value.entries
    ensures r.Success? ==> forall k | k in r.value.entries :: r.value.entries[k] == DecadeTotal(years, counts, |years|, k)
    ensures r.Success? ==> Total(r.value) == Sum(counts)
  {
    if |years| == 0 {
      return Failure(ValueError);
    }
    var firstYear, lastYear := years[0], years[|years| - 1];
    var labels := DecadeLabels(firstYear, lastYear);
    var perDecade := ZeroBuckets(labels, firstYear, lastYear);
    HoldsInitially(perDecade, years, counts);
    var i := 0;
    while i < |years|
      invariant 0 <= i <= |years|
      invariant Valid(perDecade) && perDecade.keys == labels
      invariant Holds(perDecade, years, counts, i)
    {
      var year, count := years[i], counts[i];
      var decade := DecadeKey(year);
      YearListed(years, i);
      DecadeStep(perDecade, years, counts, i);
      perDecade := Bump(perDecade, decade, count);
      i := i + 1;
    }
    HoldsFinally(perDecade, years, counts);
    AllYearsListed(years, labels);
    return Success(perDecade);
  }

  lemma HoldsFinally(d: Dict<Decade, int>, years: seq<int>, counts: seq<nat>)
    requires Valid(d) && |years| == |counts| && Holds(d, years, counts, |years|)
    ensures Total(d) == Sum(counts)
  {
    assert counts[..|years|] == counts;
  }

  /** {(d[i] + 1, d[i + 1]): 0 for i in range(len(d) - 1)} */
  function ZeroBuckets(labels: seq<Decade>, firstYear: int, lastYear: int): (r: Dict<Decade, int>)
    requires firstYear <= lastYear && labels == DecadeLabels(firstYear, lastYear)
    ensures Valid(r) && r.keys == labels
    ensures forall k | k in r.entries :: r.entries[k] == 0
    ensures Total(r) == 0
  {
    DecadeLabelsDistinct(firstYear, lastYear);
    ZeroTotal(labels);
    Dict(labels, map k | k in labels :: 0)
  }

  lemma HoldsInitially(d: Dict<Decade, int>, years: seq<int>, counts: seq<nat>)
    requires Valid(d) && |years| == |counts|
    requires forall k | k in d.entries :: d.entries[k] == 0
    requires Total(d) == 0
    ensures Holds(d, years, counts, 0)
  {
    assert counts[..0] == [];
  }

  /** The first and the last year bound all the others, so every year has its bucket. */
  lemma AllYearsListed(years: seq<int>, labels: seq<Decade>)
    requires |years| > 0 && StrictlyAscending(years)
    requires labels == DecadeLabels(years[0], years[|years| - 1])
    ensures forall j | 0 <= j < |years| :: DecadeKey(years[j]) in labels
  {
    forall j | 0 <= j < |years| ensures DecadeKey(years[j]) in labels {
      YearListed(years, j);
    }
  }

  lemma YearListed(years: seq<int>, j: int)
    requires StrictlyAscending(years) && 0 <= j < |years|
    ensures DecadeKey(years[j]) in DecadeLabels(years[0], years[|years| - 1])
  {
    assert years[0] <= years[j] <= years[|years| - 1] by {
      assert j == 0 || years[0] < years[j];
      assert j == |years| - 1 || years[j] < years[|years| - 1];
    }
    DecadeKeyListed(years[0], years[|years| - 1], years[j]);
  }

  /** books_per_decade[decade] += count */
  function Bump<K(==)>(d: Dict<K, int>, k: K, c: int): (r: Dict<K, int>)
    requires Valid(d) && k in d.entries
    ensures Valid(r) && r.keys == d.keys
    ensures r.entries == d.entries[k := d.entries[k] + c]
  {
    d.(entries := d.entries[k := d.entries[k] + c])
  }

  /** After the first i pairs every bucket holds the counts of its years so
      far, and the values add up to those counts. */
  ghost predicate Holds(d: Dict<Decade, int>, years: seq<int>, counts: seq<nat>, i: int)
    requires Valid(d) && |years| == |counts| && 0 <= i <= |years|
  {
    && (forall k | k in d.entries :: d.entries[k] == DecadeTotal(years, counts, i, k))
    && Total(d) == Sum(counts[..i])
  }

  /** Adding one more year's count to its bucket keeps Holds. */
  lemma DecadeStep(d: Dict<Decade, int>, years: seq<int>, counts: seq<nat>, i: int)
    requires Valid(d) && |years| == |counts| && 0 <= i < |years|
    requires DecadeKey(years[i]) in d.entries
    requires Holds(d, years, counts, i)
    ensures Holds(Bump(d, DecadeKey(years[i]), counts[i]), years, counts, i + 1)
  {
    AddToTotal(d, DecadeKey(years[i]), counts[i]);
    SumPrefixStep(counts, i);
  }

  lemma SumPrefixStep(xs: seq<int>, i: int)
    requires 0 <= i < |xs|
    ensures Sum(xs[..i + 1]) == Sum(xs[..i]) + xs[i]
  {
    assert xs[..i + 1] == xs[..i] + [xs[i]];
    SumSnoc(xs[..i], xs[i]);
  }

  lemma {:induction false} ZeroTotal(labels: seq<Decade>)
    ensures SumAt(labels, map k | k in labels :: 0) == 0
    decreases |labels|
  {
    if labels != [] {
      var m := map k | k in labels :: 0;
      var m' := map k | k in labels[1..] :: 0;
      ZeroTotal(labels[1..]);
      SumAtSameValues(labels[1..], m, m');
    }
  }

  lemma {:induction false} SumAtSameValues<K>(keys: seq<K>, m: map<K, int>, m': map<K, int>)
    requires forall i | 0 <= i < |keys| :: keys[i] in m && keys[i] in m' && m[keys[i]] == m'[keys[i]]
    ensures SumAt(keys, m) == SumAt(keys, m')
    decreases |keys|
  {
    if keys != [] {
      SumAtSameValues(keys[1..], m, m');
    }
  }

  /** books_per_decade[decade] += count raises the total by count. */
  lemma AddToTotal<K>(d: Dict<K, int>, k: K, c: int)
    requires Valid(d) && k in d.entries
    ensures Valid(d.(entries := d.entries[k := d.entries[k] + c]))
    ensures Total(d.(entries := d.entries[k := d.entries[k] + c])) == Total(d) + c
  {
    SumAtUpdate(d.keys, d.entries, k, d.entries[k] + c);
  }

  /** The number of buckets is fixed by the first and the last year alone. */
  lemma DecadeCount(firstYear: int, lastYear: int)
    requires firstYear <= lastYear
    ensures |DecadeLabels(firstYear, lastYear)| == (Floor10(lastYear) - Floor10(firstYear)) / 10 + 1
    ensures |DecadeLabels(firstYear, lastYear)| >= 1
    ensures DecadeLabels(firstYear, lastYear)[0] == DecadeKey(firstYear)
    ensures DecadeLabels(firstYear, lastYear)[|DecadeLabels(firstYear, lastYear)| - 1] == DecadeKey(lastYear)
  {
    DecadeKeyListed(firstYear, lastYear, lastYear);
  }

  /** Years ending in 0 start a new bucket label: 1990 is counted in 1991-2000. */
  lemma DecadeKeyExamples()
    ensures DecadeKey(1990) == Decade(1991, 2000)
    ensures DecadeKey(1999) == Decade(1991, 2000)
    ensures DecadeKey(2000) == Decade(2001, 2010)
    ensures DecadeKey(1847) == Decade(1841, 1850)
  {
  }

  /** A year lies within its own bucket's label exactly when it does not end in 0. */
  lemma DecadeKeyWithinLabel(y: int)
    ensures DecadeKey(y).first <= y <= DecadeKey(y).last <==> y % 10 != 0
  {
  }

  // ------------------------------------------------------------------
  // Pages per month

  /** The month a meeting is credited to, standing for the key f"{month}-{year}". */
  datatype MonthKey = MonthKey(month: int, year: int)

  /** Lines 394-402: a meeting before the 15th counts for the previous month;
      January becomes month 12 of the same year. */
  function CreditedMonth(year: int, month: int, day: int): (r: MonthKey)
    ensures r.year == year
    ensures day >= 15 ==> r.month == month
    ensures 1 <= month <= 12 ==> 1 <= r.month <= 12
    ensures day < 15 && month != 1 ==> r.month == month - 1
  {
    if day < 15 then
      if month == 1 then MonthKey(12, year) else MonthKey(month - 1, year)
    else MonthKey(month, year)
  }

  /** A meeting early in January is credited to December of the same year. */
  lemma JanuaryStaysInYear(year: int, day: int)
    requires day < 15
    ensures CreditedMonth(year, 1, day) == MonthKey(12, year)
  {
  }

  function CreditedMonthOf(b: Book): MonthKey
  {
    CreditedMonth(b.meetingYear, b.meetingMonth, b.meetingDay)
  }

  /** The credited month of every book, in list order. */
  function CreditedMonths(books: seq<Book>): (r: seq<MonthKey>)
    ensures |r| == |books| && forall i | 0 <= i < |books| :: r[i] == CreditedMonthOf(books[i])
  {
    seq(|books|, i requires 0 <= i < |books| => CreditedMonthOf(books[i]))
  }

  /** The pages of the first n books that are credited to month k. */
  function PagesIn(books: seq<Book>, n: nat, k: MonthKey): int
    requires n <= |books|
  {
    if n == 0 then 0
    else PagesIn(books, n - 1, k) + (if CreditedMonthOf(books[n - 1]) == k then books[n - 1].numPages else 0)
  }

  /** The pages of the first n books. */
  function TotalPages(books: seq<Book>, n: nat): int
    requires n <= |books|
  {
    if n == 0 then 0 else TotalPages(books, n - 1) + books[n - 1].numPages
  }

  /** The credited months of the first n books, each once, in the order of
      their first appearance. */
  function FirstSeenMonths(books: seq<Book>, n: nat): seq<MonthKey>
    requires n <= |books|
  {
    if n == 0 then []
    else
      var seen := FirstSeenMonths(books, n - 1);
      var key := CreditedMonthOf(books[n - 1]);
      if key in seen then seen else seen + [key]
  }

  /** The months listed are the months of the first n rows. */
  lemma {:induction false} FirstSeenMembers(books: seq<Book>, n: nat, k: MonthKey)
    requires n <= |books|
    ensures k in FirstSeenMonths(books, n) <==> exists j | 0 <= j < n :: CreditedMonthOf(books[j]) == k
  {
    if n > 0 {
      FirstSeenMembers(books, n - 1, k);
      if CreditedMonthOf(books[n - 1]) == k {
        assert k in FirstSeenMonths(books, n);
      }
    }
  }

  lemma CreditedMonthsSnoc(books: seq<Book>, n: nat)
    requires 1 <= n <= |books|
    ensures CreditedMonths(books[..n]) == CreditedMonths(books[..n - 1]) + [CreditedMonthOf(books[n - 1])]
  {
    var a, b := CreditedMonths(books[..n]), CreditedMonths(books[..n - 1]) + [CreditedMonthOf(books[n - 1])];
    assert |a| == |b|;
    forall j | 0 <= j < |a| ensures a[j] == b[j] {
      if j < n - 1 {
        assert books[..n][j] == books[..n - 1][j];
      }
    }
  }

  /** FirstSeenMonths is drop_duplicates over the column of credited months. */
  lemma {:induction false} FirstSeenIsDropDuplicates(books: seq<Book>, n: nat)
    requires n <= |books|
    ensures FirstSeenMonths(books, n) == DropDuplicates(CreditedMonths(books[..n]))
  {
    if n == 0 {
      assert CreditedMonths(books[..0]) == [];
    } else {
      FirstSeenIsDropDuplicates(books, n - 1);
      var prev := CreditedMonths(books[..n - 1]);
      var key := CreditedMonthOf(books[n - 1]);
      CreditedMonthsSnoc(books, n);
      DropDuplicatesSnoc(prev, key);
      DropDuplicatesMembers(prev);
    }
  }

  /** Lines 392-405: one key per credited month in the order of first
      appearance, holding the pages of the books credited to it; the values
      add up to all the pages. */
  method PagesPerMonth(books: seq<Book>) returns (d: Dict<MonthKey, int>)
    ensures Valid(d)
    ensures d.keys == DropDuplicates(CreditedMonths(books))
    ensures forall k | k in d.entries :: d.entries[k] == PagesIn(books, |books|, k)
    ensures Total(d) == TotalPages(books, |books|)
  {
    d := Empty();
    var i := 0;
    while i < |books|
      invariant 0 <= i <= |books|
      invariant Valid(d) && PagesHold(d, books, i)
    {
      d := AddRow(d, books, i);
      i := i + 1;
    }
    PagesFinally(d, books);
  }

  /** Lines 395-405, one row: credit its pages to its month, adding the month at 0 when it is new. */
  method AddRow(d: Dict<MonthKey, int>, books: seq<Book>, i: int) returns (d': Dict<MonthKey, int>)
    requires 0 <= i < |books| && Valid(d) && PagesHold(d, books, i)
    ensures Valid(d') && PagesHold(d', books, i + 1)
    ensures var key := CreditedMonthOf(books[i]);
      && d'.keys == (if key in d.entries then d.keys else d.keys + [key])
      && d'.entries == d.entries[key := (if key in d.entries then d.entries[key] else 0) + books[i].numPages]
  {
    var b := books[i];
    var key := CreditedMonthOf(b);
    d' := d;
    if key !in d'.entries {
      NewMonth(d, books, i);
      d' := Put(d', key, 0);
    } else {
      MonthPresent(d, books, i);
    }
    AddPagesStep(d', books, i);
    d' := Put(d', key, d'.entries[key] + b.numPages);
  }

  /** After the last row the invariant is the promise of PagesPerMonth. */
  lemma PagesFinally(d: Dict<MonthKey, int>, books: seq<Book>)
    requires Valid(d) && PagesHold(d, books, |books|)
    ensures d.keys == DropDuplicates(CreditedMonths(books))
    ensures forall k | k in d.entries :: d.entries[k] == PagesIn(books, |books|, k)
    ensures Total(d) == TotalPages(books, |books|)
  {
    FirstSeenIsDropDuplicates(books, |books|);
    assert books[..|books|] == books;
  }

  /** After the first i books: their months in first-seen order, each holding
      its pages, and the values adding up to all their pages. */
  ghost predicate PagesHold(d: Dict<MonthKey, int>, books: seq<Book>, i: int)
    requires Valid(d) && 0 <= i <= |books|
  {
    && d.keys == FirstSeenMonths(books, i)
    && (forall k | k in d.entries :: d.entries[k] == PagesIn(books, i, k))
    && Total(d) == TotalPages(books, i)
  }

  /** Row i's month is in the dict, listed where it was first seen, and every
      month holds the pages of the rows before i. */
  ghost predicate MonthReady(d: Dict<MonthKey, int>, books: seq<Book>, i: int)
    requires Valid(d) && 0 <= i < |books|
  {
    var key := CreditedMonthOf(books[i]);
    && key in d.entries
    && d.keys == (var seen := FirstSeenMonths(books, i); if key in seen then seen else seen + [key])
    && (forall k | k in d.entries :: d.entries[k] == PagesIn(books, i, k))
    && Total(d) == TotalPages(books, i)
  }

  /** A month already seen is ready as it is. */
  lemma MonthPresent(d: Dict<MonthKey, int>, books: seq<Book>, i: int)
    requires 0 <= i < |books| && Valid(d) && PagesHold(d, books, i)
    requires CreditedMonthOf(books[i]) in d.entries
    ensures MonthReady(d, books, i)
  {
  }

  /** A month seen for the first time starts at 0. */
  lemma NewMonth(d: Dict<MonthKey, int>, books: seq<Book>, i: int)
    requires 0 <= i < |books| && Valid(d) && PagesHold(d, books, i)
    requires CreditedMonthOf(books[i]) !in d.entries
    ensures MonthReady(Put(d, CreditedMonthOf(books[i]), 0), books, i)
  {
    var key := CreditedMonthOf(books[i]);
    PagesInAbsent(books, i, key);
    SumAtSnoc(d.keys, d.entries, key, 0);
  }

  /** Adding the row's pages to its month completes the row. */
  lemma AddPagesStep(d: Dict<MonthKey, int>, books: seq<Book>, i: int)
    requires 0 <= i < |books| && Valid(d) && MonthReady(d, books, i)
    ensures var key := CreditedMonthOf(books[i]);
      PagesHold(Put(d, key, d.entries[key] + books[i].numPages), books, i + 1)
  {
    var key := CreditedMonthOf(books[i]);
    AddToTotal(d, key, books[i].numPages);
  }

  /** A month no earlier book is credited to has no pages yet. */
  lemma {:induction false} PagesInAbsent(books: seq<Book>, n: nat, k: MonthKey)
    requires n <= |books| && k !in FirstSeenMonths(books, n)
    ensures PagesIn(books, n, k) == 0
  {
    if n > 0 {
      var seen := FirstSeenMonths(books, n - 1);
      assert CreditedMonthOf(books[n - 1]) in FirstSeenMonths(books, n);
      PagesInAbsent(books, n - 1, k);
    }
  }
}
