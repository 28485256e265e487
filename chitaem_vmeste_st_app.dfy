/** The statistics of the "Chitaem vmeste" dashboard that are computed rather
    than drawn: the year filter, the most popular genres, authors and
    countries, the author-to-country and author-to-gender maps, and the books
    per decade. The pages-per-month loop is Aggregation.PagesPerMonth. */
module ChitaemVmesteApp {
  import opened Wrappers
  import opened PyStr
  import opened Dedup
  import opened BookClubVizUtils
  import opened Ranking
  import opened Dicts
  import opened Books
  import opened Aggregation

  // ------------------------------------------------------------------
  // The year filter

  /** The option that shows every year. */
  const AllYears: string := "все годы"

  const YearSuffix: string := " год"

  /** The option that shows one year, f"{year} год": the year's numeral before
      the suffix, which int() reads back as the year. */
  function YearLabel(y: int): (r: string)
    ensures |r| > |YearSuffix| && r[|r| - |YearSuffix|..] == YearSuffix
    ensures ParseInt(r[..|r| - |YearSuffix|]) == Success(y)
  {
    var numeral := IntToDecimal(y);
    var r := numeral + YearSuffix;
    assert r[..|r| - |YearSuffix|] == numeral;
    r
  }

  function MeetingYears(books: seq<Book>): (r: seq<int>)
    ensures |r| == |books| && forall i | 0 <= i < |books| :: r[i] == books[i].meetingYear
  {
    seq(|books|, i requires 0 <= i < |books| => books[i].meetingYear)
  }

  function Negate(y: int): int { -y }

  /** sorted(books_df["meeting_year"].unique()): each meeting year once, ascending. */
  function SortedYears(books: seq<Book>): (r: seq<int>)
    ensures forall i | 0 <= i < |books| :: books[i].meetingYear in r
    ensures forall y | y in r :: y in MeetingYears(books)
    ensures forall i, j | 0 <= i < j < |r| :: r[i] < r[j]
  {
    var years := MeetingYears(books);
    DropDuplicatesMembers(years);
    DistinctAscending(DropDuplicates(years));
    SortDesc(DropDuplicates(years), Negate)
  }

  /** Sorting distinct years leaves them strictly ascending and changes no member. */
  lemma DistinctAscending(unique: seq<int>)
    requires DistinctKeys(unique, Identity)
    ensures forall y :: y in SortDesc(unique, Negate) <==> y in unique
    ensures forall i, j | 0 <= i < j < |SortDesc(unique, Negate)| :: SortDesc(unique, Negate)[i] < SortDesc(unique, Negate)[j]
  {
    var r := SortDesc(unique, Negate);
    assert forall y :: y in r <==> y in multiset(unique);
    PermutationKeepsDistinctKeys(unique, r, Identity);
    forall i, j | 0 <= i < j < |r| ensures r[i] < r[j] {
      assert Negate(r[i]) >= Negate(r[j]) && Identity(r[i]) != Identity(r[j]);
    }
  }

  /** The option of each year, in order. */
  function YearLabels(years: seq<int>): (r: seq<string>)
    ensures |r| == |years| && forall i | 0 <= i < |years| :: r[i] == YearLabel(years[i])
  {
    seq(|years|, i requires 0 <= i < |years| => YearLabel(years[i]))
  }

  lemma LabelsCover(years: seq<int>)
    ensures forall y | y in years :: YearLabel(y) in YearLabels(years)
  {
    var labels := YearLabels(years);
    forall y | y in years ensures YearLabel(y) in labels {
      var j :| 0 <= j < |years| && years[j] == y;
      assert labels[j] == YearLabel(y);
    }
  }

  /** Lines 35-37: "все годы" first, then one option per meeting year in ascending order. */
  function YearOptions(books: seq<Book>): (r: seq<string>)
    ensures |r| >= 1 && r[0] == AllYears
    ensures forall i | 0 <= i < |books| :: YearLabel(books[i].meetingYear) in r
  {
    var years := SortedYears(books);
    LabelsCover(years);
    [AllYears] + YearLabels(years)
  }

  /** int(year_chosen_str[:4]): at most four characters are read, so the
      year read back lies between -999 and 9999. */
  function ChosenYear(option: string): (r: Result<int, PyError>)
    ensures r.Failure? ==> r.error == ValueError
    ensures r.Success? ==> -999 <= r.value <= 9999
  {
    ShortNumeralBound(Prefix(option, 4));
    ParseInt(Prefix(option, 4))
  }

  /** int() of at most four characters lies between -999 and 9999. */
  lemma ShortNumeralBound(s: string)
    requires |s| <= 4
    ensures ParseInt(s).Success? ==> -999 <= ParseInt(s).value <= 9999
  {
    var t := Strip(s);
    assert |t| <= 4;
    if |t| > 0 && AllDigits(t) {
      DecimalBound(t);
    } else if |t| > 1 && AllDigits(t[1..]) {
      DecimalBound(t[1..]);
    }
  }

  /** The value of at most four digits has at most four digits. */
  lemma {:induction false} DecimalBound(s: string)
    requires AllDigits(s) && |s| <= 4
    ensures |s| <= 1 ==> DecimalValue(s) <= 9
    ensures |s| <= 2 ==> DecimalValue(s) <= 99
    ensures |s| <= 3 ==> DecimalValue(s) <= 999
    ensures DecimalValue(s) <= 9999
  {
    if s != [] {
      DecimalBound(s[..|s| - 1]);
    }
  }

  /** The years whose option int() reads back: those written with three or
      four characters, sign included. */
  predicate ReadableYear(y: int) {
    100 <= y <= 9999 || -999 <= y <= -10
  }

  /** The number of digits of a natural number below 10000. */
  lemma DecimalLength(n: nat)
    ensures n < 10 ==> |NatToDecimal(n)| == 1
    ensures 10 <= n < 100 ==> |NatToDecimal(n)| == 2
    ensures 100 <= n < 1000 ==> |NatToDecimal(n)| == 3
    ensures 1000 <= n < 10000 ==> |NatToDecimal(n)| == 4
  {
    if n >= 10 {
      DecimalLength(n / 10);
    }
  }

  /** A year written with three or four characters is read back from its option. */
  lemma YearLabelRoundTrip(y: int)
    requires ReadableYear(y)
    ensures ChosenYear(YearLabel(y)) == Success(y)
  {
    ReadableLength(y);
    OptionPrefix(y);
    if |IntToDecimal(y)| == 4 {
      ChosenFromPrefix(YearLabel(y), IntToDecimal(y), y);
    } else {
      ChosenFromPadded(YearLabel(y), IntToDecimal(y), y);
    }
  }

  lemma ChosenFromPrefix(option: string, numeral: string, y: int)
    requires Prefix(option, 4) == numeral && ParseInt(numeral) == Success(y)
    ensures ChosenYear(option) == Success(y)
  {
  }

  lemma ChosenFromPadded(option: string, numeral: string, y: int)
    requires |numeral| >= 1 && IsStripped(numeral)
    requires Prefix(option, 4) == numeral + " " && ParseInt(numeral) == Success(y)
    ensures ChosenYear(option) == Success(y)
  {
    StripTrailingSpace(numeral);
  }

  /** The first four characters of a year's option: the numeral, padded with
      the start of the suffix. */
  lemma OptionPrefix(y: int)
    ensures |IntToDecimal(y)| == 4 ==> Prefix(YearLabel(y), 4) == IntToDecimal(y)
    ensures |IntToDecimal(y)| == 3 ==> Prefix(YearLabel(y), 4) == IntToDecimal(y) + " "
    ensures |IntToDecimal(y)| == 2 ==> Prefix(YearLabel(y), 4) == IntToDecimal(y) + [' ', 'г']
    ensures |IntToDecimal(y)| == 1 ==> Prefix(YearLabel(y), 4) == IntToDecimal(y) + [' ', 'г', 'о']
  {
    assert YearLabel(y) == IntToDecimal(y) + YearSuffix;
    SuffixPadding(IntToDecimal(y));
  }

  lemma SuffixPadding(numeral: string)
    ensures |numeral| == 4 ==> Prefix(numeral + YearSuffix, 4) == numeral
    ensures |numeral| == 3 ==> Prefix(numeral + YearSuffix, 4) == numeral + " "
    ensures |numeral| == 2 ==> Prefix(numeral + YearSuffix, 4) == numeral + [' ', 'г']
    ensures |numeral| == 1 ==> Prefix(numeral + YearSuffix, 4) == numeral + [' ', 'г', 'о']
  {
    if |numeral| <= 4 {
      PrefixOfConcat(numeral, YearSuffix, 4);
      assert YearSuffix[..0] == [] && YearSuffix[..1] == " ";
      assert YearSuffix[..2] == [' ', 'г'] && YearSuffix[..3] == [' ', 'г', 'о'];
      assert numeral + [] == numeral;
    }
  }

  lemma PrefixOfConcat(a: string, b: string, n: nat)
    requires |a| <= n <= |a| + |b|
    ensures Prefix(a + b, n) == a + b[..n - |a|]
  {
    assert (a + b)[..n] == a + b[..n - |a|];
  }

  lemma ReadableLength(y: int)
    requires ReadableYear(y)
    ensures 3 <= |IntToDecimal(y)| <= 4
  {
    DecimalLength(if y < 0 then -y else y);
  }

  /** A year written with one or two characters is not read at all: int()
      meets the space before the suffix. */
  lemma ShortYearRejected(y: int)
    requires -9 <= y <= 99
    ensures ChosenYear(YearLabel(y)) == Failure(ValueError)
  {
    var numeral := IntToDecimal(y);
    var prefix := Prefix(YearLabel(y), 4);
    DecimalLength(if y < 0 then -y else y);
    OptionPrefix(y);
    if |numeral| == 1 {
      assert IsDigit(prefix[0]) && !IsSpace(prefix[3]);
      assert Strip(prefix) == prefix;
      assert !IsDigit(prefix[1]) && !IsSign(prefix[0]);
    } else {
      assert |numeral| == 2;
      assert !IsSpace(prefix[0]) && !IsSpace(prefix[3]);
      assert Strip(prefix) == prefix;
      assert !IsDigit(prefix[2]) && prefix[1..][1] == prefix[2];
    }
  }

  /** Exactly the years written with three or four characters are read back
      from their option; any other year is rejected or misread. */
  lemma YearLabelReadBack(y: int)
    ensures ChosenYear(YearLabel(y)) == Success(y) <==> ReadableYear(y)
  {
    if ReadableYear(y) {
      YearLabelRoundTrip(y);
    } else if -9 <= y <= 99 {
      ShortYearRejected(y);
    }
  }

  /** A five-digit year is read as its first four digits. */
  lemma FiveDigitYearMisread()
    ensures ChosenYear(YearLabel(10000)) == Success(1000)
  {
    var numeral := NatToDecimal(1000);
    DecimalLength(1000);
    assert NatToDecimal(10000) == numeral + "0";
    assert Prefix(YearLabel(10000), 4) == numeral;
    Numeral(1000);
  }

  /** books_df[books_df["meeting_year"] == year]: the rows of that year, in order. */
  function BooksOfYear(books: seq<Book>, y: int): (r: seq<Book>)
    ensures |r| <= |books|
    ensures forall b :: multiset(r)[b] == if b.meetingYear == y then multiset(books)[b] else 0
  {
    if books == [] then []
    else
      var n := |books| - 1;
      assert books == books[..n] + [books[n]];
      var rest := BooksOfYear(books[..n], y);
      if books[n].meetingYear == y then rest + [books[n]] else rest
  }

  /** One more row is kept, at the end, exactly when it has the year. */
  lemma BooksOfYearSnoc(books: seq<Book>, b: Book, y: int)
    ensures BooksOfYear(books + [b], y) == BooksOfYear(books, y) + if b.meetingYear == y then [b] else []
  {
    var xs := books + [b];
    assert xs[..|xs| - 1] == books;
  }

  /** Filtering two blocks of rows one after the other is filtering them
      together: the kept rows keep their order. */
  lemma {:induction false} BooksOfYearAppend(a: seq<Book>, b: seq<Book>, y: int)
    ensures BooksOfYear(a + b, y) == BooksOfYear(a, y) + BooksOfYear(b, y)
    decreases |b|
  {
    if b == [] {
      assert a + b == a;
    } else {
      var n := |b| - 1;
      var init, x := b[..n], b[n];
      assert b == init + [x];
      assert a + b == (a + init) + [x];
      BooksOfYearSnoc(a + init, x, y);
      BooksOfYearSnoc(init, x, y);
      BooksOfYearAppend(a, init, y);
      AppendAssociates(BooksOfYear(a, y), BooksOfYear(init, y), if x.meetingYear == y then [x] else []);
    }
  }

  lemma AppendAssociates<T>(xs: seq<T>, ys: seq<T>, zs: seq<T>)
    ensures (xs + ys) + zs == xs + (ys + zs)
  {
  }

  /** The rows kept by the filter are exactly the rows of the chosen year. */
  lemma BooksOfYearMembers(books: seq<Book>, y: int)
    ensures forall b :: b in BooksOfYear(books, y) <==> b in books && b.meetingYear == y
  {
    var r := BooksOfYear(books, y);
    forall b ensures b in r <==> b in books && b.meetingYear == y {
      assert b in r <==> multiset(r)[b] > 0;
      assert b in books <==> multiset(books)[b] > 0;
    }
  }

  /** Lines 38-48: the selectbox's value (None when nothing is chosen, which
      means the first option), and the books of the chosen year; a label that
      does not start with a number raises ValueError. */
  method ApplyYearFilter(books: seq<Book>, choice: Option<string>) returns (yearChosenStr: string, r: Result<seq<Book>, PyError>)
    ensures choice.None? ==> yearChosenStr == AllYears
    ensures choice.Some? ==> yearChosenStr == choice.value
    ensures yearChosenStr == AllYears ==> r == Success(books)
    ensures forall y | ReadableYear(y) && choice == Some(YearLabel(y)) :: r == Success(BooksOfYear(books, y))
    ensures r.Failure? <==> yearChosenStr != AllYears && ChosenYear(yearChosenStr).Failure?
    ensures r.Failure? ==> r.error == ValueError
    ensures r.Success? && yearChosenStr != AllYears ==> r.value == BooksOfYear(books, ChosenYear(yearChosenStr).value)
  {
    var yearOptions := YearOptions(books);
    yearChosenStr := if choice.None? then yearOptions[0] else choice.value;
    forall y | ReadableYear(y) && choice == Some(YearLabel(y))
      ensures yearChosenStr != AllYears && ChosenYear(yearChosenStr) == Success(y)
    {
      YearLabelRoundTrip(y);
      YearLabelIsNotAll(y);
    }
    r := Success(books);
    if yearChosenStr != AllYears {
      var yearChosen := ChosenYear(yearChosenStr);
      if yearChosen.Failure? {
        r := Failure(yearChosen.error);
      } else {
        r := Success(BooksOfYear(books, yearChosen.value));
      }
    }
  }

  /** The option of a year is never the "all years" option. */
  lemma YearLabelIsNotAll(y: int)
    ensures YearLabel(y) != AllYears
  {
    var digits := NatToDecimal(if y < 0 then -y else y);
    assert YearLabel(y)[0] == (if y < 0 then '-' else digits[0]);
    assert AllYears[0] == 'в';
  }

  /** The option of a meeting year written with three or four characters can
      be chosen, and choosing it keeps that book and only books of its year. */
  lemma OptionsReadable(books: seq<Book>, i: int)
    requires 0 <= i < |books|
    requires ReadableYear(books[i].meetingYear)
    ensures ChosenYear(YearLabel(books[i].meetingYear)) == Success(books[i].meetingYear)
    ensures books[i] in BooksOfYear(books, books[i].meetingYear)
    ensures forall b | b in BooksOfYear(books, books[i].meetingYear) :: b.meetingYear == books[i].meetingYear
  {
    YearLabelRoundTrip(books[i].meetingYear);
    BooksOfYearMembers(books, books[i].meetingYear);
  }

  // ------------------------------------------------------------------
  // The most popular genres, authors and countries

  /** Whether the header is plural, and the values sharing the top count. */
  datatype Popular = Popular(plural: bool, top: seq<Entry<string>>)

  /** Lines 155-168 (genres), 171-184 (authors), 187-201 (countries): Counter(values)
      ranked by most_common(), a plural header when the first two counts tie,
      and the values listed until the first count below the top one. An empty
      list raises IndexError at the first lookup; the header is the corrected
      one, which does not look past the end of a one-value ranking. */
  method MostPopular(values: seq<string>) returns (r: Result<Popular, PyError>)
    ensures r.Failure? <==> values == []
    ensures r.Failure? ==> r.error == IndexError
    ensures r.Success? ==> |r.value.top| >= 1 && r.value.top[0].value in values
    ensures r.Success? ==> r.value.top == WithKey(Tally(values), CountOf, r.value.top[0].count)
    ensures r.Success? ==> forall x | x in values :: multiset(values)[x] <= r.value.top[0].count
    ensures r.Success? ==> (r.value.plural <==> |r.value.top| >= 2)
  {
    var byFreq := MostCommon(values);
    MostCommonTotal(values);
    DropDuplicatesMembers(values);
    assert values != [] ==> values[0] in DropDuplicates(values);
    if |byFreq| == 0 {
      return Failure(IndexError);
    }
    MostCommonFirst(values);
    var plural := PluralHeader(byFreq);
    var top := SelectTop(byFreq);
    MostCommonTies(values, byFreq[0].count);
    PluralIffSeveral(byFreq, top.value);
    TopOfMostCommon(values, top.value);
    r := Success(Popular(plural.value, top.value));
  }

  // ------------------------------------------------------------------
  // Authors per country and per gender

  /** Lines 262-265 and 293-296: the dict pairing each author with the attribute
      at the same position of the flattened lists, read back as its list of
      values. There is one value per distinct author (of the paired prefix),
      and it is the one paired with that author's last occurrence. */
  function AuthorAttributes(authors: seq<string>, attributes: seq<string>): (r: seq<string>)
    ensures var n := if |authors| <= |attributes| then |authors| else |attributes|;
      && |r| == |DropDuplicates(authors[..n])|
      && forall i | 0 <= i < |r| :: exists j :: LastAt(authors, n, DropDuplicates(authors[..n])[i], j) && r[i] == attributes[j]
  {
    var d := ZipDict(authors, attributes);
    Values(d)
  }

  /** Lines 266-267 and 297-298: the counts of the pie add up to the number of
      distinct authors, and each attribute is counted once per author having it. */
  lemma AuthorsPerAttribute(authors: seq<string>, attributes: seq<string>)
    ensures var n := if |authors| <= |attributes| then |authors| else |attributes|;
      SumCounts(MostCommon(AuthorAttributes(authors, attributes))) == |DropDuplicates(authors[..n])|
  {
    MostCommonTotal(AuthorAttributes(authors, attributes));
  }

  /** The countries per author of the books, with the columns as the helper reads them. */
  lemma CountriesOfAuthors(books: seq<Book>)
    ensures GetColumnValuesAsList(ToTable(books), "author") == Success(FlattenParsed(Authors(books)))
    ensures GetColumnValuesAsList(ToTable(books), "author_country") == Success(FlattenParsed(Countries(books)))
    ensures GetColumnValuesAsList(ToTable(books), "author_gender") == Success(FlattenParsed(Genders(books)))
  {
    AuthorColumn(books);
    CountriesColumn(books);
    GendersColumn(books);
  }

  // ------------------------------------------------------------------
  // Books per country

  function TitleCell(b: Book): string { b.title }

  /** Lines 230-232: the rows with a repeated title dropped, first row kept, and
      the countries of the remaining rows flattened. The (title, author_country)
      frame of the source keeps the same author_country cells as the full table. */
  function CountriesOfTitles(books: seq<Book>): (r: Result<seq<string>, PyError>)
    ensures r == Success(FlattenParsed(Countries(DedupBy(books, TitleCell))))
    ensures r.Success? && |r.value| >= |KeysOf(books, TitleCell)|
  {
    var kept := DedupBy(books, TitleCell);
    CountriesColumn(kept);
    DedupCount(books, TitleCell);
    GetColumnValuesAsList(ToTable(kept), "author_country")
  }

  // ------------------------------------------------------------------
  // Books per decade of writing or publication


  function NegValue(e: Entry<int>): int { -e.value }

  function EntryValues(s: seq<Entry<int>>): (r: seq<int>)
    ensures |r| == |s| && forall i | 0 <= i < |s| :: r[i] == s[i].value
  {
    seq(|s|, i requires 0 <= i < |s| => s[i].value)
  }

  function EntryCounts(s: seq<Entry<int>>): (r: seq<nat>)
    ensures |r| == |s| && forall i | 0 <= i < |s| :: r[i] == s[i].count
  {
    seq(|s|, i requires 0 <= i < |s| => s[i].count)
  }

  /** The years that fall into bucket k, in order. */
  function InDecade(years: seq<int>, k: Decade): (r: seq<int>)
    ensures forall y :: multiset(r)[y] == if DecadeKey(y) == k then multiset(years)[y] else 0
  {
    if years == [] then []
    else
      var n := |years| - 1;
      assert years == years[..n] + [years[n]];
      var rest := InDecade(years[..n], k);
      if DecadeKey(years[n]) == k then rest + [years[n]] else rest
  }

  function Earliest(years: seq<int>): (r: int)
    requires years != []
    ensures r in years && forall y | y in years :: r <= y
  {
    if |years| == 1 then years[0]
    else
      var rest := Earliest(years[1..]);
      assert forall y | y in years :: y == years[0] || y in years[1..];
      if years[0] <= rest then years[0] else rest
  }

  function Latest(years: seq<int>): (r: int)
    requires years != []
    ensures r in years && forall y | y in years :: y <= r
  {
    if |years| == 1 then years[0]
    else
      var rest := Latest(years[1..]);
      assert forall y | y in years :: y == years[0] || y in years[1..];
      if years[0] >= rest then years[0] else rest
  }

  /** The first and last of the ascending distinct years are the earliest and the latest year. */
  lemma EndsOfUnzip(years: seq<int>, ys: seq<int>)
    requires |ys| > 0 && StrictlyAscending(ys)
    requires forall y :: y in ys <==> y in years
    ensures years != [] && ys[0] == Earliest(years) && ys[|ys| - 1] == Latest(years)
  {
    assert ys[0] in ys && ys[|ys| - 1] in ys;
    var lo, hi := Earliest(years), Latest(years);
    var p :| 0 <= p < |ys| && ys[p] == lo;
    var q :| 0 <= q < |ys| && ys[q] == hi;
    assert ys[0] <= ys[p] && ys[q] <= ys[|ys| - 1];
  }

  /** Lines 330-344: Counter(years).most_common() sorted by year, unzipped,
      and bucketed by decade. An empty list fails to unzip (ValueError).
      Otherwise the buckets run from the decade of the earliest year to the
      decade of the latest, every year's decade is a bucket, and each bucket
      counts the books of its decade. */
  method BooksPerDecadeOfYears(years: seq<int>) returns (r: Result<Dict<Decade, int>, PyError>)
    ensures r.Failure? <==> years == []
    ensures r.Failure? ==> r.error == ValueError
    ensures r.Success? ==> Valid(r.value)
    ensures r.Success? ==> r.value.keys == DecadeLabels(Earliest(years), Latest(years))
    ensures r.Success? ==> forall y | y in years :: DecadeKey(y) in r.value.entries
    ensures r.Success? ==> forall k | k in r.value.entries :: r.value.entries[k] == |InDecade(years, k)|
    ensures r.Success? ==> Total(r.value) == |years|
  {
    var byFreq := MostCommon(years);
    var byYear := SortDesc(byFreq, NegValue);
    var ys, cs := EntryValues(byYear), EntryCounts(byYear);
    UnzipFacts(years, byYear);
    r := BooksPerDecade(ys, cs);
    if r.Success? {
      EndsOfUnzip(years, ys);
      forall k | k in r.value.entries ensures r.value.entries[k] == |InDecade(years, k)| {
        DecadeTotalIsCount(ys, cs, k, years);
      }
    }
  }

  /** The year-sorted ranking of the years lists each year once, in strictly
      ascending order, with its multiplicity, and the multiplicities add up to
      the number of books. */
  lemma UnzipFacts(years: seq<int>, byYear: seq<Entry<int>>)
    requires byYear == SortDesc(MostCommon(years), NegValue)
    ensures var ys := EntryValues(byYear);
      && StrictlyAscending(ys) && DistinctKeys(ys, Identity)
      && (forall y :: y in ys <==> y in years)
      && (forall i | 0 <= i < |ys| :: EntryCounts(byYear)[i] == multiset(years)[ys[i]])
      && Sum(EntryCounts(byYear)) == |years|
  {
    MostCommonTies(years, 0);
    MostCommonTotal(years);
    SumCountsPermutation(MostCommon(years), byYear);
    SumOfCounts(byYear);
    EntriesOfTally(years, byYear);
    AscendingYears(byYear);
  }

  /** A permutation of the tally of the years: distinct years, each with its
      multiplicity, and every year listed. */
  lemma EntriesOfTally(years: seq<int>, byYear: seq<Entry<int>>)
    requires multiset(byYear) == multiset(Tally(years))
    ensures DistinctKeys(byYear, ValueOf)
    ensures forall i | 0 <= i < |byYear| :: byYear[i].value in years && byYear[i].count == multiset(years)[byYear[i].value]
    ensures forall y | y in years :: y in EntryValues(byYear)
  {
    var tally := Tally(years);
    PermutationKeepsDistinctKeys(tally, byYear, ValueOf);
    forall i | 0 <= i < |byYear| ensures byYear[i].value in years && byYear[i].count == multiset(years)[byYear[i].value] {
      assert byYear[i] in multiset(tally);
      var p :| 0 <= p < |tally| && tally[p] == byYear[i];
    }
    var ys := EntryValues(byYear);
    forall y | y in years ensures y in ys {
      var p :| 0 <= p < |tally| && tally[p].value == y;
      assert tally[p] in multiset(byYear);
      var q :| 0 <= q < |byYear| && byYear[q] == tally[p];
      assert ys[q] == y;
    }
  }

  /** Sorting distinct years by their negation puts them in strictly ascending order. */
  lemma AscendingYears(byYear: seq<Entry<int>>)
    requires Descending(byYear, NegValue) && DistinctKeys(byYear, ValueOf)
    ensures StrictlyAscending(EntryValues(byYear)) && DistinctKeys(EntryValues(byYear), Identity)
  {
    var ys := EntryValues(byYear);
    forall i, j | 0 <= i < j < |ys| ensures ys[i] < ys[j] {
      assert NegValue(byYear[i]) >= NegValue(byYear[j]) && ValueOf(byYear[i]) != ValueOf(byYear[j]);
    }
    forall i, j | 0 <= i < j < |ys| ensures Identity(ys[i]) != Identity(ys[j]) {
      assert ValueOf(byYear[i]) != ValueOf(byYear[j]);
    }
  }

  lemma {:induction false} SumOfCounts(s: seq<Entry<int>>)
    ensures Sum(EntryCounts(s)) == SumCounts(s)
    decreases |s|
  {
    if s != [] {
      SumOfCounts(s[1..]);
      assert EntryCounts(s)[1..] == EntryCounts(s[1..]);
    }
  }

  /** The bucket total of the unzipped ranking is the number of years in the bucket. */
  lemma DecadeTotalIsCount(ys: seq<int>, cs: seq<nat>, k: Decade, years: seq<int>)
    requires |ys| == |cs| && DistinctKeys(ys, Identity)
    requires forall y | y in years :: y in ys
    requires forall i | 0 <= i < |ys| :: cs[i] == multiset(years)[ys[i]]
    ensures DecadeTotal(ys, cs, |ys|, k) == |InDecade(years, k)|
  {
    var inK := InDecade(years, k);
    DecadeTotalMultiplicities(ys, cs, |ys|, k, years);
    assert ys[..|ys|] == ys;
    forall y | y in inK ensures y in ys {
      assert multiset(inK)[y] > 0;
      assert y in multiset(years);
    }
    SumMultiplicitiesAll(ys, inK);
  }

  lemma {:induction false} DecadeTotalMultiplicities(ys: seq<int>, cs: seq<nat>, n: nat, k: Decade, years: seq<int>)
    requires |ys| == |cs| && n <= |ys|
    requires forall i | 0 <= i < |ys| :: cs[i] == multiset(years)[ys[i]]
    ensures DecadeTotal(ys, cs, n, k) == SumMultiplicities(ys[..n], multiset(InDecade(years, k)))
  {
    if n == 0 {
      assert ys[..0] == [];
    } else {
      DecadeTotalMultiplicities(ys, cs, n - 1, k, years);
      assert ys[..n] == ys[..n - 1] + [ys[n - 1]];
      SumMultiplicitiesSnoc(ys[..n - 1], ys[n - 1], multiset(InDecade(years, k)));
    }
  }
}
