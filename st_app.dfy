/** The older dashboard, st_app.py. Its word forms, its meeting count and its
    list flattening are written inline instead of calling the helper module,
    and it keeps one row per author cell (the first) where the newer dashboard
    keeps the last country paired with each author. Its decade buckets, pages
    per month and top-ties blocks repeat the newer dashboard's code. */
module StApp {
  import opened Wrappers
  import opened Dedup
  import opened Frames
  import opened BookClubVizUtils
  import opened BookVizUtils
  import opened Books

  // ------------------------------------------------------------------
  // Word forms

  /** Lines 49-57: the book rule, written out again. */
  function InlineBooksInflection(numBooks: nat): (r: string)
    ensures r == GetBooksInflection(numBooks)
  {
    var lastDigit := numBooks % 10;
    if 5 <= numBooks <= 20 then Knig
    else if lastDigit == 1 then Kniga
    else if 2 <= lastDigit <= 4 then Knigi
    else Knig
  }

  /** Lines 75-79: the author rule as written here, on the last digit alone. */
  function InlineAuthorsInflection(numAuthors: nat): (r: string)
    ensures r == Avtora <==> numAuthors % 10 == 1
    ensures r == Avtora || r == Avtorov
  {
    if numAuthors % 10 == 1 then Avtora else Avtorov
  }

  /** The inline author rule differs from get_authors_inflection at 11 and nowhere else. */
  lemma AuthorsRulesDisagree(n: nat)
    ensures InlineAuthorsInflection(n) != GetAuthorsInflection(n) <==> n == 11
  {
  }

  lemma ElevenAuthors()
    ensures InlineAuthorsInflection(11) == Avtora && GetAuthorsInflection(11) == Avtorov
  {
  }

  /** Lines 97-103: the genre rule, written out again. */
  function InlineGenresInflection(numGenres: nat): (r: string)
    ensures r == GetGenresInflection(numGenres)
  {
    var lastDigit := numGenres % 10;
    if 2 <= numGenres <= 20 then Zhanrah
    else if lastDigit == 1 then Zhanre
    else Zhanrah
  }

  // ------------------------------------------------------------------
  // Meetings

  function MeetingDates(books: seq<Book>): (r: seq<seq<Cell>>)
    ensures |r| == |books| && forall i | 0 <= i < |books| :: r[i] == MeetingDate(books[i])
  {
    seq(|books|, i requires 0 <= i < |books| => MeetingDate(books[i]))
  }

  /** Lines 31-33: the rows of the three date columns without duplicates,
      counted: one meeting per distinct date, at most one per row. */
  function InlineMeetings(books: seq<Book>): (r: nat)
    ensures r == |set i | 0 <= i < |books| :: MeetingDate(books[i])|
    ensures r <= |books|
    ensures |books| > 0 ==> r >= 1
  {
    var dates := MeetingDates(books);
    DedupCount(dates, Identity);
    DatesAsKeys(books);
    assert |books| > 0 ==> MeetingDate(books[0]) in set i | 0 <= i < |books| :: MeetingDate(books[i]);
    |DropDuplicates(dates)|
  }

  /** The inline count is get_num_meetings_from_df over the date columns. */
  lemma InlineMeetingsAgree(books: seq<Book>)
    ensures GetNumMeetingsFromDf(ToTable(books), DateColumns) == Success(InlineMeetings(books))
  {
    BooksMeetings(books);
  }

  lemma DatesAsKeys(books: seq<Book>)
    ensures KeysOf(MeetingDates(books), Identity) == set i | 0 <= i < |books| :: MeetingDate(books[i])
  {
    var dates := MeetingDates(books);
    var a, b := KeysOf(dates, Identity), set i | 0 <= i < |books| :: MeetingDate(books[i]);
    forall d | d in a ensures d in b {
      var i :| 0 <= i < |dates| && Identity(dates[i]) == d;
      assert MeetingDate(books[i]) == d;
    }
    forall d | d in b ensures d in a {
      var i :| 0 <= i < |books| && MeetingDate(books[i]) == d;
      assert Identity(dates[i]) == d;
    }
  }

  // ------------------------------------------------------------------
  // Lists of authors, genres and countries

  /** Lines 60-61, 82-83 and 196-197: each cell parsed with parse_string_list,
      then the lists concatenated. */
  function InlineFlatten(cells: seq<string>): (r: seq<string>)
    ensures r == FlattenParsed(cells)
    decreases |cells|
  {
    if cells == [] then []
    else
      ParsersAgree(cells[0]);
      ParseStringList(cells[0]) + InlineFlatten(cells[1..])
  }

  /** Line 62 and 64: the number of distinct authors is the size of the set of flattened names. */
  function DistinctCount(names: seq<string>): (r: nat)
    ensures r == |DropDuplicates(names)|
  {
    DedupCount(names, Identity);
    KeysOfIdentity(names);
    |set x | x in names|
  }

  // ------------------------------------------------------------------
  // Countries per author, first row wins

  function AuthorCell(b: Book): string { b.author }

  /** Lines 240-241: the (author, author_country) rows without the repeated author cells. */
  function FirstRowPerAuthor(books: seq<Book>): (r: seq<Book>)
    ensures DistinctKeys(r, AuthorCell)
    ensures forall i | 0 <= i < |books| :: exists j | 0 <= j < |r| :: r[j].author == books[i].author
  {
    var r := DedupBy(books, AuthorCell);
    forall i | 0 <= i < |books| ensures exists j | 0 <= j < |r| :: r[j].author == books[i].author {
      assert AuthorCell(books[i]) in KeysOf(books, AuthorCell);
    }
    r
  }

  /** Lines 242-244: the countries of the kept rows, flattened, in row order. */
  function CountriesOfFirstRows(books: seq<Book>): (r: seq<string>)
    ensures r == FlattenParsed(Countries(FirstRowPerAuthor(books)))
  {
    InlineFlatten(Countries(FirstRowPerAuthor(books)))
  }

  /** The row kept for an author cell is its first row: a later row with the
      same author cell but another country does not count. */
  lemma FirstRowWins(books: seq<Book>, i: nat)
    requires i < |books| && FirstWithKey(books, AuthorCell, i)
    ensures books[i] in FirstRowPerAuthor(books)
    ensures forall j | i < j < |books| && books[j].author == books[i].author && books[j] != books[i] ::
      books[j] !in FirstRowPerAuthor(books)
  {
    DedupKeepsFirsts(books, AuthorCell, i);
  }
}
