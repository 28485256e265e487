/** The club's book list as the dashboards read it from the spreadsheet: one
    row per book read at a meeting. The list-valued columns hold cells such as
    "[a, b]"; the dates of the meetings are three integer columns. ToTable
    gives the DataFrame that the helper functions receive. */
module Books {
  import opened Wrappers
  import opened Frames
  import opened BookClubVizUtils

  datatype Book = Book(
    title: string,
    author: string,          // a list cell, e.g. "[a, b]"
    genres: string,          // a list cell
    authorCountry: string,   // a list cell
    authorGender: string,    // a list cell
    numPages: int,
    yearWrittenOrPublished: int,
    meetingYear: int,
    meetingMonth: int,
    meetingDay: int)

  /** The spreadsheet's column labels, in the order the model fixes for them. */
  const BookColumns: seq<string> := [
    "meeting_year", "meeting_month", "meeting_day", "title", "author", "genres",
    "author_country", "author_gender", "num_pages", "year_written_or_published"]

  /** The columns that identify a meeting. */
  const DateColumns: seq<string> := ["meeting_year", "meeting_month", "meeting_day"]

  function ToRow(b: Book): (r: seq<Cell>)
    ensures |r| == |BookColumns|
  {
    [Int(b.meetingYear), Int(b.meetingMonth), Int(b.meetingDay), Text(b.title), Text(b.author), Text(b.genres),
     Text(b.authorCountry), Text(b.authorGender), Int(b.numPages), Int(b.yearWrittenOrPublished)]
  }

  /** The DataFrame of the books, one row per book in list order. */
  function ToTable(books: seq<Book>): (t: Table)
    ensures t.columns == BookColumns && |t.rows| == |books|
    ensures forall i | 0 <= i < |books| :: t.rows[i] == ToRow(books[i])
  {
    Frame(BookColumns, seq(|books|, i requires 0 <= i < |books| => ToRow(books[i])))
  }

  /** The (meeting_year, meeting_month, meeting_day) values of a book. */
  function MeetingDate(b: Book): seq<Cell>
  {
    [Int(b.meetingYear), Int(b.meetingMonth), Int(b.meetingDay)]
  }

  /** The list cells of one column, in row order. */
  function Authors(books: seq<Book>): (r: seq<string>)
    ensures |r| == |books| && forall i | 0 <= i < |books| :: r[i] == books[i].author
  {
    seq(|books|, i requires 0 <= i < |books| => books[i].author)
  }

  function Genres(books: seq<Book>): (r: seq<string>)
    ensures |r| == |books| && forall i | 0 <= i < |books| :: r[i] == books[i].genres
  {
    seq(|books|, i requires 0 <= i < |books| => books[i].genres)
  }

  function Countries(books: seq<Book>): (r: seq<string>)
    ensures |r| == |books| && forall i | 0 <= i < |books| :: r[i] == books[i].authorCountry
  {
    seq(|books|, i requires 0 <= i < |books| => books[i].authorCountry)
  }

  function Genders(books: seq<Book>): (r: seq<string>)
    ensures |r| == |books| && forall i | 0 <= i < |books| :: r[i] == books[i].authorGender
  {
    seq(|books|, i requires 0 <= i < |books| => books[i].authorGender)
  }

  // ------------------------------------------------------------------
  // The helper functions applied to the book table

  /** The position of each label in the book table. */
  lemma DateLabels()
    ensures IndexOf(BookColumns, "meeting_year") == Some(0)
    ensures IndexOf(BookColumns, "meeting_month") == Some(1)
    ensures IndexOf(BookColumns, "meeting_day") == Some(2)
  {
    IndexOfFirst(BookColumns, "meeting_year", 0);
    assert BookColumns[0] != "meeting_month";
    IndexOfFirst(BookColumns, "meeting_month", 1);
    forall j | 0 <= j < 2 ensures BookColumns[j] != "meeting_day" {
      if j == 0 {} else {}
    }
    IndexOfFirst(BookColumns, "meeting_day", 2);
  }

  /** ColumnIndices of a three-label subset, from the positions of its labels. */
  lemma ThreeIndices(cols: seq<string>, a: string, b: string, c: string, i: nat, j: nat, k: nat)
    requires IndexOf(cols, a) == Some(i) && IndexOf(cols, b) == Some(j) && IndexOf(cols, c) == Some(k)
    ensures ColumnIndices(cols, [a, b, c]) == Success([i, j, k])
  {
    var last := [c];
    assert ColumnIndices(cols, last) == Success([k]) by {
      assert last[1..] == [];
      assert ColumnIndices(cols, []) == Success([]);
      assert [k] + [] == [k];
    }
    var two := [b, c];
    assert ColumnIndices(cols, two) == Success([j, k]) by {
      assert two[1..] == last;
      assert [j] + [k] == [j, k];
    }
    assert [a, b, c][1..] == two;
    assert [i] + [j, k] == [i, j, k];
  }

  /** The date columns are the first three columns. */
  lemma DateIndices()
    ensures ColumnIndices(BookColumns, DateColumns) == Success([0, 1, 2])
  {
    DateLabels();
    ThreeIndices(BookColumns, "meeting_year", "meeting_month", "meeting_day", 0, 1, 2);
  }

  /** get_num_meetings_from_df over the date columns counts the distinct meeting dates. */
  lemma BooksMeetings(books: seq<Book>)
    ensures GetNumMeetingsFromDf(ToTable(books), DateColumns) == Success(|set i | 0 <= i < |books| :: MeetingDate(books[i])|)
  {
    DateIndices();
    DatesOfTable(books);
  }

  /** The projected date rows of the book table are the meeting dates. */
  lemma DatesOfTable(books: seq<Book>)
    ensures DistinctRows(ToTable(books), [0, 1, 2]) == set i | 0 <= i < |books| :: MeetingDate(books[i])
  {
    var df := ToTable(books);
    var idxs: seq<nat> := [0, 1, 2];
    forall i | 0 <= i < |books| ensures Project(df.rows[i], idxs) == MeetingDate(books[i]) {
      ProjectDate(books[i]);
    }
  }

  lemma ProjectDate(b: Book)
    ensures Project(ToRow(b), [0, 1, 2]) == MeetingDate(b)
  {
    var row := ToRow(b);
    assert Project(row, [0, 1, 2]) == [row[0], row[1], row[2]];
  }

  lemma AuthorLabel()
    ensures IndexOf(BookColumns, "author") == Some(4)
  {
    forall j | 0 <= j < 4 ensures BookColumns[j] != "author" {
      if j == 0 {} else if j == 1 {} else if j == 2 {} else {}
    }
    IndexOfFirst(BookColumns, "author", 4);
  }

  lemma GenresLabel()
    ensures IndexOf(BookColumns, "genres") == Some(5)
  {
    forall j | 0 <= j < 5 ensures BookColumns[j] != "genres" {
      if j == 0 {} else if j == 1 {} else if j == 2 {} else if j == 3 {} else {}
    }
    IndexOfFirst(BookColumns, "genres", 5);
  }

  lemma CountryLabel()
    ensures IndexOf(BookColumns, "author_country") == Some(6)
  {
    forall j | 0 <= j < 6 ensures BookColumns[j] != "author_country" {
      if j == 0 {} else if j == 1 {} else if j == 2 {} else if j == 3 {} else if j == 4 {} else {}
    }
    IndexOfFirst(BookColumns, "author_country", 6);
  }

  lemma GenderLabel()
    ensures IndexOf(BookColumns, "author_gender") == Some(7)
  {
    forall j | 0 <= j < 7 ensures BookColumns[j] != "author_gender" {
      if j == 0 {} else if j == 1 {} else if j == 2 {} else if j == 3 {} else if j == 4 {} else if j == 5 {} else {}
    }
    IndexOfFirst(BookColumns, "author_gender", 7);
  }

  /** The list cells of a row. */
  lemma RowCells(b: Book)
    ensures ToRow(b)[4] == Text(b.author) && ToRow(b)[5] == Text(b.genres)
    ensures ToRow(b)[6] == Text(b.authorCountry) && ToRow(b)[7] == Text(b.authorGender)
  {
  }

  /** get_column_values_as_list on the list columns of the book table: the
      parsed cells of that field, in row order. */
  lemma AuthorColumn(books: seq<Book>)
    ensures GetColumnValuesAsList(ToTable(books), "author") == Success(FlattenParsed(Authors(books)))
  {
    var df := ToTable(books);
    AuthorLabel();
    forall i | 0 <= i < |books| ensures df.rows[i][4] == Text(Authors(books)[i]) {
      RowCells(books[i]);
    }
    TextColumn(df, "author", 4, Authors(books));
  }

  lemma GenresColumn(books: seq<Book>)
    ensures GetColumnValuesAsList(ToTable(books), "genres") == Success(FlattenParsed(Genres(books)))
  {
    var df := ToTable(books);
    GenresLabel();
    forall i | 0 <= i < |books| ensures df.rows[i][5] == Text(Genres(books)[i]) {
      RowCells(books[i]);
    }
    TextColumn(df, "genres", 5, Genres(books));
  }

  lemma CountriesColumn(books: seq<Book>)
    ensures GetColumnValuesAsList(ToTable(books), "author_country") == Success(FlattenParsed(Countries(books)))
  {
    var df := ToTable(books);
    CountryLabel();
    forall i | 0 <= i < |books| ensures df.rows[i][6] == Text(Countries(books)[i]) {
      RowCells(books[i]);
    }
    TextColumn(df, "author_country", 6, Countries(books));
  }

  lemma GendersColumn(books: seq<Book>)
    ensures GetColumnValuesAsList(ToTable(books), "author_gender") == Success(FlattenParsed(Genders(books)))
  {
    var df := ToTable(books);
    GenderLabel();
    forall i | 0 <= i < |books| ensures df.rows[i][7] == Text(Genders(books)[i]) {
      RowCells(books[i]);
    }
    TextColumn(df, "author_gender", 7, Genders(books));
  }
}
