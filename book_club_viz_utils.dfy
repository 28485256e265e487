/** The helper functions of book_club_viz_utils.py: parsing a list cell,
    flattening a list column, counting distinct meetings and choosing the
    Russian word form that agrees with a count. */
module BookClubVizUtils {
  import opened Wrappers
  import opened PyStr
  import opened Dedup
  import opened Frames

  // ------------------------------------------------------------------
  // parse_string_into_list

  /** parse_string_into_list: drop the first and last character (no check that
      they are brackets), split the rest on ", " and strip each piece. */
  function ParseStringIntoList(s: string): (r: seq<string>)
    ensures |r| >= 1
    ensures forall i | 0 <= i < |r| :: IsStripped(r[i]) && !Contains(r[i], Sep)
  {
    var pieces := Split(InnerText(s), Sep);
    SplitPiecesFree(InnerText(s), Sep);
    StripAllFree(pieces, Sep);
    StripAll(pieces)
  }

  lemma InnerOfBracketed(inner: string)
    ensures InnerText("[" + inner + "]") == inner
  {
    var s := "[" + inner + "]";
    assert s[1..|s| - 1] == inner;
  }

  /** A list cell written from stripped, separator-free items parses back to those items. */
  lemma ParseRoundTrip(items: seq<string>)
    requires |items| >= 1
    requires forall i | 0 <= i < |items| :: IsStripped(items[i]) && !Contains(items[i], Sep)
    ensures ParseStringIntoList("[" + Join(items, Sep) + "]") == items
  {
    InnerOfBracketed(Join(items, Sep));
    SplitJoin(items);
    StripAllStripped(items);
  }

  lemma ParseExample()
    ensures ParseStringIntoList("[a, b, c]") == ["a", "b", "c"]
  {
    var items := ["a", "b", "c"];
    assert Join(items, Sep) == "a, b, c" by {
      assert Join(items[2..], Sep) == "c";
      assert Join(items[1..], Sep) == "b, c";
    }
    assert "[" + Join(items, Sep) + "]" == "[a, b, c]";
    ParseRoundTrip(items);
  }

  /** One item per occurrence of ", " in the inner text, plus one. */
  lemma ParseLength(s: string)
    ensures |ParseStringIntoList(s)| == Occurrences(InnerText(s), Sep) + 1
  {
    SplitCount(InnerText(s));
  }

  /** An empty cell "[]", and any string shorter than two characters, parse to one empty item. */
  lemma ParseEmptyInner(s: string)
    requires |s| <= 2
    ensures ParseStringIntoList(s) == [""]
  {
    assert InnerText(s) == "";
    assert Strip("") == "";
  }

  /** The first and last characters are dropped whatever they are. */
  lemma ParseIgnoresEnds(open: char, inner: string, close: char)
    ensures ParseStringIntoList([open] + inner + [close]) == ParseStringIntoList("[" + inner + "]")
  {
    assert InnerText([open] + inner + [close]) == inner;
    assert InnerText("[" + inner + "]") == inner;
  }

  // ------------------------------------------------------------------
  // get_column_values_as_list

  /** The lists f(c) of the cells c, one after the other. */
  function ConcatMap(f: string -> seq<string>, cells: seq<string>): seq<string>
  {
    if cells == [] then [] else f(cells[0]) + ConcatMap(f, cells[1..])
  }

  lemma {:induction false} ConcatMapAppend(f: string -> seq<string>, top: seq<string>, bottom: seq<string>)
    ensures ConcatMap(f, top + bottom) == ConcatMap(f, top) + ConcatMap(f, bottom)
    decreases |top|
  {
    if top != [] {
      ConcatMapAppend(f, top[1..], bottom);
      assert (top + bottom)[1..] == top[1..] + bottom;
    } else {
      assert top + bottom == bottom;
    }
  }

  lemma {:induction false} ConcatMapLength(f: string -> seq<string>, cells: seq<string>)
    requires forall c :: |f(c)| >= 1
    ensures |ConcatMap(f, cells)| >= |cells|
    decreases |cells|
  {
    if cells != [] {
      ConcatMapLength(f, cells[1..]);
    }
  }

  /** The parsed items of the cells, cell after cell: one item at least per cell. */
  function FlattenParsed(cells: seq<string>): (r: seq<string>)
    ensures |r| >= |cells|
  {
    ConcatMapLength(ParseStringIntoList, cells);
    ConcatMap(ParseStringIntoList, cells)
  }

  /** Flattening distributes over splitting the cells into two runs of rows. */
  lemma FlattenAppend(top: seq<string>, bottom: seq<string>)
    ensures FlattenParsed(top + bottom) == FlattenParsed(top) + FlattenParsed(bottom)
  {
    ConcatMapAppend(ParseStringIntoList, top, bottom);
  }

  /** The parse of cell k stands between the parses of the cells before and after it. */
  lemma FlattenAt(cells: seq<string>, k: int)
    requires 0 <= k < |cells|
    ensures FlattenParsed(cells) == FlattenParsed(cells[..k]) + ParseStringIntoList(cells[k]) + FlattenParsed(cells[k + 1..])
  {
    ConcatMapAt(ParseStringIntoList, cells, k);
  }

  lemma ConcatMapAt(f: string -> seq<string>, cells: seq<string>, k: int)
    requires 0 <= k < |cells|
    ensures ConcatMap(f, cells) == ConcatMap(f, cells[..k]) + f(cells[k]) + ConcatMap(f, cells[k + 1..])
  {
    assert cells == cells[..k] + cells[k..];
    ConcatMapAppend(f, cells[..k], cells[k..]);
    assert cells[k..][1..] == cells[k + 1..];
    assert ConcatMap(f, cells[k..]) == f(cells[k]) + ConcatMap(f, cells[k + 1..]);
  }

  predicate AllText(cells: seq<Cell>) {
    forall i | 0 <= i < |cells| :: cells[i].Text?
  }

  function Texts(cells: seq<Cell>): (r: seq<string>)
    requires AllText(cells)
    ensures |r| == |cells| && forall i | 0 <= i < |cells| :: r[i] == cells[i].s
  {
    seq(|cells|, i requires 0 <= i < |cells| => cells[i].s)
  }

  /** get_column_values_as_list on a column whose k-th cells are the texts of field. */
  lemma TextColumn(df: Table, name: string, k: nat, field: seq<string>)
    requires IndexOf(df.columns, name) == Some(k)
    requires |field| == |df.rows|
    requires forall i | 0 <= i < |df.rows| :: df.rows[i][k] == Text(field[i])
    ensures GetColumnValuesAsList(df, name) == Success(FlattenParsed(field))
  {
    var cells := Column(df, name).value;
    assert forall i | 0 <= i < |df.rows| :: cells[i] == Text(field[i]);
    assert AllText(cells);
    assert Texts(cells) == field;
  }

  /** get_column_values_as_list: KeyError for an unknown column, TypeError when a
      cell is not a string, else the parsed items of every cell in row order. */
  function GetColumnValuesAsList(df: Table, columnName: string): (r: Result<seq<string>, PyError>)
    ensures r == Failure(KeyError(columnName)) <==> columnName !in df.columns
    ensures r == Failure(TypeError) <==> columnName in df.columns && !AllText(Column(df, columnName).value)
    ensures r.Success? ==> |r.value| >= |df.rows|
    ensures r.Success? ==> r.value == FlattenParsed(Texts(Column(df, columnName).value))
  {
    match Column(df, columnName)
    case Failure(e) => Failure(e)
    case Success(cells) => if AllText(cells) then Success(FlattenParsed(Texts(cells))) else Failure(TypeError)
  }

  /** Concatenation of two outcomes; the first failure wins. */
  function Combine(a: Result<seq<string>, PyError>, b: Result<seq<string>, PyError>): Result<seq<string>, PyError>
  {
    if a.Failure? then a else if b.Failure? then b else Success(a.value + b.value)
  }

  /** Taking a column of the rows top + bottom is taking it of top and of bottom. */
  lemma ColumnValuesOverRowSplit(columns: seq<string>, top: seq<seq<Cell>>, bottom: seq<seq<Cell>>, columnName: string)
    requires Rectangular(Frame(columns, top)) && Rectangular(Frame(columns, bottom))
    ensures Rectangular(Frame(columns, top + bottom))
    ensures GetColumnValuesAsList(Frame(columns, top + bottom), columnName)
         == Combine(GetColumnValuesAsList(Frame(columns, top), columnName),
                    GetColumnValuesAsList(Frame(columns, bottom), columnName))
  {
    var whole: Table := Frame(columns, top + bottom);
    var upper: Table := Frame(columns, top);
    var lower: Table := Frame(columns, bottom);
    if columnName in columns {
      var w := Column(whole, columnName).value;
      var u := Column(upper, columnName).value;
      var l := Column(lower, columnName).value;
      assert w == u + l;
      if AllText(w) {
        assert AllText(u) && AllText(l) by {
          forall i | 0 <= i < |u| ensures u[i].Text? { assert u[i] == w[i]; }
          forall i | 0 <= i < |l| ensures l[i].Text? { assert l[i] == w[|u| + i]; }
        }
        assert Texts(w) == Texts(u) + Texts(l);
        FlattenAppend(Texts(u), Texts(l));
      } else {
        var i :| 0 <= i < |w| && !w[i].Text?;
        if i < |u| { assert u[i] == w[i]; } else { assert l[i - |u|] == w[i]; }
      }
    }
  }

  // ------------------------------------------------------------------
  // get_num_meetings_from_df

  /** The distinct rows of df[subset], for the positions idxs of subset's columns. */
  function DistinctRows(df: Table, idxs: seq<nat>): set<seq<Cell>>
    requires InRange(idxs, |df.columns|)
  {
    set i | 0 <= i < |df.rows| :: Project(df.rows[i], idxs)
  }

  lemma DropDuplicatesCount(df: Table, idxs: seq<nat>)
    requires InRange(idxs, |df.columns|)
    ensures |DropDuplicates(ProjectRows(df, idxs))| == |DistinctRows(df, idxs)|
  {
    var projected := ProjectRows(df, idxs);
    DedupCount(projected, Identity);
    assert KeysOf(projected, Identity) == DistinctRows(df, idxs);
  }

  /** get_num_meetings_from_df as written: df[columns_subset] raises KeyError for
      an unknown label; otherwise the rows left by drop_duplicates are counted.
      A frame with no columns is empty to pandas and comes back unchanged. */
  function GetNumMeetingsFromDf(df: Table, columnsSubset: seq<string>): (r: Result<nat, PyError>)
    ensures r.Success? <==> forall c | c in columnsSubset :: c in df.columns
    ensures r.Failure? ==> r.error.KeyError? && r.error.key in columnsSubset && r.error.key !in df.columns
    ensures r.Success? && columnsSubset == [] ==> r.value == |df.rows|
    ensures r.Success? && columnsSubset != [] ==>
      r.value == |DistinctRows(df, ColumnIndices(df.columns, columnsSubset).value)|
  {
    match ColumnIndices(df.columns, columnsSubset)
    case Failure(e) => Failure(e)
    case Success(idxs) =>
      if idxs == [] then Success(|df.rows|)
      else
        DropDuplicatesCount(df, idxs);
        Success(|DropDuplicates(ProjectRows(df, idxs))|)
  }

  /** At most one meeting per row, and at least one when there is a row. */
  lemma MeetingsBounds(df: Table, columnsSubset: seq<string>)
    requires GetNumMeetingsFromDf(df, columnsSubset).Success?
    ensures GetNumMeetingsFromDf(df, columnsSubset).value <= |df.rows|
    ensures |df.rows| > 0 ==> GetNumMeetingsFromDf(df, columnsSubset).value >= 1
  {
    var idxs := ColumnIndices(df.columns, columnsSubset).value;
    if columnsSubset != [] {
      DropDuplicatesCount(df, idxs);
      if |df.rows| > 0 {
        assert Project(df.rows[0], idxs) in DistinctRows(df, idxs);
      }
    }
  }

  /** Rows holding the same row values give the same count. */
  lemma MeetingsSameRows(columns: seq<string>, rows1: seq<seq<Cell>>, rows2: seq<seq<Cell>>, columnsSubset: seq<string>)
    requires Rectangular(Frame(columns, rows1)) && Rectangular(Frame(columns, rows2))
    requires columnsSubset != []
    requires forall row :: row in rows1 <==> row in rows2
    ensures GetNumMeetingsFromDf(Frame(columns, rows1), columnsSubset) == GetNumMeetingsFromDf(Frame(columns, rows2), columnsSubset)
  {
    var df1: Table := Frame(columns, rows1);
    var df2: Table := Frame(columns, rows2);
    if forall c | c in columnsSubset :: c in columns {
      var idxs := ColumnIndices(columns, columnsSubset).value;
      forall x | x in DistinctRows(df1, idxs) ensures x in DistinctRows(df2, idxs) {
        var i :| 0 <= i < |rows1| && x == Project(rows1[i], idxs);
        assert rows1[i] in rows2;
        var j :| 0 <= j < |rows2| && rows2[j] == rows1[i];
      }
      forall x | x in DistinctRows(df2, idxs) ensures x in DistinctRows(df1, idxs) {
        var j :| 0 <= j < |rows2| && x == Project(rows2[j], idxs);
        assert rows2[j] in rows1;
        var i :| 0 <= i < |rows1| && rows1[i] == rows2[j];
      }
      assert DistinctRows(df1, idxs) == DistinctRows(df2, idxs);
    }
  }

  /** Reordering the rows leaves the count unchanged. */
  lemma MeetingsPermutation(columns: seq<string>, rows1: seq<seq<Cell>>, rows2: seq<seq<Cell>>, columnsSubset: seq<string>)
    requires Rectangular(Frame(columns, rows1)) && Rectangular(Frame(columns, rows2))
    requires multiset(rows1) == multiset(rows2)
    ensures GetNumMeetingsFromDf(Frame(columns, rows1), columnsSubset) == GetNumMeetingsFromDf(Frame(columns, rows2), columnsSubset)
  {
    if columnsSubset != [] {
      forall row ensures row in rows1 <==> row in rows2 {
        assert row in rows1 <==> row in multiset(rows1);
        assert row in rows2 <==> row in multiset(rows2);
      }
      MeetingsSameRows(columns, rows1, rows2, columnsSubset);
    } else {
      assert |rows1| == |multiset(rows1)| == |multiset(rows2)| == |rows2|;
    }
  }

  /** Repeating a row already present adds no meeting. */
  lemma MeetingsDuplicateRow(columns: seq<string>, rows: seq<seq<Cell>>, k: int, columnsSubset: seq<string>)
    requires Rectangular(Frame(columns, rows)) && 0 <= k < |rows|
    requires columnsSubset != []
    ensures Rectangular(Frame(columns, rows + [rows[k]]))
    ensures GetNumMeetingsFromDf(Frame(columns, rows + [rows[k]]), columnsSubset) == GetNumMeetingsFromDf(Frame(columns, rows), columnsSubset)
  {
    assert Rectangular(Frame(columns, rows + [rows[k]]));
    MeetingsSameRows(columns, rows + [rows[k]], rows, columnsSubset);
  }

  const DateFixtureColumns: seq<string> := ["y", "m", "d"]

  function Date(y: int, m: int, d: int): seq<Cell> { [Int(y), Int(m), Int(d)] }

  lemma FixtureIndices()
    ensures ColumnIndices(DateFixtureColumns, DateFixtureColumns) == Success([0, 1, 2])
  {
    var cols := DateFixtureColumns;
    assert IndexOf(cols, "y") == Some(0);
    assert IndexOf(cols, "m") == Some(1) by {
      assert cols[1..] == ["m", "d"];
    }
    assert IndexOf(cols, "d") == Some(2) by {
      assert cols[1..] == ["m", "d"];
      assert cols[1..][1..] == ["d"];
    }
    assert ColumnIndices(cols, ["d"]) == Success([2]) by {
      assert ["d"][1..] == [];
      assert ColumnIndices(cols, []) == Success([]);
      assert [2] + [] == [2];
    }
    assert ColumnIndices(cols, ["m", "d"]) == Success([1, 2]) by {
      assert ["m", "d"][1..] == ["d"];
      assert [1] + [2] == [1, 2];
    }
    assert cols[0] == "y" && cols[1..] == ["m", "d"];
    assert [0] + [1, 2] == [0, 1, 2];
  }

  /** Over the three date columns, the distinct dates of three rows are the rows themselves. */
  lemma DistinctOfThree(df: Table)
    requires df.columns == DateFixtureColumns && |df.rows| == 3
    ensures DistinctRows(df, [0, 1, 2]) == {df.rows[0], df.rows[1], df.rows[2]}
  {
    var idxs: seq<nat> := [0, 1, 2];
    forall i | 0 <= i < 3 ensures Project(df.rows[i], idxs) == df.rows[i] {
      var row := df.rows[i];
      assert Project(row, idxs) == [row[0], row[1], row[2]];
    }
  }

  /** Over the three date columns, three rows give as many meetings as distinct rows. */
  lemma MeetingsOfThree(df: Table)
    requires df.columns == DateFixtureColumns && |df.rows| == 3
    ensures GetNumMeetingsFromDf(df, DateFixtureColumns) == Success(|{df.rows[0], df.rows[1], df.rows[2]}|)
  {
    FixtureIndices();
    DistinctOfThree(df);
  }

  lemma CountRepeated<T>(a: T, b: T)
    requires a != b
    ensures |{a, a, b}| == 2
  {
    assert {a, a, b} == {a, b};
  }

  lemma CountDistinct<T>(a: T, b: T, c: T)
    requires a != b && a != c && b != c
    ensures |{a, b, c}| == 3
  {
  }

  /** The first fixture's shape: one date held twice among three rows gives two meetings. */
  lemma MeetingsRepeatedDate(a: seq<Cell>, b: seq<Cell>)
    requires |a| == 3 && |b| == 3 && a != b
    ensures Rectangular(Frame(DateFixtureColumns, [a, a, b]))
    ensures GetNumMeetingsFromDf(Frame(DateFixtureColumns, [a, a, b]), DateFixtureColumns) == Success(2)
  {
    var df: Table := Frame(DateFixtureColumns, [a, a, b]);
    MeetingsOfThree(df);
    assert df.rows[0] == a && df.rows[1] == a && df.rows[2] == b;
    CountRepeated(a, b);
  }

  /** The second fixture's shape: three different dates give three meetings. */
  lemma MeetingsThreeDates(a: seq<Cell>, b: seq<Cell>, c: seq<Cell>)
    requires |a| == 3 && |b| == 3 && |c| == 3 && a != b && a != c && b != c
    ensures Rectangular(Frame(DateFixtureColumns, [a, b, c]))
    ensures GetNumMeetingsFromDf(Frame(DateFixtureColumns, [a, b, c]), DateFixtureColumns) == Success(3)
  {
    var df: Table := Frame(DateFixtureColumns, [a, b, c]);
    MeetingsOfThree(df);
    assert df.rows[0] == a && df.rows[1] == b && df.rows[2] == c;
    CountDistinct(a, b, c);
  }

  /** The validation the tests expect: ValueError for an empty or unknown column subset. */
  function GetNumMeetingsValidated(df: Table, columnsSubset: seq<string>): (r: Result<nat, PyError>)
    ensures r.Failure? <==> columnsSubset == [] || exists c | c in columnsSubset :: c !in df.columns
    ensures r.Failure? ==> r.error == ValueError
    ensures r.Success? ==> r == GetNumMeetingsFromDf(df, columnsSubset)
  {
    if columnsSubset == [] || exists c | c in columnsSubset :: c !in df.columns then Failure(ValueError)
    else GetNumMeetingsFromDf(df, columnsSubset)
  }

  /** As written, neither call of the error-case tests raises ValueError. */
  lemma MeetingsErrorCasesAsWritten()
    ensures GetNumMeetingsFromDf(Frame([], []), []) == Success(0)
    ensures GetNumMeetingsFromDf(Frame([], []), DateFixtureColumns) == Failure(KeyError("y"))
  {
  }

  lemma MeetingsErrorCasesValidated(df: Table)
    ensures GetNumMeetingsValidated(df, []) == Failure(ValueError)
    ensures df.columns == [] ==> GetNumMeetingsValidated(df, DateFixtureColumns) == Failure(ValueError)
  {
    if df.columns == [] {
      assert "y" in DateFixtureColumns;
    }
  }

  // ------------------------------------------------------------------
  // Word forms agreeing with a count

  const Kniga := "книга"
  const Knigi := "книги"
  const Knig := "книг"

  /** get_books_inflection: 5..20 first, then last digit 1, then last digit 2..4. */
  function GetBooksInflection(numBooks: nat): (r: string)
    ensures r == Kniga || r == Knigi || r == Knig
    ensures r == Kniga <==> numBooks % 10 == 1 && !(5 <= numBooks <= 20)
    ensures r == Knigi <==> 2 <= numBooks % 10 <= 4 && !(5 <= numBooks <= 20)
  {
    var lastDigit := numBooks % 10;
    if 5 <= numBooks <= 20 then Knig
    else if lastDigit == 1 then Kniga
    else if 2 <= lastDigit <= 4 then Knigi
    else Knig
  }

  lemma BooksInflectionExamples()
    ensures GetBooksInflection(0) == Knig && GetBooksInflection(1) == Kniga
    ensures GetBooksInflection(2) == Knigi && GetBooksInflection(4) == Knigi
    ensures GetBooksInflection(5) == Knig && GetBooksInflection(9) == Knig
    ensures GetBooksInflection(11) == Knig && GetBooksInflection(12) == Knig
    ensures GetBooksInflection(14) == Knig && GetBooksInflection(20) == Knig
    ensures GetBooksInflection(21) == Kniga && GetBooksInflection(22) == Knigi
    ensures GetBooksInflection(111) == Kniga
  {
  }

  /** Above 20 only the last digit matters. */
  lemma BooksInflectionLastDigit(n: nat, m: nat)
    requires n > 20 && m > 20 && n % 10 == m % 10
    ensures GetBooksInflection(n) == GetBooksInflection(m)
  {
  }

  const Avtora := "автора"
  const Avtorov := "авторов"

  /** get_authors_inflection: 2..20 first, then last digit 1. */
  function GetAuthorsInflection(numAuthors: nat): (r: string)
    ensures r == Avtora || r == Avtorov
    ensures r == Avtora <==> numAuthors % 10 == 1 && !(2 <= numAuthors <= 20)
  {
    var lastDigit := numAuthors % 10;
    if 2 <= numAuthors <= 20 then Avtorov
    else if lastDigit == 1 then Avtora
    else Avtorov
  }

  const Zhanre := "жанре"
  const Zhanrah := "жанрах"

  /** get_genres_inflection: the same rule as for authors. */
  function GetGenresInflection(numGenres: nat): (r: string)
    ensures r == Zhanre || r == Zhanrah
    ensures r == Zhanre <==> numGenres % 10 == 1 && !(2 <= numGenres <= 20)
  {
    var lastDigit := numGenres % 10;
    if 2 <= numGenres <= 20 then Zhanrah
    else if lastDigit == 1 then Zhanre
    else Zhanrah
  }

  lemma AuthorsGenresExamples()
    ensures GetAuthorsInflection(0) == Avtorov && GetAuthorsInflection(1) == Avtora
    ensures GetAuthorsInflection(11) == Avtorov && GetAuthorsInflection(21) == Avtora
    ensures GetGenresInflection(0) == Zhanrah && GetGenresInflection(1) == Zhanre
    ensures GetGenresInflection(11) == Zhanrah && GetGenresInflection(21) == Zhanre
  {
  }
}
