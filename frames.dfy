/** A pandas DataFrame reduced to what the dashboard code uses: column labels,
    rows of cells, selecting one column or a list of columns. */
module Frames {
  import opened Wrappers

  /** A cell: the spreadsheet's integer columns and its string columns. */
  datatype Cell = Int(n: int) | Text(s: string)

  datatype Frame = Frame(columns: seq<string>, rows: seq<seq<Cell>>)

  /** Every row holds one cell per column. */
  predicate Rectangular(df: Frame) {
    forall i | 0 <= i < |df.rows| :: |df.rows[i]| == |df.columns|
  }

  type Table = df: Frame | Rectangular(df) witness Frame([], [])

  /** The position of the first column with the given label. */
  function IndexOf(columns: seq<string>, name: string): (r: Option<nat>)
    ensures r.None? <==> name !in columns
    ensures r.Some? ==> r.value < |columns| && columns[r.value] == name
    ensures r.Some? ==> forall j | 0 <= j < r.value :: columns[j] != name
  {
    if |columns| == 0 then None
    else if columns[0] == name then Some(0)
    else match IndexOf(columns[1..], name)
      case None => None
      case Some(i) => Some(i + 1)
  }

  /** Conversely, the first position holding the label is the one found. */
  lemma {:induction false} IndexOfFirst(columns: seq<string>, name: string, k: nat)
    requires k < |columns| && columns[k] == name
    requires forall j | 0 <= j < k :: columns[j] != name
    ensures IndexOf(columns, name) == Some(k)
  {
    if k > 0 {
      IndexOfFirst(columns[1..], name, k - 1);
    }
  }

  /** df[name].to_list(): the column's cells in row order, or KeyError. */
  function Column(df: Table, name: string): (r: Result<seq<Cell>, PyError>)
    ensures r.Failure? <==> name !in df.columns
    ensures r.Failure? ==> r.error == KeyError(name)
    ensures r.Success? ==> |r.value| == |df.rows|
    ensures r.Success? ==> forall i | 0 <= i < |df.rows| :: r.value[i] == df.rows[i][IndexOf(df.columns, name).value]
  {
    match IndexOf(df.columns, name)
    case None => Failure(KeyError(name))
    case Some(c) => Success(seq(|df.rows|, i requires 0 <= i < |df.rows| => df.rows[i][c]))
  }

  /** The positions of the columns of df[subset], or KeyError for the first
      label of subset that is not a column. */
  function ColumnIndices(columns: seq<string>, subset: seq<string>): (r: Result<seq<nat>, PyError>)
    ensures r.Success? <==> forall c | c in subset :: c in columns
    ensures r.Success? ==> |r.value| == |subset|
    ensures r.Success? ==> forall j | 0 <= j < |subset| :: r.value[j] < |columns| && columns[r.value[j]] == subset[j]
    ensures r.Failure? ==> r.error.KeyError? && r.error.key in subset && r.error.key !in columns
  {
    if subset == [] then Success([])
    else match IndexOf(columns, subset[0])
      case None => Failure(KeyError(subset[0]))
      case Some(c) =>
        match ColumnIndices(columns, subset[1..])
        case Failure(e) => Failure(e)
        case Success(rest) => Success([c] + rest)
  }

  predicate InRange(idxs: seq<nat>, width: nat) {
    forall j | 0 <= j < |idxs| :: idxs[j] < width
  }

  /** One row restricted to the given column positions, in that order. */
  function Project(row: seq<Cell>, idxs: seq<nat>): (r: seq<Cell>)
    requires InRange(idxs, |row|)
    ensures |r| == |idxs|
  {
    seq(|idxs|, j requires 0 <= j < |idxs| => row[idxs[j]])
  }

  /** The rows of df[subset], given the positions of subset's columns. */
  function ProjectRows(df: Table, idxs: seq<nat>): (r: seq<seq<Cell>>)
    requires InRange(idxs, |df.columns|)
    ensures |r| == |df.rows|
    ensures forall i | 0 <= i < |r| :: r[i] == Project(df.rows[i], idxs)
  {
    seq(|df.rows|, i requires 0 <= i < |df.rows| => Project(df.rows[i], idxs))
  }
}
