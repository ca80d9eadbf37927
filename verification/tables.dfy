/** The in-memory table the loader produces: named columns and rows of cells,
    with the pandas operations the loader applies to it. */
module Tables {
  import opened Wrappers
  import opened Numbers
  import opened Sequences

  /** One cell: pandas' NaN (`Missing`), unparsed text, or a number. */
  datatype Cell = Missing | Text(text: string) | Num(num: Number)

  /** A row maps each column name to its cell. */
  type Row = map<string, Cell>

  datatype Table = Table(columns: seq<string>, rows: seq<Row>)

  /** The exceptions the loader can raise. */
  datatype Error =
    | NoHeader                                       // ValueError: no header line found
    | TooManyFields(line: nat, expected: nat, saw: nat) // pandas ParserError while tokenising
    | DuplicateColumns                               // a header that names a column twice
    | KeyError(keys: seq<string>)                    // selecting columns the table lacks

  predicate Distinct<T(==)>(xs: seq<T>) {
    forall i, j :: 0 <= i < j < |xs| ==> xs[i] != xs[j]
  }

  function ColumnSet(columns: seq<string>): set<string> {
    set c | c in columns
  }

  /** Column names are distinct and every row has exactly the table's columns. */
  predicate WellFormed(t: Table) {
    Distinct(t.columns) && forall i :: 0 <= i < |t.rows| ==> t.rows[i].Keys == ColumnSet(t.columns)
  }

  /** `col` is present in the row and not missing. */
  predicate HasValue(r: Row, col: string) {
    col in r && r[col] != Missing
  }

  /** Every cell of the row is missing. */
  predicate AllMissing(r: Row) {
    forall c :: c in r ==> r[c] == Missing
  }

  // ---------------------------------------------------------------------------
  // Numeric coercion: pd.to_numeric(column, errors="coerce")

  /** A cell after coercion: numbers stay, parsable text becomes a number, and
      everything else becomes missing. */
  function CoerceCell(c: Cell): (r: Cell)
    ensures !r.Text?
    ensures c.Num? ==> r == c
    ensures c.Missing? ==> r.Missing?
    ensures c.Text? ==> (r.Num? <==> ParseNumber(c.text).Some?)
    ensures c.Text? && ParseNumber(c.text).Some? ==> r == Num(ParseNumber(c.text).value)
  {
    match c
    case Missing => Missing
    case Num(_) => c
    case Text(s) =>
      match ParseNumber(s)
      case Some(n) => Num(n)
      case None => Missing
  }

  /** Coerce the cells of the listed columns that the row has; leave the rest alone. */
  function CoerceRow(r: Row, cols: seq<string>): Row {
    map c | c in r :: if c in cols then CoerceCell(r[c]) else r[c]
  }

  function Coercion(cols: seq<string>): Row -> Row {
    r => CoerceRow(r, cols)
  }

  /** `for col in cols: if col in df.columns: df[col] = pd.to_numeric(df[col], errors="coerce")` */
  function CoerceColumns(t: Table, cols: seq<string>): (r: Table)
    ensures r.columns == t.columns && |r.rows| == |t.rows|
    ensures WellFormed(t) ==> WellFormed(r)
    ensures forall i :: 0 <= i < |r.rows| ==> r.rows[i].Keys == t.rows[i].Keys
    ensures forall i, c :: 0 <= i < |r.rows| && c in cols && c in t.rows[i] ==>
              r.rows[i][c] == CoerceCell(t.rows[i][c])
    ensures forall i, c :: 0 <= i < |r.rows| && c !in cols && c in t.rows[i] ==>
              c in r.rows[i] && r.rows[i][c] == t.rows[i][c]
  {
    Table(t.columns, Map(t.rows, Coercion(cols)))
  }

  /** Coercing a row again over any of the columns already coerced changes nothing. */
  lemma CoerceRowIdempotent(r: Row, a: seq<string>, b: seq<string>)
    requires forall c :: c in b ==> c in a
    ensures CoerceRow(CoerceRow(r, a), b) == CoerceRow(r, a)
  {
  }

  /** A row holding no unparsed text is left as it is by coercion over any columns. */
  lemma CoerceRowWithoutText(r: Row, cols: seq<string>)
    requires forall c :: c in r ==> !r[c].Text?
    ensures CoerceRow(r, cols) == r
  {
  }

  // ---------------------------------------------------------------------------
  // Column selection: df[cols]

  function ProjectRow(r: Row, cols: seq<string>): Row {
    map c | c in cols && c in r :: r[c]
  }

  /** Projecting a coerced row onto columns it has, all of them coerced: exactly
      those columns, each holding its coerced cell. */
  lemma ProjectCoercedRow(r: Row, numeric: seq<string>, cols: seq<string>)
    requires forall c :: c in cols ==> c in r && c in numeric
    ensures ProjectRow(CoerceRow(r, numeric), cols).Keys == ColumnSet(cols)
    ensures forall c :: c in cols ==> ProjectRow(CoerceRow(r, numeric), cols)[c] == CoerceCell(r[c])
  {
  }

  function Projection(cols: seq<string>): Row -> Row {
    r => ProjectRow(r, cols)
  }

  /** The requested columns the table does not have, in request order. */
  function MissingColumns(t: Table, cols: seq<string>): (m: seq<string>)
    ensures forall c :: c in m <==> c in cols && c !in t.columns
    decreases |cols|
  {
    if |cols| == 0 then []
    else (if cols[0] in t.columns then [] else [cols[0]]) + MissingColumns(t, cols[1..])
  }

  /** `df[cols]`: a table of exactly the requested columns, in the requested
      order, with one row per input row; a KeyError naming the absent columns if
      any requested column is not in the table. */
  function Project(t: Table, cols: seq<string>): (r: Result<Table, Error>)
    requires WellFormed(t)
    ensures r.Failure? <==> exists c :: c in cols && c !in t.columns
    ensures r.Failure? ==> r.error.KeyError? && |r.error.keys| > 0
                           && forall c :: c in r.error.keys ==> c in cols && c !in t.columns
    ensures r.Success? ==> r.value.columns == cols && |r.value.rows| == |t.rows|
    ensures r.Success? ==> forall i :: 0 <= i < |t.rows| ==>
              r.value.rows[i].Keys == ColumnSet(cols)
              && forall c :: c in cols ==> r.value.rows[i][c] == t.rows[i][c]
  {
    var missing := MissingColumns(t, cols);
    if |missing| > 0 then
      assert missing[0] in missing;
      Failure(KeyError(missing))
    else
      assert forall c :: c in cols ==> c in t.columns;
      Success(Table(cols, Map(t.rows, Projection(cols))))
  }

  // ---------------------------------------------------------------------------
  // Row filters: df.dropna(how="all") and df.dropna(subset=[col])

  const NotAllMissing: Row -> bool := r => !AllMissing(r)

  function Present(col: string): Row -> bool {
    r => HasValue(r, col)
  }

  /** `df.dropna(how="all")`: drops exactly the rows whose every cell is missing
      and keeps the others in their original order. */
  function DropAllMissing(t: Table): (r: Table)
    ensures r.columns == t.columns
    ensures forall i :: 0 <= i < |r.rows| ==> !AllMissing(r.rows[i])
    ensures forall row :: row in r.rows <==> row in t.rows && !AllMissing(row)
    ensures forall row :: multiset(r.rows)[row] == if AllMissing(row) then 0 else multiset(t.rows)[row]
    ensures IsSubsequence(r.rows, t.rows)
    ensures WellFormed(t) ==> WellFormed(r)
  {
    FilterIsSubsequence(t.rows, NotAllMissing);
    FilterMultiset(t.rows, NotAllMissing);
    Table(t.columns, Filter(t.rows, NotAllMissing))
  }

  /** `df.dropna(subset=[col])`: drops exactly the rows missing `col` and keeps
      the others in their original order. */
  function DropMissing(t: Table, col: string): (r: Table)
    ensures r.columns == t.columns
    ensures forall i :: 0 <= i < |r.rows| ==> HasValue(r.rows[i], col)
    ensures forall row :: row in r.rows <==> row in t.rows && HasValue(row, col)
    ensures forall row :: multiset(r.rows)[row] == if HasValue(row, col) then multiset(t.rows)[row] else 0
    ensures IsSubsequence(r.rows, t.rows)
    ensures WellFormed(t) ==> WellFormed(r)
  {
    FilterIsSubsequence(t.rows, Present(col));
    FilterMultiset(t.rows, Present(col));
    Table(t.columns, Filter(t.rows, Present(col)))
  }
}
