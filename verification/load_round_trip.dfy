/** Writing rows in the tab-separated MindRove simple format and reading them
    back with the loader: the loader returns exactly the rows that were written,
    whatever metadata lines and header line precede them. */
module LoadRoundTrip {
  import opened Wrappers
  import opened Strings
  import opened Numbers
  import opened Sequences
  import opened Tables
  import opened Loader

  /** A cell as written: an empty field for NaN, the numeral for a number. */
  function RenderCell(c: Cell): string {
    match c
    case Num(x) => Render(x)
    case _ => ""
  }

  /** The fields of a row in the order of `columns`; a column the row lacks is written empty. */
  function RenderFields(row: Row, columns: seq<string>): seq<string> {
    seq(|columns|, k requires 0 <= k < |columns| => if columns[k] in row then RenderCell(row[columns[k]]) else "")
  }

  /** A row as one tab-separated line. */
  function RenderRow(row: Row, columns: seq<string>): string {
    Join(RenderFields(row, columns), '\t')
  }

  /** The rows the loader can produce: exactly the columns, every cell a number
      or NaN, and not every cell NaN. */
  predicate Loadable(row: Row, columns: seq<string>) {
    && row.Keys == ColumnSet(columns)
    && (forall c :: c in row ==> row[c].Missing? || row[c].Num?)
    && !AllMissing(row)
  }

  function RenderLines(rows: seq<Row>, columns: seq<string>): seq<string> {
    seq(|rows|, i requires 0 <= i < |rows| => RenderRow(rows[i], columns))
  }

  lemma RenderLinesCons(rows: seq<Row>, columns: seq<string>)
    requires |rows| >= 1
    ensures RenderLines(rows, columns) == [RenderRow(rows[0], columns)] + RenderLines(rows[1..], columns)
  {
  }

  /** A rendered number is a non-empty numeral: no tab, no newline. */
  lemma RenderedNumber(x: Number)
    ensures |Render(x)| >= 1 && '\t' !in Render(x) && '\n' !in Render(x) && ' ' !in Render(x)
  {
    ParseRender(x);
    var s := Render(x);
    assert forall i :: 0 <= i < |s| ==> IsNumeralChar(s[i]);
  }

  lemma RenderedCell(c: Cell)
    ensures '\t' !in RenderCell(c) && '\n' !in RenderCell(c)
    ensures c.Num? ==> |RenderCell(c)| >= 1
  {
    if c.Num? {
      RenderedNumber(c.num);
    }
  }

  /** Reading a rendered field gives back the cell once it is coerced. */
  lemma ReadRenderedCell(c: Cell)
    requires c.Missing? || c.Num?
    ensures CoerceCell(FieldCell(RenderCell(c))) == c
  {
    if c.Num? {
      RenderedNumber(c.num);
      ParseRender(c.num);
    }
  }

  /** The line of a row splits back into its fields and holds no newline. */
  lemma SplitRenderedRow(row: Row, columns: seq<string>)
    requires |columns| >= 1
    ensures Split(RenderRow(row, columns), '\t') == RenderFields(row, columns)
    ensures '\n' !in RenderRow(row, columns)
  {
    var fields := RenderFields(row, columns);
    forall k | 0 <= k < |fields| ensures '\t' !in fields[k] && '\n' !in fields[k] {
      if columns[k] in row {
        RenderedCell(row[columns[k]]);
      }
    }
    SplitJoin(fields, '\t');
    JoinExcludes(fields, '\t', '\n');
  }

  /** The line of a loadable row is not blank: some cell is a number, and a
      number is written with at least one character. */
  lemma RenderedRowNotBlank(row: Row, columns: seq<string>)
    requires |columns| >= 1 && Loadable(row, columns)
    ensures !Blank(RenderRow(row, columns))
  {
    var fields := RenderFields(row, columns);
    var c :| c in row && row[c] != Missing;
    var k :| 0 <= k < |columns| && columns[k] == c;
    var numeral := Render(row[c].num);
    RenderedNumber(row[c].num);
    assert fields[k] == numeral && numeral[0] in fields[k];
    JoinContains(fields, '\t', k, numeral[0]);
  }

  /** One cell of a loadable row survives writing, reading and coercion. */
  lemma ReadCellAt(row: Row, columns: seq<string>, k: int)
    requires Distinct(columns) && Loadable(row, columns) && 0 <= k < |columns|
    ensures columns[k] in CoerceRow(FieldsToRow(columns, RenderFields(row, columns)), columns)
    ensures CoerceRow(FieldsToRow(columns, RenderFields(row, columns)), columns)[columns[k]] == row[columns[k]]
  {
    var c := columns[k];
    assert c in ColumnSet(columns);
    var read := FieldsToRow(columns, RenderFields(row, columns));
    assert read[c] == FieldCell(RenderCell(row[c]));
    ReadRenderedCell(row[c]);
  }

  /** Reading the line of a loadable row gives back the row: the line is not
      blank, and coercing the fields it is read into restores every cell. */
  lemma ReadRenderedRow(row: Row, columns: seq<string>)
    requires |columns| >= 1 && Distinct(columns) && Loadable(row, columns)
    ensures !Blank(RenderRow(row, columns))
    ensures CoerceRow(FieldsToRow(columns, Split(RenderRow(row, columns), '\t')), columns) == row
  {
    SplitRenderedRow(row, columns);
    var back := CoerceRow(FieldsToRow(columns, RenderFields(row, columns)), columns);
    forall k | 0 <= k < |columns| ensures columns[k] in back && back[columns[k]] == row[columns[k]] {
      ReadCellAt(row, columns, k);
    }
    assert back.Keys == ColumnSet(columns);
    SameEntries(back, row, columns);
    assert !Blank(RenderRow(row, columns)) by {
      RenderedRowNotBlank(row, columns);
    }
  }

  /** Two rows with the columns as keys that agree on every column are equal. */
  lemma SameEntries(a: Row, b: Row, columns: seq<string>)
    requires a.Keys == ColumnSet(columns) && b.Keys == ColumnSet(columns)
    requires forall k :: 0 <= k < |columns| ==> columns[k] in a && columns[k] in b && a[columns[k]] == b[columns[k]]
    ensures a == b
  {
    forall c | c in a ensures a[c] == b[c] {
      var k :| 0 <= k < |columns| && columns[k] == c;
    }
  }

  /** A data line the reader takes as one row: not blank, and no more fields than columns. */
  predicate ReadableLine(line: string, n: nat) {
    !Blank(line) && |Split(line, '\t')| <= n
  }

  /** Readable lines are read one row per line. */
  lemma ReadEveryLine(columns: seq<string>, lines: seq<string>, lineNo: nat)
    requires Distinct(columns)
    requires forall line :: line in lines ==> ReadableLine(line, |columns|)
    ensures ParseDataLines(columns, lines, lineNo) == Success(Map(lines, ReadLine(columns)))
  {
    forall i | 0 <= i < |lines| ensures NonBlank(lines[i]) && !Overlong(lines[i], |columns|) {
      assert ReadableLine(lines[i], |columns|);
    }
    FilterKeepsAll(lines, NonBlank);
  }

  /** The data lines of loadable rows read back, after coercion, as those rows. */
  lemma ReadRenderedLines(columns: seq<string>, rows: seq<Row>, lineNo: nat)
    requires |columns| >= 1 && Distinct(columns)
    requires forall i :: 0 <= i < |rows| ==> Loadable(rows[i], columns)
    ensures ParseDataLines(columns, RenderLines(rows, columns), lineNo).Success?
    ensures Map(ParseDataLines(columns, RenderLines(rows, columns), lineNo).value, Coercion(columns)) == rows
  {
    var lines := RenderLines(rows, columns);
    var read := Map(lines, ReadLine(columns));
    forall i | 0 <= i < |lines|
      ensures ReadableLine(lines[i], |columns|)
      ensures Coercion(columns)(read[i]) == rows[i]
    {
      LineReadsBack(rows[i], columns);
    }
    ReadEveryLine(columns, lines, lineNo);
    MapPointwise(read, Coercion(columns), rows);
  }

  lemma LineReadsBack(row: Row, columns: seq<string>)
    requires |columns| >= 1 && Distinct(columns) && Loadable(row, columns)
    ensures !Blank(RenderRow(row, columns)) && |Split(RenderRow(row, columns), '\t')| <= |columns|
    ensures Coercion(columns)(ReadLine(columns)(RenderRow(row, columns))) == row
  {
    ReadRenderedRow(row, columns);
    SplitRenderedRow(row, columns);
  }

  /** A header naming `columns` followed by the lines of loadable rows is read
      as a table with those columns whose rows coerce back to the rows. */
  lemma ReadRenderedTable(columns: seq<string>, rows: seq<Row>)
    requires |columns| >= 1 && Distinct(columns)
    requires forall k :: 0 <= k < |columns| ==> '\t' !in columns[k] && '\n' !in columns[k]
    requires forall i :: 0 <= i < |rows| ==> Loadable(rows[i], columns)
    ensures '\n' !in Join(columns, '\t')
    ensures ReadTsv(WithHeader(Join(columns, '\t'), RenderLines(rows, columns))).Success?
    ensures var t := ReadTsv(WithHeader(Join(columns, '\t'), RenderLines(rows, columns))).value;
            t.columns == columns && Map(t.rows, Coercion(columns)) == rows
  {
    JoinExcludes(columns, '\t', '\n');
    SplitJoin(columns, '\t');
    var lines := RenderLines(rows, columns);
    var header := Join(columns, '\t');
    var text := WithHeader(header, lines);
    assert Split(text, '\n') == [header] + lines by {
      forall i | 0 <= i < |lines| ensures '\n' !in lines[i] {
        SplitRenderedRow(rows[i], columns);
      }
      SplitWithHeader(header, lines);
    }
    assert Split(text, '\n')[1..] == lines;
    ReadRenderedLines(columns, rows, 2);
  }

  /** The header index of metadata lines followed by a header line. */
  lemma HeaderAfterMetadata(metadata: seq<string>, header: string, rest: seq<string>)
    requires forall i :: 0 <= i < |metadata| ==> IsMetadata(metadata[i])
    requires !IsMetadata(header)
    ensures HeaderIndex(metadata + [header] + rest) == |metadata|
  {
    var lines := metadata + [header] + rest;
    assert forall i :: 0 <= i < |metadata| ==> lines[i] == metadata[i];
    assert lines[|metadata|] == header;
  }

  /** The text handed to the reader is the canonical header followed by the lines after the file's header. */
  lemma NormalisedAfterMetadata(metadata: seq<string>, header: string, body: seq<string>)
    requires forall i :: 0 <= i < |metadata| ==> IsMetadata(metadata[i])
    requires !IsMetadata(header)
    ensures '\n' !in HeaderLine
    ensures NormalisedText(metadata + [header] + body) == Success(WithHeader(HeaderLine, body))
  {
    HeaderFacts();
    HeaderAfterMetadata(metadata, header, body);
    assert (metadata + [header] + body)[|metadata| + 1..] == body;
  }

  /** Coercing read rows that coerce back to loadable rows, then dropping
      entirely missing rows, gives exactly those rows. */
  lemma CleanReadRows(parsed: Table, rows: seq<Row>)
    requires Map(parsed.rows, Coercion(parsed.columns)) == rows
    requires forall i :: 0 <= i < |rows| ==> !AllMissing(rows[i])
    ensures DropAllMissing(CoerceColumns(parsed, parsed.columns)) == Table(parsed.columns, rows)
  {
    FilterKeepsAll(rows, NotAllMissing);
  }

  /** Loading the lines of a written file gives back exactly the rows written,
      whatever the metadata lines and the file's own header line say. */
  lemma LoadWritten(metadata: seq<string>, header: string, rows: seq<Row>)
    requires forall i :: 0 <= i < |metadata| ==> IsMetadata(metadata[i])
    requires !IsMetadata(header)
    requires forall i :: 0 <= i < |rows| ==> Loadable(rows[i], HeaderSimple)
    ensures LoadSimple(metadata + [header] + RenderLines(rows, HeaderSimple)) == Success(Table(HeaderSimple, rows))
  {
    var body := RenderLines(rows, HeaderSimple);
    var lines := metadata + [header] + body;
    HeaderFacts();
    var text := WithHeader(HeaderLine, body);
    NormalisedAfterMetadata(metadata, header, body);
    ReadRenderedTable(HeaderSimple, rows);
    var parsed := ReadTsv(text).value;
    EnforceHeaderCanonical(parsed);
    LoadSimpleStages(lines);
    CleanReadRows(parsed, rows);
  }

  // ---------------------------------------------------------------------------
  // A header line that itself starts with the metadata prefix

  /** The line of a row never looks like metadata: it starts with a numeral
      character, or with a tab when its first cell is missing. */
  lemma RenderedRowNotMetadata(row: Row, columns: seq<string>)
    requires |columns| >= 2
    ensures !IsMetadata(RenderRow(row, columns))
  {
    var fields := RenderFields(row, columns);
    var line := RenderRow(row, columns);
    JoinHead(fields, '\t');
    if |fields[0]| > 0 {
      assert columns[0] in row && row[columns[0]].Num?;
      var numeral := Render(row[columns[0]].num);
      assert line[0] == numeral[0] && IsNumeralChar(numeral[0]);
    } else {
      assert line[0] == '\t';
    }
    assert line[0] != MetadataPrefix[0];
  }

  /** The canonical header line starts with the metadata prefix: its first name is `Device number`. */
  lemma HeaderLineIsMetadata()
    ensures IsMetadata(HeaderLine)
  {
    assert StartsWith(HeaderSimple[0], MetadataPrefix);
    JoinKeepsPrefix(HeaderSimple, '\t', MetadataPrefix);
  }

  /** A join starts with whatever its first piece starts with. */
  lemma JoinKeepsPrefix(parts: seq<string>, sep: char, prefix: string)
    requires |parts| >= 1 && StartsWith(parts[0], prefix)
    ensures StartsWith(Join(parts, sep), prefix)
  {
    if |parts| >= 2 {
      JoinHead(parts, sep);
      assert Join(parts, sep)[..|prefix|] == parts[0][..|prefix|];
    }
  }

  /** When the file's own header line starts with `Device `, it is skipped with the
      metadata: the first data line is taken for the header and replaced, so the
      loader returns every written row except the first. */
  lemma HeaderSkippedAsMetadata(metadata: seq<string>, header: string, rows: seq<Row>)
    requires forall i :: 0 <= i < |metadata| ==> IsMetadata(metadata[i])
    requires IsMetadata(header)
    requires |rows| >= 1
    requires forall i :: 0 <= i < |rows| ==> Loadable(rows[i], HeaderSimple)
    ensures LoadSimple(metadata + [header] + RenderLines(rows, HeaderSimple)) == Success(Table(HeaderSimple, rows[1..]))
  {
    var first := RenderRow(rows[0], HeaderSimple);
    var skipped := metadata + [header];
    assert !IsMetadata(first) by {
      HeaderFacts();
      RenderedRowNotMetadata(rows[0], HeaderSimple);
    }
    assert forall i :: 0 <= i < |skipped| ==> IsMetadata(skipped[i]);
    assert metadata + [header] + RenderLines(rows, HeaderSimple) == skipped + [first] + RenderLines(rows[1..], HeaderSimple) by {
      RenderLinesCons(rows, HeaderSimple);
    }
    LoadWritten(skipped, first, rows[1..]);
  }

  /** A file written with the canonical header line loses its first row on loading. */
  lemma CanonicalHeaderLosesFirstRow(rows: seq<Row>)
    requires |rows| >= 1
    requires forall i :: 0 <= i < |rows| ==> Loadable(rows[i], HeaderSimple)
    ensures LoadSimple([HeaderLine] + RenderLines(rows, HeaderSimple)) == Success(Table(HeaderSimple, rows[1..]))
  {
    HeaderLineIsMetadata();
    assert [HeaderLine] + RenderLines(rows, HeaderSimple) == [] + [HeaderLine] + RenderLines(rows, HeaderSimple);
    HeaderSkippedAsMetadata([], HeaderLine, rows);
  }
}
