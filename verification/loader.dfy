/** `load_mindrove_csv_simple`: locate the header line of a MindRove export,
    replace it with the canonical header, read the rest as tab-separated values,
    coerce the canonical columns to numbers and drop rows that are entirely
    missing. The file's lines are the input; opening and reading the file is not
    modelled. */
module Loader {
  import opened Wrappers
  import opened Strings
  import opened Numbers
  import opened Sequences
  import opened Tables

  /** HEADER_SIMPLE: the 16 canonical column names, in file order. */
  const HeaderSimple: seq<string> := [
    "Device number",
    "Channel1", "Channel2", "Channel3", "Channel4",
    "Channel5", "Channel6", "Channel7", "Channel8",
    "GyroX", "GyroY", "GyroZ",
    "AccX", "AccY", "AccZ",
    "Timestamp"
  ]

  /** Lines starting with this prefix before the header are device metadata. */
  const MetadataPrefix: string := "Device "

  /** `"\t".join(HEADER_SIMPLE)`: the line that replaces the file's own header. */
  const HeaderLine: string := Join(HeaderSimple, '\t')

  /** The canonical names are distinct: no two share both length and last letter. */
  lemma HeaderDistinct()
    ensures Distinct(HeaderSimple)
  {
    var hs := HeaderSimple;
    assert forall i :: 0 <= i < |hs| ==> |hs[i]| > 0;
    assert forall i, j :: 0 <= i < j < |hs| ==> |hs[i]| != |hs[j]| || hs[i][|hs[i]| - 1] != hs[j][|hs[j]| - 1];
  }

  lemma HeaderFacts()
    ensures |HeaderSimple| == 16 && Distinct(HeaderSimple)
    ensures Split(HeaderLine, '\t') == HeaderSimple
    ensures '\n' !in HeaderLine
    ensures forall k :: 0 <= k < |HeaderSimple| ==> '\t' !in HeaderSimple[k] && '\n' !in HeaderSimple[k]
  {
    HeaderDistinct();
    assert forall k :: 0 <= k < |HeaderSimple| ==> '\t' !in HeaderSimple[k] && '\n' !in HeaderSimple[k];
    SplitJoin(HeaderSimple, '\t');
    JoinExcludes(HeaderSimple, '\t', '\n');
  }

  predicate IsMetadata(line: string) {
    StartsWith(line, MetadataPrefix)
  }

  // ---------------------------------------------------------------------------
  // Locating the header line

  /** The `while start < len(lines) and lines[start].startswith("Device ")` loop,
      continued from `start`. */
  function SkipMetadata(lines: seq<string>, start: nat): (h: nat)
    requires start <= |lines|
    requires forall i :: 0 <= i < start ==> IsMetadata(lines[i])
    ensures start <= h <= |lines|
    ensures forall i :: 0 <= i < h ==> IsMetadata(lines[i])
    ensures h < |lines| ==> !IsMetadata(lines[h])
    decreases |lines| - start
  {
    if start < |lines| && IsMetadata(lines[start]) then SkipMetadata(lines, start + 1) else start
  }

  /** The index of the header line: the first line that is not metadata, or
      `|lines|` when there is none. */
  function HeaderIndex(lines: seq<string>): (h: nat)
    ensures h <= |lines|
    ensures forall i :: 0 <= i < h ==> IsMetadata(lines[i])
    ensures h < |lines| ==> !IsMetadata(lines[h])
  {
    SkipMetadata(lines, 0)
  }

  /** `header` and `rest` joined by newlines; the first line of the result is `header`. */
  function WithHeader(header: string, rest: seq<string>): (text: string)
    requires '\n' !in header
    ensures StartsWith(text, header)
    ensures Split(text, '\n')[0] == header
    ensures text == header <==> |rest| == 0
  {
    if |rest| == 0 then
      assert Join([header] + rest, '\n') == header;
      Join([header] + rest, '\n')
    else
      assert ([header] + rest)[1..] == rest;
      assert Join([header] + rest, '\n') == header + ['\n'] + Join(rest, '\n');
      SplitAfterPiece(header, Join(rest, '\n'), '\n');
      Join([header] + rest, '\n')
  }

  /** The text handed to the table reader: the canonical header line followed by
      the lines after the file's header, joined by newlines. Fails with NoHeader
      exactly when every line is metadata (including when there are no lines). */
  function NormalisedText(lines: seq<string>): (r: Result<string, Error>)
    ensures r.Failure? <==> forall i :: 0 <= i < |lines| ==> IsMetadata(lines[i])
    ensures r.Failure? ==> r.error == NoHeader
    ensures r.Success? ==> StartsWith(r.value, HeaderLine)
    ensures r.Success? ==> Split(r.value, '\n')[0] == HeaderLine
    ensures r.Success? ==> (r.value == HeaderLine <==> HeaderIndex(lines) == |lines| - 1)
  {
    var start := HeaderIndex(lines);
    if start >= |lines| then Failure(NoHeader)
    else
      HeaderFacts();
      Success(WithHeader(HeaderLine, lines[start + 1..]))
  }

  /** Lines after the header reach the table reader unchanged and in order,
      whatever the file's own header line said. */
  lemma NormalisedLines(lines: seq<string>)
    requires forall i :: 0 <= i < |lines| ==> '\n' !in lines[i]
    ensures NormalisedText(lines).Success? ==>
              Split(NormalisedText(lines).value, '\n') == [HeaderLine] + lines[HeaderIndex(lines) + 1..]
  {
    if NormalisedText(lines).Success? {
      HeaderFacts();
      SplitWithHeader(HeaderLine, lines[HeaderIndex(lines) + 1..]);
    }
  }

  lemma SplitWithHeader(header: string, rest: seq<string>)
    requires '\n' !in header
    requires forall i :: 0 <= i < |rest| ==> '\n' !in rest[i]
    ensures Split(WithHeader(header, rest), '\n') == [header] + rest
  {
    var parts := [header] + rest;
    assert forall i :: 0 <= i < |parts| ==> '\n' !in parts[i];
    SplitJoin(parts, '\n');
  }

  // ---------------------------------------------------------------------------
  // Reading tab-separated text: pd.read_csv(io.StringIO(text), sep="\t")

  /** An empty field is read as NaN; any other field as text. */
  function FieldCell(field: string): Cell {
    if field == "" then Missing else Text(field)
  }

  /** A line the reader skips: empty, or made of spaces only (pandas'
      `skip_blank_lines`, with a tab as the separator). */
  predicate Blank(line: string) {
    forall i :: 0 <= i < |line| ==> line[i] == ' '
  }

  /** A non-blank line with more tab-separated fields than `n`: the tokeniser rejects it. */
  predicate Overlong(line: string, n: nat) {
    !Blank(line) && |Split(line, '\t')| > n
  }

  /** A data line's fields, aligned with the columns; a short line is padded with NaN. */
  function FieldsToRow(columns: seq<string>, fields: seq<string>): (r: Row)
    requires Distinct(columns)
    ensures r.Keys == ColumnSet(columns)
    ensures forall k :: 0 <= k < |columns| ==>
              r[columns[k]] == if k < |fields| then FieldCell(fields[k]) else Missing
  {
    map k | 0 <= k < |columns| :: columns[k] := if k < |fields| then FieldCell(fields[k]) else Missing
  }

  /** The lines the reader takes as rows. */
  const NonBlank: string -> bool := line => !Blank(line)

  /** A data line read as a row, before coercion. */
  function ReadLine(columns: seq<string>): string -> Row
    requires Distinct(columns)
  {
    line => FieldsToRow(columns, Split(line, '\t'))
  }

  /** The data lines read as rows. Blank lines are skipped; a line with more
      fields than there are columns is a tokenising error that names it
      (`lineNo` is the 1-based line number of `lines[0]` in the text). */
  function ParseDataLines(columns: seq<string>, lines: seq<string>, lineNo: nat): (r: Result<seq<Row>, Error>)
    requires Distinct(columns)
    ensures r.Failure? <==> exists i :: 0 <= i < |lines| && Overlong(lines[i], |columns|)
    ensures r.Failure? ==> r.error.TooManyFields? && r.error.expected == |columns|
    ensures r.Success? ==> |r.value| <= |lines|
    ensures r.Success? ==> forall i :: 0 <= i < |r.value| ==>
              r.value[i].Keys == ColumnSet(columns)
    ensures r.Success? ==> r.value == Map(Filter(lines, NonBlank), ReadLine(columns))
    decreases |lines|
  {
    if |lines| == 0 then Success([])
    else if Blank(lines[0]) then
      var r := ParseDataLines(columns, lines[1..], lineNo + 1);
      assert forall i :: 1 <= i < |lines| ==> lines[i] == lines[1..][i - 1];
      assert Filter(lines, NonBlank) == Filter(lines[1..], NonBlank);
      r
    else
      var fields := Split(lines[0], '\t');
      if |fields| > |columns| then Failure(TooManyFields(lineNo, |columns|, |fields|))
      else
        assert forall i :: 1 <= i < |lines| ==> lines[i] == lines[1..][i - 1];
        var rest :- ParseDataLines(columns, lines[1..], lineNo + 1);
        var kept := Filter(lines, NonBlank);
        assert kept == [lines[0]] + Filter(lines[1..], NonBlank);
        assert kept[1..] == Filter(lines[1..], NonBlank);
        MapCons(kept, ReadLine(columns));
        Success([FieldsToRow(columns, fields)] + rest)
  }

  /** The table reader: the first line names the columns, every other non-blank
      line is a row. */
  function ReadTsv(text: string): (r: Result<Table, Error>)
    ensures r.Success? ==> WellFormed(r.value)
    ensures r.Success? ==> r.value.columns == Split(Split(text, '\n')[0], '\t')
    ensures r.Success? ==> |r.value.rows| < |Split(text, '\n')|
    ensures r.Success? ==> r.value.rows == Map(Filter(Split(text, '\n')[1..], NonBlank), ReadLine(r.value.columns))
    ensures r.Failure? <==>
              || !Distinct(Split(Split(text, '\n')[0], '\t'))
              || exists i :: 1 <= i < |Split(text, '\n')|
                               && Overlong(Split(text, '\n')[i], |Split(Split(text, '\n')[0], '\t')|)
    ensures r.Failure? ==> if Distinct(Split(Split(text, '\n')[0], '\t')) then r.error.TooManyFields? else r.error == DuplicateColumns
  {
    var lines := Split(text, '\n');
    var columns := Split(lines[0], '\t');
    if !Distinct(columns) then Failure(DuplicateColumns)
    else
      assert forall i :: 1 <= i < |lines| ==> lines[i] == lines[1..][i - 1];
      var rows :- ParseDataLines(columns, lines[1..], 2);
      Success(Table(columns, rows))
  }

  // ---------------------------------------------------------------------------
  // Renaming columns: `if len(df.columns) == len(HEADER_SIMPLE): df.columns = HEADER_SIMPLE`

  function RenameRow(row: Row, from: seq<string>, to: seq<string>): (r: Row)
    requires |from| == |to| && Distinct(to)
    requires forall k :: 0 <= k < |from| ==> from[k] in row
    ensures r.Keys == ColumnSet(to)
    ensures forall k :: 0 <= k < |to| ==> r[to[k]] == row[from[k]]
  {
    map k | 0 <= k < |to| :: to[k] := row[from[k]]
  }

  /** Positional renaming of every column to `names`. */
  function RenameColumns(t: Table, names: seq<string>): (r: Table)
    requires WellFormed(t) && |names| == |t.columns| && Distinct(names)
    ensures WellFormed(r) && r.columns == names && |r.rows| == |t.rows|
    ensures forall i, k :: 0 <= i < |t.rows| && 0 <= k < |names| ==> r.rows[i][names[k]] == t.rows[i][t.columns[k]]
  {
    Table(names, seq(|t.rows|, i requires 0 <= i < |t.rows| => RenameRow(t.rows[i], t.columns, names)))
  }

  /** Columns take the canonical names, position by position, exactly when the
      table has as many columns as the canonical header; otherwise the table is
      returned untouched. */
  function EnforceHeader(t: Table): (r: Table)
    requires WellFormed(t)
    ensures WellFormed(r)
    ensures |t.columns| == |HeaderSimple| ==>
              && r.columns == HeaderSimple
              && |r.rows| == |t.rows|
              && forall i, k :: 0 <= i < |t.rows| && 0 <= k < |HeaderSimple| ==>
                   r.rows[i][HeaderSimple[k]] == t.rows[i][t.columns[k]]
    ensures |t.columns| != |HeaderSimple| ==> r == t
  {
    if |t.columns| == |HeaderSimple| then
      HeaderDistinct();
      RenameColumns(t, HeaderSimple)
    else
      t
  }

  /** Renaming the columns to their own names changes nothing. */
  lemma RenameColumnsToSelf(t: Table)
    requires WellFormed(t)
    ensures RenameColumns(t, t.columns) == t
  {
    var r := RenameColumns(t, t.columns);
    forall i | 0 <= i < |t.rows|
      ensures r.rows[i] == t.rows[i]
    {
      assert forall c :: c in t.rows[i] ==> exists k :: 0 <= k < |t.columns| && t.columns[k] == c;
    }
  }

  /** A table that already carries the canonical names is left as it is. */
  lemma EnforceHeaderCanonical(t: Table)
    requires WellFormed(t) && t.columns == HeaderSimple
    ensures EnforceHeader(t) == t
  {
    RenameColumnsToSelf(t);
  }

  // ---------------------------------------------------------------------------
  // The loader

  /** Coercing every column and dropping entirely missing rows leaves a table
      of numbers and missing cells with no entirely missing row. */
  lemma CleanedTable(t: Table)
    requires WellFormed(t)
    ensures var r := DropAllMissing(CoerceColumns(t, t.columns));
            && WellFormed(r) && r.columns == t.columns
            && (forall i :: 0 <= i < |r.rows| ==> !AllMissing(r.rows[i]))
            && (forall i, c :: 0 <= i < |r.rows| && c in r.rows[i] ==> !r.rows[i][c].Text?)
  {
    var numeric := CoerceColumns(t, t.columns);
    assert forall i, c :: 0 <= i < |numeric.rows| && c in numeric.rows[i] ==> !numeric.rows[i][c].Text?;
    var r := DropAllMissing(numeric);
    assert forall i :: 0 <= i < |r.rows| ==> r.rows[i] in numeric.rows;
  }

  /** load_mindrove_csv_simple on the file's lines. On success the table has
      exactly the canonical columns, no row is entirely missing and every cell is
      a number or missing. It fails with NoHeader exactly when every line is
      metadata; the only other failure is a data line with too many fields. */
  function LoadSimple(lines: seq<string>): (r: Result<Table, Error>)
    ensures r == Failure(NoHeader) <==> forall i :: 0 <= i < |lines| ==> IsMetadata(lines[i])
    ensures r.Failure? ==> r.error.NoHeader? || r.error.TooManyFields?
    ensures r.Success? ==> WellFormed(r.value) && r.value.columns == HeaderSimple
    ensures r.Success? ==> forall i :: 0 <= i < |r.value.rows| ==> !AllMissing(r.value.rows[i])
    ensures r.Success? ==> forall i, c :: 0 <= i < |r.value.rows| && c in r.value.rows[i] ==> !r.value.rows[i][c].Text?
  {
    var text :- NormalisedText(lines);
    HeaderFacts();
    var parsed :- ReadTsv(text);
    EnforceHeaderCanonical(parsed);
    CleanedTable(parsed);
    Success(DropAllMissing(CoerceColumns(EnforceHeader(parsed), HeaderSimple)))
  }

  // ---------------------------------------------------------------------------
  // When loading fails

  /** The table reader fails on a header line and the lines after it exactly
      when some non-blank line has more fields than the header names. */
  lemma ReadAfterHeaderFails(header: string, rest: seq<string>)
    requires '\n' !in header && Distinct(Split(header, '\t'))
    requires forall i :: 0 <= i < |rest| ==> '\n' !in rest[i]
    ensures ReadTsv(WithHeader(header, rest)).Failure? <==>
              exists i :: 0 <= i < |rest| && Overlong(rest[i], |Split(header, '\t')|)
  {
    var lines := Split(WithHeader(header, rest), '\n');
    SplitWithHeader(header, rest);
    assert forall i :: 1 <= i < |lines| ==> lines[i] == rest[i - 1];
    if exists i :: 0 <= i < |rest| && Overlong(rest[i], |Split(header, '\t')|) {
      var i :| 0 <= i < |rest| && Overlong(rest[i], |Split(header, '\t')|);
      assert lines[i + 1] == rest[i];
    }
  }

  /** Loading fails exactly when finding the header or reading the table fails,
      with that stage's error. */
  lemma LoadStages(lines: seq<string>)
    ensures LoadSimple(lines).Failure? <==>
              NormalisedText(lines).Failure? || ReadTsv(NormalisedText(lines).value).Failure?
    ensures LoadSimple(lines).Failure? && NormalisedText(lines).Success? ==>
              LoadSimple(lines).error == ReadTsv(NormalisedText(lines).value).error
  {
  }

  /** On success the loaded table is the read table, renamed, coerced and cleaned. */
  lemma LoadSimpleStages(lines: seq<string>)
    requires NormalisedText(lines).Success? && ReadTsv(NormalisedText(lines).value).Success?
    ensures var parsed := ReadTsv(NormalisedText(lines).value).value;
            LoadSimple(lines) == Success(DropAllMissing(CoerceColumns(EnforceHeader(parsed), HeaderSimple)))
  {
  }

  /** Loading fails exactly when every line is metadata, or when a non-blank line
      after the header has more than sixteen tab-separated fields; in the second
      case the error is the tokenising error. */
  lemma LoadFailsIff(lines: seq<string>)
    requires forall i :: 0 <= i < |lines| ==> '\n' !in lines[i]
    ensures LoadSimple(lines).Failure? <==>
              || (forall i :: 0 <= i < |lines| ==> IsMetadata(lines[i]))
              || exists i :: HeaderIndex(lines) < i < |lines| && Overlong(lines[i], 16)
    ensures LoadSimple(lines).Failure? && HeaderIndex(lines) < |lines| ==> LoadSimple(lines).error.TooManyFields?
  {
    var h := HeaderIndex(lines);
    LoadStages(lines);
    if h < |lines| {
      var rest := lines[h + 1..];
      var text := WithHeader(HeaderLine, rest);
      assert NormalisedText(lines) == Success(text);
      assert ReadTsv(text).Failure? <==> exists j :: 0 <= j < |rest| && Overlong(rest[j], 16) by {
        HeaderFacts();
        ReadAfterHeaderFails(HeaderLine, rest);
      }
      assert ReadTsv(text).Failure? ==> ReadTsv(text).error.TooManyFields? by {
        HeaderFacts();
      }
      OverlongAfter(lines, h, rest, 16);
    }
  }

  /** One data line as the loader returns it: read against the canonical columns
      and coerced to numbers. */
  function LoadLine(line: string): Row {
    HeaderDistinct();
    CoerceRow(FieldsToRow(HeaderSimple, Split(line, '\t')), HeaderSimple)
  }

  /** The rows the loader returns are the non-blank lines after the header, in
      file order, each read and coerced, less those left entirely missing. */
  lemma LoadedRows(lines: seq<string>)
    requires forall i :: 0 <= i < |lines| ==> '\n' !in lines[i]
    ensures LoadSimple(lines).Success? ==>
              && HeaderIndex(lines) < |lines|
              && LoadSimple(lines).value.rows
                 == Filter(Map(Filter(lines[HeaderIndex(lines) + 1..], NonBlank), LoadLine), NotAllMissing)
  {
    if LoadSimple(lines).Success? {
      var h := HeaderIndex(lines);
      assert h < |lines|;
      var rest := lines[h + 1..];
      var text := NormalisedText(lines).value;
      assert ReadTsv(text).Success? by {
        LoadStages(lines);
      }
      var parsed := ReadTsv(text).value;
      assert parsed.rows == Map(Filter(rest, NonBlank), ReadLine(parsed.columns)) by {
        NormalisedLines(lines);
        assert Split(text, '\n')[1..] == rest;
      }
      assert parsed.columns == HeaderSimple by {
        NormalisedLines(lines);
        HeaderFacts();
      }
      LoadParsed(lines, parsed);
      MapMap(Filter(rest, NonBlank), ReadLine(HeaderSimple), Coercion(HeaderSimple), LoadLine);
    }
  }

  /** A successful load coerces the rows the reader produced and drops those left
      entirely missing. */
  lemma LoadParsed(lines: seq<string>, parsed: Table)
    requires NormalisedText(lines).Success? && ReadTsv(NormalisedText(lines).value) == Success(parsed)
    requires parsed.columns == HeaderSimple
    ensures LoadSimple(lines) == Success(Table(HeaderSimple, Filter(Map(parsed.rows, Coercion(HeaderSimple)), NotAllMissing)))
  {
    EnforceHeaderCanonical(parsed);
    LoadSimpleStages(lines);
  }

  /** An overlong line after index `h` is an overlong line of the suffix after `h`. */
  lemma OverlongAfter(lines: seq<string>, h: int, rest: seq<string>, n: nat)
    requires 0 <= h < |lines| && rest == lines[h + 1..]
    ensures (exists i :: h < i < |lines| && Overlong(lines[i], n)) <==>
            (exists j :: 0 <= j < |rest| && Overlong(rest[j], n))
  {
    if exists i :: h < i < |lines| && Overlong(lines[i], n) {
      var i :| h < i < |lines| && Overlong(lines[i], n);
      assert rest[i - h - 1] == lines[i];
    }
    if exists j :: 0 <= j < |rest| && Overlong(rest[j], n) {
      var j :| 0 <= j < |rest| && Overlong(rest[j], n);
      assert lines[h + 1 + j] == rest[j];
    }
  }
}
