# MindRove recording loader — a Dafny model

This project models the data-loading core of a biosignal pipeline that reads
MindRove exports. A MindRove export is a tab-separated text file in which up to
three devices interleave their samples:

- device 1 records EEG;
- devices 2 and 3 record EMG;
- every device also records IMU data (gyroscope and accelerometer).

The model covers four parts of `01_KHOA/CODE/data_loading/loader.py`.

**Constants.**
- The canonical 16-column header `HEADER_SIMPLE`.
- The role tables `DEVICE_ROLES` / `IMU_ROLES`.
- The channel lists `EXG_COLS` / `IMU_COLS`.

**`load_mindrove_csv_simple`** (`Loader.LoadSimple`). It takes the file's
lines, then:
1. skips the leading lines that start with `Device `;
2. replaces the first other line with the canonical header;
3. reads the rest as tab-separated values;
4. renames the columns when there are sixteen;
5. coerces the canonical columns to numbers;
6. drops rows that are entirely missing.

**`split_devices`** (`Devices.SplitDevices`). It routes each row by its
`Device number` into an EXG stream and an IMU stream per device:
- it coerces the numeric columns;
- it projects each stream onto its columns;
- it drops the rows without a timestamp;
- it skips a device that has no rows.

Each stream has a reference definition, `Devices.StreamOf`: the input rows
routed to the device, in input order, coerced and projected. The model proves
that the loop computes exactly these reference streams.

**`extract_clean_trial_id`** (`TrialId.ExtractCleanTrialId`). It returns the
first two underscore-separated fields of a file name, after removing the
extension with POSIX `os.path.splitext`.

## Modules

| Module | File | Contents |
|---|---|---|
| `Wrappers` | `wrappers.dfy` | `Option`, `Result` |
| `Strings` | `strings.dfy` | `startswith`, one-character `split` and `join`, their round trips |
| `Sequences` | `sequences.dfy` | `Filter` and `Map` on sequences, with general lemmas |
| `Numbers` | `numbers.dfy` | exact decimals; `pd.to_numeric` on plain decimal numerals |
| `Maps` | `maps.dfy` | union and update of maps, as the stream dictionary uses them |
| `Tables` | `tables.dfy` | cells, rows, tables, errors; coercion, `df[cols]`, `dropna` |
| `Loader` | `loader.dfy` | header location, normalised text, the TSV reader, renaming, `LoadSimple` |
| `Devices` | `devices.dfy` | roles, stream columns, reference streams, `SplitDevices` |
| `TrialId` | `trial_id.dfy` | `rfind`, POSIX `splitext`, `ExtractCleanTrialId` |
| `Pipeline` | `pipeline.dfy` | how the loader's output meets the splitter's needs |
| `LoadRoundTrip` | `load_round_trip.dfy` | writing rows in the export format and loading them back |

## Properties worth knowing

**The canonical header is always applied.** The loader replaces the header line
with the canonical header before reading. A successful read therefore always
has the sixteen canonical columns, so the renaming at lines 110-111 always
renames each column to itself. `Loader.EnforceHeader` still models the general
rule: rename exactly when there are sixteen columns. `Loader.EnforceHeaderCanonical`
shows that the rule changes nothing here.

**A header line that starts with `Device ` is lost, along with the first data
row.** The canonical header itself begins with `Device number`. The
metadata-skipping loop at lines 94-96 cannot tell such a header line from a
metadata line, so it skips it. The first data line is then taken for the header
and overwritten, and its row is lost. This is proved in two lemmas:
- `LoadRoundTrip.HeaderSkippedAsMetadata`: the general case;
- `LoadRoundTrip.CanonicalHeaderLosesFirstRow`: a file written with the
  canonical header line loads as every row but the first.

The source does not show which header line real exports carry. This is
therefore reported as a property, not as a defect.

**Loading inverts writing.** `LoadRoundTrip.LoadWritten` writes rows that the
loader can produce: every cell a number or missing, and not all cells missing.
It puts them after any metadata lines and any non-`Device ` header line, and
shows that the loader returns exactly those rows.

## Model

| member | source | states |
|---|---|---|
| `Loader.HeaderFacts` | 01_KHOA/CODE/data_loading/loader.py:71-78 | The canonical header has 16 distinct names with no tab or newline, and its tab-joined line splits back into those names. |
| `Loader.SkipMetadata` | 01_KHOA/CODE/data_loading/loader.py:94-96 | The `while` loop stops at the first line at or after `start` that does not start with `Device `, or at the end; every line it passed is metadata. |
| `Loader.HeaderIndex` | 01_KHOA/CODE/data_loading/loader.py:94-96 | The header index is the first non-metadata line, or the number of lines when there is none; every earlier line starts with `Device `. |
| `Loader.NormalisedText` | 01_KHOA/CODE/data_loading/loader.py:98-104 | Fails with the no-header error exactly when every line is metadata, including when there are no lines. Otherwise the text starts with the canonical header line, and it is just that line exactly when the header is the last line. |
| `Loader.WithHeader` | 01_KHOA/CODE/data_loading/loader.py:104 | Joining a header and the later lines with newlines gives a text whose first line is the header; it is the header alone exactly when there are no later lines. |
| `Loader.NormalisedLines` | 01_KHOA/CODE/data_loading/loader.py:101-104 | The lines handed to the reader are the canonical header followed by the lines after the file's header, unchanged and in order, whatever the header said. |
| `Loader.FieldsToRow` | 01_KHOA/CODE/data_loading/loader.py:107 | A data line's k-th field fills the k-th column. An empty field is NaN, a missing trailing field is NaN, and the row has exactly the table's columns. |
| `Loader.ParseDataLines` | 01_KHOA/CODE/data_loading/loader.py:107 | Reading data lines fails exactly when some non-blank line has more fields than there are columns, with a too-many-fields error. Otherwise the rows are the non-blank lines, in order, each read into the columns field by field; every row has exactly the columns. A blank line is empty or made of spaces only. |
| `Loader.ReadTsv` | 01_KHOA/CODE/data_loading/loader.py:107 | Fails exactly when the header repeats a name or a later non-blank line is overlong, naming which. On success the columns are the header's fields, the table is well formed, and the rows are the later non-blank lines, in order, each read field by field. |
| `Loader.RenameColumns` | 01_KHOA/CODE/data_loading/loader.py:111 | Renaming by position keeps each row's cells: the cell under the k-th new name is the cell under the k-th old name. |
| `Loader.EnforceHeader` | 01_KHOA/CODE/data_loading/loader.py:110-111 | With 16 columns the table takes the canonical names by position, keeping every cell. With any other count it is returned unchanged. |
| `Loader.RenameColumnsToSelf` | 01_KHOA/CODE/data_loading/loader.py:111 | Renaming every column to its own name changes nothing. |
| `Loader.EnforceHeaderCanonical` | 01_KHOA/CODE/data_loading/loader.py:110-111 | A table already carrying the canonical names is left as it is by the renaming step. |
| `Loader.CleanedTable` | 01_KHOA/CODE/data_loading/loader.py:113-119 | After coercion and `dropna(how="all")`, no cell is unparsed text and no row is entirely missing. |
| `Loader.LoadSimple` | 01_KHOA/CODE/data_loading/loader.py:80-121 | Fails with the no-header error exactly when every line is metadata; the only other failure is an overlong line. On success: the canonical columns, no entirely missing row, and only numbers or NaN. |
| `Loader.ReadAfterHeaderFails` | 01_KHOA/CODE/data_loading/loader.py:104-107 | Reading a header line and the lines after it fails exactly when one of those lines is non-blank and has more fields than the header. |
| `Loader.LoadedRows` | 01_KHOA/CODE/data_loading/loader.py:94-119 | The loaded rows are the non-blank lines after the header, in file order, each read against the canonical columns and coerced, less those left entirely missing. A successful load always found a header line. |
| `Loader.LoadFailsIff` | 01_KHOA/CODE/data_loading/loader.py:94-107 | Loading fails exactly when every line is metadata, or when a non-blank line after the header has more than sixteen fields. In the second case the error is the tokenising error. |
| `Tables.CoerceCell` | 01_KHOA/CODE/data_loading/loader.py:116 | `to_numeric(errors="coerce")` on one cell: numbers stay, NaN stays NaN, and text that parses becomes the number it parses to; any other text becomes NaN. No text survives. |
| `Tables.CoerceColumns` | 01_KHOA/CODE/data_loading/loader.py:114-116 | Every cell of a listed column becomes its coerced value (`CoerceCell`), every other cell is untouched, and each row keeps its keys; the row count and the columns stay. |
| `Tables.CoerceRowIdempotent` | 01_KHOA/CODE/data_loading/loader.py:149-151 | Coercing a row again over any sub-list of the columns already coerced changes nothing, as when `split_devices` re-coerces its numeric columns, a sub-list of the canonical ones. |
| `Tables.CoerceRowWithoutText` | 01_KHOA/CODE/data_loading/loader.py:149-151 | A row holding no unparsed text is left as it is by coercion over any columns. |
| `Tables.MissingColumns` | 01_KHOA/CODE/data_loading/loader.py:161 | Lists exactly the requested columns the table lacks. |
| `Tables.Project` | 01_KHOA/CODE/data_loading/loader.py:161 | `df[cols]` fails with a KeyError naming only absent requested columns exactly when one is absent. Otherwise every row keeps exactly the requested columns and their cells. |
| `Tables.ProjectCoercedRow` | 01_KHOA/CODE/data_loading/loader.py:149-161 | Projecting a coerced row onto coerced columns it has gives exactly those columns, each holding its coerced cell. |
| `Tables.DropAllMissing` | 01_KHOA/CODE/data_loading/loader.py:119 | `dropna(how="all")` keeps every occurrence of each row that is not entirely missing and no occurrence of one that is, in their original order. |
| `Tables.DropMissing` | 01_KHOA/CODE/data_loading/loader.py:161 | `dropna(subset=[col])` keeps every occurrence of each row holding a value in `col` and no other row, in their original order. |
| `Numbers.ParseNumber` | 01_KHOA/CODE/data_loading/loader.py:116 | Only numeral text parses, and a string of digits parses as its decimal value. |
| `Numbers.ParseRender` | 01_KHOA/CODE/data_loading/loader.py:116 | Parsing the written form of any number gives that number back. |
| `Numbers.ParseSigned` | 01_KHOA/CODE/data_loading/loader.py:116 | An unsigned numeral parses to its magnitude and scale; with a leading minus, to the negated magnitude. |
| `Numbers.ValueIsUnique` | 01_KHOA/CODE/data_loading/loader.py:143 | A device-number cell equals at most one integer, so a row matches at most one `dev_num`. |
| `Devices.RoleShape` | 01_KHOA/CODE/data_loading/loader.py:13-23 | The role tables cover devices 1 to 3. Every role name has five characters: `E` for EXG or `I` for IMU first, the device digit last. |
| `Devices.RolesDistinct` | 01_KHOA/CODE/data_loading/loader.py:13-23 | The six role names are pairwise distinct: no EXG role is an IMU role, and two devices never share a role. |
| `Devices.SelectionWellFormed` | 01_KHOA/CODE/data_loading/loader.py:143-146 | A device's selection keeps the table's columns, and it is empty exactly when no row has that device number. |
| `Devices.StreamPipeline` | 01_KHOA/CODE/data_loading/loader.py:148-167 | Selecting, coercing, projecting and dropping rows without a timestamp gives the reference stream: the input rows routed to the device, in order, prepared. |
| `Devices.DeviceStreams` | 01_KHOA/CODE/data_loading/loader.py:143-168 | A device without rows gives nothing. A device with rows fails with a KeyError exactly when a stream column is absent; otherwise it gives its two reference streams. |
| `Devices.StoreStreams` | 01_KHOA/CODE/data_loading/loader.py:162-168 | Storing a device's streams under its two role names adds exactly that device's contribution. |
| `Devices.SplitFrom` | 01_KHOA/CODE/data_loading/loader.py:142-168 | The loop fails with a KeyError exactly when some visited device fails. Otherwise it adds the contribution of every visited device. |
| `Devices.SplitFromDeviceOrder` | 01_KHOA/CODE/data_loading/loader.py:142 | Over devices 1, 2, 3 from an empty dictionary, the loop fails exactly when some device fails, and otherwise gives the union of the three contributions. |
| `Devices.SplitDevices` | 01_KHOA/CODE/data_loading/loader.py:126-170 | Fails only with a KeyError: when the device column is absent, or when a device with rows lacks a stream column. Otherwise it gives devices 1 to 3's contributions. |
| `Devices.SplitDevicesKeys` | 01_KHOA/CODE/data_loading/loader.py:140-170 | A device's two role keys are present exactly when it has rows, and they hold its reference streams. No key outside the six roles appears. |
| `Devices.OneDevicePerRow` | 01_KHOA/CODE/data_loading/loader.py:143 | A row matches `Device number == d` for at most one `d`. |
| `Devices.StreamsPartition` | 01_KHOA/CODE/data_loading/loader.py:142-161 | No row feeds two devices: the three EXG streams together have exactly as many rows as the input rows routed to some device, which is at most the input. |
| `Devices.StreamProvenance` | 01_KHOA/CODE/data_loading/loader.py:143-167 | Every stream row is the prepared image of an input row of that device that has a timestamp. |
| `Devices.StreamComplete` | 01_KHOA/CODE/data_loading/loader.py:143-167 | Every input row of the device that has a timestamp has its prepared image in the stream. |
| `Devices.StreamShape` | 01_KHOA/CODE/data_loading/loader.py:148-167 | Every stream row has exactly the stream's columns, a numeric timestamp, and no unparsed text. |
| `Devices.PreparedRowShape` | 01_KHOA/CODE/data_loading/loader.py:149-167 | One routed row, once coerced and projected, has exactly the stream's columns, a numeric timestamp, and no text. |
| `Devices.StreamPairAligned` | 01_KHOA/CODE/data_loading/loader.py:161-167 | A device's EXG and IMU streams have the same length and the same timestamp at every position. |
| `Devices.StreamLength` | 01_KHOA/CODE/data_loading/loader.py:161 | A stream is no longer than the device's selection. It is exactly as long when every row of the device has a timestamp. |
| `Devices.DeviceStreamsOfSelection` | 01_KHOA/CODE/data_loading/loader.py:143 | A device's streams depend only on the columns and on that device's rows. |
| `Devices.SplitFromOfSelection` | 01_KHOA/CODE/data_loading/loader.py:142-168 | Tables whose devices give the same streams give the same loop result. |
| `Devices.ForeignRowsIgnored` | 01_KHOA/CODE/data_loading/loader.py:142-143 | Removing the rows of any device other than 1, 2 or 3 leaves the result of `split_devices` unchanged. |
| `Pipeline.ColumnsInHeader` | 01_KHOA/CODE/data_loading/loader.py:123-124 | The canonical header is the device column, the eight channels, the six IMU axes and the timestamp; every stream column is in it. |
| `Pipeline.LoadedRowsStayCoerced` | 01_KHOA/CODE/data_loading/loader.py:149-151 | The splitter's coercion of the numeric columns leaves every row the loader returned unchanged. |
| `Pipeline.LoadedTableSplits` | 01_KHOA/CODE/data_loading/loader.py:126-170 | `split_devices` never fails on a table that `load_mindrove_csv_simple` returned. |
| `TrialId.LastIndexOf` | 01_KHOA/CODE/data_loading/loader.py:190 | `rfind`: the last index holding the character, or -1; no later index holds it. |
| `TrialId.SplitExt` | 01_KHOA/CODE/data_loading/loader.py:190 | The base and the extension concatenate to the path; the extension is empty or a dot followed by no dot or slash. It is empty exactly when the last component has only dots before its last dot. |
| `TrialId.ExtractCleanTrialId` | 01_KHOA/CODE/data_loading/loader.py:179-197 | The identifier is the longest prefix of the name without its extension that holds at most one underscore. It has one underscore exactly when that name has one, and is the whole of it or stops at an underscore. |
| `TrialId.CutAtSecondSeparator` | 01_KHOA/CODE/data_loading/loader.py:191-193 | `parts[0] + "_" + parts[1]` starts the string, holds exactly one separator, and ends the string or is followed by a separator. |
| `TrialId.ConventionalName` | 01_KHOA/CODE/data_loading/loader.py:186-193 | A name of the form `<subject>_<trial>_<rest>.<ext>` gives `<subject>_<trial>`, whatever the rest. |
| `TrialId.ExampleWithTimestamp` | 01_KHOA/CODE/data_loading/loader.py:181-184 | `S04_T01_29_11_25_19_27_24.csv` gives `S04_T01`. |
| `TrialId.ExampleFallback` | 01_KHOA/CODE/data_loading/loader.py:194-196 | A name with neither an extension nor an underscore is returned whole. |
| `Strings.Split` | 01_KHOA/CODE/data_loading/loader.py:191 | `str.split(sep)` has one more piece than there are separators, and no piece contains one. |
| `Strings.JoinSplit` | 01_KHOA/CODE/data_loading/loader.py:191-193 | Joining the pieces of a split gives back the string. |
| `Strings.SplitJoin` | 01_KHOA/CODE/data_loading/loader.py:102-107 | Splitting the join of separator-free pieces gives back the pieces, so the canonical header line reads back as the canonical names. |
| `Sequences.FilterFilter` | 01_KHOA/CODE/data_loading/loader.py:143-161 | Selecting a device's rows and then dropping rows without a timestamp is one filter by both conditions. |
| `Sequences.FilterMultiset` | 01_KHOA/CODE/data_loading/loader.py:119 | A filter keeps every occurrence of an accepted row and none of a rejected one. |
| `Sequences.FilterUnique` | 01_KHOA/CODE/data_loading/loader.py:119 | An order-keeping selection with those multiplicities is the filter itself, so the `dropna` contracts determine their result. |
| `Sequences.FilterIsSubsequence` | 01_KHOA/CODE/data_loading/loader.py:143 | A boolean-mask selection keeps rows in their original order. |
| `LoadRoundTrip.ReadRenderedRow` | 01_KHOA/CODE/data_loading/loader.py:107-116 | A written row's line is not blank, and reading and coercing it gives back the row. |
| `LoadRoundTrip.ReadEveryLine` | 01_KHOA/CODE/data_loading/loader.py:107 | Non-blank lines that fit the columns are read one row per line, in order. |
| `LoadRoundTrip.ReadRenderedTable` | 01_KHOA/CODE/data_loading/loader.py:107-116 | A header naming the columns, followed by written rows, is read with those columns, and the rows coerce back to the written rows. |
| `LoadRoundTrip.NormalisedAfterMetadata` | 01_KHOA/CODE/data_loading/loader.py:94-104 | After metadata lines and a header line, the reader receives the canonical header followed by the file's remaining lines. |
| `LoadRoundTrip.LoadWritten` | 01_KHOA/CODE/data_loading/loader.py:80-121 | Loading written rows after metadata lines and a non-`Device ` header line gives back exactly those rows under the canonical columns. |
| `LoadRoundTrip.HeaderSkippedAsMetadata` | 01_KHOA/CODE/data_loading/loader.py:94-104 | A header line that starts with `Device ` is skipped as metadata, and the loader returns every written row except the first. |
| `LoadRoundTrip.CanonicalHeaderLosesFirstRow` | 01_KHOA/CODE/data_loading/loader.py:71-104 | A file that starts with the canonical header line loses its first data row on loading. |

## Left out

- File I/O is not modelled. `open(...).read().splitlines()` becomes the input
  `lines`, and every line is taken to hold no newline. Universal-newline
  handling and decoding with `errors="ignore"` are not modelled.
- The `print` calls are not modelled: the module's top-level banners and
  subject loop (lines 25-32, 44-45, 198 onward) and the warning for a device
  without samples (line 145). They have no effect on results.
- `list_subjects`, `get_subject_paths`, `list_trials_for_subject` and
  `get_structured_device_dir` are not modelled. They are filesystem queries and
  directory creation.
- `FS` and `FS_IMU` are not modelled. No modelled operation uses them.
- `Loader.ReadTsv` models only part of `pd.read_csv`. Left out:
  - quoting, comment and escape characters;
  - `na_values` strings such as `NA` or `null` (after coercion these end as
    NaN in both pandas and the model);
  - index inference: when the first data line has k fields, more than the
    header names, pandas turns the first k - 16 columns into the row index and
    then accepts later lines of up to k fields. The model rejects every
    non-blank line with more fields than the header, the first included;
  - renaming duplicate header names to `name.1`; the model reports an error
    instead, which the loader never reaches because its header is canonical.
- `Loader.ReadTsv`: its "fails exactly when" differs from pandas on a file
  whose first data line has more fields than the header (see index inference
  above): pandas reads such a file and the model reports too many fields.
- `Loader.LoadFailsIff`: for the same reason, a file whose first data line
  after the header has 17 or more fields loads in pandas but fails in the
  model. Files whose first data line has at most 16 fields behave the same.
- `Loader.ParseDataLines`: the same difference. Its "fails exactly when"
  counts the first data line, which pandas does not check against the header.
- `Loader.ReadAfterHeaderFails`: the same difference. A first line after the
  header with more fields than the header makes pandas infer an index, while
  this lemma counts it as a failure.
- `Loader.ReadTsv`: a line made only of spaces is blank and skipped, as pandas'
  tokenizer does with a tab separator. A line of spaces and tabs that starts
  with a space is read as a row of missing cells, and this is not checked
  against the tokenizer. The loaded table is the same either way, because such
  a row is entirely missing and `dropna(how="all")` removes it.
- `Loader.ReadTsv`: the line number in the too-many-fields error counts lines of
  the normalised text. It is not checked against pandas' count.
- `Numbers.ParseNumber` accepts only plain decimal numerals: an optional sign,
  digits, and an optional point. Left out:
  - exponents, `inf`/`nan` spellings and surrounding whitespace, which
    `pd.to_numeric` also accepts;
  - float64 rounding (numbers are exact decimals).
- `Devices.IsDevice` compares exact decimals, while pandas compares float64
  values. Any numeral that float64 rounds to an integer therefore matches in
  pandas but not in the model: `1.00000000000000001` equals 1 in pandas, and so
  do large numerals near an integer.
- The pandas row index of each returned frame is not modelled. After `dropna`
  it keeps the original row labels with gaps. A table here is its columns and
  its sequence of rows.
- `TrialId.SplitExt` follows POSIX `os.path.splitext`. Windows separators and
  drive letters are not modelled.
- Python dictionary insertion order of the result of `split_devices` is not
  modelled. The result is a map from role name to stream.
- Other files of the repository are not part of this model: `main.py`,
  `config/path.py`, `preprocessing/preprocess.py` and
  `preprocessing/visualization.py`.
