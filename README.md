# excel-orm, modelled in Dafny

excel-orm maps plain Python classes onto Excel sheets. A model class declares
its fields as `Column` descriptors (text, integer, boolean or date, each with a
header, a default, a not-null flag, an exclusion set, a parser and a
validator). A `SheetSpec` places one or more models side by side on a named
sheet. An `ExcelFile` built from sheet specs:

- creates one `Repository` (a list) per model, exposed as an attribute named
  after the model (`Car` becomes `cars`, `ManufacturingPlant` becomes
  `manufacturing_plants`), and refuses a name that is already taken;
- writes an empty template: per model, a merged title row with the model's
  display name above a header row, the blocks laid out left to right with a
  fixed gap;
- loads a workbook: it empties every repository, then for each declared
  sheet finds each model's header row, and reads rows below it until the
  first fully blank row. Excluded rows are skipped. Every other row is parsed
  and validated field by field into a new instance, which is appended to the
  model's repository. The first error ends the load.

The Dafny project models `src/orm.py` and `src/column.py`. Modules:

- `Wrappers`: `Option` and `Result`.
- `Text`: Python's `str.strip` (Unicode whitespace), ASCII `lower`/`upper`,
  and decimal text with `int()` on strings.
- `Cells`: a cell value, `str()` of it, Python equality and set
  membership between cell values, `_normalize_header` and `_row_is_blank`.
- `Naming`: `_camel_to_snake` as its two regular-expression passes,
  `_pluralize`, the repository name, and the display name through
  `str.title`.
- `DateFormats`: `datetime.fromisoformat` for calendar dates and
  `datetime.strptime` for the eleven patterns of `date_column`, matched the
  way Python's `_strptime` matches them (first backtracking match, whole
  text, then calendar validity), with ASCII digits only.
- `Columns`: `ColumnSpec`, `Column` with `parse_cell`, `validate`,
  `__get__` and `__set__`, the record that holds the fields, and the four
  parse closures.
- `Sheets`: a worksheet is a finite map from (row, column) to a cell, with
  `maxRow` and `maxCol`. This module holds the header search, the exclusion
  test, building one record, and the row scan, all as specification
  functions.
- `Orm`: the `Repository` and `ExcelFile` classes. It models
  `__init__`, `load_data` and `_parse_sheet` as methods whose loops are
  proved against the `Sheets` functions.
- `Template`: `_write_sheet_template` as a method writing to a `Worksheet`
  that logs its calls, the layout those calls form, and what the written
  sheet holds.

Known behaviour the model keeps: the template writes `header or name` for
each column, but the header search expects the column's normalised
`header`, with an absent header counting as "". The header search therefore
matches at a block's own start column in its own template exactly when every
column has a declared, non-empty header (`Template.TemplateBlockMatches`);
surrounding whitespace does no harm, because both sides of the comparison are
normalised. Under that condition the first block is found at its own start
column and a later block at or before it (`Template.TemplateHeaderFound`): a
later block whose headers repeat an earlier block's is found at the earlier
one. A column without a header whose name is not blank makes its block's
header row fail to match at its start column
(`Template.TemplateHeaderMismatch`).

## Model

| member | source | states |
|---|---|---|
| Text.StripSpec | src/orm.py:52-55 | `str.strip` removes exactly the leading and trailing whitespace runs; what remains starts and ends with a non-space |
| Text.StripEmptyIff | src/orm.py:52-59 | stripping leaves nothing exactly when the text is all whitespace |
| Text.StripIdempotent | src/column.py:63-65 | stripping twice is stripping once |
| Text.Lower | src/column.py:111 | `lower()` maps each ASCII capital to its small letter, keeps every other character and leaves no capital |
| Text.Upper | src/column.py:167 | `upper()` maps each ASCII small letter to its capital, keeps every other character and leaves no small letter |
| Text.ParseInteger | src/column.py:90 | `int()` of a string succeeds exactly when the stripped text is an optional sign followed by one or more digits, and then gives the digits' decimal value, negated after a minus sign |
| Text.ParseIntegerCanonical | src/column.py:90 | what `int()` accepts is, past the whitespace and the sign, `str()` of the value's magnitude after some leading zeros; only a minus sign gives a negative value |
| Text.ParseIntegerLeadingZeros | src/column.py:90 | any number of leading zeros before `str(n)` still reads as `n` (`int("007") == 7`) |
| Text.IntDecimalRoundTrip | src/column.py:87-90 | `int(str(i)) == i` for every integer |
| Cells.InSetIff | src/orm.py:191-193 | `value in excludes` holds exactly when some member equals the value under Python's `==`, where `True == 1` and `False == 0` |
| Cells.StringifyShape | src/orm.py:55 | `str()` of any value that is not text (`None`, a number, a boolean, a date or a date-time) is non-empty with no whitespace at either end |
| Cells.NormalizeHeaderIsStrip | src/orm.py:52-55 | `_normalize_header` is "" for `None` and `str(v).strip()` otherwise |
| Cells.BlankValueIff | src/orm.py:52-59 | a value normalises to "" exactly when it is `None` or text made only of whitespace |
| Cells.RowIsBlankIff | src/orm.py:58-59 | `_row_is_blank` holds exactly when every value normalises to "" |
| Naming.CamelToSnake | src/orm.py:16-19 | the snake-case name contains no capital letter |
| Naming.CamelToSnakeOnlyInsertsUnderscores | src/orm.py:16-19 | the two substitutions only insert underscores: with underscores removed, the result is the lower-cased name with underscores removed |
| Naming.CamelToSnakeOfSnake | src/orm.py:16-19 | a name with no capital letter is left unchanged |
| Naming.Pluralize | src/orm.py:22-26 | the result ends in "s"; it is the input when that already ends in "s" and the input plus "s" otherwise |
| Naming.PluralizeIdempotent | src/orm.py:22-26 | pluralising twice is pluralising once |
| Naming.RepoNameShape | src/orm.py:29-30 | a repository name is non-empty, ends in "s", has no capital, and spells the model name's letters lower-cased, with only underscores and a final "s" added |
| Naming.TitleFrom | src/orm.py:35 | `str.title` keeps the length and every non-letter, and changes letters only in case |
| Naming.TitleFromCapitals | src/orm.py:35 | `str.title` upper-cases exactly the letters that do not follow a letter and lower-cases every other letter |
| Naming.Replace | src/orm.py:35 | `replace` of one character by another changes exactly the occurrences of that character |
| Naming.DisplayName | src/orm.py:33-35 | the display name has the repository name's length and no underscore |
| Naming.DisplayNameRoundTrip | src/orm.py:33-35 | for a model name without spaces, lower-casing the display name and turning spaces back into underscores gives the repository name |
| Naming.CarRepoName | src/orm.py:29-30 | the model `Car` gets the repository `cars` |
| Naming.CarDisplayName | src/orm.py:33-35 | the model `Car` gets the display name `Cars` |
| Naming.DisplayNameTwoWords | src/orm.py:33-35 | a model named by two capitalised words is shown as the two words, space-separated, each capitalised, the last one pluralised |
| Naming.ManufacturingPlantNames | src/orm.py:29-35 | the model `ManufacturingPlant` gets the repository `manufacturing_plants` and the display name `Manufacturing Plants` |
| DateFormats.Strptime | src/column.py:171 | a pattern reads a date only when its first backtracking match consumes the whole text; the date is the fields that match filled in, and it is a real calendar date |
| DateFormats.StrptimeDayMonYear | src/column.py:132 | `%d-%b-%Y` reads every date written as two-digit day, month abbreviation in any case and four-digit year back as that date |
| DateFormats.StrptimeIsoPattern | src/column.py:137 | `%Y-%m-%d` reads `str(d)` back as `d` for every date |
| DateFormats.ParseDayMonYear | src/column.py:159-175 | the date parser reads `DD-Mon-YYYY` text of any date, in any case, back as that date through the pattern list |
| DateFormats.FirstPatternMatchIsFirst | src/column.py:169-175 | the patterns are tried in tuple order and the first success wins; nothing is read exactly when every pattern fails |
| DateFormats.IsoDate | src/column.py:159-164 | an ISO reading requires YYYY-MM-DD at the front, optionally followed by a time, and gives a real calendar date |
| DateFormats.IsoDateOfText | src/column.py:159-164 | `str(d)` reads back as `d`, through the ISO reading and through the whole text branch |
| DateFormats.IsoDateText | src/column.py:159-164 | whatever the ISO reading reads as `d` starts with `str(d)`: one spelling per date |
| DateFormats.ParseDateText | src/column.py:159-175 | the ISO reading when there is one, otherwise the first pattern that reads the upper-cased text |
| DateFormats.IsoExample | src/column.py:159-164 | "2025-06-01" reads as 1 June 2025 (through the ISO path) |
| DateFormats.FirstPatternOnExample | src/column.py:132 | the first pattern `%d-%b-%Y` reads "01-JUN-2025" as 1 June 2025 |
| DateFormats.PatternExample | src/column.py:166-173 | "01-JUN-2025" reads as 1 June 2025 through the pattern list |
| Columns.PlainSpec | src/column.py:11-21 | a bare `ColumnSpec` has no header, a `None` default, no not-null flag, no exclusions, the identity parser and a validator that accepts everything |
| Columns.Column.Validate | src/column.py:46-49 | a not-null column refuses `None` and "" with the null error; otherwise the column's validator decides; both directions stated |
| Columns.Column.Set | src/column.py:36-38 | `__set__` validates first; on success the record has the field set to the value and every other field unchanged; on failure the record is unchanged |
| Columns.Column.Get | src/column.py:31-34 | `__get__` gives the field's stored value, and `None` when the record has none |
| Columns.TextColumnCellStable | src/column.py:40-41 | `parse_cell` of a text column always succeeds, and parsing its own result again gives the same value |
| Columns.IntColumnCellRoundTrip | src/column.py:40-41 | `parse_cell` of an integer column reads an integer cell, and the text of that integer, as the integer |
| Columns.Record.constructor | src/orm.py:63-64 | a new instance holds the given field map |
| Columns.ParseText | src/column.py:60-66 | `None` gives ""; any other value gives its `str()`, unchanged unless `strip` is set; with `strip`, the result is the stripped `str()` and has no whitespace at either end |
| Columns.ParseTextIdempotent | src/column.py:60-66 | parsing a parsed text again changes nothing |
| Columns.ParseInt | src/column.py:87-90 | `None` and "" give 0; integers pass through; booleans give 1 or 0; a non-empty string succeeds exactly when `int()` reads it, with the value `int()` gives; dates fail; every failure is the integer error |
| Columns.ParseIntOfItsText | src/column.py:87-90 | the text of any integer parses back to that integer |
| Columns.IntOfYearText | src/column.py:87-90 | "2019" parses to 2019 |
| Columns.ParseBool | src/column.py:106-116 | `None` and "" give false, a boolean passes through, otherwise the trimmed lower-cased text gives true for true/t/yes/y/1, false for false/f/no/n/0, and an error for anything else; each outcome stated as an if-and-only-if |
| Columns.BoolOfY | src/column.py:111-113 | "Y" parses to true |
| Columns.BoolOfZero | src/column.py:111-115 | "0" parses to false |
| Columns.BoolOfMaybe | src/column.py:111-116 | "maybe" raises the boolean error |
| Columns.ParseDate | src/column.py:145-175 | the empty-date error exactly for `None`, "" and whitespace-only text; a date passes through and a date-time gives its date; any other value gives the text reading of its stripped `str()`, or the invalid-date error naming the raw value |
| Columns.DateOfIsoText | src/column.py:159-164 | "2025-06-01" parses to 1 June 2025 |
| Columns.DateOfPatternText | src/column.py:166-173 | "01-JUN-2025" parses to 1 June 2025 |
| Columns.TextColumn | src/column.py:52-77 | the column's parser is the text parse with the given `strip` flag; header, default and not-null are as given; no exclusions |
| Columns.IntColumn | src/column.py:80-100 | the column's parser succeeds exactly when the integer parse does, with the same value or error |
| Columns.BoolColumn | src/column.py:103-125 | the column's parser succeeds exactly when the boolean parse does, with the same value or error; never not-null |
| Columns.DateColumn | src/column.py:128-185 | the column's parser succeeds exactly when the date parse does, with the same value or error; never not-null |
| Sheets.DefaultSheetSpec | src/orm.py:78-87 | a sheet declared with a name and models has title row 1, header row 2, data from row 3 and a gap of 2 |
| Sheets.RowValues | src/orm.py:186 | the raw values of a block row are the cells `start .. start+width-1` of that row |
| Sheets.Expected | src/orm.py:215 | the expected labels are the columns' declared headers normalised, in column order, "" for an absent header |
| Sheets.Actual | src/orm.py:224-226 | the actual labels are the normalised cells of the header row from the start column on |
| Sheets.FirstMatchFromSpec | src/orm.py:223-230 | the search returns the least start column whose labels match, or nothing when no column up to the last possible start matches |
| Sheets.HeaderColumnSpec | src/orm.py:211-230 | no header exactly when the model has no columns or no start column in `1 .. maxCol-width+1` matches (so always when the sheet is narrower than the block); otherwise a start column in that range whose labels match, with no smaller match |
| Sheets.FindHeader | src/orm.py:211-230 | the loop returns the header row and the first matching start column, or nothing, exactly as the header search specifies |
| Sheets.ExcludedIff | src/orm.py:190-196 | a row is excluded exactly when one of its raw values is in its column's exclusion set |
| Sheets.FieldOutcome | src/orm.py:199-202 | assigning one field succeeds exactly when the parse succeeds and validation accepts the parsed value; the field then holds the parsed value, and otherwise the validation error is the outcome |
| Sheets.DefaultsSpec | src/orm.py:62-70 | a fresh instance has exactly the declared fields, each holding its column's default |
| Sheets.FillOutcome | src/orm.py:199-202 | assigning the fields in order fails exactly when some field fails, with the first failing field's error |
| Sheets.RecordOfSuccess | src/orm.py:198-206 | a row that becomes a record: every field parsed and validated, the record holds exactly the declared fields, each the parse of its raw cell, and the model's `validate()` accepted it |
| Sheets.RecordOfFailure | src/orm.py:198-206 | a row that fails does so with the first failing field's parse or validation error, or with the model's `validate()` rejecting the finished record |
| Sheets.RecordOfComplete | src/orm.py:198-206 | without a `validate()` hook, a row whose every field succeeds becomes a record |
| Sheets.ScanEndSpec | src/orm.py:184-188 | the scan ends at the first blank row from the data start row on, or past the last row; every row before it is non-blank |
| Sheets.DataRowsSpec | src/orm.py:190-196 | the rows that become records or errors are exactly the non-excluded rows of the range, in increasing order |
| Sheets.CollectSpec | src/orm.py:198-209 | records are gathered in order until the first failing row, whose error ends the scan |
| Sheets.LoadRowsSpec | src/orm.py:184-209 | the records a block yields are those of its non-excluded rows before the first blank row, in sheet order, each the record of its row; on error, the row after the last record is the failing row |
| Sheets.LoadRowsStopsAtBlank | src/orm.py:184-188 | rows after the first blank row do not affect the scan, even when they are not blank |
| Orm.Repository.constructor | src/orm.py:73-75 | a new repository is empty |
| Orm.Repository.Clear | src/orm.py:163-164 | clearing empties the repository |
| Orm.Repository.Append | src/orm.py:208 | appending adds the record at the end |
| Orm.Repository.All | src/orm.py:74-75 | `all()` returns the records in order |
| Orm.Instantiate | src/orm.py:62-70 | the loop gives a fresh instance holding exactly the declared fields, each set to its column's default |
| Orm.BuildRecord | src/orm.py:198-206 | the loop body for one row returns the record, or the first error, that the record specification gives |
| Orm.ScanRows | src/orm.py:184-209 | the row loop appends exactly the block's records to the repository and returns the error that ended it |
| Orm.ModelRepoNames | src/orm.py:97-98 | the repository names of a sheet's models, one per model, in order |
| Orm.FirstClashNone | src/orm.py:96-102 | construction refuses no name exactly when the repository names are pairwise distinct and none is an attribute the file already has |
| Orm.FirstClashIsFirst | src/orm.py:96-102 | the refused name is the first one that repeats an earlier name or is already an attribute |
| Orm.CoversInsert | src/orm.py:103-105 | adding a fresh repository under a new name keeps one repository per name, none shared |
| Orm.ScanModelsOwn | src/orm.py:173-209 | after a clean sheet scan, each model's repository holds its old records followed by its block's records |
| Orm.ScanModelsOther | src/orm.py:173-209 | a sheet scan leaves untouched every repository that belongs to none of the sheet's models |
| Orm.LoadSheetsOwn | src/orm.py:166-170 | after a clean load, every declared sheet was found and each model's repository gained exactly its block's records |
| Orm.LoadSheetsOther | src/orm.py:166-170 | a load leaves a repository of no declared model untouched |
| Orm.LoadSheetsStopped | src/orm.py:166-170 | once a sheet fails, the later sheets change nothing |
| Orm.LoadSheetsMissing | src/orm.py:167-168 | a sheet missing from the workbook makes the load fail, with the missing-sheet error when the sheets before it loaded cleanly |
| Orm.LoadFromEmpty | src/orm.py:159-170 | starting from emptied repositories, a clean load leaves each model's repository holding exactly its block's records |
| Orm.ExcelFile.Create | src/orm.py:90-105 | construction fails exactly when some repository name clashes, with the first clash named; otherwise every model has its own fresh, empty repository under its repository name |
| Orm.ExcelFile.AddSheet | src/orm.py:97-105 | the inner loop adds a fresh, empty repository per model of one sheet, or reports the first clashing name |
| Orm.ExcelFile.ParseBlock | src/orm.py:173-209 | one pass of the model loop: find the header, then scan its rows into the model's repository |
| Orm.ExcelFile.ParseSheet | src/orm.py:172-209 | `_parse_sheet` changes the repositories as the sheet-scan specification says and returns its error |
| Orm.ExcelFile.ClearAll | src/orm.py:162-164 | every repository is emptied |
| Orm.ExcelFile.LoadData | src/orm.py:159-170 | `load_data` empties every repository before any sheet is read, then loads the sheets in order, stopping at the first missing sheet or failing row |
| Template.TemplateHeaders | src/orm.py:130 | the template headers are each column's header, or its name when the header is absent or empty, in column order |
| Template.ColumnWidth | src/orm.py:155 | a column's width is its header's length plus 4, kept within 12 and 40 |
| Template.BlockStartGrows | src/orm.py:133-157 | each block starts past the end of every earlier block and the gap after it |
| Template.HeaderActionsAt | src/orm.py:149-155 | two calls per header `j`: write it at (header row, `start+j`), then set column `start+j`'s width to the header's clamped width |
| Template.Titles | src/orm.py:143-145 | the block titles are the models' display names, in order |
| Template.Worksheet.MergeCells | src/orm.py:137-142 | a merge is logged after the earlier calls |
| Template.Worksheet.SetCell | src/orm.py:143-145 | a cell write is logged after the earlier calls |
| Template.Worksheet.SetColumnWidth | src/orm.py:154-155 | a width setting is logged after the earlier calls |
| Template.WriteHeaders | src/orm.py:149-155 | the header loop makes exactly the header calls of the block |
| Template.WriteBlock | src/orm.py:133-155 | one block: merge the title row over the block's columns, write the title, then the headers and widths |
| Template.WriteBlocks | src/orm.py:128-157 | the cursor loop makes the calls of every block in order, block `k` starting at `1 + sum(width_i + gap)` over the earlier blocks |
| Template.WriteSheetTemplate | src/orm.py:120-157 | `_write_sheet_template` makes exactly the calls of the layout |
| Template.LastWriteAppend | src/orm.py:143-151 | a cell holds the value of its last write; later calls override earlier ones |
| Template.WrittenAt | src/orm.py:143-151 | the written sheet holds a cell exactly when some call wrote it, with the last value written |
| Template.HeaderLastWrite | src/orm.py:149-151 | after the header loop, header `j` is in header-row column `start+j` |
| Template.BlocksHeaderCell | src/orm.py:128-157 | later blocks never overwrite an earlier block's header cells |
| Template.BlocksExtent | src/orm.py:128-157 | the written sheet reaches at least to the last column of every block |
| Template.TemplateHoldsHeaders | src/orm.py:120-157 | in the generated template, every block's header row holds its template headers from the block's start column on |
| Template.TemplateBlockMatches | src/orm.py:215 | a block's header row in the template (written from line 130) matches what the header search expects exactly when every column's declared header is present and non-empty (or the column's name is blank) |
| Template.TemplateHeaderFound | src/orm.py:211-230 | under that condition, the search finds each block at or before its own start column, and the first block at column 1 |
| Template.TemplateHeaderMismatch | src/orm.py:130 | against the labels of line 215, a column without a header (or with an empty one) whose name is not blank makes its block's header row fail to match |
| Template.TwoBlockExample | src/orm.py:133-157 | with blocks 3 and 2 wide and a gap of 2, the second block starts at column 6 (F), and the title merges are A1:C1 and F1:G1 |

## Left out

- Workbook I/O is not modelled: opening and saving files, creating and removing sheets. A workbook is a map from sheet name to an in-memory grid, and `generate_template`'s workbook handling (src/orm.py:107-118) is reduced to the per-sheet `_write_sheet_template`.
- Fonts and alignment of the title and header cells are not modelled.
- Column widths are keyed by column number rather than by column letter.
- The `index` and `required` fields of `ColumnSpec` and `render_cell` are not modelled; nothing in the loader consults them.
- Python reflection is not modelled: `__annotations__`, `getattr`, `setattr` and the descriptor hooks. A model is a name, an ordered list of columns and an optional `validate()` hook (`_get_model_columns` is that list). A record is its field map. A model's `validate()` raising is modelled as the hook returning false.
- `__get__` with no instance (returning the descriptor itself) is not modelled.
- `_instantiate_model`'s "`__set_name__` did not run" error cannot arise, because every modelled column has a name.
- Exceptions are modelled as `Err` results. The messages are not modelled, only which error occurred.
- Orm.ExcelFile.Create: the attribute check `hasattr` is modelled as a fixed set of names the file already has (its fields and methods) plus the repository names added so far. Repositories are keyed by repository name rather than by model class. The partially built object left behind by a failed constructor is not modelled.
- Orm.ExcelFile.LoadData: a load that stops at an error leaves the repositories partially filled, as in the source. No lemma is stated about that partial state beyond the load specification itself.
- Records are stored in repositories as field maps (values), not as shared objects, so aliasing between a repository and a record is not modelled.
- Template.WriteBlocks: each block's display name is computed up front (`Template.Titles`) rather than inside the loop; the values are the same.
- Naming.CamelToSnake, Naming.TitleFrom, Text.Lower and Text.Upper handle ASCII letters only; Python's Unicode case mapping and regular-expression character classes for other scripts are not modelled.
- DateFormats.IsoDate covers the extended calendar-date format YYYY-MM-DD of ISO 8601:2004 section 4.1.2.2, optionally followed by one separator and a time hh, hh:mm or hh:mm:ss. The other forms `datetime.fromisoformat` accepts (basic format, week dates, ordinal dates, fractional seconds, time zones) are not modelled.
- DateFormats.Strptime supports only the directives the eleven patterns use (`%d %m %b %Y %y`, a space, a literal). Month abbreviations are the English ones; locale-dependent names are not modelled. Digit positions accept ASCII `0`-`9` only, where Python's `\d` also accepts other Unicode decimal digits (fullwidth "２０２５" is read as 2025 by Python and refused by the model).
- Text.ParseInteger: `int()` also accepts underscores between digits ("1_000") and non-ASCII decimal digits; the model accepts ASCII digits only and rejects those texts.
- Columns.ParseInt: Python's `int()` on floats and on arbitrary objects is not modelled; integer parsing covers cells holding an integer, a boolean, a date or text.
- Floating-point cell values are not modelled.
- Sheets.SheetSpec types the block gap as a natural number. The source's `template_table_gap` is a plain `int`; a negative gap, which makes blocks overlap, is not modelled.
- Sheets.RecordOf: a model's `validate()` hook is a pure predicate over the finished field map; a hook that changes the record before it is appended is not modelled.
- Template.WriteBlock / Template.TemplateHoldsHeaders / Sheets.SheetSpec: the worksheet accepts every call, while the workbook engine refuses three the source does not guard against, so `generate_template` fails where the model succeeds: a model with no columns (the title merge spans no column), a title row equal to the header row under a block two or more columns wide (the header cells inside the merged title range are read-only), and a row number below 1. The model's row numbers are positive by type (`Sheets.Pos`), so the last case is not modelled at all; the first two are modelled as ordinary calls, and the lemmas about the generated template hold for them although the source raises.
- Template.TemplateHoldsHeaders: a header written to a cell is taken to read back as the same text. The workbook engine may store text starting with "=" as a formula, which a values-only load reads back empty; that is not modelled.
- Concurrency is not modelled, and neither is the absence of transactions across sheets beyond what the load specification states.
