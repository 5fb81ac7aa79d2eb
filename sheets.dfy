/** The worksheet side of loading: a grid of raw values, the model classes
    a sheet holds, the header search that locates a model's block, and the
    row scan that turns the rows under a block into records. */
module Sheets {
  import opened Wrappers
  import opened Text
  import opened Cells
  import opened Columns
  import opened Seqs

  /** A worksheet as the engine reads it: the values of its cells by
      (row, column), both 1-based, and the extent of its used range. A cell
      missing from the map holds `None`. */
  datatype Sheet = Sheet(cells: map<(int, int), Cell>, maxRow: nat, maxCol: nat)

  function CellAt(ws: Sheet, row: int, col: int): Cell {
    if (row, col) in ws.cells then ws.cells[(row, col)] else Empty
  }

  /** The values of `width` consecutive cells of one row, from column `start` on. */
  function RowValues(ws: Sheet, row: int, start: int, width: nat): (vs: seq<Cell>)
    ensures |vs| == width
    ensures forall j :: 0 <= j < width ==> vs[j] == CellAt(ws, row, start + j)
  {
    seq(width, j requires 0 <= j < width => CellAt(ws, row, start + j))
  }

  /** A model class: its name, its columns in declaration order, and the
      `validate()` hook it may define over the fields of a finished record. */
  datatype Model = Model(name: string, columns: seq<Column>, check: Option<map<string, Cell> -> bool>)

  /** Field names are attribute names of one class, hence distinct. */
  predicate DistinctNames(cols: seq<Column>) {
    forall i, j :: 0 <= i < j < |cols| ==> cols[i].name != cols[j].name
  }

  function Names(cols: seq<Column>): set<string> {
    set i | 0 <= i < |cols| :: cols[i].name
  }

  /** Sheet rows and columns are counted from 1. */
  type Pos = n: int | n >= 1 witness 1

  /** A sheet's declaration: its name, the models laid out side by side on
      it, where the title, header and data rows are, and the number of empty
      columns the template leaves between two blocks. */
  datatype SheetSpec = SheetSpec(
    name: string,
    models: seq<Model>,
    titleRow: Pos,
    headerRow: Pos,
    dataStartRow: Pos,
    gap: nat)

  /** A sheet declared with only a name and its models. */
  function DefaultSheetSpec(name: string, models: seq<Model>): (s: SheetSpec)
    ensures s.titleRow == 1 && s.headerRow == 2 && s.dataStartRow == 3 && s.gap == 2
  {
    SheetSpec(name, models, 1, 2, 3, 2)
  }

  // ------------------------------------------------------------ header search

  /** The labels `_find_header` looks for: each column's declared header,
      normalised, so that an absent header stands for "". */
  function Expected(m: Model): (e: seq<string>)
    ensures |e| == |m.columns|
    ensures forall j :: 0 <= j < |e| ==> e[j] == HeaderLabel(m.columns[j].spec.header)
  {
    seq(|m.columns|, j requires 0 <= j < |m.columns| => HeaderLabel(m.columns[j].spec.header))
  }

  /** The normalised labels found in a row from column `start` on. */
  function Actual(ws: Sheet, row: int, start: int, width: nat): (a: seq<string>)
    ensures |a| == width
    ensures forall j :: 0 <= j < width ==> a[j] == NormalizeHeader(CellAt(ws, row, start + j))
  {
    seq(width, j requires 0 <= j < width => NormalizeHeader(CellAt(ws, row, start + j)))
  }

  /** The row holds the expected labels from `start` on (position by
      position, by `Actual`'s contract). */
  predicate HeaderMatchesAt(ws: Sheet, row: int, start: int, expected: seq<string>) {
    Actual(ws, row, start, |expected|) == expected
  }

  /** The last start column a block of `width` columns can have. */
  function LastStart(ws: Sheet, width: nat): int {
    ws.maxCol - width + 1
  }

  /** The first start column from `c` on where the row matches. */
  function FirstMatchFrom(ws: Sheet, row: int, expected: seq<string>, c: int): Option<int>
    decreases LastStart(ws, |expected|) + 1 - c
  {
    if c > LastStart(ws, |expected|) then None
    else if HeaderMatchesAt(ws, row, c, expected) then Some(c)
    else FirstMatchFrom(ws, row, expected, c + 1)
  }

  /** `FirstMatchFrom` is the generic first-match search over the start
      columns up to the last one. */
  lemma {:induction false} FirstMatchFromIsFirst(ws: Sheet, row: int, expected: seq<string>, c: int)
    decreases LastStart(ws, |expected|) + 1 - c
    ensures FirstMatchFrom(ws, row, expected, c)
      == FirstFrom(k => HeaderMatchesAt(ws, row, k, expected), c, LastStart(ws, |expected|))
  {
    if c <= LastStart(ws, |expected|) && !HeaderMatchesAt(ws, row, c, expected) {
      FirstMatchFromIsFirst(ws, row, expected, c + 1);
    }
  }

  /** `FirstMatchFrom` finds nothing exactly when no start column from `c`
      on matches, and otherwise the leftmost one that does. */
  lemma FirstMatchFromSpec(ws: Sheet, row: int, expected: seq<string>, c: int)
    ensures var r := FirstMatchFrom(ws, row, expected, c);
      (r.None? <==> forall k :: c <= k <= LastStart(ws, |expected|) ==> !HeaderMatchesAt(ws, row, k, expected))
      && (r.Some? ==>
        c <= r.value <= LastStart(ws, |expected|) && HeaderMatchesAt(ws, row, r.value, expected)
        && forall k :: c <= k < r.value ==> !HeaderMatchesAt(ws, row, k, expected))
  {
    var f := k => HeaderMatchesAt(ws, row, k, expected);
    assert forall k :: f(k) == HeaderMatchesAt(ws, row, k, expected);
    FirstMatchFromIsFirst(ws, row, expected, c);
    FirstFromSpec(f, c, LastStart(ws, |expected|));
  }

  /** Where `_find_header` finds a model's block: the leftmost start column
      whose header-row cells match the expected labels, or none when the
      model has no columns, the sheet is too narrow, or nothing matches. */
  function HeaderColumn(ws: Sheet, spec: SheetSpec, m: Model): Option<int> {
    if |m.columns| == 0 then None else FirstMatchFrom(ws, spec.headerRow, Expected(m), 1)
  }

  /** The header is not found exactly when the model has no columns or no
      start column matches; when found, it is the leftmost match. */
  lemma HeaderColumnSpec(ws: Sheet, spec: SheetSpec, m: Model)
    ensures var r := HeaderColumn(ws, spec, m);
      (r.None? <==>
      |m.columns| == 0
      || forall c :: 1 <= c <= LastStart(ws, |m.columns|) ==> !HeaderMatchesAt(ws, spec.headerRow, c, Expected(m)))
      && (r.Some? ==>
        1 <= r.value <= LastStart(ws, |m.columns|)
        && HeaderMatchesAt(ws, spec.headerRow, r.value, Expected(m))
        && forall c :: 1 <= c < r.value ==> !HeaderMatchesAt(ws, spec.headerRow, c, Expected(m)))
  {
    if |m.columns| > 0 {
      FirstMatchFromSpec(ws, spec.headerRow, Expected(m), 1);
    }
  }

  /** `_find_header`: try each start column from 1 in turn and answer the
      header row and the first that matches. */
  method FindHeader(ws: Sheet, spec: SheetSpec, m: Model) returns (found: Option<(int, int)>)
    ensures found.None? <==> HeaderColumn(ws, spec, m).None?
    ensures found.Some? ==> found.value == (spec.headerRow as int, HeaderColumn(ws, spec, m).value)
  {
    HeaderColumnSpec(ws, spec, m);
    var expected := Expected(m);
    if |expected| == 0 {
      return None;
    }
    var r := spec.headerRow as int;
    var width := |expected|;
    var maxC := ws.maxCol;
    var startCol := 1;
    while startCol < maxC - width + 2
      invariant 1 <= startCol
      invariant startCol <= maxC - width + 2 || startCol == 1
      invariant forall c :: 1 <= c < startCol ==> !HeaderMatchesAt(ws, r, c, expected)
      decreases maxC - width + 2 - startCol
    {
      var actual := Actual(ws, r, startCol, width);
      if actual == expected {
        assert HeaderMatchesAt(ws, spec.headerRow, startCol, Expected(m));
        ghost var v := HeaderColumn(ws, spec, m);
        assert v.Some? && v.value == startCol;
        return Some((r, startCol));
      }
      startCol := startCol + 1;
    }
    return None;
  }

  // ---------------------------------------------------------------- records

  /** A row is excluded when some column's raw value is in that column's
      exclusion set (Python's `in`, so `True` is found in `{1}`). */
  predicate Excluded(cols: seq<Column>, vals: seq<Cell>)
    requires |vals| == |cols|
  {
    cols != [] && (InSet(vals[0], cols[0].spec.excludes) || Excluded(cols[1..], vals[1..]))
  }

  /** A row is excluded exactly when one of its values is in its column's set. */
  lemma {:induction false} ExcludedIff(cols: seq<Column>, vals: seq<Cell>)
    requires |vals| == |cols|
    ensures Excluded(cols, vals) <==> exists i :: 0 <= i < |cols| && InSet(vals[i], cols[i].spec.excludes)
  {
    if cols != [] {
      ExcludedIff(cols[1..], vals[1..]);
      if Excluded(cols[1..], vals[1..]) {
        var i :| 0 <= i < |cols| - 1 && InSet(vals[1..][i], cols[1..][i].spec.excludes);
        assert InSet(vals[i + 1], cols[i + 1].spec.excludes);
      }
      if exists i :: 0 <= i < |cols| && InSet(vals[i], cols[i].spec.excludes) {
        var i :| 0 <= i < |cols| && InSet(vals[i], cols[i].spec.excludes);
        if i > 0 {
          assert InSet(vals[1..][i - 1], cols[1..][i - 1].spec.excludes);
        }
      }
    }
  }

  /** What assigning one raw value to its field yields: the parsed value,
      once the column's validation has accepted it. */
  function FieldOutcome(col: Column, raw: Cell): (r: Result<Cell, Error>)
    ensures r.Ok? <==> col.ParseCell(raw).Ok? && col.Validate(col.ParseCell(raw).value).None?
    ensures r.Ok? ==> r.value == col.ParseCell(raw).value
    ensures r.Err? && col.ParseCell(raw).Ok? ==> col.Validate(col.ParseCell(raw).value) == Some(r.error)
  {
    var v :- col.ParseCell(raw);
    match col.Validate(v)
    case Some(e) => Err(e)
    case None => Ok(v)
  }

  /** The fields of a fresh instance: each column's default, keyed by its name. */
  function Defaults(cols: seq<Column>): map<string, Cell> {
    if cols == [] then map[]
    else Defaults(cols[..|cols| - 1])[cols[|cols| - 1].name := cols[|cols| - 1].spec.default]
  }

  /** A fresh instance has exactly the declared fields. */
  lemma {:induction false} DefaultsKeys(cols: seq<Column>)
    ensures Defaults(cols).Keys == Names(cols)
  {
    if cols != [] {
      var init := cols[..|cols| - 1];
      DefaultsKeys(init);
      assert forall i :: 0 <= i < |init| ==> init[i] == cols[i];
      assert Names(cols) == Names(init) + {cols[|cols| - 1].name};
    }
  }

  /** With distinct names, each field of a fresh instance holds its column's default. */
  lemma {:induction false} DefaultsValues(cols: seq<Column>)
    requires DistinctNames(cols)
    ensures forall i :: 0 <= i < |cols| ==> cols[i].name in Defaults(cols) && Defaults(cols)[cols[i].name] == cols[i].spec.default
  {
    if cols != [] {
      var n := |cols| - 1;
      var init := cols[..n];
      assert DistinctNames(init) by {
        forall i, j | 0 <= i < j < |init| ensures init[i].name != init[j].name {
          assert init[i] == cols[i] && init[j] == cols[j];
        }
      }
      DefaultsValues(init);
      forall i | 0 <= i < |cols|
        ensures cols[i].name in Defaults(cols) && Defaults(cols)[cols[i].name] == cols[i].spec.default
      {
        if i < n {
          assert init[i] == cols[i];
          assert cols[i].name != cols[n].name;
        }
      }
    }
  }

  /** A fresh instance has exactly the declared fields, each holding its
      column's default. */
  lemma DefaultsSpec(cols: seq<Column>)
    ensures Defaults(cols).Keys == Names(cols)
    ensures DistinctNames(cols) ==> forall i :: 0 <= i < |cols| ==> Defaults(cols)[cols[i].name] == cols[i].spec.default
  {
    DefaultsKeys(cols);
    if DistinctNames(cols) {
      DefaultsValues(cols);
    }
  }

  /** Assigns the fields from column `i` on, in column order, stopping at
      the first value that fails to parse or to validate. */
  function Fill(cols: seq<Column>, vals: seq<Cell>, i: nat, acc: map<string, Cell>): Result<map<string, Cell>, Error>
    requires |vals| == |cols| && i <= |cols|
    decreases |cols| - i
  {
    if i == |cols| then Ok(acc)
    else
      match FieldOutcome(cols[i], vals[i])
      case Err(e) => Err(e)
      case Ok(v) => Fill(cols, vals, i + 1, acc[cols[i].name := v])
  }

  /** Filling succeeds exactly when every remaining field does, and
      otherwise fails with the first failing field's error. */
  lemma {:induction false} FillOutcome(cols: seq<Column>, vals: seq<Cell>, i: nat, acc: map<string, Cell>)
    requires |vals| == |cols| && i <= |cols|
    decreases |cols| - i
    ensures var r := Fill(cols, vals, i, acc);
      (r.Ok? <==> forall k :: i <= k < |cols| ==> FieldOutcome(cols[k], vals[k]).Ok?)
      && (r.Err? ==>
        exists k :: i <= k < |cols| && FieldOutcome(cols[k], vals[k]) == Err(r.error)
          && forall l :: i <= l < k ==> FieldOutcome(cols[l], vals[l]).Ok?)
  {
    if i < |cols| && FieldOutcome(cols[i], vals[i]).Ok? {
      var v := FieldOutcome(cols[i], vals[i]).value;
      FillOutcome(cols, vals, i + 1, acc[cols[i].name := v]);
    }
  }

  /** A successful fill adds the remaining fields' names to the record. */
  lemma {:induction false} FillKeys(cols: seq<Column>, vals: seq<Cell>, i: nat, acc: map<string, Cell>)
    requires |vals| == |cols| && i <= |cols|
    decreases |cols| - i
    ensures var r := Fill(cols, vals, i, acc);
      r.Ok? ==> r.value.Keys == acc.Keys + (set k | i <= k < |cols| :: cols[k].name)
  {
    if i < |cols| && FieldOutcome(cols[i], vals[i]).Ok? {
      var v := FieldOutcome(cols[i], vals[i]).value;
      FillKeys(cols, vals, i + 1, acc[cols[i].name := v]);
      assert (set k | i <= k < |cols| :: cols[k].name) == {cols[i].name} + (set k | i + 1 <= k < |cols| :: cols[k].name);
    }
  }

  /** A successful fill leaves every entry no remaining field names as it was. */
  lemma {:induction false} FillUntouched(cols: seq<Column>, vals: seq<Cell>, i: nat, acc: map<string, Cell>)
    requires |vals| == |cols| && i <= |cols|
    decreases |cols| - i
    ensures var r := Fill(cols, vals, i, acc);
      r.Ok? ==> forall key :: key in acc && (forall k :: i <= k < |cols| ==> cols[k].name != key) ==>
        key in r.value && r.value[key] == acc[key]
  {
    if i < |cols| && FieldOutcome(cols[i], vals[i]).Ok? {
      var v := FieldOutcome(cols[i], vals[i]).value;
      FillUntouched(cols, vals, i + 1, acc[cols[i].name := v]);
    }
  }

  /** When field names are distinct, a successful fill stores each remaining
      field's parsed and validated value under its name. */
  lemma {:induction false} FillValues(cols: seq<Column>, vals: seq<Cell>, i: nat, acc: map<string, Cell>)
    requires |vals| == |cols| && i <= |cols|
    decreases |cols| - i
    ensures var r := Fill(cols, vals, i, acc);
      r.Ok? && DistinctNames(cols) ==>
        forall k :: i <= k < |cols| ==>
          cols[k].name in r.value && FieldOutcome(cols[k], vals[k]) == Ok(r.value[cols[k].name])
  {
    if i < |cols| && FieldOutcome(cols[i], vals[i]).Ok? {
      var v := FieldOutcome(cols[i], vals[i]).value;
      var acc' := acc[cols[i].name := v];
      FillValues(cols, vals, i + 1, acc');
      FillUntouched(cols, vals, i + 1, acc');
    }
  }

  /** The record a non-blank, non-excluded row becomes: a fresh instance
      with every field assigned from its raw value, accepted by the model's
      `validate()` hook when it has one. */
  function RecordOf(m: Model, vals: seq<Cell>): (r: Result<map<string, Cell>, Error>)
    requires |vals| == |m.columns|
  {
    var fields :- Fill(m.columns, vals, 0, Defaults(m.columns));
    match m.check
    case None => Ok(fields)
    case Some(p) => if p(fields) then Ok(fields) else Err(RecordRejected(fields))
  }

  /** A row that becomes a record holds each column's parsed value under
      the column's name. */
  lemma RecordOfSuccessFields(m: Model, vals: seq<Cell>)
    requires |vals| == |m.columns| && DistinctNames(m.columns)
    requires RecordOf(m, vals).Ok?
    ensures forall k :: 0 <= k < |vals| ==>
      m.columns[k].name in RecordOf(m, vals).value
      && m.columns[k].ParseCell(vals[k]) == Ok(RecordOf(m, vals).value[m.columns[k].name])
  {
    var f := Fill(m.columns, vals, 0, Defaults(m.columns));
    FillValues(m.columns, vals, 0, Defaults(m.columns));
    assert f.Ok? && RecordOf(m, vals).value == f.value;
    forall k | 0 <= k < |vals|
      ensures m.columns[k].name in f.value && m.columns[k].ParseCell(vals[k]) == Ok(f.value[m.columns[k].name])
    {
      assert FieldOutcome(m.columns[k], vals[k]) == Ok(f.value[m.columns[k].name]);
    }
  }

  /** A row that becomes a record: every raw value parsed and validated,
      the record holds exactly the declared fields, each the parsed value
      of its cell, and the model's hook accepted it. */
  lemma RecordOfSuccess(m: Model, vals: seq<Cell>)
    requires |vals| == |m.columns| && DistinctNames(m.columns)
    requires RecordOf(m, vals).Ok?
    ensures forall k :: 0 <= k < |vals| ==> FieldOutcome(m.columns[k], vals[k]).Ok?
    ensures RecordOf(m, vals).value.Keys == Names(m.columns)
    ensures forall k :: 0 <= k < |vals| ==>
      m.columns[k].name in RecordOf(m, vals).value
      && m.columns[k].ParseCell(vals[k]) == Ok(RecordOf(m, vals).value[m.columns[k].name])
    ensures m.check.Some? ==> m.check.value(RecordOf(m, vals).value)
  {
    var d := Defaults(m.columns);
    var f := Fill(m.columns, vals, 0, d);
    FillOutcome(m.columns, vals, 0, d);
    FillKeys(m.columns, vals, 0, d);
    DefaultsSpec(m.columns);
    assert f.Ok? && RecordOf(m, vals).value == f.value;
    assert (set k | 0 <= k < |m.columns| :: m.columns[k].name) == Names(m.columns);
    assert f.value.Keys == Names(m.columns) + Names(m.columns);
    RecordOfSuccessFields(m, vals);
  }

  /** A row that fails: the error is the first failing column's, or the
      model's hook rejected the finished record. */
  lemma RecordOfFailure(m: Model, vals: seq<Cell>)
    requires |vals| == |m.columns|
    requires RecordOf(m, vals).Err?
    ensures (exists k :: 0 <= k < |vals| && FieldOutcome(m.columns[k], vals[k]) == Err(RecordOf(m, vals).error)
               && forall l :: 0 <= l < k ==> FieldOutcome(m.columns[l], vals[l]).Ok?)
      || (m.check.Some? && RecordOf(m, vals).error.RecordRejected?)
  {
    FillOutcome(m.columns, vals, 0, Defaults(m.columns));
  }

  /** Without a hook, a row whose every value parses and validates always
      becomes a record. */
  lemma RecordOfComplete(m: Model, vals: seq<Cell>)
    requires |vals| == |m.columns| && m.check.None?
    requires forall k :: 0 <= k < |vals| ==> FieldOutcome(m.columns[k], vals[k]).Ok?
    ensures RecordOf(m, vals).Ok?
  {
    FillOutcome(m.columns, vals, 0, Defaults(m.columns));
  }

  // --------------------------------------------------------------- row scan

  /** The outcome of scanning one block: the records built, in order, and
      the error that ended the scan early, if any. */
  datatype Scan = Scan(records: seq<map<string, Cell>>, error: Option<Error>)

  /** Row `row` of the block at column `col` is fully blank. */
  predicate BlankRow(ws: Sheet, m: Model, col: int, row: int) {
    RowIsBlank(RowValues(ws, row, col, |m.columns|))
  }

  /** Row `row` of the block at column `col` is excluded. */
  predicate ExcludedRow(ws: Sheet, m: Model, col: int, row: int) {
    Excluded(m.columns, RowValues(ws, row, col, |m.columns|))
  }

  /** The record row `row` of the block at column `col` becomes. */
  function RowRecord(ws: Sheet, m: Model, col: int, row: int): Result<map<string, Cell>, Error> {
    RecordOf(m, RowValues(ws, row, col, |m.columns|))
  }

  /** The row loop of `_parse_sheet` from row `row` on, for the block at
      column `col`: stop past the last row or at a blank row, skip an
      excluded row, otherwise build a record or stop at its error. */
  function LoadRows(ws: Sheet, m: Model, col: int, row: int): Scan
    decreases ws.maxRow + 1 - row
  {
    if row > ws.maxRow || BlankRow(ws, m, col, row) then Scan([], None)
    else if ExcludedRow(ws, m, col, row) then LoadRows(ws, m, col, row + 1)
    else Prepend(RowRecord(ws, m, col, row), LoadRows(ws, m, col, row + 1))
  }

  /** A scan that starts with one more row result: a record is put in
      front of what follows, an error ends the scan there. */
  function Prepend(r: Result<map<string, Cell>, Error>, tail: Scan): Scan {
    match r
    case Err(e) => Scan([], Some(e))
    case Ok(rec) => Scan([rec] + tail.records, tail.error)
  }

  /** Where a block's data ends: the first blank row from `row` on, or the
      row after the last one. */
  function ScanEnd(ws: Sheet, m: Model, col: int, row: int): int
    decreases ws.maxRow + 1 - row
  {
    if row > ws.maxRow || BlankRow(ws, m, col, row) then row
    else ScanEnd(ws, m, col, row + 1)
  }

  /** `ScanEnd` is the first blank row at or after `row` that is within the
      sheet, or the row after the last one if there is none. */
  lemma {:induction false} ScanEndSpec(ws: Sheet, m: Model, col: int, row: int)
    decreases ws.maxRow + 1 - row
    ensures var e := ScanEnd(ws, m, col, row);
      row <= e && (e == row || e <= ws.maxRow + 1)
      && (forall k :: row <= k < e ==> k <= ws.maxRow && !BlankRow(ws, m, col, k))
      && (e > ws.maxRow || BlankRow(ws, m, col, e))
  {
    if row <= ws.maxRow && !BlankRow(ws, m, col, row) {
      ScanEndSpec(ws, m, col, row + 1);
    }
  }

  /** The rows in [lo, hi) that are not excluded, in ascending order. */
  function DataRows(ws: Sheet, m: Model, col: int, lo: int, hi: int): seq<int>
    decreases hi - lo
  {
    if hi <= lo then []
    else
      var rest := DataRows(ws, m, col, lo, hi - 1);
      if ExcludedRow(ws, m, col, hi - 1) then rest else rest + [hi - 1]
  }

  /** `DataRows` lists rows of the range that are not excluded, in
      ascending order, and lists every one of them. */
  lemma {:induction false} DataRowsSpec(ws: Sheet, m: Model, col: int, lo: int, hi: int)
    decreases hi - lo
    ensures var rows := DataRows(ws, m, col, lo, hi);
      (forall k :: 0 <= k < |rows| ==> lo <= rows[k] < hi && !ExcludedRow(ws, m, col, rows[k]))
      && (forall k, l :: 0 <= k < l < |rows| ==> rows[k] < rows[l])
      && (forall x :: lo <= x < hi && !ExcludedRow(ws, m, col, x) ==> x in rows)
  {
    if lo < hi {
      DataRowsSpec(ws, m, col, lo, hi - 1);
    }
  }

  /** The records built from the given rows, one result per row. */
  function Built(ws: Sheet, m: Model, col: int, rows: seq<int>): (rs: seq<Result<map<string, Cell>, Error>>)
    ensures |rs| == |rows|
    ensures forall k :: 0 <= k < |rows| ==> rs[k] == RowRecord(ws, m, col, rows[k])
  {
    seq(|rows|, k requires 0 <= k < |rows| => RowRecord(ws, m, col, rows[k]))
  }

  /** The successful results up to the first failure, and that failure. */
  function Collect(results: seq<Result<map<string, Cell>, Error>>): Scan {
    if results == [] then Scan([], None)
    else Prepend(results[0], Collect(results[1..]))
  }

  /** `Collect` keeps the successes before the first failure, and reports
      that failure, if there is one. */
  lemma {:induction false} CollectSpec(results: seq<Result<map<string, Cell>, Error>>)
    ensures var s := Collect(results);
      |s.records| <= |results|
      && (forall k :: 0 <= k < |s.records| ==> results[k] == Ok(s.records[k]))
      && (s.error.None? ==> |s.records| == |results|)
      && (s.error.Some? ==> |s.records| < |results| && results[|s.records|] == Err(s.error.value))
  {
    if results != [] && results[0].Ok? {
      CollectSpec(results[1..]);
    }
  }

  lemma {:induction false} DataRowsCons(ws: Sheet, m: Model, col: int, lo: int, hi: int)
    requires lo < hi
    decreases hi - lo
    ensures DataRows(ws, m, col, lo, hi) ==
      (if ExcludedRow(ws, m, col, lo) then [] else [lo]) + DataRows(ws, m, col, lo + 1, hi)
  {
    if hi > lo + 1 {
      DataRowsCons(ws, m, col, lo, hi - 1);
    }
  }

  lemma BuiltCons(ws: Sheet, m: Model, col: int, row: int, rest: seq<int>)
    ensures Built(ws, m, col, [row] + rest) == [RowRecord(ws, m, col, row)] + Built(ws, m, col, rest)
  {
    var bs := Built(ws, m, col, [row] + rest);
    assert bs[1..] == Built(ws, m, col, rest);
  }

  /** One step of the row loop on a non-blank row, restated over the rows
      that remain. */
  lemma LoadRowsStep(ws: Sheet, m: Model, col: int, row: int, rest: seq<int>)
    requires row <= ws.maxRow && !BlankRow(ws, m, col, row)
    requires LoadRows(ws, m, col, row + 1) == Collect(Built(ws, m, col, rest))
    ensures LoadRows(ws, m, col, row) ==
      Collect(Built(ws, m, col, (if ExcludedRow(ws, m, col, row) then [] else [row]) + rest))
  {
    if !ExcludedRow(ws, m, col, row) {
      var bs := Built(ws, m, col, [row] + rest);
      BuiltCons(ws, m, col, row, rest);
      assert bs[0] == RowRecord(ws, m, col, row);
      assert bs[1..] == Built(ws, m, col, rest);
      assert Collect(bs) == Prepend(bs[0], Collect(bs[1..]));
    } else {
      assert [] + rest == rest;
    }
  }

  /** The row loop, restated: scanning builds a record from every
      non-excluded row between its first row and the first blank row, in
      row order, and stops at the first row whose record fails. */
  lemma {:induction false} LoadRowsIsCollect(ws: Sheet, m: Model, col: int, row: int)
    decreases ws.maxRow + 1 - row
    ensures LoadRows(ws, m, col, row) == Collect(Built(ws, m, col, DataRows(ws, m, col, row, ScanEnd(ws, m, col, row))))
  {
    if row <= ws.maxRow && !BlankRow(ws, m, col, row) {
      LoadRowsIsCollect(ws, m, col, row + 1);
      LoadRowsIsCollectStep(ws, m, col, row);
    } else {
      assert DataRows(ws, m, col, row, ScanEnd(ws, m, col, row)) == [];
    }
  }

  /** The step of `LoadRowsIsCollect` at a row that is not blank. */
  lemma LoadRowsIsCollectStep(ws: Sheet, m: Model, col: int, row: int)
    requires row <= ws.maxRow && !BlankRow(ws, m, col, row)
    requires LoadRows(ws, m, col, row + 1)
      == Collect(Built(ws, m, col, DataRows(ws, m, col, row + 1, ScanEnd(ws, m, col, row + 1))))
    ensures LoadRows(ws, m, col, row) == Collect(Built(ws, m, col, DataRows(ws, m, col, row, ScanEnd(ws, m, col, row))))
  {
    var e := ScanEnd(ws, m, col, row);
    assert e == ScanEnd(ws, m, col, row + 1);
    var rest := DataRows(ws, m, col, row + 1, e);
    assert DataRows(ws, m, col, row, e) == (if ExcludedRow(ws, m, col, row) then [] else [row]) + rest by {
      ScanEndSpec(ws, m, col, row + 1);
      DataRowsCons(ws, m, col, row, e);
    }
    LoadRowsStep(ws, m, col, row, rest);
  }

  /** What the scan of one block yields: each record is built from a
      non-excluded row at or after `row`, before the first blank row and no
      further than the last row, in row order; without an error every such
      row gives a record, and an error is the failure of the row after the
      last record. */
  lemma LoadRowsSpec(ws: Sheet, m: Model, col: int, row: int)
    ensures var rows := DataRows(ws, m, col, row, ScanEnd(ws, m, col, row));
      var s := LoadRows(ws, m, col, row);
      |s.records| <= |rows|
      && (forall k :: 0 <= k < |rows| ==> row <= rows[k] <= ws.maxRow && rows[k] < ScanEnd(ws, m, col, row))
      && (forall k, l :: 0 <= k < l < |rows| ==> rows[k] < rows[l])
      && (forall k :: 0 <= k < |rows| ==> !ExcludedRow(ws, m, col, rows[k]))
      && (forall k :: 0 <= k < |s.records| ==> RowRecord(ws, m, col, rows[k]) == Ok(s.records[k]))
      && (s.error.None? ==> |s.records| == |rows|)
      && (s.error.Some? ==> |s.records| < |rows| && RowRecord(ws, m, col, rows[|s.records|]) == Err(s.error.value))
  {
    var e := ScanEnd(ws, m, col, row);
    ScanEndSpec(ws, m, col, row);
    DataRowsSpec(ws, m, col, row, e);
    LoadRowsIsCollect(ws, m, col, row);
    CollectSpec(Built(ws, m, col, DataRows(ws, m, col, row, e)));
  }

  /** No row after a blank row is ever read: sheets that agree on the rows
      from `row` to a blank row give the same outcome, whatever follows. */
  lemma {:induction false} LoadRowsStopsAtBlank(ws: Sheet, ws': Sheet, m: Model, col: int, row: int, blank: int)
    requires row <= blank <= ws.maxRow && blank <= ws'.maxRow
    requires BlankRow(ws, m, col, blank)
    requires forall r :: row <= r <= blank ==> RowValues(ws, r, col, |m.columns|) == RowValues(ws', r, col, |m.columns|)
    decreases blank - row
    ensures LoadRows(ws, m, col, row) == LoadRows(ws', m, col, row)
  {
    var vs := RowValues(ws, row, col, |m.columns|);
    assert vs == RowValues(ws', row, col, |m.columns|);
    assert BlankRow(ws, m, col, row) == BlankRow(ws', m, col, row);
    assert ExcludedRow(ws, m, col, row) == ExcludedRow(ws', m, col, row);
    assert RowRecord(ws, m, col, row) == RowRecord(ws', m, col, row);
    if row < blank {
      LoadRowsStopsAtBlank(ws, ws', m, col, row + 1, blank);
    }
  }
}
