/** The template `generate_template` writes for one sheet: for each model,
    a merged title row holding the model's display name above a header row
    holding its columns' headers, the blocks laid out left to right with a
    fixed gap between them. The worksheet is a log of the calls made on it. */
module Template {
  import opened Wrappers
  import opened Text
  import opened Cells
  import opened Columns
  import opened Sheets
  import opened Naming
  import opened Seqs

  /** One call on the worksheet. */
  datatype Action =
    | Merge(row: int, firstCol: int, lastCol: int)  // merge `firstCol..lastCol` of `row`
    | WriteCell(row: int, col: int, value: string)  // write a value into a cell
    | SetWidth(col: int, width: int)                // set a column's display width

  /** The header text the template writes for a column: its declared
      header, or its attribute name when that is absent or empty. */
  function TemplateHeader(c: Column): string {
    if c.spec.header.Some? && c.spec.header.value != "" then c.spec.header.value else c.name
  }

  /** The template headers of a model's columns, in order. */
  function TemplateHeaders(m: Model): (hs: seq<string>)
    ensures |hs| == |m.columns|
    ensures forall j :: 0 <= j < |hs| ==> hs[j] == TemplateHeader(m.columns[j])
  {
    seq(|m.columns|, j requires 0 <= j < |m.columns| => TemplateHeader(m.columns[j]))
  }

  /** The display width of a header's column: four more than the header's
      length, kept within 12 and 40. */
  function ColumnWidth(h: string): (w: int)
    ensures 12 <= w <= 40
    ensures 8 <= |h| <= 36 ==> w == |h| + 4
    ensures |h| < 8 ==> w == 12
    ensures |h| > 36 ==> w == 40
  {
    var natural := |h| + 4;
    if natural > 40 then 40 else if natural < 12 then 12 else natural
  }

  /** The first column of block `k`: the cursor starts at column 1 and moves
      past each block and the gap after it. */
  function BlockStart(spec: SheetSpec, k: nat): int
    requires k <= |spec.models|
  {
    if k == 0 then 1 else BlockStart(spec, k - 1) + |spec.models[k - 1].columns| + spec.gap
  }

  /** A later block starts past the end of an earlier block and its gap. */
  lemma {:induction false} BlockStartGrows(spec: SheetSpec, k: nat, i: nat)
    requires k < i <= |spec.models|
    ensures BlockStart(spec, i) >= BlockStart(spec, k) + |spec.models[k].columns| + spec.gap
  {
    if i > k + 1 {
      BlockStartGrows(spec, k, i - 1);
    }
  }

  /** The calls that write the header row of a block from column `start` on:
      per header, its cell, then its column's width. */
  function HeaderActions(row: int, start: int, hs: seq<string>): (acts: seq<Action>)
    ensures |acts| == 2 * |hs|
  {
    if hs == [] then []
    else
      var j := |hs| - 1;
      HeaderActions(row, start, hs[..j]) + [WriteCell(row, start + j, hs[j]), SetWidth(start + j, ColumnWidth(hs[j]))]
  }

  /** The header calls, pair by pair: the `j`-th header's cell, then the
      width of its column. */
  lemma {:induction false} HeaderActionsAt(row: int, start: int, hs: seq<string>, j: nat)
    requires j < |hs|
    ensures HeaderActions(row, start, hs)[2 * j] == WriteCell(row, start + j, hs[j])
    ensures HeaderActions(row, start, hs)[2 * j + 1] == SetWidth(start + j, ColumnWidth(hs[j]))
  {
    var n := |hs| - 1;
    if j < n {
      HeaderActionsAt(row, start, hs[..n], j);
      assert hs[..n][j] == hs[j];
    }
  }

  /** The calls for one model's block from column `start` on, under the
      given title. */
  function BlockActions(spec: SheetSpec, m: Model, start: int, title: string): seq<Action> {
    [Merge(spec.titleRow, start, start + |m.columns| - 1), WriteCell(spec.titleRow, start, title)]
      + HeaderActions(spec.headerRow, start, TemplateHeaders(m))
  }

  /** The titles of the blocks: each model's display name. */
  function Titles(spec: SheetSpec): (ts: seq<string>)
    ensures |ts| == |spec.models|
    ensures forall k :: 0 <= k < |ts| ==> ts[k] == DisplayName(spec.models[k].name)
  {
    seq(|spec.models|, k requires 0 <= k < |spec.models| => DisplayName(spec.models[k].name))
  }

  /** The calls for the first `n` blocks, under the given titles. */
  function Blocks(spec: SheetSpec, titles: seq<string>, n: nat): seq<Action>
    requires n <= |spec.models| && |titles| == |spec.models|
  {
    if n == 0 then []
    else Blocks(spec, titles, n - 1) + BlockActions(spec, spec.models[n - 1], BlockStart(spec, n - 1), titles[n - 1])
  }

  /** The calls for the whole sheet. */
  function Layout(spec: SheetSpec): seq<Action> {
    Blocks(spec, Titles(spec), |spec.models|)
  }

  /** A worksheet, seen as the log of the calls made on it. */
  class Worksheet {
    var calls: seq<Action>

    constructor()
      ensures calls == []
    {
      calls := [];
    }

    /** `merge_cells` over one row. */
    method MergeCells(row: int, firstCol: int, lastCol: int)
      modifies this
      ensures calls == old(calls) + [Merge(row, firstCol, lastCol)]
    {
      calls := calls + [Merge(row, firstCol, lastCol)];
    }

    /** `cell(row, column, value)`. */
    method SetCell(row: int, col: int, value: string)
      modifies this
      ensures calls == old(calls) + [WriteCell(row, col, value)]
    {
      calls := calls + [WriteCell(row, col, value)];
    }

    /** `column_dimensions[letter].width = width`. */
    method SetColumnWidth(col: int, width: int)
      modifies this
      ensures calls == old(calls) + [SetWidth(col, width)]
    {
      calls := calls + [SetWidth(col, width)];
    }
  }

  /** The inner loop of `_write_sheet_template`: from column `start` on,
      each header's cell, then its column's width. */
  method WriteHeaders(ws: Worksheet, row: int, start: int, hs: seq<string>)
    modifies ws
    ensures ws.calls == old(ws.calls) + HeaderActions(row, start, hs)
  {
    var j := 0;
    PrefixEnds(old(ws.calls), HeaderActions(row, start, hs));
    while j < |hs|
      invariant 0 <= j <= |hs|
      invariant ws.calls == old(ws.calls) + HeaderActions(row, start, hs[..j])
    {
      var c := start + j;
      TakeSnoc(hs, j);
      ws.SetCell(row, c, hs[j]);
      ws.SetColumnWidth(c, ColumnWidth(hs[j]));
      j := j + 1;
    }
    TakeAll(hs);
  }

  /** One block of `_write_sheet_template`: the merged title over the block's
      columns, the title text in its first cell, then the header cells and
      column widths. */
  method WriteBlock(ws: Worksheet, spec: SheetSpec, m: Model, start: int, title: string)
    modifies ws
    ensures ws.calls == old(ws.calls) + BlockActions(spec, m, start, title)
  {
    var headers := TemplateHeaders(m);
    ghost var before := ws.calls;
    ws.MergeCells(spec.titleRow, start, start + |headers| - 1);
    ws.SetCell(spec.titleRow, start, title);
    ghost var titled := ws.calls;
    WriteHeaders(ws, spec.headerRow, start, headers);
    assert titled == before + [Merge(spec.titleRow, start, start + |m.columns| - 1), WriteCell(spec.titleRow, start, title)];
    AppendAssoc(before, [Merge(spec.titleRow, start, start + |m.columns| - 1), WriteCell(spec.titleRow, start, title)],
      HeaderActions(spec.headerRow, start, headers));
  }

  /** One more block appends that block's calls. */
  lemma BlocksNext(pre: seq<Action>, spec: SheetSpec, titles: seq<string>, k: nat)
    requires k < |spec.models| && |titles| == |spec.models|
    ensures pre + Blocks(spec, titles, k + 1)
      == (pre + Blocks(spec, titles, k)) + BlockActions(spec, spec.models[k], BlockStart(spec, k), titles[k])
  {
    AppendAssoc(pre, Blocks(spec, titles, k), BlockActions(spec, spec.models[k], BlockStart(spec, k), titles[k]));
  }

  /** `_write_sheet_template`: a cursor walks the blocks left to right; each
      block gets its merged title, then its header cells and column widths,
      and the cursor moves past the block and the gap. */
  method WriteSheetTemplate(ws: Worksheet, spec: SheetSpec)
    modifies ws
    ensures ws.calls == old(ws.calls) + Layout(spec)
  {
    WriteBlocks(ws, spec, Titles(spec));
  }

  /** The cursor loop of `_write_sheet_template`, under the given block titles. */
  method WriteBlocks(ws: Worksheet, spec: SheetSpec, titles: seq<string>)
    requires |titles| == |spec.models|
    modifies ws
    ensures ws.calls == old(ws.calls) + Blocks(spec, titles, |spec.models|)
  {
    var current := 1;
    var k := 0;
    while k < |spec.models|
      invariant 0 <= k <= |spec.models|
      invariant current == BlockStart(spec, k)
      invariant ws.calls == old(ws.calls) + Blocks(spec, titles, k)
    {
      var m := spec.models[k];
      var width := |TemplateHeaders(m)|;
      var endCol := current + width - 1;
      WriteBlock(ws, spec, m, current, titles[k]);
      BlocksNext(old(ws.calls), spec, titles, k);
      current := endCol + 1 + spec.gap;
      k := k + 1;
    }
  }

  // ------------------------------------------------------- the written sheet

  /** The value last written into the cell at `key`, if any. */
  function LastWrite(acts: seq<Action>, key: (int, int)): Option<string> {
    if acts == [] then None
    else
      match acts[|acts| - 1]
      case WriteCell(r, c, v) => if (r, c) == key then Some(v) else LastWrite(acts[..|acts| - 1], key)
      case _ => LastWrite(acts[..|acts| - 1], key)
  }

  /** Writing one more call: a write to the cell is its new value. */
  lemma LastWriteSnoc(a: seq<Action>, x: Action, key: (int, int))
    ensures LastWrite(a + [x], key) ==
      if x.WriteCell? && (x.row, x.col) == key then Some(x.value) else LastWrite(a, key)
  {
    assert (a + [x])[..|a|] == a;
  }

  /** A later write to a cell overrides an earlier one. */
  lemma {:induction false} LastWriteAppend(a: seq<Action>, b: seq<Action>, key: (int, int))
    ensures LastWrite(a + b, key) == if LastWrite(b, key).Some? then LastWrite(b, key) else LastWrite(a, key)
  {
    if b == [] {
      assert a + b == a;
    } else {
      var n := |b| - 1;
      assert a + b == (a + b[..n]) + [b[n]];
      assert b == b[..n] + [b[n]];
      LastWriteSnoc(a + b[..n], b[n], key);
      LastWriteSnoc(b[..n], b[n], key);
      LastWriteAppend(a, b[..n], key);
    }
  }

  /** The cells the calls leave behind: each written cell holds the last
      value written into it. */
  function Written(acts: seq<Action>): map<(int, int), Cell> {
    if acts == [] then map[]
    else
      var w := Written(acts[..|acts| - 1]);
      match acts[|acts| - 1]
      case WriteCell(r, c, v) => w[(r, c) := Str(v)]
      case _ => w
  }

  /** A cell is written exactly when some call wrote it, and holds the last
      value written. */
  lemma {:induction false} WrittenAt(acts: seq<Action>, key: (int, int))
    ensures key in Written(acts) <==> LastWrite(acts, key).Some?
    ensures key in Written(acts) ==> Written(acts)[key] == Str(LastWrite(acts, key).value)
  {
    if acts != [] {
      WrittenAt(acts[..|acts| - 1], key);
    }
  }

  /** The rightmost column the calls touch (merged ranges included), or 0. */
  function Extent(acts: seq<Action>): (e: int)
    ensures e >= 0
  {
    if acts == [] then 0
    else
      var e := Extent(acts[..|acts| - 1]);
      var c := match acts[|acts| - 1]
        case Merge(_, _, last) => last
        case WriteCell(_, col, _) => col
        case SetWidth(_, _) => 0;
      if c > e then c else e
  }

  /** The extent of two runs of calls is at least either's. */
  lemma {:induction false} ExtentAppend(a: seq<Action>, b: seq<Action>)
    ensures Extent(a + b) >= Extent(a) && Extent(a + b) >= Extent(b)
  {
    if b == [] {
      assert a + b == a;
    } else {
      assert (a + b)[..|a + b| - 1] == a + b[..|b| - 1];
      assert (a + b)[|a + b| - 1] == b[|b| - 1];
      ExtentAppend(a, b[..|b| - 1]);
    }
  }

  /** The header calls write each header into its own cell of the row and
      nothing else. */
  lemma {:induction false} HeaderLastWrite(row: int, start: int, hs: seq<string>, key: (int, int))
    ensures LastWrite(HeaderActions(row, start, hs), key) ==
      if key.0 == row && start <= key.1 < start + |hs| then Some(hs[key.1 - start]) else None
  {
    if hs != [] {
      var n := |hs| - 1;
      var tail := [WriteCell(row, start + n, hs[n]), SetWidth(start + n, ColumnWidth(hs[n]))];
      assert HeaderActions(row, start, hs) == HeaderActions(row, start, hs[..n]) + tail;
      LastWriteAppend(HeaderActions(row, start, hs[..n]), tail, key);
      assert tail == ([] + [tail[0]]) + [tail[1]];
      LastWriteSnoc([], tail[0], key);
      LastWriteSnoc([] + [tail[0]], tail[1], key);
      HeaderLastWrite(row, start, hs[..n], key);
      if key.0 == row && start <= key.1 < start + n {
        assert hs[..n][key.1 - start] == hs[key.1 - start];
      }
    }
  }

  /** A block writes its header cells last, and nothing left of its first column. */
  lemma BlockLastWrite(spec: SheetSpec, m: Model, start: int, title: string, key: (int, int))
    ensures key.0 == spec.headerRow && start <= key.1 < start + |m.columns| ==>
      LastWrite(BlockActions(spec, m, start, title), key) == Some(TemplateHeaders(m)[key.1 - start])
    ensures LastWrite(BlockActions(spec, m, start, title), key).Some? ==> start <= key.1
  {
    var titleCalls := [Merge(spec.titleRow, start, start + |m.columns| - 1), WriteCell(spec.titleRow, start, title)];
    var hs := TemplateHeaders(m);
    LastWriteAppend(titleCalls, HeaderActions(spec.headerRow, start, hs), key);
    assert titleCalls == ([] + [titleCalls[0]]) + [titleCalls[1]];
    LastWriteSnoc([], titleCalls[0], key);
    LastWriteSnoc([] + [titleCalls[0]], titleCalls[1], key);
    HeaderLastWrite(spec.headerRow, start, hs, key);
  }

  /** The calls last wrote block `k`'s `j`-th template header into its cell
      of the header row. */
  predicate HeaderWritten(acts: seq<Action>, spec: SheetSpec, k: nat, j: nat)
    requires k < |spec.models| && j < |spec.models[k].columns|
  {
    LastWrite(acts, (spec.headerRow as int, BlockStart(spec, k) + j)) == Some(TemplateHeaders(spec.models[k])[j])
  }

  /** Block `k`'s own calls leave its headers in its header row. */
  lemma BlocksHeaderCellOwn(spec: SheetSpec, titles: seq<string>, k: nat, j: nat)
    requires |titles| == |spec.models| && k < |spec.models| && j < |spec.models[k].columns|
    ensures HeaderWritten(Blocks(spec, titles, k + 1), spec, k, j)
  {
    var key := (spec.headerRow as int, BlockStart(spec, k) + j);
    BlockLastWrite(spec, spec.models[k], BlockStart(spec, k), titles[k], key);
    LastWriteAppend(Blocks(spec, titles, k), BlockActions(spec, spec.models[k], BlockStart(spec, k), titles[k]), key);
  }

  /** A later block leaves the cells of earlier blocks' header rows alone. */
  lemma BlocksHeaderCellKept(spec: SheetSpec, titles: seq<string>, k: nat, j: nat, n: nat)
    requires |titles| == |spec.models| && k + 1 < n <= |spec.models| && j < |spec.models[k].columns|
    requires HeaderWritten(Blocks(spec, titles, n - 1), spec, k, j)
    ensures HeaderWritten(Blocks(spec, titles, n), spec, k, j)
  {
    var key := (spec.headerRow as int, BlockStart(spec, k) + j);
    BlockStartGrows(spec, k, n - 1);
    BlockLastWrite(spec, spec.models[n - 1], BlockStart(spec, n - 1), titles[n - 1], key);
    LastWriteAppend(Blocks(spec, titles, n - 1), BlockActions(spec, spec.models[n - 1], BlockStart(spec, n - 1), titles[n - 1]), key);
  }

  /** In the calls of the first `n` blocks, the header row of block `k`
      holds the block's template headers from the block's first column on. */
  lemma {:induction false} BlocksHeaderCell(spec: SheetSpec, titles: seq<string>, k: nat, j: nat, n: nat)
    requires |titles| == |spec.models| && k < n <= |spec.models| && j < |spec.models[k].columns|
    ensures HeaderWritten(Blocks(spec, titles, n), spec, k, j)
  {
    if n == k + 1 {
      BlocksHeaderCellOwn(spec, titles, k, j);
    } else {
      BlocksHeaderCell(spec, titles, k, j, n - 1);
      BlocksHeaderCellKept(spec, titles, k, j, n);
    }
  }

  /** A block's own calls reach its last column. */
  lemma BlockExtent(spec: SheetSpec, m: Model, start: int, title: string)
    ensures Extent(BlockActions(spec, m, start, title)) >= start + |m.columns| - 1
  {
    var titleCalls := [Merge(spec.titleRow, start, start + |m.columns| - 1), WriteCell(spec.titleRow, start, title)];
    ExtentAppend(titleCalls, HeaderActions(spec.headerRow, start, TemplateHeaders(m)));
    assert titleCalls[..1] == [titleCalls[0]];
  }

  /** One more block does not shrink the extent. */
  lemma BlocksExtentGrows(spec: SheetSpec, titles: seq<string>, n: nat)
    requires |titles| == |spec.models| && 0 < n <= |spec.models|
    ensures Extent(Blocks(spec, titles, n)) >= Extent(Blocks(spec, titles, n - 1))
    ensures Extent(Blocks(spec, titles, n)) >= BlockStart(spec, n - 1) + |spec.models[n - 1].columns| - 1
  {
    var m := spec.models[n - 1];
    BlockExtent(spec, m, BlockStart(spec, n - 1), titles[n - 1]);
    ExtentAppend(Blocks(spec, titles, n - 1), BlockActions(spec, m, BlockStart(spec, n - 1), titles[n - 1]));
  }

  /** The calls of the first `n` blocks reach the last column of each. */
  lemma {:induction false} BlocksExtent(spec: SheetSpec, titles: seq<string>, k: nat, n: nat)
    requires |titles| == |spec.models| && k < n <= |spec.models|
    ensures Extent(Blocks(spec, titles, n)) >= BlockStart(spec, k) + |spec.models[k].columns| - 1
  {
    BlocksExtentGrows(spec, titles, n);
    if n > k + 1 {
      BlocksExtent(spec, titles, k, n - 1);
    }
  }

  /** The sheet a fresh workbook holds after the calls: the written cells,
      used down to the title and header rows and across to the rightmost
      column the calls touch. */
  function SheetOf(spec: SheetSpec, acts: seq<Action>): Sheet {
    var top := if spec.titleRow > spec.headerRow then spec.titleRow else spec.headerRow;
    Sheet(Written(acts), top, Extent(acts))
  }

  /** The template sheet. */
  function TemplateSheet(spec: SheetSpec): Sheet {
    SheetOf(spec, Layout(spec))
  }

  // ----------------------------------------------------------- loadability

  /** The sheet holds the values `hs` along `row`, from column `start` on. */
  predicate RowHolds(ws: Sheet, row: int, start: int, hs: seq<string>) {
    forall j :: 0 <= j < |hs| ==> CellAt(ws, row, start + j) == Str(hs[j])
  }

  /** The sheet holds block `k`'s template headers in its header row, and
      its used range reaches the block's last column. */
  predicate HoldsHeaders(ws: Sheet, spec: SheetSpec, k: nat)
    requires k < |spec.models|
  {
    BlockStart(spec, k) + |spec.models[k].columns| - 1 <= ws.maxCol
    && RowHolds(ws, spec.headerRow, BlockStart(spec, k), TemplateHeaders(spec.models[k]))
  }

  /** A cell the calls last wrote holds that value in the sheet. */
  lemma SheetOfCell(spec: SheetSpec, acts: seq<Action>, row: int, col: int, v: string)
    requires LastWrite(acts, (row, col)) == Some(v)
    ensures CellAt(SheetOf(spec, acts), row, col) == Str(v)
  {
    WrittenAt(acts, (row, col));
  }

  /** Calls that last wrote a run of values along a row leave a sheet
      holding them there. */
  lemma SheetOfRow(spec: SheetSpec, acts: seq<Action>, row: int, start: int, hs: seq<string>)
    requires forall j :: 0 <= j < |hs| ==> LastWrite(acts, (row, start + j)) == Some(hs[j])
    ensures RowHolds(SheetOf(spec, acts), row, start, hs)
  {
    forall j | 0 <= j < |hs|
      ensures CellAt(SheetOf(spec, acts), row, start + j) == Str(hs[j])
    {
      SheetOfCell(spec, acts, row, start + j, hs[j]);
    }
  }

  /** Calls that reach block `k`'s last column and last wrote its template
      headers into its header row leave a sheet holding those headers. */
  lemma SheetOfHoldsHeaders(spec: SheetSpec, acts: seq<Action>, k: nat)
    requires k < |spec.models|
    requires Extent(acts) >= BlockStart(spec, k) + |spec.models[k].columns| - 1
    requires forall j :: 0 <= j < |spec.models[k].columns| ==>
      LastWrite(acts, (spec.headerRow as int, BlockStart(spec, k) + j)) == Some(TemplateHeaders(spec.models[k])[j])
    ensures HoldsHeaders(SheetOf(spec, acts), spec, k)
  {
    SheetOfRow(spec, acts, spec.headerRow, BlockStart(spec, k), TemplateHeaders(spec.models[k]));
  }

  /** The calls of all blocks, under any titles, leave each block's headers
      in place. */
  lemma BlocksHoldHeaders(spec: SheetSpec, titles: seq<string>, k: nat)
    requires |titles| == |spec.models| && k < |spec.models|
    ensures HoldsHeaders(SheetOf(spec, Blocks(spec, titles, |spec.models|)), spec, k)
  {
    var n := |spec.models|;
    BlocksExtent(spec, titles, k, n);
    forall j | 0 <= j < |spec.models[k].columns|
      ensures LastWrite(Blocks(spec, titles, n), (spec.headerRow as int, BlockStart(spec, k) + j))
        == Some(TemplateHeaders(spec.models[k])[j])
    {
      BlocksHeaderCell(spec, titles, k, j, n);
    }
    SheetOfHoldsHeaders(spec, Blocks(spec, titles, n), k);
  }

  /** The template sheet holds the headers of each of its blocks. */
  lemma TemplateHoldsHeaders(spec: SheetSpec, k: nat)
    requires k < |spec.models|
    ensures HoldsHeaders(TemplateSheet(spec), spec, k)
  {
    BlocksHoldHeaders(spec, Titles(spec), k);
  }

  /** The header `_find_header` expects for a column is the one the template
      writes: the declared header is present and not empty, or else the
      attribute name the template writes instead is blank. */
  predicate HeaderAgrees(c: Column) {
    (c.spec.header.Some? && c.spec.header.value != "") || Strip(c.name) == ""
  }

  /** Where the template's headers stand, the header search matches exactly
      when every column's header agrees. */
  lemma TemplateBlockMatches(ws: Sheet, spec: SheetSpec, k: nat)
    requires k < |spec.models| && HoldsHeaders(ws, spec, k)
    ensures HeaderMatchesAt(ws, spec.headerRow, BlockStart(spec, k), Expected(spec.models[k]))
      <==> forall j :: 0 <= j < |spec.models[k].columns| ==> HeaderAgrees(spec.models[k].columns[j])
  {
    var m := spec.models[k];
    var start := BlockStart(spec, k);
    var e := Expected(m);
    var a := Actual(ws, spec.headerRow, start, |e|);
    forall j | 0 <= j < |m.columns|
      ensures a[j] == e[j] <==> HeaderAgrees(m.columns[j])
    {
      var c := m.columns[j];
      assert a[j] == Strip(TemplateHeader(c));
      if c.spec.header.Some? && c.spec.header.value == "" {
        assert Strip("") == "" by { StripEmptyIff(""); }
      }
    }
    if forall j :: 0 <= j < |m.columns| ==> HeaderAgrees(m.columns[j]) {
      assert a == e;
    }
  }

  /** A sheet holding the template's headers for a block of at least one
      column whose headers all agree is loadable: the header search finds a
      block no further right than the template's; for the first block, the
      template's own. */
  lemma TemplateHeaderFound(ws: Sheet, spec: SheetSpec, k: nat)
    requires k < |spec.models| && HoldsHeaders(ws, spec, k)
    requires |spec.models[k].columns| > 0
    requires forall j :: 0 <= j < |spec.models[k].columns| ==> HeaderAgrees(spec.models[k].columns[j])
    ensures HeaderColumn(ws, spec, spec.models[k]).Some?
    ensures HeaderColumn(ws, spec, spec.models[k]).value <= BlockStart(spec, k)
    ensures k == 0 ==> HeaderColumn(ws, spec, spec.models[k]) == Some(1)
  {
    var m := spec.models[k];
    TemplateBlockMatches(ws, spec, k);
    assert BlockStart(spec, k) >= 1 by {
      if k > 0 {
        BlockStartGrows(spec, 0, k);
      }
    }
    HeaderColumnSpec(ws, spec, m);
  }

  /** A column declared without a header (or with an empty one) whose name
      is not blank keeps the header search from matching at its block,
      though the template wrote the block there. */
  lemma TemplateHeaderMismatch(ws: Sheet, spec: SheetSpec, k: nat, j: nat)
    requires k < |spec.models| && HoldsHeaders(ws, spec, k)
    requires j < |spec.models[k].columns|
    requires spec.models[k].columns[j].spec.header.None? || spec.models[k].columns[j].spec.header == Some("")
    requires Strip(spec.models[k].columns[j].name) != ""
    ensures !HeaderMatchesAt(ws, spec.headerRow, BlockStart(spec, k), Expected(spec.models[k]))
  {
    TemplateBlockMatches(ws, spec, k);
  }

  // --------------------------------------------------------------- example

  /** Two blocks of three and two columns with a gap of two: the first
      title spans columns 1 to 3 (A1:C1), the second block starts at column 6
      (F) and its title spans columns 6 to 7 (F1:G1). */
  lemma TwoBlockExample(spec: SheetSpec)
    requires |spec.models| == 2 && spec.gap == 2 && spec.titleRow == 1
    requires |spec.models[0].columns| == 3 && |spec.models[1].columns| == 2
    ensures BlockStart(spec, 1) == 6
    ensures |Layout(spec)| == 14
    ensures Layout(spec)[0] == Merge(1, 1, 3)
    ensures Layout(spec)[8] == Merge(1, 6, 7)
  {
    var titles := Titles(spec);
    var b0 := BlockActions(spec, spec.models[0], 1, titles[0]);
    var b1 := BlockActions(spec, spec.models[1], 6, titles[1]);
    assert Blocks(spec, titles, 1) == [] + b0;
    assert Layout(spec) == ([] + b0) + b1;
  }
}
