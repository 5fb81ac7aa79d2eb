/** The workbook binding: a repository per model, the file object that
    creates them from its sheet declarations, and the loader that clears
    them and fills them from a workbook's sheets. */
module Orm {
  import opened Wrappers
  import opened Cells
  import opened Columns
  import opened Sheets
  import opened Naming
  import opened Seqs

  /** A record as a repository holds it: its fields by name. */
  type Fields = map<string, Cell>

  /** A repository: the records loaded for one model, in load order. */
  class Repository {
    var items: seq<Fields>

    constructor()
      ensures items == []
    {
      items := [];
    }

    /** `list.clear`. */
    method Clear()
      modifies this
      ensures items == []
    {
      items := [];
    }

    /** `list.append`. */
    method Append(rec: Fields)
      modifies this
      ensures items == old(items) + [rec]
    {
      items := items + [rec];
    }

    /** `all`: a copy of the records, in order. */
    method All() returns (r: seq<Fields>)
      ensures r == items
    {
      r := items;
    }
  }

  // ----------------------------------------------------------- one record

  /** `_instantiate_model`: a bare instance whose fields are set to the
      columns' defaults one column at a time. */
  method Instantiate(m: Model) returns (obj: Record)
    ensures fresh(obj)
    ensures obj.values == Defaults(m.columns)
    ensures obj.values.Keys == Names(m.columns)
  {
    obj := new Record(map[]);
    var i := 0;
    while i < |m.columns|
      invariant 0 <= i <= |m.columns|
      invariant obj.values == Defaults(m.columns[..i])
      modifies obj
    {
      var col := m.columns[i];
      obj.values := obj.values[col.name := col.spec.default];
      assert m.columns[..i + 1][..i] == m.columns[..i];
      i := i + 1;
    }
    assert m.columns[..i] == m.columns;
    DefaultsSpec(m.columns);
  }

  /** The body of the row loop for a row that is neither blank nor
      excluded: instantiate, assign every field from its raw value through
      the column (parse, then validate on assignment), then run the model's
      `validate()` hook. The first failure is the outcome. */
  method BuildRecord(m: Model, vals: seq<Cell>) returns (r: Result<Fields, Error>)
    requires |vals| == |m.columns|
    ensures r == RecordOf(m, vals)
  {
    var obj := Instantiate(m);
    var i := 0;
    while i < |m.columns|
      invariant 0 <= i <= |m.columns|
      invariant Fill(m.columns, vals, 0, Defaults(m.columns)) == Fill(m.columns, vals, i, obj.values)
      modifies obj
    {
      var col := m.columns[i];
      var parsed := col.ParseCell(vals[i]);
      if parsed.Err? {
        return Err(parsed.error);
      }
      var err := col.Set(obj, parsed.value);
      if err.Some? {
        return Err(err.value);
      }
      i := i + 1;
    }
    match m.check
    case None =>
      r := Ok(obj.values);
    case Some(p) =>
      r := if p(obj.values) then Ok(obj.values) else Err(RecordRejected(obj.values));
  }

  /** The row loop of `_parse_sheet` for one block: from the first data
      row on, stop at a blank row or past the last row, skip excluded rows,
      and append every record built, stopping at the first failure. */
  method ScanRows(repo: Repository, ws: Sheet, m: Model, col: int, start: int) returns (err: Option<Error>)
    modifies repo
    ensures repo.items == old(repo.items) + LoadRows(ws, m, col, start).records
    ensures err == LoadRows(ws, m, col, start).error
  {
    ghost var base := repo.items;
    ghost var done: seq<Fields> := [];
    var r := start;
    while r <= ws.maxRow
      invariant repo.items == base + done
      invariant LoadRows(ws, m, col, start) ==
        Scan(done + LoadRows(ws, m, col, r).records, LoadRows(ws, m, col, r).error)
      decreases ws.maxRow + 1 - r
    {
      var rowVals := RowValues(ws, r, col, |m.columns|);
      if RowIsBlank(rowVals) {
        assert BlankRow(ws, m, col, r);
        assert done + [] == done;
        return None;
      }
      if Excluded(m.columns, rowVals) {
        assert ExcludedRow(ws, m, col, r);
        r := r + 1;
        continue;
      }
      var rec := BuildRecord(m, rowVals);
      assert rec == RowRecord(ws, m, col, r);
      if rec.Err? {
        assert done + [] == done;
        return Some(rec.error);
      }
      repo.Append(rec.value);
      assert done + ([rec.value] + LoadRows(ws, m, col, r + 1).records)
        == (done + [rec.value]) + LoadRows(ws, m, col, r + 1).records;
      done := done + [rec.value];
      r := r + 1;
    }
    assert done + [] == done;
    err := None;
  }

  // ------------------------------------------------------ repository names

  /** Attributes an `ExcelFile` has before it adds its repositories: its
      two fields and its methods. (Every other attribute it inherits is a
      name ending in "__", which no repository name does.) */
  const RESERVED: set<string> :=
    {"sheets", "_repos", "generate_template", "load_data", "_write_sheet_template", "_parse_sheet", "_find_header"}

  /** The repository names of a sheet's models, in order. */
  function ModelRepoNames(models: seq<Model>): (r: seq<string>)
    ensures |r| == |models|
    ensures forall k :: 0 <= k < |models| ==> r[k] == RepoName(models[k].name)
  {
    seq(|models|, k requires 0 <= k < |models| => RepoName(models[k].name))
  }

  /** The repository names of all models of all sheets, in the order the
      constructor visits them. */
  function RepoNames(sheets: seq<SheetSpec>): seq<string> {
    if sheets == [] then []
    else RepoNames(sheets[..|sheets| - 1]) + ModelRepoNames(sheets[|sheets| - 1].models)
  }

  predicate Distinct(names: seq<string>) {
    forall i, j :: 0 <= i < j < |names| ==> names[i] != names[j]
  }

  /** The first name the constructor refuses: one that is already an
      attribute of the file, either one of the `taken` attributes it starts
      with or the name of an earlier repository. */
  function FirstClash(names: seq<string>, taken: set<string>): Option<string> {
    if names == [] then None
    else
      var init := names[..|names| - 1];
      var n := names[|names| - 1];
      match FirstClash(init, taken)
      case Some(c) => Some(c)
      case None => if n in taken || n in init then Some(n) else None
  }

  /** No name is refused exactly when the names are distinct and none is
      taken. */
  lemma {:induction false} FirstClashNone(names: seq<string>, taken: set<string>)
    ensures FirstClash(names, taken).None? <==>
      Distinct(names) && forall i :: 0 <= i < |names| ==> names[i] !in taken
  {
    if names != [] {
      var init := names[..|names| - 1];
      var n := names[|names| - 1];
      FirstClashNone(init, taken);
      assert forall i :: 0 <= i < |init| ==> init[i] == names[i];
      if FirstClash(names, taken).None? {
        assert n !in init;
        forall i, j | 0 <= i < j < |names| ensures names[i] != names[j] {
          if j == |names| - 1 {
            assert names[i] == init[i];
          } else {
            assert names[i] == init[i] && names[j] == init[j];
          }
        }
      } else if FirstClash(init, taken).None? {
        if n in init {
          var i :| 0 <= i < |init| && init[i] == n;
          assert names[i] == names[|names| - 1];
        }
      }
    }
  }

  /** The refused name is the first one refused: it sits at some position
      whose predecessors are all accepted, and it is reserved or repeats one
      of them. */
  lemma {:induction false} FirstClashIsFirst(names: seq<string>, taken: set<string>)
    requires FirstClash(names, taken).Some?
    ensures exists i :: (0 <= i < |names| && names[i] == FirstClash(names, taken).value
      && FirstClash(names[..i], taken).None?
      && (names[i] in taken || names[i] in names[..i]))
  {
    var init := names[..|names| - 1];
    if FirstClash(init, taken).Some? {
      FirstClashIsFirst(init, taken);
      var i :| 0 <= i < |init| && init[i] == FirstClash(init, taken).value
        && FirstClash(init[..i], taken).None? && (init[i] in taken || init[i] in init[..i]);
      assert init[..i] == names[..i];
      assert names[i] == init[i];
    } else {
      assert names[..|names| - 1] == init;
    }
  }

  /** Every model of every sheet has its name among the repository names. */
  lemma {:induction false} RepoNamesHas(sheets: seq<SheetSpec>, i: nat, k: nat)
    requires i < |sheets| && k < |sheets[i].models|
    ensures RepoName(sheets[i].models[k].name) in RepoNames(sheets)
  {
    var init := sheets[..|sheets| - 1];
    var last := sheets[|sheets| - 1];
    if i == |sheets| - 1 {
      assert ModelRepoNames(last.models)[k] == RepoName(sheets[i].models[k].name);
    } else {
      assert init[i] == sheets[i];
      RepoNamesHas(init, i, k);
    }
  }

  /** The repository names of the first sheets are a prefix of all of them. */
  lemma {:induction false} RepoNamesPrefix(sheets: seq<SheetSpec>, i: nat)
    requires i <= |sheets|
    ensures RepoNames(sheets[..i]) <= RepoNames(sheets)
  {
    if i == |sheets| {
      assert sheets[..i] == sheets;
    } else {
      var init := sheets[..|sheets| - 1];
      assert init[..i] == sheets[..i];
      RepoNamesPrefix(init, i);
      assert RepoNames(init) <= RepoNames(sheets);
    }
  }

  /** One more name: refused exactly when reserved or already seen. */
  lemma FirstClashSnoc(seen: seq<string>, n: string, taken: set<string>)
    requires FirstClash(seen, taken).None?
    ensures FirstClash(seen + [n], taken) == if n in taken || n in seen then Some(n) else None
  {
    assert (seen + [n])[..|seen|] == seen;
  }

  /** Once a name is refused, later names do not change which one. */
  lemma {:induction false} FirstClashExtend(a: seq<string>, b: seq<string>, taken: set<string>)
    requires FirstClash(a, taken).Some?
    ensures FirstClash(a + b, taken) == FirstClash(a, taken)
  {
    if b == [] {
      assert a + b == a;
    } else {
      var init := b[..|b| - 1];
      assert (a + b)[..|a + b| - 1] == a + init;
      FirstClashExtend(a, init, taken);
    }
  }

  /** The refused name of a prefix is the refused name of the whole list. */
  lemma FirstClashPrefix(a: seq<string>, names: seq<string>, taken: set<string>)
    requires a <= names && FirstClash(a, taken).Some?
    ensures FirstClash(names, taken) == FirstClash(a, taken)
  {
    assert names[..|a|] == a;
    assert names == a + names[|a|..];
    FirstClashExtend(a, names[|a|..], taken);
  }

  // -------------------------------------------------------- load outcome

  /** What the repositories hold, by repository name. */
  type Contents = map<string, seq<Fields>>

  /** The repositories after a load, and the error that ended it, if any. */
  datatype Outcome = Outcome(contents: Contents, error: Option<Error>)

  /** Every repository empty. */
  function Cleared(names: set<string>): (c: Contents)
    ensures c.Keys == names
  {
    map n | n in names :: []
  }

  /** Records appended to the repository named `name`. */
  function Appended(c: Contents, name: string, recs: seq<Fields>): (r: Contents)
    ensures r.Keys == c.Keys
  {
    if name in c then c[name := c[name] + recs] else c
  }

  /** The records one model's block yields: none when its header is not
      found, else those of the row scan under it. */
  function Yield(ws: Sheet, spec: SheetSpec, m: Model): seq<Fields> {
    match HeaderColumn(ws, spec, m)
    case None => []
    case Some(col) => LoadRows(ws, m, col, spec.dataStartRow).records
  }

  /** The error that ends the scan of one model's block, if any. */
  function YieldError(ws: Sheet, spec: SheetSpec, m: Model): Option<Error> {
    match HeaderColumn(ws, spec, m)
    case None => None
    case Some(col) => LoadRows(ws, m, col, spec.dataStartRow).error
  }

  /** One pass of `_parse_sheet`'s model loop: the block's records (none
      when its header is not found) are appended to the model's repository,
      as far as the first failure, which ends the load. */
  function ScanModel(c: Contents, ws: Sheet, spec: SheetSpec, m: Model): Outcome {
    Outcome(Appended(c, RepoName(m.name), Yield(ws, spec, m)), YieldError(ws, spec, m))
  }

  /** `_parse_sheet` over the given models, in order, stopping at the first error. */
  function ScanModels(c: Contents, ws: Sheet, spec: SheetSpec, models: seq<Model>): Outcome {
    if models == [] then Outcome(c, None)
    else
      var o := ScanModels(c, ws, spec, models[..|models| - 1]);
      if o.error.Some? then o else ScanModel(o.contents, ws, spec, models[|models| - 1])
  }

  /** One pass of `load_data`'s sheet loop: a sheet missing from the
      workbook is an error, otherwise its models are scanned. */
  function LoadSheet(c: Contents, wb: map<string, Sheet>, spec: SheetSpec): Outcome {
    if spec.name !in wb then Outcome(c, Some(MissingSheet(spec.name)))
    else ScanModels(c, wb[spec.name], spec, spec.models)
  }

  /** `load_data`'s sheet loop over the given sheets, in order, stopping at
      the first error. */
  function LoadSheets(c: Contents, wb: map<string, Sheet>, sheets: seq<SheetSpec>): Outcome {
    if sheets == [] then Outcome(c, None)
    else
      var o := LoadSheets(c, wb, sheets[..|sheets| - 1]);
      if o.error.Some? then o else LoadSheet(o.contents, wb, sheets[|sheets| - 1])
  }

  // -------------------------------------------------------- load lemmas

  /** Scanning a sheet's models keeps the set of repositories. */
  lemma {:induction false} ScanModelsKeys(c: Contents, ws: Sheet, spec: SheetSpec, models: seq<Model>)
    ensures ScanModels(c, ws, spec, models).contents.Keys == c.Keys
  {
    if models != [] {
      ScanModelsKeys(c, ws, spec, models[..|models| - 1]);
    }
  }

  /** Scanning a sheet's models leaves alone every repository none of them owns. */
  lemma {:induction false} ScanModelsOther(c: Contents, ws: Sheet, spec: SheetSpec, models: seq<Model>, n: string)
    requires n in c && n !in ModelRepoNames(models)
    ensures n in ScanModels(c, ws, spec, models).contents
    ensures ScanModels(c, ws, spec, models).contents[n] == c[n]
  {
    if models != [] {
      var init := models[..|models| - 1];
      assert forall k :: 0 <= k < |init| ==> ModelRepoNames(init)[k] == ModelRepoNames(models)[k];
      ScanModelsOther(c, ws, spec, init, n);
      assert RepoName(models[|models| - 1].name) == ModelRepoNames(models)[|models| - 1];
    }
  }

  /** The repository a scan appends to gains the records; every other one
      keeps its records. */
  lemma AppendedAt(c: Contents, name: string, recs: seq<Fields>, n: string)
    requires n in c
    ensures n in Appended(c, name, recs)
    ensures Appended(c, name, recs)[n] == if n == name then c[n] + recs else c[n]
  {
  }

  /** Appending no records changes nothing. */
  lemma AppendedNothing(c: Contents, name: string)
    ensures Appended(c, name, []) == c
  {
    if name in c {
      assert c[name] + [] == c[name];
      assert c[name := c[name]] == c;
    }
  }

  /** An error-free scan of several models is an error-free scan of all but
      the last, followed by the last model's block. */
  lemma ScanModelsStep(c: Contents, ws: Sheet, spec: SheetSpec, models: seq<Model>)
    requires models != [] && ScanModels(c, ws, spec, models).error.None?
    ensures ScanModels(c, ws, spec, models[..|models| - 1]).error.None?
    ensures ScanModels(c, ws, spec, models).contents
      == Appended(ScanModels(c, ws, spec, models[..|models| - 1]).contents,
                  RepoName(models[|models| - 1].name), Yield(ws, spec, models[|models| - 1]))
  {
  }

  /** Two positions of a list of distinct names hold different names. */
  lemma DistinctAt(names: seq<string>, i: nat, j: nat)
    requires Distinct(names) && i < |names| && j < |names| && i != j
    ensures names[i] != names[j]
  {
    if j < i {
      assert names[j] != names[i];
    }
  }

  /** Dropping the last model keeps the repository names distinct, and the
      last model's name is not among the others. */
  lemma ModelRepoNamesInit(models: seq<Model>)
    requires models != [] && Distinct(ModelRepoNames(models))
    ensures Distinct(ModelRepoNames(models[..|models| - 1]))
    ensures RepoName(models[|models| - 1].name) !in ModelRepoNames(models[..|models| - 1])
  {
    var names := ModelRepoNames(models);
    var init := ModelRepoNames(models[..|models| - 1]);
    assert forall j :: 0 <= j < |init| ==> init[j] == names[j];
    assert RepoName(models[|models| - 1].name) == names[|names| - 1];
  }

  /** After an error-free scan of a sheet whose models have distinct
      repository names, each model's repository has gained exactly the
      records of its own block. */
  lemma {:induction false} ScanModelsOwn(c: Contents, ws: Sheet, spec: SheetSpec, models: seq<Model>, k: nat)
    requires k < |models| && Distinct(ModelRepoNames(models))
    requires RepoName(models[k].name) in c
    requires ScanModels(c, ws, spec, models).error.None?
    ensures RepoName(models[k].name) in ScanModels(c, ws, spec, models).contents
    ensures ScanModels(c, ws, spec, models).contents[RepoName(models[k].name)]
      == c[RepoName(models[k].name)] + Yield(ws, spec, models[k])
  {
    var init := models[..|models| - 1];
    var last := models[|models| - 1];
    var n := RepoName(models[k].name);
    var o := ScanModels(c, ws, spec, init).contents;
    ScanModelsStep(c, ws, spec, models);
    ModelRepoNamesInit(models);
    ScanModelsKeys(c, ws, spec, init);
    if k == |models| - 1 {
      ScanModelsOther(c, ws, spec, init, n);
      AppendedAt(o, RepoName(last.name), Yield(ws, spec, last), n);
    } else {
      assert init[k] == models[k];
      ScanModelsOwn(c, ws, spec, init, k);
      assert RepoName(last.name) != n by {
        DistinctAt(ModelRepoNames(models), |models| - 1, k);
      }
      AppendedAt(o, RepoName(last.name), Yield(ws, spec, last), n);
    }
  }

  /** One more model: the scan so far, then, unless it failed, that model's block. */
  lemma ScanModelsNext(c: Contents, ws: Sheet, spec: SheetSpec, models: seq<Model>, k: nat)
    requires k < |models|
    ensures ScanModels(c, ws, spec, models[..k + 1]) ==
      var o := ScanModels(c, ws, spec, models[..k]);
      if o.error.Some? then o else ScanModel(o.contents, ws, spec, models[k])
  {
    assert models[..k + 1][..k] == models[..k];
  }

  /** Once a scan fails, the later models change nothing. */
  lemma {:induction false} ScanModelsStopped(c: Contents, ws: Sheet, spec: SheetSpec, models: seq<Model>, k: nat)
    requires k <= |models| && ScanModels(c, ws, spec, models[..k]).error.Some?
    ensures ScanModels(c, ws, spec, models) == ScanModels(c, ws, spec, models[..k])
    decreases |models| - k
  {
    if k == |models| {
      assert models[..k] == models;
    } else {
      ScanModelsNext(c, ws, spec, models, k);
      ScanModelsStopped(c, ws, spec, models, k + 1);
    }
  }

  /** Loading sheets keeps the set of repositories. */
  lemma {:induction false} LoadSheetsKeys(c: Contents, wb: map<string, Sheet>, sheets: seq<SheetSpec>)
    ensures LoadSheets(c, wb, sheets).contents.Keys == c.Keys
  {
    if sheets != [] {
      var last := sheets[|sheets| - 1];
      var o := LoadSheets(c, wb, sheets[..|sheets| - 1]);
      LoadSheetsKeys(c, wb, sheets[..|sheets| - 1]);
      if o.error.None? && last.name in wb {
        ScanModelsKeys(o.contents, wb[last.name], last, last.models);
      }
    }
  }

  /** Loading sheets leaves alone every repository none of their models owns. */
  lemma {:induction false} LoadSheetsOther(c: Contents, wb: map<string, Sheet>, sheets: seq<SheetSpec>, n: string)
    requires n in c && n !in RepoNames(sheets)
    ensures n in LoadSheets(c, wb, sheets).contents
    ensures LoadSheets(c, wb, sheets).contents[n] == c[n]
  {
    if sheets != [] {
      var init := sheets[..|sheets| - 1];
      var last := sheets[|sheets| - 1];
      var o := LoadSheets(c, wb, init);
      LoadSheetsOther(c, wb, init, n);
      if o.error.None? && last.name in wb {
        ScanModelsOther(o.contents, wb[last.name], last, last.models, n);
      }
    }
  }

  /** An error-free load of several sheets is an error-free load of all but
      the last, followed by a scan of the last sheet, which is present. */
  lemma LoadSheetsStep(c: Contents, wb: map<string, Sheet>, sheets: seq<SheetSpec>)
    requires sheets != [] && LoadSheets(c, wb, sheets).error.None?
    ensures LoadSheets(c, wb, sheets[..|sheets| - 1]).error.None?
    ensures sheets[|sheets| - 1].name in wb
    ensures LoadSheets(c, wb, sheets)
      == ScanModels(LoadSheets(c, wb, sheets[..|sheets| - 1]).contents,
                    wb[sheets[|sheets| - 1].name], sheets[|sheets| - 1], sheets[|sheets| - 1].models)
  {
  }

  /** Dropping the last sheet keeps the repository names distinct, and the
      last sheet's own names are distinct. */
  lemma RepoNamesInit(sheets: seq<SheetSpec>)
    requires sheets != [] && Distinct(RepoNames(sheets))
    ensures Distinct(RepoNames(sheets[..|sheets| - 1]))
    ensures Distinct(ModelRepoNames(sheets[|sheets| - 1].models))
  {
    var names := RepoNames(sheets);
    var initNames := RepoNames(sheets[..|sheets| - 1]);
    var lastNames := ModelRepoNames(sheets[|sheets| - 1].models);
    assert names == initNames + lastNames;
    assert forall j :: 0 <= j < |initNames| ==> initNames[j] == names[j];
    assert forall j :: 0 <= j < |lastNames| ==> lastNames[j] == names[|initNames| + j];
  }

  /** With distinct repository names, no name of the last sheet's models is
      also the name of an earlier sheet's model. */
  lemma {:induction false} RepoNamesLast(sheets: seq<SheetSpec>, n: string)
    requires sheets != [] && Distinct(RepoNames(sheets))
    requires n in ModelRepoNames(sheets[|sheets| - 1].models)
    ensures n !in RepoNames(sheets[..|sheets| - 1])
  {
    var names := RepoNames(sheets);
    var initNames := RepoNames(sheets[..|sheets| - 1]);
    var lastNames := ModelRepoNames(sheets[|sheets| - 1].models);
    assert names == initNames + lastNames;
    DistinctParts(initNames, lastNames, n);
  }

  /** One more sheet: the load so far, then, unless it failed, that sheet. */
  lemma LoadSheetsNext(c: Contents, wb: map<string, Sheet>, sheets: seq<SheetSpec>, i: nat)
    requires i < |sheets|
    ensures LoadSheets(c, wb, sheets[..i + 1]) ==
      var o := LoadSheets(c, wb, sheets[..i]);
      if o.error.Some? then o else LoadSheet(o.contents, wb, sheets[i])
  {
    assert sheets[..i + 1][..i] == sheets[..i];
  }

  /** Once a load fails, the later sheets change nothing. */
  lemma {:induction false} LoadSheetsStopped(c: Contents, wb: map<string, Sheet>, sheets: seq<SheetSpec>, i: nat)
    requires i <= |sheets| && LoadSheets(c, wb, sheets[..i]).error.Some?
    ensures LoadSheets(c, wb, sheets) == LoadSheets(c, wb, sheets[..i])
    decreases |sheets| - i
  {
    if i == |sheets| {
      assert sheets[..i] == sheets;
    } else {
      LoadSheetsNext(c, wb, sheets, i);
      LoadSheetsStopped(c, wb, sheets, i + 1);
    }
  }

  /** A sheet missing from the workbook makes the load fail: with the
      missing-sheet error when the sheets before it loaded cleanly. */
  lemma LoadSheetsMissing(c: Contents, wb: map<string, Sheet>, sheets: seq<SheetSpec>, i: nat)
    requires i < |sheets| && sheets[i].name !in wb
    ensures LoadSheets(c, wb, sheets).error.Some?
    ensures LoadSheets(c, wb, sheets[..i]).error.None? ==>
      LoadSheets(c, wb, sheets).error == Some(MissingSheet(sheets[i].name))
  {
    LoadSheetsNext(c, wb, sheets, i);
    LoadSheetsStopped(c, wb, sheets, i + 1);
  }

  /** Without an error, every sheet was found, and loading has appended to
      the repository of each model of each sheet exactly the records of
      that model's block on that sheet, provided the repository names are
      distinct, as the constructor ensures. */
  lemma {:induction false} LoadSheetsOwn(c: Contents, wb: map<string, Sheet>, sheets: seq<SheetSpec>, i: nat, k: nat)
    requires i < |sheets| && k < |sheets[i].models|
    requires Distinct(RepoNames(sheets))
    requires RepoName(sheets[i].models[k].name) in c
    requires LoadSheets(c, wb, sheets).error.None?
    ensures sheets[i].name in wb
    ensures RepoName(sheets[i].models[k].name) in LoadSheets(c, wb, sheets).contents
    ensures LoadSheets(c, wb, sheets).contents[RepoName(sheets[i].models[k].name)]
      == c[RepoName(sheets[i].models[k].name)] + Yield(wb[sheets[i].name], sheets[i], sheets[i].models[k])
  {
    var init := sheets[..|sheets| - 1];
    var last := sheets[|sheets| - 1];
    var n := RepoName(sheets[i].models[k].name);
    var o := LoadSheets(c, wb, init).contents;
    LoadSheetsStep(c, wb, sheets);
    RepoNamesInit(sheets);
    LoadSheetsKeys(c, wb, init);
    if i == |sheets| - 1 {
      assert n in ModelRepoNames(last.models) by {
        assert ModelRepoNames(last.models)[k] == n;
      }
      RepoNamesLast(sheets, n);
      LoadSheetsOther(c, wb, init, n);
      ScanModelsOwn(o, wb[last.name], last, last.models, k);
    } else {
      assert init[i] == sheets[i];
      LoadSheetsOwn(c, wb, init, i, k);
      RepoNamesHas(init, i, k);
      assert n !in ModelRepoNames(last.models) by {
        if n in ModelRepoNames(last.models) {
          RepoNamesLast(sheets, n);
        }
      }
      ScanModelsOther(o, wb[last.name], last, last.models, n);
    }
  }

  /** A load into freshly emptied repositories that ends without an error
      leaves each model's repository holding exactly the records of that
      model's block on its sheet, and every declared sheet was present. */
  lemma LoadFromEmpty(names: set<string>, wb: map<string, Sheet>, sheets: seq<SheetSpec>, i: nat, k: nat)
    requires forall n :: n in names <==> n in RepoNames(sheets)
    requires FirstClash(RepoNames(sheets), RESERVED).None?
    requires LoadSheets(Cleared(names), wb, sheets).error.None?
    requires i < |sheets| && k < |sheets[i].models|
    ensures sheets[i].name in wb
    ensures RepoName(sheets[i].models[k].name) in LoadSheets(Cleared(names), wb, sheets).contents
    ensures LoadSheets(Cleared(names), wb, sheets).contents[RepoName(sheets[i].models[k].name)]
      == Yield(wb[sheets[i].name], sheets[i], sheets[i].models[k])
  {
    FirstClashNone(RepoNames(sheets), RESERVED);
    RepoNamesHas(sheets, i, k);
    LoadSheetsOwn(Cleared(names), wb, sheets, i, k);
  }

  /** A repository for each of the names and for no other. */
  ghost predicate Covers(repos: map<string, Repository>, names: seq<string>) {
    forall n :: n in repos <==> n in names
  }

  /** No repository is shared by two names. */
  ghost predicate Injective(repos: map<string, Repository>) {
    forall a, b :: a in repos && b in repos && a != b ==> repos[a] != repos[b]
  }

  /** Adding a new name with a repository no other name holds keeps the
      map covering the names and injective. */
  lemma CoversInsert(repos: map<string, Repository>, names: seq<string>, name: string, repo: Repository)
    requires Covers(repos, names) && Injective(repos) && name !in repos
    requires forall n :: n in repos ==> repos[n] != repo
    ensures Covers(repos[name := repo], names + [name]) && Injective(repos[name := repo])
  {
  }

  // ------------------------------------------------------------ the file

  /** `ExcelFile`: the declared sheets, and one repository per model, which
      the object also exposes as an attribute named by the model's
      repository name. */
  class ExcelFile {
    const sheets: seq<SheetSpec>
    const repos: map<string, Repository>

    constructor Init(sheets: seq<SheetSpec>, repos: map<string, Repository>)
      ensures this.sheets == sheets && this.repos == repos
    {
      this.sheets := sheets;
      this.repos := repos;
    }

    /** A repository for exactly the models' repository names, none of them
        refused, and no repository shared by two names. */
    ghost predicate Valid() {
      Covers(repos, RepoNames(sheets))
      && FirstClash(RepoNames(sheets), RESERVED).None?
      && Injective(repos)
    }

    /** What the repositories hold, by repository name. */
    function Held(): Contents
      reads repos.Values
    {
      map n | n in repos :: repos[n].items
    }

    /** `__init__`: visit the models of the sheets in order and give each a
        fresh, empty repository under its repository name, refusing a name
        that is already an attribute of the file. */
    static method Create(sheets: seq<SheetSpec>) returns (r: Result<ExcelFile, Error>)
      ensures r.Err? <==> FirstClash(RepoNames(sheets), RESERVED).Some?
      ensures r.Err? ==> r.error == DuplicateRepoName(FirstClash(RepoNames(sheets), RESERVED).value)
      ensures r.Ok? ==> fresh(r.value) && fresh(r.value.repos.Values)
      ensures r.Ok? ==> r.value.sheets == sheets && r.value.Valid()
      ensures r.Ok? ==> r.value.Held() == Cleared(r.value.repos.Keys)
    {
      var repos: map<string, Repository> := map[];
      var i := 0;
      assert sheets[..0] == [];
      while i < |sheets|
        invariant 0 <= i <= |sheets|
        invariant FirstClash(RepoNames(sheets[..i]), RESERVED).None?
        invariant Covers(repos, RepoNames(sheets[..i])) && Injective(repos)
        invariant forall n :: n in repos ==> fresh(repos[n]) && repos[n].items == []
      {
        assert RepoNames(sheets[..i + 1]) == RepoNames(sheets[..i]) + ModelRepoNames(sheets[i].models) by {
          assert sheets[..i + 1][..i] == sheets[..i];
        }
        var added := AddSheet(sheets[i].models, RESERVED, RepoNames(sheets[..i]), repos);
        if added.Err? {
          RepoNamesPrefix(sheets, i + 1);
          FirstClashPrefix(RepoNames(sheets[..i + 1]), RepoNames(sheets), RESERVED);
          return Err(added.error);
        }
        repos := added.value;
        i := i + 1;
      }
      assert sheets[..i] == sheets;
      var file := new ExcelFile.Init(sheets, repos);
      assert file.Held() == Cleared(repos.Keys);
      r := Ok(file);
    }

    /** The inner loop of `__init__`, over one sheet's models: a fresh,
        empty repository for each of their names, unless one is refused;
        `seen` are the names visited before. */
    static method AddSheet(models: seq<Model>, taken: set<string>, ghost seen: seq<string>, repos0: map<string, Repository>)
      returns (r: Result<map<string, Repository>, Error>)
      requires FirstClash(seen, taken).None? && Covers(repos0, seen) && Injective(repos0)
      ensures r.Err? ==> FirstClash(seen + ModelRepoNames(models), taken).Some?
      ensures r.Err? ==> r.error == DuplicateRepoName(FirstClash(seen + ModelRepoNames(models), taken).value)
      ensures r.Ok? ==> FirstClash(seen + ModelRepoNames(models), taken).None?
      ensures r.Ok? ==> Covers(r.value, seen + ModelRepoNames(models)) && Injective(r.value)
      ensures r.Ok? ==> forall n :: n in r.value ==>
        (n in repos0 && r.value[n] == repos0[n]) || (fresh(r.value[n]) && r.value[n].items == [])
    {
      var repos := repos0;
      var j := 0;
      ghost var names := ModelRepoNames(models);
      PrefixEnds(seen, names);
      while j < |models|
        invariant 0 <= j <= |models|
        invariant FirstClash(seen + names[..j], taken).None?
        invariant Covers(repos, seen + names[..j]) && Injective(repos)
        invariant forall n :: n in repos ==>
          (n in repos0 && repos[n] == repos0[n]) || (fresh(repos[n]) && repos[n].items == [])
      {
        var name := RepoName(models[j].name);
        ghost var v := seen + names[..j];
        PrefixSnoc(seen, names, j);
        FirstClashSnoc(v, name, taken);
        if name in taken || name in repos {
          FirstClashPrefix(v + [name], seen + names, taken);
          return Err(DuplicateRepoName(name));
        }
        var repo := new Repository();
        CoversInsert(repos, v, name, repo);
        repos := repos[name := repo];
        j := j + 1;
      }
      r := Ok(repos);
    }

    /** One pass of `_parse_sheet`'s model loop: find the model's header
        and, when found, scan the rows under it into the model's repository. */
    method ParseBlock(ws: Sheet, spec: SheetSpec, m: Model) returns (err: Option<Error>)
      requires Valid() && RepoName(m.name) in repos
      modifies repos[RepoName(m.name)]
      ensures Outcome(Held(), err) == ScanModel(old(Held()), ws, spec, m)
    {
      var name := RepoName(m.name);
      var found := FindHeader(ws, spec, m);
      if found.None? {
        AppendedNothing(Held(), name);
        return None;
      }
      var startCol := found.value.1;
      var repo := repos[name];
      ghost var before := Held();
      err := ScanRows(repo, ws, m, startCol, spec.dataStartRow);
      ghost var recs := LoadRows(ws, m, startCol, spec.dataStartRow).records;
      forall n | n in repos
        ensures repos[n].items == Appended(before, name, recs)[n]
      {
        if n != name {
          assert repos[n] != repo;
        }
      }
      assert Held() == Appended(before, name, recs);
    }

    /** `_parse_sheet`: the blocks of the sheet's models in order, stopping
        at the first failure. */
    method ParseSheet(ws: Sheet, spec: SheetSpec) returns (err: Option<Error>)
      requires Valid()
      requires forall k :: 0 <= k < |spec.models| ==> RepoName(spec.models[k].name) in repos
      modifies repos.Values
      ensures Outcome(Held(), err) == ScanModels(old(Held()), ws, spec, spec.models)
    {
      ghost var c0 := Held();
      var k := 0;
      assert spec.models[..0] == [];
      while k < |spec.models|
        invariant 0 <= k <= |spec.models|
        invariant ScanModels(c0, ws, spec, spec.models[..k]) == Outcome(Held(), None)
      {
        ScanModelsNext(c0, ws, spec, spec.models, k);
        var e := ParseBlock(ws, spec, spec.models[k]);
        if e.Some? {
          ScanModelsStopped(c0, ws, spec, spec.models, k + 1);
          return e;
        }
        k := k + 1;
      }
      assert spec.models[..k] == spec.models;
      err := None;
    }

    /** The first loop of `load_data`: every repository emptied. */
    method ClearAll()
      requires Valid()
      modifies repos.Values
      ensures Held() == Cleared(repos.Keys)
    {
      var pending := repos.Keys;
      while pending != {}
        invariant pending <= repos.Keys
        invariant forall n :: n in repos && n !in pending ==> repos[n].items == []
        decreases pending
      {
        var n :| n in pending;
        repos[n].Clear();
        pending := pending - {n};
      }
      assert Held() == Cleared(repos.Keys);
    }

    /** `load_data`: empty every repository, then parse the declared sheets
        in order from the workbook, which must contain each of them;
        the first failure ends the load. */
    method LoadData(wb: map<string, Sheet>) returns (err: Option<Error>)
      requires Valid()
      modifies repos.Values
      ensures Outcome(Held(), err) == LoadSheets(Cleared(repos.Keys), wb, sheets)
    {
      ClearAll();
      ghost var c0 := Held();
      var i := 0;
      assert sheets[..0] == [];
      while i < |sheets|
        invariant 0 <= i <= |sheets|
        invariant LoadSheets(c0, wb, sheets[..i]) == Outcome(Held(), None)
      {
        var spec := sheets[i];
        LoadSheetsNext(c0, wb, sheets, i);
        if spec.name !in wb {
          LoadSheetsStopped(c0, wb, sheets, i + 1);
          return Some(MissingSheet(spec.name));
        }
        forall k | 0 <= k < |spec.models|
          ensures RepoName(spec.models[k].name) in repos
        {
          RepoNamesHas(sheets, i, k);
        }
        err := ParseSheet(wb[spec.name], spec);
        if err.Some? {
          LoadSheetsStopped(c0, wb, sheets, i + 1);
          return;
        }
        i := i + 1;
      }
      assert sheets[..i] == sheets;
      err := None;
    }
  }
}
