/** Raw spreadsheet values, as the spreadsheet library hands them to the
    mapping engine, and the error kinds the engine raises. */
module Cells {
  import opened Wrappers
  import opened Text

  datatype CivilDate = CivilDate(year: nat, month: nat, day: nat)

  datatype ClockTime = ClockTime(hour: nat, minute: nat, second: nat, micro: nat)

  predicate IsLeapYear(y: nat) {
    y % 4 == 0 && (y % 100 != 0 || y % 400 == 0)
  }

  function DaysInMonth(y: nat, m: nat): (n: nat)
    requires 1 <= m <= 12
    ensures 28 <= n <= 31
  {
    if m == 2 then (if IsLeapYear(y) then 29 else 28)
    else if m == 4 || m == 6 || m == 9 || m == 11 then 30
    else 31
  }

  /** The dates Python's `date` type can hold. */
  predicate ValidDate(d: CivilDate) {
    1 <= d.year <= 9999 && 1 <= d.month <= 12 && 1 <= d.day <= DaysInMonth(d.year, d.month)
  }

  predicate ValidTime(t: ClockTime) {
    t.hour < 24 && t.minute < 60 && t.second < 60 && t.micro < 1000000
  }

  /** A cell's raw value: `None`, a string, an integer, a boolean, a date
      or a date-time. */
  datatype Cell =
    | Empty
    | Str(s: string)
    | Int(i: int)
    | Bool(b: bool)
    | Date(date: CivilDate)
    | DateTime(date: CivilDate, time: ClockTime)

  predicate ValidCell(c: Cell) {
    match c
    case Date(d) => ValidDate(d)
    case DateTime(d, t) => ValidDate(d) && ValidTime(t)
    case _ => true
  }

  /** Python's `==` between two raw values: a boolean equals the integer
      0 or 1 it stands for; values of different kinds are otherwise unequal
      (a date-time never equals a date). */
  predicate PyEq(a: Cell, b: Cell) {
    match (a, b)
    case (Bool(x), Int(i)) => i == (if x then 1 else 0)
    case (Int(i), Bool(x)) => i == (if x then 1 else 0)
    case _ => a == b
  }

  /** Python's `v in s` for a set of raw values: `v` itself is in `s`, or
      the integer or boolean Python holds equal to it is. */
  predicate InSet(v: Cell, s: set<Cell>) {
    v in s
    || (v.Bool? && Int(if v.b then 1 else 0) in s)
    || (v.Int? && (v.i == 0 || v.i == 1) && Bool(v.i == 1) in s)
  }

  /** `v in s` holds exactly when some member of `s` is equal to `v`. */
  lemma InSetIff(v: Cell, s: set<Cell>)
    ensures InSet(v, s) <==> exists e :: e in s && PyEq(v, e)
  {
    if InSet(v, s) {
      if v in s {
        assert PyEq(v, v);
      } else if v.Bool? {
        assert PyEq(v, Int(if v.b then 1 else 0));
      } else {
        assert PyEq(v, Bool(v.i == 1));
      }
    }
  }

  /** `date.isoformat()`: YYYY-MM-DD. */
  function DateText(d: CivilDate): string {
    ZeroPad(d.year, 4) + "-" + ZeroPad(d.month, 2) + "-" + ZeroPad(d.day, 2)
  }

  /** `str(datetime)`: the date, a space, HH:MM:SS and the microseconds
      when there are any. */
  function DateTimeText(d: CivilDate, t: ClockTime): string {
    DateText(d) + " " + ZeroPad(t.hour, 2) + ":" + ZeroPad(t.minute, 2) + ":" + ZeroPad(t.second, 2)
    + (if t.micro == 0 then "" else "." + ZeroPad(t.micro, 6))
  }

  /** Python's `str(v)` for a raw value. */
  function Stringify(v: Cell): string {
    match v
    case Empty => "None"
    case Str(s) => s
    case Int(i) => IntToDecimal(i)
    case Bool(b) => if b then "True" else "False"
    case Date(d) => DateText(d)
    case DateTime(d, t) => DateTimeText(d, t)
  }

  /** The text of a date starts and ends with a digit. */
  lemma DateTextShape(d: CivilDate)
    ensures var r := DateText(d); |r| > 0 && IsDigit(r[0]) && IsDigit(r[|r| - 1])
  {
    ZeroPadShape(d.year, 4);
    ZeroPadShape(d.day, 2);
    var r := DateText(d);
    var y := ZeroPad(d.year, 4);
    var dd := ZeroPad(d.day, 2);
    assert r == y + ("-" + ZeroPad(d.month, 2) + "-" + dd);
    assert r[0] == y[0];
    assert r[|r| - 1] == dd[|dd| - 1];
  }

  /** The text of a date and time starts and ends with a digit. */
  lemma DateTimeTextShape(d: CivilDate, t: ClockTime)
    ensures var r := DateTimeText(d, t); |r| > 0 && IsDigit(r[0]) && IsDigit(r[|r| - 1])
  {
    DateTextShape(d);
    var dt := DateText(d);
    var last := if t.micro == 0 then ZeroPad(t.second, 2) else ZeroPad(t.micro, 6);
    ZeroPadShape(t.second, 2);
    ZeroPadShape(t.micro, 6);
    var r := DateTimeText(d, t);
    assert r[0] == dt[0];
    assert r[|r| - 1] == last[|last| - 1];
  }

  /** Only a string's text can be empty or start or end with whitespace. */
  lemma StringifyShape(v: Cell)
    requires !v.Str?
    ensures var r := Stringify(v); |r| > 0 && !IsSpace(r[0]) && !IsSpace(r[|r| - 1])
  {
    var r := Stringify(v);
    if v.Int? {
      IntToDecimalShape(v.i);
    } else if v.Date? {
      DateTextShape(v.date);
    } else if v.DateTime? {
      DateTimeTextShape(v.date, v.time);
    }
    assert PlainEdge(r[0]) && PlainEdge(r[|r| - 1]);
    PlainEdgeNotSpace(r[0]);
    PlainEdgeNotSpace(r[|r| - 1]);
  }

  /** A digit, a minus sign or an ASCII letter. */
  predicate PlainEdge(c: char) {
    IsDigit(c) || c == '-' || ('A' <= c <= 'Z') || ('a' <= c <= 'z')
  }

  lemma PlainEdgeNotSpace(c: char)
    requires PlainEdge(c)
    ensures !IsSpace(c)
  {
  }

  /** `_normalize_header`: `None` becomes the empty string, anything else
      its trimmed text. Only a string can carry surrounding whitespace, so
      the other kinds are their text as it is (`NormalizeHeaderIsStrip`). */
  function NormalizeHeader(v: Cell): string {
    match v
    case Empty => ""
    case Str(s) => Strip(s)
    case _ => Stringify(v)
  }

  /** `_normalize_header(v)` is `str(v).strip()` for every value but `None`. */
  lemma NormalizeHeaderIsStrip(v: Cell)
    ensures NormalizeHeader(v) == if v == Empty then "" else Strip(Stringify(v))
  {
    if !v.Empty? && !v.Str? {
      StringifyShape(v);
      StripFixed(Stringify(v));
    }
  }

  /** The expected label of a declared header, which may be absent. */
  function HeaderLabel(header: Option<string>): string {
    match header
    case None => NormalizeHeader(Empty)
    case Some(h) => NormalizeHeader(Str(h))
  }

  /** A value `_normalize_header` turns into "": `None` or a string of
      whitespace only (`BlankValueIff`). */
  predicate IsBlank(v: Cell) {
    v == Empty || (v.Str? && AllSpace(v.s))
  }

  /** `_row_is_blank`: every value of the row is blank. */
  predicate RowIsBlank(vs: seq<Cell>) {
    forall i :: 0 <= i < |vs| ==> IsBlank(vs[i])
  }

  /** A value normalises to "" exactly when it is `None` or a
      whitespace-only string: numbers, booleans and dates never do. */
  lemma BlankValueIff(v: Cell)
    ensures NormalizeHeader(v) == "" <==> IsBlank(v)
  {
    if v.Str? {
      StripEmptyIff(v.s);
    } else if !v.Empty? {
      StringifyShape(v);
    }
  }

  /** `_row_is_blank(vs)` holds exactly when every value normalises to "". */
  lemma RowIsBlankIff(vs: seq<Cell>)
    ensures RowIsBlank(vs) <==> forall i :: 0 <= i < |vs| ==> NormalizeHeader(vs[i]) == ""
  {
    forall i | 0 <= i < |vs| { BlankValueIff(vs[i]); }
  }

  /** The errors the mapping engine raises. Python raises `ValueError` (or
      `TypeError`) with a message for each; the constructor carries the data
      that message shows. */
  datatype Error =
    | EmptyDate                                  // "Date Value was empty"
    | InvalidDate(raw: Cell)                     // "Invalid date value: <raw>"
    | InvalidBool(raw: Cell)                     // "Invalid boolean: <raw>"
    | InvalidInt(raw: Cell)                      // int(raw) failed
    | ParserRejected(raw: Cell)                  // a custom parser raised
    | NullValue(field: string)                   // "<field> cannot be null/empty"
    | ValidatorRejected(field: string, value: Cell)  // a custom validator raised
    | RecordRejected(values: map<string, Cell>)  // the record's validate() raised
    | DuplicateRepoName(name: string)            // "Duplicate repo name ..."
    | MissingSheet(name: string)                 // "Workbook missing sheet ..."
}
