/** The column type system: what a column declares (`ColumnSpec`), the
    built-in coercions from a raw cell value to a typed value, field
    validation, and the record whose fields a bound column sets. */
module Columns {
  import opened Wrappers
  import opened Text
  import opened Cells
  import opened DateFormats

  /** A column's declaration. A parser turns a raw cell value into the
      field's value or fails with an error (Python's raises); an absent
      exclusion set is the empty set; a validator answers whether it accepts
      a value (Python's raises when it does not). */
  datatype ColumnSpec = ColumnSpec(
    header: Option<string>,
    default: Cell,
    notNull: bool,
    excludes: set<Cell>,
    parser: Cell -> Result<Cell, Error>,
    validator: Cell -> bool)

  /** A bare `ColumnSpec()`: no header, no default, the identity parser and
      a validator that accepts everything. */
  function PlainSpec(): (s: ColumnSpec)
    ensures s.header.None? && s.default == Empty && !s.notNull && s.excludes == {}
    ensures forall raw :: s.parser(raw) == Ok(raw) && s.validator(raw)
  {
    ColumnSpec(None, Empty, false, {}, raw => Ok(raw), _ => true)
  }

  /** A column bound to the name of the field it stores. */
  datatype Column = Column(name: string, spec: ColumnSpec) {

    /** `parse_cell`: the column's parser applied to a raw value. */
    function ParseCell(raw: Cell): Result<Cell, Error> {
      spec.parser(raw)
    }

    /** `validate`: a not-null column refuses `None` and "", then the
        column's own validator has its say. */
    function Validate(value: Cell): (r: Option<Error>)
      ensures r == Some(NullValue(name)) <==> spec.notNull && (value == Empty || value == Str(""))
      ensures r == Some(ValidatorRejected(name, value)) <==>
        !(spec.notNull && (value == Empty || value == Str(""))) && !spec.validator(value)
      ensures r == None <==>
        !(spec.notNull && (value == Empty || value == Str(""))) && spec.validator(value)
    {
      if spec.notNull && (value == Empty || value == Str("")) then Some(NullValue(name))
      else if !spec.validator(value) then Some(ValidatorRejected(name, value))
      else None
    }

    /** `__get__`: the field's stored value, `None` when it has none. */
    function Get(obj: Record): (r: Cell)
      reads obj
      ensures name in obj.values ==> r == obj.values[name]
      ensures name !in obj.values ==> r == Empty
    {
      if name in obj.values then obj.values[name] else Empty
    }

    /** `__set__`: validate, and store only when validation passes, so a
        refused value leaves the record as it was. */
    method Set(obj: Record, value: Cell) returns (err: Option<Error>)
      modifies obj
      ensures err == Validate(value)
      ensures err.None? ==> obj.values == old(obj.values)[name := value] && Get(obj) == value
      ensures err.Some? ==> obj.values == old(obj.values)
    {
      err := Validate(value);
      if err.None? {
        obj.values := obj.values[name := value];
      }
    }
  }

  /** A record: its fields live in one map from field name to value. */
  class Record {
    var values: map<string, Cell>

    constructor(defaults: map<string, Cell>)
      ensures values == defaults
    {
      values := defaults;
    }
  }

  /** The `parse` closure of `text_column`: `None` is "", anything else its
      text, trimmed exactly when `strip` is set. */
  function ParseText(raw: Cell, strip: bool): (r: string)
    ensures raw == Empty ==> r == ""
    ensures raw.Str? && !strip ==> r == raw.s
    ensures raw != Empty && !strip ==> r == Stringify(raw)
    ensures strip ==> r == [] || (!IsSpace(r[0]) && !IsSpace(r[|r| - 1]))
    ensures strip && raw != Empty ==> r == Strip(Stringify(raw))
  {
    if raw == Empty then ""
    else
      var s := Stringify(raw);
      if strip then Strip(s) else s
  }

  /** Parsing text a second time changes nothing. */
  lemma ParseTextIdempotent(raw: Cell, strip: bool)
    ensures ParseText(Str(ParseText(raw, strip)), strip) == ParseText(raw, strip)
  {
    if strip && raw != Empty {
      StripIdempotent(Stringify(raw));
    }
  }

  /** The `parse` closure of `int_column`: `None` and "" are 0, integers
      and booleans convert, a string must spell a base-10 integer; anything
      else raises. */
  function ParseInt(raw: Cell): (r: Result<int, Error>)
    ensures raw == Empty || raw == Str("") ==> r == Ok(0)
    ensures raw.Int? ==> r == Ok(raw.i)
    ensures raw.Bool? ==> r == Ok(if raw.b then 1 else 0)
    ensures raw.Str? && raw.s != "" ==> r.Ok? == ParseInteger(raw.s).Some?
    ensures raw.Str? && raw.s != "" && r.Ok? ==> r.value == ParseInteger(raw.s).value
    ensures raw.Date? || raw.DateTime? ==> r.Err?
    ensures r.Err? ==> r.error == InvalidInt(raw)
  {
    match raw
    case Empty => Ok(0)
    case Str(s) =>
      if s == "" then Ok(0)
      else (match ParseInteger(s)
            case Some(v) => Ok(v)
            case None => Err(InvalidInt(raw)))
    case Int(i) => Ok(i)
    case Bool(b) => Ok(if b then 1 else 0)
    case Date(_) => Err(InvalidInt(raw))
    case DateTime(_, _) => Err(InvalidInt(raw))
  }

  /** An integer written as text parses back to itself. */
  lemma ParseIntOfItsText(i: int)
    ensures ParseInt(Str(Stringify(Int(i)))) == Ok(i)
  {
    IntDecimalRoundTrip(i);
  }

  const TRUE_WORDS: set<string> := {"true", "t", "yes", "y", "1"}
  const FALSE_WORDS: set<string> := {"false", "f", "no", "n", "0"}

  /** The word a boolean cell is judged by: its text, trimmed, lower-cased. */
  function BoolWord(raw: Cell): string {
    Lower(Strip(Stringify(raw)))
  }

  /** The `parse` closure of `bool_column`. */
  function ParseBool(raw: Cell): (r: Result<bool, Error>)
    ensures r == Ok(true) <==>
      raw == Bool(true) || (raw != Empty && raw != Str("") && !raw.Bool? && BoolWord(raw) in TRUE_WORDS)
    ensures r == Ok(false) <==>
      raw == Empty || raw == Str("") || raw == Bool(false)
      || (raw != Empty && raw != Str("") && !raw.Bool? && BoolWord(raw) in FALSE_WORDS)
    ensures r.Err? <==>
      raw != Empty && raw != Str("") && !raw.Bool? && BoolWord(raw) !in TRUE_WORDS + FALSE_WORDS
    ensures r.Err? ==> r.error == InvalidBool(raw)
  {
    assert TRUE_WORDS !! FALSE_WORDS;
    if raw == Empty || raw == Str("") then Ok(false)
    else if raw.Bool? then Ok(raw.b)
    else
      var w := BoolWord(raw);
      if w in TRUE_WORDS then Ok(true)
      else if w in FALSE_WORDS then Ok(false)
      else Err(InvalidBool(raw))
  }

  /** The `parse` closure of `date_column`. */
  function ParseDate(raw: Cell): (r: Result<CivilDate, Error>)
    ensures r == Err(EmptyDate) <==> raw == Empty || (raw.Str? && AllSpace(raw.s))
    ensures raw.Date? || raw.DateTime? ==> r == Ok(raw.date)
    ensures r.Err? ==> r.error == EmptyDate || r.error == InvalidDate(raw)
    ensures ValidCell(raw) && r.Ok? ==> ValidDate(r.value)
    ensures !raw.Date? && !raw.DateTime? && r != Err(EmptyDate) ==>
      r == (match ParseDateText(Strip(Stringify(raw)))
            case Some(d) => Ok(d)
            case None => Err(InvalidDate(raw)))
  {
    NormalizeHeaderIsStrip(raw);
    BlankValueIff(raw);
    if raw == Empty || raw == Str("") then Err(EmptyDate)
    else if raw.Date? then Ok(raw.date)
    else if raw.DateTime? then Ok(raw.date)
    else
      var s := Strip(Stringify(raw));
      if s == "" then Err(EmptyDate)
      else match ParseDateText(s)
        case Some(d) => Ok(d)
        case None => Err(InvalidDate(raw))
  }

  /** `text_column(...)`: a column reading text. */
  function TextColumn(header: Option<string>, default: Cell, strip: bool, notNull: bool): (s: ColumnSpec)
    ensures s.header == header && s.default == default && s.notNull == notNull && s.excludes == {}
    ensures forall raw :: s.parser(raw) == Ok(Str(ParseText(raw, strip))) && s.validator(raw)
  {
    ColumnSpec(header, default, notNull, {}, raw => Ok(Str(ParseText(raw, strip))), _ => true)
  }

  /** `int_column(...)`: a column reading integers. */
  function IntColumn(header: Option<string>, default: Cell, notNull: bool): (s: ColumnSpec)
    ensures s.header == header && s.default == default && s.notNull == notNull && s.excludes == {}
    ensures forall raw :: (s.parser(raw).Ok? <==> ParseInt(raw).Ok?) && s.validator(raw)
    ensures forall raw :: ParseInt(raw).Ok? ==> s.parser(raw) == Ok(Int(ParseInt(raw).value))
    ensures forall raw :: ParseInt(raw).Err? ==> s.parser(raw) == Err(ParseInt(raw).error)
  {
    ColumnSpec(header, default, notNull, {}, raw => Lift(ParseInt(raw), v => Int(v)), _ => true)
  }

  /** `bool_column(...)`: a column reading booleans. */
  function BoolColumn(header: Option<string>, default: Cell): (s: ColumnSpec)
    ensures s.header == header && s.default == default && !s.notNull && s.excludes == {}
    ensures forall raw :: (s.parser(raw).Ok? <==> ParseBool(raw).Ok?) && s.validator(raw)
    ensures forall raw :: ParseBool(raw).Ok? ==> s.parser(raw) == Ok(Bool(ParseBool(raw).value))
    ensures forall raw :: ParseBool(raw).Err? ==> s.parser(raw) == Err(ParseBool(raw).error)
  {
    ColumnSpec(header, default, false, {}, raw => Lift(ParseBool(raw), v => Bool(v)), _ => true)
  }

  /** `date_column(...)`: a column reading dates. */
  function DateColumn(header: Option<string>, default: Cell): (s: ColumnSpec)
    ensures s.header == header && s.default == default && !s.notNull && s.excludes == {}
    ensures forall raw :: (s.parser(raw).Ok? <==> ParseDate(raw).Ok?) && s.validator(raw)
    ensures forall raw :: ParseDate(raw).Ok? ==> s.parser(raw) == Ok(Date(ParseDate(raw).value))
    ensures forall raw :: ParseDate(raw).Err? ==> s.parser(raw) == Err(ParseDate(raw).error)
  {
    ColumnSpec(header, default, false, {}, raw => Lift(ParseDate(raw), v => Date(v)), _ => true)
  }

  /** A typed parse result as a raw value. */
  function Lift<T>(r: Result<T, Error>, f: T -> Cell): Result<Cell, Error> {
    match r
    case Ok(v) => Ok(f(v))
    case Err(e) => Err(e)
  }

  /** A column reading text gives back, when it reads its own result
      again, that same text. */
  lemma TextColumnCellStable(name: string, header: Option<string>, default: Cell, strip: bool, notNull: bool, raw: Cell)
    ensures var c := Column(name, TextColumn(header, default, strip, notNull));
      c.ParseCell(raw).Ok? && c.ParseCell(c.ParseCell(raw).value) == c.ParseCell(raw)
  {
    ParseTextIdempotent(raw, strip);
  }

  /** A column reading integers reads an integer's text back as that
      integer, and reads an integer cell as itself. */
  lemma IntColumnCellRoundTrip(name: string, header: Option<string>, default: Cell, notNull: bool, i: int)
    ensures var c := Column(name, IntColumn(header, default, notNull));
      c.ParseCell(Str(Stringify(Int(i)))) == Ok(Int(i)) && c.ParseCell(Int(i)) == Ok(Int(i))
  {
    ParseIntOfItsText(i);
  }

  /** Integer coercion: "2019" is 2019. */
  lemma IntOfYearText()
    ensures ParseInt(Str("2019")) == Ok(2019)
  {
    StripFixed("2019");
    DecimalValue4('2', '0', '1', '9');
    assert "2019" == ['2', '0', '1', '9'];
  }

  lemma BoolWordOf(s: string)
    requires s == [] || (!IsSpace(s[0]) && !IsSpace(s[|s| - 1]))
    ensures BoolWord(Str(s)) == Lower(s)
  {
    StripFixed(s);
  }

  /** Boolean coercion: "Y" is true. */
  lemma BoolOfY()
    ensures ParseBool(Str("Y")) == Ok(true)
  {
    BoolWordOf("Y");
    assert Lower("Y") == "y";
  }

  /** Boolean coercion: "0" is false. */
  lemma BoolOfZero()
    ensures ParseBool(Str("0")) == Ok(false)
  {
    BoolWordOf("0");
    assert Lower("0") == "0";
  }

  /** Boolean coercion: "maybe" raises. */
  lemma BoolOfMaybe()
    ensures ParseBool(Str("maybe")) == Err(InvalidBool(Str("maybe")))
  {
    var w := "maybe";
    BoolWordOf(w);
    LowerOfNoUpper(w);
    assert w !in TRUE_WORDS && w !in FALSE_WORDS;
  }

  /** Date coercion: "2025-06-01" is 1 June 2025. */
  lemma DateOfIsoText()
    ensures ParseDate(Str("2025-06-01")) == Ok(CivilDate(2025, 6, 1))
  {
    StripFixed("2025-06-01");
    IsoExample();
  }

  /** Date coercion: "01-JUN-2025" is 1 June 2025. */
  lemma DateOfPatternText()
    ensures ParseDate(Str("01-JUN-2025")) == Ok(CivilDate(2025, 6, 1))
  {
    StripFixed("01-JUN-2025");
    PatternExample();
  }
}
