/** Reading a date out of text, as `date_column`'s parser does: first an
    ISO 8601 calendar date (extended format YYYY-MM-DD, ISO 8601:2004
    section 4.1.2.2) with an optional time part, then eleven `strptime`
    patterns in a fixed order. A pattern is matched the way Python's
    `_strptime` does it: the pattern becomes a regular expression, the first
    match found by backtracking (alternatives in their written order) is
    taken, and it must consume the whole text; the fields then have to form
    a real calendar date. Digits are the ASCII digits only. */
module DateFormats {
  import opened Wrappers
  import opened Text
  import opened Cells
  import opened Seqs

  /** One piece of a `strptime` pattern. */
  datatype Directive =
    | DayOfMonth    // %d: 3[01] | [12]\d | 0[1-9] | [1-9] | " "[1-9]
    | MonthNumber   // %m: 1[0-2] | 0[1-9] | [1-9]
    | MonthAbbrev   // %b: jan | feb | ... | dec, any case
    | Year4         // %Y: four digits
    | Year2         // %y: two digits, 69-99 -> 19xx, 00-68 -> 20xx
    | Blank         // a space in the pattern: one or more whitespace characters
    | Literal(c: char)

  type Pattern = seq<Directive>

  /** The eleven patterns of `_DATE_FORMATS`, in the order they are tried. */
  const DATE_FORMATS: seq<Pattern> := [
    [DayOfMonth, Literal('-'), MonthAbbrev, Literal('-'), Year4],  // %d-%b-%Y
    [DayOfMonth, Literal('-'), MonthAbbrev, Literal('-'), Year2],  // %d-%b-%y
    [DayOfMonth, Blank, MonthAbbrev, Blank, Year4],                // %d %b %Y
    [DayOfMonth, Blank, MonthAbbrev, Blank, Year2],                // %d %b %y
    [DayOfMonth, Literal('/'), MonthAbbrev, Literal('/'), Year4],  // %d/%b/%Y
    [Year4, Literal('-'), MonthNumber, Literal('-'), DayOfMonth],  // %Y-%m-%d
    [Year4, Literal('/'), MonthNumber, Literal('/'), DayOfMonth],  // %Y/%m/%d
    [MonthNumber, Literal('/'), DayOfMonth, Literal('/'), Year4],  // %m/%d/%Y
    [MonthNumber, Literal('/'), DayOfMonth, Literal('/'), Year2],  // %m/%d/%y
    [DayOfMonth, Literal('/'), MonthNumber, Literal('/'), Year4],  // %d/%m/%Y
    [DayOfMonth, Literal('/'), MonthNumber, Literal('/'), Year2]   // %d/%m/%y
  ]

  const MONTH_ABBREVIATIONS: seq<string> :=
    ["jan", "feb", "mar", "apr", "may", "jun", "jul", "aug", "sep", "oct", "nov", "dec"]

  predicate IsNonZeroDigit(c: char) { '1' <= c <= '9' }

  /** The fields a match has filled in; `strptime` starts from 1 January 1900. */
  datatype Fields = Fields(year: nat, month: nat, day: nat)

  const DEFAULT_FIELDS := Fields(1900, 1, 1)

  /** Length of the whitespace run at the front of `t`. */
  function SpaceRun(t: string): (n: nat)
    ensures n <= |t| && AllSpace(t[..n])
  {
    if t != [] && IsSpace(t[0]) then
      var n := 1 + SpaceRun(t[1..]);
      assert t[..n] == [t[0]] + t[1..][..n - 1];
      n
    else 0
  }

  /** `[n, n-1, ..., 1]`: the lengths a greedy `\s+` tries, longest first. */
  function Descending(n: nat): (r: seq<nat>)
    ensures |r| == n && forall i :: 0 <= i < n ==> r[i] == n - i
  {
    if n == 0 then [] else [n] + Descending(n - 1)
  }

  function MonthIndex(t: string): (k: nat)
    ensures k <= 12
  {
    if |t| < 3 then 12
    else IndexOf(MONTH_ABBREVIATIONS, Lower(t[..3]))
  }

  function IndexOf(names: seq<string>, w: string): (k: nat)
    ensures k <= |names|
    ensures k < |names| ==> names[k] == w
  {
    if names == [] then 0
    else if names[0] == w then 0
    else 1 + IndexOf(names[1..], w)
  }

  /** `IndexOf` finds the first occurrence. */
  lemma {:induction false} IndexOfFirst(names: seq<string>, w: string, k: nat)
    requires k < |names| && names[k] == w
    requires forall j :: 0 <= j < k ==> names[j] != w
    ensures IndexOf(names, w) == k
  {
    if k > 0 {
      IndexOfFirst(names[1..], w, k - 1);
    }
  }

  /** The lengths of the alternatives of directive `d` that match at the
      front of `t`, in the order the regular expression tries them. */
  function Alternatives(d: Directive, t: string): (alts: seq<nat>)
    ensures forall i :: 0 <= i < |alts| ==> 0 < alts[i] <= |t|
  {
    match d
    case DayOfMonth =>
      (if |t| >= 2 && t[0] == '3' && (t[1] == '0' || t[1] == '1') then [2] else [])
      + (if |t| >= 2 && (t[0] == '1' || t[0] == '2') && IsDigit(t[1]) then [2] else [])
      + (if |t| >= 2 && t[0] == '0' && IsNonZeroDigit(t[1]) then [2] else [])
      + (if |t| >= 1 && IsNonZeroDigit(t[0]) then [1] else [])
      + (if |t| >= 2 && t[0] == ' ' && IsNonZeroDigit(t[1]) then [2] else [])
    case MonthNumber =>
      (if |t| >= 2 && t[0] == '1' && '0' <= t[1] <= '2' then [2] else [])
      + (if |t| >= 2 && t[0] == '0' && IsNonZeroDigit(t[1]) then [2] else [])
      + (if |t| >= 1 && IsNonZeroDigit(t[0]) then [1] else [])
    case MonthAbbrev => if MonthIndex(t) < 12 then [3] else []
    case Year4 => if |t| >= 4 && AllDigits(t[..4]) then [4] else []
    case Year2 => if |t| >= 2 && AllDigits(t[..2]) then [2] else []
    case Blank => Descending(SpaceRun(t))
    case Literal(c) => if |t| >= 1 && t[0] == c then [1] else []
  }

  /** The number a captured `%d` or `%m` group stands for (`int()` also
      accepts the leading space of " 5"). */
  function GroupValue(g: string): nat {
    var digits := if g != [] && g[0] == ' ' then g[1..] else g;
    if AllDigits(digits) then DecimalValue(digits) else 0
  }

  /** Record the text `g` that directive `d` matched. */
  function Capture(d: Directive, g: string, f: Fields): Fields {
    match d
    case DayOfMonth => f.(day := GroupValue(g))
    case MonthNumber => f.(month := GroupValue(g))
    case MonthAbbrev => f.(month := MonthIndex(g) + 1)
    case Year4 => f.(year := GroupValue(g))
    case Year2 =>
      var y := GroupValue(g);
      f.(year := if y <= 68 then y + 2000 else y + 1900)
    case Blank => f
    case Literal(_) => f
  }

  /** The first match of pattern `p` at the front of `t`, in backtracking
      order: the fields it fills and how much of `t` it consumes. */
  function MatchFrom(p: Pattern, t: string, f: Fields): (r: Option<(Fields, nat)>)
    ensures r.Some? ==> r.value.1 <= |t|
    decreases |p|, 1, 0
  {
    if p == [] then Some((f, 0))
    else TryAlternatives(p, t, f, Alternatives(p[0], t))
  }

  function TryAlternatives(p: Pattern, t: string, f: Fields, alts: seq<nat>): (r: Option<(Fields, nat)>)
    requires p != []
    requires forall i :: 0 <= i < |alts| ==> alts[i] <= |t|
    ensures r.Some? ==> r.value.1 <= |t|
    decreases |p|, 0, |alts|
  {
    if alts == [] then None
    else
      var n := alts[0];
      match MatchFrom(p[1..], t[n..], Capture(p[0], t[..n], f))
      case Some((g, m)) => Some((g, n + m))
      case None => TryAlternatives(p, t, f, alts[1..])
  }

  /** `datetime.strptime(t, p).date()`: `None` where Python raises. */
  function Strptime(t: string, p: Pattern): (r: Option<CivilDate>)
    ensures r.Some? ==> ValidDate(r.value)
    ensures r.Some? ==> var m := MatchFrom(p, t, DEFAULT_FIELDS);
      m.Some? && m.value.1 == |t| && r.value == CivilDate(m.value.0.year, m.value.0.month, m.value.0.day)
  {
    match MatchFrom(p, t, DEFAULT_FIELDS)
    case None => None                        // no match
    case Some((f, n)) =>
      if n != |t| then None                  // unconverted data remains
      else
        var d := CivilDate(f.year, f.month, f.day);
        if ValidDate(d) then Some(d) else None  // not a calendar date
  }

  /** The first pattern of `patterns` that reads `t`, as the loop over
      `_DATE_FORMATS` finds it. */
  function FirstPatternMatch(t: string, patterns: seq<Pattern>): (r: Option<CivilDate>)
    ensures r.Some? ==> ValidDate(r.value)
  {
    if patterns == [] then None
    else match Strptime(t, patterns[0])
      case Some(d) => Some(d)
      case None => FirstPatternMatch(t, patterns[1..])
  }

  /** The first success wins: the result is what pattern `i` gives, where
      every earlier pattern fails; and nothing matches only when every
      pattern fails. */
  lemma {:induction false} FirstPatternMatchIsFirst(t: string, patterns: seq<Pattern>)
    ensures FirstPatternMatch(t, patterns).None? <==>
      forall i :: 0 <= i < |patterns| ==> Strptime(t, patterns[i]).None?
    ensures FirstPatternMatch(t, patterns).Some? ==>
      exists i :: 0 <= i < |patterns| && Strptime(t, patterns[i]) == FirstPatternMatch(t, patterns)
        && forall j :: 0 <= j < i ==> Strptime(t, patterns[j]).None?
  {
    if patterns != [] {
      FirstPatternMatchIsFirst(t, patterns[1..]);
      if Strptime(t, patterns[0]).None? {
        if FirstPatternMatch(t, patterns).Some? {
          var i :| 0 <= i < |patterns[1..]| && Strptime(t, patterns[1..][i]) == FirstPatternMatch(t, patterns[1..])
            && forall j :: 0 <= j < i ==> Strptime(t, patterns[1..][j]).None?;
          assert Strptime(t, patterns[i + 1]) == FirstPatternMatch(t, patterns);
          assert forall j :: 0 <= j < i + 1 ==> Strptime(t, patterns[j]).None? by {
            forall j | 0 <= j < i + 1 ensures Strptime(t, patterns[j]).None? {
              if j > 0 { assert patterns[j] == patterns[1..][j - 1]; }
            }
          }
        } else {
          forall i | 0 <= i < |patterns| ensures Strptime(t, patterns[i]).None? {
            if i > 0 { assert patterns[i] == patterns[1..][i - 1]; }
          }
        }
      }
    }
  }

  predicate DigitsAt(s: string, i: nat, n: nat) {
    i + n <= |s| && AllDigits(s[i..i + n])
  }

  /** The time part ISO 8601 allows after the date: HH, HH:MM or HH:MM:SS. */
  predicate IsIsoTime(s: string) {
    && (|s| == 2 || |s| == 5 || |s| == 8)
    && DigitsAt(s, 0, 2) && DecimalValue(s[0..2]) < 24
    && (|s| >= 5 ==> s[2] == ':' && DigitsAt(s, 3, 2) && DecimalValue(s[3..5]) < 60)
    && (|s| == 8 ==> s[5] == ':' && DigitsAt(s, 6, 2) && DecimalValue(s[6..8]) < 60)
  }

  /** `datetime.fromisoformat(s).date()` for an extended-format calendar
      date, alone or followed by one separator character and a time. */
  function IsoDate(s: string): (r: Option<CivilDate>)
    ensures r.Some? ==> ValidDate(r.value)
    ensures r.Some? ==> |s| >= 10 && s[4] == '-' && s[7] == '-'
  {
    if |s| >= 10 && DigitsAt(s, 0, 4) && s[4] == '-' && DigitsAt(s, 5, 2) && s[7] == '-' && DigitsAt(s, 8, 2)
       && (|s| == 10 || IsIsoTime(s[11..]))
    then
      var d := CivilDate(DecimalValue(s[0..4]), DecimalValue(s[5..7]), DecimalValue(s[8..10]));
      if ValidDate(d) then Some(d) else None
    else None
  }

  /** The text branch of the date parser, once the text is trimmed and
      known to be non-empty: the ISO reading if there is one, else the first
      pattern that reads the upper-cased text. */
  function ParseDateText(s: string): (r: Option<CivilDate>)
    ensures r.Some? ==> ValidDate(r.value)
    ensures IsoDate(s).Some? ==> r == IsoDate(s)
    ensures IsoDate(s).None? ==> r == FirstPatternMatch(Upper(s), DATE_FORMATS)
  {
    match IsoDate(s)
    case Some(d) => Some(d)
    case None => FirstPatternMatch(Upper(s), DATE_FORMATS)
  }

  lemma Year2025()
    ensures AllDigits("2025") && DecimalValue("2025") == 2025
  {
    DecimalValue4('2', '0', '2', '5');
    assert "2025" == ['2', '0', '2', '5'];
  }

  /** "2025-06-01" is read as an ISO date. */
  lemma IsoExample()
    ensures ParseDateText("2025-06-01") == Some(CivilDate(2025, 6, 1))
  {
    IsoDateExample();
  }

  lemma IsoDateExample()
    ensures IsoDate("2025-06-01") == Some(CivilDate(2025, 6, 1))
  {
    var s := "2025-06-01";
    assert s[0..4] == "2025" && s[5..7] == "06" && s[8..10] == "01";
    Year2025();
    DecimalValue2('0', '6');
    assert "06" == ['0', '6'];
    DecimalValue2('0', '1');
    assert "01" == ['0', '1'];
    assert ValidDate(CivilDate(2025, 6, 1));
  }

  lemma YearTail()
    ensures MatchFrom([Year4], "2025", Fields(1900, 6, 1)) == Some((Fields(2025, 6, 1), 4))
  {
    var t := "2025";
    assert t[..4] == t && t[4..] == "";
    Year2025();
    assert Alternatives(Year4, t) == [4];
    assert [Year4][1..] == [];
  }

  lemma JunIsSixthMonth()
    ensures MonthIndex("JUN-2025") == 5 && MonthIndex("JUN") == 5
  {
    assert "JUN-2025"[..3] == "JUN" && "JUN"[..3] == "JUN";
    assert Lower("JUN") == "jun";
    IndexOfFirst(MONTH_ABBREVIATIONS, "jun", 5);
  }

  lemma DashYearTail()
    ensures MatchFrom([Literal('-'), Year4], "-2025", Fields(1900, 6, 1)) == Some((Fields(2025, 6, 1), 5))
  {
    var p: Pattern := [Literal('-'), Year4];
    assert "-2025"[1..] == "2025" && "-2025"[..1] == "-";
    assert p[1..] == [Year4];
    YearTail();
    assert Alternatives(Literal('-'), "-2025") == [1];
  }

  lemma MonthTail()
    ensures MatchFrom([MonthAbbrev, Literal('-'), Year4], "JUN-2025", Fields(1900, 1, 1))
      == Some((Fields(2025, 6, 1), 8))
  {
    var t := "JUN-2025";
    var p: Pattern := [MonthAbbrev, Literal('-'), Year4];
    JunIsSixthMonth();
    assert Alternatives(MonthAbbrev, t) == [3];
    assert t[..3] == "JUN" && t[3..] == "-2025";
    assert Capture(MonthAbbrev, t[..3], Fields(1900, 1, 1)) == Fields(1900, 6, 1);
    assert p[1..] == [Literal('-'), Year4];
    DashYearTail();
  }

  lemma DashMonthTail()
    ensures MatchFrom([Literal('-'), MonthAbbrev, Literal('-'), Year4], "-JUN-2025", Fields(1900, 1, 1))
      == Some((Fields(2025, 6, 1), 9))
  {
    var p: Pattern := [Literal('-'), MonthAbbrev, Literal('-'), Year4];
    var t := "-JUN-2025";
    var f := Fields(1900, 1, 1);
    assert t[1..] == "JUN-2025" && t[..1] == "-";
    assert p[1..] == [MonthAbbrev, Literal('-'), Year4];
    assert Alternatives(Literal('-'), t) == [1];
    assert Capture(Literal('-'), t[..1], f) == f;
    MonthTail();
    assert TryAlternatives(p, t, f, [1]) == Some((Fields(2025, 6, 1), 9));
  }

  lemma FirstPatternOnExample()
    ensures Strptime("01-JUN-2025", DATE_FORMATS[0]) == Some(CivilDate(2025, 6, 1))
  {
    var s := "01-JUN-2025";
    var p := DATE_FORMATS[0];
    assert Alternatives(DayOfMonth, s) == [2];
    DecimalValue2('0', '1');
    assert s[..2] == "01" == ['0', '1'];
    assert Capture(DayOfMonth, s[..2], DEFAULT_FIELDS) == Fields(1900, 1, 1);
    assert s[2..] == "-JUN-2025";
    assert p[1..] == [Literal('-'), MonthAbbrev, Literal('-'), Year4];
    DashMonthTail();
    assert MatchFrom(p, s, DEFAULT_FIELDS) == Some((Fields(2025, 6, 1), 11));
  }

  /** "01-JUN-2025" is not an ISO date; the first pattern, %d-%b-%Y, reads it. */
  lemma PatternExample()
    ensures ParseDateText("01-JUN-2025") == Some(CivilDate(2025, 6, 1))
  {
    var s := "01-JUN-2025";
    assert !DigitsAt(s, 0, 4) by { assert !IsDigit(s[0..4][2]); }
    assert IsoDate(s) == None;
    assert Upper(s) == s;
    FirstPatternOnExample();
  }

  // ------------------------------------------------------- round trips

  /** `str(d)` is a four-digit year, a dash, a two-digit month, a dash and a
      two-digit day. */
  lemma DateTextParts(d: CivilDate)
    requires ValidDate(d)
    ensures var s := DateText(d);
      |s| == 10 && s[0..4] == ZeroPad(d.year, 4) && s[4] == '-' && s[5..7] == ZeroPad(d.month, 2)
      && s[7] == '-' && s[8..10] == ZeroPad(d.day, 2)
  {
    assert Pow10(4) == 10000 && Pow10(2) == 100;
    ZeroPadLength(d.year, 4);
    ZeroPadLength(d.month, 2);
    ZeroPadLength(d.day, 2);
    FiveParts(ZeroPad(d.year, 4), '-', ZeroPad(d.month, 2), '-', ZeroPad(d.day, 2));
  }

  /** `date.fromisoformat(str(d)) == d`, and the date parser reads `str(d)`
      back as `d`. */
  lemma IsoDateOfText(d: CivilDate)
    requires ValidDate(d)
    ensures IsoDate(DateText(d)) == Some(d)
    ensures ParseDateText(DateText(d)) == Some(d)
  {
    DateTextParts(d);
    ZeroPadValue(d.year, 4);
    ZeroPadValue(d.month, 2);
    ZeroPadValue(d.day, 2);
  }

  lemma DateSlices<T>(s: seq<T>)
    requires |s| >= 10
    ensures s[..10] == s[0..4] + [s[4]] + s[5..7] + [s[7]] + s[8..10]
  {
  }

  /** What `fromisoformat` reads as `d` starts with `str(d)`: the ISO
      reading has exactly one spelling for each date. */
  lemma IsoDateText(s: string, d: CivilDate)
    requires IsoDate(s) == Some(d)
    ensures s[..10] == DateText(d)
  {
    ZeroPadOfDigits(s[0..4]);
    ZeroPadOfDigits(s[5..7]);
    ZeroPadOfDigits(s[8..10]);
    DateSlices(s);
  }

  /** One step of the backtracking match: when the first alternative of
      directive `d` takes the text `x` and the rest of the pattern matches
      what follows, the whole pattern matches. */
  lemma {:induction false} MatchStep(d: Directive, rest: Pattern, x: string, t: string, f: Fields, g: Fields, m: nat)
    requires |Alternatives(d, x + t)| > 0 && Alternatives(d, x + t)[0] == |x|
    requires MatchFrom(rest, t, Capture(d, x, f)) == Some((g, m))
    ensures MatchFrom([d] + rest, x + t, f) == Some((g, |x| + m))
  {
    var p, s := [d] + rest, x + t;
    assert p[0] == d && p[1..] == rest;
    assert s[..|x|] == x && s[|x|..] == t;
    TryFirst(p, s, f, Alternatives(d, s), g, m);
  }

  /** When the first alternative lets the rest of the pattern match, it is the match. */
  lemma {:induction false} TryFirst(p: Pattern, t: string, f: Fields, alts: seq<nat>, g: Fields, m: nat)
    requires p != [] && |alts| > 0
    requires forall i :: 0 <= i < |alts| ==> alts[i] <= |t|
    requires MatchFrom(p[1..], t[alts[0]..], Capture(p[0], t[..alts[0]], f)) == Some((g, m))
    ensures TryAlternatives(p, t, f, alts) == Some((g, alts[0] + m))
  {
  }

  /** A group of digits stands for its decimal value. */
  lemma GroupValueOfDigits(g: string)
    requires g != [] && AllDigits(g)
    ensures GroupValue(g) == DecimalValue(g)
  {
  }

  /** A literal character matches itself. */
  lemma {:induction false} MatchLiteral(c: char, rest: Pattern, t: string, f: Fields, g: Fields, m: nat)
    requires MatchFrom(rest, t, f) == Some((g, m))
    ensures MatchFrom([Literal(c)] + rest, [c] + t, f) == Some((g, 1 + m))
  {
    assert Alternatives(Literal(c), [c] + t) == [1];
    MatchStep(Literal(c), rest, [c], t, f, g, m);
  }

  /** `%Y` takes four digits and sets the year. */
  lemma {:induction false} MatchYear4(y: string, rest: Pattern, t: string, f: Fields, g: Fields, m: nat)
    requires |y| == 4 && AllDigits(y)
    requires MatchFrom(rest, t, f.(year := DecimalValue(y))) == Some((g, m))
    ensures MatchFrom([Year4] + rest, y + t, f) == Some((g, 4 + m))
  {
    assert (y + t)[..4] == y;
    assert Alternatives(Year4, y + t) == [4];
    GroupValueOfDigits(y);
    MatchStep(Year4, rest, y, t, f, g, m);
  }

  /** `%b` takes a month's three-letter abbreviation and sets the month. */
  lemma {:induction false} MatchMonthAbbrev(mon: string, rest: Pattern, t: string, f: Fields, g: Fields, m: nat)
    requires |mon| == 3 && MonthIndex(mon) < 12
    requires MatchFrom(rest, t, f.(month := MonthIndex(mon) + 1)) == Some((g, m))
    ensures MatchFrom([MonthAbbrev] + rest, mon + t, f) == Some((g, 3 + m))
  {
    assert (mon + t)[..3] == mon == mon[..3];
    assert Alternatives(MonthAbbrev, mon + t) == [3];
    MatchStep(MonthAbbrev, rest, mon, t, f, g, m);
  }

  /** The value of two digits. */
  lemma TwoDigits(x: string)
    requires |x| == 2 && AllDigits(x)
    ensures DecimalValue(x) == DigitValue(x[0]) * 10 + DigitValue(x[1])
  {
    assert x == [x[0], x[1]];
    DecimalValue2(x[0], x[1]);
  }

  /** On a day 01-31 written with two digits, `%d`'s first alternative takes both. */
  lemma DayTakesTwo(s: string)
    requires |s| >= 2 && IsDigit(s[0]) && IsDigit(s[1])
    requires 1 <= DigitValue(s[0]) * 10 + DigitValue(s[1]) <= 31
    ensures |Alternatives(DayOfMonth, s)| > 0 && Alternatives(DayOfMonth, s)[0] == 2
  {
    if s[0] == '3' {
      assert s[1] == '0' || s[1] == '1';
    } else if s[0] == '1' || s[0] == '2' {
    } else {
      assert s[0] == '0' && IsNonZeroDigit(s[1]);
    }
  }

  /** On a month 01-12 written with two digits, `%m`'s first alternative takes both. */
  lemma MonthTakesTwo(s: string)
    requires |s| >= 2 && IsDigit(s[0]) && IsDigit(s[1])
    requires 1 <= DigitValue(s[0]) * 10 + DigitValue(s[1]) <= 12
    ensures |Alternatives(MonthNumber, s)| > 0 && Alternatives(MonthNumber, s)[0] == 2
  {
    if s[0] == '0' {
      assert IsNonZeroDigit(s[1]);
    } else {
      assert s[0] == '1' && '0' <= s[1] <= '2';
    }
  }

  /** `%d` first tries two characters; on a two-digit day 01-31 that
      alternative is the one taken, and it sets the day. */
  lemma {:induction false} MatchDay(dd: string, rest: Pattern, t: string, f: Fields, g: Fields, m: nat)
    requires |dd| == 2 && AllDigits(dd) && 1 <= DecimalValue(dd) <= 31
    requires MatchFrom(rest, t, f.(day := DecimalValue(dd))) == Some((g, m))
    ensures MatchFrom([DayOfMonth] + rest, dd + t, f) == Some((g, 2 + m))
  {
    TwoDigits(dd);
    var s := dd + t;
    assert s[0] == dd[0] && s[1] == dd[1];
    DayTakesTwo(s);
    GroupValueOfDigits(dd);
    MatchStep(DayOfMonth, rest, dd, t, f, g, m);
  }

  /** `%m` first tries two characters; on a two-digit month 01-12 that
      alternative is the one taken, and it sets the month. */
  lemma {:induction false} MatchMonthNumber(mm: string, rest: Pattern, t: string, f: Fields, g: Fields, m: nat)
    requires |mm| == 2 && AllDigits(mm) && 1 <= DecimalValue(mm) <= 12
    requires MatchFrom(rest, t, f.(month := DecimalValue(mm))) == Some((g, m))
    ensures MatchFrom([MonthNumber] + rest, mm + t, f) == Some((g, 2 + m))
  {
    TwoDigits(mm);
    var s := mm + t;
    assert s[0] == mm[0] && s[1] == mm[1];
    MonthTakesTwo(s);
    GroupValueOfDigits(mm);
    MatchStep(MonthNumber, rest, mm, t, f, g, m);
  }

  /** The `k`-th abbreviation is month `k + 1`. */
  lemma MonthIndexOfAbbrev(k: nat)
    requires k < 12
    ensures IndexOf(MONTH_ABBREVIATIONS, MONTH_ABBREVIATIONS[k]) == k
  {
    forall j | 0 <= j < k
      ensures MONTH_ABBREVIATIONS[j] != MONTH_ABBREVIATIONS[k]
    {
      var a := MONTH_ABBREVIATIONS[j];
      var b := MONTH_ABBREVIATIONS[k];
      assert a[0] != b[0] || a[1] != b[1] || a[2] != b[2];
    }
    IndexOfFirst(MONTH_ABBREVIATIONS, MONTH_ABBREVIATIONS[k], k);
  }

  /** A three-letter abbreviation in any case names its month. */
  lemma MonthIndexOfName(mon: string, month: nat)
    requires 1 <= month <= 12 && |mon| == 3 && Lower(mon) == MONTH_ABBREVIATIONS[month - 1]
    ensures MonthIndex(mon) == month - 1
  {
    assert mon[..3] == mon;
    MonthIndexOfAbbrev(month - 1);
  }

  /** `-%Y` at the end of the text, then `%b-%Y`, `-%b-%Y` and the whole of
      `%d-%b-%Y`: each consumes its text and records its fields. */
  lemma {:induction false} MatchYearAtEnd(y: string, f: Fields)
    requires |y| == 4 && AllDigits(y)
    ensures MatchFrom([Year4], y, f) == Some((f.(year := DecimalValue(y)), 4))
  {
    var g := f.(year := DecimalValue(y));
    assert MatchFrom([], [], g) == Some((g, 0));
    assert y + [] == y && [Year4] + [] == [Year4];
    MatchYear4(y, [], [], f, g, 0);
  }

  lemma {:induction false} MatchDashYear(y: string, f: Fields)
    requires |y| == 4 && AllDigits(y)
    ensures MatchFrom([Literal('-'), Year4], ['-'] + y, f) == Some((f.(year := DecimalValue(y)), 5))
  {
    MatchYearAtEnd(y, f);
    MatchLiteral('-', [Year4], y, f, f.(year := DecimalValue(y)), 4);
  }

  lemma {:induction false} MatchMonYear(mon: string, y: string, f: Fields)
    requires |mon| == 3 && MonthIndex(mon) < 12 && |y| == 4 && AllDigits(y)
    ensures MatchFrom([MonthAbbrev, Literal('-'), Year4], mon + (['-'] + y), f)
      == Some((f.(month := MonthIndex(mon) + 1, year := DecimalValue(y)), 8))
  {
    var f1 := f.(month := MonthIndex(mon) + 1);
    MatchDashYear(y, f1);
    MatchMonthAbbrev(mon, [Literal('-'), Year4], ['-'] + y, f, f1.(year := DecimalValue(y)), 5);
  }

  lemma {:induction false} MatchDashMonYear(mon: string, y: string, f: Fields)
    requires |mon| == 3 && MonthIndex(mon) < 12 && |y| == 4 && AllDigits(y)
    ensures MatchFrom([Literal('-'), MonthAbbrev, Literal('-'), Year4], ['-'] + (mon + (['-'] + y)), f)
      == Some((f.(month := MonthIndex(mon) + 1, year := DecimalValue(y)), 9))
  {
    MatchMonYear(mon, y, f);
    MatchLiteral('-', [MonthAbbrev, Literal('-'), Year4], mon + (['-'] + y), f,
      f.(month := MonthIndex(mon) + 1, year := DecimalValue(y)), 8);
  }

  lemma {:induction false} MatchDayMonYear(dd: string, mon: string, y: string)
    requires |dd| == 2 && AllDigits(dd) && 1 <= DecimalValue(dd) <= 31
    requires |mon| == 3 && MonthIndex(mon) < 12 && |y| == 4 && AllDigits(y)
    ensures MatchFrom(DATE_FORMATS[0], dd + "-" + mon + "-" + y, DEFAULT_FIELDS)
      == Some((Fields(DecimalValue(y), MonthIndex(mon) + 1, DecimalValue(dd)), 11))
  {
    var f := DEFAULT_FIELDS.(day := DecimalValue(dd));
    MatchDashMonYear(mon, y, f);
    MatchDay(dd, [Literal('-'), MonthAbbrev, Literal('-'), Year4], ['-'] + (mon + (['-'] + y)), DEFAULT_FIELDS,
      f.(month := MonthIndex(mon) + 1, year := DecimalValue(y)), 9);
    assert [DayOfMonth] + [Literal('-'), MonthAbbrev, Literal('-'), Year4] == DATE_FORMATS[0];
    FiveRegroup(dd, '-', mon, '-', y);
  }

  /** `%d-%b-%Y`, the first of the patterns, reads what
      `d.strftime("%d-%b-%Y")` writes (the month's abbreviation in any
      case) back as `d`. */
  lemma StrptimeDayMonYear(d: CivilDate, mon: string)
    requires ValidDate(d) && |mon| == 3 && Lower(mon) == MONTH_ABBREVIATIONS[d.month - 1]
    ensures Strptime(ZeroPad(d.day, 2) + "-" + mon + "-" + ZeroPad(d.year, 4), DATE_FORMATS[0]) == Some(d)
  {
    assert Pow10(4) == 10000 && Pow10(2) == 100;
    ZeroPadLength(d.day, 2);
    ZeroPadLength(d.year, 4);
    ZeroPadValue(d.day, 2);
    ZeroPadValue(d.year, 4);
    MonthIndexOfName(mon, d.month);
    MatchDayMonYear(ZeroPad(d.day, 2), mon, ZeroPad(d.year, 4));
  }

  /** `-%d` at the end of the text, then `%m-%d`, `-%m-%d` and the whole of
      `%Y-%m-%d`: each consumes its text and records its fields. */
  lemma {:induction false} MatchDayAtEnd(dd: string, f: Fields)
    requires |dd| == 2 && AllDigits(dd) && 1 <= DecimalValue(dd) <= 31
    ensures MatchFrom([DayOfMonth], dd, f) == Some((f.(day := DecimalValue(dd)), 2))
  {
    var g := f.(day := DecimalValue(dd));
    assert MatchFrom([], [], g) == Some((g, 0));
    assert dd + [] == dd && [DayOfMonth] + [] == [DayOfMonth];
    MatchDay(dd, [], [], f, g, 0);
  }

  lemma {:induction false} MatchDashDay(dd: string, f: Fields)
    requires |dd| == 2 && AllDigits(dd) && 1 <= DecimalValue(dd) <= 31
    ensures MatchFrom([Literal('-'), DayOfMonth], ['-'] + dd, f) == Some((f.(day := DecimalValue(dd)), 3))
  {
    MatchDayAtEnd(dd, f);
    MatchLiteral('-', [DayOfMonth], dd, f, f.(day := DecimalValue(dd)), 2);
  }

  lemma {:induction false} MatchMonthDay(mm: string, dd: string, f: Fields)
    requires |mm| == 2 && AllDigits(mm) && 1 <= DecimalValue(mm) <= 12
    requires |dd| == 2 && AllDigits(dd) && 1 <= DecimalValue(dd) <= 31
    ensures MatchFrom([MonthNumber, Literal('-'), DayOfMonth], mm + (['-'] + dd), f)
      == Some((f.(month := DecimalValue(mm), day := DecimalValue(dd)), 5))
  {
    var f1 := f.(month := DecimalValue(mm));
    MatchDashDay(dd, f1);
    MatchMonthNumber(mm, [Literal('-'), DayOfMonth], ['-'] + dd, f, f1.(day := DecimalValue(dd)), 3);
    assert [MonthNumber] + [Literal('-'), DayOfMonth] == [MonthNumber, Literal('-'), DayOfMonth];
  }

  lemma {:induction false} MatchDashMonthDay(mm: string, dd: string, f: Fields)
    requires |mm| == 2 && AllDigits(mm) && 1 <= DecimalValue(mm) <= 12
    requires |dd| == 2 && AllDigits(dd) && 1 <= DecimalValue(dd) <= 31
    ensures MatchFrom([Literal('-'), MonthNumber, Literal('-'), DayOfMonth], ['-'] + (mm + (['-'] + dd)), f)
      == Some((f.(month := DecimalValue(mm), day := DecimalValue(dd)), 6))
  {
    MatchMonthDay(mm, dd, f);
    MatchLiteral('-', [MonthNumber, Literal('-'), DayOfMonth], mm + (['-'] + dd), f,
      f.(month := DecimalValue(mm), day := DecimalValue(dd)), 5);
  }

  lemma {:induction false} MatchYearMonthDay(y: string, mm: string, dd: string)
    requires |y| == 4 && AllDigits(y)
    requires |mm| == 2 && AllDigits(mm) && 1 <= DecimalValue(mm) <= 12
    requires |dd| == 2 && AllDigits(dd) && 1 <= DecimalValue(dd) <= 31
    ensures MatchFrom(DATE_FORMATS[5], y + "-" + mm + "-" + dd, DEFAULT_FIELDS)
      == Some((Fields(DecimalValue(y), DecimalValue(mm), DecimalValue(dd)), 10))
  {
    var f := DEFAULT_FIELDS.(year := DecimalValue(y));
    MatchDashMonthDay(mm, dd, f);
    MatchYear4(y, [Literal('-'), MonthNumber, Literal('-'), DayOfMonth], ['-'] + (mm + (['-'] + dd)), DEFAULT_FIELDS,
      f.(month := DecimalValue(mm), day := DecimalValue(dd)), 6);
    FiveRegroup(y, '-', mm, '-', dd);
  }

  /** `%Y-%m-%d`, the sixth of the patterns, reads `str(d)` back as `d`. */
  lemma StrptimeIsoPattern(d: CivilDate)
    requires ValidDate(d)
    ensures Strptime(DateText(d), DATE_FORMATS[5]) == Some(d)
  {
    assert Pow10(4) == 10000 && Pow10(2) == 100;
    ZeroPadLength(d.year, 4);
    ZeroPadLength(d.month, 2);
    ZeroPadLength(d.day, 2);
    ZeroPadValue(d.year, 4);
    ZeroPadValue(d.month, 2);
    ZeroPadValue(d.day, 2);
    MatchYearMonthDay(ZeroPad(d.year, 4), ZeroPad(d.month, 2), ZeroPad(d.day, 2));
  }

  /** The date parser reads `d.strftime("%d-%b-%Y")`, in any case, back as `d`:
      the text is no ISO date, and upper-cased it is read by the first pattern. */
  lemma ParseDayMonYear(d: CivilDate, mon: string)
    requires ValidDate(d) && |mon| == 3 && Lower(mon) == MONTH_ABBREVIATIONS[d.month - 1]
    ensures ParseDateText(ZeroPad(d.day, 2) + "-" + mon + "-" + ZeroPad(d.year, 4)) == Some(d)
  {
    var dd := ZeroPad(d.day, 2);
    var yyyy := ZeroPad(d.year, 4);
    var s := dd + "-" + mon + "-" + yyyy;
    assert Pow10(2) == 100;
    ZeroPadLength(d.day, 2);
    ZeroPadShape(d.day, 2);
    ZeroPadShape(d.year, 4);
    assert !DigitsAt(s, 0, 4) by {
      assert s[0..4][2] == '-';
    }
    var up := Upper(mon);
    assert Upper(s) == dd + "-" + up + "-" + yyyy by {
      UpperAppend(dd + "-" + mon + "-", yyyy);
      UpperAppend(dd + "-" + mon, "-");
      UpperAppend(dd + "-", mon);
      UpperAppend(dd, "-");
      UpperOfDigits(dd);
      UpperOfDigits(yyyy);
      assert Upper("-") == "-";
    }
    LowerOfUpper(mon);
    StrptimeDayMonYear(d, up);
  }
}
