/** String primitives the mapping engine relies on: Python's whitespace
    test and `str.strip()`, ASCII case mapping, and decimal integers as
    `str(int)` writes them and `int(str)` reads them. */
module Text {
  import opened Wrappers

  /** Python's `str.isspace()`: the characters `strip()` removes. */
  predicate IsSpace(c: char) {
    c == ' ' || ('\t' <= c <= '\r') || ('\U{1C}' <= c <= '\U{1F}')
    || c == '\U{85}' || c == '\U{A0}' || c == '\U{1680}'
    || ('\U{2000}' <= c <= '\U{200A}') || c == '\U{2028}' || c == '\U{2029}'
    || c == '\U{202F}' || c == '\U{205F}' || c == '\U{3000}'
  }

  predicate AllSpace(s: string) {
    forall i :: 0 <= i < |s| ==> IsSpace(s[i])
  }

  /** Where the run of whitespace that starts at index `i` ends. */
  function SpaceRunEnd(s: string, i: nat): (n: nat)
    requires i <= |s|
    ensures i <= n <= |s|
    ensures forall k :: i <= k < n ==> IsSpace(s[k])
    ensures n < |s| ==> !IsSpace(s[n])
    decreases |s| - i
  {
    if i < |s| && IsSpace(s[i]) then SpaceRunEnd(s, i + 1) else i
  }

  /** Where the run of whitespace that ends just before index `j` starts,
      looking no further back than `lo`. */
  function SpaceRunStart(s: string, lo: nat, j: nat): (n: nat)
    requires lo <= j <= |s|
    ensures lo <= n <= j
    ensures forall k :: n <= k < j ==> IsSpace(s[k])
    ensures n > lo ==> !IsSpace(s[n - 1])
    decreases j - lo
  {
    if j > lo && IsSpace(s[j - 1]) then SpaceRunStart(s, lo, j - 1) else j
  }

  /** The number of whitespace characters at the front of `s`. */
  function LeadingSpaces(s: string): (n: nat)
    ensures n <= |s|
  {
    SpaceRunEnd(s, 0)
  }

  /** Python's `str.strip()`: whitespace removed at both ends. */
  function Strip(s: string): string {
    var a := LeadingSpaces(s);
    s[a..SpaceRunStart(s, a, |s|)]
  }

  /** `strip()` keeps the infix of `s` that starts after the leading
      whitespace, which is all whitespace, and is followed only by
      whitespace; what it keeps neither starts nor ends with whitespace. */
  lemma StripSpec(s: string)
    ensures var r := Strip(s); var a := LeadingSpaces(s);
      a + |r| <= |s| && r == s[a..a + |r|]
      && AllSpace(s[..a]) && AllSpace(s[a + |r|..])
      && (r != [] ==> !IsSpace(r[0]) && !IsSpace(r[|r| - 1]))
  {
    var a := LeadingSpaces(s);
    var e := SpaceRunStart(s, a, |s|);
    var r := Strip(s);
    assert forall k :: 0 <= k < a ==> s[..a][k] == s[k];
    assert forall k :: 0 <= k < |s| - e ==> s[e..][k] == s[e + k];
    if r != [] {
      assert r[0] == s[a];
      assert r[|r| - 1] == s[e - 1];
    }
  }

  lemma AllSpaceSplit(s: string, k: nat)
    requires k <= |s|
    ensures AllSpace(s) <==> AllSpace(s[..k]) && AllSpace(s[k..])
  {
    if AllSpace(s[..k]) && AllSpace(s[k..]) {
      forall i | 0 <= i < |s| ensures IsSpace(s[i]) {
        if i < k { assert s[i] == s[..k][i]; } else { assert s[i] == s[k..][i - k]; }
      }
    }
  }

  /** `strip()` gives the empty string exactly when every character is
      whitespace. */
  lemma StripEmptyIff(s: string)
    ensures Strip(s) == [] <==> AllSpace(s)
  {
    var a := LeadingSpaces(s);
    var r := Strip(s);
    StripSpec(s);
    AllSpaceSplit(s, a);
    if r == [] {
      assert s[a..] == s[a + |r|..];
    } else {
      assert !IsSpace(s[a]);
    }
  }

  /** A string with no whitespace at either end is its own strip. */
  lemma StripFixed(s: string)
    requires s == [] || (!IsSpace(s[0]) && !IsSpace(s[|s| - 1]))
    ensures Strip(s) == s
  {
    if s != [] {
      assert LeadingSpaces(s) == 0;
      assert SpaceRunStart(s, 0, |s|) == |s|;
    }
    assert s[0..|s|] == s;
  }

  /** Stripping twice is stripping once. */
  lemma StripIdempotent(s: string)
    ensures Strip(Strip(s)) == Strip(s)
  {
    StripSpec(s);
    StripFixed(Strip(s));
  }

  // ---------------------------------------------------------------- case

  function LowerChar(c: char): (d: char)
    ensures 'A' <= c <= 'Z' ==> 'a' <= d <= 'z'
    ensures !('A' <= c <= 'Z') ==> d == c
  {
    if 'A' <= c <= 'Z' then (c as int + 32) as char else c
  }

  function UpperChar(c: char): (d: char)
    ensures 'a' <= c <= 'z' ==> 'A' <= d <= 'Z'
    ensures !('a' <= c <= 'z') ==> d == c
  {
    if 'a' <= c <= 'z' then (c as int - 32) as char else c
  }

  predicate HasNoUpper(s: string) {
    forall i :: 0 <= i < |s| ==> !('A' <= s[i] <= 'Z')
  }

  /** `str.lower()` on the ASCII letters. */
  function Lower(s: string): (r: string)
    ensures |r| == |s| && HasNoUpper(r)
    ensures forall i :: 0 <= i < |s| ==> r[i] == LowerChar(s[i])
  {
    seq(|s|, i requires 0 <= i < |s| => LowerChar(s[i]))
  }

  /** `str.upper()` on the ASCII letters. */
  function Upper(s: string): (r: string)
    ensures |r| == |s|
    ensures forall i :: 0 <= i < |s| ==> r[i] == UpperChar(s[i]) && !('a' <= r[i] <= 'z')
  {
    seq(|s|, i requires 0 <= i < |s| => UpperChar(s[i]))
  }

  /** Upper-casing goes piece by piece. */
  lemma UpperAppend(a: string, b: string)
    ensures Upper(a + b) == Upper(a) + Upper(b)
  {
  }

  /** Lower-casing after upper-casing is lower-casing. */
  lemma LowerOfUpper(s: string)
    ensures Lower(Upper(s)) == Lower(s)
  {
  }

  /** Lower-casing leaves a string without upper-case letters unchanged. */
  lemma LowerOfNoUpper(s: string)
    requires HasNoUpper(s)
    ensures Lower(s) == s
  {
  }

  // ------------------------------------------------------------- decimals

  predicate IsDigit(c: char) { '0' <= c <= '9' }

  predicate AllDigits(s: string) {
    forall i :: 0 <= i < |s| ==> IsDigit(s[i])
  }

  function DigitValue(c: char): (d: nat)
    requires IsDigit(c)
    ensures d < 10
  {
    c as int - '0' as int
  }

  function DigitChar(d: nat): (c: char)
    requires d < 10
    ensures IsDigit(c) && DigitValue(c) == d
  {
    ('0' as int + d) as char
  }

  /** The value of a run of decimal digits, most significant first. */
  function DecimalValue(ds: string): nat
    requires AllDigits(ds)
  {
    if ds == [] then 0
    else DecimalValue(ds[..|ds| - 1]) * 10 + DigitValue(ds[|ds| - 1])
  }

  /** Appending a digit shifts the value one decimal place. */
  lemma DecimalValueSnoc(ds: string, c: char)
    requires AllDigits(ds) && IsDigit(c)
    ensures AllDigits(ds + [c]) && DecimalValue(ds + [c]) == DecimalValue(ds) * 10 + DigitValue(c)
  {
    assert (ds + [c])[..|ds|] == ds;
  }

  /** The value of two digits. */
  lemma DecimalValue2(a: char, b: char)
    requires IsDigit(a) && IsDigit(b)
    ensures AllDigits([a, b]) && DecimalValue([a, b]) == DigitValue(a) * 10 + DigitValue(b)
  {
    DecimalValueSnoc([], a);
    assert [a] == [] + [a];
    DecimalValueSnoc([a], b);
    assert [a, b] == [a] + [b];
  }

  /** The value of four digits. */
  lemma DecimalValue4(a: char, b: char, c: char, d: char)
    requires IsDigit(a) && IsDigit(b) && IsDigit(c) && IsDigit(d)
    ensures AllDigits([a, b, c, d])
    ensures DecimalValue([a, b, c, d]) == DigitValue(a) * 1000 + DigitValue(b) * 100 + DigitValue(c) * 10 + DigitValue(d)
  {
    DecimalValue2(a, b);
    DecimalValueSnoc([a, b], c);
    assert [a, b, c] == [a, b] + [c];
    DecimalValueSnoc([a, b, c], d);
    assert [a, b, c, d] == [a, b, c] + [d];
  }

  /** `str(n)` for a natural number: the canonical digits, no leading zero. */
  function NatToDecimal(n: nat): string {
    if n < 10 then [DigitChar(n)] else NatToDecimal(n / 10) + [DigitChar(n % 10)]
  }

  /** `str(n)` is a non-empty run of digits without a leading zero. */
  lemma {:induction false} NatToDecimalShape(n: nat)
    ensures var r := NatToDecimal(n); |r| > 0 && AllDigits(r) && (|r| > 1 ==> r[0] != '0')
  {
    if n >= 10 {
      NatToDecimalShape(n / 10);
    }
  }

  /** Reading back what `str(n)` writes gives `n`. */
  lemma {:induction false} DecimalRoundTrip(n: nat)
    ensures AllDigits(NatToDecimal(n)) && DecimalValue(NatToDecimal(n)) == n
  {
    NatToDecimalShape(n);
    if n >= 10 {
      var r := NatToDecimal(n);
      assert r[..|r| - 1] == NatToDecimal(n / 10);
      DecimalRoundTrip(n / 10);
    }
  }

  /** `str(i)` for any integer. */
  function IntToDecimal(i: int): string {
    if i < 0 then "-" + NatToDecimal(-i) else NatToDecimal(i)
  }

  /** `str(i)` starts with a digit or a minus sign and ends with a digit. */
  lemma IntToDecimalShape(i: int)
    ensures var r := IntToDecimal(i); |r| > 0 && (IsDigit(r[0]) || r[0] == '-') && IsDigit(r[|r| - 1])
  {
    NatToDecimalShape(if i < 0 then -i else i);
  }

  /** `"%0<width>d" % n`: the digits of `n`, left-padded with zeros. */
  function ZeroPad(n: nat, width: nat): string
    decreases width
  {
    if |NatToDecimal(n)| >= width then NatToDecimal(n) else "0" + ZeroPad(n, width - 1)
  }

  /** Zero padding gives a non-empty run of digits at least `width` long. */
  lemma {:induction false} ZeroPadShape(n: nat, width: nat)
    decreases width
    ensures var r := ZeroPad(n, width); |r| > 0 && |r| >= width && AllDigits(r)
  {
    NatToDecimalShape(n);
    if |NatToDecimal(n)| < width {
      ZeroPadShape(n, width - 1);
    }
  }

  /** Upper-casing leaves digits as they are. */
  lemma UpperOfDigits(s: string)
    requires AllDigits(s)
    ensures Upper(s) == s
  {
  }

  /** A run of `k` zeros. */
  function Zeros(k: nat): (z: string)
    ensures |z| == k && AllDigits(z)
  {
    if k == 0 then [] else "0" + Zeros(k - 1)
  }

  /** Powers of ten. */
  function Pow10(k: nat): (p: nat)
    ensures p >= 1
  {
    if k == 0 then 1 else 10 * Pow10(k - 1)
  }

  /** A leading zero adds nothing to a decimal's value. */
  lemma {:induction false} DecimalValueZeroPrefix(s: string)
    requires AllDigits(s)
    ensures AllDigits("0" + s) && DecimalValue("0" + s) == DecimalValue(s)
    decreases |s|
  {
    if s != [] {
      var n := |s| - 1;
      DecimalValueZeroPrefix(s[..n]);
      assert ("0" + s)[..n + 1] == "0" + s[..n];
    }
  }

  /** Any number of leading zeros adds nothing to a decimal's value. */
  lemma {:induction false} DecimalValueZeros(k: nat, s: string)
    requires AllDigits(s)
    ensures AllDigits(Zeros(k) + s) && DecimalValue(Zeros(k) + s) == DecimalValue(s)
  {
    if k > 0 {
      DecimalValueZeros(k - 1, s);
      assert Zeros(k) + s == "0" + (Zeros(k - 1) + s);
      DecimalValueZeroPrefix(Zeros(k - 1) + s);
    } else {
      assert Zeros(k) + s == s;
    }
  }

  /** A run of digits without its leading zeros, keeping at least one digit. */
  function DropLeadingZeros(ds: string): (r: string)
    ensures |r| <= |ds| && (ds != [] ==> r != [])
    ensures ds == Zeros(|ds| - |r|) + r
    ensures |r| > 1 ==> r[0] != '0'
    ensures AllDigits(ds) ==> AllDigits(r)
  {
    if |ds| > 1 && ds[0] == '0' then
      var r := DropLeadingZeros(ds[1..]);
      assert ds == "0" + ds[1..];
      r
    else ds
  }

  /** A run of digits without a leading zero is what `str` writes for its value. */
  lemma {:induction false} CanonicalDecimal(ds: string)
    requires |ds| > 0 && AllDigits(ds) && (|ds| > 1 ==> ds[0] != '0')
    ensures NatToDecimal(DecimalValue(ds)) == ds
    decreases |ds|
  {
    var n := |ds| - 1;
    var p := ds[..n];
    var c := ds[n];
    if n == 0 {
      assert ds == [c];
      assert DigitChar(DigitValue(c)) == c;
    } else {
      CanonicalDecimal(p);
      var v := DecimalValue(ds);
      assert v / 10 == DecimalValue(p) && v % 10 == DigitValue(c);
      assert DigitChar(DigitValue(c)) == c;
      assert ds == p + [c];
    }
  }

  /** `str(int(ds))` for a run of digits: the run without its leading zeros. */
  lemma DigitsCanonical(ds: string)
    requires ds != [] && AllDigits(ds)
    ensures NatToDecimal(DecimalValue(ds)) == DropLeadingZeros(ds)
  {
    var r := DropLeadingZeros(ds);
    DecimalValueZeros(|ds| - |r|, r);
    CanonicalDecimal(r);
  }

  /** Zero padding is the zeros that make up the width, then `str(n)`. */
  lemma {:induction false} ZeroPadZeros(n: nat, width: nat)
    requires |NatToDecimal(n)| <= width
    ensures ZeroPad(n, width) == Zeros(width - |NatToDecimal(n)|) + NatToDecimal(n)
    decreases width
  {
    if |NatToDecimal(n)| < width {
      ZeroPadZeros(n, width - 1);
    }
  }

  /** Zero padding keeps the value. */
  lemma ZeroPadValue(n: nat, width: nat)
    ensures AllDigits(ZeroPad(n, width)) && DecimalValue(ZeroPad(n, width)) == n
  {
    NatToDecimalShape(n);
    DecimalRoundTrip(n);
    if |NatToDecimal(n)| <= width {
      ZeroPadZeros(n, width);
      DecimalValueZeros(width - |NatToDecimal(n)|, NatToDecimal(n));
    }
  }

  /** A number below `10^width` takes at most `width` digits. */
  lemma {:induction false} NatToDecimalLength(n: nat, width: nat)
    requires width >= 1 && n < Pow10(width)
    ensures |NatToDecimal(n)| <= width
  {
    if n >= 10 {
      assert width >= 2;
      NatToDecimalLength(n / 10, width - 1);
    }
  }

  /** A number below `10^width` zero-padded to `width` takes exactly `width` digits. */
  lemma ZeroPadLength(n: nat, width: nat)
    requires width >= 1 && n < Pow10(width)
    ensures |ZeroPad(n, width)| == width
  {
    NatToDecimalLength(n, width);
    ZeroPadZeros(n, width);
  }

  /** Zero padding a run of digits to its own length gives it back. */
  lemma ZeroPadOfDigits(ds: string)
    requires ds != [] && AllDigits(ds)
    ensures ZeroPad(DecimalValue(ds), |ds|) == ds
  {
    DigitsCanonical(ds);
    ZeroPadZeros(DecimalValue(ds), |ds|);
  }

  /** Python's `int(s)` on a string, restricted to ASCII digits: optional
      surrounding whitespace, an optional sign, and at least one digit. */
  function ParseInteger(s: string): (r: Option<int>)
    ensures r.Some? <==>
      var t := Strip(s);
      |t| > 0 &&
      ((t[0] == '+' || t[0] == '-') ==> |t| > 1 && AllDigits(t[1..])) &&
      (!(t[0] == '+' || t[0] == '-') ==> AllDigits(t))
    ensures r.Some? ==>
      var t := Strip(s);
      var ds := if t[0] == '+' || t[0] == '-' then t[1..] else t;
      r.value == if t[0] == '-' then -(DecimalValue(ds) as int) else DecimalValue(ds)
  {
    var t := Strip(s);
    if t == [] then None
    else if t[0] == '-' || t[0] == '+' then
      var ds := t[1..];
      if ds != [] && AllDigits(ds) then
        var v: int := DecimalValue(ds);
        Some(if t[0] == '-' then -v else v)
      else None
    else if AllDigits(t) then Some(DecimalValue(t))
    else None
  }

  /** What `int` accepts is, past the blanks, an optional sign and the
      digits `str` writes for the value's magnitude, after any number of
      leading zeros; only a minus sign gives a negative value. */
  lemma ParseIntegerCanonical(s: string)
    requires ParseInteger(s).Some?
    ensures var t := Strip(s);
      var v := ParseInteger(s).value;
      var ds := if t[0] == '+' || t[0] == '-' then t[1..] else t;
      DropLeadingZeros(ds) == NatToDecimal(if v < 0 then -v else v) && (v < 0 ==> t[0] == '-')
  {
    var t := Strip(s);
    DigitsCanonical(if t[0] == '+' || t[0] == '-' then t[1..] else t);
  }

  /** `int` reads digits after leading zeros: `int("007") == 7`. */
  lemma ParseIntegerLeadingZeros(k: nat, n: nat)
    ensures ParseInteger(Zeros(k) + NatToDecimal(n)) == Some(n)
  {
    var d := NatToDecimal(n);
    var s := Zeros(k) + d;
    NatToDecimalShape(n);
    DecimalRoundTrip(n);
    DecimalValueZeros(k, d);
    assert IsDigit(s[0]) && IsDigit(s[|s| - 1]);
    StripFixed(s);
  }

  /** `int(str(i)) == i`: parsing what `str` writes for an integer gives it back. */
  lemma IntDecimalRoundTrip(i: int)
    ensures ParseInteger(IntToDecimal(i)) == Some(i)
  {
    if i < 0 {
      NegativeDecimalParse(-i);
    } else {
      NatDecimalParse(i);
    }
  }

  lemma NatDecimalParse(n: nat)
    ensures ParseInteger(NatToDecimal(n)) == Some(n)
  {
    var s := NatToDecimal(n);
    NatToDecimalShape(n);
    StripFixed(s);
    DecimalRoundTrip(n);
    assert IsDigit(s[0]);
  }

  lemma NegativeDecimalParse(n: nat)
    requires n > 0
    ensures ParseInteger("-" + NatToDecimal(n)) == Some(-(n as int))
  {
    var d := NatToDecimal(n);
    var s := "-" + d;
    NatToDecimalShape(n);
    assert s[0] == '-' && s[|s| - 1] == d[|d| - 1];
    StripFixed(s);
    assert s[1..] == d;
    DecimalRoundTrip(n);
  }
}
