/**
 * The form validator for a "lng,lat" coordinate text: strip one outer
 * bracket pair, drop white space, split on commas, and check each of the
 * two fields against a decimal grammar and a range.
 */
module LngLat {

  import opened Types
  import opened JsString

  /** The error object `{invalidLngLat: {value}}`, carrying the unnormalised input. */
  datatype LngLatError = InvalidLngLat(value: string)

  // ---------------------------------------------------------------------
  // Normalisation
  // ---------------------------------------------------------------------

  /**
   * `replace(/^([[(])(.*)([\])])$/, '$2')`: when the text opens with `[` or
   * `(`, closes with `]` or `)` and has no line terminator in between, keep
   * what is in between. The two brackets need not match.
   */
  function StripBrackets(s: string): (r: string)
    ensures r == s || (|s| >= 2 && r == s[1..|s| - 1])
    ensures r != s <==> (|s| >= 2 && (s[0] == '[' || s[0] == '(') && (s[|s| - 1] == ']' || s[|s| - 1] == ')') &&
      forall i :: 0 <= i < |r| ==> !IsLineTerminator(r[i]))
  {
    if |s| >= 2 && (s[0] == '[' || s[0] == '(') && (s[|s| - 1] == ']' || s[|s| - 1] == ')') &&
       forall i :: 1 <= i < |s| - 1 ==> !IsLineTerminator(s[i])
    then s[1..|s| - 1]
    else s
  }

  /** `replaceAll(/\s+/g, '')` */
  function RemoveWhitespace(s: string): (r: string)
    ensures |r| <= |s|
    ensures forall i :: 0 <= i < |r| ==> !IsJsSpace(r[i])
    ensures forall c {:trigger multiset(r)[c]} :: !IsJsSpace(c) ==> multiset(r)[c] == multiset(s)[c]
    decreases |s|
  {
    if s == [] then []
    else
      assert s == [s[0]] + s[1..];
      (if IsJsSpace(s[0]) then [] else [s[0]]) + RemoveWhitespace(s[1..])
  }

  /** Removing white space works on each part of a text separately, so what is kept stays in order. */
  lemma {:induction false} RemoveWhitespaceAppend(a: string, b: string)
    ensures RemoveWhitespace(a + b) == RemoveWhitespace(a) + RemoveWhitespace(b)
    decreases |a|
  {
    if a == [] {
      assert a + b == b;
    } else {
      assert a == [a[0]] + a[1..];
      assert a + b == [a[0]] + (a[1..] + b);
      RemoveWhitespaceCons(a[0], a[1..]);
      RemoveWhitespaceCons(a[0], a[1..] + b);
      RemoveWhitespaceAppend(a[1..], b);
    }
  }

  lemma RemoveWhitespaceCons(c: char, t: string)
    ensures RemoveWhitespace([c] + t) == (if IsJsSpace(c) then [] else [c]) + RemoveWhitespace(t)
  {
    assert ([c] + t)[0] == c && ([c] + t)[1..] == t;
  }

  /** The text the fields are split from. */
  function Normalized(s: string): string {
    RemoveWhitespace(StripBrackets(s))
  }

  // ---------------------------------------------------------------------
  // One field: /^-?\d{1,3}\.\d{6,}$/ and the range check
  // ---------------------------------------------------------------------

  /** The field without its leading minus sign. */
  function Unsigned(f: string): string {
    if |f| > 0 && f[0] == '-' then f[1..] else f
  }

  /** Number of digits before the first non-digit. */
  function LeadingDigits(s: string): (k: nat)
    ensures k <= |s|
    ensures forall i :: 0 <= i < k ==> IsDigit(s[i])
    ensures k == |s| || !IsDigit(s[k])
    decreases |s|
  {
    if s == [] || !IsDigit(s[0]) then 0 else 1 + LeadingDigits(s[1..])
  }

  predicate AllDigits(s: string) {
    forall i :: 0 <= i < |s| ==> IsDigit(s[i])
  }

  /** The decimal grammar: an optional `-`, 1 to 3 digits, `.`, then at least 6 digits. */
  predicate MatchesCoordinate(f: string)
    ensures MatchesCoordinate(f) ==> (|f| >= 8 &&
      forall i :: 0 <= i < |f| ==> IsDigit(f[i]) || f[i] == '.' || f[i] == '-')
  {
    var u := Unsigned(f);
    var k := LeadingDigits(u);
    1 <= k <= 3 && k < |u| && u[k] == '.' && |u| - (k + 1) >= 6 && AllDigits(u[k + 1..])
  }

  function IntegerPart(f: string): string
    requires MatchesCoordinate(f)
  {
    Unsigned(f)[..LeadingDigits(Unsigned(f))]
  }

  function FractionPart(f: string): string
    requires MatchesCoordinate(f)
  {
    Unsigned(f)[LeadingDigits(Unsigned(f)) + 1..]
  }

  function DigitValue(c: char): nat
    requires IsDigit(c)
  {
    c as int - '0' as int
  }

  /** The natural number a string of decimal digits denotes. */
  function DigitsValue(ds: string): nat
    requires AllDigits(ds)
  {
    if ds == [] then 0 else DigitsValue(ds[..|ds| - 1]) * 10 + DigitValue(ds[|ds| - 1])
  }

  function Pow10(n: nat): (p: nat)
    ensures p >= 1
  {
    if n == 0 then 1 else 10 * Pow10(n - 1)
  }

  /**
   * `Math.abs(+f) <= bound`, compared exactly: the field's absolute value is
   * intPart + fracPart / 10^|fracPart|, so compare after scaling both sides.
   */
  predicate WithinBound(f: string, bound: nat)
    requires MatchesCoordinate(f)
    ensures WithinBound(f, bound) ==> DigitsValue(IntegerPart(f)) <= bound
  {
    var scale := Pow10(|FractionPart(f)|);
    DigitsValueBelow(FractionPart(f));
    ScaledCompare(DigitsValue(IntegerPart(f)), DigitsValue(FractionPart(f)), scale, bound);
    DigitsValue(IntegerPart(f)) * scale + DigitsValue(FractionPart(f)) <= bound * scale
  }

  predicate FieldValid(f: string, bound: nat) {
    MatchesCoordinate(f) && WithinBound(f, bound)
  }

  const LngBound: nat := 180
  const LatBound: nat := 90

  // ---------------------------------------------------------------------
  // The validator
  // ---------------------------------------------------------------------

  /**
   * lngLatValidator. `value` None is the control's null value; the result
   * None is the validator's null (no error).
   */
  function LngLatValidator(value: Option<string>): (r: Option<LngLatError>)
    ensures value.None? ==> r.None?
    ensures r.Some? ==> value.Some? && r.value == InvalidLngLat(value.value)
  {
    match value
    case None => None
    case Some(s) =>
      var normalizedValue := Split(Normalized(s), ',');
      var isValid := |normalizedValue| == 2 &&
        FieldValid(normalizedValue[0], LngBound) && FieldValid(normalizedValue[1], LatBound);
      if isValid || normalizedValue[0] == "" then None else Some(InvalidLngLat(s))
  }

  // ---------------------------------------------------------------------
  // What the validator accepts
  // ---------------------------------------------------------------------

  /** The first field is empty exactly when the normalised text is empty or starts with a comma. */
  lemma FirstFieldEmpty(n: string)
    ensures Split(n, ',')[0] == "" <==> n == "" || n[0] == ','
  {
    if n != [] {
      var rest := Split(n[1..], ',');
      if n[0] != ',' {
        assert Split(n, ',')[0] == [n[0]] + rest[0];
      }
    }
  }

  /** The normalised text splits into exactly two fields exactly when it holds exactly one comma. */
  lemma TwoFields(n: string)
    ensures |Split(n, ',')| == 2 <==>
      exists i :: 0 <= i < |n| && n[i] == ',' && ',' !in n[..i] && ',' !in n[i + 1..]
    ensures forall i :: 0 <= i < |n| && n[i] == ',' && ',' !in n[..i] && ',' !in n[i + 1..] ==>
      Split(n, ',') == [n[..i], n[i + 1..]]
  {
    forall i | 0 <= i < |n| && n[i] == ',' && ',' !in n[..i] && ',' !in n[i + 1..]
      ensures Split(n, ',') == [n[..i], n[i + 1..]]
    {
      OneComma(n, i);
    }
    if |Split(n, ',')| == 2 {
      TwoPieces(n);
    }
  }

  lemma OneComma(n: string, i: nat)
    requires i < |n| && n[i] == ',' && ',' !in n[..i] && ',' !in n[i + 1..]
    ensures Split(n, ',') == [n[..i], n[i + 1..]]
  {
    var parts := [n[..i], n[i + 1..]];
    assert parts[1..] == [n[i + 1..]];
    assert Join(parts, ',') == n;
    SplitJoin(parts, ',');
  }

  lemma TwoPieces(n: string)
    requires |Split(n, ',')| == 2
    ensures var i := |Split(n, ',')[0]|;
      i < |n| && n[i] == ',' && ',' !in n[..i] && ',' !in n[i + 1..]
  {
    var parts := Split(n, ',');
    var i := |parts[0]|;
    assert parts[1..] == [parts[1]];
    assert Join(parts[1..], ',') == parts[1];
    assert n == parts[0] + [','] + parts[1];
    assert n[..i] == parts[0] && n[i + 1..] == parts[1];
  }

  /**
   * The validator accepts a text exactly when it is null, its first
   * normalised field is empty, or the normalised text is one valid
   * longitude, one comma and one valid latitude.
   */
  lemma ValidatorAccepts(s: string)
    ensures LngLatValidator(Some(s)).None? <==>
      var n := Normalized(s);
      || n == "" || n[0] == ','
      || exists i :: 0 <= i < |n| && n[i] == ',' && ',' !in n[..i] && ',' !in n[i + 1..] &&
           FieldValid(n[..i], LngBound) && FieldValid(n[i + 1..], LatBound)
  {
    var n := Normalized(s);
    FirstFieldEmpty(n);
    TwoFields(n);
  }

  lemma {:induction false} DigitsValueBelow(ds: string)
    requires AllDigits(ds)
    ensures DigitsValue(ds) < Pow10(|ds|)
    decreases |ds|
  {
    if ds != [] {
      DigitsValueBelow(ds[..|ds| - 1]);
    }
  }

  lemma {:induction false} DigitsValueZero(ds: string)
    requires AllDigits(ds)
    ensures DigitsValue(ds) == 0 <==> forall i :: 0 <= i < |ds| ==> ds[i] == '0'
    decreases |ds|
  {
    if ds != [] {
      DigitsValueZero(ds[..|ds| - 1]);
      assert forall i :: 0 <= i < |ds| - 1 ==> ds[..|ds| - 1][i] == ds[i];
    }
  }

  /**
   * The exact range check reads as: the integer part is below the bound, or
   * equals it and every fraction digit is 0.
   */
  lemma WithinBoundDigits(f: string, bound: nat)
    requires MatchesCoordinate(f)
    ensures WithinBound(f, bound) <==>
      DigitsValue(IntegerPart(f)) < bound ||
      (DigitsValue(IntegerPart(f)) == bound && forall i :: 0 <= i < |FractionPart(f)| ==> FractionPart(f)[i] == '0')
  {
    DigitsValueBelow(FractionPart(f));
    DigitsValueZero(FractionPart(f));
    ScaledCompare(DigitsValue(IntegerPart(f)), DigitsValue(FractionPart(f)), Pow10(|FractionPart(f)|), bound);
  }

  /** ip + fp / scale <= bound, for 0 <= fp < scale, decided on the integer and fraction parts. */
  lemma ScaledCompare(ip: nat, fp: nat, scale: nat, bound: nat)
    requires fp < scale
    ensures ip * scale + fp <= bound * scale <==> ip < bound || (ip == bound && fp == 0)
  {
    if ip < bound {
      MulMonotone(ip + 1, bound, scale);
      assert (ip + 1) * scale == ip * scale + scale;
    } else if ip > bound {
      MulMonotone(bound + 1, ip, scale);
      assert (bound + 1) * scale == bound * scale + scale;
    }
  }

  lemma MulMonotone(a: nat, b: nat, c: nat)
    requires a <= b
    ensures a * c <= b * c
  {
    assert b * c == a * c + (b - a) * c;
  }

  lemma EmptyFirstFieldExamples()
    ensures LngLatValidator(Some("")) == None
    ensures LngLatValidator(Some("()")) == None
    ensures LngLatValidator(Some(",5")) == None
  {
    assert StripBrackets("()") == "";
    assert Normalized("()") == "";
    FirstFieldEmpty("");
    NormalizedCommaFive();
    FirstFieldEmpty(",5");
  }

  lemma NormalizedCommaFive()
    ensures Normalized(",5") == ",5"
  {
    assert StripBrackets(",5") == ",5";
    assert !IsJsSpace(',') && !IsJsSpace('5');
    assert RemoveWhitespace("5") == ['5'] + RemoveWhitespace("");
    assert RemoveWhitespace(",5") == [','] + RemoveWhitespace("5");
  }
}
