/** The number syntax the analyzer accepts through Rust's `str::parse`:
    `u32` (crew size and duration) and `f64` (success rate), and the decimal
    rendering Rust's `Display` gives unsigned integers. Only whether a float
    parses is modelled; its value is not. */
module Numeric {
  import opened Text

  datatype Option<T> = None | Some(value: T)

  /** The largest `u32`. */
  const U32_MAX: nat := 0xFFFF_FFFF

  predicate IsDigit(c: char) {
    '0' <= c <= '9'
  }

  predicate AllDigits(s: string) {
    forall i :: 0 <= i < |s| ==> IsDigit(s[i])
  }

  function DigitValue(c: char): (d: nat)
    requires IsDigit(c)
    ensures d < 10
  {
    c as int - '0' as int
  }

  function DigitChar(d: nat): (c: char)
    requires d < 10
    ensures IsDigit(c) && DigitValue(c) == d
  {
    ('0' as int + d) as char
  }

  /** The value of a string of decimal digits, most significant first. */
  function DigitsValue(s: string): nat
    requires AllDigits(s)
  {
    if s == [] then 0 else DigitsValue(s[..|s| - 1]) * 10 + DigitValue(s[|s| - 1])
  }

  /** Rust's `Display` for an unsigned integer: the shortest decimal numeral,
      which reads back as `n` and has no leading zero. */
  function FormatNat(n: nat): (s: string)
    ensures |s| >= 1 && AllDigits(s)
    ensures DigitsValue(s) == n
    ensures s[0] == '0' ==> n == 0
  {
    if n < 10 then [DigitChar(n)]
    else
      var s := FormatNat(n / 10) + [DigitChar(n % 10)];
      assert s[..|s| - 1] == FormatNat(n / 10);
      s
  }

  /** Rust's `u32::from_str`: an optional leading `+`, then at least one ASCII
      digit and nothing else, and a value that fits in 32 bits. A leading `-`
      is not a sign for an unsigned type, so "-5" and "-0" are rejected. */
  function ParseU32(s: string): (r: Option<nat>)
    ensures r.Some? ==> r.value <= U32_MAX
  {
    if s == [] then None
    else
      var digits := if s[0] == '+' then s[1..] else s;
      if digits == [] || !AllDigits(digits) then None
      else
        var v := DigitsValue(digits);
        if v <= U32_MAX then Some(v) else None
  }

  /** Every `u32` rendered by `Display` parses back to itself, with or without a `+`. */
  lemma ParseFormatRoundTrip(n: nat)
    requires n <= U32_MAX
    ensures ParseU32(FormatNat(n)) == Some(n)
    ensures ParseU32("+" + FormatNat(n)) == Some(n)
  {
    assert ("+" + FormatNat(n))[1..] == FormatNat(n);
  }

  /** A numeral too large for 32 bits is rejected rather than wrapped. */
  lemma ParseRejectsOverflow(n: nat)
    requires n > U32_MAX
    ensures ParseU32(FormatNat(n)) == None
  {
  }

  /** Leading zeros are accepted and do not change the value. */
  lemma {:induction false} LeadingZerosIgnored(z: string, d: string)
    requires AllDigits(d) && forall i :: 0 <= i < |z| ==> z[i] == '0'
    ensures AllDigits(z + d) && DigitsValue(z + d) == DigitsValue(d)
  {
    if d == [] {
      assert z + d == z;
      AllZerosValue(z);
    } else {
      assert (z + d)[..|z + d| - 1] == z + d[..|d| - 1];
      LeadingZerosIgnored(z, d[..|d| - 1]);
    }
  }

  lemma {:induction false} AllZerosValue(z: string)
    requires forall i :: 0 <= i < |z| ==> z[i] == '0'
    ensures AllDigits(z) && DigitsValue(z) == 0
  {
    if z != [] {
      AllZerosValue(z[..|z| - 1]);
    }
  }

  /** Anything that starts with `-` is rejected: a `u32` has no negative values. */
  lemma ParseRejectsMinus(s: string)
    requires s != [] && s[0] == '-'
    ensures ParseU32(s) == None
  {
  }

  /** The value a successful parse returns is the one the numeral denotes: the
      text is an optional `+`, then zeros, then the `Display` form of the value. */
  lemma ParseU32Inverse(s: string)
    requires ParseU32(s).Some?
    ensures var v := ParseU32(s).value;
            exists z: nat :: (s == ['+'] + Zeros(z) + FormatNat(v) || s == Zeros(z) + FormatNat(v))
  {
    var v := ParseU32(s).value;
    var digits := if s[0] == '+' then s[1..] else s;
    var z := CanonicalDigits(digits);
    assert digits == Zeros(z) + FormatNat(v);
    if s[0] == '+' {
      assert s == ['+'] + Zeros(z) + FormatNat(v);
    }
  }

  /** The converse of `ParseU32Inverse`: any number of leading zeros, with
      or without a `+` in front, still parses to the value when it fits. */
  lemma ParseZeroPadded(z: nat, v: nat)
    requires v <= U32_MAX
    ensures ParseU32(Zeros(z) + FormatNat(v)) == Some(v)
    ensures ParseU32(['+'] + (Zeros(z) + FormatNat(v))) == Some(v)
  {
    var d := Zeros(z) + FormatNat(v);
    LeadingZerosIgnored(Zeros(z), FormatNat(v));
    ParseDigits(d);
    ParsePlus(d);
  }

  lemma ParseDigits(d: string)
    requires d != [] && AllDigits(d) && DigitsValue(d) <= U32_MAX
    ensures ParseU32(d) == Some(DigitsValue(d))
  {
    assert IsDigit(d[0]);
  }

  /** A `+` in front of a digit string does not change its parse. */
  lemma ParsePlus(d: string)
    requires d != [] && AllDigits(d)
    ensures ParseU32(['+'] + d) == ParseU32(d)
  {
    assert IsDigit(d[0]);
    assert (['+'] + d)[1..] == d;
  }

  function Zeros(n: nat): (z: string)
    ensures |z| == n && forall i :: 0 <= i < n ==> z[i] == '0'
  {
    if n == 0 then [] else Zeros(n - 1) + ['0']
  }

  lemma ZerosCons(n: nat)
    ensures Zeros(n + 1) == ['0'] + Zeros(n)
  {
    assert forall i :: 0 <= i < n + 1 ==> Zeros(n + 1)[i] == (['0'] + Zeros(n))[i];
  }

  /** A non-empty digit string is its `Display` form behind `z` leading zeros. */
  lemma {:induction false} CanonicalDigits(d: string) returns (z: nat)
    requires d != [] && AllDigits(d)
    ensures z < |d| && d == Zeros(z) + FormatNat(DigitsValue(d))
  {
    if d[0] == '0' && |d| > 1 {
      var rest := d[1..];
      var z' := CanonicalDigits(rest);
      LeadingZerosIgnored(['0'], rest);
      assert ['0'] + rest == d;
      var f := FormatNat(DigitsValue(rest));
      assert FormatNat(DigitsValue(d)) == f;
      z := z' + 1;
      ZerosCons(z');
      assert Zeros(z) + f == ['0'] + (Zeros(z') + f);
    } else {
      z := 0;
      FormatOfCanonical(d);
      assert Zeros(0) + d == d;
    }
  }

  /** A digit string without a leading zero (or the single digit "0") is the
      `Display` form of its own value. */
  lemma {:induction false} FormatOfCanonical(d: string)
    requires d != [] && AllDigits(d) && (d[0] != '0' || |d| == 1)
    ensures FormatNat(DigitsValue(d)) == d
  {
    if |d| == 1 {
      assert DigitsValue(d) == DigitValue(d[0]);
      assert DigitChar(DigitValue(d[0])) == d[0];
    } else {
      var p := d[..|d| - 1];
      FormatOfCanonical(p);
      PositiveLeadingDigit(p);
      var v := DigitsValue(d);
      assert v / 10 == DigitsValue(p) && v % 10 == DigitValue(d[|d| - 1]);
      assert DigitChar(DigitValue(d[|d| - 1])) == d[|d| - 1];
      assert p + [d[|d| - 1]] == d;
    }
  }

  lemma {:induction false} PositiveLeadingDigit(d: string)
    requires d != [] && AllDigits(d) && d[0] != '0'
    ensures DigitsValue(d) >= 1
  {
    if |d| > 1 {
      PositiveLeadingDigit(d[..|d| - 1]);
    }
  }

  /** The states of a recogniser for Rust's decimal float syntax
      `(Digit+ | Digit+ '.' Digit* | Digit* '.' Digit+) (('e' | 'E') Sign? Digit+)?`. */
  datatype FloatState =
    | Start       // nothing read yet
    | Whole       // digits before any point
    | BarePoint   // a point with no digit before it
    | Fraction    // a point after a digit, or digits after the point
    | ExpMark     // `e` or `E`
    | ExpSign     // the exponent's sign
    | ExpDigits   // digits of the exponent
    | Reject

  function FloatStep(st: FloatState, c: char): FloatState {
    match st
    case Start => if IsDigit(c) then Whole else if c == '.' then BarePoint else Reject
    case Whole =>
      if IsDigit(c) then Whole else if c == '.' then Fraction
      else if c == 'e' || c == 'E' then ExpMark else Reject
    case BarePoint => if IsDigit(c) then Fraction else Reject
    case Fraction =>
      if IsDigit(c) then Fraction else if c == 'e' || c == 'E' then ExpMark else Reject
    case ExpMark =>
      if IsDigit(c) then ExpDigits else if c == '+' || c == '-' then ExpSign else Reject
    case ExpSign => if IsDigit(c) then ExpDigits else Reject
    case ExpDigits => if IsDigit(c) then ExpDigits else Reject
    case Reject => Reject
  }

  function FloatRun(st: FloatState, s: string): FloatState
    decreases |s|
  {
    if s == [] then st else FloatRun(FloatStep(st, s[0]), s[1..])
  }

  predicate IsDecimalNumber(s: string) {
    FloatRun(Start, s) in {Whole, Fraction, ExpDigits}
  }

  /** Rust's `f64::from_str` grammar: an optional sign, then a decimal number,
      or one of `inf`, `infinity`, `nan` in any letter case. */
  predicate IsFloatLiteral(s: string): (ok: bool)
    ensures ok ==> s != []
    ensures ok && s[0] != '+' && s[0] != '-' ==> IsDecimalNumber(s) || |s| == 3 || |s| == 8
  {
    var body := if s != [] && (s[0] == '+' || s[0] == '-') then s[1..] else s;
    || IsDecimalNumber(body)
    || EqIgnoreAsciiCase(body, "inf")
    || EqIgnoreAsciiCase(body, "infinity")
    || EqIgnoreAsciiCase(body, "nan")
  }

  /** The characters a float literal may contain: digits, signs, the point,
      and ASCII letters (the exponent mark and the words `inf` and `nan`). */
  predicate IsFloatChar(c: char) {
    IsDigit(c) || c == '+' || c == '-' || c == '.' || ('a' <= c <= 'z') || ('A' <= c <= 'Z')
  }

  /** Only float characters move the recogniser anywhere but `Reject`. */
  lemma {:induction false} FloatRunChars(st: FloatState, s: string)
    requires FloatRun(st, s) != Reject
    ensures forall i :: 0 <= i < |s| ==> IsFloatChar(s[i])
    decreases |s|
  {
    if s != [] {
      var next := FloatStep(st, s[0]);
      RejectAbsorbs(s[1..]);
      assert next != Reject;
      FloatRunChars(next, s[1..]);
      assert forall i :: 1 <= i < |s| ==> s[i] == s[1..][i - 1];
    }
  }

  lemma {:induction false} RejectAbsorbs(s: string)
    ensures FloatRun(Reject, s) == Reject
  {
    if s != [] {
      RejectAbsorbs(s[1..]);
    }
  }

  lemma SpecialFloatChars(s: string, word: string)
    requires EqIgnoreAsciiCase(s, word)
    requires forall i :: 0 <= i < |word| ==> 'a' <= word[i] <= 'z'
    ensures forall i :: 0 <= i < |s| ==> IsFloatChar(s[i])
  {
    forall i | 0 <= i < |s| ensures IsFloatChar(s[i]) {
      assert ToAsciiLower(s[i]) == ToAsciiLower(word[i]) == word[i];
    }
  }

  /** A float literal is never empty and contains neither the field separator
      `|` nor the CSV column separator `,`. */
  lemma FloatLiteralShape(s: string)
    requires IsFloatLiteral(s)
    ensures s != []
    ensures forall i :: 0 <= i < |s| ==> IsFloatChar(s[i])
    ensures ',' !in s && '|' !in s
  {
    var signed := s != [] && (s[0] == '+' || s[0] == '-');
    var body := if signed then s[1..] else s;
    assert body != [] && forall i :: 0 <= i < |body| ==> IsFloatChar(body[i]) by {
      if IsDecimalNumber(body) {
        FloatRunChars(Start, body);
      } else if EqIgnoreAsciiCase(body, "inf") {
        SpecialFloatChars(body, "inf");
      } else if EqIgnoreAsciiCase(body, "infinity") {
        SpecialFloatChars(body, "infinity");
      } else {
        SpecialFloatChars(body, "nan");
      }
    }
    if signed {
      forall i | 1 <= i < |s| ensures IsFloatChar(s[i]) {
        assert s[i] == body[i - 1];
      }
    }
    assert forall i :: 0 <= i < |s| ==> s[i] != ',' && s[i] != '|';
  }

  /** The source's own sample values, and a trailing dot, are accepted. */
  lemma FloatLiteralExamples()
    ensures IsFloatLiteral("98.7") && IsFloatLiteral("95.0") && IsFloatLiteral("100")
    ensures IsFloatLiteral("7.")
  {
  }

  /** Shapes Rust's `f64::from_str` rejects. */
  lemma FloatLiteralCounterexamples()
    ensures !IsFloatLiteral("") && !IsFloatLiteral(".") && !IsFloatLiteral("abc")
    ensures !IsFloatLiteral("1e") && !IsFloatLiteral("1.2.3")
  {
  }
}
