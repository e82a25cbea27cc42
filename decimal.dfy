/**
  Decimal digit strings and the unsigned parse that tryParseTileXYZ applies to every
  captured group: `strconv.ParseUint(s, 10, 32)` (base 10, result must fit in 32 bits).
*/
module Decimal {
  import opened Wrappers

  /** One more than the largest 32-bit unsigned value. */
  const Uint32Limit: nat := 0x1_0000_0000

  predicate IsDigit(c: char) {
    '0' <= c <= '9'
  }

  predicate AllDigits(s: string) {
    forall i | 0 <= i < |s| :: IsDigit(s[i])
  }

  function DigitValue(c: char): (d: nat)
    requires IsDigit(c)
    ensures d < 10
  {
    c as int - '0' as int
  }

  function DigitChar(d: nat): (c: char)
    requires d < 10
    ensures IsDigit(c) && DigitValue(c) == d
  {
    ('0' as int + d) as char
  }

  function Pow10(n: nat): (p: nat)
    ensures p >= 1
  {
    if n == 0 then 1 else 10 * Pow10(n - 1)
  }

  /** The number a digit string denotes, most significant digit first; leading zeros allowed. */
  function Value(s: string): (v: nat)
    requires AllDigits(s)
    ensures v < Pow10(|s|)
  {
    if s == [] then 0 else 10 * Value(s[..|s| - 1]) + DigitValue(s[|s| - 1])
  }

  /** The two ways strconv.ParseUint fails. */
  datatype NumError = ErrSyntax | ErrRange

  /**
    strconv.ParseUint(s, 10, 32): the empty string is a syntax error; otherwise the
    characters are consumed left to right, a non-digit is a syntax error and an
    accumulated value above 2^32 - 1 is a range error, whichever comes first.
  */
  function ParseUint32(s: string): (r: Result<nat, NumError>)
    ensures r.Success? ==> r.value < Uint32Limit
  {
    if s == [] then Failure(ErrSyntax) else Accumulate(s, 0, 0)
  }

  /** The digit loop of ParseUint32, with `n` the value of `s[..i]`. */
  function Accumulate(s: string, i: nat, n: nat): (r: Result<nat, NumError>)
    requires i <= |s| && n < Uint32Limit
    ensures r.Success? ==> r.value < Uint32Limit
    decreases |s| - i
  {
    if i == |s| then Success(n)
    else if !IsDigit(s[i]) then Failure(ErrSyntax)
    else if 10 * n + DigitValue(s[i]) >= Uint32Limit then Failure(ErrRange)
    else Accumulate(s, i + 1, 10 * n + DigitValue(s[i]))
  }

  /** The shortest decimal spelling of `n`, as `%d` prints it. */
  function Format(n: nat): (s: string)
    ensures |s| >= 1 && AllDigits(s)
    decreases n
  {
    if n < 10 then [DigitChar(n)] else Format(n / 10) + [DigitChar(n % 10)]
  }

  lemma ValueSnoc(s: string, c: char)
    requires AllDigits(s) && IsDigit(c)
    ensures AllDigits(s + [c]) && Value(s + [c]) == 10 * Value(s) + DigitValue(c)
  {
    assert (s + [c])[..|s + [c]| - 1] == s;
  }

  /** A prefix of a digit string never denotes more than the whole string. */
  lemma {:induction false} ValuePrefixLe(s: string, k: nat)
    requires AllDigits(s) && k <= |s|
    ensures Value(s[..k]) <= Value(s)
    decreases |s|
  {
    if k < |s| {
      var t := s[..|s| - 1];
      assert t[..k] == s[..k];
      ValuePrefixLe(t, k);
    } else {
      assert s[..k] == s;
    }
  }

  lemma {:induction false} AccumulateValue(s: string, i: nat)
    requires AllDigits(s) && i <= |s| && Value(s[..i]) < Uint32Limit
    ensures Value(s) < Uint32Limit ==> Accumulate(s, i, Value(s[..i])) == Success(Value(s))
    ensures Value(s) >= Uint32Limit ==> Accumulate(s, i, Value(s[..i])) == Failure(ErrRange)
    decreases |s| - i
  {
    var v := Value(s[..i]);
    if i == |s| {
      assert s[..i] == s;
    } else {
      var c := s[i];
      var next := 10 * v + DigitValue(c);
      assert s[..i + 1] == s[..i] + [c];
      ValueSnoc(s[..i], c);
      ValuePrefixLe(s, i + 1);
      if next >= Uint32Limit {
        assert Accumulate(s, i, v) == Failure(ErrRange);
      } else {
        AccumulateValue(s, i + 1);
        assert Accumulate(s, i, v) == Accumulate(s, i + 1, next);
      }
    }
  }

  lemma {:induction false} AccumulateOnlyDigits(s: string, i: nat, n: nat)
    requires i <= |s| && n < Uint32Limit
    requires Accumulate(s, i, n).Success?
    ensures forall k | i <= k < |s| :: IsDigit(s[k])
    decreases |s| - i
  {
    if i < |s| {
      AccumulateOnlyDigits(s, i + 1, 10 * n + DigitValue(s[i]));
    }
  }

  /**
    ParseUint32 accepts exactly the non-empty digit strings whose value is below 2^32,
    and then yields that value; an all-digit string that is too large is a range error.
  */
  lemma ParseUint32Spec(s: string)
    ensures ParseUint32(s).Success?
            <==> s != [] && AllDigits(s) && Value(s) < Uint32Limit
    ensures ParseUint32(s).Success? ==> ParseUint32(s).value == Value(s)
    ensures s != [] && AllDigits(s) && Value(s) >= Uint32Limit
            ==> ParseUint32(s) == Failure(ErrRange)
  {
    if s != [] {
      if AllDigits(s) {
        assert s[..0] == [];
        AccumulateValue(s, 0);
      } else if ParseUint32(s).Success? {
        AccumulateOnlyDigits(s, 0, 0);
      }
    }
  }

  /** At most `n` digits denote a value below 10^n; in particular two digits stay below 100. */
  lemma TwoDigitsFit(s: string)
    requires AllDigits(s) && 1 <= |s| <= 2
    ensures Value(s) < 100 && ParseUint32(s) == Success(Value(s))
  {
    assert Pow10(|s|) <= 100;
    ParseUint32Spec(s);
  }

  lemma {:induction false} FormatValue(n: nat)
    ensures Value(Format(n)) == n
    decreases n
  {
    if n >= 10 {
      FormatValue(n / 10);
      ValueSnoc(Format(n / 10), DigitChar(n % 10));
    }
  }

  /** Parsing the decimal spelling of any 32-bit value gives that value back. */
  lemma ParseFormatRoundTrip(n: nat)
    requires n < Uint32Limit
    ensures ParseUint32(Format(n)) == Success(n)
  {
    FormatValue(n);
    ParseUint32Spec(Format(n));
  }
}
