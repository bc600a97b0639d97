/**
 * Decimal integer parsing as Go's `strconv.Atoi` performs it on a 64-bit
 * platform (where Go's `int` is 64 bits wide): an optional `+` or `-`, then
 * one or more ASCII digits, and a value that fits in a signed 64-bit integer.
 */
module Strconv {

  const MinInt64: int := -0x8000_0000_0000_0000
  const MaxInt64: int := 0x7FFF_FFFF_FFFF_FFFF
  const MaxUint64: int := 0xFFFF_FFFF_FFFF_FFFF

  predicate IsInt64(n: int) {
    MinInt64 <= n <= MaxInt64
  }

  /** The two failures strconv reports: `ErrSyntax` and `ErrRange`. */
  datatype NumError = ErrSyntax | ErrRange

  /**
   * Go's `(int, error)` pair. The integer Go returns beside an error
   * (0 or a clamped bound) is not part of this model.
   */
  datatype IntResult = Ok(value: int) | Err(error: NumError)

  predicate IsDigit(c: char) {
    '0' <= c <= '9'
  }

  function DigitValue(c: char): (d: nat)
    requires IsDigit(c)
    ensures d < 10
  {
    c as int - '0' as int
  }

  predicate AllDigits(s: string) {
    forall i | 0 <= i < |s| :: IsDigit(s[i])
  }

  function Pow10(n: nat): (p: nat)
    ensures p >= 1
  {
    if n == 0 then 1 else 10 * Pow10(n - 1)
  }

  /** Positional value of a digit string, most significant digit first. */
  function DecimalValue(s: string): nat
    requires AllDigits(s)
  {
    if s == [] then 0 else 10 * DecimalValue(s[..|s| - 1]) + DigitValue(s[|s| - 1])
  }

  predicate HasSign(s: string) {
    |s| > 0 && (s[0] == '+' || s[0] == '-')
  }

  /** The text after the optional sign. */
  function Magnitude(s: string): string {
    if HasSign(s) then s[1..] else s
  }

  /** An optional sign followed by at least one decimal digit. */
  predicate WellFormed(s: string) {
    |Magnitude(s)| > 0 && AllDigits(Magnitude(s))
  }

  /** The mathematical value a well-formed numeral denotes. */
  function SignedValue(s: string): int
    requires WellFormed(s)
  {
    if s[0] == '-' then -(DecimalValue(Magnitude(s)) as int) else DecimalValue(Magnitude(s))
  }

  /**
   * The base-10 digit loop of `ParseUint` with a 64-bit result: it stops with
   * `ErrSyntax` at the first non-digit, and with `ErrRange` as soon as the
   * accumulated value no longer fits in an unsigned 64-bit integer.
   */
  function ScanUnsigned(s: string, acc: nat): (r: IntResult)
    requires acc <= MaxUint64
    ensures r.Ok? ==> acc <= r.value <= MaxUint64
    decreases |s|
  {
    if s == [] then Ok(acc)
    else if !IsDigit(s[0]) then Err(ErrSyntax)
    else if acc * 10 + DigitValue(s[0]) > MaxUint64 then Err(ErrRange)
    else ScanUnsigned(s[1..], acc * 10 + DigitValue(s[0]))
  }

  /**
   * `strconv.Atoi`: the sign is stripped, an empty remainder is a syntax
   * error, the digits are scanned as an unsigned value, and that value is
   * range-checked against the signed 64-bit bounds.
   */
  function Atoi(s: string): (r: IntResult)
    ensures r.Ok? ==> IsInt64(r.value)
  {
    var digits := Magnitude(s);
    if digits == [] then Err(ErrSyntax)
    else
      match ScanUnsigned(digits, 0)
      case Err(e) => Err(e)
      case Ok(u) =>
        if s[0] == '-' then
          (if u > -MinInt64 then Err(ErrRange) else Ok(-u))
        else
          (if u > MaxInt64 then Err(ErrRange) else Ok(u))
  }

  /** The digit of value `d`. */
  function DigitChar(d: nat): (c: char)
    requires d < 10
    ensures IsDigit(c) && DigitValue(c) == d
  {
    ('0' as int + d) as char
  }

  /** Decimal rendering of a natural number, without leading zeros. */
  function FormatNat(n: nat): (s: string)
    ensures |s| > 0 && AllDigits(s) && DecimalValue(s) == n
  {
    if n < 10 then [DigitChar(n)]
    else
      var init := FormatNat(n / 10);
      var s := init + [DigitChar(n % 10)];
      assert s[..|s| - 1] == init;
      s
  }

  /**
   * `strconv.Itoa`, the inverse of `Atoi`. The server does not call it; it
   * is here to state the round trip that `Atoi` completes.
   */
  function Itoa(n: int): (s: string)
    ensures WellFormed(s) && SignedValue(s) == n
  {
    if n < 0 then
      var s := "-" + FormatNat(-n);
      assert Magnitude(s) == FormatNat(-n);
      s
    else
      FormatNat(n)
  }

  /** Peeling the leading digit off a numeral. */
  lemma {:induction false} DecimalValueCons(s: string)
    requires |s| > 0 && AllDigits(s)
    ensures DecimalValue(s) == DigitValue(s[0]) * Pow10(|s| - 1) + DecimalValue(s[1..])
  {
    if |s| == 1 {
      assert s[..0] == [] && s[1..] == [];
    } else {
      var init, tail := s[..|s| - 1], s[1..];
      var d, last := DigitValue(s[0]), DigitValue(s[|s| - 1]);
      DecimalValueCons(init);
      assert init[0] == s[0] && tail[|tail| - 1] == s[|s| - 1];
      assert init[1..] == tail[..|tail| - 1];
      assert DecimalValue(tail) == 10 * DecimalValue(init[1..]) + last;
      assert Pow10(|s| - 1) == 10 * Pow10(|s| - 2);
      Regroup(d, Pow10(|s| - 2), DecimalValue(init[1..]), last);
    }
  }

  lemma Regroup(d: int, p: int, x: int, last: int)
    ensures 10 * (d * p + x) + last == d * (10 * p) + (10 * x + last)
  {
  }

  /**
   * On a string of digits the scan either yields the positional value
   * (shifted in after `acc`) or, exactly when that value exceeds the unsigned
   * 64-bit range, reports `ErrRange`.
   */
  lemma {:induction false} ScanDigits(s: string, acc: nat)
    requires AllDigits(s) && acc <= MaxUint64
    ensures var v := acc * Pow10(|s|) + DecimalValue(s);
            ScanUnsigned(s, acc) == if v <= MaxUint64 then Ok(v) else Err(ErrRange)
  {
    if s != [] {
      var d, p, tail := DigitValue(s[0]), Pow10(|s| - 1), s[1..];
      var next := acc * 10 + d;
      var v := acc * Pow10(|s|) + DecimalValue(s);
      assert AllDigits(tail) by {
        forall i | 0 <= i < |tail| ensures IsDigit(tail[i]) { assert tail[i] == s[i + 1]; }
      }
      assert v == next * p + DecimalValue(tail) by {
        DecimalValueCons(s);
        assert Pow10(|s|) == 10 * p;
        ShiftDigit(acc, d, p);
      }
      if next <= MaxUint64 {
        ScanDigits(tail, next);
        assert ScanUnsigned(s, acc) == ScanUnsigned(tail, next);
      } else {
        assert next * p >= next by { MulAtLeast(next, p); }
        assert ScanUnsigned(s, acc) == Err(ErrRange);
      }
    }
  }

  lemma MulAtLeast(a: nat, p: nat)
    requires p >= 1
    ensures a * p >= a
  {
  }

  lemma ShiftDigit(acc: nat, d: nat, p: nat)
    ensures acc * (10 * p) + d * p == (acc * 10 + d) * p
  {
  }

  /** A non-digit anywhere makes the scan fail (with one error or the other). */
  lemma {:induction false} ScanRejectsNonDigit(s: string, acc: nat)
    requires !AllDigits(s) && acc <= MaxUint64
    ensures ScanUnsigned(s, acc).Err?
  {
    if IsDigit(s[0]) && acc * 10 + DigitValue(s[0]) <= MaxUint64 {
      assert !AllDigits(s[1..]) by {
        var i :| 0 <= i < |s| && !IsDigit(s[i]);
        assert i > 0 && s[1..][i - 1] == s[i];
      }
      ScanRejectsNonDigit(s[1..], acc * 10 + DigitValue(s[0]));
    }
  }

  /**
   * What `Atoi` accepts: exactly the well-formed numerals whose value fits in
   * a signed 64-bit integer, and it returns that value. A well-formed numeral
   * out of range gives `ErrRange`.
   */
  lemma AtoiCharacterization(s: string)
    ensures Atoi(s).Ok? <==> WellFormed(s) && IsInt64(SignedValue(s))
    ensures Atoi(s).Ok? ==> Atoi(s).value == SignedValue(s)
    ensures WellFormed(s) && !IsInt64(SignedValue(s)) ==> Atoi(s) == Err(ErrRange)
  {
    var digits := Magnitude(s);
    if digits != [] {
      if AllDigits(digits) {
        ScanDigits(digits, 0);
      } else {
        ScanRejectsNonDigit(digits, 0);
      }
    }
  }

  /** Round trip: parsing the rendering of any 64-bit integer gives it back. */
  lemma AtoiItoa(n: int)
    requires IsInt64(n)
    ensures Atoi(Itoa(n)) == Ok(n)
  {
    AtoiCharacterization(Itoa(n));
  }
}
