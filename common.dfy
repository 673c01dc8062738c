/** Small value types shared by the modules of this model. */
module Common {

  datatype Option<+T> = None | Some(value: T)

  /** A value or the error that a JavaScript callback or `throw` would deliver instead. */
  datatype Result<+T, +E> = Ok(value: T) | Err(error: E)

  /** One element of a `Uint8ClampedArray`, or one byte of a binary payload. */
  newtype Byte = b: int | 0 <= b < 256

  predicate IsDigit(c: char) { '0' <= c <= '9' }

  function DigitChar(d: nat): (c: char)
    requires d < 10
    ensures IsDigit(c) && c as int - '0' as int == d
  {
    (d + '0' as int) as char
  }

  /** JavaScript's `String(n)` for a non-negative integer: decimal digits without a leading zero. */
  function Decimal(n: nat): (s: string)
    ensures |s| >= 1
    ensures forall i :: 0 <= i < |s| ==> IsDigit(s[i])
    ensures s[0] == '0' <==> n == 0
    decreases n
  {
    if n < 10 then [DigitChar(n)] else Decimal(n / 10) + [DigitChar(n % 10)]
  }

  /** The number a string of decimal digits denotes. */
  function DecimalValue(s: string): nat
    requires forall i :: 0 <= i < |s| ==> IsDigit(s[i])
  {
    if s == [] then 0 else DecimalValue(s[..|s| - 1]) * 10 + DigitValue(s[|s| - 1])
  }

  function DigitValue(c: char): (d: nat)
    requires IsDigit(c)
    ensures d < 10
  {
    c as int - '0' as int
  }

  lemma {:induction false} DecimalRoundTrip(n: nat)
    ensures DecimalValue(Decimal(n)) == n
    decreases n
  {
    if n >= 10 {
      var s := Decimal(n);
      assert s[..|s| - 1] == Decimal(n / 10);
      DecimalRoundTrip(n / 10);
    }
  }

  lemma DecimalInjective(m: nat, n: nat)
    ensures Decimal(m) == Decimal(n) ==> m == n
  {
    DecimalRoundTrip(m);
    DecimalRoundTrip(n);
  }

  /** JavaScript's `String(n)` for an integer: a minus sign before the digits of a negative one. */
  function IntString(n: int): (s: string)
    ensures |s| >= 1 && (s[0] == '-' <==> n < 0)
  {
    if n < 0 then "-" + Decimal(-n) else Decimal(n)
  }

  lemma IntStringInjective(m: int, n: int)
    ensures IntString(m) == IntString(n) ==> m == n
  {
    if IntString(m) == IntString(n) {
      if m < 0 {
        assert IntString(m)[1..] == Decimal(-m);
        assert IntString(n)[1..] == Decimal(-n);
        DecimalInjective(-m, -n);
      } else {
        DecimalInjective(m, n);
      }
    }
  }
}
