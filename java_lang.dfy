/**
 * The parts of the Java platform that the question selector relies on:
 * the 32-bit `int` range, the character class `[0-9]`, `Integer.parseInt`
 * in radix 10 and the `%` operator on `int`.
 */
module JavaLang {

  /** Bounds of Java's 32-bit two's-complement `int`. */
  const INT_MIN: int := -0x8000_0000
  const INT_MAX: int := 0x7fff_ffff

  /** An exception that a Java library call can throw. */
  datatype Exception = NumberFormatException(input: string)

  /** The value of a Java call that either returns or throws. */
  datatype Result<T> = Ok(value: T) | Thrown(exception: Exception)

  /** Membership in the regular-expression class `[0-9]`. */
  predicate IsAsciiDigit(c: char) {
    '0' <= c <= '9'
  }

  predicate AllDigits(s: string) {
    forall i :: 0 <= i < |s| ==> IsAsciiDigit(s[i])
  }

  function DigitValue(c: char): (d: nat)
    requires IsAsciiDigit(c)
    ensures d <= 9
    ensures (d as char) + '0' == c
  {
    c as int - '0' as int
  }

  function Pow10(n: nat): (p: nat)
    ensures p >= 1
  {
    if n == 0 then 1 else 10 * Pow10(n - 1)
  }

  /** The number written by a string of decimal digits, most significant first. */
  function DecimalValue(ds: string): (v: nat)
    requires AllDigits(ds)
    ensures v < Pow10(|ds|)
  {
    if ds == [] then 0
    else
      var prefix := ds[..|ds| - 1];
      var rest := DecimalValue(prefix);
      assert rest <= Pow10(|prefix|) - 1;
      10 * rest + DigitValue(ds[|ds| - 1])
  }

  lemma {:induction false} Pow10Monotone(m: nat, n: nat)
    requires m <= n
    ensures Pow10(m) <= Pow10(n)
  {
    if m < n {
      Pow10Monotone(m, n - 1);
    }
  }

  /**
   * `Integer.parseInt(s)`, radix 10: an optional leading `-` or `+`
   * followed by at least one digit, and a value that fits in an `int`;
   * anything else throws NumberFormatException.
   */
  function ParseInt(s: string): (r: Result<int>)
    ensures r.Ok? ==> INT_MIN <= r.value <= INT_MAX
    ensures r.Ok? ==> |s| > 0
    ensures r.Thrown? ==> r.exception == NumberFormatException(s)
  {
    if |s| == 0 then Thrown(NumberFormatException(s))
    else
      var signed := s[0] == '-' || s[0] == '+';
      var body := if signed then s[1..] else s;
      if |body| == 0 || !AllDigits(body) then Thrown(NumberFormatException(s))
      else
        var magnitude: int := DecimalValue(body);
        var v := if s[0] == '-' then -magnitude else magnitude;
        if INT_MIN <= v <= INT_MAX then Ok(v) else Thrown(NumberFormatException(s))
  }

  /** An unsigned string of one to nine digits always parses, to the number it writes. */
  lemma ParseIntShortUnsigned(s: string)
    requires 0 < |s| <= 9 && AllDigits(s)
    ensures ParseInt(s) == Ok(DecimalValue(s))
  {
    Pow10Monotone(|s|, 9);
    assert Pow10(9) == 1_000_000_000;
    assert !(s[0] == '-' || s[0] == '+') by {
      assert IsAsciiDigit(s[0]);
    }
  }

  /** A string holding a character other than a sign or a digit never parses. */
  lemma {:induction false} ParseIntRejectsForeign(s: string, i: nat)
    requires i < |s| && !IsAsciiDigit(s[i]) && s[i] != '-' && s[i] != '+'
    ensures ParseInt(s) == Thrown(NumberFormatException(s))
  {
    if s[0] == '-' || s[0] == '+' {
      assert i > 0;
      assert s[1..][i - 1] == s[i];
    } else {
      assert !AllDigits(s);
    }
  }

  function Abs(x: int): (y: nat)
    ensures y == x || y == -x
  {
    if x < 0 then -x else x
  }

  /** Java's `a / b` on `int`: the quotient truncated toward zero. */
  function JavaDiv(a: int, b: int): (q: int)
    requires b != 0
  {
    var q := Abs(a) / Abs(b);
    if (a < 0) == (b < 0) then q else -q
  }

  /**
   * Java's `a % b` on `int`: the remainder of division truncated toward
   * zero, so it takes the sign of the dividend (Dafny's `%` is Euclidean).
   * For a non-negative dividend the two agree.
   */
  function JavaRem(a: int, b: int): (r: int)
    requires b != 0
    ensures b > 0 && a >= 0 ==> r == a % b
    ensures b > 0 ==> -b < r < b
    ensures b < 0 ==> b < r < -b
    ensures a >= 0 ==> r >= 0
    ensures a < 0 ==> r <= 0
  {
    if b > 0 then
      (if a >= 0 then a % b else -((-a) % b))
    else
      (if a >= 0 then a % -b else -((-a) % -b))
  }

  /** Java's division identity: `(a / b) * b + a % b == a`. */
  lemma DivRemIdentity(a: int, b: int)
    requires b != 0
    ensures JavaDiv(a, b) * b + JavaRem(a, b) == a
  {
    var m := Abs(b);
    var q := Abs(a) / m;
    var rem := Abs(a) % m;
    assert Abs(a) == q * m + rem;
    if a >= 0 {
      assert JavaDiv(a, b) * b == q * m;
    } else {
      assert JavaDiv(a, b) * b == -(q * m);
    }
  }
}
