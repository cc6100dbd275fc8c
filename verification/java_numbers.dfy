/**
 * The parts of Java's integer semantics the input formats rely on:
 * the `int`/`long` ranges, truncating `/` and `%`, `Integer.parseInt` /
 * `Long.parseLong`, and the decimal text `Long.toString` produces.
 */
module JavaNumbers {
  import opened Outcome

  const INT_MIN: int := -0x8000_0000
  const INT_MAX: int := 0x7FFF_FFFF
  const LONG_MIN: int := -0x8000_0000_0000_0000
  const LONG_MAX: int := 0x7FFF_FFFF_FFFF_FFFF

  /** A Java `int`. */
  type int32 = x: int | INT_MIN <= x <= INT_MAX

  /** A Java `long`. */
  type int64 = x: int | LONG_MIN <= x <= LONG_MAX

  function Abs(x: int): nat
  {
    if x < 0 then -x else x
  }

  /**
   * Java's `a / b`: the quotient rounded toward zero. Its magnitude is the
   * floor of `|a| / |b|`, and it is negative only when the operands' signs differ.
   */
  function Quot(a: int, b: int): (q: int)
    requires b != 0
    ensures Abs(q) <= Abs(a)
    ensures Abs(q) * Abs(b) <= Abs(a) < (Abs(q) + 1) * Abs(b)
    ensures q < 0 ==> (a < 0) != (b < 0)
    ensures q > 0 ==> (a < 0) == (b < 0)
  {
    DivShrinks(Abs(a), Abs(b));
    DivBracket(Abs(a), Abs(b));
    var m := Abs(a) / Abs(b);
    if (a < 0) == (b < 0) then m else -m
  }

  /** Java's `int` division: as `Quot`, except that `MIN_VALUE / -1` wraps back to `MIN_VALUE`. */
  function IntQuot(a: int32, b: int32): (q: int32)
    requires b != 0
    ensures a != INT_MIN || b != -1 ==> q == Quot(a, b)
  {
    if a == INT_MIN && b == -1 then INT_MIN else Quot(a, b)
  }

  /** Java's `a % b`: the remainder of `|a|` by `|b|`, carrying the sign of `a`. */
  function Rem(a: int, b: int): (r: int)
    requires b != 0
    ensures Abs(r) < Abs(b)
    ensures r == 0 || (r < 0 <==> a < 0)
  {
    var k := Abs(a) % Abs(b);
    if a < 0 then -k else k
  }

  /** Java's division identity: `(a / b) * b + a % b == a`, for every `a` and non-zero `b`. */
  lemma QuotRem(a: int, b: int)
    requires b != 0
    ensures Quot(a, b) * b + Rem(a, b) == a
  {
    var m, k := Abs(a) / Abs(b), Abs(a) % Abs(b);
    assert Abs(a) == m * Abs(b) + k;
    QuotTimesDivisor(a, b);
  }

  /** The quotient times the divisor is the largest multiple of the divisor not beyond `a`, toward zero. */
  lemma QuotTimesDivisor(a: int, b: int)
    requires b != 0
    ensures Quot(a, b) * b == if a < 0 then -((Abs(a) / Abs(b)) * Abs(b)) else (Abs(a) / Abs(b)) * Abs(b)
  {
    var m, d := Abs(a) / Abs(b), Abs(b);
    if b < 0 {
      assert b == -d;
      if a < 0 {
        assert Quot(a, b) * b == m * (-d) == -(m * d);
      } else {
        assert Quot(a, b) * b == (-m) * (-d) == m * d;
      }
    } else {
      assert b == d;
      if a < 0 {
        assert Quot(a, b) * b == (-m) * d == -(m * d);
      }
    }
  }

  /** On a non-negative dividend and a positive divisor Java agrees with Dafny's operators. */
  lemma QuotRemNonNegative(a: int, b: int)
    requires a >= 0 && b > 0
    ensures Quot(a, b) == a / b && Rem(a, b) == a % b
  {
  }

  lemma QuotOfNegative(a: int, b: int)
    requires a < 0 && b > 0
    ensures Quot(a, b) <= 0
  {
  }

  // ---------------------------------------------------------------------
  // Decimal text
  // ---------------------------------------------------------------------

  predicate IsDigit(c: char)
  {
    '0' <= c <= '9'
  }

  predicate AllDigits(s: string)
  {
    forall i | 0 <= i < |s| :: IsDigit(s[i])
  }

  function DigitValue(c: char): (d: nat)
    requires IsDigit(c)
    ensures d < 10
  {
    (c as int) - ('0' as int)
  }

  function DigitChar(d: nat): (c: char)
    requires d < 10
    ensures IsDigit(c) && DigitValue(c) == d
  {
    (('0' as int) + d) as char
  }

  /** The value of a string of decimal digits, most significant first. */
  function DigitsValue(s: string): nat
    requires AllDigits(s)
    decreases |s|
  {
    if |s| == 0 then 0 else DigitsValue(s[..|s| - 1]) * 10 + DigitValue(s[|s| - 1])
  }

  /** The shortest decimal spelling of `n`: no leading zero except for zero itself. */
  function NatToDigits(n: nat): (s: string)
    ensures |s| >= 1 && AllDigits(s)
    ensures |s| > 1 ==> s[0] != '0'
    decreases n
  {
    if n < 10 then [DigitChar(n)] else NatToDigits(n / 10) + [DigitChar(n % 10)]
  }

  /** `Long.toString(n)`: an optional minus sign followed by the digits of |n|. */
  function ToDecimal(n: int): (s: string)
    ensures |s| >= 1
    ensures n < 0 <==> s[0] == '-'
    ensures forall i | 0 <= i < |s| :: IsDigit(s[i]) || (i == 0 && s[i] == '-')
  {
    if n < 0 then "-" + NatToDigits(-n) else NatToDigits(n)
  }

  /**
   * `Long.toString` prints no leading zero: a non-negative number of more
   * than one digit starts with a non-zero digit, and a negative number's
   * first digit after the minus is never zero.
   */
  lemma ToDecimalCanonical(n: int)
    ensures n >= 0 && |ToDecimal(n)| > 1 ==> ToDecimal(n)[0] != '0'
    ensures n < 0 ==> |ToDecimal(n)| >= 2 && ToDecimal(n)[1] != '0'
  {
  }

  /**
   * `Integer.parseInt` / `Long.parseLong` with bounds `lo..hi`: an optional
   * `-` or `+`, then at least one ASCII digit, and the value must fit.
   * Anything else is a `NumberFormatException`, here `None`.
   */
  function ParseInteger(s: string, lo: int, hi: int): (r: Option<int>)
    ensures r.Some? ==> lo <= r.value <= hi
    ensures r.Some? ==> |s| >= 1 && (IsDigit(s[0]) || (|s| >= 2 && (s[0] == '-' || s[0] == '+')))
    ensures r.Some? ==> forall i | 1 <= i < |s| :: IsDigit(s[i])
    ensures r.Some? && r.value < 0 ==> s[0] == '-'
    ensures |s| == 0 || s == "-" || s == "+" ==> r.None?
  {
    var signed := |s| > 0 && (s[0] == '-' || s[0] == '+');
    var digits := if signed then s[1..] else s;
    if |digits| == 0 || !AllDigits(digits) then None
    else
      var v: int := if signed && s[0] == '-' then 0 - (DigitsValue(digits) as int) else DigitsValue(digits);
      if lo <= v <= hi then Some(v) else None
  }

  function ParseInt(s: string): (r: Option<int>)
    ensures r.Some? ==> INT_MIN <= r.value <= INT_MAX
  {
    ParseInteger(s, INT_MIN, INT_MAX)
  }

  function ParseLong(s: string): (r: Option<int>)
    ensures r.Some? ==> LONG_MIN <= r.value <= LONG_MAX
  {
    ParseInteger(s, LONG_MIN, LONG_MAX)
  }

  lemma {:induction false} DigitsRoundTrip(n: nat)
    ensures DigitsValue(NatToDigits(n)) == n
    decreases n
  {
    if n >= 10 {
      DigitsRoundTrip(n / 10);
      var s := NatToDigits(n);
      assert s[..|s| - 1] == NatToDigits(n / 10);
    }
  }

  /** Parsing what `Long.toString` printed gives the number back. */
  lemma DecimalRoundTrip(n: int, lo: int, hi: int)
    requires lo <= n <= hi
    ensures ParseInteger(ToDecimal(n), lo, hi) == Some(n)
  {
    if n < 0 {
      DigitsRoundTrip(-n);
      ParseMinus(NatToDigits(-n), lo, hi);
    } else {
      DigitsRoundTrip(n);
      ParseUnsigned(NatToDigits(n), lo, hi);
    }
  }

  /** A minus sign followed by digits parses as the negated digits, when in range. */
  lemma ParseMinus(digits: string, lo: int, hi: int)
    requires |digits| >= 1 && AllDigits(digits)
    requires lo <= 0 - DigitsValue(digits) <= hi
    ensures ParseInteger("-" + digits, lo, hi) == Some(0 - DigitsValue(digits))
  {
    assert ("-" + digits)[1..] == digits;
  }

  /** Digits with no sign parse as their value, when in range. */
  lemma ParseUnsigned(digits: string, lo: int, hi: int)
    requires |digits| >= 1 && AllDigits(digits)
    requires lo <= DigitsValue(digits) <= hi
    ensures ParseInteger(digits, lo, hi) == Some(DigitsValue(digits))
  {
    assert IsDigit(digits[0]);
  }

  lemma LongDecimalRoundTrip(n: int64)
    ensures ParseLong(ToDecimal(n)) == Some(n as int)
  {
    DecimalRoundTrip(n, LONG_MIN, LONG_MAX);
  }

  // ---------------------------------------------------------------------
  // Arithmetic helpers for the planners' products
  // ---------------------------------------------------------------------

  lemma MulMonotone(a: int, b: int, c: nat)
    requires a <= b
    ensures a * c <= b * c
  {
  }

  lemma DivShrinks(x: nat, y: nat)
    requires y >= 1
    ensures x / y <= x
  {
    MulMonotone(1, y, x / y);
  }

  /** The floor quotient brackets the dividend between two neighbouring multiples of the divisor. */
  lemma DivBracket(x: nat, y: nat)
    requires y >= 1
    ensures (x / y) * y <= x < (x / y + 1) * y
  {
    assert x == (x / y) * y + x % y;
    assert (x / y + 1) * y == (x / y) * y + y;
  }

  lemma MulBounds(a: int, b: int, n: nat)
    requires Abs(a) <= n && Abs(b) <= n
    ensures Abs(a * b) <= n * n
  {
    assert Abs(a * b) == Abs(a) * Abs(b);
    MulMonotone(Abs(a), n, Abs(b));
    MulMonotone(Abs(b), n, n);
  }

  /** A row inside window `k` of `count` windows of `n` rows lies in the first `count * n` rows. */
  lemma TileInside(count: nat, n: int, k: nat, x: int)
    requires n >= 0 && k < count
    requires k * n <= x < k * n + n
    ensures 0 <= x < count * n
  {
    MulMonotone(0, k, n);
    MulMonotone(k + 1, count, n);
  }

  /** Each of the first `count * n` rows lies in one of `count` windows of `n` rows. */
  lemma TileOf(count: nat, n: int, x: int) returns (k: nat)
    requires n >= 0 && 0 <= x < count * n
    ensures k < count && k * n <= x < k * n + n
  {
    k := x / n;
    if k >= count {
      MulMonotone(count, k, n);
    }
  }
}
