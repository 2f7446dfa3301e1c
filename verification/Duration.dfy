/** `formatDuration`: a duration in nanoseconds, through binary64 seconds, to the argument of `timeout`. */
module Duration {
  import opened Basics
  import opened Text

  const SECOND := 1_000_000_000
  const MAX_DURATION := 0x7fff_ffff_ffff_ffff

  /** 2 to the power `e`. */
  function Pow2(e: int): (p: real)
    ensures p > 0.0
    decreases if e < 0 then -e else e
  {
    if e == 0 then 1.0 else if e > 0 then 2.0 * Pow2(e - 1) else Pow2(e + 1) / 2.0
  }

  function Floor(x: real): int { x.Floor }

  /** The exponent `e` with 2^e <= x < 2^(e+1). */
  function Exponent(x: real): (e: int)
    requires x > 0.0
    ensures Pow2(e) <= x < Pow2(e + 1)
    decreases x < 1.0, if x < 1.0 then (1.0 / x).Floor else x.Floor
  {
    if x >= 2.0 then Exponent(x / 2.0) + 1
    else if x < 1.0 then Halve(x); Exponent(x * 2.0) - 1
    else 0
  }

  lemma Halve(x: real)
    requires 0.0 < x < 1.0
    ensures x * 2.0 < 1.0 ==> (1.0 / (x * 2.0)).Floor < (1.0 / x).Floor
  {
    assert 1.0 / (x * 2.0) == (1.0 / x) / 2.0;
    assert 1.0 / x > 1.0 by {
      assert (1.0 / x) * x == 1.0;
    }
  }

  /** Nearest integer, ties to even. */
  function RoundHalfEven(x: real): int {
    var f := x.Floor;
    if x - f as real < 0.5 then f
    else if x - f as real > 0.5 then f + 1
    else if f % 2 == 0 then f else f + 1
  }

  /** Round to nearest, ties to even, in IEEE 754 binary64 (IEEE 754-2019, section 4.3.1), away from
      underflow and overflow. */
  function Binary64(x: real): real {
    if x == 0.0 then 0.0
    else if x < 0.0 then -PositiveBinary64(-x)
    else PositiveBinary64(x)
  }

  function PositiveBinary64(x: real): real
    requires x > 0.0
  {
    NearestMultiple(x, Pow2(Exponent(x) - 52))
  }

  /** The multiple of `ulp` nearest to `x`. */
  function NearestMultiple(x: real, ulp: real): real
    requires ulp > 0.0
  {
    RoundHalfEven(x / ulp) as real * ulp
  }

  /** Division of int64 values in Go: the quotient is truncated towards zero. */
  function Quotient(a: int, b: int): int
    requires b > 0
  {
    if a >= 0 then a / b else -(-a / b)
  }

  /** `Duration.Seconds`: the whole seconds plus the rest over 1e9, each operation rounded. Both int64
      conversions are exact, their magnitudes being below 2^53. */
  function Seconds(d: int): real {
    var sec := Quotient(d, SECOND);
    var nsec := d - sec * SECOND;
    Binary64(sec as real + Binary64(nsec as real / 1000000000.0))
  }

  /** Conversion of a binary64 value to int64: truncation towards zero. */
  function Truncate(x: real): int {
    if x >= 0.0 then x.Floor else -(-x).Floor
  }

  function WholeSeconds(d: int): int {
    var seconds := Truncate(Seconds(d));
    if seconds <= 0 then 1 else seconds
  }

  function FormatDuration(d: int): string {
    Decimal(WholeSeconds(d)) + "s"
  }

  // ---------------------------------------------------------------- what `timeout` makes of its argument

  ghost predicate AllDigits(s: string) {
    s != "" && forall c :: c in s ==> IsDigit(c)
  }

  /** The units `timeout` knows, in seconds; without one it takes seconds. */
  function UnitSeconds(c: char): Option<int> {
    match c
    case 's' => Some(1)
    case 'm' => Some(60)
    case 'h' => Some(3600)
    case 'd' => Some(86400)
    case _ => None
  }

  /** A whole number with or without a unit, read as nanoseconds. */
  ghost function Nanoseconds(operand: string): Option<int> {
    if AllDigits(operand) then Some(ReadDecimal(operand) * SECOND)
    else if operand != "" && AllDigits(operand[..|operand| - 1]) && UnitSeconds(operand[|operand| - 1]).Some? then
      Some(ReadDecimal(operand[..|operand| - 1]) * UnitSeconds(operand[|operand| - 1]).value * SECOND)
    else None
  }

  lemma PrintedReads(d: int)
    ensures Nanoseconds(FormatDuration(d)) == Some(WholeSeconds(d) * SECOND)
    ensures FormatDuration(d) == Decimal(WholeSeconds(d)) + "s" && AllDigits(Decimal(WholeSeconds(d)))
  {
    hide WholeSeconds;
    var n, s := WholeSeconds(d), FormatDuration(d);
    Positive(d);
    DecimalReadsBack(n);
    assert s[..|s| - 1] == Decimal(n) && s[|s| - 1] == 's' && 's' in s;
  }

  lemma Positive(d: int)
    ensures WholeSeconds(d) >= 1
  {
    hide Seconds;
  }

  // ---------------------------------------------------------------- powers of two and rounding

  function TwoTo(k: nat): (p: int)
    ensures p >= 1
  {
    if k == 0 then 1 else 2 * TwoTo(k - 1)
  }

  /** The position of the leading bit of `n`. */
  function Log2(n: int): (e: nat)
    requires n >= 1
    ensures TwoTo(e) <= n < TwoTo(e + 1)
  {
    if n == 1 then 0 else Log2(n / 2) + 1
  }

  lemma {:induction false} TwoToSplits(a: nat, b: nat)
    ensures TwoTo(a + b) == TwoTo(a) * TwoTo(b)
  {
    if a > 0 {
      TwoToSplits(a - 1, b);
      assert TwoTo(a + b) == 2 * TwoTo(a + b - 1);
    }
  }

  lemma {:induction false} TwoToGrows(a: nat, b: nat)
    requires a <= b
    ensures TwoTo(a) <= TwoTo(b)
  {
    if a < b {
      TwoToGrows(a, b - 1);
    }
  }

  lemma {:induction false} Pow2IsTwoTo(k: nat)
    ensures Pow2(k) == TwoTo(k) as real
    ensures Pow2(0 - k) * (TwoTo(k) as real) == 1.0
  {
    if k > 0 {
      Pow2IsTwoTo(k - 1);
      assert Pow2(0 - k) == Pow2(1 - k) / 2.0;
    }
  }

  lemma {:induction false} Pow2Grows(a: int, b: int)
    requires a <= b
    ensures Pow2(a) <= Pow2(b)
    decreases b - a
  {
    if a < b {
      Pow2Grows(a, b - 1);
      assert Pow2(b - 1) <= Pow2(b);
    }
  }

  lemma ExponentIs(x: real, e: int)
    requires x > 0.0 && Pow2(e) <= x < Pow2(e + 1)
    ensures Exponent(x) == e
  {
    var f := Exponent(x);
    if f < e {
      Pow2Grows(f + 1, e);
    } else if f > e {
      Pow2Grows(e + 1, f);
    }
  }

  lemma RoundShifted(m: int, z: real)
    requires m % 2 == 0
    ensures RoundHalfEven(m as real + z) == m + RoundHalfEven(z)
  {
    assert (m as real + z).Floor == m + z.Floor;
  }

  lemma Reciprocal(x: real, p: real, t: real)
    requires p > 0.0 && t > 0.0 && p * t == 1.0
    ensures x / p == x * t
    ensures x * p == x / t
  {
    assert (x * t) * p == x * (t * p);
    assert (x * p) * t == x * (p * t);
  }

  /** When the unit in the last place of `x` is 2^-k. */
  lemma RoundedAt(x: real, k: nat, t: real)
    requires x > 0.0 && Exponent(x) == 52 - k && t == TwoTo(k) as real
    ensures Binary64(x) == RoundHalfEven(x * t) as real / t
  {
    Pow2IsTwoTo(k);
    RoundedIn(x, Pow2(Exponent(x) - 52), t);
  }

  lemma RoundedIn(x: real, p: real, t: real)
    requires p > 0.0 && t > 0.0 && p * t == 1.0
    ensures NearestMultiple(x, p) == RoundHalfEven(x * t) as real / t
  {
    Reciprocal(x, p, t);
    Reciprocal(RoundHalfEven(x * t) as real, p, t);
  }

  const T53 := 0x20_0000_0000_0000

  lemma T53IsTwoTo()
    ensures TwoTo(53) == T53
  {
    TwoToSplits(27, 26);
    assert TwoTo(13) == 8192;
    TwoToSplits(13, 13);
    TwoToSplits(26, 1);
  }

  lemma Powers()
    ensures TwoTo(9) == 512 && TwoTo(20) == 0x10_0000 && TwoTo(21) == 0x20_0000 && TwoTo(24) == 0x100_0000
    ensures TwoTo(29) == 0x2000_0000 && TwoTo(30) == 0x4000_0000 && TwoTo(34) == 0x4_0000_0000
  {
    assert TwoTo(9) == 512;
    assert TwoTo(11) == 2048;
    TwoToSplits(9, 11);
    TwoToSplits(1, 20);
    TwoToSplits(9, 20);
    TwoToSplits(1, 29);
    assert TwoTo(4) == 16;
    TwoToSplits(4, 20);
    TwoToSplits(4, 30);
  }

  lemma ProductAtLeast(a: int, b: int, x: int, y: int)
    requires 0 <= x <= a && 0 <= y <= b
    ensures x * y <= a * b
  {
    assert x * y <= a * y;
    assert a * y <= a * b;
  }

  /** In [1/2, 1) binary64 rounds to a multiple of 2^-53. */
  lemma UpperHalf(x: real)
    requires 0.5 <= x < 1.0
    ensures Binary64(x) == RoundHalfEven(x * T53 as real) as real / T53 as real
  {
    HalfExponent(x);
    T53IsTwoTo();
    RoundedAt(x, 53, T53 as real);
  }

  lemma HalfExponent(x: real)
    requires 0.5 <= x < 1.0
    ensures Exponent(x) == -1
  {
    assert Pow2(-1) == 0.5 && Pow2(0) == 1.0;
    ExponentIs(x, -1);
  }

  lemma LowerHalf(x: real)
    requires 0.0 <= x < 0.5
    ensures 0.0 <= Binary64(x) <= 0.5
  {
    if x > 0.0 {
      var e := Exponent(x);
      assert Pow2(-1) == 0.5;
      if e >= -1 {
        Pow2Grows(-1, e);
      }
      SmallExponent(x, e, -1 - e);
    }
  }

  lemma SmallExponent(x: real, e: int, j: nat)
    requires x > 0.0 && e == Exponent(x) && e == -1 - j && j > 0
    ensures 0.0 <= Binary64(x) <= 0.5
  {
    var p, h, t := SmallPowers(e, j);
    RoundedAt(x, 53 + j, t);
    BelowHalf(x, p, h, t);
  }

  lemma SmallPowers(e: int, j: nat) returns (p: real, h: real, t: real)
    requires e == -1 - j && j > 0
    ensures p == Pow2(e + 1) && p * h == 1.0 && h >= 2.0
    ensures t == T53 as real * h && t == TwoTo(53 + j) as real
  {
    p, h, t := Pow2(e + 1), TwoTo(j) as real, TwoTo(53 + j) as real;
    Pow2IsTwoTo(j);
    TwoToSplits(53, j);
    T53IsTwoTo();
  }

  lemma BelowHalf(x: real, p: real, h: real, t: real)
    requires 0.0 < x < p && p * h == 1.0 && h >= 2.0 && t == T53 as real * h
    ensures 0.0 <= RoundHalfEven(x * t) as real / t <= 0.5
  {
    assert x * h < p * h;
    assert x * t == (x * h) * T53 as real;
    var r := RoundHalfEven(x * t);
    assert 0 <= r <= T53;
    Quotients(r as real, T53 as real, h, t);
  }

  lemma Quotients(r: real, m: real, h: real, t: real)
    requires 0.0 <= r <= m && h >= 2.0 && t == m * h && m > 0.0
    ensures t > 0.0 && 0.0 <= r / t <= 0.5
  {
    assert m * h >= m * 2.0;
    assert r <= 0.5 * t;
    DivideBound(r, 0.5, t);
  }

  lemma DivideBound(a: real, b: real, t: real)
    requires t > 0.0
    ensures a <= b * t <==> a / t <= b
    ensures 0.0 <= a ==> 0.0 <= a / t
  {
    assert (a / t) * t == a;
  }

  // ---------------------------------------------------------------- what is printed

  /** At least one unit (2^-53) below one, before and after rounding. */
  lemma StaysBelowOne(x: real)
    requires 0.0 <= x && x * T53 as real <= (T53 - 1) as real
    ensures 0.0 <= Binary64(x) && Binary64(x) * T53 as real <= (T53 - 1) as real
  {
    if x < 0.5 {
      LowerHalf(x);
    } else {
      UpperHalf(x);
      var r := RoundHalfEven(x * T53 as real);
      assert 0 <= r <= T53 - 1;
    }
  }

  /** The fraction rounds up to the next second: what is missing of a second is at most half a unit in the
      last place of the whole seconds. */
  predicate RoundsUp(d: int)
    requires SECOND <= d
  {
    var e := Log2(d / SECOND);
    e <= 53 && (SECOND - d % SECOND) * TwoTo(53 - e) <= SECOND
  }

  /** The sum of the whole seconds and a fraction reaches the next second only by rounding up. */
  lemma SumTruncates(sec: int, e: nat, q: real, n: int, z: real)
    requires e <= 33 && TwoTo(e) <= sec < TwoTo(e + 1) && 0.0 <= q < 1.0
    requires n == TwoTo(52 - e) && z == q * n as real
    ensures Truncate(Binary64(sec as real + q)) == sec + if RoundHalfEven(z) >= n then 1 else 0
  {
    hide RoundHalfEven, Truncate, Binary64;
    var t := n as real;
    var x, w := RoundedInUnits(sec, e, q, t);
    assert n == 2 * TwoTo(51 - e);
    assert x == sec as real + q;
    FractionOf(q, t, z);
    RoundedSum(sec, n, TwoTo(51 - e), q, t, x, z, w);
  }

  lemma RoundedInUnits(sec: int, e: nat, q: real, t: real) returns (x: real, w: real)
    requires e <= 33 && TwoTo(e) <= sec < TwoTo(e + 1) && 0.0 <= q < 1.0 && t == TwoTo(52 - e) as real
    ensures x == sec as real + q && w == x * t && Binary64(x) == RoundHalfEven(w) as real / t
  {
    x := sec as real + q;
    w := x * t;
    SumExponent(sec, e, q);
    RoundedAt(x, 52 - e, t);
  }

  lemma SumExponent(sec: int, e: nat, q: real)
    requires TwoTo(e) <= sec < TwoTo(e + 1) && 0.0 <= q < 1.0
    ensures sec as real + q > 0.0 && Exponent(sec as real + q) == e
  {
    Pow2IsTwoTo(e);
    Pow2IsTwoTo(e + 1);
    ExponentIs(sec as real + q, e);
  }

  lemma RoundedSum(sec: int, n: int, half: int, q: real, t: real, x: real, z: real, w: real)
    requires 0 < sec && 0 < n && n == 2 * half && t == n as real
    requires x == sec as real + q && z == q * t && w == x * t && 0.0 <= z < t
    ensures Truncate(RoundHalfEven(w) as real / t) == sec + if RoundHalfEven(z) >= n then 1 else 0
  {
    hide RoundHalfEven, Truncate;
    var m := WholeUnits(sec, n, half);
    SumInUnits(sec, n, q, t, x, z, w);
    RoundShifted(m, z);
    RoundInRange(z, n);
    FloorOfSum(sec, n, RoundHalfEven(z));
  }

  lemma RoundInRange(z: real, n: int)
    requires 0.0 <= z < n as real
    ensures 0 <= RoundHalfEven(z) <= n
  {
  }

  lemma WholeUnits(sec: int, n: int, half: int) returns (m: int)
    requires n == 2 * half
    ensures m == sec * n == 2 * (sec * half)
  {
    m := sec * n;
  }

  lemma SumInUnits(sec: int, n: int, q: real, t: real, x: real, z: real, w: real)
    requires t == n as real && x == sec as real + q && z == q * t && w == x * t
    ensures w == (sec * n) as real + z
  {
    assert w == sec as real * t + q * t;
  }

  lemma FractionOf(q: real, t: real, z: real)
    requires 0.0 <= q < 1.0 && t > 0.0 && z == q * t
    ensures 0.0 <= z < t
  {
    assert (1.0 - q) * t > 0.0;
  }

  lemma FloorOfSum(sec: int, n: int, r: int)
    requires n > 0 && 0 <= r <= n
    requires sec > 0
    ensures Truncate((sec * n + r) as real / n as real) == sec + if r == n then 1 else 0
  {
    var t := n as real;
    var f := r as real / t;
    assert (sec * n + r) as real / t == sec as real + f by {
      assert (sec as real + f) * t == (sec * n + r) as real;
    }
    DivideBound(r as real, 1.0, t);
    if r < n {
      assert f * t == r as real;
      assert f != 1.0;
    } else {
      assert f == 1.0;
    }
  }

  lemma RoundsToAtLeast(w: real, m: int)
    ensures w > m as real - 0.5 ==> RoundHalfEven(w) >= m
    ensures w < m as real - 0.5 ==> RoundHalfEven(w) < m
    ensures m % 2 == 0 && w == m as real - 0.5 ==> RoundHalfEven(w) == m
  {
  }

  /** No fraction of a second comes closer to the tie than the margin allows. */
  lemma Margin(k: int, e: nat, a: int, b: int)
    requires 1 <= k <= SECOND && e <= 33 && a == TwoTo(53 - e) && b == TwoTo(e + 1)
    ensures k * a <= SECOND ==> k * (2 * T53) < SECOND * (b + 1)
    ensures k * a > SECOND ==> k * (2 * T53) > SECOND * (b + 1)
  {
    assert a * b == 2 * T53 by {
      TwoToSplits(53 - e, e + 1);
      T53IsTwoTo();
      assert TwoTo(54) == 2 * TwoTo(53);
    }
    if k * a > SECOND {
      MarginProduct(k, e, k * a - SECOND, a, b);
    }
    MarginSplit(k, a, b, k * a, 2 * T53);
  }

  lemma MarginSplit(k: int, a: int, b: int, product: int, t: int)
    requires 1 <= b && a * b == t && product == k * a
    requires product > SECOND ==> (product - SECOND) * b > SECOND
    ensures product <= SECOND ==> k * t < SECOND * (b + 1)
    ensures product > SECOND ==> k * t > SECOND * (b + 1)
  {
    assert k * t == product * b;
    if product <= SECOND {
      assert product * b <= SECOND * b;
    } else {
      assert product * b == SECOND * b + (product - SECOND) * b;
    }
  }

  lemma MarginProduct(k: int, e: nat, over: int, a: int, b: int)
    requires 1 <= k && e <= 33 && a == TwoTo(53 - e) && b == TwoTo(e + 1) && over == k * a - SECOND && over > 0
    ensures over * b > SECOND
  {
    Powers();
    if e < 20 {
      TwoToGrows(34, 53 - e);
      ProductAtLeast(k, a, 1, a);
      ProductAtLeast(over, b, over, 1);
    } else {
      TwoToGrows(21, e + 1);
      MultipleOf512(k, e, a);
      ProductAtLeast(over, b, 512, 0x20_0000);
    }
  }

  lemma MultipleOf512(k: int, e: nat, a: int)
    requires e <= 33 && a == TwoTo(53 - e)
    ensures k * a > SECOND ==> k * a >= SECOND + 512
  {
    Powers();
    TwoToSplits(44 - e, 9);
    var c := TwoTo(44 - e);
    var m := k * c;
    assert k * a == 512 * m;
  }

  /** Whether the fraction of a second, already rounded, rounds up once added to seconds of exponent `e`. */
  lemma FractionReaches(nsec: int, e: nat, q: real, n: int, z: real)
    requires 0 <= nsec < SECOND && e <= 33 && n == TwoTo(52 - e)
    requires q == Binary64(nsec as real / 1000000000.0) && z == q * n as real
    ensures 0.0 <= q < 1.0
    ensures RoundHalfEven(z) >= n <==> (SECOND - nsec) * TwoTo(53 - e) <= SECOND
  {
    var y := nsec as real / 1000000000.0;
    FractionIsSmall(nsec, y);
    StaysBelowOne(y);
    if y < 0.5 {
      LowerHalf(y);
      SmallFraction(nsec, e, q, n, z);
    } else {
      UpperHalf(y);
      LargeFraction(nsec, e, y * T53 as real, q, n, z);
    }
  }

  lemma SmallFraction(nsec: int, e: nat, q: real, n: int, z: real)
    requires 0 <= nsec && 2 * nsec < SECOND && e <= 33 && n == TwoTo(52 - e) && 0.0 <= q <= 0.5 && z == q * n as real
    ensures RoundHalfEven(z) < n
    ensures (SECOND - nsec) * TwoTo(53 - e) > SECOND
  {
    Powers();
    TwoToGrows(20, 53 - e);
    assert TwoTo(53 - e) == 2 * n;
    assert z <= 0.5 * n as real;
    RoundsToAtLeast(z, n);
    ProductAtLeast(SECOND - nsec, TwoTo(53 - e), SECOND - nsec, 4);
  }

  lemma LargeFraction(nsec: int, e: nat, w: real, q: real, n: int, z: real)
    requires 0 <= nsec < SECOND && e <= 33 && n == TwoTo(52 - e)
    requires w == (nsec as real / 1000000000.0) * T53 as real
    requires q == RoundHalfEven(w) as real / T53 as real && z == q * n as real
    ensures RoundHalfEven(z) >= n <==> (SECOND - nsec) * TwoTo(53 - e) <= SECOND
  {
    RoundedFraction(nsec, e, w);
    RoundedSumReaches(RoundHalfEven(w), e, q, n, z);
  }

  lemma RoundedFraction(nsec: int, e: nat, w: real)
    requires 0 <= nsec < SECOND && e <= 33 && w == (nsec as real / 1000000000.0) * T53 as real
    ensures RoundHalfEven(w) >= T53 - TwoTo(e) <==> (SECOND - nsec) * TwoTo(53 - e) <= SECOND
  {
    Margin(SECOND - nsec, e, TwoTo(53 - e), TwoTo(e + 1));
    UnitsOfFraction(nsec, SECOND - nsec, e, w);
    RoundsToAtLeast(w, T53 - TwoTo(e));
  }

  lemma RoundedSumReaches(r: int, e: nat, q: real, n: int, z: real)
    requires e <= 33 && n == TwoTo(52 - e) && q == r as real / T53 as real && z == q * n as real
    ensures RoundHalfEven(z) >= n <==> r >= T53 - TwoTo(e)
  {
    UnitsOfSum(r, e, q, n, z);
    assert n == 2 * TwoTo(51 - e);
    RoundsToAtLeast(z, n);
  }

  lemma FractionIsSmall(nsec: int, y: real)
    requires 0 <= nsec < SECOND && y == nsec as real / 1000000000.0
    ensures 0.0 <= y < 1.0 && y * T53 as real <= (T53 - 1) as real
  {
    assert y <= 1.0 - 1.0 / 1000000000.0;
  }

  lemma UnitsOfFraction(nsec: int, k: int, e: nat, w: real)
    requires k == SECOND - nsec && w == (nsec as real / 1000000000.0) * T53 as real
    ensures k * (2 * T53) < SECOND * (TwoTo(e + 1) + 1) ==> w > (T53 - TwoTo(e)) as real - 0.5
    ensures k * (2 * T53) > SECOND * (TwoTo(e + 1) + 1) ==> w < (T53 - TwoTo(e)) as real - 0.5
  {
    var p := TwoTo(e);
    assert TwoTo(e + 1) == 2 * p;
    assert w * 1000000000.0 == (nsec * T53) as real;
    assert nsec * T53 == SECOND * T53 - k * T53;
  }

  lemma UnitsOfSum(r: int, e: nat, q: real, n: int, z: real)
    requires e <= 33 && n == TwoTo(52 - e) && q == r as real / T53 as real && z == q * n as real
    ensures r >= T53 - TwoTo(e) <==> z >= n as real - 0.5
  {
    var p := TwoTo(e);
    TwoToSplits(52 - e, e);
    T53IsTwoTo();
    assert TwoTo(53) == 2 * TwoTo(52);
    assert T53 == 2 * (n * p);
    ScaledSum(r, p, q, n, z);
  }

  lemma ScaledSum(r: int, p: int, q: real, n: int, z: real)
    requires p > 0 && n > 0 && T53 == 2 * (n * p) && q == r as real / T53 as real && z == q * n as real
    ensures r >= T53 - p <==> z >= n as real - 0.5
  {
    var d := 2.0 * p as real;
    assert q * T53 as real == r as real;
    assert T53 as real == n as real * d;
    assert z * d == r as real by {
      assert z * d == q * (n as real * d);
    }
    assert (n as real - 0.5) * d == (T53 - p) as real;
    Compare(z, n as real - 0.5, d);
  }

  lemma Compare(x: real, y: real, d: real)
    requires d > 0.0
    ensures x >= y <==> x * d >= y * d
  {
    assert (x - y) * d == x * d - y * d;
    if x >= y {
      assert (x - y) * d >= 0.0;
    } else {
      assert (y - x) * d > 0.0;
    }
  }

  /** The number that is printed, for every int64 duration. */
  lemma SecondsOf(d: int)
    requires -MAX_DURATION - 1 <= d <= MAX_DURATION
    ensures d < SECOND ==> WholeSeconds(d) == 1
    ensures SECOND <= d ==> WholeSeconds(d) == d / SECOND + if RoundsUp(d) then 1 else 0
  {
    if SECOND <= d {
      PrintedWhole(d, d / SECOND, d % SECOND, Log2(d / SECOND));
    } else if 0 < d {
      LessThanASecond(d, d as real / 1000000000.0);
    } else {
      NotPositive(d);
    }
  }

  /** What is printed, for every int64 duration, and how `timeout` reads it: digits and the unit of seconds, one second
      for anything shorter, and otherwise the whole seconds, or one more where binary64 rounds up. */
  lemma PrintedSeconds(d: int)
    requires -MAX_DURATION - 1 <= d <= MAX_DURATION
    ensures var s := FormatDuration(d); s != "" && s[|s| - 1] == 's' && AllDigits(s[..|s| - 1])
    ensures Nanoseconds(FormatDuration(d)) ==
            Some(SECOND * if d < SECOND then 1 else d / SECOND + if RoundsUp(d) then 1 else 0)
  {
    hide WholeSeconds, FormatDuration, RoundsUp;
    SecondsOf(d);
    PrintedReads(d);
    assert FormatDuration(d)[..|FormatDuration(d)| - 1] == Decimal(WholeSeconds(d));
  }

  lemma LessThanASecond(d: int, y: real)
    requires 0 < d < SECOND && y == d as real / 1000000000.0
    ensures WholeSeconds(d) == 1
  {
    FractionIsSmall(d, y);
    StaysBelowOne(y);
    var q := Binary64(y);
    assert Quotient(d, SECOND) == 0;
    assert Seconds(d) == Binary64(q) by {
      assert 0 as real + q == q;
    }
    TruncatesToZero(q);
  }

  lemma TruncatesToZero(x: real)
    requires 0.0 <= x && x * T53 as real <= (T53 - 1) as real
    ensures Truncate(Binary64(x)) == 0
  {
    StaysBelowOne(x);
    assert Binary64(x) < 1.0;
  }

  lemma PrintedWhole(d: int, sec: int, nsec: int, e: nat)
    requires SECOND <= d <= MAX_DURATION && sec == d / SECOND && nsec == d % SECOND && e == Log2(sec)
    ensures e <= 33 && WholeSeconds(d) == sec + if (SECOND - nsec) * TwoTo(53 - e) <= SECOND then 1 else 0
  {
    SmallLog(sec, e);
    var q := Binary64(nsec as real / 1000000000.0);
    assert Seconds(d) == Binary64(sec as real + q);
    PrintedSum(sec, nsec, e, q);
  }

  lemma PrintedSum(sec: int, nsec: int, e: nat, q: real)
    requires e <= 33 && TwoTo(e) <= sec < TwoTo(e + 1) && 0 <= nsec < SECOND
    requires q == Binary64(nsec as real / 1000000000.0)
    ensures Truncate(Binary64(sec as real + q)) == sec + if (SECOND - nsec) * TwoTo(53 - e) <= SECOND then 1 else 0
  {
    var n := TwoTo(52 - e);
    var z := q * n as real;
    FractionReaches(nsec, e, q, n, z);
    SumTruncates(sec, e, q, n, z);
  }

  lemma SmallLog(sec: int, e: nat)
    requires 1 <= sec <= MAX_DURATION / SECOND && e == Log2(sec)
    ensures e <= 33
  {
    if e > 33 {
      TwoToGrows(34, e);
      Powers();
    }
  }

  lemma NotPositive(d: int)
    requires d <= 0
    ensures Seconds(d) <= 0.0
  {
    var sec := Quotient(d, SECOND);
    var y := (d - sec * SECOND) as real / 1000000000.0;
    RoundKeepsSign(y);
    RoundKeepsSign(sec as real + Binary64(y));
  }

  lemma RoundKeepsSign(x: real)
    requires x <= 0.0
    ensures Binary64(x) <= 0.0
  {
    if x < 0.0 {
      var ulp := Pow2(Exponent(-x) - 52);
      DivideBound(-x, 0.0, ulp);
      assert RoundHalfEven(-x / ulp) >= 0;
    }
  }

  /** Below 2^24 seconds the printed number is exactly the whole seconds. */
  lemma ExactBelow2To24Seconds(d: int)
    requires SECOND <= d < 0x100_0000 * SECOND
    ensures Nanoseconds(FormatDuration(d)).Some?
    ensures Nanoseconds(FormatDuration(d)).value <= d < Nanoseconds(FormatDuration(d)).value + SECOND
  {
    PrintedSeconds(d);
    var e := Log2(d / SECOND);
    Powers();
    if e > 23 {
      TwoToGrows(24, e);
    }
    TwoToGrows(30, 53 - e);
    ProductAtLeast(SECOND - d % SECOND, TwoTo(53 - e), 1, TwoTo(53 - e));
  }

  /** From 2^24 seconds on, the last nanosecond of every second already prints as the next second. */
  lemma RoundsUpFrom2To24Seconds(sec: int)
    requires 0x100_0000 <= sec < MAX_DURATION / SECOND
    ensures Nanoseconds(FormatDuration(sec * SECOND + SECOND - 1)) == Some((sec + 1) * SECOND)
  {
    hide FormatDuration, Nanoseconds, RoundsUp;
    var d := sec * SECOND + SECOND - 1;
    PrintedSeconds(d);
    LastNanosecond(sec, d);
  }

  lemma LastNanosecond(sec: int, d: int)
    requires 0x100_0000 <= sec < MAX_DURATION / SECOND && d == sec * SECOND + SECOND - 1
    ensures SECOND <= d <= MAX_DURATION && d / SECOND == sec && RoundsUp(d)
  {
    assert d / SECOND == sec && d % SECOND == SECOND - 1;
    var e := Log2(sec);
    SmallLog(sec, e);
    Powers();
    if e < 24 {
      TwoToGrows(e + 1, 24);
    }
    TwoToGrows(53 - e, 29);
  }
}
