/**
  Exact rational numbers in the form Python's `fractions.Fraction` keeps them:
  a numerator and a positive denominator with no common factor. `Value` gives
  the mathematical meaning of a fraction as a `real`; every operation states
  its result through `Value`, and `OperationsInLowestTerms` shows that every
  result is again in lowest terms.
 */
module Fractions {

  function IntAbs(x: int): nat {
    if x < 0 then -x else x
  }

  ghost function RealAbs(x: real): real {
    if x < 0.0 then -x else x
  }

  /** Euclid's algorithm, as `math.gcd` on non-negative arguments. */
  function Gcd(a: nat, b: nat): nat
    decreases b
  {
    if b == 0 then a else Gcd(b, a % b)
  }

  /** The only multiple of a positive `c` in `[0, c)` is zero. */
  lemma SmallMultiple(c: int, t: int)
    requires c > 0 && 0 <= c * t < c
    ensures t == 0
  {
  }

  /** Division of a multiple of `c` by `c` is exact. */
  lemma MulDivCancel(c: int, k: int)
    requires c > 0
    ensures (c * k) / c == k && (c * k) % c == 0
  {
    var q, r := (c * k) / c, (c * k) % c;
    assert c * (k - q) == r by {
      assert c * k == c * q + r;
      assert c * (k - q) == c * k - c * q;
    }
    SmallMultiple(c, k - q);
  }

  /** `Gcd(a, b)` divides both of its arguments. */
  lemma {:induction false} GcdDivides(a: nat, b: nat)
    requires a > 0 || b > 0
    ensures Gcd(a, b) > 0 && a % Gcd(a, b) == 0 && b % Gcd(a, b) == 0
    decreases b
  {
    if b == 0 {
      MulDivCancel(a, 1);
      MulDivCancel(a, 0);
    } else {
      GcdDivides(b, a % b);
      DividesDividend(a, b, Gcd(b, a % b));
    }
  }

  /** A common divisor of `b` and `a % b` divides `a`. */
  lemma DividesDividend(a: nat, b: nat, g: int)
    requires b > 0 && g > 0 && b % g == 0 && (a % b) % g == 0
    ensures a % g == 0
  {
    var q, r := a / b, a % b;
    var kb, kr := b / g, r / g;
    assert b == g * kb && r == g * kr;
    assert a == g * (kb * q + kr) by {
      assert a == b * q + r;
      assert b * q == g * (kb * q);
    }
    MulDivCancel(g, kb * q + kr);
  }

  /** Every common divisor of `a` and `b` divides `Gcd(a, b)`. */
  lemma {:induction false} GcdGreatest(a: nat, b: nat, c: int)
    requires c > 0 && a % c == 0 && b % c == 0
    ensures Gcd(a, b) % c == 0
    decreases b
  {
    if b != 0 {
      var q, r := a / b, a % b;
      var ka, kb := a / c, b / c;
      assert a == c * ka && b == c * kb;
      assert r == c * (ka - kb * q) by {
        assert r == a - b * q;
        assert b * q == c * (kb * q);
      }
      MulDivCancel(c, ka - kb * q);
      GcdGreatest(b, r, c);
    }
  }

  /** A divisor of `|x|` divides `x` exactly, whatever the sign of `x`. */
  lemma ExactDiv(g: int, x: int)
    requires g > 0 && IntAbs(x) % g == 0
    ensures x == g * (x / g) && IntAbs(x / g) == IntAbs(x) / g
  {
    var k := IntAbs(x) / g;
    assert IntAbs(x) == g * k;
    if x < 0 {
      assert x == g * (-k);
      MulDivCancel(g, -k);
    } else {
      MulDivCancel(g, k);
    }
  }

  /** If `g * h` divides `g` and `h` is positive, then `h` is one. */
  lemma DividesItself(g: int, h: int)
    requires g > 0 && h > 0 && g % (g * h) == 0
    ensures h == 1
  {
    var e := g / (g * h);
    assert g == (g * h) * e;
    assert g * (h * e - 1) == 0 by {
      assert (g * h) * e == g * (h * e);
    }
    assert h * e == 1;
  }

  /** Dividing a non-zero pair by its greatest common divisor leaves a pair without common factor. */
  lemma DivideByGcd(n: int, d: int)
    requires d != 0
    ensures var g := Gcd(IntAbs(n), IntAbs(d));
      g > 0 && n == g * (n / g) && d == g * (d / g) && Gcd(IntAbs(n / g), IntAbs(d / g)) == 1
  {
    var g := Gcd(IntAbs(n), IntAbs(d));
    GcdDivides(IntAbs(n), IntAbs(d));
    ExactDiv(g, n);
    ExactDiv(g, d);
    MulDivCancel(g, IntAbs(n) / g);
    MulDivCancel(g, IntAbs(d) / g);
    CoprimeQuotients(IntAbs(n), IntAbs(d), IntAbs(n / g), IntAbs(d / g));
  }

  /** With `a = g * an` and `b = g * ad` for `g = Gcd(a, b)`, the quotients share no factor. */
  lemma CoprimeQuotients(a: nat, b: nat, an: nat, ad: nat)
    requires Gcd(a, b) > 0 && ad > 0
    requires a == Gcd(a, b) * an && b == Gcd(a, b) * ad
    ensures Gcd(an, ad) == 1
  {
    var g, h := Gcd(a, b), Gcd(an, ad);
    GcdDivides(an, ad);
    var gh := g * h;
    assert gh > 0 && a % gh == 0 by {
      CommonFactor(g, h, an, a);
    }
    assert b % gh == 0 by {
      CommonFactor(g, h, ad, b);
    }
    assert g % gh == 0 by {
      GcdGreatest(a, b, gh);
    }
    DividesItself(g, h);
  }

  /** If `h` divides `a`, then `g * h` divides `ga = g * a`. */
  lemma CommonFactor(g: int, h: int, a: int, ga: int)
    requires g > 0 && h > 0 && a % h == 0 && ga == g * a
    ensures g * h > 0 && ga % (g * h) == 0
  {
    var k := a / h;
    assert a == h * k;
    assert ga == (g * h) * k;
    MulDivCancel(g * h, k);
  }

  /** A numerator with a denominator; `Fraction` below keeps the denominator positive. */
  datatype Frac = Frac(num: int, den: int)

  type Fraction = q: Frac | q.den > 0 witness Frac(0, 1)

  /** No common factor: the normal form in which Python stores and prints a fraction. */
  ghost predicate LowestTerms(q: Fraction) {
    Gcd(IntAbs(q.num), q.den) == 1
  }

  ghost function Value(q: Fraction): real {
    q.num as real / q.den as real
  }

  /** `Fraction(n, d)`: the fraction n/d in lowest terms with a positive denominator. */
  function Make(n: int, d: int): (q: Fraction)
    requires d != 0
    ensures Value(q) == n as real / d as real
  {
    var g := Gcd(IntAbs(n), IntAbs(d));
    DivideByGcd(n, d);
    var s := if d < 0 then -1 else 1;
    ScaledQuotient(g, s, n / g, d / g);
    Frac(s * (n / g), s * (d / g))
  }

  /** `Make` reduces: its result has no common factor. */
  lemma MakeInLowestTerms(n: int, d: int)
    requires d != 0
    ensures LowestTerms(Make(n, d))
  {
    var g := Gcd(IntAbs(n), IntAbs(d));
    DivideByGcd(n, d);
    var s := if d < 0 then -1 else 1;
    ScaledQuotient(g, s, n / g, d / g);
  }

  /** Multiplying numerator and denominator by the same non-zero factors keeps the quotient. */
  lemma ScaledQuotient(g: int, s: int, kn: int, kd: int)
    requires g > 0 && (s == 1 || s == -1) && kd != 0
    ensures IntAbs(s * kn) == IntAbs(kn) && IntAbs(s * kd) == IntAbs(kd)
    ensures (s * kn) as real / (s * kd) as real == (g * kn) as real / (g * kd) as real
  {
    MulReal(g, kn);
    MulReal(g, kd);
    CancelReal(g as real, kn as real, kd as real);
    CancelReal(s as real, kn as real, kd as real);
    MulReal(s, kn);
    MulReal(s, kd);
  }

  lemma MulReal(a: int, b: int)
    ensures (a * b) as real == a as real * b as real
  {
  }

  lemma CancelReal(g: real, a: real, b: real)
    requires g != 0.0 && b != 0.0
    ensures (g * a) / (g * b) == a / b
  {
  }

  /** A pair already in lowest terms is left as it is. */
  lemma MakeLowestTerms(n: int, d: int)
    requires d > 0 && Gcd(IntAbs(n), d) == 1
    ensures Make(n, d) == Frac(n, d)
  {
    assert IntAbs(d) == d;
    MulDivCancel(1, n);
    MulDivCancel(1, d);
  }

  /** Zero over any denominator is `0/1`. */
  lemma MakeZero(d: int)
    requires d != 0
    ensures Make(0, d) == Frac(0, 1)
  {
    assert Gcd(0, IntAbs(d)) == Gcd(IntAbs(d), 0) == IntAbs(d);
    MulDivCancel(IntAbs(d), 0);
    if d < 0 {
      MulDivCancel(-d, -1);
    } else {
      MulDivCancel(d, 1);
    }
  }

  /** Adding a zero fraction gives back a fraction in lowest terms unchanged. */
  lemma AddZero(q: Fraction, d: int)
    requires LowestTerms(q) && d != 0
    ensures Add(q, Make(0, d)) == q
  {
    MakeZero(d);
    MakeLowestTerms(q.num, q.den);
  }

  /** Every operation below builds its result with `Make`, or keeps the numerator's magnitude. */
  lemma OperationsInLowestTerms(x: Fraction, y: Fraction, k: int)
    ensures LowestTerms(FromInt(k))
    ensures LowestTerms(Add(x, y)) && LowestTerms(Sub(x, y)) && LowestTerms(MulInt(x, k))
    ensures LowestTerms(x) ==> LowestTerms(Abs(x))
  {
    assert Gcd(IntAbs(k), 1) == Gcd(1, 0);
    MakeInLowestTerms(x.num * y.den + y.num * x.den, x.den * y.den);
    MakeInLowestTerms(x.num * y.den - y.num * x.den, x.den * y.den);
    MakeInLowestTerms(x.num * k, x.den);
  }

  function FromInt(k: int): (q: Fraction)
    ensures Value(q) == k as real
  {
    Frac(k, 1)
  }

  function Add(x: Fraction, y: Fraction): (z: Fraction)
    ensures Value(z) == Value(x) + Value(y)
  {
    CrossSum(x, y, 1);
    Make(x.num * y.den + y.num * x.den, x.den * y.den)
  }

  function Sub(x: Fraction, y: Fraction): (z: Fraction)
    ensures Value(z) == Value(x) - Value(y)
  {
    CrossSum(x, y, -1);
    Make(x.num * y.den - y.num * x.den, x.den * y.den)
  }

  /** Bringing `x` and `y` to the common denominator `x.den * y.den`. */
  lemma CrossSum(x: Fraction, y: Fraction, s: int)
    requires s == 1 || s == -1
    ensures x.den * y.den > 0
    ensures (x.num * y.den + s * (y.num * x.den)) as real / (x.den * y.den) as real
      == Value(x) + s as real * Value(y)
  {
    CrossSumInt(x.num, x.den, y.num, y.den, s);
  }

  lemma CrossSumInt(a: int, b: int, c: int, d: int, s: int)
    requires b > 0 && d > 0 && (s == 1 || s == -1)
    ensures b * d > 0
    ensures (a * d + s * (c * b)) as real / (b * d) as real
      == a as real / b as real + s as real * (c as real / d as real)
  {
    MulReal(a, d);
    MulReal(c, b);
    MulReal(b, d);
    MulReal(s, c * b);
    CrossReal(a as real, b as real, c as real, d as real, s as real);
  }

  lemma CrossReal(a: real, b: real, c: real, d: real, s: real)
    requires b != 0.0 && d != 0.0
    ensures (a * d + s * (c * b)) / (b * d) == a / b + s * (c / d)
  {
  }

  /** A fraction times an integer, as `Fraction * int`. */
  function MulInt(x: Fraction, k: int): (z: Fraction)
    ensures Value(z) == Value(x) * k as real
  {
    MulReal(x.num, k);
    assert (x.num as real * k as real) / x.den as real == (x.num as real / x.den as real) * k as real;
    Make(x.num * k, x.den)
  }

  function Abs(x: Fraction): (z: Fraction)
    ensures Value(z) == RealAbs(Value(x))
  {
    var z := Frac(IntAbs(x.num), x.den);
    assert z.num as real == RealAbs(x.num as real);
    z
  }

  /** `x <= y`, decided by cross-multiplication as Python compares fractions. */
  predicate Le(x: Fraction, y: Fraction)
    ensures Le(x, y) <==> Value(x) <= Value(y)
  {
    LeValue(x, y);
    x.num * y.den <= y.num * x.den
  }

  lemma LeValue(x: Fraction, y: Fraction)
    ensures x.num * y.den <= y.num * x.den <==> Value(x) <= Value(y)
  {
    var xn, xd, yn, yd := x.num as real, x.den as real, y.num as real, y.den as real;
    assert xd * yd > 0.0;
    assert Value(x) * (xd * yd) == xn * yd;
    assert Value(y) * (xd * yd) == yn * xd;
    assert (x.num * y.den) as real == xn * yd;
    assert (y.num * x.den) as real == yn * xd;
  }

  /** The value of a fraction is its floor-quotient plus the remainder share. */
  lemma ValueSplit(x: Fraction)
    ensures Value(x) == (x.num / x.den) as real + (x.num % x.den) as real / x.den as real
    ensures 0.0 <= (x.num % x.den) as real / x.den as real < 1.0
  {
    var q, r, d := x.num / x.den, x.num % x.den, x.den;
    assert x.num == d * q + r;
    var rr, dr := r as real, d as real;
    assert x.num as real == dr * q as real + rr;
    assert (dr * q as real + rr) / dr == q as real + rr / dr;
    assert rr / dr < 1.0 by {
      assert rr < dr;
    }
  }

  /** `numerator // denominator`: the largest integer not above the value. */
  function Floor(x: Fraction): (f: int)
    ensures f as real <= Value(x) < f as real + 1.0
  {
    ValueSplit(x);
    x.num / x.den
  }

  /**
    `round(x)` on a fraction: the nearest integer, ties to the even neighbour,
    decided on the integers from `divmod(numerator, denominator)`.
   */
  function Round(x: Fraction): (r: int)
    ensures RealAbs(r as real - Value(x)) <= 0.5
    ensures RealAbs(r as real - Value(x)) == 0.5 ==> r % 2 == 0
  {
    var fl, rem := x.num / x.den, x.num % x.den;
    ValueSplit(x);
    RoundCases(x.den, rem);
    if 2 * rem < x.den then fl
    else if 2 * rem > x.den then fl + 1
    else if fl % 2 == 0 then fl
    else fl + 1
  }

  /** How `2 * rem` against `den` places the remainder share against one half. */
  lemma RoundCases(den: int, rem: int)
    requires 0 <= rem < den
    ensures 2 * rem < den <==> rem as real / den as real < 0.5
    ensures 2 * rem == den <==> rem as real / den as real == 0.5
  {
    var rr, dr := rem as real, den as real;
    var q := rr / dr;
    assert q * dr == rr;
    assert 2 * rem < den <==> rr < 0.5 * dr;
    assert 2 * rem == den <==> rr == 0.5 * dr;
    ScaleLess(q, 0.5, dr);
    ScaleLess(0.5, q, dr);
  }

  /** Multiplying by a positive factor keeps a strict order, both ways. */
  lemma ScaleLess(a: real, b: real, c: real)
    requires c > 0.0
    ensures a < b <==> a * c < b * c
  {
    if a < b {
      assert (b - a) * c > 0.0;
    } else {
      assert (a - b) * c >= 0.0;
    }
  }

  /** No integer is nearer to `x` than `Round(x)`. */
  lemma RoundIsNearest(x: Fraction, k: int)
    ensures RealAbs(Round(x) as real - Value(x)) <= RealAbs(k as real - Value(x))
  {
    var r, v := Round(x), Value(x);
    if k != r {
      assert k as real <= r as real - 1.0 || k as real >= r as real + 1.0;
    }
  }

  /**
    Nearest-integer-ties-to-even pins the result down: any integer within one
    half of `x` that is even on a tie is `Round(x)`.
   */
  lemma RoundUnique(x: Fraction, k: int)
    requires RealAbs(k as real - Value(x)) <= 0.5
    requires RealAbs(k as real - Value(x)) == 0.5 ==> k % 2 == 0
    ensures k == Round(x)
  {
  }
}
