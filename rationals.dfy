/** Rational keys: Euclid's gcd, reduction to lowest terms, and the key order
    used for every placement and comparison in the tree. */
module Rationals {

  /** A fraction numerator/denominator, as stored in every tree node. */
  datatype Rational = Rational(numerator: int, denominator: int)

  /** d is a positive divisor of n. */
  predicate Divides(d: int, n: int) {
    d > 0 && n % d == 0
  }

  /** Euclid's algorithm on non-negative operands, the definition the loop in
      ComputeGcd is proved against. */
  function Gcd(a: nat, b: nat): nat
    decreases b
  {
    if b == 0 then a else Gcd(b, a % b)
  }

  /** Sign facts about multiplying by a positive number. */
  lemma {:induction false} MulSign(d: int, q: int)
    requires d > 0
    ensures q <= 0 ==> d * q <= 0
    ensures q >= 1 ==> d * q >= d
    decreases if q < 0 then -q else q
  {
    if q > 1 {
      MulSign(d, q - 1);
      assert d * q == d * (q - 1) + d;
    } else if q < 0 {
      MulSign(d, q + 1);
      assert d * q == d * (q + 1) - d;
    }
  }

  /** One factor less: d * g == g * (d - 1) + g. */
  lemma MulPred(g: int, d: int)
    ensures d * g == g * (d - 1) + g
  {
  }

  /** Quotient and remainder are determined by x == d * q + r with 0 <= r < d. */
  lemma ModUnique(x: int, d: int, q: int, r: int)
    requires d > 0 && 0 <= r < d && x == d * q + r
    ensures x / d == q && x % d == r
  {
    var q', r' := x / d, x % d;
    assert x == d * q' + r';
    assert d * (q - q') == r' - r;
    MulSign(d, q - q');
    MulSign(d, q' - q);
    assert d * (q' - q) == -(d * (q - q'));
  }

  /** Adding a multiple of d does not change the remainder modulo d. */
  lemma ModAddMultiple(m: int, d: int, j: int)
    requires d > 0
    ensures (m + d * j) % d == m % d
  {
    var q := m / d;
    assert m == d * q + m % d;
    assert m + d * j == d * (q + j) + m % d;
    ModUnique(m + d * j, d, q + j, m % d);
  }

  /** A positive divisor of d divides every multiple of d. */
  lemma DividesMultiple(e: int, d: int, j: int)
    requires Divides(e, d)
    ensures Divides(e, d * j)
  {
    var q := d / e;
    assert d == e * q;
    assert d * j == e * (q * j);
    ModAddMultiple(0, e, q * j);
  }

  /** The common divisors of (a, b) are those of (b, a % b). */
  lemma EuclidStep(a: nat, b: nat, d: int)
    requires b > 0
    ensures (Divides(d, a) && Divides(d, b)) <==> (Divides(d, b) && Divides(d, a % b))
  {
    var q := a / b;
    assert a == b * q + a % b;
    if Divides(d, b) {
      DividesMultiple(d, b, q);
      var m := (b * q) / d;
      assert b * q == d * m;
      ModAddMultiple(a % b, d, m);
      assert a == a % b + d * m;
    }
  }

  /** Gcd(a, b) is a common divisor of a and b whenever one of them is positive. */
  lemma {:induction false} GcdDivides(a: nat, b: nat)
    requires a > 0 || b > 0
    ensures Divides(Gcd(a, b), a) && Divides(Gcd(a, b), b)
    decreases b
  {
    if b > 0 {
      GcdDivides(b, a % b);
      EuclidStep(a, b, Gcd(b, a % b));
    }
  }

  /** Every common divisor of a and b divides Gcd(a, b). */
  lemma {:induction false} GcdGreatest(a: nat, b: nat, d: int)
    requires Divides(d, a) && Divides(d, b)
    ensures Divides(d, Gcd(a, b))
    decreases b
  {
    if b > 0 {
      EuclidStep(a, b, d);
      GcdGreatest(b, a % b, d);
    }
  }

  /** Gcd is positive when an operand is, and gcd(a, 0) == a. */
  lemma GcdBasics(a: nat, b: nat)
    ensures Gcd(a, 0) == a
    ensures (a > 0 || b > 0) ==> Gcd(a, b) > 0
  {
    if a > 0 || b > 0 {
      GcdDivides(a, b);
    }
  }

  /** A positive divisor of a positive number is at most that number. */
  lemma DivisorBound(d: int, n: int)
    requires Divides(d, n) && n > 0
    ensures d <= n
  {
    var q := n / d;
    assert n == d * q;
    MulSign(d, q);
  }

  /** The loop of the source's gcd: replace (a, b) by (b, a % b) until b is 0. */
  method ComputeGcd(a0: nat, b0: nat) returns (g: nat)
    ensures g == Gcd(a0, b0)
    ensures (a0 > 0 || b0 > 0) ==> Divides(g, a0) && Divides(g, b0)
    ensures forall d :: Divides(d, a0) && Divides(d, b0) ==> Divides(d, g)
  {
    var a, b := a0, b0;
    while b != 0
      invariant Gcd(a, b) == Gcd(a0, b0)
      decreases b
    {
      var temp := b;
      b := a % b;
      a := temp;
    }
    g := a;
    if a0 > 0 || b0 > 0 {
      GcdDivides(a0, b0);
    }
    forall d | Divides(d, a0) && Divides(d, b0)
      ensures Divides(d, g)
    {
      GcdGreatest(a0, b0, d);
    }
  }

  /** Lowest terms: divide both parts by their gcd. Only non-negative numerators
      and positive denominators are reduced. */
  function Reduced(r: Rational): (s: Rational)
    requires r.numerator >= 0 && r.denominator > 0
  {
    var g := Gcd(r.numerator, r.denominator);
    GcdDivides(r.numerator, r.denominator);
    Rational(r.numerator / g, r.denominator / g)
  }

  /** A fraction is in lowest terms with a positive denominator. */
  predicate IsReduced(r: Rational) {
    r.numerator >= 0 && r.denominator > 0 && Gcd(r.numerator, r.denominator) == 1
  }

  /** Reduction keeps the value: s.numerator / s.denominator == r.numerator / r.denominator. */
  lemma ReducedSameRatio(r: Rational)
    requires r.numerator >= 0 && r.denominator > 0
    ensures Reduced(r).denominator > 0 && Reduced(r).numerator >= 0
    ensures Reduced(r).numerator * r.denominator == r.numerator * Reduced(r).denominator
  {
    var a, b := r.numerator, r.denominator;
    var g := Gcd(a, b);
    GcdDivides(a, b);
    var a', b' := a / g, b / g;
    assert a == g * a' && b == g * b';
    MulSign(g, b');
    MulSign(g, -a');
    assert g * -a' == -(g * a');
    calc {
      a' * b;
      a' * (g * b');
      (g * a') * b';
      a * b';
    }
  }

  /** A divisor of m, scaled by g, divides m scaled by g. */
  lemma DividesScaled(d: int, m: int, g: int)
    requires Divides(d, m) && g > 0
    ensures Divides(d * g, g * m)
  {
    var k := m / d;
    assert m == d * k;
    assert g * m == (d * g) * k;
    MulSign(d, g);
    ModAddMultiple(0, d * g, k);
  }

  /** Dividing both parts by their gcd leaves coprime parts. */
  lemma QuotientsCoprime(a: nat, b: nat, g: nat, a': nat, b': nat)
    requires a > 0 || b > 0
    requires g == Gcd(a, b) && a == g * a' && b == g * b'
    ensures Gcd(a', b') == 1
  {
    GcdDivides(a, b);
    assert g > 0;
    assert a' > 0 || b' > 0 by {
      if a > 0 { MulSign(g, a'); } else { MulSign(g, b'); }
    }
    var d := Gcd(a', b');
    GcdDivides(a', b');
    DividesScaled(d, a', g);
    DividesScaled(d, b', g);
    GcdGreatest(a, b, d * g);
    DivisorBound(d * g, g);
    MulSign(g, d - 1);
    MulPred(g, d);
  }

  /** A reduced fraction has coprime parts. */
  lemma ReducedIsReduced(r: Rational)
    requires r.numerator >= 0 && r.denominator > 0
    ensures IsReduced(Reduced(r))
  {
    ReducedSameRatio(r);
    GcdDivides(r.numerator, r.denominator);
    var s := Reduced(r);
    QuotientsCoprime(r.numerator, r.denominator, Gcd(r.numerator, r.denominator), s.numerator, s.denominator);
  }

  /** Reducing twice is reducing once. */
  lemma ReducedIdempotent(r: Rational)
    requires r.numerator >= 0 && r.denominator > 0
    ensures IsReduced(Reduced(r)) && Reduced(Reduced(r)) == Reduced(r)
  {
    ReducedIsReduced(r);
  }

  /** The source's simplify, which rewrites its argument in place; here it
      returns the reduced fraction. */
  method Simplify(r: Rational) returns (s: Rational)
    requires r.numerator >= 0 && r.denominator > 0
    ensures s == Reduced(r)
    ensures IsReduced(s)
    ensures s.numerator * r.denominator == r.numerator * s.denominator
  {
    var commonDivisor := ComputeGcd(r.numerator, r.denominator);
    s := Rational(r.numerator / commonDivisor, r.denominator / commonDivisor);
    ReducedIsReduced(r);
    ReducedSameRatio(r);
  }

  /** The key order: numerator first, then denominator. It is not the order
      of the values of the fractions. */
  predicate Less(a: Rational, b: Rational) {
    a.numerator < b.numerator || (a.numerator == b.numerator && a.denominator < b.denominator)
  }

  /** Less is a strict total order on numerator/denominator pairs. */
  lemma LessIsStrictTotalOrder(a: Rational, b: Rational, c: Rational)
    ensures !Less(a, a)
    ensures Less(a, b) ==> !Less(b, a)
    ensures Less(a, b) && Less(b, c) ==> Less(a, c)
    ensures a == b || Less(a, b) || Less(b, a)
  {
  }

  /** The key order differs from the order of values: 1/2 comes before 1/3. */
  lemma LessIsNotMagnitude()
    ensures Less(Rational(1, 2), Rational(1, 3))
    ensures Rational(1, 2).numerator * Rational(1, 3).denominator > Rational(1, 3).numerator * Rational(1, 2).denominator
  {
  }
}
