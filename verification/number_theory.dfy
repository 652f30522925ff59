/** The number theory that the primality test rests on: greatest common divisors, Euclid's lemma,
    Fermat's little theorem and the square roots of one modulo a prime. */
module NumberTheory {
  import opened Limbs

  predicate Divides(d: int, n: int)
    requires d > 0
  {
    n % d == 0
  }

  lemma DividesFactor(d: int, n: int) returns (k: int)
    requires d > 0 && Divides(d, n)
    ensures n == d * k
  {
    DivModSplit(n, d);
    k := n / d;
  }

  lemma FactorDivides(d: int, k: int)
    requires d > 0
    ensures Divides(d, d * k) && Divides(d, k * d)
  {
    DivModUnique(d * k, d, k, 0);
  }

  lemma DividesSum(d: int, x: int, y: int)
    requires d > 0 && Divides(d, x)
    ensures Divides(d, y) <==> Divides(d, x + y)
  {
    var k := DividesFactor(d, x);
    ModAddMultiple(y, k, d);
  }

  lemma DividesMultiple(d: int, x: int, k: int)
    requires d > 0 && Divides(d, x)
    ensures Divides(d, x * k) && Divides(d, k * x)
  {
    var q := DividesFactor(d, x);
    MulAssoc(d, q, k);
    FactorDivides(d, q * k);
  }

  lemma DividesTrans(d: int, e: int, n: int)
    requires d > 0 && e > 0 && Divides(d, e) && Divides(e, n)
    ensures Divides(d, n)
  {
    var k := DividesFactor(e, n);
    DividesMultiple(d, e, k);
  }

  lemma DividesLe(d: int, n: int)
    requires d > 0 && n > 0 && Divides(d, n)
    ensures d <= n
  {
    if n < d { ModSmall(n, d); }
  }

  // ------------------------------------------------ greatest common divisor

  /** Euclid's algorithm. */
  function Gcd(a: nat, b: nat): (g: nat)
    ensures a > 0 || b > 0 ==> g > 0
    decreases b
  {
    if b == 0 then a else DivModSplit(a, b); Gcd(b, a % b)
  }

  lemma {:induction false} GcdDivides(a: nat, b: nat)
    requires a > 0 || b > 0
    ensures Divides(Gcd(a, b), a) && Divides(Gcd(a, b), b)
    decreases b
  {
    if b == 0 {
      FactorDivides(a, 1);
      FactorDivides(a, 0);
    } else {
      var g := Gcd(a, b);
      DivModSplit(a, b);
      GcdDivides(b, a % b);
      DividesMultiple(g, b, a / b);
      DividesSum(g, (a / b) * b, a % b);
    }
  }

  /** Bezout: the greatest common divisor is an integer combination. */
  lemma {:induction false} Bezout(a: nat, b: nat) returns (x: int, y: int)
    ensures Gcd(a, b) == a * x + b * y
    decreases b
  {
    if b == 0 {
      x, y := 1, 0;
    } else {
      DivModSplit(a, b);
      var u, v := Bezout(b, a % b);
      x, y := v, u - (a / b) * v;
      MulDist(b, u, 0 - (a / b) * v);
      MulDist(v, (a / b) * b, a % b);
      MulAssoc(b, a / b, v);
    }
  }

  /** Every common divisor divides the greatest one. */
  lemma GcdGreatest(a: nat, b: nat, d: nat)
    requires d > 0 && (a > 0 || b > 0) && Divides(d, a) && Divides(d, b)
    ensures Divides(d, Gcd(a, b))
  {
    var x, y := Bezout(a, b);
    DividesMultiple(d, a, x);
    DividesMultiple(d, b, y);
    DividesSum(d, a * x, b * y);
  }

  /** The greatest common divisor is determined by its two properties. */
  lemma GcdUnique(a: nat, b: nat, g: nat)
    requires g > 0 && (a > 0 || b > 0) && Divides(g, a) && Divides(g, b)
    requires forall d: nat :: d > 0 && Divides(d, a) && Divides(d, b) ==> Divides(d, g)
    ensures g == Gcd(a, b)
  {
    GcdDivides(a, b);
    GcdGreatest(a, b, g);
    DividesLe(g, Gcd(a, b));
    DividesLe(Gcd(a, b), g);
  }

  lemma GcdSymmetric(a: nat, b: nat)
    ensures Gcd(a, b) == Gcd(b, a)
  {
    if a > 0 || b > 0 {
      GcdDivides(b, a);
      forall d: nat | d > 0 && Divides(d, a) && Divides(d, b) ensures Divides(d, Gcd(b, a)) { GcdGreatest(b, a, d); }
      GcdUnique(a, b, Gcd(b, a));
    }
  }

  /** Two pairs with the same common divisors have the same greatest one. */
  lemma SameGcd(a: nat, b: nat, a': nat, b': nat)
    requires (a > 0 || b > 0) && (a' > 0 || b' > 0)
    requires forall d: nat :: d > 0 ==> (Divides(d, a) && Divides(d, b) <==> Divides(d, a') && Divides(d, b'))
    ensures Gcd(a, b) == Gcd(a', b')
  {
    GcdDivides(a, b);
    forall d: nat | d > 0 && Divides(d, a') && Divides(d, b') ensures Divides(d, Gcd(a, b)) { GcdGreatest(a, b, d); }
    GcdUnique(a', b', Gcd(a, b));
  }

  /** Subtracting one number from the other keeps the greatest common divisor. */
  lemma GcdSubtract(u: nat, v: nat)
    requires 0 < u <= v
    ensures Gcd(u, v - u) == Gcd(u, v)
  {
    forall d: nat | d > 0 ensures Divides(d, u) && Divides(d, v - u) <==> Divides(d, u) && Divides(d, v) {
      if Divides(d, u) { DividesSum(d, u, v - u); }
    }
    SameGcd(u, v - u, u, v);
  }

  /** Reducing one number modulo the other keeps it too. */
  lemma GcdMod(n: nat, p: nat)
    requires p > 0
    ensures Gcd(n % p, p) == Gcd(n, p)
  {
    DivModSplit(n, p);
    GcdSymmetric(n % p, p);
  }

  /** A divisor of an odd number is odd, and what it divides twice of, it divides. */
  lemma OddDivisor(d: nat, u: nat, v: nat)
    requires d > 0 && u % 2 == 1 && Divides(d, u) && Divides(d, 2 * v)
    ensures Divides(d, v)
  {
    var k := DividesFactor(d, u);
    if d % 2 == 0 {
      MulAssoc(2, d / 2, k);
      assert false;
    }
    var j := DividesFactor(d, 2 * v);
    OddHalf(d, d / 2, j, v);
  }

  lemma HalfFactor(d: int, h: int, j: int, v: int)
    requires d == 2 * h + 1 && 2 * v == d * j
    ensures j % 2 == 0
  {
    MulDist(j, 2 * h, 1);
    MulAssoc(2, h, j);
    assert j == 2 * (v - h * j);
  }

  lemma OddHalf(d: int, h: int, j: int, v: int)
    requires d > 0 && d == 2 * h + 1 && 2 * v == d * j
    ensures Divides(d, v)
  {
    HalfFactor(d, h, j, v);
    var i := j / 2;
    assert d * j == 2 * (d * i);
    FactorDivides(d, i);
  }

  lemma GcdHalve(u: nat, v: nat)
    requires u % 2 == 1
    ensures Gcd(u, 2 * v) == Gcd(u, v)
  {
    forall d: nat | d > 0 ensures Divides(d, u) && Divides(d, 2 * v) <==> Divides(d, u) && Divides(d, v) {
      if Divides(d, u) && Divides(d, 2 * v) { OddDivisor(d, u, v); }
      if Divides(d, v) { DividesMultiple(d, v, 2); }
    }
    SameGcd(u, 2 * v, u, v);
  }

  /** Powers of two on one side do not matter when the other side is odd. */
  lemma {:induction false} GcdOddPart(u: nat, v: nat, k: nat)
    requires u % 2 == 1
    ensures Gcd(u, v * Pow(2, k)) == Gcd(u, v)
  {
    if k > 0 {
      GcdOddPart(u, v, k - 1);
      MulAssoc(2, v, Pow(2, k - 1));
      MulAssoc(v, 2, Pow(2, k - 1));
      GcdHalve(u, v * Pow(2, k - 1));
    }
  }

  /** A common factor comes out. */
  lemma {:induction false} GcdScale(a: nat, b: nat, c: nat)
    requires c > 0
    ensures Gcd(c * a, c * b) == c * Gcd(a, b)
    decreases b
  {
    if b > 0 {
      DivModSplit(a, b);
      GcdScale(b, a % b, c);
      ScaledMod(a, b, c, a / b, a % b);
    }
  }

  /** Scaling both numbers scales the remainder. */
  lemma ScaledMod(a: nat, b: nat, c: nat, q: nat, r: nat)
    requires c > 0 && a == q * b + r && r < b
    ensures c * b > 0 && (c * a) % (c * b) == c * r
  {
    MulPos(c, b);
    MulDist(c, q * b, r);
    MulAssoc(c, q, b);
    MulAssoc(q, c, b);
    MulLt(r, b, c);
    MulLe(0, r, c);
    DivModUnique(c * a, c * b, q, c * r);
  }

  // ----------------------------------------------------------------- primes

  ghost predicate IsPrime(p: nat) {
    2 <= p && forall d: nat :: 1 <= d && Divides(d, p) ==> d == 1 || d == p
  }

  /** A prime is coprime to what it does not divide. */
  lemma PrimeCoprime(p: nat, a: nat)
    requires IsPrime(p) && !Divides(p, a)
    ensures Gcd(p, a) == 1
  {
    GcdDivides(p, a);
  }

  /** Euclid's lemma. */
  lemma Euclid(p: nat, a: nat, b: nat)
    requires IsPrime(p) && Divides(p, a * b)
    ensures Divides(p, a) || Divides(p, b)
  {
    if !Divides(p, a) {
      PrimeCoprime(p, a);
      var x, y := Bezout(p, a);
      MulDist(b, p * x, a * y);
      assert b == p * x * b + a * y * b;
      MulAssoc(p, x, b);
      assert a * y * b == (a * b) * y;
      FactorDivides(p, x * b);
      DividesMultiple(p, a * b, y);
      DividesSum(p, p * (x * b), (a * b) * y);
    }
  }

  // --------------------------------------------- Fermat's little theorem

  /** Binomial coefficients, by Pascal's rule. */
  function Binomial(n: nat, k: nat): nat {
    if k == 0 then 1
    else if n == 0 then 0
    else Binomial(n - 1, k - 1) + Binomial(n - 1, k)
  }

  lemma {:induction false} BinomialAbove(n: nat, k: nat)
    requires n < k
    ensures Binomial(n, k) == 0
  {
    if n > 0 {
      BinomialAbove(n - 1, k - 1);
      BinomialAbove(n - 1, k);
    }
  }

  lemma {:induction false} BinomialSelf(n: nat)
    ensures Binomial(n, n) == 1
  {
    if n > 0 {
      BinomialSelf(n - 1);
      BinomialAbove(n - 1, n);
    }
  }

  /** k * C(n, k) == n * C(n - 1, k - 1). */
  lemma {:induction false} BinomialAbsorb(n: nat, k: nat)
    requires 1 <= n && 1 <= k
    ensures k * Binomial(n, k) == n * Binomial(n - 1, k - 1)
  {
    if n == 1 {
      if k > 1 { BinomialAbove(1, k); }
    } else {
      BinomialAbsorb(n - 1, k);
      if k > 1 {
        BinomialAbsorb(n - 1, k - 1);
        AbsorbStep(n, k, Binomial(n - 1, k - 1), Binomial(n - 1, k), Binomial(n - 2, k - 2), Binomial(n - 2, k - 1));
      } else {
      }
    }
  }

  lemma AbsorbStep(n: int, k: int, a: int, b: int, c: int, d: int)
    requires (k - 1) * a == (n - 1) * c && k * b == (n - 1) * d && a == c + d
    ensures k * (a + b) == n * a
  {
    MulDist(k, a, b);
    MulDist(a, k, -1);
    MulDist(n - 1, c, d);
    MulDist(a, n, -1);
  }

  /** A prime divides its inner binomial coefficients. */
  lemma PrimeBinomial(p: nat, k: nat)
    requires IsPrime(p) && 0 < k < p
    ensures Divides(p, Binomial(p, k))
  {
    BinomialAbsorb(p, k);
    FactorDivides(p, Binomial(p - 1, k - 1));
    Euclid(p, k, Binomial(p, k));
    ModSmall(k, p);
  }

  /** The binomial sum up to the k-th term. */
  function BinomialSum(n: nat, a: nat, k: nat): nat {
    Binomial(n, k) * Pow(a, k) + if k == 0 then 0 else BinomialSum(n, a, k - 1)
  }

  /** The sum without its last term. */
  function SumBelow(n: nat, a: nat, k: nat): nat { if k == 0 then 0 else BinomialSum(n, a, k - 1) }

  lemma LastTerm(n: nat, a: nat, k: nat)
    ensures BinomialSum(n, a, k) == Binomial(n, k) * Pow(a, k) + SumBelow(n, a, k)
  {}

  lemma {:induction false} BinomialSumPascal(n: nat, a: nat, k: nat)
    ensures BinomialSum(n + 1, a, k) == BinomialSum(n, a, k) + a * SumBelow(n, a, k)
  {
    if k > 0 {
      BinomialSumPascal(n, a, k - 1);
      LastTerm(n + 1, a, k);
      LastTerm(n, a, k);
      LastTerm(n, a, k - 1);
      PascalInt(Binomial(n, k - 1), Binomial(n, k), a, Pow(a, k - 1), BinomialSum(n, a, k - 1), SumBelow(n, a, k - 1));
    }
  }

  lemma PascalInt(c: int, d: int, a: int, p: int, s: int, t: int)
    ensures (c + d) * (a * p) + (s + a * t) == d * (a * p) + s + a * (c * p + t)
  {
    MulDist(a * p, c, d);
    MulDist(a, c * p, t);
    MulAssoc(a, c, p);
    MulAssoc(c, a, p);
  }

  /** The binomial theorem for 1 + a. */
  lemma {:induction false} BinomialTheorem(n: nat, a: nat)
    ensures BinomialSum(n, a, n) == Pow(a + 1, n)
  {
    if n == 0 {
      assert BinomialSum(0, a, 0) == 1;
    } else {
      BinomialTheorem(n - 1, a);
      NextPower(n - 1, a);
    }
  }

  lemma NextPower(n: nat, a: nat)
    requires BinomialSum(n, a, n) == Pow(a + 1, n)
    ensures BinomialSum(n + 1, a, n + 1) == Pow(a + 1, n + 1)
  {
    hide BinomialSum, Pow;
    NextRow(n, a);
    PowSucc(a + 1, n);
    MulDist(Pow(a + 1, n), a, 1);
  }

  lemma NextRow(n: nat, a: nat)
    ensures BinomialSum(n + 1, a, n + 1) == BinomialSum(n, a, n) + a * BinomialSum(n, a, n)
  {
    BinomialSumPascal(n, a, n + 1);
    BinomialAbove(n, n + 1);
    LastTerm(n, a, n + 1);
  }

  /** Modulo a prime all the inner terms vanish. */
  lemma {:induction false} InnerTerms(p: nat, a: nat, k: nat)
    requires IsPrime(p) && k < p
    ensures Divides(p, BinomialSum(p, a, k) - 1)
  {
    if k == 0 {
      FactorDivides(p, 0);
    } else {
      InnerTerms(p, a, k - 1);
      PrimeBinomial(p, k);
      DividesMultiple(p, Binomial(p, k), Pow(a, k));
      DividesSum(p, Binomial(p, k) * Pow(a, k), BinomialSum(p, a, k - 1) - 1);
    }
  }

  /** a^p is a modulo p. */
  lemma {:induction false} FermatPower(p: nat, a: nat)
    requires IsPrime(p)
    ensures Divides(p, Pow(a, p) - a)
  {
    if a == 0 {
      assert Pow(0, p) == 0;
      FactorDivides(p, 0);
    } else {
      FermatPower(p, a - 1);
      BinomialTheorem(p, a - 1);
      InnerTerms(p, a - 1, p - 1);
      BinomialSelf(p);
      DividesSum(p, BinomialSum(p, a - 1, p - 1) - 1, Pow(a - 1, p) - (a - 1));
    }
  }

  /** Fermat's little theorem. */
  lemma Fermat(p: nat, a: nat)
    requires IsPrime(p) && !Divides(p, a)
    ensures Pow(a, p - 1) % p == 1
  {
    FermatPower(p, a);
    var x := Pow(a, p - 1);
    if a == 0 { FactorDivides(p, 0); }
    PowPos(a, p - 1);
    assert Pow(a, p) - a == a * (x - 1) by { MulDist(a, x, -1); }
    Euclid(p, a, x - 1);
    var k := DividesFactor(p, x - 1);
    DivModUnique(x, p, k, 1);
  }

  /** Modulo a prime, one has only the square roots 1 and -1. */
  lemma SquareRootsOfOne(p: nat, y: nat)
    requires IsPrime(p) && y < p && (y * y) % p == 1
    ensures y == 1 || y == p - 1
  {
    DivModSplit(y * y, p);
    if y == 0 { ModSmall(0, p); }
    FactorDivides(p, (y * y) / p);
    assert y * y - 1 == (y - 1) * (y + 1) by { MulDist(y + 1, y, -1); MulDist(y, y, 1); }
    Euclid(p, y - 1, y + 1);
    if Divides(p, y - 1) {
      ModSmall(y - 1, p);
    } else {
      DividesLe(p, y + 1);
    }
  }
}
