/** Modular power by repeated squaring, and the binary greatest common divisor: of machine words, and of wide
    integers with the hand-over to machine words, on every pair of numbers of the type.  The most negative number is
    its own negation, so that the loop then runs on -1; what comes of that, and when it never ends, is stated too. */
module Modular {
  import opened Limbs
  import opened NumberTheory
  import opened TwosComplement

  // --------------------------------------------------------- modular power

  lemma ModMul(a: int, b: int, m: int)
    requires 0 < m
    ensures ((a % m) * b) % m == (a * b) % m == (a * (b % m)) % m
  {
    DivModSplit(a, m);
    DivModSplit(b, m);
    var q, r, s, t := a / m, a % m, b / m, b % m;
    MulDist(b, q * m, r);
    assert q * m * b == (q * b) * m;
    ModAddMultiple(r * b, q * b, m);
    MulDist(a, s * m, t);
    assert a * (s * m) == (a * s) * m;
    ModAddMultiple(a * t, a * s, m);
  }

  lemma {:induction false} PowMod(y: nat, e: nat, m: nat)
    requires 0 < m
    ensures 0 <= y % m && Pow(y % m, e) % m == Pow(y, e) % m
  {
    DivModSplit(y, m);
    if e > 0 {
      PowMod(y, e - 1, m);
      var r: nat := y % m;
      ModMul(r, Pow(r, e - 1), m);
      ModMul(r, Pow(y, e - 1), m);
      ModMul(y, Pow(y, e - 1), m);
    }
  }

  lemma PowSquare(y: nat, e: nat)
    ensures Pow(y, 2 * e) == Pow(y * y, e)
  {
    PowMul(y, 2, e);
    assert Pow(y, 2) == y * y by { PowSucc(y, 1); PowSucc(y, 0); }
  }

  /** One digit of the exponent: x * y^p is unchanged modulo m. */
  lemma SquareStep(x: nat, y: nat, p: nat, m: nat, x': nat, y': nat)
    requires 0 < m && 0 < p
    requires x' % m == (if p % 2 == 1 then x * y else x) % m && y' == (y * y) % m
    ensures (x' * Pow(y', p / 2)) % m == (x * Pow(y, p)) % m
  {
    hide Pow;
    var e := p / 2;
    PowMod(y * y, e, m);
    PowSquare(y, e);
    var s, t := Pow(y, 2 * e), Pow(y', e);
    ModMul(x', t, m);
    ModMul(x' % m, t, m);
    if p % 2 == 1 {
      PowSucc(y, 2 * e);
      MulAssoc(x, y, s);
      ModMul(x * y, s, m);
      ModMul((x * y) % m, s, m);
    } else {
      ModMul(x, s, m);
      ModMul(x % m, s, m);
    }
  }

  /** A product of two numbers of W bits fits twice the width. */
  lemma DoubleWidth(W: nat, x: nat, y: nat)
    requires x < Pow(2, W) && y < Pow(2, W)
    ensures 0 <= x * y < Pow(2, 2 * W) && Wrap(Pow(2, 2 * W), x * y) == x * y
  {
    PowAdd(2, W, W);
    var P := Pow(2, W);
    MulLe(x, P - 1, y);
    MulLe(y, P - 1, P - 1);
    MulDist(P - 1, P - 1, 1);
    MulDist(P, P - 1, 1);
    MulLe(0, x, y);
    ModSmall(x * y, Pow(2, 2 * W));
  }

  /** b^p mod m, with products in twice the width; the base starts unreduced. */
  method Powm(W: nat, b: nat, p: nat, m: nat) returns (result: nat)
    requires 0 < m < Pow(2, W) && b < Pow(2, W)
    ensures result == Pow(b, p) % m && result < m
  {
    hide Pow, Wrap;
    PowPos(2, 2 * W);
    DivModSplit(Pow(b, p), m);
    if p == 0 {
      ZeroPower(b, m);
      result := if m != 1 then 1 else 0;
    } else if p == 1 {
      OnePower(b);
      result := b % m;
    } else if p == 2 {
      OnePower(b);
      DoubleWidth(W, b, b);
      result := Wrap(Pow(2, 2 * W), b * b) % m;
    } else {
      var x, y, pLocal := 1, b, p;
      while pLocal != 0
        invariant 0 <= pLocal && 0 <= y < Pow(2, W) && (0 <= x < m || (x == 1 && pLocal > 0))
        invariant (x * Pow(y, pLocal)) % m == Pow(b, p) % m
        decreases pLocal
      {
        ghost var x0, y0 := x, y;
        if pLocal % 2 != 0 {
          DoubleWidth(W, x, y);
          x := Wrap(Pow(2, 2 * W), x * y) % m;
          DivModSplit(x0 * y, m);
          ModSmall(x, m);
        }
        DoubleWidth(W, y, y);
        y := Wrap(Pow(2, 2 * W), y * y) % m;
        DivModSplit(y0 * y0, m);
        SquareStep(x0, y0, pLocal, m, x, y);
        pLocal := pLocal / 2;
      }
      ZeroPower(y, m);
      ModSmall(x, m);
      result := x;
    }
  }

  lemma ZeroPower(b: nat, m: nat)
    requires 0 < m
    ensures Pow(b, 0) == 1 && 1 % m == if m != 1 then 1 else 0
  {
    if m != 1 { ModSmall(1, m); }
  }

  lemma OnePower(b: nat)
    ensures Pow(b, 1) == b && Pow(b, 2) == b * b
  {
    PowSucc(b, 1);
    PowSucc(b, 0);
  }

  // ---------------------------------------------------------- machine words

  /** x is an odd number times 2^k. */
  predicate OddPart(x: nat, odd: nat, k: nat) {
    odd % 2 == 1 && x == odd * Pow(2, k)
  }

  /** The position of the least significant bit of a positive number. */
  method Lsb(x: nat) returns (k: nat)
    requires 0 < x
    ensures Pow(2, k) > 0 && 0 <= x / Pow(2, k) && OddPart(x, x / Pow(2, k), k)
  {
    var y := x;
    k := 0;
    assert Pow(2, 0) == 1;
    while y % 2 == 0
      invariant 0 < y && x == y * Pow(2, k)
      decreases y
    {
      assert y * Pow(2, k) == (y / 2) * Pow(2, k + 1) by {
        MulAssoc(y / 2, 2, Pow(2, k));
      }
      y := y / 2;
      k := k + 1;
    }
    PowPos(2, k);
    DivModUnique(x, Pow(2, k), y, 0);
  }

  lemma OddPartPositive(x: nat, odd: nat, k: nat)
    requires OddPart(x, odd, k)
    ensures 0 < odd <= x && 0 < x
  {
    PowPos(2, k);
    MulLe(1, Pow(2, k), odd);
  }

  /** The greatest common divisor in terms of the odd parts and the smaller power of two. */
  lemma GcdOddParts(u: nat, v: nat, a: nat, b: nat, j: nat, k: nat)
    requires OddPart(u, a, j) && OddPart(v, b, k)
    ensures Gcd(u, v) == Gcd(a, b) * Pow(2, if j <= k then j else k)
  {
    hide Gcd, Pow;
    if j <= k {
      ScaledGcd(a, b, j, k);
    } else {
      ScaledGcd(b, a, k, j);
      GcdSymmetric(u, v);
      GcdSymmetric(a, b);
    }
  }

  lemma ScaledGcd(a: nat, b: nat, j: nat, k: nat)
    requires a % 2 == 1 && j <= k
    ensures Gcd(a * Pow(2, j), b * Pow(2, k)) == Gcd(a, b) * Pow(2, j)
  {
    hide Gcd, Pow;
    PowPos(2, j);
    PowAdd(2, k - j, j);
    GcdOddPart(a, b, k - j);
    ScaledGcdInt(a, b, Pow(2, j), Pow(2, k - j), Pow(2, k));
  }

  lemma ScaledGcdInt(a: nat, b: nat, c: nat, d: nat, e: nat)
    requires 0 < c && e == d * c && Gcd(a, b * d) == Gcd(a, b)
    ensures Gcd(a * c, b * e) == Gcd(a, b) * c
  {
    hide Gcd;
    MulAssoc(b, d, c);
    assert b * e == c * (b * d) && a * c == c * a;
    GcdScale(a, b * d, c);
  }

  /** One reduction: the difference of two odd numbers, without its factors of two. */
  lemma GcdReduce(u: nat, v: nat, w: nat, k: nat)
    requires u % 2 == 1 && 0 < u < v && OddPart(v - u, w, k)
    ensures Gcd(u, w) == Gcd(u, v) && 0 < w < v
  {
    hide Gcd;
    GcdSubtract(u, v);
    GcdOddPart(u, w, k);
    OddPartPositive(v - u, w, k);
  }

  lemma GcdSame(u: nat)
    requires 0 < u
    ensures Gcd(u, u) == u && Gcd(u, 0) == u == Gcd(0, u)
  {
    GcdSymmetric(u, 0);
    DivModUnique(u, u, 1, 0);
  }

  /** The binary algorithm on machine words. */
  method GcdUnsafe(u0: nat, v0: nat) returns (g: nat)
    ensures g == Gcd(u0, v0)
  {
    hide Gcd, Pow;
    if u0 == 0 {
      GcdZero(v0);
      return v0;
    }
    if v0 == 0 {
      GcdZero(u0);
      return u0;
    }
    var trz := Lsb(u0);
    var trzV := Lsb(v0);
    var shiftAmount := if trz <= trzV then trz else trzV;
    PowPos(2, shiftAmount);
    var u, v := u0 / Pow(2, trz), v0 / Pow(2, shiftAmount);
    ghost var a, b := u, v0 / Pow(2, trzV);
    GcdOddParts(u0, v0, a, b, trz, trzV);
    OddPartPositive(u0, a, trz);
    PartlyShifted(v0, b, trzV, shiftAmount);
    GcdOddPart(u, b, trzV - shiftAmount);
    while v != 0
      invariant 0 < u && 0 <= v && u % 2 == 1 && Gcd(u, v) == Gcd(a, b)
      decreases u + v
    {
      var k := Lsb(v);
      var w := v / Pow(2, k);
      GcdOddPart(u, w, k);
      OddPartPositive(v, w, k);
      GcdSymmetric(u, w);
      v := w;
      if u > v {
        u, v := v, u;
      }
      GcdSubtract(u, v);
      v := v - u;
    }
    GcdSame(u);
    g := u * Pow(2, shiftAmount);
  }

  lemma GcdZero(u: nat)
    ensures Gcd(u, 0) == u == Gcd(0, u)
  {
    GcdSymmetric(u, 0);
  }

  lemma PartlyShifted(v: nat, b: nat, k: nat, s: nat)
    requires OddPart(v, b, k) && s <= k && Pow(2, s) > 0
    ensures v / Pow(2, s) == b * Pow(2, k - s) && 0 < v / Pow(2, s)
  {
    PowAdd(2, k - s, s);
    PowPos(2, k - s);
    MulAssoc(b, Pow(2, k - s), Pow(2, s));
    MulPos(b, Pow(2, k - s));
    DivModUnique(v, Pow(2, s), b * Pow(2, k - s), 0);
  }

  // ------------------------------------------------------------ wide integers

  /** A type of W bits in N limbs. */
  predicate TypeOk(W: nat, digits: nat, N: nat, B: Base) {
    8 <= digits && 0 < N && W == digits * N && B == Pow(2, digits)
  }

  // ------------------------------------------------------------- odd parts

  function LowZeros(x: nat): (k: nat) {
    if x == 0 || x % 2 == 1 then 0 else 1 + LowZeros(x / 2)
  }

  function Odd(x: nat): (odd: nat)
    requires 0 < x
    ensures odd % 2 == 1 && 0 < odd <= x && (x % 2 == 0 ==> odd <= x / 2)
  {
    if x % 2 == 1 then x else Odd(x / 2)
  }

  lemma {:induction false} OddIs(x: nat, odd: nat, k: nat)
    requires 0 < x && OddPart(x, odd, k)
    ensures Odd(x) == odd && LowZeros(x) == k
  {
    if k > 0 {
      PowSucc(2, k - 1);
      MulAssoc(odd, 2, Pow(2, k - 1));
      MulAssoc(2, odd, Pow(2, k - 1));
      OddIs(x / 2, odd, k - 1);
    }
  }

  lemma {:induction false} OddTimes(x: nat)
    requires 0 < x
    ensures OddPart(x, Odd(x), LowZeros(x))
  {
    if x % 2 == 0 {
      OddTimes(x / 2);
      PowSucc(2, LowZeros(x / 2));
      MulAssoc(2, Odd(x / 2), Pow(2, LowZeros(x / 2)));
      MulAssoc(Odd(x / 2), 2, Pow(2, LowZeros(x / 2)));
    }
  }

  // ------------------------------------------------------ the hand-over

  /** The greatest double limb, converted to the wide type for the comparison: it may be cut, and in a signed
      type of at most two limbs it is -1, so that nothing is ever handed over. */
  function HandOverBound(W: nat, B: Base, signed: bool): (z: int)
    ensures z < B * B
  {
    PowPos(2, W);
    MulPos(B, B);
    DivModSplit(B * B - 1, Pow(2, W));
    MulLe(0, (B * B - 1) / Pow(2, W), Pow(2, W));
    Number(Pow(2, W), Wrap(Pow(2, W), B * B - 1), signed)
  }

  lemma HandOverBoundIs(W: nat, digits: nat, N: nat, signed: bool, B: Base)
    requires 0 < digits && 0 < N && W == digits * N && B == Pow(2, digits)
    ensures HandOverBound(W, B, signed) == if 2 < N then B * B - 1 else if signed then -1 else Pow(2, W) - 1
  {
    hide Pow;
    PowMul(2, digits, N);
    PowSmall(B);
    if N == 1 {
      MulDist(B, B, -1);
      DivModUnique(B * B - 1, B, B - 1, B - 1);
    } else if N == 2 {
      ModSmall(B * B - 1, B * B);
    } else {
      PowMono(B, 3, N);
      MulLe(2, B, B * B);
      ModSmall(B * B - 1, Pow(2, W));
    }
  }

  lemma PowSmall(B: Base)
    ensures Pow(B, 1) == B && Pow(B, 2) == B * B && Pow(B, 3) == B * (B * B)
  {}

  /** The most negative number, up to its sign. */
  function Top(W: nat): nat { Pow(2, W) / 2 }

  lemma TopFacts(W: nat)
    requires 8 <= W
    ensures Pow(2, W) == 2 * Top(W) && Top(W) % 2 == 0 && 128 <= Top(W)
  {
    hide *;
    TopIs(W, W - 1);
    PowSucc(2, W - 1);
    PowSucc(2, W - 2);
    PowMono(2, 7, W - 1);
    PowersOfTwo();
  }

  lemma TopIs(W: nat, k: nat)
    requires W == k + 1
    ensures Top(W) == Pow(2, k) && 0 < Top(W)
  {
    PowPos(2, k);
  }

  lemma PowersOfTwo()
    ensures Pow(2, 0) == 1 && Pow(2, 7) == 128 && Pow(2, 8) == 256
  {}

  lemma TypeFacts(W: nat, digits: nat, N: nat, B: Base)
    requires TypeOk(W, digits, N, B)
    ensures 8 <= W && Pow(2, W) == 2 * Top(W) && Top(W) % 2 == 0 && 128 <= Top(W)
    ensures 3 < B * B && (2 < N ==> B * B < Top(W) - 1)
  {
    hide Pow, Top;
    WidthIs(W, digits, N);
    TopFacts(W);
    PowMono(2, 8, digits);
    PowersOfTwo();
    MulLe(2, B, B);
    if 2 < N { DoubleLimbFits(W, digits, B); }
  }

  lemma WidthIs(W: nat, digits: nat, N: nat)
    requires 8 <= digits && 0 < N && W == digits * N
    ensures 8 <= W && (2 < N ==> 3 * digits <= W)
  {
    MulLe(1, N, digits);
    if 2 < N { MulLe(3, N, digits); }
  }

  lemma DoubleLimbFits(W: nat, digits: nat, B: Base)
    requires 8 <= digits && 3 * digits <= W && B == Pow(2, digits)
    ensures B * B < Top(W) - 1
  {
    hide Pow;
    TopIs(W, W - 1);
    PowAdd(2, digits, digits);
    PowSucc(2, digits + digits);
    PowMono(2, digits + digits + 1, W - 1);
    MulLe(2, B, B);
  }

  // --------------------------------------------------------- one pass of the loop

  function Smaller(u: int, v: int): int { if u > v then v else u }

  function Larger(u: int, v: int): int { if u > v then u else v }

  /** The factors of two of a stored number, shifted out arithmetically. */
  function ShiftOut(W: nat, d: int): int {
    PowPos(2, W);
    var k := LowZeros(Wrap(Pow(2, W), d));
    PowPos(2, k);
    d / Pow(2, k)
  }

  /** A pass that hands nothing over: the smaller number, and what is left of the difference. */
  function Pass(W: nat, signed: bool, u: int, v: int): (int, int) {
    (Smaller(u, v), ShiftOut(W, Store(W, signed, Larger(u, v) - Smaller(u, v))))
  }

  /** The loop ends: the numbers are equal, or the larger one is handed over. */
  predicate Exits(W: nat, B: Base, signed: bool, u: int, v: int) {
    u == v || Larger(u, v) <= HandOverBound(W, B, signed)
  }

  /** The pair after n passes. */
  function After(W: nat, signed: bool, u: int, v: int, n: nat): (int, int) {
    if n == 0 then (u, v) else var (p, q) := After(W, signed, u, v, n - 1); Pass(W, signed, p, q)
  }

  /** A positive number that fits is shifted to its odd part. */
  lemma ShiftPositive(W: nat, signed: bool, d: nat)
    requires 0 < W && 0 < d && Holds(Pow(2, W), signed, d)
    ensures Pow(2, W) > 0 && Wrap(Pow(2, W), d) == d && Store(W, signed, d) == d && ShiftOut(W, d) == Odd(d)
  {
    hide Pow, Store, Odd, LowZeros;
    PowPos(2, W);
    StoreFits(W, signed, d);
    ModSmall(d, Pow(2, W));
    OddTimes(d);
    PowPos(2, LowZeros(d));
    DivModUnique(d, Pow(2, LowZeros(d)), Odd(d), 0);
  }

  /** The most negative number is its own negation, and shifted by all its zeros it is -1. */
  lemma ShiftTop(W: nat)
    requires 1 < W
    ensures Pow(2, W) > 0 && Store(W, true, Top(W)) == 0 - Top(W) && Wrap(Pow(2, W), 0 - Top(W)) == Top(W)
    ensures ShiftOut(W, 0 - Top(W)) == -1
  {
    hide Pow, LowZeros, Store;
    TopStored(W);
    TopIs(W, W - 1);
    OneTimes(W - 1);
    OddIs(Top(W), 1, W - 1);
    DivModUnique(0 - Top(W), Pow(2, W - 1), -1, 0);
  }

  lemma TopStored(W: nat)
    requires 1 < W
    ensures Pow(2, W) > 0 && Store(W, true, Top(W)) == 0 - Top(W) && Wrap(Pow(2, W), 0 - Top(W)) == Top(W)
  {
    hide Pow;
    PowPos(2, W - 1);
    PowSucc(2, W - 1);
    ModSmall(Top(W), Pow(2, W));
    DivModUnique(0 - Top(W), Pow(2, W), -1, Top(W));
  }

  lemma OneTimes(k: nat)
    ensures OddPart(Pow(2, k), 1, k)
  {}

  /** Two positive odd numbers: the difference goes to its odd part. */
  lemma PassPositive(W: nat, signed: bool, u: nat, v: nat)
    requires 0 < W && 0 < u && 0 < v && u != v
    requires Holds(Pow(2, W), signed, u) && Holds(Pow(2, W), signed, v)
    ensures Pass(W, signed, u, v) == (Smaller(u, v), Odd(Larger(u, v) - Smaller(u, v)))
  {
    hide Pow, Store, Odd, ShiftOut;
    ShiftPositive(W, signed, Larger(u, v) - Smaller(u, v));
  }

  /** The pair of -1 and w: w goes to the odd part of w + 1, and the greatest number to -1. */
  lemma PassMixed(W: nat, u: int, v: int)
    requires 8 <= W && Smaller(u, v) == -1 && 0 < Larger(u, v) < Top(W) && Larger(u, v) % 2 == 1
    ensures var w := Larger(u, v);
      Pass(W, true, u, v) == (-1, if w == Top(W) - 1 then -1 else Odd(w + 1)) &&
      (w < Top(W) - 1 ==> Odd(w + 1) < Top(W) - 1 && (1 < w ==> Odd(w + 1) < w))
  {
    hide Pow, Store, Wrap, Odd, ShiftOut, Top;
    TopFacts(W);
    var w := Larger(u, v);
    if w == Top(W) - 1 { ShiftTop(W); } else { ShiftPositive(W, true, w + 1); }
  }

  // ------------------------------------------------------------ when it never ends

  /** -1 beside an odd number below the greatest. */
  predicate Circling(W: nat, u: int, v: int) {
    Smaller(u, v) == -1 && 0 < Larger(u, v) < Top(W) - 1 && Larger(u, v) % 2 == 1
  }

  lemma {:induction false} RoundAndRound(W: nat, u: int, v: int, n: nat)
    requires 8 <= W && Circling(W, u, v)
    ensures var (p, q) := After(W, true, u, v, n); Circling(W, p, q)
  {
    hide Pass, Odd, Top;
    if n > 0 {
      RoundAndRound(W, u, v, n - 1);
      var (p, q) := After(W, true, u, v, n - 1);
      PassMixed(W, p, q);
    }
  }

  /** In a signed type of at most two limbs the loop never leaves such a pair. */
  lemma NeverEnds(W: nat, digits: nat, N: nat, B: Base, u: int, v: int, n: nat)
    requires TypeOk(W, digits, N, B) && N <= 2 && Circling(W, u, v)
    ensures var (p, q) := After(W, true, u, v, n); !Exits(W, B, true, p, q)
  {
    hide Pow, HandOverBound, After, Top;
    HandOverBoundIs(W, digits, N, true, B);
    WidthIs(W, digits, N);
    RoundAndRound(W, u, v, n);
  }

  lemma {:induction false} AfterFirst(W: nat, signed: bool, u: int, v: int, n: nat)
    ensures var (p, q) := Pass(W, signed, u, v); After(W, signed, u, v, n + 1) == After(W, signed, p, q, n)
  {
    hide Pass;
    if n > 0 { AfterFirst(W, signed, u, v, n - 1); }
    assert After(W, signed, u, v, 0) == (u, v);
  }

  // ------------------------------------------------------------ what it leaves

  /** The number that stands beside -1 when the pair is handed over. */
  function HandedOver(w: nat, bound: nat): (x: nat)
    requires w % 2 == 1 && 0 < bound
    ensures x <= w && x <= bound && x % 2 == 1
    decreases w
  {
    if w <= bound then w else HandedOver(Odd(w + 1), bound)
  }

  /** What the loop leaves of -1 and w: -1 for the greatest number, and otherwise the gcd at the hand-over. */
  function LeftOfMinusOne(W: nat, B: Base, w: nat): int
    requires w % 2 == 1
  {
    if w == Top(W) - 1 then -1 else HandOverGcd(B, w)
  }

  /** The gcd of the number that is handed over and of the two limbs of -1. */
  function HandOverGcd(B: Base, w: nat): nat
    requires w % 2 == 1
  {
    MulLe(2, B, B);
    Gcd(HandedOver(w, B * B - 1), B * B - 1)
  }

  /** The loop on u and v will leave t. */
  ghost predicate Leaves(W: nat, N: nat, B: Base, signed: bool, u: int, v: int, t: int) {
    LeavesGcd(W, signed, u, v, t) || (signed && (LeavesMixed(W, N, B, u, v, t) || u == v == t == -1))
  }

  ghost predicate LeavesGcd(W: nat, signed: bool, u: int, v: int, t: int) {
    0 < u && 0 < v && u % 2 == 1 && v % 2 == 1 && t == Gcd(u, v) && Holds(Pow(2, W), signed, u) && Holds(Pow(2, W), signed, v)
  }

  ghost predicate LeavesMixed(W: nat, N: nat, B: Base, u: int, v: int, t: int) {
    Smaller(u, v) == -1 && var w := Larger(u, v);
    0 < w < Top(W) && w % 2 == 1 && (2 < N || w == Top(W) - 1) && t == LeftOfMinusOne(W, B, w)
  }

  lemma LeavesSame(W: nat, N: nat, B: Base, signed: bool, u: int, t: int)
    requires Leaves(W, N, B, signed, u, u, t)
    ensures u == t
  {
    hide Gcd, Pow;
    if 0 < u { GcdSame(u); }
  }

  lemma LeavesSwapped(W: nat, N: nat, B: Base, signed: bool, u: int, v: int, t: int)
    requires Leaves(W, N, B, signed, u, v, t)
    ensures Leaves(W, N, B, signed, v, u, t)
  {
    hide Gcd, Pow, Top, LeftOfMinusOne;
    if 0 < u && 0 < v { GcdSymmetric(u, v); }
  }

  lemma LeavesHandedOver(W: nat, digits: nat, N: nat, B: Base, signed: bool, u: int, v: int, t: int)
    requires TypeOk(W, digits, N, B) && Leaves(W, N, B, signed, u, v, t) && u < v <= HandOverBound(W, B, signed)
    ensures 0 < B * B && t == Gcd(Wrap(B * B, v), Wrap(B * B, u))
  {
    hide Gcd, Pow, Top, HandOverBound;
    HandOverBoundIs(W, digits, N, signed, B);
    TypeFacts(W, digits, N, B);
    ModSmall(v, B * B);
    if 0 < u {
      GcdSymmetric(u, v);
      ModSmall(u, B * B);
    } else {
      DivModUnique(-1, B * B, -1, B * B - 1);
    }
  }

  function Above(x: int): nat { if x < 0 then 0 else x }

  lemma LeavesPass(W: nat, digits: nat, N: nat, B: Base, signed: bool, u: int, v: int, t: int)
    requires TypeOk(W, digits, N, B) && Leaves(W, N, B, signed, u, v, t) && !Exits(W, B, signed, u, v)
    ensures var (p, q) := Pass(W, signed, u, v);
      Leaves(W, N, B, signed, p, q, t) && Above(p) + Above(q) < Above(u) + Above(v)
  {
    hide Gcd, Pow, Top, HandOverBound, Pass, Odd, LeftOfMinusOne;
    TypeFacts(W, digits, N, B);
    HandOverBoundIs(W, digits, N, signed, B);
    if 0 < u && 0 < v {
      PassPositive(W, signed, u, v);
      var d := Larger(u, v) - Smaller(u, v);
      OddTimes(d);
      GcdReduce(Smaller(u, v), Larger(u, v), Odd(d), LowZeros(d));
      GcdSymmetric(u, v);
    } else {
      PassMixed(W, u, v);
      NextLeft(W, B, Larger(u, v));
    }
  }

  lemma NextLeft(W: nat, B: Base, w: nat)
    requires 8 <= W && w % 2 == 1 && w < Top(W) && (w == Top(W) - 1 || B * B - 1 < w)
    ensures LeftOfMinusOne(W, B, w) == if w == Top(W) - 1 then -1 else LeftOfMinusOne(W, B, Odd(w + 1))
  {
    hide Gcd, Pow, Top, Odd;
    MulLe(2, B, B);
    TopFacts(W);
  }

  /** From a pair for which something is left, the loop ends. */
  lemma {:induction false} Ends(W: nat, digits: nat, N: nat, B: Base, signed: bool, u: int, v: int, t: int) returns (n: nat)
    requires TypeOk(W, digits, N, B) && Leaves(W, N, B, signed, u, v, t)
    ensures var (p, q) := After(W, signed, u, v, n); Exits(W, B, signed, p, q)
    decreases Above(u) + Above(v)
  {
    hide Pass, Exits, Leaves;
    if Exits(W, B, signed, u, v) {
      n := 0;
    } else {
      LeavesPass(W, digits, N, B, signed, u, v, t);
      var (p, q) := Pass(W, signed, u, v);
      var m := Ends(W, digits, N, B, signed, p, q, t);
      AfterFirst(W, signed, u, v, m);
      n := m + 1;
    }
  }

  /** The pass in the shape of the loop: the numbers are in order, and the zeros are counted on the limbs. */
  lemma LoopPass(W: nat, digits: nat, N: nat, B: Base, signed: bool, u: int, v: int, t: int)
    requires TypeOk(W, digits, N, B) && Leaves(W, N, B, signed, u, v, t)
    requires u < v && HandOverBound(W, B, signed) < v
    ensures Pow(2, W) > 0 && 0 < Wrap(Pow(2, W), Store(W, signed, v - u))
    ensures var w := ShiftOut(W, Store(W, signed, v - u));
      Pass(W, signed, u, v) == (u, w) && Leaves(W, N, B, signed, u, w, t) && Above(w) < Above(v)
  {
    hide Gcd, Pow, Top, HandOverBound, ShiftOut, LeftOfMinusOne, Store, Wrap;
    PowPos(2, W);
    LeavesPass(W, digits, N, B, signed, u, v, t);
    DifferenceStored(W, digits, N, B, signed, u, v, t);
  }

  lemma DifferenceStored(W: nat, digits: nat, N: nat, B: Base, signed: bool, u: int, v: int, t: int)
    requires TypeOk(W, digits, N, B) && Leaves(W, N, B, signed, u, v, t) && u < v
    ensures Pow(2, W) > 0 && 0 < Wrap(Pow(2, W), Store(W, signed, v - u))
  {
    hide Gcd, Pow, Top, ShiftOut, Store, Wrap, LeftOfMinusOne;
    PowPos(2, W);
    TypeFacts(W, digits, N, B);
    if u == -1 && v == Top(W) - 1 { ShiftTop(W); } else { ShiftPositive(W, signed, v - u); }
  }

  lemma ShiftOutIs(W: nat, d: int, k: nat)
    requires Pow(2, W) > 0 && 0 < Wrap(Pow(2, W), d) && Pow(2, k) > 0
    requires OddPart(Wrap(Pow(2, W), d), Wrap(Pow(2, W), d) / Pow(2, k), k)
    ensures ShiftOut(W, d) == d / Pow(2, k)
  {
    hide Pow, Wrap, OddPart;
    OddIs(Wrap(Pow(2, W), d), Wrap(Pow(2, W), d) / Pow(2, k), k);
  }

  lemma PassSwapped(W: nat, signed: bool, u: int, v: int)
    ensures Pass(W, signed, u, v) == Pass(W, signed, v, u)
  {}

  /** The loop on two odd numbers, either of which may be -1, makes the passes of After until one exits. */
  method ReduceOdd(W: nat, digits: nat, N: nat, B: Base, signed: bool, u0: int, v0: int, ghost t: int)
    returns (u: int, ghost n: nat)
    requires TypeOk(W, digits, N, B) && Leaves(W, N, B, signed, u0, v0, t)
    ensures u == t
    ensures var (p, q) := After(W, signed, u0, v0, n); Exits(W, B, signed, p, q)
  {
    hide Gcd, Pow, Top, HandOverBound, ShiftOut, Store, Wrap, Leaves, Pass, OddPart;
    u, n := u0, 0;
    var v := v0;
    while u != v
      invariant Leaves(W, N, B, signed, u, v, t)
      invariant After(W, signed, u0, v0, n) == (u, v)
      decreases Above(u) + Above(v)
    {
      ghost var u1, v1 := u, v;
      if u > v {
        LeavesSwapped(W, N, B, signed, u, v, t);
        u, v := v, u;
      }
      if v <= HandOverBound(W, B, signed) {
        LeavesHandedOver(W, digits, N, B, signed, u, v, t);
        u := GcdUnsafe(Wrap(B * B, v), Wrap(B * B, u));
        return;
      }
      LoopPass(W, digits, N, B, signed, u, v, t);
      var d := Store(W, signed, v - u);
      var k := Lsb(Wrap(Pow(2, W), d));
      ShiftOutIs(W, d, k);
      v := d / Pow(2, k);
      PassSwapped(W, signed, u1, v1);
      n := n + 1;
    }
    LeavesSame(W, N, B, signed, u, t);
  }

  // ------------------------------------------------------------ the operands

  /** The most negative number beside a number that is neither 0 nor itself. */
  predicate Lopsided(W: nat, a: int, b: int) {
    (a == 0 - Top(W) && b != 0 && b != a) || (b == 0 - Top(W) && a != 0 && a != b)
  }

  /** The size of the operand beside the most negative number. */
  function Other(W: nat, a: int, b: int): nat {
    Abs(if a == 0 - Top(W) then b else a)
  }

  /** A number as the algorithm takes it: negated if negative, which leaves the most negative number as it is. */
  function Magnitude(W: nat, signed: bool, a: int): int { if a < 0 then Store(W, signed, 0 - a) else a }

  predicate IsMagnitude(W: nat, signed: bool, u: int) {
    Holds(Pow(2, W), signed, u) && (u < 0 ==> u == 0 - Top(W))
  }

  /** The odd part of an operand and its zeros. */
  function OddOperand(u: int): int { if u < 0 then -1 else if u == 0 then 0 else Odd(u) }

  function Zeros(W: nat, u: int): nat { LowZeros(if u < 0 then Top(W) else u) }

  /** What the algorithm gives for the most negative number and a number of size c. */
  function MixedGcd(W: nat, B: Base, c: nat): int
    requires 0 < c
  {
    LeftOfMinusOne(W, B, Odd(c)) * Pow(2, LowZeros(c))
  }

  /** The operands on which the algorithm gives the gcd: all those without the most negative number, and beside it
      0, itself, and every number but the greatest whose odd part reaches the hand-over coprime to B * B - 1. */
  predicate GcdRight(W: nat, B: Base, a: int, b: int) {
    !Lopsided(W, a, b) || (0 < Other(W, a, b) != Top(W) - 1 && HandOverGcd(B, Odd(Other(W, a, b))) == 1)
  }

  /** The operands on which it ends. */
  predicate GcdEnds(W: nat, N: nat, a: int, b: int) {
    Lopsided(W, a, b) ==> 2 < N || Other(W, a, b) == Top(W) - 1
  }

  /** What the loop leaves of the odd parts of the operands. */
  function LeftOf(W: nat, B: Base, u: int, v: int): int
    requires u != 0 && v != 0
  {
    if u < 0 && 0 < v then LeftOfMinusOne(W, B, Odd(v)) else if v < 0 && 0 < u then LeftOfMinusOne(W, B, Odd(u))
    else Gcd(Abs(OddOperand(u)), Abs(OddOperand(v)))
  }

  // ------------------------------------------------------------ the algorithm

  function Signed(a: int, b: int, g: int): int { if (a < 0) != (b < 0) then 0 - g else g }

  /** The gcd, negative exactly when the signs of the arguments differ. */
  function GcdWithSign(W: nat, signed: bool, a: int, b: int): int { Store(W, signed, Signed(a, b, Gcd(Abs(a), Abs(b)))) }

  /** The gcd with its sign, exactly for the operands of GcdRight. */
  method GcdSigned(W: nat, digits: nat, N: nat, B: Base, signed: bool, a: int, b: int) returns (result: int)
    requires TypeOk(W, digits, N, B) && Holds(Pow(2, W), signed, a) && Holds(Pow(2, W), signed, b)
    requires GcdEnds(W, N, a, b)
    ensures result == GcdWithSign(W, signed, a, b) <==> GcdRight(W, B, a, b)
    ensures Lopsided(W, a, b) ==> 0 < Other(W, a, b) && result == Signed(a, b, MixedGcd(W, B, Other(W, a, b)))
  {
    hide Pow, Top, Store, Gcd, Lopsided, Other, GcdEnds, GcdRight, MixedGcd, Magnitude, IsMagnitude, GcdWithSign;
    WidthIs(W, digits, N);
    MagnitudesIs(W, N, signed, a, b);
    var u, v := Magnitude(W, signed, a), Magnitude(W, signed, b);
    result := GcdMagnitude(W, digits, N, B, signed, u, v);
    ghost var g := result;
    if (a < 0) != (b < 0) { result := Store(W, signed, 0 - result); }
    SignsRight(W, B, signed, a, b, g, result);
  }

  /** The binary algorithm on the operands as stored, without the sign of the result. */
  method GcdMagnitude(W: nat, digits: nat, N: nat, B: Base, signed: bool, a: int, b: int) returns (result: int)
    requires TypeOk(W, digits, N, B) && 8 <= W && IsMagnitude(W, signed, a) && IsMagnitude(W, signed, b)
    requires GcdEnds(W, N, a, b)
    ensures result == if Lopsided(W, a, b) then MixedGcd(W, B, Other(W, a, b)) else Store(W, signed, Gcd(Abs(a), Abs(b)))
  {
    hide *;
    if a == b {
      GcdSameMagnitude(W, signed, a);
      return a;
    }
    if b == 0 {
      GcdZeroMagnitude(W, signed, a);
      return a;
    }
    if a == 0 {
      GcdZeroMagnitude(W, signed, b);
      return b;
    }
    WrappedPositive(W, signed, a);
    WrappedPositive(W, signed, b);
    var uShift := Lsb(Wrap(Pow(2, W), a));
    var vShift := Lsb(Wrap(Pow(2, W), b));
    ShiftOperand(W, signed, a, uShift);
    ShiftOperand(W, signed, b, vShift);
    var leftShiftAmount := if uShift <= vShift then uShift else vShift;
    var u, v := a / Pow(2, uShift), b / Pow(2, vShift);
    StartLeaves(W, digits, N, B, signed, a, b);
    ghost var n;
    u, n := ReduceOdd(W, digits, N, B, signed, u, v, LeftOf(W, B, a, b));
    ShiftedBack(W, B, signed, a, b, leftShiftAmount);
    result := Store(W, signed, u * Pow(2, leftShiftAmount));
  }

  /** The loop ends exactly for the operands of GcdEnds. */
  lemma EndsExactly(W: nat, digits: nat, N: nat, B: Base, signed: bool, u: int, v: int)
    requires TypeOk(W, digits, N, B) && IsMagnitude(W, signed, u) && IsMagnitude(W, signed, v)
    requires u != 0 && v != 0 && u != v
    ensures (exists n: nat :: var (p, q) := After(W, signed, OddOperand(u), OddOperand(v), n); Exits(W, B, signed, p, q))
      <==> GcdEnds(W, N, u, v)
  {
    hide After, Exits, Pow, Top, Leaves, Odd, HandOverGcd;
    WidthIs(W, digits, N);
    var a, b := OddOperand(u), OddOperand(v);
    if GcdEnds(W, N, u, v) {
      StartLeaves(W, digits, N, B, signed, u, v);
      var n := Ends(W, digits, N, B, signed, a, b, LeftOf(W, B, u, v));
    } else {
      TopFacts(W);
      EndsOdd(W, Other(W, u, v));
      forall n: nat ensures var (p, q) := After(W, signed, a, b, n); !Exits(W, B, signed, p, q) {
        NeverEnds(W, digits, N, B, a, b, n);
      }
    }
  }

  /** The most negative number and 3: the result is -3 in a signed type of more than two limbs, and in a narrower
      one there is none. */
  lemma TopAndThree(W: nat, digits: nat, N: nat, B: Base)
    requires TypeOk(W, digits, N, B)
    ensures Holds(Pow(2, W), true, 0 - Top(W)) && Holds(Pow(2, W), true, 3) && Gcd(Top(W), 3) == 1
    ensures !GcdRight(W, B, 0 - Top(W), 3) && MixedGcd(W, B, 3) == 3
    ensures GcdEnds(W, N, 0 - Top(W), 3) <==> 2 < N
  {
    hide Pow, Top, Gcd;
    TypeFacts(W, digits, N, B);
    GcdOfTop(W, 3);
    assert Odd(3) == 3 && LowZeros(3) == 0;
    PowersOfTwo();
    ThreeDivides(digits);
  }

  // ------------------------------------------------------ lemmas about it

  lemma MagnitudeIs(W: nat, signed: bool, a: int)
    requires 8 <= W && Holds(Pow(2, W), signed, a)
    ensures Magnitude(W, signed, a) == if a == 0 - Top(W) then a else Abs(a)
    ensures IsMagnitude(W, signed, Magnitude(W, signed, a))
  {
    hide Pow, Store, Top;
    TopFacts(W);
    if a == 0 - Top(W) { ShiftTop(W); } else if a < 0 { StoreFits(W, signed, 0 - a); }
  }

  lemma ShiftOperand(W: nat, signed: bool, u: int, k: nat)
    requires 8 <= W && IsMagnitude(W, signed, u) && u != 0
    requires Pow(2, W) > 0 && Pow(2, k) > 0 && 0 < Wrap(Pow(2, W), u)
    requires OddPart(Wrap(Pow(2, W), u), Wrap(Pow(2, W), u) / Pow(2, k), k)
    ensures u / Pow(2, k) == OddOperand(u) && k == Zeros(W, u)
  {
    hide Pow, Store, Top, Wrap, Odd, LowZeros, OddPart, ShiftOut;
    ShiftOutIs(W, u, k);
    OddIs(Wrap(Pow(2, W), u), Wrap(Pow(2, W), u) / Pow(2, k), k);
    if u < 0 {
      ShiftTop(W);
      TopZeros(W);
    } else {
      ShiftPositive(W, signed, u);
    }
  }

  lemma TopZeros(W: nat)
    requires 0 < W
    ensures LowZeros(Top(W)) == W - 1
  {
    hide Pow, LowZeros;
    OneTimes(W - 1);
    TopIs(W, W - 1);
    OddIs(Top(W), 1, W - 1);
  }

  lemma WrappedPositive(W: nat, signed: bool, u: int)
    requires 8 <= W && IsMagnitude(W, signed, u) && u != 0
    ensures Pow(2, W) > 0 && 0 < Wrap(Pow(2, W), u)
  {
    hide Pow, Store, Top, Wrap, ShiftOut;
    if u < 0 { ShiftTop(W); } else { ShiftPositive(W, signed, u); }
  }

  lemma StartLeaves(W: nat, digits: nat, N: nat, B: Base, signed: bool, u: int, v: int)
    requires TypeOk(W, digits, N, B) && 8 <= W && IsMagnitude(W, signed, u) && IsMagnitude(W, signed, v)
    requires u != 0 && v != 0 && u != v && GcdEnds(W, N, u, v)
    ensures Leaves(W, N, B, signed, OddOperand(u), OddOperand(v), LeftOf(W, B, u, v))
  {
    hide Pow, Top, Odd, Gcd, LeftOfMinusOne;
    TopFacts(W);
    if u < 0 { EndsOdd(W, v); } else if v < 0 { EndsOdd(W, u); }
  }

  lemma EndsOdd(W: nat, c: nat)
    requires 8 <= W && 0 < c < Top(W)
    ensures c == Top(W) - 1 ==> Odd(c) == c && LowZeros(c) == 0
    ensures c < Top(W) - 1 ==> Odd(c) < Top(W) - 1
  {
    hide Pow, Top;
    TopFacts(W);
  }

  /** Shifting back: the gcd, or what stands for it beside the most negative number, and both fit. */
  lemma ShiftedBack(W: nat, B: Base, signed: bool, u: int, v: int, k: nat)
    requires 8 <= W && IsMagnitude(W, signed, u) && IsMagnitude(W, signed, v) && u != 0 && v != 0 && u != v
    requires k == if Zeros(W, u) <= Zeros(W, v) then Zeros(W, u) else Zeros(W, v)
    ensures Store(W, signed, LeftOf(W, B, u, v) * Pow(2, k)) ==
      if Lopsided(W, u, v) then MixedGcd(W, B, Other(W, u, v)) else Store(W, signed, Gcd(Abs(u), Abs(v)))
  {
    hide Pow, Top, Odd, Gcd, LeftOfMinusOne, LowZeros, Store, MixedGcd;
    TopFacts(W);
    TopZeros(W);
    if u < 0 {
      MixedFits(W, B, signed, v);
      assert k == LowZeros(v) && LeftOf(W, B, u, v) == LeftOfMinusOne(W, B, Odd(v));
    } else if v < 0 {
      MixedFits(W, B, signed, u);
      assert k == LowZeros(u) && LeftOf(W, B, u, v) == LeftOfMinusOne(W, B, Odd(u));
    } else {
      OddTimes(u);
      OddTimes(v);
      GcdOddParts(u, v, Odd(u), Odd(v), LowZeros(u), LowZeros(v));
    }
  }

  /** The zeros of c are fewer than those of the most negative number, and the mixed value is at most c. */
  lemma MixedFits(W: nat, B: Base, signed: bool, c: nat)
    requires 8 <= W && signed && 0 < c < Top(W)
    ensures LowZeros(c) <= W - 1 && LeftOfMinusOne(W, B, Odd(c)) * Pow(2, LowZeros(c)) == MixedGcd(W, B, c)
    ensures -1 <= MixedGcd(W, B, c) <= c && MixedGcd(W, B, c) != 0 && Store(W, signed, MixedGcd(W, B, c)) == MixedGcd(W, B, c)
    ensures MixedGcd(W, B, c) == Pow(2, LowZeros(c)) <==> c != Top(W) - 1 && HandOverGcd(B, Odd(c)) == 1
  {
    hide Pow, Top, Odd, Gcd, LowZeros, Store, HandOverGcd;
    TopFacts(W);
    FewerZeros(W, c);
    EndsOdd(W, c);
    OddTimes(c);
    PowPos(2, LowZeros(c));
    if c < Top(W) - 1 {
      LeftAtMost(B, Odd(c), Pow(2, LowZeros(c)));
    } else {
      PowersOfTwo();
    }
    StoreFits(W, signed, MixedGcd(W, B, c));
  }

  lemma FewerZeros(W: nat, c: nat)
    requires 0 < W && 0 < c < Top(W)
    ensures LowZeros(c) <= W - 1
  {
    hide Pow, Odd, LowZeros;
    OddTimes(c);
    TopIs(W, W - 1);
    OddPartPositive(c, Odd(c), LowZeros(c));
    MulLe(1, Odd(c), Pow(2, LowZeros(c)));
    PowPos(2, LowZeros(c));
    if W <= LowZeros(c) { PowMono(2, W - 1, LowZeros(c)); }
  }

  lemma LeftAtMost(B: Base, w: nat, p: nat)
    requires w % 2 == 1 && 0 < p
    ensures 0 < HandOverGcd(B, w) * p <= w * p && (HandOverGcd(B, w) * p == p <==> HandOverGcd(B, w) == 1)
  {
    hide Gcd, HandedOver;
    MulLe(2, B, B);
    var g := HandOverGcd(B, w);
    GcdDivides(HandedOver(w, B * B - 1), B * B - 1);
    DividesLe(g, HandedOver(w, B * B - 1));
    MulPos(g, p);
    MulLe(g, w, p);
    if 1 < g { MulLe(2, g, p); }
  }

  /** The gcd beside the most negative number is the power of two in the other operand. */
  lemma GcdOfTop(W: nat, c: nat)
    requires 8 <= W && 0 < c < Top(W)
    ensures Gcd(Top(W), c) == Pow(2, LowZeros(c)) == Gcd(c, Top(W)) && Pow(2, LowZeros(c)) <= c
  {
    hide Pow, Odd, Gcd, LowZeros;
    OneTimes(W - 1);
    TopIs(W, W - 1);
    OddTimes(c);
    FewerZeros(W, c);
    GcdOddParts(Top(W), c, 1, Odd(c), W - 1, LowZeros(c));
    GcdOfOne(Odd(c));
    GcdSymmetric(Top(W), c);
    MulLe(1, Odd(c), Pow(2, LowZeros(c)));
  }

  lemma GcdOfOne(x: nat)
    ensures Gcd(1, x) == 1
  {
    GcdDivides(1, x);
    DividesLe(Gcd(1, x), 1);
  }

  lemma ThreeDivides(digits: nat)
    requires 8 <= digits
    ensures 2 <= Pow(2, digits) && HandOverGcd(Pow(2, digits), 3) == 3
  {
    hide Pow, HandOverGcd;
    PowMono(2, 8, digits);
    PowersOfTwo();
    NotByThree(digits);
    HandOverThree(Pow(2, digits), Pow(2, digits) * Pow(2, digits) - 1);
  }

  /** 3 divides B * B - 1. */
  lemma HandOverThree(B: Base, m: int)
    requires B % 3 != 0 && m == B * B - 1
    ensures HandOverGcd(B, 3) == 3
  {
    hide Gcd;
    MulLe(2, B, B);
    SquareByThree(B);
    ByThree(m);
  }

  lemma ByThree(m: nat)
    requires m % 3 == 0
    ensures Gcd(3, m) == 3
  {
    hide Gcd;
    GcdMod(m, 3);
    GcdZero(3);
    GcdSymmetric(3, m);
  }

  lemma {:induction false} NotByThree(k: nat)
    ensures Pow(2, k) % 3 != 0
  {
    hide Pow;
    PowersOfTwo();
    if k > 0 {
      NotByThree(k - 1);
      PowSucc(2, k - 1);
      DoubleByThree(Pow(2, k - 1));
    }
  }

  lemma DoubleByThree(x: nat)
    requires x % 3 != 0
    ensures (2 * x) % 3 != 0
  {}

  lemma SquareByThree(B: nat)
    requires B % 3 != 0
    ensures (B * B - 1) % 3 == 0
  {
    var q, r := B / 3, B % 3;
    DivModSplit(B, 3);
    assert B * B == (3 * q * q + 2 * q * r) * 3 + r * r;
    DivModUnique(B * B - 1, 3, 3 * q * q + 2 * q * r + (if r == 1 then 0 else 1), 0);
  }

  lemma GcdSameMagnitude(W: nat, signed: bool, a: int)
    requires 8 <= W && IsMagnitude(W, signed, a)
    ensures !Lopsided(W, a, a) && Store(W, signed, Gcd(Abs(a), Abs(a))) == a
  {
    hide Gcd, Pow, Top, Store;
    TopFacts(W);
    if a == 0 { GcdZero(0); } else { GcdSame(Abs(a)); }
    if a < 0 { ShiftTop(W); } else { StoreFits(W, signed, a); }
  }

  lemma GcdZeroMagnitude(W: nat, signed: bool, a: int)
    requires 8 <= W && IsMagnitude(W, signed, a)
    ensures !Lopsided(W, a, 0) && !Lopsided(W, 0, a)
    ensures Store(W, signed, Gcd(Abs(a), Abs(0))) == a == Store(W, signed, Gcd(Abs(0), Abs(a)))
  {
    hide Gcd, Pow, Top, Store;
    TopFacts(W);
    GcdZero(Abs(a));
    if a < 0 { ShiftTop(W); } else { StoreFits(W, signed, a); }
  }

  lemma MagnitudesIs(W: nat, N: nat, signed: bool, a: int, b: int)
    requires 8 <= W && Holds(Pow(2, W), signed, a) && Holds(Pow(2, W), signed, b) && GcdEnds(W, N, a, b)
    ensures var u, v := Magnitude(W, signed, a), Magnitude(W, signed, b);
      IsMagnitude(W, signed, u) && IsMagnitude(W, signed, v) && Lopsided(W, u, v) == Lopsided(W, a, b) &&
      Other(W, u, v) == Other(W, a, b) && GcdEnds(W, N, u, v) && Abs(u) == Abs(a) && Abs(v) == Abs(b)
    ensures Lopsided(W, a, b) ==> 0 < Other(W, a, b)
  {
    hide Pow, Top, Store, Magnitude;
    TopFacts(W);
    MagnitudeIs(W, signed, a);
    MagnitudeIs(W, signed, b);
  }

  lemma GcdAtMost(u: nat, v: nat, m: nat)
    requires u <= m && v <= m
    ensures Gcd(u, v) <= m
  {
    if u > 0 || v > 0 {
      GcdDivides(u, v);
      if u > 0 { DividesLe(Gcd(u, v), u); } else { DividesLe(Gcd(u, v), v); }
    }
  }

  lemma SignsRight(W: nat, B: Base, signed: bool, a: int, b: int, g: int, result: int)
    requires 8 <= W && Holds(Pow(2, W), signed, a) && Holds(Pow(2, W), signed, b)
    requires Lopsided(W, a, b) ==> 0 < Other(W, a, b)
    requires g == if Lopsided(W, a, b) then MixedGcd(W, B, Other(W, a, b)) else Store(W, signed, Gcd(Abs(a), Abs(b)))
    requires result == if (a < 0) != (b < 0) then Store(W, signed, 0 - g) else g
    ensures result == GcdWithSign(W, signed, a, b) <==> GcdRight(W, B, a, b)
    ensures Lopsided(W, a, b) ==> result == Signed(a, b, MixedGcd(W, B, Other(W, a, b)))
  {
    hide Pow, Top, Store, Gcd, MixedGcd, GcdRight, GcdWithSign;
    TopFacts(W);
    if Lopsided(W, a, b) {
      SignsMixed(W, B, a, b, Other(W, a, b), MixedGcd(W, B, Other(W, a, b)), result);
    } else {
      SignsPlain(W, B, signed, a, b, result);
    }
  }

  lemma SignsMixed(W: nat, B: Base, a: int, b: int, c: nat, g: int, result: int)
    requires 8 <= W && Lopsided(W, a, b) && 0 < c == Other(W, a, b) && c < Top(W) && g == MixedGcd(W, B, c)
    requires result == if (a < 0) != (b < 0) then Store(W, true, 0 - g) else g
    ensures result == Signed(a, b, g) && (result == GcdWithSign(W, true, a, b) <==> GcdRight(W, B, a, b))
  {
    hide Pow, Top, Store, Gcd, MixedGcd, HandOverGcd, Odd, LowZeros, Lopsided;
    MixedFits(W, B, true, c);
    GcdOfTop(W, c);
    StoreSmall(W, true, g);
    StoreSmall(W, true, Pow(2, LowZeros(c)));
    OtherGcd(W, a, b);
  }

  lemma OtherGcd(W: nat, a: int, b: int)
    requires Lopsided(W, a, b)
    ensures Gcd(Abs(a), Abs(b)) == Gcd(Top(W), Other(W, a, b)) || Gcd(Abs(a), Abs(b)) == Gcd(Other(W, a, b), Top(W))
  {
    hide Gcd, Top;
  }

  lemma SignsPlain(W: nat, B: Base, signed: bool, a: int, b: int, result: int)
    requires 8 <= W && Holds(Pow(2, W), signed, a) && Holds(Pow(2, W), signed, b) && !Lopsided(W, a, b)
    requires var g := Store(W, signed, Gcd(Abs(a), Abs(b)));
      result == if (a < 0) != (b < 0) then Store(W, signed, 0 - g) else g
    ensures result == GcdWithSign(W, signed, a, b) && GcdRight(W, B, a, b)
  {
    hide Pow, Top, Store, Gcd, Lopsided, HandOverGcd;
    TopFacts(W);
    if signed {
      GcdAtMost(Abs(a), Abs(b), Top(W));
      StoreNegated(W, Gcd(Abs(a), Abs(b)));
    }
  }

  lemma StoreSmall(W: nat, signed: bool, z: int)
    requires 8 <= W && signed && 0 - Top(W) < z < Top(W)
    ensures Store(W, signed, z) == z && Store(W, signed, 0 - z) == 0 - z
  {
    hide Pow, Top, Store;
    TopFacts(W);
    StoreFits(W, signed, z);
    StoreFits(W, signed, 0 - z);
  }

  lemma StoreNegated(W: nat, g: nat)
    requires 8 <= W && g <= Top(W)
    ensures Store(W, true, 0 - Store(W, true, g)) == Store(W, true, 0 - g)
  {
    hide Pow, Top, Store;
    TopFacts(W);
    if g < Top(W) {
      StoreSmall(W, true, g);
    } else {
      ShiftTop(W);
      StoreFits(W, true, 0 - g);
    }
  }
}
