/** Newton's integer square root: the result, and why 64 iterations are always enough. */
module Roots {
  import opened Limbs
  import opened TwosComplement

  /** The largest number whose square is at most m. */
  function Root(m: nat): (r: nat)
    ensures r * r <= m < (r + 1) * (r + 1)
  {
    if m == 0 then 0
    else
      var r := Root(m - 1);
      RootStep(m, r);
      if (r + 1) * (r + 1) <= m then r + 1 else r
  }

  lemma RootStep(m: nat, r: nat)
    requires 0 < m && r * r <= m - 1 < (r + 1) * (r + 1)
    ensures m < (r + 2) * (r + 2)
  {
    MulDist(r + 2, r + 1, 1);
    MulDist(r + 1, r + 1, 1);
  }

  lemma SquareLt(x: nat, y: nat)
    requires x * x < y * y
    ensures x < y
  {
    if y <= x { MulLe(y, x, y); MulLe(y, x, x); }
  }

  lemma SquareLe(x: nat, y: nat)
    requires x <= y
    ensures x * x <= y * y
  {
    MulLe(x, y, x);
    MulLe(x, y, y);
  }

  /** The position of the most significant bit. */
  method Msb(m: nat) returns (pos: nat)
    requires 0 < m
    ensures Pow(2, pos) <= m < Pow(2, pos + 1)
  {
    var x := m;
    pos := 0;
    while x > 1
      invariant 1 <= x && x * Pow(2, pos) <= m < (x + 1) * Pow(2, pos)
    {
      HalveRange(x, Pow(2, pos), m);
      x := x / 2;
      pos := pos + 1;
    }
  }

  lemma HalveRange(x: nat, p: nat, m: nat)
    requires x * p <= m < (x + 1) * p
    ensures (x / 2) * (2 * p) <= m < (x / 2 + 1) * (2 * p)
  {
    MulLe(2 * (x / 2), x, p);
    MulLe(x + 1, 2 * (x / 2 + 1), p);
    MulAssoc(x / 2, 2, p);
    MulAssoc(2, x / 2, p);
    MulAssoc(x / 2 + 1, 2, p);
    MulAssoc(2, x / 2 + 1, p);
  }

  // --------------------------------------------------------- one iteration

  /** A Newton step never goes below the root ... */
  lemma StepAbove(m: nat, s: nat, R: nat)
    requires 0 < s && R * R <= m
    ensures 0 <= m / s && R <= (s + m / s) / 2
  {
    var q := m / s;
    DivModSplit(m, s);
    MulDist(s, q, 1);
    var t := s + q + 1;
    assert t * t - 4 * (s * (q + 1)) == (s - (q + 1)) * (s - (q + 1));
    Square(s - (q + 1));
    assert 4 * (R * R) == (2 * R) * (2 * R);
    SquareLt(2 * R, t);
  }

  lemma Square(x: int)
    ensures 0 <= x * x
  {
    if 0 <= x { MulLe(0, x, x); } else { MulLe(0, 0 - x, 0 - x); }
  }

  /** ... and goes strictly down from any number above it. */
  lemma StepDown(m: nat, s: nat, R: nat)
    requires m < (R + 1) * (R + 1) && R < s
    ensures (s + m / s) / 2 < s
  {
    SquareLe(R + 1, s);
    DivLt(m, s, s);
  }

  /** How close the next iterate is, in terms of the distance e of this one from R + 1. */
  lemma StepCloser(m: nat, s: nat, r: nat, u: nat)
    requires 0 < s && m < r * r && 0 <= m / s && u == (s + m / s) / 2
    ensures 2 * s * (u - r) <= (s - r) * (s - r)
  {
    DivModSplit(m, s);
    MulLe(2 * u, s + m / s, s);
    MulDist(s, s, m / s);
    assert 2 * u * s == 2 * s * u;
    MulDist(2 * s, u, 0 - r);
    assert (s - r) * (s - r) == s * s - 2 * s * r + r * r;
  }

  // ------------------------------------------------------------ convergence

  /** After j + 2 steps the distance times 2^(2^j - 1) is at most r. */
  predicate Near(u: nat, r: nat, j: nat) {
    u <= r || (u - r) * Gain(j) <= r
  }

  function Gain(j: nat): nat {
    PowPos(2, j);
    Pow(2, Pow(2, j) - 1)
  }

  lemma GainSquares(j: nat)
    ensures Gain(j + 1) == 2 * (Gain(j) * Gain(j)) && 0 < Gain(j)
  {
    PowPos(2, j);
    var p := Pow(2, j);
    PowAdd(2, p - 1, p - 1);
    PowSucc(2, p - 1 + (p - 1));
    assert p - 1 + (p - 1) + 1 == Pow(2, j + 1) - 1;
    PowPos(2, p - 1);
  }

  /** Quadratic convergence. */
  lemma NearStep(s: nat, u: nat, r: nat, j: nat)
    requires 0 < r <= s && Near(s, r, j) && 2 * s * (u - r) <= (s - r) * (s - r)
    ensures Near(u, r, j + 1)
  {
    GainSquares(j);
    if r < u { Quadratic(s, u - r, r, s - r, Gain(j)); }
  }

  lemma Quadratic(s: nat, d: nat, r: nat, e: nat, g: nat)
    requires 0 < r && s == r + e && e * g <= r && 2 * s * d <= e * e
    ensures d * (2 * (g * g)) <= r
  {
    SquareLe(e * g, r);
    MulLe(r, s, 2 * d);
    Scaled(r, d, e, g);
  }

  lemma Scaled(r: nat, d: nat, e: nat, g: nat)
    requires 0 < r && (e * g) * (e * g) <= r * r && r * (2 * d) <= e * e
    ensures d * (2 * (g * g)) <= r
  {
    var x := d * (2 * (g * g));
    Square(g);
    MulLe(r * (2 * d), e * e, g * g);
    assert (e * e) * (g * g) == (e * g) * (e * g);
    assert (r * (2 * d)) * (g * g) == x * r;
    MulCancelLe(x, r, r);
  }

  /** Each of the first two steps halves the relative distance. */
  lemma FirstSteps(s: nat, u: nat, r: nat, c: nat)
    requires 0 < r <= s && 2 * (s - r) <= c * r && 2 * s * (u - r) <= (s - r) * (s - r)
    ensures 4 * (u - r) <= c * r
  {
    var e, d := s - r, u - r;
    if 0 <= d {
      MulLe(2 * e, c * r, e);
      MulLe(0, c, r);
      MulLe(e, s, c * r);
      assert 2 * (e * e) == 2 * e * e;
      assert (4 * d) * s == 2 * (2 * s * d);
      MulCancelLe(4 * d, c * r, s);
    } else {
      MulLe(0, c, r);
    }
  }

  /** The starting value is above the root and within a factor of four of it. */
  lemma StartingValue(m: nat, msb: nat, R: nat) returns (k: nat)
    requires Pow(2, msb) <= m < Pow(2, msb + 1) && IsRoot(R, m)
    ensures k == 1 + (msb + msb % 2) / 2
    ensures R < Pow(2, k) && 2 * (Pow(2, k) - (R + 1)) <= 6 * (R + 1)
    ensures 2 * k <= msb + 3
  {
    k := 1 + (msb + msb % 2) / 2;
    PowAdd(2, k, k);
    PowMono(2, msb + 1, k + k);
    SquareLt(R, Pow(2, k));
    var h := msb / 2;
    PowAdd(2, h, h);
    PowMono(2, h + h, msb);
    SquareLt(Pow(2, h), R + 1);
    PowMono(2, k, h + 2);
    PowSucc(2, h);
    PowSucc(2, h + 1);
  }

  /** Sixty doublings of the precision exceed every width that a machine can store. */
  lemma CapNeverBinds(W: nat, m: nat, R: nat, u: nat)
    requires W <= Pow(2, 59) && m < Pow(2, W) && R * R <= m && Near(u, R + 1, 59)
    ensures u <= R + 1
  {
    hide Near;
    RootBelow(W, m, R, 59);
    hide Pow, Gain;
    NearIsZero(u, R + 1, 59);
  }

  lemma NearIsZero(u: nat, r: nat, j: nat)
    requires Near(u, r, j) && r < Gain(j)
    ensures u <= r
  {
    if r < u { MulLe(1, u - r, Gain(j)); }
  }

  lemma GainIs(j: nat) returns (h: nat)
    requires 2 <= j
    ensures h == Pow(2, j - 1) && 2 * h == Pow(2, j) && 2 <= h && Gain(j) == Pow(2, 2 * h - 1)
  {
    PowSucc(2, j - 1);
    h := Pow(2, j - 1);
    PowExceeds(j - 1);
  }

  lemma RootBelow(W: nat, m: nat, R: nat, j: nat)
    requires 2 <= j && W <= Pow(2, j) && m < Pow(2, W) && R * R <= m
    ensures R + 1 < Gain(j)
  {
    hide Pow, Gain;
    var h := GainIs(j);
    PowMono(2, W, h + h);
    PowAdd(2, h, h);
    SquareLt(R, Pow(2, h));
    PowSucc(2, h);
    PowMono(2, h + 1, 2 * h - 1);
    PowPos(2, h);
  }

  // ------------------------------------------------------------- the method

  predicate IsRoot(R: nat, m: nat) { R * R <= m < (R + 1) * (R + 1) }

  predicate Closer(s: nat, u: nat, r: nat) { 2 * s * (u - r) <= (s - r) * (s - r) }

  /** One Newton step, in numbers of W bits. */
  method SqrtStep(W: nat, signed: bool, m: nat, s: nat, ghost R: nat, ghost k: nat) returns (u: nat)
    requires 0 < m && IsRoot(R, m) && R <= s <= Pow(2, k) && k + 4 <= W
    ensures R <= u && (R < s ==> u < s) && Closer(s, u, R + 1)
  {
    hide Pow, Store;
    StepAbove(m, s, R);
    IterateFits(W, signed, m, s, k, R);
    u := Store(W, signed, s + m / s) / 2;
    if R < s { StepDown(m, s, R); }
    StepCloser(m, s, R + 1, u);
  }

  /** Algorithm SqrtInt of Brent and Zimmermann, with at most 64 iterations, in numbers of W bits. */
  method Sqrt(W: nat, signed: bool, m: int) returns (s: int)
    requires 16 <= W <= Pow(2, 59) && Holds(Pow(2, W), signed, m)
    ensures m <= 0 ==> s == 0
    ensures 0 < m ==> 0 <= s && IsRoot(s, m)
  {
    if m <= 0 {
      s := 0;
    } else {
      hide Pow, Holds, Store, Near, Closer, IsRoot;
      ghost var R := RootOf(m);
      var msb := Msb(m);
      ghost var k := StartingValue(m, msb, R);
      StartFits(W, signed, m, msb, k, R);
      var u: nat := Store(W, signed, Pow(2, 1 + (msb + msb % 2) / 2));
      s := u;
      for i := 0 to 64
        invariant i <= 62 && R <= u <= Pow(2, k)
        invariant i == 0 ==> 2 * (u - (R + 1)) <= 6 * (R + 1)
        invariant i == 1 ==> 2 * (u - (R + 1)) <= 3 * (R + 1)
        invariant i >= 2 && R < u ==> Near(u, R + 1, i - 2)
        invariant i == 62 ==> u == R
      {
        s := u;
        u := SqrtStep(W, signed, m, s, R, k);
        if u >= s {
          break;
        }
        Progress(W, m, R, s, u, i);
      }
    }
  }

  lemma RootOf(m: nat) returns (R: nat)
    ensures IsRoot(R, m)
  {
    R := Root(m);
  }

  lemma NearZero(u: nat, r: nat)
    requires u <= 2 * r
    ensures Near(u, r, 0)
  {
    assert Gain(0) == 1;
  }

  lemma Progress(W: nat, m: nat, R: nat, s: nat, u: nat, i: nat)
    requires W <= Pow(2, 59) && m < Pow(2, W) && IsRoot(R, m) && R <= u < s && i <= 61
    requires i == 0 ==> 2 * (s - (R + 1)) <= 6 * (R + 1)
    requires i == 1 ==> 2 * (s - (R + 1)) <= 3 * (R + 1)
    requires i >= 2 ==> Near(s, R + 1, i - 2)
    requires Closer(s, u, R + 1)
    ensures i == 0 ==> 2 * (u - (R + 1)) <= 3 * (R + 1)
    ensures i >= 1 && R < u ==> Near(u, R + 1, i - 1)
    ensures i == 61 ==> u == R
  {
    hide Near, Pow;
    if i == 0 {
      FirstSteps(s, u, R + 1, 6);
    } else if i == 1 {
      FirstSteps(s, u, R + 1, 3);
      NearZero(u, R + 1);
    } else {
      NearStep(s, u, R + 1, i - 2);
      if i == 61 { CapNeverBinds(W, m, R, s); }
    }
  }

  lemma StartFits(W: nat, signed: bool, m: nat, msb: nat, k: nat, R: nat)
    requires 16 <= W && 0 < m && Holds(Pow(2, W), signed, m) && Pow(2, msb) <= m && 2 * k <= msb + 3
    ensures m < Pow(2, W) && Store(W, signed, Pow(2, k)) == Pow(2, k) && k + 4 <= W
  {
    hide Store, Pow;
    if W <= msb { PowMono(2, W, msb); }
    PowMono(2, k + 2, W);
    PowSucc(2, k + 1);
    PowSucc(2, k);
    PowPos(2, k);
    StoreFits(W, signed, Pow(2, k));
  }

  /** The sum in a step does not overflow. */
  lemma IterateFits(W: nat, signed: bool, m: nat, s: nat, k: nat, R: nat)
    requires k + 4 <= W && 0 < R <= s <= Pow(2, k) && 0 <= m / s && m < (R + 1) * (R + 1)
    ensures Store(W, signed, s + m / s) == s + m / s
  {
    hide Store, Pow;
    SquareLe(R + 1, s + 1);
    assert (s + 1) * (s + 1) == s * s + 2 * s + 1 <= (s + 3) * s;
    DivLt(m, s, s + 3);
    PowMono(2, k + 4, W);
    PowSucc(2, k + 3);
    PowSucc(2, k + 2);
    PowSucc(2, k + 1);
    PowSucc(2, k);
    StoreFits(W, signed, s + m / s);
  }
}
