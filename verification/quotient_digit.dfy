/** One quotient digit of Knuth's Algorithm D (The Art of Computer Programming, volume 2,
    section 4.3.1), in integers: the divisor V = (v1 b + v2) P + vl and the window
    W = ((u0 b + u1) b + u2) P + wl, with P = b^(n-2), vl < P and wl < P. */
module QuotientDigit {
  import opened Limbs

  /** The leading limb of the window is at most the leading limb of the divisor, so the first guess is a limb. */
  lemma LeadingLimbs(B: int, P: int, v1: int, v2: int, vl: int, u0: int, u1: int, u2: int, wl: int)
    requires 2 <= B && 1 <= P && 0 <= v1 && 0 <= v2 < B && 0 <= vl < P && 0 <= u0 && 0 <= u1 && 0 <= u2 && 0 <= wl
    requires ((u0 * B + u1) * B + u2) * P + wl < B * ((v1 * B + v2) * P + vl)
    ensures u0 <= v1
  {
    if v1 < u0 {
      var D := v1 * B + v2;
      MulDist(P, D, 1);
      assert D * P + vl < (D + 1) * P;
      MulLe(v1 + 1, u0, B);
      MulDist(B, v1, 1);
      assert D + 1 <= u0 * B;
      MulLe(D + 1, u0 * B, P);
      MulLe(D * P + vl, u0 * B * P, B);
      var Z := (u0 * B + u1) * B + u2;
      MulDist(B, u0 * B, u1);
      MulLe(0, u1, B);
      MulLe(u0 * B * B, Z, P);
      MulAssoc(B, u0 * B, P);
      MulAssoc(B, u0, B);
    }
  }

  /** The first guess is never below the true digit. */
  lemma FirstGuess(B: int, P: int, v1: int, D: int, V: int, vl: int, T: int, Z: int, W: int, wl: int, u2: int, q: int)
    requires 2 <= B && 1 <= P && 1 <= v1 && v1 * B <= D && V == D * P + vl && 0 <= vl
    requires Z == T * B + u2 && 0 <= u2 < B && W == Z * P + wl && 0 <= wl < P && 0 <= T
    requires 0 <= q && q * V <= W
    ensures q <= T / v1
  {
    MulLe(v1 * B, D, P);
    MulLe(v1 * B * P, V, q);
    MulDist(P, Z, 1);
    MulLe(Z + 1, (T + 1) * B, P);
    assert q * (v1 * B * P) == (q * v1) * (B * P);
    assert (T + 1) * B * P == (T + 1) * (B * P);
    MulPos(B, P);
    MulCancelLt(q * v1, T + 1, B * P);
    LeDiv(q, T, v1);
  }

  /** The test with three limbs never goes below the true digit ... */
  lemma TestIsSafe(P: int, D: int, V: int, vl: int, Z: int, W: int, wl: int, q: int)
    requires 1 <= P && 1 <= D && V == D * P + vl && 0 <= vl && W == Z * P + wl && 0 <= wl < P
    requires 0 <= q && q * V <= W
    ensures q <= Z / D
  {
    MulLe(D * P, V, q);
    MulAssoc(q, D, P);
    MulDist(P, Z, 1);
    MulCancelLt(q * D, Z + 1, P);
    LeDiv(q, Z, D);
  }

  /** ... and a guess below the base that passes it is at most one too large. */
  lemma TestIsSharp(B: int, P: int, v1: int, D: int, V: int, vl: int, Z: int, W: int, wl: int, q: int, r: int, g: int)
    requires 2 <= B && 1 <= P && 1 <= v1 && v1 * B <= D && V == D * P + vl && 0 <= vl < P && W == Z * P + wl && 0 <= wl
    requires W == q * V + r && 0 <= r < V && 0 <= g < B && g * D <= Z
    ensures g <= q + 1
  {
    if q + 2 <= g {
      MulLe(q + 2, g, V);
      MulDist(V, q, 2);
      MulLe(g * D, Z, P);
      MulDist(g, D * P, vl);
      MulAssoc(g, D, P);
      MulLe(vl, P, g);
      MulLe(g, B, P);
      MulLe(v1 * B, D, P);
      MulLe(1, v1, B * P);
      MulAssoc(v1, B, P);
    }
  }

  /** Multiplicative normalisation: with d = b / (v + 1) for the leading limb v, d * v is at least b / 2. */
  lemma Normalised(h: int, v: int)
    requires 1 <= h && 1 <= v < 2 * h
    ensures 1 <= (2 * h) / (v + 1)
    ensures h <= ((2 * h) / (v + 1)) * v
  {
    var x, d := v + 1, (2 * h) / (v + 1);
    DivModSplit(2 * h, x);
    LeDiv(1, 2 * h, x);
    if h <= v {
      MulLe(1, d, v);
    } else {
      LeDiv(2, 2 * h, x);
      NormalisedSmall(h, x, d);
      MulDist(d, v, 1);
    }
  }

  lemma NormalisedSmall(h: int, x: int, d: int)
    requires 2 <= x <= h && 2 <= d && d * x <= 2 * h < d * x + x
    ensures h <= d * x - d
  {
    MulLe(0, x - 2, d - 2);
    assert (x - 2) * (d - 2) == d * x - 2 * x - 2 * d + 4;
    MulLe(2, x, d);
  }
}
