/** Multi-limb division: by a single limb, and Knuth's Algorithm D with multiplicative normalisation. */
module Division {
  import opened Limbs
  import opened Kernels
  import opened QuotientDigit

  // ------------------------------------------------------ the quotient digit

  /** The first guess for a quotient digit, from the two leading limbs of the window. */
  function Guess(B: Base, u0: nat, u1: nat, v1: nat): nat
    requires 0 < v1
  {
    DivModSplit(u0 * B + u1, v1);
    if u0 == v1 then B - 1 else (u0 * B + u1) / v1
  }

  /** A guess times the two leading limbs of the divisor fits the three leading limbs of the window. */
  predicate Fits(q: nat, B: Base, u0: nat, u1: nat, u2: nat, v1: nat, v2: nat) {
    q * (v1 * B + v2) <= (u0 * B + u1) * B + u2
  }

  lemma GuessFits(B: Base, u0: nat, u1: nat, v1: nat)
    requires 0 < v1 < B && u0 <= v1 && u1 < B
    ensures Guess(B, u0, u1, v1) < B
    ensures 0 <= Guess(B, u0, u1, v1) * v1 <= u0 * B + u1 < B * B
  {
    var T := u0 * B + u1;
    MulLe(u0, B - 1, B);
    MulDist(B, B - 1, 1);
    if u0 == v1 {
      MulDist(v1, B - 1, 1);
      MulLe(0, B - 1, v1);
    } else {
      DivModSplit(T, v1);
      MulLe(u0 + 1, v1, B);
      MulDist(B, u0, 1);
      DivLt(T, v1, B);
      MulLe(0, T / v1, v1);
    }
  }

  /** What the three-limb test in double-limb arithmetic decides: whether the guess times the two leading
      limbs of the divisor fits the three leading limbs of the window.  A remainder t that no longer fits
      a limb makes the shift lose digits, but then the answer is known. */
  lemma TestMeaning(B: Base, T: int, q: nat, v1: nat, v2: nat, u2: nat, t: nat)
    requires q < B && v2 < B && u2 < B && t == T - q * v1 && t < B * B
    ensures var fits := Hi(B, t) != 0 || Dbl(B, v2 * q) <= Dbl(B, Dbl(B, t * B) + u2);
      && (fits <==> q * (v1 * B + v2) <= T * B + u2)
      && (!fits ==> t < B)
  {
    ProductFits(B, v2, q, 0, 0);
    DblSplit(B, v2 * q);
    DblSplit(B, t);
    assert T * B + u2 - q * (v1 * B + v2) == t * B + u2 - v2 * q by {
      MulDist(q, v1 * B, v2);
      MulAssoc(q, v1, B);
      MulDist(B, t, q * v1);
    }
    if Hi(B, t) == 0 {
      assert t < B;
      MulLe(t, B - 1, B);
      MulDist(B, B - 1, 1);
      MulLe(0, t, B);
      DblSplit(B, t * B);
      DblSplit(B, t * B + u2);
    } else {
      MulLe(1, Hi(B, t), B);
      MulLe(B, t, B);
    }
  }

  /** Step D3's correction loop.  The result is the largest number that is at most the first guess and
      whose product with the two leading limbs of the divisor fits the three leading limbs of the window;
      a normalised divisor needs at most two corrections. */
  method CorrectGuess(B: Base, guess: nat, u0: nat, u1: nat, u2: nat, v1: nat, v2: nat) returns (qHat: nat, ghost steps: nat)
    requires 0 < v1 < B && v2 < B && u0 <= v1 && u1 < B && u2 < B && guess == Guess(B, u0, u1, v1)
    ensures qHat < B && qHat + steps == guess
    ensures Fits(qHat, B, u0, u1, u2, v1, v2) && (qHat == guess || !Fits(qHat + 1, B, u0, u1, u2, v1, v2))
    ensures B <= 2 * v1 ==> steps <= 2
  {
    ghost var T := u0 * B + u1;
    GuessFits(B, u0, u1, v1);
    hide Guess, Dbl, Lo, Hi;
    qHat, steps := guess, 0;
    DblSplit(B, qHat * v1);
    DblSplit(B, T - qHat * v1);
    var t := Dbl(B, u0 * B + u1 - Dbl(B, qHat * v1));
    while true
      invariant qHat + steps == guess < B
      invariant t == T - qHat * v1 && t < B * B && steps * v1 <= t
      invariant B <= 2 * v1 ==> steps <= 2
      invariant qHat == guess || T * B + u2 < (qHat + 1) * (v1 * B + v2)
      decreases qHat
    {
      TestMeaning(B, T, qHat, v1, v2, u2, t);
      var overflow := Hi(B, t) != 0;
      var lhs := Dbl(B, v2 * qHat);
      var rhs := Dbl(B, Dbl(B, t * B) + u2);
      if overflow || lhs <= rhs {
        break;
      }
      CorrectionStep(B, T, qHat, v1, v1 * B + v2, u2, t, steps);
      t := Dbl(B, t + v1);
      qHat := qHat - 1;
      steps := steps + 1;
    }
  }

  lemma CorrectionStep(B: Base, T: nat, q: nat, v1: nat, D: nat, u2: nat, t: nat, steps: nat)
    requires 0 < v1 < B && t == T - q * v1 && t < B && steps * v1 <= t && T * B + u2 < q * D
    ensures 1 <= q && Dbl(B, t + v1) == t + v1 == T - (q - 1) * v1 && t + v1 < B * B
    ensures (steps + 1) * v1 <= t + v1
    ensures B <= 2 * v1 ==> steps < 2
  {
    MulLe(0, T, B);
    PositiveFactor(T * B + u2, q, D);
    MulDist(v1, q - 1, 1);
    MulDist(v1, steps, 1);
    MulLe(2, B, B);
    DblSmall(B, t + v1);
    if 2 <= steps { MulLe(2, steps, v1); }
  }

  lemma PositiveFactor(z: nat, q: nat, D: nat)
    requires z < q * D
    ensures 1 <= q
  {}

  /** A number by its two leading limbs and the rest. */
  lemma LeadingTwo(B: Base, v: seq<nat>, n: nat, P: nat)
    requires |v| == n && 2 <= n && P == Pow(B, n - 2)
    ensures Val(B, v) == (v[n - 1] * B + v[n - 2]) * P + Val(B, v[..n - 2])
  {
    hide Pow, Val;
    PrefixSnoc(B, v, n - 2);
    PrefixSnoc(B, v, n - 1);
    assert v[..n] == v;
    PowSucc(B, n - 2);
    MulDist(P, v[n - 1] * B, v[n - 2]);
    MulAssoc(v[n - 1], B, P);
  }

  /** The window is below B times the divisor: the next quotient digit is a limb. */
  predicate Below(B: Base, W: nat, V: nat) { W < B * V }

  /** The corrected guess is the true quotient digit or one more. */
  lemma GuessBounds(B: Base, w: seq<nat>, v: seq<nat>, n: nat, qHat: nat)
    requires |v| == n && |w| == n + 1 && 2 <= n && IsLimbs(B, v) && IsLimbs(B, w) && 0 < v[n - 1]
    requires Below(B, Val(B, w), Val(B, v)) && w[n] <= v[n - 1]
    requires qHat < B && Fits(qHat, B, w[n], w[n - 1], w[n - 2], v[n - 1], v[n - 2])
    requires qHat == Guess(B, w[n], w[n - 1], v[n - 1]) || !Fits(qHat + 1, B, w[n], w[n - 1], w[n - 2], v[n - 1], v[n - 2])
    ensures 0 < Val(B, v)
    ensures var q := Val(B, w) / Val(B, v); 0 <= q < B && q <= qHat <= q + 1
  {
    hide Pow, Val, IsLimbs, Guess, Fits, Below, Num;
    Windows(B, w, v, n, Pow(B, n - 2));
    GuessBoundsInt(B, Pow(B, n - 2), w[n], w[n - 1], w[n - 2], v[n - 1], v[n - 2], Val(B, v[..n - 2]), Val(B, w[..n - 2]),
      Val(B, v), Val(B, w), qHat);
  }

  /** hi limbs above low digits worth less than P. */
  function Num(hi: nat, P: nat, lo: nat): nat { hi * P + lo }

  lemma GuessBoundsInt(B: Base, P: nat, u0: nat, u1: nat, u2: nat, v1: nat, v2: nat, vl: nat, wl: nat, V: nat, W: nat, qHat: nat)
    requires 0 < P && u0 < B && u1 < B && u2 < B && 0 < v1 < B && v2 < B && vl < P && wl < P && u0 <= v1
    requires V == Num(Num(v1, B, v2), P, vl) && W == Num(Num(Num(u0, B, u1), B, u2), P, wl)
    requires Below(B, W, V) && qHat < B && Fits(qHat, B, u0, u1, u2, v1, v2)
    requires qHat == Guess(B, u0, u1, v1) || !Fits(qHat + 1, B, u0, u1, u2, v1, v2)
    ensures 0 < V && 0 <= W / V < B && W / V <= qHat <= W / V + 1
  {
    var D, T := v1 * B + v2, u0 * B + u1;
    var Z := T * B + u2;
    MulLe(1, v1, B);
    MulLe(1, D, P);
    var q, r := W / V, W % V;
    DivModSplit(W, V);
    DivLt(W, V, B);
    TestIsSharp(B, P, v1, D, V, vl, Z, W, wl, q, r, qHat);
    if qHat == Guess(B, u0, u1, v1) {
      if u0 != v1 { FirstGuess(B, P, v1, D, V, vl, T, Z, W, wl, u2, q); }
    } else {
      TestIsSafe(P, D, V, vl, Z, W, wl, q);
      QuotientBelow(Z, D, qHat);
    }
  }

  lemma QuotientBelow(Z: nat, D: nat, g: nat)
    requires 0 < D && Z < (g + 1) * D
    ensures Z / D <= g
  {
    DivLt(Z, D, g + 1);
  }

  lemma Windows(B: Base, w: seq<nat>, v: seq<nat>, n: nat, P: nat)
    requires |v| == n && |w| == n + 1 && 2 <= n && IsLimbs(B, v) && IsLimbs(B, w) && P == Pow(B, n - 2)
    ensures P > 0 && v[n - 1] < B && v[n - 2] < B && w[n] < B && w[n - 1] < B && w[n - 2] < B
    ensures Val(B, v[..n - 2]) < P && Val(B, w[..n - 2]) < P
    ensures Val(B, v) == Num(Num(v[n - 1], B, v[n - 2]), P, Val(B, v[..n - 2]))
    ensures Val(B, w) == Num(Num(Num(w[n], B, w[n - 1]), B, w[n - 2]), P, Val(B, w[..n - 2]))
  {
    hide Pow, Val;
    PowPos(B, n - 2);
    LeadingTwo(B, v, n, P);
    LeadingTwo(B, w, n + 1, Pow(B, n - 1));
    PrefixSnoc(B, w, n - 2);
    PowSucc(B, n - 2);
    assert IsLimbs(B, v[..n - 2]) && IsLimbs(B, w[..n - 2]);
    ValBound(B, v[..n - 2]);
    ValBound(B, w[..n - 2]);
    MulAssoc(w[n] * B + w[n - 1], B, P);
    MulDist(P, (w[n] * B + w[n - 1]) * B, w[n - 2]);
  }

  /** The leading limb of a window is at most that of the divisor when the window is below B * V. */
  lemma LeadingLimbAtMost(B: Base, w: seq<nat>, v: seq<nat>, n: nat)
    requires |v| == n && |w| == n + 1 && 2 <= n && IsLimbs(B, v) && IsLimbs(B, w)
    requires Below(B, Val(B, w), Val(B, v))
    ensures w[n] <= v[n - 1]
  {
    hide Pow, Val, IsLimbs;
    Windows(B, w, v, n, Pow(B, n - 2));
    LeadingLimbs(B, Pow(B, n - 2), v[n - 1], v[n - 2], Val(B, v[..n - 2]), w[n], w[n - 1], w[n - 2], Val(B, w[..n - 2]));
  }

  // ------------------------------------------------- one step of Algorithm D

  /** Step D4's difference without a borrow is the remainder. */
  lemma NoBorrow(N: nat, W: nat, V: nat, qHat: nat, low: nat, top: nat)
    requires 0 < V < N && V * qHat <= W && W / V <= qHat
    requires low + N * top == W - V * qHat && low < N
    ensures qHat == W / V && low == W % V
  {
    DivModSplit(W, V);
    LeDiv(qHat, W, V);
    MulDist(N, top, 0 - top);
    Congruent(low, W % V, 0 - top, N);
  }

  /** With a borrow the guess was one too large, and adding the divisor back to the low n limbs alone
      makes them the remainder: the carry into the top limb is a multiple of N. */
  lemma AddBack(B: Base, N: nat, W: nat, V: nat, qHat: nat, low: nat, top: nat, low': nat, c: nat)
    requires 0 < V < N && W < V * qHat && qHat <= W / V + 1
    requires low + N * top == W - V * qHat + B * N && low' + c * N == low + V && low' < N
    ensures qHat == W / V + 1 && low' == W % V
  {
    var q, r := W / V, W % V;
    DivModSplit(W, V);
    if qHat <= q { MulLe(qHat, q, V); }
    MulDist(V, q, 1);
    MulDist(N, B - top, 0 - c);
    MulDist(N, B, 0 - top);
    assert low' == r + N * (B - top - c);
    Congruent(low', r, B - top - c, N);
  }

  lemma Congruent(x: int, y: int, k: int, N: int)
    requires 0 <= x < N && 0 <= y < N && x == y + N * k
    ensures x == y
  {
    ModSmall(x, N);
    ModSmall(y, N);
    ModAddMultiple(y, k, N);
  }

  /** Steps D4 to D6: subtracts qHat times the divisor from the window, and when that borrows takes one
      off the digit and adds the divisor back, to the low n limbs only. */
  method MultiplySubtract(B: Base, uu: array<nat>, k: nat, vv: array<nat>, n: nat, qHat: nat) returns (digit: nat, ghost addedBack: bool)
    requires 2 <= n <= vv.Length && k + n + 1 <= uu.Length && uu != vv && qHat < B
    requires IsLimbs(B, vv[..n]) && IsLimbs(B, uu[k..k + n + 1]) && 0 < Val(B, vv[..n])
    requires Val(B, uu[k..k + n + 1]) / Val(B, vv[..n]) <= qHat <= Val(B, uu[k..k + n + 1]) / Val(B, vv[..n]) + 1
    modifies uu
    ensures digit == old(Val(B, uu[k..k + n + 1])) / Val(B, vv[..n])
    ensures addedBack <==> qHat == digit + 1
    ensures IsLimbs(B, uu[k..k + n]) && Val(B, uu[k..k + n]) == old(Val(B, uu[k..k + n + 1])) % Val(B, vv[..n])
    ensures SameOutside(uu[..], old(uu[..]), k, k + n + 1)
  {
    hide Pow, Val, IsLimbs, SameOutside, Mul;
    ghost var W, V, N, u0 := Val(B, uu[k..k + n + 1]), Val(B, vv[..n]), Pow(B, n), uu[..];
    ValBound(B, vv[..n]);
    var nv := DigitTimesDivisor(B, vv, n, qHat);
    var borrow := EvalSubtractN(B, uu, k, uu, k, nv, 0, n + 1);
    ghost var u1 := uu[..];
    TopLimb(B, u1, k, n);
    ghost var low, top := Val(B, u1[k..k + n]), u1[k + n];
    digit := qHat;
    addedBack := borrow;
    if borrow {
      MulDef(V, qHat);
      PositiveFactor(W, qHat, V);
      digit := qHat - 1;
      assert vv[0..n] == vv[..n];
      var lost := EvalAddN(B, uu, k, uu, k, vv, 0, n);
      ValBound(B, uu[k..k + n]);
      DigitTooLarge(B, N, n, W, V, qHat, low, top, Val(B, uu[k..k + n]), lost);
      OutsideTrans(uu[..], u1, u0, k, k + n + 1, k, k + n + 1, k, k + n);
    } else {
      DigitRight(N, W, V, qHat, low, top);
    }
  }

  lemma DigitRight(N: nat, W: nat, V: nat, qHat: nat, low: nat, top: nat)
    requires 0 < V < N && Mul(V, qHat) <= W && W / V <= qHat
    requires low + Mul(N, top) == W - Mul(V, qHat) && low < N
    ensures qHat == W / V && low == W % V
  {
    NoBorrow(N, W, V, qHat, low, top);
  }

  lemma DigitTooLarge(B: Base, N: nat, n: nat, W: nat, V: nat, qHat: nat, low: nat, top: nat, low': nat, c: nat)
    requires N == Pow(B, n) && 0 < V < N && W < Mul(V, qHat) && qHat <= W / V + 1
    requires low + Mul(N, top) == W - Mul(V, qHat) + Pow(B, n + 1) && low' + c * N == low + V && low' < N
    ensures qHat == W / V + 1 && low' == W % V
  {
    PowSucc(B, n);
    AddBack(B, N, W, V, qHat, low, top, low', c);
  }

  /** The product of a digit and the divisor, n + 1 limbs of it. */
  method DigitTimesDivisor(B: Base, vv: array<nat>, n: nat, qHat: nat) returns (nv: array<nat>)
    requires n <= vv.Length && qHat < B && IsLimbs(B, vv[..n])
    ensures fresh(nv) && n + 1 == nv.Length
    ensures IsLimbs(B, nv[0..n + 1]) && Val(B, nv[0..n + 1]) == Mul(Val(B, vv[..n]), qHat)
  {
    hide Pow, Val, IsLimbs;
    assert vv[0..n] == vv[..n];
    nv := new nat[n + 1];
    var carry := EvalMultiply1d(B, nv, 0, vv, 0, qHat, n);
    ghost var low := nv[0..n];
    nv[n] := carry;
    assert nv[0..n] == low;
    Extended(B, nv[..], carry, n);
    MulDef(Val(B, vv[..n]), qHat);
  }

  lemma Extended(B: Base, s: seq<nat>, c: nat, n: nat)
    requires |s| == n + 1 && s[n] == c < B && IsLimbs(B, s[0..n])
    ensures IsLimbs(B, s[0..n + 1]) && Val(B, s[0..n + 1]) == Val(B, s[0..n]) + c * Pow(B, n)
  {
    assert s[0..n + 1] == s[0..n] + [c];
    ValSnoc(B, s[0..n], c);
  }

  lemma TopLimb(B: Base, s: seq<nat>, k: nat, n: nat)
    requires k + n + 1 <= |s| && IsLimbs(B, s[k..k + n + 1])
    ensures IsLimbs(B, s[k..k + n]) && s[k + n] < B && Val(B, s[k..k + n]) < Pow(B, n)
    ensures Val(B, s[k..k + n + 1]) == Val(B, s[k..k + n]) + Mul(Pow(B, n), s[k + n])
  {
    LimbsSlice(B, s, k, k + n + 1, k, k + n);
    assert s[k..k + n + 1][n] == s[k + n];
    assert s[k..k + n + 1] == s[k..k + n] + [s[k + n]];
    ValSnoc(B, s[k..k + n], s[k + n]);
    ValBound(B, s[k..k + n]);
  }

  /** Steps D3 to D6 for the window of n + 1 limbs at uu[k..].  The low n limbs of the window become the
      remainder.  Its top limb is left stale when step D6 ran, because add-back stops below it. */
  method KnuthStep(B: Base, uu: array<nat>, k: nat, vv: array<nat>, n: nat) returns (qHat: nat, ghost steps: nat)
    requires 2 <= n <= vv.Length && k + n + 1 <= uu.Length && uu != vv
    requires IsLimbs(B, vv[..n]) && IsLimbs(B, uu[k..k + n + 1]) && 0 < vv[n - 1]
    requires Below(B, Val(B, uu[k..k + n + 1]), Val(B, vv[..n]))
    modifies uu
    ensures 0 < Val(B, vv[..n]) && qHat < B
    ensures B <= 2 * vv[n - 1] ==> steps <= 2
    ensures qHat == old(Val(B, uu[k..k + n + 1])) / Val(B, vv[..n])
    ensures IsLimbs(B, uu[k..k + n]) && Val(B, uu[k..k + n]) == old(Val(B, uu[k..k + n + 1])) % Val(B, vv[..n])
    ensures SameOutside(uu[..], old(uu[..]), k, k + n + 1)
  {
    hide Pow, Val, IsLimbs, Guess, Fits, Below, SameOutside, Dbl;
    ghost var w, v := uu[k..k + n + 1], vv[..n];
    WindowLimbs(B, w, v, n);
    LeadingLimbAtMost(B, w, v, n);
    assert uu[k + n] == w[n] && uu[k + n - 1] == w[n - 1] && uu[k + n - 2] == w[n - 2];
    assert vv[n - 1] == v[n - 1] && vv[n - 2] == v[n - 2];
    var guess := Guess(B, uu[k + n], uu[k + n - 1], vv[n - 1]);
    qHat, steps := CorrectGuess(B, guess, uu[k + n], uu[k + n - 1], uu[k + n - 2], vv[n - 1], vv[n - 2]);
    GuessBounds(B, w, v, n, qHat);
    ghost var addedBack;
    qHat, addedBack := MultiplySubtract(B, uu, k, vv, n, qHat);
  }

  lemma WindowLimbs(B: Base, w: seq<nat>, v: seq<nat>, n: nat)
    requires |v| == n && |w| == n + 1 && 2 <= n && IsLimbs(B, v) && IsLimbs(B, w)
    ensures v[n - 1] < B && v[n - 2] < B && w[n] < B && w[n - 1] < B && w[n - 2] < B
  {}

  // ---------------------------------------------------------- long division

  /** Step D2 to D7: the digits of the quotient from the most significant one down, into values[0..m+1).
      No digit needs more than `worst` corrections, which is two for a normalised divisor.
      Only limbs below the current window and its low n limbs are read again, never a stale top limb. */
  method KnuthLoop(B: Base, uu: array<nat>, vv: array<nat>, values: array<nat>, n: nat, m: nat) returns (ghost worst: nat)
    requires 2 <= n <= vv.Length && m + n + 1 <= uu.Length && m + 1 <= values.Length
    requires uu != vv && uu != values && vv != values
    requires IsLimbs(B, vv[..n]) && IsLimbs(B, uu[0..m + n + 1]) && 0 < vv[n - 1]
    requires Val(B, uu[m + 1..m + 1 + n]) < Val(B, vv[..n])
    modifies uu, values
    ensures IsLimbs(B, uu[0..n]) && IsLimbs(B, values[0..m + 1])
    ensures old(Val(B, uu[0..m + n + 1])) == Mul(Val(B, values[0..m + 1]), Val(B, vv[..n])) + Val(B, uu[0..n])
    ensures Val(B, uu[0..n]) < Val(B, vv[..n])
    ensures B <= 2 * vv[n - 1] ==> worst <= 2
    ensures SameOutside(values[..], old(values[..]), 0, m + 1)
  {
    hide Pow, Val, IsLimbs, Below, SameOutside, Mul;
    ghost var u0, v0, V := uu[..], values[..], Val(B, vv[..n]);
    LoopStart(B, u0, values[..], m, n, V);
    worst := 0;
    var k := m + 1;
    while k > 0
      invariant 0 <= k <= m + 1 && (B <= 2 * vv[n - 1] ==> worst <= 2)
      invariant SameOutside(uu[..], u0, k, m + n + 1) && SameOutside(values[..], v0, 0, m + 1)
      invariant IsLimbs(B, uu[k..k + n]) && IsLimbs(B, values[k..m + 1]) && Val(B, uu[k..k + n]) < V
      invariant Val(B, u0[k..m + n + 1]) == Mul(Val(B, values[k..m + 1]), V) + Val(B, uu[k..k + n])
    {
      k := k - 1;
      ghost var u1, s1 := uu[..], values[..];
      NextWindow(B, u1, u0, k, n, m, V);
      var digit;
      ghost var steps;
      digit, steps := KnuthStep(B, uu, k, vv, n);
      worst := if steps <= worst then worst else steps;
      values[k] := digit;
      StepDone(B, u0, u1, uu[..], s1, values[..], v0, k, n, m, V, digit);
    }
  }

  lemma LoopStart(B: Base, u0: seq<nat>, s: seq<nat>, m: nat, n: nat, V: nat)
    requires m + n + 1 <= |u0| && m + 1 <= |s| && IsLimbs(B, u0[0..m + n + 1])
    ensures IsLimbs(B, u0[m + 1..m + 1 + n]) && IsLimbs(B, s[m + 1..m + 1])
    ensures Val(B, u0[m + 1..m + n + 1]) == Mul(Val(B, s[m + 1..m + 1]), V) + Val(B, u0[m + 1..m + 1 + n])
    ensures SameOutside(u0, u0, m + 1, m + n + 1) && SameOutside(s, s, 0, m + 1)
  {
    LimbsSlice(B, u0, 0, m + n + 1, m + 1, m + 1 + n);
    assert s[m + 1..m + 1] == [];
  }

  /** The next window is the next lower limb below the remainder so far. */
  lemma NextWindow(B: Base, u1: seq<nat>, u0: seq<nat>, k: nat, n: nat, m: nat, V: nat)
    requires k <= m && m + n + 1 <= |u1| && SameOutside(u1, u0, k + 1, m + n + 1) && IsLimbs(B, u0[0..m + n + 1])
    requires IsLimbs(B, u1[k + 1..k + 1 + n]) && Val(B, u1[k + 1..k + 1 + n]) < V
    ensures IsLimbs(B, u1[k..k + n + 1]) && u1[k] == u0[k]
    ensures Val(B, u1[k..k + n + 1]) == u0[k] + Mul(B, Val(B, u1[k + 1..k + 1 + n]))
    ensures Below(B, Val(B, u1[k..k + n + 1]), V)
  {
    assert u0[k] == u0[0..m + n + 1][k];
    assert u1[k..k + n + 1] == [u0[k]] + u1[k + 1..k + 1 + n];
    ConsLimb(B, u0[k], u1[k + 1..k + 1 + n]);
    MulLe(Val(B, u1[k + 1..k + 1 + n]) + 1, V, B);
    MulDist(B, Val(B, u1[k + 1..k + 1 + n]), 1);
  }

  lemma ConsLimb(B: Base, x: nat, s: seq<nat>)
    requires x < B && IsLimbs(B, s)
    ensures IsLimbs(B, [x] + s) && Val(B, [x] + s) == x + Mul(B, Val(B, s))
  {
    assert ([x] + s)[1..] == s;
  }

  lemma StepDone(B: Base, u0: seq<nat>, u1: seq<nat>, u2: seq<nat>, s1: seq<nat>, s2: seq<nat>, v0: seq<nat>,
      k: nat, n: nat, m: nat, V: nat, digit: nat)
    requires k <= m && m + n + 1 <= |u1| && SameOutside(u1, u0, k + 1, m + n + 1) && SameOutside(u2, u1, k, k + n + 1)
    requires m + 1 <= |s1| && s2 == s1[k := digit] && digit < B && SameOutside(s1, v0, 0, m + 1) && IsLimbs(B, s1[k + 1..m + 1])
    requires IsLimbs(B, u0[0..m + n + 1])
    requires 0 < V && digit == Val(B, u1[k..k + n + 1]) / V && Val(B, u2[k..k + n]) == Val(B, u1[k..k + n + 1]) % V
    requires Val(B, u1[k..k + n + 1]) == u0[k] + Mul(B, Val(B, u1[k + 1..k + 1 + n]))
    requires Val(B, u0[k + 1..m + n + 1]) == Mul(Val(B, s1[k + 1..m + 1]), V) + Val(B, u1[k + 1..k + 1 + n])
    ensures SameOutside(u2, u0, k, m + n + 1) && SameOutside(s2, v0, 0, m + 1) && IsLimbs(B, s2[k..m + 1])
    ensures Val(B, u2[k..k + n]) < V
    ensures Val(B, u0[k..m + n + 1]) == Mul(Val(B, s2[k..m + 1]), V) + Val(B, u2[k..k + n])
  {
    hide Pow, Val, IsLimbs, Mul;
    assert u0[k..m + n + 1] == [u0[k]] + u0[k + 1..m + n + 1];
    assert s2[k..m + 1] == [digit] + s1[k + 1..m + 1];
    LimbsSlice(B, u0, 0, m + n + 1, k + 1, m + n + 1);
    LimbAt(B, u0[0..m + n + 1], k);
    ConsLimb(B, u0[k], u0[k + 1..m + n + 1]);
    ConsLimb(B, digit, s1[k + 1..m + 1]);
    DivModSplit(Val(B, u1[k..k + n + 1]), V);
    DigitAppended(B, V, Val(B, s1[k + 1..m + 1]), Val(B, u1[k + 1..k + 1 + n]), u0[k], digit, Val(B, u2[k..k + n]));
  }

  lemma LimbAt(B: Base, s: seq<nat>, k: nat)
    requires k < |s| && IsLimbs(B, s)
    ensures s[k] < B
  {}

  lemma DigitAppended(B: nat, V: nat, Q: nat, R: nat, x: nat, q: nat, r: nat)
    requires x + Mul(B, R) == q * V + r
    ensures x + Mul(B, Mul(Q, V) + R) == Mul(q + Mul(B, Q), V) + r
  {
    MulDist(B, Q * V, R);
    MulDist(V, q, B * Q);
    MulAssoc(B, Q, V);
  }
}
