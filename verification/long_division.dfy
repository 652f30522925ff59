/** Division of limb arrays: by a single limb, and by the normalised loop of Algorithm D. */
module LongDivision {
  import opened Limbs
  import opened Kernels
  import opened Division
  import opened QuotientDigit

  // --------------------------------------------------- division by one limb

  /** One column of a division by a single limb: the running remainder r and the next limb x. */
  lemma ShortStep(B: Base, d: nat, r: nat, x: nat, z: nat)
    requires 0 < d < B && r < d && x < B && z == x + r * B
    ensures z < B * B && z / B == r
    ensures 0 <= z / d < B && (z / d) % B == z / d
    ensures z == (z / d) * d + z % d && 0 <= z % d < d
  {
    MulLe(r + 1, d, B);
    MulDist(B, r, 1);
    MulLe(d, B, B);
    DivModUnique(z, B, r, x);
    DivModSplit(z, d);
    DivLt(z, d, B);
    ModSmall(z / d, B);
  }

  /** The quotient digits above position i, times d, plus the running remainder, are the digits of the
      dividend above position i. */
  predicate ShortDone(B: Base, was: seq<nat>, now: seq<nat>, i: nat, M: nat, d: nat, r: nat)
    requires i <= M <= |was| && M <= |now|
  {
    IsLimbs(B, now[i..M]) && Val(B, was[i..M]) == Mul(Val(B, now[i..M]), d) + r
  }

  lemma ShortStepDone(B: Base, was: seq<nat>, s: seq<nat>, i: nat, M: nat, d: nat, r: nat, q: nat, r': nat)
    requires i < M <= |was| && M <= |s| && 0 < d && IsLimbs(B, was) && q < B
    requires ShortDone(B, was, s, i + 1, M, d, r)
    requires was[i] + Mul(B, r) == q * d + r'
    ensures ShortDone(B, was, s[i := q], i, M, d, r')
  {
    hide Pow, Val, IsLimbs, Mul;
    var now := s[i := q];
    assert was[i..M] == [was[i]] + was[i + 1..M] && now[i..M] == [q] + s[i + 1..M];
    LimbAt(B, was, i);
    assert was[0..|was|] == was;
    LimbsSlice(B, was, 0, |was|, i + 1, M);
    ConsLimb(B, was[i], was[i + 1..M]);
    ConsLimb(B, q, s[i + 1..M]);
    DigitAppended(B, d, Val(B, s[i + 1..M]), r, was[i], q, r');
  }

  /** The running remainder of the numerator y and the digit hi. */
  predicate Running(B: Base, d: nat, y: nat, hi: nat, r: int) {
    hi < B && y < B * B && 0 <= r < d && y == d * hi + r
  }

  /** The next numerator of the single-limb loop, in double-limb arithmetic. */
  function NextNumerator(B: Base, d: nat, y: nat, hi: nat, x: nat): nat {
    Dbl(B, x + Dbl(B, Dbl(B, y - Dbl(B, d * hi)) * B))
  }

  /** In double-limb arithmetic the next numerator is the remainder with the next limb appended. */
  lemma NextIs(B: Base, d: nat, y: nat, hi: nat, r: nat, x: nat, z: nat)
    requires 0 < d < B && x < B && Running(B, d, y, hi, r) && z == x + r * B
    ensures NextNumerator(B, d, y, hi, x) == z < B * B && r < d
  {
    hide Dbl;
    MulLe(0, hi, d);
    DblSmall(B, d * hi);
    DblSmall(B, r);
    ShortStep(B, d, r, x, z);
    MulLe(0, r, B);
    DblSmall(B, r * B);
    DblSmall(B, z);
  }

  /** The arithmetic of one pass of the single-limb loop. */
  lemma ShortPass(B: Base, d: nat, y: nat, hi: nat, r: nat, x: nat) returns (z: nat, q: nat, r': nat)
    requires 0 < d < B && x < B && Running(B, d, y, hi, r)
    ensures z == NextNumerator(B, d, y, hi, x) == x + Mul(B, r) && q == z / d == Lo(B, q) < B && Hi(B, z) == r
    ensures Running(B, d, z, q, r') && z == q * d + r'
  {
    hide NextNumerator, Running;
    z := Appended(B, r, x);
    NextIs(B, d, y, hi, r, x, z);
    ShortStep(B, d, r, x, z);
    q, r' := z / d, z % d;
    IsRunning(B, d, z, q, r');
  }

  lemma Appended(B: Base, r: nat, x: nat) returns (z: nat)
    ensures z == x + r * B == x + Mul(B, r)
  {
    MulLe(0, r, B);
    z := x + r * B;
  }

  lemma IsRunning(B: Base, d: nat, y: nat, hi: nat, r: nat)
    requires hi < B && y < B * B && r < d && y == hi * d + r
    ensures Running(B, d, y, hi, r)
  {}

  /** The loop of the single-limb division: the last numerator and its digit. */
  method ShortLoop(B: Base, values: array<nat>, d: nat, M: nat) returns (longNumerator: nat, hiPart: nat, ghost r: nat)
    requires 0 < d < B && M <= values.Length && IsLimbs(B, values[..])
    modifies values
    ensures SameOutside(values[..], old(values[..]), 0, M)
    ensures Running(B, d, longNumerator, hiPart, r) && ShortDone(B, old(values[..]), values[..], 0, M, d, r)
  {
    hide Pow, Val, Dbl, Lo, Hi, ShortDone, IsLimbs, SameOutside, Running, NextNumerator;
    ghost var v0: seq<nat> := values[..];
    longNumerator, hiPart, r := 0, 0, 0;
    ShortStart(B, v0, M, d);
    var i: nat := M;
    while i > 0
      invariant 0 <= i <= M && SameOutside(values[..], v0, i, M)
      invariant Running(B, d, longNumerator, hiPart, r) && ShortDone(B, v0, values[..], i, M, d, r)
    {
      i := i - 1;
      ghost var s := values[..];
      OutsideAt(s, v0, i + 1, M, i);
      LimbAt(B, v0, i);
      ghost var z, q, r' := ShortPass(B, d, longNumerator, hiPart, r, v0[i]);
      longNumerator := NextNumerator(B, d, longNumerator, hiPart, values[i]);
      hiPart := Lo(B, longNumerator / d);
      values[i] := hiPart;
      ShortStepDone(B, v0, s, i, M, d, r, hiPart, r');
      OutsideUpdate(s, v0, i, M, hiPart);
      assert values[..] == s[i := hiPart];
      r := r';
    }
  }

  /** values := values / d, from the limb below `uOffset` leading zeros down; the remainder goes to the
      lowest limb of `remainder` unless that is null.  It is the high limb of one more numerator. */
  method EvalDivideBySingleLimb(B: Base, values: array<nat>, d: nat, uOffset: nat, remainder: array?<nat>)
    requires 0 < d < B && uOffset < values.Length && IsLimbs(B, values[..])
    requires forall i :: values.Length - uOffset <= i < values.Length ==> values[i] == 0
    requires remainder != null ==> remainder != values && remainder.Length == values.Length
    modifies values, if remainder != null then {remainder} else {}
    ensures IsLimbs(B, values[..]) && Val(B, values[..]) == old(Val(B, values[..])) / d
    ensures remainder != null ==> IsLimbs(B, remainder[..]) && Val(B, remainder[..]) == old(Val(B, values[..])) % d
  {
    hide Pow, Val, Dbl, Lo, Hi, ShortDone, IsLimbs, SameOutside, Running, NextNumerator;
    ghost var v0: seq<nat>, M: nat := values[..], values.Length - uOffset;
    var longNumerator, hiPart;
    ghost var r;
    longNumerator, hiPart, r := ShortLoop(B, values, d, values.Length - uOffset);
    ShortEnd(B, v0, values[..], M, d, longNumerator, hiPart, r);
    if remainder != null {
      LimbAt(B, values[..], 0);
      ghost var z, q, r' := ShortPass(B, d, longNumerator, hiPart, r, values[0]);
      longNumerator := NextNumerator(B, d, longNumerator, hiPart, values[0]);
      Fill(remainder, 0, remainder.Length, 0);
      remainder[0] := Hi(B, longNumerator);
      SmallNumber(B, remainder[..], r);
    }
  }

  lemma ShortStart(B: Base, v0: seq<nat>, M: nat, d: nat)
    requires M <= |v0|
    requires 0 < d
    ensures ShortDone(B, v0, v0, M, M, d, 0) && SameOutside(v0, v0, M, M) && Running(B, d, 0, 0, 0)
  {
    assert v0[M..M] == [];
    MulPos(B, B);
  }

  lemma OutsideAt(now: seq<nat>, was: seq<nat>, lo: nat, hi: nat, k: nat)
    requires SameOutside(now, was, lo, hi) && k < |now| && (k < lo || hi <= k)
    ensures now[k] == was[k] && |now| == |was|
  {}

  lemma OutsideUpdate(s: seq<nat>, was: seq<nat>, i: nat, hi: nat, x: nat)
    requires i < |s| && i < hi && SameOutside(s, was, i + 1, hi)
    ensures SameOutside(s[i := x], was, i, hi)
  {}

  lemma ShortEnd(B: Base, was: seq<nat>, now: seq<nat>, M: nat, d: nat, y: nat, hi: nat, r: nat)
    requires M <= |was| && 0 < d < B && Running(B, d, y, hi, r) && SameOutside(now, was, 0, M) && IsLimbs(B, was)
    requires forall k :: M <= k < |was| ==> was[k] == 0
    requires ShortDone(B, was, now, 0, M, d, r)
    ensures IsLimbs(B, now) && Val(B, now) == Val(B, was) / d && r == Val(B, was) % d && r < B
  {
    assert was[0..M] == was[..M] && now[0..M] == now[..M];
    forall k | 0 <= k < |now| ensures now[k] < B { if k < M { assert now[k] == now[..M][k]; } }
    ValTrim(B, was, M);
    ValTrim(B, now, M);
    DivModUnique(Val(B, was), d, Val(B, now), r);
  }

  /** A number of one limb. */
  lemma SmallNumber(B: Base, s: seq<nat>, x: nat)
    requires 0 < |s| && s[0] == x < B && forall k :: 1 <= k < |s| ==> s[k] == 0
    ensures IsLimbs(B, s) && Val(B, s) == x
  {
    assert s[..1] == [x];
    ValTrim(B, s, 1);
    ValOne(B, x);
  }

  // -------------------------------------------------- normalised long division

  /** The normalisation factor for the leading limb of the divisor. */
  function Factor(B: Base, v1: nat): (d: nat)
  {
    DivModSplit(B, v1 + 1);
    B / (v1 + 1)
  }

  /** The factor is a limb, and it makes the leading limb of an even base at least half the base. */
  lemma FactorBounds(B: Base, v1: nat)
    requires 0 < v1 < B
    ensures var d := Factor(B, v1);
      && 1 <= d < B && 0 <= d * v1 && d * (v1 + 1) <= B && 1 <= d * v1 && (B % 2 == 0 ==> B <= 2 * (d * v1))
  {
    var d := Factor(B, v1);
    DivModSplit(B, v1 + 1);
    LeDiv(1, B, v1 + 1);
    MulDist(d, v1, 1);
    MulLe(1, d, v1);
    if B % 2 == 0 {
      var h := B / 2;
      assert B == 2 * h;
      Normalised(h, v1);
    }
  }

  /** The scaled divisor has no carry, and its leading limb is at least the factor times that of the divisor. */
  lemma ScaledDivisor(B: Base, v: seq<nat>, s: seq<nat>, n: nat, d: nat, c: nat)
    requires |v| == n == |s| && 1 <= n && IsLimbs(B, v) && IsLimbs(B, s) && 0 < d && d * (v[n - 1] + 1) <= B
    requires Val(B, s) + c * Pow(B, n) == Val(B, v) * d
    ensures c == 0 && Val(B, s) == Mul(Val(B, v), d) && d * v[n - 1] <= s[n - 1]
  {
    hide Pow, Val;
    var P, x, y := Pow(B, n - 1), Val(B, v[..n - 1]), Val(B, s[..n - 1]);
    PrefixSnoc(B, v, n - 1);
    PrefixSnoc(B, s, n - 1);
    assert v[..n] == v && s[..n] == s;
    ValBound(B, v[..n - 1]);
    ValBound(B, s[..n - 1]);
    PowSucc(B, n - 1);
    ScaledInt(B, P, x, v[n - 1], d, Val(B, v), Val(B, s), y, s[n - 1], c);
  }

  lemma ScaledInt(B: nat, P: nat, x: nat, v1: nat, d: nat, V: nat, S: nat, y: nat, s1: nat, c: nat)
    requires x < P && y < P && 0 < d && d * (v1 + 1) <= B && V == x + v1 * P && S == y + s1 * P
    requires S + c * (B * P) == V * d
    ensures c == 0 && S == Mul(V, d) && d * v1 <= s1
  {
    NoCarry(B, P, v1, d, V, S, c);
    LeadingScaled(P, v1, d, V, S, y, s1);
  }

  lemma NoCarry(B: nat, P: nat, v1: nat, d: nat, V: nat, S: nat, c: nat)
    requires 0 < P && 0 < d && d * (v1 + 1) <= B && V < (v1 + 1) * P && S + c * (B * P) == V * d
    ensures c == 0
  {
    MulLt(V, (v1 + 1) * P, d);
    assert (v1 + 1) * P * d == d * (v1 + 1) * P;
    MulLe(d * (v1 + 1), B, P);
    MulCancelLt(c, 1, B * P);
  }

  lemma LeadingScaled(P: nat, v1: nat, d: nat, V: nat, S: nat, y: nat, s1: nat)
    requires 0 < P && v1 * P <= V && S == V * d == y + s1 * P && y < P
    ensures d * v1 <= s1
  {
    MulLe(v1 * P, V, d);
    assert v1 * P * d == (d * v1) * P;
    MulDist(P, s1, 1);
    MulCancelLt(d * v1, s1 + 1, P);
  }

  /** The normalised operands: both times d, the numerator with one limb more. */
  method Normalise(B: Base, values: array<nat>, u: nat, other: array<nat>, n: nat) returns (uu: array<nat>, vv: array<nat>, d: nat)
    requires values.Length == other.Length && u <= values.Length && 1 <= n <= other.Length
    requires IsLimbs(B, values[..]) && IsLimbs(B, other[..]) && 0 < other[n - 1]
    ensures fresh(uu) && fresh(vv) && uu != vv && uu.Length == values.Length + 1 && vv.Length == values.Length
    ensures 1 <= d < B && IsLimbs(B, uu[0..u + 1]) && IsLimbs(B, vv[..n])
    ensures Val(B, uu[0..u + 1]) == Mul(Val(B, values[..u]), d)
    ensures Val(B, vv[..n]) == Mul(Val(B, other[..n]), d)
    ensures 0 < vv[n - 1] && (B % 2 == 0 ==> B <= 2 * vv[n - 1])
  {
    hide Pow, Val, Factor, SameOutside, Mul;
    assert other[n - 1] < B;
    FactorBounds(B, other[n - 1]);
    d := Factor(B, other[n - 1]);
    uu := new nat[values.Length + 1](i => 0);
    vv := new nat[values.Length](i => 0);
    if d > 1 {
      ScaleNumerator(B, uu, values, u, d);
      ScaleDivisor(B, vv, other, n, d);
    } else {
      Copy(uu, 0, values, 0, values.Length);
      assert uu[0..u] == uu[0..values.Length][..u] == values[..u];
      uu[u] := 0;
      assert uu[0..u + 1][0..u] == values[..u] && uu[0..u + 1][0..u + 1] == uu[0..u + 1];
      Extended(B, uu[0..u + 1], 0, u);
      Copy(vv, 0, other, 0, other.Length);
      assert vv[..n] == vv[0..other.Length][..n] == other[..n];
      MulDef(Val(B, values[..u]), 1);
      MulDef(Val(B, other[..n]), 1);
      assert other[n - 1] == vv[..n][n - 1];
    }
  }

  method ScaleNumerator(B: Base, uu: array<nat>, values: array<nat>, u: nat, d: nat)
    requires u <= values.Length && u + 1 <= uu.Length && uu != values && d < B && IsLimbs(B, values[..])
    modifies uu
    ensures IsLimbs(B, uu[0..u + 1]) && Val(B, uu[0..u + 1]) == Mul(Val(B, values[..u]), d)
  {
    hide Pow, Val, SameOutside;
    assert values[0..u] == values[..u];
    var carry := EvalMultiply1d(B, uu, 0, values, 0, d, u);
    ghost var low := uu[0..u];
    uu[u] := carry;
    assert uu[0..u + 1][0..u] == low && uu[0..u + 1][0..u + 1] == uu[0..u + 1];
    Extended(B, uu[0..u + 1], carry, u);
    MulDef(Val(B, values[..u]), d);
  }

  method ScaleDivisor(B: Base, vv: array<nat>, other: array<nat>, n: nat, d: nat)
    requires 1 <= n <= vv.Length && n <= other.Length && vv != other && 0 < d < B && IsLimbs(B, other[..])
    requires d * (other[n - 1] + 1) <= B
    modifies vv
    ensures IsLimbs(B, vv[..n]) && Val(B, vv[..n]) == Mul(Val(B, other[..n]), d)
    ensures d * other[n - 1] <= vv[n - 1]
  {
    hide Pow, Val, SameOutside, Mul;
    assert other[0..n] == other[..n] && other[..n][n - 1] == other[n - 1];
    var lost := EvalMultiply1d(B, vv, 0, other, 0, d, n);
    assert vv[0..n] == vv[..n];
    ScaledDivisor(B, other[..n], vv[..n], n, d, lost);
  }

  /** The top n limbs of the scaled numerator are below the scaled divisor: the first quotient digit is a limb. */
  lemma FirstWindow(B: Base, u: nat, v: seq<nat>, uu: seq<nat>, n: nat, m: nat, d: nat)
    requires |v| == n && 1 <= n && IsLimbs(B, v) && 0 < v[n - 1] && |uu| == m + n + 1 && 0 < d
    requires u < Pow(B, m + n) && Val(B, uu) == Mul(u, d)
    ensures Val(B, uu[m + 1..]) < Mul(Val(B, v), d)
  {
    hide Pow, Val;
    PrefixSnoc(B, v, n - 1);
    assert v[..n] == v;
    PowAdd(B, m + 1, n - 1);
    assert m + 1 + (n - 1) == m + n;
    ValSplit(B, uu, m + 1);
    FirstWindowInt(Pow(B, m + 1), Pow(B, n - 1), u, v[n - 1], Val(B, v), Val(B, v[..n - 1]), Val(B, uu[m + 1..]), Val(B, uu[..m + 1]), d);
  }

  lemma FirstWindowInt(P: nat, Q: nat, u: nat, v1: nat, v: nat, vl: nat, T: nat, lo: nat, d: nat)
    requires u < P * Q && 0 < v1 && v == vl + v1 * Q && lo + P * T == Mul(u, d) && 0 < d
    ensures T < Mul(v, d)
  {
    MulLe(1, v1, Q);
    MulLe(Q, v, P);
    MulLt(u, P * v, d);
    MulAssoc(P, v, d);
    if Mul(v, d) <= T { MulLe(v * d, T, P); }
  }

  /** Undoing the scale: the quotient is unchanged and the scaled remainder is d times the remainder. */
  lemma Descale(u: nat, v: nat, d: nat, q: nat, R: nat)
    requires 0 < d && 0 < v && Mul(u, d) == Mul(q, Mul(v, d)) + R && R < Mul(v, d)
    ensures q == u / v && R == Mul(u % v, d)
  {
    var r := u - q * v;
    MulAssoc(q, v, d);
    MulDist(d, u, 0 - q * v);
    assert r * d == R;
    MulCancelLt(r, v, d);
    MulCancelLe(0, r, d);
    DivModUnique(u, v, q, r);
  }

  /** remainder := uu[..n] / d, which is exact. */
  method Denormalise(B: Base, uu: array<nat>, n: nat, d: nat, remainder: array<nat>, ghost r: nat)
    requires n <= uu.Length && n <= remainder.Length && uu != remainder && 0 < d < B
    requires IsLimbs(B, uu[0..n]) && Val(B, uu[0..n]) == Mul(r, d)
    modifies remainder
    ensures IsLimbs(B, remainder[..]) && Val(B, remainder[..]) == r
  {
    hide Pow, Val, IsLimbs, SameOutside, ShortDone, Mul;
    if d == 1 {
      Copy(remainder, 0, uu, 0, n);
      MulDef(r, 1);
    } else {
      ghost var us := uu[0..n];
      assert us[n..n] == [] == remainder[n..n];
      EmptyDone(B, us, remainder[..], n, d);
      var previousU: nat := 0;
      var i := n;
      while i > 0
        invariant 0 <= i <= n && uu[0..n] == us && previousU < d
        invariant ShortDone(B, us, remainder[..], i, n, d, previousU)
      {
        i := i - 1;
        ghost var s := remainder[..];
        ghost var z := Appended(B, previousU, us[i]);
        assert uu[i] == us[i];
        LimbAt(B, us, i);
        ShortStep(B, d, previousU, us[i], z);
        DenormaliseStep(B, d, previousU, us[i], z);
        var t := Dbl(B, uu[i] + Dbl(B, previousU * B));
        remainder[i] := t / d;
        ShortStepDone(B, us, s, i, n, d, previousU, t / d, t % d);
        previousU := t - d * remainder[i];
        assert remainder[..] == s[i := remainder[i]];
      }
      DenormaliseEnd(B, us, remainder[..], n, d, previousU, r);
    }
    ghost var low := remainder[0..n];
    Fill(remainder, n, remainder.Length, 0);
    assert remainder[..][..n] == low;
    ZeroPadded(B, remainder[..], n);
  }

  lemma EmptyDone(B: Base, was: seq<nat>, now: seq<nat>, M: nat, d: nat)
    requires M == |was| && M <= |now|
    ensures ShortDone(B, was, now, M, M, d, 0)
  {
    assert was[M..M] == [] == now[M..M];
  }

  lemma DenormaliseStep(B: Base, d: nat, r: nat, x: nat, z: nat)
    requires 0 < d && z == x + r * B < B * B && z == (z / d) * d + z % d
    ensures Dbl(B, x + Dbl(B, r * B)) == z && 0 <= z / d && d * (z / d) == z - z % d
  {
    MulLe(0, r, B);
    ModSmall(r * B, B * B);
    ModSmall(z, B * B);
    DivModSplit(z, d);
  }

  lemma DenormaliseEnd(B: Base, was: seq<nat>, now: seq<nat>, n: nat, d: nat, p: nat, r: nat)
    requires n == |was| && n <= |now| && p < d && ShortDone(B, was, now, 0, n, d, p) && Val(B, was) == Mul(r, d)
    ensures IsLimbs(B, now[0..n]) && Val(B, now[0..n]) == r
  {
    assert was[0..n] == was;
    DivModUnique(Val(B, was), d, Val(B, now[0..n]), p);
    DivModUnique(Val(B, was), d, r, 0);
  }

  // ----------------------------------------------------------- the division

  /** The k most significant limbs are zero and the next one is not. */
  predicate LeadingZeros(s: seq<nat>, k: nat) {
    && k <= |s|
    && (forall i :: |s| - k <= i < |s| ==> s[i] == 0)
    && (k < |s| ==> s[|s| - k - 1] != 0)
  }

  method CountLeadingZeros(a: array<nat>) returns (k: nat)
    ensures LeadingZeros(a[..], k)
  {
    k := 0;
    while k < a.Length && a[a.Length - 1 - k] == 0
      invariant k <= a.Length && forall i :: a.Length - k <= i < a.Length ==> a[i] == 0
    {
      k := k + 1;
    }
  }

  /** The limbs below the leading zeros carry the value, and bound it from both sides. */
  lemma Significant(B: Base, s: seq<nat>, k: nat, n: nat)
    requires LeadingZeros(s, k) && IsLimbs(B, s) && n == |s| - k
    ensures IsLimbs(B, s[..n]) && Val(B, s[..n]) == Val(B, s) < Pow(B, n)
    ensures n == 0 <==> Val(B, s) == 0
    ensures 0 < n ==> 0 < s[n - 1] && Pow(B, n - 1) <= Val(B, s)
  {
    hide Pow, Val;
    assert IsLimbs(B, s[..n]);
    ValTrim(B, s, n);
    ValBound(B, s[..n]);
    if n == 0 {
      ValEmpty(B);
      assert s[..n] == [];
    } else {
      PrefixSnoc(B, s, n - 1);
      PowPos(B, n - 1);
      MulLe(1, s[n - 1], Pow(B, n - 1));
    }
  }

  /** The larger number has at least as many significant limbs. */
  lemma MoreLimbs(B: Base, x: nat, y: nat, u: nat, n: nat)
    requires y < x < Pow(B, u) && 0 < n && Pow(B, n - 1) <= y
    ensures n <= u
  {
    if u < n { PowMono(B, u, n - 1); }
  }

  /** values := values / other for a divisor below the numerator, by the algorithm that fits the size of
      the divisor; no quotient digit needs more than two corrections when the base is even. */
  method EvalDivideKnuthCore(B: Base, values: array<nat>, uOffset: nat, vOffset: nat, other: array<nat>, remainder: array?<nat>)
    returns (ghost worst: nat)
    requires values.Length == other.Length && IsLimbs(B, values[..]) && IsLimbs(B, other[..])
    requires LeadingZeros(values[..], uOffset) && LeadingZeros(other[..], vOffset)
    requires 0 < Val(B, other[..]) < Val(B, values[..])
    requires remainder != null ==> remainder != values && remainder != other && remainder.Length == values.Length
    modifies values, if remainder != null then {remainder} else {}
    ensures IsLimbs(B, values[..]) && Val(B, values[..]) == old(Val(B, values[..])) / old(Val(B, other[..]))
    ensures remainder != null ==>
      IsLimbs(B, remainder[..]) && Val(B, remainder[..]) == old(Val(B, values[..])) % old(Val(B, other[..]))
    ensures B % 2 == 0 ==> worst <= 2
  {
    hide Pow, Val, IsLimbs, SameOutside, Mul;
    ghost var x, y, U := Val(B, values[..]), Val(B, other[..]), values.Length - uOffset;
    var n := other.Length - vOffset;
    Significant(B, values[..], uOffset, U);
    Significant(B, other[..], vOffset, n);
    MoreLimbs(B, x, y, U, n);
    assert values[..][..U] == values[..U] && other[..][..n] == other[..n];
    worst := 0;
    if vOffset + 1 == other.Length {
      OneLimb(B, other[..], vOffset);
      EvalDivideBySingleLimb(B, values, other[0], uOffset, remainder);
    } else {
      var m := values.Length - uOffset - n;
      var uu, vv, d := Normalise(B, values, values.Length - uOffset, other, n);
      assert uu[0..U + 1][m + 1..] == uu[m + 1..m + 1 + n];
      assert other[..n][n - 1] == other[n - 1];
      FirstWindow(B, x, other[..n], uu[0..U + 1], n, m, d);
      worst := KnuthLoop(B, uu, vv, values, n, m);
      Descale(x, y, d, Val(B, values[0..m + 1]), Val(B, uu[0..n]));
      ghost var q := values[0..m + 1];
      Fill(values, m + 1, values.Length, 0);
      assert values[..][..m + 1] == q;
      ZeroPadded(B, values[..], m + 1);
      if remainder != null {
        Denormalise(B, uu, n, d, remainder, x % y);
      }
    }
  }

  lemma OneLimb(B: Base, s: seq<nat>, k: nat)
    requires k + 1 == |s| && LeadingZeros(s, k) && IsLimbs(B, s)
    ensures 0 < s[0] < B && Val(B, s) == s[0]
  {
    SmallNumber(B, s, s[0]);
  }

  /** The largest number of n limbs, or the largest non-negative one in two's complement. */
  function MaxValue(B: Base, n: nat, signed: bool): int {
    (if signed then Pow(B, n) / 2 else Pow(B, n)) - 1
  }

  /** Sets every limb to its maximum, the top one without its sign bit when the number is signed. */
  method SetMax(B: Base, values: array<nat>, signed: bool)
    requires 0 < values.Length && B % 2 == 0
    modifies values
    ensures IsLimbs(B, values[..]) && Val(B, values[..]) == MaxValue(B, values.Length, signed)
  {
    hide Pow, Val;
    Fill(values, 0, values.Length, B - 1);
    var n := values.Length - 1;
    ghost var low := values[..n];
    AllOnes(B, low);
    if signed { values[n] := B / 2 - 1; }
    assert values[..n] == low && values[..] == low + [values[n]];
    ValSnoc(B, low, values[n]);
    PowSucc(B, n);
    HalfOf(B / 2, Pow(B, n), B, values[n]);
  }

  lemma {:induction false} AllOnes(B: Base, s: seq<nat>)
    requires forall i :: 0 <= i < |s| ==> s[i] == B - 1
    ensures Val(B, s) == Pow(B, |s|) - 1
  {
    if |s| > 0 {
      AllOnes(B, s[1..]);
      MulDist(B, Pow(B, |s| - 1), -1);
    }
  }

  lemma HalfOf(h: nat, P: nat, B: nat, x: nat)
    requires B == 2 * h && 0 < P && 0 < h
    ensures (B * P) / 2 == h * P
    ensures x == h - 1 ==> P - 1 + x * P == h * P - 1
    ensures x == B - 1 ==> P - 1 + x * P == B * P - 1
  {
    assert B * P == 2 * (h * P);
    MulDist(P, h, -1);
    MulDist(P, B, -1);
  }

  method SetSmall(B: Base, values: array<nat>, x: nat)
    requires 0 < values.Length && x < B
    modifies values
    ensures IsLimbs(B, values[..]) && Val(B, values[..]) == x
  {
    Fill(values, 0, values.Length, 0);
    values[0] := x;
    SmallNumber(B, values[..], x);
  }

  /** values := values / other and remainder := values % other, for non-negative operands.  Division by
      zero leaves the maximum and the remainder 0.  The divisor may be the numerator itself. */
  method EvalDivideKnuth(B: Base, values: array<nat>, other: array<nat>, remainder: array?<nat>, signed: bool)
    requires B % 2 == 0 && 0 < values.Length == other.Length && IsLimbs(B, values[..]) && IsLimbs(B, other[..])
    requires remainder != null ==> remainder != values && remainder != other && remainder.Length == values.Length
    modifies values, if remainder != null then {remainder} else {}
    ensures IsLimbs(B, values[..]) && (remainder != null ==> IsLimbs(B, remainder[..]))
    ensures old(Val(B, other[..])) == 0 ==>
        Val(B, values[..]) == MaxValue(B, values.Length, signed)
        && (remainder != null ==> Val(B, remainder[..]) == 0)
    ensures old(Val(B, other[..])) != 0 ==>
        Val(B, values[..]) == old(Val(B, values[..])) / old(Val(B, other[..]))
        && (remainder != null ==> Val(B, remainder[..]) == old(Val(B, values[..])) % old(Val(B, other[..])))
  {
    hide Pow, Val, IsLimbs, SameOutside, LeadingZeros, MaxValue;
    ghost var x, y := Val(B, values[..]), Val(B, other[..]);
    var uOffset := CountLeadingZeros(values);
    var vOffset := CountLeadingZeros(other);
    Significant(B, values[..], uOffset, values.Length - uOffset);
    Significant(B, other[..], vOffset, other.Length - vOffset);
    if vOffset == other.Length {
      SetMax(B, values, signed);
      if remainder != null { SetSmall(B, remainder, 0); }
    } else if uOffset == values.Length {
      ModSmall(0, y);
      if remainder != null { SetSmall(B, remainder, 0); }
    } else {
      assert values[0..values.Length] == values[..] && other[0..other.Length] == other[..];
      var order := CompareRanges(B, values, 0, other, 0, values.Length);
      if order == -1 {
        ModSmall(x, y);
        if remainder != null {
          ghost var was := values[..];
          Copy(remainder, 0, values, 0, values.Length);
          assert remainder[..] == was;
        }
        SetSmall(B, values, 0);
      } else if order == 0 {
        DivModUnique(x, y, 1, 0);
        SetSmall(B, values, 1);
        if remainder != null { SetSmall(B, remainder, 0); }
      } else {
        ghost var worst := EvalDivideKnuthCore(B, values, uOffset, vOffset, other, remainder);
      }
    }
  }
}
