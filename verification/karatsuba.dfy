/** Karatsuba multiplication with a scratch area, in place: results, operands and scratch are ranges
    of limb storage that may all lie in one array.  For every limb count the procedure leaves in the result
    what the recursion of `KaratsubaRecursion` says. */
module Karatsuba {
  import opened Limbs
  import opened LimbDigits
  import opened KaratsubaRecursion
  import opened Kernels
  import opened Multiply

  /** An array changed at most in the result range and the scratch range. */
  ghost predicate Framed(x: array<nat>, now: seq<nat>, was: seq<nat>, r: array<nat>, ri: nat, rn: nat, t: array<nat>, ti: nat, tn: nat) {
    |now| == |was| && forall k :: 0 <= k < |now| && !(x == r && ri <= k < ri + rn) && !(x == t && ti <= k < ti + tn) ==> now[k] == was[k]
  }

  /** From the contents (r0, t0) to (r1, t1), the arrays r and t changed at most in those two ranges. */
  ghost predicate Only(r: array<nat>, t: array<nat>, r1: seq<nat>, t1: seq<nat>, r0: seq<nat>, t0: seq<nat>, ri: nat, rn: nat, ti: nat, tn: nat) {
    Framed(r, r1, r0, r, ri, rn, t, ti, tn) && Framed(t, t1, t0, r, ri, rn, t, ti, tn)
  }

  lemma OnlyTrans(r: array<nat>, t: array<nat>, r2: seq<nat>, t2: seq<nat>, r1: seq<nat>, t1: seq<nat>, r0: seq<nat>, t0: seq<nat>,
      ri: nat, rn: nat, ti: nat, tn: nat)
    requires Only(r, t, r2, t2, r1, t1, ri, rn, ti, tn) && Only(r, t, r1, t1, r0, t0, ri, rn, ti, tn)
    ensures Only(r, t, r2, t2, r0, t0, ri, rn, ti, tn)
  {}

  /** A step that changes one range of one array. */
  lemma OnlyStep(r: array<nat>, t: array<nat>, r1: seq<nat>, t1: seq<nat>, r0: seq<nat>, t0: seq<nat>,
      ri: nat, rn: nat, ti: nat, tn: nat, inR: bool, lo: nat, hi: nat)
    requires r == t ==> r1 == t1 && r0 == t0
    requires inR ==> SameOutside(r1, r0, lo, hi) && ri <= lo <= hi <= ri + rn && (r != t ==> t1 == t0)
    requires !inR ==> SameOutside(t1, t0, lo, hi) && ti <= lo <= hi <= ti + tn && (r != t ==> r1 == r0)
    ensures Only(r, t, r1, t1, r0, t0, ri, rn, ti, tn)
  {}

  /** A range of r or t, or of any other array x, that lies apart from both changed ranges keeps its limbs. */
  lemma Kept(x: array<nat>, x1: seq<nat>, x0: seq<nat>, r: array<nat>, t: array<nat>, r1: seq<nat>, t1: seq<nat>, r0: seq<nat>, t0: seq<nat>,
      ri: nat, rn: nat, ti: nat, tn: nat, lo: nat, hi: nat)
    requires lo <= hi <= |x1| == |x0| && Only(r, t, r1, t1, r0, t0, ri, rn, ti, tn)
    requires x == r ==> x1 == r1 && x0 == r0
    requires x == t ==> x1 == t1 && x0 == t0
    requires x != r && x != t ==> x1 == x0
    requires Apart(r, ri, rn, x, lo, hi - lo) && Apart(t, ti, tn, x, lo, hi - lo)
    ensures x1[lo..hi] == x0[lo..hi]
  {
    assert forall k :: lo <= k < hi ==> x1[k] == x0[k];
  }

  /** Result, operands and scratch of a product: both operands may overlap each other, nothing else. */
  predicate Layout(r: array<nat>, ri: nat, a: array<nat>, ai: nat, b: array<nat>, bi: nat, n: nat, t: array<nat>, ti: nat) {
    && ri + 2 * n <= r.Length && ai + n <= a.Length && bi + n <= b.Length && ti + 4 * n <= t.Length
    && Apart(r, ri, 2 * n, a, ai, n) && Apart(r, ri, 2 * n, b, bi, n) && Apart(r, ri, 2 * n, t, ti, 4 * n)
    && Apart(t, ti, 4 * n, a, ai, n) && Apart(t, ti, 4 * n, b, bi, n)
  }

  // ------------------------------------------------ adding at the middle

  /** Adds src[si..si+n) to the 2n limbs at r[ri..], at offset n/2, with the carry. */
  method AddMiddle(B: Base, r: array<nat>, ri: nat, n: nat, src: array<nat>, si: nat)
    requires ri + 2 * n <= r.Length && si + n <= src.Length && Apart(r, ri, 2 * n, src, si, n)
    requires IsLimbs(B, r[ri..ri + 2 * n]) && IsLimbs(B, src[si..si + n])
    modifies r
    ensures r[ri..ri + 2 * n] == AddAt(B, old(r[ri..ri + 2 * n]), n / 2, n + n / 2, old(Val(B, src[si..si + n])))
    ensures SameOutside(r[..], old(r[..]), ri, ri + 2 * n)
  {
    hide Pow, Val, IsLimbs, SameOutside, Mul, AddAt;
    var nh := n / 2;
    ghost var r0 := r[..];
    ghost var d: int := Val(B, src[si..si + n]);
    LimbsSlice(B, r0, ri, ri + 2 * n, ri + nh, ri + nh + n);
    LimbsSlice(B, r0, ri, ri + 2 * n, ri + n + nh, ri + n + 2 * nh);
    var carry := EvalAddN(B, r, ri + nh, r, ri + nh, src, si, n);
    MulDef(carry, Pow(B, n));
    ghost var r1 := r[..];
    SliceSame(r1, r0, ri + nh, ri + nh + n, ri + n + nh, ri + n + 2 * nh);
    PropagateCarry(B, r, ri + n + nh, nh, carry);
    MiddleDone(B, r0, r1, r[..], ri, n, nh, carry, d);
  }

  /** Subtracts src[si..si+n) there, with the borrow. */
  method SubtractMiddle(B: Base, r: array<nat>, ri: nat, n: nat, src: array<nat>, si: nat)
    requires ri + 2 * n <= r.Length && si + n <= src.Length && Apart(r, ri, 2 * n, src, si, n)
    requires IsLimbs(B, r[ri..ri + 2 * n]) && IsLimbs(B, src[si..si + n])
    modifies r
    ensures r[ri..ri + 2 * n] == AddAt(B, old(r[ri..ri + 2 * n]), n / 2, n + n / 2, 0 - old(Val(B, src[si..si + n])))
    ensures SameOutside(r[..], old(r[..]), ri, ri + 2 * n)
  {
    hide Pow, Val, IsLimbs, SameOutside, Mul, AddAt;
    var nh := n / 2;
    ghost var r0 := r[..];
    ghost var d: int := Val(B, src[si..si + n]);
    LimbsSlice(B, r0, ri, ri + 2 * n, ri + nh, ri + nh + n);
    LimbsSlice(B, r0, ri, ri + 2 * n, ri + n + nh, ri + n + 2 * nh);
    var borrow := EvalSubtractN(B, r, ri + nh, r, ri + nh, src, si, n);
    MulDef(if borrow then -1 else 0, Pow(B, n));
    ghost var r1 := r[..];
    SliceSame(r1, r0, ri + nh, ri + nh + n, ri + n + nh, ri + n + 2 * nh);
    PropagateBorrow(B, r, ri + n + nh, nh, borrow);
    MiddleDone(B, r0, r1, r[..], ri, n, nh, if borrow then -1 else 0, 0 - d);
  }

  /** Changing the middle by d modulo B^n and its carry c into the limbs above, as far as they reach, is
      changing both together by d. */
  lemma MiddleDone(B: Base, r0: seq<nat>, r1: seq<nat>, r2: seq<nat>, ri: nat, n: nat, nh: nat, c: int, d: int)
    requires nh == n / 2 && ri + 2 * n <= |r0| && SameOutside(r1, r0, ri + nh, ri + nh + n) && SameOutside(r2, r1, ri + n + nh, ri + n + 2 * nh)
    requires IsLimbs(B, r1[ri + nh..ri + nh + n]) && IsLimbs(B, r2[ri + n + nh..ri + n + 2 * nh])
    requires Val(B, r1[ri + nh..ri + nh + n]) + Mul(c, Pow(B, n)) == Val(B, r0[ri + nh..ri + nh + n]) + d
    requires Pow(B, nh) > 0 && Val(B, r2[ri + n + nh..ri + n + 2 * nh]) == (Val(B, r1[ri + n + nh..ri + n + 2 * nh]) + c) % Pow(B, nh)
    ensures SameOutside(r2, r0, ri, ri + 2 * n)
    ensures r2[ri..ri + 2 * n] == AddAt(B, r0[ri..ri + 2 * n], nh, n + nh, d)
  {
    hide Pow, Val, IsLimbs, SameOutside, Mul, AddAt;
    SameLength(r1, r0, ri + nh, ri + nh + n);
    SameLength(r2, r1, ri + n + nh, ri + n + 2 * nh);
    var m, h := r0[ri + nh..ri + nh + n], r0[ri + n + nh..ri + n + 2 * nh];
    var mid, top := r1[ri + nh..ri + nh + n], r2[ri + n + nh..ri + n + 2 * nh];
    SliceSame(r1, r0, ri + nh, ri + nh + n, ri + n + nh, ri + n + 2 * nh);
    MiddleDigits(B, m, h, mid, top, c, d);
    MiddleSlices(B, r0, r1, r2, ri, n, nh, d);
  }

  lemma SameLength(now: seq<nat>, was: seq<nat>, lo: nat, hi: nat)
    requires SameOutside(now, was, lo, hi)
    ensures |now| == |was|
  {}

  lemma MiddleDigits(B: Base, m: seq<nat>, h: seq<nat>, mid: seq<nat>, top: seq<nat>, c: int, d: int)
    requires |m| == |mid| && |h| == |top| && IsLimbs(B, mid) && IsLimbs(B, top)
    requires Val(B, mid) + Mul(c, Pow(B, |m|)) == Val(B, m) + d
    requires Pow(B, |h|) > 0 && Val(B, top) == (Val(B, h) + c) % Pow(B, |h|)
    ensures mid + top == Digits(B, |m| + |h|, Val(B, m + h) + d)
  {
    hide Pow, Val, IsLimbs, Digits;
    LimbsConcat(B, mid, top);
    ValCat(B, m, h, Pow(B, |m|));
    ValCat(B, mid, top, Pow(B, |m|));
    ValBound(B, mid);
    PowAdd(B, |m|, |h|);
    MiddleInt(Val(B, m), Val(B, h), Val(B, mid), Val(B, top), c, d, Pow(B, |m|), Pow(B, |h|));
    DigitsOf(B, mid + top, Val(B, m + h) + d);
  }

  lemma MiddleInt(m: int, h: int, m': int, t: int, c: int, d: int, N: int, X: int)
    requires 0 <= m' < N && X > 0 && m' + Mul(c, N) == m + d && t == (h + c) % X
    ensures N * X > 0 && m' + N * t == (m + N * h + d) % (N * X)
  {
    DivModSplit(h + c, X);
    var k := (h + c) / X;
    MulPos(N, X);
    MulDist(N, h, c);
    MulDist(N, k * X, t);
    MulAssoc(N, k, X);
    MulAssoc(k, N, X);
    MulLe(0, t, N);
    MulLe(t + 1, X, N);
    MulDist(N, t, 1);
    DivModUnique(m + N * h + d, N * X, k, m' + N * t);
  }

  lemma MiddleSlices(B: Base, r0: seq<nat>, r1: seq<nat>, r2: seq<nat>, ri: nat, n: nat, nh: nat, d: int)
    requires nh == n / 2 && ri + 2 * n <= |r0| && SameOutside(r1, r0, ri + nh, ri + nh + n) && SameOutside(r2, r1, ri + n + nh, ri + n + 2 * nh)
    requires r1[ri + nh..ri + nh + n] + r2[ri + n + nh..ri + n + 2 * nh]
          == Digits(B, n + nh, Val(B, r0[ri + nh..ri + nh + n] + r0[ri + n + nh..ri + n + 2 * nh]) + d)
    ensures SameOutside(r2, r0, ri, ri + 2 * n)
    ensures r2[ri..ri + 2 * n] == AddAt(B, r0[ri..ri + 2 * n], nh, n + nh, d)
  {
    hide Digits, Val, AddAt;
    var R, m, h := r0[ri..ri + 2 * n], r0[ri + nh..ri + nh + n], r0[ri + n + nh..ri + n + 2 * nh];
    MiddleOf(r0, ri, n, nh);
    var z := AddAt(B, R, nh, n + nh, d);
    forall k: nat | k < 2 * n ensures r2[ri..ri + 2 * n][k] == z[k] {
      AddAtLimb(B, R, nh, n + nh, d, k);
      assert !(n + nh <= k < n + 2 * nh) ==> r2[ri + k] == r1[ri + k];
      assert !(nh <= k < nh + n) ==> r1[ri + k] == r0[ri + k];
    }
  }

  lemma MiddleOf(r: seq<nat>, ri: nat, n: nat, nh: nat)
    requires nh == n / 2 && ri + 2 * n <= |r|
    ensures r[ri..ri + 2 * n][nh..nh + (n + nh)] == r[ri + nh..ri + nh + n] + r[ri + n + nh..ri + n + 2 * nh]
  {
    SliceOfSlice(r, ri, ri + 2 * n, nh, nh + (n + nh));
    var s, z := r[ri + nh..ri + n + 2 * nh], r[ri + nh..ri + nh + n] + r[ri + n + nh..ri + n + 2 * nh];
    forall k | 0 <= k < n + nh ensures s[k] == z[k] {}
  }

  lemma AddAtLimb(B: Base, s: seq<nat>, i: nat, count: nat, v: int, k: nat)
    requires i + count <= |s| && k < |s|
    ensures AddAt(B, s, i, count, v)[k] == if i <= k < i + count then Digits(B, count, Val(B, s[i..i + count]) + v)[k - i] else s[k]
  {
    hide Digits, Val;
  }

  // ----------------------------------------------------------- the algorithm

  /** t[ti..ti+nh) := |x - y|, left as it was when the two are equal; the result is the sign of x - y. */
  method AbsDifference(B: Base, t: array<nat>, ti: nat, x: array<nat>, xi: nat, yi: nat, nh: nat) returns (sign: int)
    requires ti + nh <= t.Length && xi + nh <= x.Length && yi + nh <= x.Length
    requires Apart(t, ti, nh, x, xi, nh) && Apart(t, ti, nh, x, yi, nh)
    requires IsLimbs(B, x[xi..xi + nh]) && IsLimbs(B, x[yi..yi + nh])
    modifies t
    ensures t[ti..ti + nh] == Gap(B, old(x[xi..xi + nh]), old(x[yi..yi + nh]), old(t[ti..ti + nh]))
    ensures sign == Sign(old(Val(B, x[xi..xi + nh])), old(Val(B, x[yi..yi + nh])))
    ensures SameOutside(t[..], old(t[..]), ti, ti + nh)
  {
    hide Pow, Val, Digits;
    ghost var u, v := x[xi..xi + nh], x[yi..yi + nh];
    sign := CompareRanges(B, x, xi, x, yi, nh);
    if sign == 1 {
      var borrow := EvalSubtractN(B, t, ti, x, xi, x, yi, nh);
      DistanceDigits(B, u, v, t[ti..ti + nh]);
    } else if sign == -1 {
      var borrow := EvalSubtractN(B, t, ti, x, yi, x, xi, nh);
      DistanceDigits(B, u, v, t[ti..ti + nh]);
    }
  }

  lemma DistanceDigits(B: Base, u: seq<nat>, v: seq<nat>, z: seq<nat>)
    requires |u| == |v| == |z| && IsLimbs(B, z) && Val(B, z) == Distance(Val(B, u), Val(B, v))
    ensures z == Digits(B, |u|, Distance(Val(B, u), Val(B, v)))
  {
    DigitsOfValue(B, z);
  }

  /** r[ri..] := the 2n limbs of the recursion for a[ai..] and b[bi..], with 4n limbs of scratch at t[ti..];
      the product for a limb count that halves evenly. */
  method EvalMultiplyKaraNByNTo2n(B: Base, r: array<nat>, ri: nat, a: array<nat>, ai: nat, b: array<nat>, bi: nat, n: nat, t: array<nat>, ti: nat)
    requires Layout(r, ri, a, ai, b, bi, n, t, ti)
    requires IsLimbs(B, a[ai..ai + n]) && IsLimbs(B, b[bi..bi + n]) && IsLimbs(B, r[ri..ri + 2 * n])
    modifies r, t
    ensures r[ri..ri + 2 * n] == Kara(B, n, old(r[ri..ri + 2 * n]), old(a[ai..ai + n]), old(b[bi..bi + n]))
    ensures IsLimbs(B, r[ri..ri + 2 * n])
    ensures KaraSize(n) ==> Val(B, r[ri..ri + 2 * n]) == old(Val(B, a[ai..ai + n])) * old(Val(B, b[bi..bi + n]))
    ensures Only(r, t, r[..], t[..], old(r[..]), old(t[..]), ri, 2 * n, ti, 4 * n)
    decreases n, 2
  {
    hide Kara, Digits, Val, Pow, IsLimbs, KaraSize, Only, SameOutside, Mul;
    ghost var A, C, R := a[ai..ai + n], b[bi..bi + n], r[ri..ri + 2 * n];
    KaraLimbs(B, n, R, A, C);
    if KaraSize(n) {
      KaraCorrect(B, n, R, A, C);
      MulDef(Val(B, A), Val(B, C));
    }
    if n <= CUTOFF {
      KaraSmall(B, n, R, A, C);
      EvalMultiplyNByNTo2n(B, r, ri, a, ai, b, bi, n);
      DigitsOfValue(B, r[ri..ri + 2 * n]);
      OnlyStep(r, t, r[..], t[..], old(r[..]), old(t[..]), ri, 2 * n, ti, 4 * n, true, ri, ri + 2 * n);
    } else {
      KaraSteps(B, r, ri, a, ai, b, bi, n, t, ti);
    }
  }

  lemma KaraSmall(B: Base, n: nat, r: seq<nat>, a: seq<nat>, b: seq<nat>)
    requires n <= CUTOFF && |r| == 2 * n && |a| == n == |b|
    ensures Kara(B, n, r, a, b) == Digits(B, 2 * n, Val(B, a) * Val(B, b))
  {
    hide Digits, Val;
  }

  lemma KaraLarge(B: Base, n: nat, r: seq<nat>, a: seq<nat>, b: seq<nat>, s: seq<nat>)
    requires n > CUTOFF && |r| == 2 * n && |a| == n == |b| && s == KaraHalves(B, n, r, a, b)
    ensures Kara(B, n, r, a, b) == Finish(B, n, s, CrossProduct(B, n, s, a, b), CrossSign(B, a, b))
  {
    hide Digits, Val, KaraHalves, CrossProduct, Finish, CrossSign;
  }

  /** The six steps, above the cutoff. */
  method KaraSteps(B: Base, r: array<nat>, ri: nat, a: array<nat>, ai: nat, b: array<nat>, bi: nat, n: nat, t: array<nat>, ti: nat)
    requires n > CUTOFF && Layout(r, ri, a, ai, b, bi, n, t, ti)
    requires IsLimbs(B, a[ai..ai + n]) && IsLimbs(B, b[bi..bi + n]) && IsLimbs(B, r[ri..ri + 2 * n])
    modifies r, t
    ensures r[ri..ri + 2 * n] == Kara(B, n, old(r[ri..ri + 2 * n]), old(a[ai..ai + n]), old(b[bi..bi + n]))
    ensures Only(r, t, r[..], t[..], old(r[..]), old(t[..]), ri, 2 * n, ti, 4 * n)
    decreases n, 1
  {
    hide Kara, KaraHalves, CrossProduct, CrossSign, Finish, MiddleSum, Val, IsLimbs, Only, SameOutside;
    ghost var A, C, R, as0, bs0, rs0, ts0 := a[ai..ai + n], b[bi..bi + n], r[ri..ri + 2 * n], a[..], b[..], r[..], t[..];
    ghost var s := KaraHalves(B, n, R, A, C);
    KaraSum(B, r, ri, a, ai, b, bi, n, t, ti);
    ghost var rs1, ts1 := r[..], t[..];
    Kept(a, a[..], as0, r, t, rs1, ts1, rs0, ts0, ri, 2 * n, ti, 4 * n, ai, ai + n);
    Kept(b, b[..], bs0, r, t, rs1, ts1, rs0, ts0, ri, 2 * n, ti, 4 * n, bi, bi + n);
    KaraComplete(B, r, ri, a, ai, b, bi, n, t, ti, s);
    KaraLarge(B, n, R, A, C, s);
    OnlyTrans(r, t, r[..], t[..], rs1, ts1, rs0, ts0, ri, 2 * n, ti, 4 * n);
  }

  /** Steps 3 to 6, from the sum of the half products to the result. */
  method KaraComplete(B: Base, r: array<nat>, ri: nat, a: array<nat>, ai: nat, b: array<nat>, bi: nat, n: nat, t: array<nat>, ti: nat, ghost s: seq<nat>)
    requires n > CUTOFF && Layout(r, ri, a, ai, b, bi, n, t, ti)
    requires IsLimbs(B, a[ai..ai + n]) && IsLimbs(B, b[bi..bi + n]) && IsLimbs(B, r[ri..ri + 2 * n]) && IsLimbs(B, s)
    requires |s| == 2 * n && r[ri..ri + 2 * n] == MiddleSum(B, n, s) && t[ti..ti + 2 * n] == s
    modifies r, t
    ensures var A, C := old(a[ai..ai + n]), old(b[bi..bi + n]);
      r[ri..ri + 2 * n] == Finish(B, n, s, CrossProduct(B, n, s, A, C), CrossSign(B, A, C))
    ensures Only(r, t, r[..], t[..], old(r[..]), old(t[..]), ri, 2 * n, ti, 4 * n)
    decreases n, 0, 4
  {
    hide Kara, CrossProduct, CrossSign, Finish, MiddleSum, Val, IsLimbs, Only, SameOutside;
    ghost var A, C, rs1, ts1 := a[ai..ai + n], b[bi..bi + n], r[..], t[..];
    var sign := KaraCrossApart(B, r, ri, a, ai, b, bi, n, t, ti, s);
    ghost var rs2, ts2 := r[..], t[..];
    KaraFinish(B, r, ri, n, t, ti + n, sign, s, CrossProduct(B, n, s, A, C));
    OnlyStep(r, t, r[..], t[..], rs2, ts2, ri, 2 * n, ti, 4 * n, true, ri, ri + 2 * n);
    OnlyTrans(r, t, r[..], t[..], rs2, ts2, rs1, ts1, ri, 2 * n, ti, 4 * n);
  }

  /** Steps 3 to 5 leave the result alone. */
  method KaraCrossApart(B: Base, r: array<nat>, ri: nat, a: array<nat>, ai: nat, b: array<nat>, bi: nat, n: nat, t: array<nat>, ti: nat, ghost s: seq<nat>)
    returns (sign: int)
    requires n > CUTOFF && Layout(r, ri, a, ai, b, bi, n, t, ti)
    requires IsLimbs(B, a[ai..ai + n]) && IsLimbs(B, b[bi..bi + n]) && t[ti..ti + 2 * n] == s && IsLimbs(B, s)
    modifies t
    ensures -1 <= sign <= 1 && sign == CrossSign(B, old(a[ai..ai + n]), old(b[bi..bi + n]))
    ensures t[ti + n..ti + n + n] == CrossProduct(B, n, s, old(a[ai..ai + n]), old(b[bi..bi + n])) + s[n + 2 * (n / 2)..]
    ensures IsLimbs(B, t[ti + n..ti + n + n]) && r[ri..ri + 2 * n] == old(r[ri..ri + 2 * n])
    ensures Only(r, t, r[..], t[..], old(r[..]), old(t[..]), ri, 2 * n, ti, 4 * n)
    decreases n, 0, 2
  {
    hide Kara, CrossProduct, CrossSign, Val, IsLimbs, Only, SameOutside;
    ghost var rs1, ts1 := r[..], t[..];
    sign := KaraCross(B, a, ai, b, bi, n, t, ti, s);
    OnlyStep(r, t, r[..], t[..], rs1, ts1, ri, 2 * n, ti, 4 * n, false, ti, ti + 4 * n);
    SliceSameOrOther(r, t, r[..], t[..], rs1, ts1, ti, ti + 4 * n, ri, ri + 2 * n);
  }

  /** Step 6: adds or subtracts the cross product, or leaves the result alone. */
  method KaraFinish(B: Base, r: array<nat>, ri: nat, n: nat, t: array<nat>, si: nat, sign: int, ghost s: seq<nat>, ghost q: seq<nat>)
    requires ri + 2 * n <= r.Length && si + n <= t.Length && Apart(r, ri, 2 * n, t, si, n)
    requires |s| == 2 * n && |q| == 2 * (n / 2) && IsLimbs(B, r[ri..ri + 2 * n]) && IsLimbs(B, t[si..si + n]) && -1 <= sign <= 1
    requires r[ri..ri + 2 * n] == MiddleSum(B, n, s) && t[si..si + n] == q + s[n + 2 * (n / 2)..]
    modifies r
    ensures r[ri..ri + 2 * n] == Finish(B, n, s, q, sign)
    ensures SameOutside(r[..], old(r[..]), ri, ri + 2 * n)
  {
    hide Val, MiddleSum, IsLimbs, Digits, AddAt;
    if sign == 1 {
      AddMiddle(B, r, ri, n, t, si);
    } else if sign == -1 {
      SubtractMiddle(B, r, ri, n, t, si);
    } else {
      AddNothing(B, r[ri..ri + 2 * n], n / 2, n + n / 2);
    }
  }

  lemma AddNothing(B: Base, s: seq<nat>, i: nat, count: nat)
    requires i + count <= |s| && IsLimbs(B, s)
    ensures AddAt(B, s, i, count, 0) == s
  {
    hide Digits;
    LimbsPart(B, s, i, i + count);
    DigitsOfValue(B, s[i..i + count]);
    assert s == s[..i] + s[i..i + count] + s[i + count..];
  }

  /** Steps 1 and 2: the products of the halves, added at the middle; the scratch keeps the halves. */
  method KaraSum(B: Base, r: array<nat>, ri: nat, a: array<nat>, ai: nat, b: array<nat>, bi: nat, n: nat, t: array<nat>, ti: nat)
    requires n > CUTOFF && Layout(r, ri, a, ai, b, bi, n, t, ti)
    requires IsLimbs(B, a[ai..ai + n]) && IsLimbs(B, b[bi..bi + n]) && IsLimbs(B, r[ri..ri + 2 * n])
    modifies r, t
    ensures var s := KaraHalves(B, n, old(r[ri..ri + 2 * n]), old(a[ai..ai + n]), old(b[bi..bi + n]));
      r[ri..ri + 2 * n] == MiddleSum(B, n, s) && t[ti..ti + 2 * n] == s && IsLimbs(B, s) && IsLimbs(B, r[ri..ri + 2 * n])
    ensures Only(r, t, r[..], t[..], old(r[..]), old(t[..]), ri, 2 * n, ti, 4 * n)
    decreases n, 0, 3
  {
    hide Kara, KaraHalves, MiddleSum, Val, IsLimbs, Only, SameOutside, AddAt;
    ghost var A, C, R, rs0, ts0 := a[ai..ai + n], b[bi..bi + n], r[ri..ri + 2 * n], r[..], t[..];
    KaraLimbs(B, n, R, A, C);
    KaraProducts(B, r, ri, a, ai, b, bi, n, n / 2, t, ti);
    ghost var rs1, ts1 := r[..], t[..];
    KaraAddHalves(B, r, ri, n, t, ti);
    OnlyTrans(r, t, r[..], t[..], rs1, ts1, rs0, ts0, ri, 2 * n, ti, 4 * n);
  }

  /** Step 2: copies the result to the scratch and adds both of its halves to its middle. */
  method KaraAddHalves(B: Base, r: array<nat>, ri: nat, n: nat, t: array<nat>, ti: nat)
    requires ri + 2 * n <= r.Length && ti + 4 * n <= t.Length && Apart(r, ri, 2 * n, t, ti, 4 * n) && IsLimbs(B, r[ri..ri + 2 * n])
    modifies r, t
    ensures r[ri..ri + 2 * n] == MiddleSum(B, n, old(r[ri..ri + 2 * n])) && t[ti..ti + 2 * n] == old(r[ri..ri + 2 * n])
    ensures IsLimbs(B, r[ri..ri + 2 * n])
    ensures Only(r, t, r[..], t[..], old(r[..]), old(t[..]), ri, 2 * n, ti, 4 * n)
  {
    hide Val, IsLimbs, SameOutside, Only, AddAt;
    ghost var rs0, ts0, s := r[..], t[..], r[ri..ri + 2 * n];
    Copy(t, ti, r, ri, 2 * n);
    ghost var rs1, ts1 := r[..], t[..];
    OnlyStep(r, t, rs1, ts1, rs0, ts0, ri, 2 * n, ti, 4 * n, false, ti, ti + 2 * n);
    SliceSameOrOther(r, t, rs1, ts1, rs0, ts0, ti, ti + 2 * n, ri, ri + 2 * n);
    AddHalf(B, r, ri, n, t, ti, true, s);
    ghost var rs2, ts2 := r[..], t[..];
    AddHalf(B, r, ri, n, t, ti, false, s);
    OnlyTrans(r, t, rs2, ts2, rs1, ts1, rs0, ts0, ri, 2 * n, ti, 4 * n);
    OnlyTrans(r, t, r[..], t[..], rs2, ts2, rs0, ts0, ri, 2 * n, ti, 4 * n);
  }

  /** Adds the upper or the lower half of s, which stands at t[ti..], to the middle of the result. */
  method AddHalf(B: Base, r: array<nat>, ri: nat, n: nat, t: array<nat>, ti: nat, upper: bool, ghost s: seq<nat>)
    requires ri + 2 * n <= r.Length && ti + 4 * n <= t.Length && Apart(r, ri, 2 * n, t, ti, 4 * n) && IsLimbs(B, r[ri..ri + 2 * n])
    requires |s| == 2 * n && t[ti..ti + 2 * n] == s && IsLimbs(B, s)
    modifies r
    ensures r[ri..ri + 2 * n] == AddAt(B, old(r[ri..ri + 2 * n]), n / 2, n + n / 2, Val(B, if upper then s[n..] else s[..n]))
    ensures IsLimbs(B, r[ri..ri + 2 * n]) && t[ti..ti + 2 * n] == s
    ensures Only(r, t, r[..], t[..], old(r[..]), old(t[..]), ri, 2 * n, ti, 4 * n)
  {
    hide Val, IsLimbs, SameOutside, Only, AddAt;
    ghost var rs0, ts0 := r[..], t[..];
    CopiedHalves(B, ts0, ti, s, n);
    AddAtLimbs(B, r[ri..ri + 2 * n], n / 2, n + n / 2, Val(B, if upper then s[n..] else s[..n]));
    AddMiddle(B, r, ri, n, t, if upper then ti + n else ti);
    OnlyStep(r, t, r[..], t[..], rs0, ts0, ri, 2 * n, ti, 4 * n, true, ri, ri + 2 * n);
    SliceSameOrOther(t, r, t[..], r[..], ts0, rs0, ri, ri + 2 * n, ti, ti + 2 * n);
  }

  lemma CopiedHalves(B: Base, t: seq<nat>, ti: nat, s: seq<nat>, n: nat)
    requires |s| == 2 * n && ti + 2 * n <= |t| && t[ti..ti + 2 * n] == s && IsLimbs(B, s)
    ensures t[ti..ti + n] == s[..n] && t[ti + n..ti + n + n] == s[n..] && IsLimbs(B, s[..n]) && IsLimbs(B, s[n..])
  {
    SliceOfSlice(t, ti, ti + 2 * n, 0, n);
    SliceOfSlice(t, ti, ti + 2 * n, n, 2 * n);
  }

  /** After a step that changed only the range lo..hi of y, a range of x apart from it is as before. */
  lemma SliceSameOrOther(x: array<nat>, y: array<nat>, x1: seq<nat>, y1: seq<nat>, x0: seq<nat>, y0: seq<nat>, lo: nat, hi: nat, i: nat, j: nat)
    requires i <= j <= |x1| == |x0| && SameOutside(y1, y0, lo, hi)
    requires if x == y then x1 == y1 && x0 == y0 && (j <= lo || hi <= i) else x1 == x0
    ensures x1[i..j] == x0[i..j]
  {
    if x == y { SliceSame(y1, y0, lo, hi, i, j); }
  }

  /** Step 1: the products of the low and of the high halves, side by side. */
  method KaraProducts(B: Base, r: array<nat>, ri: nat, a: array<nat>, ai: nat, b: array<nat>, bi: nat, n: nat, nh: nat, t: array<nat>, ti: nat)
    requires n > CUTOFF && nh == n / 2 && Layout(r, ri, a, ai, b, bi, n, t, ti)
    requires IsLimbs(B, a[ai..ai + n]) && IsLimbs(B, b[bi..bi + n]) && IsLimbs(B, r[ri..ri + 2 * n])
    modifies r, t
    ensures r[ri..ri + 2 * n] == KaraHalves(B, n, old(r[ri..ri + 2 * n]), old(a[ai..ai + n]), old(b[bi..bi + n]))
    ensures Only(r, t, r[..], t[..], old(r[..]), old(t[..]), ri, 2 * n, ti, 4 * n)
    decreases n, 0, 2
  {
    hide Kara, KaraHalves, Halves, Val, IsLimbs, Only, SameOutside, Low, High, Layout, Apart;
    HalfLayouts(r, ri, a, ai, b, bi, n, t, ti);
    ghost var A, C, R, rs0, ts0 := a[ai..ai + n], b[bi..bi + n], r[ri..ri + 2 * n], r[..], t[..];
    ResultParts(B, rs0, ri, n);
    KaraHigh(B, r, ri, a, ai, b, bi, n, nh, t, ti);
    ghost var rs1, ts1 := r[..], t[..];
    Kept(r, rs1, rs0, r, t, rs1, ts1, rs0, ts0, ri + n, 2 * nh, ti, 4 * nh, ri, ri + 2 * nh);
    LowProduct(B, r, ri, a, ai, b, bi, n, nh, t, ti);
    Assembled(r, t, r[..], t[..], rs1, ts1, rs0, ts0, ri, n, nh, ti, R, r[ri..ri + 2 * nh], rs1[ri + n..ri + n + 2 * nh]);
    KaraHalvesIs(B, n, R, A, C);
  }

  /** The product of the high halves. */
  method HighProduct(B: Base, r: array<nat>, ri: nat, a: array<nat>, ai: nat, b: array<nat>, bi: nat, n: nat, nh: nat, t: array<nat>, ti: nat)
    requires nh < n && nh == n / 2 && ri + 2 * n <= r.Length && ai + n <= a.Length && bi + n <= b.Length && ti + 4 * nh <= t.Length
    requires Layout(r, ri + n, a, ai + nh, b, bi + nh, nh, t, ti)
    requires IsLimbs(B, a[ai..ai + n]) && IsLimbs(B, b[bi..bi + n]) && IsLimbs(B, r[ri + n..ri + n + 2 * nh])
    modifies r, t
    ensures r[ri + n..ri + n + 2 * nh]
         == Kara(B, nh, old(r[ri + n..ri + n + 2 * nh]), High(old(a[ai..ai + n])), High(old(b[bi..bi + n])))
    ensures Only(r, t, r[..], t[..], old(r[..]), old(t[..]), ri + n, 2 * nh, ti, 4 * nh)
    decreases n, 0, 0
  {
    hide Kara, Val, IsLimbs, Only, SameOutside, Low, High, Layout, Apart;
    Parts(B, a[..], ai, n);
    Parts(B, b[..], bi, n);
    EvalMultiplyKaraNByNTo2n(B, r, ri + n, a, ai + nh, b, bi + nh, nh, t, ti);
  }

  /** The same, and the operands, which lie apart from what it writes, stay. */
  method KaraHigh(B: Base, r: array<nat>, ri: nat, a: array<nat>, ai: nat, b: array<nat>, bi: nat, n: nat, nh: nat, t: array<nat>, ti: nat)
    requires nh < n && nh == n / 2 && ri + 2 * n <= r.Length && ai + n <= a.Length && bi + n <= b.Length && ti + 4 * nh <= t.Length
    requires Layout(r, ri + n, a, ai + nh, b, bi + nh, nh, t, ti)
    requires Apart(r, ri + n, 2 * nh, a, ai, n) && Apart(t, ti, 4 * nh, a, ai, n)
    requires Apart(r, ri + n, 2 * nh, b, bi, n) && Apart(t, ti, 4 * nh, b, bi, n)
    requires IsLimbs(B, a[ai..ai + n]) && IsLimbs(B, b[bi..bi + n]) && IsLimbs(B, r[ri + n..ri + n + 2 * nh])
    modifies r, t
    ensures r[ri + n..ri + n + 2 * nh]
         == Kara(B, nh, old(r[ri + n..ri + n + 2 * nh]), High(old(a[ai..ai + n])), High(old(b[bi..bi + n])))
    ensures a[ai..ai + n] == old(a[ai..ai + n]) && b[bi..bi + n] == old(b[bi..bi + n])
    ensures Only(r, t, r[..], t[..], old(r[..]), old(t[..]), ri + n, 2 * nh, ti, 4 * nh)
    decreases n, 0, 1
  {
    hide Kara, Val, IsLimbs, Only, SameOutside, Low, High, Layout, Apart;
    ghost var as0, bs0, rs0, ts0 := a[..], b[..], r[..], t[..];
    HighProduct(B, r, ri, a, ai, b, bi, n, nh, t, ti);
    ghost var rs1, ts1 := r[..], t[..];
    ghost var as1, bs1 := a[..], b[..];
    Kept(a, as1, as0, r, t, rs1, ts1, rs0, ts0, ri + n, 2 * nh, ti, 4 * nh, ai, ai + n);
    Kept(b, bs1, bs0, r, t, rs1, ts1, rs0, ts0, ri + n, 2 * nh, ti, 4 * nh, bi, bi + n);
  }

  /** The product of the low halves. */
  method LowProduct(B: Base, r: array<nat>, ri: nat, a: array<nat>, ai: nat, b: array<nat>, bi: nat, n: nat, nh: nat, t: array<nat>, ti: nat)
    requires nh < n && nh == n / 2 && ri + 2 * n <= r.Length && ai + n <= a.Length && bi + n <= b.Length && ti + 4 * nh <= t.Length
    requires Layout(r, ri, a, ai, b, bi, nh, t, ti)
    requires IsLimbs(B, a[ai..ai + n]) && IsLimbs(B, b[bi..bi + n]) && IsLimbs(B, r[ri..ri + 2 * nh])
    modifies r, t
    ensures r[ri..ri + 2 * nh] == Kara(B, nh, old(r[ri..ri + 2 * nh]), Low(old(a[ai..ai + n])), Low(old(b[bi..bi + n])))
    ensures Only(r, t, r[..], t[..], old(r[..]), old(t[..]), ri, 2 * nh, ti, 4 * nh)
    decreases n, 0, 0
  {
    hide Kara, Val, IsLimbs, Only, SameOutside, Low, High, Layout, Apart;
    Parts(B, a[..], ai, n);
    Parts(B, b[..], bi, n);
    EvalMultiplyKaraNByNTo2n(B, r, ri, a, ai, b, bi, nh, t, ti);
  }

  /** The layouts of the two half products, and what lies apart from the first. */
  lemma HalfLayouts(r: array<nat>, ri: nat, a: array<nat>, ai: nat, b: array<nat>, bi: nat, n: nat, t: array<nat>, ti: nat)
    requires n > 0 && Layout(r, ri, a, ai, b, bi, n, t, ti)
    ensures ri + 2 * n <= r.Length && ai + n <= a.Length && bi + n <= b.Length && ti + 4 * n <= t.Length
    ensures var nh := n / 2;
      && 2 * nh <= n && nh < n && Layout(r, ri + n, a, ai + nh, b, bi + nh, nh, t, ti) && Layout(r, ri, a, ai, b, bi, nh, t, ti)
      && Apart(r, ri + n, 2 * nh, a, ai, n) && Apart(t, ti, 4 * nh, a, ai, n)
      && Apart(r, ri + n, 2 * nh, b, bi, n) && Apart(t, ti, 4 * nh, b, bi, n)
      && Apart(r, ri + n, 2 * nh, r, ri, 2 * nh) && Apart(t, ti, 4 * nh, r, ri, 2 * nh)
      && Apart(r, ri, 2 * n, t, ti, 4 * n)
  {}

  /** The halves of an operand are ranges of its limbs. */
  lemma Parts(B: Base, a: seq<nat>, ai: nat, n: nat)
    requires ai + n <= |a| && IsLimbs(B, a[ai..ai + n])
    ensures Low(a[ai..ai + n]) == a[ai..ai + n / 2] && High(a[ai..ai + n]) == a[ai + n / 2..ai + n / 2 + n / 2]
    ensures IsLimbs(B, a[ai..ai + n / 2]) && IsLimbs(B, a[ai + n / 2..ai + n / 2 + n / 2])
  {
    hide IsLimbs;
    PartsAt(B, a, ai, n, n / 2);
  }

  lemma PartsAt(B: Base, a: seq<nat>, ai: nat, n: nat, nh: nat)
    requires nh + nh <= n && ai + n <= |a| && IsLimbs(B, a[ai..ai + n])
    ensures a[ai..ai + n][..nh] == a[ai..ai + nh] && a[ai..ai + n][nh..nh + nh] == a[ai + nh..ai + nh + nh]
    ensures IsLimbs(B, a[ai..ai + nh]) && IsLimbs(B, a[ai + nh..ai + nh + nh])
  {
    hide IsLimbs;
    SliceOfSlice(a, ai, ai + n, 0, nh);
    SliceOfSlice(a, ai, ai + n, nh, nh + nh);
    LimbsSlice(B, a, ai, ai + n, ai, ai + nh);
    LimbsSlice(B, a, ai, ai + n, ai + nh, ai + nh + nh);
  }

  lemma ResultParts(B: Base, r: seq<nat>, ri: nat, n: nat)
    requires ri + 2 * n <= |r| && IsLimbs(B, r[ri..ri + 2 * n])
    ensures var R, nh := r[ri..ri + 2 * n], n / 2;
      && R[..2 * nh] == r[ri..ri + 2 * nh] && R[n..n + 2 * nh] == r[ri + n..ri + n + 2 * nh]
      && IsLimbs(B, r[ri..ri + 2 * nh]) && IsLimbs(B, r[ri + n..ri + n + 2 * nh])
  {
    LimbsSlice(B, r, ri, ri + 2 * n, ri, ri + 2 * (n / 2));
    LimbsSlice(B, r, ri, ri + 2 * n, ri + n, ri + n + 2 * (n / 2));
  }

  /** The result after the two products, with the stale limbs between and above them. */
  lemma Assembled(r: array<nat>, t: array<nat>, rs2: seq<nat>, ts2: seq<nat>, rs1: seq<nat>, ts1: seq<nat>, rs0: seq<nat>, ts0: seq<nat>,
      ri: nat, n: nat, nh: nat, ti: nat, R: seq<nat>, low: seq<nat>, high: seq<nat>)
    requires nh == n / 2 && ri + 2 * n <= |rs2| == |rs1| == |rs0| && Apart(r, ri, 2 * n, t, ti, 4 * n) && R == rs0[ri..ri + 2 * n]
    requires Only(r, t, rs1, ts1, rs0, ts0, ri + n, 2 * nh, ti, 4 * nh) && Only(r, t, rs2, ts2, rs1, ts1, ri, 2 * nh, ti, 4 * nh)
    requires low == rs2[ri..ri + 2 * nh] && high == rs1[ri + n..ri + n + 2 * nh]
    ensures rs2[ri..ri + 2 * n] == Halves(n, R, low, high)
    ensures Only(r, t, rs2, ts2, rs0, ts0, ri, 2 * n, ti, 4 * n)
  {
    var z := Halves(n, R, low, high);
    forall k: nat | k < 2 * n ensures rs2[ri..ri + 2 * n][k] == z[k] {
      HalvesAt(n, R, low, high, k);
      assert !(k < 2 * nh) ==> rs2[ri + k] == rs1[ri + k];
      assert !(n <= k < n + 2 * nh) ==> rs1[ri + k] == rs0[ri + k];
    }
  }

  lemma HalvesAt(n: nat, r: seq<nat>, low: seq<nat>, high: seq<nat>, k: nat)
    requires |r| == 2 * n && |low| == |high| == 2 * (n / 2) && k < 2 * n
    ensures Halves(n, r, low, high)[k]
         == if k < |low| then low[k] else if n <= k < n + |high| then high[k - n] else r[k]
  {}

  /** Steps 3 to 5: |a1 - a0| * |b0 - b1| into the third and fourth quarter of the scratch, which holds s in
      its lower half; the result is the sign of (a1 - a0) * (b0 - b1). */
  method KaraCross(B: Base, a: array<nat>, ai: nat, b: array<nat>, bi: nat, n: nat, t: array<nat>, ti: nat, ghost s: seq<nat>) returns (sign: int)
    requires n > CUTOFF && ai + n <= a.Length && bi + n <= b.Length && ti + 4 * n <= t.Length
    requires Apart(t, ti, 4 * n, a, ai, n) && Apart(t, ti, 4 * n, b, bi, n)
    requires IsLimbs(B, a[ai..ai + n]) && IsLimbs(B, b[bi..bi + n]) && t[ti..ti + 2 * n] == s && IsLimbs(B, s)
    modifies t
    ensures -1 <= sign <= 1 && sign == CrossSign(B, old(a[ai..ai + n]), old(b[bi..bi + n]))
    ensures t[ti + n..ti + n + n] == CrossProduct(B, n, s, old(a[ai..ai + n]), old(b[bi..bi + n])) + s[n + 2 * (n / 2)..]
    ensures IsLimbs(B, t[ti + n..ti + n + n])
    ensures SameOutside(t[..], old(t[..]), ti, ti + 4 * n)
    decreases n, 0, 1
  {
    hide Kara, CrossProduct, CrossSign, Val, IsLimbs, Only, SameOutside, Low, High, Gap, Mul, Sign;
    var nh := n / 2;
    ghost var ts0, A, C := t[..], a[ai..ai + n], b[bi..bi + n];
    var signA, signB := KaraDifferences(B, a, ai, b, bi, n, n / 2, t, ti, s);
    SignRange(Val(B, High(A)), Val(B, Low(A)));
    SignRange(Val(B, Low(C)), Val(B, High(C)));
    ghost var ts1 := t[..];
    CrossPlace(B, ts1, ts0, ti, n, s);
    CrossMultiply(B, n, nh, t, ti);
    CrossProductIs(B, n, s, A, C);
    CrossPlaced(B, t, t[..], ts1, ts0, ti, n, s);
    sign := signA * signB;
    CrossSigns(signA, signB);
  }

  /** Step 5: the product of the two differences that stand at t[ti..]. */
  method CrossMultiply(B: Base, n: nat, nh: nat, t: array<nat>, ti: nat)
    requires nh < n && nh == n / 2 && ti + 4 * n <= t.Length
    requires IsLimbs(B, t[ti..ti + nh]) && IsLimbs(B, t[ti + nh..ti + nh + nh]) && IsLimbs(B, t[ti + n..ti + n + 2 * nh])
    modifies t
    ensures t[ti + n..ti + n + 2 * nh]
         == Kara(B, nh, old(t[ti + n..ti + n + 2 * nh]), old(t[ti..ti + nh]), old(t[ti + nh..ti + nh + nh]))
    ensures IsLimbs(B, t[ti + n..ti + n + 2 * nh])
    ensures Only(t, t, t[..], t[..], old(t[..]), old(t[..]), ti + n, 2 * nh, ti + 2 * n, 4 * nh)
    decreases n, 0, 0
  {
    hide Kara, IsLimbs, Only;
    EvalMultiplyKaraNByNTo2n(B, t, ti + n, t, ti, t, ti + nh, nh, t, ti + 2 * n);
  }

  lemma SignRange(x: int, y: int)
    ensures -1 <= Sign(x, y) <= 1
  {}

  lemma CrossSigns(x: int, y: int)
    requires -1 <= x <= 1 && -1 <= y <= 1
    ensures x * y == Mul(x, y) && -1 <= Mul(x, y) <= 1
  {}

  /** The place of the cross product still holds the upper half of s. */
  lemma CrossPlace(B: Base, t1: seq<nat>, t0: seq<nat>, ti: nat, n: nat, s: seq<nat>)
    requires |s| == 2 * n && ti + 4 * n <= |t0| && t0[ti..ti + 2 * n] == s && IsLimbs(B, s)
    requires SameOutside(t1, t0, ti, ti + n / 2 + n / 2)
    ensures |t1| == |t0| && t1[ti + n..ti + n + 2 * (n / 2)] == s[n..n + 2 * (n / 2)] && IsLimbs(B, s[n..n + 2 * (n / 2)])
  {
    SliceSame(t1, t0, ti, ti + n / 2 + n / 2, ti + n, ti + n + 2 * (n / 2));
    SliceOfSlice(t0, ti, ti + 2 * n, n, n + 2 * (n / 2));
    LimbsPart(B, s, n, n + 2 * (n / 2));
  }

  /** Above the cross product stands what was there before. */
  lemma CrossPlaced(B: Base, t: array<nat>, t2: seq<nat>, t1: seq<nat>, t0: seq<nat>, ti: nat, n: nat, s: seq<nat>)
    requires |s| == 2 * n && ti + 4 * n <= |t0| && t0[ti..ti + 2 * n] == s && IsLimbs(B, s)
    requires SameOutside(t1, t0, ti, ti + n / 2 + n / 2)
    requires Only(t, t, t2, t2, t1, t1, ti + n, 2 * (n / 2), ti + 2 * n, 4 * (n / 2))
    requires |t2| == |t0| && IsLimbs(B, t2[ti + n..ti + n + 2 * (n / 2)])
    ensures SameOutside(t2, t0, ti, ti + 4 * n)
    ensures t2[ti + n..ti + n + n] == t2[ti + n..ti + n + 2 * (n / 2)] + s[n + 2 * (n / 2)..]
    ensures IsLimbs(B, t2[ti + n..ti + n + n])
  {
    var z := t2[ti + n..ti + n + 2 * (n / 2)] + s[n + 2 * (n / 2)..];
    forall k | 0 <= k < n ensures t2[ti + n..ti + n + n][k] == z[k] {
      if 2 * (n / 2) <= k { assert t2[ti + n + k] == t0[ti + n + k] == t0[ti..ti + 2 * n][n + k]; }
    }
  }

  /** Steps 3 and 4: |a1 - a0| and |b0 - b1| side by side in the scratch, with their signs. */
  method KaraDifferences(B: Base, a: array<nat>, ai: nat, b: array<nat>, bi: nat, n: nat, nh: nat, t: array<nat>, ti: nat, ghost s: seq<nat>)
    returns (signA: int, signB: int)
    requires nh == n / 2 && ai + n <= a.Length && bi + n <= b.Length && ti + 4 * n <= t.Length
    requires Apart(t, ti, 4 * n, a, ai, n) && Apart(t, ti, 4 * n, b, bi, n)
    requires IsLimbs(B, a[ai..ai + n]) && IsLimbs(B, b[bi..bi + n]) && t[ti..ti + 2 * n] == s && IsLimbs(B, s)
    modifies t
    ensures var A, C := old(a[ai..ai + n]), old(b[bi..bi + n]);
      && t[ti..ti + nh] == Gap(B, High(A), Low(A), s[..nh]) && IsLimbs(B, t[ti..ti + nh])
      && t[ti + nh..ti + nh + nh] == Gap(B, Low(C), High(C), s[nh..2 * nh]) && IsLimbs(B, t[ti + nh..ti + nh + nh])
      && signA == Sign(Val(B, High(A)), Val(B, Low(A))) && signB == Sign(Val(B, Low(C)), Val(B, High(C)))
    ensures SameOutside(t[..], old(t[..]), ti, ti + nh + nh)
  {
    hide Pow, Val, IsLimbs, SameOutside, Gap, Low, High, Sign;
    ghost var A, C, ts0, s0, s1 := a[ai..ai + n], b[bi..bi + n], t[..], s[..nh], s[nh..2 * nh];
    ScratchParts(B, ts0, ti, n, s);
    signA := FirstDifference(B, a, ai, b, bi, n, nh, t, ti, A, C, s0, s1);
    ghost var ts1 := t[..];
    signB := HalfDifference(B, b, bi, n, nh, t, ti + nh, true, C, s1);
    DifferencesDone(B, t[..], ts1, ts0, ti, nh, A, C, s0, s1);
  }

  /** The difference for the first operand; the second one and its place in the scratch stay. */
  method FirstDifference(B: Base, a: array<nat>, ai: nat, b: array<nat>, bi: nat, n: nat, nh: nat, t: array<nat>, ti: nat,
                         ghost A: seq<nat>, ghost C: seq<nat>, ghost s0: seq<nat>, ghost s1: seq<nat>) returns (signA: int)
    requires nh == n / 2 && ai + n <= a.Length && bi + n <= b.Length && ti + 4 * n <= t.Length
    requires Apart(t, ti, nh, a, ai, n) && Apart(t, ti, nh, b, bi, n)
    requires a[ai..ai + n] == A && IsLimbs(B, A) && b[bi..bi + n] == C && t[ti..ti + nh] == s0 && t[ti + nh..ti + nh + nh] == s1
    modifies t
    ensures t[ti..ti + nh] == Gap(B, High(A), Low(A), s0) && signA == Sign(Val(B, High(A)), Val(B, Low(A)))
    ensures b[bi..bi + n] == C && t[ti + nh..ti + nh + nh] == s1 && SameOutside(t[..], old(t[..]), ti, ti + nh)
  {
    hide Pow, Val, IsLimbs, SameOutside, Gap, Low, High, Sign;
    ghost var bs0, ts0 := b[..], t[..];
    signA := HalfDifference(B, a, ai, n, nh, t, ti, false, A, s0);
    SliceSameOrOther(b, t, b[..], t[..], bs0, ts0, ti, ti + nh, bi, bi + n);
    SliceSame(t[..], ts0, ti, ti + nh, ti + nh, ti + nh + nh);
  }

  /** The difference of the halves of an operand: high minus low, or low minus high. */
  method HalfDifference(B: Base, x: array<nat>, xi: nat, n: nat, nh: nat, t: array<nat>, ti: nat, lowFirst: bool, ghost X: seq<nat>, ghost s: seq<nat>)
    returns (sign: int)
    requires nh == n / 2 && xi + n <= x.Length && ti + nh <= t.Length && Apart(t, ti, nh, x, xi, n)
    requires x[xi..xi + n] == X && IsLimbs(B, X) && t[ti..ti + nh] == s
    modifies t
    ensures lowFirst ==> t[ti..ti + nh] == Gap(B, Low(X), High(X), s) && sign == Sign(Val(B, Low(X)), Val(B, High(X)))
    ensures !lowFirst ==> t[ti..ti + nh] == Gap(B, High(X), Low(X), s) && sign == Sign(Val(B, High(X)), Val(B, Low(X)))
    ensures SameOutside(t[..], old(t[..]), ti, ti + nh)
  {
    hide Pow, Val, IsLimbs, SameOutside, Gap, Low, High, Sign;
    Parts(B, x[..], xi, n);
    if lowFirst {
      sign := AbsDifference(B, t, ti, x, xi, xi + nh, nh);
    } else {
      sign := AbsDifference(B, t, ti, x, xi + nh, xi, nh);
    }
  }

  lemma DifferencesDone(B: Base, t2: seq<nat>, t1: seq<nat>, t0: seq<nat>, ti: nat, nh: nat, a: seq<nat>, b: seq<nat>, s0: seq<nat>, s1: seq<nat>)
    requires |s0| == nh == |s1| && ti + nh + nh <= |t0| == |t1| == |t2| && |a| / 2 == nh == |b| / 2 && IsLimbs(B, s0) && IsLimbs(B, s1)
    requires SameOutside(t1, t0, ti, ti + nh) && SameOutside(t2, t1, ti + nh, ti + nh + nh)
    requires t1[ti..ti + nh] == Gap(B, High(a), Low(a), s0) && t2[ti + nh..ti + nh + nh] == Gap(B, Low(b), High(b), s1)
    ensures t2[ti..ti + nh] == Gap(B, High(a), Low(a), s0) && IsLimbs(B, t2[ti..ti + nh]) && IsLimbs(B, t2[ti + nh..ti + nh + nh])
    ensures SameOutside(t2, t0, ti, ti + nh + nh)
  {
    hide Gap, Low, High, Val;
    SliceSame(t2, t1, ti + nh, ti + nh + nh, ti, ti + nh);
    GapLimbs(B, High(a), Low(a), s0);
    GapLimbs(B, Low(b), High(b), s1);
    OutsideTrans(t2, t1, t0, ti, ti + nh + nh, ti, ti + nh, ti + nh, ti + nh + nh);
  }

  lemma ScratchParts(B: Base, t: seq<nat>, ti: nat, n: nat, s: seq<nat>)
    requires |s| == 2 * n && ti + 2 * n <= |t| && t[ti..ti + 2 * n] == s && IsLimbs(B, s)
    ensures var nh := n / 2;
      && t[ti..ti + nh] == s[..nh] && t[ti + nh..ti + nh + nh] == s[nh..2 * nh]
      && IsLimbs(B, s[..nh]) && IsLimbs(B, s[nh..2 * nh])
  {
    var nh := n / 2;
    SliceOfSlice(t, ti, ti + 2 * n, 0, nh);
    SliceOfSlice(t, ti, ti + 2 * n, nh, 2 * nh);
    LimbsPart(B, s, nh, 2 * nh);
  }
}
