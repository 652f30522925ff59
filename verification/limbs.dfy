/** Numbers written as limbs: the value of a little-endian limb sequence in an arbitrary base,
    and the integer arithmetic that every kernel's proof rests on. */
module Limbs {

  /** The limb base.  The source instantiates it with 2^8, 2^16, 2^32 and 2^64. */
  type Base = b: nat | 2 <= b witness 2

  function Pow(b: nat, e: nat): nat {
    if e == 0 then 1 else b * Pow(b, e - 1)
  }

  /** The number that the limbs of `s` represent, least significant limb first. */
  function Val(B: Base, s: seq<nat>): nat {
    if |s| == 0 then 0 else s[0] + B * Val(B, s[1..])
  }

  /** Every element fits in one limb. */
  predicate IsLimbs(B: Base, s: seq<nat>) {
    forall i :: 0 <= i < |s| ==> s[i] < B
  }

  /** `now` differs from `was` at most at the positions lo..hi. */
  ghost predicate SameOutside(now: seq<nat>, was: seq<nat>, lo: int, hi: int) {
    |now| == |was| && forall k :: 0 <= k < |now| && !(lo <= k < hi) ==> now[k] == was[k]
  }

  // ---------------------------------------------------------------- powers

  lemma {:induction false} PowPos(b: nat, e: nat)
    requires b > 0
    ensures Pow(b, e) > 0
  {
    if e > 0 { PowPos(b, e - 1); MulPos(b, Pow(b, e - 1)); }
  }

  lemma {:induction false} PowAdd(b: nat, e: nat, f: nat)
    ensures Pow(b, e + f) == Pow(b, e) * Pow(b, f)
  {
    if e > 0 {
      PowAdd(b, e - 1, f);
      assert e - 1 + f == e + f - 1;
      MulAssoc(b, Pow(b, e - 1), Pow(b, f));
    }
  }

  lemma PowSucc(b: nat, e: nat)
    ensures Pow(b, e + 1) == b * Pow(b, e) == Pow(b, e) * b
  {}

  lemma {:induction false} PowMono(b: nat, e: nat, f: nat)
    requires b > 0 && e <= f
    ensures Pow(b, e) <= Pow(b, f)
  {
    PowAdd(b, e, f - e);
    PowPos(b, f - e);
    PowPos(b, e);
    MulLe(1, Pow(b, f - e), Pow(b, e));
  }

  lemma {:induction false} PowMul(b: nat, e: nat, f: nat)
    ensures Pow(Pow(b, e), f) == Pow(b, e * f)
  {
    if f == 0 {
      assert e * f == 0;
    } else {
      PowMul(b, e, f - 1);
      assert e * f == e + e * (f - 1);
      PowAdd(b, e, e * (f - 1));
    }
  }

  /** 2^e exceeds e. */
  lemma {:induction false} PowExceeds(e: nat)
    ensures e < Pow(2, e)
  {
    if e > 0 { PowExceeds(e - 1); }
  }

  // ------------------------------------------------- nonlinear arithmetic

  lemma MulPos(x: int, y: int)
    requires x > 0 && y > 0
    ensures x * y > 0
  {}

  lemma MulLe(x: int, y: int, z: int)
    requires x <= y && 0 <= z
    ensures x * z <= y * z && z * x <= z * y
  {}

  lemma MulLt(x: int, y: int, z: int)
    requires x < y && 0 < z
    ensures x * z < y * z && z * x < z * y
  {}

  lemma MulAssoc(x: int, y: int, z: int)
    ensures x * (y * z) == (x * y) * z
  {}

  lemma MulDist(x: int, y: int, z: int)
    ensures x * (y + z) == x * y + x * z == (y + z) * x
  {}

  /** Cancelling a positive factor. */
  lemma MulCancelLt(x: int, y: int, z: int)
    requires x * z < y * z && 0 < z
    ensures x < y
  {
    if y <= x { MulLe(y, x, z); }
  }

  lemma MulCancelLe(x: int, y: int, z: int)
    requires x * z <= y * z && 0 < z
    ensures x <= y
  {
    if y < x { MulLt(y, x, z); }
  }

  /** Division with remainder is unique. */
  lemma DivModUnique(x: int, d: int, q: int, r: int)
    requires d > 0 && x == q * d + r && 0 <= r < d
    ensures x / d == q && x % d == r
  {
    var q', r' := x / d, x % d;
    assert x == d * q' + r' == q' * d + r';
    if q' < q {
      MulLe(q' + 1, q, d);
    } else if q < q' {
      MulLe(q + 1, q', d);
    }
  }

  lemma DivModSplit(x: int, d: int)
    requires d > 0
    ensures x == (x / d) * d + x % d && 0 <= x % d < d
    ensures 0 <= x ==> 0 <= x / d
  {
    if 0 <= x && x / d < 0 {
      MulLe(x / d, -1, d);
    }
  }

  /** A quotient is below `c` when the numerator is below `c * d`. */
  lemma DivLt(x: int, d: int, c: int)
    requires d > 0 && x < c * d
    ensures x / d < c
  {
    DivModSplit(x, d);
    if c <= x / d { MulLe(c, x / d, d); }
  }

  /** A product that is at most x bounds a factor by the quotient. */
  lemma LeDiv(q: int, x: int, d: int)
    requires d > 0 && q * d <= x
    ensures q <= x / d
  {
    DivModSplit(x, d);
    MulDist(d, x / d, 1);
    MulCancelLt(q, x / d + 1, d);
  }

  lemma ModSmall(x: int, d: int)
    requires 0 <= x < d
    ensures x % d == x && x / d == 0
  {
    DivModUnique(x, d, 0, x);
  }

  lemma ModAddMultiple(x: int, k: int, d: int)
    requires d > 0
    ensures (x + k * d) % d == x % d && (x + k * d) / d == x / d + k
  {
    DivModSplit(x, d);
    assert x + k * d == (x / d + k) * d + x % d by {
      assert (x / d + k) * d == (x / d) * d + k * d;
    }
    DivModUnique(x + k * d, d, x / d + k, x % d);
  }

  /** Dividing in two steps is dividing once. */
  lemma DivDiv(x: nat, c: nat, d: nat)
    requires c > 0 && d > 0
    ensures c * d > 0 && (x / c) / d == x / (c * d)
  {
    MulPos(c, d);
    DivModSplit(x, c);
    var y := x / c;
    DivModSplit(y, d);
    var q, r, s := y / d, y % d, x % c;
    assert x == (q * d + r) * c + s;
    assert (q * d + r) * c == q * (c * d) + r * c;
    MulLe(r + 1, d, c);
    assert (r + 1) * c == r * c + c;
    MulLe(0, r, c);
    DivModUnique(x, c * d, q, r * c + s);
  }

  /** Above a multiple of p there is room for anything smaller than p before the next one. */
  lemma RoomBelow(x: nat, p: nat, q: nat, d: nat)
    requires 0 < p && x % p == 0 && x < p * q && d < p
    ensures x + d < p * q
  {
    DivModSplit(x, p);
    DivLt(x, p, q);
    MulLe(x / p + 1, q, p);
    MulDist(p, x / p, 1);
  }

  /** The product, by name, for contracts that state products without unfolding them. */
  function Mul(x: int, y: int): int { x * y }

  lemma MulDef(x: int, y: int)
    ensures Mul(x, y) == x * y
  {}

  // --------------------------------------------------------------- values

  lemma {:induction false} ValConcat(B: Base, s: seq<nat>, t: seq<nat>)
    ensures Val(B, s + t) == Val(B, s) + Pow(B, |s|) * Val(B, t)
  {
    if s == [] {
      assert s + t == t;
    } else {
      assert (s + t)[1..] == s[1..] + t;
      ValConcat(B, s[1..], t);
      MulDist(B, Val(B, s[1..]), Pow(B, |s| - 1) * Val(B, t));
      MulAssoc(B, Pow(B, |s| - 1), Val(B, t));
    }
  }

  /** The same with the power of the base given by name. */
  lemma ValCat(B: Base, s: seq<nat>, t: seq<nat>, p: nat)
    requires p == Pow(B, |s|)
    ensures Val(B, s + t) == Val(B, s) + p * Val(B, t)
  {
    ValConcat(B, s, t);
  }

  lemma ValOne(B: Base, x: nat)
    ensures Val(B, [x]) == x
  {}

  lemma ValSnoc(B: Base, s: seq<nat>, x: nat)
    ensures Val(B, s + [x]) == Val(B, s) + x * Pow(B, |s|)
  {
    ValConcat(B, s, [x]);
    ValOne(B, x);
  }

  lemma ValEmpty(B: Base)
    ensures Val(B, []) == 0 && Pow(B, 0) == 1
  {}

  /** Splitting a value at a limb boundary. */
  lemma ValSplit(B: Base, s: seq<nat>, i: nat)
    requires i <= |s|
    ensures Val(B, s) == Val(B, s[..i]) + Pow(B, i) * Val(B, s[i..])
  {
    assert s == s[..i] + s[i..];
    ValConcat(B, s[..i], s[i..]);
  }

  lemma {:induction false} ValBound(B: Base, s: seq<nat>)
    requires IsLimbs(B, s)
    ensures Val(B, s) < Pow(B, |s|)
  {
    if |s| > 0 {
      ValBound(B, s[1..]);
      MulLe(Val(B, s[1..]) + 1, Pow(B, |s| - 1), B);
      assert B * (Val(B, s[1..]) + 1) == B * Val(B, s[1..]) + B;
    }
  }

  lemma {:induction false} ValZeros(B: Base, s: seq<nat>)
    ensures (forall i :: 0 <= i < |s| ==> s[i] == 0) <==> Val(B, s) == 0
  {
    if |s| > 0 {
      ValZeros(B, s[1..]);
      assert forall i :: 0 < i < |s| ==> s[i] == s[1..][i - 1];
      assert forall i :: 0 <= i < |s| - 1 ==> s[1..][i] == s[i + 1];
      if Val(B, s[1..]) > 0 { MulPos(B, Val(B, s[1..])); }
    }
  }

  /** A number has one representation with a given count of limbs. */
  lemma {:induction false} ValUnique(B: Base, s: seq<nat>, t: seq<nat>)
    requires |s| == |t| && IsLimbs(B, s) && IsLimbs(B, t) && Val(B, s) == Val(B, t)
    ensures s == t
  {
    if |s| > 0 {
      DivModUnique(Val(B, s), B, Val(B, s[1..]), s[0]);
      DivModUnique(Val(B, t), B, Val(B, t[1..]), t[0]);
      ValUnique(B, s[1..], t[1..]);
      assert s == [s[0]] + s[1..] && t == [t[0]] + t[1..];
    }
  }

  /** The limbs below position i are the value modulo B^i, the limbs above are the quotient. */
  lemma ValDivMod(B: Base, s: seq<nat>, i: nat)
    requires i <= |s| && IsLimbs(B, s)
    ensures Pow(B, i) > 0
    ensures Val(B, s) / Pow(B, i) == Val(B, s[i..])
    ensures Val(B, s) % Pow(B, i) == Val(B, s[..i])
  {
    PowPos(B, i);
    ValSplit(B, s, i);
    ValBound(B, s[..i]);
    assert Pow(B, i) * Val(B, s[i..]) == Val(B, s[i..]) * Pow(B, i);
    DivModUnique(Val(B, s), Pow(B, i), Val(B, s[i..]), Val(B, s[..i]));
  }

  /** High zero limbs do not change a value. */
  lemma ValTrim(B: Base, s: seq<nat>, i: nat)
    requires i <= |s| && forall k :: i <= k < |s| ==> s[k] == 0
    ensures Val(B, s) == Val(B, s[..i])
  {
    ValSplit(B, s, i);
    forall k | 0 <= k < |s[i..]| ensures s[i..][k] == 0 { assert s[i..][k] == s[i + k]; }
    ValZeros(B, s[i..]);
  }

  lemma ZeroPadded(B: Base, s: seq<nat>, n: nat)
    requires n <= |s| && IsLimbs(B, s[..n]) && forall k :: n <= k < |s| ==> s[k] == 0
    ensures IsLimbs(B, s) && Val(B, s) == Val(B, s[..n])
  {
    ValTrim(B, s, n);
    forall k | 0 <= k < |s| ensures s[k] < B { if k < n { assert s[k] == s[..n][k]; } }
  }

  // ------------------------------------------------- double-limb arithmetic

  /** Truncation of a double-limb expression to twice the limb width (wraps, also for a negative
      intermediate, as unsigned arithmetic does). */
  function Dbl(B: Base, x: int): nat {
    MulPos(B, B);
    x % (B * B)
  }

  /** The low and the high limb of a double limb. */
  function Lo(B: Base, x: nat): nat { x % B }

  function Hi(B: Base, x: nat): nat {
    DivModSplit(x, B);
    x / B
  }

  lemma DblSmall(B: Base, x: int)
    requires 0 <= x < B * B
    ensures Dbl(B, x) == x
  {
    ModSmall(x, B * B);
  }

  /** A double limb that does not wrap splits into two limbs. */
  lemma DblSplit(B: Base, x: int)
    requires 0 <= x < B * B
    ensures Dbl(B, x) == x == Lo(B, x) + Hi(B, x) * B
    ensures Lo(B, x) < B && Hi(B, x) < B
  {
    ModSmall(x, B * B);
    DivModSplit(x, B);
    DivLt(x, B, B);
  }

  /** A slice of a slice. */
  lemma SliceOfSlice(s: seq<nat>, i: nat, j: nat, k: nat, l: nat)
    requires k <= l && i + l <= j <= |s|
    ensures s[i..j][k..l] == s[i + k..i + l]
  {
    forall m | 0 <= m < l - k ensures s[i..j][k..l][m] == s[i + k..i + l][m] {
      assert s[i..j][k..l][m] == s[i..j][k + m] == s[i + k + m];
    }
  }

  /** A slice that lies outside the changed range is unchanged. */
  lemma SliceSame(now: seq<nat>, was: seq<nat>, lo: nat, hi: nat, i: nat, j: nat)
    requires SameOutside(now, was, lo, hi) && i <= j <= |now| && (j <= lo || hi <= i)
    ensures now[i..j] == was[i..j]
  {
    forall k | 0 <= k < j - i ensures now[i..j][k] == was[i..j][k] {
      assert now[i..j][k] == now[i + k] && was[i..j][k] == was[i + k];
    }
  }

  /** Changes within a range, one after the other. */
  lemma OutsideTrans(s2: seq<nat>, s1: seq<nat>, s0: seq<nat>, lo: nat, hi: nat, i: nat, j: nat, k: nat, l: nat)
    requires SameOutside(s1, s0, i, j) && SameOutside(s2, s1, k, l) && lo <= i <= j <= hi && lo <= k <= l <= hi
    ensures SameOutside(s2, s0, lo, hi)
  {}

  lemma LimbsSlice(B: Base, a: seq<nat>, lo: nat, hi: nat, i: nat, j: nat)
    requires lo <= i <= j <= hi <= |a| && IsLimbs(B, a[lo..hi])
    ensures IsLimbs(B, a[i..j])
  {
    forall k | 0 <= k < j - i ensures a[i..j][k] < B {
      assert a[i..j][k] == a[i + k] == a[lo..hi][i + k - lo];
    }
  }

  lemma LimbsConcat(B: Base, s: seq<nat>, t: seq<nat>)
    requires IsLimbs(B, s) && IsLimbs(B, t)
    ensures IsLimbs(B, s + t)
  {}
}
