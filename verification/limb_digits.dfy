/** The limbs of a number, as a function of it: the inverse of `Limbs.Val`. */
module LimbDigits {
  import opened Limbs

  /** The n low limbs of a number, negative ones in two's complement. */
  function Digits(B: Base, n: nat, x: int): (s: seq<nat>)
    ensures |s| == n && IsLimbs(B, s)
  {
    if n == 0 then []
    else
      DivModSplit(x, B);
      [x % B] + Digits(B, n - 1, x / B)
  }

  lemma {:induction false} DigitsValue(B: Base, n: nat, x: int)
    ensures Pow(B, n) > 0 && Val(B, Digits(B, n, x)) == x % Pow(B, n)
  {
    PowPos(B, n);
    if n > 0 {
      DigitsValue(B, n - 1, x / B);
      assert Digits(B, n, x)[1..] == Digits(B, n - 1, x / B);
      LowDigitFirst(x, B, Pow(B, n - 1));
    }
  }

  lemma LowDigitFirst(x: int, b: int, p: int)
    requires b > 0 && p > 0
    ensures b * p > 0 && x % b + b * ((x / b) % p) == x % (b * p)
  {
    MulPos(b, p);
    DivModSplit(x, b);
    DivModSplit(x / b, p);
    var h, l := (x / b) / p, (x / b) % p;
    MulAssoc(b, h, p);
    MulAssoc(h, b, p);
    MulDist(b, h * p, l);
    MulLe(l + 1, p, b);
    MulLe(0, l, b);
    MulDist(b, l, 1);
    DivModUnique(x, b * p, h, x % b + b * l);
  }

  /** Limbs are the digits of every number that they denote modulo B^n. */
  lemma DigitsOf(B: Base, s: seq<nat>, x: int)
    requires IsLimbs(B, s) && Pow(B, |s|) > 0 && Val(B, s) == x % Pow(B, |s|)
    ensures s == Digits(B, |s|, x)
  {
    DigitsValue(B, |s|, x);
    ValUnique(B, s, Digits(B, |s|, x));
  }

  lemma DigitsOfValue(B: Base, s: seq<nat>)
    requires IsLimbs(B, s)
    ensures s == Digits(B, |s|, Val(B, s))
  {
    ValBound(B, s);
    ModSmall(Val(B, s), Pow(B, |s|));
    DigitsOf(B, s, Val(B, s));
  }

  predicate Zeros(s: seq<nat>) { forall i :: 0 <= i < |s| ==> s[i] == 0 }

  lemma ZerosValue(B: Base, s: seq<nat>)
    ensures Zeros(s) <==> Val(B, s) == 0
  {
    ValZeros(B, s);
  }

  lemma DigitsOfZero(B: Base, n: nat)
    ensures Zeros(Digits(B, n, 0))
  {
    DigitsValue(B, n, 0);
    ModSmall(0, Pow(B, n));
    ZerosValue(B, Digits(B, n, 0));
  }

  /** A single 1, at position k. */
  predicate Unit(s: seq<nat>, k: nat) {
    k < |s| && s[k] == 1 && forall i :: 0 <= i < |s| && i != k ==> s[i] == 0
  }

  lemma UnitValue(B: Base, s: seq<nat>, k: nat)
    requires Unit(s, k)
    ensures IsLimbs(B, s) && Val(B, s) == Pow(B, k)
  {
    ValSplit(B, s, k);
    ZerosValue(B, s[..k]);
    ZerosValue(B, s[k..][1..]);
    assert Zeros(s[k..][1..]);
  }
}
