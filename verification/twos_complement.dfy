/** Two's complement over a modulus M, and the three divisions of the source on plain integers. */
module TwosComplement {
  import opened Limbs

  /** The number that the unsigned representation x in 0..M denotes. */
  function Number(M: nat, x: nat, signed: bool): int {
    if signed && M <= 2 * x then x - M else x
  }

  /** The representation of a number modulo M. */
  function Wrap(M: nat, z: int): nat
    requires 0 < M
  {
    DivModSplit(z, M);
    z % M
  }

  /** The numbers that a type can hold. */
  predicate Holds(M: nat, signed: bool, z: int) {
    if signed then 0 - M <= 2 * z < M else 0 <= z < M
  }

  /** Wrapping is the only representation of a number that fits, and denotes it again. */
  lemma WrapNumber(M: nat, z: int, signed: bool)
    requires 0 < M && M % 2 == 0 && Holds(M, signed, z)
    ensures Wrap(M, z) < M && Number(M, Wrap(M, z), signed) == z
  {
    if z < 0 { DivModUnique(z, M, -1, z + M); } else { ModSmall(z, M); }
  }

  /** Every representation denotes a number that fits and that wraps to it. */
  lemma NumberWrap(M: nat, x: nat, signed: bool)
    requires 0 < M && M % 2 == 0 && x < M
    ensures Holds(M, signed, Number(M, x, signed)) && Wrap(M, Number(M, x, signed)) == x
  {
    if Number(M, x, signed) != x { DivModUnique(x - M, M, -1, x); } else { ModSmall(x, M); }
  }

  /** The number is congruent to its representation. */
  lemma Congruence(M: nat, x: nat, signed: bool) returns (k: int)
    ensures Number(M, x, signed) == x - k * M && 0 <= k <= 1 && (k == 1 ==> signed)
  {
    k := if Number(M, x, signed) == x then 0 else 1;
  }

  lemma WrapShift(M: nat, x: int, y: int, k: int)
    requires 0 < M && y == x + k * M
    ensures Wrap(M, x) == Wrap(M, y)
  {
    ModAddMultiple(x, k, M);
  }

  lemma WrapSum(M: nat, x: nat, y: nat, signed: bool)
    requires 0 < M
    ensures Wrap(M, x + y) == Wrap(M, Number(M, x, signed) + Number(M, y, signed))
  {
    var k := Congruence(M, x, signed);
    var l := Congruence(M, y, signed);
    MulDist(M, k, l);
    WrapShift(M, x + y, Number(M, x, signed) + Number(M, y, signed), 0 - (k + l));
  }

  lemma WrapDifference(M: nat, x: nat, y: nat, signed: bool)
    requires 0 < M
    ensures Wrap(M, x - y) == Wrap(M, Number(M, x, signed) - Number(M, y, signed))
  {
    var k := Congruence(M, x, signed);
    var l := Congruence(M, y, signed);
    MulDist(M, l, 0 - k);
    WrapShift(M, x - y, Number(M, x, signed) - Number(M, y, signed), l - k);
  }

  lemma WrapProduct(M: nat, x: nat, y: nat, signed: bool)
    requires 0 < M
    ensures Wrap(M, x * y) == Wrap(M, Number(M, x, signed) * Number(M, y, signed))
  {
    var k := Congruence(M, x, signed);
    var l := Congruence(M, y, signed);
    var a, b := Number(M, x, signed), Number(M, y, signed);
    assert x == a + k * M && y == b + l * M;
    ProductShift(M, a, b, k, l);
    WrapShift(M, a * b, x * y, a * l + k * b + k * (l * M));
  }

  lemma ProductShift(M: int, a: int, b: int, k: int, l: int)
    ensures (a + k * M) * (b + l * M) == a * b + (a * l + k * b + k * (l * M)) * M
  {
    var y := b + l * M;
    MulDist(y, a, k * M);
    MulDist(a, b, l * M);
    MulAssoc(a, l, M);
    MulAssoc(k, M, y);
    MulAssoc(k, y, M);
    MulDist(k, b, l * M);
    MulDist(M, a * l, k * y);
    assert k * M * y == k * y * M;
  }

  lemma WrapNegate(M: nat, x: nat, signed: bool)
    requires 0 < M
    ensures Wrap(M, 0 - x) == Wrap(M, 0 - Number(M, x, signed))
  {
    var k := Congruence(M, x, signed);
    WrapShift(M, 0 - x, 0 - Number(M, x, signed), k);
  }

  /** Wrapping a negated magnitude and negating again is wrapping the number. */
  lemma NegateWrap(M: nat, z: int)
    requires 0 < M && z < 0
    ensures Wrap(M, 0 - Wrap(M, 0 - z)) == Wrap(M, z)
  {
    var u: int := Wrap(M, 0 - z);
    DivModSplit(0 - z, M);
    MulDist(M, (0 - z) / M, 0 - (0 - z) / M);
    WrapShift(M, z, 0 - u, (0 - z) / M);
  }

  /** The value is half the modulus or more exactly when the top bit of the leading limb is set. */
  lemma SignBit(B: Base, s: seq<nat>)
    requires B % 2 == 0 && 0 < |s| && IsLimbs(B, s)
    ensures s[|s| - 1] >= B / 2 <==> Pow(B, |s|) <= 2 * Val(B, s)
    ensures Pow(B, |s|) % 2 == 0 && Val(B, s) < Pow(B, |s|)
  {
    var n := |s| - 1;
    ValSplit(B, s, n);
    ValBound(B, s[..n]);
    ValBound(B, s);
    PowSucc(B, n);
    assert s[n..] == [s[n]];
    ValOne(B, s[n]);
    SignBitInt(B / 2, Pow(B, n), s[n], Val(B, s[..n]));
  }

  lemma SignBitInt(h: nat, P: nat, x: nat, lo: nat)
    requires lo < P
    ensures (2 * h * P) % 2 == 0
    ensures x >= h <==> 2 * h * P <= 2 * (lo + P * x)
  {
    assert 2 * h * P == 2 * (h * P);
    if h <= x { MulLe(h, x, P); } else { MulLe(x + 1, h, P); MulDist(P, x, 1); }
  }

  // ------------------------------------------------------------- division

  function Abs(x: int): nat { if x < 0 then 0 - x else x }

  /** The quotient truncated toward zero. */
  function TruncDiv(a: int, b: int): int
    requires b != 0
  {
    if (a < 0) == (b < 0) then Abs(a) / Abs(b) else 0 - Abs(a) / Abs(b)
  }

  /** The remainder that goes with it. */
  function TruncMod(a: int, b: int): int
    requires b != 0
  {
    a - b * TruncDiv(a, b)
  }

  /** The quotient rounded down. */
  function FloorDiv(a: int, b: int): int
    requires b != 0
  {
    if 0 < b then a / b else (0 - a) / (0 - b)
  }

  function FloorMod(a: int, b: int): int
    requires b != 0
  {
    a - b * FloorDiv(a, b)
  }

  /** The truncated remainder is below the divisor in size and has the sign of the numerator. */
  lemma TruncModSign(a: int, b: int)
    requires b != 0
    ensures TruncMod(a, b) == if a < 0 then 0 - Abs(a) % Abs(b) else Abs(a) % Abs(b)
    ensures Abs(TruncMod(a, b)) < Abs(b) && (a < 0 ==> TruncMod(a, b) <= 0) && (0 <= a ==> 0 <= TruncMod(a, b))
  {
    DivModSplit(Abs(a), Abs(b));
    var q := Abs(a) / Abs(b);
    assert q * Abs(b) == if b < 0 then 0 - b * q else b * q;
  }

  /** The floor remainder is below the divisor in size and has the sign of the divisor; the floor quotient
      is the truncated one unless the signs differ and the division is inexact, when it is one less. */
  lemma FloorModSign(a: int, b: int)
    requires b != 0
    ensures Abs(FloorMod(a, b)) < Abs(b) && (b < 0 ==> FloorMod(a, b) <= 0) && (0 < b ==> 0 <= FloorMod(a, b))
    ensures FloorDiv(a, b) == TruncDiv(a, b) - (if (a < 0) != (b < 0) && Abs(a) % Abs(b) != 0 then 1 else 0)
  {
    var x := if 0 < b then a else 0 - a;
    FloorByAbs(x, Abs(b));
    DivModSplit(x, Abs(b));
    if b < 0 { NegateBoth(Abs(b), x / Abs(b)); }
  }

  lemma NegateBoth(d: int, q: int)
    ensures (0 - d) * q == 0 - d * q
  {}

  lemma FloorByAbs(x: int, d: int)
    requires 0 < d
    ensures x / d == if 0 <= x then Abs(x) / d else if Abs(x) % d == 0 then 0 - Abs(x) / d else 0 - Abs(x) / d - 1
  {
    var q, r := Abs(x) / d, Abs(x) % d;
    DivModSplit(Abs(x), d);
    if x < 0 {
      MulDist(d, 0 - q, -1);
      MulDist(d, q, 0 - q);
      if r == 0 { DivModUnique(x, d, 0 - q, 0); } else { DivModUnique(x, d, 0 - q - 1, d - r); }
    }
  }

  // ----------------------------------------------------------- W-bit numbers

  /** The value of a number stored in W bits. */
  function Store(W: nat, signed: bool, z: int): int {
    PowPos(2, W);
    Number(Pow(2, W), Wrap(Pow(2, W), z), signed)
  }

  lemma StoreFits(W: nat, signed: bool, z: int)
    requires 0 < W && Holds(Pow(2, W), signed, z)
    ensures Store(W, signed, z) == z
  {
    PowPos(2, W);
    PowSucc(2, W - 1);
    WrapNumber(Pow(2, W), z, signed);
  }
}
