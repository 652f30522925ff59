/** The multi-limb integer type: fixed-width numbers, unsigned or in two's complement. */
module WideInteger {
  import opened Limbs
  import opened Kernels
  import opened Multiply
  import opened Karatsuba
  import opened KaratsubaRecursion
  import opened LongDivision
  import opened Shifts
  import opened Bits
  import opened TwosComplement

  /** The limb count from which multiplication is Karatsuba's. */
  const KARATSUBA_THRESHOLD: nat := 129

  // -------------------------------------------------- limb-wise complement

  /** Complementing every limb subtracts the value from the largest one. */
  lemma {:induction false} NotValue(B: Base, s: seq<nat>, t: seq<nat>)
    requires |s| == |t| && IsLimbs(B, s) && forall i :: 0 <= i < |s| ==> t[i] == B - 1 - s[i]
    ensures IsLimbs(B, t) && Val(B, t) == Pow(B, |s|) - 1 - Val(B, s)
  {
    if |s| > 0 {
      NotValue(B, s[1..], t[1..]);
      NotInt(B, Pow(B, |s| - 1), s[0], Val(B, s[1..]));
    }
  }

  lemma NotInt(b: int, p: int, x: int, v: int)
    ensures b - 1 - x + b * (p - 1 - v) == b * p - 1 - (x + b * v)
  {}

  method BitwiseNot(B: Base, values: array<nat>)
    requires IsLimbs(B, values[..])
    modifies values
    ensures IsLimbs(B, values[..]) && Val(B, values[..]) == Pow(B, values.Length) - 1 - old(Val(B, values[..]))
  {
    ghost var was := values[..];
    for i := 0 to values.Length
      invariant forall k :: 0 <= k < i ==> values[k] == B - 1 - was[k]
      invariant forall k :: i <= k < values.Length ==> values[k] == was[k]
    {
      values[i] := B - 1 - values[i];
    }
    NotValue(B, was, values[..]);
  }

  /** Adding one limb by limb until one does not wrap to zero. */
  method Preincrement(B: Base, values: array<nat>)
    requires 0 < values.Length && IsLimbs(B, values[..])
    modifies values
    ensures IsLimbs(B, values[..])
    ensures Pow(B, values.Length) > 0 && Val(B, values[..]) == (old(Val(B, values[..])) + 1) % Pow(B, values.Length)
  {
    hide Pow, Val;
    ghost var was := values[..];
    assert was[..0] == [] == values[0..0];
    ValEmpty(B);
    var i, more := 0, true;
    ghost var c := 1;
    while i < values.Length && more
      invariant i <= values.Length && 0 <= c <= 1 && (more <==> c == 1) && IsLimbs(B, values[0..0 + i])
      invariant SameOutside(values[..], was, 0, i)
      invariant Val(B, values[0..0 + i]) + c * Pow(B, i) == Val(B, was[..i]) + 1
    {
      ghost var done := values[0..0 + i];
      assert values[i] == was[i];
      IncrementLimb(B, was[i]);
      values[i] := (values[i] + 1) % B;
      more := values[i] == 0;
      ghost var c' := if more then 1 else 0;
      ChainStep(B, done, c, Val(B, was[..i]) + 1, was[i], values[i], c');
      PrefixSnoc(B, was, i);
      assert values[0..0 + (i + 1)] == done + [values[i]];
      c := c';
      i := i + 1;
    }
    ChainStopped(B, was, values[..], 0, i, c, 1);
    assert values[0..0 + |was|] == values[..];
  }

  lemma IncrementLimb(B: Base, x: nat)
    requires x < B
    ensures (x + 1) % B == if x == B - 1 then 0 else x + 1
  {
    if x == B - 1 { DivModUnique(x + 1, B, 1, 0); } else { ModSmall(x + 1, B); }
  }

  /** Two's-complement negation. */
  method NegateLimbs(B: Base, values: array<nat>)
    requires 0 < values.Length && IsLimbs(B, values[..])
    modifies values
    ensures IsLimbs(B, values[..])
    ensures Pow(B, values.Length) > 0 && Val(B, values[..]) == Wrap(Pow(B, values.Length), 0 - old(Val(B, values[..])))
  {
    hide Pow, Val;
    ghost var x: int, M := Val(B, values[..]), Pow(B, values.Length);
    BitwiseNot(B, values);
    Preincrement(B, values);
    WrapShift(M, 0 - x, M - 1 - x + 1, 1);
  }

  /** u := u * v modulo B^n: the truncated schoolbook product, unrolled for four limbs, or the low half of what
      Karatsuba's recursion leaves, which is the product where the limb count halves evenly. */
  method EvalMulUnary(B: Base, u: array<nat>, v: array<nat>)
    requires 256 <= B && 0 < u.Length == v.Length && u != v && IsLimbs(B, u[..]) && IsLimbs(B, v[..])
    modifies u
    ensures IsLimbs(B, u[..]) && Pow(B, u.Length) > 0
    ensures u.Length < KARATSUBA_THRESHOLD || KaraSize(u.Length) ==>
      Val(B, u[..]) == Wrap(Pow(B, u.Length), old(Val(B, u[..])) * Val(B, v[..]))
    ensures u.Length >= KARATSUBA_THRESHOLD ==> u[..] == KaraProduct(B, u.Length, old(u[..]), v[..])[..u.Length]
  {
    hide Pow, Val, IsLimbs, SameOutside, KaraSize, Only, Kara;
    PowPos(B, u.Length);
    var n := u.Length;
    assert u[..n] == u[..] == u[0..0 + n] && v[..n] == v[..] == v[0..0 + n];
    var result;
    if n < KARATSUBA_THRESHOLD {
      result := new nat[n](i => 0);
      if n == 4 {
        EvalMultiply4By4ToLoPart(B, result, u, v);
      } else {
        EvalMultiplyNByNToLoPart(B, result, u, v, n);
      }
      assert result[0..0 + n] == result[..n];
    } else {
      result := new nat[2 * n](i => 0);
      var t := new nat[4 * n](i => 0);
      assert result[..] == result[0..0 + 2 * n] == ZeroLimbs(2 * n);
      AllZero(B, result[..]);
      EvalMultiplyKaraNByNTo2n(B, result, 0, u, 0, v, 0, n, t, 0);
      assert result[0..0 + 2 * n] == result[..] && result[..][..n] == result[0..0 + n];
      ValDivMod(B, result[..], n);
      LimbsSlice(B, result[..], 0, 2 * n, 0, n);
    }
    ghost var low := result[0..0 + n];
    Copy(u, 0, result, 0, n);
    assert u[..] == u[0..0 + n];
  }

  /** A limb type has at least eight binary digits. */
  lemma LimbBase(digits: nat)
    requires 8 <= digits
    ensures 256 <= Pow(2, digits) && Pow(2, digits) % 2 == 0
  {
    PowMono(2, 8, digits);
    PowSucc(2, digits - 1);
  }

  /** values := u modulo B^n. */
  method FillLimbs(B: Base, values: array<nat>, u: nat)
    modifies values
    ensures IsLimbs(B, values[..]) && Pow(B, values.Length) > 0 && Val(B, values[..]) == Wrap(Pow(B, values.Length), u)
  {
    hide Pow, Val;
    var rest: nat := u;
    assert values[..0] == [];
    ValEmpty(B);
    for i := 0 to values.Length
      invariant IsLimbs(B, values[..i]) && Val(B, values[..i]) + rest * Pow(B, i) == u
    {
      ghost var done := values[..i];
      DivModSplit(rest, B);
      ChainStep(B, done, rest, u, 0, rest % B, rest / B);
      values[i] := rest % B;
      assert values[..i + 1] == done + [values[i]];
      rest := rest / B;
    }
    assert values[..values.Length] == values[..];
    ValBound(B, values[..]);
    PowPos(B, values.Length);
    ModWrap(Val(B, values[..]), u, rest, Pow(B, values.Length));
  }

  lemma {:induction false} OrLimbs(B: Base, s: seq<nat>, t: seq<nat>, u: seq<nat>)
    requires |s| == |t| == |u| && IsLimbs(B, s) && IsLimbs(B, t)
    requires forall i :: 0 <= i < |s| ==> (s[i] == 0 || t[i] == 0) && u[i] == BitOr(s[i], t[i])
    ensures IsLimbs(B, u) && Val(B, u) == Val(B, s) + Val(B, t)
  {
    if |s| > 0 {
      OrLimbs(B, s[1..], t[1..], u[1..]);
      OrZero(s[0]);
      OrZero(t[0]);
      MulDist(B, Val(B, s[1..]), Val(B, t[1..]));
      assert forall i :: 0 < i < |u| ==> u[i] == u[1..][i - 1];
    }
  }

  /** An integer of a fixed number of limbs, each of `digits` binary digits. */
  class UintWide {
    const digits: nat
    const base: Base
    const signed: bool
    const values: array<nat>

    ghost predicate Valid()
      reads values
    {
      && 8 <= digits && base == Pow(2, digits) && 256 <= base && base % 2 == 0
      && 0 < values.Length && IsLimbs(base, values[..])
    }

    /** B^N, the number of values of the type. */
    ghost function Modulus(): (m: nat)
      ensures 0 < m
    {
      PowPos(base, values.Length);
      Pow(base, values.Length)
    }

    /** The unsigned representation. */
    ghost function Raw(): nat
      reads values
    {
      Val(base, values[..])
    }

    /** The number represented. */
    ghost function Num(): int
      reads values
    {
      Number(Modulus(), Raw(), signed)
    }

    /** The other integer has the same kind of limbs and as many, in storage of its own. */
    ghost predicate SameWidth(other: UintWide) {
      && other.digits == digits && other.base == base && other.values.Length == values.Length
      && (other != this ==> other.values != values)
    }

    lemma Facts()
      requires Valid()
      ensures 0 < Modulus() && Modulus() % 2 == 0 && Raw() < Modulus() && Holds(Modulus(), signed, Num())
      ensures Wrap(Modulus(), Num()) == Raw()
    {
      SignBit(base, values[..]);
      PowPos(base, values.Length);
      NumberWrap(Modulus(), Raw(), signed);
    }

    /** Zero. */
    constructor (digits: nat, limbs: nat, signed: bool)
      requires 8 <= digits && 0 < limbs
      ensures Valid() && fresh(values) && this.digits == digits && values.Length == limbs && this.signed == signed
      ensures Raw() == 0 && Num() == 0
    {
      LimbBase(digits);
      this.digits, this.signed, base := digits, signed, Pow(2, digits);
      values := new nat[limbs](i => 0);
      new;
      ValZeros(base, values[..]);
      PowPos(base, limbs);
    }

    /** A copy, possibly with the other signedness: the same limbs. */
    constructor Copied(other: UintWide, signed: bool)
      requires other.Valid()
      ensures Valid() && fresh(values) && SameWidth(other) && this.signed == signed && values[..] == other.values[..]
    {
      this.digits, this.signed, base := other.digits, signed, other.base;
      values := new nat[other.values.Length](i requires 0 <= i < other.values.Length reads other.values => other.values[i]);
      new;
      assert values[..] == other.values[..];
    }

    /** A number from a built-in integer: the limbs of its magnitude, negated when it is negative. */
    constructor FromNumber(digits: nat, limbs: nat, signed: bool, z: int)
      requires 8 <= digits && 0 < limbs
      ensures Valid() && fresh(values) && this.digits == digits && values.Length == limbs && this.signed == signed
      ensures Raw() == Wrap(Modulus(), z)
    {
      LimbBase(digits);
      this.digits, this.signed, base := digits, signed, Pow(2, digits);
      values := new nat[limbs](i => 0);
      new;
      FillLimbs(base, values, Abs(z));
      if z < 0 {
        NegateLimbs(base, values);
        NegateWrap(Modulus(), z);
      }
    }

    /** The low limbs as one built-in unsigned integer. */
    method Extract(limbCount: nat) returns (u: nat)
      requires Valid() && limbCount <= values.Length
      ensures Pow(base, limbCount) > 0 && u == Raw() % Pow(base, limbCount)
    {
      hide Pow, Val, BitOr;
      ghost var s := values[..];
      assert s[..0] == [];
      ValEmpty(base);
      u := 0;
      for i := 0 to limbCount
        invariant u == Val(base, s[..i])
      {
        PowMul(2, digits, i);
        LimbsSlice(base, s, 0, |s|, 0, i);
        assert s[0..i] == s[..i] && s[0..|s|] == s;
        ValBound(base, s[..i]);
        OrDisjoint(values[i], u, digits * i);
        PrefixSnoc(base, s, i);
        u := BitOr(values[i] * Pow(2, digits * i), u);
      }
      ValDivMod(base, s, limbCount);
    }

    /** Bitwise or, limb by limb; where no limb is non-zero in both it is addition. */
    method OrAssign(other: UintWide)
      requires Valid() && other.Valid() && SameWidth(other) && other != this
      modifies values
      ensures forall i :: 0 <= i < values.Length ==> values[i] == BitOr(old(values[i]), other.values[i])
      ensures (forall i :: 0 <= i < values.Length ==> old(values[i]) == 0 || other.values[i] == 0) ==>
        Valid() && Raw() == old(Raw()) + other.Raw()
    {
      hide Pow, Val;
      ghost var was := values[..];
      for i := 0 to values.Length
        invariant forall k :: 0 <= k < i ==> values[k] == BitOr(was[k], other.values[k])
        invariant forall k :: i <= k < values.Length ==> values[k] == was[k]
      {
        values[i] := BitOr(values[i], other.values[i]);
      }
      if forall i :: 0 <= i < values.Length ==> was[i] == 0 || other.values[i] == 0 {
        OrLimbs(base, was, other.values[..], values[..]);
      }
    }

    method IsNeg() returns (neg: bool)
      requires Valid()
      ensures neg <==> Num() < 0
    {
      Facts();
      SignBit(base, values[..]);
      neg := signed && values[values.Length - 1] >= base / 2;
    }

    /** Three-way comparison of the numbers. */
    method Compare(other: UintWide) returns (r: int)
      requires Valid() && other.Valid() && SameWidth(other) && other.signed == signed
      ensures r == (if Num() < other.Num() then -1 else if Num() == other.Num() then 0 else 1)
    {
      Facts();
      other.Facts();
      var otherIsNeg := other.IsNeg();
      var myIsNeg := IsNeg();
      if myIsNeg && !otherIsNeg {
        r := -1;
      } else if !myIsNeg && otherIsNeg {
        r := 1;
      } else {
        assert values[0..values.Length] == values[..] && other.values[0..values.Length] == other.values[..];
        r := CompareRanges(base, values, 0, other.values, 0, values.Length);
      }
    }

    /** The number becomes its negation, wrapped. */
    method Negate()
      requires Valid()
      modifies values
      ensures Valid() && Raw() == Wrap(Modulus(), 0 - old(Num())) == Wrap(Modulus(), 0 - old(Raw()))
    {
      Facts();
      WrapNegate(Modulus(), Raw(), signed);
      NegateLimbs(base, values);
    }

    method AddAssign(other: UintWide)
      requires Valid() && other.Valid() && SameWidth(other) && other.signed == signed
      modifies values
      ensures Valid() && Raw() == Wrap(Modulus(), old(Num()) + old(other.Num()))
    {
      hide Pow, Val;
      Facts();
      ghost var x, y, n := Raw(), other.Raw(), values.Length;
      WrapSum(Modulus(), x, y, signed);
      assert values[0..0 + n] == values[..] && other.values[0..0 + n] == other.values[..];
      var carry := EvalAddN(base, values, 0, values, 0, other.values, 0, values.Length);
      assert values[0..0 + n] == values[..];
      ValBound(base, values[..]);
      ModWrap(Raw(), x + y, carry, Modulus());
    }

    method SubAssign(other: UintWide)
      requires Valid() && other.Valid() && SameWidth(other) && other.signed == signed
      modifies values
      ensures Valid() && Raw() == Wrap(Modulus(), old(Num()) - old(other.Num()))
    {
      hide Pow, Val;
      Facts();
      ghost var x: int, y: int, n := Raw(), other.Raw(), values.Length;
      WrapDifference(Modulus(), x, y, signed);
      if this == other {
        Fill(values, 0, values.Length, 0);
        ValZeros(base, values[..]);
        ModSmall(0, Modulus());
      } else {
        assert values[0..0 + n] == values[..] && other.values[0..0 + n] == other.values[..];
        var borrow := EvalSubtractN(base, values, 0, values, 0, other.values, 0, values.Length);
        assert values[0..0 + n] == values[..];
        ValBound(base, values[..]);
        ModWrap(Raw(), x - y, if borrow then -1 else 0, Modulus());
      }
    }

    method MulAssign(other: UintWide)
      requires Valid() && other.Valid() && SameWidth(other) && other.signed == signed
      modifies values
      ensures Valid()
      ensures values.Length < KARATSUBA_THRESHOLD || KaraSize(values.Length) ==>
        Raw() == Wrap(Modulus(), old(Num()) * old(other.Num()))
      ensures values.Length >= KARATSUBA_THRESHOLD ==>
        values[..] == KaraProduct(base, values.Length, old(values[..]), old(other.values[..]))[..values.Length]
    {
      hide Pow, Val, Kara;
      Facts();
      WrapProduct(Modulus(), Raw(), other.Raw(), signed);
      if this == other {
        var copy := new UintWide.Copied(other, signed);
        EvalMulUnary(base, values, copy.values);
      } else {
        EvalMulUnary(base, values, other.values);
      }
    }

    /** Multiplication by one limb. */
    method MulByLimb(v: nat)
      requires Valid() && v < base
      modifies values
      ensures Valid() && Raw() == Wrap(Modulus(), old(Raw()) * v)
    {
      hide Pow, Val, IsLimbs, SameOutside, Wrap, Number, Holds;
      Facts();
      ghost var x, n := Raw(), values.Length;
      WrapIs(Modulus(), x * v);
      if v == 0 {
        Fill(values, 0, values.Length, 0);
        AllZero(base, values[..]);
        ModSmall(0, Modulus());
      } else if v > 1 {
        assert values[0..0 + n] == values[..];
        var carry := EvalMultiply1d(base, values, 0, values, 0, v, values.Length);
        assert values[0..0 + n] == values[..];
        ValBound(base, values[..]);
        ModWrap(Raw(), x * v, carry, Modulus());
      } else {
        ModSmall(x, Modulus());
      }
    }

    /** A copy of the magnitude in the unsigned type. */
    method Magnitude(neg: bool) returns (a: UintWide)
      requires Valid() && (neg <==> Num() < 0)
      ensures fresh(a) && a.Valid() && fresh(a.values) && SameWidth(a) && !a.signed
      ensures a.Raw() == a.Num() == Abs(Num())
    {
      Facts();
      a := new UintWide.Copied(this, false);
      if neg {
        a.Negate();
        WrapNumber(Modulus(), 0 - Num(), false);
        WrapShift(Modulus(), 0 - Num(), 0 - Raw(), -1);
      }
    }

    /** Shifting left by n multiplies by 2^n, wrapped; a negative count shifts right. */
    method ShiftLeftAssign(n: int)
      requires Valid()
      modifies values
      ensures Valid()
      ensures 0 <= n ==> Raw() == Wrap(Modulus(), old(Raw()) * Pow(2, n))
      ensures n < 0 ==> Pow(2, 0 - n) > 0 && Num() == old(Num()) / Pow(2, 0 - n)
      decreases n < 0
    {
      hide Pow, Val, IsLimbs;
      Facts();
      if n < 0 {
        ShiftRightAssign(0 - n);
      } else if n > 0 {
        if digits * values.Length <= n {
          AllBitsOut(base, digits, values.Length, n, Raw());
          Fill(values, 0, values.Length, 0);
          AllZero(base, values[..]);
        } else {
          Shl(base, digits, values, n);
        }
      } else {
        ModSmall(Raw(), Modulus());
        ShiftByZero(Raw());
      }
    }

    /** Shifting right by n divides by 2^n, rounding down, also for negative numbers; a negative count
        shifts left. */
    method ShiftRightAssign(n: int)
      requires Valid()
      modifies values
      ensures Valid()
      ensures 0 <= n ==> Pow(2, n) > 0 && Num() == old(Num()) / Pow(2, n)
      ensures n < 0 ==> Raw() == Wrap(Modulus(), old(Raw()) * Pow(2, 0 - n))
      decreases n < 0
    {
      hide Pow, Val, IsLimbs, SameOutside, Number, Wrap;
      Facts();
      if n < 0 {
        ShiftLeftAssign(0 - n);
      } else if n > 0 {
        if digits * values.Length <= n {
          ghost var was, x := values[..], Num();
          var neg := IsNeg();
          FillNumber(base, values.Length, signed, neg);
          NumberBelow(base, digits, values.Length, n, Raw(), signed);
          Fill(values, 0, values.Length, if neg then base - 1 else 0);
          FilledLimbs(base, values[..], neg);
        } else {
          Shr(base, digits, values, n, signed);
        }
      } else {
        ShiftByZero(Raw());
      }
    }

    /** The branch of the division for operands of which at least one is negative. */
    method DivideMagnitudes(other: UintWide, numerWasNeg: bool, denomWasNeg: bool)
      requires Valid() && other.Valid() && SameWidth(other) && this != other && other.Num() != 0
      requires (numerWasNeg <==> Num() < 0) && (denomWasNeg <==> other.Num() < 0)
      modifies values
      ensures Valid() && Raw() == Wrap(Modulus(), TruncDiv(old(Num()), other.Num()))
    {
      hide Pow, Val, IsLimbs, SameOutside;
      Facts();
      ghost var x, y := Num(), other.Num();
      var a := Magnitude(numerWasNeg);
      var b := other.Magnitude(denomWasNeg);
      EvalDivideKnuth(base, a.values, b.values, null, false);
      a.Facts();
      ModSmall(Abs(x) / Abs(y), Modulus());
      if numerWasNeg != denomWasNeg { a.Negate(); }
      Copy(values, 0, a.values, 0, values.Length);
      assert values[..] == values[0..0 + values.Length] == a.values[..];
    }

    /** The quotient truncated toward zero, wrapped: the smallest number divided by -1 is itself.  Division
        by zero leaves the largest number, except that an object divided by itself is always 1. */
    method DivAssign(other: UintWide)
      requires Valid() && other.Valid() && SameWidth(other) && other.signed == signed
      modifies values
      ensures Valid()
      ensures this == other ==> Num() == 1
      ensures this != other && other.Num() == 0 ==> Raw() == MaxValue(base, values.Length, signed)
      ensures this != other && other.Num() != 0 ==> Raw() == Wrap(Modulus(), TruncDiv(old(Num()), other.Num()))
    {
      hide Pow, Val;
      Facts();
      other.Facts();
      if this == other {
        OneIsOne(Modulus(), base, values.Length, signed);
        SetSmall(base, values, 1);
      } else {
        var isZero := IsZero(other.base, other.values);
        if isZero {
          SetMax(base, values, signed);
        } else {
          var numerWasNeg := IsNeg();
          var denomWasNeg := other.IsNeg();
          if numerWasNeg || denomWasNeg {
            DivideMagnitudes(other, numerWasNeg, denomWasNeg);
          } else {
            EvalDivideKnuth(base, values, other.values, null, signed);
            Facts();
            ModSmall(Raw(), Modulus());
          }
        }
      }
    }

    /** The branch of the remainder for operands of which at least one is negative. */
    method RemainderOfMagnitudes(other: UintWide, numerWasNeg: bool, denomWasNeg: bool) returns (remainder: UintWide)
      requires Valid() && other.Valid() && SameWidth(other)
      requires (numerWasNeg <==> Num() < 0) && (denomWasNeg <==> other.Num() < 0)
      ensures fresh(remainder) && fresh(remainder.values) && remainder.Valid() && SameWidth(remainder)
      ensures var r := if other.Num() == 0 then 0 else Abs(Num()) % Abs(other.Num());
              remainder.Raw() == if numerWasNeg then Wrap(Modulus(), 0 - r) else r
    {
      hide Pow, Val, IsLimbs, SameOutside;
      var a := Magnitude(numerWasNeg);
      var b := other.Magnitude(denomWasNeg);
      remainder := new UintWide(digits, values.Length, false);
      EvalDivideKnuth(base, a.values, b.values, remainder.values, false);
      if numerWasNeg { remainder.Negate(); }
    }

    /** The remainder of the truncated quotient: its sign follows the numerator.  Modulo zero it is zero. */
    method ModAssign(other: UintWide)
      requires Valid() && other.Valid() && SameWidth(other) && other.signed == signed
      modifies values
      ensures Valid()
      ensures Num() == if old(other.Num()) == 0 then 0 else TruncMod(old(Num()), old(other.Num()))
    {
      hide Pow, Val, IsLimbs, SameOutside;
      Facts();
      other.Facts();
      ghost var x, y := Num(), other.Num();
      if y != 0 { RemainderFits(Modulus(), signed, x, y); } else { ModSmall(0, Modulus()); }
      if this == other {
        Fill(values, 0, values.Length, 0);
        AllZero(base, values[..]);
        if x != 0 { SelfMod(x); }
      } else {
        var numerWasNeg := IsNeg();
        var denomWasNeg := other.IsNeg();
        var remainder;
        if numerWasNeg || denomWasNeg {
          remainder := RemainderOfMagnitudes(other, numerWasNeg, denomWasNeg);
        } else {
          remainder := new UintWide(digits, values.Length, signed);
          EvalDivideKnuth(base, values, other.values, remainder.values, signed);
        }
        Copy(values, 0, remainder.values, 0, values.Length);
        assert values[..] == values[0..0 + values.Length] == remainder.values[0..0 + values.Length] == remainder.values[..];
      }
    }
  }

  lemma WrapIs(M: nat, z: int)
    requires 0 < M
    ensures Wrap(M, z) == z % M
  {}

  lemma AllZero(B: Base, s: seq<nat>)
    requires forall k :: 0 <= k < |s| ==> s[k] == 0
    ensures IsLimbs(B, s) && Val(B, s) == 0
  {
    ValZeros(B, s);
  }

  lemma SelfMod(x: int)
    requires x != 0
    ensures TruncMod(x, x) == 0
  {
    DivModUnique(Abs(x), Abs(x), 1, 0);
  }

  /** Both remainders fit the type of the divisor, the truncated one also that of the numerator. */
  lemma RemainderFits(M: nat, signed: bool, x: int, y: int)
    requires 0 < M && M % 2 == 0 && y != 0 && Holds(M, signed, y) && (Holds(M, signed, x))
    ensures Number(M, Wrap(M, TruncMod(x, y)), signed) == TruncMod(x, y)
    ensures 0 <= Abs(x) % Abs(y) < M
    ensures TruncMod(x, y) == if x < 0 then 0 - Abs(x) % Abs(y) else Abs(x) % Abs(y)
    ensures Wrap(M, Abs(x) % Abs(y)) == Abs(x) % Abs(y)
  {
    TruncModSign(x, y);
    DivModSplit(Abs(x), Abs(y));
    ModSmall(Abs(x) % Abs(y), M);
    WrapNumber(M, TruncMod(x, y), signed);
  }

  lemma ShiftByZero(x: nat)
    ensures Pow(2, 0) == 1 && x * Pow(2, 0) == x
  {}

  /** A shift by the whole width or more leaves a multiple of the modulus. */
  lemma AllBitsOut(B: Base, digits: nat, N: nat, n: nat, x: nat)
    requires 0 < digits && B == Pow(2, digits) && digits * N <= n && Pow(B, N) > 0
    ensures Wrap(Pow(B, N), x * Pow(2, n)) == 0
  {
    hide Pow;
    var k := n - digits * N;
    PowMul(2, digits, N);
    PowAdd(2, digits * N, k);
    assert digits * N + k == n;
    MultipleWraps(x, Pow(B, N), Pow(2, k));
  }

  lemma MultipleWraps(x: nat, M: nat, k: nat)
    requires 0 < M
    ensures Wrap(M, x * (M * k)) == 0
  {
    assert x * (M * k) == (x * k) * M;
    DivModUnique(x * (M * k), M, x * k, 0);
  }

  /** Limbs that are all zero are 0, and limbs that are all ones are -1. */
  lemma FilledLimbs(B: Base, s: seq<nat>, ones: bool)
    requires forall k :: 0 <= k < |s| ==> s[k] == if ones then B - 1 else 0
    ensures IsLimbs(B, s) && Val(B, s) == if ones then Pow(B, |s|) - 1 else 0
  {
    if ones { AllOnes(B, s); } else { ValZeros(B, s); }
  }

  lemma FillNumber(B: Base, N: nat, signed: bool, neg: bool)
    requires 0 < N && (neg ==> signed)
    ensures Pow(B, N) > 0 && Number(Pow(B, N), if neg then Pow(B, N) - 1 else 0, signed) == if neg then -1 else 0
  {
    PowMono(B, 1, N);
  }

  /** A number divided by at least its modulus is 0 or -1. */
  lemma NumberBelow(B: Base, digits: nat, N: nat, n: nat, x: nat, signed: bool)
    requires 0 < digits && B == Pow(2, digits) && digits * N <= n && x < Pow(B, N)
    ensures Pow(2, n) > 0
    ensures var z := Number(Pow(B, N), x, signed); z / Pow(2, n) == if z < 0 then -1 else 0
  {
    hide Pow;
    PowMul(2, digits, N);
    PowMono(2, digits * N, n);
    PowPos(2, n);
    SmallQuotient(Pow(B, N), x, Pow(2, n), signed);
  }

  lemma SmallQuotient(M: nat, x: nat, D: nat, signed: bool)
    requires x < M <= D
    ensures var z := Number(M, x, signed); z / D == if z < 0 then -1 else 0
  {
    var z := Number(M, x, signed);
    DivModUnique(z, D, if z < 0 then -1 else 0, if z < 0 then z + D else z);
  }

  lemma OneIsOne(M: nat, B: Base, n: nat, signed: bool)
    requires 256 <= B && 0 < n && M == Pow(B, n)
    ensures Number(M, 1, signed) == 1
  {
    PowMono(B, 1, n);
  }

  method IsZero(B: Base, values: array<nat>) returns (zero: bool)
    requires IsLimbs(B, values[..])
    ensures zero <==> Val(B, values[..]) == 0
  {
    hide Pow, Val;
    ValZeros(B, values[..]);
    var i := 0;
    while i < values.Length && values[i] == 0
      invariant i <= values.Length && forall k :: 0 <= k < i ==> values[k] == 0
    {
      i := i + 1;
    }
    zero := i == values.Length;
  }

  // ------------------------------------------------------ floor division

  /** What `Divmod` returns: the floor quotient, wrapped to the numerator's type, and the remainder with
      the divisor's sign, exactly.  By zero: the quotient wraps -1 or is 1, the remainder is 0. */
  ghost predicate IsDivmod(M: nat, x: int, y: int, q: nat, r: int)
    requires 0 < M
  {
    if y == 0 then q == (if x < 0 then Wrap(M, 1) else Wrap(M, -1)) && r == 0
    else q == Wrap(M, FloorDiv(x, y)) && r == FloorMod(x, y)
  }

  /** The quotient and remainder of the magnitudes, before the signs are put back. */
  ghost predicate IsDivmodAbs(M: nat, x: int, y: int, q: nat, r: nat) {
    if y == 0 then q == M - 1 && r == 0 else q == Abs(x) / Abs(y) && r == Abs(x) % Abs(y)
  }

  /** Putting the signs back: where the signs differ and the division is inexact the quotient grows by one
      before it is negated, and the divisor is taken off the remainder. */
  lemma SignsBack(M: nat, x: int, y: int, q: nat, r: nat)
    requires 0 < M && IsDivmodAbs(M, x, y, q, r)
    ensures (x < 0) == (y < 0) ==> IsDivmod(M, x, y, Wrap(M, q), if x < 0 then 0 - r else r)
    ensures (x < 0) != (y < 0) && r == 0 ==> IsDivmod(M, x, y, Wrap(M, 0 - q), 0)
    ensures (x < 0) != (y < 0) && r != 0 ==> IsDivmod(M, x, y, Wrap(M, 0 - (q + 1)), if y < 0 then r - Abs(y) else Abs(y) - r)
  {
    if y == 0 {
      WrapShift(M, -1, M - 1, 1);
      WrapShift(M, 0 - (M - 1), 1, 1);
    } else {
      FloorModSign(x, y);
      DivModSplit(Abs(x), Abs(y));
      SignedProducts(x, y, q);
    }
  }

  lemma SignedProducts(x: int, y: int, q: int)
    ensures q * Abs(y) == if y < 0 then 0 - y * q else y * q
    ensures y * (0 - q) == 0 - y * q && y * (0 - (q + 1)) == 0 - y * q - y && y * (0 - q - 1) == 0 - y * q - y
  {
    MulDist(y, q, 0 - q);
    MulDist(y, 0 - q, -1);
    MulDist(y, 0 - y, q);
    MulDist(q, y, 0 - y);
  }

  /** The steps of the correction, in wrapped arithmetic. */
  lemma WrapSteps(M: nat, q: nat, r: nat, d: nat)
    requires 0 < M && q < M && r < d < M
    ensures Wrap(M, 0 - Wrap(M, q + 1)) == Wrap(M, 0 - (q + 1))
    ensures Wrap(M, 0 - Wrap(M, r - d)) == Wrap(M, d - r)
  {
    var u: int := Wrap(M, q + 1);
    DivModSplit(q + 1, M);
    WrapShift(M, 0 - (q + 1), 0 - u, (q + 1) / M);
    var v: int := Wrap(M, r - d);
    DivModUnique(r - d, M, -1, r - d + M);
    WrapShift(M, d - r, 0 - v, -1);
  }

  /** The representations that the steps leave are those of the floor quotient and remainder. */
  lemma DivmodDone(M: nat, signed: bool, x: int, y: int, q: nat, r: nat, q': nat, r': nat)
    requires 0 < M && M % 2 == 0 && Holds(M, signed, y) && q < M && IsDivmodAbs(M, x, y, q, r)
    requires (x < 0) == (y < 0) ==> q' == q && r' == if x < 0 then Wrap(M, 0 - r) else r
    requires (x < 0) != (y < 0) && r == 0 ==> q' == Wrap(M, 0 - q) && r' == if y < 0 then 0 else Wrap(M, 0)
    requires (x < 0) != (y < 0) && r != 0 ==> Abs(y) < M
    requires (x < 0) != (y < 0) && r != 0 ==>
      q' == Wrap(M, 0 - Wrap(M, q + 1)) && r' == if y < 0 then Wrap(M, r - Abs(y)) else Wrap(M, 0 - Wrap(M, r - Abs(y)))
    ensures IsDivmod(M, x, y, q', Number(M, r', signed))
  {
    SignsBack(M, x, y, q, r);
    ModSmall(0, M);
    if y != 0 { DivModSplit(Abs(x), Abs(y)); }
    var z: int := if (x < 0) == (y < 0) then if x < 0 then 0 - r else r
                  else if r == 0 then 0 else if y < 0 then r - Abs(y) else Abs(y) - r;
    WrapNumber(M, z, signed);
    if (x < 0) == (y < 0) {
      ModSmall(q, M);
      if 0 <= x { ModSmall(r, M); }
    } else if r != 0 {
      WrapSteps(M, q, r, Abs(y));
    }
  }

  method Divmod(a: UintWide, b: UintWide) returns (q: UintWide, r: UintWide)
    requires a.Valid() && b.Valid() && a.SameWidth(b)
    ensures fresh(q) && fresh(r) && q.Valid() && r.Valid() && a.SameWidth(q) && b.SameWidth(r)
    ensures q.signed == a.signed && r.signed == b.signed
    ensures IsDivmod(a.Modulus(), a.Num(), b.Num(), q.Raw(), r.Num())
  {
    hide Pow, Val, IsLimbs, SameOutside, IsDivmod, IsDivmodAbs, Wrap, Abs;
    var numerWasNeg := a.IsNeg();
    var denomWasNeg := b.IsNeg();
    var ua, ub, ur := MagnitudeDivmod(a, b, numerWasNeg, denomWasNeg);
    ghost var M, x, y, q0, r0 := a.Modulus(), a.Num(), b.Num(), ua.Raw(), ur.Raw();
    b.Facts();
    ua.Facts();
    ub.Facts();
    if numerWasNeg == denomWasNeg {
      q := new UintWide.Copied(ua, a.signed);
      r := new UintWide.Copied(ur, b.signed);
      if numerWasNeg { r.Negate(); }
    } else {
      q, r := RoundDown(ua, ub, ur, a.signed, b.signed, denomWasNeg);
    }
    DivmodDone(M, b.signed, x, y, q0, r0, q.Raw(), r.Raw());
  }

  /** The branch for operands of different signs. */
  method RoundDown(ua: UintWide, ub: UintWide, ur: UintWide, aSigned: bool, bSigned: bool, denomWasNeg: bool) returns (q: UintWide, r: UintWide)
    requires ua.Valid() && ub.Valid() && ur.Valid() && ua.SameWidth(ub) && ua.SameWidth(ur) && ur.SameWidth(ub)
    requires !ua.signed && !ub.signed && !ur.signed && ua != ur && ub != ur
    modifies ua.values, ur.values
    ensures fresh(q) && fresh(r) && q.Valid() && r.Valid() && ua.SameWidth(q) && ub.SameWidth(r)
    ensures fresh(q.values) && fresh(r.values) && q.signed == aSigned && r.signed == bSigned
    ensures old(ur.Raw()) == 0 ==> q.Raw() == Wrap(ua.Modulus(), 0 - old(ua.Raw()))
    ensures old(ur.Raw()) == 0 ==> r.Raw() == if denomWasNeg then 0 else Wrap(ua.Modulus(), 0)
    ensures old(ur.Raw()) != 0 ==> q.Raw() == Wrap(ua.Modulus(), 0 - Wrap(ua.Modulus(), old(ua.Raw()) + 1))
    ensures old(ur.Raw()) != 0 ==> r.Raw() == (var z := Wrap(ua.Modulus(), old(ur.Raw()) as int - ub.Raw());
                                              if denomWasNeg then z else Wrap(ua.Modulus(), 0 - z))
  {
    hide Pow, Val, IsLimbs, SameOutside;
    var exact := IsZero(ur.base, ur.values);
    if !exact { Preincrement(ua.base, ua.values); }
    q := new UintWide.Copied(ua, aSigned);
    q.Negate();
    if !exact { ur.SubAssign(ub); }
    r := new UintWide.Copied(ur, bSigned);
    if !denomWasNeg { r.Negate(); }
  }

  method MagnitudeDivmod(a: UintWide, b: UintWide, numerWasNeg: bool, denomWasNeg: bool) returns (ua: UintWide, ub: UintWide, ur: UintWide)
    requires a.Valid() && b.Valid() && a.SameWidth(b)
    requires (numerWasNeg <==> a.Num() < 0) && (denomWasNeg <==> b.Num() < 0)
    ensures fresh(ua) && fresh(ub) && fresh(ur) && fresh(ua.values) && fresh(ub.values) && fresh(ur.values)
    ensures ua.Valid() && ub.Valid() && ur.Valid() && a.SameWidth(ua) && b.SameWidth(ub) && a.SameWidth(ur)
    ensures ua.values != ub.values && ua.values != ur.values && ub.values != ur.values
    ensures !ua.signed && !ub.signed && !ur.signed
    ensures IsDivmodAbs(a.Modulus(), a.Num(), b.Num(), ua.Raw(), ur.Raw()) && ub.Raw() == Abs(b.Num())
  {
    hide Pow, Val, IsLimbs, SameOutside;
    ua := a.Magnitude(numerWasNeg);
    ub := b.Magnitude(denomWasNeg);
    ur := new UintWide(a.digits, a.values.Length, false);
    EvalDivideKnuth(ua.base, ua.values, ub.values, ur.values, false);
  }
}
