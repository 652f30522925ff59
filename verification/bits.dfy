/** Bitwise operations on non-negative integers, and where they are arithmetic. */
module Bits {
  import opened Limbs

  function BitOr(x: nat, y: nat): nat {
    if x == 0 && y == 0 then 0
    else (if x % 2 == 1 || y % 2 == 1 then 1 else 0) + 2 * BitOr(x / 2, y / 2)
  }

  function BitAnd(x: nat, y: nat): nat {
    if x == 0 || y == 0 then 0
    else (if x % 2 == 1 && y % 2 == 1 then 1 else 0) + 2 * BitAnd(x / 2, y / 2)
  }

  function BitXor(x: nat, y: nat): nat {
    if x == 0 && y == 0 then 0
    else (if x % 2 != y % 2 then 1 else 0) + 2 * BitXor(x / 2, y / 2)
  }

  lemma {:induction false} OrZero(x: nat)
    ensures BitOr(x, 0) == x == BitOr(0, x)
  {
    if x != 0 { OrZero(x / 2); }
  }

  /** Numbers without a common bit position add up. */
  lemma {:induction false} OrDisjoint(h: nat, y: nat, s: nat)
    requires y < Pow(2, s)
    ensures BitOr(h * Pow(2, s), y) == h * Pow(2, s) + y == BitOr(y, h * Pow(2, s))
  {
    if s == 0 {
      OrZero(h);
    } else {
      var p := Pow(2, s - 1);
      assert h * Pow(2, s) == 2 * (h * p);
      OrDisjoint(h, y / 2, s - 1);
    }
  }

  /** The lowest bit of a number modulo 2p, and the rest. */
  lemma ModDouble(x: nat, p: nat)
    requires p > 0
    ensures x % (2 * p) == x % 2 + 2 * ((x / 2) % p) && x / (2 * p) == x / 2 / p
  {
    var q, r := (x / 2) / p, (x / 2) % p;
    DivModSplit(x / 2, p);
    assert x == x % 2 + 2 * (q * p + r) == q * (2 * p) + (x % 2 + 2 * r);
    DivModUnique(x, 2 * p, q, x % 2 + 2 * r);
  }

  /** Masking with 2^s - 1 is the remainder modulo 2^s. */
  lemma {:induction false} AndMask(x: nat, s: nat)
    ensures Pow(2, s) > 0 && BitAnd(x, Pow(2, s) - 1) == x % Pow(2, s)
  {
    PowPos(2, s);
    if x == 0 {
      ModSmall(0, Pow(2, s));
    } else if s > 0 {
      AndMask(x / 2, s - 1);
      ModDouble(x, Pow(2, s - 1));
    }
  }

  // ------------------------------------------------------------ single bits

  /** Bit i of x. */
  function Bit(x: nat, i: nat): bool {
    if i == 0 then x % 2 == 1 else Bit(x / 2, i - 1)
  }

  lemma {:induction false} BitZero(i: nat)
    ensures !Bit(0, i)
  {
    if i > 0 { BitZero(i - 1); }
  }

  lemma {:induction false} XorBit(x: nat, y: nat, i: nat)
    ensures Bit(BitXor(x, y), i) <==> Bit(x, i) != Bit(y, i)
  {
    if x == 0 && y == 0 { BitZero(i); } else if i > 0 { XorBit(x / 2, y / 2, i - 1); }
  }

  /** Testing against a single bit. */
  lemma {:induction false} TestBit(x: nat, i: nat)
    ensures BitAnd(x, Pow(2, i)) != 0 <==> Bit(x, i)
  {
    PowPos(2, i);
    if x == 0 {
      BitZero(i);
    } else if i > 0 {
      assert Pow(2, i) / 2 == Pow(2, i - 1) && Pow(2, i) % 2 == 0;
      TestBit(x / 2, i - 1);
    }
  }

  /** A bit as arithmetic. */
  lemma {:induction false} BitValue(x: nat, i: nat)
    ensures Pow(2, i) > 0 && (Bit(x, i) <==> (x / Pow(2, i)) % 2 == 1)
  {
    PowPos(2, i);
    if i > 0 {
      BitValue(x / 2, i - 1);
      PowPos(2, i - 1);
      DivDiv(x, 2, Pow(2, i - 1));
    }
  }

  /** The top bit of a number of i + 1 bits. */
  lemma TopBit(x: nat, i: nat)
    requires x < Pow(2, i + 1)
    ensures Bit(x, i) <==> Pow(2, i) <= x
  {
    BitValue(x, i);
    PowSucc(2, i);
    var p := Pow(2, i);
    if p <= x { DivModUnique(x, p, 1, x - p); } else { ModSmall(x, p); }
  }

  /** The bits below position n are those of the number modulo 2^n. */
  lemma {:induction false} LowBit(x: nat, n: nat, i: nat)
    requires i < n
    ensures Pow(2, n) > 0 && 0 <= x % Pow(2, n) && (Bit(x % Pow(2, n), i) <==> Bit(x, i))
    decreases i
  {
    hide Bit;
    ModOfHalf(x, n);
    if i > 0 {
      LowBit(x / 2, n - 1, i - 1);
      BitOfHalf(x, i);
      BitOfHalf(x % Pow(2, n), i);
    } else {
      LowestBit(x);
      LowestBit(x % Pow(2, n));
    }
  }

  lemma ModOfHalf(x: nat, n: nat)
    requires 0 < n
    ensures Pow(2, n) > 0 && Pow(2, n - 1) > 0 && 0 <= x % Pow(2, n)
    ensures (x % Pow(2, n)) % 2 == x % 2 && (x % Pow(2, n)) / 2 == (x / 2) % Pow(2, n - 1)
  {
    hide Pow;
    PowPos(2, n - 1);
    PowSucc(2, n - 1);
    DivModSplit(x, Pow(2, n));
    ModDouble(x, Pow(2, n - 1));
  }

  lemma LowestBit(x: nat)
    ensures Bit(x, 0) <==> x % 2 == 1
  {}

  /** The bits above position k are those of the number divided by 2^k. */
  lemma {:induction false} ShiftedBit(x: nat, k: nat, i: nat)
    ensures Pow(2, k) > 0 && 0 <= x / Pow(2, k) && (Bit(x / Pow(2, k), i) <==> Bit(x, k + i))
  {
    PowPos(2, k);
    if k > 0 {
      PowPos(2, k - 1);
      ShiftedBit(x / 2, k - 1, i);
      DivDiv(x, 2, Pow(2, k - 1));
    } else {
      assert Pow(2, 0) == 1;
    }
  }

  /** The carry into position i of a sum of two numbers and a carry-in. */
  function CarryInto(x: nat, y: nat, c: nat, i: nat): bool {
    PowPos(2, i);
    DivModSplit(x, Pow(2, i));
    x % Pow(2, i) + y % Pow(2, i) + c >= Pow(2, i)
  }

  /** A bit of a sum is the two bits and the carry into their position, added modulo two. */
  lemma {:induction false} SumBit(x: nat, y: nat, c: nat, i: nat)
    requires c <= 1
    ensures Bit(x + y + c, i) <==> (Bit(x, i) != (Bit(y, i) != CarryInto(x, y, c, i)))
    decreases i
  {
    hide Bit, CarryInto;
    if i == 0 {
      LowestBits(x, y, c);
    } else {
      var d := (x % 2 + y % 2 + c) / 2;
      SumBit(x / 2, y / 2, d, i - 1);
      CarryStep(x, y, c, d, i);
      BitOfHalf(x + y + c, i);
      BitOfHalf(x, i);
      BitOfHalf(y, i);
    }
  }

  lemma LowestBits(x: nat, y: nat, c: nat)
    requires c <= 1
    ensures Bit(x + y + c, 0) <==> (Bit(x, 0) != (Bit(y, 0) != CarryInto(x, y, c, 0)))
  {
    assert Pow(2, 0) == 1;
  }

  lemma BitOfHalf(x: nat, i: nat)
    requires 0 < i
    ensures Bit(x, i) <==> Bit(x / 2, i - 1)
  {}

  lemma CarryStep(x: nat, y: nat, c: nat, d: nat, i: nat)
    requires c <= 1 && d == (x % 2 + y % 2 + c) / 2 && 0 < i
    ensures CarryInto(x, y, c, i) <==> CarryInto(x / 2, y / 2, d, i - 1)
  {
    hide Pow;
    PowPos(2, i - 1);
    PowSucc(2, i - 1);
    ModDouble(x, Pow(2, i - 1));
    ModDouble(y, Pow(2, i - 1));
  }

  // --------------------------------------------- parallel deposit and extract

  /** Ones among the low n bits of a mask. */
  function PopCount(mask: nat, n: nat): nat {
    if n == 0 then 0 else mask % 2 + PopCount(mask / 2, n - 1)
  }

  /** The bits of x at the ones of the mask, packed. */
  function Extracted(x: nat, mask: nat, n: nat): nat {
    if n == 0 then 0
    else if mask % 2 == 1 then x % 2 + 2 * Extracted(x / 2, mask / 2, n - 1)
    else Extracted(x / 2, mask / 2, n - 1)
  }

  /** The low bits of x, spread over the ones of the mask. */
  function Deposited(x: nat, mask: nat, n: nat): nat {
    if n == 0 then 0
    else if mask % 2 == 1 then x % 2 + 2 * Deposited(x / 2, mask / 2, n - 1)
    else 2 * Deposited(x, mask / 2, n - 1)
  }

  /** Depositing what was extracted gives back the masked bits. */
  lemma {:induction false} DepositExtract(x: nat, mask: nat, n: nat)
    requires mask < Pow(2, n)
    ensures Deposited(Extracted(x, mask, n), mask, n) == BitAnd(x, mask)
  {
    if n > 0 {
      DepositExtract(x / 2, mask / 2, n - 1);
    }
  }

  /** Extracting what was deposited gives back as many low bits as the mask has ones. */
  lemma {:induction false} ExtractDeposit(x: nat, mask: nat, n: nat)
    ensures Pow(2, PopCount(mask, n)) > 0
    ensures Extracted(Deposited(x, mask, n), mask, n) == x % Pow(2, PopCount(mask, n))
  {
    PowPos(2, PopCount(mask, n));
    if n > 0 {
      var rest := if mask % 2 == 1 then x / 2 else x;
      ExtractDeposit(rest, mask / 2, n - 1);
      DepositedHalf(x, mask, n, rest);
      if mask % 2 == 1 { ModDouble(x, Pow(2, PopCount(mask / 2, n - 1))); }
    }
  }

  lemma DepositedHalf(x: nat, mask: nat, n: nat, rest: nat)
    requires n > 0 && rest == if mask % 2 == 1 then x / 2 else x
    ensures Deposited(x, mask, n) / 2 == Deposited(rest, mask / 2, n - 1)
    ensures mask % 2 == 1 ==> Deposited(x, mask, n) % 2 == x % 2
  {}

  /** Bit by bit: what stands at a one of the mask comes to the place that counts the ones below it. */
  lemma {:induction false} ExtractedBit(x: nat, mask: nat, n: nat, i: nat)
    requires i < n && Bit(mask, i)
    ensures Bit(Extracted(x, mask, n), PopCount(mask, i)) <==> Bit(x, i)
    decreases n
  {
    if i > 0 { ExtractedBit(x / 2, mask / 2, n - 1, i - 1); }
  }

  /** And back: at a one of the mask stands the bit that counts the ones below it, at a zero nothing. */
  lemma {:induction false} DepositedBit(x: nat, mask: nat, n: nat, i: nat)
    requires i < n
    ensures Bit(Deposited(x, mask, n), i) <==> Bit(mask, i) && Bit(x, PopCount(mask, i))
    decreases n
  {
    var rest := if mask % 2 == 1 then x / 2 else x;
    DepositedHalf(x, mask, n, rest);
    if i > 0 { DepositedBit(rest, mask / 2, n - 1, i - 1); }
  }

  /** Neither leaves a bit above the ones of the mask, or above its n bits. */
  lemma {:induction false} ExtractDepositBound(x: nat, mask: nat, n: nat)
    ensures Extracted(x, mask, n) < Pow(2, PopCount(mask, n)) && Deposited(x, mask, n) < Pow(2, n)
  {
    if n > 0 {
      ExtractDepositBound(x / 2, mask / 2, n - 1);
      ExtractDepositBound(x, mask / 2, n - 1);
    }
  }

  /** The loop of the extraction, from the lowest bit up. */
  method Pext(source: nat, mask: nat, size: nat) returns (result: nat)
    ensures result == Extracted(source, mask, 8 * size)
  {
    var bits := 8 * size;
    result := 0;
    var destinationBit := 0;
    PowZero();
    for i := 0 to bits
      invariant Pow(2, i) > 0 && 0 <= source / Pow(2, i) && 0 <= mask / Pow(2, i)
      invariant result < Pow(2, destinationBit)
      invariant result + Pow(2, destinationBit) * Extracted(source / Pow(2, i), mask / Pow(2, i), bits - i) == Extracted(source, mask, bits)
    {
      ghost var s, m, p := source / Pow(2, i), mask / Pow(2, i), Pow(2, destinationBit);
      PowPos(2, i);
      DivDiv(source, Pow(2, i), 2);
      DivDiv(mask, Pow(2, i), 2);
      PowSucc(2, i);
      BitStep(result, p, s % 2, Extracted(s / 2, m / 2, bits - i - 1));
      if (mask / Pow(2, i)) % 2 != 0 {
        if (source / Pow(2, i)) % 2 != 0 {
          OrDisjoint(1, result, destinationBit);
          result := BitOr(result, 1 * Pow(2, destinationBit));
        }
        destinationBit := destinationBit + 1;
      }
    }
  }

  lemma PowZero()
    ensures Pow(2, 0) == 1 && forall x: nat :: x / Pow(2, 0) == x
  {}

  lemma BitStep(r: nat, p: nat, b: nat, e: nat)
    requires b <= 1 && r < p
    ensures r + p * (b + 2 * e) == (if b == 1 then r + p else r) + (2 * p) * e
    ensures (if b == 1 then r + p else r) < 2 * p
  {
    MulDist(p, b, 2 * e);
    MulAssoc(p, 2, e);
    MulAssoc(2, p, e);
  }

  /** The loop of the deposit, from the lowest bit up. */
  method Pdep(source: nat, mask: nat, size: nat) returns (result: nat)
    ensures result == Deposited(source, mask, 8 * size)
  {
    var bits := 8 * size;
    result := 0;
    var sourceBit := 0;
    PowZero();
    for i := 0 to bits
      invariant Pow(2, i) > 0 && Pow(2, sourceBit) > 0 && 0 <= source / Pow(2, sourceBit) && 0 <= mask / Pow(2, i)
      invariant result < Pow(2, i)
      invariant result + Pow(2, i) * Deposited(source / Pow(2, sourceBit), mask / Pow(2, i), bits - i) == Deposited(source, mask, bits)
    {
      ghost var s, m, p := source / Pow(2, sourceBit), mask / Pow(2, i), Pow(2, i);
      PowPos(2, i);
      PowPos(2, sourceBit);
      DivDiv(source, Pow(2, sourceBit), 2);
      DivDiv(mask, Pow(2, i), 2);
      PowSucc(2, i);
      PowSucc(2, sourceBit);
      if (mask / Pow(2, i)) % 2 != 0 {
        BitStep(result, p, s % 2, Deposited(s / 2, m / 2, bits - i - 1));
        if (source / Pow(2, sourceBit)) % 2 != 0 {
          OrDisjoint(1, result, i);
          result := BitOr(result, 1 * Pow(2, i));
        }
        sourceBit := sourceBit + 1;
      } else {
        BitStep(result, p, 0, Deposited(s, m / 2, bits - i - 1));
      }
    }
  }
}
