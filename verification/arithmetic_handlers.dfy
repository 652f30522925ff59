/** The multiply and divide instructions, against plain integers. */
module ArithmeticHandlers {
  import opened Limbs
  import opened TwosComplement
  import opened WideInteger
  import opened Cpu

  datatype StopReason = Fine | PageFault | DivideError

  /** The operand of an instruction: its truncated value, unless reading it faults. */
  datatype Operand = Unreadable | Operand(value: nat)

  /** The registers of the low and the high half of a double-width value: AX and DX, EAX and EDX, RAX and RDX. */
  function LowRegister(width: nat): Register { if width == 2 then AX else if width == 4 then EAX else RAX }
  function HighRegister(width: nat): Register { if width == 2 then DX else if width == 4 then EDX else RDX }

  /** The double-width number of an instruction: the low half stands in register 0, the high half in register 2, each
      in the low bytes of the operand width; of single bytes both stand in the low 16 bits of register 0. */
  ghost function Pair(gpr: seq<nat>, width: nat, signed: bool): int
    requires |gpr| == 16 && IsWidth(width)
  {
    var M := Range(width);
    if width == 1 then Number(M * M, gpr[0] % 0x1_0000, signed) else Number(M * M, gpr[2] % M * M + gpr[0] % M, signed)
  }

  /** The part of a full register above what an instruction leaves in it: kept at 8 and 16 bits, cleared at 32. */
  ghost predicate Above(now: nat, was: nat, width: nat) {
    (width <= 2 ==> now / 0x1_0000 == was / 0x1_0000) && (width == 4 ==> now < 0x1_0000_0000)
  }

  /** The quotient does not fit, or there is none. */
  predicate Faults(width: nat, signed: bool, dividend: int, divisor: int)
    requires IsWidth(width)
  {
    divisor == 0 || !Holds(Range(width), signed, TruncDiv(dividend, divisor))
  }

  /** What a division leaves: the truncated quotient in register 0 and the remainder in register 2, wrapped to the
      operand width; for bytes in the lowest and the second byte of register 0. */
  ghost predicate Divided(now: seq<nat>, was: seq<nat>, width: nat, dividend: int, divisor: int)
    requires |now| == 16 && |was| == 16 && IsWidth(width) && divisor != 0
  {
    var M := Range(width);
    var quotient, remainder := Wrap(M, TruncDiv(dividend, divisor)), Wrap(M, TruncMod(dividend, divisor));
    && now[0] % M == quotient && (if width == 1 then now[0] / 0x100 % 0x100 else now[2] % M) == remainder
    && Above(now[0], was[0], width) && (width != 1 ==> Above(now[2], was[2], width))
  }

  /** Only the named registers changed. */
  predicate OnlyChanged(now: seq<nat>, was: seq<nat>, high: nat) {
    |now| == |was| && forall i :: 0 < i < |now| && i != high ==> now[i] == was[i]
  }

  /** Whatever the operands: a faulting division changes nothing, and any other leaves q and r with
      dividend == q * divisor + r, |r| < |divisor| and the sign of r that of the dividend, both of them
      readable from the registers without loss. */
  lemma DivisionMeaning(width: nat, signed: bool, dividend: int, divisor: int)
    requires IsWidth(width) && Holds(Range(width), signed, divisor) && !Faults(width, signed, dividend, divisor)
    ensures var q, r := TruncDiv(dividend, divisor), TruncMod(dividend, divisor);
      && dividend == divisor * q + r && Abs(r) < Abs(divisor) && (dividend < 0 ==> r <= 0) && (0 <= dividend ==> 0 <= r)
      && Number(Range(width), Wrap(Range(width), q), signed) == q
      && (signed || 0 <= dividend ==> Number(Range(width), Wrap(Range(width), r), signed) == r)
  {
    TruncModSign(dividend, divisor);
    WrapNumber(Range(width), TruncDiv(dividend, divisor), signed);
    if signed || 0 <= dividend { WrapNumber(Range(width), TruncMod(dividend, divisor), signed); }
  }

  /** And it faults only then: a quotient that fits, with a remainder smaller than the divisor and of the sign of the
      dividend, is the one that is left. */
  lemma FaultsExactly(width: nat, signed: bool, dividend: int, divisor: int, q: int, r: int)
    requires IsWidth(width) && divisor != 0 && dividend == divisor * q + r && Abs(r) < Abs(divisor)
    requires (dividend < 0 ==> r <= 0) && (0 <= dividend ==> 0 <= r)
    ensures q == TruncDiv(dividend, divisor) && r == TruncMod(dividend, divisor)
    ensures Faults(width, signed, dividend, divisor) <==> !Holds(Range(width), signed, q)
  {
    hide Holds, Range;
    var size := if (dividend < 0) != (divisor < 0) then 0 - q else q;
    assert Abs(dividend) == Abs(divisor) * size + Abs(r) by {
      if divisor < 0 { NegateBoth(0 - divisor, q); }
    }
    DivModUnique(Abs(dividend), Abs(divisor), size, Abs(r));
  }

  // ------------------------------------------------------------ DIV and IDIV

  /** A quotient and a remainder into the register pair, or the fault. */
  method WriteQuotient(s: CpuState, width: nat, signed: bool, dividend: int, divisor: int) returns (reason: StopReason)
    requires s.Valid() && (width == 2 || width == 4) && divisor != 0
    modifies s.gpr
    ensures s.Valid() && OnlyChanged(s.gpr[..], old(s.gpr[..]), 2)
    ensures reason == if Faults(width, signed, dividend, divisor) then DivideError else Fine
    ensures reason == DivideError ==> s.gpr[..] == old(s.gpr[..])
    ensures reason == Fine ==> Divided(s.gpr[..], old(s.gpr[..]), width, dividend, divisor)
  {
    var M := Range(width);
    var quotient, remainder := TruncDiv(dividend, divisor), TruncMod(dividend, divisor);
    if !Holds(M, signed, quotient) {
      return DivideError;
    }
    WrapTwice(M, quotient);
    WrapTwice(M, remainder);
    WritePair(s, width, Wrap(M, quotient), Wrap(M, remainder));
    reason := Fine;
  }

  /** The two halves into the register pair. */
  method WritePair(s: CpuState, width: nat, low: nat, high: nat)
    requires s.Valid() && (width == 2 || width == 4 || width == 8) && low < Range(width) && high < Range(width)
    modifies s.gpr
    ensures s.Valid() && OnlyChanged(s.gpr[..], old(s.gpr[..]), 2)
    ensures s.gpr[0] % Range(width) == low && Above(s.gpr[0], old(s.gpr[0]), width)
    ensures s.gpr[2] % Range(width) == high && Above(s.gpr[2], old(s.gpr[2]), width)
  {
    ModSmall(low, Range(width));
    ModSmall(high, Range(width));
    s.WriteRegister(LowRegister(width), low);
    s.WriteRegister(HighRegister(width), high);
  }

  lemma WrapTwice(M: nat, z: int)
    requires 0 < M
    ensures Wrap(M, z) % M == Wrap(M, z) < M
  {
    DivModSplit(z, M);
    ModSmall(Wrap(M, z), M);
  }

  /** DIV and IDIV of AX by a byte. */
  method HandleDivRm8(s: CpuState, operand: Operand, signed: bool) returns (reason: StopReason)
    requires s.Valid() && (operand.Operand? ==> operand.value < 0x100)
    modifies s.gpr
    ensures s.Valid() && OnlyChanged(s.gpr[..], old(s.gpr[..]), 0)
    ensures reason == if operand.Unreadable? then PageFault
                      else if Faults(1, signed, old(Pair(s.gpr[..], 1, signed)), Number(0x100, operand.value, signed)) then DivideError else Fine
    ensures reason != Fine ==> s.gpr[..] == old(s.gpr[..])
    ensures reason == Fine ==>
      operand.Operand? && Number(0x100, operand.value, signed) != 0 && Divided(s.gpr[..], old(s.gpr[..]), 1, old(Pair(s.gpr[..], 1, signed)), Number(0x100, operand.value, signed))
  {
    if operand.Unreadable? {
      return PageFault;
    }
    if operand.value == 0 {
      return DivideError;
    }
    var dividend := Number(0x1_0000, s.Read(AX), signed);
    var rhs := Number(0x100, operand.value, signed);
    var quotient, remainder := TruncDiv(dividend, rhs), TruncMod(dividend, rhs);
    if !Holds(0x100, signed, quotient) {
      return DivideError;
    }
    WrapTwice(0x100, quotient);
    WrapTwice(0x100, remainder);
    WriteBytes(s, Wrap(0x100, quotient), Wrap(0x100, remainder));
    reason := Fine;
  }

  /** Two bytes into AL and AH. */
  method WriteBytes(s: CpuState, low: nat, high: nat)
    requires s.Valid() && low < 0x100 && high < 0x100
    modifies s.gpr
    ensures s.Valid() && OnlyChanged(s.gpr[..], old(s.gpr[..]), 0)
    ensures s.gpr[0] % 0x100 == low && s.gpr[0] / 0x100 % 0x100 == high && s.gpr[0] / 0x1_0000 == old(s.gpr[0]) / 0x1_0000
  {
    ModSmall(low, 0x100);
    ModSmall(high, 0x100);
    ghost var was := s.gpr[0];
    s.WriteRegister(AL, low);
    UpperDigits(s.gpr[0], was);
    s.WriteRegister(AH, high);
  }

  lemma UpperDigits(now: nat, was: nat)
    requires now / 0x100 == was / 0x100
    ensures now / 0x1_0000 == was / 0x1_0000
  {
    DivDiv(now, 0x100, 0x100);
    DivDiv(was, 0x100, 0x100);
  }

  /** DIV and IDIV of DX:AX by a word and of EDX:EAX by a double word.  The signed forms test the one
      quotient that the built-in division cannot form before dividing. */
  method HandleDivNarrow(s: CpuState, width: nat, operand: Operand, signed: bool) returns (reason: StopReason)
    requires s.Valid() && (width == 2 || width == 4) && (operand.Operand? ==> operand.value < Range(width))
    modifies s.gpr
    ensures s.Valid() && OnlyChanged(s.gpr[..], old(s.gpr[..]), 2)
    ensures reason == if operand.Unreadable? then PageFault
                      else if Faults(width, signed, old(Pair(s.gpr[..], width, signed)), Number(Range(width), operand.value, signed)) then DivideError else Fine
    ensures reason != Fine ==> s.gpr[..] == old(s.gpr[..])
    ensures reason == Fine ==>
      operand.Operand? && Number(Range(width), operand.value, signed) != 0 && Divided(s.gpr[..], old(s.gpr[..]), width, old(Pair(s.gpr[..], width, signed)), Number(Range(width), operand.value, signed))
  {
    hide Divided, Holds, Wrap, TruncDiv, TruncMod;
    if operand.Unreadable? {
      return PageFault;
    }
    if operand.value == 0 {
      return DivideError;
    }
    var M := Range(width);
    var dividend := Number(M * M, s.Read(HighRegister(width)) * M + s.Read(LowRegister(width)), signed);
    var rhs := Number(M, operand.value, signed);
    if signed && rhs == -1 && 2 * dividend + M * M == 0 {
      SmallestByMinusOne(M, dividend);
      return DivideError;
    }
    reason := WriteQuotient(s, width, signed, dividend, rhs);
  }

  /** The smallest number divided by -1 does not fit. */
  lemma SmallestByMinusOne(M: nat, dividend: int)
    requires 256 <= M && 2 * dividend + M * M == 0
    ensures !Holds(M, true, TruncDiv(dividend, -1))
  {
    DivModUnique(Abs(dividend), 1, Abs(dividend), 0);
    MulLe(256, M, M);
  }

  // --------------------------------------------- 128-bit numbers in the engine

  /** The source's 128-bit types: four limbs of 32 digits. */
  const DIGITS: nat := 32
  const LIMBS: nat := 4

  ghost predicate Is128(x: UintWide) {
    x.digits == DIGITS && x.values.Length == LIMBS
  }

  lemma Modulus128(x: UintWide)
    requires x.Valid() && Is128(x)
    ensures x.Modulus() == QWORD * QWORD && Pow(x.base, 2) == QWORD
  {
    Ranges();
    PowAdd(x.base, 2, 2);
    PowSucc(x.base, 1);
    PowSucc(x.base, 0);
  }

  method Wide(signed: bool, z: int) returns (x: UintWide)
    ensures fresh(x) && fresh(x.values) && x.Valid() && Is128(x) && x.signed == signed
    ensures x.Modulus() == QWORD * QWORD && x.Raw() == Wrap(QWORD * QWORD, z)
  {
    x := new UintWide.FromNumber(DIGITS, LIMBS, signed, z);
    Modulus128(x);
  }

  /** The low 64 bits. */
  method LowQword(x: UintWide) returns (v: nat)
    requires x.Valid() && Is128(x)
    ensures v == x.Raw() % QWORD < QWORD
  {
    Modulus128(x);
    DivModSplit(x.Raw(), QWORD);
    v := x.Extract(2);
  }

  /** Limbs below a power of the base that divides the number are zero. */
  lemma ZeroLimbsBelow(B: Base, s: seq<nat>, i: nat)
    requires i <= |s| && IsLimbs(B, s) && Pow(B, i) > 0 && Val(B, s) % Pow(B, i) == 0
    ensures forall k :: 0 <= k < i ==> s[k] == 0
  {
    ValDivMod(B, s, i);
    ValZeros(B, s[..i]);
    assert forall k :: 0 <= k < i ==> s[..i][k] == s[k];
  }

  lemma ZeroLimbsAbove(B: Base, s: seq<nat>, i: nat)
    requires i <= |s| && IsLimbs(B, s) && Val(B, s) < Pow(B, i)
    ensures forall k :: i <= k < |s| ==> s[k] == 0
  {
    ValDivMod(B, s, i);
    ModSmall(Val(B, s), Pow(B, i));
    ValZeros(B, s[i..]);
    assert forall k :: i <= k < |s| ==> s[i..][k - i] == s[k];
  }

  /** The 128-bit dividend: the high register, extended by its sign when signed, shifted up and joined with
      the low register. */
  method Dividend(signed: bool, high: nat, low: nat) returns (x: UintWide)
    requires high < QWORD && low < QWORD
    ensures fresh(x) && fresh(x.values) && x.Valid() && Is128(x) && x.signed == signed
    ensures x.Modulus() == QWORD * QWORD && x.Raw() == high * QWORD + low
  {
    x := Wide(signed, Number(QWORD, high, signed));
    x.ShiftLeftAssign(64);
    Ranges();
    ShiftedHigh(high, signed, x.Raw());
    var lowWide := Wide(signed, low);
    QwordFits(low);
    ModSmall(low, QWORD * QWORD);
    Modulus128(x);
    Modulus128(lowWide);
    ZeroLimbsBelow(x.base, x.values[..], 2);
    ZeroLimbsAbove(x.base, lowWide.values[..], 2);
    x.OrAssign(lowWide);
  }

  lemma QwordFits(low: nat)
    requires low < QWORD
    ensures low < QWORD * QWORD
  {}

  lemma ShiftedHigh(high: nat, signed: bool, raw: nat)
    requires high < QWORD && raw == Wrap(QWORD * QWORD, Wrap(QWORD * QWORD, Number(QWORD, high, signed)) * QWORD)
    ensures raw == high * QWORD && raw % QWORD == 0
  {
    var M, h := QWORD * QWORD, Number(QWORD, high, signed);
    DivModSplit(h, M);
    var w := Wrap(M, h);
    assert w * QWORD == h * QWORD - (h / M) * QWORD * M;
    WrapShift(M, w * QWORD, h * QWORD, (h / M) * QWORD);
    WrapShift(M, h * QWORD, high * QWORD, if h == high then 0 else 1);
    ModSmall(high * QWORD, M);
    DivModUnique(high * QWORD, QWORD, high, 0);
  }

  /** Quotient and remainder of the 128-bit division, and whether the quotient leaves 64 bits. */
  method Divide128(signed: bool, high: nat, low: nat, divisor: nat) returns (fits: bool, q: nat, r: nat)
    requires high < QWORD && low < QWORD && 0 < divisor < QWORD
    ensures var d, v := Number(QWORD * QWORD, high * QWORD + low, signed), Number(QWORD, divisor, signed);
      && v != 0 && (fits <==> Holds(QWORD, signed, TruncDiv(d, v)))
      && (fits ==> q == Wrap(QWORD, TruncDiv(d, v)) && r == Wrap(QWORD, TruncMod(d, v)))
  {
    hide Pow, Val;
    var dividend := Dividend(signed, high, low);
    var rhs := Wide(signed, Number(QWORD, divisor, signed));
    ghost var d, v := Number(QWORD * QWORD, high * QWORD + low, signed), Number(QWORD, divisor, signed);
    WideNumber(v, divisor, signed);
    assert dividend.Num() == d && rhs.Num() == v;
    dividend.Facts();
    var quotient := new UintWide.Copied(dividend, signed);
    quotient.DivAssign(rhs);
    var remainder := new UintWide.Copied(dividend, signed);
    remainder.ModAssign(rhs);
    var most := Wide(signed, if signed then 0x7FFF_FFFF_FFFF_FFFF else 0xFFFF_FFFF_FFFF_FFFF);
    var least := Wide(signed, if signed then -0x8000_0000_0000_0000 else 0);
    WideNumber(if signed then 0x7FFF_FFFF_FFFF_FFFF else 0xFFFF_FFFF_FFFF_FFFF, 0, signed);
    WideNumber(if signed then -0x8000_0000_0000_0000 else 0, 0, signed);
    Modulus128(quotient);
    Modulus128(remainder);
    var above := quotient.Compare(most);
    var below := quotient.Compare(least);
    fits := above != 1 && below != -1;
    q := LowQword(quotient);
    r := LowQword(remainder);
    Fits64(signed, d, v, quotient.Num(), quotient.Raw());
    remainder.Facts();
    LowPart64(remainder.Num(), remainder.Raw(), signed);
  }

  /** A number of at most 64 bits is itself in 128 bits. */
  lemma WideNumber(z: int, x: nat, signed: bool)
    requires Holds(QWORD, signed, z) || (x < QWORD && z == Number(QWORD, x, signed))
    ensures Number(QWORD * QWORD, Wrap(QWORD * QWORD, z), signed) == z
  {
    if !Holds(QWORD, signed, z) { NumberWrap(QWORD, x, signed); }
    WrapNumber(QWORD * QWORD, z, signed);
  }

  /** The low half of a wrapped number is the number wrapped to 64 bits. */
  lemma LowPart64(z: int, raw: nat, signed: bool)
    requires raw < QWORD * QWORD && Number(QWORD * QWORD, raw, signed) == z
    ensures raw % QWORD == Wrap(QWORD, z)
  {
    var k := if z == raw then 0 else QWORD;
    ModAddMultiple(raw, 0 - k, QWORD);
  }

  /** The comparison of the wrapped quotient with the 64-bit limits is right, also for the one quotient
      that wraps: the smallest 128-bit number divided by -1 comes out below the limits. */
  lemma Fits64(signed: bool, d: int, v: int, num: int, raw: nat)
    requires v != 0 && Holds(QWORD * QWORD, signed, d) && Holds(QWORD, signed, v)
    requires raw == Wrap(QWORD * QWORD, TruncDiv(d, v)) && num == Number(QWORD * QWORD, raw, signed)
    ensures Holds(QWORD, signed, num) <==> Holds(QWORD, signed, TruncDiv(d, v))
    ensures Holds(QWORD, signed, num) ==> raw % QWORD == Wrap(QWORD, TruncDiv(d, v))
  {
    var M, q := QWORD * QWORD, TruncDiv(d, v);
    TruncSmaller(d, v);
    if Holds(M, signed, q) {
      WrapNumber(M, q, signed);
    } else {
      DivModUnique(q, M, 0, q);
    }
    DivModSplit(q, M);
    LowPart64(num, raw, signed);
  }

  /** A quotient is no larger than the dividend. */
  lemma TruncSmaller(d: int, v: int)
    requires v != 0
    ensures Abs(TruncDiv(d, v)) <= Abs(d) && (0 <= d && 0 <= v ==> 0 <= TruncDiv(d, v))
  {
    DivModSplit(Abs(d), Abs(v));
    MulLe(1, Abs(v), Abs(d) / Abs(v));
  }

  /** DIV and IDIV of RDX:RAX by a quad word, in the multi-limb engine. */
  method HandleDivRm64(s: CpuState, operand: Operand, signed: bool) returns (reason: StopReason)
    requires s.Valid() && (operand.Operand? ==> operand.value < QWORD)
    modifies s.gpr
    ensures s.Valid() && OnlyChanged(s.gpr[..], old(s.gpr[..]), 2)
    ensures reason == if operand.Unreadable? then PageFault
                      else if Faults(8, signed, old(Pair(s.gpr[..], 8, signed)), Number(QWORD, operand.value, signed)) then DivideError else Fine
    ensures reason != Fine ==> s.gpr[..] == old(s.gpr[..])
    ensures reason == Fine ==>
      operand.Operand? && Number(QWORD, operand.value, signed) != 0 && Divided(s.gpr[..], old(s.gpr[..]), 8, old(Pair(s.gpr[..], 8, signed)), Number(QWORD, operand.value, signed))
  {
    if operand.Unreadable? {
      return PageFault;
    }
    if operand.value == 0 {
      return DivideError;
    }
    var low, high := s.Read(RAX), s.Read(RDX);
    var fits, quotient, remainder := Divide128(signed, high, low, operand.value);
    if !fits {
      return DivideError;
    }
    WrapTwice(QWORD, TruncDiv(Number(QWORD * QWORD, high * QWORD + low, signed), Number(QWORD, operand.value, signed)));
    WrapTwice(QWORD, TruncMod(Number(QWORD * QWORD, high * QWORD + low, signed), Number(QWORD, operand.value, signed)));
    s.WriteRegister(RAX, quotient);
    s.WriteRegister(RDX, remainder);
    reason := Fine;
  }

  // ------------------------------------------------------------ MUL and IMUL

  /** What a multiplication leaves: the whole product in the register pair, and carry and overflow set
      exactly when the product does not fit the operand width; the zero flag is cleared. */
  ghost predicate Multiplied(now: seq<nat>, was: seq<nat>, flags: Flags, width: nat, signed: bool, lhs: int, rhs: int)
    requires |now| == 16 && |was| == 16 && IsWidth(width)
  {
    && Pair(now, width, signed) == lhs * rhs
    && Above(now[0], was[0], width) && (width != 1 ==> Above(now[2], was[2], width))
    && (flags.cf <==> !Holds(Range(width), signed, lhs * rhs)) && flags.of == flags.cf && !flags.zf && !flags.af
    && (flags.sf <==> SignedValue(Wrap(Range(width), lhs * rhs), width) < 0)
    && flags.pf == EvenParity(Wrap(Range(width), lhs * rhs) % 0x100)
  }

  /** A product of two numbers of one width fits twice the width. */
  lemma ProductHolds(M: nat, signed: bool, x: int, y: int)
    requires 256 <= M && M % 2 == 0 && Holds(M, signed, x) && Holds(M, signed, y)
    ensures (M * M) % 2 == 0 && Holds(M * M, signed, x * y)
  {
    var h := M / 2;
    SquareOfHalf(h, M);
    if signed { SignedBound(h, x, y); } else { UnsignedBound(M, x, y); }
  }

  lemma SquareOfHalf(h: nat, M: nat)
    requires M == 2 * h && 0 < h
    ensures M * M == 4 * (h * h) && 0 < h * h
  {
    MulAssoc(2, h, M);
    MulAssoc(h, 2, h);
    MulPos(h, h);
  }

  lemma UnsignedBound(M: nat, x: nat, y: nat)
    requires x < M && y < M
    ensures 0 <= x * y < M * M
  {
    MulLe(x, M - 1, y);
    MulLe(y, M - 1, M - 1);
    MulLe(0, x, y);
    MulDist(M - 1, M, -1);
  }

  lemma SignedBound(h: nat, x: int, y: int)
    requires 0 < h && 0 - h <= x < h && 0 - h <= y < h
    ensures 0 - h * h <= x * y <= h * h
  {
    MulLe(Abs(x), h, Abs(y));
    MulLe(Abs(y), h, h);
    MulLe(0, Abs(x), Abs(y));
  }

  /** The low half of a product, and its overflow, by its high half when unsigned and by sign extension of
      the low half when signed. */
  lemma ProductParts(M: nat, signed: bool, z: int)
    requires 256 <= M && M % 2 == 0 && (M * M) % 2 == 0 && Holds(M * M, signed, z)
    ensures var w := Wrap(M * M, z);
      && w < M * M && 0 <= w / M < M && 0 <= w % M < M && w == (w / M) * M + w % M && w % M == Wrap(M, z)
      && Number(M * M, w, signed) == z
      && (!signed ==> (w / M != 0 <==> !Holds(M, signed, z)))
      && (signed ==> (z != Number(M, Wrap(M, z), true) <==> !Holds(M, signed, z)))
  {
    var w := Wrap(M * M, z);
    WrapNumber(M * M, z, signed);
    DivModSplit(w, M);
    DivLt(w, M, M);
    var k := Congruence(M * M, w, signed);
    assert z + k * (M * M) == z + (k * M) * M;
    WrapShift(M, z, w, k * M);
    if Holds(M, signed, z) { WrapNumber(M, z, signed); } else { NumberWrap(M, Wrap(M, z), signed); }
    if !signed {
      ModSmall(z, M * M);
      if z < M { ModSmall(z, M); } else { LeDiv(1, z, M); }
    }
  }

  /** The overflow test of the source: the high half when unsigned, a comparison with the sign-extended low
      half when signed. */
  function ProductOverflows(M: nat, signed: bool, product: int): bool
    requires 0 < M
  {
    if signed then product != Number(M, Wrap(M, product), true) else (DivModSplit(product, M); product / M != 0)
  }

  /** MUL and IMUL of AL by a byte. */
  method HandleMulRm8(s: CpuState, operand: Operand, signed: bool) returns (reason: StopReason)
    requires s.Valid() && (operand.Operand? ==> operand.value < 0x100)
    modifies s, s.gpr
    ensures s.Valid() && OnlyChanged(s.gpr[..], old(s.gpr[..]), 0)
    ensures reason == if operand.Unreadable? then PageFault else Fine
    ensures reason != Fine ==> s.gpr[..] == old(s.gpr[..]) && s.flags == old(s.flags)
    ensures reason == Fine ==> Multiplied(s.gpr[..], old(s.gpr[..]), s.flags, 1, signed, Number(0x100, old(s.gpr[0]) % 0x100, signed), Number(0x100, operand.value, signed))
  {
    if operand.Unreadable? {
      return PageFault;
    }
    var lhs, rhs := Number(0x100, s.Read(AL), signed), Number(0x100, operand.value, signed);
    var product := lhs * rhs;
    NumberWrap(0x100, s.Read(AL), signed);
    NumberWrap(0x100, operand.value, signed);
    ProductHolds(0x100, signed, lhs, rhs);
    ProductParts(0x100, signed, product);
    WriteAx(s, signed, lhs, rhs, Wrap(0x1_0000, product), ProductOverflows(0x100, signed, product));
    reason := Fine;
  }

  lemma MultiplyFlagsMeaning(value: nat, width: nat, overflow: bool)
    requires IsWidth(width) && value < Range(width)
    ensures var f := MultiplyFlags(value, width, overflow);
      && f.cf == overflow && f.of == overflow && !f.zf && !f.af
      && (f.sf <==> SignedValue(value, width) < 0) && f.pf == EvenParity(value % 0x100)
  {
    hide EvenParity, SignedValue, Range;
    ModSmall(value, Range(width));
    SignFlag(value, width);
  }

  /** The product of bytes into AX, and its flags. */
  method WriteAx(s: CpuState, signed: bool, ghost lhs: int, ghost rhs: int, whole: nat, overflow: bool)
    requires s.Valid() && whole < 0x1_0000 && whole % 0x100 == Wrap(0x100, lhs * rhs)
    requires Number(0x1_0000, whole, signed) == lhs * rhs && (overflow <==> !Holds(0x100, signed, lhs * rhs))
    modifies s, s.gpr
    ensures s.Valid() && OnlyChanged(s.gpr[..], old(s.gpr[..]), 0)
    ensures Multiplied(s.gpr[..], old(s.gpr[..]), s.flags, 1, signed, lhs, rhs)
  {
    hide MultiplyFlags, EvenParity, SignedValue, Holds;
    ModSmall(whole, 0x1_0000);
    MultiplyFlagsMeaning(whole % 0x100, 1, overflow);
    s.WriteRegister(AX, whole);
    s.flags := MultiplyFlags(whole % 0x100, 1, overflow);
  }

  /** MUL and IMUL into DX:AX and EDX:EAX. */
  method HandleMulNarrow(s: CpuState, width: nat, operand: Operand, signed: bool) returns (reason: StopReason)
    requires s.Valid() && (width == 2 || width == 4) && (operand.Operand? ==> operand.value < Range(width))
    modifies s, s.gpr
    ensures s.Valid() && OnlyChanged(s.gpr[..], old(s.gpr[..]), 2)
    ensures reason == if operand.Unreadable? then PageFault else Fine
    ensures reason != Fine ==> s.gpr[..] == old(s.gpr[..]) && s.flags == old(s.flags)
    ensures reason == Fine ==>
      Multiplied(s.gpr[..], old(s.gpr[..]), s.flags, width, signed, Number(Range(width), old(s.gpr[0]) % Range(width), signed), Number(Range(width), operand.value, signed))
  {
    if operand.Unreadable? {
      return PageFault;
    }
    var M := Range(width);
    var lhs, rhs := Number(M, s.Read(LowRegister(width)), signed), Number(M, operand.value, signed);
    var product := lhs * rhs;
    NumberWrap(M, s.Read(LowRegister(width)), signed);
    NumberWrap(M, operand.value, signed);
    ProductHolds(M, signed, lhs, rhs);
    ProductParts(M, signed, product);
    var whole := Wrap(M * M, product);
    WriteProduct(s, width, signed, lhs, rhs, whole % M, whole / M, ProductOverflows(M, signed, product));
    reason := Fine;
  }

  /** The two halves of a product into the register pair, and its flags. */
  method WriteProduct(s: CpuState, width: nat, signed: bool, ghost lhs: int, ghost rhs: int, low: nat, high: nat, overflow: bool)
    requires s.Valid() && (width == 2 || width == 4 || width == 8)
    requires var M, product := Range(width), lhs * rhs;
      low == Wrap(M, product) && low < M && high < M && Number(M * M, high * M + low, signed) == product
      && (overflow <==> !Holds(M, signed, product))
    modifies s, s.gpr
    ensures s.Valid() && OnlyChanged(s.gpr[..], old(s.gpr[..]), 2)
    ensures Multiplied(s.gpr[..], old(s.gpr[..]), s.flags, width, signed, lhs, rhs)
  {
    hide MultiplyFlags, EvenParity, SignedValue, Holds, Above, Number;
    MultiplyFlagsMeaning(low, width, overflow);
    WritePair(s, width, low, high);
    s.flags := MultiplyFlags(low, width, overflow);
  }

  /** The 64-bit product in the engine: its halves, and the overflow test. */
  method Multiply128(signed: bool, a: nat, b: nat) returns (low: nat, high: nat, overflow: bool)
    requires a < QWORD && b < QWORD
    ensures var z := Number(QWORD, a, signed) * Number(QWORD, b, signed);
      && low == Wrap(QWORD, z) && low < QWORD && high < QWORD && Number(QWORD * QWORD, high * QWORD + low, signed) == z
      && (overflow <==> !Holds(QWORD, signed, z))
  {
    hide Pow, Val;
    ghost var x, y := Number(QWORD, a, signed), Number(QWORD, b, signed);
    var product := Wide(signed, Number(QWORD, a, signed));
    var rhs := Wide(signed, Number(QWORD, b, signed));
    WideNumber(x, a, signed);
    WideNumber(y, b, signed);
    NumberWrap(QWORD, a, signed);
    NumberWrap(QWORD, b, signed);
    product.MulAssign(rhs);
    Modulus128(product);
    ProductHolds(QWORD, signed, x, y);
    ProductParts(QWORD, signed, x * y);
    low := LowQword(product);
    if signed {
      var back := Wide(true, Number(QWORD, low, true));
      WideNumber(Number(QWORD, low, true), low, true);
      var order := product.Compare(back);
      overflow := order != 0;
    }
    ghost var raw := product.Raw();
    product.ShiftRightAssign(64);
    Ranges();
    product.Facts();
    high := LowQword(product);
    HighHalf(x * y, raw, signed, product.Raw());
    if !signed {
      overflow := high != 0;
    }
  }

  /** The low half of a number shifted down by 64 bits is the high half of its representation. */
  lemma HighHalf(z: int, raw: nat, signed: bool, shifted: nat)
    requires raw < QWORD * QWORD && Number(QWORD * QWORD, raw, signed) == z
    requires shifted < QWORD * QWORD && Number(QWORD * QWORD, shifted, signed) == z / QWORD
    ensures shifted % QWORD == raw / QWORD
  {
    var k := if z == raw then 0 else QWORD;
    ModAddMultiple(raw, 0 - k, QWORD);
    DivLt(raw, QWORD, QWORD);
    DivModSplit(raw, QWORD);
    ModSmall(raw / QWORD, QWORD);
    LowPart64(z / QWORD, shifted, signed);
    ModAddMultiple(raw / QWORD, if k == 0 then 0 else -1, QWORD);
  }

  /** MUL and IMUL of RAX by a quad word into RDX:RAX. */
  method HandleMulRm64(s: CpuState, operand: Operand, signed: bool) returns (reason: StopReason)
    requires s.Valid() && (operand.Operand? ==> operand.value < QWORD)
    modifies s, s.gpr
    ensures s.Valid() && OnlyChanged(s.gpr[..], old(s.gpr[..]), 2)
    ensures reason == if operand.Unreadable? then PageFault else Fine
    ensures reason != Fine ==> s.gpr[..] == old(s.gpr[..]) && s.flags == old(s.flags)
    ensures reason == Fine ==> Multiplied(s.gpr[..], old(s.gpr[..]), s.flags, 8, signed, Number(QWORD, old(s.gpr[0]), signed), Number(QWORD, operand.value, signed))
  {
    hide Multiplied, Number, Holds, Wrap;
    if operand.Unreadable? {
      return PageFault;
    }
    ModSmall(s.gpr[0], QWORD);
    ghost var lhs, rhs := Number(QWORD, s.Read(RAX), signed), Number(QWORD, operand.value, signed);
    var low, high, overflow := Multiply128(signed, s.Read(RAX), operand.value);
    WriteProduct(s, 8, signed, lhs, rhs, low, high, overflow);
    reason := Fine;
  }

  /** IMUL with a register destination: the truncated product, carry and overflow set exactly when it is not the
      product, sign and parity those of what is left, and zero and adjust cleared. */
  method HandleImulRegister(s: CpuState, width: nat, dest: Register, lhs: Operand, rhs: nat) returns (reason: StopReason)
    requires s.Valid() && (width == 2 || width == 4 || width == 8) && dest.index < 16 && Size(dest) == Range(width)
    requires rhs < Range(width) && (lhs.Operand? ==> lhs.value < Range(width))
    modifies s, s.gpr
    ensures s.Valid() && reason == if lhs.Unreadable? then PageFault else Fine
    ensures reason != Fine ==> s.gpr[..] == old(s.gpr[..]) && s.flags == old(s.flags)
    ensures reason == Fine ==>
      var product := SignedValue(lhs.value, width) * SignedValue(rhs, width);
      && s.Read(dest) == Wrap(Range(width), product)
      && (s.flags.cf <==> !Holds(Range(width), true, product)) && s.flags.of == s.flags.cf
      && (!s.flags.cf ==> SignedValue(s.Read(dest), width) == product)
      && !s.flags.zf && !s.flags.af && s.flags.pf == EvenParity(s.Read(dest) % 0x100)
      && (s.flags.sf <==> SignedValue(s.Read(dest), width) < 0)
    ensures reason == Fine ==>
      s.gpr[..] == old(s.gpr[..])[dest.index := s.gpr[dest.index]] && Above(s.gpr[dest.index], old(s.gpr[dest.index]), width)
      && s.gpr[dest.index] % Range(width) == s.Read(dest)
  {
    if lhs.Unreadable? {
      return PageFault;
    }
    var M := Range(width);
    ghost var product := Number(M, lhs.value, true) * Number(M, rhs, true);
    var low, overflow;
    if width == 8 {
      ghost var high;
      low, high, overflow := Multiply128(true, lhs.value, rhs);
    } else {
      low, overflow := MultiplyNarrow(M, lhs.value, rhs);
    }
    hide MultiplyFlags, EvenParity, Holds;
    ModSmall(low, M);
    MultiplyFlagsMeaning(low, width, overflow);
    if !overflow { FittingProduct(M, product); }
    s.WriteRegister(dest, low);
    s.flags := MultiplyFlags(low, width, overflow);
    reason := Fine;
  }

  lemma FittingProduct(M: nat, z: int)
    requires 256 <= M && M % 2 == 0 && Holds(M, true, z)
    ensures Number(M, Wrap(M, z), true) == z
  {
    WrapNumber(M, z, true);
  }

  method MultiplyNarrow(M: nat, a: nat, b: nat) returns (low: nat, overflow: bool)
    requires 256 <= M && M % 2 == 0 && a < M && b < M
    ensures var z := Number(M, a, true) * Number(M, b, true); low == Wrap(M, z) && low < M && (overflow <==> !Holds(M, true, z))
  {
    var product := Number(M, a, true) * Number(M, b, true);
    NumberWrap(M, a, true);
    NumberWrap(M, b, true);
    ProductHolds(M, true, Number(M, a, true), Number(M, b, true));
    ProductParts(M, true, product);
    low, overflow := Wrap(M, product), ProductOverflows(M, true, product);
  }
}
