/** Registers and status flags of the emulated processor. */
module Cpu {
  import opened Limbs
  import opened Bits
  import opened TwosComplement

  // ------------------------------------------------------------- registers

  /** A general register by its index and the part of it that is named. */
  datatype Register = Low8(index: nat) | High8(index: nat) | Word(index: nat) | Dword(index: nat) | Qword(index: nat)

  const AL := Low8(0)
  const AH := High8(0)
  const AX := Word(0)
  const DX := Word(2)
  const EAX := Dword(0)
  const EDX := Dword(2)
  const RAX := Qword(0)
  const RDX := Qword(2)

  /** The number of values of a register part, and the place of its lowest bit. */
  function Size(reg: Register): nat {
    match reg
    case Low8(_) => 0x100
    case High8(_) => 0x100
    case Word(_) => 0x1_0000
    case Dword(_) => 0x1_0000_0000
    case Qword(_) => 0x1_0000_0000_0000_0000
  }

  const QWORD: nat := 0x1_0000_0000_0000_0000

  /** The value of a register part in the full register. */
  function Part(raw: nat, reg: Register): nat {
    if reg.High8? then (raw / 0x100) % 0x100 else raw % Size(reg)
  }

  /** The full register after a write: 8- and 16-bit writes keep the rest, a 32-bit write clears the upper
      half, a 64-bit write replaces it all. */
  function Merged(raw: nat, reg: Register, value: nat): nat {
    match reg
    case Low8(_) => raw - raw % 0x100 + value % 0x100
    case High8(_) => raw - (raw / 0x100 % 0x100) * 0x100 + (value % 0x100) * 0x100
    case Word(_) => raw - raw % 0x1_0000 + value % 0x1_0000
    case Dword(_) => value % 0x1_0000_0000
    case Qword(_) => value % QWORD
  }

  /** What a write leaves of a full register, bit range by bit range: the part is the value, an 8- or 16-bit write keeps
      every bit outside its part, and of a 32- or 64-bit write nothing else is left. */
  ghost predicate Written(now: nat, was: nat, reg: Register, value: nat) {
    match reg
    case Low8(_) => now % 0x100 == value % 0x100 && now / 0x100 == was / 0x100
    case High8(_) => now % 0x100 == was % 0x100 && now / 0x100 % 0x100 == value % 0x100 && now / 0x1_0000 == was / 0x1_0000
    case Word(_) => now % 0x1_0000 == value % 0x1_0000 && now / 0x1_0000 == was / 0x1_0000
    case Dword(_) => now == value % 0x1_0000_0000
    case Qword(_) => now == value % 0x1_0000_0000_0000_0000
  }

  /** The two parts do not share a bit. */
  predicate Disjoint(r: Register, s: Register) {
    r.index != s.index || (r.Low8? && s.High8?) || (r.High8? && s.Low8?)
  }

  lemma MergedFits(raw: nat, reg: Register, value: nat)
    requires raw < QWORD
    ensures Merged(raw, reg, value) < QWORD
    ensures Part(Merged(raw, reg, value), reg) == value % Size(reg) && Written(Merged(raw, reg, value), raw, reg, value)
  {
    match reg
    case Low8(_) => LowPartReplaced(raw, 0x100, 0x100_0000_0000_0000, value);
    case High8(_) => HighByte(raw, value % 0x100);
    case Word(_) => LowPartReplaced(raw, 0x1_0000, 0x1_0000_0000_0000, value);
    case Dword(_) => ModMod(value, 0x1_0000_0000);
    case Qword(_) => ModMod(value, QWORD);
  }

  /** Replacing the low part of a number. */
  lemma LowPartReplaced(raw: nat, m: nat, k: nat, value: nat)
    requires raw < QWORD && 0 < m && QWORD == m * k
    ensures 0 <= raw - raw % m + value % m < QWORD && (raw - raw % m + value % m) % m == value % m
    ensures (raw - raw % m + value % m) / m == raw / m
  {
    DivModSplit(raw, m);
    DivModSplit(value, m);
    var q := raw / m;
    assert k * m == m * k;
    DivLt(raw, m, k);
    MulLe(q + 1, k, m);
    MulDist(m, q, 1);
    MulLe(0, q, m);
    DivModUnique(raw - raw % m + value % m, m, q, value % m);
  }

  lemma ModMod(x: nat, m: nat)
    requires 0 < m
    ensures (x % m) % m == x % m < m
  {
    DivModSplit(x, m);
    ModSmall(x % m, m);
  }

  /** The high byte of a number and its other bits. */
  lemma HighByte(raw: nat, b: nat)
    requires b < 0x100
    ensures var x := raw - (raw / 0x100 % 0x100) * 0x100 + b * 0x100;
            0 <= x && (x / 0x100) % 0x100 == b && x % 0x100 == raw % 0x100 && x / 0x1_0000 == raw / 0x1_0000
  {
    var l, m, h := raw % 0x100, raw / 0x100 % 0x100, raw / 0x1_0000;
    assert raw == l + 0x100 * m + 0x1_0000 * h;
  }

  /** A write leaves the disjoint byte of the same register alone. */
  lemma MergedKeeps(raw: nat, r: Register, s: Register, value: nat)
    requires Disjoint(r, s) && r.index == s.index
    ensures Part(Merged(raw, r, value), s) == Part(raw, s)
  {
    if r.High8? { HighByte(raw, value % 0x100); }
  }

  datatype Flags = Flags(cf: bool, pf: bool, af: bool, zf: bool, sf: bool, of: bool)

  class CpuState {
    const gpr: array<nat>
    var flags: Flags

    ghost predicate Valid()
      reads gpr
    {
      gpr.Length == 16 && forall i :: 0 <= i < 16 ==> gpr[i] < QWORD
    }

    /** The value of a register part. */
    function Read(reg: Register): (v: nat)
      requires Valid() && reg.index < 16
      reads gpr
      ensures v < Size(reg)
    {
      Part(gpr[reg.index], reg)
    }

    constructor ()
      ensures Valid() && fresh(gpr)
    {
      gpr := new nat[16](i => 0);
      flags := Flags(false, false, false, false, false, false);
    }

    /** A write sets its part and changes no other register; the other byte of the same register stays. */
    method WriteRegister(reg: Register, value: nat)
      requires Valid() && reg.index < 16
      modifies gpr
      ensures Valid() && Read(reg) == value % Size(reg)
      ensures gpr[..] == old(gpr[..])[reg.index := gpr[reg.index]] && Written(gpr[reg.index], old(gpr[reg.index]), reg, value)
      ensures forall s: Register :: s.index < 16 && Disjoint(reg, s) ==> Read(s) == old(Read(s))
    {
      MergedFits(gpr[reg.index], reg, value);
      forall s: Register | s.index == reg.index && Disjoint(reg, s)
        ensures Part(Merged(gpr[reg.index], reg, value), s) == Part(gpr[reg.index], s)
      {
        MergedKeeps(gpr[reg.index], reg, s, value);
      }
      gpr[reg.index] := Merged(gpr[reg.index], reg, value);
    }
  }

  // ------------------------------------------------------------------ flags

  /** Operand widths in bytes. */
  predicate IsWidth(width: nat) { width == 1 || width == 2 || width == 4 || width == 8 }

  /** 2^(8 * width), and its half. */
  function Range(width: nat): (m: nat)
    requires IsWidth(width)
    ensures m == Pow(2, 8 * width) && 256 <= m <= QWORD && m % 2 == 0
  {
    Ranges();
    if width == 1 then 0x100 else if width == 2 then 0x1_0000 else if width == 4 then 0x1_0000_0000 else QWORD
  }

  lemma Ranges()
    ensures Pow(2, 8) == 0x100 && Pow(2, 16) == 0x1_0000 && Pow(2, 32) == 0x1_0000_0000 && Pow(2, 64) == QWORD
  {
    assert Pow(2, 8) == 0x100;
    PowAdd(2, 8, 8);
    PowAdd(2, 16, 16);
    PowAdd(2, 32, 32);
  }

  /** The parity of a byte, by the table of the source: the bits of 0x6996 are the parities of a nibble. */
  function EvenParity(value: nat): bool {
    !Bit(0x6996, (BitXor(value % 0x100, value % 0x100 / 0x10)) % 0x10)
  }

  /** The number of ones in a byte. */
  function Ones(b: nat): nat { PopCount(b, 8) }

  /** The number of a two's-complement operand. */
  function SignedValue(x: nat, width: nat): int
    requires IsWidth(width)
  {
    Number(Range(width), x, true)
  }

  /** The carry of an addition, in 64-bit words: the 8-byte sum may wrap. */
  function AddCarry(lhs: nat, rhs: nat, M: nat, width: nat, carryIn: bool): bool
    requires 0 < M
  {
    var partial := (lhs + rhs) % QWORD;
    var finalResult := (partial + if carryIn then 1 else 0) % QWORD;
    partial < lhs || (carryIn && finalResult == 0) || (width < 8 && finalResult / M != 0)
  }

  /** The adjust flag of both operations. */
  function Adjust(lhs: nat, rhs: nat, result: nat): bool {
    BitAnd(BitXor(BitXor(lhs, rhs), result), 0x10) != 0
  }

  /** The flags of an addition, as the source computes them: `result` is the truncated sum. */
  function AddFlags(lhs: nat, rhs: nat, result: nat, width: nat, carryIn: bool): Flags
    requires IsWidth(width)
  {
    MaskedAdd(lhs % Range(width), rhs % Range(width), result % Range(width), Range(width), width, carryIn)
  }

  function MaskedAdd(lhs: nat, rhs: nat, result: nat, M: nat, width: nat, carryIn: bool): Flags
    requires 0 < M && 0 < width
  {
    var sign := 8 * width - 1;
    Flags(AddCarry(lhs, rhs, M, width, carryIn), EvenParity(result % 0x100), Adjust(lhs, rhs, result), result == 0,
          Bit(result, sign), !Bit(BitXor(lhs, rhs), sign) && Bit(BitXor(lhs, result), sign))
  }

  /** The flags of a subtraction; `overflowed` is the source's case of a subtrahend that wraps to zero. */
  function SubFlags(lhs: nat, rhs: nat, result: nat, width: nat, borrowIn: bool): Flags
    requires IsWidth(width)
  {
    MaskedSub(lhs % Range(width), rhs % Range(width), result % Range(width), Range(width), width, borrowIn)
  }

  function MaskedSub(lhs: nat, rhs: nat, result: nat, M: nat, width: nat, borrowIn: bool): Flags
    requires 0 < M && 0 < width
  {
    var borrow := if borrowIn then 1 else 0;
    var overflowed := width == 8 && borrowIn && rhs == M - 1;
    var sign := 8 * width - 1;
    Flags(overflowed || lhs < (rhs + borrow) % QWORD, EvenParity(result % 0x100), Adjust(lhs, rhs, result), result == 0,
          Bit(result, sign), Bit(BitXor(lhs, rhs), sign) && Bit(BitXor(lhs, result), sign))
  }

  /** The second definition of subtraction flags, for compare-and-exchange: the zero flag is `success`. */
  function CmpxchgFlags(acc: nat, dst: nat, width: nat, success: bool): Flags
    requires IsWidth(width)
  {
    var mask := Range(width);
    var ua, ub := acc % mask, dst % mask;
    var res := (ua - ub) % mask;
    var sa, sb, sres := SignedValue(ua, width), SignedValue(ub, width), SignedValue(res, width);
    Flags(ua < ub, EvenParity(res % 0x100), Adjust(ua, ub, res), success, sres < 0,
          (sa >= 0 && sb < 0 && sres < 0) || (sa < 0 && sb >= 0 && sres >= 0))
  }

  /** The flags of a multiplication: the zero flag is always cleared. */
  function MultiplyFlags(value: nat, width: nat, overflow: bool): Flags
    requires IsWidth(width)
  {
    var v := value % Range(width);
    Flags(overflow, EvenParity(v % 0x100), false, false, Bit(v, 8 * width - 1), overflow)
  }

  // ----------------------------------------------------- what the flags mean

  /** The sign flag is the sign of the result. */
  lemma SignFlag(x: nat, width: nat)
    requires IsWidth(width) && x < Range(width)
    ensures Bit(x, 8 * width - 1) <==> SignedValue(x, width) < 0
  {
    TopBit(x, 8 * width - 1);
    PowSucc(2, 8 * width - 1);
  }

  lemma ThreeXor(x: nat, y: nat, z: nat, i: nat)
    ensures Bit(BitXor(BitXor(x, y), z), i) <==> (Bit(x, i) != Bit(y, i)) != Bit(z, i)
  {
    XorBit(BitXor(x, y), z, i);
    XorBit(x, y, i);
  }

  /** The low nibbles, for the adjust flag. */
  lemma Nibble()
    ensures Pow(2, 4) == 0x10
  {}

  lemma AdjustAdd(x: nat, y: nat, c: nat, width: nat)
    requires IsWidth(width) && c <= 1
    ensures Adjust(x, y, (x + y + c) % Range(width)) <==> x % 0x10 + y % 0x10 + c >= 0x10
  {
    Nibble();
    var r := (x + y + c) % Range(width);
    TestBit(BitXor(BitXor(x, y), r), 4);
    ThreeXor(x, y, r, 4);
    LowBit(x + y + c, 8 * width, 4);
    SumBit(x, y, c, 4);
  }

  lemma AdjustSub(x: nat, y: nat, b: nat, r: nat, width: nat)
    requires IsWidth(width) && b <= 1 && x < Range(width) && y < Range(width) && r == (x - y - b) % Range(width)
    ensures Adjust(x, y, r) <==> x % 0x10 < y % 0x10 + b
  {
    Nibble();
    var M := Range(width);
    WrappedDifference(M, x, y, b, r);
    TestBit(BitXor(BitXor(x, y), r), 4);
    ThreeXor(x, y, r, 4);
    SumBit(y, r, b, 4);
    LowBit(y + r + b, 8 * width, 4);
    LowBit(x, 8 * width, 4);
    NibbleDifference(x, y, b, r, width);
    hide *;
    ModAddMultiple(x, if x < y + b then 1 else 0, M);
    assert (y + r + b) % M == x % M;
  }

  lemma WrappedDifference(M: nat, x: nat, y: nat, b: nat, r: nat)
    requires 0 < M && b <= 1 && x < M && y < M && r == (x - y - b) % M
    ensures y + r + b == x + (if x < y + b then 1 else 0) * M && r < M
  {
    if x < y + b { DivModUnique(x - y - b, M, -1, x - y - b + M); } else { ModSmall(x - y - b, M); }
  }

  lemma NibbleDifference(x: nat, y: nat, b: nat, r: nat, width: nat)
    requires IsWidth(width) && b <= 1 && y + r + b == x + (if x < y + b then 1 else 0) * Range(width)
    ensures y % 0x10 + r % 0x10 + b >= 0x10 <==> x % 0x10 < y % 0x10 + b
  {
    var k := Range(width) / 0x10;
    assert Range(width) == 0x10 * k;
    hide *;
    LowDigits(x / 0x10, x % 0x10, y / 0x10, y % 0x10, r / 0x10, r % 0x10, b, if x < y + b then k else 0);
  }

  /** A sum of two-digit numbers carries out of the low digit exactly when its low digit wrapped. */
  lemma LowDigits(xh: int, xl: nat, yh: int, yl: nat, rh: int, rl: nat, b: nat, k: nat)
    requires xl < 0x10 && yl < 0x10 && rl < 0x10 && b <= 1
    requires 0x10 * yh + yl + (0x10 * rh + rl) + b == 0x10 * xh + xl + 0x10 * k
    ensures yl + rl + b >= 0x10 <==> xl < yl + b
  {}

  /** Overflow: operands of one sign, a result of the other. */
  lemma OverflowAdd(M: nat, x: nat, y: nat, c: nat, r: nat)
    requires 0 < M && M % 2 == 0 && x < M && y < M && c <= 1 && r == (x + y + c) % M
    ensures var X, Y, R := Number(M, x, true), Number(M, y, true), Number(M, r, true);
            ((X < 0) == (Y < 0) && (X < 0) != (R < 0)) <==> !Holds(M, true, X + Y + c)
  {
    if x + y + c < M { ModSmall(x + y + c, M); } else { DivModUnique(x + y + c, M, 1, x + y + c - M); }
  }

  lemma OverflowSub(M: nat, x: nat, y: nat, b: nat, r: nat)
    requires 0 < M && M % 2 == 0 && x < M && y < M && b <= 1 && r == (x - y - b) % M
    ensures var X, Y, R := Number(M, x, true), Number(M, y, true), Number(M, r, true);
            ((X < 0) != (Y < 0) && (X < 0) != (R < 0)) <==> !Holds(M, true, X - Y - b)
  {
    WrappedDifference(M, x, y, b, r);
  }

  /** The carry is right although the 8-byte sum may wrap. */
  lemma CarryMeaning(x: nat, y: nat, width: nat, carryIn: bool)
    requires IsWidth(width) && x < Range(width) && y < Range(width)
    ensures AddCarry(x, y, Range(width), width, carryIn) <==> x + y + (if carryIn then 1 else 0) >= Range(width)
  {
    if width < 8 { NarrowCarry(x, y, Range(width), if carryIn then 1 else 0); }
  }

  /** A narrow sum fits the 8-byte word, and its part above the width is the carry. */
  lemma NarrowCarry(x: nat, y: nat, M: nat, c: nat)
    requires 0 < M && 2 * M < QWORD && x < M && y < M && c <= 1
    ensures (x + y) % QWORD == x + y && (x + y + c) % QWORD == x + y + c
    ensures (x + y + c) / M == if x + y + c < M then 0 else 1
  {
    var sum := x + y + c;
    if sum < M { ModSmall(sum, M); } else { DivModUnique(sum, M, 1, sum - M); }
  }

  /** For every width and either carry-in: carry is unsigned overflow, adjust is the carry out of the low
      nibble, overflow is signed overflow, and zero, sign and parity are those of the result. */
  lemma AddFlagsMeaning(lhs: nat, rhs: nat, width: nat, carryIn: bool)
    requires IsWidth(width) && lhs < Range(width) && rhs < Range(width)
    ensures var c := if carryIn then 1 else 0;
            var sum := lhs + rhs + c;
            var r := sum % Range(width);
            var f := AddFlags(lhs, rhs, r, width, carryIn);
            && (f.cf <==> sum >= Range(width))
            && (f.af <==> lhs % 0x10 + rhs % 0x10 + c >= 0x10)
            && (f.zf <==> r == 0) && (f.sf <==> SignedValue(r, width) < 0) && f.pf == EvenParity(r % 0x100)
            && (f.of <==> !Holds(Range(width), true, SignedValue(lhs, width) + SignedValue(rhs, width) + c))
  {
    hide Bit, BitXor, EvenParity, Holds, Number, Range, AddCarry, Adjust;
    var c := if carryIn then 1 else 0;
    var M, sum, sign := Range(width), lhs + rhs + c, 8 * width - 1;
    var r := sum % M;
    DivModSplit(sum, M);
    AdjustAdd(lhs, rhs, c, width);
    CarryMeaning(lhs, rhs, width, carryIn);
    SignFlag(r, width);
    SignFlag(lhs, width);
    SignFlag(rhs, width);
    XorBit(lhs, rhs, sign);
    XorBit(lhs, r, sign);
    OverflowAdd(M, lhs, rhs, c, r);
    ModSmall(lhs, M);
    ModSmall(rhs, M);
    ModSmall(r, M);
  }

  /** The borrow is right although the subtrahend may wrap. */
  lemma BorrowMeaning(x: nat, y: nat, width: nat, borrowIn: bool)
    requires IsWidth(width) && x < Range(width) && y < Range(width)
    ensures var b := if borrowIn then 1 else 0;
            ((width == 8 && borrowIn && y == Range(width) - 1) || x < (y + b) % QWORD) <==> x < y + b
  {}

  /** The same for subtraction with either borrow-in. */
  lemma SubFlagsMeaning(lhs: nat, rhs: nat, width: nat, borrowIn: bool)
    requires IsWidth(width) && lhs < Range(width) && rhs < Range(width)
    ensures var b := if borrowIn then 1 else 0;
            var r := (lhs - rhs - b) % Range(width);
            var f := SubFlags(lhs, rhs, r, width, borrowIn);
            && (f.cf <==> lhs < rhs + b)
            && (f.af <==> lhs % 0x10 < rhs % 0x10 + b)
            && (f.zf <==> r == 0) && (f.sf <==> SignedValue(r, width) < 0) && f.pf == EvenParity(r % 0x100)
            && (f.of <==> !Holds(Range(width), true, SignedValue(lhs, width) - SignedValue(rhs, width) - b))
  {
    hide Bit, BitXor, EvenParity, Holds, Number, Range, Adjust;
    var b := if borrowIn then 1 else 0;
    var M, sign := Range(width), 8 * width - 1;
    var r := (lhs - rhs - b) % M;
    DivModSplit(lhs - rhs - b, M);
    AdjustSub(lhs, rhs, b, r, width);
    BorrowMeaning(lhs, rhs, width, borrowIn);
    SignFlag(r, width);
    SignFlag(lhs, width);
    SignFlag(rhs, width);
    XorBit(lhs, rhs, sign);
    XorBit(lhs, r, sign);
    OverflowSub(M, lhs, rhs, b, r);
    ModSmall(lhs, M);
    ModSmall(rhs, M);
    ModSmall(r, M);
  }

  /** Compare-and-exchange agrees with subtraction on every flag when its zero flag says whether the
      operands are equal, as its callers make it. */
  lemma CmpxchgAgrees(acc: nat, dst: nat, width: nat)
    requires IsWidth(width) && acc < Range(width) && dst < Range(width)
    ensures CmpxchgFlags(acc, dst, width, acc == dst) == SubFlags(acc, dst, (acc - dst) % Range(width), width, false)
  {
    hide Bit, BitXor, EvenParity, Number, Range, Adjust;
    var M, sign := Range(width), 8 * width - 1;
    var r := (acc - dst) % M;
    BorrowMeaning(acc, dst, width, false);
    WrappedDifference(M, acc, dst, 0, r);
    SignFlag(r, width);
    SignFlag(acc, width);
    SignFlag(dst, width);
    XorBit(acc, dst, sign);
    XorBit(acc, r, sign);
    ModSmall(acc, M);
    ModSmall(dst, M);
    ModSmall(r, M);
  }

  // ----------------------------------------------------------------- parity

  function One(b: bool): nat { if b then 1 else 0 }

  /** The ones of a number are its bits. */
  lemma CountBits(x: nat)
    ensures PopCount(x, 4) == One(Bit(x, 0)) + One(Bit(x, 1)) + One(Bit(x, 2)) + One(Bit(x, 3))
  {
    var y := x / 2;
    var z := y / 2;
    assert PopCount(z, 2) == One(Bit(z, 0)) + One(Bit(z, 1)) by { assert PopCount(z / 2, 1) == z / 2 % 2; }
    assert Bit(x, 2) == Bit(y, 1) == Bit(z, 0) && Bit(x, 3) == Bit(y, 2) == Bit(z, 1);
  }

  lemma {:induction false} CountSplit(x: nat, m: nat, n: nat)
    ensures Pow(2, m) > 0 && 0 <= x / Pow(2, m) && PopCount(x, m + n) == PopCount(x, m) + PopCount(x / Pow(2, m), n)
  {
    PowPos(2, m);
    if m > 0 {
      PowPos(2, m - 1);
      CountSplit(x / 2, m - 1, n);
      DivDiv(x, 2, Pow(2, m - 1));
    } else {
      assert Pow(2, 0) == 1;
    }
  }

  function NibbleParity(n: nat): bool { (Bit(n, 0) != Bit(n, 1)) != (Bit(n, 2) != Bit(n, 3)) }

  predicate Row(table: nat, i: nat, n: nat) { Bit(table, i) <==> NibbleParity(n) }

  lemma LowRows(n: nat)
    requires n < 8
    ensures Row(0x96, n, n)
  {
    assert Row(0x96, 0, 0);
    assert Row(0x96, 1, 1);
    assert Row(0x96, 2, 2);
    assert Row(0x96, 3, 3);
    assert Row(0x96, 4, 4);
    assert Row(0x96, 5, 5);
    assert Row(0x96, 6, 6);
    assert Row(0x96, 7, 7);
  }

  lemma HighRows(n: nat)
    requires n < 8
    ensures Row(0x69, n, n + 8)
  {
    assert Row(0x69, 0, 8);
    assert Row(0x69, 1, 9);
    assert Row(0x69, 2, 10);
    assert Row(0x69, 3, 11);
    assert Row(0x69, 4, 12);
    assert Row(0x69, 5, 13);
    assert Row(0x69, 6, 14);
    assert Row(0x69, 7, 15);
  }

  /** The table: its n-th bit is the parity of the nibble n. */
  lemma ParityTable(n: nat)
    requires n < 0x10
    ensures Bit(0x6996, n) <==> NibbleParity(n)
  {
    assert Pow(2, 8) == 0x100;
    if n < 8 {
      LowRows(n);
      LowBit(0x6996, 8, n);
    } else {
      HighRows(n - 8);
      ShiftedBit(0x6996, 8, n - 8);
    }
  }

  lemma FoldedBit(b: nat, i: nat)
    requires i < 4
    ensures Bit(BitXor(b, b / 0x10) % 0x10, i) <==> Bit(b, i) != Bit(b, 4 + i)
  {
    Nibble();
    LowBit(BitXor(b, b / 0x10), 4, i);
    XorBit(b, b / 0x10, i);
    ShiftedBit(b, 4, i);
  }

  /** The parity flag is right: even parity means an even number of ones in the low byte. */
  lemma ParityMeaning(value: nat)
    ensures EvenParity(value) <==> Ones(value % 0x100) % 2 == 0
  {
    hide BitXor, Bit, PopCount;
    var b := value % 0x100;
    Nibble();
    CountSplit(b, 4, 4);
    CountBits(b);
    CountBits(b / 0x10);
    forall i: nat | i < 4 ensures Bit(b / 0x10, i) <==> Bit(b, 4 + i) { ShiftedBit(b, 4, i); }
    ParityTable(BitXor(b, b / 0x10) % 0x10);
    FoldedBit(b, 0);
    FoldedBit(b, 1);
    FoldedBit(b, 2);
    FoldedBit(b, 3);
  }
}
