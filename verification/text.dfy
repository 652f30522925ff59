/** The printer and the parser of the wide integers. */
module Text {
  import opened Limbs
  import opened Bits
  import opened TwosComplement
  import opened LongDivision
  import opened WideInteger
  import N = Numerals

  /** The low bits of the lowest limb are those of the number. */
  lemma LowDigit(B: Base, digits: nat, s: seq<nat>, k: nat)
    requires 0 < |s| && k <= digits && B == Pow(2, digits)
    ensures Pow(2, k) > 0 && BitAnd(s[0], Pow(2, k) - 1) == Val(B, s) % Pow(2, k)
  {
    hide Pow;
    AndMask(s[0], k);
    PowAdd(2, k, digits - k);
    HighMultipleDropped(s[0], Pow(2, k), Pow(2, digits - k), Val(B, s[1..]));
  }

  lemma HighMultipleDropped(x: nat, p: nat, q: nat, rest: nat)
    requires 0 < p
    ensures (x + (p * q) * rest) % p == x % p
  {
    assert (p * q) * rest == (q * rest) * p by { MulAssoc(p, q, rest); }
    ModAddMultiple(x, q * rest, p);
  }

  /** A number that fits one limb is its lowest limb. */
  lemma LowLimb(B: Base, s: seq<nat>)
    requires 0 < |s| && IsLimbs(B, s) && Val(B, s) < B
    ensures s[0] == Val(B, s)
  {
    if 0 < Val(B, s[1..]) { MulLe(1, Val(B, s[1..]), B); }
  }

  /** Writes the digits of t in base 2^k below position pos, shifting t down to zero. */
  method PutBinaryDigits(t: UintWide, k: nat, upper: bool, buf: array<char>, pos0: nat) returns (pos: nat)
    requires t.Valid() && !t.signed && (k == 3 || k == 4) && pos0 < buf.Length
    requires |N.Pending(t.Raw(), Pow(2, k), upper)| <= pos0
    requires 2 <= Pow(2, k) <= 16
    modifies t.values, buf
    ensures pos <= pos0 && buf[pos..pos0] == N.Pending(old(t.Raw()), Pow(2, k), upper)
    ensures forall i :: 0 <= i < buf.Length && !(pos <= i < pos0) ==> buf[i] == old(buf[i])
  {
    hide Pow, Val, N.Pending, IsLimbs;
    ghost var x, b := t.Raw(), Pow(2, k);
    pos := pos0;
    var zero := IsZero(t.base, t.values);
    while !zero && pos > 0
      invariant t.Valid() && pos <= pos0 && (zero <==> t.Raw() == 0) && |N.Pending(t.Raw(), b, upper)| <= pos
      invariant N.Pending(x, b, upper) == N.Pending(t.Raw(), b, upper) + buf[pos..pos0]
      invariant forall i :: 0 <= i < buf.Length && !(pos <= i < pos0) ==> buf[i] == old(buf[i])
    {
      ghost var y, done := t.Raw(), buf[pos..pos0];
      LowDigit(t.base, t.digits, t.values[..], k);
      N.PendingStep(y, b, upper);
      var c := BitAnd(t.values[0], Pow(2, k) - 1);
      pos := pos - 1;
      buf[pos] := N.Digit(c, upper);
      assert buf[pos..pos0] == [N.Digit(c, upper)] + done;
      t.ShiftRightAssign(k);
      zero := IsZero(t.base, t.values);
    }
    NothingPending(t.Raw(), b, upper, pos);
  }

  lemma NothingPending(x: nat, b: nat, upper: bool, pos: nat)
    requires 2 <= b <= 16 && (x == 0 || pos == 0) && |N.Pending(x, b, upper)| <= pos
    ensures N.Pending(x, b, upper) == ""
  {}

  /** One decimal digit: t becomes its tenth, and the digit is what is left. */
  method TakeDecimalDigit(t: UintWide) returns (d: nat)
    requires t.Valid()
    modifies t.values
    ensures t.Valid() && t.Raw() == old(t.Raw()) / 10 && d == old(t.Raw()) % 10 < 10
  {
    hide Pow, Val;
    ghost var y := t.Raw();
    t.Facts();
    DivModSplit(y, 10);
    var tmp := new UintWide.Copied(t, t.signed);
    EvalDivideBySingleLimb(t.base, t.values, 10, 0, null);
    var u := new UintWide.Copied(t, t.signed);
    u.MulByLimb(10);
    ModSmall((y / 10) * 10, t.Modulus());
    WrapDifference(t.Modulus(), y, (y / 10) * 10, t.signed);
    ModSmall(y % 10, t.Modulus());
    tmp.SubAssign(u);
    tmp.Facts();
    LowLimb(tmp.base, tmp.values[..]);
    d := tmp.values[0];
  }

  /** Writes the decimal digits of the representation of t below position pos. */
  method PutDecimalDigits(t: UintWide, buf: array<char>, pos0: nat) returns (pos: nat)
    requires t.Valid() && pos0 < buf.Length && |N.Pending(t.Raw(), 10, true)| <= pos0
    modifies t.values, buf
    ensures pos <= pos0 && buf[pos..pos0] == N.Pending(old(t.Raw()), 10, true)
    ensures forall i :: 0 <= i < buf.Length && !(pos <= i < pos0) ==> buf[i] == old(buf[i])
  {
    hide Pow, Val, N.Pending, IsLimbs;
    ghost var x := t.Raw();
    pos := pos0;
    var zero := IsZero(t.base, t.values);
    while !zero && pos > 0
      invariant t.Valid() && pos <= pos0 && (zero <==> t.Raw() == 0) && |N.Pending(t.Raw(), 10, true)| <= pos
      invariant N.Pending(x, 10, true) == N.Pending(t.Raw(), 10, true) + buf[pos..pos0]
      invariant forall i :: 0 <= i < buf.Length && !(pos <= i < pos0) ==> buf[i] == old(buf[i])
    {
      ghost var done := buf[pos..pos0];
      N.PendingStep(t.Raw(), 10, true);
      var d := TakeDecimalDigit(t);
      pos := pos - 1;
      buf[pos] := N.Digit(d, true);
      assert buf[pos..pos0] == [N.Digit(d, true)] + done;
      zero := IsZero(t.base, t.values);
    }
    NothingPending(t.Raw(), 10, true, pos);
  }

  /** The number as text, in base 8, 10 or 16; no other base is written. */
  method WrString(x: UintWide, baseRep: nat, showBase: bool, showPos: bool, upper: bool) returns (ok: bool, str: string)
    requires x.Valid() && x.digits * x.values.Length <= 65536
    ensures ok <==> baseRep == 8 || baseRep == 10 || baseRep == 16
    ensures ok ==> str == N.Rendered(x.Num(), x.Raw(), baseRep, showBase, showPos, upper)
  {
    ok, str := baseRep == 8 || baseRep == 10 || baseRep == 16, "";
    if baseRep == 10 {
      str := WriteDecimal(x, showPos);
    } else if ok {
      str := WriteBinary(x, baseRep, showBase, showPos, upper);
    }
  }

  /** The width of a number in binary digits bounds it. */
  lemma WidthBound(x: UintWide)
    requires x.Valid()
    ensures x.Modulus() == Pow(2, x.digits * x.values.Length) && 1 <= x.digits * x.values.Length
  {
    PowMul(2, x.digits, x.values.Length);
    MulLe(1, x.digits, x.values.Length);
  }

  method WriteBinary(x: UintWide, baseRep: nat, showBase: bool, showPos: bool, upper: bool) returns (str: string)
    requires x.Valid() && x.digits * x.values.Length <= 65536 && (baseRep == 8 || baseRep == 16)
    ensures str == N.Rendered(x.Num(), x.Raw(), baseRep, showBase, showPos, upper)
  {
    hide Pow, Val, IsLimbs, N.Numeral, N.Pending;
    var t := new UintWide.Copied(x, false);
    x.Facts();
    var buf, pos := BinaryDigits(t, baseRep, upper);
    str := PutPrefix(buf, pos, baseRep, showBase, showPos, upper);
  }

  /** The digits of t in base 8 or 16 at the end of a new buffer, with room for a prefix and a sign. */
  method BinaryDigits(t: UintWide, baseRep: nat, upper: bool) returns (buf: array<char>, pos: nat)
    requires t.Valid() && !t.signed && t.digits * t.values.Length <= 65536 && (baseRep == 8 || baseRep == 16)
    modifies t.values
    ensures fresh(buf) && 2 <= pos < buf.Length && (baseRep == 16 ==> 3 <= pos)
    ensures buf[pos..buf.Length - 1] == N.Numeral(old(t.Raw()), baseRep, upper)
  {
    hide Pow, Val, IsLimbs, N.Numeral, N.Pending;
    SmallPowers();
    var W := t.digits * t.values.Length;
    t.Facts();
    WidthBound(t);
    N.DigitsFit(W, baseRep, t.Raw(), upper);
    PendingIs(t.Raw(), baseRep, upper);
    buf := new char[N.BufferSize(W, baseRep)](i => '\0');
    var end := buf.Length - 1;
    pos := end;
    var zero := IsZero(t.base, t.values);
    if zero {
      pos := pos - 1;
      buf[pos] := '0';
    } else {
      pos := PutBinaryDigits(t, if baseRep == 8 then 3 else 4, upper, buf, pos);
    }
    assert |buf[pos..end]| == end - pos;
  }

  /** The prefix of the base and the plus sign before the digits, and the finished text. */
  method PutPrefix(buf: array<char>, pos0: nat, baseRep: nat, showBase: bool, showPos: bool, upper: bool) returns (str: string)
    requires 2 <= pos0 < buf.Length && (baseRep == 8 || (baseRep == 16 && 3 <= pos0))
    modifies buf
    ensures str == (if showPos then "+" else "") + (if !showBase then "" else if baseRep == 8 then "0" else if upper then "0X" else "0x")
                 + old(buf[pos0..buf.Length - 1])
  {
    var pos := pos0;
    if showBase && baseRep == 8 && pos > 0 {
      pos := PutChar(buf, pos, '0');
    } else if showBase && baseRep == 16 && pos > 1 {
      pos := PutChar(buf, pos, if upper then 'X' else 'x');
      pos := PutChar(buf, pos, '0');
    }
    str := PutSign(buf, pos, if showPos then "+" else "");
  }

  method PutChar(buf: array<char>, pos0: nat, c: char) returns (pos: nat)
    requires 1 <= pos0 < buf.Length
    modifies buf
    ensures pos == pos0 - 1 && buf[pos..buf.Length - 1] == [c] + old(buf[pos0..buf.Length - 1])
  {
    pos := pos0 - 1;
    buf[pos] := c;
  }

  lemma PendingIs(x: nat, base: nat, upper: bool)
    requires 2 <= base <= 16
    ensures N.Numeral(0, base, upper) == "0" && (x != 0 ==> N.Pending(x, base, upper) == N.Numeral(x, base, upper))
  {}

  method WriteDecimal(x: UintWide, showPos: bool) returns (str: string)
    requires x.Valid() && x.digits * x.values.Length <= 65536
    ensures str == N.Rendered(x.Num(), x.Raw(), 10, false, showPos, true)
  {
    hide Pow, Val, IsLimbs, N.Numeral, N.Pending;
    x.Facts();
    var neg := x.IsNeg();
    var t := new UintWide.Copied(x, x.signed);
    if neg {
      t.Negate();
      WrapNumber(x.Modulus(), 0 - x.Num(), false);
    }
    var buf, pos := DecimalDigits(t);
    str := PutSign(buf, pos, if neg then "-" else if showPos then "+" else "");
  }

  /** The decimal digits of the representation of t at the end of a new buffer, with room for a sign. */
  method DecimalDigits(t: UintWide) returns (buf: array<char>, pos: nat)
    requires t.Valid() && t.digits * t.values.Length <= 65536
    modifies t.values
    ensures fresh(buf) && 1 <= pos < buf.Length && buf[pos..buf.Length - 1] == N.Numeral(old(t.Raw()), 10, true)
  {
    hide Pow, Val, IsLimbs, N.Numeral, N.Pending;
    var W := t.digits * t.values.Length;
    t.Facts();
    WidthBound(t);
    N.DigitsFit(W, 10, t.Raw(), true);
    PendingIs(t.Raw(), 10, true);
    buf := new char[N.BufferSize(W, 10)](i => '\0');
    var end := buf.Length - 1;
    pos := end;
    var zero := IsZero(t.base, t.values);
    if zero {
      pos := pos - 1;
      buf[pos] := '0';
    } else {
      pos := PutDecimalDigits(t, buf, pos);
    }
    assert |buf[pos..end]| == end - pos;
  }

  /** A sign before the digits, and the finished text. */
  method PutSign(buf: array<char>, pos0: nat, sign: string) returns (str: string)
    requires 1 <= pos0 < buf.Length && |sign| <= 1
    modifies buf
    ensures str == sign + old(buf[pos0..buf.Length - 1])
  {
    var pos := pos0;
    if sign != "" && pos > 0 {
      pos := PutChar(buf, pos, sign[0]);
    }
    str := buf[pos..buf.Length - 1];
  }

  // ---------------------------------------------------------------- reading

  /** x := x * base + d, by shifting and joining the digit in base 8 and 16, and by multiplying and adding
      in base 10. */
  method AppendDigit(x: UintWide, base: nat, d: nat)
    requires x.Valid() && N.IsBase(base) && d < base
    modifies x.values
    ensures x.Valid() && x.Raw() == Wrap(x.Modulus(), old(x.Raw()) * base + d)
  {
    hide Pow, Val, IsLimbs;
    x.Facts();
    ghost var y, M := x.Raw(), x.Modulus();
    if base == 10 {
      x.MulByLimb(10);
      x.Facts();
      var w := new UintWide.FromNumber(x.digits, x.values.Length, x.signed, d);
      DigitFits(x, d);
      WrapSum(M, x.Raw(), d, x.signed);
      x.AddAssign(w);
      N.NextDigit(M, y * 10, 1, d);
    } else {
      SmallPowers();
      var k := if base == 8 then 3 else 4;
      x.ShiftLeftAssign(k);
      ShiftedMultiple(x, y, k, d);
      ghost var s := x.values[..];
      JoinedValue(x.base, x.digits, s, k, d);
      x.values[0] := BitOr(x.values[0], d);
      assert x.values[..] == s[0 := s[0] + d];
    }
  }

  /** After a shift by k bits the number is a multiple of 2^k, with room for a digit. */
  lemma ShiftedMultiple(x: UintWide, y: nat, k: nat, d: nat)
    requires x.Valid() && (k == 3 || k == 4) && d < Pow(2, k) && x.Raw() == Wrap(x.Modulus(), y * Pow(2, k))
    ensures Pow(2, k) > 0 && x.Raw() % Pow(2, k) == 0 && x.Raw() + d == Wrap(x.Modulus(), y * Pow(2, k) + d)
  {
    PowPos(2, k);
    WidthBound(x);
    var W := x.digits * x.values.Length;
    MulLe(1, x.values.Length, x.digits);
    PowAdd(2, k, W - k);
    MultipleOf(Pow(2, k), Pow(2, W - k), y, d, x.Modulus());
  }

  lemma MultipleOf(p: nat, q: nat, y: nat, d: nat, M: nat)
    requires 0 < M == p * q && d < p
    ensures Wrap(M, y * p) % p == 0 && Wrap(M, y * p) + d == Wrap(M, y * p + d)
  {
    MulCancelLt(0, q, p);
    DivModSplit(y, q);
    var h, l := y / q, y % q;
    assert y * p == h * M + l * p by { MulDist(p, h * q, l); MulAssoc(h, q, p); }
    MulLe(l + 1, q, p);
    MulDist(p, l, 1);
    MulLe(0, l, p);
    DivModUnique(y * p, M, h, l * p);
    DivModUnique(y * p + d, M, h, l * p + d);
    DivModUnique(l * p, p, l, 0);
  }

  lemma JoinedValue(B: Base, digits: nat, s: seq<nat>, k: nat, d: nat)
    requires 0 < |s| && IsLimbs(B, s) && k <= digits && B == Pow(2, digits) && d < Pow(2, k) && Pow(2, k) > 0
    requires Val(B, s) % Pow(2, k) == 0
    ensures BitOr(s[0], d) == s[0] + d < B
    ensures IsLimbs(B, s[0 := s[0] + d]) && Val(B, s[0 := s[0] + d]) == Val(B, s) + d
  {
    LowDigit(B, digits, s, k);
    AndMask(s[0], k);
    DivModSplit(s[0], Pow(2, k));
    OrDisjoint(s[0] / Pow(2, k), d, k);
    PowAdd(2, k, digits - k);
    RoomBelow(s[0], Pow(2, k), Pow(2, digits - k), d);
    assert s[0 := s[0] + d][1..] == s[1..];
  }

  lemma SmallPowers()
    ensures Pow(2, 3) == 8 && Pow(2, 4) == 16
  {}

  lemma DigitFits(x: UintWide, d: nat)
    requires x.Valid() && d < 16
    ensures Wrap(x.Modulus(), d) == d
  {
    PowMono(x.base, 1, x.values.Length);
    PowSucc(x.base, 0);
    ModSmall(d, x.Modulus());
  }

  /** The scan from a position on. */
  function ScanFrom(s: string, pos: nat, base: nat, acc: nat, M: nat): (bool, nat)
    requires 0 < M
  {
    N.Scan(if pos <= |s| then s[pos..] else "", base, acc, M)
  }

  lemma ScanStep(s: string, pos: nat, base: nat, acc: nat, M: nat)
    requires 0 < M && pos < |s|
    ensures var c := s[pos];
      ScanFrom(s, pos, base, acc, M) ==
        if c == '\'' || !N.IsBase(base) then ScanFrom(s, pos + 1, base, acc, M)
        else match N.DigitValue(c, base)
          case None => (false, acc)
          case Some(d) => ScanFrom(s, pos + 1, base, Wrap(M, acc * base + d), M)
  {
    assert s[pos..][1..] == s[pos + 1..];
  }

  lemma DigitBelowBase(c: char, base: nat)
    requires N.IsBase(base) && N.DigitValue(c, base).Some?
    ensures N.DigitValue(c, base).value < base
  {}

  /** The digits of a string into x, from a position on, until one is not valid. */
  method RdDigits(x: UintWide, s: string, pos0: nat, base: nat) returns (ok: bool)
    requires x.Valid() && x.Raw() == 0
    modifies x.values
    ensures x.Valid() && (ok, x.Raw()) == ScanFrom(s, pos0, base, 0, x.Modulus())
  {
    hide Pow, Val, IsLimbs, ScanFrom, N.DigitValue;
    ghost var M := x.Modulus();
    x.Facts();
    var pos := pos0;
    ok := true;
    while pos < |s| && ok
      invariant x.Valid() && (if ok then ScanFrom(s, pos, base, x.Raw(), M) else (false, x.Raw())) == ScanFrom(s, pos0, base, 0, M)
      decreases |s| - pos, ok
    {
      ScanStep(s, pos, base, x.Raw(), M);
      var c := s[pos];
      pos := pos + 1;
      if c != '\'' && N.IsBase(base) {
        var d := N.DigitValue(c, base);
        ok := d.Some?;
        if ok {
          DigitBelowBase(c, base);
          AppendDigit(x, base, d.value);
        }
      }
    }
    if ok { ScanEnd(s, pos, base, x.Raw(), M); }
  }

  lemma ScanEnd(s: string, pos: nat, base: nat, acc: nat, M: nat)
    requires 0 < M && |s| <= pos
    ensures ScanFrom(s, pos, base, acc, M) == (true, acc)
  {
    if pos == |s| { assert s[pos..] == ""; }
  }

  /** Reads a terminated string into x; the result tells whether every character was valid. */
  method RdString(x: UintWide, s: string, baseHint: nat) returns (ok: bool)
    requires x.Valid()
    modifies x.values
    ensures x.Valid() && (ok, x.Raw()) == N.ReadSpec(s, baseHint, x.Modulus())
  {
    hide Pow, Val, IsLimbs, N.Detected;
    SetSmall(x.base, x.values, 0);
    var pos, strHasNegSign := 0, false;
    if 0 < |s| && s[0] == '+' {
      pos := 1;
    }
    if 0 < |s| && s[0] == '-' {
      strHasNegSign := true;
      pos := 1;
    }
    var (base, first) := N.Detected(s, pos, baseHint);
    ok := RdDigits(x, s, first, base);
    if strHasNegSign {
      x.Negate();
    }
  }

  /** Printing a number and reading the text gives the number back: always in base 10, and in base 8 and 16
      when the base is shown. */
  method PrintAndRead(x: UintWide, baseRep: nat, showBase: bool, showPos: bool, upper: bool) returns (y: UintWide)
    requires x.Valid() && x.digits * x.values.Length <= 65536 && N.IsBase(baseRep) && (baseRep != 10 ==> showBase)
    ensures fresh(y) && y.Valid() && x.SameWidth(y) && y.signed == x.signed && y.Raw() == x.Raw() && y.Num() == x.Num()
  {
    hide Pow, Val, IsLimbs, N.Rendered, N.ReadSpec;
    x.Facts();
    var written, str := WrString(x, baseRep, showBase, showPos, upper);
    y := new UintWide(x.digits, x.values.Length, x.signed);
    var ok := RdString(y, str, 0);
    N.RoundTrip(x.Modulus(), x.signed, x.Raw(), baseRep, showBase, showPos, upper);
  }
}
