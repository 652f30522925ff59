/** Numbers as text: numerals in a base, and what the reader makes of a string. */
module Numerals {
  import opened Limbs
  import opened Options
  import opened TwosComplement

  // ---------------------------------------------------------------- digits

  function Digit(d: nat, upper: bool): char
    requires d < 16
  {
    if d < 10 then (48 + d) as char else ((if upper then 55 else 87) + d) as char
  }

  /** The value of a character as a digit of the base. */
  function DigitValue(c: char, base: nat): (v: Option<nat>)
    ensures v.Some? ==> v.value < 16
  {
    if base == 8 then (if '0' <= c <= '7' then Some(c as nat - 48) else None)
    else if base == 10 then (if '0' <= c <= '9' then Some(c as nat - 48) else None)
    else if 'a' <= c <= 'f' then Some(c as nat - 87)
    else if 'A' <= c <= 'F' then Some(c as nat - 55)
    else if '0' <= c <= '9' then Some(c as nat - 48)
    else None
  }

  predicate IsBase(base: nat) { base == 8 || base == 10 || base == 16 }

  lemma DigitRoundTrip(d: nat, base: nat, upper: bool)
    requires IsBase(base) && d < base
    ensures DigitValue(Digit(d, upper), base) == Some(d) && Digit(d, upper) != '\''
  {}

  /** The characters that are digits of a base, in either case, and their values; no others are. */
  lemma DigitValueExactly(c: char, base: nat, d: nat)
    requires IsBase(base) && d < 16
    ensures DigitValue(c, base) == Some(d) <==> d < base && (c == "0123456789abcdef"[d] || c == "0123456789ABCDEF"[d])
  {
    DigitLetters(d);
  }

  /** The letters of the digits above nine are upper or lower case as asked. */
  lemma DigitIs(d: nat, upper: bool)
    requires d < 16
    ensures Digit(d, upper) == (if upper then "0123456789ABCDEF" else "0123456789abcdef")[d]
  {
    DigitLetters(d);
  }

  lemma DigitLetters(d: nat)
    requires d < 16
    ensures "0123456789abcdef"[d] as nat == if d < 10 then 48 + d else 87 + d
    ensures "0123456789ABCDEF"[d] as nat == if d < 10 then 48 + d else 55 + d
  {}

  /** The numeral of x, most significant digit first. */
  function Numeral(x: nat, base: nat, upper: bool): (s: string)
    requires 2 <= base <= 16
    ensures 0 < |s|
  {
    if x < base then [Digit(x, upper)] else Numeral(x / base, base, upper) + [Digit(x % base, upper)]
  }

  /** The digits of a number that still have to be written: none for zero. */
  function Pending(x: nat, base: nat, upper: bool): string
    requires 2 <= base <= 16
  {
    if x == 0 then "" else Numeral(x, base, upper)
  }

  lemma PendingStep(x: nat, base: nat, upper: bool)
    requires 2 <= base <= 16 && 0 < x
    ensures 0 <= x / base && 0 <= x % base < base && Pending(x, base, upper) == Pending(x / base, base, upper) + [Digit(x % base, upper)]
  {
    DivModSplit(x, base);
    if x < base { ModSmall(x, base); } else { LeDiv(1, x, base); }
  }

  /** A number below base^n has at most n digits. */
  lemma {:induction false} PendingLength(x: nat, base: nat, upper: bool, n: nat)
    requires 2 <= base <= 16 && x < Pow(base, n)
    ensures |Pending(x, base, upper)| <= n
    decreases n
  {
    if n == 0 {
      assert Pow(base, 0) == 1;
    } else if x > 0 {
      hide Pow, Pending;
      PowSucc(base, n - 1);
      PendingStep(x, base, upper);
      DivLt(x, base, Pow(base, n - 1));
      PendingLength(x / base, base, upper, n - 1);
    }
  }

  // --------------------------------------------------------------- reading

  /** Reads digits until one is not valid; an apostrophe separates digits.  A base that is none of the three
      leaves every character alone. */
  function Scan(s: string, base: nat, acc: nat, M: nat): (bool, nat)
    requires 0 < M
  {
    if s == "" then (true, acc)
    else if s[0] == '\'' || !IsBase(base) then Scan(s[1..], base, acc, M)
    else match DigitValue(s[0], base)
      case None => (false, acc)
      case Some(d) => Scan(s[1..], base, Wrap(M, acc * base + d), M)
  }

  /** The character at a position, and the terminator behind the last one. */
  function At(s: string, i: nat): char { if i < |s| then s[i] else '\0' }

  /** The base and the first digit's position, from the prefix of the numeral when there is no hint. */
  function Detected(s: string, pos: nat, hint: nat): (nat, nat) {
    if hint != 0 then (hint, pos)
    else if pos < |s| && s[pos] == '0' then
      if '0' <= At(s, pos + 1) <= '8' then (8, pos + 1)
      else if At(s, pos + 1) == 'x' || At(s, pos + 1) == 'X' then (16, pos + 2)
      else (10, pos)
    else (10, pos)
  }

  /** What the reader leaves: whether every character was valid, and the number modulo M. */
  function ReadSpec(s: string, hint: nat, M: nat): (bool, nat)
    requires 0 < M
  {
    var signed := 0 < |s| && (s[0] == '+' || s[0] == '-');
    var (base, pos) := Detected(s, if signed then 1 else 0, hint);
    var (ok, x) := Scan(if pos <= |s| then s[pos..] else "", base, 0, M);
    (ok, if 0 < |s| && s[0] == '-' then Wrap(M, 0 - x) else x)
  }

  // --------------------------------------------------------------- writing

  /** What the printer writes: sign, prefix and digits.  Base 10 shows the number, the others its
      representation. */
  function Rendered(num: int, raw: nat, base: nat, showBase: bool, showPos: bool, upper: bool): string
    requires IsBase(base)
  {
    if base == 10 then
      (if num < 0 then "-" else if showPos then "+" else "") + Numeral(Abs(num), 10, true)
    else
      (if showPos then "+" else "") + (if !showBase then "" else if base == 8 then "0" else if upper then "0X" else "0x")
      + Numeral(raw, base, upper)
  }

  // ------------------------------------------------------------ round trips

  lemma {:induction false} ScanConcat(s: string, t: string, base: nat, acc: nat, M: nat)
    requires 0 < M && Scan(s, base, acc, M).0
    ensures Scan(s + t, base, acc, M) == Scan(t, base, Scan(s, base, acc, M).1, M)
  {
    if s == "" {
      assert s + t == t;
    } else {
      assert (s + t)[1..] == s[1..] + t;
      if s[0] == '\'' || !IsBase(base) {
        ScanConcat(s[1..], t, base, acc, M);
      } else {
        var d := DigitValue(s[0], base).value;
        ScanConcat(s[1..], t, base, Wrap(M, acc * base + d), M);
      }
    }
  }

  /** One more digit at the end. */
  lemma ScanDigit(d: nat, base: nat, upper: bool, acc: nat, M: nat)
    requires IsBase(base) && d < base && 0 < M
    ensures Scan([Digit(d, upper)], base, acc, M) == (true, Wrap(M, acc * base + d))
  {
    DigitRoundTrip(d, base, upper);
    assert [Digit(d, upper)][1..] == "";
  }

  /** Scanning a numeral gives back its number modulo M. */
  lemma {:induction false} ScanNumeral(x: nat, base: nat, upper: bool, M: nat)
    requires IsBase(base) && 0 < M
    ensures Scan(Numeral(x, base, upper), base, 0, M) == (true, Wrap(M, x))
  {
    hide Scan, DigitValue, Digit, Wrap;
    if x < base {
      ScanDigit(x, base, upper, 0, M);
    } else {
      DivModSplit(x, base);
      var q, d := x / base, x % base;
      ScanNumeral(q, base, upper, M);
      ScanConcat(Numeral(q, base, upper), [Digit(d, upper)], base, 0, M);
      ScanDigit(d, base, upper, Wrap(M, q), M);
      NextDigit(M, q, base, d);
    }
  }

  lemma NextDigit(M: nat, q: nat, base: nat, d: nat)
    requires 0 < M
    ensures 0 <= q * base + d && Wrap(M, Wrap(M, q) * base + d) == Wrap(M, q * base + d)
  {
    MulLe(0, q, base);
    DivModSplit(q, M);
    var w, k := q % M, q / M;
    assert q * base + d == w * base + d + (k * base) * M by {
      MulDist(base, k * M, w);
      MulAssoc(k, M, base);
      MulAssoc(k, base, M);
    }
    WrapShift(M, w * base + d, q * base + d, k * base);
  }

  /** The first character of a numeral: a digit, and '0' only for zero. */
  lemma {:induction false} FirstDigit(x: nat, base: nat, upper: bool)
    requires IsBase(base)
    ensures var s := Numeral(x, base, upper);
      s[0] != '+' && s[0] != '-' && (s[0] == '0' ==> x == 0 && s == "0") && (base == 8 ==> '0' <= s[0] <= '7')
  {
    if x >= base {
      LeDiv(1, x, base);
      FirstDigit(x / base, base, upper);
    }
  }

  /** What the printer writes, the reader reads: in base 10 the number, and in base 8 and 16, when the base
      is shown, the representation; with no hint about the base in either case. */
  lemma RoundTrip(M: nat, signed: bool, raw: nat, base: nat, showBase: bool, showPos: bool, upper: bool)
    requires 0 < M && M % 2 == 0 && raw < M && IsBase(base) && (base != 10 ==> showBase)
    ensures ReadSpec(Rendered(Number(M, raw, signed), raw, base, showBase, showPos, upper), 0, M) == (true, raw)
  {
    hide Numeral, Detected, Scan, Number;
    var num := Number(M, raw, signed);
    NumberWrap(M, raw, signed);
    if base == 10 {
      var sign := if num < 0 then "-" else if showPos then "+" else "";
      var n := Numeral(Abs(num), 10, true);
      FirstDigit(Abs(num), 10, true);
      ScanNumeral(Abs(num), 10, true, M);
      DecimalDetected(sign, n);
      if num < 0 { NegateWrap(M, num); }
    } else {
      var sign := if showPos then "+" else "";
      var n := Numeral(raw, base, upper);
      FirstDigit(raw, base, upper);
      ScanNumeral(raw, base, upper, M);
      ModSmall(raw, M);
      PrefixDetected(sign, n, base, upper);
    }
  }

  /** Positional: the k-th character from the end is the digit of base^k. */
  lemma {:induction false} NumeralDigit(x: nat, base: nat, upper: bool, k: nat)
    requires 2 <= base <= 16 && k < |Numeral(x, base, upper)|
    ensures Pow(base, k) > 0 && 0 <= (x / Pow(base, k)) % base < 16
    ensures var n := Numeral(x, base, upper);
      n[|n| - 1 - k] == (if upper then "0123456789ABCDEF" else "0123456789abcdef")[(x / Pow(base, k)) % base]
    decreases x
  {
    hide Pow, Digit;
    PowPos(base, k);
    DivModSplit(x, base);
    DivModSplit(x / Pow(base, k), base);
    if k == 0 {
      PowerZero(base);
      NumeralLast(x, base, upper);
      DigitIs(x % base, upper);
    } else {
      NumeralLonger(x, base, upper);
      NumeralDigit(x / base, base, upper, k - 1);
      PowSucc(base, k - 1);
      DivDiv(x, base, Pow(base, k - 1));
    }
  }

  lemma NumeralLast(x: nat, base: nat, upper: bool)
    requires 2 <= base <= 16
    ensures 0 <= x % base < base && var n := Numeral(x, base, upper); n[|n| - 1] == Digit(x % base, upper)
  {
    DivModSplit(x, base);
    if x < base { ModSmall(x, base); }
  }

  lemma NumeralLonger(x: nat, base: nat, upper: bool)
    requires 2 <= base <= 16 && 1 < |Numeral(x, base, upper)|
    ensures base <= x && 0 < x / base < x && 0 <= x % base < base
    ensures Numeral(x, base, upper) == Numeral(x / base, base, upper) + [Digit(x % base, upper)]
  {
    DivModSplit(x, base);
    LeDiv(1, x, base);
    MulLe(2, base, x / base);
  }

  /** There are as many digits as the number needs: no leading zero. */
  lemma {:induction false} NumeralSize(x: nat, base: nat, upper: bool)
    requires 2 <= base <= 16
    ensures var n := Numeral(x, base, upper); x < Pow(base, |n|) && (1 < |n| ==> Pow(base, |n| - 1) <= x)
    decreases x
  {
    hide *;
    PowerZero(base);
    NumeralGrows(x, base, upper);
    if x < base {
      PowSucc(base, 0);
    } else {
      var m := |Numeral(x / base, base, upper)|;
      NumeralSize(x / base, base, upper);
      PowSucc(base, m);
      PowSucc(base, m - 1);
      NextPlace(x, base, Pow(base, m), Pow(base, m - 1));
    }
  }

  lemma NumeralGrows(x: nat, base: nat, upper: bool)
    requires 2 <= base <= 16
    ensures x < base ==> |Numeral(x, base, upper)| == 1
    ensures base <= x ==> 0 < x / base < x && |Numeral(x, base, upper)| == 1 + |Numeral(x / base, base, upper)|
  {
    DivModSplit(x, base);
    if base <= x {
      LeDiv(1, x, base);
      MulLe(2, base, x / base);
    }
  }

  lemma PowerZero(base: nat)
    ensures Pow(base, 0) == 1 && forall x: nat :: x / Pow(base, 0) == x
  {}

  lemma NextPlace(x: nat, base: nat, p: nat, p0: nat)
    requires 2 <= base && 0 <= x / base < p && p == base * p0 && (p0 <= x / base || p0 == 1) && base <= x
    ensures x < base * p && p <= x
  {
    DivModSplit(x, base);
    MulLe(x / base + 1, p, base);
    MulDist(base, x / base, 1);
    MulLe(p0, x / base, base);
  }

  /** The sign and the prefix in front of the numeral: a sign for a negative number in base 10 or when asked for, and in
      base 8 and 16 the prefix when asked for. */
  lemma RenderedShape(num: int, raw: nat, base: nat, showBase: bool, showPos: bool, upper: bool)
    requires IsBase(base)
    ensures var s, n := Rendered(num, raw, base, showBase, showPos, upper), Numeral(if base == 10 then Abs(num) else raw, base, base == 10 || upper);
      var sign := if base == 10 && num < 0 then 1 else if showPos then 1 else 0;
      var prefix := if base == 10 || !showBase then 0 else if base == 8 then 1 else 2;
      && |s| == sign + prefix + |n| && s[sign + prefix..] == n
      && (s[0] == '-' <==> base == 10 && num < 0) && (s[0] == '+' <==> showPos && (base == 10 ==> 0 <= num))
      && (0 < prefix ==> s[sign] == '0') && (prefix == 2 ==> s[sign + 1] == if upper then 'X' else 'x')
  {
    hide Numeral;
    FirstDigit(if base == 10 then Abs(num) else raw, base, base == 10 || upper);
  }

  /** An apostrophe between digits changes nothing. */
  lemma {:induction false} SeparatorSkipped(s: string, t: string, base: nat, acc: nat, M: nat)
    requires 0 < M
    ensures Scan(s + "'" + t, base, acc, M) == Scan(s + t, base, acc, M)
  {
    if s == "" {
      assert ("'" + t)[1..] == t && "" + "'" + t == "'" + t && "" + t == t;
    } else {
      assert (s + "'" + t)[1..] == s[1..] + "'" + t && (s + t)[1..] == s[1..] + t;
      SeparatorSkipped(s[1..], t, base, acc, M);
      if s[0] != '\'' && IsBase(base) && DigitValue(s[0], base).Some? {
        SeparatorSkipped(s[1..], t, base, Wrap(M, acc * base + DigitValue(s[0], base).value), M);
      }
    }
  }

  /** With its base given, the numeral of x without a prefix reads as x modulo the width, and negated after a minus. */
  lemma ReadWithBase(sign: string, x: nat, base: nat, upper: bool, M: nat)
    requires (sign == "" || sign == "+" || sign == "-") && IsBase(base) && 0 < M
    ensures ReadSpec(sign + Numeral(x, base, upper), base, M) == (true, Wrap(M, if sign == "-" then 0 - x else x))
  {
    hide Numeral, Scan;
    var n := Numeral(x, base, upper);
    FirstDigit(x, base, upper);
    ScanNumeral(x, base, upper, M);
    assert (sign + n)[|sign|..] == n;
    if sign == "-" { WrapNegated(M, x); }
  }

  lemma WrapNegated(M: nat, x: nat)
    requires 0 < M
    ensures Wrap(M, 0 - Wrap(M, x)) == Wrap(M, 0 - x)
  {
    DivModSplit(x, M);
    WrapShift(M, 0 - Wrap(M, x), 0 - x, 0 - x / M);
  }

  /** Without a base a leading zero makes a numeral octal, unless a 9 comes next. */
  lemma LeadingZero(n: string, M: nat)
    requires 0 < |n| && '0' <= n[0] <= '9' && 0 < M
    ensures ReadSpec("0" + n, 0, M) == Scan(n, if n[0] == '9' then 10 else 8, 0, M)
  {
    assert ("0" + n)[1..] == n;
    ModSmall(0, M);
  }

  /** So "08" is no number, and "09" is nine. */
  lemma LeadingZeroDigits(M: nat)
    requires 0 < M
    ensures !ReadSpec("08", 0, M).0 && ReadSpec("09", 0, M) == (true, Wrap(M, 9))
  {
    hide ReadSpec;
    LeadingZero("8", M);
    LeadingZero("9", M);
    assert "0" + "8" == "08" && "0" + "9" == "09" && "9"[1..] == "";
  }

  lemma DecimalDetected(sign: string, n: string)
    requires (sign == "" || sign == "+" || sign == "-") && 0 < |n| && n[0] != '+' && n[0] != '-' && (n[0] == '0' ==> n == "0")
    ensures Detected(sign + n, |sign|, 0) == (10, |sign|) && (sign + n)[|sign|..] == n
    ensures (sign == "-" <==> (sign + n)[0] == '-') && (sign == "+" <==> (sign + n)[0] == '+')
  {}

  lemma PrefixDetected(sign: string, n: string, base: nat, upper: bool)
    requires (sign == "" || sign == "+") && 0 < |n| && (base == 8 || base == 16) && (base == 8 ==> '0' <= n[0] <= '7')
    ensures var prefix := if base == 8 then "0" else if upper then "0X" else "0x";
            var s := sign + prefix + n;
            Detected(s, |sign|, 0) == (base, |sign| + |prefix|) && s[|sign| + |prefix|..] == n
            && s[0] != '-' && (sign == "+" <==> s[0] == '+')
  {
    var prefix := if base == 8 then "0" else if upper then "0X" else "0x";
    var s := sign + prefix + n;
    assert s[|sign|] == '0';
    assert s[|sign| + 1] == if base == 8 then n[0] else prefix[1];
  }

  // ----------------------------------------------------------- buffer sizes

  /** The sizes of the printer's buffers for numbers of W bits. */
  function BufferSize(W: nat, base: nat): nat
    requires IsBase(base)
  {
    if base == 8 then 8 + (if W % 3 != 0 then 1 else 0) + W / 3
    else if base == 16 then 8 + (if W % 4 != 0 then 1 else 0) + W / 4
    else 10 + (W * 301) / 1000
  }

  lemma {:induction false} PowBaseMono(a: nat, b: nat, e: nat)
    requires 0 < a <= b
    ensures Pow(a, e) <= Pow(b, e)
  {
    if e > 0 {
      PowBaseMono(a, b, e - 1);
      PowPos(a, e - 1);
      MulLe(a, b, Pow(a, e - 1));
      MulLe(Pow(a, e - 1), Pow(b, e - 1), b);
    }
  }

  /** 2^93 is below 10^28, and 2^13 below 10^4. */
  lemma Ratios()
    ensures Pow(2, 93) <= Pow(10, 28) && Pow(2, 13) <= Pow(10, 4)
  {
    assert Pow(2, 13) == 8192 && Pow(10, 4) == 10000;
    assert Pow(2, 10) == 1024 && Pow(10, 7) == 10000000;
    PowAdd(2, 13, 10);
    PowAdd(2, 23, 23);
    PowAdd(2, 46, 46);
    PowAdd(2, 92, 1);
    PowAdd(10, 7, 7);
    PowAdd(10, 14, 14);
    assert Pow(2, 1) == 2;
  }

  lemma SmallRatio(d: nat)
    requires d <= 12
    ensures Pow(2, d) <= Pow(10, (d + 2) / 3)
  {
    assert Pow(2, 3) == 8 && Pow(10, 1) == 10;
    var k := (d + 2) / 3;
    PowMono(2, d, 3 * k);
    PowMul(2, 3, k);
    PowBaseMono(8, 10, k);
  }

  /** Up to 65536 bits the decimal buffer holds every digit: 2^W is at most 10^(8 + 301 W / 1000). */
  lemma DecimalCapacity(W: nat)
    requires W <= 65536
    ensures Pow(2, W) <= Pow(10, 8 + (W * 301) / 1000)
  {
    hide *;
    var a, c, d := W / 93, (W % 93) / 13, (W % 93) % 13;
    Ratios();
    EnoughDigits(W, a, c, d);
    SmallRatio(d);
    ThreeFactors(a, c, d);
    PowMono(10, 28 * a + 4 * c + (d + 2) / 3, 8 + (W * 301) / 1000);
  }

  lemma EnoughDigits(W: nat, a: nat, c: nat, d: nat)
    requires W <= 65536 && a == W / 93 && c == (W % 93) / 13 && d == (W % 93) % 13
    ensures W == 93 * a + 13 * c + d && 28 * a + 4 * c + (d + 2) / 3 <= 8 + (W * 301) / 1000
  {}

  lemma ThreeFactors(a: nat, c: nat, d: nat)
    requires Pow(2, 93) <= Pow(10, 28) && Pow(2, 13) <= Pow(10, 4) && Pow(2, d) <= Pow(10, (d + 2) / 3)
    ensures Pow(2, 93 * a + 13 * c + d) <= Pow(10, 28 * a + 4 * c + (d + 2) / 3)
  {
    hide Pow;
    PowPos(2, 93);
    PowPos(2, 13);
    PowMul(2, 93, a);
    PowMul(2, 13, c);
    PowMul(10, 28, a);
    PowMul(10, 4, c);
    PowBaseMono(Pow(2, 93), Pow(10, 28), a);
    PowBaseMono(Pow(2, 13), Pow(10, 4), c);
    PowAdd(2, 93 * a, 13 * c);
    PowAdd(2, 93 * a + 13 * c, d);
    PowAdd(10, 28 * a, 4 * c);
    PowAdd(10, 28 * a + 4 * c, (d + 2) / 3);
    ProductsLe(Pow(2, 93 * a), Pow(10, 28 * a), Pow(2, 13 * c), Pow(10, 4 * c));
    ProductsLe(Pow(2, 93 * a + 13 * c), Pow(10, 28 * a + 4 * c), Pow(2, d), Pow(10, (d + 2) / 3));
  }

  lemma ProductsLe(a: nat, b: nat, c: nat, d: nat)
    requires a <= b && c <= d
    ensures a * c <= b * d
  {
    MulLe(a, b, c);
    MulLe(c, d, b);
  }

  /** The buffers are large enough for all digits, prefix, sign and terminator, at widths up to 65536. */
  lemma DigitsFit(W: nat, base: nat, x: nat, upper: bool)
    requires 1 <= W <= 65536 && IsBase(base) && x < Pow(2, W)
    ensures |Numeral(x, base, upper)| + (if base == 16 then 4 else if base == 8 then 3 else 2) <= BufferSize(W, base)
  {
    if base == 10 {
      DecimalCapacity(W);
      PendingLength(x, 10, upper, 8 + (W * 301) / 1000);
    } else {
      var k, n := if base == 8 then 3 else 4, if base == 8 then (W + 2) / 3 else (W + 3) / 4;
      assert Pow(2, 3) == 8 && Pow(2, 4) == 16;
      PowMul(2, k, n);
      PowMono(2, W, k * n);
      PendingLength(x, base, upper, n);
    }
  }
}
