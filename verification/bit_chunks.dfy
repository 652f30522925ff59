/** Import and export of numbers as chunks of bits. */
module BitChunks {
  import opened Limbs
  import opened Bits
  import opened Kernels
  import opened TwosComplement
  import opened WideInteger
  import Roots

  // --------------------------------------------------- most significant first

  /** The value of digits, most significant first. */
  function BigEndian(B: Base, s: seq<nat>): nat {
    if |s| == 0 then 0 else BigEndian(B, s[..|s| - 1]) * B + s[|s| - 1]
  }

  function Reversed(s: seq<nat>): (r: seq<nat>)
    ensures |r| == |s| && forall i :: 0 <= i < |s| ==> r[i] == s[|s| - 1 - i]
  {
    if |s| == 0 then [] else [s[|s| - 1]] + Reversed(s[..|s| - 1])
  }

  lemma {:induction false} BigEndianReversed(B: Base, s: seq<nat>)
    ensures BigEndian(B, s) == Val(B, Reversed(s))
  {
    if |s| > 0 {
      BigEndianReversed(B, s[..|s| - 1]);
      assert Reversed(s)[1..] == Reversed(s[..|s| - 1]);
    }
  }

  // ------------------------------------------------------------- bit by bit

  /** Bit i of the number whose chunks, most significant first, are in `inp`; T bits in all. */
  predicate InputBit(inp: seq<nat>, T: nat, chunkIn: nat, i: nat)
    requires 0 < chunkIn && i < T && (T - 1) / chunkIn < |inp|
  {
    ChunkIndex(T, chunkIn, i);
    Bit(inp[(T - 1) / chunkIn - i / chunkIn], i % chunkIn)
  }

  lemma ChunkIndex(T: nat, c: nat, i: nat)
    requires 0 < c && i < T
    ensures 0 <= i / c <= (T - 1) / c && 0 <= i % c < c
  {
    DivModSplit(i, c);
    DivModSplit(T - 1, c);
    LeDiv(i / c, T - 1, c);
  }

  /** The number that the bits from i up form. */
  function HighBits(inp: seq<nat>, T: nat, chunkIn: nat, i: nat): nat
    requires 0 < chunkIn && 0 < T && i <= T && (T - 1) / chunkIn < |inp|
    decreases T - i
  {
    if i == T then 0 else 2 * HighBits(inp, T, chunkIn, i + 1) + if InputBit(inp, T, chunkIn, i) then 1 else 0
  }

  /** Setting one bit of the last chunk, all lower bits of which are still clear. */
  lemma SetBit(cur: nat, p: nat, c: nat, bit: bool)
    requires p < c && cur < Pow(2, c) && Pow(2, p + 1) > 0 && cur % Pow(2, p + 1) == 0
    ensures var now := if bit then BitOr(cur, Pow(2, p)) else cur;
      && now == cur + (if bit then Pow(2, p) else 0) && now < Pow(2, c) && Pow(2, p) > 0 && now % Pow(2, p) == 0
  {
    hide Pow;
    PowPos(2, p);
    PowSucc(2, p);
    PowAdd(2, p + 1, c - (p + 1));
    var P, k := Pow(2, p + 1), cur / Pow(2, p + 1);
    DivModSplit(cur, P);
    PowMono(2, p, p + 1);
    PowPos(2, p);
    assert Pow(2, p) < P;
    OrDisjoint(k, Pow(2, p), p + 1);
    RoomBelow(cur, P, Pow(2, c - (p + 1)), Pow(2, p));
    assert cur == (2 * k) * Pow(2, p) by { MulAssoc(k, 2, Pow(2, p)); MulAssoc(2, k, Pow(2, p)); }
    MulDist(Pow(2, p), 2 * k, 1);
    DivModUnique(cur + Pow(2, p), Pow(2, p), 2 * k + 1, 0);
    DivModUnique(cur, Pow(2, p), 2 * k, 0);
  }

  /** The chunks so far: the last one has its bits below p still clear, and together they are H * 2^p. */
  ghost predicate Filled(out: seq<nat>, chunkOut: nat, p: nat, H: nat) {
    && 0 < chunkOut && 0 < |out| && (2 <= Pow(2, chunkOut)) && IsLimbs(Pow(2, chunkOut), out)
    && Pow(2, p) > 0 && out[|out| - 1] % Pow(2, p) == 0
    && BigEndian(Pow(2, chunkOut), out) == H * Pow(2, p)
  }

  lemma FilledStart(chunkOut: nat, p: nat)
    requires 0 < chunkOut
    ensures Filled([0], chunkOut, p, 0)
  {
    PowMono(2, 1, chunkOut);
    PowSucc(2, 0);
    PowPos(2, p);
    ModSmall(0, Pow(2, p));
    assert [0][..0] == [];
  }

  lemma FilledBit(out: seq<nat>, chunkOut: nat, p: nat, H: nat, bit: bool)
    requires p < chunkOut && Filled(out, chunkOut, p + 1, H)
    ensures var cur := out[|out| - 1];
      var now := if bit then BitOr(cur, Pow(2, p)) else cur;
      Filled(out[|out| - 1 := now], chunkOut, p, 2 * H + if bit then 1 else 0)
  {
    hide Pow;
    var n, cur := |out| - 1, out[|out| - 1];
    SetBit(cur, p, chunkOut, bit);
    var now := if bit then BitOr(cur, Pow(2, p)) else cur;
    assert out[n := now][..n] == out[..n];
    PowSucc(2, p);
    MulAssoc(H, 2, Pow(2, p));
    MulAssoc(2, H, Pow(2, p));
    MulDist(Pow(2, p), 2 * H, 1);
  }

  lemma FilledNext(out: seq<nat>, chunkOut: nat, H: nat)
    requires Filled(out, chunkOut, 0, H)
    ensures Filled(out + [0], chunkOut, chunkOut, H)
  {
    assert Pow(2, 0) == 1;
    hide Pow;
    PowPos(2, chunkOut);
    ModSmall(0, Pow(2, chunkOut));
    assert (out + [0])[..|out|] == out;
  }

  /** Sets one bit of the last chunk when the input bit is set. */
  method OrBit(out: seq<nat>, chunkOut: nat, p: nat, bit: bool, ghost H: nat) returns (now: seq<nat>)
    requires p < chunkOut && Filled(out, chunkOut, p + 1, H) && 0 < |out|
    ensures |now| == |out| && Filled(now, chunkOut, p, 2 * H + if bit then 1 else 0)
  {
    hide Pow, BitOr, Filled;
    FilledBit(out, chunkOut, p, H, bit);
    now := out;
    if bit {
      now := out[|out| - 1 := BitOr(out[|out| - 1], Pow(2, p))];
    }
    assert out[|out| - 1 := out[|out| - 1]] == out;
  }

  /** Copies bits from chunks of one size to chunks of another, both most significant first. */
  method ImportExportHelper(inp: seq<nat>, totalBitsToUse: nat, chunkSizeIn: nat, chunkSizeOut: nat) returns (out: seq<nat>)
    requires 0 < chunkSizeIn && 0 < chunkSizeOut && (0 < totalBitsToUse ==> (totalBitsToUse - 1) / chunkSizeIn < |inp|)
    ensures totalBitsToUse == 0 ==> out == []
    ensures 0 < totalBitsToUse ==>
      |out| == (totalBitsToUse - 1) / chunkSizeOut + 1
      && Filled(out, chunkSizeOut, 0, HighBits(inp, totalBitsToUse, chunkSizeIn, 0))
  {
    hide Pow, BitOr, Filled;
    var T := totalBitsToUse;
    if T == 0 {
      return [];
    }
    out := [0];
    var next: nat := 0;
    var i: int := T - 1;
    FilledStart(chunkSizeOut, (T - 1) % chunkSizeOut + 1);
    ChunkIndex(T, chunkSizeIn, T - 1);
    while i >= 0
      invariant -1 <= i < T && 0 < |out|
      invariant i >= 0 ==> next == (T - 1) / chunkSizeIn - i / chunkSizeIn && |out| - 1 == (T - 1) / chunkSizeOut - i / chunkSizeOut
      invariant i >= 0 ==> Filled(out, chunkSizeOut, i % chunkSizeOut + 1, HighBits(inp, T, chunkSizeIn, i + 1))
      invariant i < 0 ==> |out| - 1 == (T - 1) / chunkSizeOut && Filled(out, chunkSizeOut, 0, HighBits(inp, T, chunkSizeIn, 0))
      decreases i
    {
      ChunkIndex(T, chunkSizeIn, i);
      ChunkIndex(T, chunkSizeOut, i);
      Advance(i, chunkSizeIn);
      Advance(i, chunkSizeOut);
      var inputBpos, resultBpos := i % chunkSizeIn, i % chunkSizeOut;
      ghost var bit := Bit(inp[next], inputBpos);
      TestBit(inp[next], inputBpos);
      out := OrBit(out, chunkSizeOut, resultBpos, BitAnd(inp[next], Pow(2, inputBpos)) != 0, HighBits(inp, T, chunkSizeIn, i + 1));
      if resultBpos == 0 && i != 0 {
        FilledNext(out, chunkSizeOut, HighBits(inp, T, chunkSizeIn, i));
        out := out + [0];
      }
      if inputBpos == 0 && i != 0 {
        next := next + 1;
      }
      i := i - 1;
    }
  }

  /** Stepping down by one bit. */
  lemma Advance(i: nat, c: nat)
    requires 0 < c
    ensures 0 <= i % c < c && 0 <= i / c
    ensures i > 0 && i % c == 0 ==> (i - 1) / c == i / c - 1 && (i - 1) % c == c - 1
    ensures i > 0 && i % c != 0 ==> (i - 1) / c == i / c && (i - 1) % c == i % c - 1
    ensures i == 0 ==> i % c == 0 && i / c == 0
  {
    DivModSplit(i, c);
    if i == 0 {
      ModSmall(0, c);
    } else if i % c == 0 {
      MulDist(c, i / c, -1);
      DivModUnique(i - 1, c, i / c - 1, c - 1);
    } else {
      DivModUnique(i - 1, c, i / c, i % c - 1);
    }
  }

  // ----------------------------------------------------- what is transported

  /** A bit of a number, in the limb that holds it. */
  lemma LimbBit(B: Base, s: seq<nat>, c: nat, i: nat)
    requires 0 < c && B == Pow(2, c) && IsLimbs(B, s) && 0 <= i / c < |s| && 0 <= i % c
    ensures Bit(Val(B, s), i) <==> Bit(s[i / c], i % c)
  {
    hide Pow, Bit;
    var j, r := i / c, i % c;
    DivModSplit(i, c);
    PowMul(2, c, j);
    ShiftedBit(Val(B, s), c * j, r);
    assert c * j + r == i;
    ValDivMod(B, s, j);
    var t := s[j..];
    LowBit(Val(B, t), c, r);
    LimbsSlice(B, s, 0, |s|, j, |s|);
    assert s[0..|s|] == s && t == s[j..|s|];
    ValDivMod(B, t, 1);
    PowSucc(2, 0);
    OneLimbPower(B);
    assert t[..1] == [s[j]];
    ValOne(B, s[j]);
  }

  lemma OneLimbPower(B: Base)
    ensures Pow(B, 1) == B
  {
    PowSucc(B, 0);
  }

  /** Halving a number takes off its lowest bit. */
  lemma BitBelow(y: nat, i: nat)
    ensures Pow(2, i) > 0 && Pow(2, i + 1) > 0
    ensures y / Pow(2, i) == 2 * (y / Pow(2, i + 1)) + if Bit(y, i) then 1 else 0
  {
    PowPos(2, i);
    PowPos(2, i + 1);
    BitValue(y, i);
    PowSucc(2, i);
    DivDiv(y, Pow(2, i), 2);
  }

  /** The bits that the helper reads are those of the number, as far as T bits go. */
  lemma {:induction false} HighBitsValue(inp: seq<nat>, T: nat, c: nat, i: nat)
    requires 0 < c && 0 < T && i <= T && |inp| == (T - 1) / c + 1 && 2 <= Pow(2, c) && IsLimbs(Pow(2, c), inp)
    ensures Pow(2, T) > 0 && Pow(2, i) > 0 && 0 <= Val(Pow(2, c), Reversed(inp)) % Pow(2, T)
    ensures HighBits(inp, T, c, i) == (Val(Pow(2, c), Reversed(inp)) % Pow(2, T)) / Pow(2, i)
    decreases T - i
  {
    hide Pow, Val, Bit;
    var x := Val(Pow(2, c), Reversed(inp));
    PowPos(2, T);
    PowPos(2, i);
    DivModSplit(x, Pow(2, T));
    if i == T {
      ModSmall(x % Pow(2, T), Pow(2, T));
    } else {
      HighBitsValue(inp, T, c, i + 1);
      ChunkIndex(T, c, i);
      LimbBit(Pow(2, c), Reversed(inp), c, i);
      LowBit(x, T, i);
      BitBelow(x % Pow(2, T), i);
    }
  }

  /** The part of a chunk below c bits: what is above is not read. */
  function LowPart(x: nat, c: nat): nat {
    PowPos(2, c);
    DivModSplit(x, Pow(2, c));
    x % Pow(2, c)
  }

  function LowParts(s: seq<nat>, c: nat): (r: seq<nat>)
    ensures |r| == |s| && forall i :: 0 <= i < |s| ==> r[i] == LowPart(s[i], c)
  {
    seq(|s|, i requires 0 <= i < |s| => LowPart(s[i], c))
  }

  lemma LowPartsLimbs(s: seq<nat>, c: nat)
    requires 0 < c
    ensures 2 <= Pow(2, c) && IsLimbs(Pow(2, c), LowParts(s, c))
    ensures IsLimbs(Pow(2, c), s) ==> LowParts(s, c) == s
  {
    PowMono(2, 1, c);
    PowSucc(2, 0);
    hide Pow;
    forall i | 0 <= i < |s| ensures LowPart(s[i], c) < Pow(2, c) && (s[i] < Pow(2, c) ==> LowPart(s[i], c) == s[i]) {
      DivModSplit(s[i], Pow(2, c));
      if s[i] < Pow(2, c) { ModSmall(s[i], Pow(2, c)); }
    }
  }

  /** Only the low parts of the first chunks are read. */
  lemma {:induction false} ChunksRead(inp: seq<nat>, T: nat, c: nat, i: nat, k: nat)
    requires 0 < c && 0 < T && i <= T && k == (T - 1) / c + 1 <= |inp|
    ensures HighBits(inp, T, c, i) == HighBits(LowParts(inp[..k], c), T, c, i)
    decreases T - i
  {
    hide Bit, LowPart;
    if i < T {
      ChunksRead(inp, T, c, i + 1, k);
      ChunkIndex(T, c, i);
      var x := inp[(T - 1) / c - i / c];
      assert LowParts(inp[..k], c)[(T - 1) / c - i / c] == LowPart(x, c);
      LowPartBit(x, c, i % c);
    }
  }

  lemma LowPartBit(x: nat, c: nat, i: nat)
    requires i < c
    ensures Bit(LowPart(x, c), i) <==> Bit(x, i)
  {
    LowBit(x, c, i);
  }

  /** What the helper delivers, least significant chunk first: the digits of the number that went in, as far
      as T bits go. */
  lemma Delivered(inp: seq<nat>, T: nat, cIn: nat, out: seq<nat>, cOut: nat, k: nat)
    requires 0 < cIn && 0 < cOut && 0 < T && k == (T - 1) / cIn + 1 <= |inp|
    requires Filled(out, cOut, 0, HighBits(inp, T, cIn, 0))
    ensures 2 <= Pow(2, cIn) && 2 <= Pow(2, cOut) && 0 < Pow(2, T) && IsLimbs(Pow(2, cOut), Reversed(out))
    ensures Val(Pow(2, cOut), Reversed(out)) == Val(Pow(2, cIn), Reversed(LowParts(inp[..k], cIn))) % Pow(2, T)
  {
    ZeroShift();
    hide Pow, Val, HighBits, BigEndian, Reversed, Bit, LowPart, LowParts, IsLimbs;
    var low := LowParts(inp[..k], cIn);
    LowPartsLimbs(inp[..k], cIn);
    ChunksRead(inp, T, cIn, 0, k);
    HighBitsValue(low, T, cIn, 0);
    BigEndianReversed(Pow(2, cOut), out);
    ReversedLimbs(Pow(2, cOut), out);
  }

  lemma ZeroShift()
    ensures Pow(2, 0) == 1
  {}

  lemma ReversedTwice(s: seq<nat>)
    ensures Reversed(Reversed(s)) == s
  {}

  // ---------------------------------------------------------------- export

  /** The number of chunks of c bits that T bits take. */
  function Chunks(T: nat, c: nat): nat
    requires 0 < T && 0 < c
  {
    DivModSplit(T - 1, c);
    (T - 1) / c + 1
  }

  /** T bits fit their chunks. */
  lemma ChunksHold(T: nat, c: nat)
    requires 0 < T && 0 < c
    ensures T <= c * Chunks(T, c) && Pow(2, T) <= Pow(Pow(2, c), Chunks(T, c))
  {
    hide Pow;
    DivModSplit(T - 1, c);
    var n := Chunks(T, c);
    CoverBits(T, c, n - 1, (T - 1) % c, n);
    PowMul(2, c, n);
    PowMono(2, T, c * n);
  }

  lemma CoverBits(T: nat, c: nat, q: nat, r: nat, n: nat)
    requires T - 1 == q * c + r && r < c && n == q + 1
    ensures T <= c * n
  {
    MulDist(c, q, 1);
  }

  /** The low limbs of a number that hold all its bits. */
  lemma Significants(B: Base, s: seq<nat>, n: nat)
    requires n <= |s| && IsLimbs(B, s) && Val(B, s) < Pow(B, n)
    ensures IsLimbs(B, s[..n]) && Val(B, s[..n]) == Val(B, s)
  {
    ValDivMod(B, s, n);
    ModSmall(Val(B, s), Pow(B, n));
  }

  /** More chunks than bits ask for are not needed. */
  lemma ChunksBelow(T: nat, W: nat, c: nat, N: nat)
    requires 0 < T <= W && 0 < c && W == c * N
    ensures Chunks(T, c) <= N
  {
    assert c * N == N * c;
    DivLt(T - 1, c, N);
  }

  lemma ChunksMono(T: nat, W: nat, c: nat)
    requires 0 < T <= W && 0 < c
    ensures Chunks(T, c) <= Chunks(W, c)
  {
    DivModSplit(T - 1, c);
    LeDiv((T - 1) / c, W - 1, c);
  }

  /** Chunks with the least significant one first, whichever order they are kept in. */
  function Ordered(s: seq<nat>, msvFirst: bool): seq<nat> { if msvFirst then Reversed(s) else s }

  /** The number of binary digits of x, at least 1. */
  function BitLength(x: nat): (t: nat)
    ensures 0 < t
  {
    if x < 2 then 1 else 1 + BitLength(x / 2)
  }

  lemma {:induction false} BitLengthIs(x: nat, t: nat)
    requires 0 < t && x < Pow(2, t) && (if t == 1 then x < 2 else Pow(2, t - 1) <= x)
    ensures t == BitLength(x)
  {
    if t > 1 {
      PowSucc(2, t - 1);
      PowSucc(2, t - 2);
      PowPos(2, t - 2);
      BitLengthIs(x / 2, t - 1);
    }
  }

  /** Elements as wide as a limb and chunks that fill them are copied limb by limb. */
  predicate WholeLimbs(digits: nat, elementBits: nat, chunkSize: nat) {
    elementBits == digits <= chunkSize
  }

  /** The chunks that the magnitude of a number takes. */
  function ChunkCountOf(z: int, c: nat): nat
    requires 0 < c
  {
    Chunks(BitLength(Abs(z)), c)
  }

  /** The number that the exported chunks denote: the magnitude, but where whole limbs of a negative number are
      copied its two's complement, cut to the limbs of the magnitude. */
  function Exported(z: int, whole: bool, c: nat): int
    requires 0 < c
  {
    if z < 0 && whole then Pow(Pow(2, c), ChunkCountOf(z, c)) + z else Abs(z)
  }

  /** The magnitude comes out exactly for a number that is not negative, for chunks that are not whole limbs,
      and for a negative number whose magnitude is half of what its limbs hold. */
  predicate KeepsMagnitude(z: int, whole: bool, c: nat)
    requires 0 < c
  {
    0 <= z || !whole || 2 * Abs(z) == Pow(Pow(2, c), ChunkCountOf(z, c))
  }

  /** It is the least number of chunks that holds the magnitude. */
  lemma ChunkCountExactly(z: int, c: nat)
    requires 0 < c
    ensures var n := ChunkCountOf(z, c); 0 < n && Abs(z) < Pow(Pow(2, c), n) && (1 < n ==> Pow(Pow(2, c), n - 1) <= Abs(z))
  {
    hide Pow;
    var t, n := BitLength(Abs(z)), ChunkCountOf(z, c);
    BitLengthBound(Abs(z));
    ChunksHold(t, c);
    DivModSplit(t - 1, c);
    if 1 < n {
      PowMul(2, c, n - 1);
      MulLe(1, n - 1, c);
      PowMono(2, c * (n - 1), t - 1);
      BitLengthLeast(Abs(z));
    }
  }

  lemma {:induction false} BitLengthLeast(x: nat)
    requires 1 < BitLength(x)
    ensures Pow(2, BitLength(x) - 1) <= x
  {
    if BitLength(x) == 2 { PowSucc(2, 0); } else { BitLengthLeast(x / 2); }
  }

  /** Which chunk stands where: the last one first, or as they are. */
  lemma {:induction false} OrderedAt(s: seq<nat>, msvFirst: bool, k: nat)
    requires k < |s|
    ensures |Ordered(s, msvFirst)| == |s| && Ordered(s, msvFirst)[k] == if msvFirst then s[|s| - 1 - k] else s[k]
  {
    if msvFirst && 0 < k { OrderedAt(s[..|s| - 1], msvFirst, k - 1); }
  }

  lemma ExportedExactly(z: int, whole: bool, c: nat)
    requires 0 < c
    ensures Exported(z, whole, c) == Abs(z) <==> KeepsMagnitude(z, whole, c)
  {}

  /** Whole 32-bit limbs of -1. */
  lemma ExportedMinusOne()
    ensures Exported(-1, true, 32) == 0xFFFF_FFFF && !KeepsMagnitude(-1, true, 32)
  {
    assert Pow(2, 8) == 0x100;
    PowMul(2, 8, 4);
    assert Pow(0x100, 4) == 0x1_0000_0000;
    assert Pow(Pow(2, 32), 1) == Pow(2, 32);
  }

  /** Exports a number as chunks of bits into the front of a buffer; n is where the returned iterator stands. */
  method ExportBits(x: UintWide, buf: array<nat>, elementBits: nat, chunkSize: nat, msvFirst: bool) returns (n: nat)
    requires x.Valid() && 0 < elementBits && 0 < chunkSize && buf != x.values
    requires Chunks(x.digits * x.values.Length, Smaller(elementBits, chunkSize)) <= buf.Length
    modifies buf
    ensures var c := Smaller(elementBits, chunkSize);
      && n == ChunkCountOf(x.Num(), c) <= buf.Length && 2 <= Pow(2, c) && IsLimbs(Pow(2, c), Ordered(buf[..n], msvFirst))
      && Val(Pow(2, c), Ordered(buf[..n], msvFirst)) == Exported(x.Num(), WholeLimbs(x.digits, elementBits, chunkSize), c)
      && buf[n..] == old(buf[n..]) && BitLength(Abs(x.Num())) <= x.digits * x.values.Length
  {
    hide Pow, Val, IsLimbs, Chunks, Ordered;
    var neg := x.IsNeg();
    var v := x.Magnitude(neg);
    var W := v.digits * v.values.Length;
    var c := Smaller(elementBits, chunkSize);
    var msbPlusOne := MsbPlusOne(v, W);
    ChunksMono(msbPlusOne, W, c);
    var inputDistance := Chunks(msbPlusOne, v.digits);
    InputChunks(v, W, msbPlusOne, inputDistance);
    if elementBits == x.digits && c == x.digits {
      ChunksHold(msbPlusOne, x.digits);
      CopyLimbs(x, buf, inputDistance, msvFirst);
      n := inputDistance;
    } else {
      ExportChunks(v, buf, c, msbPlusOne, inputDistance, Chunks(msbPlusOne, c), msvFirst);
      n := Chunks(msbPlusOne, c);
    }
  }

  /** Bit by bit, the number without its sign. */
  method ExportChunks(v: UintWide, buf: array<nat>, c: nat, msbPlusOne: nat, inputDistance: nat, outputDistance: nat, msvFirst: bool)
    requires v.Valid() && 0 < c && 0 < msbPlusOne && v.Raw() < Pow(2, msbPlusOne) && inputDistance <= v.values.Length
    requires inputDistance == Chunks(msbPlusOne, v.digits) == (msbPlusOne - 1) / v.digits + 1
    requires outputDistance == Chunks(msbPlusOne, c) <= buf.Length
    modifies buf
    ensures 2 <= Pow(2, c) && IsLimbs(Pow(2, c), Ordered(buf[..outputDistance], msvFirst))
    ensures Val(Pow(2, c), Ordered(buf[..outputDistance], msvFirst)) == old(v.Raw()) && buf[outputDistance..] == old(buf[outputDistance..])
  {
    hide Pow, Val, IsLimbs, Chunks, Filled, LowPart, LowParts;
    ChunkCount(msbPlusOne, c);
    var out := ImportExportHelper(Reversed(v.values[..inputDistance]), msbPlusOne, v.digits, c);
    ExportedValue(v, msbPlusOne, inputDistance, out, c);
    if msvFirst {
      Store(buf, out, outputDistance);
    } else {
      StoreReversed(buf, out, outputDistance);
    }
  }

  /** Whole limbs: those of the number itself, its sign included. */
  method CopyLimbs(x: UintWide, buf: array<nat>, k: nat, msvFirst: bool)
    requires x.Valid() && buf != x.values && k == ChunkCountOf(x.Num(), x.digits) <= x.values.Length && k <= buf.Length
    requires Abs(x.Num()) < Pow(x.base, k)
    modifies buf
    ensures IsLimbs(x.base, Ordered(buf[..k], msvFirst)) && buf[k..] == old(buf[k..])
    ensures Val(x.base, Ordered(buf[..k], msvFirst)) == Exported(x.Num(), true, x.digits)
  {
    hide Pow, Val, IsLimbs, Chunks, Reversed;
    var limbs := x.values[..k];
    CutLimbs(x, k);
    if msvFirst {
      Store(buf, Reversed(limbs), k);
      ReversedTwice(limbs);
    } else {
      Store(buf, limbs, k);
    }
  }

  /** The k low limbs of a number of at most k significant ones: the number, or B^k more when it is negative. */
  lemma CutLimbs(x: UintWide, k: nat)
    requires x.Valid() && k <= x.values.Length && Abs(x.Num()) < Pow(x.base, k)
    ensures IsLimbs(x.base, x.values[..k])
    ensures Val(x.base, x.values[..k]) == if x.Num() < 0 then Pow(x.base, k) + x.Num() else x.Num()
  {
    hide Pow, Val, IsLimbs;
    x.Facts();
    assert x.values[..][0..x.values.Length] == x.values[..] && x.values[..][0..k] == x.values[..k] == x.values[..][..k];
    LimbsSlice(x.base, x.values[..], 0, x.values.Length, 0, k);
    ValDivMod(x.base, x.values[..], k);
    PowAdd(x.base, k, x.values.Length - k);
    CutInt(x.Raw(), x.Num(), Pow(x.base, k), Pow(x.base, x.values.Length - k));
  }

  lemma CutInt(raw: nat, z: int, p: nat, q: nat)
    requires 0 < p && 0 < p * q && Abs(z) < p && Wrap(p * q, z) == raw < p * q && (0 <= z ==> raw == z) && (z < 0 ==> raw == p * q + z)
    ensures raw % p == if z < 0 then p + z else z
  {
    if z < 0 {
      MulDist(p, q, -1);
      DivModUnique(raw, p, q - 1, p + z);
    } else {
      ModSmall(z, p);
    }
  }

  /** The limbs that hold the bits of a number are among its limbs. */
  lemma InputChunks(v: UintWide, W: nat, t: nat, k: nat)
    requires v.Valid() && W == v.digits * v.values.Length && 0 < t <= W && k == Chunks(t, v.digits)
    ensures k <= v.values.Length && k == (t - 1) / v.digits + 1
  {
    ChunkCount(t, v.digits);
    ChunksBelow(t, W, v.digits, v.values.Length);
  }

  /** What was exported is the number. */
  lemma ExportedValue(v: UintWide, t: nat, k: nat, out: seq<nat>, c: nat)
    requires v.Valid() && 0 < t && 0 < c && k == Chunks(t, v.digits) <= v.values.Length && v.Raw() < Pow(2, t)
    requires k == (t - 1) / v.digits + 1 && Filled(out, c, 0, HighBits(Reversed(v.values[..k]), t, v.digits, 0))
    ensures 2 <= Pow(2, c) && IsLimbs(Pow(2, c), Reversed(out)) && Val(Pow(2, c), Reversed(out)) == v.Raw()
  {
    hide Pow, Val, IsLimbs, Chunks, Filled, HighBits, Reversed, LowPart, LowParts;
    var inp := Reversed(v.values[..k]);
    Delivered(inp, t, v.digits, out, c, k);
    ChunksHold(t, v.digits);
    Significants(v.base, v.values[..], k);
    assert v.values[..][..k] == v.values[..k];
    ReversedTwice(v.values[..k]);
    ReversedLimbs(v.base, v.values[..k]);
    assert inp[..k] == inp;
    LowPartsLimbs(inp, v.digits);
    ModSmall(v.Raw(), Pow(2, t));
  }

  function Smaller(x: nat, y: nat): nat { if x < y then x else y }

  /** Stores chunks from position 0 up. */
  method Store(buf: array<nat>, out: seq<nat>, n: nat)
    requires n == |out| <= buf.Length
    modifies buf
    ensures buf[..n] == out && buf[n..] == old(buf[n..])
  {
    for k := 0 to n
      invariant buf[..k] == out[..k] && buf[n..] == old(buf[n..])
    {
      ghost var above := buf[n..];
      buf[k] := out[k];
      assert buf[n..] == above;
    }
  }

  lemma ChunkCount(T: nat, c: nat)
    requires 0 < T && 0 < c
    ensures Chunks(T, c) == (T - 1) / c + 1
  {}

  lemma ReversedLimbs(B: Base, s: seq<nat>)
    requires IsLimbs(B, s)
    ensures IsLimbs(B, Reversed(s))
  {}

  /** Stores chunks from position n - 1 down, as through a reverse iterator. */
  method StoreReversed(buf: array<nat>, out: seq<nat>, n: nat)
    requires n == |out| <= buf.Length
    modifies buf
    ensures buf[..n] == Reversed(out) && buf[n..] == old(buf[n..])
  {
    for k := 0 to n
      invariant forall j :: 0 <= j < k ==> buf[n - 1 - j] == out[j]
      invariant buf[n..] == old(buf[n..])
    {
      ghost var above := buf[n..];
      buf[n - 1 - k] := out[k];
      assert buf[n..] == above;
    }
    forall j | 0 <= j < n ensures buf[..n][j] == Reversed(out)[j] {
      var k := n - 1 - j;
      assert buf[n - 1 - k] == out[k];
    }
  }

  /** One more than the position of the most significant bit; 1 for zero. */
  method MsbPlusOne(x: UintWide, W: nat) returns (t: nat)
    requires x.Valid() && W == x.digits * x.values.Length
    ensures 0 < t <= W && x.Raw() < Pow(2, t) && t == BitLength(x.Raw())
  {
    x.Facts();
    PowMul(2, x.digits, x.values.Length);
    MulLe(1, x.digits, x.values.Length);
    var zero := IsZero(x.base, x.values);
    if zero {
      PowPos(2, 1);
      t := 1;
    } else {
      var raw := x.Extract(x.values.Length);
      ModSmall(x.Raw(), x.Modulus());
      var pos := Roots.Msb(raw);
      if W <= pos { PowMono(2, W, pos); }
      t := pos + 1;
      BitLengthIs(raw, t);
    }
  }

  // ---------------------------------------------------------------- import

  /** The bits that an import uses: those of the chunks, at most those of the type. */
  function TotalBits(n: nat, c: nat, W: nat): nat
    requires 0 < c
  {
    MulLe(0, c, n);
    Smaller(c * n, W)
  }

  lemma ChunksUsed(n: nat, c: nat, W: nat)
    requires 0 < n && 0 < c && 0 < W
    ensures 0 < TotalBits(n, c, W) <= W && Chunks(TotalBits(n, c, W), c) <= n
  {
    MulPos(c, n);
    var T := TotalBits(n, c, W);
    assert c * n == n * c;
    DivLt(T - 1, c, n);
  }

  /** The number that chunks denote to an import into W bits: the most significant chunks count when there
      are more than the type takes. */
  function Imported(input: seq<nat>, c: nat, msvFirst: bool, W: nat): nat
    requires 0 < c && 0 < W
  {
    if input == [] then 0
    else
      ChunksUsed(|input|, c, W);
      var T := TotalBits(|input|, c, W);
      LowPartsLimbs(input, c);
      PowPos(2, T);
      LowPart(Val(Pow(2, c), LowParts(Ordered(input, msvFirst)[|input| - Chunks(T, c)..], c)), T)
  }

  /** Chunks that fit the type denote the number whose digits they are, and so do as many as cover it. */
  lemma ImportedAll(input: seq<nat>, c: nat, msvFirst: bool, W: nat)
    requires 0 < c && 0 < W && 0 < |input| && 2 <= Pow(2, c) && IsLimbs(Pow(2, c), Ordered(input, msvFirst))
    requires c * |input| <= W || |input| == Chunks(W, c)
    requires Val(Pow(2, c), Ordered(input, msvFirst)) < Pow(2, W)
    ensures Imported(input, c, msvFirst, W) == Val(Pow(2, c), Ordered(input, msvFirst))
  {
    hide Pow, Val, IsLimbs, LowPart, LowParts;
    var T, s := TotalBits(|input|, c, W), Ordered(input, msvFirst);
    ChunksUsed(|input|, c, W);
    AllChunksUsed(|input|, c, W);
    assert s[0..] == s;
    LowPartsLimbs(s, c);
    ValBound(Pow(2, c), s);
    PowMul(2, c, |input|);
    LowPartSmall(Val(Pow(2, c), s), T);
  }

  lemma LowPartSmall(x: nat, T: nat)
    requires x < Pow(2, T)
    ensures LowPart(x, T) == x
  {
    ModSmall(x, Pow(2, T));
  }

  lemma AllChunksUsed(n: nat, c: nat, W: nat)
    requires 0 < n && 0 < c && 0 < W && (c * n <= W || n == Chunks(W, c))
    ensures Chunks(TotalBits(n, c, W), c) == n && 0 < TotalBits(n, c, W)
    ensures TotalBits(n, c, W) == if c * n <= W then c * n else W
  {
    MulPos(c, n);
    if c * n <= W {
      ExactChunks(c, n);
      ChunkCount(c * n, c);
    }
  }

  /** Imports chunks of bits in either order. */
  method ImportBits(x: UintWide, input: seq<nat>, elementBits: nat, chunkSize: nat, msvFirst: bool)
    requires x.Valid() && 0 < elementBits && 2 <= Pow(2, elementBits) && IsLimbs(Pow(2, elementBits), input)
    modifies x.values
    ensures x.Valid() && 0 < x.digits * x.values.Length
    ensures var c := if chunkSize == 0 then elementBits else Smaller(elementBits, chunkSize);
      x.Raw() == Imported(input, c, msvFirst, x.digits * x.values.Length)
  {
    hide Pow, Val, IsLimbs, Chunks, Imported;
    MulPos(x.digits, x.values.Length);
    var c := if chunkSize == 0 then elementBits else Smaller(elementBits, chunkSize);
    if elementBits == x.digits && c == x.digits {
      PasteLimbs(x, input, msvFirst);
    } else {
      ImportChunks(x, input, c, msvFirst);
    }
  }

  /** Whole limbs: as many as the number has, from the most significant end. */
  method PasteLimbs(x: UintWide, input: seq<nat>, msvFirst: bool)
    requires x.Valid() && IsLimbs(x.base, input) && 0 < x.digits * x.values.Length
    modifies x.values
    ensures x.Valid() && x.Raw() == Imported(input, x.digits, msvFirst, x.digits * x.values.Length)
  {
    hide Pow, Val, IsLimbs, Chunks, Imported, Reversed;
    var N, n := x.values.Length, |input|;
    var copyLen := Smaller(N, n);
    PastedLimbs(x.base, input, msvFirst, copyLen);
    if msvFirst {
      StoreReversed(x.values, input[..copyLen], copyLen);
    } else {
      StoreReversed(x.values, Reversed(input)[..copyLen], copyLen);
    }
    ghost var low := x.values[..copyLen];
    Fill(x.values, copyLen, N, 0);
    assert x.values[..][..copyLen] == low;
    ZeroPadded(x.base, x.values[..], copyLen);
    PastedValue(x.base, input, x.digits, msvFirst, N, copyLen);
  }

  /** What was copied are the upper chunks. */
  lemma PastedLimbs(B: Base, input: seq<nat>, msvFirst: bool, k: nat)
    requires k <= |input| && IsLimbs(B, input)
    ensures Reversed(if msvFirst then input[..k] else Reversed(input)[..k]) == Ordered(input, msvFirst)[|input| - k..]
    ensures IsLimbs(B, Ordered(input, msvFirst)[|input| - k..])
  {
    hide *;
    if msvFirst {
      PastedFirst(B, input, k);
    } else {
      PastedLast(B, input, k);
    }
    OrderedIs(input, msvFirst);
  }

  lemma OrderedIs(s: seq<nat>, msvFirst: bool)
    ensures Ordered(s, msvFirst) == if msvFirst then Reversed(s) else s
  {
    hide Reversed;
  }

  lemma PastedFirst(B: Base, input: seq<nat>, k: nat)
    requires k <= |input| && IsLimbs(B, input)
    ensures Reversed(input[..k]) == Reversed(input)[|input| - k..] && IsLimbs(B, Reversed(input)[|input| - k..])
  {
    hide *;
    ReversedLimbs(B, input);
    UpperLimbs(B, Reversed(input), k);
    ReversedPrefix(input, k);
  }

  lemma PastedLast(B: Base, input: seq<nat>, k: nat)
    requires k <= |input| && IsLimbs(B, input)
    ensures Reversed(Reversed(input)[..k]) == input[|input| - k..] && IsLimbs(B, input[|input| - k..])
  {
    hide *;
    UpperLimbs(B, input, k);
    ReversedPrefix(Reversed(input), k);
    ReversedTwice(input);
  }

  lemma UpperLimbs(B: Base, s: seq<nat>, k: nat)
    requires k <= |s| && IsLimbs(B, s)
    ensures IsLimbs(B, s[|s| - k..])
  {}

  /** Reversing a prefix gives the end of the reversal. */
  lemma {:induction false} ReversedPrefix(s: seq<nat>, k: nat)
    requires k <= |s|
    ensures Reversed(s[..k]) == Reversed(s)[|s| - k..]
  {
    if k < |s| {
      assert s[..|s| - 1][..k] == s[..k];
      ReversedPrefix(s[..|s| - 1], k);
    } else {
      assert s[..k] == s;
    }
  }

  lemma PastedValue(B: Base, input: seq<nat>, c: nat, msvFirst: bool, N: nat, k: nat)
    requires 0 < c && 0 < N && 0 < c * N && B == Pow(2, c) && k == Smaller(N, |input|) && IsLimbs(B, Ordered(input, msvFirst)[|input| - k..])
    ensures Imported(input, c, msvFirst, c * N) == Val(B, Ordered(input, msvFirst)[|input| - k..])
  {
    hide Pow, Val, IsLimbs, LowPart, LowParts, Reversed, Chunks;
    var W := c * N;
    if input == [] {
      NoBits(c, W);
      ValEmpty(B);
    } else {
      if N <= |input| { MulLe(N, |input|, c); } else { MulLe(|input|, N, c); }
      MulPos(c, k);
      ChunksUsed(|input|, c, W);
      ExactChunks(c, k);
      ChunkCount(c * k, c);
      var u := Ordered(input, msvFirst)[|input| - k..];
      LowPartsLimbs(u, c);
      ValBound(B, u);
      PowMul(2, c, k);
      LowPartSmall(Val(B, u), c * k);
    }
  }

  /** Bit by bit. */
  method ImportChunks(x: UintWide, input: seq<nat>, c: nat, msvFirst: bool)
    requires x.Valid() && 0 < c && 0 < x.digits * x.values.Length
    modifies x.values
    ensures x.Valid() && x.Raw() == Imported(input, c, msvFirst, x.digits * x.values.Length)
  {
    hide Pow, Val, IsLimbs, Chunks, Filled, LowPart, LowParts, Imported, TotalBits, HighBits;
    var W := x.digits * x.values.Length;
    Fill(x.values, 0, x.values.Length, 0);
    AllZero(x.base, x.values[..]);
    var T := TotalBits(|input|, c, W);
    if |input| > 0 {
      ChunksUsed(|input|, c, W);
      ChunkCount(T, c);
    }
    NoBits(c, W);
    var inp := if msvFirst then input else Reversed(input);
    var out := ImportExportHelper(inp, T, c, x.digits);
    if |input| > 0 {
      ChunkCount(T, x.digits);
      InputChunks(x, W, T, Chunks(T, x.digits));
      ImportedValue(input, c, msvFirst, W, inp, out, x.digits, T);
    }
    StoreReversed(x.values, out, |out|);
    assert x.values[..][..|out|] == x.values[..|out|];
    assert forall k :: |out| <= k < x.values.Length ==> x.values[k] == x.values[|out|..][k - |out|];
    if |input| > 0 { ZeroPadded(x.base, x.values[..], |out|); }
  }

  lemma NoBits(c: nat, W: nat)
    requires 0 < c && 0 < W
    ensures TotalBits(0, c, W) == 0 && forall m: bool :: Imported([], c, m, W) == 0
  {}

  lemma ImportedValue(input: seq<nat>, c: nat, msvFirst: bool, W: nat, inp: seq<nat>, out: seq<nat>, digits: nat, T: nat)
    requires 0 < c && 0 < W && 0 < |input| && 0 < digits && T == TotalBits(|input|, c, W) && 0 < T && Chunks(T, c) <= |input|
    requires inp == (if msvFirst then input else Reversed(input)) && (T - 1) / c < |inp|
    requires Filled(out, digits, 0, HighBits(inp, T, c, 0))
    ensures 2 <= Pow(2, digits) && IsLimbs(Pow(2, digits), Reversed(out))
    ensures Val(Pow(2, digits), Reversed(out)) == Imported(input, c, msvFirst, W)
  {
    hide *;
    ChunkCount(T, c);
    Delivered(inp, T, c, out, digits, Chunks(T, c));
    FirstChunks(input, msvFirst, c, Chunks(T, c));
    ImportedIs(input, c, msvFirst, W, T, Chunks(T, c));
  }

  lemma ImportedIs(input: seq<nat>, c: nat, msvFirst: bool, W: nat, T: nat, k: nat)
    requires 0 < c && 0 < W && 0 < |input| && T == TotalBits(|input|, c, W) && 0 < T && k == Chunks(T, c) <= |input|
    ensures 2 <= Pow(2, c) && 0 < Pow(2, T)
    ensures Imported(input, c, msvFirst, W) == Val(Pow(2, c), LowParts(Ordered(input, msvFirst)[|input| - k..], c)) % Pow(2, T)
  {
    hide Pow, Val, IsLimbs, Chunks, TotalBits, LowParts, Reversed;
    LowPartsLimbs(input, c);
    PowPos(2, T);
  }

  /** The first chunks that are read are the most significant ones. */
  lemma FirstChunks(input: seq<nat>, msvFirst: bool, c: nat, k: nat)
    requires k <= |input|
    ensures var inp := if msvFirst then input else Reversed(input);
      Reversed(LowParts(inp[..k], c)) == LowParts(Ordered(input, msvFirst)[|input| - k..], c)
  {
    hide LowPart;
    var inp := if msvFirst then input else Reversed(input);
    var s := Ordered(input, msvFirst);
    forall i | 0 <= i < k ensures Reversed(LowParts(inp[..k], c))[i] == LowParts(s[|input| - k..], c)[i] {
      assert inp[..k][k - 1 - i] == s[|input| - k..][i];
    }
  }

  lemma ExactChunks(c: nat, N: nat)
    requires 0 < c && 0 < N
    ensures 0 < c * N && (c * N - 1) / c + 1 == N
  {
    MulPos(c, N);
    MulDist(c, N, -1);
    assert c * (N - 1) == (N - 1) * c;
    DivModUnique(c * N - 1, c, N - 1, c - 1);
  }

  /** Exported chunks are elements: below 2^c, and so below 2^elementBits. */
  lemma ElementLimbs(s: seq<nat>, c: nat, elementBits: nat, msvFirst: bool)
    requires 0 < c <= elementBits && 2 <= Pow(2, c) && IsLimbs(Pow(2, c), Ordered(s, msvFirst))
    ensures 2 <= Pow(2, elementBits) && IsLimbs(Pow(2, elementBits), s) && IsLimbs(Pow(2, c), s)
  {
    PowMono(2, c, elementBits);
    forall i | 0 <= i < |s| ensures s[i] < Pow(2, c) {
      assert s[i] == Ordered(s, msvFirst)[if msvFirst then |s| - 1 - i else i];
    }
  }

  /** The exported number fits the type. */
  lemma ExportedFits(x: UintWide, whole: bool, c: nat)
    requires x.Valid() && 0 < c && (whole ==> c == x.digits) && BitLength(Abs(x.Num())) <= x.digits * x.values.Length
    ensures 0 <= Exported(x.Num(), whole, c) < Pow(2, x.digits * x.values.Length)
  {
    hide Pow, Chunks, BitLength;
    var W, t := x.digits * x.values.Length, BitLength(Abs(x.Num()));
    MagnitudeBound(x, W);
    if x.Num() < 0 && whole {
      BitLengthBound(Abs(x.Num()));
      ChunksHold(t, c);
      ChunksBelow(t, W, c, x.values.Length);
      PowMul(2, c, Chunks(t, c));
      PowMul(2, c, x.values.Length);
      PowMono(Pow(2, c), Chunks(t, c), x.values.Length);
    }
  }

  lemma {:induction false} BitLengthBound(x: nat)
    ensures x < Pow(2, BitLength(x))
  {
    if x < 2 {
      PowSucc(2, 0);
    } else {
      BitLengthBound(x / 2);
      PowSucc(2, BitLength(x / 2));
    }
  }

  /** Importing what was exported, for every chunk size, element width and order: the magnitude, exactly where
      the export keeps it. */
  method ExportThenImport(x: UintWide, elementBits: nat, chunkSize: nat, msvFirst: bool) returns (y: UintWide)
    requires x.Valid() && 0 < elementBits && 0 < chunkSize
    ensures fresh(y) && y.Valid() && x.SameWidth(y)
    ensures var c, whole := Smaller(elementBits, chunkSize), WholeLimbs(x.digits, elementBits, chunkSize);
      y.Raw() == Exported(x.Num(), whole, c) && (y.Raw() == Abs(x.Num()) <==> KeepsMagnitude(x.Num(), whole, c))
  {
    hide Pow, Val, IsLimbs, Chunks, Imported, Exported, KeepsMagnitude, Ordered, BitLength;
    MulPos(x.digits, x.values.Length);
    var W, c := x.digits * x.values.Length, Smaller(elementBits, chunkSize);
    ghost var whole := WholeLimbs(x.digits, elementBits, chunkSize);
    var buf := new nat[Chunks(W, c)](i => 0);
    var n := ExportBits(x, buf, elementBits, chunkSize, msvFirst);
    ExportedExactly(x.Num(), whole, c);
    ExportedFits(x, whole, c);
    ChunksFitOrCover(n, BitLength(Abs(x.Num())), c, W);
    y := new UintWide(x.digits, x.values.Length, false);
    ElementLimbs(buf[..n], c, elementBits, msvFirst);
    ImportBits(y, buf[..n], elementBits, chunkSize, msvFirst);
    ImportedAll(buf[..n], c, msvFirst, W);
  }

  lemma MagnitudeBound(x: UintWide, W: nat)
    requires x.Valid() && W == x.digits * x.values.Length
    ensures Abs(x.Num()) < Pow(2, W)
  {
    x.Facts();
    PowMul(2, x.digits, x.values.Length);
  }

  lemma ChunksFitOrCover(n: nat, t: nat, c: nat, W: nat)
    requires 0 < c && 0 < t <= W && n == Chunks(t, c)
    ensures 0 < n && (c * n <= W || n == Chunks(W, c))
  {
    DivModSplit(t - 1, c);
    ChunksMono(t, W, c);
    if W < c * n {
      assert c * n == n * c;
      DivLt(W - 1, c, n);
    }
  }

  /** Least significant chunk first, into a zeroed buffer of exactly the chunks that the type takes: the whole
      buffer holds the digits of the exported number, and importing all of it gives that number. */
  method ExportThenImportBuffer(x: UintWide, elementBits: nat, chunkSize: nat) returns (y: UintWide, buf: array<nat>)
    requires x.Valid() && 0 < elementBits && 0 < chunkSize
    ensures fresh(y) && y.Valid() && x.SameWidth(y)
    ensures var c, whole := Smaller(elementBits, chunkSize), WholeLimbs(x.digits, elementBits, chunkSize);
      && fresh(buf) && 2 <= Pow(2, c) && IsLimbs(Pow(2, c), buf[..]) && buf.Length == Chunks(x.digits * x.values.Length, c)
      && Val(Pow(2, c), buf[..]) == y.Raw() == Exported(x.Num(), whole, c)
      && (y.Raw() == Abs(x.Num()) <==> KeepsMagnitude(x.Num(), whole, c))
  {
    hide Pow, Val, IsLimbs, Chunks, Imported, Exported, KeepsMagnitude, BitLength;
    MulPos(x.digits, x.values.Length);
    var W, c := x.digits * x.values.Length, Smaller(elementBits, chunkSize);
    ghost var whole := WholeLimbs(x.digits, elementBits, chunkSize);
    ChunkCount(W, c);
    buf := new nat[Chunks(W, c)](i => 0);
    ghost var was := buf[..];
    ghost var n := ExportBits(x, buf, elementBits, chunkSize, false);
    ExportedExactly(x.Num(), whole, c);
    ExportedFits(x, whole, c);
    assert forall k :: n <= k < buf.Length ==> buf[k] == buf[n..][k - n] == was[k];
    assert buf[..][..n] == buf[..n];
    ZeroPadded(Pow(2, c), buf[..], n);
    y := new UintWide(x.digits, x.values.Length, false);
    ElementLimbs(buf[..], c, elementBits, false);
    ImportBits(y, buf[..], elementBits, chunkSize, false);
    ImportedAll(buf[..], c, false, W);
  }
}
