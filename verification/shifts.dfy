/** Shifts of limb arrays by whole limbs and by bits, in place. */
module Shifts {
  import opened Limbs
  import opened Kernels
  import opened Bits
  import opened TwosComplement
  import opened Division
  import opened LongDivision

  /** Limbs of `digits` binary digits, split at bit s: P = 2^s, Q = 2^(digits - s). */
  predicate Split(B: Base, digits: nat, s: nat) {
    0 < s < digits && B == Pow(2, digits)
  }

  lemma SplitBase(B: Base, digits: nat, s: nat) returns (P: nat, Q: nat)
    requires Split(B, digits, s)
    ensures P == Pow(2, s) && Q == Pow(2, digits - s) && 2 <= P && 2 <= Q && B == Mul(P, Q)
  {
    P, Q := Pow(2, s), Pow(2, digits - s);
    PowAdd(2, s, digits - s);
    PowMono(2, 1, s);
    PowMono(2, 1, digits - s);
  }

  /** One column of a left shift: the shifted limb joined with the bits from below, and the bits that
      move up. */
  lemma LeftColumn(B: Base, digits: nat, s: nat, P: nat, Q: nat, t: nat, c: nat)
    requires Split(B, digits, s) && P == Pow(2, s) && Q == Pow(2, digits - s) && 0 < P && 0 < Q && B == Mul(P, Q)
    requires t < B && c < P
    ensures BitOr((t * P) % B, c) + (t / Q) * B == t * P + c
    ensures 0 <= t / Q < P && BitOr((t * P) % B, c) < B
  {
    LeftDivision(B, P, Q, t);
    OrDisjoint(t % Q, c, s);
    JoinedBelow(t % Q, Q, P, c);
  }

  lemma LeftDivision(B: Base, P: nat, Q: nat, t: nat)
    requires 0 < P && 0 < Q && B == Mul(P, Q) && t < B
    ensures 0 <= t / Q < P && (t * P) % B == (t % Q) * P && 0 <= t % Q < Q
    ensures t * P == (t / Q) * B + (t % Q) * P
  {
    DivModSplit(t, Q);
    DivLt(t, Q, P);
    var h, l := t / Q, t % Q;
    LeftInt(P, Q, h, l, t);
    MulLe(l + 1, Q, P);
    MulDist(P, l, 1);
    MulLe(0, l, P);
    DivModUnique(t * P, B, h, l * P);
  }

  lemma JoinedBelow(l: nat, Q: nat, P: nat, c: nat)
    requires l < Q && c < P
    ensures l * P + c < Mul(P, Q)
  {
    MulLe(l + 1, Q, P);
    MulDist(P, l, 1);
  }

  lemma LeftInt(P: int, Q: int, h: int, l: int, t: int)
    requires t == h * Q + l
    ensures t * P == h * (P * Q) + l * P
  {
    MulDist(P, h * Q, l);
    MulAssoc(h, Q, P);
  }

  /** values[o..] := values[o..] * 2^s, dropping what moves out at the top. */
  method ShiftBitsLeft(B: Base, digits: nat, values: array<nat>, o: nat, s: nat) returns (ghost out: nat)
    requires Split(B, digits, s) && o <= values.Length && IsLimbs(B, values[o..])
    modifies values
    ensures IsLimbs(B, values[o..]) && values[..o] == old(values[..o])
    ensures Val(B, values[o..]) + out * Pow(B, values.Length - o) == old(Val(B, values[o..])) * Pow(2, s)
  {
    hide Pow, Val, BitOr;
    ghost var P, Q := SplitBase(B, digits, s);
    ghost var was, x := values[..], values[o..];
    assert x[..0] == [] == values[o..o];
    ValEmpty(B);
    var part: nat := 0;
    var i: nat := o;
    while i < values.Length
      invariant o <= i <= values.Length && part < P && IsLimbs(B, values[o..i]) && SameOutside(values[..], was, o, i)
      invariant Val(B, values[o..i]) + part * Pow(B, i - o) == Val(B, x[..i - o]) * P
    {
      ghost var done := values[o..i];
      var t := values[i];
      assert t == was[i] == x[i - o];
      LeftColumn(B, digits, s, P, Q, t, part);
      ChainStep(B, done, part, Val(B, x[..i - o]) * P, t * P, BitOr((t * P) % B, part), t / Q);
      ScaledPrefix(B, x, i - o, P);
      values[i] := BitOr((t * Pow(2, s)) % B, part);
      assert values[o..i + 1] == done + [values[i]];
      assert i - o + 1 == i + 1 - o;
      part := t / Pow(2, digits - s);
      i := i + 1;
    }
    out := part;
    assert x[..|x|] == x && values[o..values.Length] == values[o..];
    SliceSame(values[..], was, o, values.Length, 0, o);
    assert values[..][0..o] == values[..o] && was[0..o] == was[..o];
  }

  /** Moves the limbs up by `o` places and clears the low ones. */
  method ShiftLimbsLeft(values: array<nat>, o: nat)
    requires o <= values.Length
    modifies values
    ensures values[..o] == seq(o, _ => 0) && values[o..] == old(values[..values.Length - o])
  {
    ghost var was := values[..];
    var n := values.Length;
    var i := n - o;
    while i > 0
      invariant 0 <= i <= n - o
      invariant forall k :: 0 <= k < i + o ==> values[k] == was[k]
      invariant forall k :: i + o <= k < n ==> values[k] == was[k - o]
    {
      i := i - 1;
      values[i + o] := values[i];
    }
    assert values[o..] == was[..n - o];
    ghost var done := values[o..];
    Fill(values, 0, o, 0);
    assert values[o..] == done;
  }

  /** values := values * 2^n modulo B^N. */
  method Shl(B: Base, digits: nat, values: array<nat>, n: nat)
    requires 0 < digits && B == Pow(2, digits) && IsLimbs(B, values[..])
    modifies values
    ensures IsLimbs(B, values[..])
    ensures Pow(B, values.Length) > 0 && Val(B, values[..]) == Wrap(Pow(B, values.Length), old(Val(B, values[..])) * Pow(2, n))
  {
    hide Pow, Val, Split;
    ghost var was, N := values[..], values.Length;
    var offset := if n / digits <= values.Length then n / digits else values.Length;
    var leftShiftAmount := n % digits;
    ghost var x := was[..N - offset];
    if offset > 0 {
      ShiftLimbsLeft(values, offset);
    }
    assert values[offset..] == x;
    ghost var out: nat := 0;
    IsSplit(B, digits, leftShiftAmount);
    if leftShiftAmount != 0 {
      out := ShiftBitsLeft(B, digits, values, offset, leftShiftAmount);
    }
    ShlDone(B, digits, was, values[..], n, offset, leftShiftAmount, out);
  }

  lemma IsSplit(B: Base, digits: nat, s: nat)
    requires B == Pow(2, digits) && s < digits
    ensures s != 0 ==> Split(B, digits, s)
    ensures Pow(2, 0) == 1
  {}

  lemma ShlDone(B: Base, digits: nat, was: seq<nat>, now: seq<nat>, n: nat, o: nat, s: nat, out: nat)
    requires |now| == |was| && IsLimbs(B, was) && 0 < digits && B == Pow(2, digits) && s == n % digits
    requires o == if n / digits <= |was| then n / digits else |was|
    requires now[..o] == seq(o, _ => 0) && IsLimbs(B, now[o..])
    requires Val(B, now[o..]) + out * Pow(B, |now| - o) == Val(B, was[..|was| - o]) * Pow(2, s)
    ensures IsLimbs(B, now) && Pow(B, |was|) > 0 && Val(B, now) == Wrap(Pow(B, |was|), Val(B, was) * Pow(2, n))
  {
    hide Pow, Val;
    var N := |was|;
    forall i | 0 <= i < N ensures now[i] < B { if i < o { assert now[i] == now[..o][i]; } else { assert now[i] == now[o..][i - o]; } }
    ValBound(B, now);
    PowPos(B, N);
    ValSplit(B, now, o);
    ValZeros(B, now[..o]);
    ValSplit(B, was, N - o);
    PowAdd(B, o, N - o);
    assert o + (N - o) == N;
    PowMul(2, digits, n / digits);
    PowAdd(2, digits * (n / digits), s);
    DivModSplit(n, digits);
    assert digits * (n / digits) + s == n;
    if o == n / digits {
      ShlInt(Pow(B, o), Pow(B, N - o), Val(B, now[o..]), Val(B, was[..N - o]), Val(B, was[N - o..]), Pow(2, s), out);
      ModWrap(Val(B, now), Val(B, was) * Pow(2, n), out + Val(B, was[N - o..]) * Pow(2, s), Pow(B, N));
    } else {
      PowAdd(B, N, n / digits - N);
      assert N + (n / digits - N) == n / digits;
      assert now[o..] == [];
      ValEmpty(B);
      AllOut(Val(B, was), Pow(B, N), Pow(B, n / digits - N), Pow(2, s));
      ModWrap(0, Val(B, was) * Pow(2, n), Val(B, was) * (Pow(B, n / digits - N) * Pow(2, s)), Pow(B, N));
    }
  }

  lemma ShlInt(p: nat, q: nat, y: nat, lo: nat, hi: nat, t: nat, out: nat)
    requires y + out * q == lo * t
    ensures (lo + q * hi) * (p * t) == p * y + (out + hi * t) * (p * q)
  {
    assert (lo + q * hi) * (p * t) == p * (lo * t) + (hi * t) * (p * q);
    assert p * (y + out * q) == p * y + out * (p * q);
    MulDist(p * q, out, hi * t);
  }

  lemma AllOut(x: nat, M: nat, k: nat, t: nat)
    ensures x * (M * k * t) == (x * (k * t)) * M
  {}

  // ---------------------------------------------------------- right shifts

  /** One column of a right shift is a column of a division by P = 2^s: the remainder r of the limbs above
      gives the bits that move down into the limb. */
  lemma RightColumn(B: Base, digits: nat, s: nat, P: nat, Q: nat, t: nat, r: nat)
    requires Split(B, digits, s) && P == Pow(2, s) && Q == Pow(2, digits - s) && 0 < P && 0 < Q && B == Mul(P, Q)
    requires t < B && r < P
    ensures 0 <= t / P && 0 <= Mul(r, Q) && BitOr(t / P, Mul(r, Q)) < B
    ensures t + Mul(B, r) == BitOr(t / P, Mul(r, Q)) * P + t % P
    ensures (t * Q) % B == Mul(t % P, Q) && 0 <= t % P < P
  {
    DivModSplit(t, P);
    DivLt(t, P, Q);
    OrDisjoint(r, t / P, digits - s);
    RightInt(P, Q, t / P, t % P, t, r);
    LeftInt(Q, P, t / P, t % P, t);
    MulLe(t % P + 1, P, Q);
    MulDist(Q, t % P, 1);
    MulLe(0, t % P, Q);
    DivModUnique(t * Q, B, t / P, (t % P) * Q);
  }

  lemma RightInt(P: nat, Q: nat, h: nat, l: nat, t: nat, r: nat)
    requires t == h * P + l && h < Q && r < P
    ensures t + r * (P * Q) == (r * Q + h) * P + l && 0 <= r * Q && r * Q + h < P * Q
  {
    MulDist(P, r * Q, h);
    MulAssoc(r, Q, P);
    MulAssoc(r, P, Q);
    MulLe(r + 1, P, Q);
    MulDist(Q, r, 1);
    MulLe(0, r, Q);
  }

  /** The shift so far: x is the number with the bits r0 above it, `now` its shifted limbs, of which the
      array holds all but the top one. */
  ghost predicate RightState(B: Base, was: seq<nat>, values: seq<nat>, x: seq<nat>, now: seq<nat>, i: nat, L: nat, P: nat, rest: nat) {
    && i <= L <= |values| && |now| == |x| == L + 1 && now[L] == 0 && now[..L] == values[..L] && rest < P
    && SameOutside(values, was, i, L) && ShortDone(B, x, now, i, L + 1, P, rest)
  }

  lemma RightStep(B: Base, was: seq<nat>, values: seq<nat>, x: seq<nat>, now: seq<nat>, i: nat, L: nat, P: nat, rest: nat, q: nat, rest': nat)
    requires i < L && RightState(B, was, values, x, now, i + 1, L, P, rest) && IsLimbs(B, x) && q < B && rest' < P
    requires x[i] + Mul(B, rest) == q * P + rest'
    ensures RightState(B, was, values[i := q], x, now[i := q], i, L, P, rest')
  {
    hide ShortDone, IsLimbs, Mul, SameOutside;
    ShortStepDone(B, x, now, i, L + 1, P, rest, q, rest');
    OutsideUpdate(values, was, i, L, q);
  }

  /** values[..L] := (values[..L] + r0 * B^L) / 2^s, where the bits r0 move in at the top. */
  method ShiftBitsRight(B: Base, digits: nat, values: array<nat>, L: nat, s: nat, part0: nat, ghost r0: nat) returns (ghost rest: nat)
    requires Split(B, digits, s) && L <= values.Length && IsLimbs(B, values[..])
    requires r0 < Pow(2, s) && part0 == Mul(r0, Pow(2, digits - s))
    modifies values
    ensures SameOutside(values[..], old(values[..]), 0, L) && IsLimbs(B, values[..L]) && rest < Pow(2, s)
    ensures Val(B, old(values[..L])) + Mul(r0, Pow(B, L)) == Mul(Val(B, values[..L]), Pow(2, s)) + rest
  {
    hide Pow, Val, BitOr, IsLimbs, RightState, Mul;
    ghost var P, Q := SplitBase(B, digits, s);
    ghost var was, x := values[..], values[..L] + [r0];
    ghost var now: seq<nat> := was[..L] + [0];
    RightStart(B, was, L, P, Q, r0);
    rest := r0;
    var part: nat := part0;
    var i: nat := L;
    while i > 0
      invariant 0 <= i <= L && rest < P && part == Mul(rest, Q) && RightState(B, was, values[..], x, now, i, L, P, rest)
    {
      i := i - 1;
      ghost var s0 := values[..];
      UntouchedLimb(B, was, s0, x, now, i, L, P, rest);
      var t := values[i];
      RightColumn(B, digits, s, P, Q, t, rest);
      ghost var q := BitOr(t / P, Mul(rest, Q));
      RightStep(B, was, s0, x, now, i, L, P, rest, q, t % P);
      values[i] := BitOr(t / Pow(2, s), part);
      part := (t * Pow(2, digits - s)) % B;
      rest := t % P;
      now := now[i := q];
      assert values[..] == s0[i := q];
    }
    RightEnd(B, was, values[..], x, now, L, P, r0, rest);
  }

  lemma UntouchedLimb(B: Base, was: seq<nat>, values: seq<nat>, x: seq<nat>, now: seq<nat>, i: nat, L: nat, P: nat, rest: nat)
    requires i < L && RightState(B, was, values, x, now, i + 1, L, P, rest) && IsLimbs(B, x)
    requires L <= |was| && x[..L] == was[..L]
    ensures values[i] == was[i] == x[i] < B && |now| == L + 1
  {
    assert x[i] == x[..L][i] == was[..L][i];
  }

  lemma RightStart(B: Base, was: seq<nat>, L: nat, P: nat, Q: nat, r0: nat)
    requires L <= |was| && r0 < P && 1 < Q && B == Mul(P, Q) && IsLimbs(B, was)
    ensures var x, now: seq<nat> := was[..L] + [r0], was[..L] + [0];
            IsLimbs(B, x) && x[..L] == was[..L] && RightState(B, was, was, x, now, L, L, P, r0)
  {
    var x, now: seq<nat> := was[..L] + [r0], was[..L] + [0];
    assert x[L..L + 1] == [r0] && now[L..L + 1] == [0];
    ValOne(B, r0);
    ValOne(B, 0);
    MulLe(1, Q, P);
  }

  lemma RightEnd(B: Base, was: seq<nat>, values: seq<nat>, x: seq<nat>, now: seq<nat>, L: nat, P: nat, r0: nat, rest: nat)
    requires L <= |was| && x == was[..L] + [r0] && RightState(B, was, values, x, now, 0, L, P, rest)
    ensures SameOutside(values, was, 0, L)
    ensures IsLimbs(B, values[..L]) && Val(B, was[..L]) + Mul(r0, Pow(B, L)) == Mul(Val(B, values[..L]), P) + rest
  {
    assert x[0..L + 1] == x && now[0..L + 1] == now && now == now[..L] + [0];
    ValSnoc(B, was[..L], r0);
    ValSnoc(B, now[..L], 0);
    assert forall i :: 0 <= i < L ==> now[i] == values[..L][i];
  }

  /** Moves the limbs down by `o` places. */
  method ShiftLimbsRight(values: array<nat>, o: nat)
    requires o <= values.Length
    modifies values
    ensures values[..values.Length - o] == old(values[o..])
    ensures SameOutside(values[..], old(values[..]), 0, values.Length - o)
  {
    Copy(values, 0, values, o, values.Length - o);
    assert values[0..0 + (values.Length - o)] == values[..values.Length - o];
    assert old(values[o..o + (values.Length - o)]) == old(values[o..]);
  }

  /** The limb that a right shift moves in. */
  function RightShiftFillValue(B: Base, top: nat, signed: bool): nat {
    if signed && B / 2 <= top then B - 1 else 0
  }

  /** The bits that a right shift moves into its highest partial limb: those of the fill value. */
  method FirstPart(B: Base, digits: nat, s: nat, isNeg: bool) returns (part: nat, ghost r0: nat)
    requires Split(B, digits, s)
    ensures r0 < Pow(2, s) && part == Mul(r0, Pow(2, digits - s)) && r0 == if isNeg then Pow(2, s) - 1 else 0
  {
    ghost var P, Q := SplitBase(B, digits, s);
    AllOnesShifted(B, P, Q);
    part := if isNeg then ((B - 1) * Pow(2, digits - s)) % B else 0;
    r0 := if isNeg then P - 1 else 0;
  }

  lemma AllOnesShifted(B: Base, P: nat, Q: nat)
    requires 0 < P && 0 < Q && B == Mul(P, Q)
    ensures ((B - 1) * Q) % B == Mul(P - 1, Q)
  {
    assert (B - 1) * Q == (Q - 1) * B + (P - 1) * Q;
    MulLe(0, P - 1, Q);
    MulDist(Q, P, -1);
    DivModUnique((B - 1) * Q, B, Q - 1, (P - 1) * Q);
  }

  /** The limbs after the move: those of `was` from o on, then copies of the fill value. */
  predicate Moved(B: Base, was: seq<nat>, now: seq<nat>, o: nat, neg: bool) {
    && |now| == |was| && o <= |was| && now[..|was| - o] == was[o..]
    && forall k :: |was| - o <= k < |was| ==> now[k] == if neg then B - 1 else 0
  }

  /** The sign that is read after the move is the sign that was read before it. */
  lemma SignKept(B: Base, was: seq<nat>, now: seq<nat>, o: nat, neg: bool, signed: bool)
    requires B % 2 == 0 && 0 < |was| && Moved(B, was, now, o, neg) && (neg <==> signed && B / 2 <= was[|was| - 1])
    ensures neg <==> signed && B / 2 <= now[|now| - 1]
  {
    if o == 0 { assert now[..|was|][|was| - 1] == was[0..][|was| - 1]; }
  }

  lemma MovedBy(B: Base, was: seq<nat>, mid: seq<nat>, now: seq<nat>, o: nat, neg: bool)
    requires o <= |was| == |mid| && mid[..|was| - o] == was[o..] && SameOutside(now, mid, |was| - o, |was|)
    requires forall k :: |was| - o <= k < |was| ==> now[k] == if neg then B - 1 else 0
    ensures Moved(B, was, now, o, neg)
  {
    assert now[..|was| - o] == mid[..|was| - o];
  }

  lemma MovedLimbs(B: Base, was: seq<nat>, now: seq<nat>, o: nat, neg: bool)
    requires Moved(B, was, now, o, neg) && IsLimbs(B, was)
    ensures IsLimbs(B, now)
  {
    forall k | 0 <= k < |now| ensures now[k] < B {
      if k < |was| - o { assert now[k] == now[..|was| - o][k] == was[o + k]; }
    }
  }

  /** values := floor(values / 2^n), of the two's-complement number when the type is signed.  The sign is
      read again after the limbs have moved: the fill value keeps it. */
  method Shr(B: Base, digits: nat, values: array<nat>, n: nat, signed: bool)
    requires 0 < digits && B == Pow(2, digits) && IsLimbs(B, values[..]) && 0 < values.Length
    modifies values
    ensures IsLimbs(B, values[..]) && Pow(2, n) > 0
    ensures var M := Pow(B, values.Length);
            Number(M, Val(B, values[..]), signed) == Number(M, old(Val(B, values[..])), signed) / Pow(2, n)
  {
    PowSucc(2, digits - 1);
    hide Pow, Val, IsLimbs, SameOutside, Split, Moved, Number, Mul;
    ghost var was, N := values[..], values.Length;
    var offset := if n / digits <= values.Length then n / digits else values.Length;
    var rightShiftAmount := n % digits;
    ghost var neg := signed && B / 2 <= values[N - 1];
    MoveAndFill(B, values, offset, signed, neg);
    ghost var mid := values[..];
    SignKept(B, was, mid, offset, neg, signed);
    MovedLimbs(B, was, mid, offset, neg);
    ghost var rest: nat := 0;
    IsSplit(B, digits, rightShiftAmount);
    if rightShiftAmount != 0 {
      var isNeg := signed && B / 2 <= values[values.Length - 1];
      var part, r0 := FirstPart(B, digits, rightShiftAmount, isNeg);
      rest := ShiftBitsRight(B, digits, values, values.Length - offset, rightShiftAmount, part, r0);
    } else {
      SameAll(mid, 0, values.Length - offset);
      MulDef(0, Pow(B, N - offset));
      MulDef(Val(B, mid[..N - offset]), 1);
      LimbsSlice(B, mid, 0, N, 0, N - offset);
    }
    ShrDone(B, digits, was, mid, values[..], n, offset, rightShiftAmount, signed, neg, rest);
  }

  lemma SameAll(s: seq<nat>, lo: nat, hi: nat)
    ensures SameOutside(s, s, lo, hi) && s[0..|s|] == s
  {}

  method MoveAndFill(B: Base, values: array<nat>, offset: nat, signed: bool, ghost neg: bool)
    requires 0 < values.Length && offset <= values.Length && (neg <==> signed && B / 2 <= values[values.Length - 1])
    modifies values
    ensures Moved(B, old(values[..]), values[..], offset, neg)
  {
    ghost var was, N := values[..], values.Length;
    if offset > 0 {
      ShiftLimbsRight(values, offset);
      ghost var mid := values[..];
      assert values[..N - offset] == mid[..N - offset];
      OutsideAt(mid, was, 0, N - offset, N - 1);
      var fill := RightShiftFillValue(B, values[values.Length - 1], signed);
      Fill(values, values.Length - offset, values.Length, fill);
      MovedBy(B, was, mid, values[..], offset, neg);
    } else {
      assert values[..N] == was[0..];
    }
  }

  lemma ShrDone(B: Base, digits: nat, was: seq<nat>, mid: seq<nat>, now: seq<nat>, n: nat, o: nat, s: nat, signed: bool, neg: bool, rest: nat)
    requires IsLimbs(B, was) && 0 < |was| == |mid| == |now| && 0 < digits && B % 2 == 0 && B == Pow(2, digits) && s == n % digits
    requires o == if n / digits <= |was| then n / digits else |was|
    requires neg <==> signed && B / 2 <= was[|was| - 1]
    requires Moved(B, was, mid, o, neg) && SameOutside(now, mid, 0, |was| - o) && IsLimbs(B, now[..|was| - o]) && rest < Pow(2, s)
    requires Val(B, mid[..|was| - o]) + Mul(if neg then Pow(2, s) - 1 else 0, Pow(B, |was| - o)) == Mul(Val(B, now[..|was| - o]), Pow(2, s)) + rest
    ensures IsLimbs(B, now) && Pow(2, n) > 0
    ensures var M := Pow(B, |was|); Number(M, Val(B, now), signed) == Number(M, Val(B, was), signed) / Pow(2, n)
  {
    hide Pow, Val, IsLimbs, SameOutside, Number, Mul, Moved;
    var N, L := |was|, |was| - o;
    var y := Val(B, now[..L]);
    ShiftedParts(B, was, mid, now, o, neg, L);
    SignBit(B, was);
    ShrQuotient(B, digits, was, mid[..L], y, n, o, s, neg, rest);
    ShrNumber(Pow(B, N), Pow(B, L), Val(B, was), y, Val(B, now), Pow(2, n), signed, neg);
  }

  lemma ShiftedParts(B: Base, was: seq<nat>, mid: seq<nat>, now: seq<nat>, o: nat, neg: bool, L: nat)
    requires L + o == |was| == |mid| == |now| && Moved(B, was, mid, o, neg) && SameOutside(now, mid, 0, L) && IsLimbs(B, now[..L])
    ensures mid[..L] == was[o..] && (L == 0 ==> Val(B, now[..L]) == 0)
    ensures IsLimbs(B, now) && Val(B, now) == Val(B, now[..L]) + if neg then Pow(B, |was|) - Pow(B, L) else 0
  {
    FillValue(B, mid, now, o, neg, L);
    if L == 0 { ValEmpty(B); assert now[..L] == []; }
  }

  lemma ShrQuotient(B: Base, digits: nat, was: seq<nat>, m: seq<nat>, y: nat, n: nat, o: nat, s: nat, neg: bool, rest: nat)
    requires IsLimbs(B, was) && 0 < digits && B == Pow(2, digits) && s == n % digits && o <= |was| && m == was[o..]
    requires o == if n / digits <= |was| then n / digits else |was|
    requires rest < Pow(2, s) && (|m| == 0 ==> y == 0)
    requires Val(B, m) + Mul(if neg then Pow(2, s) - 1 else 0, Pow(B, |was| - o)) == Mul(y, Pow(2, s)) + rest
    ensures Pow(2, n) > 0
    ensures (if neg then Val(B, was) - Pow(B, |was|) else Val(B, was)) / Pow(2, n) == if neg then y - Pow(B, |was| - o) else y
  {
    hide Pow, Val, IsLimbs, Mul;
    var N, L := |was|, |was| - o;
    PowPos(2, n);
    PowPos(2, s);
    PowProduct(B, o, L, N);
    ShiftFactor(B, digits, n, s);
    LimbsPrefix(B, was, o);
    ValBound(B, was[..o]);
    ValBound(B, was);
    if o == n / digits {
      ValSplit(B, was, o);
      ShrInt(Pow(B, o), Pow(B, L), Val(B, was[..o]), Val(B, was[o..]), y, Pow(2, s), rest, neg, Val(B, was), Pow(B, N), Pow(2, n));
    } else {
      PowProduct(B, N, n / digits - N, n / digits);
      PowPos(B, n / digits - N);
      ValEmpty(B);
      AllShiftedOut(Pow(B, N), Pow(B, n / digits - N), Pow(2, s), Pow(2, n), Val(B, was), neg);
    }
  }

  lemma PowProduct(b: nat, e: nat, f: nat, g: nat)
    requires e + f == g
    ensures Pow(b, g) == Mul(Pow(b, e), Pow(b, f))
  {
    PowAdd(b, e, f);
  }

  /** A shift count is a number of limbs and a number of bits. */
  lemma ShiftFactor(B: Base, digits: nat, n: nat, s: nat)
    requires 0 < digits && B == Pow(2, digits) && s == n % digits
    ensures Pow(2, n) == Mul(Pow(B, n / digits), Pow(2, s))
  {
    DivModSplit(n, digits);
    PowerOfSplit(B, digits, n / digits, s, n);
  }

  lemma PowerOfSplit(B: Base, digits: nat, e: nat, s: nat, n: nat)
    requires B == Pow(2, digits) && n == e * digits + s
    ensures Pow(2, n) == Mul(Pow(B, e), Pow(2, s))
  {
    hide Pow;
    PowMul(2, digits, e);
    assert digits * e == e * digits;
    PowAdd(2, e * digits, s);
  }

  lemma LimbsPrefix(B: Base, s: seq<nat>, i: nat)
    requires i <= |s| && IsLimbs(B, s)
    ensures IsLimbs(B, s[..i])
  {}

  /** The value after a shift: the limbs below, and the fill limbs above. */
  lemma FillValue(B: Base, mid: seq<nat>, now: seq<nat>, o: nat, neg: bool, L: nat)
    requires L + o == |mid| && (forall k :: L <= k < |mid| ==> mid[k] == if neg then B - 1 else 0)
    requires SameOutside(now, mid, 0, L) && IsLimbs(B, now[..L])
    ensures IsLimbs(B, now) && Val(B, now) == Val(B, now[..L]) + if neg then Pow(B, |mid|) - Pow(B, L) else 0
  {
    forall k | 0 <= k < |now| ensures now[k] < B { if k < L { assert now[k] == now[..L][k]; } }
    ValSplit(B, now, L);
    PowAdd(B, L, o);
    if neg {
      AllOnes(B, now[L..]);
      MulDist(Pow(B, L), Pow(B, o), -1);
    } else {
      ValZeros(B, now[L..]);
    }
  }

  lemma ShrInt(p: nat, q: nat, lo: nat, u: nat, y: nat, P: nat, rest: nat, neg: bool, w: nat, M: nat, D: nat)
    requires lo < p && rest < P && w == lo + p * u && u + Mul(if neg then P - 1 else 0, q) == Mul(y, P) + rest
    requires M == Mul(p, q) && D == Mul(p, P) && 0 < D
    ensures (if neg then w - M else w) / D == if neg then y - q else y
  {
    var k := if neg then q else 0;
    assert u - k == (y - k) * P + rest by {
      MulDist(q, P, -1);
      MulDist(P, y, 0 - k);
    }
    var z := if neg then w - M else w;
    assert z == lo + p * (u - k) by { MulDist(p, u, 0 - k); }
    ShrCombine(p, P, y - k, rest, lo, z);
  }

  lemma ShrCombine(p: nat, P: nat, y: int, rest: nat, lo: nat, z: int)
    requires lo < p && rest < P && z == lo + p * (y * P + rest)
    ensures 0 < p * P && z / (p * P) == y
  {
    MulPos(p, P);
    MulDist(p, y * P, rest);
    assert p * (y * P) == y * (p * P);
    MulLe(rest + 1, P, p);
    MulDist(p, rest, 1);
    MulLe(0, rest, p);
    DivModUnique(z, p * P, y, lo + p * rest);
  }

  lemma AllShiftedOut(M: nat, k: nat, t: nat, D: nat, w: nat, neg: bool)
    requires 0 < k && 0 < t && D == Mul(Mul(M, k), t) && 0 < D && w < M
    ensures (if neg then w - M else w) / D == if neg then -1 else 0
  {
    MulLe(1, k, M);
    MulLe(1, t, M * k);
    var z := if neg then w - M else w;
    DivModUnique(z, D, if neg then -1 else 0, if neg then z + D else z);
  }

  lemma ShrNumber(M: nat, q: nat, w: nat, y: nat, w': nat, D: nat, signed: bool, neg: bool)
    requires 0 < D && 0 < M && (neg <==> signed && M <= 2 * w) && w < M
    requires (if neg then w - M else w) / D == if neg then y - q else y
    requires w' == y + if neg then M - q else 0
    ensures Number(M, w', signed) == Number(M, w, signed) / D
  {
    QuotientNearer(if neg then w - M else w, D);
  }

  lemma QuotientNearer(x: int, D: int)
    requires 0 < D
    ensures if x < 0 then x <= x / D < 0 else 0 <= x / D <= x
  {
    var q, r := x / D, x % D;
    DivModSplit(x, D);
    QuotientBetween(x, D, q, r);
  }

  lemma QuotientBetween(x: int, D: int, q: int, r: int)
    requires 0 < D && x == q * D + r && 0 <= r < D
    ensures if x < 0 then x <= q < 0 else 0 <= q <= x
  {
    if q < 0 {
      MulLe(1, D, 0 - (q + 1));
      MulDist(D, q, 1);
      MulDist(D, q + 1, 0 - (q + 1));
    } else {
      MulLe(1, D, q);
    }
  }
}
