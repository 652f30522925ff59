/** The carry-chain kernels that all multi-limb operations share.  A pointer into limb storage is
    an (array, offset) pair, so that a result may alias an operand as the callers need. */
module Kernels {
  import opened Limbs

  /** Ascending in-place processing never reads a limb that it has already overwritten. */
  predicate ForwardSafe(r: array<nat>, ri: nat, u: array<nat>, ui: nat, count: nat) {
    r != u || ri <= ui || ui + count <= ri
  }

  // ------------------------------------------------------- one chain step

  /** A carry chain that has produced the limbs `done` and the carry `c` for the sum `s` takes in
      the column `x`, keeps the limb `lo` and carries `hi` on. */
  lemma ChainStep(B: Base, done: seq<nat>, c: int, s: int, x: int, lo: nat, hi: int)
    requires Val(B, done) + c * Pow(B, |done|) == s && lo + hi * B == x + c
    ensures Val(B, done + [lo]) + hi * Pow(B, |done| + 1) == s + x * Pow(B, |done|)
  {
    hide Pow, Val;
    ValSnoc(B, done, lo);
    PowSucc(B, |done|);
    Column(B, Pow(B, |done|), c, x, lo, hi);
  }

  lemma Column(b: int, p: int, c: int, x: int, lo: int, hi: int)
    requires lo + hi * b == x + c
    ensures lo * p + hi * (b * p) == x * p + c * p
  {
    MulDist(p, lo, hi * b);
    MulDist(p, x, c);
    MulAssoc(hi, b, p);
  }

  /** The sum of two limbs and a carry bit carries at most one bit. */
  lemma AddStep(B: Base, x: nat)
    requires x < 2 * B
    ensures Dbl(B, x) == x == Lo(B, x) + Hi(B, x) * B && Lo(B, x) < B && Hi(B, x) <= 1
  {
    MulLe(2, B, B);
    DblSplit(B, x);
    DivLt(x, B, 2);
  }

  /** A difference of limbs wraps the double limb exactly when it is negative, and its low limb is
      then the difference plus one base. */
  lemma BorrowStep(B: Base, x: int)
    requires 0 - B <= x < B
    ensures Lo(B, Dbl(B, x)) < B
    ensures Hi(B, Dbl(B, x)) == 0 <==> 0 <= x
    ensures Lo(B, Dbl(B, x)) == if 0 <= x then x else x + B
  {
    MulLe(2, B, B);
    if 0 <= x {
      ModSmall(x, B * B);
      ModSmall(x, B);
    } else {
      assert x == (-1) * (B * B) + (x + B * B);
      DivModUnique(x, B * B, -1, x + B * B);
      assert x + B * B == (B - 1) * B + (x + B);
      DivModUnique(x + B * B, B, B - 1, x + B);
    }
  }

  /** A product of two limbs plus two more limbs never overflows a double limb. */
  lemma ProductFits(B: Base, x: nat, y: nat, c: nat, d: nat)
    requires x < B && y < B && c < B && d < B
    ensures 0 <= x * y && c + x * y + d < B * B
  {
    MulLe(x, B - 1, y);
    MulLe(y, B - 1, B - 1);
    assert (B - 1) * (B - 1) == B * B - 2 * B + 1;
  }

  /** One column of a product with a single limb, added to an existing limb `d`. */
  lemma ProductStep(B: Base, done: seq<nat>, c: nat, s: int, x: nat, y: nat, d: nat)
    requires x < B && y < B && c < B && d < B
    requires Val(B, done) + c * Pow(B, |done|) == s
    ensures var acc := Dbl(B, c + x * y + d);
      && acc == c + x * y + d && Lo(B, acc) < B && Hi(B, acc) < B
      && Val(B, done + [Lo(B, acc)]) + Hi(B, acc) * Pow(B, |done| + 1) == s + (x * y + d) * Pow(B, |done|)
  {
    ProductFits(B, x, y, c, d);
    DblSplit(B, c + x * y + d);
    var acc := Dbl(B, c + x * y + d);
    ChainStep(B, done, c, s, x * y + d, Lo(B, acc), Hi(B, acc));
  }

  /** The value of a prefix grows by its next limb. */
  lemma PrefixSnoc(B: Base, s: seq<nat>, i: nat)
    requires i < |s|
    ensures Val(B, s[..i + 1]) == Val(B, s[..i]) + s[i] * Pow(B, i)
  {
    assert s[..i + 1] == s[..i] + [s[i]];
    ValSnoc(B, s[..i], s[i]);
  }

  // -------------------------------------------------------------- kernels

  /** r[lo..hi] := x, limb by limb. */
  method Fill(r: array<nat>, lo: nat, hi: nat, x: nat)
    requires lo <= hi <= r.Length
    modifies r
    ensures forall k :: lo <= k < hi ==> r[k] == x
    ensures SameOutside(r[..], old(r[..]), lo, hi)
  {
    for i := lo to hi
      invariant forall k :: lo <= k < i ==> r[k] == x
      invariant SameOutside(r[..], old(r[..]), lo, hi)
    {
      r[i] := x;
    }
  }

  /** r[ri..] := a[ai..] over `count` limbs. */
  method Copy(r: array<nat>, ri: nat, a: array<nat>, ai: nat, count: nat)
    requires ri + count <= r.Length && ai + count <= a.Length && ForwardSafe(r, ri, a, ai, count)
    modifies r
    ensures r[ri..ri + count] == old(a[ai..ai + count])
    ensures SameOutside(r[..], old(r[..]), ri, ri + count)
  {
    ghost var x := a[ai..ai + count];
    for i := 0 to count
      invariant r[ri..ri + i] == x[..i]
      invariant SameOutside(r[..], old(r[..]), ri, ri + i)
    {
      assert a[ai + i] == x[i];
      ghost var done := r[ri..ri + i];
      r[ri + i] := a[ai + i];
      assert r[ri..ri + i + 1] == done + [x[i]] == x[..i + 1];
    }
  }

  /** r[ri..] := u[ui..] + v[vi..] over `count` limbs; the result is the carry out. */
  method EvalAddN(B: Base, r: array<nat>, ri: nat, u: array<nat>, ui: nat, v: array<nat>, vi: nat, count: nat)
    returns (carry: nat)
    requires ri + count <= r.Length && ui + count <= u.Length && vi + count <= v.Length
    requires IsLimbs(B, u[ui..ui + count]) && IsLimbs(B, v[vi..vi + count])
    requires ForwardSafe(r, ri, u, ui, count) && ForwardSafe(r, ri, v, vi, count)
    modifies r
    ensures carry <= 1 && IsLimbs(B, r[ri..ri + count])
    ensures Val(B, r[ri..ri + count]) + carry * Pow(B, count)
         == old(Val(B, u[ui..ui + count])) + old(Val(B, v[vi..vi + count]))
    ensures SameOutside(r[..], old(r[..]), ri, ri + count)
  {
    hide Pow, Val, Dbl, Lo, Hi;
    ghost var us, vs := u[ui..ui + count], v[vi..vi + count];
    assert us[..0] == [] && vs[..0] == [] && r[ri..ri] == [];
    ValEmpty(B);
    carry := 0;
    for i := 0 to count
      invariant carry <= 1 && IsLimbs(B, r[ri..ri + i])
      invariant SameOutside(r[..], old(r[..]), ri, ri + i)
      invariant Val(B, r[ri..ri + i]) + carry * Pow(B, i) == Val(B, us[..i]) + Val(B, vs[..i])
    {
      assert u[ui + i] == us[i] && v[vi + i] == vs[i];
      ghost var done := r[ri..ri + i];
      AddStep(B, us[i] + vs[i] + carry);
      var sum := Dbl(B, u[ui + i] + v[vi + i] + carry);
      ChainStep(B, done, carry, Val(B, us[..i]) + Val(B, vs[..i]), us[i] + vs[i], Lo(B, sum), Hi(B, sum));
      PrefixSnoc(B, us, i);
      PrefixSnoc(B, vs, i);
      carry := Hi(B, sum);
      r[ri + i] := Lo(B, sum);
      assert r[ri..ri + i + 1] == done + [Lo(B, sum)];
      MulDist(Pow(B, i), us[i], vs[i]);
    }
    assert us[..count] == us && vs[..count] == vs;
  }

  /** r[ri..] := u[ui..] - v[vi..] over `count` limbs; the result tells whether a borrow is due. */
  method EvalSubtractN(B: Base, r: array<nat>, ri: nat, u: array<nat>, ui: nat, v: array<nat>, vi: nat, count: nat)
    returns (borrow: bool)
    requires ri + count <= r.Length && ui + count <= u.Length && vi + count <= v.Length
    requires IsLimbs(B, u[ui..ui + count]) && IsLimbs(B, v[vi..vi + count])
    requires ForwardSafe(r, ri, u, ui, count) && ForwardSafe(r, ri, v, vi, count)
    modifies r
    ensures IsLimbs(B, r[ri..ri + count])
    ensures borrow <==> old(Val(B, u[ui..ui + count])) < old(Val(B, v[vi..vi + count]))
    ensures Val(B, r[ri..ri + count]) - (if borrow then Pow(B, count) else 0)
         == old(Val(B, u[ui..ui + count])) - old(Val(B, v[vi..vi + count]))
    ensures SameOutside(r[..], old(r[..]), ri, ri + count)
  {
    hide Pow, Val, Dbl, Lo, Hi;
    ghost var us, vs := u[ui..ui + count], v[vi..vi + count];
    assert us[..0] == [] && vs[..0] == [] && r[ri..ri] == [];
    ValEmpty(B);
    borrow := false;
    for i := 0 to count
      invariant IsLimbs(B, r[ri..ri + i])
      invariant SameOutside(r[..], old(r[..]), ri, ri + i)
      invariant Val(B, r[ri..ri + i]) + (if borrow then -1 else 0) * Pow(B, i) == Val(B, us[..i]) - Val(B, vs[..i])
    {
      assert u[ui + i] == us[i] && v[vi + i] == vs[i];
      ghost var done := r[ri..ri + i];
      var c: int := if borrow then -1 else 0;
      ghost var d: int := us[i] as int - vs[i] as int;
      BorrowStep(B, d + c);
      var diff := Dbl(B, u[ui + i] as int - v[vi + i] as int + c);
      borrow := Hi(B, diff) != 0;
      ChainStep(B, done, c, Val(B, us[..i]) as int - Val(B, vs[..i]), d, Lo(B, diff), if borrow then -1 else 0);
      PrefixSnoc(B, us, i);
      PrefixSnoc(B, vs, i);
      r[ri + i] := Lo(B, diff);
      assert r[ri..ri + i + 1] == done + [Lo(B, diff)];
      MulDist(Pow(B, i), d, vs[i]);
    }
    assert us[..count] == us && vs[..count] == vs;
    ValBound(B, r[ri..ri + count]);
  }

  /** r[ri..] := a[ai..] * b over `count` limbs; the result is the limb that carries out. */
  method EvalMultiply1d(B: Base, r: array<nat>, ri: nat, a: array<nat>, ai: nat, b: nat, count: nat)
    returns (carry: nat)
    requires ri + count <= r.Length && ai + count <= a.Length
    requires IsLimbs(B, a[ai..ai + count]) && b < B
    requires ForwardSafe(r, ri, a, ai, count)
    modifies r
    ensures carry < B && IsLimbs(B, r[ri..ri + count])
    ensures Val(B, r[ri..ri + count]) + carry * Pow(B, count) == old(Val(B, a[ai..ai + count])) * b
    ensures SameOutside(r[..], old(r[..]), ri, ri + count)
  {
    hide Pow, Val, Dbl, Lo, Hi;
    carry := 0;
    if b == 0 {
      Fill(r, ri, ri + count, 0);
      ValZeros(B, r[ri..ri + count]);
    } else {
      ghost var x := a[ai..ai + count];
      assert x[..0] == [] && r[ri..ri] == [];
      ValEmpty(B);
      for i := 0 to count
        invariant carry < B && IsLimbs(B, r[ri..ri + i])
        invariant SameOutside(r[..], old(r[..]), ri, ri + i)
        invariant Val(B, r[ri..ri + i]) + carry * Pow(B, i) == Val(B, x[..i]) * b
      {
        assert a[ai + i] == x[i];
        ghost var done := r[ri..ri + i];
        ProductStep(B, done, carry, Val(B, x[..i]) * b, x[i], b, 0);
        ScaledPrefix(B, x, i, b);
        var acc := Dbl(B, carry + a[ai + i] * b);
        carry := Hi(B, acc);
        r[ri + i] := Lo(B, acc);
        assert r[ri..ri + i + 1] == done + [Lo(B, acc)];
      }
      assert x[..count] == x;
    }
  }

  lemma ScaledPrefix(B: Base, x: seq<nat>, i: nat, b: nat)
    requires i < |x|
    ensures Val(B, x[..i + 1]) * b == Val(B, x[..i]) * b + (x[i] * b) * Pow(B, i)
  {
    hide Pow, Val;
    PrefixSnoc(B, x, i);
    MulDist(b, Val(B, x[..i]), x[i] * Pow(B, i));
    MulAssoc(b, x[i], Pow(B, i));
  }

  /** Three-way comparison of two limb ranges, from the most significant limb down. */
  method CompareRanges(B: Base, a: array<nat>, ai: nat, b: array<nat>, bi: nat, count: nat) returns (r: int)
    requires ai + count <= a.Length && bi + count <= b.Length
    requires IsLimbs(B, a[ai..ai + count]) && IsLimbs(B, b[bi..bi + count])
    ensures -1 <= r <= 1
    ensures r == 1 <==> Val(B, a[ai..ai + count]) > Val(B, b[bi..bi + count])
    ensures r == -1 <==> Val(B, a[ai..ai + count]) < Val(B, b[bi..bi + count])
  {
    ghost var x, y := a[ai..ai + count], b[bi..bi + count];
    r := 0;
    var i := count;
    while i > 0
      invariant 0 <= i <= count && r == 0 && x[i..] == y[i..]
    {
      i := i - 1;
      assert a[ai + i] == x[i] && b[bi + i] == y[i];
      if a[ai + i] != b[bi + i] {
        r := if a[ai + i] > b[bi + i] then 1 else -1;
        if r == 1 { CompareTop(B, y, x, i); } else { CompareTop(B, x, y, i); }
        return;
      }
      assert x[i..] == [x[i]] + x[i + 1..] && y[i..] == [y[i]] + y[i + 1..];
    }
    assert x[0..] == x && y[0..] == y;
  }

  /** The most significant differing limb decides a comparison. */
  lemma CompareTop(B: Base, x: seq<nat>, y: seq<nat>, i: nat)
    requires |x| == |y| && i < |x| && IsLimbs(B, x) && IsLimbs(B, y)
    requires x[i + 1..] == y[i + 1..] && x[i] < y[i]
    ensures Val(B, x) < Val(B, y)
  {
    hide Pow, Val;
    ValSplit(B, x, i + 1);
    ValSplit(B, y, i + 1);
    PrefixSnoc(B, x, i);
    PrefixSnoc(B, y, i);
    ValBound(B, x[..i]);
    MulLe(x[i] + 1, y[i], Pow(B, i));
    MulDist(Pow(B, i), x[i], 1);
  }

  /** Adds a carry limb to t[ti..ti+n); a carry beyond the range is dropped. */
  method PropagateCarry(B: Base, t: array<nat>, ti: nat, n: nat, carry: nat)
    requires ti + n <= t.Length && IsLimbs(B, t[ti..ti + n]) && carry <= 1
    modifies t
    ensures IsLimbs(B, t[ti..ti + n])
    ensures Pow(B, n) > 0 && Val(B, t[ti..ti + n]) == (old(Val(B, t[ti..ti + n])) + carry) % Pow(B, n)
    ensures SameOutside(t[..], old(t[..]), ti, ti + n)
  {
    hide Pow, Val, Dbl, Lo, Hi;
    ghost var ts := t[ti..ti + n];
    assert ts[..0] == [] && t[ti..ti] == [];
    ValEmpty(B);
    var i := 0;
    var c: nat := carry;
    while i < n && c != 0
      invariant 0 <= i <= n && c <= 1 && IsLimbs(B, t[ti..ti + i])
      invariant SameOutside(t[..], old(t[..]), ti, ti + i)
      invariant Val(B, t[ti..ti + i]) + c * Pow(B, i) == Val(B, ts[..i]) + carry
    {
      assert t[ti + i] == ts[i];
      ghost var done := t[ti..ti + i];
      AddStep(B, ts[i] + c);
      var sum := Dbl(B, t[ti + i] + c);
      ChainStep(B, done, c, Val(B, ts[..i]) + carry, ts[i], Lo(B, sum), Hi(B, sum));
      PrefixSnoc(B, ts, i);
      c := Hi(B, sum);
      t[ti + i] := Lo(B, sum);
      assert t[ti..ti + i + 1] == done + [Lo(B, sum)];
      i := i + 1;
    }
    ChainStopped(B, ts, t[..], ti, i, c, carry);
  }

  /** Takes a borrow from t[ti..ti+n); a borrow beyond the range is dropped. */
  method PropagateBorrow(B: Base, t: array<nat>, ti: nat, n: nat, borrow: bool)
    requires ti + n <= t.Length && IsLimbs(B, t[ti..ti + n])
    modifies t
    ensures IsLimbs(B, t[ti..ti + n])
    ensures Pow(B, n) > 0
    ensures Val(B, t[ti..ti + n]) == (old(Val(B, t[ti..ti + n])) - if borrow then 1 else 0) % Pow(B, n)
    ensures SameOutside(t[..], old(t[..]), ti, ti + n)
  {
    hide Pow, Val, Dbl, Lo, Hi;
    ghost var ts := t[ti..ti + n];
    assert ts[..0] == [] && t[ti..ti] == [];
    ValEmpty(B);
    ghost var x := if borrow then -1 else 0;
    var i, has := 0, borrow;
    while i < n && has
      invariant 0 <= i <= n && IsLimbs(B, t[ti..ti + i])
      invariant SameOutside(t[..], old(t[..]), ti, ti + i)
      invariant Val(B, t[ti..ti + i]) + (if has then -1 else 0) * Pow(B, i) == Val(B, ts[..i]) + x
    {
      assert t[ti + i] == ts[i];
      ghost var done := t[ti..ti + i];
      BorrowStep(B, ts[i] as int - 1);
      var diff := Dbl(B, t[ti + i] as int - 1);
      has := Hi(B, diff) != 0;
      ChainStep(B, done, -1, Val(B, ts[..i]) + x, ts[i], Lo(B, diff), if has then -1 else 0);
      PrefixSnoc(B, ts, i);
      t[ti + i] := Lo(B, diff);
      assert t[ti..ti + i + 1] == done + [Lo(B, diff)];
      i := i + 1;
    }
    ChainStopped(B, ts, t[..], ti, i, if has then -1 else 0, x);
  }

  /** A carry chain over t[ti..] that stopped after i limbs has added `x` modulo B^n. */
  lemma ChainStopped(B: Base, was: seq<nat>, t: seq<nat>, ti: nat, i: nat, c: int, x: int)
    requires ti + |was| <= |t| && i <= |was| && IsLimbs(B, was) && IsLimbs(B, t[ti..ti + i])
    requires forall k :: i <= k < |was| ==> t[ti + k] == was[k]
    requires i == |was| || c == 0
    requires Val(B, t[ti..ti + i]) + c * Pow(B, i) == Val(B, was[..i]) + x
    ensures IsLimbs(B, t[ti..ti + |was|])
    ensures Pow(B, |was|) > 0 && Val(B, t[ti..ti + |was|]) == (Val(B, was) + x) % Pow(B, |was|)
  {
    var now := t[ti..ti + |was|];
    assert now[..i] == t[ti..ti + i];
    forall k | 0 <= k < |now| ensures now[k] < B {
      if k < i { assert now[k] == t[ti..ti + i][k]; } else { assert now[k] == was[k]; }
    }
    assert now[i..] == was[i..];
    ChainStoppedValue(B, was, now, i, c, x);
  }

  lemma ChainStoppedValue(B: Base, was: seq<nat>, now: seq<nat>, i: nat, c: int, x: int)
    requires |now| == |was| && i <= |was| && IsLimbs(B, now) && now[i..] == was[i..]
    requires i == |was| || c == 0
    requires Val(B, now[..i]) + c * Pow(B, i) == Val(B, was[..i]) + x
    ensures Pow(B, |was|) > 0 && Val(B, now) == (Val(B, was) + x) % Pow(B, |was|)
  {
    hide Pow, Val;
    PowPos(B, |was|);
    ValBound(B, now);
    if i == |was| {
      assert now[..i] == now && was[..i] == was;
      ModWrap(Val(B, now), Val(B, was) + x, c, Pow(B, |was|));
    } else {
      ValSplit(B, was, i);
      ValSplit(B, now, i);
      ModWrap(Val(B, now), Val(B, was) + x, 0, Pow(B, |was|));
    }
  }

  lemma ModWrap(r: int, x: int, k: int, P: int)
    requires 0 <= r < P && x == r + k * P
    ensures x % P == r
  {
    ModSmall(r, P);
    ModAddMultiple(r, k, P);
  }
}
