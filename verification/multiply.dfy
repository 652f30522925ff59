/** The schoolbook multiplication kernels: the full 2n-limb product, its truncation to n limbs, and
    the unrolled form that the source uses for four limbs. */
module Multiply {
  import opened Limbs
  import opened Kernels

  /** Two ranges of limb storage do not overlap. */
  predicate Apart(r: array<nat>, ri: nat, rn: nat, a: array<nat>, ai: nat, an: nat) {
    r != a || ri + rn <= ai || ai + an <= ri
  }

  /** r[ri..] := r[ri..] + x * b[bi..] over `count` limbs; the result is the limb that carries out. */
  method MultiplyRow(B: Base, r: array<nat>, ri: nat, x: nat, b: array<nat>, bi: nat, count: nat) returns (carry: nat)
    requires ri + count <= r.Length && bi + count <= b.Length && Apart(r, ri, count, b, bi, count)
    requires x < B && IsLimbs(B, b[bi..bi + count]) && IsLimbs(B, r[ri..ri + count])
    modifies r
    ensures carry < B && IsLimbs(B, r[ri..ri + count])
    ensures Val(B, r[ri..ri + count]) + carry * Pow(B, count)
         == old(Val(B, r[ri..ri + count])) + x * old(Val(B, b[bi..bi + count]))
    ensures SameOutside(r[..], old(r[..]), ri, ri + count)
  {
    hide Pow, Val, Dbl, Lo, Hi;
    ghost var rs, bs := r[ri..ri + count], b[bi..bi + count];
    assert rs[..0] == [] && bs[..0] == [] && r[ri..ri] == [];
    ValEmpty(B);
    carry := 0;
    for j := 0 to count
      invariant carry < B && IsLimbs(B, r[ri..ri + j])
      invariant SameOutside(r[..], old(r[..]), ri, ri + j)
      invariant Val(B, r[ri..ri + j]) + carry * Pow(B, j) == Val(B, rs[..j]) + Val(B, bs[..j]) * x
    {
      assert r[ri + j] == rs[j] && b[bi + j] == bs[j];
      ghost var done := r[ri..ri + j];
      ProductStep(B, done, carry, Val(B, rs[..j]) + Val(B, bs[..j]) * x, bs[j], x, rs[j]);
      PrefixSnoc(B, rs, j);
      ScaledPrefix(B, bs, j, x);
      MulDist(Pow(B, j), bs[j] * x, rs[j]);
      var acc := Dbl(B, carry + b[bi + j] * x + r[ri + j]);
      carry := Hi(B, acc);
      r[ri + j] := Lo(B, acc);
      assert r[ri..ri + j + 1] == done + [Lo(B, acc)];
    }
    assert rs[..count] == rs && bs[..count] == bs;
  }

  /** A finished row: limbs `low` below it, the row's old limbs `w`, its new limbs `w'` and its carry. */
  lemma RowDone(B: Base, low: seq<nat>, w: seq<nat>, w': seq<nat>, carry: nat, add: nat)
    requires |w| == |w'| && Val(B, w') + carry * Pow(B, |w|) == Val(B, w) + add
    ensures Val(B, low + w') + carry * Pow(B, |low| + |w|) == Val(B, low + w) + add * Pow(B, |low|)
  {
    hide Pow, Val;
    ValConcat(B, low, w);
    ValConcat(B, low, w');
    PowAdd(B, |low|, |w|);
    MulDist(Pow(B, |low|), Val(B, w'), carry * Pow(B, |w|));
    MulDist(Pow(B, |low|), Val(B, w), add);
    MulAssoc(Pow(B, |low|), carry, Pow(B, |w|));
    MulAssoc(carry, Pow(B, |low|), Pow(B, |w|));
  }

  /** Row i of the schoolbook product: adds x * b to the limbs i.. of a product in progress, which
      grows by one limb. */
  method ProductRow(B: Base, r: array<nat>, ri: nat, i: nat, x: nat, b: array<nat>, bi: nat, count: nat)
    requires ri + i + count < r.Length && bi + count <= b.Length && Apart(r, ri, i + count + 1, b, bi, count)
    requires x < B && IsLimbs(B, b[bi..bi + count]) && IsLimbs(B, r[ri..ri + i + count]) && r[ri + i + count] == 0
    modifies r
    ensures IsLimbs(B, r[ri..ri + i + 1 + count])
    ensures Val(B, r[ri..ri + i + 1 + count])
         == old(Val(B, r[ri..ri + i + count])) + (x * old(Val(B, b[bi..bi + count]))) * Pow(B, i)
    ensures SameOutside(r[..], old(r[..]), ri, ri + i + count + 1)
  {
    hide Pow, Val, IsLimbs;
    ghost var r0, pre := r[..], r[ri..ri + i + count];
    RowParts(B, r0, ri, i, count);
    ghost var add := x * Val(B, b[bi..bi + count]);
    if x != 0 {
      var carry := MultiplyRow(B, r, ri + i, x, b, bi, count);
      r[ri + i + count] := carry;
    }
    RowPlaced(B, r0, r[..], ri, i, count, pre);
    ProductRowDone(B, pre[..i], pre[i..], r[ri + i..ri + i + count], r[ri + i + count], add);
  }

  /** The part of a row's result that the row changes. */
  lemma RowParts(B: Base, r: seq<nat>, ri: nat, i: nat, count: nat)
    requires ri + i + count < |r| && IsLimbs(B, r[ri..ri + i + count])
    ensures r[ri + i..ri + i + count] == r[ri..ri + i + count][i..] && IsLimbs(B, r[ri + i..ri + i + count])
  {
    SliceOfSlice(r, ri, ri + i + count, i, i + count);
  }

  /** Below the row nothing changed. */
  lemma RowPlaced(B: Base, r0: seq<nat>, r1: seq<nat>, ri: nat, i: nat, count: nat, pre: seq<nat>)
    requires ri + i + count < |r0| == |r1| && SameOutside(r1, r0, ri + i, ri + i + count + 1) && pre == r0[ri..ri + i + count]
    requires IsLimbs(B, pre) && IsLimbs(B, r1[ri + i..ri + i + count]) && r1[ri + i + count] < B
    ensures pre == pre[..i] + pre[i..] && SameOutside(r1, r0, ri, ri + i + count + 1)
    ensures r1[ri..ri + i + 1 + count] == pre[..i] + r1[ri + i..ri + i + count] + [r1[ri + i + count]]
    ensures IsLimbs(B, r1[ri..ri + i + 1 + count])
  {
    var now, z := r1[ri..ri + i + 1 + count], pre[..i] + r1[ri + i..ri + i + count] + [r1[ri + i + count]];
    forall k | 0 <= k < i + 1 + count ensures now[k] == z[k] < B {
      if k < i { assert r1[ri + k] == r0[ri + k] == pre[k]; }
      else if k < i + count { assert r1[ri + k] == r1[ri + i..ri + i + count][k - i]; }
    }
  }

  lemma ProductRowDone(B: Base, low: seq<nat>, w: seq<nat>, w': seq<nat>, c: nat, add: nat)
    requires |w| == |w'|
    requires Val(B, w') + c * Pow(B, |w|) == Val(B, w) + add
    ensures Val(B, low + w' + [c]) == Val(B, low + w) + add * Pow(B, |low|)
  {
    hide Pow, Val;
    RowDone(B, low, w, w', c, add);
    assert |low + w'| == |low| + |w|;
    calc {
      Val(B, low + w' + [c]);
      { ValSnoc(B, low + w', c); }
      Val(B, low + w') + c * Pow(B, |low + w'|);
      Val(B, low + w) + add * Pow(B, |low|);
    }
  }

  /** r[ri..] := a[ai..] * b[bi..], all 2 * count limbs of it. */
  method EvalMultiplyNByNTo2n(B: Base, r: array<nat>, ri: nat, a: array<nat>, ai: nat, b: array<nat>, bi: nat, count: nat)
    requires ri + 2 * count <= r.Length && ai + count <= a.Length && bi + count <= b.Length
    requires Apart(r, ri, 2 * count, a, ai, count) && Apart(r, ri, 2 * count, b, bi, count)
    requires IsLimbs(B, a[ai..ai + count]) && IsLimbs(B, b[bi..bi + count])
    modifies r
    ensures IsLimbs(B, r[ri..ri + 2 * count])
    ensures Val(B, r[ri..ri + 2 * count]) == old(Val(B, a[ai..ai + count])) * old(Val(B, b[bi..bi + count]))
    ensures SameOutside(r[..], old(r[..]), ri, ri + 2 * count)
  {
    hide Pow, Val;
    ghost var x, y := a[ai..ai + count], b[bi..bi + count];
    Fill(r, ri, ri + 2 * count, 0);
    ValZeros(B, r[ri..ri + count]);
    assert x[..0] == [];
    ValEmpty(B);
    for i := 0 to count
      invariant SameOutside(r[..], old(r[..]), ri, ri + 2 * count)
      invariant IsLimbs(B, r[ri..ri + i + count])
      invariant forall j :: ri + i + count <= j < ri + 2 * count ==> r[j] == 0
      invariant Val(B, r[ri..ri + i + count]) == Val(B, x[..i]) * Val(B, y)
    {
      assert a[ai + i] == x[i] && b[bi..bi + count] == y;
      ProductRow(B, r, ri, i, a[ai + i], b, bi, count);
      ScaledPrefix(B, x, i, Val(B, y));
    }
    assert x[..count] == x;
  }

  /** Row i of the truncated product: the columns from B^count on are dropped. */
  method LoPartRow(B: Base, r: array<nat>, i: nat, x: nat, b: array<nat>, count: nat) returns (ghost more: nat)
    requires i <= count <= r.Length && count <= b.Length && r != b && x < B
    requires IsLimbs(B, r[..count]) && IsLimbs(B, b[..count])
    modifies r
    ensures IsLimbs(B, r[..count])
    ensures Val(B, r[..count]) + more * Pow(B, count)
         == old(Val(B, r[..count])) + (x * Val(B, b[..count])) * Pow(B, i)
    ensures SameOutside(r[..], old(r[..]), 0, count)
  {
    hide Pow, Val;
    ghost var pre, y := r[..count], b[..count];
    var jmax := count - i;
    assert r[i..i + jmax] == pre[i..] && b[0..jmax] == y[..jmax];
    var carry := MultiplyRow(B, r, i, x, b, 0, jmax);
    ghost var post := r[..count];
    assert post[i..] == r[i..i + jmax] && post[..i] == pre[..i];
    more := LoPartRowDone(B, pre, post, i, x, y, carry);
  }

  lemma LoPartRowDone(B: Base, pre: seq<nat>, post: seq<nat>, i: nat, x: nat, y: seq<nat>, carry: nat) returns (more: nat)
    requires |post| == |pre| == |y| && i <= |pre| && post[..i] == pre[..i]
    requires IsLimbs(B, pre) && IsLimbs(B, post[i..])
    requires Val(B, post[i..]) + carry * Pow(B, |pre| - i) == Val(B, pre[i..]) + x * Val(B, y[..|pre| - i])
    ensures IsLimbs(B, post) && Val(B, post) + more * Pow(B, |pre|) == Val(B, pre) + (x * Val(B, y)) * Pow(B, i)
  {
    hide Pow, Val;
    var j := |pre| - i;
    forall k | 0 <= k < |post| ensures post[k] < B {
      if k < i { assert post[k] == post[..i][k]; } else { assert post[k] == post[i..][k - i]; }
    }
    assert post == pre[..i] + post[i..] && pre == pre[..i] + pre[i..];
    RowDone(B, pre[..i], pre[i..], post[i..], carry, x * Val(B, y[..j]));
    DroppedColumns(B, y, j, x, i);
    more := carry + x * Val(B, y[j..]);
    MulDist(Pow(B, |pre|), carry, x * Val(B, y[j..]));
  }

  /** r := a * b modulo B^count, dropping the columns above the result. */
  method EvalMultiplyNByNToLoPart(B: Base, r: array<nat>, a: array<nat>, b: array<nat>, count: nat)
    requires count <= r.Length && count <= a.Length && count <= b.Length && r != a && r != b
    requires IsLimbs(B, a[..count]) && IsLimbs(B, b[..count])
    modifies r
    ensures IsLimbs(B, r[..count])
    ensures Pow(B, count) > 0 && Val(B, r[..count]) == (Val(B, a[..count]) * Val(B, b[..count])) % Pow(B, count)
    ensures SameOutside(r[..], old(r[..]), 0, count)
  {
    hide Pow, Val;
    ghost var x, y := a[..count], b[..count];
    Fill(r, 0, count, 0);
    ValZeros(B, r[..count]);
    assert x[..0] == [];
    ValEmpty(B);
    ghost var dropped: nat := 0;
    for i := 0 to count
      invariant SameOutside(r[..], old(r[..]), 0, count)
      invariant IsLimbs(B, r[..count])
      invariant Val(B, r[..count]) + dropped * Pow(B, count) == Val(B, x[..i]) * Val(B, y)
    {
      ScaledPrefix(B, x, i, Val(B, y));
      if a[i] != 0 {
        assert a[i] == x[i] && b[..count] == y;
        ghost var more := LoPartRow(B, r, i, a[i], b, count);
        MulDist(Pow(B, count), more, dropped);
        dropped := dropped + more;
      }
    }
    assert x[..count] == x;
    ValBound(B, r[..count]);
    ModWrap(Val(B, r[..count]), Val(B, x) * Val(B, y), dropped, Pow(B, count));
  }

  /** The columns of row i that lie beyond the result are a multiple of B^n. */
  lemma DroppedColumns(B: Base, y: seq<nat>, j: nat, x: nat, i: nat)
    requires j <= |y| && i + j == |y|
    ensures (x * Val(B, y)) * Pow(B, i) == (x * Val(B, y[..j])) * Pow(B, i) + (x * Val(B, y[j..])) * Pow(B, |y|)
  {
    hide Pow, Val;
    ValSplit(B, y, j);
    PowAdd(B, j, i);
    var lo, hi, p, q := Val(B, y[..j]), Val(B, y[j..]), Pow(B, i), Pow(B, j);
    MulDist(x, lo, q * hi);
    MulDist(p, x * lo, x * (q * hi));
    assert (x * (q * hi)) * p == (x * hi) * (q * p);
  }

  /** The truncated product is the low half of the full product, limb by limb. */
  lemma LoPartIsLowHalf(B: Base, x: nat, y: nat, lo: seq<nat>, full: seq<nat>)
    requires |full| == 2 * |lo| && IsLimbs(B, lo) && IsLimbs(B, full)
    requires Pow(B, |lo|) > 0 && Val(B, lo) == (x * y) % Pow(B, |lo|) && Val(B, full) == x * y
    ensures lo == full[..|lo|]
  {
    ValDivMod(B, full, |lo|);
    ValUnique(B, lo, full[..|lo|]);
  }

  // ----------------------------------------------- the unrolled 4-limb form

  /** A partial product in a double limb. */
  function Prod(B: Base, x: nat, y: nat): nat { Dbl(B, x * y) }

  /** The limbs of a product modulo B^4, column by column, as the unrolled code groups them.  The
      double-limb accumulators r1 and r2 are truncated to their width, r3 to one limb. */
  function Unrolled4(B: Base, a: seq<nat>, b: seq<nat>): seq<nat>
    requires |a| == 4 && |b| == 4
  {
    var a0b0, a0b1, a1b0, a1b1 := Prod(B, a[0], b[0]), Prod(B, a[0], b[1]), Prod(B, a[1], b[0]), Prod(B, a[1], b[1]);
    if a[2] == 0 && b[2] == 0 && a[3] == 0 && b[3] == 0 then
      var r1 := Dbl(B, Hi(B, a0b0) + Lo(B, a1b0) + Lo(B, a0b1));
      var r2 := Dbl(B, Hi(B, r1) + Lo(B, a1b1) + Hi(B, a0b1) + Hi(B, a1b0));
      [Lo(B, a0b0), Lo(B, r1), Lo(B, r2), Lo(B, Hi(B, r2) + Hi(B, a1b1))]
    else
      var a0b2, a2b0 := Prod(B, a[0], b[2]), Prod(B, a[2], b[0]);
      var r1 := Dbl(B, Hi(B, a0b0) + Lo(B, a1b0) + Lo(B, a0b1));
      var r2 := Dbl(B, Hi(B, r1) + Lo(B, a2b0) + Lo(B, a1b1) + Lo(B, a0b2) + Hi(B, a1b0) + Hi(B, a0b1));
      var r3 := Hi(B, r2) + Lo(B, Prod(B, a[3], b[0])) + Lo(B, Prod(B, a[2], b[1])) + Lo(B, Prod(B, a[1], b[2]))
              + Lo(B, Prod(B, a[0], b[3])) + Hi(B, a2b0) + Hi(B, a1b1) + Hi(B, a0b2);
      [Lo(B, a0b0), Lo(B, r1), Lo(B, r2), Lo(B, r3)]
  }

  /** The halves of a partial product are limbs, and those of a zero product vanish. */
  lemma HalfBounds(B: Base, x: nat, y: nat)
    requires x < B && y < B
    ensures Lo(B, Prod(B, x, y)) < B && Hi(B, Prod(B, x, y)) < B
    ensures x == 0 || y == 0 ==> Lo(B, Prod(B, x, y)) == 0 && Hi(B, Prod(B, x, y)) == 0
  {
    ProductFits(B, x, y, 0, 0);
    DblSplit(B, x * y);
    if x == 0 || y == 0 { ModSmall(0, B); }
  }

  /** A partial product never overflows its double limb. */
  lemma ProdExact(B: Base, x: nat, y: nat)
    requires x < B && y < B
    ensures x * y == Prod(B, x, y) == Lo(B, Prod(B, x, y)) + Hi(B, Prod(B, x, y)) * B
  {
    ProductFits(B, x, y, 0, 0);
    DblSplit(B, x * y);
  }

  /** An accumulator of fewer than eight limbs does not overflow its double limb. */
  lemma Accumulator(B: Base, s: nat)
    requires 256 <= B && s < 8 * B
    ensures Dbl(B, s) == s && Lo(B, s) < B && Hi(B, s) < 8
  {
    MulLe(8, B, B);
    DblSplit(B, s);
    DivLt(s, B, 8);
  }

  /** Four columns as one number. */
  function Nested(B: int, c0: int, c1: int, c2: int, c3: int): int { c0 + B * (c1 + B * (c2 + B * c3)) }

  function Cubed(B: int, x: int): int { B * (B * (B * x)) }

  /** The polynomial identity behind the grouping by columns: pij are the partial products, lij and
      hij their limbs, c1 and c2 the carries of the accumulators, and d collects all that lies at or
      above B^4. */
  lemma Columns(B: int, p00: int, p10: int, p01: int, p20: int, p11: int, p02: int,
      l00: int, l10: int, l01: int, l20: int, l11: int, l02: int,
      h00: int, h10: int, h01: int, h20: int, h11: int, h02: int,
      r1: int, r2: int, r3: int, c1: int, c2: int, s3: int)
    requires p00 == l00 + h00 * B && p10 == l10 + h10 * B && p01 == l01 + h01 * B
    requires p20 == l20 + h20 * B && p11 == l11 + h11 * B && p02 == l02 + h02 * B
    requires h00 + l10 + l01 == r1 + c1 * B
    requires c1 + l20 + l11 + l02 + h10 + h01 == r2 + c2 * B
    requires r3 == c2 + s3 + h20 + h11 + h02
    ensures Nested(B, l00, r1, r2, r3) == Nested(B, p00, p10 + p01, p20 + p11 + p02, s3)
  {
    assert B * r3 + r2 == B * s3 + (h20 + h11 + h02) * B + (r2 + c2 * B);
    var x2 := p20 + p11 + p02 + B * s3 + c1 + h10 + h01;
    assert r2 + B * r3 == x2;
    assert r1 + B * x2 == B * (p20 + p11 + p02 + B * s3) + (h10 + h01) * B + (r1 + c1 * B);
    var x1 := p10 + p01 + B * (p20 + p11 + p02 + B * s3) + h00;
    assert r1 + B * x2 == x1;
  }

  lemma Shift(B: int, c: int, y0: int, Y: int)
    ensures c * (y0 + B * Y) == c * y0 + B * (c * Y)
  {
    MulDist(c, y0, B * Y);
    MulAssoc(c, B, Y);
    MulAssoc(B, c, Y);
  }

  lemma Cross(B: int, x0: int, X: int, y0: int, Y: int)
    ensures (x0 + B * X) * (y0 + B * Y) == x0 * y0 + B * (x0 * Y + y0 * X + B * (X * Y))
  {
    var y := y0 + B * Y;
    MulDist(y, x0, B * X);
    Shift(B, x0, y0, Y);
    Shift(B, X, y0, Y);
    MulAssoc(B, X, y);
    MulDist(B, x0 * Y, X * y);
  }

  /** The product of two 4-limb numbers by columns, with all that lies at or above B^4 in `d`. */
  lemma Product4(B: Base, a: seq<nat>, b: seq<nat>) returns (d: nat)
    requires |a| == 4 && |b| == 4
    ensures Val(B, a) * Val(B, b)
         == Nested(B, a[0] * b[0], a[1] * b[0] + a[0] * b[1], a[2] * b[0] + a[1] * b[1] + a[0] * b[2],
                   a[3] * b[0] + a[2] * b[1] + a[1] * b[2] + a[0] * b[3] + B * d)
  {
    hide Val;
    Val4(B, a);
    Val4(B, b);
    var X2, Y2 := a[2] + B * a[3], b[2] + B * b[3];
    var X1, Y1 := a[1] + B * X2, b[1] + B * Y2;
    d := a[1] * b[3] + b[1] * a[3] + X2 * Y2;
    Cross(B, a[0], X1, b[0], Y1);
    Shift(B, a[0], b[1], Y2);
    Shift(B, b[0], a[1], X2);
    Cross(B, a[1], X2, b[1], Y2);
    Shift(B, a[0], b[2], b[3]);
    Shift(B, b[0], a[2], a[3]);
    Shift(B, a[1], b[2], b[3]);
    Shift(B, b[1], a[2], a[3]);
    var c3 := a[3] * b[0] + a[2] * b[1] + a[1] * b[2] + a[0] * b[3];
    var rest := a[1] * Y2 + b[1] * X2 + B * (X2 * Y2);
    assert rest == a[1] * b[2] + b[1] * a[2] + B * d by {
      MulDist(B, a[1] * b[3], b[1] * a[3]);
      MulDist(B, a[1] * b[3] + b[1] * a[3], X2 * Y2);
    }
    var c2 := a[2] * b[0] + a[1] * b[1] + a[0] * b[2];
    assert a[0] * Y2 + b[0] * X2 + (a[1] * b[1] + B * rest) == c2 + B * (c3 + B * d) by {
      MulDist(B, a[0] * b[3], b[0] * a[3]);
      MulDist(B, a[0] * b[3] + b[0] * a[3], rest);
    }
    MulDist(B, a[0] * Y2, b[0] * X2);
    MulDist(B, a[0] * Y2 + b[0] * X2, X1 * Y1);
  }

  lemma Val4(B: Base, s: seq<nat>)
    requires |s| == 4
    ensures Val(B, s) == s[0] + B * (s[1] + B * (s[2] + B * s[3]))
  {
    assert s[1..][1..] == s[2..] && s[2..][1..] == s[3..] && s[3..][1..] == [];
    assert Val(B, s[3..]) == s[3];
    assert Val(B, s[2..]) == s[2] + B * s[3];
    assert Val(B, s[1..]) == s[1] + B * (s[2] + B * s[3]);
  }

  /** The accumulators of the unrolled code for the second, third and fourth limb, in integers. */
  function Sum1(B: Base, a: seq<nat>, b: seq<nat>): nat
    requires |a| == 4 && |b| == 4
  {
    Hi(B, Prod(B, a[0], b[0])) + Lo(B, Prod(B, a[1], b[0])) + Lo(B, Prod(B, a[0], b[1]))
  }

  function Sum2(B: Base, a: seq<nat>, b: seq<nat>): nat
    requires |a| == 4 && |b| == 4
  {
    Hi(B, Sum1(B, a, b)) + Lo(B, Prod(B, a[2], b[0])) + Lo(B, Prod(B, a[1], b[1])) + Lo(B, Prod(B, a[0], b[2])) + Hi(B, Prod(B, a[1], b[0])) + Hi(B, Prod(B, a[0], b[1]))
  }

  function Sum3(B: Base, a: seq<nat>, b: seq<nat>): nat
    requires |a| == 4 && |b| == 4
  {
    Hi(B, Sum2(B, a, b)) + Lo(B, Prod(B, a[3], b[0])) + Lo(B, Prod(B, a[2], b[1])) + Lo(B, Prod(B, a[1], b[2])) + Lo(B, Prod(B, a[0], b[3]))
      + Hi(B, Prod(B, a[2], b[0])) + Hi(B, Prod(B, a[1], b[1])) + Hi(B, Prod(B, a[0], b[2]))
  }

  /** No accumulator overflows its two limbs, and the half-width shortcut drops only zeros. */
  lemma Unrolled4Limbs(B: Base, a: seq<nat>, b: seq<nat>)
    requires 256 <= B && |a| == 4 && |b| == 4 && IsLimbs(B, a) && IsLimbs(B, b)
    ensures Unrolled4(B, a, b) == [Lo(B, Prod(B, a[0], b[0])), Lo(B, Sum1(B, a, b)), Lo(B, Sum2(B, a, b)), Lo(B, Sum3(B, a, b))]
  {
    hide Lo, Hi, Dbl, Prod;
    HalfBounds(B, a[0], b[0]); HalfBounds(B, a[1], b[0]); HalfBounds(B, a[0], b[1]);
    HalfBounds(B, a[2], b[0]); HalfBounds(B, a[1], b[1]); HalfBounds(B, a[0], b[2]);
    HalfBounds(B, a[3], b[0]); HalfBounds(B, a[2], b[1]); HalfBounds(B, a[1], b[2]); HalfBounds(B, a[0], b[3]);
    Accumulator(B, Sum1(B, a, b));
    Accumulator(B, Sum2(B, a, b));
  }

  /** The full last accumulator makes the four limbs equal to the product up to multiples of B^4. */
  lemma Unrolled4Value(B: Base, a: seq<nat>, b: seq<nat>) returns (k: nat)
    requires 256 <= B && |a| == 4 && |b| == 4 && IsLimbs(B, a) && IsLimbs(B, b)
    ensures Val(B, a) * Val(B, b) == k * Pow(B, 4)
         + Nested(B, Lo(B, Prod(B, a[0], b[0])), Lo(B, Sum1(B, a, b)), Lo(B, Sum2(B, a, b)), Lo(B, Sum3(B, a, b)))
  {
    hide Val, Pow, Lo, Hi, Dbl, Prod, Nested;
    var s1, s2, r3 := Sum1(B, a, b), Sum2(B, a, b), Sum3(B, a, b);
    var d := Product4(B, a, b);
    ProdExact(B, a[0], b[0]); ProdExact(B, a[1], b[0]); ProdExact(B, a[0], b[1]);
    ProdExact(B, a[2], b[0]); ProdExact(B, a[1], b[1]); ProdExact(B, a[0], b[2]);
    ProdExact(B, a[3], b[0]); ProdExact(B, a[2], b[1]); ProdExact(B, a[1], b[2]); ProdExact(B, a[0], b[3]);
    var p00, p10, p01 := Prod(B, a[0], b[0]), Prod(B, a[1], b[0]), Prod(B, a[0], b[1]);
    var p20, p11, p02 := Prod(B, a[2], b[0]), Prod(B, a[1], b[1]), Prod(B, a[0], b[2]);
    var q0, q1, q2, q3 := Prod(B, a[3], b[0]), Prod(B, a[2], b[1]), Prod(B, a[1], b[2]), Prod(B, a[0], b[3]);
    LoHi(B, s1); LoHi(B, s2); LoHi(B, r3);
    var s3 := Lo(B, q0) + Lo(B, q1) + Lo(B, q2) + Lo(B, q3);
    var h := Hi(B, q0) + Hi(B, q1) + Hi(B, q2) + Hi(B, q3);
    Columns(B, p00, p10, p01, p20, p11, p02,
      Lo(B, p00), Lo(B, p10), Lo(B, p01), Lo(B, p20), Lo(B, p11), Lo(B, p02),
      Hi(B, p00), Hi(B, p10), Hi(B, p01), Hi(B, p20), Hi(B, p11), Hi(B, p02),
      Lo(B, s1), Lo(B, s2), r3, Hi(B, s1), Hi(B, s2), s3);
    SumHalves(B, Lo(B, q0), Lo(B, q1), Lo(B, q2), Lo(B, q3), Hi(B, q0), Hi(B, q1), Hi(B, q2), Hi(B, q3));
    k := h + d + Hi(B, r3);
    TopColumn(B, Lo(B, p00), Lo(B, s1), Lo(B, s2), Lo(B, r3), Hi(B, r3), p00, p10 + p01, p20 + p11 + p02, q0 + q1 + q2 + q3, s3, h, d, k);
  }

  /** Both branches of the unrolled code compute the product modulo B^4. */
  lemma Unrolled4Correct(B: Base, a: seq<nat>, b: seq<nat>)
    requires 256 <= B && |a| == 4 && |b| == 4 && IsLimbs(B, a) && IsLimbs(B, b)
    ensures |Unrolled4(B, a, b)| == 4 && IsLimbs(B, Unrolled4(B, a, b))
    ensures Pow(B, 4) > 0 && Val(B, Unrolled4(B, a, b)) == (Val(B, a) * Val(B, b)) % Pow(B, 4)
  {
    hide Val, Pow, Lo, Hi, Dbl, Prod, Unrolled4, Sum1, Sum2, Sum3;
    Unrolled4Limbs(B, a, b);
    var s := Unrolled4(B, a, b);
    LoHi(B, Prod(B, a[0], b[0])); LoHi(B, Sum1(B, a, b)); LoHi(B, Sum2(B, a, b)); LoHi(B, Sum3(B, a, b));
    var k := Unrolled4Value(B, a, b);
    Val4(B, s);
    ValBound(B, s);
    PowPos(B, 4);
    ModWrap(Val(B, s), Val(B, a) * Val(B, b), k, Pow(B, 4));
  }

  lemma LoHi(B: Base, x: nat)
    ensures x == Lo(B, x) + Hi(B, x) * B && Lo(B, x) < B
  {
    DivModSplit(x, B);
  }

  /** Moves the multiples of B^4 out of the top column. */
  lemma TopColumn(B: Base, l0: int, l1: int, l2: int, l3: int, h3: int, c0: int, c1: int, c2: int, c3: int, s3: int, h: int, d: int, k: int)
    requires Nested(B, l0, l1, l2, l3 + h3 * B) == Nested(B, c0, c1, c2, s3)
    requires c3 == s3 + B * h && k == h + d + h3
    ensures Nested(B, c0, c1, c2, c3 + B * d) == k * Pow(B, 4) + Nested(B, l0, l1, l2, l3)
  {
    hide Pow, Nested, Cubed;
    MulDist(B, h, d);
    Lift(B, c0, c1, c2, s3, B * (h + d));
    Lift(B, l0, l1, l2, l3, h3 * B);
    FourthPower(B, h + d);
    FourthPower(B, h3);
    MulDist(Pow(B, 4), h + d, h3);
  }

  lemma FourthPower(B: nat, x: int)
    ensures Cubed(B, B * x) == x * Pow(B, 4)
  {
    assert Pow(B, 1) == B;
    assert Pow(B, 2) == B * B;
    assert Pow(B, 3) == B * (B * B);
    assert Pow(B, 4) == B * (B * (B * B));
    MulAssoc(B, B, x);
    MulAssoc(B, B * B, x);
    MulAssoc(B, B * (B * B), x);
  }

  lemma SumHalves(B: int, l0: int, l1: int, l2: int, l3: int, h0: int, h1: int, h2: int, h3: int)
    ensures (l0 + h0 * B) + (l1 + h1 * B) + (l2 + h2 * B) + (l3 + h3 * B) == (l0 + l1 + l2 + l3) + B * (h0 + h1 + h2 + h3)
  {}

  lemma Lift(B: int, c0: int, c1: int, c2: int, c3: int, e: int)
    ensures Nested(B, c0, c1, c2, c3 + e) == Nested(B, c0, c1, c2, c3) + Cubed(B, e)
  {
    MulDist(B, c3, e);
    MulDist(B, c2 + B * c3, B * e);
    MulDist(B, c1 + B * (c2 + B * c3), B * (B * e));
  }

  /** The 4-limb kernel: r := a * b modulo B^4. */
  method EvalMultiply4By4ToLoPart(B: Base, r: array<nat>, a: array<nat>, b: array<nat>)
    requires 256 <= B && 4 <= r.Length && 4 <= a.Length && 4 <= b.Length && r != a && r != b
    requires IsLimbs(B, a[..4]) && IsLimbs(B, b[..4])
    modifies r
    ensures IsLimbs(B, r[..4])
    ensures Pow(B, 4) > 0 && Val(B, r[..4]) == (Val(B, a[..4]) * Val(B, b[..4])) % Pow(B, 4)
    ensures SameOutside(r[..], old(r[..]), 0, 4)
  {
    Unrolled4Correct(B, a[..4], b[..4]);
    var s := Unrolled4(B, a[..4], b[..4]);
    r[3] := s[3];
    r[0] := s[0];
    r[1] := s[1];
    r[2] := s[2];
    assert r[..4] == s;
  }
}
