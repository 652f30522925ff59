/** Karatsuba's recursion as a function of limbs: what the in-place procedure leaves in its result for every
    limb count, also one that does not halve evenly, and the counts for which that is the product. */
module KaratsubaRecursion {
  import opened Limbs
  import opened LimbDigits

  const CUTOFF: nat := 48

  // ------------------------------------------------------------- limb counts

  /** The limb counts that halve evenly down to the schoolbook cutoff. */
  predicate KaraSize(n: nat) {
    n <= CUTOFF || (n % 2 == 0 && KaraSize(n / 2))
  }

  predicate HalvesTo(n: nat, c: nat, k: nat) { c <= CUTOFF && n == c * Pow(2, k) }

  lemma HalvesUp(n: nat, c: nat, k: nat)
    requires n % 2 == 0 && HalvesTo(n / 2, c, k)
    ensures HalvesTo(n, c, k + 1)
  {
    PowSucc(2, k);
    MulAssoc(2, c, Pow(2, k));
    MulAssoc(c, 2, Pow(2, k));
  }

  lemma EvenSplit(n: nat, c: nat, p: nat)
    requires n == c * (2 * p)
    ensures n % 2 == 0 && n / 2 == c * p
  {
    MulAssoc(c, 2, p);
    MulAssoc(2, c, p);
  }

  lemma HalvesDown(n: nat, c: nat, k: nat)
    requires n > CUTOFF && HalvesTo(n, c, k)
    ensures k > 0 && n % 2 == 0 && HalvesTo(n / 2, c, k - 1)
  {
    if k > 0 {
      PowSucc(2, k - 1);
      EvenSplit(n, c, Pow(2, k - 1));
    }
  }

  /** They are the numbers c * 2^k with c <= 48. */
  lemma {:induction false} KaraSizeIff(n: nat)
    ensures KaraSize(n) <==> exists c: nat, k: nat :: HalvesTo(n, c, k)
  {
    hide HalvesTo;
    if n <= CUTOFF {
      assert HalvesTo(n, n, 0) by { HalvesZero(n); }
    } else {
      KaraSizeIff(n / 2);
      if KaraSize(n) {
        var c: nat, k: nat :| HalvesTo(n / 2, c, k);
        HalvesUp(n, c, k);
      }
      if c: nat, k: nat :| HalvesTo(n, c, k) {
        HalvesDown(n, c, k);
      }
    }
  }

  lemma HalvesZero(n: nat)
    requires n <= CUTOFF
    ensures HalvesTo(n, n, 0)
  {}

  /** They are those whose odd part is at most 48. */
  lemma {:induction false} KaraSizeOddPart(m: nat, k: nat)
    requires m % 2 == 1
    ensures KaraSize(m * Pow(2, k)) <==> m <= CUTOFF
  {
    if k > 0 {
      var n, half := m * Pow(2, k), m * Pow(2, k - 1);
      assert n == 2 * half by { MulAssoc(m, 2, Pow(2, k - 1)); MulAssoc(2, m, Pow(2, k - 1)); }
      KaraSizeOddPart(m, k - 1);
      if n <= CUTOFF {
        PowPos(2, k);
        MulLe(1, Pow(2, k), m);
      }
    }
  }

  // ------------------------------------------------------------ the recursion

  function Sign(x: int, y: int): int { if x < y then -1 else if x == y then 0 else 1 }

  function Distance(x: int, y: int): nat { if x < y then y - x else x - y }

  /** The limbs of |x - y|, or what was there before when the two are equal. */
  function Gap(B: Base, x: seq<nat>, y: seq<nat>, stale: seq<nat>): (d: seq<nat>)
    requires |x| == |y| == |stale|
    ensures |d| == |x|
  {
    if Val(B, x) == Val(B, y) then stale else Digits(B, |x|, Distance(Val(B, x), Val(B, y)))
  }

  /** Adds v to the `count` limbs from position i on; a carry out of them is lost. */
  function AddAt(B: Base, s: seq<nat>, i: nat, count: nat, v: int): (z: seq<nat>)
    requires i + count <= |s|
    ensures |z| == |s|
  {
    s[..i] + Digits(B, count, Val(B, s[i..i + count]) + v) + s[i + count..]
  }

  function Low(s: seq<nat>): (l: seq<nat>)
    ensures |l| == |s| / 2
  {
    s[..|s| / 2]
  }

  /** The limbs above the low half; for an odd count the top limb is in neither. */
  function High(s: seq<nat>): (h: seq<nat>)
    ensures |h| == |s| / 2
  {
    s[|s| / 2..2 * (|s| / 2)]
  }

  /** Step 1: the products of the halves in the result; for odd n the last limb of either half is stale. */
  function Halves(n: nat, r: seq<nat>, low: seq<nat>, high: seq<nat>): (s: seq<nat>)
    requires |r| == 2 * n && |low| == |high| == 2 * (n / 2)
    ensures |s| == 2 * n
  {
    low + r[2 * (n / 2)..n] + high + r[n + 2 * (n / 2)..]
  }

  /** Step 2: both halves added at the middle. */
  function MiddleSum(B: Base, n: nat, s: seq<nat>): (z: seq<nat>)
    requires |s| == 2 * n
    ensures |z| == 2 * n
  {
    var nh := n / 2;
    AddAt(B, AddAt(B, s, nh, n + nh, Val(B, s[n..])), nh, n + nh, Val(B, s[..n]))
  }

  /** The sign of (a1 - a0) * (b0 - b1). */
  function CrossSign(B: Base, a: seq<nat>, b: seq<nat>): int {
    Sign(Val(B, High(a)), Val(B, Low(a))) * Sign(Val(B, Low(b)), Val(B, High(b)))
  }

  /** Step 6: the cross product q, with what stood above it, added or subtracted at the middle. */
  function Finish(B: Base, n: nat, s: seq<nat>, q: seq<nat>, sign: int): (z: seq<nat>)
    requires |s| == 2 * n && |q| == 2 * (n / 2)
    ensures |z| == 2 * n
  {
    AddAt(B, MiddleSum(B, n, s), n / 2, n + n / 2, sign * Val(B, q + s[n + 2 * (n / 2)..]))
  }

  /** The limbs of the result of multiplying a by b, both of n limbs, into a result that held r. */
  function Kara(B: Base, n: nat, r: seq<nat>, a: seq<nat>, b: seq<nat>): (z: seq<nat>)
    requires |r| == 2 * n && |a| == n == |b|
    ensures |z| == 2 * n
    decreases n, 1
  {
    if n <= CUTOFF then Digits(B, 2 * n, Val(B, a) * Val(B, b))
    else
      var s := KaraHalves(B, n, r, a, b);
      Finish(B, n, s, CrossProduct(B, n, s, a, b), CrossSign(B, a, b))
  }

  /** The result after step 1. */
  function KaraHalves(B: Base, n: nat, r: seq<nat>, a: seq<nat>, b: seq<nat>): (s: seq<nat>)
    requires |r| == 2 * n && |a| == n == |b| && n > CUTOFF
    ensures |s| == 2 * n
    decreases n, 0
  {
    var nh := n / 2;
    Halves(n, r, Kara(B, nh, r[..2 * nh], Low(a), Low(b)), Kara(B, nh, r[n..n + 2 * nh], High(a), High(b)))
  }

  /** Steps 3 to 5: |a1 - a0| * |b0 - b1|, into a place that holds the upper half of s. */
  function CrossProduct(B: Base, n: nat, s: seq<nat>, a: seq<nat>, b: seq<nat>): (q: seq<nat>)
    requires |s| == 2 * n && |a| == n == |b| && n > CUTOFF
    ensures |q| == 2 * (n / 2)
    decreases n, 0
  {
    var nh := n / 2;
    Kara(B, nh, s[n..n + 2 * nh], Gap(B, High(a), Low(a), s[..nh]), Gap(B, Low(b), High(b), s[nh..2 * nh]))
  }

  function ZeroLimbs(n: nat): (s: seq<nat>)
    ensures |s| == n && Zeros(s)
  {
    seq(n, _ => 0)
  }

  /** The product as the class asks for it, into a zeroed result. */
  function KaraProduct(B: Base, n: nat, a: seq<nat>, b: seq<nat>): (z: seq<nat>)
    requires |a| == n == |b|
    ensures |z| == 2 * n
  {
    Kara(B, n, ZeroLimbs(2 * n), a, b)
  }

  // ----------------------------------------------------------- limbs are limbs

  lemma AddAtLimbs(B: Base, s: seq<nat>, i: nat, count: nat, v: int)
    requires i + count <= |s| && IsLimbs(B, s)
    ensures IsLimbs(B, AddAt(B, s, i, count, v))
  {}

  lemma HalvesLimbs(B: Base, n: nat, r: seq<nat>, low: seq<nat>, high: seq<nat>)
    requires |r| == 2 * n && |low| == |high| == 2 * (n / 2) && IsLimbs(B, r) && IsLimbs(B, low) && IsLimbs(B, high)
    ensures IsLimbs(B, Halves(n, r, low, high))
  {}

  lemma GapLimbs(B: Base, x: seq<nat>, y: seq<nat>, stale: seq<nat>)
    requires |x| == |y| == |stale| && IsLimbs(B, stale)
    ensures IsLimbs(B, Gap(B, x, y, stale))
  {}

  lemma FinishLimbs(B: Base, n: nat, s: seq<nat>, q: seq<nat>, sign: int)
    requires |s| == 2 * n && |q| == 2 * (n / 2) && IsLimbs(B, s)
    ensures IsLimbs(B, Finish(B, n, s, q, sign)) && IsLimbs(B, MiddleSum(B, n, s))
  {
    hide Digits, AddAt, Val, IsLimbs;
    var nh := n / 2;
    AddAtLimbs(B, s, nh, n + nh, Val(B, s[n..]));
    AddAtLimbs(B, AddAt(B, s, nh, n + nh, Val(B, s[n..])), nh, n + nh, Val(B, s[..n]));
    AddAtLimbs(B, MiddleSum(B, n, s), nh, n + nh, sign * Val(B, q + s[n + 2 * nh..]));
  }

  lemma {:induction false} KaraLimbs(B: Base, n: nat, r: seq<nat>, a: seq<nat>, b: seq<nat>)
    requires |r| == 2 * n && |a| == n == |b| && IsLimbs(B, r)
    ensures IsLimbs(B, Kara(B, n, r, a, b))
    ensures n > CUTOFF ==> IsLimbs(B, KaraHalves(B, n, r, a, b))
    decreases n
  {
    hide Finish, Halves, IsLimbs, CrossProduct, Low, High, Digits;
    if n > CUTOFF {
      var nh := n / 2;
      LimbsPart(B, r, 0, 2 * nh);
      LimbsPart(B, r, n, n + 2 * nh);
      KaraLimbs(B, nh, r[..2 * nh], Low(a), Low(b));
      KaraLimbs(B, nh, r[n..n + 2 * nh], High(a), High(b));
      HalvesLimbs(B, n, r, Kara(B, nh, r[..2 * nh], Low(a), Low(b)), Kara(B, nh, r[n..n + 2 * nh], High(a), High(b)));
      var s := KaraHalves(B, n, r, a, b);
      FinishLimbs(B, n, s, CrossProduct(B, n, s, a, b), CrossSign(B, a, b));
    }
  }

  lemma LimbsPart(B: Base, s: seq<nat>, i: nat, j: nat)
    requires i <= j <= |s| && IsLimbs(B, s)
    ensures IsLimbs(B, s[i..j])
  {}

  // ---------------------------------------------------- Karatsuba's identity

  /** (X^2 + X) * p2 + (X + 1) * p0, what steps 1 and 2 put into the result. */
  function SumOfHalves(X: int, p0: int, p2: int): int {
    p0 + X * (X * p2) + X * p2 + X * p0
  }

  function CrossTerm(a0: int, a1: int, b0: int, b1: int): int { (a1 - a0) * (b0 - b1) }

  lemma Identity(X: int, a0: int, a1: int, b0: int, b1: int)
    requires 0 <= X && 0 <= a0 && 0 <= a1 && 0 <= b0 && 0 <= b1
    ensures a0 * b0 >= 0 && a1 * b1 >= 0
    ensures (a0 + X * a1) * (b0 + X * b1) == SumOfHalves(X, a0 * b0, a1 * b1) + X * CrossTerm(a0, a1, b0, b1)
  {
    MulLe(0, a0, b0);
    MulLe(0, a1, b1);
    assert CrossTerm(a0, a1, b0, b1) == a1 * b0 - a1 * b1 - a0 * b0 + a0 * b1;
    assert (a0 + X * a1) * (b0 + X * b1) == a0 * b0 + X * (a1 * b0) + X * (a0 * b1) + X * (X * (a1 * b1));
    assert X * (a1 * b0 - a1 * b1 - a0 * b0 + a0 * b1) == X * (a1 * b0) - X * (a1 * b1) - X * (a0 * b0) + X * (a0 * b1);
  }

  /** Everything that step 2 adds fits in 2n limbs. */
  lemma SumFits(X: int, a0: int, a1: int, b0: int, b1: int)
    requires 0 <= a0 < X && 0 <= a1 < X && 0 <= b0 < X && 0 <= b1 < X
    ensures 0 <= Mul(a0, b0) && 0 <= Mul(a1, b1)
    ensures 0 <= Mul(a0, b0) + X * (X * Mul(a1, b1)) + X * Mul(a1, b1) <= SumOfHalves(X, Mul(a0, b0), Mul(a1, b1)) < (X * X) * (X * X)
  {
    ProductBelow(X, a0, b0);
    ProductBelow(X, a1, b1);
    SumBound(X, a0 * b0, a1 * b1);
  }

  lemma ProductBelow(X: int, a: int, b: int)
    requires 0 <= a < X && 0 <= b < X
    ensures 0 <= a * b <= (X - 1) * (X - 1)
  {
    MulLe(0, a, b);
    MulLe(a, X - 1, b);
    MulLe(b, X - 1, X - 1);
  }

  lemma SumBound(X: int, p0: int, p2: int)
    requires X > 0 && 0 <= p0 <= (X - 1) * (X - 1) && 0 <= p2 <= (X - 1) * (X - 1)
    ensures 0 <= p0 + X * (X * p2) + X * p2 <= SumOfHalves(X, p0, p2) < (X * X) * (X * X)
  {
    var m := (X - 1) * (X - 1);
    MulLe(p2, m, X);
    MulLe(0, p2, X);
    MulLe(0, p0, X);
    MulLe(p0, m, X);
    MulLe(X * p2, X * m, X);
    MulLe(0, X * p2, X);
    SquareOfSum(X);
    MulLe(1, X, X);
  }

  lemma SquareOfSum(X: int)
    ensures (X - 1) * (X - 1) + X * (X * ((X - 1) * (X - 1))) + X * ((X - 1) * (X - 1)) + X * ((X - 1) * (X - 1))
         == (X * X) * (X * X) - 2 * (X * X) + 1
  {}

  /** The numbers of one level: what stands in the result after steps 1, 2 and 6, all of it in range. */
  lemma LevelSums(X: int, N: int, P: int, x: int, y: int, a0: int, a1: int, b0: int, b1: int, cross: int)
    requires 0 <= a0 < X && 0 <= a1 < X && 0 <= b0 < X && 0 <= b1 < X && cross == CrossTerm(a0, a1, b0, b1)
    requires N == X * X && P == N * N && x == a0 + X * a1 && y == b0 + X * b1
    ensures var p0, p2 := Mul(a0, b0), Mul(a1, b1);
      var s1 := p0 + Mul(N, p2) + Mul(X, p2);
      && 0 <= s1 < P && 0 <= s1 + Mul(X, p0) < P
      && s1 + Mul(X, p0) + Mul(X, cross) == Mul(x, y) && 0 <= Mul(x, y) < P
  {
    hide CrossTerm;
    SumFits(X, a0, a1, b0, b1);
    Identity(X, a0, a1, b0, b1);
    MulAssoc(X, X, Mul(a1, b1));
    OperandBound(X, a0, a1);
    OperandBound(X, b0, b1);
    ProductBelow(X * X, a0 + X * a1, b0 + X * b1);
    SquareBelow(X * X);
  }

  lemma OperandBound(X: int, a0: int, a1: int)
    requires 0 <= a0 < X && 0 <= a1 < X
    ensures 0 <= a0 + X * a1 < X * X
  {
    MulLe(0, a1, X);
    MulLe(a1 + 1, X, X);
    MulDist(X, a1, 1);
  }

  lemma SquareBelow(N: int)
    requires 0 < N
    ensures (N - 1) * (N - 1) < N * N
  {
    MulDist(N, N, -1);
    MulDist(N - 1, N, -1);
  }

  // -------------------------------------------------------- where it multiplies

  /** A number whose upper limbs change by v changes by B^i * v, as long as the true result fits. */
  lemma AddAtFits(B: Base, s: seq<nat>, i: nat, v: int)
    requires i <= |s| && IsLimbs(B, s) && 0 <= Val(B, s) + Mul(Pow(B, i), v) < Pow(B, |s|)
    ensures Val(B, AddAt(B, s, i, |s| - i, v)) == Val(B, s) + Mul(Pow(B, i), v)
    ensures IsLimbs(B, AddAt(B, s, i, |s| - i, v))
  {
    hide Pow, Val, Digits, IsLimbs;
    AddAtLimbs(B, s, i, |s| - i, v);
    LimbsPart(B, s, 0, i);
    AddAtUpper(B, s, i, v);
    UpperDigits(B, s[..i], s[i..], v);
  }

  lemma AddAtUpper(B: Base, s: seq<nat>, i: nat, v: int)
    requires i <= |s|
    ensures s == s[..i] + s[i..] && s[0..i] == s[..i]
    ensures AddAt(B, s, i, |s| - i, v) == s[..i] + Digits(B, |s| - i, Val(B, s[i..]) + v)
  {
    hide Val, Digits;
    assert s[i..|s|] == s[i..] && s[|s|..] == [];
  }

  lemma UpperDigits(B: Base, lo: seq<nat>, hi: seq<nat>, v: int)
    requires IsLimbs(B, lo) && 0 <= Val(B, lo + hi) + Mul(Pow(B, |lo|), v) < Pow(B, |lo + hi|)
    ensures Val(B, lo + Digits(B, |hi|, Val(B, hi) + v)) == Val(B, lo + hi) + Mul(Pow(B, |lo|), v)
  {
    hide Pow, Val, Digits, IsLimbs;
    ValMul(B, lo, hi);
    ValMul(B, lo, Digits(B, |hi|, Val(B, hi) + v));
    ValBound(B, lo);
    PowAdd(B, |lo|, |hi|);
    DigitsValue(B, |hi|, Val(B, hi) + v);
    UpperInt(Val(B, lo), Val(B, hi), v, Pow(B, |lo|), Pow(B, |hi|));
  }

  lemma UpperInt(lo: int, h: int, v: int, X: int, Y: int)
    requires 0 <= lo < X && 0 <= lo + Mul(X, h) + Mul(X, v) < X * Y
    ensures 0 <= h + v < Y && (h + v) % Y == h + v && Mul(X, h + v) == Mul(X, h) + Mul(X, v)
  {
    MulDist(X, h, v);
    UpperFits(lo, h + v, X, Y);
  }

  lemma UpperFits(lo: int, h: int, X: int, Y: int)
    requires 0 <= lo < X && 0 <= lo + X * h < X * Y
    ensures 0 <= h < Y && h % Y == h
  {
    if h < 0 { MulLe(h, -1, X); }
    if Y <= h { MulLe(Y, h, X); }
    ModSmall(h, Y);
  }

  /** One level for an even count: if the three smaller products are right, so is this one. */
  lemma LevelCorrect(B: Base, n: nat, s: seq<nat>, q: seq<nat>, a: seq<nat>, b: seq<nat>)
    requires n % 2 == 0 && |s| == 2 * n && |a| == n == |b| && |q| == n && IsLimbs(B, s) && IsLimbs(B, a) && IsLimbs(B, b)
    requires Val(B, s) == Mul(Val(B, Low(a)), Val(B, Low(b))) + Mul(Pow(B, n), Mul(Val(B, High(a)), Val(B, High(b))))
    requires Val(B, s[..n]) == Mul(Val(B, Low(a)), Val(B, Low(b))) && Val(B, s[n..]) == Mul(Val(B, High(a)), Val(B, High(b)))
    requires Mul(CrossSign(B, a, b), Val(B, q)) == CrossTerm(Val(B, Low(a)), Val(B, High(a)), Val(B, Low(b)), Val(B, High(b)))
    ensures Val(B, Finish(B, n, s, q, CrossSign(B, a, b))) == Mul(Val(B, a), Val(B, b))
  {
    hide *;
    LevelNumbers(B, n, a, b);
    FinishEven(B, n, s, q, CrossSign(B, a, b), CrossTerm(Val(B, Low(a)), Val(B, High(a)), Val(B, Low(b)), Val(B, High(b))));
  }

  lemma LevelNumbers(B: Base, n: nat, a: seq<nat>, b: seq<nat>)
    requires n % 2 == 0 && |a| == n == |b| && IsLimbs(B, a) && IsLimbs(B, b)
    ensures var X, P, p0, p2 := Pow(B, n / 2), Pow(B, 2 * n), Mul(Val(B, Low(a)), Val(B, Low(b))), Mul(Val(B, High(a)), Val(B, High(b)));
      var s1 := p0 + Mul(Pow(B, n), p2) + Mul(X, p2);
      && 0 <= s1 < P && 0 <= s1 + Mul(X, p0) < P && 0 <= Mul(Val(B, a), Val(B, b)) < P
      && s1 + Mul(X, p0) + Mul(X, CrossTerm(Val(B, Low(a)), Val(B, High(a)), Val(B, Low(b)), Val(B, High(b)))) == Mul(Val(B, a), Val(B, b))
  {
    hide *;
    var nh := n / 2;
    Halved(B, a);
    Halved(B, b);
    PowAdd(B, nh, nh);
    PowAdd(B, n, n);
    assert nh + nh == n && n + n == 2 * n;
    LevelSums(Pow(B, nh), Pow(B, n), Pow(B, 2 * n), Val(B, a), Val(B, b), Val(B, Low(a)), Val(B, High(a)), Val(B, Low(b)), Val(B, High(b)),
      CrossTerm(Val(B, Low(a)), Val(B, High(a)), Val(B, Low(b)), Val(B, High(b))));
  }

  lemma FinishEven(B: Base, n: nat, s: seq<nat>, q: seq<nat>, sign: int, v: int)
    requires n % 2 == 0 && |s| == 2 * n && |q| == n && IsLimbs(B, s) && v == Mul(sign, Val(B, q))
    requires var X, P := Pow(B, n / 2), Pow(B, 2 * n);
      var s1 := Val(B, s) + Mul(X, Val(B, s[n..]));
      var s2 := s1 + Mul(X, Val(B, s[..n]));
      0 <= s1 < P && 0 <= s2 < P && 0 <= s2 + Mul(X, v) < P
    ensures var X := Pow(B, n / 2);
      Val(B, Finish(B, n, s, q, sign)) == Val(B, s) + Mul(X, Val(B, s[n..])) + Mul(X, Val(B, s[..n])) + Mul(X, v)
  {
    hide Pow, Val, AddAt, IsLimbs, Mul;
    var nh := n / 2;
    assert q + s[n + 2 * nh..] == q;
    MulDef(sign, Val(B, q));
    AddAtFits(B, s, nh, Val(B, s[n..]));
    AddAtFits(B, AddAt(B, s, nh, n + nh, Val(B, s[n..])), nh, Val(B, s[..n]));
    AddAtFits(B, MiddleSum(B, n, s), nh, v);
  }

  /** For an even count a number is its low half plus X times its high half. */
  lemma Halved(B: Base, a: seq<nat>)
    requires |a| % 2 == 0 && IsLimbs(B, a)
    ensures IsLimbs(B, Low(a)) && IsLimbs(B, High(a)) && Val(B, Low(a)) < Pow(B, |a| / 2) && Val(B, High(a)) < Pow(B, |a| / 2)
    ensures Val(B, a) == Val(B, Low(a)) + Pow(B, |a| / 2) * Val(B, High(a))
  {
    hide Pow, Val, IsLimbs;
    LimbsPart(B, a, 0, |a| / 2);
    LimbsPart(B, a, |a| / 2, |a|);
    assert a[0..|a| / 2] == Low(a) && a[|a| / 2..|a|] == High(a) && a == Low(a) + High(a);
    ValBound(B, Low(a));
    ValBound(B, High(a));
    ValCat(B, Low(a), High(a), Pow(B, |a| / 2));
  }

  lemma HalvesAreLimbs(B: Base, a: seq<nat>)
    requires IsLimbs(B, a)
    ensures IsLimbs(B, Low(a)) && IsLimbs(B, High(a))
  {}

  /** The difference of two halves fits in their limbs. */
  lemma GapValue(B: Base, x: seq<nat>, y: seq<nat>, stale: seq<nat>)
    requires |x| == |y| == |stale| && IsLimbs(B, x) && IsLimbs(B, y)
    ensures Val(B, x) != Val(B, y) ==> Val(B, Gap(B, x, y, stale)) == Distance(Val(B, x), Val(B, y))
  {
    ValBound(B, x);
    ValBound(B, y);
    DigitsValue(B, |x|, Distance(Val(B, x), Val(B, y)));
    ModSmall(Distance(Val(B, x), Val(B, y)), Pow(B, |x|));
  }

  lemma SignedProduct(a0: int, a1: int, b0: int, b1: int, d: int, e: int, q: int)
    requires a1 != a0 ==> d == Distance(a1, a0)
    requires b0 != b1 ==> e == Distance(b0, b1)
    requires q == Mul(d, e)
    ensures Mul(Mul(Sign(a1, a0), Sign(b0, b1)), q) == CrossTerm(a0, a1, b0, b1)
  {
    assert (a0 - a1) * (b0 - b1) == -((a1 - a0) * (b0 - b1));
    assert (a1 - a0) * (b1 - b0) == -((a1 - a0) * (b0 - b1));
  }

  /** For a limb count that halves evenly the result is the product, whatever the result held before. */
  lemma {:induction false} KaraCorrect(B: Base, n: nat, r: seq<nat>, a: seq<nat>, b: seq<nat>)
    requires KaraSize(n) && |r| == 2 * n && |a| == n == |b| && IsLimbs(B, r) && IsLimbs(B, a) && IsLimbs(B, b)
    ensures Val(B, Kara(B, n, r, a, b)) == Mul(Val(B, a), Val(B, b))
    decreases n
  {
    hide Pow, Val, IsLimbs, Finish, Low, High, Gap, CrossTerm, Digits, Mul;
    if n <= CUTOFF {
      ValBound(B, a);
      ValBound(B, b);
      SmallProduct(B, n, Val(B, a), Val(B, b));
    } else {
      var nh := n / 2;
      KaraLimbs(B, n, r, a, b);
      HalvesCorrect(B, n, r, a, b);
      var s := KaraHalves(B, n, r, a, b);
      CrossCorrect(B, n, s, a, b);
      LevelCorrect(B, n, s, CrossProduct(B, n, s, a, b), a, b);
    }
  }

  lemma SmallProduct(B: Base, n: nat, x: nat, y: nat)
    requires x < Pow(B, n) && y < Pow(B, n)
    ensures Val(B, Digits(B, 2 * n, x * y)) == Mul(x, y)
  {
    hide Pow;
    PowAdd(B, n, n);
    assert n + n == 2 * n;
    ProductBelow(Pow(B, n), x, y);
    SquareBelow(Pow(B, n));
    DigitsValue(B, 2 * n, x * y);
    ModSmall(x * y, Pow(B, 2 * n));
  }

  lemma HalvesCorrect(B: Base, n: nat, r: seq<nat>, a: seq<nat>, b: seq<nat>)
    requires n > CUTOFF && KaraSize(n) && |r| == 2 * n && |a| == n == |b| && IsLimbs(B, r) && IsLimbs(B, a) && IsLimbs(B, b)
    ensures var s := KaraHalves(B, n, r, a, b);
      && Val(B, s[..n]) == Mul(Val(B, Low(a)), Val(B, Low(b))) && Val(B, s[n..]) == Mul(Val(B, High(a)), Val(B, High(b)))
      && Val(B, s) == Mul(Val(B, Low(a)), Val(B, Low(b))) + Mul(Pow(B, n), Mul(Val(B, High(a)), Val(B, High(b))))
    decreases n, 0
  {
    hide *;
    KaraSizeHalf(n);
    var nh := n / 2;
    var rl, rh := r[..2 * nh], r[n..n + 2 * nh];
    RangeLimbs(B, n, nh, r);
    HalvesAreLimbs(B, a);
    HalvesAreLimbs(B, b);
    KaraCorrect(B, nh, rl, Low(a), Low(b));
    KaraCorrect(B, nh, rh, High(a), High(b));
    HalvesJoined(B, n, nh, r, a, b, rl, rh, Kara(B, nh, rl, Low(a), Low(b)), Kara(B, nh, rh, High(a), High(b)));
  }

  lemma RangeLimbs(B: Base, n: nat, nh: nat, r: seq<nat>)
    requires nh == n / 2 && |r| == 2 * n && IsLimbs(B, r)
    ensures IsLimbs(B, r[..2 * nh]) && IsLimbs(B, r[n..n + 2 * nh])
  {}

  /** For an even count the result after step 1 is the two products side by side. */
  lemma HalvesJoined(B: Base, n: nat, nh: nat, r: seq<nat>, a: seq<nat>, b: seq<nat>, rl: seq<nat>, rh: seq<nat>, low: seq<nat>, high: seq<nat>)
    requires n > CUTOFF && n % 2 == 0 && nh == n / 2 && |r| == 2 * n && |a| == n == |b| && rl == r[..2 * nh] && rh == r[n..n + 2 * nh]
    requires low == Kara(B, nh, rl, Low(a), Low(b)) && high == Kara(B, nh, rh, High(a), High(b))
    ensures var s := KaraHalves(B, n, r, a, b);
      s[..n] == low && s[n..] == high && Val(B, s) == Val(B, low) + Mul(Pow(B, n), Val(B, high))
  {
    hide *;
    KaraHalvesIs(B, n, r, a, b);
    EvenHalves(n, r, low, high);
    ValMul(B, low, high);
  }

  lemma KaraHalvesIs(B: Base, n: nat, r: seq<nat>, a: seq<nat>, b: seq<nat>)
    requires n > CUTOFF && |r| == 2 * n && |a| == n == |b|
    ensures var nh := n / 2;
      KaraHalves(B, n, r, a, b) == Halves(n, r, Kara(B, nh, r[..2 * nh], Low(a), Low(b)), Kara(B, nh, r[n..n + 2 * nh], High(a), High(b)))
  {
    hide Kara, Halves, Gap, Low, High, Val, Digits, Sign;
  }

  lemma CrossProductIs(B: Base, n: nat, s: seq<nat>, a: seq<nat>, b: seq<nat>)
    requires n > CUTOFF && |s| == 2 * n && |a| == n == |b|
    ensures var nh := n / 2;
      CrossProduct(B, n, s, a, b) == Kara(B, nh, s[n..n + 2 * nh], Gap(B, High(a), Low(a), s[..nh]), Gap(B, Low(b), High(b), s[nh..2 * nh]))
    ensures CrossSign(B, a, b) == Mul(Sign(Val(B, High(a)), Val(B, Low(a))), Sign(Val(B, Low(b)), Val(B, High(b))))
  {
    hide Kara, Halves, Gap, Low, High, Val, Digits, Sign;
  }

  lemma KaraSizeHalf(n: nat)
    requires n > CUTOFF && KaraSize(n)
    ensures n % 2 == 0 && KaraSize(n / 2)
  {}

  lemma ValMul(B: Base, low: seq<nat>, high: seq<nat>)
    ensures Val(B, low + high) == Val(B, low) + Mul(Pow(B, |low|), Val(B, high))
  {
    ValConcat(B, low, high);
  }

  lemma EvenHalves(n: nat, r: seq<nat>, low: seq<nat>, high: seq<nat>)
    requires n % 2 == 0 && |r| == 2 * n && |low| == n == |high|
    ensures var s := Halves(n, r, low, high); s == low + high && s[..n] == low && s[n..] == high
  {}

  lemma CrossCorrect(B: Base, n: nat, s: seq<nat>, a: seq<nat>, b: seq<nat>)
    requires n > CUTOFF && KaraSize(n) && |s| == 2 * n && |a| == n == |b| && IsLimbs(B, s) && IsLimbs(B, a) && IsLimbs(B, b)
    ensures Mul(CrossSign(B, a, b), Val(B, CrossProduct(B, n, s, a, b)))
         == CrossTerm(Val(B, Low(a)), Val(B, High(a)), Val(B, Low(b)), Val(B, High(b)))
    decreases n, 0
  {
    hide *;
    KaraSizeHalf(n);
    var nh := n / 2;
    var d, e, q := Gap(B, High(a), Low(a), s[..nh]), Gap(B, Low(b), High(b), s[nh..2 * nh]), s[n..n + 2 * nh];
    CrossProductOf(B, n, nh, s, a, b, q, d, e);
    GapsRight(B, n, nh, s, a, b);
    KaraCorrect(B, nh, q, d, e);
    SignedProduct(Val(B, Low(a)), Val(B, High(a)), Val(B, Low(b)), Val(B, High(b)), Val(B, d), Val(B, e), Val(B, CrossProduct(B, n, s, a, b)));
  }

  lemma CrossProductOf(B: Base, n: nat, nh: nat, s: seq<nat>, a: seq<nat>, b: seq<nat>, q: seq<nat>, d: seq<nat>, e: seq<nat>)
    requires n > CUTOFF && nh == n / 2 && |s| == 2 * n && |a| == n == |b| && q == s[n..n + 2 * nh]
    requires d == Gap(B, High(a), Low(a), s[..nh]) && e == Gap(B, Low(b), High(b), s[nh..2 * nh])
    ensures Val(B, CrossProduct(B, n, s, a, b)) == Val(B, Kara(B, nh, q, d, e))
    ensures CrossSign(B, a, b) == Mul(Sign(Val(B, High(a)), Val(B, Low(a))), Sign(Val(B, Low(b)), Val(B, High(b))))
  {
    hide *;
    CrossProductIs(B, n, s, a, b);
  }

  /** The differences that go into the cross product. */
  lemma GapsRight(B: Base, n: nat, nh: nat, s: seq<nat>, a: seq<nat>, b: seq<nat>)
    requires nh == n / 2 && |s| == 2 * n && |a| == n == |b| && IsLimbs(B, s) && IsLimbs(B, a) && IsLimbs(B, b)
    ensures var d, e := Gap(B, High(a), Low(a), s[..nh]), Gap(B, Low(b), High(b), s[nh..2 * nh]);
      && IsLimbs(B, d) && IsLimbs(B, e) && IsLimbs(B, s[n..n + 2 * nh])
      && (Val(B, High(a)) != Val(B, Low(a)) ==> Val(B, d) == Distance(Val(B, High(a)), Val(B, Low(a))))
      && (Val(B, Low(b)) != Val(B, High(b)) ==> Val(B, e) == Distance(Val(B, Low(b)), Val(B, High(b))))
  {
    hide *;
    LimbsPart(B, s, 0, nh);
    LimbsPart(B, s, nh, 2 * nh);
    LimbsPart(B, s, n, n + 2 * nh);
    assert s[0..nh] == s[..nh];
    HalvesAreLimbs(B, a);
    HalvesAreLimbs(B, b);
    GapLimbs(B, High(a), Low(a), s[..nh]);
    GapLimbs(B, Low(b), High(b), s[nh..2 * nh]);
    GapValue(B, High(a), Low(a), s[..nh]);
    GapValue(B, Low(b), High(b), s[nh..2 * nh]);
  }

  // ------------------------------------------------- where it does not multiply

  lemma AddAtZero(B: Base, s: seq<nat>, i: nat, count: nat)
    requires i + count <= |s| && Zeros(s)
    ensures Zeros(AddAt(B, s, i, count, 0))
  {
    ZerosValue(B, s[i..i + count]);
    DigitsOfZero(B, count);
  }

  /** Zeroed halves stay zero when nothing is added to them. */
  lemma FinishZero(B: Base, n: nat, s: seq<nat>, q: seq<nat>, sign: int)
    requires |s| == 2 * n && |q| == 2 * (n / 2) && Zeros(s) && (sign == 0 || Zeros(q))
    ensures Zeros(Finish(B, n, s, q, sign))
  {
    hide AddAt;
    var nh := n / 2;
    ZerosValue(B, s[..n]);
    ZerosValue(B, s[n..]);
    AddAtZero(B, s, nh, n + nh);
    AddAtZero(B, AddAt(B, s, nh, n + nh, 0), nh, n + nh);
    var t2 := q + s[n + 2 * nh..];
    if sign != 0 { ZerosValue(B, t2); }
    AddAtZero(B, MiddleSum(B, n, s), nh, n + nh);
  }

  lemma ZeroGap(B: Base, x: seq<nat>, y: seq<nat>, stale: seq<nat>)
    requires |x| == |y| == |stale| && Zeros(x) && Zeros(y)
    ensures Gap(B, x, y, stale) == stale && Sign(Val(B, x), Val(B, y)) == 0 == Sign(Val(B, y), Val(B, x))
  {
    ZerosValue(B, x);
    ZerosValue(B, y);
  }

  lemma HalvesStayZero(n: nat, r: seq<nat>, low: seq<nat>, high: seq<nat>)
    requires |r| == 2 * n && |low| == |high| == 2 * (n / 2) && Zeros(r) && Zeros(low) && Zeros(high)
    ensures Zeros(Halves(n, r, low, high))
  {}

  /** A zero operand leaves a zeroed result zero, for every limb count. */
  lemma {:induction false} KaraZero(B: Base, n: nat, r: seq<nat>, a: seq<nat>, b: seq<nat>)
    requires |r| == 2 * n && |a| == n == |b| && Zeros(r) && (Zeros(a) || Zeros(b))
    ensures Zeros(Kara(B, n, r, a, b))
    decreases n, 1
  {
    hide Finish, Halves, Gap, Digits, Sign;
    if n <= CUTOFF {
      if Zeros(a) { ZerosValue(B, a); } else { ZerosValue(B, b); }
      assert Val(B, a) * Val(B, b) == 0;
      DigitsOfZero(B, 2 * n);
    } else {
      KaraNothing(B, n, r, a, b);
    }
  }

  /** If one operand is zero in both halves, whatever the top limb of an odd count, the result stays zero. */
  lemma KaraNothing(B: Base, n: nat, r: seq<nat>, a: seq<nat>, b: seq<nat>)
    requires n > CUTOFF && |r| == 2 * n && |a| == n == |b| && Zeros(r)
    requires (Zeros(Low(a)) && Zeros(High(a))) || (Zeros(Low(b)) && Zeros(High(b)))
    ensures Zeros(Kara(B, n, r, a, b))
    decreases n, 0
  {
    hide Finish, Halves, Gap, Digits, Sign, Low, High, Val;
    var nh := n / 2;
    KaraZero(B, nh, r[..2 * nh], Low(a), Low(b));
    KaraZero(B, nh, r[n..n + 2 * nh], High(a), High(b));
    HalvesStayZero(n, r, Kara(B, nh, r[..2 * nh], Low(a), Low(b)), Kara(B, nh, r[n..n + 2 * nh], High(a), High(b)));
    var s := KaraHalves(B, n, r, a, b);
    if Zeros(Low(a)) && Zeros(High(a)) {
      ZeroGap(B, High(a), Low(a), s[..nh]);
    } else {
      ZeroGap(B, Low(b), High(b), s[nh..2 * nh]);
    }
    FinishZero(B, n, s, CrossProduct(B, n, s, a, b), CrossSign(B, a, b));
  }

  /** Where the halving meets an odd count above 48 the highest limb is lost: B^(n-1) times 1 leaves zero. */
  lemma {:induction false} KaraLost(B: Base, n: nat, r: seq<nat>, a: seq<nat>, b: seq<nat>)
    requires !KaraSize(n) && |r| == 2 * n && |a| == n == |b| && Zeros(r) && Unit(a, n - 1) && Unit(b, 0)
    ensures Zeros(Kara(B, n, r, a, b))
    decreases n, 1
  {
    hide Finish, Halves, Gap, Digits, Kara, Val;
    if n % 2 == 1 {
      KaraNothing(B, n, r, a, b);
    } else {
      LostEven(B, n, r, a, b);
    }
  }

  lemma LostEven(B: Base, n: nat, r: seq<nat>, a: seq<nat>, b: seq<nat>)
    requires !KaraSize(n) && n % 2 == 0 && |r| == 2 * n && |a| == n == |b| && Zeros(r) && Unit(a, n - 1) && Unit(b, 0)
    ensures Zeros(Kara(B, n, r, a, b))
    decreases n, 0
  {
    hide Finish, Halves, Gap, Digits, Val, Low, High, Sign;
    var nh := n / 2;
    UnitHalves(a, n - 1);
    UnitHalves(b, 0);
    ZerosPart(r, 0, 2 * nh);
    ZerosPart(r, n, n + 2 * nh);
    KaraZero(B, nh, r[..2 * nh], Low(a), Low(b));
    KaraZero(B, nh, r[n..n + 2 * nh], High(a), High(b));
    HalvesStayZero(n, r, Kara(B, nh, r[..2 * nh], Low(a), Low(b)), Kara(B, nh, r[n..n + 2 * nh], High(a), High(b)));
    var s := KaraHalves(B, n, r, a, b);
    ZerosPart(s, n, n + 2 * nh);
    GapToZero(B, High(a), Low(a), s[..nh], nh - 1);
    GapToZero(B, Low(b), High(b), s[nh..2 * nh], 0);
    KaraLost(B, nh, s[n..n + 2 * nh], High(a), Low(b));
    FinishZero(B, n, s, CrossProduct(B, n, s, a, b), CrossSign(B, a, b));
  }

  lemma ZerosPart(s: seq<nat>, i: nat, j: nat)
    requires i <= j <= |s| && Zeros(s)
    ensures Zeros(s[i..j])
  {}

  lemma UnitHalves(s: seq<nat>, k: nat)
    requires |s| % 2 == 0 && Unit(s, k)
    ensures k < |s| / 2 ==> Unit(Low(s), k) && Zeros(High(s))
    ensures |s| / 2 <= k ==> Zeros(Low(s)) && Unit(High(s), k - |s| / 2)
  {}

  lemma GapToZero(B: Base, x: seq<nat>, y: seq<nat>, stale: seq<nat>, k: nat)
    requires |x| == |y| == |stale| && Unit(x, k) && Zeros(y)
    ensures Gap(B, x, y, stale) == x
  {
    UnitValue(B, x, k);
    PowPos(B, k);
    ZerosValue(B, y);
    DigitsOfValue(B, x);
  }

  // ------------------------------------------------------------ the exact condition

  ghost predicate Multiplies(B: Base, n: nat) {
    forall a: seq<nat>, b: seq<nat> :: |a| == n == |b| && IsLimbs(B, a) && IsLimbs(B, b) ==>
      Val(B, KaraProduct(B, n, a, b)) == Val(B, a) * Val(B, b)
  }

  /** The same of the n low limbs, which are what the class keeps. */
  ghost predicate MultipliesLow(B: Base, n: nat) {
    PowPos(B, n);
    forall a: seq<nat>, b: seq<nat> :: |a| == n == |b| && IsLimbs(B, a) && IsLimbs(B, b) ==>
      Val(B, KaraProduct(B, n, a, b)[..n]) == (Val(B, a) * Val(B, b)) % Pow(B, n)
  }

  function UnitLimbs(n: nat, k: nat): (s: seq<nat>)
    requires k < n
    ensures |s| == n && Unit(s, k)
  {
    seq(n, i => if i == k then 1 else 0)
  }

  /** The operands that a count outside the condition gets wrong. */
  lemma LostProduct(B: Base, n: nat)
    requires !KaraSize(n)
    ensures var a, b := UnitLimbs(n, n - 1), UnitLimbs(n, 0);
      && IsLimbs(B, a) && IsLimbs(B, b) && Val(B, a) * Val(B, b) == Pow(B, n - 1)
      && Zeros(KaraProduct(B, n, a, b)) && 0 < Pow(B, n - 1) < Pow(B, n)
  {
    hide Kara;
    var a, b := UnitLimbs(n, n - 1), UnitLimbs(n, 0);
    UnitValue(B, a, n - 1);
    UnitValue(B, b, 0);
    KaraLost(B, n, ZeroLimbs(2 * n), a, b);
    PowPos(B, n - 1);
    PowSucc(B, n - 1);
    MulLe(2, B, Pow(B, n - 1));
  }

  /** The procedure multiplies all operands of n limbs if and only if n halves evenly down to 48. */
  lemma MultipliesExactly(B: Base, n: nat)
    ensures Multiplies(B, n) <==> KaraSize(n)
    ensures MultipliesLow(B, n) <==> KaraSize(n)
  {
    hide Kara, KaraSize, Pow, Val;
    PowPos(B, n);
    if KaraSize(n) {
      forall a: seq<nat>, b: seq<nat> | |a| == n == |b| && IsLimbs(B, a) && IsLimbs(B, b)
        ensures Val(B, KaraProduct(B, n, a, b)) == Val(B, a) * Val(B, b)
        ensures Val(B, KaraProduct(B, n, a, b)[..n]) == (Val(B, a) * Val(B, b)) % Pow(B, n)
      {
        KaraCorrect(B, n, ZeroLimbs(2 * n), a, b);
        KaraLimbs(B, n, ZeroLimbs(2 * n), a, b);
        ValDivMod(B, KaraProduct(B, n, a, b), n);
      }
    } else {
      LostProduct(B, n);
      var a, b := UnitLimbs(n, n - 1), UnitLimbs(n, 0);
      var z := KaraProduct(B, n, a, b);
      ZerosValue(B, z);
      ZerosValue(B, z[..n]);
      ModSmall(Pow(B, n - 1), Pow(B, n));
    }
  }

  /** A width that the class admits and that brings 196 limbs of 32 bits: 49 * 2^7 bits. */
  lemma Lost196(B: Base)
    ensures 6272 == 49 * Pow(2, 7) == 32 * 196 && !KaraSize(196) && !Multiplies(B, 196)
    ensures var a, b := UnitLimbs(196, 195), UnitLimbs(196, 0);
      Val(B, a) * Val(B, b) == Pow(B, 195) && Zeros(KaraProduct(B, 196, a, b))
  {
    hide Kara;
    assert !KaraSize(49) && !KaraSize(98);
    MultipliesExactly(B, 196);
    LostProduct(B, 196);
  }
}
