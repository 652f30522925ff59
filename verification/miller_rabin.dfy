/** The Miller-Rabin primality test: whatever the bases, it accepts every prime that passes the screening
    divisions, which is every prime when the number type holds the screening constants. */
module MillerRabin {
  import opened Limbs
  import opened NumberTheory
  import opened Modular
  import opened TwosComplement

  // ---------------------------------------------------------- small primes

  /** The odd primes up to 227, in the rows of the source's table. */
  const ROW0: seq<nat> := [3, 5, 7, 11, 13, 17, 19, 23]
  const ROW1: seq<nat> := [29, 31, 37, 41, 43, 47, 53, 59]
  const ROW2: seq<nat> := [61, 67, 71, 73, 79, 83, 89, 97]
  const ROW3: seq<nat> := [101, 103, 107, 109, 113, 127, 131, 137]
  const ROW4: seq<nat> := [139, 149, 151, 157, 163, 167, 173, 179]
  const ROW5: seq<nat> := [181, 191, 193, 197, 199, 211, 223, 227]
  const SMALL_PRIMES: seq<nat> := ROW0 + ROW1 + ROW2 + ROW3 + ROW4 + ROW5

  predicate Sorted(s: seq<nat>) { forall i, j :: 0 <= i < j < |s| ==> s[i] < s[j] }

  lemma SortedConcat(s: seq<nat>, t: seq<nat>)
    requires Sorted(s) && Sorted(t) && (0 < |s| && 0 < |t| ==> s[|s| - 1] < t[0])
    ensures Sorted(s + t)
  {}

  lemma SortedRows()
    ensures Sorted(SMALL_PRIMES)
  {
    SortedConcat(ROW0, ROW1);
    SortedConcat(ROW0 + ROW1, ROW2);
    SortedConcat(ROW0 + ROW1 + ROW2, ROW3);
    SortedConcat(ROW0 + ROW1 + ROW2 + ROW3, ROW4);
    SortedConcat(ROW0 + ROW1 + ROW2 + ROW3 + ROW4, ROW5);
  }

  /** Binary search in a sorted table. */
  method BinarySearch(table: seq<nat>, value: nat) returns (found: bool)
    requires Sorted(table)
    ensures found <==> value in table
  {
    var first, count := 0, |table|;
    while count > 0
      invariant 0 <= first && 0 <= count && first + count <= |table|
      invariant forall i :: 0 <= i < first ==> table[i] < value
      invariant forall i :: first + count <= i < |table| ==> value <= table[i]
    {
      var step := count / 2;
      if table[first + step] < value {
        first := first + step + 1;
        count := count - (step + 1);
      } else {
        count := step;
      }
    }
    found := first != |table| && !(value < table[first]);
  }

  /** Some number from 2 to d - 1 whose square is at most n divides n. */
  predicate HasFactorBelow(n: nat, d: nat)
  {
    d > 2 && (((d - 1) * (d - 1) <= n && n % (d - 1) == 0) || HasFactorBelow(n, d - 1))
  }

  lemma {:induction false} FactorBelow(n: nat, d: nat)
    ensures HasFactorBelow(n, d) <==> exists e: nat :: 2 <= e < d && e * e <= n && n % e == 0
  {
    if d > 2 { FactorBelow(n, d - 1); }
  }

  /** Trial division decides primality. */
  lemma TrialDivision(n: nat, d: nat)
    requires 2 <= n < d * d
    ensures IsPrime(n) <==> !HasFactorBelow(n, d)
  {
    FactorBelow(n, d);
    if e: nat :| 2 <= e < d && e * e <= n && n % e == 0 {
      MulLe(2, e, e);
      assert Divides(e, n) && e != 1 && e != n;
    } else {
      forall e: nat | 1 <= e && Divides(e, n) ensures e == 1 || e == n {
        var k := DividesFactor(e, n);
        if e != 1 && e != n { SmallerFactor(n, d, e, k); }
      }
    }
  }

  lemma SmallerFactor(n: nat, d: nat, e: nat, k: int)
    requires 2 <= n < d * d && n == e * k && e != 1 && e != n && 0 < e
    ensures exists f: nat :: 2 <= f < d && f * f <= n && n % f == 0
  {
    if k <= 1 { MulLe(k, 1, e); if k <= 0 { MulLe(k, 0, e); } }
    var f: nat := if e <= k then e else k;
    MulLe(f, if e <= k then k else e, f);
    if d <= f { MulLe(d, f, d); MulLe(d, f, f); }
    FactorDivides(e, k);
    FactorDivides(k, e);
    assert 2 <= f < d && f * f <= n && n % f == 0;
  }

  /** Below 17 squared the prime factors up to 13 decide primality. */
  predicate NoSmallFactor(n: nat) {
    && n % 2 == 1 && (n == 3 || n % 3 != 0) && (n == 5 || n % 5 != 0) && (n == 7 || n % 7 != 0)
    && (n == 11 || n % 11 != 0) && (n == 13 || n % 13 != 0)
  }

  /** Every factor below 16 brings one of these primes with it. */
  lemma FactorFound(n: nat, e: nat)
    requires 2 <= e < 16 && e * e <= n && n % e == 0
    ensures !NoSmallFactor(n)
  {
    var p := if e % 2 == 0 then 2 else if e % 3 == 0 then 3 else e;
    MulLe(2, e, e);
    DividesTrans(p, e, n);
  }

  lemma PrimeNoSmallFactor(n: nat)
    requires 3 <= n && IsPrime(n)
    ensures NoSmallFactor(n)
  {
    assert Divides(2, n) <==> n % 2 == 0;
    assert Divides(3, n) <==> n % 3 == 0;
    assert Divides(5, n) <==> n % 5 == 0;
    assert Divides(7, n) <==> n % 7 == 0;
    assert Divides(11, n) <==> n % 11 == 0;
    assert Divides(13, n) <==> n % 13 == 0;
  }

  lemma SmallPrimality(n: nat)
    requires 3 <= n < 256
    ensures IsPrime(n) <==> NoSmallFactor(n)
  {
    TrialDivision(n, 16);
    FactorBelow(n, 16);
    if IsPrime(n) { PrimeNoSmallFactor(n); }
    if e: nat :| 2 <= e < 16 && e * e <= n && n % e == 0 { FactorFound(n, e); }
  }

  /** A number above 5 without the factors 2, 3 and 5 has one of eight remainders modulo 30. */
  lemma Wheel(n: nat)
    requires 5 < n && NoSmallFactor(n)
    ensures n == 30 * (n / 30) + n % 30
    ensures n % 30 in {1, 7, 11, 13, 17, 19, 23, 29}
  {
    var q, r := n / 30, n % 30;
    ModAddMultiple(r, 15 * q, 2);
    ModAddMultiple(r, 10 * q, 3);
    ModAddMultiple(r, 6 * q, 5);
  }

  lemma Row0Exact(n: nat)
    ensures 2 < n <= 23 ==> (n in ROW0 <==> NoSmallFactor(n))
    ensures n in ROW0 ==> 2 < n <= 23
  {
    if 5 < n && NoSmallFactor(n) { Wheel(n); }
  }

  lemma Row1Exact(n: nat)
    ensures 23 < n <= 59 ==> (n in ROW1 <==> NoSmallFactor(n))
    ensures n in ROW1 ==> 23 < n <= 59
  {
    if 5 < n && NoSmallFactor(n) { Wheel(n); }
  }

  lemma Row2Exact(n: nat)
    ensures 59 < n <= 97 ==> (n in ROW2 <==> NoSmallFactor(n))
    ensures n in ROW2 ==> 59 < n <= 97
  {
    if 5 < n && NoSmallFactor(n) { Wheel(n); }
  }

  lemma Row3Exact(n: nat)
    ensures 97 < n <= 137 ==> (n in ROW3 <==> NoSmallFactor(n))
    ensures n in ROW3 ==> 97 < n <= 137
  {
    if 5 < n && NoSmallFactor(n) { Wheel(n); }
  }

  lemma Row4Exact(n: nat)
    ensures 137 < n <= 179 ==> (n in ROW4 <==> NoSmallFactor(n))
    ensures n in ROW4 ==> 137 < n <= 179
  {
    if 5 < n && NoSmallFactor(n) { Wheel(n); }
  }

  lemma Row5Exact(n: nat)
    ensures 179 < n <= 227 ==> (n in ROW5 <==> NoSmallFactor(n))
    ensures n in ROW5 ==> 179 < n <= 227
  {
    if 5 < n && NoSmallFactor(n) { Wheel(n); }
  }

  /** The table holds exactly the odd primes up to 227. */
  lemma TableIsExact(n: nat)
    requires 3 <= n <= 227
    ensures n in SMALL_PRIMES <==> IsPrime(n)
  {
    SmallPrimality(n);
    InRows(n);
    Row0Exact(n);
    Row1Exact(n);
    Row2Exact(n);
    Row3Exact(n);
    Row4Exact(n);
    Row5Exact(n);
  }

  lemma InRows(n: nat)
    ensures n in SMALL_PRIMES <==> n in ROW0 || n in ROW1 || n in ROW2 || n in ROW3 || n in ROW4 || n in ROW5
  {}

  // ---------------------------------------------------------- factor screens

  /** The products of the odd primes up to 53, 101, 149, 191 and 227. */
  const SCREEN0: nat := 16294579238595022365
  const SCREEN1: nat := 7145393598349078859
  const SCREEN2: nat := 6408001374760705163
  const SCREEN3: nat := 690862709424854779
  const SCREEN4: nat := 80814592450549

  function Product(s: seq<nat>): nat { if |s| == 0 then 1 else s[0] * Product(s[1..]) }

  lemma {:induction false} ProductConcat(s: seq<nat>, t: seq<nat>)
    ensures Product(s + t) == Product(s) * Product(t)
  {
    if |s| == 0 {
      assert s + t == t;
    } else {
      ProductConcat(s[1..], t);
      assert (s + t)[1..] == s[1..] + t;
      MulAssoc(s[0], Product(s[1..]), Product(t));
    }
  }

  const GROUP0: seq<nat> := ROW0 + ROW1[..7]
  const GROUP1: seq<nat> := ROW1[7..] + ROW2 + ROW3[..1]
  const GROUP2: seq<nat> := ROW3[1..] + ROW4[..2]
  const GROUP3: seq<nat> := ROW4[2..] + ROW5[..2]
  const GROUP4: seq<nat> := ROW5[2..]

  lemma ScreenProducts()
    ensures Product(GROUP0) == SCREEN0
    ensures Product(GROUP1) == SCREEN1
    ensures Product(GROUP2) == SCREEN2
    ensures Product(GROUP3) == SCREEN3
    ensures Product(GROUP4) == SCREEN4
  {
    Screen0();
    Screen1();
    Screen2();
    Screen3();
    assert ROW5[2..] == [193, 197, 199, 211, 223, 227] && Product([193, 197, 199, 211, 223, 227]) == 80814592450549;
  }

  lemma Screen0()
    ensures Product(GROUP0) == SCREEN0
  {
    ProductConcat(ROW0, ROW1[..7]);
    assert ROW1[..7] == [29, 31, 37, 41, 43, 47, 53] && Product([29, 31, 37, 41, 43, 47, 53]) == 146078888479;
  }

  lemma Screen1()
    ensures Product(GROUP1) == SCREEN1
  {
    ProductConcat(ROW1[7..], ROW2);
    ProductConcat(ROW1[7..] + ROW2, ROW3[..1]);
    assert ROW1[7..] == [59] && ROW3[..1] == [101];
  }

  lemma Screen2()
    ensures Product(GROUP2) == SCREEN2
  {
    ProductConcat(ROW3[1..], ROW4[..2]);
    assert ROW3[1..] == [103, 107, 109, 113, 127, 131, 137] && Product([103, 107, 109, 113, 127, 131, 137]) == 309400867884733 && ROW4[..2] == [139, 149] && Product([139, 149]) == 20711;
  }

  lemma Screen3()
    ensures Product(GROUP3) == SCREEN3
  {
    ProductConcat(ROW4[2..], ROW5[..2]);
    assert ROW4[2..] == [151, 157, 163, 167, 173, 179] && Product([151, 157, 163, 167, 173, 179]) == 19983879824849 && ROW5[..2] == [181, 191] && Product([181, 191]) == 34571;
  }

  /** A prime above all the factors does not divide their product. */
  lemma {:induction false} PrimeSkips(n: nat, s: seq<nat>)
    requires IsPrime(n) && forall i :: 0 <= i < |s| ==> 0 < s[i] < n
    ensures !Divides(n, Product(s)) && 0 < Product(s)
  {
    if |s| == 0 {
      ModSmall(1, n);
    } else {
      PrimeSkips(n, s[1..]);
      ModSmall(s[0], n);
      MulPos(s[0], Product(s[1..]));
      if Divides(n, s[0] * Product(s[1..])) { Euclid(n, s[0], Product(s[1..])); }
    }
  }

  /** Each factor divides the product. */
  lemma {:induction false} FactorInProduct(s: seq<nat>, i: nat)
    requires i < |s| && 0 < s[i]
    ensures Divides(s[i], Product(s))
  {
    if i == 0 {
      FactorDivides(s[0], Product(s[1..]));
    } else {
      FactorInProduct(s[1..], i - 1);
      DividesMultiple(s[i], Product(s[1..]), s[0]);
    }
  }

  /** The modulus of a screen: the constant as a number of W bits, without its sign.  In a type that cannot
      hold the constant it is another number. */
  function ScreenModulus(W: nat, signed: bool, pp: nat): nat {
    PowPos(2, W);
    Abs(Number(Pow(2, W), Wrap(Pow(2, W), pp), signed))
  }

  /** Reducing by it is what the remainder of the type does with the constant as the type reads it. */
  lemma ScreenRemainder(W: nat, signed: bool, n: nat, pp: nat)
    requires Pow(2, W) > 0 && Number(Pow(2, W), Wrap(Pow(2, W), pp), signed) != 0
    ensures ScreenModulus(W, signed, pp) > 0
    ensures TruncMod(n, Number(Pow(2, W), Wrap(Pow(2, W), pp), signed)) == n % ScreenModulus(W, signed, pp)
  {
    hide Pow, Number, Wrap;
    TruncModSign(n, Number(Pow(2, W), Wrap(Pow(2, W), pp), signed));
  }

  /** What a screen lets pass. */
  predicate Passes(W: nat, signed: bool, n: nat, pp: nat) {
    var c := ScreenModulus(W, signed, pp);
    c != 0 && n % c != 0 && (DivModSplit(n, c); Gcd(n % c, pp) == 1)
  }

  predicate PassesAll(W: nat, signed: bool, n: nat) {
    && Passes(W, signed, n, SCREEN0) && Passes(W, signed, n, SCREEN1) && Passes(W, signed, n, SCREEN2)
    && Passes(W, signed, n, SCREEN3) && Passes(W, signed, n, SCREEN4)
  }

  /** In a type that holds the constant, a screen lets pass exactly what is coprime to it. */
  lemma ExactScreen(W: nat, signed: bool, n: nat, pp: nat)
    requires 0 < W && 1 < pp && Holds(Pow(2, W), signed, pp)
    ensures ScreenModulus(W, signed, pp) == pp
    ensures Passes(W, signed, n, pp) <==> Gcd(n, pp) == 1
  {
    hide Gcd, Pow, Wrap, Number;
    PowPos(2, W);
    PowSucc(2, W - 1);
    WrapNumber(Pow(2, W), pp, signed);
    DivModSplit(n, pp);
    GcdMod(n, pp);
    GcdZero(pp);
  }

  lemma PrimePasses(W: nat, signed: bool, n: nat, s: seq<nat>)
    requires 0 < W && 1 < Product(s) && Holds(Pow(2, W), signed, Product(s))
    requires IsPrime(n) && forall i :: 0 <= i < |s| ==> 0 < s[i] < n
    ensures Passes(W, signed, n, Product(s))
  {
    ExactScreen(W, signed, n, Product(s));
    PrimeSkips(n, s);
    PrimeCoprime(n, Product(s));
  }

  /** A type that holds the largest constant holds them all, and the screens let every larger prime pass. */
  lemma PrimePassesAll(W: nat, signed: bool, n: nat)
    requires 0 < W && Holds(Pow(2, W), signed, SCREEN0) && IsPrime(n) && 227 < n
    ensures PassesAll(W, signed, n)
  {
    ScreenProducts();
    GroupBounds();
    hide Product, Passes, Holds, IsPrime;
    HoldsLess(Pow(2, W), signed);
    PrimePasses(W, signed, n, GROUP0);
    PrimePasses(W, signed, n, GROUP1);
    PrimePasses(W, signed, n, GROUP2);
    PrimePasses(W, signed, n, GROUP3);
    PrimePasses(W, signed, n, GROUP4);
  }

  lemma HoldsLess(M: nat, signed: bool)
    requires Holds(M, signed, SCREEN0)
    ensures Holds(M, signed, SCREEN1) && Holds(M, signed, SCREEN2) && Holds(M, signed, SCREEN3) && Holds(M, signed, SCREEN4)
  {}

  predicate UpTo227(s: seq<nat>) { forall i :: 0 <= i < |s| ==> 0 < s[i] < 228 }

  lemma GroupBounds()
    ensures UpTo227(GROUP0) && UpTo227(GROUP1) && UpTo227(GROUP2) && UpTo227(GROUP3) && UpTo227(GROUP4)
  {}

  // ------------------------------------------------------------ the trials

  /** base^(q * 2^j) modulo n. */
  function Residue(n: nat, base: nat, q: nat, j: nat): (r: nat)
    requires 0 < n
    ensures r < n
  {
    DivModSplit(Pow(base, q * Pow(2, j)), n);
    Pow(base, q * Pow(2, j)) % n
  }

  /** The next residue is the square of the last. */
  lemma NextResidue(n: nat, base: nat, q: nat, j: nat)
    requires 0 < n
    ensures var y := Residue(n, base, q, j); Residue(n, base, q, j + 1) == (y * y) % n
  {
    var e := q * Pow(2, j);
    assert q * Pow(2, j + 1) == 2 * e by { MulAssoc(2, q, Pow(2, j)); MulAssoc(q, 2, Pow(2, j)); }
    PowAdd(base, e, e);
    var x := Pow(base, e);
    ModMul(x, x, n);
    ModMul(x % n, x, n);
  }

  /** One stays one. */
  lemma {:induction false} OneStays(n: nat, base: nat, q: nat, i: nat, j: nat)
    requires 1 < n && i <= j && Residue(n, base, q, i) == 1
    ensures Residue(n, base, q, j) == 1
  {
    if i < j {
      OneStays(n, base, q, i, j - 1);
      NextResidue(n, base, q, j - 1);
      ModSmall(1, n);
    }
  }

  /** n is a strong probable prime to the base: the first residue is 1, or one of the k residues is -1. */
  ghost predicate StrongProbablePrime(n: nat, base: nat, q: nat, k: nat)
    requires 0 < n
  {
    Residue(n, base, q, 0) == 1 || exists j: nat :: j < k && Residue(n, base, q, j) == n - 1
  }

  /** The residues of a prime end in 1, and going back from there the first that is not 1 is -1. */
  lemma {:induction false} PrimeIsStrong(n: nat, base: nat, q: nat, k: nat)
    requires IsPrime(n) && Residue(n, base, q, k) == 1
    ensures StrongProbablePrime(n, base, q, k)
  {
    if k > 0 {
      NextResidue(n, base, q, k - 1);
      SquareRootsOfOne(n, Residue(n, base, q, k - 1));
      if Residue(n, base, q, k - 1) == 1 {
        PrimeIsStrong(n, base, q, k - 1);
      }
    }
  }

  /** One trial: squaring from base^q on, k times. */
  method Trial(W: nat, n: nat, base: nat, q: nat, k: nat) returns (passes: bool)
    requires 2 < n < Pow(2, W) && base < n && 0 < k
    ensures passes <==> StrongProbablePrime(n, base, q, k)
  {
    hide Pow, Residue;
    ResidueZero(n, base, q);
    var y := Powm(W, base, q, n);
    passes := true;
    for j := 0 to k
      invariant passes && j < k && y == Residue(n, base, q, j)
      invariant forall i :: 0 <= i < j ==> Residue(n, base, q, i) != n - 1 && Residue(n, base, q, i) != 1
    {
      if y == n - 1 {
        break;
      }
      if y == 1 {
        if j != 0 {
          passes := false;
          NoneLater(n, base, q, j, k);
        }
        break;
      }
      NextResidue(n, base, q, j);
      PowPos(2, 2 * W);
      DoubleWidth(W, y, y);
      y := Wrap(Pow(2, 2 * W), y * y) % n;
      if j + 1 == k {
        passes := false;
        break;
      }
    }
  }

  lemma ResidueZero(n: nat, base: nat, q: nat)
    requires 0 < n
    ensures Residue(n, base, q, 0) == Pow(base, q) % n
  {
    assert q * Pow(2, 0) == q;
  }

  /** After a residue of 1 none is -1. */
  lemma NoneLater(n: nat, base: nat, q: nat, j: nat, k: nat)
    requires 2 < n && Residue(n, base, q, j) == 1
    ensures forall i: nat :: j <= i < k ==> Residue(n, base, q, i) != n - 1
  {
    forall i: nat | j <= i < k ensures Residue(n, base, q, i) != n - 1 { OneStays(n, base, q, j, i); }
  }

  /** n - 1 as an odd number times a power of two. */
  ghost predicate Splits(n: nat, q: nat, k: nat) {
    0 < n && OddPart(n - 1, q, k)
  }

  /** What the test lets pass: the factor screens, Fermat's test to the base 228, and every trial. */
  ghost predicate Accepts(W: nat, signed: bool, n: nat, bases: seq<nat>)
    requires 2 < n
  {
    && PassesAll(W, signed, n) && Pow(228, n - 1) % n == 1
    && forall q: nat, k: nat :: Splits(n, q, k) ==> AllStrong(n, bases, q, k)
  }

  /** n is a strong probable prime to the base, over powers alone: base^(n-1) is 1, and with n - 1 == q * 2^k and q odd
      base^q is 1 or one of base^(q * 2^j), j < k, is -1, all modulo n. */
  ghost predicate StrongTo(n: nat, base: nat)
    requires 0 < n
  {
    && Pow(base, n - 1) % n == 1
    && forall k: nat :: Pow(2, k) > 0 && (n - 1) % Pow(2, k) == 0 && ((n - 1) / Pow(2, k)) % 2 == 1 ==>
      0 <= (n - 1) / Pow(2, k) && StrongAt(n, base, (n - 1) / Pow(2, k), k)
  }

  ghost predicate StrongAt(n: nat, base: nat, q: nat, k: nat)
    requires 0 < n
  {
    Pow(base, q) % n == 1 || exists j: nat :: j < k && Pow(base, q * Pow(2, j)) % n == n - 1
  }

  /** The test is exact up to 227.  Above, what it accepts is odd, passes the screens, and is a strong probable prime to
      228 as far as Fermat's test goes and to every base; so none of the bases divides it, and with all bases from 2 to
      |n| - 2, in a type that holds the screening constants, the test decides primality. */
  method MillerRabin(W: nat, signed: bool, n: int, bases: seq<nat>) returns (result: bool)
    requires 16 <= W && Holds(Pow(2, W), signed, n)
    requires 227 < Abs(n) ==> forall i :: 0 <= i < |bases| ==> 2 <= bases[i] <= Abs(n) - 2
    ensures Abs(n) <= 227 ==> (result <==> IsPrime(Abs(n)))
    ensures 227 < Abs(n) ==> (result <==> Abs(n) % 2 == 1 && Accepts(W, signed, Abs(n), bases))
    ensures 227 < Abs(n) ==> (result <==>
      Abs(n) % 2 == 1 && PassesAll(W, signed, Abs(n)) && Pow(228, Abs(n) - 1) % Abs(n) == 1
      && forall i :: 0 <= i < |bases| ==> StrongTo(Abs(n), bases[i]))
    ensures 227 < Abs(n) && result ==> forall i :: 0 <= i < |bases| ==> !Divides(bases[i], Abs(n))
    ensures 227 < Abs(n) && Holds(Pow(2, W), signed, SCREEN0) && (forall b: nat :: 2 <= b <= Abs(n) - 2 ==> b in bases) ==>
      (result <==> IsPrime(Abs(n)))
  {
    hide Pow, AllStrong, PassesAll, Passes, OddPart, StoredMagnitude, Accepts, StrongTo, Holds;
    if 227 < Abs(n) {
      AcceptanceMeans(W, signed, Abs(n), bases);
      AcceptsNeeds(W, signed, Abs(n), bases);
    }
    var magnitude := StoredMagnitude(W, signed, n);
    MagnitudeOrSmallest(W, signed, n);
    if magnitude % 2 == 0 {
      EvenPrime(Abs(n));
      return magnitude == 2;
    }
    var np: nat := magnitude;
    Width(W, np, signed);
    if np <= 227 {
      if np == 1 {
        return false;
      }
      TableIsExact(np);
      SortedRows();
      result := BinarySearch(SMALL_PRIMES, np);
      return;
    }
    var screened := Screen(W, signed, np);
    if !screened {
      return false;
    }
    var fn := Powm(W, 228, np - 1, np);
    if fn != 1 {
      return false;
    }
    var k := Lsb(np - 1);
    var q := (np - 1) / Pow(2, k);
    OddPartUnique(np - 1, q, k);
    result := Trials(W, np, bases, q, k);
    AcceptsIs(W, signed, np, bases, q, k);
  }

  /** The magnitude as the type stores it: the most negative number is its own negation. */
  function StoredMagnitude(W: nat, signed: bool, n: int): int {
    PowPos(2, W);
    if n < 0 then Number(Pow(2, W), Wrap(Pow(2, W), 0 - n), signed) else n
  }

  /** It is the magnitude, but for the most negative number, which is even and so is rejected as it should be. */
  lemma MagnitudeOrSmallest(W: nat, signed: bool, n: int)
    requires 16 <= W && Holds(Pow(2, W), signed, n)
    ensures Holds(Pow(2, W), signed, Abs(n)) ==> StoredMagnitude(W, signed, n) == Abs(n)
    ensures !Holds(Pow(2, W), signed, Abs(n)) ==>
      StoredMagnitude(W, signed, n) == n && n % 2 == 0 && n < 0 && Abs(n) % 2 == 0 && 227 < Abs(n)
  {
    hide Pow;
    PowPos(2, W - 1);
    PowSucc(2, W - 1);
    if Holds(Pow(2, W), signed, Abs(n)) {
      WrapNumber(Pow(2, W), Abs(n), signed);
    } else {
      HalfPower(W);
      ModSmall(0 - n, Pow(2, W));
    }
  }

  lemma HalfPower(W: nat)
    requires 16 <= W
    ensures Pow(2, W) == 2 * Pow(2, W - 1) && Pow(2, W - 1) % 2 == 0 && 227 < Pow(2, W - 1)
  {
    hide Pow;
    PowSucc(2, W - 1);
    PowSucc(2, W - 2);
    PowMono(2, 8, W - 1);
    EightBits();
  }

  lemma EightBits()
    ensures Pow(2, 8) == 256
  {}

  /** The trials, until one fails. */
  method Trials(W: nat, n: nat, bases: seq<nat>, q: nat, k: nat) returns (result: bool)
    requires 2 < n < Pow(2, W) && 0 < k && forall i :: 0 <= i < |bases| ==> bases[i] < n
    ensures result <==> AllStrong(n, bases, q, k)
  {
    hide StrongProbablePrime, Pow;
    result := true;
    for trial := 0 to |bases|
      invariant result && forall i :: 0 <= i < trial ==> StrongProbablePrime(n, bases[i], q, k)
    {
      result := Trial(W, n, bases[trial], q, k);
      if !result {
        break;
      }
    }
  }

  ghost predicate AllStrong(n: nat, bases: seq<nat>, q: nat, k: nat)
    requires 0 < n
  {
    forall i :: 0 <= i < |bases| ==> StrongProbablePrime(n, bases[i], q, k)
  }

  lemma SplitUnique(n: nat, q: nat, k: nat, bases: seq<nat>)
    requires Splits(n, q, k)
    ensures AllStrong(n, bases, q, k) <==> forall q': nat, k': nat :: Splits(n, q', k') ==> AllStrong(n, bases, q', k')
  {
    OddPartUnique(n - 1, q, k);
  }

  /** The factor screens in order. */
  method Screen(W: nat, signed: bool, np: nat) returns (passes: bool)
    ensures passes <==> PassesAll(W, signed, np)
  {
    hide Passes;
    passes := false;
    var p0 := ScreenOne(W, signed, np, SCREEN0);
    if !p0 { return; }
    var p1 := ScreenOne(W, signed, np, SCREEN1);
    if !p1 { return; }
    var p2 := ScreenOne(W, signed, np, SCREEN2);
    if !p2 { return; }
    var p3 := ScreenOne(W, signed, np, SCREEN3);
    if !p3 { return; }
    passes := ScreenOne(W, signed, np, SCREEN4);
  }

  method ScreenOne(W: nat, signed: bool, np: nat, pp: nat) returns (passes: bool)
    ensures passes <==> Passes(W, signed, np, pp)
  {
    var c := ScreenModulus(W, signed, pp);
    if c == 0 {
      return false;
    }
    DivModSplit(np, c);
    var m := np % c;
    if m == 0 {
      return false;
    }
    var g := GcdUnsafe(m, pp);
    passes := g == 1;
  }

  lemma Width(W: nat, np: nat, signed: bool)
    requires 16 <= W && Holds(Pow(2, W), signed, np)
    ensures np < Pow(2, W) && 228 < Pow(2, W)
  {
    PowMono(2, 8, W);
    assert Pow(2, 8) == 256;
  }

  lemma EvenPrime(n: nat)
    requires n % 2 == 0
    ensures IsPrime(n) <==> n == 2
  {
    if n == 2 {
      forall d: nat | 1 <= d && Divides(d, 2) ensures d == 1 || d == 2 { DividesLe(d, 2); }
    } else {
      assert Divides(2, n);
    }
  }

  /** The odd part and its power of two are unique. */
  lemma OddPartUnique(x: nat, q: nat, k: nat)
    requires OddPart(x, q, k)
    ensures forall q': nat, k': nat :: OddPart(x, q', k') ==> q' == q && k' == k
    ensures x % 2 == 0 ==> 0 < k
  {
    forall q': nat, k': nat | OddPart(x, q', k') ensures q' == q && k' == k { SameOddPart(x, q, k, q', k'); }
    if k == 0 { assert Pow(2, 0) == 1; }
  }

  lemma OddPartHalf(x: nat, q: nat, k: nat)
    requires OddPart(x, q, k)
    ensures if k == 0 then x == q && x % 2 == 1 else x % 2 == 0 && OddPart(x / 2, q, k - 1)
  {
    if k > 0 {
      var p := Pow(2, k - 1);
      assert x == 2 * (q * p) by { MulAssoc(2, q, p); MulAssoc(q, 2, p); }
    }
  }

  lemma {:induction false} SameOddPart(x: nat, q: nat, k: nat, q': nat, k': nat)
    requires OddPart(x, q, k) && OddPart(x, q', k')
    ensures q' == q && k' == k
  {
    hide OddPart;
    OddPartHalf(x, q, k);
    OddPartHalf(x, q', k');
    if k > 0 && k' > 0 { SameOddPart(x / 2, q, k - 1, q', k' - 1); }
  }

  // ------------------------------------------------------------ the theorems

  /** A residue of 1 or -1 leads to a last residue of 1, which is base^(n-1). */
  lemma StrongIsFermat(n: nat, base: nat, q: nat, k: nat)
    requires 2 < n && Splits(n, q, k) && 0 < k && StrongProbablePrime(n, base, q, k)
    ensures Pow(base, n - 1) % n == 1
  {
    hide Pow, Residue;
    LastResidue(n, base, q, k);
    if Residue(n, base, q, 0) == 1 {
      OneStays(n, base, q, 0, k);
    } else {
      var j: nat :| j < k && Residue(n, base, q, j) == n - 1;
      NextResidue(n, base, q, j);
      SquareOfMinusOne(n);
      OneStays(n, base, q, j + 1, k);
    }
  }

  lemma SquareOfMinusOne(n: nat)
    requires 1 < n
    ensures ((n - 1) * (n - 1)) % n == 1
  {
    MulDist(n - 1, n - 2, 1);
    MulDist(n, n - 2, 0);
    assert (n - 1) * (n - 1) == (n - 2) * n + 1;
    DivModUnique((n - 1) * (n - 1), n, n - 2, 1);
  }

  /** The trials over powers alone. */
  lemma StrongOverPowers(n: nat, base: nat, q: nat, k: nat)
    requires 2 < n && Splits(n, q, k) && 0 < k
    ensures StrongProbablePrime(n, base, q, k) <==> StrongTo(n, base)
  {
    hide Pow, StrongProbablePrime, StrongAt, Splits;
    SplitDivides(n, q, k);
    StrongMeans(n, base, q, k);
    if StrongProbablePrime(n, base, q, k) { StrongIsFermat(n, base, q, k); }
  }

  lemma StrongMeans(n: nat, base: nat, q: nat, k: nat)
    requires 0 < n
    ensures StrongProbablePrime(n, base, q, k) <==> StrongAt(n, base, q, k)
  {
    hide Pow, Residue;
    ResidueZero(n, base, q);
    if StrongProbablePrime(n, base, q, k) && Residue(n, base, q, 0) != 1 {
      var j: nat :| j < k && Residue(n, base, q, j) == n - 1;
      ResidueIs(n, base, q, j);
    }
    if StrongAt(n, base, q, k) && Pow(base, q) % n != 1 {
      var j: nat :| j < k && Pow(base, q * Pow(2, j)) % n == n - 1;
      ResidueIs(n, base, q, j);
    }
  }

  lemma ResidueIs(n: nat, base: nat, q: nat, j: nat)
    requires 0 < n
    ensures Residue(n, base, q, j) == Pow(base, q * Pow(2, j)) % n
  {}

  /** The exponent of two and the odd part by division. */
  lemma SplitDivides(n: nat, q: nat, k: nat)
    requires Splits(n, q, k)
    ensures Pow(2, k) > 0 && (n - 1) % Pow(2, k) == 0 && (n - 1) / Pow(2, k) == q && q % 2 == 1
    ensures forall i: nat :: Pow(2, i) > 0 && (n - 1) % Pow(2, i) == 0 && ((n - 1) / Pow(2, i)) % 2 == 1 ==> i == k
  {
    hide Pow;
    PowPos(2, k);
    DivModUnique(n - 1, Pow(2, k), q, 0);
    forall i: nat | Pow(2, i) > 0 && (n - 1) % Pow(2, i) == 0 && ((n - 1) / Pow(2, i)) % 2 == 1 ensures i == k {
      DivModSplit(n - 1, Pow(2, i));
      SameOddPart(n - 1, q, k, (n - 1) / Pow(2, i), i);
    }
  }

  /** A number is rejected when a divisor of it from 2 on is among the bases. */
  lemma DivisorRejects(n: nat, d: nat)
    requires 2 < n && 2 <= d && Divides(d, n)
    ensures !StrongTo(n, d)
  {
    if Pow(d, n - 1) % n == 1 {
      DivModSplit(Pow(d, n - 1), n);
      var c := Pow(d, n - 1) / n;
      PowSucc(d, n - 2);
      FactorDivides(d, Pow(d, n - 2));
      DividesMultiple(d, n, 0 - c);
      DividesSum(d, Pow(d, n - 1), n * (0 - c));
      assert Pow(d, n - 1) + n * (0 - c) == 1 by { MulDist(n, c, 0 - c); }
      DividesLe(d, 1);
    }
  }

  /** A composite odd number has a proper divisor among the numbers from 2 to n - 2. */
  lemma ProperDivisor(n: nat) returns (d: nat)
    requires 2 < n && n % 2 == 1 && !IsPrime(n)
    ensures 2 <= d <= n - 2 && Divides(d, n)
  {
    d :| 1 <= d && Divides(d, n) && d != 1 && d != n;
    DividesLe(d, n);
    if d == n - 1 {
      var k := DividesFactor(d, n);
      MulLe(2, k, d);
      MulLe(k, 1, d);
    }
  }

  /** What acceptance means, and what it excludes. */
  lemma AcceptanceMeans(W: nat, signed: bool, n: nat, bases: seq<nat>)
    requires 0 < W && 227 < n && forall i :: 0 <= i < |bases| ==> 2 <= bases[i] <= n - 2
    ensures n % 2 == 1 ==> (Accepts(W, signed, n, bases) <==>
      PassesAll(W, signed, n) && Pow(228, n - 1) % n == 1 && forall i :: 0 <= i < |bases| ==> StrongTo(n, bases[i]))
    ensures n % 2 == 1 && Accepts(W, signed, n, bases) ==> forall i :: 0 <= i < |bases| ==> !Divides(bases[i], n)
    ensures Holds(Pow(2, W), signed, SCREEN0) && (forall b: nat :: 2 <= b <= n - 2 ==> b in bases) ==>
      (n % 2 == 1 && Accepts(W, signed, n, bases) <==> IsPrime(n))
  {
    hide Pow, PassesAll, StrongTo, Holds, Accepts, Divides, IsPrime;
    if n % 2 == 1 {
      AcceptsOverPowers(W, signed, n, bases);
      forall i | 0 <= i < |bases| && Divides(bases[i], n) ensures !StrongTo(n, bases[i]) { DivisorRejects(n, bases[i]); }
      if IsPrime(n) {
        if Holds(Pow(2, W), signed, SCREEN0) { NoPrimeRejected(W, signed, n, bases); }
      } else if forall b: nat :: 2 <= b <= n - 2 ==> b in bases {
        var d := ProperDivisor(n);
        assert d in bases;
      }
    } else {
      EvenPrime(n);
    }
  }

  lemma AcceptsIs(W: nat, signed: bool, n: nat, bases: seq<nat>, q: nat, k: nat)
    requires 2 < n && Splits(n, q, k)
    ensures Accepts(W, signed, n, bases) <==> PassesAll(W, signed, n) && Pow(228, n - 1) % n == 1 && AllStrong(n, bases, q, k)
  {
    hide Pow, PassesAll, AllStrong;
    SplitUnique(n, q, k, bases);
  }

  lemma AcceptsNeeds(W: nat, signed: bool, n: nat, bases: seq<nat>)
    requires 2 < n
    ensures Accepts(W, signed, n, bases) ==> PassesAll(W, signed, n) && Pow(228, n - 1) % n == 1
  {
    hide Pow, PassesAll, AllStrong;
  }

  lemma AcceptsOverPowers(W: nat, signed: bool, n: nat, bases: seq<nat>)
    requires 2 < n && n % 2 == 1
    ensures Accepts(W, signed, n, bases) <==>
      PassesAll(W, signed, n) && Pow(228, n - 1) % n == 1 && forall i :: 0 <= i < |bases| ==> StrongTo(n, bases[i])
  {
    hide Pow, PassesAll, StrongTo, StrongProbablePrime, Accepts;
    var k := LowZeros(n - 1);
    var q := Odd(n - 1);
    OddTimes(n - 1);
    OddPartUnique(n - 1, q, k);
    AcceptsIs(W, signed, n, bases, q, k);
    forall i | 0 <= i < |bases| ensures StrongProbablePrime(n, bases[i], q, k) <==> StrongTo(n, bases[i]) {
      StrongOverPowers(n, bases[i], q, k);
    }
  }

  /** The test never rejects a prime on its trials or its Fermat test: it accepts a prime above 227 exactly
      when the prime passes the screens. */
  lemma PrimeAccepted(W: nat, signed: bool, n: nat, bases: seq<nat>)
    requires IsPrime(n) && 227 < n && forall i :: 0 <= i < |bases| ==> 2 <= bases[i] <= n - 2
    ensures Accepts(W, signed, n, bases) <==> PassesAll(W, signed, n)
  {
    hide PassesAll, Pow;
    EvenPrime(228);
    NotMultiple(n, 228);
    Fermat(n, 228);
    forall q: nat, k: nat | Splits(n, q, k) ensures AllStrong(n, bases, q, k) {
      forall i | 0 <= i < |bases| ensures StrongProbablePrime(n, bases[i], q, k) {
        NotMultiple(n, bases[i]);
        Fermat(n, bases[i]);
        LastResidue(n, bases[i], q, k);
        PrimeIsStrong(n, bases[i], q, k);
      }
    }
  }

  lemma NotMultiple(n: nat, b: nat)
    requires 0 < b < n
    ensures !Divides(n, b)
  {
    ModSmall(b, n);
  }

  lemma LastResidue(n: nat, base: nat, q: nat, k: nat)
    requires Splits(n, q, k)
    ensures Residue(n, base, q, k) == Pow(base, n - 1) % n
  {}

  /** In every type that holds the screening constants, no prime is rejected, whatever the bases. */
  lemma NoPrimeRejected(W: nat, signed: bool, n: nat, bases: seq<nat>)
    requires 0 < W && Holds(Pow(2, W), signed, SCREEN0)
    requires IsPrime(n) && 227 < n && forall i :: 0 <= i < |bases| ==> 2 <= bases[i] <= n - 2
    ensures Accepts(W, signed, n, bases)
  {
    PrimePassesAll(W, signed, n);
    PrimeAccepted(W, signed, n, bases);
  }

  /** What is accepted has no odd prime factor up to 227. */
  lemma AcceptedHasNoSmallFactor(W: nat, signed: bool, n: nat, bases: seq<nat>, p: nat)
    requires 0 < W && Holds(Pow(2, W), signed, SCREEN0) && 227 < n && Accepts(W, signed, n, bases) && p in SMALL_PRIMES
    ensures !Divides(p, n)
  {
    hide Pow, StrongProbablePrime, Passes, Holds;
    HoldsLess(Pow(2, W), signed);
    ScreenProducts();
    InGroups(p);
    if p in GROUP0 { Coprime(W, signed, n, GROUP0, p); }
    else if p in GROUP1 { Coprime(W, signed, n, GROUP1, p); }
    else if p in GROUP2 { Coprime(W, signed, n, GROUP2, p); }
    else if p in GROUP3 { Coprime(W, signed, n, GROUP3, p); }
    else { Coprime(W, signed, n, GROUP4, p); }
  }

  lemma Coprime(W: nat, signed: bool, n: nat, s: seq<nat>, p: nat)
    requires 0 < W && 1 < Product(s) && Holds(Pow(2, W), signed, Product(s)) && p in s && 1 < p && 0 < n
    requires Passes(W, signed, n, Product(s))
    ensures !Divides(p, n)
  {
    ExactScreen(W, signed, n, Product(s));
    var i :| 0 <= i < |s| && s[i] == p;
    FactorInProduct(s, i);
    if Divides(p, n) {
      GcdGreatest(n, Product(s), p);
      DividesLe(p, 1);
    }
  }

  lemma InGroups(p: nat)
    requires p in SMALL_PRIMES
    ensures p in GROUP0 || p in GROUP1 || p in GROUP2 || p in GROUP3 || p in GROUP4
    ensures 1 < p
  {}

  lemma {:induction false} PrimeDivisor(e: nat) returns (p: nat)
    requires 2 <= e
    ensures IsPrime(p) && Divides(p, e) && p <= e
  {
    if IsPrime(e) {
      p := e;
      FactorDivides(e, 1);
    } else {
      var d: nat :| 1 <= d && Divides(d, e) && d != 1 && d != e;
      DividesLe(d, e);
      p := PrimeDivisor(d);
      DividesTrans(p, d, e);
    }
  }

  /** A composite number has a prime factor up to its root. */
  lemma CompositeFactor(n: nat, d: nat) returns (p: nat)
    requires 2 <= n < d * d && !IsPrime(n)
    ensures IsPrime(p) && p < d && n % p == 0
  {
    TrialDivision(n, d);
    FactorBelow(n, d);
    var e: nat :| 2 <= e < d && e * e <= n && n % e == 0;
    p := PrimeDivisor(e);
    DividesTrans(p, e, n);
  }

  lemma NoRowDivides6197(p: nat)
    requires p == 2 || p in ROW0 || p in ROW1 || (p in ROW2 && p < 79)
    ensures 6197 % p != 0
  {}

  lemma Prime6197()
    ensures IsPrime(6197)
  {
    if !IsPrime(6197) {
      var p := CompositeFactor(6197, 79);
      if p != 2 {
        TableIsExact(p);
        InRows(p);
        Row3Exact(p);
        Row4Exact(p);
        Row5Exact(p);
      }
      NoRowDivides6197(p);
      assert false;
    }
  }

  /** In a type of 16 bits the screening constants are cut off, and the prime 6197 is rejected: the fourth
      screen reduces it modulo 5883 and finds the factor 157 in the rest. */
  lemma NarrowTypeRejectsPrime(bases: seq<nat>)
    ensures IsPrime(6197) && !Accepts(16, false, 6197, bases)
  {
    Prime6197();
    PowAdd(2, 8, 8);
    assert Pow(2, 8) == 256;
    assert ScreenModulus(16, false, SCREEN3) == 5883;
    assert Gcd(314, SCREEN3) != 1 by {
      GcdGreatest(314, SCREEN3, 157);
      DividesLe(157, Gcd(314, SCREEN3));
    }
  }
}
