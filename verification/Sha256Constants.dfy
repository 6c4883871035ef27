/**
 * Where the constants of SHA-256 come from: sections 4.2.2 and 5.3.3 of FIPS 180-4 take them from the cube roots of the
 * first sixty-four primes and the square roots of the first eight.
 */
module Sha256Constants {
  import opened Bytes
  import opened Sha256Spec

  const TWO_32: nat := 0x1_0000_0000
  const TWO_96: nat := TWO_64 * TWO_32

  // ---- The primes, in order.

  ghost predicate IsPrime(n: nat) { n > 1 && forall d :: 1 < d < n ==> n % d != 0 }

  /** The number of primes below `n`: the prime `p` is the one at index `PrimeCount(p)`. */
  ghost function PrimeCount(n: nat): nat {
    if n == 0 then 0 else PrimeCount(n - 1) + if IsPrime(n - 1) then 1 else 0
  }

  /** Trial division by the primes up to 17. */
  predicate Passes(n: nat) {
    && (n == 2 || n % 2 != 0) && (n == 3 || n % 3 != 0) && (n == 5 || n % 5 != 0) && (n == 7 || n % 7 != 0)
    && (n == 11 || n % 11 != 0) && (n == 13 || n % 13 != 0) && (n == 17 || n % 17 != 0)
  }

  /** It decides primality below 19 squared. */
  lemma PassesIff(n: nat)
    requires 1 < n < 19 * 19
    ensures IsPrime(n) <==> Passes(n)
  {
    if Passes(n) {
      forall d | 1 < d < n ensures n % d != 0 {
        if n % d == 0 {
          var e := n / d;
          assert n == d * e;
          SmallFactor(n, d, e);
        }
      }
    }
  }

  /** A product below 19 squared has a factor below 19, and so one of the tested primes divides it. */
  lemma SmallFactor(n: nat, d: nat, e: nat)
    requires n == d * e && 1 < d < n && 1 < n < 19 * 19
    ensures !Passes(n)
  {
    assert e > 1;
    if d < 19 {
      MultipleFails(n, d, e);
    } else {
      if e >= 19 { ProductIsLarge(d, e, 19); }
      MultipleFails(n, e, d);
    }
  }

  lemma MultipleFails(n: nat, d: nat, e: nat)
    requires n == d * e && 1 < d < 19 && e > 1
    ensures !Passes(n)
  {
    var q, k := TestedFactor(d);
    MultipleOf(n, q, k, e);
  }

  lemma TestedFactor(d: nat) returns (q: nat, k: nat)
    requires 1 < d < 19
    ensures q in {2, 3, 5, 7, 11, 13, 17} && k > 0 && d == q * k
  {
    q := if d % 2 == 0 then 2 else if d % 3 == 0 then 3 else d;
    k := if d % 2 == 0 then d / 2 else if d % 3 == 0 then d / 3 else 1;
  }

  lemma MultipleOf(n: nat, q: nat, k: nat, e: nat)
    requires q > 0 && k > 0 && e > 1 && n == q * k * e
    ensures n % q == 0 && n > q
  {
    assert n == q * (k * e);
    assert k * e >= e;
    MultipleDivides(q, k * e);
    assert q * (k * e) >= q * 2;
  }

  lemma MultipleDivides(q: nat, m: nat)
    requires q > 0
    ensures (q * m) % q == 0
  {
    var k, r := q * m / q, (q * m) % q;
    assert q * m == q * k + r;
    assert q * (m - k) == r && q * (k - m) == -r;
    if m > k { ProductIsLarge(q, m - k, 1); }
    if m < k { ProductIsLarge(q, k - m, 1); }
  }

  lemma ProductIsLarge(a: nat, b: nat, least: nat)
    requires b >= least
    ensures a * b >= a * least
  {
  }

  /** No number between `lo` and `hi` passes. */
  predicate Gap(lo: nat, hi: nat)
    decreases hi - lo
  {
    lo + 1 >= hi || (!Passes(lo + 1) && Gap(lo + 1, hi))
  }

  lemma {:induction false} GapCounts(lo: nat, hi: nat)
    requires Gap(lo, hi) && 1 < lo < hi < 19 * 19
    ensures PrimeCount(hi) == PrimeCount(lo + 1)
    decreases hi - lo
  {
    hide Passes, IsPrime;
    if lo + 1 < hi {
      PassesIff(lo + 1);
      GapCounts(lo + 1, hi);
    }
  }

  /** `p` is the prime at index `t`. */
  ghost predicate PrimeAt(t: nat, p: nat) { IsPrime(p) && PrimeCount(p) == t }

  lemma NextPrime(t: nat, p: nat, q: nat)
    requires PrimeAt(t, p) && p < q < 19 * 19 && Passes(q) && Gap(p, q)
    ensures PrimeAt(t + 1, q)
  {
    hide Passes, IsPrime, Gap;
    PrimesAreLarge(p);
    PassesIff(q);
    GapCounts(p, q);
  }

  lemma PrimesAreLarge(p: nat)
    requires IsPrime(p)
    ensures p > 1
  {
  }

  /** The first sixty-four primes, eight to a row. */
  function PrimeRow(i: nat): (r: seq<nat>)
    ensures |r| == 8
  {
    match i
    case 0 => [2, 3, 5, 7, 11, 13, 17, 19]
    case 1 => [23, 29, 31, 37, 41, 43, 47, 53]
    case 2 => [59, 61, 67, 71, 73, 79, 83, 89]
    case 3 => [97, 101, 103, 107, 109, 113, 127, 131]
    case 4 => [137, 139, 149, 151, 157, 163, 167, 173]
    case 5 => [179, 181, 191, 193, 197, 199, 211, 223]
    case 6 => [227, 229, 233, 239, 241, 251, 257, 263]
    case _ => [269, 271, 277, 281, 283, 293, 307, 311]
  }

  ghost predicate PrimesFrom(t: nat, ps: seq<nat>) { forall j :: 0 <= j < |ps| ==> PrimeAt(t + j, ps[j]) }

  lemma FirstPrime()
    ensures PrimeAt(0, 2)
  {
    assert PrimeCount(1) == PrimeCount(0) == 0;
    PassesIff(2);
  }

  lemma PrimeRow0()
    requires PrimeAt(0, 2)
    ensures PrimesFrom(0, PrimeRow(0)) && PrimeAt(8, 23)
  {
    hide PrimeAt;
    NextPrime(0, 2, 3);
    NextPrime(1, 3, 5);
    NextPrime(2, 5, 7);
    NextPrime(3, 7, 11);
    NextPrime(4, 11, 13);
    NextPrime(5, 13, 17);
    NextPrime(6, 17, 19);
    NextPrime(7, 19, 23);
  }

  lemma PrimeRow1()
    requires PrimeAt(8, 23)
    ensures PrimesFrom(8, PrimeRow(1)) && PrimeAt(16, 59)
  {
    hide PrimeAt;
    NextPrime(8, 23, 29);
    NextPrime(9, 29, 31);
    NextPrime(10, 31, 37);
    NextPrime(11, 37, 41);
    NextPrime(12, 41, 43);
    NextPrime(13, 43, 47);
    NextPrime(14, 47, 53);
    NextPrime(15, 53, 59);
  }

  lemma PrimeRow2()
    requires PrimeAt(16, 59)
    ensures PrimesFrom(16, PrimeRow(2)) && PrimeAt(24, 97)
  {
    hide PrimeAt;
    NextPrime(16, 59, 61);
    NextPrime(17, 61, 67);
    NextPrime(18, 67, 71);
    NextPrime(19, 71, 73);
    NextPrime(20, 73, 79);
    NextPrime(21, 79, 83);
    NextPrime(22, 83, 89);
    NextPrime(23, 89, 97);
  }

  lemma PrimeRow3()
    requires PrimeAt(24, 97)
    ensures PrimesFrom(24, PrimeRow(3)) && PrimeAt(32, 137)
  {
    hide PrimeAt;
    NextPrime(24, 97, 101);
    NextPrime(25, 101, 103);
    NextPrime(26, 103, 107);
    NextPrime(27, 107, 109);
    NextPrime(28, 109, 113);
    NextPrime(29, 113, 127);
    NextPrime(30, 127, 131);
    NextPrime(31, 131, 137);
  }

  lemma PrimeRow4()
    requires PrimeAt(32, 137)
    ensures PrimesFrom(32, PrimeRow(4)) && PrimeAt(40, 179)
  {
    hide PrimeAt;
    NextPrime(32, 137, 139);
    NextPrime(33, 139, 149);
    NextPrime(34, 149, 151);
    NextPrime(35, 151, 157);
    NextPrime(36, 157, 163);
    NextPrime(37, 163, 167);
    NextPrime(38, 167, 173);
    NextPrime(39, 173, 179);
  }

  lemma PrimeRow5()
    requires PrimeAt(40, 179)
    ensures PrimesFrom(40, PrimeRow(5)) && PrimeAt(48, 227)
  {
    hide PrimeAt;
    NextPrime(40, 179, 181);
    NextPrime(41, 181, 191);
    NextPrime(42, 191, 193);
    NextPrime(43, 193, 197);
    NextPrime(44, 197, 199);
    NextPrime(45, 199, 211);
    NextPrime(46, 211, 223);
    NextPrime(47, 223, 227);
  }

  lemma PrimeRow6()
    requires PrimeAt(48, 227)
    ensures PrimesFrom(48, PrimeRow(6)) && PrimeAt(56, 269)
  {
    hide PrimeAt;
    NextPrime(48, 227, 229);
    NextPrime(49, 229, 233);
    NextPrime(50, 233, 239);
    NextPrime(51, 239, 241);
    NextPrime(52, 241, 251);
    NextPrime(53, 251, 257);
    NextPrime(54, 257, 263);
    NextPrime(55, 263, 269);
  }

  lemma PrimeRow7()
    requires PrimeAt(56, 269)
    ensures PrimesFrom(56, PrimeRow(7))
  {
    hide PrimeAt;
    NextPrime(56, 269, 271);
    NextPrime(57, 271, 277);
    NextPrime(58, 277, 281);
    NextPrime(59, 281, 283);
    NextPrime(60, 283, 293);
    NextPrime(61, 293, 307);
    NextPrime(62, 307, 311);
  }

  // ---- The roots.

  /** `c` and `w` are the whole part and the first thirty-two fractional bits of the cube root of `p`. */
  predicate CubeRootIs(p: nat, c: nat, w: nat) {
    var n := c * TWO_32 + w;
    n * n * n <= p * TWO_96 < (n + 1) * (n + 1) * (n + 1)
  }

  predicate SquareRootIs(p: nat, c: nat, w: nat) {
    var n := c * TWO_32 + w;
    n * n <= p * TWO_64 < (n + 1) * (n + 1)
  }

  ghost predicate CubeRootFraction(p: nat, w: nat) { exists c: nat :: CubeRootIs(p, c, w) }

  lemma CubeRoot(p: nat, c: nat, w: bv32)
    requires CubeRootIs(p, c, w as nat)
    ensures CubeRootFraction(p, w as nat)
  {
    hide CubeRootIs;
  }

  ghost predicate SquareRootFraction(p: nat, w: nat) { exists c: nat :: SquareRootIs(p, c, w) }

  lemma CubeRow0(j: nat)
    requires j < 8
    ensures CubeRootFraction(PrimeRow(0)[j], KRow(0)[j] as nat)
  {
    hide CubeRootFraction;
    match j
    case 0 => CubeRoot(2, 1, KRow(0)[0]);
    case 1 => CubeRoot(3, 1, KRow(0)[1]);
    case 2 => CubeRoot(5, 1, KRow(0)[2]);
    case 3 => CubeRoot(7, 1, KRow(0)[3]);
    case 4 => CubeRoot(11, 2, KRow(0)[4]);
    case 5 => CubeRoot(13, 2, KRow(0)[5]);
    case 6 => CubeRoot(17, 2, KRow(0)[6]);
    case _ => CubeRoot(19, 2, KRow(0)[7]);
  }

  lemma CubeRow1(j: nat)
    requires j < 8
    ensures CubeRootFraction(PrimeRow(1)[j], KRow(1)[j] as nat)
  {
    hide CubeRootFraction;
    match j
    case 0 => CubeRoot(23, 2, KRow(1)[0]);
    case 1 => CubeRoot(29, 3, KRow(1)[1]);
    case 2 => CubeRoot(31, 3, KRow(1)[2]);
    case 3 => CubeRoot(37, 3, KRow(1)[3]);
    case 4 => CubeRoot(41, 3, KRow(1)[4]);
    case 5 => CubeRoot(43, 3, KRow(1)[5]);
    case 6 => CubeRoot(47, 3, KRow(1)[6]);
    case _ => CubeRoot(53, 3, KRow(1)[7]);
  }

  lemma CubeRow2(j: nat)
    requires j < 8
    ensures CubeRootFraction(PrimeRow(2)[j], KRow(2)[j] as nat)
  {
    hide CubeRootFraction;
    match j
    case 0 => CubeRoot(59, 3, KRow(2)[0]);
    case 1 => CubeRoot(61, 3, KRow(2)[1]);
    case 2 => CubeRoot(67, 4, KRow(2)[2]);
    case 3 => CubeRoot(71, 4, KRow(2)[3]);
    case 4 => CubeRoot(73, 4, KRow(2)[4]);
    case 5 => CubeRoot(79, 4, KRow(2)[5]);
    case 6 => CubeRoot(83, 4, KRow(2)[6]);
    case _ => CubeRoot(89, 4, KRow(2)[7]);
  }

  lemma CubeRow3(j: nat)
    requires j < 8
    ensures CubeRootFraction(PrimeRow(3)[j], KRow(3)[j] as nat)
  {
    hide CubeRootFraction;
    match j
    case 0 => CubeRoot(97, 4, KRow(3)[0]);
    case 1 => CubeRoot(101, 4, KRow(3)[1]);
    case 2 => CubeRoot(103, 4, KRow(3)[2]);
    case 3 => CubeRoot(107, 4, KRow(3)[3]);
    case 4 => CubeRoot(109, 4, KRow(3)[4]);
    case 5 => CubeRoot(113, 4, KRow(3)[5]);
    case 6 => CubeRoot(127, 5, KRow(3)[6]);
    case _ => CubeRoot(131, 5, KRow(3)[7]);
  }

  lemma CubeRow4(j: nat)
    requires j < 8
    ensures CubeRootFraction(PrimeRow(4)[j], KRow(4)[j] as nat)
  {
    hide CubeRootFraction;
    match j
    case 0 => CubeRoot(137, 5, KRow(4)[0]);
    case 1 => CubeRoot(139, 5, KRow(4)[1]);
    case 2 => CubeRoot(149, 5, KRow(4)[2]);
    case 3 => CubeRoot(151, 5, KRow(4)[3]);
    case 4 => CubeRoot(157, 5, KRow(4)[4]);
    case 5 => CubeRoot(163, 5, KRow(4)[5]);
    case 6 => CubeRoot(167, 5, KRow(4)[6]);
    case _ => CubeRoot(173, 5, KRow(4)[7]);
  }

  lemma CubeRow5(j: nat)
    requires j < 8
    ensures CubeRootFraction(PrimeRow(5)[j], KRow(5)[j] as nat)
  {
    hide CubeRootFraction;
    match j
    case 0 => CubeRoot(179, 5, KRow(5)[0]);
    case 1 => CubeRoot(181, 5, KRow(5)[1]);
    case 2 => CubeRoot(191, 5, KRow(5)[2]);
    case 3 => CubeRoot(193, 5, KRow(5)[3]);
    case 4 => CubeRoot(197, 5, KRow(5)[4]);
    case 5 => CubeRoot(199, 5, KRow(5)[5]);
    case 6 => CubeRoot(211, 5, KRow(5)[6]);
    case _ => CubeRoot(223, 6, KRow(5)[7]);
  }

  lemma CubeRow6(j: nat)
    requires j < 8
    ensures CubeRootFraction(PrimeRow(6)[j], KRow(6)[j] as nat)
  {
    hide CubeRootFraction;
    match j
    case 0 => CubeRoot(227, 6, KRow(6)[0]);
    case 1 => CubeRoot(229, 6, KRow(6)[1]);
    case 2 => CubeRoot(233, 6, KRow(6)[2]);
    case 3 => CubeRoot(239, 6, KRow(6)[3]);
    case 4 => CubeRoot(241, 6, KRow(6)[4]);
    case 5 => CubeRoot(251, 6, KRow(6)[5]);
    case 6 => CubeRoot(257, 6, KRow(6)[6]);
    case _ => CubeRoot(263, 6, KRow(6)[7]);
  }

  lemma CubeRow7(j: nat)
    requires j < 8
    ensures CubeRootFraction(PrimeRow(7)[j], KRow(7)[j] as nat)
  {
    hide CubeRootFraction;
    match j
    case 0 => CubeRoot(269, 6, KRow(7)[0]);
    case 1 => CubeRoot(271, 6, KRow(7)[1]);
    case 2 => CubeRoot(277, 6, KRow(7)[2]);
    case 3 => CubeRoot(281, 6, KRow(7)[3]);
    case 4 => CubeRoot(283, 6, KRow(7)[4]);
    case 5 => CubeRoot(293, 6, KRow(7)[5]);
    case 6 => CubeRoot(307, 6, KRow(7)[6]);
    case _ => CubeRoot(311, 6, KRow(7)[7]);
  }

  /** The constant of round `t` is the first thirty-two bits of the fractional part of the cube root of prime `t`. */
  lemma RoundConstant(t: nat) returns (p: nat)
    requires t < 64
    ensures PrimeAt(t, p) && CubeRootFraction(p, K(t) as nat)
  {
    hide PrimeAt, PrimeRow, KRow, CubeRootFraction;
    p := PrimeRow(t / 8)[t % 8];
    PrimeRows(t / 8);
    CubeRows(t / 8, t % 8);
    assert PrimeAt(8 * (t / 8) + t % 8, p);
  }

  lemma PrimeRows(i: nat)
    requires i < 8
    ensures PrimesFrom(8 * i, PrimeRow(i))
  {
    hide PrimeAt, PrimeRow, PrimesFrom;
    FirstPrime();
    PrimeRow0(); PrimeRow1(); PrimeRow2(); PrimeRow3(); PrimeRow4(); PrimeRow5(); PrimeRow6(); PrimeRow7();
  }

  lemma CubeRows(i: nat, j: nat)
    requires i < 8 && j < 8
    ensures CubeRootFraction(PrimeRow(i)[j], KRow(i)[j] as nat)
  {
    hide PrimeRow, KRow, CubeRootFraction;
    CubeRow0(j); CubeRow1(j); CubeRow2(j); CubeRow3(j); CubeRow4(j); CubeRow5(j); CubeRow6(j); CubeRow7(j);
  }

  /** The initial hash value: word `t` comes from the square root of prime `t`. */
  lemma InitialConstant(t: nat) returns (p: nat)
    requires t < 8
    ensures PrimeAt(t, p) && SquareRootFraction(p, H0()[t] as nat)
  {
    hide PrimeAt, SquareRootFraction, H0;
    p := PrimeRow(0)[t];
    PrimeRows(0);
    SquareRow(t);
  }

  lemma SquareRow(j: nat)
    requires j < 8
    ensures SquareRootFraction(PrimeRow(0)[j], H0()[j] as nat)
  {
    match j
    case 0 => assert SquareRootIs(2, 1, H0()[0] as nat);
    case 1 => assert SquareRootIs(3, 1, H0()[1] as nat);
    case 2 => assert SquareRootIs(5, 2, H0()[2] as nat);
    case 3 => assert SquareRootIs(7, 2, H0()[3] as nat);
    case 4 => assert SquareRootIs(11, 3, H0()[4] as nat);
    case 5 => assert SquareRootIs(13, 3, H0()[5] as nat);
    case 6 => assert SquareRootIs(17, 4, H0()[6] as nat);
    case _ => assert SquareRootIs(19, 4, H0()[7] as nat);
  }
}
