/** The exact period of the LFSR, and of the whole generator. */
module LfsrPeriod {
  import opened Arithmetic
  import opened LfsrPowers
  import opened Polynomials
  import opened Prng

  const LFSR_PERIOD := 0xffff_ffff

  // ------------------------------------------------------- numbers

  predicate Prime(p: nat) {
    p >= 2 && forall a | 2 <= a < p :: p % a != 0
  }

  /** None of 2 .. k divides p. */
  predicate Undivided(p: nat, k: nat) {
    k < 2 || (p % k != 0 && Undivided(p, k - 1))
  }

  lemma {:induction false} UndividedBy(p: nat, k: nat, a: nat)
    requires Undivided(p, k) && 2 <= a <= k
    ensures p % a != 0
  {
    if a < k { UndividedBy(p, k - 1, a); }
  }

  /** It is enough to try the divisors up to the square root. */
  lemma PrimeBySearch(p: nat, k: nat)
    requires p >= 2 && Undivided(p, k) && p < (k + 1) * (k + 1)
    ensures Prime(p)
  {
    forall a | 2 <= a < p ensures p % a != 0 {
      if p % a == 0 {
        var b := p / a;
        CoDivisor(p, a, b);
        if a <= k { UndividedBy(p, k, a); } else if b <= k { UndividedBy(p, k, b); } else { Products(k + 1, k + 1, a, b); }
      }
    }
  }

  lemma CoDivisor(p: nat, a: nat, b: nat)
    requires 2 <= a < p && p % a == 0 && b == p / a
    ensures a * b == p && b >= 2 && p % b == 0
  {
    assert p == a * b + p % a;
    assert b < 2 ==> a * b <= a;
    DivModUnique(p, b, a, 0);
  }

  lemma SmallPrimes()
    ensures Prime(3) && Prime(5) && Prime(17) && Prime(257)
  {
    PrimeBySearch(3, 1);
    PrimeBySearch(5, 2);
    PrimeBySearch(17, 4);
    assert Undivided(257, 8);
    PrimeBySearch(257, 16);
  }

  /** Below a prime every number has an inverse. */
  lemma {:induction false} Inverse(p: nat, a: nat) returns (u: nat, t: nat)
    requires Prime(p) && 0 < a < p
    ensures u * a == 1 + p * t
    decreases a
  {
    if a == 1 {
      u, t := 1, 0;
    } else {
      var q, r := p / a, p % a;
      var v, s := Inverse(p, r);
      u := v * q * (p - 1);
      var k := v * (p - 1) - 1 - p * s + s;
      InverseStep(p, a, q, r, v, s);
      t := k;
    }
  }

  lemma InverseStep(p: nat, a: nat, q: nat, r: nat, v: nat, s: nat)
    requires p >= 2
    ensures var k := v * (p - 1) - 1 - p * s + s;
      p == q * a + r && v * r == 1 + p * s ==> v * q * (p - 1) * a == 1 + p * k && k >= 0
  {
    if !(p == q * a + r && v * r == 1 + p * s) { return; }
    var k, w := v * (p - 1) - 1 - p * s + s, v * (q * a);
    Regroup(v, q, p - 1, a);
    assert w == p * v - 1 - p * s by { SplitOff(v, p, q * a, r); }
    assert (p - 1) * w == 1 + p * k by { LastFactor(p, v, s, w); }
    assert p * k >= -1;
  }

  lemma Regroup(a: nat, b: nat, c: nat, d: nat)
    ensures a * b * c * d == c * (a * (b * d)) >= 0
  {
    assert a * b * c * d == c * (a * b * d);
    assert a * b * d == a * (b * d);
  }

  lemma SplitOff(v: nat, p: nat, b: nat, r: nat)
    requires p == b + r
    ensures v * b == p * v - v * r
  {}

  lemma LastFactor(p: nat, v: nat, s: nat, w: int)
    requires w == p * v - 1 - p * s
    ensures (p - 1) * w == 1 + p * (v * (p - 1) - 1 - p * s + s)
  {
    assert (p - 1) * w == p * w - w;
    assert v * (p - 1) == p * v - v;
    assert p * (w - v + s) == p * w - p * v + p * s;
  }

  lemma SearchTo64()
    ensures Undivided(65537, 64)
  {
    assert Undivided(65537, 8);
    assert Undivided(65537, 16);
    assert Undivided(65537, 24);
    assert Undivided(65537, 32);
    assert Undivided(65537, 40);
    assert Undivided(65537, 48);
    assert Undivided(65537, 56);
  }

  lemma SearchTo128()
    ensures Undivided(65537, 128)
  {
    SearchTo64();
    assert Undivided(65537, 72);
    assert Undivided(65537, 80);
    assert Undivided(65537, 88);
    assert Undivided(65537, 96);
    assert Undivided(65537, 104);
    assert Undivided(65537, 112);
    assert Undivided(65537, 120);
  }

  lemma SearchTo192()
    ensures Undivided(65537, 192)
  {
    SearchTo128();
    assert Undivided(65537, 136);
    assert Undivided(65537, 144);
    assert Undivided(65537, 152);
    assert Undivided(65537, 160);
    assert Undivided(65537, 168);
    assert Undivided(65537, 176);
    assert Undivided(65537, 184);
  }

  lemma SearchTo256()
    ensures Undivided(65537, 256)
  {
    SearchTo192();
    assert Undivided(65537, 200);
    assert Undivided(65537, 208);
    assert Undivided(65537, 216);
    assert Undivided(65537, 224);
    assert Undivided(65537, 232);
    assert Undivided(65537, 240);
    assert Undivided(65537, 248);
  }

  lemma LargePrime()
    ensures Prime(65537)
  {
    hide Undivided;
    SearchTo256();
    PrimeBySearch(65537, 256);
  }

  lemma InverseOf(p: nat, n: nat) returns (u: nat, t: nat)
    requires Prime(p) && n % p != 0
    ensures u * n == 1 + p * t
  {
    var s: nat;
    var a, k := n % p, n / p;
    u, s := Inverse(p, a);
    t := s + u * k;
    assert u * (p * k + a) == p * (u * k) + u * a;
  }

  // ------------------------------------------------------- cycles

  /** n steps lead back to x. */
  predicate Cycle(x: bv32, n: nat) {
    Steps(x, n) == x
  }

  lemma CycleAdd(x: bv32, m: nat, n: nat)
    requires Cycle(x, m)
    ensures Steps(x, m + n) == Steps(x, n)
  {
    StepsAdd(x, m, n);
  }

  lemma {:induction false} CycleTimes(x: bv32, n: nat, k: nat)
    requires Cycle(x, n)
    ensures Cycle(x, n * k)
  {
    if k > 0 {
      CycleTimes(x, n, k - 1);
      CycleAdd(x, n, n * (k - 1));
      assert n + n * (k - 1) == n * k;
    } else {
      assert n * k == 0;
    }
  }

  /** When squaring the indeterminate k times gives the indeterminate, 2^k - 1 steps lead back. */
  lemma FullCycle(k: nat, n: nat, x: bv32)
    requires n + 1 == Pow2(k)
    ensures Square(k) == Square(0) ==> Cycle(x, n)
  {
    hide Square, LfsrStep, Times;
    if Square(k) != Square(0) { return; }
    SquareIsPower(k);
    FirstPower();
    StepsAreProduct(x, Pow2(k));
    StepTimes(ONE, x);
    TimesOne(x, 32);
    LfsrBackUndoes(Steps(x, n));
    LfsrBackUndoes(x);
    assert Steps(x, n + 1) == LfsrStep(Steps(x, n));
  }

  lemma FirstPower()
    ensures Square(0) == LfsrStep(ONE)
  {}

  lemma EveryCycle(n: nat, x: bv32)
    requires n + 1 == Pow2(32)
    ensures Cycle(x, n)
  {
    FirstSquare();
    SquaresTo32();
    FullCycle(32, n, x);
  }

  // ------------------------------------------------------- no shorter cycles

  lemma {:induction false} ShiftExponent(start: nat, more: nat, stride: nat, count: nat)
    ensures Exponent(start + more, stride, count) == Pow2(more) * Exponent(start, stride, count)
    decreases count
  {
    hide Pow2;
    if count == 0 {
      assert Pow2(more) * 0 == 0;
    } else {
      ShiftExponent(start + stride, more, stride, count - 1);
      Pow2Split(more, start);
      assert start + more + stride == start + stride + more;
      Distributes(Pow2(more), Pow2(start), Exponent(start + stride, stride, count - 1));
    }
  }

  lemma Distributes(p: nat, a: nat, b: nat)
    ensures p * (a + b) == p * a + p * b
  {}

  lemma {:induction false} Telescope(stride: nat, count: nat)
    ensures (Pow2(stride) - 1) * Exponent(0, stride, count) == Pow2(stride * count) - 1
  {
    if count > 0 {
      Telescope(stride, count - 1);
      ShiftExponent(0, stride, stride, count - 1);
      Pow2Split(stride, stride * (count - 1));
      assert stride * count == stride + stride * (count - 1);
      TelescopeStep(Pow2(stride), Exponent(0, stride, count - 1), Pow2(stride * (count - 1)));
    }
  }

  lemma TelescopeStep(p: nat, e: nat, q: nat)
    requires (p - 1) * e == q - 1
    ensures (p - 1) * (1 + p * e) == p * q - 1
  {
    assert (p - 1) * (p * e) == p * ((p - 1) * e);
  }

  /** The difference of two of the exponents is the full period divided by 2^h + 1. */
  lemma RootExponents(h: nat, count: nat)
    requires 2 * h * count == 32
    ensures var e := Exponent(0, 2 * h, count);
      Exponent(h, 2 * h, count) >= e && (Pow2(h) + 1) * (Exponent(h, 2 * h, count) - e) == Pow2(32) - 1
  {
    hide Pow2, Exponent;
    var p, e := Pow2(h), Exponent(0, 2 * h, count);
    ShiftExponent(0, h, 2 * h, count);
    Telescope(2 * h, count);
    Pow2Split(h, h);
    DifferenceOfSquares(p, e);
  }

  lemma DifferenceOfSquares(p: nat, e: nat)
    requires p > 0
    ensures p * e >= e && (p + 1) * (p * e - e) == (p * p - 1) * e
  {
    assert (p - 1) * e >= 0;
    assert (p + 1) * ((p - 1) * e) == (p * p - 1) * e;
  }

  /** The certificate `d` says that the powers of the indeterminate at the two exponents differ
      by an invertible polynomial. */
  predicate Certificate(h: nat, count: nat, d: bv32) {
    Product(d, Add(Comb(h, 2 * h, count), Comb(0, 2 * h, count))) == ONE
  }

  lemma InvertibleTimes(d: bv32, c: bv32, x: bv32)
    requires Product(d, c) == ONE && Times(c, x, 32) == 0
    ensures x == 0
  {
    hide Product, Times;
    ProductIsTimes(d, c);
    Associates(d, c, x, 32);
    TimesZero(d, x, 32);
    TimesOne(x, 32);
  }

  lemma NoShortCycle(h: nat, count: nat, d: bv32, x: bv32, m: nat)
    requires Exponent(h, 2 * h, count) == m + Exponent(0, 2 * h, count)
    ensures Certificate(h, count, d) && Cycle(x, m) ==> x == 0
  {
    hide Product, Times, Add, Comb, Exponent, Steps;
    if !(Certificate(h, count, d) && Cycle(x, m)) { return; }
    var a, b := Exponent(h, 2 * h, count), Exponent(0, 2 * h, count);
    CycleAdd(x, m, b);
    CombIsPower(h, 2 * h, count);
    CombIsPower(0, 2 * h, count);
    StepsAreProduct(x, a);
    StepsAreProduct(x, b);
    TimesAdds(Comb(h, 2 * h, count), Comb(0, 2 * h, count), x, 32);
    AddZero(Steps(x, a));
    InvertibleTimes(d, Add(Comb(h, 2 * h, count), Comb(0, 2 * h, count)), x);
  }

  /** With a cycle that is prime to p, the full cycle divided by p is a cycle. */
  lemma PartialCycle(x: bv32, n: nat, p: nat, m: nat)
    requires p >= 2 && Prime(p)
    ensures p * m + 1 == Pow2(32) && Cycle(x, n) && n % p != 0 ==> Cycle(x, m)
  {
    hide Prime, Cycle, Pow2;
    if !(p * m + 1 == Pow2(32) && Cycle(x, n) && n % p != 0) { return; }
    var u, t := InverseOf(p, n);
    CycleLength(n, m, u, p, t);
    CycleTimes(x, n, m * u);
    EveryCycle(p * m, x);
    CycleTimes(x, p * m, t);
    CycleRest(x, (p * m) * t, m);
  }

  lemma CycleRest(x: bv32, m: nat, n: nat)
    requires Cycle(x, m) && Cycle(x, m + n)
    ensures Cycle(x, n)
  {
    CycleAdd(x, m, n);
  }

  /** Every cycle of a state other than 0 is a multiple of the prime 2^h + 1. */
  lemma PrimeDivides(h: nat, count: nat, d: bv32, x: bv32, n: nat)
    requires 2 * h * count == 32 && Certificate(h, count, d) && Prime(Pow2(h) + 1)
    requires x != 0 && Cycle(x, n)
    ensures n % (Pow2(h) + 1) == 0
  {
    hide Certificate, Prime, Cycle, Pow2, Exponent;
    var m := Exponent(h, 2 * h, count) - Exponent(0, 2 * h, count);
    RootExponents(h, count);
    if n % (Pow2(h) + 1) != 0 {
      PartialCycle(x, n, Pow2(h) + 1, m);
      NoShortCycle(h, count, d, x, m);
    }
  }

  lemma CycleLength(n: nat, m: nat, u: nat, p: nat, t: nat)
    requires u * n == 1 + p * t
    ensures n * (m * u) == (p * m) * t + m
  {
    assert n * (m * u) == m * (u * n);
  }

  // ------------------------------------------------------- the period

  lemma DivisibleBy3(x: bv32, n: nat)
    requires x != 0 && Cycle(x, n)
    ensures n % 3 == 0
  {
    hide Cycle, Comb, Prime;
    Comb1By2Of16();
    Comb0By2Of16();
    SmallPrimes();
    PrimeDivides(1, 16, 0x8000_0000, x, n);
  }

  lemma DivisibleBy5(x: bv32, n: nat)
    requires x != 0 && Cycle(x, n)
    ensures n % 5 == 0
  {
    hide Cycle, Comb, Prime;
    Comb2By4Of8();
    Comb0By4Of8();
    SmallPrimes();
    PrimeDivides(2, 8, 0x7f32_beae, x, n);
  }

  lemma DivisibleBy17(x: bv32, n: nat)
    requires x != 0 && Cycle(x, n)
    ensures n % 17 == 0
  {
    hide Cycle, Comb, Prime;
    Comb4By8Of4();
    Comb0By8Of4();
    SmallPrimes();
    PrimeDivides(4, 4, 0xff12_dbe9, x, n);
  }

  lemma DivisibleBy257(x: bv32, n: nat)
    requires x != 0 && Cycle(x, n)
    ensures n % 257 == 0
  {
    hide Cycle, Comb, Prime;
    Comb8By16Of2();
    Comb0By16Of2();
    SmallPrimes();
    PrimeDivides(8, 2, 0x9c4c_887c, x, n);
  }

  lemma DivisibleBy65537(x: bv32, n: nat)
    requires x != 0 && Cycle(x, n)
    ensures n % 65537 == 0
  {
    hide Cycle, Comb, Prime;
    Comb16By32Of1();
    Comb0By32Of1();
    LargePrime();
    assert Pow2(8) == 256;
    PrimeDivides(16, 1, 0x70e4_0b4c, x, n);
  }

  /** A multiple of two coprime numbers is a multiple of their product. */
  lemma Multiply(n: nat, a: nat, b: nat, u: int, v: int)
    requires a > 0 && b > 0 && n % a == 0 && n % b == 0 && u * a + v * b == 1
    ensures n % (a * b) == 0
  {
    var k, l := n / a, n / b;
    assert n == a * k && n == b * l;
    var q := u * l + v * k;
    assert n == (u * a) * n + (v * b) * n;
    assert (u * a) * n == (a * b) * (u * l);
    assert (v * b) * n == (a * b) * (v * k);
    assert n == (a * b) * q;
    DivModUnique(n, a * b, q, 0);
  }

  lemma AllFactors(n: nat)
    requires n % 3 == 0 && n % 5 == 0 && n % 17 == 0 && n % 257 == 0 && n % 65537 == 0
    ensures n % LFSR_PERIOD == 0
  {
    Multiply(n, 3, 5, 2, -1);
    Multiply(n, 15, 17, 8, -7);
    Multiply(n, 255, 257, 128, -127);
    Multiply(n, 65535, 65537, 0x8000, -0x7fff);
  }

  lemma FullTurns(x: bv32, n: nat)
    requires n % LFSR_PERIOD == 0
    ensures Cycle(x, n)
  {
    hide Cycle, Pow2;
    var m := Pow2(32) - 1;
    Pow2Of32();
    EveryCycle(m, x);
    CycleTimes(x, m, n / LFSR_PERIOD);
    assert m * (n / LFSR_PERIOD) == n;
  }

  /** From every state but 0 the LFSR returns exactly after the multiples of 2^32 - 1 steps: it runs
      through all the other states before it repeats one. */
  lemma LfsrHasFullPeriod(x: bv32, n: nat)
    requires x != 0
    ensures Steps(x, n) == x <==> n % LFSR_PERIOD == 0
  {
    hide Steps;
    if n % LFSR_PERIOD == 0 { FullTurns(x, n); }
    if Cycle(x, n) {
      DivisibleBy3(x, n);
      DivisibleBy5(x, n);
      DivisibleBy17(x, n);
      DivisibleBy257(x, n);
      DivisibleBy65537(x, n);
      AllFactors(n);
    }
  }

  lemma {:induction false} RunOfLfsr(s: State, n: nat)
    ensures Run(s, n).x == Steps(s.x, n)
  {
    hide LfsrStep, LcgStep;
    if n > 0 { RunOfLfsr(s, n - 1); }
  }

  lemma BothPeriods(n: nat)
    ensures n % LCG_MODULUS == 0 && n % LFSR_PERIOD == 0 <==> n % (LCG_MODULUS * LFSR_PERIOD) == 0
  {
    if n % LCG_MODULUS == 0 && n % LFSR_PERIOD == 0 { Multiply(n, LCG_MODULUS, LFSR_PERIOD, 1, -1); }
    if n % (LCG_MODULUS * LFSR_PERIOD) == 0 {
      var q := n / (LCG_MODULUS * LFSR_PERIOD);
      DivModUnique(n, LCG_MODULUS, LFSR_PERIOD * q, 0);
      DivModUnique(n, LFSR_PERIOD, LCG_MODULUS * q, 0);
    }
  }

  /** A state whose LFSR part is not 0 comes back exactly after the multiples of 2^32 (2^32 - 1)
      calls, the largest period that the two parts can have together. */
  lemma GeneratorPeriod(s: State, n: nat)
    requires s.x != 0
    ensures Run(s, n) == s <==> n % (LCG_MODULUS * LFSR_PERIOD) == 0
  {
    hide Run, Steps, Lcg;
    RunOfLfsr(s, n);
    RunParts(s, n);
    LfsrHasFullPeriod(s.x, n);
    LcgPeriod(s.y, n);
    BothPeriods(n);
  }

  lemma {:induction false} RunSplit(s: State, m: nat, n: nat)
    ensures Run(s, m + n) == Run(Run(s, m), n)
  {
    hide LfsrStep, LcgStep;
    if n > 0 { RunSplit(s, m, n - 1); }
  }

  lemma {:induction false} StaysNonzero(s: State, n: nat)
    requires s.x != 0
    ensures Run(s, n).x != 0
  {
    hide LfsrStep, LcgStep;
    if n > 0 {
      StaysNonzero(s, n - 1);
      LfsrAvoidsZero(Run(s, n - 1).x);
    }
  }

  /** No two of 2^32 (2^32 - 1) consecutive states are equal. */
  lemma NoStateRepeats(s: State, m: nat, n: nat)
    requires s.x != 0 && m < n < m + LCG_MODULUS * LFSR_PERIOD
    ensures Run(s, m) != Run(s, n)
  {
    hide Run;
    RunSplit(s, m, n - m);
    StaysNonzero(s, m);
    GeneratorPeriod(Run(s, m), n - m);
  }
}
