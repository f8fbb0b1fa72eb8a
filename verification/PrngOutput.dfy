/** What the generator returns: the bits of its output, and their exact period. */
module PrngOutput {
  import opened Arithmetic
  import opened LfsrPeriod
  import opened LfsrPowers
  import opened Polynomials
  import opened Prng

  // ------------------------------------------------------- the bits of a number

  predicate Odd(x: bv32) {
    x & 1 == 1
  }

  function Half(x: bv32): bv32 {
    x >> 1
  }

  /** Bit j of a word. */
  predicate WordBit(x: bv32, j: nat) {
    if j == 0 then Odd(x) else WordBit(Half(x), j - 1)
  }

  /** Bit j of a number. */
  predicate NumberBit(n: nat, j: nat) {
    n / Pow2(j) % 2 == 1
  }

  /** All bits from the k-th on. */
  function High(k: nat): bv32 {
    if k == 0 then 0xffff_ffff else High(k - 1) << 1
  }

  lemma HighestBit()
    ensures High(31) == 0x8000_0000
  {
    assert High(8) == 0xffff_ff00;
    assert High(16) == 0xffff_0000;
    assert High(24) == 0xff00_0000;
  }

  lemma ShiftIn(v: bv32, h: bv32, b: bv32)
    requires v & h == 0 && b <= 1
    ensures ((v << 1) | b) & (h << 1) == 0
  {}

  lemma ShiftOut(v: bv32, b: bv32)
    requires v & 0x8000_0000 == 0 && b <= 1
    ensures ((v << 1) | b) >> 1 == v && ((v << 1) | b) & 1 == b
  {}

  function Parity(n: nat): bv32 {
    if n % 2 == 1 then 1 else 0
  }

  lemma BitsUnfold(n: nat)
    ensures Bits(0) == 0
    ensures n > 0 ==> Bits(n) == (Bits(n / 2) << 1) | Parity(n)
  {}

  lemma HighUnfold(k: nat)
    ensures k > 0 ==> High(k) == High(k - 1) << 1
  {}

  lemma ZeroAnd(h: bv32)
    ensures 0 & h == 0
  {}

  lemma {:induction false} BitsBelow(n: nat, k: nat)
    requires n < Pow2(k)
    ensures Bits(n) & High(k) == 0
    decreases k
  {
    hide Bits, High, Parity;
    BitsUnfold(n);
    HighUnfold(k);
    ZeroAnd(High(k));
    if n > 0 {
      BitsBelow(n / 2, k - 1);
      ParityIsBit(n);
      ShiftIn(Bits(n / 2), High(k - 1), Parity(n));
    }
  }

  lemma ParityIsBit(n: nat)
    ensures Parity(n) <= 1
  {}

  lemma HalfFits(n: Uint32)
    ensures Bits(n / 2) & 0x8000_0000 == 0
  {
    Pow2Of32();
    BitsBelow(n / 2, 31);
    HighestBit();
  }

  /** The lowest bit, and the rest. */
  lemma BitsHalf(n: Uint32)
    ensures Half(Bits(n)) == Bits(n / 2) && (Odd(Bits(n)) <==> n % 2 == 1)
  {
    hide Bits;
    BitsUnfold(n);
    if n > 0 {
      HalfFits(n);
      ShiftOut(Bits(n / 2), Parity(n));
    }
  }

  lemma NextBit(n: nat, j: nat)
    requires j > 0
    ensures NumberBit(n, j) == NumberBit(n / 2, j - 1)
  {
    Halve(n, Pow2(j - 1));
  }

  /** Bit j of the word is bit j of the number. */
  lemma {:induction false} BitsBit(n: Uint32, j: nat)
    ensures WordBit(Bits(n), j) <==> NumberBit(n, j)
  {
    hide Bits, Odd, Half;
    BitsHalf(n);
    if j == 0 {
      assert Pow2(0) == 1;
    } else {
      NextBit(n, j);
      BitsBit(n / 2, j - 1);
    }
  }

  lemma {:induction false} BitsInjective(m: Uint32, n: Uint32)
    requires Bits(m) == Bits(n)
    ensures m == n
    decreases m + n
  {
    hide Bits, Odd, Half;
    if m + n > 0 {
      BitsHalf(m);
      BitsHalf(n);
      BitsInjective(m / 2, n / 2);
    }
  }

  lemma OutputIs(s: State)
    ensures Output(s) == Add(s.x, Bits(s.y))
  {
    hide Bits, Add;
    XorIsAdd(s.x, Bits(s.y));
  }

  lemma XorIsAdd(a: bv32, b: bv32)
    ensures a ^ b == Add(a, b)
  {}

  lemma AddIsZero(a: bv32, b: bv32)
    requires Add(a, b) == 0
    ensures a == b
  {}

  /** Equal sums of pairs: the first parts differ as the second parts do. */
  lemma SameChange(a: bv32, b: bv32, c: bv32, d: bv32)
    requires Add(a, b) == Add(c, d)
    ensures Add(a, c) == Add(b, d)
  {
    hide Add;
    AddSwap(a, b, c, d);
    AddZero(Add(a, b));
    AddIsZero(Add(a, c), Add(b, d));
  }

  /** The result of a call and the LFSR part give the LCG part back. */
  lemma OutputReveals(s: State, t: State)
    requires s.x == t.x && Output(s) == Output(t)
    ensures s.y == t.y
  {
    hide Bits, Add, Output;
    OutputIs(s);
    OutputIs(t);
    SameChange(s.x, Bits(s.y), t.x, Bits(t.y));
    AddZero(s.x);
    AddIsZero(Bits(s.y), Bits(t.y));
    BitsInjective(s.y, t.y);
  }

  lemma AddBits(a: bv32, b: bv32)
    ensures Odd(Add(a, b)) <==> Odd(a) != Odd(b)
    ensures Half(Add(a, b)) == Add(Half(a), Half(b))
  {}

  lemma {:induction false} WordBitAdd(a: bv32, b: bv32, j: nat)
    ensures WordBit(Add(a, b), j) <==> WordBit(a, j) != WordBit(b, j)
    decreases j
  {
    hide Add, Odd, Half;
    AddBits(a, b);
    if j > 0 { WordBitAdd(Half(a), Half(b), j - 1); }
  }

  /** Each bit of the result is the exclusive or of the bits of the two parts. */
  lemma OutputBit(s: State, j: nat)
    ensures WordBit(Output(s), j) <==> WordBit(s.x, j) != NumberBit(s.y, j)
  {
    hide Bits, Add, Output, WordBit;
    OutputIs(s);
    WordBitAdd(s.x, Bits(s.y), j);
    BitsBit(s.y, j);
  }

  // ------------------------------------------------------- known values

  lemma FirstBits()
    ensures Bits(0xe2a2_1761) == 0xe2a2_1761
  {
    assert Bits(0xe2) == 0xe2;
    assert Bits(0xe2a2) == 0xe2a2;
    assert Bits(0xe2_a217) == 0xe2_a217;
  }

  /** The first state after seeding, and the first number returned. */
  lemma FirstOutput()
    ensures Next(SEED) == State(0x8689_8e84, 0xe2a2_1761) && Output(Next(SEED)) == 0x642b_99e5
  {
    hide Bits;
    FirstBits();
  }

  // ------------------------------------------------------- the period of the output

  /** From now on every number is returned again n calls later. */
  ghost predicate OutputRepeats(s: State, n: nat) {
    forall k: nat :: Output(Run(s, k + n)) == Output(Run(s, k))
  }

  /** The difference of the LFSR parts after k and k + n steps. */
  function LfsrChange(s: State, n: nat, k: nat): bv32 {
    Add(Steps(s.x, k + n), Steps(s.x, k))
  }

  /** When the output repeats, both parts change in the same bits. */
  lemma ChangesAgree(s: State, n: nat, k: nat)
    requires OutputRepeats(s, n)
    ensures LfsrChange(s, n, k) == Add(Bits(Lcg(s.y, k + n)), Bits(Lcg(s.y, k)))
  {
    hide Bits, Add, Run, Lcg, Steps, Output;
    OutputIs(Run(s, k + n));
    OutputIs(Run(s, k));
    RunOfLfsr(s, k + n);
    RunOfLfsr(s, k);
    RunParts(s, k + n);
    RunParts(s, k);
    SameChange(Steps(s.x, k + n), Bits(Lcg(s.y, k + n)), Steps(s.x, k), Bits(Lcg(s.y, k)));
  }

  lemma LcgComesRound(y: Uint32, k: nat, m: nat)
    requires m % LCG_MODULUS == 0
    ensures Lcg(y, k + m) == Lcg(y, k)
  {
    hide Lcg;
    LcgSplit(y, k, m);
    LcgPeriod(Lcg(y, k), m);
  }

  lemma LfsrComesRound(x: bv32, k: nat, m: nat)
    requires m % LFSR_PERIOD == 0
    ensures Steps(x, k + m) == Steps(x, k)
  {
    hide Steps;
    StepsAdd(x, k, m);
    FullTurns(Steps(x, k), m);
  }

  /** 2^32 steps do not change the LCG part, and change the LFSR part as one step does: the change in the
      LFSR part is the same before and after a step. */
  lemma ChangeStays(s: State, n: nat, m: nat, k: nat)
    requires OutputRepeats(s, n) && m == LFSR_PERIOD
    ensures LfsrChange(s, n, k + 1) == LfsrChange(s, n, k)
  {
    hide Bits, Add, Run, Lcg, Steps, OutputRepeats;
    var l := m + 1;
    ChangesAgree(s, n, k);
    ChangesAgree(s, n, k + l);
    LcgComesRound(s.y, k, l);
    LcgComesRound(s.y, k + n, l);
    LfsrComesRound(s.x, k + 1, m);
    LfsrComesRound(s.x, k + n + 1, m);
    assert k + l + n == k + n + l && k + l == k + 1 + m && k + l + n == k + n + 1 + m && k + 1 + n == k + n + 1;
  }

  /** A state that a step does not change is 0. */
  lemma FixedIsZero(d: bv32)
    requires LfsrStep(d) == d
    ensures d == 0
  {
    hide LfsrStep;
    if d != 0 {
      assert Steps(d, 0) == d;
      assert Steps(d, 1) == LfsrStep(Steps(d, 0));
      LfsrHasFullPeriod(d, 1);
    }
  }

  lemma NoChange(s: State, n: nat)
    requires OutputRepeats(s, n)
    ensures Steps(s.x, n) == s.x && Lcg(s.y, n) == s.y
  {
    hide LfsrStep, Add, Bits, Run, OutputRepeats;
    var d := LfsrChange(s, n, 0);
    ChangeStays(s, n, LFSR_PERIOD, 0);
    NextChange(s, n);
    FixedIsZero(d);
    AddIsZero(Steps(s.x, n), s.x);
    ChangesAgree(s, n, 0);
    AddIsZero(Bits(Lcg(s.y, n)), Bits(s.y));
    BitsInjective(Lcg(s.y, n), s.y);
  }

  lemma NextChange(s: State, n: nat)
    ensures LfsrChange(s, n, 1) == LfsrStep(LfsrChange(s, n, 0))
  {
    hide LfsrStep, Add;
    assert Steps(s.x, 1 + n) == LfsrStep(Steps(s.x, n));
    assert Steps(s.x, 1) == LfsrStep(Steps(s.x, 0));
    StepAdds(Steps(s.x, n), s.x);
  }

  /** The numbers that the generator returns have exactly the period of its state: from a state whose LFSR part is
      not 0 they repeat after n calls exactly if n is a multiple of 2^32 (2^32 - 1). */
  lemma OutputPeriod(s: State, n: nat)
    requires s.x != 0
    ensures OutputRepeats(s, n) <==> n % (LCG_MODULUS * LFSR_PERIOD) == 0
  {
    hide Run, Output, Lcg, Steps;
    if n % (LCG_MODULUS * LFSR_PERIOD) == 0 {
      GeneratorPeriod(s, n);
      forall k: nat ensures Output(Run(s, k + n)) == Output(Run(s, k)) {
        RunSplit(s, n, k);
        assert n + k == k + n;
      }
    }
    if OutputRepeats(s, n) {
      NoChange(s, n);
      LfsrHasFullPeriod(s.x, n);
      LcgPeriod(s.y, n);
      BothPeriods(n);
    }
  }
}
