/** The pseudo-random generator: a Galois LFSR combined with a linear congruential generator. */
module Prng {
  import opened Arithmetic

  const LCG_MODULUS := 0x1_0000_0000
  const LCG_MULTIPLIER := 1103515245
  const LCG_INCREMENT := 12345
  const LFSR_MASK: bv32 := 0xd000_0001

  type Uint32 = n: nat | n < LCG_MODULUS

  datatype State = State(x: bv32, y: Uint32)

  function LfsrStep(x: bv32): bv32 {
    (x >> 1) ^ ((1 + !(x & 1)) & LFSR_MASK)
  }

  function LcgStep(y: Uint32): Uint32 {
    (y * LCG_MULTIPLIER + LCG_INCREMENT) % LCG_MODULUS
  }

  function Next(s: State): State {
    State(LfsrStep(s.x), LcgStep(s.y))
  }

  /** The bits of an unsigned number. */
  function Bits(n: nat): bv32 {
    if n == 0 then 0 else (Bits(n / 2) << 1) | (if n % 2 == 1 then 1 else 0)
  }

  function Output(s: State): bv32 {
    s.x ^ Bits(s.y)
  }

  function Run(s: State, n: nat): State {
    if n == 0 then s else Next(Run(s, n - 1))
  }

  // ------------------------------------------------------- the LFSR

  function LfsrBack(z: bv32): bv32 {
    if z & 0x8000_0000 != 0 then ((z ^ LFSR_MASK) << 1) | 1 else z << 1
  }

  /** The feedback is the mask when the lowest bit is set, and nothing otherwise. */
  lemma Feedback(x: bv32)
    ensures (1 + !(x & 1)) & LFSR_MASK == if x & 1 == 1 then LFSR_MASK else 0
  {}

  lemma LfsrBackUndoes(x: bv32)
    ensures LfsrBack(LfsrStep(x)) == x
  {
    Feedback(x);
  }

  lemma ShiftedInOne(v: bv32)
    requires v & 0x8000_0000 == 0
    ensures ((v << 1) | 1) >> 1 == v && ((v << 1) | 1) & 1 == 1
  {}

  lemma ShiftedInZero(v: bv32)
    requires v & 0x8000_0000 == 0
    ensures (v << 1) >> 1 == v && (v << 1) & 1 == 0
  {}

  lemma XorTwice(v: bv32, m: bv32)
    ensures (v ^ m) ^ m == v && v ^ 0 == v
  {}

  lemma LfsrUndoesBack(z: bv32)
    ensures LfsrStep(LfsrBack(z)) == z
  {
    Feedback(LfsrBack(z));
    XorTwice(z, LFSR_MASK);
    if z & 0x8000_0000 != 0 { ShiftedInOne(z ^ LFSR_MASK); } else { ShiftedInZero(z); }
  }

  lemma LfsrAvoidsZero(x: bv32)
    ensures LfsrStep(x) == 0 <==> x == 0
  {
    LfsrBackUndoes(x);
  }

  // ------------------------------------------------------- the LCG

  /** n is a multiple of 2^k. */
  predicate Multiple(k: nat, n: nat) {
    k == 0 || (n % 2 == 0 && Multiple(k - 1, n / 2))
  }

  function Pow(a: nat, n: nat): nat {
    if n == 0 then 1 else a * Pow(a, n - 1)
  }

  /** 1 + a + ... + a^(n-1) */
  function Geometric(a: nat, n: nat): nat {
    if n == 0 then 0 else 1 + a * Geometric(a, n - 1)
  }

  lemma {:induction false} MultipleIsDivisible(k: nat, n: nat)
    ensures Multiple(k, n) <==> n % Pow2(k) == 0
  {
    if k > 0 {
      MultipleIsDivisible(k - 1, n / 2);
      Halve(n, Pow2(k - 1));
    }
  }

  lemma OddProduct(s: nat, q: nat)
    requires q % 2 == 1
    ensures s * q % 2 == s % 2 && (s % 2 == 0 ==> s * q / 2 == s / 2 * q)
  {
    var h := q / 2;
    assert s * q == 2 * (s * h) + s;
    if s % 2 == 0 { assert s * q == 2 * (s / 2 * q); }
  }

  lemma {:induction false} OddFactor(k: nat, s: nat, q: nat)
    requires q % 2 == 1
    ensures Multiple(k, s * q) <==> Multiple(k, s)
  {
    if k > 0 {
      OddProduct(s, q);
      if s % 2 == 0 { OddFactor(k - 1, s / 2, q); }
    }
  }

  lemma ProductMod4(a: nat, c: nat)
    requires a % 4 == 1 && c % 4 == 1
    ensures a * c % 4 == 1
  {
    var b, d := a / 4, c / 4;
    assert a * c == (4 * b + 1) * (4 * d + 1) == 4 * (4 * (b * d) + b + d) + 1;
    DivModUnique(a * c, 4, 4 * (b * d) + b + d, 1);
  }

  lemma {:induction false} PowMod4(a: nat, n: nat)
    requires a % 4 == 1
    ensures Pow(a, n) % 4 == 1
  {
    if n > 0 {
      PowMod4(a, n - 1);
      ProductMod4(a, Pow(a, n - 1));
    }
  }

  lemma SumStep(a: nat, g: nat, p: nat, h: nat)
    ensures 1 + a * (g + p * h) == (1 + a * g) + (a * p) * h
  {
    assert a * (g + p * h) == a * g + a * (p * h);
  }

  lemma {:induction false} GeometricSum(a: nat, m: nat, n: nat)
    ensures Geometric(a, m + n) == Geometric(a, m) + Pow(a, m) * Geometric(a, n)
  {
    if m > 0 {
      GeometricSum(a, m - 1, n);
      SumStep(a, Geometric(a, m - 1), Pow(a, m - 1), Geometric(a, n));
    }
  }

  lemma OddTimes(a: nat, g: nat)
    requires a % 2 == 1
    ensures (1 + a * g) % 2 == (1 + g) % 2
  {
    var h := a / 2;
    assert 1 + a * g == 2 * (h * g) + (1 + g);
    DivModUnique(1 + a * g, 2, h * g + (1 + g) / 2, (1 + g) % 2);
  }

  lemma NextParity(a: nat, g: nat, n: nat)
    requires a % 2 == 1 && n > 0 && g % 2 == (n - 1) % 2
    ensures (1 + a * g) % 2 == n % 2
  {
    OddTimes(a, g);
  }

  lemma {:induction false} GeometricParity(a: nat, n: nat)
    requires a % 2 == 1
    ensures Geometric(a, n) % 2 == n % 2
  {
    if n > 0 {
      GeometricParity(a, n - 1);
      NextParity(a, Geometric(a, n - 1), n);
    }
  }

  lemma Doubled(g: nat, p: nat, q: nat)
    requires 1 + p == 2 * q
    ensures g + p * g == 2 * (g * q)
  {
    assert g + p * g == (1 + p) * g;
  }

  /** The sum of an even number of terms is twice the sum of half of them, times an odd number. */
  lemma GeometricDouble(a: nat, m: nat) returns (q: nat)
    requires a % 4 == 1
    ensures q % 2 == 1 && Geometric(a, 2 * m) == 2 * (Geometric(a, m) * q)
  {
    hide Geometric, Pow;
    GeometricSum(a, m, m);
    PowMod4(a, m);
    q := (1 + Pow(a, m)) / 2;
    Doubled(Geometric(a, m), Pow(a, m), q);
  }

  /** 1 + a + ... + a^(n-1) has exactly the powers of two of n. */
  lemma {:induction false} GeometricMultiple(k: nat, a: nat, n: nat)
    requires a % 4 == 1
    ensures Multiple(k, Geometric(a, n)) <==> Multiple(k, n)
  {
    if k > 0 {
      GeometricParity(a, n);
      if n % 2 == 0 {
        var q := GeometricDouble(a, n / 2);
        OddFactor(k - 1, Geometric(a, n / 2), q);
        GeometricMultiple(k - 1, a, n / 2);
      }
    }
  }

  function Lcg(y: Uint32, n: nat): Uint32 {
    if n == 0 then y else LcgStep(Lcg(y, n - 1))
  }

  /** n steps add the geometric sum times an odd number. */
  lemma {:induction false} LcgClosedForm(y: Uint32, n: nat)
    ensures Lcg(y, n) == (y + Geometric(LCG_MULTIPLIER, n) * ((LCG_MULTIPLIER - 1) * y + LCG_INCREMENT)) % LCG_MODULUS
  {
    if n > 0 {
      LcgClosedForm(y, n - 1);
      var a, c, m := LCG_MULTIPLIER, LCG_INCREMENT, LCG_MODULUS;
      var g, k := Geometric(a, n - 1), (a - 1) * y + c;
      var z := y + g * k;
      assert a * z + c == y + (1 + a * g) * k by { Distribute(a, c, y, g); }
      StepMod(z);
    }
  }

  lemma Distribute(a: int, c: int, y: int, g: int)
    ensures var k := (a - 1) * y + c; a * (y + g * k) + c == y + (1 + a * g) * k
  {
    var k := (a - 1) * y + c;
    assert a * (y + g * k) == a * y + (a * g) * k;
  }

  lemma StepMod(z: nat)
    ensures LcgStep(z % LCG_MODULUS) == (LCG_MULTIPLIER * z + LCG_INCREMENT) % LCG_MODULUS
  {
    var q, r := z / LCG_MODULUS, z % LCG_MODULUS;
    var t := r * LCG_MULTIPLIER + LCG_INCREMENT;
    assert z == LCG_MODULUS * q + r;
    DivModUnique(LCG_MULTIPLIER * z + LCG_INCREMENT, LCG_MODULUS, LCG_MULTIPLIER * q + t / LCG_MODULUS, t % LCG_MODULUS);
  }

  lemma OddIncrement(y: nat)
    ensures ((LCG_MULTIPLIER - 1) * y + LCG_INCREMENT) % 2 == 1
  {}

  lemma BackHome(y: Uint32, d: nat)
    ensures (y + d) % LCG_MODULUS == y <==> d % LCG_MODULUS == 0
  {}

  lemma GeometricModulus(n: nat, k: nat)
    requires k % 2 == 1
    ensures Geometric(LCG_MULTIPLIER, n) * k % LCG_MODULUS == 0 <==> n % LCG_MODULUS == 0
  {
    var g := Geometric(LCG_MULTIPLIER, n);
    Pow2Of32();
    MultipleIsDivisible(32, g * k);
    OddFactor(32, g, k);
    GeometricMultiple(32, LCG_MULTIPLIER, n);
    MultipleIsDivisible(32, n);
  }

  /** The LCG returns to where it was exactly after the multiples of 2^32 steps. */
  lemma LcgPeriod(y: Uint32, n: nat)
    ensures Lcg(y, n) == y <==> n % LCG_MODULUS == 0
  {
    var k := (LCG_MULTIPLIER - 1) * y + LCG_INCREMENT;
    LcgClosedForm(y, n);
    BackHome(y, Geometric(LCG_MULTIPLIER, n) * k);
    OddIncrement(y);
    GeometricModulus(n, k);
  }

  lemma {:induction false} LcgSplit(y: Uint32, m: nat, n: nat)
    ensures Lcg(y, m + n) == Lcg(Lcg(y, m), n)
  {
    if n > 0 { LcgSplit(y, m, n - 1); }
  }

  lemma {:induction false} RunParts(s: State, n: nat)
    ensures Run(s, n).y == Lcg(s.y, n)
  {
    if n > 0 { RunParts(s, n - 1); }
  }

  /** Two states of a run can only be equal when a multiple of 2^32 steps lies between them;
      in particular the generator never repeats a state within 2^32 calls. */
  lemma StatesDoNotRepeat(s: State, m: nat, n: nat)
    requires m <= n && Run(s, m) == Run(s, n)
    ensures (n - m) % LCG_MODULUS == 0
  {
    RunParts(s, m);
    RunParts(s, n);
    LcgSplit(s.y, m, n - m);
    LcgPeriod(Lcg(s.y, m), n - m);
  }

  // ------------------------------------------------------- the generator

  const SEED := State(0xad13_1d0b, 0x44f9_eac8)

  /** INTERNAL_CACHE_SIZE: the number of elements of the cache. */
  const CACHE_SIZE := 1024 * 1024
  /** INTERNAL_CACHE_NUMBER_OF_ELEMENTS: the number of elements that are filled. */
  const FILLED := 1024 * 1024 / 4

  class Generator {
    var x: bv32
    var y: Uint32
    const internalCache: array<bv32>

    function Current(): State
      reads this
    {
      State(x, y)
    }

    constructor ()
      ensures fresh(internalCache) && internalCache.Length == CACHE_SIZE
    {
      x, y := 0, 0;
      internalCache := new bv32[CACHE_SIZE];
    }

    method GetNext() returns (r: bv32)
      modifies this`x, this`y
      ensures Current() == Next(old(Current())) && r == Output(Current())
    {
      hide Bits;
      x := (x >> 1) ^ ((1 + !(x & 1)) & LFSR_MASK);
      y := (y * LCG_MULTIPLIER + LCG_INCREMENT) % LCG_MODULUS;
      r := x ^ Bits(y);
    }

    /** Seeds the generator and fills the first part of the cache with its output. */
    method Init()
      requires internalCache.Length == CACHE_SIZE
      modifies this`x, this`y, internalCache
      ensures Current() == Run(SEED, FILLED)
      ensures forall i | 0 <= i < FILLED :: internalCache[i] == Output(Run(SEED, i + 1))
      ensures internalCache[FILLED..] == old(internalCache[FILLED..])
    {
      hide LfsrStep, LcgStep, Bits;
      x := 0xad13_1d0b;
      y := 0x44f9_eac8;
      var i := 0;
      while i < FILLED
        invariant 0 <= i <= FILLED && Current() == Run(SEED, i)
        invariant forall k | 0 <= k < i :: internalCache[k] == Output(Run(SEED, k + 1))
        invariant internalCache[FILLED..] == old(internalCache[FILLED..])
      {
        internalCache[i] := GetNext();
        i := i + 1;
      }
    }
  }

  /** What prng_get_cached_slice answers: no slice, a division by zero, or a place in the cache. */
  datatype Slice = NoSlice | DivisionByZero | At(offset: nat)

  /** prng_get_next_nonuniform_between(0, FILLED - len - 1) for the random number `r`; the bound
      is computed modulo 2^32. */
  function CachedSlice(len: int, r: Uint32): Slice {
    if len > CACHE_SIZE then NoSlice
    else
      var bound := (FILLED - len - 1) % LCG_MODULUS;
      if bound == 0 then DivisionByZero else At(r % bound)
  }

  predicate InsideFilledPart(len: int, s: Slice) {
    s.At? && 0 <= len && s.offset + len <= FILLED
  }

  /** The slice lies in the part of the cache that prng_init filled, whatever number is drawn,
      exactly for the lengths up to two less than that part has elements. */
  lemma CachedSliceIsFilled(len: int)
    requires -0x8000_0000 <= len < 0x8000_0000
    ensures (forall r: Uint32 :: InsideFilledPart(len, CachedSlice(len, r))) <==> 0 <= len <= 262142
  {
    if 0 <= len <= FILLED - 2 {
      forall r: Uint32 ensures InsideFilledPart(len, CachedSlice(len, r)) {
        assert (FILLED - len - 1) % LCG_MODULUS == FILLED - len - 1;
      }
    } else {
      var r: Uint32 := 1;
      assert !InsideFilledPart(len, CachedSlice(len, r));
    }
  }

  /** Asking for all but one of the filled elements divides by zero, asking for all of them
      can reach past their end. */
  lemma LongSlicesFail(r: Uint32)
    ensures CachedSlice(262143, r) == DivisionByZero
    ensures CachedSlice(262144, 1) == At(1)
  {}
}
