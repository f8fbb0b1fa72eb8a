/** The states of the LFSR as polynomials over two elements: the highest bit is the constant term,
    a step multiplies by the indeterminate, and the feedback mask reduces the result. */
module Polynomials {
  import opened Arithmetic
  import opened Prng

  /** The polynomial 1. */
  const ONE: bv32 := 0x8000_0000

  function Add(a: bv32, b: bv32): bv32 {
    a ^ b
  }

  /** The constant term of `a`, times x. */
  function Pick(a: bv32, x: bv32): bv32 {
    if a & ONE != 0 then x else 0
  }

  /** `a` without its constant term, divided by the indeterminate. */
  function Rest(a: bv32): bv32 {
    a << 1
  }

  /** The first n terms of `a` times x. */
  function Times(a: bv32, x: bv32, n: nat): bv32
    decreases n
  {
    if n == 0 then 0 else Add(Pick(a, x), Times(Rest(a), LfsrStep(x), n - 1))
  }

  /** n steps. */
  function Steps(x: bv32, n: nat): bv32 {
    if n == 0 then x else LfsrStep(Steps(x, n - 1))
  }

  function Rests(a: bv32, n: nat): bv32 {
    if n == 0 then a else Rest(Rests(a, n - 1))
  }

  // ------------------------------------------------------- linearity

  lemma XorSwap(a: bv32, b: bv32, c: bv32, d: bv32)
    ensures ((a ^ b) ^ (c ^ d)) == ((a ^ c) ^ (b ^ d))
  {}

  lemma ShiftLinear(x: bv32, y: bv32)
    ensures (x ^ y) >> 1 == (x >> 1) ^ (y >> 1) && (x ^ y) & 1 == (x & 1) ^ (y & 1)
  {}

  function Fed(x: bv32): bv32 {
    if x & 1 == 1 then LFSR_MASK else 0
  }

  lemma FedLinear(x: bv32, y: bv32)
    ensures Fed(x ^ y) == Fed(x) ^ Fed(y)
  {}

  lemma StepIs(x: bv32)
    ensures LfsrStep(x) == (x >> 1) ^ Fed(x)
  {
    Feedback(x);
  }

  lemma StepLinear(x: bv32, y: bv32)
    ensures LfsrStep(x ^ y) == LfsrStep(x) ^ LfsrStep(y)
  {
    StepIs(x);
    StepIs(y);
    StepIs(x ^ y);
    ShiftLinear(x, y);
    FedLinear(x, y);
    XorSwap(x >> 1, Fed(x), y >> 1, Fed(y));
  }

  lemma AddCommutes(a: bv32, b: bv32)
    ensures Add(a, b) == Add(b, a)
  {}

  lemma AddAssociates(a: bv32, b: bv32, c: bv32)
    ensures Add(Add(a, b), c) == Add(a, Add(b, c))
  {}

  lemma AddSwap(a: bv32, b: bv32, c: bv32, d: bv32)
    ensures Add(Add(a, b), Add(c, d)) == Add(Add(a, c), Add(b, d))
  {
    hide Add;
    AddAssociates(a, b, Add(c, d));
    AddAssociates(b, c, d);
    AddCommutes(b, c);
    AddAssociates(c, b, d);
    AddAssociates(a, c, Add(b, d));
  }

  lemma AddZero(a: bv32)
    ensures Add(a, 0) == a && Add(0, a) == a && Add(a, a) == 0
  {}

  lemma StepAdds(x: bv32, y: bv32)
    ensures LfsrStep(Add(x, y)) == Add(LfsrStep(x), LfsrStep(y))
  {
    StepLinear(x, y);
  }

  lemma PickLinear(a: bv32, x: bv32, y: bv32)
    ensures Pick(a, Add(x, y)) == Add(Pick(a, x), Pick(a, y))
  {}

  lemma RestAdds(a: bv32, b: bv32)
    ensures Rest(Add(a, b)) == Add(Rest(a), Rest(b))
  {}

  lemma PickAdds(a: bv32, b: bv32, x: bv32)
    ensures Pick(Add(a, b), x) == Add(Pick(a, x), Pick(b, x))
  {
    TopOfXor(a, b);
    AddZero(x);
    AddZero(0);
  }

  lemma TopOfXor(a: bv32, b: bv32)
    ensures (a ^ b) & ONE != 0 <==> (a & ONE != 0) != (b & ONE != 0)
  {}

  lemma PickStep(a: bv32, x: bv32)
    ensures LfsrStep(Pick(a, x)) == Pick(a, LfsrStep(x))
  {
    StepZero();
  }

  lemma StepZero()
    ensures LfsrStep(0) == 0
  {}

  lemma {:induction false} TimesLinear(a: bv32, x: bv32, y: bv32, n: nat)
    ensures Times(a, Add(x, y), n) == Add(Times(a, x, n), Times(a, y, n))
    decreases n
  {
    hide Add, Pick, Rest, LfsrStep;
    if n == 0 {
      AddZero(0);
    } else {
      StepAdds(x, y);
      PickLinear(a, x, y);
      TimesLinear(Rest(a), LfsrStep(x), LfsrStep(y), n - 1);
      AddSwap(Pick(a, x), Pick(a, y), Times(Rest(a), LfsrStep(x), n - 1), Times(Rest(a), LfsrStep(y), n - 1));
    }
  }

  lemma {:induction false} TimesAdds(a: bv32, b: bv32, x: bv32, n: nat)
    ensures Times(Add(a, b), x, n) == Add(Times(a, x, n), Times(b, x, n))
    decreases n
  {
    hide Add, Pick, Rest, LfsrStep;
    if n == 0 {
      AddZero(0);
    } else {
      PickAdds(a, b, x);
      RestAdds(a, b);
      TimesAdds(Rest(a), Rest(b), LfsrStep(x), n - 1);
      AddSwap(Pick(a, x), Pick(b, x), Times(Rest(a), LfsrStep(x), n - 1), Times(Rest(b), LfsrStep(x), n - 1));
    }
  }

  lemma {:induction false} TimesStep(a: bv32, x: bv32, n: nat)
    ensures Times(a, LfsrStep(x), n) == LfsrStep(Times(a, x, n))
    decreases n
  {
    hide Add, Pick, Rest, LfsrStep;
    if n == 0 {
      StepZero();
    } else {
      StepAdds(Pick(a, x), Times(Rest(a), LfsrStep(x), n - 1));
      PickStep(a, x);
      TimesStep(Rest(a), LfsrStep(x), n - 1);
    }
  }

  lemma PickZero(a: bv32, x: bv32)
    ensures Pick(a, 0) == 0 && Pick(0, x) == 0 && Pick(ONE, x) == x && Rest(0) == 0 && Rest(ONE) == 0
  {}

  lemma {:induction false} TimesZero(a: bv32, x: bv32, n: nat)
    ensures Times(a, 0, n) == 0 && Times(0, x, n) == 0
    decreases n
  {
    hide Add, Pick, Rest, LfsrStep;
    if n > 0 {
      StepZero();
      PickZero(a, x);
      AddZero(0);
      TimesZero(Rest(a), LfsrStep(x), n - 1);
    }
  }

  lemma TimesOne(x: bv32, n: nat)
    requires n > 0
    ensures Times(ONE, x, n) == x
  {
    hide Add, Pick, Rest, LfsrStep;
    PickZero(ONE, x);
    TimesZero(ONE, LfsrStep(x), n - 1);
    AddZero(x);
  }

  // ------------------------------------------------------- the last term

  lemma {:induction false} StepsFirst(x: bv32, n: nat)
    ensures Steps(LfsrStep(x), n) == Steps(x, n + 1)
  {
    hide LfsrStep;
    if n > 0 { StepsFirst(x, n - 1); }
  }

  lemma {:induction false} RestsFirst(a: bv32, n: nat)
    ensures Rests(Rest(a), n) == Rests(a, n + 1)
  {
    hide Rest;
    if n > 0 { RestsFirst(a, n - 1); }
  }

  lemma {:induction false} SplitLast(a: bv32, x: bv32, n: nat)
    ensures Times(a, x, n + 1) == Add(Times(a, x, n), Pick(Rests(a, n), Steps(x, n)))
    decreases n
  {
    hide Add, Pick, Rest, LfsrStep;
    if n == 0 {
      assert Times(Rest(a), LfsrStep(x), 0) == 0;
      AddCommutes(Pick(a, x), 0);
    } else {
      SplitLast(Rest(a), LfsrStep(x), n - 1);
      RestsFirst(a, n - 1);
      StepsFirst(x, n - 1);
      AddAssociates(Pick(a, x), Times(Rest(a), LfsrStep(x), n - 1), Pick(Rests(a, n), Steps(x, n)));
    }
  }

  lemma RestDisjoint(a: bv32, b: bv32)
    requires a & b == 0
    ensures Rest(a) & Rest(b) == 0
  {}

  lemma {:induction false} RestsDisjoint(a: bv32, b: bv32, n: nat)
    requires a & b == 0
    ensures Rests(a, n) & Rests(b, n) == 0
  {
    hide Rest;
    if n > 0 {
      RestsDisjoint(a, b, n - 1);
      RestDisjoint(Rests(a, n - 1), Rests(b, n - 1));
    }
  }

  lemma LowestToHighest()
    ensures Rests(1, 31) == ONE
  {
    assert Rests(1, 8) == 0x100;
    assert Rests(1, 16) == 0x1_0000;
    assert Rests(1, 24) == 0x100_0000;
  }

  lemma {:induction false} RestsAdd(a: bv32, m: nat, n: nat)
    ensures Rests(Rests(a, m), n) == Rests(a, m + n)
  {
    hide Rest;
    if n > 0 { RestsAdd(a, m, n - 1); }
  }

  /** n ones. */
  function Ones(n: nat): bv32 {
    if n == 0 then 0 else (Ones(n - 1) << 1) | 1
  }

  lemma RestClear(a: bv32, m: bv32)
    requires a & m == 0
    ensures Rest(a) & ((m << 1) | 1) == 0
  {}

  lemma {:induction false} RestsClear(a: bv32, n: nat)
    ensures Rests(a, n) & Ones(n) == 0
  {
    hide Rest;
    if n > 0 {
      RestsClear(a, n - 1);
      RestClear(Rests(a, n - 1), Ones(n - 1));
    }
  }

  lemma AllOnes()
    ensures Ones(32) == 0xffff_ffff
  {
    assert Ones(8) == 0xff;
    assert Ones(16) == 0xffff;
    assert Ones(24) == 0xff_ffff;
  }

  lemma NothingLeft(a: bv32)
    ensures Rests(a, 32) == 0
  {
    hide Rests;
    RestsClear(a, 32);
    AllOnes();
  }

  // ------------------------------------------------------- products of known polynomials

  /** The first 8 * n terms of the product, eight at a time. */
  function Eights(a: bv32, x: bv32, n: nat): bv32
    decreases n
  {
    if n == 0 then 0
    else
      var b, y := Rest(a), LfsrStep(x);
      var c, z := Rest(b), LfsrStep(y);
      var d, w := Rest(c), LfsrStep(z);
      var e, v := Rest(d), LfsrStep(w);
      var f, u := Rest(e), LfsrStep(v);
      var g, t := Rest(f), LfsrStep(u);
      var h, s := Rest(g), LfsrStep(t);
      var rest := Eights(Rest(h), LfsrStep(s), n - 1);
      Add(Pick(a, x), Add(Pick(b, y), Add(Pick(c, z), Add(Pick(d, w),
        Add(Pick(e, v), Add(Pick(f, u), Add(Pick(g, t), Add(Pick(h, s), rest))))))))
  }

  lemma TimesTwo(a: bv32, x: bv32, n: nat)
    ensures Times(a, x, n + 2) == Add(Pick(a, x), Add(Pick(Rest(a), LfsrStep(x)), Times(Rest(Rest(a)), LfsrStep(LfsrStep(x)), n)))
  {
    hide Add, Pick, Rest, LfsrStep;
    assert Times(a, x, n + 2) == Add(Pick(a, x), Times(Rest(a), LfsrStep(x), n + 1));
  }

  lemma {:induction false} EightsIsTimes(a: bv32, x: bv32, n: nat)
    ensures Eights(a, x, n) == Times(a, x, 8 * n)
    decreases n
  {
    hide Add, Pick, Rest, LfsrStep;
    if n > 0 {
      var c, z := Rest(Rest(a)), LfsrStep(LfsrStep(x));
      var e, v := Rest(Rest(c)), LfsrStep(LfsrStep(z));
      var g, t := Rest(Rest(e)), LfsrStep(LfsrStep(v));
      var m := 8 * (n - 1);
      EightsIsTimes(Rest(Rest(g)), LfsrStep(LfsrStep(t)), n - 1);
      TimesTwo(g, t, m);
      TimesTwo(e, v, m + 2);
      TimesTwo(c, z, m + 4);
      TimesTwo(a, x, m + 6);
    }
  }

  /** The product of two polynomials. */
  function Product(a: bv32, b: bv32): bv32 {
    Eights(a, b, 4)
  }

  lemma ProductIsTimes(a: bv32, b: bv32)
    ensures Product(a, b) == Times(a, b, 32)
  {
    hide Eights, Times;
    EightsIsTimes(a, b, 4);
  }

  // ------------------------------------------------------- a step of a product

  /** `a` without its constant term. */
  function Clear(a: bv32): bv32 {
    a & 0x7fff_ffff
  }

  lemma WithHighest(a: bv32)
    requires a & ONE != 0
    ensures Add(ONE, Clear(a)) == a
  {}

  lemma WithoutHighest(a: bv32)
    requires a & ONE == 0
    ensures Add(0, Clear(a)) == a
  {}

  lemma ClearAndPick(a: bv32)
    ensures a == Add(Pick(a, ONE), Clear(a))
  {
    hide Add, Clear;
    if a & ONE != 0 { WithHighest(a); } else { WithoutHighest(a); }
  }

  lemma ShiftedBack(a: bv32)
    ensures (a << 1) & 1 == 0 && (a << 1) >> 1 == a & 0x7fff_ffff
  {}

  lemma StepOfEven(a: bv32)
    requires a & 1 == 0
    ensures LfsrStep(a) == a >> 1
  {}

  lemma StepOfRest(a: bv32)
    ensures LfsrStep(Rest(a)) == Clear(a)
  {
    hide LfsrStep;
    ShiftedBack(a);
    StepOfEven(a << 1);
  }

  lemma Decompose(a: bv32)
    ensures a == Add(Pick(a, ONE), LfsrStep(Rest(a)))
  {
    hide *;
    ClearAndPick(a);
    StepOfRest(a);
  }

  lemma MaskTimesOne()
    ensures Times(LFSR_MASK, ONE, 32) == LFSR_MASK && Times(1, ONE, 32) == 1
  {
    hide Times;
    ProductIsTimes(LFSR_MASK, ONE);
    ProductIsTimes(1, ONE);
  }

  /** The mask is what the indeterminate to the 32nd is reduced to. */
  lemma {:induction false} Reduction(x: bv32, n: nat)
    requires Rests(x, n) == 0
    ensures Times(LFSR_MASK, x, 32) == LfsrStep(Times(1, x, 32))
    decreases n
  {
    hide Add, Pick, Rest, LfsrStep, Times;
    if n == 0 {
      TimesZero(LFSR_MASK, 0, 32);
      TimesZero(1, 0, 32);
      StepZero();
    } else {
      var p, q := Pick(x, ONE), LfsrStep(Rest(x));
      RestsFirst(x, n - 1);
      Reduction(Rest(x), n - 1);
      TimesStep(LFSR_MASK, Rest(x), 32);
      TimesStep(1, Rest(x), 32);
      ReductionOfOne(x);
      Decompose(x);
      TimesLinear(LFSR_MASK, p, q, 32);
      TimesLinear(1, p, q, 32);
      StepAdds(Times(1, p, 32), Times(1, q, 32));
    }
  }

  lemma MaskIsStepOfLowest()
    ensures LfsrStep(1) == LFSR_MASK
  {}

  lemma PickOne(x: bv32)
    ensures Pick(x, ONE) == ONE || Pick(x, ONE) == 0
  {}

  lemma ReductionOfOne(x: bv32)
    ensures Times(LFSR_MASK, Pick(x, ONE), 32) == LfsrStep(Times(1, Pick(x, ONE), 32))
  {
    hide Pick, LfsrStep, Times;
    PickOne(x);
    MaskTimesOne();
    MaskIsStepOfLowest();
    TimesZero(LFSR_MASK, 0, 32);
    TimesZero(1, 0, 32);
    StepZero();
  }

  lemma EvenTimes(a: bv32, x: bv32)
    requires a & 1 == 0
    ensures Times(a, x, 32) == Times(a, x, 31)
  {
    hide Add, Rest, Times;
    RestsDisjoint(a, 1, 31);
    LowestToHighest();
    SplitLast(a, x, 31);
    AddZero(Times(a, x, 31));
  }

  lemma StepOfEvenParts(a: bv32, x: bv32)
    requires a & 1 == 0
    ensures Pick(LfsrStep(a), x) == 0 && Rest(LfsrStep(a)) == a
  {
    hide LfsrStep;
    StepOfEven(a);
  }

  lemma StepOfEvenTimes(a: bv32, x: bv32)
    requires a & 1 == 0
    ensures Times(LfsrStep(a), x, 32) == LfsrStep(Times(a, x, 32))
  {
    hide Add, Pick, Rest, LfsrStep;
    EvenTimes(a, x);
    StepOfEvenParts(a, x);
    TimesStep(a, x, 31);
    AddZero(Times(a, LfsrStep(x), 31));
  }

  function Even(a: bv32): bv32 {
    a & 0xffff_fffe
  }

  lemma EvenAndLowest(a: bv32)
    ensures Even(a) & 1 == 0
    ensures a == Even(a) || a == Add(Even(a), 1)
  {}

  /** The step of a product is the product with the step of a factor. */
  lemma StepTimes(a: bv32, x: bv32)
    ensures Times(LfsrStep(a), x, 32) == LfsrStep(Times(a, x, 32))
  {
    hide Add, Even, LfsrStep, Times;
    var b := Even(a);
    EvenAndLowest(a);
    StepOfEvenTimes(b, x);
    if a != b {
      NothingLeft(x);
      Reduction(x, 32);
      MaskIsStepOfLowest();
      StepAdds(b, 1);
      TimesAdds(LfsrStep(b), LfsrStep(1), x, 32);
      TimesAdds(b, 1, x, 32);
      StepAdds(Times(b, x, 32), Times(1, x, 32));
    }
  }

  /** n steps multiply by the polynomial that n steps make of 1. */
  lemma {:induction false} StepsAreProduct(x: bv32, n: nat)
    ensures Times(Steps(ONE, n), x, 32) == Steps(x, n)
  {
    hide Times, LfsrStep;
    if n == 0 {
      TimesOne(x, 32);
    } else {
      StepsAreProduct(x, n - 1);
      StepTimes(Steps(ONE, n - 1), x);
    }
  }

  lemma TimesPick(a: bv32, b: bv32, x: bv32)
    ensures Times(Pick(a, b), x, 32) == Pick(a, Times(b, x, 32))
  {
    hide Times;
    TimesZero(0, x, 32);
  }

  lemma {:induction false} Associates(a: bv32, b: bv32, x: bv32, n: nat)
    ensures Times(Times(a, b, n), x, 32) == Times(a, Times(b, x, 32), n)
    decreases n
  {
    if n == 0 {
      TimesZero(0, x, 32);
    } else {
      AssociatesStep(a, b, x, n);
      Associates(Rest(a), LfsrStep(b), x, n - 1);
      StepTimes(b, x);
    }
  }

  lemma AssociatesStep(a: bv32, b: bv32, x: bv32, n: nat)
    requires n > 0
    ensures Times(Times(a, b, n), x, 32) == Add(Pick(a, Times(b, x, 32)), Times(Times(Rest(a), LfsrStep(b), n - 1), x, 32))
  {
    hide Add, Pick, Rest, LfsrStep;
    TimesAdds(Pick(a, b), Times(Rest(a), LfsrStep(b), n - 1), x, 32);
    TimesPick(a, b, x);
  }
}
