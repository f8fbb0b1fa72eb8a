/** The scattered keys of the speed test: bits reversed within a mask of ones. */
module Swizzle {
  import opened Arithmetic

  /** Unsigned integers are 32 bits wide. */
  const WIDTH := 0x1_0000_0000

  /** The number of binary digits of n, none for 0. */
  function Digits(n: nat): nat {
    if n == 0 then 0 else 1 + Digits(n / 2)
  }

  function Bit(x: nat, j: nat): nat {
    if j == 0 then x % 2 else Bit(x / 2, j - 1)
  }

  /** The low k bits of x in the opposite order. */
  function Reversed(k: nat, x: nat): nat {
    if k == 0 then 0 else x % 2 * Pow2(k - 1) + Reversed(k - 1, x / 2)
  }

  lemma {:induction false} BelowItsDigits(n: nat)
    ensures n < Pow2(Digits(n))
  {
    if n > 0 { BelowItsDigits(n / 2); }
  }

  lemma {:induction false} DigitsAtMost(n: nat, k: nat)
    requires n < Pow2(k)
    ensures Digits(n) <= k
    decreases k
  {
    if n > 0 { DigitsAtMost(n / 2, k - 1); }
  }

  // ------------------------------------------------------- reversal

  lemma {:induction false} ReversedBound(k: nat, x: nat)
    ensures Reversed(k, x) < Pow2(k)
    decreases k
  {
    if k > 0 {
      ReversedBound(k - 1, x / 2);
      TopBound(x % 2, Pow2(k - 1), Reversed(k - 1, x / 2));
    }
  }

  lemma TopBound(b: nat, p: nat, rest: nat)
    requires b < 2 && rest < p
    ensures b * p + rest < 2 * p
  {
    assert b == 0 || b == 1;
  }

  /** The highest bit of the argument becomes the lowest. */
  lemma {:induction false} ReversedOfTop(k: nat, high: nat, low: nat)
    requires high < 2 && low < Pow2(k)
    ensures Reversed(k + 1, high * Pow2(k) + low) == 2 * Reversed(k, low) + high
    decreases k
  {
    if k > 0 {
      var p, x := Pow2(k - 1), high * Pow2(k) + low;
      assert high * Pow2(k) == 2 * (high * p);
      assert x % 2 == low % 2 && x / 2 == high * p + low / 2;
      ReversedOfTop(k - 1, high, low / 2);
      TopAndRest(low % 2, p, Reversed(k, low), Reversed(k - 1, low / 2));
    }
  }

  lemma TopAndRest(b: nat, p: nat, whole: nat, rest: nat)
    requires whole == b * p + rest
    ensures b * (2 * p) + 2 * rest == 2 * whole
  {}

  /** Reversing twice gives back the low k bits. */
  lemma {:induction false} ReversedTwice(k: nat, x: nat)
    ensures Reversed(k, Reversed(k, x)) == x % Pow2(k)
    decreases k
  {
    if k > 0 {
      var r := Reversed(k - 1, x / 2);
      ReversedBound(k - 1, x / 2);
      ReversedOfTop(k - 1, x % 2, r);
      ReversedTwice(k - 1, x / 2);
      Halve(x, Pow2(k - 1));
    }
  }

  lemma LowHalves(k: nat, x: nat)
    requires k > 0
    ensures var y := x % Pow2(k); y % 2 == x % 2 && y / 2 == x / 2 % Pow2(k - 1)
  {
    RemainderHalves(x, Pow2(k - 1));
  }

  lemma RemainderHalves(x: nat, p: nat)
    requires p > 0
    ensures var y := x % (2 * p); y % 2 == x % 2 && y / 2 == x / 2 % p
  {
    Halve(x, p);
    EvenPlus(x / 2 % p, x % 2);
  }

  lemma EvenPlus(h: nat, b: nat)
    requires b < 2
    ensures (2 * h + b) % 2 == b && (2 * h + b) / 2 == h
  {}

  lemma {:induction false} ReversedLow(k: nat, x: nat)
    ensures Reversed(k, x % Pow2(k)) == Reversed(k, x)
    decreases k
  {
    if k > 0 {
      LowHalves(k, x);
      ReversedLow(k - 1, x / 2);
    }
  }

  lemma {:induction false} BitOfTop(k: nat, high: nat, low: nat, j: nat)
    requires high < 2 && low < Pow2(k) && j <= k
    ensures Bit(high * Pow2(k) + low, j) == if j == k then high else Bit(low, j)
    decreases k
  {
    if k > 0 {
      var p, x := Pow2(k - 1), high * Pow2(k) + low;
      assert high * Pow2(k) == 2 * (high * p);
      assert x % 2 == low % 2 && x / 2 == high * p + low / 2;
      if j > 0 { BitOfTop(k - 1, high, low / 2, j - 1); }
    }
  }

  /** Bit j of the reversal is bit k - 1 - j of the argument. */
  lemma {:induction false} ReversedBit(k: nat, x: nat, j: nat)
    requires j < k
    ensures Bit(Reversed(k, x), j) == Bit(x, k - 1 - j)
    decreases k
  {
    ReversedBound(k - 1, x / 2);
    BitOfTop(k - 1, x % 2, Reversed(k - 1, x / 2), j);
    if j < k - 1 { ReversedBit(k - 1, x / 2, j); }
  }

  // ------------------------------------------------------- the program

  /** The low k bits of x moved, one after the other, to the end of `out`. */
  function Moved(out: nat, k: nat, x: nat): nat
    decreases k
  {
    if k == 0 then out else Moved(out * 2 + x % 2, k - 1, x / 2)
  }

  lemma {:induction false} MovedIsReversed(out: nat, k: nat, x: nat)
    ensures Moved(out, k, x) == out * Pow2(k) + Reversed(k, x)
    decreases k
  {
    if k > 0 {
      MovedIsReversed(out * 2 + x % 2, k - 1, x / 2);
      MoveBit(out, x % 2, Pow2(k - 1));
    }
  }

  lemma MoveBit(out: nat, b: nat, p: nat)
    ensures (out * 2 + b) * p == out * (2 * p) + b * p
  {}

  lemma BitsOfWidth(n: nat)
    requires n < WIDTH
    ensures Digits(n) <= 32
  {
    Pow2Of32();
    DigitsAtMost(n, 32);
  }

  lemma NoneMoved(out: nat, x: nat)
    ensures Moved(out, 0, x) == out && Pow2(0) == 1
  {}

  lemma MoveOne(out: nat, l: nat, x: nat)
    requires l > 0
    ensures Digits(l) == Digits(l / 2) + 1
    ensures Moved(out, Digits(l), x) == Moved(out * 2 + x % 2, Digits(l / 2), x / 2)
  {}

  lemma NoOverflow(out: nat, b: nat, done: nat)
    requires out < Pow2(done) && done < 32 && b < 2
    ensures out * 2 % WIDTH == out * 2 && out * 2 + b < Pow2(done + 1)
  {
    Pow2Of32();
    Pow2Monotone(done + 1, 32);
  }

  /** Bit j is the parity of the number divided by 2^j. */
  lemma {:induction false} BitIs(x: nat, j: nat)
    ensures Bit(x, j) == x / Pow2(j) % 2
  {
    if j > 0 {
      BitIs(x / 2, j - 1);
      Halve(x, Pow2(j - 1));
    }
  }

  /** The number of digits is the least k with n < 2^k. */
  lemma {:induction false} DigitsAreLeast(n: nat)
    ensures n < Pow2(Digits(n)) && (n > 0 ==> Digits(n) > 0 && Pow2(Digits(n) - 1) <= n)
  {
    if n > 0 { DigitsAreLeast(n / 2); }
  }

  /** swizzle, with the shift dropping what leaves the 32 bits: with k the least number such that the limit is
      below 2^k, the result has k bits, which are the low k bits of the argument in the opposite order. */
  method Swizzle(input: nat, limit: nat) returns (out: nat, ghost k: nat)
    requires input < WIDTH && limit < WIDTH
    ensures limit < Pow2(k) && (k > 0 ==> Pow2(k - 1) <= limit) && out < Pow2(k)
    ensures forall j | 0 <= j < k :: out / Pow2(j) % 2 == input / Pow2(k - 1 - j) % 2
    ensures out == Swizzled(input, limit)
  {
    hide Moved, Pow2;
    out := 0;
    var x, l := input, limit;
    NoneMoved(0, input);
    ghost var done: nat := 0;
    BitsOfWidth(limit);
    while l > 0
      invariant done + Digits(l) <= 32 && out < Pow2(done)
      invariant Moved(out, Digits(l), x) == Moved(0, Digits(limit), input)
      decreases l
    {
      MoveOne(out, l, x);
      NoOverflow(out, x % 2, done);
      out := out * 2 % WIDTH + x % 2;
      x := x / 2;
      l := l / 2;
      done := done + 1;
    }
    NoneMoved(out, x);
    MovedIsReversed(0, Digits(limit), input);
    k := Digits(limit);
    SwizzledBits(input, limit);
  }

  lemma SwizzledBits(x: nat, limit: nat)
    ensures var k, y := Digits(limit), Swizzled(x, limit);
      && limit < Pow2(k) && (k > 0 ==> Pow2(k - 1) <= limit) && y < Pow2(k)
      && forall j | 0 <= j < k :: y / Pow2(j) % 2 == x / Pow2(k - 1 - j) % 2
  {
    var k := Digits(limit);
    DigitsAreLeast(limit);
    ReversedBound(k, x);
    forall j | 0 <= j < k ensures Swizzled(x, limit) / Pow2(j) % 2 == x / Pow2(k - 1 - j) % 2 { ReversedParity(k, x, j); }
  }

  lemma ReversedParity(k: nat, x: nat, j: nat)
    requires j < k
    ensures Reversed(k, x) / Pow2(j) % 2 == x / Pow2(k - 1 - j) % 2
  {
    ReversedBit(k, x, j);
    BitIs(Reversed(k, x), j);
    BitIs(x, k - 1 - j);
  }

  /** What swizzle computes: as many low bits as the limit has digits, reversed. */
  function Swizzled(x: nat, limit: nat): nat {
    Reversed(Digits(limit), x)
  }

  /** Two arguments get the same key exactly when their low bits agree. */
  lemma SameKey(x: nat, y: nat, limit: nat)
    ensures var m := Pow2(Digits(limit)); m > limit && (Swizzled(x, limit) == Swizzled(y, limit) <==> x % m == y % m)
  {
    var k := Digits(limit);
    BelowItsDigits(limit);
    ReversedLow(k, x);
    ReversedLow(k, y);
    ReversedTwice(k, x);
    ReversedTwice(k, y);
  }

  /** Swizzling again undoes it, for every argument up to the limit. */
  lemma SwizzleTwice(x: nat, limit: nat)
    requires x <= limit
    ensures Swizzled(Swizzled(x, limit), limit) == x
  {
    BelowItsDigits(limit);
    ReversedTwice(Digits(limit), x);
    DivModUnique(x, Pow2(Digits(limit)), 0, x);
  }

  ghost predicate AllOnes(m: nat) {
    exists k: nat :: k >= 1 && m == Pow2(k) - 1
  }

  /** roundup_allones: the least number of the form 1...1 that is no less than the limit. */
  method RoundupAllOnes(limit: nat) returns (m: nat)
    requires limit < WIDTH
    ensures limit <= m < WIDTH && AllOnes(m)
    ensures forall n: nat | AllOnes(n) && n >= limit :: m <= n
  {
    m := 1;
    ghost var k: nat := 1;
    Pow2Of32();
    while m < limit
      invariant 1 <= k <= 32 && m == Pow2(k) - 1 < WIDTH
      invariant k > 1 ==> Pow2(k - 1) - 1 < limit
      decreases limit - m
    {
      if k == 32 { assert false; }
      Pow2Monotone(k + 1, 32);
      m := m * 2 % WIDTH + 1;
      k := k + 1;
    }
    LeastAllOnes(k, limit);
  }

  lemma LeastAllOnes(k: nat, limit: nat)
    requires k >= 1 && (k > 1 ==> Pow2(k - 1) - 1 < limit)
    ensures forall n: nat | AllOnes(n) && n >= limit :: Pow2(k) - 1 <= n
  {
    forall n: nat | AllOnes(n) && n >= limit ensures Pow2(k) - 1 <= n {
      var j: nat :| j >= 1 && n == Pow2(j) - 1;
      if j < k { Pow2Monotone(j, k - 1); }
      if j >= k { Pow2Monotone(k, j); }
    }
  }

  lemma {:induction false} DigitsOfOnes(k: nat)
    ensures Digits(Pow2(k) - 1) == k
  {
    if k > 0 { DigitsOfOnes(k - 1); }
  }

  /** Within a mask of ones, swizzling maps 0 .. m onto itself one to one. */
  lemma SwizzlePermutes(m: nat, y: nat)
    requires AllOnes(m) && y <= m
    ensures Swizzled(y, m) <= m && Swizzled(Swizzled(y, m), m) == y
    ensures y > 0 ==> Swizzled(y, m) > 0
  {
    var k: nat :| k >= 1 && m == Pow2(k) - 1;
    DigitsOfOnes(k);
    ReversedBound(k, y);
    SwizzleTwice(y, m);
    SwizzleTwice(0, m);
    ReversedOfZero(k);
  }

  lemma {:induction false} ReversedOfZero(k: nat)
    ensures Reversed(k, 0) == 0
  {
    if k > 0 { ReversedOfZero(k - 1); }
  }

  /** The keys that the insertion tests give to the rows 1 .. size. */
  method Keys(size: nat) returns (keys: seq<nat>, m: nat)
    requires size < WIDTH
    ensures |keys| == size && AllOnes(m) && m >= size
    ensures forall i | 0 <= i < size :: 1 <= keys[i] <= m && keys[i] == Swizzled(i + 1, m)
    ensures forall i, j | 0 <= i < j < size :: keys[i] != keys[j]
  {
    m := RoundupAllOnes(size);
    keys := [];
    var i := 1;
    while i <= size
      invariant 1 <= i <= size + 1 && |keys| == i - 1
      invariant forall j | 0 <= j < i - 1 :: 1 <= keys[j] <= m && keys[j] == Swizzled(j + 1, m)
    {
      var x, k := Swizzle(i, m);
      SwizzlePermutes(m, i);
      keys := keys + [x];
      i := i + 1;
    }
    forall i, j | 0 <= i < j < size ensures keys[i] != keys[j] {
      SwizzleTwice(i + 1, m);
      SwizzleTwice(j + 1, m);
    }
  }

  lemma DigitsOfMask(m: nat)
    requires AllOnes(m)
    ensures Pow2(Digits(m)) == m + 1
  {
    var k: nat :| k >= 1 && m == Pow2(k) - 1;
    DigitsOfOnes(k);
  }

  lemma OneRound(i: nat, d: nat)
    requires d > 0
    ensures (i + d) % d == i % d
  {
    DivModUnique(i + d, d, i / d + 1, i % d);
  }

  /** Two different rows of 1 .. size get the same key. */
  ghost predicate KeyRepeats(m: nat, size: nat) {
    exists i: nat, j: nat :: 1 <= i < j <= size && Swizzled(i, m) == Swizzled(j, m)
  }

  /** A mask of ones gives two of the rows 1 .. size the same key exactly if it is at least two less than
      the number of rows. */
  lemma KeysRepeatExactly(m: nat, size: nat)
    requires AllOnes(m)
    ensures KeyRepeats(m, size) <==> m + 2 <= size
  {
    DigitsOfMask(m);
    if m + 2 <= size {
      SameKey(1, m + 2, m);
      OneRound(1, m + 1);
      assert Swizzled(1, m) == Swizzled(m + 2, m);
    } else {
      forall i: nat, j: nat | 1 <= i < j <= size ensures Swizzled(i, m) != Swizzled(j, m) {
        SameKey(i, j, m);
        DistinctRemainders(i, j, m + 1);
      }
    }
  }

  lemma DistinctRemainders(i: nat, j: nat, d: nat)
    requires 1 <= i < j <= d
    ensures i % d != j % d
  {
    DivModUnique(i, d, 0, i);
    if j == d { DivModUnique(j, d, 1, 0); } else { DivModUnique(j, d, 0, j); }
  }

  lemma ThirdIsExceeded(size: nat, m: nat)
    requires AllOnes(m) && m >= size / 3
    requires forall n: nat | AllOnes(n) && n >= size / 3 :: m <= n
    ensures m + 2 <= size <==> size >= 3
  {
    var k: nat :| k >= 1 && m == Pow2(k) - 1;
    assert Pow2(1) == 2;
    if k >= 2 {
      assert AllOnes(Pow2(k - 1) - 1);
      assert Pow2(k - 1) - 1 < size / 3;
    }
  }

  /** The mask of the replacing tests is made for a third of the rows: it lets keys repeat as soon as there are
      three rows. */
  method ReplaceMask(size: nat) returns (m: nat)
    requires size < WIDTH
    ensures AllOnes(m) && m >= size / 3
    ensures KeyRepeats(m, size) <==> size >= 3
  {
    m := RoundupAllOnes(size / 3);
    ThirdIsExceeded(size, m);
    KeysRepeatExactly(m, size);
  }
}
