/** The estimate of a square root by at most ten Newton steps on integers. */
module SquareRoot {
  import opened Arithmetic

  /** The largest int. */
  const INT_MAX := 0x7fff_ffff

  /** The square root, rounded down. */
  function Root(x: nat): (s: nat)
    ensures s * s <= x < (s + 1) * (s + 1)
  {
    if x == 0 then 0
    else
      var s := Root(x - 1);
      if (s + 1) * (s + 1) == x then s + 1 else s
  }

  /** Division of the C language: towards zero. */
  function Quotient(a: int, b: int): int
    requires b > 0
  {
    if a >= 0 then a / b else -(-a / b)
  }

  function Newton(x: nat, y: nat): nat
    requires y > 0
  {
    (y + x / y) / 2
  }

  // ------------------------------------------------------- one step

  /** The quotient is below m when x is below m * y, and not otherwise. */
  lemma QuotientBelow(x: nat, y: nat, m: nat)
    requires y > 0
    ensures x / y < m <==> x < m * y
  {
    var q, r := x / y, x % y;
    assert x == q * y + r;
    if q < m { Products(q + 1, y, m, y); } else { Products(m, y, q, y); }
  }

  /** A quotient above the root is at most the root. */
  lemma QuotientAbove(x: nat, s: nat, y: nat)
    requires s * s <= x < (s + 1) * (s + 1) && y > s
    ensures x / y <= s
  {
    Products(s + 1, s + 1, s + 1, y);
    QuotientBelow(x, y, s + 1);
  }

  /** At the root a step stays, or goes one up when the next number is a square. */
  lemma QuotientAt(x: nat, s: nat)
    requires s * s <= x < (s + 1) * (s + 1) && s > 0
    ensures s <= x / s <= s + 2
    ensures x / s == s + 2 ==> x + 1 == (s + 1) * (s + 1)
  {
    QuotientBelow(x, s, s);
    QuotientBelow(x, s, s + 2);
    QuotientBelow(x, s, s + 3);
    assert (s + 2) * s == s * s + 2 * s && (s + 3) * s == s * s + 3 * s;
  }

  lemma NotBelow(x: nat, s: nat, y: nat)
    requires s * s <= x && y > 0
    ensures y + x / y >= 2 * s
  {
    var q := x / y;
    QuotientBelow(x, y, q + 1);
    if y + q < 2 * s { Balanced(q + 1, y, s); }
  }

  lemma SumTimesDifference(s: int, e: int)
    ensures (s + e) * (s - e) == s * s - e * e <= s * s
  {
    assert (s + e) * (s - e) == s * s - s * e + e * s - e * e;
    if e < 0 { assert e * e == -e * -e; }
  }

  /** Among the pairs with a given sum the product is greatest for equal parts. */
  lemma Balanced(a: nat, b: nat, s: nat)
    requires a + b <= 2 * s
    ensures a * b <= s * s
  {
    Products(a, b, 2 * s - b, b);
    SumTimesDifference(s, s - b);
  }

  /** A step never goes below the root, and halves the distance to it from above. */
  lemma Step(x: nat, y: nat)
    requires y >= Root(x) > 0
    ensures var s, z := Root(x), Newton(x, y);
      z >= s && (y > s ==> z - s <= (y - s) / 2) && (y == s ==> z == s || (z == s + 1 && x + 1 == (s + 1) * (s + 1)))
  {
    var s := Root(x);
    NotBelow(x, s, y);
    if y > s { QuotientAbove(x, s, y); } else { QuotientAt(x, s); }
  }

  // ------------------------------------------------------- the program

  /** `e` halved n times. */
  function Halved(e: nat, n: nat): nat {
    if n == 0 then e else Halved(e, n - 1) / 2
  }

  /** The distance to the root that is left after n steps. */
  predicate Close(x: nat, y: nat, n: nat)
    requires x / 2 >= Root(x)
  {
    var s := Root(x);
    y >= s && (y - s <= Halved(x / 2 - s, n) || (y == s + 1 && x + 1 == (s + 1) * (s + 1)))
  }

  lemma CloseStep(x: nat, y: nat, n: nat)
    requires x / 2 >= Root(x) > 0 && Close(x, y, n)
    ensures Close(x, Newton(x, y), n + 1)
    ensures Newton(x, y) == y ==> y == Root(x)
  {
    Step(x, y);
  }

  lemma RootAtMostHalf(x: nat)
    requires x >= 2
    ensures 1 <= Root(x) <= x / 2
    ensures x >= 4 ==> Root(x) >= 2
  {
    var s := Root(x);
    if s >= 2 { Products(2, s, s, s); }
  }

  lemma {:induction false} HalvedIsDivided(e: nat, n: nat)
    ensures Halved(e, n) == e / Pow2(n)
  {
    if n > 0 {
      HalvedIsDivided(e, n - 1);
      var p := Pow2(n - 1);
      HalfQuotient(e, p);
    }
  }

  lemma HalfQuotient(e: nat, p: nat)
    requires p > 0
    ensures e / p / 2 == e / (2 * p)
  {
    var q, r := e / p, e % p;
    assert e == (2 * p) * (q / 2) + (q % 2 * p + r);
    if q % 2 == 0 { DivModUnique(e, 2 * p, q / 2, r); } else { DivModUnique(e, 2 * p, q / 2, p + r); }
  }

  lemma {:induction false} HalvedBelow(e: nat, n: nat)
    ensures Halved(e, n) <= e
  {
    if n > 0 { HalvedBelow(e, n - 1); }
  }

  lemma TenHalvings(e: nat)
    ensures Halved(e, 10) == e / 1024
  {
    HalvedIsDivided(e, 10);
    assert Pow2(5) == 32;
  }

  lemma StaysBelowHalf(x: nat, y: nat, n: nat)
    requires x >= 4 && x / 2 >= Root(x) > 0 && Close(x, y, n)
    ensures Root(x) <= y <= x / 2
  {
    var s := Root(x);
    RootAtMostHalf(x);
    HalvedBelow(x / 2 - s, n);
    NextRoot(x, s);
  }

  lemma NextRoot(x: nat, s: nat)
    requires s >= 2
    ensures x + 1 == (s + 1) * (s + 1) ==> s + 1 <= x / 2
  {
    assert (s + 1) * (s + 1) >= 3 * (s + 1);
  }

  lemma SumFits(x: nat, y: nat)
    requires x >= 4 && 2 <= y <= x / 2
    ensures y + x / y <= x
  {
    QuotientBelow(x, y, x / 2 + 1);
    Products(x / 2 + 1, 2, x / 2 + 1, y);
  }

  /** The sum of a step fits into an int. */
  lemma NoOverflow(x: nat, y: nat, n: nat)
    requires 2 <= x <= INT_MAX && x / 2 >= Root(x) > 0 && Close(x, y, n)
    ensures y + x / y <= INT_MAX
  {
    RootAtMostHalf(x);
    if x >= 4 {
      StaysBelowHalf(x, y, n);
      SumFits(x, y);
    } else {
      HalvedBelow(x / 2 - Root(x), n);
      QuotientBelow(x, y, 4);
      Products(4, 1, 4, y);
    }
  }

  /** n Newton steps. */
  function Iterated(x: nat, y: nat, n: nat): nat {
    if n == 0 then y
    else
      var z := Iterated(x, y, n - 1);
      if z == 0 then 0 else Newton(x, z)
  }

  /** What a step does not change stays. */
  lemma {:induction false} Settled(x: nat, y: nat, m: nat, n: nat)
    requires m <= n
    ensures Iterated(x, y, m) == Iterated(x, y, m + 1) ==> Iterated(x, y, n) == Iterated(x, y, m)
    decreases n
  {
    if m < n { Settled(x, y, m, n - 1); }
  }

  /** The estimate is as good as ten steps promise. */
  predicate Estimate(x: nat, y: int) {
    var s := Root(x);
    y >= s && (y - s <= (x / 2 - s) / 1024 || (y == s + 1 && x + 1 == (s + 1) * (s + 1)))
  }

  /** est_square_root. Ten steps bring the estimate to within a 1024th of the first error, up to
      one more when x + 1 is a square; leaving the loop early means that it is the root. */
  method EstSquareRoot(x: int) returns (y: int, ghost early: bool)
    requires -INT_MAX - 1 <= x <= INT_MAX
    ensures x < 2 ==> y == Quotient(x, 2) <= 0
    ensures x >= 2 ==> Estimate(x, y)
    ensures x >= 2 ==> y == Iterated(x, x / 2, 10)
    ensures x >= 2 && early ==> y == Root(x)
  {
    y := Quotient(x, 2);
    early := false;
    if x >= 2 { RootAtMostHalf(x); }
    var n := 0;
    while y > 0 && n < 10
      invariant 0 <= n <= 10
      invariant x < 2 ==> y == Quotient(x, 2) <= 0
      invariant x >= 2 ==> y > 0 && Close(x, y, n) && y == Iterated(x, x / 2, n)
      decreases 10 - n
    {
      NoOverflow(x, y, n);
      var z := (y + x / y) / 2;
      CloseStep(x, y, n);
      if z == y {
        early := true;
        Settled(x, x / 2, n, 10);
        break;
      }
      y := z;
      n := n + 1;
    }
    if x >= 2 { TenHalvings(x / 2 - Root(x)); }
  }
}
