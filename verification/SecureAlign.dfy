/** Secret-aware alignment: the compile-time choice of a padding in front of a structure,
    such that no secret byte lands on byte 0 or bytes 4-7 of a 64-byte line. */
module SecureAlign {
  import opened Arithmetic

  /** A 64-bit word, least significant bit first. */
  type Word = w: seq<bool> | |w| == 64 witness seq(64, _ => false)

  /** Arithmetic on `std::size_t` wraps around at this value. */
  const SIZE_RANGE := 0x1_0000_0000_0000_0000

  // ------------------------------------------------------- words

  predicate BitOf(n: nat, j: nat) {
    if j == 0 then n % 2 == 1 else BitOf(n / 2, j - 1)
  }

  function FromNat(n: nat): Word {
    seq(64, j requires 0 <= j < 64 => BitOf(n, j))
  }

  function TopBit(): Word {
    seq(64, j => j == 63)
  }

  predicate IsZero(a: Word) {
    forall j | 0 <= j < 64 :: !a[j]
  }

  function Or(a: Word, b: Word): Word {
    seq(64, j requires 0 <= j < 64 => a[j] || b[j])
  }

  function And(a: Word, b: Word): Word {
    seq(64, j requires 0 <= j < 64 => a[j] && b[j])
  }

  function Not(a: Word): Word {
    seq(64, j requires 0 <= j < 64 => !a[j])
  }

  function Shl(a: Word, c: nat): Word {
    seq(64, j requires 0 <= j < 64 => j >= c && a[j - c])
  }

  function Shr(a: Word, c: nat): Word {
    seq(64, j requires 0 <= j < 64 => j + c < 64 && a[j + c])
  }

  /** `a & b` on natural numbers. */
  function AndNat(a: nat, b: nat): nat {
    if a == 0 || b == 0 then 0
    else 2 * AndNat(a / 2, b / 2) + (if a % 2 == 1 && b % 2 == 1 then 1 else 0)
  }

  function Predecessor(c: nat): nat {
    (c + SIZE_RANGE - 1) % SIZE_RANGE
  }

  function Negate(c: nat): nat {
    (SIZE_RANGE - c) % SIZE_RANGE
  }

  // ------------------------------------------------------- the computation

  function RolMasked(v: Word, c: nat, m: nat): Word {
    Or(Shl(v, AndNat(c, m)), Shr(v, AndNat(Negate(c), m)))
  }

  function Rol(v: Word, c: nat): Word {
    RolMasked(v, c, 63)
  }

  function Ror(v: Word, c: nat): Word {
    Rol(v, Negate(c))
  }

  /** One (offset, length) pair of the template's parameter pack. */
  datatype Range = Range(offset: nat, length: nat)

  /** `(1ll << L) - 1` is a constant expression only for L up to 62. */
  predicate Representable(ranges: seq<Range>) {
    forall r | r in ranges :: r.length <= 62
  }

  /** So a range is representable exactly when 2^L fits into a signed 64-bit integer. */
  lemma RepresentableExactly(r: Range)
    ensures Representable([r]) <==> Pow2(r.length) < 0x8000_0000_0000_0000
  {
    Pow2Of32();
    assert Pow2(32) == 2 * Pow2(31) == 4 * Pow2(30);
    Pow2Split(30, 32);
    assert Representable([r]) <==> r.length <= 62 by { assert r in [r]; }
    if r.length <= 62 { Pow2Monotone(r.length, 62); } else { Pow2Monotone(63, r.length); }
  }

  function AddRange(b: Word, r: Range): Word
    requires r.length <= 62
  {
    Or(b, Rol(FromNat(Pow2(r.length) - 1), r.offset))
  }

  function SecretBmp(b: Word, ranges: seq<Range>): Word
    requires Representable(ranges)
    decreases |ranges|
  {
    if ranges == [] then b else SecretBmp(AddRange(b, ranges[0]), ranges[1..])
  }

  function GenAlignmask(al: nat, a: nat, m: Word): Word
    decreases a
  {
    if a > al then GenAlignmask(al, a / 2, Or(m, Shr(m, a / 2))) else m
  }

  /** The number of clear bits above the highest set bit below `j`, counted from bit 63. */
  function Gap(w: Word, j: nat): (g: nat)
    requires j <= 64
  {
    if j == 0 || w[j - 1] then 64 - j else Gap(w, j - 1)
  }

  function CountLzb(bmp: Word): int
    decreases Gap(bmp, 64)
  {
    if IsZero(bmp) then -1
    else if bmp[63] then 0
    else
      GapOfShl(bmp, 63);
      CountLzb(Shl(bmp, 1)) + 1
  }

  /** The offsets that a secret byte excludes: offset o is recorded in bit 63 - o. */
  function Blocked(bmp: Word): Word {
    Or(Ror(Or(Or(Or(bmp, Ror(bmp, 1)), Ror(bmp, 2)), Ror(bmp, 3)), 5), Ror(bmp, 1))
  }

  function Candidates(al: nat, bmp: Word): Word {
    And(Not(Blocked(bmp)), GenAlignmask(al, 64, TopBit()))
  }

  function CalcLspc(al: nat, bmp: Word): int {
    if AndNat(al, Predecessor(al)) != 0 then -2 else CountLzb(Candidates(al, bmp))
  }

  function NarrowAlgn(size: nat, a: nat): (r: nat)
    ensures a > 0 ==> r > 0
    decreases a
  {
    if a > 8 && size <= a / 2 then NarrowAlgn(size, a / 2) else a
  }

  function CalcAlgn(al: nat, size: nat): (r: nat)
    ensures r > 0
  {
    if al > 64 then al else NarrowAlgn(size, 64)
  }

  // ------------------------------------------------------- the specification

  /** The positions of a line that must hold no secret byte. */
  predicate Forbidden(position: nat) {
    position == 0 || 4 <= position <= 7
  }

  /** Padding `o` keeps the alignment and moves no secret byte to a forbidden position. */
  predicate Viable(al: nat, bmp: Word, o: nat) {
    (al == 0 || o % al == 0) &&
    forall i | 0 <= i < 64 && bmp[i] :: !Forbidden((i + o) % 64)
  }

  /** Tries the paddings o, o + 1, ..., 63 in turn. */
  function LinearSearch(al: nat, bmp: Word, o: nat): int
    requires o <= 64
    decreases 64 - o
  {
    if o == 64 then -1
    else if Viable(al, bmp, o) then o
    else LinearSearch(al, bmp, o + 1)
  }

  ghost predicate PowerOfTwo(al: nat) {
    exists k: nat :: al == Pow2(k)
  }

  /** Byte `i` of range `r` falls on byte `j` of the line. */
  predicate Hits(r: Range, i: nat, j: nat) {
    i < r.length && (r.offset + i) % 64 == j
  }

  ghost predicate Touches(r: Range, j: nat) {
    exists i: nat :: Hits(r, i, j)
  }

  ghost predicate Covered(ranges: seq<Range>, j: nat) {
    exists r | r in ranges :: Touches(r, j)
  }

  // ------------------------------------------------------- arithmetic

  lemma {:induction false} AndLowOnes(a: nat, k: nat)
    ensures AndNat(a, Pow2(k) - 1) == a % Pow2(k)
  {
    if a == 0 || k == 0 {
    } else {
      AndLowOnes(a / 2, k - 1);
      Halve(a, Pow2(k - 1));
      assert (Pow2(k) - 1) / 2 == Pow2(k - 1) - 1;
    }
  }

  lemma {:induction false} AndSelf(a: nat)
    ensures AndNat(a, a) == a
  {
    if a != 0 { AndSelf(a / 2); }
  }

  /** The bit trick of calc_lspc recognises exactly zero and the powers of two. */
  lemma {:induction false} PowerOfTwoTest(al: nat)
    requires al > 0
    ensures AndNat(al, al - 1) == 0 <==> PowerOfTwo(al)
  {
    if al == 1 {
      assert Pow2(0) == 1;
    } else if al % 2 == 0 {
      PowerOfTwoTest(al / 2);
      assert (al - 1) / 2 == al / 2 - 1;
      if k: nat :| al == Pow2(k) { assert al / 2 == Pow2(k - 1); }
      if k: nat :| al / 2 == Pow2(k) { assert al == Pow2(k + 1); }
    } else {
      AndSelf(al / 2);
      assert (al - 1) / 2 == al / 2;
      assert forall k: nat :: Pow2(k) == 1 || Pow2(k) % 2 == 0;
    }
  }

  /** A power of two either divides the line or is a multiple of it. */
  lemma PowerAndLine(al: nat)
    requires PowerOfTwo(al)
    ensures al <= 64 ==> al in {1, 2, 4, 8, 16, 32, 64}
    ensures al > 64 ==> al % 64 == 0
  {
    var k: nat :| al == Pow2(k);
    assert Pow2(6) == 64;
    if k >= 6 {
      Pow2Split(k - 6, 6);
    } else {
      assert k == 0 || k == 1 || k == 2 || k == 3 || k == 4 || k == 5;
    }
  }

  // ------------------------------------------------------- rotations

  lemma Mask63(c: nat)
    ensures AndNat(c, 63) == c % 64
  {
    assert Pow2(6) == 64;
    AndLowOnes(c, 6);
  }

  lemma NegateMod64(c: int)
    requires c >= 0
    ensures Negate(c) % 64 == (-c) % 64
  {
    var k := (SIZE_RANGE - c) / SIZE_RANGE;
    assert Negate(c) == 64 * (SIZE_RANGE / 64 * (1 - k)) - c;
  }

  lemma RotateIndex(c: int, j: nat)
    requires j < 64
    ensures (j - c) % 64 == if j >= c % 64 then j - c % 64 else j + (-c) % 64
    ensures j < c % 64 ==> j + (-c) % 64 < 64
    ensures j >= c % 64 && j + (-c) % 64 < 64 ==> c % 64 == (-c) % 64 == 0
  {
    var q, r := c / 64, c % 64;
    if r == 0 { DivModUnique(-c, 64, -q, 0); } else { DivModUnique(-c, 64, -q - 1, 64 - r); }
    if j >= r { DivModUnique(j - c, 64, -q, j - r); } else { DivModUnique(j - c, 64, -q - 1, 64 + j - r); }
  }

  lemma ShiftedParts(v: Word, l: nat, r: nat, j: nat, source: nat)
    requires j < 64 && source < 64
    requires source == if j >= l then j - l else j + r
    requires j >= l && j + r < 64 ==> l == r == 0
    ensures Or(Shl(v, l), Shr(v, r))[j] == v[source]
  {}

  lemma RotationCounts(v: Word, c: int)
    requires c >= 0
    ensures Rol(v, c) == Or(Shl(v, c % 64), Shr(v, (-c) % 64))
  {
    Mask63(c);
    Mask63(Negate(c));
    NegateMod64(c);
  }

  lemma RolBit(v: Word, c: int, j: nat)
    requires j < 64 && c >= 0
    ensures Rol(v, c)[j] == v[(j - c) % 64]
  {
    var l, r, source := c % 64, (-c) % 64, (j - c) % 64;
    assert Rol(v, c) == Or(Shl(v, l), Shr(v, r)) by { RotationCounts(v, c); }
    assert Or(Shl(v, l), Shr(v, r))[j] == v[source] by {
      RotateIndex(c, j);
      ShiftedParts(v, l, r, j, source);
    }
  }

  lemma RorBit(v: Word, c: int, j: nat)
    requires j < 64 && c >= 0
    ensures Ror(v, c)[j] == v[(j + c) % 64]
  {
    RolBit(v, Negate(c), j);
    SubtractNegated(j, c);
  }

  lemma SubtractNegated(j: int, c: int)
    requires c >= 0
    ensures (j - Negate(c)) % 64 == (j + c) % 64
  {
    NegateMod64(c);
  }

  // ------------------------------------------------------- leading zeros

  lemma {:induction false} GapOfShl(w: Word, j: nat)
    requires j <= 63
    ensures Gap(w, j) < 64 ==> Gap(Shl(w, 1), j + 1) == Gap(w, j) - 1
    ensures Gap(w, j) <= 64
    ensures Gap(w, j) == 64 ==> forall i | 0 <= i < j :: !w[i]
    ensures !IsZero(w) && !w[63] && j == 63 ==> Gap(Shl(w, 1), 64) < Gap(w, 64)
  {
    if j > 0 && !w[j - 1] { GapOfShl(w, j - 1); }
  }

  // ------------------------------------------------------- the bitmap of secret bytes

  lemma {:induction false} OnesBit(len: nat, j: nat)
    ensures BitOf(Pow2(len) - 1, j) <==> j < len
  {
    if j > 0 {
      OnesBit(if len == 0 then 0 else len - 1, j - 1);
      if len > 0 { assert (Pow2(len) - 1) / 2 == Pow2(len - 1) - 1; }
    }
  }

  lemma LineIndex(offset: int, j: nat, k: nat)
    requires j < 64
    ensures (offset + (j - offset) % 64) % 64 == j
    ensures k < 64 && (offset + k) % 64 == j ==> k == (j - offset) % 64
  {
    DivModUnique(offset + (j - offset) % 64, 64, -((j - offset) / 64), j);
    if k < 64 && (offset + k) % 64 == j {
      DivModUnique(j - offset, 64, -((offset + k) / 64), k);
    }
  }

  lemma AddRangeBit(b: Word, r: Range, j: nat)
    requires r.length <= 62 && j < 64
    ensures AddRange(b, r)[j] <==> b[j] || Touches(r, j)
  {
    var i := (j - r.offset) % 64;
    RolBit(FromNat(Pow2(r.length) - 1), r.offset, j);
    OnesBit(r.length, i);
    LineIndex(r.offset, j, i);
    if k: nat :| Hits(r, k, j) { LineIndex(r.offset, j, k); }
    if i < r.length { assert Hits(r, i, j); }
  }

  /** secret_bmp sets bit j exactly when some secret byte falls on byte j of the line. */
  lemma {:induction false} SecretBmpBit(b: Word, ranges: seq<Range>, j: nat)
    requires Representable(ranges) && j < 64
    ensures SecretBmp(b, ranges)[j] <==> b[j] || Covered(ranges, j)
    decreases |ranges|
  {
    if ranges != [] {
      var next := AddRange(b, ranges[0]);
      assert next[j] <==> b[j] || Touches(ranges[0], j) by { AddRangeBit(b, ranges[0], j); }
      SecretBmpBit(next, ranges[1..], j);
      assert ranges == [ranges[0]] + ranges[1..];
    }
  }

  // ------------------------------------------------------- the search

  lemma MaskStep(h: nat, m: Word)
    requires h > 0
    requires forall j | 0 <= j < 64 :: m[j] <==> (63 - j) % (2 * h) == 0
    ensures forall j | 0 <= j < 64 :: Or(m, Shr(m, h))[j] <==> (63 - j) % h == 0
  {
    forall j | 0 <= j < 64
      ensures Or(m, Shr(m, h))[j] <==> (63 - j) % h == 0
    {
      HalfStride(63 - j, h);
    }
  }

  lemma HalfStride(o: nat, h: nat)
    requires h > 0
    ensures o % h == 0 <==> o % (2 * h) == 0 || (o >= h && (o - h) % (2 * h) == 0)
  {
    if o % h == 0 {
      StrideSplits(o, h);
    } else if o % (2 * h) == 0 {
      StrideJoins(o, h, o / (2 * h));
    } else if o >= h && (o - h) % (2 * h) == 0 {
      StrideJoins(o, h, (o - h) / (2 * h));
    }
  }

  lemma StrideSplits(o: nat, h: nat)
    requires h > 0 && o % h == 0
    ensures o % (2 * h) == 0 || (o >= h && (o - h) % (2 * h) == 0)
  {
    var t := o / h / 2;
    Doubled(h, t);
    if o / h % 2 == 0 { DivModUnique(o, 2 * h, t, 0); } else { DivModUnique(o - h, 2 * h, t, 0); }
  }

  lemma StrideJoins(o: nat, h: nat, t: nat)
    requires h > 0 && (o == (2 * h) * t || o == (2 * h) * t + h)
    ensures o % h == 0
  {
    Doubled(h, t);
    if o == (2 * h) * t { DivModUnique(o, h, 2 * t, 0); } else { DivModUnique(o, h, 2 * t + 1, 0); }
  }

  lemma Doubled(h: nat, t: int)
    ensures (2 * h) * t == h * (2 * t)
    ensures (2 * h) * t + h == h * (2 * t + 1)
  {}

  lemma NextPower(al: nat, a: nat)
    requires al in {0, 1, 2, 4, 8, 16, 32} && a in {2, 4, 8, 16, 32, 64} && al < a
    ensures al <= a / 2 && a / 2 in {1, 2, 4, 8, 16, 32} && 2 * (a / 2) == a
  {}

  /** The mask keeps exactly the offsets that are multiples of `al` (all of them for `al` = 0). */
  lemma {:induction false} MaskBits(al: nat, a: nat, m: Word)
    requires al in {0, 1, 2, 4, 8, 16, 32} && a in {1, 2, 4, 8, 16, 32, 64} && al <= a
    requires forall j | 0 <= j < 64 :: m[j] <==> (63 - j) % a == 0
    ensures forall j | 0 <= j < 64 :: GenAlignmask(al, a, m)[j] <==> al == 0 || (63 - j) % al == 0
  {
    if a > al && a > 1 {
      NextPower(al, a);
      MaskStep(a / 2, m);
      MaskBits(al, a / 2, Or(m, Shr(m, a / 2)));
    }
  }

  lemma AlignmaskBit(al: nat, o: nat)
    requires al == 0 || PowerOfTwo(al)
    requires o < 64
    ensures GenAlignmask(al, 64, TopBit())[63 - o] <==> al == 0 || o % al == 0
  {
    if al > 0 { PowerAndLine(al); }
    if al < 64 {
      MaskBits(al, 64, TopBit());
      assert 63 - (63 - o) == o;
    } else {
      DivModUnique(o, al, 0, o);
    }
  }

  predicate LeadingZeros(w: Word, n: nat) {
    n < 64 && w[63 - n] && forall j | 63 - n < j < 64 :: !w[j]
  }

  /** count_lzb counts the leading zeros, and answers -1 exactly for the zero word. */
  lemma {:induction false} CountLzbMeaning(w: Word)
    ensures IsZero(w) ==> CountLzb(w) == -1
    ensures !IsZero(w) ==> CountLzb(w) >= 0 && LeadingZeros(w, CountLzb(w))
    decreases Gap(w, 64)
  {
    if !IsZero(w) && !w[63] {
      GapOfShl(w, 63);
      var v := Shl(w, 1);
      var i :| 0 <= i < 64 && w[i];
      assert v[i + 1];
      CountLzbMeaning(v);
      assert forall j | 0 <= j < 63 :: v[j + 1] == w[j];
      var n := CountLzb(v);
      assert v[63 - n];
      forall j | 62 - n < j < 63 ensures !w[j] { assert !v[j + 1]; }
    }
  }

  /** The byte of the line that padding `o` moves to position `s`. */
  function Source(s: int, o: int): nat {
    (s - o) % 64
  }

  /** Some secret byte of the line would move to a forbidden position. */
  predicate Excluded(bmp: Word, o: nat) {
    bmp[Source(0, o)] || bmp[Source(4, o)] || bmp[Source(5, o)] || bmp[Source(6, o)] || bmp[Source(7, o)]
  }

  lemma FourInARow(bmp: Word, j: nat)
    requires j < 64
    ensures Or(Or(Or(bmp, Ror(bmp, 1)), Ror(bmp, 2)), Ror(bmp, 3))[j]
      <==> bmp[j] || bmp[(j + 1) % 64] || bmp[(j + 2) % 64] || bmp[(j + 3) % 64]
  {
    RorBit(bmp, 1, j);
    RorBit(bmp, 2, j);
    RorBit(bmp, 3, j);
  }

  lemma SourceSteps(o: nat)
    requires o < 64
    ensures (63 - o + 1) % 64 == Source(0, o) && (63 - o + 5) % 64 == Source(4, o)
    ensures (Source(4, o) + 1) % 64 == Source(5, o)
    ensures (Source(4, o) + 2) % 64 == Source(6, o)
    ensures (Source(4, o) + 3) % 64 == Source(7, o)
  {}

  lemma BlockedBit(bmp: Word, o: nat)
    requires o < 64
    ensures Blocked(bmp)[63 - o] <==> Excluded(bmp, o)
  {
    var run := Or(Or(Or(bmp, Ror(bmp, 1)), Ror(bmp, 2)), Ror(bmp, 3));
    SourceSteps(o);
    assert Ror(bmp, 1)[63 - o] == bmp[Source(0, o)] by { RorBit(bmp, 1, 63 - o); }
    assert Ror(run, 5)[63 - o] == run[Source(4, o)] by { RorBit(run, 5, 63 - o); }
    FourInARow(bmp, Source(4, o));
  }

  lemma ForbiddenSources(i: nat, o: nat)
    requires i < 64
    ensures Forbidden((i + o) % 64) <==>
      i in {Source(0, o), Source(4, o), Source(5, o), Source(6, o), Source(7, o)}
  {
    LineIndex(o, 0, i);
    LineIndex(o, 4, i);
    LineIndex(o, 5, i);
    LineIndex(o, 6, i);
    LineIndex(o, 7, i);
  }

  lemma ExcludedMeaning(bmp: Word, o: nat)
    ensures !Excluded(bmp, o) <==> forall i | 0 <= i < 64 && bmp[i] :: !Forbidden((i + o) % 64)
  {
    forall i | 0 <= i < 64 && bmp[i] ensures Forbidden((i + o) % 64) ==> Excluded(bmp, o) {
      ForbiddenSources(i, o);
    }
    ForbiddenSources(Source(0, o), o);
    ForbiddenSources(Source(4, o), o);
    ForbiddenSources(Source(5, o), o);
    ForbiddenSources(Source(6, o), o);
    ForbiddenSources(Source(7, o), o);
  }

  lemma CandidateBit(al: nat, bmp: Word, o: nat)
    requires al == 0 || PowerOfTwo(al)
    requires o < 64
    ensures Candidates(al, bmp)[63 - o] <==> Viable(al, bmp, o)
  {
    AlignmaskBit(al, o);
    BlockedBit(bmp, o);
    ExcludedMeaning(bmp, o);
  }

  lemma {:induction false} SearchFinds(al: nat, bmp: Word, o: nat, n: nat)
    requires o <= n < 64 && Viable(al, bmp, n)
    requires forall p | o <= p < n :: !Viable(al, bmp, p)
    ensures LinearSearch(al, bmp, o) == n
    decreases n - o
  {
    if o < n { SearchFinds(al, bmp, o + 1, n); }
  }

  lemma {:induction false} SearchFails(al: nat, bmp: Word, o: nat)
    requires o <= 64
    requires forall p | o <= p < 64 :: !Viable(al, bmp, p)
    ensures LinearSearch(al, bmp, o) == -1
    decreases 64 - o
  {
    if o < 64 { SearchFails(al, bmp, o + 1); }
  }

  lemma LeadingBitIsFirstViable(al: nat, bmp: Word, w: Word)
    requires forall o: nat | o < 64 :: w[63 - o] <==> Viable(al, bmp, o)
    ensures CountLzb(w) == LinearSearch(al, bmp, 0)
  {
    CountLzbMeaning(w);
    if IsZero(w) {
      forall p: nat | p < 64 ensures !Viable(al, bmp, p) { assert !w[63 - p]; }
      SearchFails(al, bmp, 0);
    } else {
      var n := CountLzb(w);
      forall p: nat | p < n ensures !Viable(al, bmp, p) { assert !w[63 - p]; }
      SearchFinds(al, bmp, 0, n);
    }
  }

  lemma CandidateWord(al: nat, bmp: Word)
    requires al == 0 || PowerOfTwo(al)
    ensures CountLzb(Candidates(al, bmp)) == LinearSearch(al, bmp, 0)
  {
    forall o: nat | o < 64 ensures Candidates(al, bmp)[63 - o] <==> Viable(al, bmp, o) { CandidateBit(al, bmp, o); }
    LeadingBitIsFirstViable(al, bmp, Candidates(al, bmp));
  }

  /** The rotate, mask and leading-zero form computes what the linear search computes. */
  lemma CalcLspcRefinesSearch(al: nat, bmp: Word)
    requires al < SIZE_RANGE
    ensures CalcLspc(al, bmp) == if al == 0 || PowerOfTwo(al) then LinearSearch(al, bmp, 0) else -2
  {
    assert AndNat(al, Predecessor(al)) == 0 <==> al == 0 || PowerOfTwo(al) by {
      if al > 0 { PowerOfTwoTest(al); }
    }
    if al == 0 || PowerOfTwo(al) { CandidateWord(al, bmp); }
  }

  lemma {:induction false} SearchResult(al: nat, bmp: Word, o: nat)
    requires o <= 64
    ensures var n := LinearSearch(al, bmp, o);
      if n == -1 then forall p: nat | o <= p < 64 :: !Viable(al, bmp, p)
      else o <= n < 64 && Viable(al, bmp, n) && forall p: nat | o <= p < n :: !Viable(al, bmp, p)
    decreases 64 - o
  {
    if o < 64 { SearchResult(al, bmp, o + 1); }
  }

  /** calc_lspc answers the least viable padding, -1 exactly when there is none,
      and -2 exactly when the alignment is not a power of two. */
  lemma CalcLspcIsLeast(al: nat, bmp: Word)
    requires 0 < al < SIZE_RANGE
    ensures CalcLspc(al, bmp) == -2 <==> !PowerOfTwo(al)
    ensures CalcLspc(al, bmp) == -1 <==> PowerOfTwo(al) && forall p: nat | p < 64 :: !Viable(al, bmp, p)
    ensures CalcLspc(al, bmp) >= 0 ==>
      var n: nat := CalcLspc(al, bmp);
      n < 64 && Viable(al, bmp, n) && forall p: nat | p < n :: !Viable(al, bmp, p)
  {
    CalcLspcRefinesSearch(al, bmp);
    SearchResult(al, bmp, 0);
  }

  // ------------------------------------------------------- the placement theorem

  lemma {:induction false} NarrowAlgnBounds(size: nat, a: nat)
    requires a in {8, 16, 32, 64} && (size <= a || a == 64)
    ensures NarrowAlgn(size, a) in {8, 16, 32, 64}
    ensures NarrowAlgn(size, a) < 64 ==> size <= NarrowAlgn(size, a)
    decreases a
  {
    if a > 8 && size <= a / 2 { NarrowAlgnBounds(size, a / 2); }
  }

  lemma BlockStart(base: nat, a: nat)
    requires a in {8, 16, 32, 64} && base % a == 0
    ensures base % 64 == 0 || a <= base % 64 <= 64 - a
  {
    var k := base / a;
    if a == 8 { DivModUnique(base, 64, k / 8, 8 * (k % 8)); }
    else if a == 16 { DivModUnique(base, 64, k / 4, 16 * (k % 4)); }
    else if a == 32 { DivModUnique(base, 64, k / 2, 32 * (k % 2)); }
  }

  lemma LinePosition(base: nat, p: nat)
    ensures (base + p) % 64 == (base % 64 + p) % 64
    ensures (base + p) % 64 == (base + p % 64) % 64
  {
    DivModUnique(base + p, 64, base / 64 + (base % 64 + p) / 64, (base % 64 + p) % 64);
    DivModUnique(base + p, 64, p / 64 + (base + p % 64) / 64, (base + p % 64) % 64);
  }

  /** Inside an aligned block of at most 64 bytes the position in the line only grows by the
      start of the block, so only the block at position 0 can meet a forbidden position. */
  lemma BlockPosition(base: nat, a: nat, p: nat)
    requires a in {8, 16, 32, 64} && base % a == 0
    requires a < 64 ==> p < a
    requires !Forbidden(p % 64)
    ensures !Forbidden((base + p) % 64)
  {
    BlockStart(base, a);
    LinePosition(base, p);
    if base % 64 != 0 { assert 8 <= base % 64 + p < 64; }
  }

  lemma LineBlockPosition(base: nat, al: nat, p: nat)
    requires PowerOfTwo(al) && al > 64 && base % al == 0
    requires !Forbidden(p % 64)
    ensures !Forbidden((base + p) % 64)
  {
    PowerAndLine(al);
    var k := al / 64 * (base / al);
    assert base == 64 * k;
    DivModUnique(base + p, 64, k + p / 64, p % 64);
  }

  lemma PaddedPosition(ranges: seq<Range>, al: nat, lz: nat, r: Range, i: nat)
    requires Representable(ranges) && Viable(al, SecretBmp(FromNat(0), ranges), lz)
    requires r in ranges && i < r.length
    ensures !Forbidden((lz + r.offset + i) % 64)
  {
    var j := (r.offset + i) % 64;
    assert Hits(r, i, j);
    SecretBmpBit(FromNat(0), ranges, j);
    LinePosition(lz, r.offset + i);
  }

  lemma PlacedPosition(al: nat, total: nat, base: nat, p: nat)
    requires PowerOfTwo(al) && base % CalcAlgn(al, total) == 0
    requires p < total && !Forbidden(p % 64)
    ensures !Forbidden((base + p) % 64)
  {
    if al > 64 {
      LineBlockPosition(base, al, p);
    } else {
      NarrowAlgnBounds(total, 64);
      BlockPosition(base, NarrowAlgn(total, 64), p);
    }
  }

  /** The padding chosen for a structure: the third argument of custom_alignment. */
  function Padding(al: nat, ranges: seq<Range>): int
    requires Representable(ranges)
  {
    CalcLspc(al, SecretBmp(FromNat(0), ranges))
  }

  lemma PaddingIsViable(ranges: seq<Range>, al: nat)
    requires Representable(ranges) && PowerOfTwo(al) && al < SIZE_RANGE
    ensures var lz := Padding(al, ranges);
      lz >= 0 ==> lz < 64 && lz % al == 0 && Viable(al, SecretBmp(FromNat(0), ranges), lz)
  {
    CalcLspcRefinesSearch(al, SecretBmp(FromNat(0), ranges));
    SearchResult(al, SecretBmp(FromNat(0), ranges), 0);
  }

  // ------------------------------------------------------- the padded structure

  /** The type that is to be protected: its size and alignment, and its secret ranges. */
  datatype Structure = Structure(size: nat, align: nat, ranges: seq<Range>)
  {
    ghost predicate WellFormed() {
      && size > 0 && PowerOfTwo(align) && align > 0 && size % align == 0
      && Representable(ranges)
      && (forall r | r in ranges :: r.offset + r.length <= size)
    }

    function LeadingSpace(al: nat): int
      requires Representable(ranges)
    {
      Padding(al, ranges)
    }

    /** The alignment of the structure padded by `lz` bytes: the address of every instance is a multiple of it. */
    function Alignment(al: nat, lz: nat): (a: nat)
      ensures a > 0
    {
      CalcAlgn(al, size + lz)
    }

    /** The template can be instantiated: there is a padding, and the alignment asked for is not weaker
        than the one that the member needs, which the language forbids. */
    predicate Accepted(al: nat)
      requires Representable(ranges)
    {
      LeadingSpace(al) >= 0 && Alignment(al, LeadingSpace(al)) >= align
    }

    /** An instance of the template can lie at `base`. */
    predicate Allows(al: nat, base: nat)
      requires Representable(ranges)
    {
      Accepted(al) && base % Alignment(al, LeadingSpace(al)) == 0
    }

    /** Where the member lies in the padded structure: behind the padding, at a multiple of its own
        alignment. */
    function MemberOffset(lz: nat): nat
      requires align > 0
    {
      RoundUp(lz, align)
    }

    /** Byte `i` of range `r` of the instance at `base` has no address that is 0 or 4-7 modulo 64. */
    predicate Safe(lz: nat, base: nat, r: Range, i: nat)
      requires align > 0
    {
      !Forbidden((base + MemberOffset(lz) + r.offset + i) % 64)
    }

    /** That holds for every secret byte. */
    ghost predicate Protected(lz: nat, base: nat)
      requires align > 0
    {
      forall r, i: nat {:trigger Safe(lz, base, r, i)} | r in ranges && i < r.length :: Safe(lz, base, r, i)
    }
  }

  function RoundUp(n: nat, a: nat): nat
    requires a > 0
  {
    (n + a - 1) / a * a
  }

  lemma RoundUpIs(n: nat, a: nat)
    requires a > 0
    ensures RoundUp(n, a) % a == 0 && n <= RoundUp(n, a) < n + a
    ensures n % a == 0 ==> RoundUp(n, a) == n
    ensures 0 < n <= a ==> RoundUp(n, a) == a
  {
    var k := (n + a - 1) / a;
    assert n + a - 1 == a * k + (n + a - 1) % a;
    DivModUnique(k * a, a, k, 0);
    if n % a == 0 { DivModUnique(n + a - 1, a, n / a, a - 1); }
    if 0 < n <= a { DivModUnique(n + a - 1, a, 1, n - 1); }
  }

  lemma MultipleOfMultiple(n: nat, b: nat, a: nat)
    requires a > 0 && b > 0 && n % b == 0 && b % a == 0
    ensures n % a == 0
  {
    assert n == (n / b) * b && b == (b / a) * a;
    assert n == a * ((n / b) * (b / a));
    DivModUnique(n, a, (n / b) * (b / a), 0);
  }

  /** With an alignment asked for that the member's divides, the member follows its padding at once, and
      no secret byte of any instance has an address that is 0 or 4-7 modulo 64. */
  lemma SecretBytesAvoidForbiddenPositions(t: Structure, al: nat, base: nat)
    requires t.WellFormed() && PowerOfTwo(al) && al < SIZE_RANGE && al % t.align == 0
    ensures var lz := t.LeadingSpace(al);
      && (lz >= 0 ==> t.MemberOffset(lz) == lz)
      && (lz >= 0 && base % t.Alignment(al, lz) == 0 ==> t.Protected(lz, base))
  {
    hide Padding, SecretBmp, Viable, CalcAlgn, RoundUp, PowerOfTwo;
    if t.LeadingSpace(al) >= 0 {
      var lz: nat := t.LeadingSpace(al);
      PaddingIsViable(t.ranges, al);
      PowerPositive(al);
      MultipleOfMultiple(lz, al, t.align);
      RoundUpIs(lz, t.align);
      if base % t.Alignment(al, lz) == 0 {
        forall r, i: nat {:trigger t.Safe(lz, base, r, i)} | r in t.ranges && i < r.length
          ensures t.Safe(lz, base, r, i)
        {
          PaddedPosition(t.ranges, al, lz, r, i);
          PlacedPosition(al, t.size + lz, base, lz + r.offset + i);
        }
      }
    }
  }

  lemma PowerPositive(al: nat)
    requires PowerOfTwo(al)
    ensures al > 0
  {}

  // ------------------------------------------------------- where the guarantee ends

  function TwoBytes(p: nat, q: nat): seq<Range> {
    [Range(p, 1), Range(q, 1)]
  }

  lemma TwoBytesBit(p: nat, q: nat, j: nat)
    requires p < 64 && q < 64 && j < 64
    ensures SecretBmp(FromNat(0), TwoBytes(p, q))[j] <==> j == p || j == q
  {
    hide SecretBmp;
    SecretBmpBit(FromNat(0), TwoBytes(p, q), j);
    OnesBit(0, j);
    OneByteTouches(p, j);
    OneByteTouches(q, j);
    assert Range(p, 1) in TwoBytes(p, q) && Range(q, 1) in TwoBytes(p, q);
  }

  lemma OneByteTouches(p: nat, j: nat)
    requires p < 64 && j < 64
    ensures Touches(Range(p, 1), j) <==> j == p
  {
    if j == p { assert Hits(Range(p, 1), 0, j); }
  }

  /** Two secret bytes that only a padding of `al` brings out of the forbidden positions. */
  lemma TwoBytesPadding(al: nat, p: nat, q: nat)
    requires al in {1, 2, 4, 8, 16, 32} && PowerOfTwo(al) && p < 64 && q < 64
    requires Forbidden(p) && !Forbidden((p + al) % 64) && !Forbidden((q + al) % 64)
    ensures Padding(al, TwoBytes(p, q)) == al
  {
    hide SecretBmp, CalcLspc, PowerOfTwo;
    var bmp := SecretBmp(FromNat(0), TwoBytes(p, q));
    forall j: nat | j < 64 ensures bmp[j] <==> j == p || j == q { TwoBytesBit(p, q, j); }
    assert Viable(al, bmp, al);
    forall o: nat | o < al ensures !Viable(al, bmp, o) {
      if o == 0 { assert bmp[p] && (p + 0) % 64 == p; } else { assert o % al == o; }
    }
    CalcLspcRefinesSearch(al, bmp);
    SearchFinds(al, bmp, 0, al);
  }

  /** Where the second byte is put: the padding alone would save it, the member's offset does not. */
  function SecondByte(align: nat): nat {
    if align == 64 then 7 else (64 - align) % 64
  }

  function Exposed(align: nat): Structure {
    Structure(64, align, TwoBytes(7, SecondByte(align)))
  }

  lemma ExposedPadding(al: nat, align: nat)
    requires al in {1, 2, 4, 8, 16, 32} && align in {2, 4, 8, 16, 32, 64} && al < align && PowerOfTwo(al)
    ensures Padding(al, TwoBytes(7, SecondByte(align))) == al
  {
    TwoBytesPadding(al, 7, SecondByte(align));
  }

  /** A member with a stronger alignment than the one asked for is moved away from the padding. */
  lemma WeakerAlignmentExposes(al: nat, align: nat)
    requires PowerOfTwo(al) && PowerOfTwo(align) && al < align <= 64
    ensures Exposed(align).WellFormed()
    ensures Exposed(align).Allows(al, 0) && !Exposed(align).Protected(Exposed(align).LeadingSpace(al), 0)
  {
    hide Padding, PowerOfTwo, RoundUp;
    PowerAndLine(al);
    PowerAndLine(align);
    ExposedPadding(al, align);
    ExposedByte(al, align);
  }

  lemma ExposedByte(al: nat, align: nat)
    requires align in {2, 4, 8, 16, 32, 64} && 0 < al < align
    ensures !Exposed(align).Protected(al, 0)
  {
    hide RoundUp;
    var t, q := Exposed(align), Range(SecondByte(align), 1);
    RoundUpIs(al, align);
    assert t.ranges[1] == q;
    assert q in t.ranges && !t.Safe(al, 0, q, 0);
  }

  /** For every type with the alignment `align`, every list of secret ranges and every address that the
      computed alignment allows, the secret bytes are protected. */
  ghost predicate Guaranteed(al: nat, align: nat)
    requires align > 0
  {
    forall t: Structure, base: nat {:trigger t.Allows(al, base)}
      | t.align == align && t.WellFormed() && t.Allows(al, base) :: t.Protected(t.LeadingSpace(al), base)
  }

  lemma StrongerIsGuaranteed(al: nat, align: nat)
    requires PowerOfTwo(al) && PowerOfTwo(align) && align > 0 && al < SIZE_RANGE && (al % align == 0 || align > 64)
    ensures Guaranteed(al, align)
  {
    forall t: Structure, base: nat {:trigger t.Allows(al, base)}
      | t.align == align && t.WellFormed() && t.Allows(al, base)
      ensures t.Protected(t.LeadingSpace(al), base)
    {
      AcceptedAlignment(t, al);
      SecretBytesAvoidForbiddenPositions(t, al, base);
    }
  }

  /** The guarantee holds exactly if the alignment asked for is a multiple of the type's own, or the latter is
      above 64: the template then cannot be instantiated with less than that. */
  lemma GuaranteeHolds(al: nat, align: nat)
    requires PowerOfTwo(al) && PowerOfTwo(align) && al < SIZE_RANGE && align > 0
    ensures Guaranteed(al, align) <==> al % align == 0 || align > 64
  {
    if al % align == 0 || align > 64 {
      StrongerIsGuaranteed(al, align);
    } else {
      if align <= al { PowersNest(align, al); }
      WeakerAlignmentExposes(al, align);
      assert !Guaranteed(al, align) by { assert Exposed(align).Allows(al, 0); }
    }
  }

  /** A type of 64 bytes with the alignment 8 and the secret bytes 0 and 60, and an alignment of 1 asked for: the
      padding is one byte, the member lies at 8, and byte 60 gets an address that is 4 modulo 64. */
  lemma WeakerAlignmentFails()
    ensures var t := Structure(64, 8, [Range(0, 1), Range(60, 1)]);
      && t.WellFormed() && t.LeadingSpace(1) == 1 && t.Alignment(1, 1) == 64 && t.Allows(1, 0)
      && t.MemberOffset(1) == 8 && !t.Protected(1, 0)
  {
    hide Padding, RoundUp;
    assert Pow2(0) == 1 && Pow2(3) == 8;
    TwoBytesPadding(1, 0, 60);
    assert TwoBytes(0, 60) == [Range(0, 1), Range(60, 1)];
    RoundUpIs(1, 8);
    var t := Structure(64, 8, [Range(0, 1), Range(60, 1)]);
    assert t.ranges[1] in t.ranges && !t.Safe(1, 0, t.ranges[1], 0);
  }

  lemma AcceptedAlignment(t: Structure, al: nat)
    requires t.WellFormed() && PowerOfTwo(al)
    ensures t.Accepted(al) && t.align > 64 ==> al % t.align == 0
  {
    hide Padding;
    if t.Accepted(al) && t.align > 64 {
      if al > 64 { PowersNest(t.align, al); } else { NarrowAlgnBounds(t.size + t.LeadingSpace(al), 64); }
    }
  }

  /** Of two powers of two the smaller divides the larger. */
  lemma PowersNest(a: nat, b: nat)
    requires PowerOfTwo(a) && PowerOfTwo(b) && a <= b
    ensures a > 0 && b % a == 0
  {
    var j: nat :| a == Pow2(j);
    var k: nat :| b == Pow2(k);
    hide Pow2;
    if j <= k {
      Pow2Split(j, k - j);
      DivModUnique(b, a, Pow2(k - j), 0);
    } else {
      Pow2Monotone(k, j);
      DivModUnique(b, a, 1, 0);
    }
  }

  // ------------------------------------------------------- the alignment of the member

  lemma {:induction false} NarrowAlgnExact(size: nat, a: nat, al: nat)
    requires a in {8, 16, 32, 64} && al in {16, 32, 64} && al <= a
    ensures NarrowAlgn(size, a) >= al <==> 2 * size > al
    decreases a
  {
    if size <= a / 2 && al <= a / 2 { NarrowAlgnExact(size, a / 2, al); }
    if size <= a / 2 && al > a / 2 { NarrowAlgnBounds(size, a / 2); NarrowAlgnAtMost(size, a / 2); }
  }

  lemma {:induction false} NarrowAlgnAtMost(size: nat, a: nat)
    ensures NarrowAlgn(size, a) <= a
    decreases a
  {
    if a > 8 && size <= a / 2 { NarrowAlgnAtMost(size, a / 2); }
  }

  /** The guard under which the computed alignment is at least the one asked for. */
  predicate LargeEnough(al: nat, total: nat) {
    al <= 8 || al > 64 || 2 * total > al
  }

  lemma AlignmentOfBlock(al: nat, total: nat)
    requires PowerOfTwo(al)
    ensures CalcAlgn(al, total) >= al <==> LargeEnough(al, total)
    ensures PowerOfTwo(CalcAlgn(al, total))
  {
    PowerAndLine(al);
    if al <= 64 {
      NarrowAlgnBounds(total, 64);
      assert Pow2(3) == 8 && Pow2(4) == 16 && Pow2(5) == 32 && Pow2(6) == 64;
      if al > 8 { NarrowAlgnExact(total, 64, al); }
    }
  }

  predicate AlignedAt(al: nat, offset: nat, base: nat)
    requires al > 0
  {
    (base + offset) % al == 0
  }

  /** Every address that the computed alignment allows for the whole is one where the member has the
      alignment asked for. */
  ghost predicate KeepsAlignment(al: nat, computed: nat, offset: nat)
    requires al > 0 && computed > 0
  {
    forall base: nat {:trigger AlignedAt(al, offset, base)} | base % computed == 0 :: AlignedAt(al, offset, base)
  }

  lemma AddMultiple(base: nat, offset: nat, al: nat)
    requires al > 0 && offset % al == 0
    ensures (base + offset) % al == base % al
  {
    DivModUnique(base + offset, al, base / al + offset / al, base % al);
  }

  lemma KeepsAlignmentExactly(al: nat, computed: nat, offset: nat)
    requires PowerOfTwo(al) && PowerOfTwo(computed) && al > 0 && computed > 0 && offset % al == 0
    ensures KeepsAlignment(al, computed, offset) <==> computed >= al
  {
    if computed >= al {
      PowersNest(al, computed);
      forall base: nat {:trigger AlignedAt(al, offset, base)} | base % computed == 0
        ensures AlignedAt(al, offset, base)
      {
        AddMultiple(base, offset, al);
        MultipleOfMultiple(base, computed, al);
      }
    } else {
      AddMultiple(computed, offset, al);
      DivModUnique(computed, al, 0, computed);
      DivModUnique(computed, computed, 1, 0);
      assert !AlignedAt(al, offset, computed);
    }
  }

  lemma OffsetIsMultiple(t: Structure, al: nat, lz: nat)
    requires t.WellFormed() && PowerOfTwo(al) && al > 0 && lz % al == 0
    ensures t.MemberOffset(lz) % al == 0
  {
    hide RoundUp;
    RoundUpIs(lz, t.align);
    if t.align <= al {
      PowersNest(t.align, al);
      MultipleOfMultiple(lz, al, t.align);
    } else {
      PowersNest(al, t.align);
      MultipleOfMultiple(RoundUp(lz, t.align), t.align, al);
    }
  }

  /** The member has the alignment asked for at every allowed address exactly if that is at most 8, above 64,
      or less than twice the size of the padding and the type. */
  lemma PaddedStructureStaysAligned(t: Structure, al: nat)
    requires t.WellFormed() && PowerOfTwo(al) && al > 0 && al < SIZE_RANGE
    ensures var lz := t.LeadingSpace(al);
      lz >= 0 ==> (KeepsAlignment(al, t.Alignment(al, lz), t.MemberOffset(lz)) <==> LargeEnough(al, t.size + lz))
  {
    hide Padding, RoundUp, CalcAlgn, PowerOfTwo;
    if t.LeadingSpace(al) >= 0 {
      var lz: nat := t.LeadingSpace(al);
      PaddingIsViable(t.ranges, al);
      OffsetIsMultiple(t, al, lz);
      AlignmentOfBlock(al, t.size + lz);
      KeepsAlignmentExactly(al, t.Alignment(al, lz), t.MemberOffset(lz));
    }
  }

  /** A type of 24 bytes and an alignment of 64 asked for: the computed alignment is 32, and the address 32
      is allowed. */
  lemma SmallStructureLosesAlignment()
    ensures var t := Structure(24, 8, []);
      && t.WellFormed() && t.LeadingSpace(64) == 0 && t.Alignment(64, 0) == 32 && t.Allows(64, 32)
      && !AlignedAt(64, t.MemberOffset(0), 32)
  {
    assert Pow2(3) == 8 && Pow2(6) == 64;
    CalcLspcRefinesSearch(64, FromNat(0));
    forall j: nat | j < 64 ensures !FromNat(0)[j] { OnesBit(0, j); }
    assert Viable(64, FromNat(0), 0);
  }

  /** With the type's own alignment, which is the default, both promises hold without a condition. */
  lemma NaturalAlignmentIsSafe(t: Structure, base: nat)
    requires t.WellFormed() && t.align < SIZE_RANGE
    ensures var lz := t.LeadingSpace(t.align);
      lz >= 0 && base % t.Alignment(t.align, lz) == 0 ==>
        t.Protected(lz, base) && AlignedAt(t.align, t.MemberOffset(lz), base)
  {
    hide Padding, RoundUp, CalcAlgn, PowerOfTwo;
    AtLeastOneUnit(t.size, t.align);
    SecretBytesAvoidForbiddenPositions(t, t.align, base);
    PaddedStructureStaysAligned(t, t.align);
  }

  lemma AtLeastOneUnit(size: nat, al: nat)
    requires al > 0 && size > 0 && size % al == 0
    ensures size >= al
  {}
}
