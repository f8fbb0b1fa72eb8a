/** The recursive Sudoku query: rows are taken from a queue, each row fills its first blank in
    every way that the query allows, and the rows without a blank are the answer. */
module Sudoku {
  /** A board is a text of 81 cells, row by row; '.' is a blank. */
  type Board = s: string | |s| == 81 witness seq(81, i => '.')

  datatype Pair = Pair(s: Board, ind: nat)

  /** A row of the recursive table: the board and the place of its first blank, counted from 1,
      or 0. */
  type Row = r: Pair | r.ind == Instr(r.s, 0) witness Pair(seq(81, i => '.'), 1)

  /** instr(s, '.'), searching from position i on. */
  function Instr(s: string, i: nat): (ind: nat)
    requires i <= |s|
    ensures if ind == 0 then forall k | i <= k < |s| :: s[k] != '.' else i < ind <= |s| && s[ind - 1] == '.' && forall k | i <= k < ind - 1 :: s[k] != '.'
    decreases |s| - i
  {
    if i == |s| then 0 else if s[i] == '.' then i + 1 else Instr(s, i + 1)
  }

  function MakeRow(s: Board): Row {
    Pair(s, Instr(s, 0))
  }

  /** The digits table from `lp` on: the digit and its value. */
  function Digits(lp: nat): seq<(char, nat)>
    requires 1 <= lp <= 9
    decreases 9 - lp
  {
    [('0' + lp as char, lp)] + (if lp < 9 then Digits(lp + 1) else [])
  }

  // The three cells that the query compares for `lp`, counted from 1.

  function RowCell(ind: nat, lp: nat): (k: nat)
    requires ind >= 1 && lp >= 1
    ensures k >= 1
  {
    (ind - 1) / 9 * 9 + lp
  }

  function ColumnCell(ind: nat, lp: nat): (k: nat)
    requires ind >= 1 && lp >= 1
    ensures k >= 1
  {
    (ind - 1) % 9 + (lp - 1) * 9 + 1
  }

  function BoxCell(ind: nat, lp: nat): (k: nat)
    requires ind >= 1 && lp >= 1
    ensures k >= 1
  {
    (ind - 1) / 3 % 3 * 3 + (ind - 1) / 27 * 27 + lp + (lp - 1) / 3 * 6
  }

  lemma CellsOnBoard(ind: nat, lp: nat)
    requires 1 <= ind <= 81 && 1 <= lp <= 9
    ensures 1 <= RowCell(ind, lp) <= 81 && 1 <= ColumnCell(ind, lp) <= 81 && 1 <= BoxCell(ind, lp) <= 81
  {}

  predicate Clash(s: Board, ind: nat, z: char, lp: nat)
    requires 1 <= ind <= 81 && 1 <= lp <= 9
  {
    CellsOnBoard(ind, lp);
    z == s[RowCell(ind, lp) - 1] || z == s[ColumnCell(ind, lp) - 1] || z == s[BoxCell(ind, lp) - 1]
  }

  predicate Allowed(s: Board, ind: nat, z: char)
    requires 1 <= ind <= 81
  {
    !exists lp | 1 <= lp <= 9 :: Clash(s, ind, z, lp)
  }

  /** The row with digit `z` in the first blank, if the query allows it. */
  function Try(r: Row, z: char): seq<Row>
  {
    if r.ind > 0 && Allowed(r.s, r.ind, z) then [MakeRow(r.s[r.ind - 1 := z])] else []
  }

  /** The rows that one row gives rise to. */
  function Expand(r: Row, digits: seq<(char, nat)>): seq<Row>
  {
    if digits == [] then [] else Try(r, digits[0].0) + Expand(r, digits[1..])
  }

  /** No more than nine digits, none of them the blank. */
  predicate DigitsOnly(digits: seq<(char, nat)>) {
    |digits| <= 9 && forall d | d in digits :: d.0 != '.'
  }

  // ------------------------------------------------------- the recursive table

  function Blanks(s: string): (n: nat)
    ensures n <= |s|
  {
    if s == "" then 0 else Blanks(s[1..]) + (if s[0] == '.' then 1 else 0)
  }

  function Weight(n: nat): (w: nat)
    ensures w > 0
  {
    if n == 0 then 1 else 10 * Weight(n - 1)
  }

  function QueueWeight(queue: seq<Row>): nat {
    if queue == [] then 0 else Weight(Blanks(queue[0].s)) + QueueWeight(queue[1..])
  }

  lemma {:induction false} BlanksFilled(s: string, i: nat, c: char)
    requires i < |s| && s[i] == '.' && c != '.'
    ensures Blanks(s[i := c]) == Blanks(s) - 1
  {
    if i == 0 {
      assert s[0 := c][1..] == s[1..];
    } else {
      assert s[i := c][1..] == s[1..][i - 1 := c];
      BlanksFilled(s[1..], i - 1, c);
    }
  }

  lemma {:induction false} WeightOfConcat(a: seq<Row>, b: seq<Row>)
    ensures QueueWeight(a + b) == QueueWeight(a) + QueueWeight(b)
  {
    if a == [] {
      assert a + b == b;
    } else {
      assert (a + b)[1..] == a[1..] + b;
      WeightOfConcat(a[1..], b);
    }
  }

  lemma TryWeight(r: Row, z: char)
    requires z != '.' && r.ind > 0
    ensures Blanks(r.s) > 0 && QueueWeight(Try(r, z)) <= Weight(Blanks(r.s) - 1)
  {
    BlanksFilled(r.s, r.ind - 1, z);
  }

  lemma {:induction false} NothingToExpand(r: Row, digits: seq<(char, nat)>)
    requires r.ind == 0
    ensures Expand(r, digits) == []
  {
    if digits != [] { NothingToExpand(r, digits[1..]); }
  }

  /** At most one new row a digit, each with one blank less. */
  lemma {:induction false} ExpandWeight(r: Row, digits: seq<(char, nat)>)
    requires r.ind > 0 && Blanks(r.s) > 0 && forall d | d in digits :: d.0 != '.'
    ensures QueueWeight(Expand(r, digits)) <= |digits| * Weight(Blanks(r.s) - 1)
  {
    if digits != [] {
      TryWeight(r, digits[0].0);
      ExpandWeight(r, digits[1..]);
      WeightOfConcat(Try(r, digits[0].0), Expand(r, digits[1..]));
      OneMore(|digits| - 1, Weight(Blanks(r.s) - 1));
    }
  }

  lemma OneMore(n: nat, w: nat)
    ensures n * w + w == (n + 1) * w
  {}

  lemma TenTimes(n: nat, w: nat)
    requires n <= 9 && w > 0
    ensures n * w < 10 * w
  {}

  lemma {:induction false} HasBlank(s: string, i: nat)
    requires i < |s| && s[i] == '.'
    ensures Blanks(s) > 0
  {
    if i > 0 { HasBlank(s[1..], i - 1); }
  }

  lemma ExpandLighter(r: Row, digits: seq<(char, nat)>)
    requires DigitsOnly(digits)
    ensures QueueWeight(Expand(r, digits)) < Weight(Blanks(r.s))
  {
    if r.ind > 0 {
      HasBlank(r.s, r.ind - 1);
      ExpandWeight(r, digits);
      TenTimes(|digits|, Weight(Blanks(r.s) - 1));
    } else {
      NothingToExpand(r, digits);
    }
  }

  lemma StepWeight(queue: seq<Row>, digits: seq<(char, nat)>)
    requires queue != [] && DigitsOnly(digits)
    ensures QueueWeight(queue[1..] + Expand(queue[0], digits)) < QueueWeight(queue)
  {
    ExpandLighter(queue[0], digits);
    WeightOfConcat(queue[1..], Expand(queue[0], digits));
  }

  /** The recursive table: each row is taken from the queue, and what it gives rise to is put
      at the end of the queue. */
  ghost function Table(queue: seq<Row>, digits: seq<(char, nat)>): seq<Row>
    requires DigitsOnly(digits)
    decreases QueueWeight(queue)
  {
    if queue == [] then []
    else
      StepWeight(queue, digits);
      [queue[0]] + Table(queue[1..] + Expand(queue[0], digits), digits)
  }

  /** SELECT s FROM x WHERE ind = 0 */
  function Complete(rows: seq<Row>): seq<Board> {
    if rows == [] then [] else (if rows[0].ind == 0 then [rows[0].s] else []) + Complete(rows[1..])
  }

  lemma {:induction false} DigitsAre(lp: nat)
    requires 1 <= lp <= 9
    ensures |Digits(lp)| == 10 - lp
    ensures forall i | 0 <= i < 10 - lp :: Digits(lp)[i] == ('0' + (lp + i) as char, lp + i)
    decreases 9 - lp
  {
    if lp < 9 { DigitsAre(lp + 1); }
  }

  ghost function Answer(input: Board): seq<Board> {
    DigitsAre(1);
    Complete(Table([MakeRow(input)], Digits(1)))
  }

  // ------------------------------------------------------- the specification

  predicate Peers(p: nat, q: nat) {
    p != q && (p / 9 == q / 9 || p % 9 == q % 9 || SameBox(p, q))
  }

  predicate IsDigit(c: char) {
    '1' <= c <= '9'
  }

  /** `t` fills the blanks of `s` with digits, each different from everything in its row, its
      column and its box. */
  predicate Completion(s: Board, t: Board) {
    && (forall p | 0 <= p < 81 && s[p] != '.' :: t[p] == s[p])
    && (forall p | 0 <= p < 81 && s[p] == '.' :: IsDigit(t[p]))
    && (forall p, q | 0 <= p < 81 && 0 <= q < 81 && s[p] == '.' && Peers(p, q) :: t[p] != t[q])
  }

  function Occurrences(t: Board, boards: seq<Board>): nat {
    if boards == [] then 0 else Occurrences(t, boards[1..]) + (if boards[0] == t then 1 else 0)
  }

  /** The number of rows of a queue that `t` completes. */
  function Completed(t: Board, rows: seq<Row>): nat {
    if rows == [] then 0 else Completed(t, rows[1..]) + (if Completion(rows[0].s, t) then 1 else 0)
  }

  // ------------------------------------------------------- cells and peers

  lemma RowCells(ind: nat, k: nat)
    requires 1 <= ind <= 81 && 1 <= k <= 81
    ensures (ind - 1) / 9 == (k - 1) / 9 <==> exists lp: nat :: 1 <= lp <= 9 && RowCell(ind, lp) == k
  {
    assert (ind - 1) / 9 == (k - 1) / 9 ==> RowCell(ind, (k - 1) % 9 + 1) == k;
  }

  lemma ColumnCells(ind: nat, k: nat)
    requires 1 <= ind <= 81 && 1 <= k <= 81
    ensures (ind - 1) % 9 == (k - 1) % 9 <==> exists lp: nat :: 1 <= lp <= 9 && ColumnCell(ind, lp) == k
  {
    assert (ind - 1) % 9 == (k - 1) % 9 ==> ColumnCell(ind, (k - 1) / 9 + 1) == k;
  }

  predicate SameBox(p: nat, q: nat) {
    p / 27 == q / 27 && p % 9 / 3 == q % 9 / 3
  }

  /** A cell number in base 3: the band, the row in the band, the stack and the column in it. */
  lemma InBaseThree(p: nat) returns (a: nat, b: nat, c: nat, d: nat)
    requires p < 81
    ensures a < 3 && b < 3 && c < 3 && d < 3 && p == 27 * a + 9 * b + 3 * c + d
    ensures p / 27 == a && p % 9 / 3 == c && p / 3 % 3 == c
  {
    a, b, c, d := p / 27, p / 9 % 3, p / 3 % 3, p % 3;
    assert p / 3 == 9 * a + 3 * b + c && p / 9 == 3 * a + b;
  }

  lemma FromBaseThree(a: nat, b: nat, c: nat, d: nat, p: nat)
    requires a < 3 && b < 3 && c < 3 && d < 3 && p == 27 * a + 9 * b + 3 * c + d
    ensures p / 27 == a && p % 9 / 3 == c
  {}

  lemma BoxCellValue(ind: nat, lp: nat, a: nat, c: nat, m: nat, n: nat)
    requires ind >= 1 && (ind - 1) / 27 == a && (ind - 1) / 3 % 3 == c && m < 3 && n < 3 && lp == 3 * m + n + 1
    ensures BoxCell(ind, lp) == 27 * a + 9 * m + 3 * c + n + 1
  {}

  lemma BoxOfCell(ind: nat, lp: nat)
    requires 1 <= ind <= 81 && 1 <= lp <= 9
    ensures 1 <= BoxCell(ind, lp) <= 81 && SameBox(ind - 1, BoxCell(ind, lp) - 1)
  {
    var a, b, c, d := InBaseThree(ind - 1);
    var m, n := (lp - 1) / 3, (lp - 1) % 3;
    BoxCellValue(ind, lp, a, c, m, n);
    FromBaseThree(a, m, c, n, 27 * a + 9 * m + 3 * c + n);
  }

  lemma CellOfBox(ind: nat, k: nat) returns (lp: nat)
    requires 1 <= ind <= 81 && 1 <= k <= 81 && SameBox(ind - 1, k - 1)
    ensures 1 <= lp <= 9 && BoxCell(ind, lp) == k
  {
    var a, b, c, d := InBaseThree(ind - 1);
    var a', b', c', d' := InBaseThree(k - 1);
    lp := 3 * b' + d' + 1;
    BoxCellValue(ind, lp, a, c, b', d');
  }

  /** The three index formulas run through exactly the row, the column and the box of a cell. */
  lemma ClashIsPeer(s: Board, ind: nat, z: char)
    requires 1 <= ind <= 81 && s[ind - 1] != z
    ensures Allowed(s, ind, z) <==> forall q | 0 <= q < 81 && Peers(ind - 1, q) :: s[q] != z
  {
    if Allowed(s, ind, z) {
      forall q | 0 <= q < 81 && Peers(ind - 1, q) ensures s[q] != z {
        PeerIsCompared(s, ind, z, q);
      }
    } else {
      var lp: nat :| 1 <= lp <= 9 && Clash(s, ind, z, lp);
      ClashHasPeer(s, ind, z, lp);
    }
  }

  lemma PeerIsCompared(s: Board, ind: nat, z: char, q: nat)
    requires 1 <= ind <= 81 && q < 81 && Peers(ind - 1, q) && Allowed(s, ind, z)
    ensures s[q] != z
  {
    RowCells(ind, q + 1);
    ColumnCells(ind, q + 1);
    if (ind - 1) / 9 == q / 9 {
      var lp: nat :| 1 <= lp <= 9 && RowCell(ind, lp) == q + 1;
      assert !Clash(s, ind, z, lp);
    } else if (ind - 1) % 9 == q % 9 {
      var lp: nat :| 1 <= lp <= 9 && ColumnCell(ind, lp) == q + 1;
      assert !Clash(s, ind, z, lp);
    } else {
      var lp := CellOfBox(ind, q + 1);
      assert !Clash(s, ind, z, lp);
    }
  }

  lemma ComparedCells(ind: nat, lp: nat)
    requires 1 <= ind <= 81 && 1 <= lp <= 9
    ensures RowCell(ind, lp) == ind || Peers(ind - 1, RowCell(ind, lp) - 1)
    ensures ColumnCell(ind, lp) == ind || Peers(ind - 1, ColumnCell(ind, lp) - 1)
    ensures BoxCell(ind, lp) == ind || Peers(ind - 1, BoxCell(ind, lp) - 1)
  {
    CellsOnBoard(ind, lp);
    assert (ind - 1) / 9 == (RowCell(ind, lp) - 1) / 9 by { RowCells(ind, RowCell(ind, lp)); }
    assert (ind - 1) % 9 == (ColumnCell(ind, lp) - 1) % 9 by { ColumnCells(ind, ColumnCell(ind, lp)); }
    BoxOfCell(ind, lp);
  }

  lemma ClashHasPeer(s: Board, ind: nat, z: char, lp: nat)
    requires 1 <= ind <= 81 && 1 <= lp <= 9 && s[ind - 1] != z && Clash(s, ind, z, lp)
    ensures exists q | 0 <= q < 81 :: Peers(ind - 1, q) && s[q] == z
  {
    CellsOnBoard(ind, lp);
    ComparedCells(ind, lp);
    assert s[RowCell(ind, lp) - 1] == z || s[ColumnCell(ind, lp) - 1] == z || s[BoxCell(ind, lp) - 1] == z;
  }

  // ------------------------------------------------------- one step

  lemma PeersSymmetric(p: nat, q: nat)
    requires Peers(p, q)
    ensures Peers(q, p)
  {}

  /** A board with its first blank filled: `t` completes it exactly when it completes the board
      itself, has that digit there, and the query allows the digit. */
  lemma FillFirstBlank(s: Board, ind: nat, z: char, t: Board)
    requires 1 <= ind <= 81 && s[ind - 1] == '.' && IsDigit(z)
    ensures Allowed(s, ind, z) && Completion(s[ind - 1 := z], t) <==> Completion(s, t) && t[ind - 1] == z
  {
    ClashIsPeer(s, ind, z);
    if Allowed(s, ind, z) && Completion(s[ind - 1 := z], t) {
      FilledCompletes(s, ind, z, t);
    }
    if Completion(s, t) && t[ind - 1] == z {
      CompletedFills(s, ind, z, t);
    }
  }

  lemma FilledCompletes(s: Board, ind: nat, z: char, t: Board)
    requires 1 <= ind <= 81 && s[ind - 1] == '.' && IsDigit(z)
    requires Completion(s[ind - 1 := z], t)
    requires forall q | 0 <= q < 81 && Peers(ind - 1, q) :: s[q] != z
    ensures Completion(s, t) && t[ind - 1] == z
  {
    var p, f := ind - 1, s[ind - 1 := z];
    assert f[p] != '.';
    forall x, q | 0 <= x < 81 && 0 <= q < 81 && s[x] == '.' && Peers(x, q) ensures t[x] != t[q] {
      if x == p {
        PeersSymmetric(x, q);
        if s[q] != '.' { assert t[q] == f[q]; } else { assert f[q] == '.'; }
      } else {
        assert f[x] == '.';
      }
    }
    forall x | 0 <= x < 81 && s[x] != '.' ensures t[x] == s[x] { assert f[x] == s[x]; }
    forall x | 0 <= x < 81 && s[x] == '.' ensures IsDigit(t[x]) { assert x == p || f[x] == '.'; }
  }

  lemma CompletedFills(s: Board, ind: nat, z: char, t: Board)
    requires 1 <= ind <= 81 && s[ind - 1] == '.' && IsDigit(z)
    requires Completion(s, t) && t[ind - 1] == z
    ensures Completion(s[ind - 1 := z], t)
    ensures forall q | 0 <= q < 81 && Peers(ind - 1, q) :: s[q] != z
  {
    var p, f := ind - 1, s[ind - 1 := z];
    forall q | 0 <= q < 81 && Peers(p, q) ensures s[q] != z {
      assert t[p] != t[q];
      if s[q] != '.' { assert t[q] == s[q]; }
    }
    forall x | 0 <= x < 81 && f[x] != '.' ensures t[x] == f[x] {
      if x != p { assert s[x] != '.'; }
    }
    forall x | 0 <= x < 81 && f[x] == '.' ensures IsDigit(t[x]) { assert s[x] == '.'; }
    forall x, q | 0 <= x < 81 && 0 <= q < 81 && f[x] == '.' && Peers(x, q) ensures t[x] != t[q] {
      assert s[x] == '.';
    }
  }

  lemma {:induction false} CompletedConcat(t: Board, a: seq<Row>, b: seq<Row>)
    ensures Completed(t, a + b) == Completed(t, a) + Completed(t, b)
  {
    if a == [] {
      assert a + b == b;
    } else {
      assert (a + b)[1..] == a[1..] + b;
      CompletedConcat(t, a[1..], b);
    }
  }

  /** The number of entries of the digits table with digit `z`. */
  function Listed(z: char, digits: seq<(char, nat)>): nat {
    if digits == [] then 0 else Listed(z, digits[1..]) + (if digits[0].0 == z then 1 else 0)
  }

  /** Every way to complete a board goes on through exactly one of the rows it gives rise to. */
  lemma {:induction false} ExpandKeeps(r: Row, digits: seq<(char, nat)>, t: Board)
    requires r.ind > 0 && forall d | d in digits :: IsDigit(d.0)
    ensures Completed(t, Expand(r, digits)) == if Completion(r.s, t) then Listed(t[r.ind - 1], digits) else 0
  {
    if digits != [] {
      var z := digits[0].0;
      ExpandKeeps(r, digits[1..], t);
      CompletedConcat(t, Try(r, z), Expand(r, digits[1..]));
      TryKeeps(r, z, t);
    }
  }

  lemma TryKeeps(r: Row, z: char, t: Board)
    requires r.ind > 0 && IsDigit(z)
    ensures Completed(t, Try(r, z)) == if Completion(r.s, t) && t[r.ind - 1] == z then 1 else 0
  {
    FillFirstBlank(r.s, r.ind, z, t);
  }

  // ------------------------------------------------------- the answer

  predicate EachDigitOnce(digits: seq<(char, nat)>) {
    DigitsOnly(digits) && (forall d | d in digits :: IsDigit(d.0)) && forall z | IsDigit(z) :: Listed(z, digits) == 1
  }

  lemma FullBoard(s: Board, t: Board)
    requires forall k | 0 <= k < 81 :: s[k] != '.'
    ensures Completion(s, t) <==> s == t
  {}

  /** A row and what it gives rise to account for every way to complete it. */
  lemma RowKeeps(r: Row, digits: seq<(char, nat)>, t: Board)
    requires EachDigitOnce(digits)
    ensures Completed(t, Expand(r, digits)) + (if r.ind == 0 && r.s == t then 1 else 0)
         == if Completion(r.s, t) then 1 else 0
  {
    if r.ind > 0 {
      ExpandKeeps(r, digits, t);
      CompletionHasDigit(r, t);
    } else {
      NothingToExpand(r, digits);
      FullBoard(r.s, t);
    }
  }

  /** A complete board occurs in the answer once for every row of the queue that it completes. */
  lemma {:induction false} TableKeeps(queue: seq<Row>, digits: seq<(char, nat)>, t: Board)
    requires EachDigitOnce(digits)
    ensures Occurrences(t, Complete(Table(queue, digits))) == Completed(t, queue)
    decreases QueueWeight(queue)
  {
    if queue != [] {
      var rest := queue[1..] + Expand(queue[0], digits);
      StepWeight(queue, digits);
      TableKeeps(rest, digits, t);
      CompletedConcat(t, queue[1..], Expand(queue[0], digits));
      RowKeeps(queue[0], digits, t);
      HeadOccurrence(t, queue[0], Table(rest, digits));
    }
  }

  lemma HeadOccurrence(t: Board, r: Row, rows: seq<Row>)
    ensures Occurrences(t, Complete([r] + rows))
         == Occurrences(t, Complete(rows)) + (if r.ind == 0 && r.s == t then 1 else 0)
  {
    assert ([r] + rows)[1..] == rows;
    assert [] + Complete(rows) == Complete(rows);
    if r.ind == 0 { assert ([r.s] + Complete(rows))[1..] == Complete(rows); }
  }

  lemma CompletionHasDigit(r: Row, t: Board)
    requires r.ind > 0
    ensures Completion(r.s, t) ==> IsDigit(t[r.ind - 1])
  {}

  lemma {:induction false} ListedOnce(lp: nat, z: char)
    requires 1 <= lp <= 9
    ensures Listed(z, Digits(lp)) == if '0' + lp as char <= z <= '9' then 1 else 0
    decreases 9 - lp
  {
    if lp < 9 { ListedOnce(lp + 1, z); }
  }

  lemma DigitsAreComplete()
    ensures EachDigitOnce(Digits(1))
  {
    DigitsAre(1);
    forall z | IsDigit(z) ensures Listed(z, Digits(1)) == 1 { ListedOnce(1, z); }
  }

  /** The answer contains every completion of the board exactly once, and nothing else. */
  lemma AnswerIsExact(input: Board, t: Board)
    ensures Occurrences(t, Answer(input)) == if Completion(input, t) then 1 else 0
  {
    DigitsAreComplete();
    TableKeeps([MakeRow(input)], Digits(1), t);
  }
}
