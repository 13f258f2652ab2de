/**
 * Model of src/8puzzle/Board.java: an immutable N-by-N sliding-tile board.
 * blocks[r][c] is the tile in row r, column c; 0 is the blank.
 */
module Boards {
  import opened Wrappers

  datatype Board = Board(blocks: seq<seq<int>>)

  /** A cell of the grid, by row and column. */
  datatype Pos = Pos(row: int, col: int)

  // ---------------------------------------------------------------------
  // The board invariant
  // ---------------------------------------------------------------------

  /** Every row has as many cells as there are rows. */
  ghost predicate Square(b: Board) {
    forall r :: 0 <= r < |b.blocks| ==> |b.blocks[r]| == |b.blocks|
  }

  predicate InGrid(n: int, p: Pos) {
    0 <= p.row < n && 0 <= p.col < n
  }

  /** Every cell holds one of 0 .. N*N-1. */
  ghost predicate InRange(b: Board)
    requires Square(b)
  {
    var n := |b.blocks|;
    forall r, c :: 0 <= r < n && 0 <= c < n ==> 0 <= b.blocks[r][c] < n * n
  }

  /** No two cells hold the same value. */
  ghost predicate Injective(b: Board)
    requires Square(b)
  {
    var n := |b.blocks|;
    forall r1, c1, r2, c2 ::
      (0 <= r1 < n && 0 <= c1 < n && 0 <= r2 < n && 0 <= c2 < n &&
       b.blocks[r1][c1] == b.blocks[r2][c2]) ==> r1 == r2 && c1 == c2
  }

  /** Value v is held by some cell. */
  ghost predicate Occurs(b: Board, v: int)
    requires Square(b)
  {
    exists r, c :: 0 <= r < |b.blocks| && 0 <= c < |b.blocks| && b.blocks[r][c] == v
  }

  /** Every one of 0 .. N*N-1 is held by some cell. */
  ghost predicate Surjective(b: Board)
    requires Square(b)
  {
    forall v :: 0 <= v < |b.blocks| * |b.blocks| ==> Occurs(b, v)
  }

  /**
   * The board's class invariant: an N-by-N grid holding each of
   * 0 .. N*N-1 exactly once.
   */
  ghost predicate ValidBoard(b: Board) {
    Square(b) && InRange(b) && Injective(b) && Surjective(b)
  }

  // ---------------------------------------------------------------------
  // Row-major arithmetic
  // ---------------------------------------------------------------------

  /** a <= b scaled by a non-negative n keeps its direction. */
  lemma MulMonotone(a: int, b: int, n: int)
    requires a <= b && 0 <= n
    ensures a * n <= b * n
  {
  }

  /** Row-major positions are ordered by row first, then by column. */
  lemma IndexInjective(n: int, r1: int, c1: int, r2: int, c2: int)
    requires 0 <= r1 && 0 <= r2 && 0 <= c1 < n && 0 <= c2 < n
    requires r1 * n + c1 == r2 * n + c2
    ensures r1 == r2 && c1 == c2
  {
    if r1 != r2 {
      var lo, hi := if r1 < r2 then r1 else r2, if r1 < r2 then r2 else r1;
      MulMonotone(lo + 1, hi, n);
      assert false;
    }
  }

  /** The row-major index of a cell lies in [0, n*n). */
  lemma IndexBound(n: int, r: int, c: int)
    requires 0 <= r < n && 0 <= c < n
    ensures 0 <= r * n + c < n * n
    ensures r * n + c == n * n - 1 <==> r == n - 1 && c == n - 1
  {
    MulMonotone(0, r, n);
    MulMonotone(r, n - 1, n);
    if r < n - 1 {
      MulMonotone(r + 1, n - 1, n);
    }
  }

  /** Division and remainder by n recover row and column from a row-major index. */
  lemma DivModIndex(n: int, r: int, c: int)
    requires 0 < n && 0 <= r && 0 <= c < n
    ensures (r * n + c) / n == r && (r * n + c) % n == c
  {
    var a := r * n + c;
    MulMonotone(0, r, n);
    assert a == (a / n) * n + a % n;
    IndexInjective(n, a / n, a % n, r, c);
  }

  // ---------------------------------------------------------------------
  // Dimension and the goal arrangement
  // ---------------------------------------------------------------------

  /** The board dimension N: the number of rows, each of which has N cells. */
  function Dimension(b: Board): (n: nat)
    ensures Square(b) ==> forall r :: 0 <= r < |b.blocks| ==> |b.blocks[r]| == n
  {
    |b.blocks|
  }

  /** The value the goal arrangement puts in cell (r, c): r*n+c+1, and 0 in the last cell. */
  function GoalValue(n: int, r: int, c: int): int {
    if r == n - 1 && c == n - 1 then 0 else r * n + c + 1
  }

  /** The goal arrangement: tiles in row-major ascending order, blank last. */
  function Goal(n: nat): (g: Board)
    ensures |g.blocks| == n && Square(g)
    ensures forall r, c :: 0 <= r < n && 0 <= c < n ==> g.blocks[r][c] == GoalValue(n, r, c)
  {
    Board(seq(n, r => seq(n, c => GoalValue(n, r, c))))
  }

  predicate IsGoalBoard(b: Board) {
    b == Goal(|b.blocks|)
  }

  /** Two square boards of the same dimension with the same cells are the same board. */
  lemma SameBoard(b1: Board, b2: Board)
    requires Square(b1) && Square(b2) && |b1.blocks| == |b2.blocks|
    requires forall r, c :: 0 <= r < |b1.blocks| && 0 <= c < |b1.blocks| ==> b1.blocks[r][c] == b2.blocks[r][c]
    ensures b1 == b2
  {
    forall r | 0 <= r < |b1.blocks|
      ensures b1.blocks[r] == b2.blocks[r]
    {
      assert forall c :: 0 <= c < |b1.blocks| ==> b1.blocks[r][c] == b2.blocks[r][c];
    }
  }

  /** The goal arrangement satisfies the board invariant. */
  lemma GoalIsValid(n: nat)
    ensures ValidBoard(Goal(n))
  {
    var g := Goal(n);
    forall r, c | 0 <= r < n && 0 <= c < n
      ensures 0 <= g.blocks[r][c] < n * n
    {
      IndexBound(n, r, c);
    }
    forall r1, c1, r2, c2 |
      0 <= r1 < n && 0 <= c1 < n && 0 <= r2 < n && 0 <= c2 < n && g.blocks[r1][c1] == g.blocks[r2][c2]
      ensures r1 == r2 && c1 == c2
    {
      GoalCellsDiffer(n, r1, c1, r2, c2);
    }
    forall v | 0 <= v < n * n
      ensures Occurs(g, v)
    {
      GoalHolds(n, v);
    }
  }

  lemma GoalCellsDiffer(n: nat, r1: int, c1: int, r2: int, c2: int)
    requires 0 <= r1 < n && 0 <= c1 < n && 0 <= r2 < n && 0 <= c2 < n
    requires GoalValue(n, r1, c1) == GoalValue(n, r2, c2)
    ensures r1 == r2 && c1 == c2
  {
    IndexBound(n, r1, c1);
    IndexBound(n, r2, c2);
    if GoalValue(n, r1, c1) != 0 {
      IndexInjective(n, r1, c1, r2, c2);
    }
  }

  lemma GoalHolds(n: nat, v: int)
    requires 0 <= v < n * n
    ensures Occurs(Goal(n), v)
  {
    var g := Goal(n);
    if n == 0 {
      assert false;
    } else if v == 0 {
      assert g.blocks[n - 1][n - 1] == 0;
    } else {
      var r, c := (v - 1) / n, (v - 1) % n;
      assert v - 1 == r * n + c;
      assert 0 <= r;
      assert r < n by {
        if r >= n {
          MulMonotone(n, r, n);
        }
      }
      IndexBound(n, r, c);
      assert g.blocks[r][c] == v;
    }
  }

  /** Every tile (non-zero cell) holds the value r*n+c+1 of its own cell. */
  ghost predicate TilesHome(b: Board)
    requires Square(b)
  {
    var n := |b.blocks|;
    forall r, c :: 0 <= r < n && 0 <= c < n ==> b.blocks[r][c] == 0 || b.blocks[r][c] == GoalValue(n, r, c)
  }

  /** For a valid board, every tile being at home is the same as being the goal arrangement. */
  lemma GoalIffTilesHome(b: Board)
    requires ValidBoard(b)
    ensures TilesHome(b) <==> IsGoalBoard(b)
  {
    var n := |b.blocks|;
    if TilesHome(b) && n > 0 {
      assert b.blocks[n - 1][n - 1] == 0;
      forall r, c | 0 <= r < n && 0 <= c < n
        ensures b.blocks[r][c] == GoalValue(n, r, c)
      {
        if b.blocks[r][c] == 0 {
          assert b.blocks[r][c] == b.blocks[n - 1][n - 1];
        }
      }
      SameBoard(b, Goal(n));
    }
  }

  // ---------------------------------------------------------------------
  // hamming()
  // ---------------------------------------------------------------------

  /** Number of cells (r, 0 .. c-1) whose value differs from the running expectation r*n+col+1. */
  function RowMismatches(b: Board, r: int, c: int): nat
    requires Square(b) && 0 <= r < |b.blocks| && 0 <= c <= |b.blocks|
  {
    if c == 0 then 0
    else RowMismatches(b, r, c - 1) + (if b.blocks[r][c - 1] != r * |b.blocks| + (c - 1) + 1 then 1 else 0)
  }

  /** Number of cells in rows 0 .. r-1 whose value differs from the running expectation. */
  function Mismatches(b: Board, r: int): nat
    requires Square(b) && 0 <= r <= |b.blocks|
  {
    if r == 0 then 0 else Mismatches(b, r - 1) + RowMismatches(b, r - 1, |b.blocks|)
  }

  /** Number of tiles (non-zero cells) in row r, columns 0 .. c-1, that are not in their goal cell. */
  function RowTilesAway(b: Board, r: int, c: int): nat
    requires Square(b) && 0 <= r < |b.blocks| && 0 <= c <= |b.blocks|
  {
    if c == 0 then 0 else
      var v := b.blocks[r][c - 1];
      RowTilesAway(b, r, c - 1) + (if v != 0 && v != GoalValue(|b.blocks|, r, c - 1) then 1 else 0)
  }

  /** Number of tiles in rows 0 .. r-1 that are not in their goal cell. */
  function TilesAway(b: Board, r: int): nat
    requires Square(b) && 0 <= r <= |b.blocks|
  {
    if r == 0 then 0 else TilesAway(b, r - 1) + RowTilesAway(b, r - 1, |b.blocks|)
  }

  /** The Hamming distance: the number of tiles, the blank excluded, out of their goal cell. */
  function HammingDistance(b: Board): nat
    requires Square(b)
  {
    TilesAway(b, |b.blocks|)
  }

  /**
   * hamming(): counts every cell whose value differs from row*N+col+1,
   * the bottom-right cell included, and subtracts 1 unconditionally.
   */
  method Hamming(b: Board) returns (h: int)
    requires Square(b)
    ensures h == Mismatches(b, |b.blocks|) - 1
    ensures ValidBoard(b) && |b.blocks| > 0 ==> h == HammingDistance(b)
  {
    var n := |b.blocks|;
    var outOfPlace := 0;
    var expectation := 1;
    var row := 0;
    while row < n
      invariant 0 <= row <= n
      invariant expectation == row * n + 1
      invariant outOfPlace == Mismatches(b, row)
    {
      var col := 0;
      while col < n
        invariant 0 <= col <= n
        invariant expectation == row * n + col + 1
        invariant outOfPlace == Mismatches(b, row) + RowMismatches(b, row, col)
      {
        if b.blocks[row][col] != expectation {
          outOfPlace := outOfPlace + 1;
        }
        expectation := expectation + 1;
        col := col + 1;
      }
      row := row + 1;
    }
    h := outOfPlace - 1;
    if ValidBoard(b) && n > 0 {
      HammingCountsTilesAway(b);
    }
  }

  /**
   * The unconditional "- 1" is exact on a valid board: the cell holding the
   * blank is the one cell the running count charges and the Hamming
   * distance does not (the bottom-right cell expects N*N, which no cell holds).
   */
  lemma {:induction false} HammingCountsTilesAway(b: Board)
    requires ValidBoard(b) && |b.blocks| > 0
    ensures Mismatches(b, |b.blocks|) - 1 == HammingDistance(b)
  {
    var n := |b.blocks|;
    assert Occurs(b, 0);
    var zr, zc :| 0 <= zr < n && 0 <= zc < n && b.blocks[zr][zc] == 0;
    MismatchesCount(b, zr, zc, n);
  }

  lemma {:induction false} MismatchesCount(b: Board, zr: int, zc: int, r: int)
    requires ValidBoard(b) && 0 <= zr < |b.blocks| && 0 <= zc < |b.blocks| && b.blocks[zr][zc] == 0
    requires 0 <= r <= |b.blocks|
    ensures Mismatches(b, r) == TilesAway(b, r) + (if zr < r then 1 else 0)
  {
    if r > 0 {
      MismatchesCount(b, zr, zc, r - 1);
      RowMismatchesCount(b, zr, zc, r - 1, |b.blocks|);
    }
  }

  lemma {:induction false} RowMismatchesCount(b: Board, zr: int, zc: int, r: int, c: int)
    requires ValidBoard(b) && 0 <= zr < |b.blocks| && 0 <= zc < |b.blocks| && b.blocks[zr][zc] == 0
    requires 0 <= r < |b.blocks| && 0 <= c <= |b.blocks|
    ensures RowMismatches(b, r, c) == RowTilesAway(b, r, c) + (if r == zr && zc < c then 1 else 0)
  {
    var n := |b.blocks|;
    if c > 0 {
      RowMismatchesCount(b, zr, zc, r, c - 1);
      var v := b.blocks[r][c - 1];
      IndexBound(n, r, c - 1);
      if v == 0 {
        assert b.blocks[r][c - 1] == b.blocks[zr][zc];
      } else {
        assert r != zr || c - 1 != zc;
      }
    }
  }

  /** A count of cells is zero exactly when no cell it counts qualifies. */
  lemma {:induction false} TilesAwayZero(b: Board, r: int)
    requires Square(b) && 0 <= r <= |b.blocks|
    ensures TilesAway(b, r) == 0 <==>
      forall i, j :: 0 <= i < r && 0 <= j < |b.blocks| ==>
        b.blocks[i][j] == 0 || b.blocks[i][j] == GoalValue(|b.blocks|, i, j)
  {
    if r > 0 {
      TilesAwayZero(b, r - 1);
      RowTilesAwayZero(b, r - 1, |b.blocks|);
    }
  }

  lemma {:induction false} RowTilesAwayZero(b: Board, r: int, c: int)
    requires Square(b) && 0 <= r < |b.blocks| && 0 <= c <= |b.blocks|
    ensures RowTilesAway(b, r, c) == 0 <==>
      forall j :: 0 <= j < c ==> b.blocks[r][j] == 0 || b.blocks[r][j] == GoalValue(|b.blocks|, r, j)
  {
    if c > 0 {
      RowTilesAwayZero(b, r, c - 1);
    }
  }

  /** On a valid board the Hamming distance is 0 exactly on the goal arrangement. */
  lemma HammingZeroIffGoal(b: Board)
    requires ValidBoard(b)
    ensures HammingDistance(b) == 0 <==> IsGoalBoard(b)
  {
    TilesAwayZero(b, |b.blocks|);
    GoalIffTilesHome(b);
  }

  /** On a valid board hamming() returns a non-negative count that is 0 exactly on the goal. */
  lemma HammingBounds(b: Board)
    requires ValidBoard(b) && |b.blocks| > 0
    ensures Mismatches(b, |b.blocks|) - 1 >= 0
    ensures Mismatches(b, |b.blocks|) - 1 == 0 <==> IsGoalBoard(b)
  {
    HammingCountsTilesAway(b);
    HammingZeroIffGoal(b);
  }

  // ---------------------------------------------------------------------
  // manhattan()
  // ---------------------------------------------------------------------

  function Abs(x: int): nat {
    if x < 0 then -x else x
  }

  /** Java's integer division by a positive divisor, which truncates toward zero. */
  function JavaDiv(a: int, n: int): (q: int)
    requires 0 < n
    ensures 0 <= a ==> q == a / n
    ensures Abs(q) * n <= Abs(a) < (Abs(q) + 1) * n
    ensures (a < 0 ==> q <= 0) && (0 <= a ==> 0 <= q)
  {
    QuotientBounds(Abs(a), n);
    if a < 0 then -(Abs(a) / n) else Abs(a) / n
  }

  /** The quotient of a natural number by a positive divisor is the largest multiple count not exceeding it. */
  lemma QuotientBounds(x: nat, n: int)
    requires 0 < n
    ensures 0 <= x / n && (x / n) * n <= x < (x / n + 1) * n
  {
    var q, r := x / n, x % n;
    assert x == q * n + r && 0 <= r < n;
    assert (q + 1) * n == q * n + n;
  }

  /** Java's remainder by a positive divisor: it takes the sign of the dividend. */
  function JavaRem(a: int, n: int): (m: int)
    requires 0 < n
    ensures a == JavaDiv(a, n) * n + m
    ensures 0 <= a ==> m == a % n
    ensures a < 0 ==> -n < m <= 0
  {
    a - JavaDiv(a, n) * n
  }

  /**
   * Manhattan distance of value v in cell (r, c) from its goal cell
   * ((v-1)/n, (v-1)%n) with Java's division; the blank contributes nothing.
   */
  function TileDistance(n: int, v: int, r: int, c: int): nat
    requires 0 < n
  {
    if v == 0 then 0 else Abs(JavaDiv(v - 1, n) - r) + Abs(JavaRem(v - 1, n) - c)
  }

  function RowManhattan(b: Board, r: int, c: int): nat
    requires Square(b) && 0 <= r < |b.blocks| && 0 <= c <= |b.blocks|
  {
    if c == 0 then 0
    else RowManhattan(b, r, c - 1) + TileDistance(|b.blocks|, b.blocks[r][c - 1], r, c - 1)
  }

  function ManhattanRows(b: Board, r: int): nat
    requires Square(b) && 0 <= r <= |b.blocks|
  {
    if r == 0 then 0 else ManhattanRows(b, r - 1) + RowManhattan(b, r - 1, |b.blocks|)
  }

  /** The sum over all tiles of their Manhattan distance to their goal cell. */
  function ManhattanDistance(b: Board): nat
    requires Square(b)
  {
    ManhattanRows(b, |b.blocks|)
  }

  /** manhattan(): the nested loop accumulates the tile distances in row-major order. */
  method Manhattan(b: Board) returns (sum: int)
    requires Square(b)
    ensures sum == ManhattanDistance(b)
    ensures sum >= 0 && (ValidBoard(b) ==> (sum == 0 <==> IsGoalBoard(b)))
  {
    var n := |b.blocks|;
    sum := 0;
    var row := 0;
    while row < n
      invariant 0 <= row <= n
      invariant sum == ManhattanRows(b, row)
    {
      var col := 0;
      while col < n
        invariant 0 <= col <= n
        invariant sum == ManhattanRows(b, row) + RowManhattan(b, row, col)
      {
        var blockValue := b.blocks[row][col];
        if blockValue != 0 {
          var goalRow := JavaDiv(blockValue - 1, n);
          var goalCol := JavaRem(blockValue - 1, n);
          var rowDistance := Abs(goalRow - row);
          var colDistance := Abs(goalCol - col);
          sum := sum + rowDistance + colDistance;
        }
        col := col + 1;
      }
      row := row + 1;
    }
    if ValidBoard(b) {
      ManhattanZeroIffGoal(b);
    }
  }

  /** A tile contributes nothing exactly when it is the blank or sits in its goal cell. */
  lemma TileDistanceZero(n: int, v: int, r: int, c: int)
    requires 0 < n && 0 <= r < n && 0 <= c < n && 0 <= v < n * n
    ensures TileDistance(n, v, r, c) == 0 <==> v == 0 || v == GoalValue(n, r, c)
  {
    IndexBound(n, r, c);
    if v != 0 {
      if TileDistance(n, v, r, c) == 0 {
        assert v - 1 == ((v - 1) / n) * n + (v - 1) % n;
        assert v - 1 == r * n + c;
      }
      if v == GoalValue(n, r, c) {
        DivModIndex(n, r, c);
      }
    }
  }

  lemma {:induction false} RowManhattanZero(b: Board, r: int, c: int)
    requires ValidBoard(b) && 0 <= r < |b.blocks| && 0 <= c <= |b.blocks|
    ensures RowManhattan(b, r, c) == 0 <==>
      forall j :: 0 <= j < c ==> b.blocks[r][j] == 0 || b.blocks[r][j] == GoalValue(|b.blocks|, r, j)
  {
    if c > 0 {
      RowManhattanZero(b, r, c - 1);
      TileDistanceZero(|b.blocks|, b.blocks[r][c - 1], r, c - 1);
    }
  }

  lemma {:induction false} ManhattanRowsZero(b: Board, r: int)
    requires ValidBoard(b) && 0 <= r <= |b.blocks|
    ensures ManhattanRows(b, r) == 0 <==>
      forall i, j :: 0 <= i < r && 0 <= j < |b.blocks| ==>
        b.blocks[i][j] == 0 || b.blocks[i][j] == GoalValue(|b.blocks|, i, j)
  {
    if r > 0 {
      ManhattanRowsZero(b, r - 1);
      RowManhattanZero(b, r - 1, |b.blocks|);
    }
  }

  /** On a valid board the Manhattan distance is 0 exactly on the goal arrangement. */
  lemma ManhattanZeroIffGoal(b: Board)
    requires ValidBoard(b)
    ensures ManhattanDistance(b) == 0 <==> IsGoalBoard(b)
  {
    ManhattanRowsZero(b, |b.blocks|);
    GoalIffTilesHome(b);
  }

  // ---------------------------------------------------------------------
  // isGoal()
  // ---------------------------------------------------------------------

  /**
   * isGoal(): every cell except the bottom-right one must hold r*N+c+1.
   * The bottom-right cell is not inspected; on a valid board it then
   * necessarily holds the blank.
   */
  method IsGoal(b: Board) returns (goal: bool)
    requires Square(b)
    ensures goal <==> InOrder(b)
    ensures ValidBoard(b) ==> (goal <==> IsGoalBoard(b))
  {
    var n := |b.blocks|;
    var expectedBlockValue := 1;
    var row := 0;
    while row < n
      invariant 0 <= row <= n
      invariant expectedBlockValue == row * n + 1
      invariant forall i, j :: 0 <= i < row && 0 <= j < n && (i != n - 1 || j != n - 1) ==>
        b.blocks[i][j] == i * n + j + 1
    {
      var col := 0;
      while col < n
        invariant 0 <= col <= n
        invariant expectedBlockValue == row * n + col + 1
        invariant forall i, j :: 0 <= i < row && 0 <= j < n && (i != n - 1 || j != n - 1) ==>
          b.blocks[i][j] == i * n + j + 1
        invariant forall j :: 0 <= j < col && (row != n - 1 || j != n - 1) ==> b.blocks[row][j] == row * n + j + 1
      {
        if b.blocks[row][col] != expectedBlockValue && (row != n - 1 || col != n - 1) {
          goal := false;
          if ValidBoard(b) {
            InOrderIffGoal(b);
          }
          return;
        }
        expectedBlockValue := expectedBlockValue + 1;
        col := col + 1;
      }
      row := row + 1;
    }
    goal := true;
    if ValidBoard(b) {
      InOrderIffGoal(b);
    }
  }

  /** Every cell except the last holds r*N+c+1: the test isGoal() makes. */
  ghost predicate InOrder(b: Board)
    requires Square(b)
  {
    var n := |b.blocks|;
    forall r, c :: 0 <= r < n && 0 <= c < n && (r != n - 1 || c != n - 1) ==> b.blocks[r][c] == r * n + c + 1
  }

  /** On a valid board, isGoal()'s test is exactly being the goal arrangement: the blank must then be last. */
  lemma InOrderIffGoal(b: Board)
    requires ValidBoard(b)
    ensures InOrder(b) <==> IsGoalBoard(b)
  {
    var n := |b.blocks|;
    if InOrder(b) {
      LastCellIsBlank(b);
      SameBoard(b, Goal(n));
    }
  }

  /** If every cell but the last holds r*N+c+1, the permutation puts the blank in the last cell. */
  lemma LastCellIsBlank(b: Board)
    requires ValidBoard(b) && InOrder(b)
    ensures |b.blocks| > 0 ==> b.blocks[|b.blocks| - 1][|b.blocks| - 1] == 0
  {
    var n := |b.blocks|;
    if n > 0 {
      assert Occurs(b, 0);
      var zr, zc :| 0 <= zr < n && 0 <= zc < n && b.blocks[zr][zc] == 0;
      MulMonotone(0, zr, n);
      assert zr == n - 1 && zc == n - 1;
    }
  }

  // ---------------------------------------------------------------------
  // copySquareArray() and the board built from a filled array
  // ---------------------------------------------------------------------

  /** The board whose cells are those of a square array (Board's constructor). */
  function FromArray(a: array2<int>): (b: Board)
    reads a
    requires a.Length0 == a.Length1
    ensures |b.blocks| == a.Length0 && Square(b)
    ensures forall r, c :: 0 <= r < a.Length0 && 0 <= c < a.Length1 ==> b.blocks[r][c] == a[r, c]
  {
    Board(seq(a.Length0, r requires 0 <= r < a.Length0 reads a =>
      seq(a.Length1, c requires 0 <= c < a.Length1 reads a => a[r, c])))
  }

  /** copySquareArray(): a fresh N-by-N array filled cell by cell with the board's values. */
  method CopySquareArray(b: Board) returns (copy: array2<int>)
    requires Square(b)
    ensures fresh(copy)
    ensures copy.Length0 == |b.blocks| && copy.Length1 == |b.blocks|
    ensures FromArray(copy) == b
  {
    var len := |b.blocks|;
    copy := new int[len, len];
    var row := 0;
    while row < len
      invariant 0 <= row <= len
      invariant forall r, c :: 0 <= r < row && 0 <= c < len ==> copy[r, c] == b.blocks[r][c]
    {
      var col := 0;
      while col < len
        invariant 0 <= col <= len
        invariant forall r, c :: 0 <= r < row && 0 <= c < len ==> copy[r, c] == b.blocks[r][c]
        invariant forall c :: 0 <= c < col ==> copy[row, c] == b.blocks[row][c]
      {
        copy[row, col] := b.blocks[row][col];
        col := col + 1;
      }
      row := row + 1;
    }
    SameBoard(FromArray(copy), b);
  }

  // ---------------------------------------------------------------------
  // twin()
  // ---------------------------------------------------------------------

  /** Cells (r, c) and (r, c+1) both exist and both hold a tile. */
  predicate Swappable(b: Board, r: int, c: int)
    requires Square(b)
  {
    0 <= r < |b.blocks| && 0 <= c && c + 1 < |b.blocks| && b.blocks[r][c] != 0 && b.blocks[r][c + 1] != 0
  }

  /** (r1, c1) comes strictly before (r2, c2) in row-major order. */
  predicate Before(r1: int, c1: int, r2: int, c2: int) {
    r1 < r2 || (r1 == r2 && c1 < c2)
  }

  /** The first column j >= c of row r starting a swappable pair. */
  function FirstPairInRow(b: Board, r: int, c: int): (j: Option<int>)
    requires Square(b) && 0 <= r < |b.blocks| && 0 <= c
    ensures j.Some? ==> c <= j.value && Swappable(b, r, j.value)
    ensures j.Some? ==> forall k :: c <= k < j.value ==> !Swappable(b, r, k)
    ensures j.None? ==> forall k :: c <= k ==> !Swappable(b, r, k)
    decreases |b.blocks| - c
  {
    if c + 1 >= |b.blocks| then None
    else if Swappable(b, r, c) then Some(c)
    else FirstPairInRow(b, r, c + 1)
  }

  /** The first swappable pair, in row-major order, in rows r and below. */
  function FirstPairFrom(b: Board, r: int): (p: Option<Pos>)
    requires Square(b) && 0 <= r
    ensures p.Some? ==> r <= p.value.row && Swappable(b, p.value.row, p.value.col)
    ensures p.Some? ==> forall i, j :: r <= i && Before(i, j, p.value.row, p.value.col) ==> !Swappable(b, i, j)
    ensures p.None? ==> forall i, j :: r <= i ==> !Swappable(b, i, j)
    decreases |b.blocks| - r
  {
    if r >= |b.blocks| then None
    else match FirstPairInRow(b, r, 0)
      case Some(c) => Some(Pos(r, c))
      case None => FirstPairFrom(b, r + 1)
  }

  /** The first row-major pair (r, c), (r, c+1) of horizontally adjacent tiles, if any. */
  function FirstPair(b: Board): Option<Pos>
    requires Square(b)
  {
    FirstPairFrom(b, 0)
  }

  /** A swappable pair with none before it is the first pair. */
  lemma FirstPairIs(b: Board, r: int, c: int)
    requires Square(b) && Swappable(b, r, c)
    requires forall i, j :: Before(i, j, r, c) ==> !Swappable(b, i, j)
    ensures FirstPair(b) == Some(Pos(r, c))
  {
    var p := FirstPair(b);
    assert p.Some?;
    assert !Before(p.value.row, p.value.col, r, c);
    assert !Before(r, c, p.value.row, p.value.col);
  }

  /** The board with the values of cells p and q exchanged. */
  function Exchanged(b: Board, p: Pos, q: Pos): (e: Board)
    requires Square(b) && InGrid(|b.blocks|, p) && InGrid(|b.blocks|, q)
    ensures |e.blocks| == |b.blocks| && Square(e)
    ensures forall r, c :: 0 <= r < |b.blocks| && 0 <= c < |b.blocks| ==>
      e.blocks[r][c] == if Pos(r, c) == p then b.blocks[q.row][q.col]
                        else if Pos(r, c) == q then b.blocks[p.row][p.col]
                        else b.blocks[r][c]
  {
    var n := |b.blocks|;
    Board(seq(n, r requires 0 <= r < n => seq(n, c requires 0 <= c < n =>
      if Pos(r, c) == p then b.blocks[q.row][q.col]
      else if Pos(r, c) == q then b.blocks[p.row][p.col]
      else b.blocks[r][c])))
  }

  /** What twin() returns: the first pair of adjacent tiles in a row exchanged, or the board itself. */
  function TwinOf(b: Board): (t: Board)
    requires Square(b)
    ensures |t.blocks| == |b.blocks| && Square(t)
  {
    match FirstPair(b)
    case None => b
    case Some(p) => Exchanged(b, p, Pos(p.row, p.col + 1))
  }

  /**
   * twin(): scans a fresh copy in row-major order, and at the first
   * (row, col), (row, col+1) holding two tiles exchanges them and stops.
   */
  method Twin(b: Board) returns (t: Board)
    requires Square(b)
    ensures t == TwinOf(b)
  {
    var copy := CopySquareArray(b);
    var n := copy.Length0;
    var row := 0;
    label outerloop:
    while row < n
      invariant 0 <= row <= n
      invariant forall r, c :: 0 <= r < n && 0 <= c < n ==> copy[r, c] == b.blocks[r][c]
      invariant forall r, c :: Before(r, c, row, 0) ==> !Swappable(b, r, c)
    {
      var col := 0;
      while col < n - 1
        invariant 0 <= col <= n - 1
        invariant forall r, c :: 0 <= r < n && 0 <= c < n ==> copy[r, c] == b.blocks[r][c]
        invariant forall r, c :: Before(r, c, row, col) ==> !Swappable(b, r, c)
      {
        var value := copy[row, col];
        var nextValue := copy[row, col + 1];
        if value != 0 && nextValue != 0 {
          ExchangeInCopy(copy, b, row, col, value, nextValue);
          FirstPairIs(b, row, col);
          break outerloop;
        }
        col := col + 1;
      }
      row := row + 1;
    }
    t := FromArray(copy);
    if FirstPair(b).None? {
      SameBoard(t, b);
    }
  }

  /**
   * The exchange inside twin(): with copy holding b's cells, and value and
   * nextValue read from (row, col) and (row, col+1), write them back swapped.
   */
  method ExchangeInCopy(copy: array2<int>, b: Board, row: int, col: int, value: int, nextValue: int)
    requires Square(b) && copy.Length0 == |b.blocks| && copy.Length1 == |b.blocks|
    requires 0 <= row < |b.blocks| && 0 <= col && col + 1 < |b.blocks|
    requires forall r, c :: 0 <= r < |b.blocks| && 0 <= c < |b.blocks| ==> copy[r, c] == b.blocks[r][c]
    requires value == copy[row, col] && nextValue == copy[row, col + 1]
    modifies copy
    ensures FromArray(copy) == Exchanged(b, Pos(row, col), Pos(row, col + 1))
  {
    copy[row, col] := nextValue;
    copy[row, col + 1] := value;
    SameBoard(FromArray(copy), Exchanged(b, Pos(row, col), Pos(row, col + 1)));
  }

  /** Exchanging the values of two cells keeps the board a permutation. */
  lemma ExchangedValid(b: Board, p: Pos, q: Pos)
    requires ValidBoard(b) && InGrid(|b.blocks|, p) && InGrid(|b.blocks|, q)
    ensures ValidBoard(Exchanged(b, p, q))
  {
    ExchangedInjective(b, p, q);
    ExchangedSurjective(b, p, q);
  }

  /** After an exchange, two cells holding the same value are one cell. */
  lemma ExchangedInjective(b: Board, p: Pos, q: Pos)
    requires ValidBoard(b) && InGrid(|b.blocks|, p) && InGrid(|b.blocks|, q)
    ensures Injective(Exchanged(b, p, q))
  {
    var n := |b.blocks|;
    var e := Exchanged(b, p, q);
    forall r1, c1, r2, c2 |
      0 <= r1 < n && 0 <= c1 < n && 0 <= r2 < n && 0 <= c2 < n && e.blocks[r1][c1] == e.blocks[r2][c2]
      ensures r1 == r2 && c1 == c2
    {
      var s1 := Partner(p, q, Pos(r1, c1));
      var s2 := Partner(p, q, Pos(r2, c2));
      assert e.blocks[r1][c1] == b.blocks[s1.row][s1.col];
      assert e.blocks[r2][c2] == b.blocks[s2.row][s2.col];
      assert s1 == s2;
    }
  }

  /** After an exchange, every value 0 .. N*N-1 is still held by some cell. */
  lemma ExchangedSurjective(b: Board, p: Pos, q: Pos)
    requires ValidBoard(b) && InGrid(|b.blocks|, p) && InGrid(|b.blocks|, q)
    ensures Surjective(Exchanged(b, p, q))
  {
    var n := |b.blocks|;
    var e := Exchanged(b, p, q);
    forall v | 0 <= v < n * n
      ensures Occurs(e, v)
    {
      assert Occurs(b, v);
      var r, c :| 0 <= r < n && 0 <= c < n && b.blocks[r][c] == v;
      var s := Partner(p, q, Pos(r, c));
      assert e.blocks[s.row][s.col] == v;
    }
  }

  /** The cell whose old value an exchange of p and q moves into x (and vice versa). */
  function Partner(p: Pos, q: Pos, x: Pos): Pos {
    if x == p then q else if x == q then p else x
  }

  /** For N >= 2 a valid board always has a pair to exchange: row 0 or row 1 begins with two tiles. */
  lemma FirstPairExists(b: Board)
    requires ValidBoard(b) && |b.blocks| >= 2
    ensures FirstPair(b).Some?
  {
    if !Swappable(b, 0, 0) {
      assert Swappable(b, 1, 0);
    }
  }

  /**
   * For N >= 2 the twin of a valid board is again a valid board that
   * differs from it in exactly the two cells of the first pair, whose
   * values are exchanged.
   */
  lemma TwinChangesFirstPair(b: Board)
    requires ValidBoard(b) && |b.blocks| >= 2
    ensures FirstPair(b).Some?
    ensures ValidBoard(TwinOf(b)) && TwinOf(b) != b
    ensures var p, t, n := FirstPair(b).value, TwinOf(b), |b.blocks|;
      && b.blocks[p.row][p.col] != 0 && b.blocks[p.row][p.col + 1] != 0
      && t.blocks[p.row][p.col] == b.blocks[p.row][p.col + 1]
      && t.blocks[p.row][p.col + 1] == b.blocks[p.row][p.col]
      && forall r, c :: 0 <= r < n && 0 <= c < n && Pos(r, c) != p && Pos(r, c) != Pos(p.row, p.col + 1) ==>
           t.blocks[r][c] == b.blocks[r][c]
  {
    FirstPairExists(b);
    var p := FirstPair(b).value;
    var q := Pos(p.row, p.col + 1);
    ExchangedValid(b, p, q);
    var t := TwinOf(b);
    assert t.blocks[p.row][p.col] != b.blocks[p.row][p.col] by {
      assert b.blocks[p.row][p.col + 1] != b.blocks[p.row][p.col];
    }
  }

  /** The twin of a valid board is a valid board (for N < 2 it is the board itself). */
  lemma TwinValid(b: Board)
    requires ValidBoard(b)
    ensures ValidBoard(TwinOf(b))
  {
    if |b.blocks| >= 2 {
      TwinChangesFirstPair(b);
    }
  }

  /** twin() is an involution: exchanging the first pair again restores the board. */
  lemma TwinTwice(b: Board)
    requires Square(b)
    ensures TwinOf(TwinOf(b)) == b
  {
    match FirstPair(b)
    case None =>
    case Some(p) =>
      var q := Pos(p.row, p.col + 1);
      var t := TwinOf(b);
      assert Swappable(t, p.row, p.col);
      forall i, j | Before(i, j, p.row, p.col)
        ensures !Swappable(t, i, j)
      {
        assert !Swappable(b, i, j);
      }
      FirstPairIs(t, p.row, p.col);
      SameBoard(TwinOf(t), b);
  }

  // ---------------------------------------------------------------------
  // equals()
  // ---------------------------------------------------------------------

  /** The argument of equals(Object y): null, a board, or an object of another class. */
  datatype Object = Null | BoardObject(board: Board) | OtherObject

  /** How a call of equals() ends: with a result, or by throwing ClassCastException. */
  datatype EqualsOutcome = Returns(eq: bool) | ClassCastException

  /**
   * equals(y) as written: the class test ends in an empty statement, so it
   * never returns; the cast that follows throws for an object of another
   * class. A board compares cell by cell after the dimension check.
   */
  function EqualsAsWritten(b: Board, y: Object): (r: EqualsOutcome)
    requires Square(b) && (y.BoardObject? ==> Square(y.board))
    ensures r == ClassCastException <==> y == OtherObject
    ensures r.Returns? ==> (r.eq <==> y == BoardObject(b))
  {
    match y
    case Null => Returns(false)
    case OtherObject => ClassCastException
    case BoardObject(that) =>
      if |b.blocks| != |that.blocks| then Returns(false)
      else if forall r, c :: 0 <= r < |b.blocks| && 0 <= c < |b.blocks| ==> b.blocks[r][c] == that.blocks[r][c] then
        SameBoard(b, that);
        Returns(true)
      else Returns(false)
  }

  /** The as-written equals() throws where the evident intent, and the corrected Equals, return false. */
  lemma EqualsAsWrittenThrows(b: Board)
    requires Square(b)
    ensures EqualsAsWritten(b, OtherObject) == ClassCastException
    ensures EqualsAsWritten(b, OtherObject) != Returns(false)
  {
  }

  /**
   * equals(y), with the class test returning false as intended: false for
   * null and for an object of another class, false for a board of another
   * dimension, and otherwise true exactly when every cell matches. (The
   * identity shortcut of the source gives the same answer as the cell-wise test.)
   */
  method Equals(b: Board, y: Object) returns (eq: bool)
    requires Square(b) && (y.BoardObject? ==> Square(y.board))
    ensures eq <==> y == BoardObject(b)
    ensures y.BoardObject? ==> Returns(eq) == EqualsAsWritten(b, y)
  {
    if y.Null? || y.OtherObject? {
      return false;
    }
    var that := y.board;
    if |b.blocks| != |that.blocks| {
      return false;
    }
    var n := |b.blocks|;
    var row := 0;
    while row < n
      invariant 0 <= row <= n
      invariant forall r, c :: 0 <= r < row && 0 <= c < n ==> b.blocks[r][c] == that.blocks[r][c]
    {
      var col := 0;
      while col < n
        invariant 0 <= col <= n
        invariant forall r, c :: 0 <= r < row && 0 <= c < n ==> b.blocks[r][c] == that.blocks[r][c]
        invariant forall c :: 0 <= c < col ==> b.blocks[row][c] == that.blocks[row][c]
      {
        if b.blocks[row][col] != that.blocks[row][col] {
          return false;
        }
        col := col + 1;
      }
      row := row + 1;
    }
    SameBoard(b, that);
    return true;
  }

  // ---------------------------------------------------------------------
  // neighbors() and swap()
  // ---------------------------------------------------------------------

  /** The first column j >= c of row r holding the blank. */
  function FirstZeroInRow(b: Board, r: int, c: int): (j: Option<int>)
    requires Square(b) && 0 <= r < |b.blocks| && 0 <= c
    ensures j.Some? ==> c <= j.value < |b.blocks| && b.blocks[r][j.value] == 0
    ensures j.Some? ==> forall k :: c <= k < j.value ==> b.blocks[r][k] != 0
    ensures j.None? ==> forall k :: c <= k < |b.blocks| ==> b.blocks[r][k] != 0
    decreases |b.blocks| - c
  {
    if c >= |b.blocks| then None
    else if b.blocks[r][c] == 0 then Some(c)
    else FirstZeroInRow(b, r, c + 1)
  }

  /** The first cell, in row-major order, in rows r and below, holding the blank. */
  function FirstZeroFrom(b: Board, r: int): (p: Option<Pos>)
    requires Square(b) && 0 <= r
    ensures p.Some? ==> r <= p.value.row && InGrid(|b.blocks|, p.value) && b.blocks[p.value.row][p.value.col] == 0
    ensures p.Some? ==> forall i, j :: r <= i && 0 <= j < |b.blocks| && Before(i, j, p.value.row, p.value.col) ==> b.blocks[i][j] != 0
    ensures p.None? ==> forall i, j :: r <= i < |b.blocks| && 0 <= j < |b.blocks| ==> b.blocks[i][j] != 0
    decreases |b.blocks| - r
  {
    if r >= |b.blocks| then None
    else match FirstZeroInRow(b, r, 0)
      case Some(c) => Some(Pos(r, c))
      case None => FirstZeroFrom(b, r + 1)
  }

  /** Where the row-major search of neighbors() finds the blank, if anywhere. */
  function Blank(b: Board): Option<Pos>
    requires Square(b)
  {
    FirstZeroFrom(b, 0)
  }

  /** A blank cell with no blank before it in row-major order is where the search stops. */
  lemma FirstZeroIs(b: Board, z: Pos)
    requires Square(b) && InGrid(|b.blocks|, z) && b.blocks[z.row][z.col] == 0
    requires forall i, j :: 0 <= i < |b.blocks| && 0 <= j < |b.blocks| && Before(i, j, z.row, z.col) ==> b.blocks[i][j] != 0
    ensures Blank(b) == Some(z)
  {
    var p := Blank(b);
    assert p.Some?;
    assert !Before(p.value.row, p.value.col, z.row, z.col);
    assert !Before(z.row, z.col, p.value.row, p.value.col);
  }

  /** On a valid board of positive dimension the search finds the blank, wherever it is. */
  lemma BlankIs(b: Board, z: Pos)
    requires ValidBoard(b) && InGrid(|b.blocks|, z) && b.blocks[z.row][z.col] == 0
    ensures Blank(b) == Some(z)
  {
    var p := Blank(b);
    assert p.Some?;
    assert b.blocks[p.value.row][p.value.col] == b.blocks[z.row][z.col];
  }

  /** A valid board of positive dimension has a blank. */
  lemma BlankExists(b: Board)
    requires ValidBoard(b) && |b.blocks| > 0
    ensures Blank(b).Some?
  {
    assert Occurs(b, 0);
  }

  /** t is one step up, down, left or right of z. */
  predicate Orthogonal(z: Pos, t: Pos) {
    (t.row == z.row && (t.col == z.col - 1 || t.col == z.col + 1)) ||
    (t.col == z.col && (t.row == z.row - 1 || t.row == z.row + 1))
  }

  function Up(z: Pos): seq<Pos> {
    if z.row > 0 then [Pos(z.row - 1, z.col)] else []
  }

  function Left(z: Pos): seq<Pos> {
    if z.col > 0 then [Pos(z.row, z.col - 1)] else []
  }

  function Down(z: Pos, n: int): seq<Pos> {
    if z.row < n - 1 then [Pos(z.row + 1, z.col)] else []
  }

  function Right(z: Pos, n: int): seq<Pos> {
    if z.col < n - 1 then [Pos(z.row, z.col + 1)] else []
  }

  /** The cells next to z inside an n-by-n grid, in the order up, left, down, right. */
  function Targets(z: Pos, n: int): (ts: seq<Pos>)
    requires InGrid(n, z)
    ensures forall t :: t in ts <==> InGrid(n, t) && Orthogonal(z, t)
    ensures forall i, j :: 0 <= i < j < |ts| ==> ts[i] != ts[j]
  {
    Up(z) + Left(z) + Down(z, n) + Right(z, n)
  }

  /** The board with the blank in z moved to t: z receives t's value and t receives 0. */
  function BlankMoved(b: Board, z: Pos, t: Pos): (m: Board)
    requires Square(b) && InGrid(|b.blocks|, z) && InGrid(|b.blocks|, t)
    ensures |m.blocks| == |b.blocks| && Square(m)
    ensures forall r, c :: 0 <= r < |b.blocks| && 0 <= c < |b.blocks| ==>
      m.blocks[r][c] == if Pos(r, c) == t then 0
                        else if Pos(r, c) == z then b.blocks[t.row][t.col]
                        else b.blocks[r][c]
  {
    var n := |b.blocks|;
    Board(seq(n, r requires 0 <= r < n => seq(n, c requires 0 <= c < n =>
      if Pos(r, c) == t then 0
      else if Pos(r, c) == z then b.blocks[t.row][t.col]
      else b.blocks[r][c])))
  }

  /** The boards with the blank at z moved to each cell of ts, in the order of ts. */
  function MovesTo(b: Board, z: Pos, ts: seq<Pos>): (ms: seq<Board>)
    requires Square(b) && InGrid(|b.blocks|, z)
    requires forall i :: 0 <= i < |ts| ==> InGrid(|b.blocks|, ts[i])
    ensures |ms| == |ts|
  {
    seq(|ts|, i requires 0 <= i < |ts| => BlankMoved(b, z, ts[i]))
  }

  /** What neighbors() returns: the blank moved to each neighbouring cell, up, left, down, right. */
  function NeighborsOf(b: Board): (nbs: seq<Board>)
    requires Square(b)
  {
    match Blank(b)
    case None => []
    case Some(z) => MovesTo(b, z, Targets(z, |b.blocks|))
  }

  /** swap(): a fresh copy in which the old blank cell takes the new cell's value and the new cell takes 0. */
  method Swap(b: Board, oldZeroRow: int, oldZeroCol: int, newZeroRow: int, newZeroCol: int) returns (m: Board)
    requires Square(b)
    requires InGrid(|b.blocks|, Pos(oldZeroRow, oldZeroCol)) && InGrid(|b.blocks|, Pos(newZeroRow, newZeroCol))
    ensures m == BlankMoved(b, Pos(oldZeroRow, oldZeroCol), Pos(newZeroRow, newZeroCol))
  {
    var copy := CopySquareArray(b);
    copy[oldZeroRow, oldZeroCol] := b.blocks[newZeroRow][newZeroCol];
    copy[newZeroRow, newZeroCol] := 0;
    m := FromArray(copy);
    SameBoard(m, BlankMoved(b, Pos(oldZeroRow, oldZeroCol), Pos(newZeroRow, newZeroCol)));
  }

  /**
   * neighbors(): finds the blank with a labelled row-major search, then
   * enqueues the boards for the moves up, left, down and right that stay
   * inside the grid.
   */
  method Neighbors(b: Board) returns (q: seq<Board>)
    requires Square(b) && (|b.blocks| > 0 ==> Blank(b).Some?)
    ensures q == NeighborsOf(b)
  {
    var n := |b.blocks|;
    var row, col := 0, 0;
    label outerloop:
    while row < n
      invariant 0 <= row <= n && 0 <= col <= n
      invariant forall r, c :: 0 <= r < row && 0 <= c < n ==> b.blocks[r][c] != 0
    {
      col := 0;
      while col < n
        invariant 0 <= col <= n
        invariant forall c :: 0 <= c < col ==> b.blocks[row][c] != 0
      {
        if b.blocks[row][col] == 0 {
          break outerloop;
        }
        col := col + 1;
      }
      row := row + 1;
    }
    if n == 0 {
      return [];
    }
    FirstZeroIs(b, Pos(row, col));
    q := EnqueueMoves(b, row, col);
  }

  /**
   * The second half of neighbors(): with the blank at (row, col), enqueue
   * the moves up, left, down and right that stay inside the grid.
   */
  method EnqueueMoves(b: Board, row: int, col: int) returns (q: seq<Board>)
    requires Square(b) && Blank(b) == Some(Pos(row, col))
    ensures q == NeighborsOf(b)
  {
    var n := |b.blocks|;
    var z := Pos(row, col);
    ghost var ts: seq<Pos> := [];
    q := [];
    if row > 0 {
      q := Enqueue(b, z, Pos(row - 1, col), ts, q);
      ts := ts + [Pos(row - 1, col)];
    }
    assert ts == Up(z);
    if col > 0 {
      q := Enqueue(b, z, Pos(row, col - 1), ts, q);
      ts := ts + [Pos(row, col - 1)];
    }
    assert ts == Up(z) + Left(z);
    if row < n - 1 {
      q := Enqueue(b, z, Pos(row + 1, col), ts, q);
      ts := ts + [Pos(row + 1, col)];
    }
    assert ts == Up(z) + Left(z) + Down(z, n);
    if col < n - 1 {
      q := Enqueue(b, z, Pos(row, col + 1), ts, q);
      ts := ts + [Pos(row, col + 1)];
    }
    assert ts == Up(z) + Left(z) + Down(z, n) + Right(z, n);
  }

  /** One enqueue of neighbors(): appends the board with the blank at z moved to t. */
  method Enqueue(b: Board, z: Pos, t: Pos, ghost ts: seq<Pos>, q: seq<Board>) returns (q': seq<Board>)
    requires Square(b) && InGrid(|b.blocks|, z) && InGrid(|b.blocks|, t)
    requires forall i :: 0 <= i < |ts| ==> InGrid(|b.blocks|, ts[i])
    requires q == MovesTo(b, z, ts)
    ensures forall i :: 0 <= i < |ts + [t]| ==> InGrid(|b.blocks|, (ts + [t])[i])
    ensures q' == MovesTo(b, z, ts + [t])
  {
    var neighbor := Swap(b, z.row, z.col, t.row, t.col);
    MovesToSnoc(b, z, ts, t);
    q' := q + [neighbor];
  }

  /** Moving the blank along ts and then to t appends the board for t. */
  lemma MovesToSnoc(b: Board, z: Pos, ts: seq<Pos>, t: Pos)
    requires Square(b) && InGrid(|b.blocks|, z) && InGrid(|b.blocks|, t)
    requires forall i :: 0 <= i < |ts| ==> InGrid(|b.blocks|, ts[i])
    ensures forall i :: 0 <= i < |ts + [t]| ==> InGrid(|b.blocks|, (ts + [t])[i])
    ensures MovesTo(b, z, ts + [t]) == MovesTo(b, z, ts) + [BlankMoved(b, z, t)]
  {
  }

  // ---------------------------------------------------------------------
  // Properties of neighbors()
  // ---------------------------------------------------------------------

  /** The i-th board of MovesTo is the blank moved to the i-th cell. */
  lemma MovesToAt(b: Board, z: Pos, ts: seq<Pos>, i: int)
    requires Square(b) && InGrid(|b.blocks|, z)
    requires forall k :: 0 <= k < |ts| ==> InGrid(|b.blocks|, ts[k])
    requires 0 <= i < |ts|
    ensures MovesTo(b, z, ts)[i] == BlankMoved(b, z, ts[i])
  {
  }

  /** Moving the blank from z to t is exchanging the values of z and t, as z holds 0. */
  lemma BlankMovedIsExchange(b: Board, z: Pos, t: Pos)
    requires Square(b) && InGrid(|b.blocks|, z) && InGrid(|b.blocks|, t)
    requires b.blocks[z.row][z.col] == 0 && z != t
    ensures BlankMoved(b, z, t) == Exchanged(b, z, t)
  {
    SameBoard(BlankMoved(b, z, t), Exchanged(b, z, t));
  }

  /**
   * Moving the blank of a valid board to an orthogonal cell gives a valid
   * board that differs from it, whose blank is at t, and from which moving
   * the blank back to z gives the original board.
   */
  lemma BlankMovedProperties(b: Board, z: Pos, t: Pos)
    requires ValidBoard(b) && Blank(b) == Some(z)
    requires InGrid(|b.blocks|, t) && Orthogonal(z, t)
    ensures ValidBoard(BlankMoved(b, z, t))
    ensures BlankMoved(b, z, t) != b
    ensures Blank(BlankMoved(b, z, t)) == Some(t)
    ensures BlankMoved(BlankMoved(b, z, t), t, z) == b
  {
    var m := BlankMoved(b, z, t);
    BlankMovedIsExchange(b, z, t);
    ExchangedValid(b, z, t);
    assert m.blocks[t.row][t.col] != b.blocks[t.row][t.col] by {
      assert b.blocks[t.row][t.col] != b.blocks[z.row][z.col];
    }
    BlankIs(m, t);
    SameBoard(BlankMoved(m, t, z), b);
  }

  /** The move relation: nb is b with its blank moved one step inside the grid. */
  ghost predicate IsMove(b: Board, nb: Board)
    requires Square(b)
  {
    Blank(b).Some? &&
    exists t :: InGrid(|b.blocks|, t) && Orthogonal(Blank(b).value, t) && nb == BlankMoved(b, Blank(b).value, t)
  }

  /** The neighbours are exactly the boards one move away. */
  lemma NeighborsAreMoves(b: Board, nb: Board)
    requires Square(b)
    ensures nb in NeighborsOf(b) <==> IsMove(b, nb)
  {
    if nb in NeighborsOf(b) {
      var i :| 0 <= i < |NeighborsOf(b)| && NeighborsOf(b)[i] == nb;
      NeighborIsMove(b, i);
    }
    if IsMove(b, nb) {
      var z := Blank(b).value;
      var t :| InGrid(|b.blocks|, t) && Orthogonal(z, t) && nb == BlankMoved(b, z, t);
      MoveIsNeighbor(b, t);
    }
  }

  /** The i-th neighbour is one move away. */
  lemma NeighborIsMove(b: Board, i: int)
    requires Square(b) && 0 <= i < |NeighborsOf(b)|
    ensures IsMove(b, NeighborsOf(b)[i])
  {
    var z := Blank(b).value;
    var ts := Targets(z, |b.blocks|);
    MovesToAt(b, z, ts, i);
    assert ts[i] in ts;
  }

  /** Every move of the blank inside the grid is among the neighbours. */
  lemma MoveIsNeighbor(b: Board, t: Pos)
    requires Square(b) && Blank(b).Some?
    requires InGrid(|b.blocks|, t) && Orthogonal(Blank(b).value, t)
    ensures BlankMoved(b, Blank(b).value, t) in NeighborsOf(b)
  {
    var z := Blank(b).value;
    var ts := Targets(z, |b.blocks|);
    assert t in ts;
    var i :| 0 <= i < |ts| && ts[i] == t;
    MovesToAt(b, z, ts, i);
    assert NeighborsOf(b)[i] == BlankMoved(b, z, t);
  }

  /** Every board of bs is square. */
  ghost predicate AllSquare(bs: seq<Board>) {
    forall i :: 0 <= i < |bs| ==> Square(bs[i])
  }

  /** Every neighbour of a valid board is a valid board different from it. */
  lemma NeighborsValid(b: Board)
    requires ValidBoard(b)
    ensures forall nb :: nb in NeighborsOf(b) ==> ValidBoard(nb) && nb != b
    ensures AllSquare(NeighborsOf(b))
  {
    forall nb | nb in NeighborsOf(b)
      ensures ValidBoard(nb) && nb != b
    {
      NeighborsAreMoves(b, nb);
      var z := Blank(b).value;
      var t :| InGrid(|b.blocks|, t) && Orthogonal(z, t) && nb == BlankMoved(b, z, t);
      BlankMovedProperties(b, z, t);
    }
  }

  /** The neighbour relation is symmetric: b is a neighbour of each of its neighbours. */
  lemma NeighborsSymmetric(b: Board, nb: Board)
    requires ValidBoard(b) && nb in NeighborsOf(b)
    ensures b in NeighborsOf(nb)
  {
    NeighborsAreMoves(b, nb);
    var z := Blank(b).value;
    var t :| InGrid(|b.blocks|, t) && Orthogonal(z, t) && nb == BlankMoved(b, z, t);
    BlankMovedProperties(b, z, t);
    assert Orthogonal(t, z);
    NeighborsAreMoves(nb, b);
  }

  /** A valid board of dimension N >= 2 has between two and four neighbours. */
  lemma NeighborCount(b: Board)
    requires ValidBoard(b) && |b.blocks| >= 2
    ensures 2 <= |NeighborsOf(b)| <= 4
  {
    BlankExists(b);
  }

  /** The neighbours of a valid board are pairwise different. */
  lemma NeighborsDistinct(b: Board)
    requires ValidBoard(b)
    ensures forall i, j :: 0 <= i < j < |NeighborsOf(b)| ==> NeighborsOf(b)[i] != NeighborsOf(b)[j]
  {
    if Blank(b).Some? {
      var z := Blank(b).value;
      var ts := Targets(z, |b.blocks|);
      forall i, j | 0 <= i < j < |NeighborsOf(b)|
        ensures NeighborsOf(b)[i] != NeighborsOf(b)[j]
      {
        MovesToAt(b, z, ts, i);
        MovesToAt(b, z, ts, j);
        var t := ts[i];
        assert ts[i] in ts && ts[j] in ts;
        assert b.blocks[t.row][t.col] != b.blocks[z.row][z.col];
        assert NeighborsOf(b)[j].blocks[t.row][t.col] != NeighborsOf(b)[i].blocks[t.row][t.col];
      }
    }
  }

  /** A valid board of dimension at most 1 is already the goal. */
  lemma SmallBoardsAreGoals(b: Board)
    requires ValidBoard(b) && |b.blocks| <= 1
    ensures IsGoalBoard(b)
  {
    if |b.blocks| == 1 {
      assert Occurs(b, 0);
      SameBoard(b, Goal(1));
    } else {
      SameBoard(b, Goal(0));
    }
  }
}
