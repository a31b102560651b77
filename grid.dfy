/** The N×N Sudoku matrix as a value (0 is an empty square) and the
    facts the Grid, the Solver and the Solution checker are specified by:
    quadrants, the values a square sees, candidate sets, conflicts and
    empty squares. */
module Grid {
  import opened Arith
  import opened Seqs

  type Matrix = seq<seq<int>>

  /** A square of the grid: `['row' => .., 'col' => ..]` in the source. */
  datatype Square = Square(row: nat, col: nat)

  /** The bounding box of a quadrant, as `getQuadrantFor` returns it. */
  datatype Quadrant = Quadrant(upperLeft: Square, bottomRight: Square)

  /** The four exceptions of the Grid. */
  datatype Error = NotSquareMatrix | TooSmallMatrix | SquareAlreadyFilled | InvalidValueForSquare

  /** Every row has as many entries as there are rows. */
  predicate IsSquare(m: Matrix)
  {
    forall i :: 0 <= i < |m| ==> |m[i]| == |m|
  }

  /** A non-empty square matrix whose side is a perfect square, so that its
      quadrants of side sqrt(N) tile it. */
  predicate Tiled(m: Matrix)
  {
    IsSquare(m) && |m| > 0 && PerfectSquare(|m|)
  }

  predicate InGrid(m: Matrix, p: Square)
  {
    p.row < |m| && p.col < |m[p.row]|
  }

  function At(m: Matrix, p: Square): int
    requires InGrid(m, p)
  {
    m[p.row][p.col]
  }

  /** The matrix with the one square p set to v. */
  function Write(m: Matrix, p: Square, v: int): (m': Matrix)
    requires InGrid(m, p)
    ensures |m'| == |m| && forall i :: 0 <= i < |m| ==> |m'[i]| == |m[i]|
    ensures InGrid(m', p) && At(m', p) == v
    ensures forall s :: InGrid(m, s) && s != p ==> InGrid(m', s) && At(m', s) == At(m, s)
  {
    m[p.row := m[p.row][p.col := v]]
  }

  /** Row-major order: p comes strictly before s. */
  predicate Before(p: Square, s: Square)
  {
    p.row < s.row || (p.row == s.row && p.col < s.col)
  }

  // ---------------------------------------------------------------- quadrants

  /** `getQuadrantFor`: the box of side q = sqrt(N) holding (row, col). */
  function QuadrantFor(n: nat, row: nat, col: nat): (qd: Quadrant)
    requires n > 0
    ensures qd.upperLeft.row <= row <= qd.bottomRight.row
    ensures qd.upperLeft.col <= col <= qd.bottomRight.col
    ensures qd.bottomRight.row == qd.upperLeft.row + Isqrt(n) - 1
    ensures qd.bottomRight.col == qd.upperLeft.col + Isqrt(n) - 1
    ensures PerfectSquare(n) && row < n && col < n ==> qd.bottomRight.row < n && qd.bottomRight.col < n
  {
    var q := Isqrt(n);
    var r0, c0 := BlockStart(n, row), BlockStart(n, col);
    Quadrant(Square(r0, c0), Square(r0 + q - 1, c0 + q - 1))
  }

  /** `floor(a / q) * q`: the first index of the block of side q = sqrt(n) holding a. */
  function BlockStart(n: nat, a: nat): (s: nat)
    requires n > 0
    ensures Isqrt(n) > 0
    ensures s <= a < s + Isqrt(n)
    ensures PerfectSquare(n) && a < n ==> s + Isqrt(n) <= n
  {
    var q := Isqrt(n);
    InBlock(q, a, a / q);
    if PerfectSquare(n) && a < n then BlockInside(q, a); a / q * q else a / q * q
  }

  /** Two indices share a block exactly when their quotients by q agree. */
  lemma SameBlock(n: nat, a: nat, b: nat)
    requires n > 0
    ensures BlockStart(n, a) <= b < BlockStart(n, a) + Isqrt(n) <==> BlockStart(n, b) == BlockStart(n, a)
  {
    var q := Isqrt(n);
    InBlock(q, b, a / q);
    InBlock(q, b, b / q);
  }

  predicate InQuadrant(qd: Quadrant, p: Square)
  {
    qd.upperLeft.row <= p.row <= qd.bottomRight.row && qd.upperLeft.col <= p.col <= qd.bottomRight.col
  }

  /** A square lies in the quadrant of s exactly when both have the same quadrant. */
  lemma SameQuadrant(n: nat, p: Square, s: Square)
    requires n > 0
    ensures InQuadrant(QuadrantFor(n, s.row, s.col), p) <==> QuadrantFor(n, p.row, p.col) == QuadrantFor(n, s.row, s.col)
  {
    SameBlock(n, s.row, p.row);
    SameBlock(n, s.col, p.col);
  }

  /** p and s share a row, a column or a quadrant (p may be s). */
  predicate Sees(n: nat, p: Square, s: Square)
    requires n > 0
  {
    p.row == s.row || p.col == s.col || QuadrantFor(n, p.row, p.col) == QuadrantFor(n, s.row, s.col)
  }

  /** A block start lies in its own block. */
  lemma BlockStartIdempotent(n: nat, a: nat)
    requires n > 0
    ensures BlockStart(n, BlockStart(n, a)) == BlockStart(n, a)
  {
    SameBlock(n, a, BlockStart(n, a));
  }

  /** The block with index i < q starts at i * q, inside the grid. */
  lemma BlockIndex(n: nat, i: nat)
    requires n > 0 && PerfectSquare(n) && i < Isqrt(n)
    ensures i * Isqrt(n) < n
    ensures BlockStart(n, i * Isqrt(n)) == i * Isqrt(n)
  {
    var q := Isqrt(n);
    MulMono(i + 1, q, q);
    InBlock(q, i * q, i);
  }

  /** Every block start below n is i * q for a block index i < q. */
  lemma BlockIndexOf(n: nat, a: nat)
    requires n > 0 && PerfectSquare(n) && a < n
    ensures a / Isqrt(n) < Isqrt(n) && BlockStart(n, a) == a / Isqrt(n) * Isqrt(n)
  {
    var q := Isqrt(n);
    if a / q >= q {
      InBlock(q, a, a / q);
      MulMono(q, a / q, q);
    }
  }

  /** The index `floor(a / q)` of the block holding a. */
  function BlockOf(n: nat, a: nat): nat
    requires n > 0
  {
    a / Isqrt(n)
  }

  /** The first square of the block in block row i and block column j. */
  function BlockCorner(n: nat, i: nat, j: nat): Square
  {
    Square(i * Isqrt(n), j * Isqrt(n))
  }

  /** Every square whose block indices are (i, j) has the quadrant of that block's corner. */
  lemma BlockCornerQuadrant(n: nat, i: nat, j: nat)
    requires n > 0 && PerfectSquare(n) && i < Isqrt(n) && j < Isqrt(n)
    ensures BlockCorner(n, i, j).row < n && BlockCorner(n, i, j).col < n
    ensures forall p: Square :: p.row < n && p.col < n && BlockOf(n, p.row) == i && BlockOf(n, p.col) == j ==>
      QuadrantFor(n, p.row, p.col) == QuadrantFor(n, BlockCorner(n, i, j).row, BlockCorner(n, i, j).col)
  {
    BlockIndex(n, i);
    BlockIndex(n, j);
    forall p: Square | p.row < n && p.col < n && BlockOf(n, p.row) == i && BlockOf(n, p.col) == j
      ensures QuadrantFor(n, p.row, p.col) == QuadrantFor(n, BlockCorner(n, i, j).row, BlockCorner(n, i, j).col)
    {
      BlockIndexOf(n, p.row);
      BlockIndexOf(n, p.col);
      QuadrantOfBlockStart(n, p.row, p.col);
    }
  }

  /** Block indices of grid squares are below q. */
  lemma BlockOfBound(n: nat, a: nat)
    requires n > 0 && PerfectSquare(n) && a < n
    ensures BlockOf(n, a) < Isqrt(n)
  {
    BlockIndexOf(n, a);
  }

  /** Indices below q all lie in the first block. */
  lemma FirstBlock(n: nat, a: nat)
    requires n > 0 && a < Isqrt(n)
    ensures BlockStart(n, a) == 0
  {
    InBlock(Isqrt(n), a, 0);
  }

  /** The quadrant of a square is the quadrant of the first square of its block. */
  lemma QuadrantOfBlockStart(n: nat, row: nat, col: nat)
    requires n > 0
    ensures QuadrantFor(n, row, col) == QuadrantFor(n, BlockStart(n, row), BlockStart(n, col))
  {
    BlockStartIdempotent(n, row);
    BlockStartIdempotent(n, col);
  }

  // --------------------------------------------------- values a square sees

  /** The non-zero values of row r. */
  function RowValues(m: Matrix, r: nat): set<int>
    requires r < |m|
  {
    set v | v in m[r] && v != 0
  }

  /** `array_column($matrix, $c)` on a square matrix. */
  function Column(m: Matrix, c: nat): (col: seq<int>)
    requires forall i :: 0 <= i < |m| ==> c < |m[i]|
    ensures |col| == |m| && forall i :: 0 <= i < |m| ==> col[i] == m[i][c]
  {
    seq(|m|, i requires 0 <= i < |m| => m[i][c])
  }

  /** The non-zero values of column c. */
  function ColumnValues(m: Matrix, c: nat): set<int>
  {
    set i | 0 <= i < |m| && c < |m[i]| && m[i][c] != 0 :: m[i][c]
  }

  /** The non-zero values inside quadrant qd. */
  function QuadrantValues(m: Matrix, qd: Quadrant): set<int>
  {
    set a: nat, b: nat | a < |m| && b < |m[a]| && InQuadrant(qd, Square(a, b)) && m[a][b] != 0 :: m[a][b]
  }

  /** The values that (r, c) may not take: those already in its row, column or quadrant. */
  function Forbidden(m: Matrix, r: nat, c: nat): set<int>
    requires r < |m|
  {
    RowValues(m, r) + ColumnValues(m, c) + QuadrantValues(m, QuadrantFor(|m|, r, c))
  }

  /** The candidate set of (r, c): 1..N without the forbidden values, ascending. */
  function Candidates(m: Matrix, r: nat, c: nat): (cs: seq<int>)
    requires r < |m|
    ensures forall v :: v in cs <==> 1 <= v <= |m| && v !in Forbidden(m, r, c)
    ensures Increasing(cs)
  {
    WithoutIncreasing(OneTo(|m|), Forbidden(m, r, c));
    Without(OneTo(|m|), Forbidden(m, r, c))
  }

  /** A value is forbidden at (r, c) exactly when some square that (r, c) sees holds it. */
  lemma ForbiddenMeaning(m: Matrix, r: nat, c: nat, v: int)
    requires IsSquare(m) && r < |m| && c < |m|
    ensures v in Forbidden(m, r, c) <==>
      v != 0 && exists p :: InGrid(m, p) && Sees(|m|, p, Square(r, c)) && At(m, p) == v
  {
    var n := |m|;
    var here := Square(r, c);
    if v in Forbidden(m, r, c) {
      if v in RowValues(m, r) {
        var k :| 0 <= k < |m[r]| && m[r][k] == v;
        assert InGrid(m, Square(r, k)) && Sees(n, Square(r, k), here);
      } else if v in ColumnValues(m, c) {
        var i :| 0 <= i < |m| && c < |m[i]| && m[i][c] != 0 && m[i][c] == v;
        assert InGrid(m, Square(i, c)) && Sees(n, Square(i, c), here);
      } else {
        var qd := QuadrantFor(n, r, c);
        var a: nat, b: nat :| a < |m| && b < |m[a]| && InQuadrant(qd, Square(a, b)) && m[a][b] != 0 && m[a][b] == v;
        SameQuadrant(n, Square(a, b), here);
        assert InGrid(m, Square(a, b)) && Sees(n, Square(a, b), here);
      }
    }
    if v != 0 && exists p :: InGrid(m, p) && Sees(n, p, here) && At(m, p) == v {
      var p :| InGrid(m, p) && Sees(n, p, here) && At(m, p) == v;
      if p.row == r {
        assert m[r][p.col] == v;
        assert v in RowValues(m, r);
      } else if p.col == c {
        assert v in ColumnValues(m, c);
      } else {
        SameQuadrant(n, p, here);
        assert v in QuadrantValues(m, QuadrantFor(n, r, c));
      }
    }
  }

  // ------------------------------------------------------------ conflicts

  /** Two different filled squares that see each other hold the same value. */
  predicate Clash(m: Matrix, p: Square, s: Square)
  {
    InGrid(m, p) && InGrid(m, s) && p != s && Sees(|m|, p, s) && At(m, p) != 0 && At(m, p) == At(m, s)
  }

  /** No value is repeated in any row, column or quadrant. */
  ghost predicate NoConflict(m: Matrix)
  {
    forall p, s :: !Clash(m, p, s)
  }

  /** Writing a non-forbidden value into an empty square keeps the grid free of conflicts. */
  lemma WriteKeepsNoConflict(m: Matrix, p: Square, v: int)
    requires IsSquare(m) && InGrid(m, p) && At(m, p) == 0
    requires v !in Forbidden(m, p.row, p.col)
    requires NoConflict(m)
    ensures NoConflict(Write(m, p, v))
  {
    var m' := Write(m, p, v);
    forall a, b ensures !Clash(m', a, b) {
      ForbiddenMeaning(m, p.row, p.col, v);
      if a != p && b != p {
        assert Clash(m', a, b) ==> Clash(m, a, b);
      }
    }
  }

  /** Square p of quadrant qd holds a non-zero value that another square of qd holds too. */
  ghost predicate RepeatedIn(m: Matrix, qd: Quadrant, p: Square)
  {
    InGrid(m, p) && InQuadrant(qd, p) && At(m, p) != 0 &&
    exists s :: InGrid(m, s) && InQuadrant(qd, s) && s != p && At(m, s) == At(m, p)
  }

  ghost predicate QuadrantHasRepeat(m: Matrix, qd: Quadrant)
  {
    exists p :: RepeatedIn(m, qd, p)
  }

  /** Being free of conflicts is the three repeat checks together: no row, no column and
      no quadrant repeats a non-zero value. */
  lemma NoConflictIff(m: Matrix)
    requires Tiled(m)
    ensures NoConflict(m) <==>
      (forall r :: 0 <= r < |m| ==> !HasRepeat(m[r])) &&
      (forall c :: 0 <= c < |m| ==> !HasRepeat(Column(m, c))) &&
      (forall p :: InGrid(m, p) ==> !QuadrantHasRepeat(m, QuadrantFor(|m|, p.row, p.col)))
  {
    var n := |m|;
    if NoConflict(m) {
      forall r | 0 <= r < n ensures !HasRepeat(m[r]) {
        if HasRepeat(m[r]) {
          var i, j :| 0 <= i < |m[r]| && 0 <= j < |m[r]| && i != j && m[r][i] != 0 && m[r][i] == m[r][j];
          assert Clash(m, Square(r, i), Square(r, j));
        }
      }
      forall c | 0 <= c < n ensures !HasRepeat(Column(m, c)) {
        if HasRepeat(Column(m, c)) {
          var i, j :| 0 <= i < n && 0 <= j < n && i != j && Column(m, c)[i] != 0 && Column(m, c)[i] == Column(m, c)[j];
          assert Clash(m, Square(i, c), Square(j, c));
        }
      }
      forall p | InGrid(m, p) ensures !QuadrantHasRepeat(m, QuadrantFor(n, p.row, p.col)) {
        var qd := QuadrantFor(n, p.row, p.col);
        if QuadrantHasRepeat(m, qd) {
          var a :| RepeatedIn(m, qd, a);
          var b :| InGrid(m, b) && InQuadrant(qd, b) && b != a && At(m, b) == At(m, a);
          SameQuadrant(n, a, p);
          SameQuadrant(n, b, p);
          assert Clash(m, a, b);
        }
      }
    } else {
      var a, b :| Clash(m, a, b);
      if a.row == b.row {
        assert m[a.row][a.col] == m[a.row][b.col];
        assert HasRepeat(m[a.row]);
      } else if a.col == b.col {
        assert Column(m, a.col)[a.row] == Column(m, a.col)[b.row];
        assert HasRepeat(Column(m, a.col));
      } else {
        var qd := QuadrantFor(n, a.row, a.col);
        SameQuadrant(n, b, a);
        assert RepeatedIn(m, qd, a);
      }
    }
  }

  /** `emptySquaresAreFillable`: every empty square has at least one candidate. */
  ghost predicate AllFillable(m: Matrix)
  {
    forall p :: InGrid(m, p) && At(m, p) == 0 ==> Candidates(m, p.row, p.col) != []
  }

  // -------------------------------------------------------- empty squares

  /** No square is empty. */
  predicate IsSolved(m: Matrix)
  {
    forall i, j :: 0 <= i < |m| && 0 <= j < |m[i]| ==> m[i][j] != 0
  }

  function EmptyCells(m: Matrix): set<Square>
  {
    set a: nat, b: nat | a < |m| && b < |m[a]| && m[a][b] == 0 :: Square(a, b)
  }

  /** `isSolved` holds exactly when no square is empty. */
  lemma SolvedIffNoEmptySquare(m: Matrix)
    ensures IsSolved(m) <==> EmptyCells(m) == {}
  {
    if !IsSolved(m) {
      var i, j :| 0 <= i < |m| && 0 <= j < |m[i]| && m[i][j] == 0;
      assert Square(i, j) in EmptyCells(m);
    }
  }

  /** Filling an empty square removes exactly that square from the empty ones. */
  lemma WriteFillsOneSquare(m: Matrix, p: Square, v: int)
    requires InGrid(m, p) && At(m, p) == 0 && v != 0
    ensures EmptyCells(Write(m, p, v)) == EmptyCells(m) - {p}
    ensures |EmptyCells(Write(m, p, v))| == |EmptyCells(m)| - 1
  {
    var m' := Write(m, p, v);
    forall s ensures s in EmptyCells(m') <==> s in EmptyCells(m) - {p} {
      if s in EmptyCells(m') {
        assert InGrid(m', s) && At(m', s) == 0;
      }
      if s in EmptyCells(m) - {p} {
        assert InGrid(m, s) && At(m, s) == 0;
      }
    }
    assert p in EmptyCells(m);
  }

  /** m' keeps every filled square of m (the givens of a puzzle). */
  ghost predicate Extends(m: Matrix, m': Matrix)
  {
    |m'| == |m| && (forall i :: 0 <= i < |m| ==> |m'[i]| == |m[i]|) &&
    forall p :: InGrid(m, p) && At(m, p) != 0 ==> At(m', p) == At(m, p)
  }

  /** es lists exactly the empty squares of m, in row-major order. */
  ghost predicate ListsEmptySquares(m: Matrix, es: seq<Square>)
  {
    (forall k :: 0 <= k < |es| ==> InGrid(m, es[k]) && At(m, es[k]) == 0) &&
    (forall p :: InGrid(m, p) && At(m, p) == 0 ==> p in es) &&
    (forall a, b :: 0 <= a < b < |es| ==> Before(es[a], es[b]))
  }

  lemma Unfillable(m: Matrix, p: Square)
    requires InGrid(m, p) && At(m, p) == 0 && Candidates(m, p.row, p.col) == []
    ensures !AllFillable(m)
  {
  }

  /** When every listed square has a candidate, every empty square has one. */
  lemma EveryEmptySquareListed(m: Matrix, es: seq<Square>)
    requires ListsEmptySquares(m, es)
    requires forall t :: 0 <= t < |es| ==> Candidates(m, es[t].row, es[t].col) != []
    ensures AllFillable(m)
  {
    forall p | InGrid(m, p) && At(m, p) == 0 ensures Candidates(m, p.row, p.col) != [] {
      var t :| 0 <= t < |es| && es[t] == p;
    }
  }

}
