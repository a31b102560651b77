/** `Sudoku\Solution`: a proposed answer, filled square by square, and the checks
    that it completes a puzzle. Its matrix is a PHP array that `setValueForSquare`
    grows on demand, so it is a map from row keys to maps from column keys to values;
    a square that was never set is undefined. */
module Solution {
  import opened Wrappers
  import opened Arith
  import opened Seqs
  import opened Grid
  import Sudoku

  type Sparse = map<int, map<int, int>>

  predicate Defined(g: Sparse, r: int, c: int)
  {
    r in g && c in g[r]
  }

  /** No defined square holds 0. */
  ghost predicate Complete(g: Sparse)
  {
    forall r, c :: r in g && c in g[r] ==> g[r][c] != 0
  }

  /** p lies in the n×n square of keys that the checks walk. */
  predicate InSquare(n: nat, p: Square)
  {
    p.row < n && p.col < n
  }

  /** The columns of row r holding v: `array_filter($matrix[$r], fn($e) => $v == $e)`. */
  function RowMatches(g: Sparse, r: int, v: int): set<int>
    requires r in g
  {
    set c | c in g[r] && g[r][c] == v
  }

  /** The rows whose column c holds v: the same filter over `array_column($matrix, $c)`. */
  function ColumnMatches(g: Sparse, c: int, v: int): set<int>
  {
    set r | r in g && c in g[r] && g[r][c] == v
  }

  /** The offsets (a, b) of the q×q box with corner (r0, c0) whose square holds v. */
  function BoxMatches(g: Sparse, r0: int, c0: int, q: nat, v: int): set<Square>
  {
    set a: nat, b: nat | a < q && b < q && Defined(g, r0 + a, c0 + b) && g[r0 + a][c0 + b] == v :: Square(a, b)
  }

  /** The same offsets, restricted to those before (i, j) in row-major order. */
  ghost function BoxMatchesBefore(g: Sparse, r0: int, c0: int, q: nat, v: int, i: nat, j: nat): set<Square>
  {
    set a: nat, b: nat | a < q && b < q && Before(Square(a, b), Square(i, j)) &&
      Defined(g, r0 + a, c0 + b) && g[r0 + a][c0 + b] == v :: Square(a, b)
  }

  /** The offsets in the box of (row, col), of side q = sqrt(number of rows), whose
      square holds v. */
  function QuadrantMatches(g: Sparse, row: nat, col: nat, v: int): set<Square>
    requires |g| > 0
  {
    BoxMatches(g, BlockStart(|g|, row), BlockStart(|g|, col), Isqrt(|g|), v)
  }

  /** Square p is defined and its value occurs once in its row, its column and its box. */
  ghost predicate Clean(g: Sparse, p: Square)
  {
    |g| > 0 && Defined(g, p.row, p.col) &&
    var v := g[p.row][p.col];
    |RowMatches(g, p.row, v)| <= 1 && |ColumnMatches(g, p.col, v)| <= 1 &&
    |QuadrantMatches(g, p.row, p.col, v)| <= 1
  }

  /** Every square the walk of `isValid` reaches before p passes the three checks. */
  ghost predicate CleanBefore(g: Sparse, p: Square)
  {
    forall s :: InSquare(|g|, s) && Before(s, p) ==> Clean(g, s)
  }

  /** p is the first square of the walk that fails: it is defined, it fails a check,
      and every square before it passes. */
  ghost predicate FirstFailure(g: Sparse, p: Square)
  {
    InSquare(|g|, p) && Defined(g, p.row, p.col) && !Clean(g, p) && CleanBefore(g, p)
  }

  /** p is the first square of the walk that is undefined, every earlier one passing. */
  ghost predicate FirstUndefined(g: Sparse, p: Square)
  {
    InSquare(|g|, p) && !Defined(g, p.row, p.col) && CleanBefore(g, p)
  }

  /** The answer has the puzzle's row count and agrees with every given. */
  ghost predicate Agrees(g: Sparse, m: Matrix)
  {
    |g| == |m| &&
    forall p :: InGrid(m, p) && At(m, p) != 0 ==> Defined(g, p.row, p.col) && g[p.row][p.col] == At(m, p)
  }

  class Solution {
    var matrix: Sparse

    /** `new Solution()`: nothing is set yet. */
    constructor ()
      ensures matrix == map[]
    {
      matrix := map[];
    }

    /** `setValueForSquare`: defines the one square (row, col) as value, creating the row
        if needed; every other square keeps its definedness and value. */
    method SetValueForSquare(row: int, col: int, value: int)
      modifies this
      ensures matrix.Keys == old(matrix).Keys + {row}
      ensures Defined(matrix, row, col) && matrix[row][col] == value
      ensures forall r, c :: r in matrix && c in matrix[r] && (r != row || c != col) ==>
        Defined(old(matrix), r, c) && matrix[r][c] == old(matrix)[r][c]
      ensures forall r, c :: Defined(old(matrix), r, c) ==> Defined(matrix, r, c)
    {
      var line := if row in matrix then matrix[row] else map[];
      matrix := matrix[row := line[col := value]];
    }

    function RowCount(): nat
      reads this
    {
      |matrix|
    }

    /** `isComplete`: no defined square holds 0. */
    method IsComplete() returns (b: bool)
      ensures b <==> Complete(matrix)
    {
      var rows := matrix.Items;
      while rows != {}
        invariant rows <= matrix.Items
        invariant forall r, c :: r in matrix && (r, matrix[r]) !in rows && c in matrix[r] ==> matrix[r][c] != 0
        decreases rows
      {
        var row :| row in rows;
        var squares := row.1.Items;
        while squares != {}
          invariant squares <= row.1.Items
          invariant forall c :: c in row.1 && (c, row.1[c]) !in squares ==> row.1[c] != 0
          decreases squares
        {
          var square :| square in squares;
          if square.1 == 0 {
            assert row.0 in matrix && matrix[row.0] == row.1;
            assert square.0 in row.1 && row.1[square.0] == 0;
            Incomplete(matrix, row.0, square.0);
            return false;
          }
          squares := squares - {square};
        }
        rows := rows - {row};
      }
      return true;
    }

    /** `dimensionMatches`: despite its name, true when the row counts differ. */
    predicate DimensionMatches(s: Sudoku.Sudoku)
      reads this, s
    {
      |s.matrix| != |matrix|
    }

    /** `valueMatches`: square (i, j) is defined and equal to the puzzle's. */
    predicate ValueMatches(s: Sudoku.Sudoku, i: nat, j: nat)
      reads this, s
      requires s.Valid() && i < |s.matrix| && j < |s.matrix|
    {
      Defined(matrix, i, j) && matrix[i][j] == s.matrix[i][j]
    }

    /** `matches`: same row count, and every given of the puzzle is defined here with
        the same value. */
    method Matches(s: Sudoku.Sudoku) returns (b: bool)
      requires s.Valid()
      ensures b <==> Agrees(matrix, s.matrix)
    {
      if DimensionMatches(s) {
        return false;
      }
      var n := RowCount();
      for i := 0 to n
        invariant forall p :: InGrid(s.matrix, p) && p.row < i && At(s.matrix, p) != 0 ==>
          Defined(matrix, p.row, p.col) && matrix[p.row][p.col] == At(s.matrix, p)
      {
        for j := 0 to n
          invariant forall p :: InGrid(s.matrix, p) && (p.row < i || (p.row == i && p.col < j)) && At(s.matrix, p) != 0 ==>
            Defined(matrix, p.row, p.col) && matrix[p.row][p.col] == At(s.matrix, p)
        {
          if !s.IsEmptySquare(i, j) && !ValueMatches(s, i, j) {
            assert InGrid(s.matrix, Square(i, j));
            return false;
          }
        }
      }
      return true;
    }

    /** `isValueRepeatedByRow`: two different squares of the row hold value. */
    function IsValueRepeatedByRow(row: int, value: int): (b: bool)
      reads this
      requires row in matrix
      ensures b <==> (exists c, c' :: c in matrix[row] && c' in matrix[row] && c != c' &&
                                    matrix[row][c] == value && matrix[row][c'] == value)
    {
      RowRepeatMeaning(matrix, row, value);
      |RowMatches(matrix, row, value)| > 1
    }

    /** `isValueRepeatedByColumn`: two different squares of the column hold value. */
    function IsValueRepeatedByColumn(col: int, value: int): (b: bool)
      reads this
      ensures b <==> (exists r, r' :: Defined(matrix, r, col) && Defined(matrix, r', col) && r != r' &&
                                    matrix[r][col] == value && matrix[r'][col] == value)
    {
      ColumnRepeatMeaning(matrix, col, value);
      |ColumnMatches(matrix, col, value)| > 1
    }

    /** `isValueRepeatedByQuadrant`: counts the squares of the q×q box of (row, column)
        holding value, undefined squares counting as different. */
    method IsValueRepeatedByQuadrant(row: nat, column: nat, value: int) returns (b: bool)
      requires |matrix| > 0
      ensures b <==> |QuadrantMatches(matrix, row, column, value)| > 1
    {
      var q := Isqrt(RowCount());
      var startRow := BlockStart(RowCount(), row);
      var startCol := BlockStart(RowCount(), column);
      var count := CountInBox(startRow, startCol, q, value);
      b := count > 1;
    }

    /** The counting loop of `isValueRepeatedByQuadrant`, over the box of side q with
        corner (startRow, startCol). */
    method CountInBox(startRow: int, startCol: int, q: nat, value: int) returns (count: nat)
      ensures count == |BoxMatches(matrix, startRow, startCol, q, value)|
    {
      count := 0;
      BoxMatchesEnds(matrix, startRow, startCol, q, value);
      for i := 0 to q
        invariant count == |BoxMatchesBefore(matrix, startRow, startCol, q, value, i, 0)|
      {
        for j := 0 to q
          invariant count == |BoxMatchesBefore(matrix, startRow, startCol, q, value, i, j)|
        {
          BoxMatchesStep(matrix, startRow, startCol, q, value, i, j);
          if Defined(matrix, startRow + i, startCol + j) && matrix[startRow + i][startCol + j] == value {
            count := count + 1;
          }
        }
      }
    }

    /** `isValid`: Ok(false) when incomplete or when, in row-major order, a square
        repeats its value in its row, column or box; Err(p) for the first square p
        the walk reaches undefined (a null handed to an int parameter). */
    method IsValid() returns (r: Result<bool, Square>)
      requires Complete(matrix) ==> PerfectSquare(|matrix|)
      ensures r == Ok(true) <==> Complete(matrix) && forall p :: InSquare(|matrix|, p) ==> Clean(matrix, p)
      ensures r.Err? ==> Complete(matrix) && FirstUndefined(matrix, r.error)
      ensures r == Ok(false) ==> !Complete(matrix) || exists p :: FirstFailure(matrix, p)
      ensures Complete(matrix) && (exists p :: FirstUndefined(matrix, p)) ==> r.Err?
    {
      var complete := IsComplete();
      if !complete {
        return Ok(false);
      }
      var n := RowCount();
      for i := 0 to n
        invariant forall s :: InSquare(n, s) && s.row < i ==> Clean(matrix, s)
      {
        for j := 0 to n
          invariant forall s :: InSquare(n, s) && (s.row < i || (s.row == i && s.col < j)) ==> Clean(matrix, s)
        {
          if !Defined(matrix, i, j) {
            return Err(Square(i, j));
          }
          var value := matrix[i][j];
          if IsValueRepeatedByRow(i, value) {
            assert FirstFailure(matrix, Square(i, j));
            FirstFailureStops(matrix, Square(i, j));
            return Ok(false);
          }
          if IsValueRepeatedByColumn(j, value) {
            assert FirstFailure(matrix, Square(i, j));
            FirstFailureStops(matrix, Square(i, j));
            return Ok(false);
          }
          var repeated := IsValueRepeatedByQuadrant(i, j, value);
          if repeated {
            assert FirstFailure(matrix, Square(i, j));
            FirstFailureStops(matrix, Square(i, j));
            return Ok(false);
          }
        }
      }
      return Ok(true);
    }

    /** `isSolutionFor`: `matches`, then `isValid`. */
    method IsSolutionFor(s: Sudoku.Sudoku) returns (r: Result<bool, Square>)
      requires s.Valid() && (|matrix| == |s.matrix| && Complete(matrix) ==> PerfectSquare(|matrix|))
      ensures r == Ok(true) <==>
        Agrees(matrix, s.matrix) && Complete(matrix) && forall p :: InSquare(|matrix|, p) ==> Clean(matrix, p)
      ensures r.Err? ==>
        Agrees(matrix, s.matrix) && Complete(matrix) && FirstUndefined(matrix, r.error) && At(s.matrix, r.error) == 0
      ensures r == Ok(false) ==>
        !Agrees(matrix, s.matrix) || !Complete(matrix) || exists p :: FirstFailure(matrix, p)
      ensures Agrees(matrix, s.matrix) && Complete(matrix) && (exists p :: FirstUndefined(matrix, p)) ==> r.Err?
    {
      var matching := Matches(s);
      if !matching {
        return Ok(false);
      }
      r := IsValid();
      if r.Err? {
        assert InGrid(s.matrix, r.error);
      }
    }
  }

  /** The walk stops at one square: when some square fails first, none is the first undefined one. */
  lemma FirstFailureStops(g: Sparse, p: Square)
    requires FirstFailure(g, p)
    ensures forall q :: !FirstUndefined(g, q)
  {
  }

  lemma Incomplete(g: Sparse, r: int, c: int)
    requires r in g && c in g[r] && g[r][c] == 0
    ensures !Complete(g)
  {
  }

  // ------------------------------------------------------- repeat counts

  lemma RowRepeatMeaning(g: Sparse, row: int, v: int)
    requires row in g
    ensures |RowMatches(g, row, v)| > 1 <==>
      exists c, c' :: c in g[row] && c' in g[row] && c != c' && g[row][c] == v && g[row][c'] == v
  {
    var found := RowMatches(g, row, v);
    if |found| > 1 {
      var c, c' := TwoElements(found);
      assert c in g[row] && c' in g[row] && g[row][c] == v && g[row][c'] == v;
    }
    if exists c, c' :: c in g[row] && c' in g[row] && c != c' && g[row][c] == v && g[row][c'] == v {
      var c, c' :| c in g[row] && c' in g[row] && c != c' && g[row][c] == v && g[row][c'] == v;
      MoreThanOne(found, c, c');
    }
  }

  lemma ColumnRepeatMeaning(g: Sparse, col: int, v: int)
    ensures |ColumnMatches(g, col, v)| > 1 <==>
      exists r, r' :: Defined(g, r, col) && Defined(g, r', col) && r != r' && g[r][col] == v && g[r'][col] == v
  {
    var found := ColumnMatches(g, col, v);
    if |found| > 1 {
      var r, r' := TwoElements(found);
      assert Defined(g, r, col) && Defined(g, r', col) && g[r][col] == v && g[r'][col] == v;
    }
    if exists r, r' :: Defined(g, r, col) && Defined(g, r', col) && r != r' && g[r][col] == v && g[r'][col] == v {
      var r, r' :| Defined(g, r, col) && Defined(g, r', col) && r != r' && g[r][col] == v && g[r'][col] == v;
      MoreThanOne(found, r, r');
    }
  }

  // ------------------------------------------------- the box-counting loop

  lemma BoxMatchesStep(g: Sparse, r0: int, c0: int, q: nat, v: int, i: nat, j: nat)
    requires i < q && j < q
    ensures Square(i, j) !in BoxMatchesBefore(g, r0, c0, q, v, i, j)
    ensures BoxMatchesBefore(g, r0, c0, q, v, i, j + 1) ==
      BoxMatchesBefore(g, r0, c0, q, v, i, j) +
      (if Defined(g, r0 + i, c0 + j) && g[r0 + i][c0 + j] == v then {Square(i, j)} else {})
  {
  }

  lemma BoxMatchesEnds(g: Sparse, r0: int, c0: int, q: nat, v: int)
    ensures BoxMatchesBefore(g, r0, c0, q, v, 0, 0) == {}
    ensures BoxMatchesBefore(g, r0, c0, q, v, q, 0) == BoxMatches(g, r0, c0, q, v)
    ensures forall i: nat :: BoxMatchesBefore(g, r0, c0, q, v, i, q) == BoxMatchesBefore(g, r0, c0, q, v, i + 1, 0)
  {
  }

  // ------------------------------------------- answers written from a grid

  /** g holds exactly the squares of m, each with m's value: m written into a Solution. */
  ghost predicate WrittenFrom(g: Sparse, m: Matrix)
  {
    |g| == |m| &&
    (forall r :: r in g <==> 0 <= r < |m|) &&
    (forall r, c :: r in g ==> (c in g[r] <==> 0 <= c < |m[r]|)) &&
    (forall r, c :: r in g && c in g[r] ==> g[r][c] == m[r][c])
  }

  lemma WrittenAt(g: Sparse, m: Matrix, p: Square)
    requires WrittenFrom(g, m) && InGrid(m, p)
    ensures Defined(g, p.row, p.col) && g[p.row][p.col] == At(m, p)
  {
  }

  lemma WrittenBack(g: Sparse, m: Matrix, r: int, c: int)
    requires WrittenFrom(g, m) && Defined(g, r, c)
    ensures 0 <= r < |m| && 0 <= c < |m[r]| && g[r][c] == m[r][c]
  {
  }

  /** g holds the squares of the square grid m that come before (i, j) in row-major
      order, each with m's value, and nothing else. */
  ghost predicate WrittenUpTo(g: Sparse, m: Matrix, i: nat, j: nat)
  {
    |g| == (if j > 0 then i + 1 else i) &&
    (forall r :: r in g <==> 0 <= r < |m| && (r < i || (r == i && j > 0))) &&
    (forall r, c :: 0 <= r < |m| && r in g ==> (c in g[r] <==> 0 <= c < |m[r]| && (r < i || c < j))) &&
    (forall r, c :: 0 <= r < |m| && r in g && c in g[r] && 0 <= c < |m[r]| ==> g[r][c] == m[r][c])
  }

  /** Adding key k to a map's keys adds one row exactly when k was not a key. */
  lemma KeysGrow(g: Sparse, g': Sparse, k: int)
    requires g'.Keys == g.Keys + {k}
    ensures |g'| == if k in g then |g| else |g| + 1
  {
  }

  /** One `setValueForSquare` of the next square in row-major order extends what is written by it. */
  lemma WriteStep(g: Sparse, g': Sparse, m: Matrix, i: nat, j: nat)
    requires IsSquare(m) && i < |m| && j < |m| && WrittenUpTo(g, m, i, j)
    requires g'.Keys == g.Keys + {i}
    requires Defined(g', i, j) && g'[i][j] == m[i][j]
    requires forall r, c :: r in g' && c in g'[r] && (r != i || c != j) ==> Defined(g, r, c) && g'[r][c] == g[r][c]
    requires forall r, c :: Defined(g, r, c) ==> Defined(g', r, c)
    ensures WrittenUpTo(g', m, i, j + 1)
  {
    KeysGrow(g, g', i);
    forall r, c | 0 <= r < |m| && r in g'
      ensures c in g'[r] <==> 0 <= c < |m[r]| && (r < i || c < j + 1)
    {
      if c in g'[r] && (r != i || c != j) {
        assert Defined(g, r, c);
      }
      if 0 <= c < |m[r]| && (r < i || c < j) {
        assert Defined(g, r, c);
      }
    }
  }

  /** Test scaffolding, not code under src/: the `buildMatchingSolution` helper of the
      Solution tests, a new Solution, then one `setValueForSquare` per square of the grid,
      row by row; it ends holding the grid exactly. It is kept so that SolvedGridIsSolution
      speaks of a Solution filled through SetValueForSquare. */
  method BuildMatchingSolution(s: Sudoku.Sudoku) returns (sol: Solution)
    requires s.Valid()
    ensures fresh(sol)
    ensures WrittenFrom(sol.matrix, s.matrix)
  {
    var m := s.matrix;
    var n := |m|;
    sol := new Solution();
    for row := 0 to n
      invariant WrittenUpTo(sol.matrix, m, row, 0)
    {
      for col := 0 to n
        invariant WrittenUpTo(sol.matrix, m, row, col)
      {
        ghost var before := sol.matrix;
        sol.SetValueForSquare(row, col, s.ValueForSquare(row, col));
        WriteStep(before, sol.matrix, m, row, col);
      }
      assert WrittenUpTo(sol.matrix, m, row + 1, 0);
    }
  }

  /** For a solution written from a grid with no empty square, `isValid`'s per-square
      checks all pass exactly when the grid repeats no value in a row, a column or a
      quadrant. */
  lemma ValidIffNoConflict(m: Matrix, g: Sparse)
    requires Tiled(m) && IsSolved(m) && WrittenFrom(g, m)
    ensures Complete(g)
    ensures (forall p :: InSquare(|m|, p) ==> Clean(g, p)) <==> NoConflict(m)
  {
    var n := |m|;
    forall p | InSquare(n, p) ensures Clean(g, p) <==> forall s :: !Clash(m, p, s) {
      CleanIffNoClash(m, g, p);
    }
    if !NoConflict(m) {
      var a, b :| Clash(m, a, b);
      assert !Clean(g, a);
    }
  }

  /** One square passes the three checks of `isValid` exactly when it clashes with no square. */
  lemma CleanIffNoClash(m: Matrix, g: Sparse, p: Square)
    requires Tiled(m) && IsSolved(m) && WrittenFrom(g, m) && InSquare(|m|, p)
    ensures Clean(g, p) <==> forall s :: !Clash(m, p, s)
  {
    WrittenAt(g, m, p);
    RowClash(m, g, p);
    ColumnClash(m, g, p);
    BoxClash(m, g, p);
  }

  /** The row count of `isValid` exceeds one exactly when p clashes with a square of its row. */
  lemma RowClash(m: Matrix, g: Sparse, p: Square)
    requires Tiled(m) && WrittenFrom(g, m) && InSquare(|m|, p) && At(m, p) != 0
    ensures |RowMatches(g, p.row, At(m, p))| > 1 <==> exists s :: Clash(m, p, s) && s.row == p.row
  {
    var rows := RowMatches(g, p.row, At(m, p));
    if |rows| > 1 {
      var c, c' := TwoElements(rows);
      var d := if c != p.col then c else c';
      WrittenBack(g, m, p.row, d);
      assert Clash(m, p, Square(p.row, d));
    }
    if exists s :: Clash(m, p, s) && s.row == p.row {
      var s :| Clash(m, p, s) && s.row == p.row;
      WrittenAt(g, m, s);
      WrittenAt(g, m, p);
      assert s.col in rows && p.col in rows;
      MoreThanOne(rows, s.col, p.col);
    }
  }

  /** The column count of `isValid` exceeds one exactly when p clashes with a square of its column. */
  lemma ColumnClash(m: Matrix, g: Sparse, p: Square)
    requires Tiled(m) && WrittenFrom(g, m) && InSquare(|m|, p) && At(m, p) != 0
    ensures |ColumnMatches(g, p.col, At(m, p))| > 1 <==> exists s :: Clash(m, p, s) && s.col == p.col
  {
    var cols := ColumnMatches(g, p.col, At(m, p));
    if |cols| > 1 {
      var r, r' := TwoElements(cols);
      var d := if r != p.row then r else r';
      WrittenBack(g, m, d, p.col);
      assert Clash(m, p, Square(d, p.col));
    }
    if exists s :: Clash(m, p, s) && s.col == p.col {
      var s :| Clash(m, p, s) && s.col == p.col;
      WrittenAt(g, m, s);
      WrittenAt(g, m, p);
      assert s.row in cols && p.row in cols;
      MoreThanOne(cols, s.row, p.row);
    }
  }

  /** The box count of `isValid` exceeds one exactly when p clashes with a square of its quadrant. */
  lemma BoxClash(m: Matrix, g: Sparse, p: Square)
    requires Tiled(m) && WrittenFrom(g, m) && InSquare(|m|, p) && At(m, p) != 0
    ensures |QuadrantMatches(g, p.row, p.col, At(m, p))| > 1 <==>
      exists s :: Clash(m, p, s) && QuadrantFor(|m|, s.row, s.col) == QuadrantFor(|m|, p.row, p.col)
  {
    var n := |m|;
    if |QuadrantMatches(g, p.row, p.col, At(m, p))| > 1 {
      var s := BoxClashFound(m, g, p);
    }
    if exists s :: Clash(m, p, s) && QuadrantFor(n, s.row, s.col) == QuadrantFor(n, p.row, p.col) {
      var s :| Clash(m, p, s) && QuadrantFor(n, s.row, s.col) == QuadrantFor(n, p.row, p.col);
      WrittenAt(g, m, s);
      WrittenAt(g, m, p);
      BoxClashCounted(g, p, s, At(m, p));
    }
  }

  lemma BoxClashFound(m: Matrix, g: Sparse, p: Square) returns (s: Square)
    requires Tiled(m) && WrittenFrom(g, m) && InSquare(|m|, p) && At(m, p) != 0
    requires |QuadrantMatches(g, p.row, p.col, At(m, p))| > 1
    ensures Clash(m, p, s) && QuadrantFor(|m|, s.row, s.col) == QuadrantFor(|m|, p.row, p.col)
  {
    var n := |m|;
    var box := QuadrantMatches(g, p.row, p.col, At(m, p));
    var r0, c0 := BlockStart(n, p.row), BlockStart(n, p.col);
    var here := Square(p.row - r0, p.col - c0);
    var o, o' := TwoElements(box);
    var d := if o != here then o else o';
    s := Square(r0 + d.row, c0 + d.col);
    assert Defined(g, s.row, s.col) && g[s.row][s.col] == At(m, p);
    WrittenBack(g, m, s.row, s.col);
    assert At(m, s) == At(m, p);
    assert s != p by {
      assert d.row != here.row || d.col != here.col;
    }
    assert InQuadrant(QuadrantFor(n, p.row, p.col), s);
    SameQuadrant(n, s, p);
  }

  lemma BoxClashCounted(g: Sparse, p: Square, s: Square, v: int)
    requires |g| > 0 && p != s
    requires QuadrantFor(|g|, s.row, s.col) == QuadrantFor(|g|, p.row, p.col)
    requires Defined(g, s.row, s.col) && g[s.row][s.col] == v
    requires Defined(g, p.row, p.col) && g[p.row][p.col] == v
    ensures |QuadrantMatches(g, p.row, p.col, v)| > 1
  {
    var n := |g|;
    var q := Isqrt(n);
    var r0, c0 := BlockStart(n, p.row), BlockStart(n, p.col);
    SameQuadrant(n, s, p);
    assert r0 <= s.row < r0 + q && c0 <= s.col < c0 + q;
    InBox(g, r0, c0, q, v, s.row, s.col);
    InBox(g, r0, c0, q, v, p.row, p.col);
    assert s.row - r0 != p.row - r0 || s.col - c0 != p.col - c0;
    MoreThanOne(BoxMatches(g, r0, c0, q, v), Square(s.row - r0, s.col - c0), Square(p.row - r0, p.col - c0));
  }

  /** A defined square of the box holding v is counted at its offset. */
  lemma InBox(g: Sparse, r0: nat, c0: nat, q: nat, v: int, r: nat, c: nat)
    requires r0 <= r < r0 + q && c0 <= c < c0 + q
    requires Defined(g, r, c) && g[r][c] == v
    ensures Square(r - r0, c - c0) in BoxMatches(g, r0, c0, q, v)
  {
    assert r0 + (r - r0) == r && c0 + (c - c0) == c;
  }

  /** A grid the Solver completed from a puzzle free of conflicts, written into a
      Solution, agrees with the puzzle and passes every check of `isValid`. */
  lemma SolvedGridIsSolution(puzzle: Matrix, m: Matrix, g: Sparse)
    requires Tiled(m) && IsSolved(m) && NoConflict(m) && Extends(puzzle, m) && WrittenFrom(g, m)
    ensures Agrees(g, puzzle)
    ensures Complete(g) && forall p :: InSquare(|m|, p) ==> Clean(g, p)
  {
    ValidIffNoConflict(m, g);
  }
}
