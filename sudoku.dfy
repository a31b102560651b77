/** `Sudoku\Sudoku`: the grid object. It validates its matrix on construction,
    answers queries about squares, quadrants and candidates, checks whether the
    puzzle is solvable, and (as the Solver requires) writes single squares. */
module Sudoku {
  import opened Wrappers
  import opened Arith
  import opened Seqs
  import opened Grid

  /** `isSquareMatrix`: every row has as many entries as there are rows. */
  method IsSquareMatrix(m: Matrix) returns (b: bool)
    ensures b <==> IsSquare(m)
  {
    var rows := |m|;
    for i := 0 to |m|
      invariant forall k :: 0 <= k < i ==> |m[k]| == rows
    {
      if rows != |m[i]| {
        return false;
      }
    }
    return true;
  }

  /** `isBiggerThan4x4`: at least four rows, and at least four entries in the first. */
  predicate IsBiggerThan4x4(m: Matrix)
  {
    |m| >= 4 && |m[0]| >= 4
  }

  /** `removeForbiddenValues`: for each forbidden value, unset its first occurrence
      among the possible values; on an ascending list this keeps exactly the values
      that are not forbidden, in order. */
  method RemoveForbiddenValues(forbidden: seq<int>, possible: seq<int>) returns (r: seq<int>)
    ensures Increasing(possible) ==> r == Without(possible, ToSet(forbidden)) && Increasing(r)
  {
    r := possible;
    ToSetPrefix(forbidden, 0);
    WithoutNothing(possible, {});
    for k := 0 to |forbidden|
      invariant Increasing(possible) ==> r == Without(possible, ToSet(forbidden[..k])) && Increasing(r)
    {
      ToSetPrefix(forbidden, k + 1);
      if Increasing(possible) {
        RemoveStep(possible, ToSet(forbidden[..k]), r, forbidden[k]);
      }
      r := RemoveFirst(r, forbidden[k]);
    }
    assert forbidden[..|forbidden|] == forbidden;
  }

  lemma ToSetPrefix(s: seq<int>, k: nat)
    requires k <= |s|
    ensures k == 0 ==> ToSet(s[..k]) == {}
    ensures k > 0 ==> ToSet(s[..k]) == ToSet(s[..k - 1]) + {s[k - 1]}
  {
    if k > 0 {
      assert s[..k] == s[..k - 1] + [s[k - 1]];
    }
  }

  /** One round of the removal loop: unsetting f from the kept values keeps one value fewer. */
  lemma RemoveStep(possible: seq<int>, F: set<int>, r: seq<int>, f: int)
    requires Increasing(possible) && r == Without(possible, F)
    ensures RemoveFirst(r, f) == Without(possible, F + {f}) && Increasing(RemoveFirst(r, f))
  {
    WithoutIncreasing(possible, F);
    RemoveFirstIsWithout(r, f);
    WithoutTwice(possible, F, {f});
    WithoutIncreasing(possible, F + {f});
  }

  /** The non-zero values of qd's squares that come before p in row-major order. */
  ghost function QuadrantValuesBefore(m: Matrix, qd: Quadrant, p: Square): set<int>
  {
    set a: nat, b: nat | a < |m| && b < |m[a]| && InQuadrant(qd, Square(a, b)) && Before(Square(a, b), p) && m[a][b] != 0 :: m[a][b]
  }

  /** The squares of qd holding v. */
  function QuadrantCells(m: Matrix, qd: Quadrant, v: int): set<Square>
  {
    set a: nat, b: nat | a < |m| && b < |m[a]| && InQuadrant(qd, Square(a, b)) && m[a][b] == v :: Square(a, b)
  }

  /** The squares of qd holding v that come before p in row-major order. */
  ghost function QuadrantCellsBefore(m: Matrix, qd: Quadrant, v: int, p: Square): set<Square>
  {
    set a: nat, b: nat | a < |m| && b < |m[a]| && InQuadrant(qd, Square(a, b)) && Before(Square(a, b), p) && m[a][b] == v :: Square(a, b)
  }

  /** qd is the quadrant of some square of m. */
  ghost predicate IsQuadrantOf(m: Matrix, qd: Quadrant)
  {
    |m| > 0 && exists p :: InGrid(m, p) && qd == QuadrantFor(|m|, p.row, p.col)
  }

  /** Every listed quadrant is a square's quadrant and lies inside the grid. */
  ghost predicate ListsQuadrants(m: Matrix, quads: seq<Quadrant>)
  {
    forall k :: 0 <= k < |quads| ==> BoxInside(m, quads[k]) && IsQuadrantOf(m, quads[k])
  }

  /** Every square of the blocks before block (i, j), in row-major order, has its quadrant listed. */
  ghost predicate CoversBlocks(m: Matrix, quads: seq<Quadrant>, i: nat, j: nat)
  {
    |m| > 0 &&
    forall p :: InGrid(m, p) && (BlockOf(|m|, p.row) < i || (BlockOf(|m|, p.row) == i && BlockOf(|m|, p.col) < j)) ==>
      QuadrantFor(|m|, p.row, p.col) in quads
  }

  lemma CoverStep(m: Matrix, quads: seq<Quadrant>, i: nat, j: nat)
    requires IsSquare(m) && |m| > 0 && PerfectSquare(|m|) && i < Isqrt(|m|) && j < Isqrt(|m|)
    requires ListsQuadrants(m, quads) && CoversBlocks(m, quads, i, j)
    ensures var c := BlockCorner(|m|, i, j);
      var quads' := quads + [QuadrantFor(|m|, c.row, c.col)];
      ListsQuadrants(m, quads') && CoversBlocks(m, quads', i, j + 1)
  {
    var n := |m|;
    var c := BlockCorner(n, i, j);
    BlockCornerQuadrant(n, i, j);
    assert InGrid(m, c);
    var quads' := quads + [QuadrantFor(n, c.row, c.col)];
    assert IsQuadrantOf(m, quads'[|quads|]);
    forall k | 0 <= k < |quads'| ensures BoxInside(m, quads'[k]) && IsQuadrantOf(m, quads'[k]) {
      if k < |quads| {
        assert quads'[k] == quads[k];
      }
    }
  }

  lemma CoverNextRow(m: Matrix, quads: seq<Quadrant>, i: nat)
    requires IsSquare(m) && |m| > 0 && PerfectSquare(|m|)
    requires CoversBlocks(m, quads, i, Isqrt(|m|))
    ensures CoversBlocks(m, quads, i + 1, 0)
  {
    forall p | InGrid(m, p) && BlockOf(|m|, p.row) < i + 1 ensures QuadrantFor(|m|, p.row, p.col) in quads {
      BlockOfBound(|m|, p.col);
    }
  }

  lemma CoverAll(m: Matrix, quads: seq<Quadrant>)
    requires IsSquare(m) && |m| > 0 && PerfectSquare(|m|)
    requires ListsQuadrants(m, quads) && CoversBlocks(m, quads, Isqrt(|m|), 0)
    ensures forall k :: 0 <= k < |quads| ==> BoxInside(m, quads[k])
    ensures forall k :: 0 <= k < |quads| ==> IsQuadrantOf(m, quads[k])
    ensures forall p :: InGrid(m, p) ==> QuadrantFor(|m|, p.row, p.col) in quads
  {
    forall p | InGrid(m, p) ensures QuadrantFor(|m|, p.row, p.col) in quads {
      BlockOfBound(|m|, p.row);
    }
  }

  /** A box of the grid that the quadrant loops may walk. */
  predicate BoxInside(m: Matrix, qd: Quadrant)
  {
    qd.upperLeft.row <= qd.bottomRight.row < |m| && qd.upperLeft.col <= qd.bottomRight.col < |m|
  }

  lemma QuadrantValuesStep(m: Matrix, qd: Quadrant, i: nat, j: nat)
    requires IsSquare(m) && BoxInside(m, qd) && i < |m| && j < |m| && InQuadrant(qd, Square(i, j))
    ensures QuadrantValuesBefore(m, qd, Square(i, j + 1)) ==
      QuadrantValuesBefore(m, qd, Square(i, j)) + (if m[i][j] != 0 then {m[i][j]} else {})
  {
    var L := QuadrantValuesBefore(m, qd, Square(i, j + 1));
    var R := QuadrantValuesBefore(m, qd, Square(i, j)) + (if m[i][j] != 0 then {m[i][j]} else {});
    forall v ensures v in L <==> v in R {
      if v in L {
        var a: nat, b: nat :| a < |m| && b < |m[a]| && InQuadrant(qd, Square(a, b)) && Before(Square(a, b), Square(i, j + 1)) && m[a][b] != 0 && m[a][b] == v;
        if Square(a, b) != Square(i, j) {
          assert v in QuadrantValuesBefore(m, qd, Square(i, j));
        }
      }
      if v in R && v in QuadrantValuesBefore(m, qd, Square(i, j)) {
        var a: nat, b: nat :| a < |m| && b < |m[a]| && InQuadrant(qd, Square(a, b)) && Before(Square(a, b), Square(i, j)) && m[a][b] != 0 && m[a][b] == v;
        assert v in L;
      }
    }
  }

  lemma QuadrantValuesNextRow(m: Matrix, qd: Quadrant, i: nat)
    ensures QuadrantValuesBefore(m, qd, Square(i, qd.bottomRight.col + 1)) ==
      QuadrantValuesBefore(m, qd, Square(i + 1, qd.upperLeft.col))
  {
    var L := QuadrantValuesBefore(m, qd, Square(i, qd.bottomRight.col + 1));
    var R := QuadrantValuesBefore(m, qd, Square(i + 1, qd.upperLeft.col));
    forall v ensures v in L <==> v in R {
      if v in L {
        var a: nat, b: nat :| a < |m| && b < |m[a]| && InQuadrant(qd, Square(a, b)) && Before(Square(a, b), Square(i, qd.bottomRight.col + 1)) && m[a][b] != 0 && m[a][b] == v;
        assert v in R;
      }
      if v in R {
        var a: nat, b: nat :| a < |m| && b < |m[a]| && InQuadrant(qd, Square(a, b)) && Before(Square(a, b), Square(i + 1, qd.upperLeft.col)) && m[a][b] != 0 && m[a][b] == v;
        assert v in L;
      }
    }
  }

  lemma QuadrantValuesAll(m: Matrix, qd: Quadrant)
    ensures QuadrantValuesBefore(m, qd, Square(qd.bottomRight.row + 1, qd.upperLeft.col)) == QuadrantValues(m, qd)
  {
    var L := QuadrantValuesBefore(m, qd, Square(qd.bottomRight.row + 1, qd.upperLeft.col));
    forall v ensures v in L <==> v in QuadrantValues(m, qd) {
      if v in QuadrantValues(m, qd) {
        var a: nat, b: nat :| a < |m| && b < |m[a]| && InQuadrant(qd, Square(a, b)) && m[a][b] != 0 && m[a][b] == v;
        assert v in L;
      }
    }
  }

  lemma QuadrantValuesNone(m: Matrix, qd: Quadrant)
    ensures QuadrantValuesBefore(m, qd, Square(qd.upperLeft.row, qd.upperLeft.col)) == {}
  {
  }

  lemma QuadrantCellsStep(m: Matrix, qd: Quadrant, v: int, i: nat, j: nat)
    requires IsSquare(m) && BoxInside(m, qd) && i < |m| && j < |m| && InQuadrant(qd, Square(i, j))
    ensures Square(i, j) !in QuadrantCellsBefore(m, qd, v, Square(i, j))
    ensures QuadrantCellsBefore(m, qd, v, Square(i, j + 1)) ==
      QuadrantCellsBefore(m, qd, v, Square(i, j)) + (if m[i][j] == v then {Square(i, j)} else {})
  {
  }

  lemma QuadrantCellsNextRow(m: Matrix, qd: Quadrant, v: int, i: nat)
    ensures QuadrantCellsBefore(m, qd, v, Square(i, qd.bottomRight.col + 1)) ==
      QuadrantCellsBefore(m, qd, v, Square(i + 1, qd.upperLeft.col))
  {
  }

  lemma QuadrantCellsAll(m: Matrix, qd: Quadrant, v: int)
    ensures QuadrantCellsBefore(m, qd, v, Square(qd.bottomRight.row + 1, qd.upperLeft.col)) == QuadrantCells(m, qd, v)
    ensures QuadrantCellsBefore(m, qd, v, Square(qd.upperLeft.row, qd.upperLeft.col)) == {}
  {
  }

  /** A 4×4 puzzle whose only repeat is the value 1 twice in the bottom-right quadrant. */
  function RepeatOutsideFirstQuadrant(): (m: Matrix)
    ensures IsSquare(m) && |m| == 4
  {
    [[0, 0, 0, 0], [0, 0, 0, 0], [0, 0, 1, 0], [0, 0, 0, 1]]
  }

  /** The as-written `isSolvable` condition accepts RepeatOutsideFirstQuadrant, although
      squares (2, 2) and (3, 3) share a quadrant and both hold 1. */
  lemma AsWrittenMissesQuadrantRepeat()
    ensures var m := RepeatOutsideFirstQuadrant();
      PerfectSquare(|m|) &&
      (forall r :: 0 <= r < |m| ==> !HasRepeat(m[r])) &&
      (forall c :: 0 <= c < |m| ==> !HasRepeat(Column(m, c))) &&
      !QuadrantHasRepeat(m, QuadrantFor(|m|, 0, 0)) &&
      AllFillable(m) &&
      !NoConflict(m)
  {
    IsqrtOfSquare(2);
    ExampleLinesClean();
    ExampleFirstQuadrantClean();
    ExampleFillable();
    ExampleConflict();
  }

  lemma ExampleLinesClean()
    ensures var m := RepeatOutsideFirstQuadrant();
      (forall r :: 0 <= r < 4 ==> !HasRepeat(m[r])) &&
      (forall c :: 0 <= c < 4 ==> !HasRepeat(Column(m, c)))
  {
    var m := RepeatOutsideFirstQuadrant();
    forall r | 0 <= r < 4 ensures !HasRepeat(m[r]) {
      assert forall k :: 0 <= k < 4 && k != r ==> m[r][k] == 0;
    }
    forall c | 0 <= c < 4 ensures !HasRepeat(Column(m, c)) {
      assert forall k :: 0 <= k < 4 && k != c ==> Column(m, c)[k] == 0;
    }
  }

  lemma ExampleFirstQuadrantClean()
    ensures !QuadrantHasRepeat(RepeatOutsideFirstQuadrant(), QuadrantFor(4, 0, 0))
  {
    var m := RepeatOutsideFirstQuadrant();
    IsqrtOfSquare(2);
    var first := QuadrantFor(4, 0, 0);
    assert first == Quadrant(Square(0, 0), Square(1, 1));
    forall p ensures !RepeatedIn(m, first, p) {
      if InGrid(m, p) && InQuadrant(first, p) {
        assert At(m, p) == 0;
      }
    }
  }

  lemma ExampleFillable()
    ensures AllFillable(RepeatOutsideFirstQuadrant())
  {
    var m := RepeatOutsideFirstQuadrant();
    forall p | InGrid(m, p) && At(m, p) == 0 ensures Candidates(m, p.row, p.col) != [] {
      assert forall a, b :: 0 <= a < 4 && 0 <= b < 4 ==> m[a][b] == 0 || m[a][b] == 1;
      assert 2 !in Forbidden(m, p.row, p.col);
      assert 2 in Candidates(m, p.row, p.col);
    }
  }

  lemma ExampleConflict()
    ensures !NoConflict(RepeatOutsideFirstQuadrant())
  {
    var m := RepeatOutsideFirstQuadrant();
    ExampleBlocks();
    assert Clash(m, Square(2, 2), Square(3, 3));
  }

  lemma ExampleBlocks()
    ensures BlockStart(4, 2) == 2 && BlockStart(4, 3) == 2
  {
    IsqrtOfSquare(2);
    assert Isqrt(4) == 2;
  }

  class Sudoku {
    var matrix: Matrix

    /** What construction guarantees: a square matrix with at least four rows. */
    ghost predicate Valid()
      reads this
    {
      IsSquare(matrix) && |matrix| >= 4
    }

    /** Stores the matrix without checking it. The checked entry point that models
        `new Sudoku($matrix)` is Create, which calls this only once the matrix passes. */
    constructor (m: Matrix)
      ensures matrix == m
    {
      matrix := m;
    }

    /** `new Sudoku($matrix)`: rejects a non-square matrix, then one smaller than 4×4,
        and otherwise stores the matrix unchanged (repeated values included). */
    static method Create(m: Matrix) returns (r: Result<Sudoku, Error>)
      ensures !IsSquare(m) ==> r == Err(NotSquareMatrix)
      ensures IsSquare(m) && (|m| < 4 || |m[0]| < 4) ==> r == Err(TooSmallMatrix)
      ensures IsSquare(m) && |m| >= 4 ==> r.Ok? && fresh(r.value) && r.value.matrix == m && r.value.Valid()
    {
      var square := IsSquareMatrix(m);
      if !square {
        return Err(NotSquareMatrix);
      }
      if !IsBiggerThan4x4(m) {
        return Err(TooSmallMatrix);
      }
      var s := new Sudoku(m);
      return Ok(s);
    }

    /** `clone`: a fresh grid with the same squares. */
    method Clone() returns (c: Sudoku)
      ensures fresh(c) && c.matrix == matrix
    {
      c := new Sudoku(matrix);
    }

    function RowCount(): nat
      reads this
    {
      |matrix|
    }

    function ValueForSquare(row: nat, col: nat): int
      reads this
      requires Valid() && row < |matrix| && col < |matrix|
    {
      matrix[row][col]
    }

    predicate IsEmptySquare(row: nat, col: nat)
      reads this
      requires Valid() && row < |matrix| && col < |matrix|
    {
      matrix[row][col] == 0
    }

    /** `getQuadrantForSquare`, the public name the Solver uses for `getQuadrantFor`. */
    function QuadrantForSquare(row: nat, col: nat): Quadrant
      reads this
      requires Valid()
    {
      QuadrantFor(|matrix|, row, col)
    }

    predicate IsSolved()
      reads this
    {
      Grid.IsSolved(matrix)
    }

    /** `isValueValidForSquare`: the value is not already in the square's row, column or quadrant. */
    predicate IsValueValidForSquare(row: nat, col: nat, value: int)
      reads this
      requires Valid() && row < |matrix|
    {
      value !in Forbidden(matrix, row, col)
    }

    /** `setValueForSquare`: refuses a filled square, then a value already present in
        the square's row, column or quadrant; otherwise writes the value into that
        one square. */
    method SetValueForSquare(row: nat, col: nat, value: int) returns (res: Outcome<Error>)
      requires Valid() && row < |matrix| && col < |matrix|
      modifies this
      ensures Valid()
      ensures old(matrix[row][col]) != 0 ==> res == Fail(SquareAlreadyFilled) && matrix == old(matrix)
      ensures old(matrix[row][col]) == 0 && value in old(Forbidden(matrix, row, col)) ==>
        res == Fail(InvalidValueForSquare) && matrix == old(matrix)
      ensures old(matrix[row][col]) == 0 && value !in old(Forbidden(matrix, row, col)) ==>
        res == Pass && matrix == Write(old(matrix), Square(row, col), value)
    {
      if !IsEmptySquare(row, col) {
        return Fail(SquareAlreadyFilled);
      }
      if !IsValueValidForSquare(row, col, value) {
        return Fail(InvalidValueForSquare);
      }
      matrix := Write(matrix, Square(row, col), value);
      return Pass;
    }

    /** `getValuesInQuadrant`: the non-zero values of the box, walked row by row. */
    method GetValuesInQuadrant(qd: Quadrant) returns (vals: seq<int>)
      requires Valid() && BoxInside(matrix, qd)
      ensures ToSet(vals) == QuadrantValues(matrix, qd)
    {
      vals := [];
      assert ToSet(vals) == {};
      QuadrantValuesNone(matrix, qd);
      var i := qd.upperLeft.row;
      while i <= qd.bottomRight.row
        invariant qd.upperLeft.row <= i <= qd.bottomRight.row + 1
        invariant ToSet(vals) == QuadrantValuesBefore(matrix, qd, Square(i, qd.upperLeft.col))
      {
        var j := qd.upperLeft.col;
        while j <= qd.bottomRight.col
          invariant qd.upperLeft.col <= j <= qd.bottomRight.col + 1
          invariant ToSet(vals) == QuadrantValuesBefore(matrix, qd, Square(i, j))
        {
          QuadrantValuesStep(matrix, qd, i, j);
          if !IsEmptySquare(i, j) {
            assert ToSet(vals + [ValueForSquare(i, j)]) == ToSet(vals) + {ValueForSquare(i, j)};
            vals := vals + [ValueForSquare(i, j)];
          }
          j := j + 1;
        }
        QuadrantValuesNextRow(matrix, qd, i);
        i := i + 1;
      }
      QuadrantValuesAll(matrix, qd);
    }

    /** `getEmptySquares`: exactly the empty squares, in row-major order. */
    method GetEmptySquares() returns (es: seq<Square>)
      requires Valid()
      ensures forall k :: 0 <= k < |es| ==> InGrid(matrix, es[k]) && At(matrix, es[k]) == 0
      ensures forall p :: InGrid(matrix, p) && At(matrix, p) == 0 ==> p in es
      ensures forall a, b :: 0 <= a < b < |es| ==> Before(es[a], es[b])
    {
      es := [];
      var n := RowCount();
      for i := 0 to n
        invariant forall k :: 0 <= k < |es| ==> InGrid(matrix, es[k]) && At(matrix, es[k]) == 0 && es[k].row < i
        invariant forall p :: InGrid(matrix, p) && At(matrix, p) == 0 && p.row < i ==> p in es
        invariant forall a, b :: 0 <= a < b < |es| ==> Before(es[a], es[b])
      {
        for j := 0 to n
          invariant forall k :: 0 <= k < |es| ==> InGrid(matrix, es[k]) && At(matrix, es[k]) == 0 && Before(es[k], Square(i, j))
          invariant forall p :: InGrid(matrix, p) && At(matrix, p) == 0 && Before(p, Square(i, j)) ==> p in es
          invariant forall a, b :: 0 <= a < b < |es| ==> Before(es[a], es[b])
        {
          if IsEmptySquare(i, j) {
            es := es + [Square(i, j)];
          }
        }
      }
    }

    /** `howManyOfValueAreInQuadrant`: the number of squares of the box holding value. */
    method HowManyOfValueAreInQuadrant(value: int, qd: Quadrant) returns (count: nat)
      requires Valid() && BoxInside(matrix, qd)
      ensures count == |QuadrantCells(matrix, qd, value)|
    {
      count := 0;
      QuadrantCellsAll(matrix, qd, value);
      var i := qd.upperLeft.row;
      while i <= qd.bottomRight.row
        invariant qd.upperLeft.row <= i <= qd.bottomRight.row + 1
        invariant count == |QuadrantCellsBefore(matrix, qd, value, Square(i, qd.upperLeft.col))|
      {
        var j := qd.upperLeft.col;
        while j <= qd.bottomRight.col
          invariant qd.upperLeft.col <= j <= qd.bottomRight.col + 1
          invariant count == |QuadrantCellsBefore(matrix, qd, value, Square(i, j))|
        {
          QuadrantCellsStep(matrix, qd, value, i, j);
          if ValueForSquare(i, j) == value {
            count := count + 1;
          }
          j := j + 1;
        }
        QuadrantCellsNextRow(matrix, qd, value, i);
        i := i + 1;
      }
    }

    /** `hasRepeatedNumbersInQuadrant`: some filled square of the box shares its value with another. */
    method HasRepeatedNumbersInQuadrant(qd: Quadrant) returns (b: bool)
      requires Valid() && BoxInside(matrix, qd)
      ensures b <==> QuadrantHasRepeat(matrix, qd)
    {
      var i := qd.upperLeft.row;
      while i <= qd.bottomRight.row
        invariant qd.upperLeft.row <= i <= qd.bottomRight.row + 1
        invariant forall x :: Before(x, Square(i, qd.upperLeft.col)) ==> !RepeatedIn(matrix, qd, x)
      {
        var j := qd.upperLeft.col;
        while j <= qd.bottomRight.col
          invariant qd.upperLeft.col <= j <= qd.bottomRight.col + 1
          invariant forall x :: Before(x, Square(i, j)) ==> !RepeatedIn(matrix, qd, x)
        {
          var value := ValueForSquare(i, j);
          var here := Square(i, j);
          var count := HowManyOfValueAreInQuadrant(value, qd);
          assert here in QuadrantCells(matrix, qd, value);
          CardMoreThanOne(QuadrantCells(matrix, qd, value), here);
          if !IsEmptySquare(i, j) && count > 1 {
            var other :| other in QuadrantCells(matrix, qd, value) && other != here;
            assert RepeatedIn(matrix, qd, here);
            return true;
          }
          forall s | InGrid(matrix, s) && InQuadrant(qd, s) && s != here && At(matrix, s) == value
            ensures value == 0
          {
            assert s in QuadrantCells(matrix, qd, value);
          }
          j := j + 1;
        }
        i := i + 1;
      }
      return false;
    }

    /** `hasRepeatedNumbersInRow`: a filled square of the row whose value occurs again in it. */
    method HasRepeatedNumbersInRow(row: nat) returns (b: bool)
      requires Valid() && row < |matrix|
      ensures b <==> HasRepeat(matrix[row])
    {
      var line := matrix[row];
      for col := 0 to RowCount()
        invariant forall k :: 0 <= k < col && line[k] != 0 ==> forall j :: 0 <= j < |line| && j != k ==> line[j] != line[k]
      {
        OccursElsewhere(line, col);
        if !IsEmptySquare(row, col) && Occurrences(line, line[col]) > 1 {
          return true;
        }
      }
      return false;
    }

    /** `hasRepeatedNumbersInColumn`: the same check on `array_column($matrix, $col)`. */
    method HasRepeatedNumbersInColumn(col: nat) returns (b: bool)
      requires Valid() && col < |matrix|
      ensures b <==> HasRepeat(Column(matrix, col))
    {
      var line := Column(matrix, col);
      for row := 0 to RowCount()
        invariant forall k :: 0 <= k < row && line[k] != 0 ==> forall j :: 0 <= j < |line| && j != k ==> line[j] != line[k]
      {
        OccursElsewhere(line, row);
        if !IsEmptySquare(row, col) && Occurrences(line, line[row]) > 1 {
          return true;
        }
      }
      return false;
    }

    /** `hasRepeatedNumbersPerRow`: some row repeats a non-zero value. */
    method HasRepeatedNumbersPerRow() returns (b: bool)
      requires Valid()
      ensures b <==> exists r :: 0 <= r < |matrix| && HasRepeat(matrix[r])
    {
      for i := 0 to RowCount()
        invariant forall r :: 0 <= r < i ==> !HasRepeat(matrix[r])
      {
        var repeated := HasRepeatedNumbersInRow(i);
        if repeated {
          return true;
        }
      }
      return false;
    }

    /** `hasRepeatedNumbersPerColumn`: some column repeats a non-zero value. */
    method HasRepeatedNumbersPerColumn() returns (b: bool)
      requires Valid()
      ensures b <==> exists c :: 0 <= c < |matrix| && HasRepeat(Column(matrix, c))
    {
      for i := 0 to RowCount()
        invariant forall c :: 0 <= c < i ==> !HasRepeat(Column(matrix, c))
      {
        var repeated := HasRepeatedNumbersInColumn(i);
        if repeated {
          return true;
        }
      }
      return false;
    }

    /** `buildQuadrants` with the block indices scaled to square coordinates:
        the list holds the quadrant of every square and nothing else. */
    method BuildQuadrants() returns (quads: seq<Quadrant>)
      requires Valid() && PerfectSquare(|matrix|)
      ensures forall k :: 0 <= k < |quads| ==> BoxInside(matrix, quads[k])
      ensures forall k :: 0 <= k < |quads| ==> IsQuadrantOf(matrix, quads[k])
      ensures forall p :: InGrid(matrix, p) ==> QuadrantFor(|matrix|, p.row, p.col) in quads
    {
      var n := RowCount();
      var q := Isqrt(n);
      quads := [];
      for i := 0 to q
        invariant ListsQuadrants(matrix, quads) && CoversBlocks(matrix, quads, i, 0)
      {
        for j := 0 to q
          invariant ListsQuadrants(matrix, quads) && CoversBlocks(matrix, quads, i, j)
        {
          var corner := BlockCorner(n, i, j);
          CoverStep(matrix, quads, i, j);
          quads := quads + [QuadrantFor(n, corner.row, corner.col)];
        }
        CoverNextRow(matrix, quads, i);
      }
      CoverAll(matrix, quads);
    }

    /** `buildQuadrants` as written: it hands the block indices i, j < q to
        `getQuadrantFor` as if they were square coordinates, so each of the N
        entries is the top-left quadrant. */
    method BuildQuadrantsAsWritten() returns (quads: seq<Quadrant>)
      requires Valid() && PerfectSquare(|matrix|)
      ensures |quads| == |matrix|
      ensures forall k :: 0 <= k < |quads| ==> quads[k] == QuadrantFor(|matrix|, 0, 0)
    {
      var n := RowCount();
      var q := Isqrt(n);
      quads := [];
      for i := 0 to q
        invariant |quads| == i * q
        invariant forall k :: 0 <= k < |quads| ==> quads[k] == QuadrantFor(n, 0, 0)
      {
        for j := 0 to q
          invariant |quads| == i * q + j
          invariant forall k :: 0 <= k < |quads| ==> quads[k] == QuadrantFor(n, 0, 0)
        {
          FirstBlock(n, i);
          FirstBlock(n, j);
          FirstBlock(n, 0);
          quads := quads + [QuadrantFor(n, i, j)];
        }
      }
    }

    /** `hasRepeatedNumbersPerQuadrant`, over the quadrant list `buildQuadrants` produced. */
    method HasRepeatedNumbersPerQuadrant(quads: seq<Quadrant>) returns (b: bool)
      requires Valid() && forall k :: 0 <= k < |quads| ==> BoxInside(matrix, quads[k])
      ensures b <==> exists k :: 0 <= k < |quads| && QuadrantHasRepeat(matrix, quads[k])
    {
      for k := 0 to |quads|
        invariant forall t :: 0 <= t < k ==> !QuadrantHasRepeat(matrix, quads[t])
      {
        var repeated := HasRepeatedNumbersInQuadrant(quads[k]);
        if repeated {
          return true;
        }
      }
      return false;
    }

    /** `buildPossibleValues`: `range(1, N)`. */
    function BuildPossibleValues(): seq<int>
      reads this
    {
      OneTo(|matrix|)
    }

    /** `getForbiddenValuesByRow`: the row without its zeros. */
    function GetForbiddenValuesByRow(row: nat): (vals: seq<int>)
      reads this
      requires Valid() && row < |matrix|
      ensures ToSet(vals) == RowValues(matrix, row)
    {
      Without(matrix[row], {0})
    }

    /** `getForbiddenValuesByColumn`: the column without its zeros. */
    function GetForbiddenValuesByColumn(col: nat): (vals: seq<int>)
      reads this
      requires Valid() && col < |matrix|
      ensures ToSet(vals) == ColumnValues(matrix, col)
    {
      var vals := Without(Column(matrix, col), {0});
      assert forall v :: v in vals <==> v in ColumnValues(matrix, col) by {
        forall v | v in ColumnValues(matrix, col) ensures v in vals {
          var i :| 0 <= i < |matrix| && col < |matrix[i]| && matrix[i][col] != 0 && matrix[i][col] == v;
          assert Column(matrix, col)[i] == v;
        }
      }
      vals
    }

    /** `getForbiddenValuesByQuadrant`: the values of the square's quadrant. */
    method GetForbiddenValuesByQuadrant(row: nat, col: nat) returns (vals: seq<int>)
      requires Valid() && PerfectSquare(|matrix|) && row < |matrix| && col < |matrix|
      ensures ToSet(vals) == QuadrantValues(matrix, QuadrantFor(|matrix|, row, col))
    {
      vals := GetValuesInQuadrant(QuadrantForSquare(row, col));
    }

    /** `getPossibleValuesForSquare`: 1..N with the row's, column's and quadrant's
        values removed, ascending. */
    method GetPossibleValuesForSquare(row: nat, col: nat) returns (vals: seq<int>)
      requires Valid() && PerfectSquare(|matrix|) && row < |matrix| && col < |matrix|
      ensures vals == Candidates(matrix, row, col)
    {
      var byRow := GetForbiddenValuesByRow(row);
      var byColumn := GetForbiddenValuesByColumn(col);
      var byQuadrant := GetForbiddenValuesByQuadrant(row, col);
      var forbidden := byRow + byColumn + byQuadrant;
      ToSetConcat(byRow, byColumn);
      ToSetConcat(byRow + byColumn, byQuadrant);
      vals := RemoveForbiddenValues(forbidden, BuildPossibleValues());
    }

    /** `isSquareFillable`: the square has at least one candidate. */
    method IsSquareFillable(row: nat, col: nat) returns (b: bool)
      requires Valid() && PerfectSquare(|matrix|) && row < |matrix| && col < |matrix|
      ensures b <==> Candidates(matrix, row, col) != []
    {
      var vals := GetPossibleValuesForSquare(row, col);
      b := vals != [];
    }

    /** `emptySquaresAreFillable`: every empty square has a candidate. */
    method EmptySquaresAreFillable() returns (b: bool)
      requires Valid() && PerfectSquare(|matrix|)
      ensures b <==> AllFillable(matrix)
    {
      var es := GetEmptySquares();
      assert ListsEmptySquares(matrix, es);
      for k := 0 to |es|
        invariant forall t :: 0 <= t < k ==> Candidates(matrix, es[t].row, es[t].col) != []
      {
        var fillable := IsSquareFillable(es[k].row, es[k].col);
        if !fillable {
          Unfillable(matrix, es[k]);
          return false;
        }
      }
      EveryEmptySquareListed(matrix, es);
      return true;
    }

    /** `isSolvable` with every quadrant checked: no row, column or quadrant repeats
        a value and every empty square has a candidate. */
    method IsSolvable() returns (b: bool)
      requires Valid() && PerfectSquare(|matrix|)
      ensures b <==> NoConflict(matrix) && AllFillable(matrix)
    {
      var rowRepeat := HasRepeatedNumbersPerRow();
      var columnRepeat := HasRepeatedNumbersPerColumn();
      var quads := BuildQuadrants();
      var quadrantRepeat := HasRepeatedNumbersPerQuadrant(quads);
      var fillable := EmptySquaresAreFillable();
      NoConflictIff(matrix);
      if quadrantRepeat {
        ghost var k :| 0 <= k < |quads| && QuadrantHasRepeat(matrix, quads[k]);
        ghost var p :| InGrid(matrix, p) && quads[k] == QuadrantFor(|matrix|, p.row, p.col);
      } else {
        forall p | InGrid(matrix, p) ensures !QuadrantHasRepeat(matrix, QuadrantFor(|matrix|, p.row, p.col)) {
          ghost var k :| 0 <= k < |quads| && quads[k] == QuadrantFor(|matrix|, p.row, p.col);
        }
      }
      b := !rowRepeat && !columnRepeat && !quadrantRepeat && fillable;
    }

    /** `isSolvable` as written: only the top-left quadrant is checked for repeats. */
    method IsSolvableAsWritten() returns (b: bool)
      requires Valid() && PerfectSquare(|matrix|)
      ensures b <==>
        (forall r :: 0 <= r < |matrix| ==> !HasRepeat(matrix[r])) &&
        (forall c :: 0 <= c < |matrix| ==> !HasRepeat(Column(matrix, c))) &&
        !QuadrantHasRepeat(matrix, QuadrantFor(|matrix|, 0, 0)) &&
        AllFillable(matrix)
    {
      var rowRepeat := HasRepeatedNumbersPerRow();
      var columnRepeat := HasRepeatedNumbersPerColumn();
      var quads := BuildQuadrantsAsWritten();
      assert BoxInside(matrix, QuadrantFor(|matrix|, 0, 0));
      var quadrantRepeat := HasRepeatedNumbersPerQuadrant(quads);
      var fillable := EmptySquaresAreFillable();
      if !quadrantRepeat {
        assert quads[0] == QuadrantFor(|matrix|, 0, 0);
      }
      b := !rowRepeat && !columnRepeat && !quadrantRepeat && fillable;
    }
  }
}
