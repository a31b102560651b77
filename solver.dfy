/** `Sudoku\Solver`: a greedy solver without backtracking. It keeps no state of its
    own, so its operations are module-level methods over a `Sudoku` object. The
    copies it keeps of the Grid's helpers (`getEmptySquares`, `getValuesInQuadrant`,
    `removeForbiddenValues`, `buildPossibleValues`) are the Sudoku module's members. */
module Solver {
  import opened Wrappers
  import opened Arith
  import opened Seqs
  import opened Grid
  import Sudoku

  // ------------------------------------------------------------ specification

  /** One write of the solver: a value for a square. */
  datatype Move = Move(at: Square, value: int)

  /** An empty square with exactly one candidate. */
  ghost predicate NakedSingle(m: Matrix, p: Square)
  {
    InGrid(m, p) && At(m, p) == 0 && |Candidates(m, p.row, p.col)| == 1
  }

  /** The naked single that comes first in row-major order. */
  ghost predicate FirstNakedSingle(m: Matrix, p: Square)
  {
    NakedSingle(m, p) && forall s :: Before(s, p) ==> !NakedSingle(m, s)
  }

  /** The empty square that comes first in row-major order. */
  ghost predicate FirstEmpty(m: Matrix, p: Square)
  {
    InGrid(m, p) && At(m, p) == 0 && forall s :: InGrid(m, s) && Before(s, p) ==> At(m, s) != 0
  }

  /** What `fillASquare` writes: the first naked single with its candidate, else the
      smallest candidate of the first empty square; nothing when there is no empty
      square or the first one has no candidate. */
  ghost function NextMove(m: Matrix): Option<Move>
  {
    if exists p :: FirstNakedSingle(m, p) then
      var p :| FirstNakedSingle(m, p);
      Some(Move(p, Candidates(m, p.row, p.col)[0]))
    else if exists p :: FirstEmpty(m, p) && Candidates(m, p.row, p.col) != [] then
      var p :| FirstEmpty(m, p) && Candidates(m, p.row, p.col) != [];
      Some(Move(p, Candidates(m, p.row, p.col)[0]))
    else
      None
  }

  /** The grid `buildSolutionFor` ends with: moves are applied until no square is
      empty; None when a move is missing on the way. */
  ghost function Run(m: Matrix): Option<Matrix>
    decreases |EmptyCells(m)|
  {
    if IsSolved(m) then Some(m)
    else
      match NextMove(m)
      case None => None
      case Some(mv) =>
        NextMoveLegal(m);
        WriteFillsOneSquare(m, mv.at, mv.value);
        Run(Write(m, mv.at, mv.value))
  }

  // ---------------------------------------------------------- move lemmas

  /** Every move writes a candidate into an empty square: a value in 1..N that
      its row, column and quadrant do not hold. */
  lemma NextMoveLegal(m: Matrix)
    ensures NextMove(m).Some? ==>
      var mv := NextMove(m).value;
      InGrid(m, mv.at) && At(m, mv.at) == 0 &&
      mv.value in Candidates(m, mv.at.row, mv.at.col) &&
      1 <= mv.value <= |m| && mv.value !in Forbidden(m, mv.at.row, mv.at.col)
  {
    if NextMove(m).Some? {
      var mv := NextMove(m).value;
      assert mv.value == Candidates(m, mv.at.row, mv.at.col)[0];
    }
  }

  /** A non-empty finite set of squares has a first element in row-major order. */
  lemma {:induction false} FirstOf(S: set<Square>) returns (p: Square)
    requires S != {}
    ensures p in S && forall s :: s in S ==> !Before(s, p)
    decreases |S|
  {
    var x :| x in S;
    if S == {x} {
      p := x;
    } else {
      var y := FirstOf(S - {x});
      p := if Before(x, y) then x else y;
      forall s | s in S ensures !Before(s, p) {
        if s != x {
          assert s in S - {x};
        }
      }
    }
  }

  /** Whenever the grid holds a naked single, the move fills the first one with its
      only candidate. */
  lemma NextMoveTakesNakedSingle(m: Matrix, p: Square)
    requires NakedSingle(m, p)
    ensures NextMove(m).Some?
    ensures var mv := NextMove(m).value;
      FirstNakedSingle(m, mv.at) && Candidates(m, mv.at.row, mv.at.col) == [mv.value]
  {
    var singles := set s | s in EmptyCells(m) && |Candidates(m, s.row, s.col)| == 1;
    assert p in singles;
    var f := FirstOf(singles);
    assert FirstNakedSingle(m, f);
    var mv := NextMove(m).value;
    assert |Candidates(m, mv.at.row, mv.at.col)| == 1;
  }

  /** Without a naked single, the move writes the smallest candidate of the first
      empty square. */
  lemma NextMoveFallsBack(m: Matrix, p: Square)
    requires forall s :: !NakedSingle(m, s)
    requires FirstEmpty(m, p) && Candidates(m, p.row, p.col) != []
    ensures NextMove(m) == Some(Move(p, Candidates(m, p.row, p.col)[0]))
    ensures forall v :: v in Candidates(m, p.row, p.col) ==> Candidates(m, p.row, p.col)[0] <= v
  {
    assert !exists s :: FirstNakedSingle(m, s);
    assert FirstEmpty(m, p) && Candidates(m, p.row, p.col) != [];
    var mv := NextMove(m).value;
    assert FirstEmpty(m, mv.at) && mv.value == Candidates(m, mv.at.row, mv.at.col)[0];
    FirstEmptyUnique(m, mv.at, p);
    IncreasingHeadIsLeast(Candidates(m, p.row, p.col));
  }

  lemma FirstEmptyUnique(m: Matrix, p: Square, s: Square)
    requires FirstEmpty(m, p) && FirstEmpty(m, s)
    ensures p == s
  {
  }

  lemma FirstNakedSingleUnique(m: Matrix, p: Square, s: Square)
    requires FirstNakedSingle(m, p) && FirstNakedSingle(m, s)
    ensures p == s
  {
  }

  /** There is no move exactly when no square is a naked single and either no square
      is empty or the first empty square has no candidate. */
  lemma NextMoveNone(m: Matrix)
    ensures NextMove(m).None? <==>
      (forall s :: !NakedSingle(m, s)) &&
      (EmptyCells(m) == {} || exists p :: FirstEmpty(m, p) && Candidates(m, p.row, p.col) == [])
  {
    if exists s :: NakedSingle(m, s) {
      var s :| NakedSingle(m, s);
      NextMoveTakesNakedSingle(m, s);
    } else if EmptyCells(m) != {} {
      var f := FirstEmptyOf(m);
      OnlyFirstEmpty(m, f);
      if Candidates(m, f.row, f.col) != [] {
        NextMoveFallsBack(m, f);
      } else {
        NoMoveAtFirstEmpty(m, f);
      }
    } else {
      assert forall p :: FirstEmpty(m, p) ==> p in EmptyCells(m);
    }
  }

  /** A grid with an empty square has a first one. */
  lemma FirstEmptyOf(m: Matrix) returns (f: Square)
    requires EmptyCells(m) != {}
    ensures FirstEmpty(m, f)
  {
    f := FirstOf(EmptyCells(m));
    assert forall s :: InGrid(m, s) && At(m, s) == 0 ==> s in EmptyCells(m);
  }

  lemma NoMoveAtFirstEmpty(m: Matrix, f: Square)
    requires forall s :: !NakedSingle(m, s)
    requires FirstEmpty(m, f) && Candidates(m, f.row, f.col) == []
    ensures NextMove(m).None?
  {
    OnlyFirstEmpty(m, f);
  }

  lemma OnlyFirstEmpty(m: Matrix, f: Square)
    requires FirstEmpty(m, f)
    ensures forall p :: FirstEmpty(m, p) ==> p == f
  {
    forall p | FirstEmpty(m, p) ensures p == f {
      FirstEmptyUnique(m, p, f);
    }
  }

  /** On a grid whose every empty square has a candidate, an unsolved grid always
      has a move: the first call of `fillASquare` succeeds after `isSolvable`. */
  lemma FillableHasMove(m: Matrix)
    requires AllFillable(m) && !IsSolved(m)
    ensures NextMove(m).Some?
  {
    SolvedIffNoEmptySquare(m);
    NextMoveNone(m);
  }

  lemma ExtendsTransitive(a: Matrix, b: Matrix, c: Matrix)
    requires Extends(a, b) && Extends(b, c)
    ensures Extends(a, c)
  {
    forall p | InGrid(a, p) && At(a, p) != 0 ensures At(c, p) == At(a, p) {
      assert InGrid(b, p);
    }
  }

  /** A completed run ends solved, keeps every filled square of its start and, from a
      grid free of conflicts, ends free of conflicts. */
  lemma {:induction false} RunSolves(m: Matrix)
    requires IsSquare(m)
    ensures Run(m).Some? ==>
      IsSolved(Run(m).value) && Extends(m, Run(m).value) && IsSquare(Run(m).value) &&
      (NoConflict(m) ==> NoConflict(Run(m).value))
    decreases |EmptyCells(m)|
  {
    if !IsSolved(m) && NextMove(m).Some? {
      var mv := NextMove(m).value;
      NextMoveLegal(m);
      WriteFillsOneSquare(m, mv.at, mv.value);
      var m' := Write(m, mv.at, mv.value);
      assert IsSquare(m');
      RunSolves(m');
      assert Extends(m, m');
      if Run(m).Some? {
        ExtendsTransitive(m, m', Run(m').value);
      }
      if NoConflict(m) {
        WriteKeepsNoConflict(m, mv.at, mv.value);
      }
    }
  }

  // ------------------------------------------------------------- operations

  /** `getValuesInRow`: the row's entries, left to right. */
  method GetValuesInRow(s: Sudoku.Sudoku, row: nat) returns (vals: seq<int>)
    requires s.Valid() && row < |s.matrix|
    ensures vals == s.matrix[row]
  {
    vals := [];
    for col := 0 to s.RowCount()
      invariant vals == s.matrix[row][..col]
    {
      vals := vals + [s.ValueForSquare(row, col)];
    }
  }

  /** `getValuesInColumn`: the column's entries, top to bottom. */
  method GetValuesInColumn(s: Sudoku.Sudoku, col: nat) returns (vals: seq<int>)
    requires s.Valid() && col < |s.matrix|
    ensures vals == Column(s.matrix, col)
  {
    vals := [];
    for row := 0 to s.RowCount()
      invariant vals == Column(s.matrix, col)[..row]
    {
      vals := vals + [s.ValueForSquare(row, col)];
    }
  }

  /** `getPossibleValuesForSquare`: the `array_filter`ed row and column values and the
      quadrant values removed from 1..N. */
  method GetPossibleValuesForSquare(s: Sudoku.Sudoku, row: nat, col: nat) returns (vals: seq<int>)
    requires s.Valid() && PerfectSquare(|s.matrix|) && row < |s.matrix| && col < |s.matrix|
    ensures vals == Candidates(s.matrix, row, col)
  {
    var inRow := GetValuesInRow(s, row);
    var inColumn := GetValuesInColumn(s, col);
    var byRow := Without(inRow, {0});
    var byColumn := Without(inColumn, {0});
    assert byRow == s.GetForbiddenValuesByRow(row);
    assert byColumn == s.GetForbiddenValuesByColumn(col);
    var byQuadrant := s.GetValuesInQuadrant(s.QuadrantForSquare(row, col));
    ToSetConcat(byRow, byColumn);
    ToSetConcat(byRow + byColumn, byQuadrant);
    vals := Sudoku.RemoveForbiddenValues(byRow + byColumn + byQuadrant, OneTo(s.RowCount()));
  }

  /** `emptySquaresAreFillable`, with `isSquareFillable` as `!empty(...)`. */
  method EmptySquaresAreFillable(s: Sudoku.Sudoku) returns (b: bool)
    requires s.Valid() && PerfectSquare(|s.matrix|)
    ensures b <==> AllFillable(s.matrix)
  {
    ghost var m := s.matrix;
    var es := s.GetEmptySquares();
    assert ListsEmptySquares(m, es);
    for k := 0 to |es|
      invariant s.matrix == m
      invariant forall t :: 0 <= t < k ==> Candidates(m, es[t].row, es[t].col) != []
    {
      var possible := GetPossibleValuesForSquare(s, es[k].row, es[k].col);
      if possible == [] {
        Unfillable(m, es[k]);
        return false;
      }
      ListedFillable(m, es, k);
    }
    EveryEmptySquareListed(m, es);
    return true;
  }

  lemma ListedFillable(m: Matrix, es: seq<Square>, k: nat)
    requires k < |es| && es[k].row < |m|
    requires forall t :: 0 <= t < k ==> es[t].row < |m| && Candidates(m, es[t].row, es[t].col) != []
    requires Candidates(m, es[k].row, es[k].col) != []
    ensures forall t :: 0 <= t < k + 1 ==> es[t].row < |m| && Candidates(m, es[t].row, es[t].col) != []
  {
  }

  /** `isSolvable`: only the fillability of the empty squares is checked. */
  method IsSolvable(s: Sudoku.Sudoku) returns (b: bool)
    requires s.Valid() && PerfectSquare(|s.matrix|)
    ensures b <==> AllFillable(s.matrix)
  {
    b := EmptySquaresAreFillable(s);
  }

  /** The first square of the list found to be a naked single is the first naked single. */
  lemma FoundNakedSingle(m: Matrix, es: seq<Square>, k: nat)
    requires ListsEmptySquares(m, es) && k < |es| && NakedSingle(m, es[k])
    requires forall t :: 0 <= t < k ==> !NakedSingle(m, es[t])
    ensures NextMove(m) == Some(Move(es[k], Candidates(m, es[k].row, es[k].col)[0]))
  {
    assert forall s :: NakedSingle(m, s) ==> s in es;
    NextMoveTakesNakedSingle(m, es[k]);
    FirstNakedSingleUnique(m, NextMove(m).value.at, es[k]);
  }

  /** When no listed square is a naked single, none is, and the head of the list is
      the first empty square. */
  lemma NoNakedSingle(m: Matrix, es: seq<Square>)
    requires ListsEmptySquares(m, es)
    requires forall t :: 0 <= t < |es| ==> !NakedSingle(m, es[t])
    ensures forall s :: !NakedSingle(m, s)
    ensures es == [] ==> EmptyCells(m) == {}
    ensures es != [] ==> FirstEmpty(m, es[0])
  {
    assert forall p :: p in EmptyCells(m) ==> p in es;
  }

  /** `fillASquare`: applies the next move; false where the source hits a TypeError
      (no empty square, or no candidate for the first one). */
  method FillASquare(s: Sudoku.Sudoku) returns (filled: bool)
    requires s.Valid() && PerfectSquare(|s.matrix|)
    modifies s
    ensures s.Valid()
    ensures filled <==> NextMove(old(s.matrix)).Some?
    ensures filled ==> s.matrix == Write(old(s.matrix), NextMove(old(s.matrix)).value.at, NextMove(old(s.matrix)).value.value)
    ensures !filled ==> s.matrix == old(s.matrix)
  {
    ghost var m := s.matrix;
    var es := s.GetEmptySquares();
    assert ListsEmptySquares(m, es);
    for k := 0 to |es|
      invariant s.matrix == m
      invariant forall t :: 0 <= t < k ==> !NakedSingle(m, es[t])
    {
      var possible := GetPossibleValuesForSquare(s, es[k].row, es[k].col);
      if |possible| == 1 {
        assert NextMove(m) == Some(Move(es[k], possible[0])) &&
          possible[0] !in Forbidden(m, es[k].row, es[k].col) by {
          FoundNakedSingle(m, es, k);
          NextMoveLegal(m);
        }
        var res := s.SetValueForSquare(es[k].row, es[k].col, possible[0]);
        return true;
      }
    }
    if es == [] {
      assert NextMove(m).None? by {
        NoNakedSingle(m, es);
        NextMoveNone(m);
      }
      return false;
    }
    var first := es[0];
    var possible := GetPossibleValuesForSquare(s, first.row, first.col);
    if possible == [] {
      assert NextMove(m).None? by {
        NoNakedSingle(m, es);
        NextMoveNone(m);
      }
      return false;
    }
    assert NextMove(m) == Some(Move(first, possible[0])) &&
      possible[0] !in Forbidden(m, first.row, first.col) by {
      NoNakedSingle(m, es);
      NextMoveFallsBack(m, first);
      NextMoveLegal(m);
    }
    var res := s.SetValueForSquare(first.row, first.col, possible[0]);
    return true;
  }

  /** `buildSolutionFor`: fills a clone until it is solved; None where a fill fails. */
  method BuildSolutionFor(s: Sudoku.Sudoku) returns (r: Option<Sudoku.Sudoku>)
    requires s.Valid() && PerfectSquare(|s.matrix|)
    ensures r.None? <==> Run(s.matrix).None?
    ensures r.Some? ==> fresh(r.value) && r.value.Valid() && r.value.matrix == Run(s.matrix).value
    ensures r.Some? ==> IsSolved(r.value.matrix) && Extends(s.matrix, r.value.matrix)
    ensures r.Some? && NoConflict(s.matrix) ==> NoConflict(r.value.matrix)
  {
    var grid := s.Clone();
    RunSolves(s.matrix);
    while !grid.IsSolved()
      invariant fresh(grid) && grid.Valid() && |grid.matrix| == |s.matrix|
      invariant Run(grid.matrix) == Run(s.matrix)
      decreases |EmptyCells(grid.matrix)|
    {
      ghost var before := grid.matrix;
      var filled := FillASquare(grid);
      if !filled {
        return None;
      }
      NextMoveLegal(before);
      WriteFillsOneSquare(before, NextMove(before).value.at, NextMove(before).value.value);
    }
    return Some(grid);
  }

  /** The three ways `getSolutionFor` ends: null, a solved grid, or a TypeError
      raised inside `fillASquare`. */
  datatype Answer = Unsolvable | Solved(grid: Sudoku.Sudoku) | Stuck

  /** `getSolutionFor`: null exactly when `isSolvable` fails; otherwise the greedy run
      on a clone, so the caller's grid is left as it was. */
  method GetSolutionFor(s: Sudoku.Sudoku) returns (r: Answer)
    requires s.Valid() && PerfectSquare(|s.matrix|)
    ensures r.Unsolvable? <==> !AllFillable(s.matrix)
    ensures r.Stuck? <==> AllFillable(s.matrix) && Run(s.matrix).None?
    ensures r.Solved? ==> fresh(r.grid) && r.grid.Valid() && r.grid.matrix == Run(s.matrix).value
    ensures r.Solved? ==> IsSolved(r.grid.matrix) && Extends(s.matrix, r.grid.matrix)
    ensures r.Solved? && NoConflict(s.matrix) ==> NoConflict(r.grid.matrix)
  {
    var solvable := IsSolvable(s);
    if !solvable {
      return Unsolvable;
    }
    var solution := BuildSolutionFor(s);
    match solution
    case None => return Stuck;
    case Some(grid) => return Solved(grid);
  }
}
