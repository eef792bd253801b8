/** The solver's state and its in-place operations: the grid the digits are
    read into and solved on, the snapshot of the givens, and the flag the
    drawing step clears when a blank cell is left. */
module Solver {
  import opened Grid
  import opened Search
  import opened Ocr

  class SudokuSolver {
    /** The grid being read, solved and reported; the placement check reads
        it and the search writes it, as one shared array. */
    var grid: array2<int>
    /** The givens: a copy of the grid as it was read in. */
    var givens: array2<int>
    var isPuzzleSolved: bool

    /** The cells of grid and of givens, as board values. */
    ghost var board: Board
    ghost var given: Board

    ghost predicate Valid()
      reads this`grid, this`givens, this`board, this`given, grid, givens
    {
      grid.Length0 == 9 && grid.Length1 == 9 &&
      givens.Length0 == 9 && givens.Length1 == 9 &&
      grid != givens &&
      IsBoard(board) && IsBoard(given) &&
      (forall i, j :: IsCell(i, j) ==> grid[i, j] == board[i][j]) &&
      (forall i, j :: IsCell(i, j) ==> givens[i, j] == given[i][j])
    }

    constructor ()
      ensures Valid() && fresh(grid) && fresh(givens)
      ensures board == EmptyBoard() && given == EmptyBoard()
      ensures isPuzzleSolved
    {
      grid := new int[9, 9]((i, j) => 0);
      givens := new int[9, 9]((i, j) => 0);
      isPuzzleSolved := true;
      board := EmptyBoard();
      given := EmptyBoard();
    }

    /** Reads the 81 recognised cell texts, in row-major order, into the grid
        and mirrors each value into the givens. */
    method GetCellOCR(raw: seq<string>)
      requires Valid() && |raw| == 81
      modifies this`board, this`given, grid, givens
      ensures Valid() && board == Ingest(raw) && given == Ingest(raw)
    {
      var cellData := seq(81, k requires 0 <= k < 81 => Normalize(raw[k]));
      var rowCounter, columnCounter := 0, 0;
      var next := 0;
      while rowCounter < 9
        invariant 0 <= rowCounter <= 9 && 0 <= columnCounter < 9
        invariant rowCounter == 9 ==> columnCounter == 0
        invariant next == 9 * rowCounter + columnCounter
        invariant forall i, j ::
                    (0 <= i < 9 && 0 <= j < 9 && (i < rowCounter || (i == rowCounter && j < columnCounter))) ==>
                    grid[i, j] == CellValue(raw[Index(i, j)]) && givens[i, j] == grid[i, j]
        decreases 9 - rowCounter, 9 - columnCounter
      {
        grid[rowCounter, columnCounter] := ParseDigit(cellData[next]);
        givens[rowCounter, columnCounter] := grid[rowCounter, columnCounter];
        next := next + 1;
        columnCounter := columnCounter + 1;
        if columnCounter == 9 {
          columnCounter := 0;
          rowCounter := rowCounter + 1;
        }
      }
      board := Ingest(raw);
      given := Ingest(raw);
      assert forall i, j :: IsCell(i, j) ==> grid[i, j] == board[i][j] && givens[i, j] == given[i][j];
    }

    /** Whether possibleNumber may go in (row, column): it is false exactly
        when the number is already in the row, the column or the 3x3 box. */
    method IsPossible(row: int, column: int, possibleNumber: int) returns (ok: bool)
      requires Valid() && IsCell(row, column)
      ensures ok == Possible(board, row, column, possibleNumber)
    {
      for i := 0 to 9
        invariant forall j :: 0 <= j < i ==> grid[row, j] != possibleNumber
      {
        if grid[row, i] == possibleNumber {
          return false;
        }
      }
      for i := 0 to 9
        invariant forall k :: 0 <= k < i ==> grid[k, column] != possibleNumber
      {
        if grid[i, column] == possibleNumber {
          return false;
        }
      }
      var columnOrigin := BoxOrigin(column);
      var rowOrigin := BoxOrigin(row);
      for i := 0 to 3
        invariant forall p, q :: rowOrigin <= p < rowOrigin + i && columnOrigin <= q < columnOrigin + 3 ==>
                    grid[p, q] != possibleNumber
      {
        for j := 0 to 3
          invariant forall p, q :: (rowOrigin <= p < rowOrigin + i && columnOrigin <= q < columnOrigin + 3) ||
                                   (p == rowOrigin + i && columnOrigin <= q < columnOrigin + j) ==>
                      grid[p, q] != possibleNumber
        {
          if grid[rowOrigin + i, columnOrigin + j] == possibleNumber {
            return false;
          }
        }
      }
      return true;
    }

    /** Fills the empty cells of the grid by backtracking. The result and the
        final grid are those of Solve; on failure the grid is as it was. */
    method AnswerPuzzle() returns (solved: bool)
      requires Valid()
      modifies this`board, grid
      decreases Empties(board), 1
      ensures Valid()
      ensures solved == Solve(old(board)).Some?
      ensures solved ==> board == Solve(old(board)).value
      ensures !solved ==> board == old(board)
    {
      ghost var b := board;
      for row := 0 to 9
        invariant Valid() && board == b
        invariant FirstEmpty(b) == FirstEmptyFrom(b, row, 0)
      {
        for column := 0 to 9
          invariant Valid() && board == b
          invariant FirstEmpty(b) == FirstEmptyFrom(b, row, column)
        {
          if grid[row, column] == 0 {
            var possibleNumber := 1;
            while possibleNumber <= 9
              invariant 1 <= possibleNumber <= 10
              invariant Valid() && board == b
              invariant Solve(b) == TryFrom(b, row, column, possibleNumber)
            {
              var ok := IsPossible(row, column, possibleNumber);
              if ok {
                var found := PlaceAndSolve(row, column, possibleNumber);
                if found {
                  return true;
                }
              }
              possibleNumber := possibleNumber + 1;
            }
            return false;
          }
        }
      }
      return true;
    }

    /** One step of the search: writes v into the empty cell (row, column),
        solves the rest, and clears the cell again when that fails. */
    method PlaceAndSolve(row: int, column: int, v: int) returns (found: bool)
      requires Valid() && IsCell(row, column) && board[row][column] == 0 && 1 <= v <= 9
      modifies this`board, grid
      decreases Empties(board), 0
      ensures Valid()
      ensures found == Solve(Place(old(board), row, column, v)).Some?
      ensures found ==> board == Solve(Place(old(board), row, column, v)).value
      ensures !found ==> board == old(board)
    {
      ghost var b := board;
      grid[row, column] := v;
      board := Place(board, row, column, v);
      PlaceShrinksEmpties(b, row, column, v);
      found := AnswerPuzzle();
      if !found {
        grid[row, column] := 0;
        board := Place(board, row, column, 0);
        PlaceUndo(b, row, column, v);
      }
    }

    /** The status part of drawing the solution: the flag is cleared when a
        cell that was blank in the givens is still 0 in the grid. */
    method DrawSolutions()
      requires Valid()
      modifies this`isPuzzleSolved
      ensures isPuzzleSolved == (old(isPuzzleSolved) && !BlankLeft(given, board))
    {
      for i := 0 to 9
        invariant isPuzzleSolved ==
                    (old(isPuzzleSolved) &&
                     !exists p, q :: 0 <= p < i && 0 <= q < 9 && given[p][q] == 0 && board[p][q] == 0)
      {
        for j := 0 to 9
          invariant isPuzzleSolved ==
                      (old(isPuzzleSolved) &&
                       !exists p, q :: ((0 <= p < i && 0 <= q < 9) || (p == i && 0 <= q < j)) &&
                                       given[p][q] == 0 && board[p][q] == 0)
        {
          if givens[i, j] == 0 {
            if grid[i, j] == 0 {
              isPuzzleSolved := false;
              assert given[i][j] == 0 && board[i][j] == 0;
            }
          }
        }
      }
    }

    /** The zero check of the program's entry: some cell of the grid is 0. */
    predicate AnyZero()
      requires Valid()
      reads this`grid, this`givens, this`board, this`given, grid, givens
      ensures AnyZero() <==> HasZero(board)
    {
      exists i, j :: 0 <= i < 9 && 0 <= j < 9 && grid[i, j] == 0
    }

    /** The program's entry: read the cells, solve, and report whether any
        cell is still 0 ("Not solvable"). */
    method SolveScanned(raw: seq<string>) returns (notSolvable: bool)
      requires Valid() && |raw| == 81
      modifies this`board, this`given, grid, givens
      ensures Valid() && given == Ingest(raw)
      ensures notSolvable <==> !Solvable(Ingest(raw))
      ensures !notSolvable ==> Completion(Ingest(raw), board)
      ensures notSolvable ==> board == Ingest(raw)
    {
      GetCellOCR(raw);
      var _ := AnswerPuzzle();
      notSolvable := AnyZero();
      SolveCorrect(Ingest(raw));
      if Solvable(Ingest(raw)) {
        SolveKeepsGivens(Ingest(raw));
      } else {
        assert board == Ingest(raw);
      }
    }
  }

  /** Some cell blank in the givens g is still 0 in s. */
  predicate BlankLeft(g: Board, s: Board)
    requires IsBoard(g) && IsBoard(s)
    ensures BlankLeft(g, s) ==> HasZero(s)
  {
    exists i, j :: 0 <= i < 9 && 0 <= j < 9 && g[i][j] == 0 && s[i][j] == 0
  }

  /** When s keeps every given of g, the drawing step's flag and the entry's
      zero check agree: a blank is left exactly when some cell is 0. */
  lemma BlankLeftIffHasZero(g: Board, s: Board)
    requires IsBoard(g) && IsBoard(s)
    requires forall i, j :: IsCell(i, j) && g[i][j] != 0 ==> s[i][j] == g[i][j]
    ensures BlankLeft(g, s) <==> HasZero(s)
  {
    if HasZero(s) {
      var i, j :| IsCell(i, j) && s[i][j] == 0;
      assert g[i][j] == 0;
    }
  }

  /** The board the program ends with after reading g: the search result, or
      g itself when the search gives up. */
  function Outcome(g: Board): (s: Board)
    requires IsBoard(g)
    ensures IsBoard(s)
    ensures forall i, j :: IsCell(i, j) && g[i][j] != 0 ==> s[i][j] == g[i][j]
  {
    match Solve(g)
    case Some(solution) => SolveKeepsGivens(g); solution
    case None => g
  }

  /** The drawing step's flag and the entry's zero check report the same
      thing: a blank cell is left exactly when the puzzle has no completion. */
  lemma ReportsAgree(g: Board)
    requires IsBoard(g)
    ensures BlankLeft(g, Outcome(g)) <==> HasZero(Outcome(g))
    ensures HasZero(Outcome(g)) <==> !Solvable(g)
  {
    SolveCorrect(g);
    if Solve(g).Some? {
      SolveKeepsGivens(g);
      BlankLeftIffHasZero(g, Outcome(g));
    } else {
      if !HasZero(g) {
        FullBoardCompletion(g, g);
      }
      BlankLeftIffHasZero(g, g);
    }
  }
}
