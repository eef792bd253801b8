# Sudoku solver core, modelled in Dafny

This project models the core of `SudokuSolver.java`:

- how each cell's recognised text is reduced to one digit;
- how the 81 digits fill the working grid and the copy of the givens, row by row;
- the placement check `isPossible`;
- the backtracking search `answerPuzzle`;
- the status flag `isPuzzleSolved` that the drawing step clears;
- the "Not solvable" zero check in `main`.

The model has four modules:

- `Grid` (`grid.dfy`) holds the board as a value, `seq<seq<int>>` with 0 for an empty cell, and the relations between cells. A *peer* is another cell in the same row, column or 3x3 box. `Possible` is the placement check written as a predicate. `Completion(b, s)` says that `s` fills every empty cell of `b` with 1..9, keeps every given, and gives no formerly empty cell the value of one of its peers.
- `Search` (`search.dfy`) is the backtracking search written as a pair of functions, `Solve` and `TryFrom`. The search picks the first empty cell in row-major order and tries 1..9 in order. The module proves that the search succeeds exactly when a completion exists, and that it then returns one.
- `Ocr` (`ocr.dfy`) normalises the recognised text of a cell and builds the grid from the 81 texts in row-major order.
- `Solver` (`solver.dfy`) is the class `SudokuSolver`. It has the two `int[9][9]` arrays `grid` (the source's `sudokuArray`) and `givens` (`sudokuCopy`), plus the flag `isPuzzleSolved`. Ghost fields `board` and `given` mirror the two arrays as board values. Each in-place method is proved against the functions above: `AnswerPuzzle` returns `Solve(old(board)).Some?` and leaves the board at the solution, or restores it on failure.

The search terminates on the set of empty cells, which shrinks strictly with every placement.

Two behaviours of the code may differ from what one would expect of a Sudoku solver:

- **Conflicting givens.** One might expect a grid whose givens repeat a digit within a row, column or box to be reported unsolvable. The code never compares two givens with each other: the placement check runs only for empty cells. A full grid is returned as solved whatever it holds, which `Search.FullInconsistentAccepted` shows. When the grid still has empty cells, a conflict between givens makes the search fail only if it leaves some empty cell without a usable digit.
- **Digits out of range.** One might expect a check that rejects cell values outside 0..9. None is needed: each cell's text is reduced to a single character `'0'..'9'` before it is parsed, and `Ocr.Ingest` proves every value lies in 0..9.

## Model

| member | source | states |
|---|---|---|
| Grid.FirstEmptyFrom | src/SudokuSolver.java:122-124 | the row-major scan from (r, c): when it finds a cell, that cell is on the board and empty (its being the first is FirstEmptyFromIsFirst) |
| Grid.FirstEmpty | src/SudokuSolver.java:122-124 | the scan of the whole board: a cell it finds is on the board and empty |
| Grid.BoxOrigin | src/SudokuSolver.java:103-104 | `floorDiv(x, 3) * 3` is a multiple of 3 at most x and within 3 of it: the first row or column of x's box |
| Grid.Possible | src/SudokuSolver.java:86-117 | the placement check as a predicate: v is not in row r, not in column c and not in the 3x3 box of (r, c); PossibleIffNoPeerHolds states it in terms of peers |
| Grid.Place | src/SudokuSolver.java:128 | writing v into (r, c) gives v at (r, c) and leaves every other cell unchanged |
| Grid.PlaceUndo | src/SudokuSolver.java:134 | resetting a cell to 0 after a placement into an empty cell gives back the board as it was before the placement |
| Grid.PlaceShrinksEmpties | src/SudokuSolver.java:124-131 | filling an empty cell with a non-zero digit strictly shrinks the set of empty cells, so the recursion terminates |
| Grid.FirstEmptyFromIsFirst | src/SudokuSolver.java:122-124 | the scan from (r, c) stops at an empty cell; it never comes before (r, c) in row-major order; every cell it passes over is filled |
| Grid.FirstEmptyNoneIffFull | src/SudokuSolver.java:122-142 | the scan finds no empty cell exactly when the board has no 0 |
| Grid.InBoxSameThirds | src/SudokuSolver.java:103-104 | a cell is in the box whose origin is `floorDiv(x, 3) * 3` exactly when its row and column fall in the same thirds |
| Grid.PossibleIffNoPeerHolds | src/SudokuSolver.java:86-117 | for an empty cell and a non-zero digit, the placement check holds exactly when no peer of the cell holds the digit |
| Grid.CompletionIsFull | src/SudokuSolver.java:142 | a completion has no 0 anywhere |
| Grid.FullBoardCompletion | src/SudokuSolver.java:142 | a full board is its own and only completion |
| Grid.CompletionOfConsistentIsSolution | src/SudokuSolver.java:142 | with givens that do not conflict, a completion is a solved Sudoku: 1..9 everywhere, no two peers equal |
| Search.Solve | src/SudokuSolver.java:120-143 | answerPuzzle as a function: the first empty cell in row-major order is tried with 1..9, or the board is returned when it is full; a result is a 9x9 board, and SolveCorrect states what it means |
| Search.TryFrom | src/SudokuSolver.java:126-138 | the candidate loop from digit v on: a digit that passes the check is placed and the rest is solved, with the next digit tried on failure and no result after 9 |
| Search.TryCompletionValue | src/SudokuSolver.java:127-131 | the digit a completion gives the cell passes the check, and the search with it placed succeeds |
| Search.CompletionOfPlacement | src/SudokuSolver.java:127-131 | if a placement passed the check, a completion of the board after the placement completes the board before it |
| Search.CompletionAfterPlacement | src/SudokuSolver.java:127-131 | placing the value a completion gives an empty cell keeps that completion valid |
| Search.PossibleFromCompletion | src/SudokuSolver.java:127 | the value a completion gives an empty cell passes the placement check |
| Search.TryFromSound | src/SudokuSolver.java:126-138 | a success of the candidate loop from digit v on is a completion of the board |
| Search.SolveSound | src/SudokuSolver.java:120-143 | when the search succeeds, its result completes the input: givens kept, empty cells filled with 1..9, and each placed digit different from all of its peers |
| Search.TryFromComplete | src/SudokuSolver.java:126-138 | if a completion puts s at (r, c), the candidate loop started at any digit up to s succeeds |
| Search.SolveComplete | src/SudokuSolver.java:120-143 | if the board has a completion, the search succeeds |
| Search.SolveCorrect | src/SudokuSolver.java:120-143 | the search succeeds if and only if the board has a completion, and it then returns one |
| Search.SolveKeepsGivens | src/SudokuSolver.java:124 | on success, every non-zero cell of the input is unchanged and no cell is 0 |
| Search.SolveFull | src/SudokuSolver.java:142 | on a board with no 0 the search returns true at once and changes nothing |
| Search.SolveIdempotent | src/SudokuSolver.java:142 | searching again from a result returns that same result |
| Search.SolveConsistentIsSolution | src/SudokuSolver.java:120-143 | with givens that do not conflict, a successful search returns a valid Sudoku solution |
| Search.FullInconsistentAccepted | src/SudokuSolver.java:142 | a full board that repeats a digit in every row is returned unchanged as a success |
| Ocr.DigitsOnly | src/SudokuSolver.java:45 | the stripped text is no longer than the input and holds only '0'..'9' |
| Ocr.DigitsOnlyAppend | src/SudokuSolver.java:45 | stripping works character by character: the kept digits of s + t are those of s followed by those of t, so every digit is kept in order |
| Ocr.DigitsOnlyChar | src/SudokuSolver.java:45 | a single character is kept exactly when it is a digit |
| Ocr.DigitsOnlyEmpty | src/SudokuSolver.java:45-50 | stripping leaves nothing exactly when the text has no digit |
| Ocr.DigitsOnlyHead | src/SudokuSolver.java:45 | after stripping, the first character is the text's first digit |
| Ocr.DigitsOnlyOfDigits | src/SudokuSolver.java:45 | a text of digits only is kept as it is |
| Ocr.Normalize | src/SudokuSolver.java:44-53 | the result is exactly one character in '0'..'9': "0" when the text has no digit, otherwise the text's first digit |
| Ocr.NormalizeIdempotent | src/SudokuSolver.java:44-53 | normalising an already normalised text changes nothing |
| Ocr.ParseDigit | src/SudokuSolver.java:71 | `Integer.parseInt` of a one-digit text gives a value in 0..9 |
| Ocr.ParseDigitRoundTrip | src/SudokuSolver.java:71 | parsing a one-digit text and printing a digit 0..9 are inverse to each other |
| Ocr.CellValue | src/SudokuSolver.java:71 | a cell's value is in 0..9: 0 when its text has no digit, otherwise the value of the text's first digit |
| Ocr.Ingest | src/SudokuSolver.java:65-80 | the 81 texts make a 9x9 grid whose every value is in 0..9 |
| Ocr.IngestRowMajor | src/SudokuSolver.java:70-79 | text number k lands in row k / 9, column k % 9 |
| Solver.SudokuSolver.constructor | src/SudokuSolver.java:21-25 | both grids start with all 81 cells 0, and the flag starts true |
| Solver.SudokuSolver.GetCellOCR | src/SudokuSolver.java:65-80 | afterwards the grid and the copy both hold the row-major ingestion of the 81 normalised texts |
| Solver.SudokuSolver.IsPossible | src/SudokuSolver.java:86-117 | the answer is the placement predicate on the current grid; the method changes nothing |
| Solver.SudokuSolver.AnswerPuzzle | src/SudokuSolver.java:120-143 | the result is whether the reference search succeeds; on true the grid holds the search's result, on false the grid is restored; the copy of the givens is untouched |
| Solver.SudokuSolver.PlaceAndSolve | src/SudokuSolver.java:128-135 | placing v and recursing succeeds exactly when the search succeeds on the board with v placed; on failure the cell is reset and the grid restored |
| Solver.SudokuSolver.DrawSolutions | src/SudokuSolver.java:154-172 | the flag ends true exactly when it was true and no cell blank in the copy is still 0 in the grid; only the flag changes |
| Solver.SudokuSolver.AnyZero | src/SudokuSolver.java:190 | the check holds exactly when some cell of the grid is 0 |
| Solver.SudokuSolver.SolveScanned | src/SudokuSolver.java:180-193 | after reading and solving, "Not solvable" is reported exactly when the ingested puzzle has no completion; otherwise the grid completes it, and on failure it still holds the ingested puzzle |
| Solver.BlankLeft | src/SudokuSolver.java:156-168 | the drawing loop's test: some cell that is 0 in the copy is still 0 in the grid, which implies the grid has a 0 |
| Solver.Outcome | src/SudokuSolver.java:187 | the board main ends with: the search's result, or the puzzle unchanged when the search fails; either way every given is kept |
| Solver.BlankLeftIffHasZero | src/SudokuSolver.java:167-168 | when the grid keeps every given, the drawing step finds a blank left exactly when the grid has a 0 |
| Solver.ReportsAgree | src/SudokuSolver.java:190 | after the search, the drawing step's flag and the zero check agree, and both say "solved" exactly when the puzzle has a completion |

## Left out

- The recogniser is not modelled (`src/SudokuSolver.java:29-42`). This covers the Tesseract instance, its data path and language, and the cell image files. The 81 recognised texts are a parameter of `GetCellOCR`.
- The handler for a failed recognition (`:58-60`) is not modelled. It skips the cell, so fewer than 81 texts remain, and `iter.next()` then fails while the grid is being filled. The model requires exactly 81 texts.
- Debug output (`:63`, `:82`, `:191`, `:195`) is left out because it has no effect on state.
- The rendering part of `drawSolutions` is left out: loading the native library, cell sizes, text positions, `putText` and `imwrite` (`:147-151`, `:158-165`, `:175`). Only the loop over the copy and the flag it clears are modelled. `main` never calls `drawSolutions`, so the model's `SolveScanned` does not call it either.
- The static fields become fields of one `SudokuSolver` object. Calling `answerPuzzle` with an array other than `sudokuArray` is not modelled. Its parameter shadows the static field that `isPossible` reads, and `main` passes that same array, so the model uses the single field `grid`.
- Solver.SudokuSolver.AnswerPuzzle: the body of the candidate loop (place, recurse, reset) is the helper method `PlaceAndSolve`, so the source's one method is two mutually recursive methods.
- Solver.SudokuSolver.AnswerPuzzle: its ensures ties the result and the new grid to `Search.Solve`. The properties that follow are stated as lemmas about `Solve` rather than as ensures of the method: success exactly on solvable puzzles, givens kept, no zeros on success, and an immediate true on a full grid. See `Search.SolveCorrect`, `Search.SolveKeepsGivens` and `Search.SolveFull`.
- Stack depth is not modelled. The recursion is at most 81 calls deep.
- `isPuzzleSolved` is never set back to true in the source. The model keeps that, so `DrawSolutions` can only clear the flag.
