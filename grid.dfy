/** The 9x9 Sudoku grid as a value, and the constraint queries asked of it.
    A cell holds 0 when it is empty and a digit 1..9 once it is filled. */
module Grid {

  datatype Option<T> = None | Some(value: T)

  /** Rows of cells: b[i][j] is the cell in row i, column j. */
  type Board = seq<seq<int>>

  predicate IsBoard(b: Board) {
    |b| == 9 && forall i :: 0 <= i < 9 ==> |b[i]| == 9
  }

  predicate IsCell(i: int, j: int) {
    0 <= i < 9 && 0 <= j < 9
  }

  /** Position of cell (i, j) in row-major order. */
  function Index(i: int, j: int): int {
    9 * i + j
  }

  /** Two boards with the same cells are the same board. */
  lemma SameBoard(x: Board, y: Board)
    requires IsBoard(x) && IsBoard(y)
    requires forall i, j :: IsCell(i, j) ==> x[i][j] == y[i][j]
    ensures x == y
  {
    forall i | 0 <= i < 9
      ensures x[i] == y[i]
    {
      assert forall j :: 0 <= j < 9 ==> x[i][j] == y[i][j];
    }
  }

  /** The board with every cell empty. */
  function EmptyBoard(): (b: Board)
    ensures IsBoard(b)
    ensures forall i, j :: IsCell(i, j) ==> b[i][j] == 0
  {
    seq(9, i => seq(9, j => 0))
  }

  /** The board b with cell (r, c) set to v and every other cell kept. */
  function Place(b: Board, r: int, c: int, v: int): (p: Board)
    requires IsBoard(b) && IsCell(r, c)
    ensures IsBoard(p)
    ensures p[r][c] == v
    ensures forall i, j :: IsCell(i, j) && (i, j) != (r, c) ==> p[i][j] == b[i][j]
  {
    b[r := b[r][c := v]]
  }

  /** Clearing a cell that was empty before a placement gives back the
      board as it was. */
  lemma PlaceUndo(b: Board, r: int, c: int, v: int)
    requires IsBoard(b) && IsCell(r, c) && b[r][c] == 0
    ensures Place(Place(b, r, c, v), r, c, 0) == b
  {
    SameBoard(Place(Place(b, r, c, v), r, c, 0), b);
  }

  /** The empty cells of b. */
  function Empties(b: Board): set<(int, int)>
    requires IsBoard(b)
  {
    set i, j | 0 <= i < 9 && 0 <= j < 9 && b[i][j] == 0 :: (i, j)
  }

  /** Filling an empty cell with a non-zero value strictly shrinks the set of
      empty cells: the measure on which the search terminates. */
  lemma PlaceShrinksEmpties(b: Board, r: int, c: int, v: int)
    requires IsBoard(b) && IsCell(r, c) && b[r][c] == 0 && v != 0
    ensures Empties(Place(b, r, c, v)) < Empties(b)
  {
    var p := Place(b, r, c, v);
    assert (r, c) in Empties(b);
    assert (r, c) !in Empties(p);
    forall x | x in Empties(p)
      ensures x in Empties(b)
    {
      var i, j := x.0, x.1;
      assert p[i][j] == 0;
    }
  }

  predicate HasZero(b: Board)
    requires IsBoard(b)
  {
    exists i, j :: 0 <= i < 9 && 0 <= j < 9 && b[i][j] == 0
  }

  /** The first empty cell at or after (r, c) in row-major order. */
  function FirstEmptyFrom(b: Board, r: int, c: int): (e: Option<(int, int)>)
    requires IsBoard(b) && 0 <= r <= 9 && 0 <= c <= 9
    decreases 9 - r, 9 - c
    ensures e.Some? ==> IsCell(e.value.0, e.value.1) && b[e.value.0][e.value.1] == 0
  {
    if r == 9 then None
    else if c == 9 then FirstEmptyFrom(b, r + 1, 0)
    else if b[r][c] == 0 then Some((r, c))
    else FirstEmptyFrom(b, r, c + 1)
  }

  /** The cell FirstEmptyFrom finds is the first: every cell from (r, c) up
      to it, or up to the end when there is none, is filled. */
  lemma {:induction false} FirstEmptyFromIsFirst(b: Board, r: int, c: int)
    requires IsBoard(b) && 0 <= r <= 9 && 0 <= c <= 9
    decreases 9 - r, 9 - c
    ensures var e := FirstEmptyFrom(b, r, c);
            e.Some? ==> Index(r, c) <= Index(e.value.0, e.value.1)
    ensures var e := FirstEmptyFrom(b, r, c);
            forall i, j ::
              (IsCell(i, j) && Index(r, c) <= Index(i, j) &&
               (e.Some? ==> Index(i, j) < Index(e.value.0, e.value.1))) ==> b[i][j] != 0
  {
    if r == 9 {
    } else if c == 9 {
      FirstEmptyFromIsFirst(b, r + 1, 0);
    } else if b[r][c] == 0 {
    } else {
      FirstEmptyFromIsFirst(b, r, c + 1);
    }
  }

  /** The first empty cell of the whole board in row-major order. */
  function FirstEmpty(b: Board): (e: Option<(int, int)>)
    requires IsBoard(b)
    ensures e.Some? ==> IsCell(e.value.0, e.value.1) && b[e.value.0][e.value.1] == 0
  {
    FirstEmptyFrom(b, 0, 0)
  }

  lemma FirstEmptyNoneIffFull(b: Board)
    requires IsBoard(b)
    ensures FirstEmpty(b).None? <==> !HasZero(b)
  {
    FirstEmptyFromIsFirst(b, 0, 0);
    if FirstEmpty(b).Some? {
      var (i, j) := FirstEmpty(b).value;
      assert b[i][j] == 0;
    }
  }

  /** Row or column of the top-left cell of the 3x3 box holding row or
      column x. Dafny's `/` by a positive divisor rounds down, as floorDiv does. */
  function BoxOrigin(x: int): (o: int)
    ensures o % 3 == 0 && o <= x < o + 3
  {
    x / 3 * 3
  }

  /** (i, j) lies in the 3x3 box that contains (r, c). */
  predicate InBox(r: int, c: int, i: int, j: int) {
    BoxOrigin(r) <= i < BoxOrigin(r) + 3 && BoxOrigin(c) <= j < BoxOrigin(c) + 3
  }

  /** Distinct cells that share a row, a column or a box. */
  predicate Peer(i: int, j: int, k: int, l: int) {
    (i, j) != (k, l) && (i == k || j == l || InBox(i, j, k, l))
  }

  lemma InBoxSameThirds(r: int, c: int, i: int, j: int)
    ensures InBox(r, c, i, j) <==> i / 3 == r / 3 && j / 3 == c / 3
  {
  }

  lemma PeerSymmetric(i: int, j: int, k: int, l: int)
    ensures Peer(i, j, k, l) <==> Peer(k, l, i, j)
  {
    InBoxSameThirds(i, j, k, l);
    InBoxSameThirds(k, l, i, j);
  }

  /** v may go in (r, c): it is not in row r, not in column c and not in the
      3x3 box of (r, c). */
  predicate Possible(b: Board, r: int, c: int, v: int)
    requires IsBoard(b) && IsCell(r, c)
  {
    (forall j :: 0 <= j < 9 ==> b[r][j] != v) &&
    (forall i :: 0 <= i < 9 ==> b[i][c] != v) &&
    (forall i, j :: 0 <= i < 9 && 0 <= j < 9 && InBox(r, c, i, j) ==> b[i][j] != v)
  }

  /** For an empty cell and a digit, Possible says exactly that no peer of
      the cell holds the digit. */
  lemma PossibleIffNoPeerHolds(b: Board, r: int, c: int, v: int)
    requires IsBoard(b) && IsCell(r, c) && b[r][c] == 0 && v != 0
    ensures Possible(b, r, c, v) <==>
            forall k, l :: IsCell(k, l) && Peer(r, c, k, l) ==> b[k][l] != v
  {
    if forall k, l :: IsCell(k, l) && Peer(r, c, k, l) ==> b[k][l] != v {
      forall j | 0 <= j < 9
        ensures b[r][j] != v
      {
        if j != c { assert Peer(r, c, r, j); }
      }
      forall i | 0 <= i < 9
        ensures b[i][c] != v
      {
        if i != r { assert Peer(r, c, i, c); }
      }
      forall i, j | IsCell(i, j) && InBox(r, c, i, j)
        ensures b[i][j] != v
      {
        if (i, j) != (r, c) { assert Peer(r, c, i, j); }
      }
    }
  }

  /** s completes b: every empty cell of b holds a digit 1..9 in s, every
      filled cell of b is kept, and no cell that was empty in b holds the
      same value as one of its peers. Filled cells of b are not checked
      against each other. */
  ghost predicate Completion(b: Board, s: Board) {
    IsBoard(b) && IsBoard(s) &&
    (forall i, j :: IsCell(i, j) ==>
       if b[i][j] == 0 then 1 <= s[i][j] <= 9 else s[i][j] == b[i][j]) &&
    (forall i, j, k, l :: IsCell(i, j) && IsCell(k, l) && b[i][j] == 0 && Peer(i, j, k, l) ==>
       s[i][j] != s[k][l])
  }

  lemma CompletionIsFull(b: Board, s: Board)
    requires Completion(b, s)
    ensures !HasZero(s)
  {
    forall i, j | IsCell(i, j)
      ensures s[i][j] != 0
    {
      if b[i][j] == 0 { assert 1 <= s[i][j]; } else { assert s[i][j] == b[i][j]; }
    }
  }

  /** A full board is its own (and only) completion. */
  lemma FullBoardCompletion(b: Board, s: Board)
    requires IsBoard(b) && IsBoard(s) && !HasZero(b)
    ensures Completion(b, s) <==> s == b
  {
    if Completion(b, s) {
      SameBoard(s, b);
    }
  }

  /** Digits 0..9 everywhere, and no two filled peers hold the same digit. */
  ghost predicate Consistent(b: Board)
    requires IsBoard(b)
  {
    (forall i, j :: IsCell(i, j) ==> 0 <= b[i][j] <= 9) &&
    (forall i, j, k, l :: IsCell(i, j) && IsCell(k, l) && b[i][j] != 0 && Peer(i, j, k, l) ==>
       b[i][j] != b[k][l])
  }

  /** A solved Sudoku: every cell holds 1..9 and no two peers agree. */
  ghost predicate ValidSolution(s: Board)
    requires IsBoard(s)
  {
    (forall i, j :: IsCell(i, j) ==> 1 <= s[i][j] <= 9) &&
    (forall i, j, k, l :: IsCell(i, j) && IsCell(k, l) && Peer(i, j, k, l) ==> s[i][j] != s[k][l])
  }

  /** When the givens are consistent, a completion is a solved Sudoku. */
  lemma CompletionOfConsistentIsSolution(b: Board, s: Board)
    requires Completion(b, s) && Consistent(b)
    ensures ValidSolution(s)
  {
    forall i, j, k, l | IsCell(i, j) && IsCell(k, l) && Peer(i, j, k, l)
      ensures s[i][j] != s[k][l]
    {
      if b[i][j] == 0 {
      } else if b[k][l] == 0 {
        PeerSymmetric(i, j, k, l);
      } else {
        assert s[i][j] == b[i][j] && s[k][l] == b[k][l];
      }
    }
  }
}
