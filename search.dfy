/** The backtracking search as a function on boards: the reference the
    in-place solver is proved against. It visits the first empty cell in
    row-major order and tries the digits 1..9 in ascending order. */
module Search {
  import opened Grid

  /** The board the search ends with, or None when it gives up. */
  function Solve(b: Board): (res: Option<Board>)
    requires IsBoard(b)
    ensures res.Some? ==> IsBoard(res.value)
    decreases Empties(b), 1, 0
  {
    match FirstEmpty(b)
    case None => Some(b)
    case Some(rc) => TryFrom(b, rc.0, rc.1, 1)
  }

  /** The search at empty cell (r, c), from candidate digit v upward. */
  function TryFrom(b: Board, r: int, c: int, v: int): (res: Option<Board>)
    requires IsBoard(b) && IsCell(r, c) && b[r][c] == 0 && 1 <= v <= 10
    ensures res.Some? ==> IsBoard(res.value)
    decreases Empties(b), 0, 10 - v
  {
    if v == 10 then None
    else if Possible(b, r, c, v) then
      PlaceShrinksEmpties(b, r, c, v);
      match Solve(Place(b, r, c, v))
      case Some(s) => Some(s)
      case None => TryFrom(b, r, c, v + 1)
    else TryFrom(b, r, c, v + 1)
  }

  /** The puzzle b has at least one completion. */
  ghost predicate Solvable(b: Board) {
    exists s :: Completion(b, s)
  }

  /** If the placement of v in (r, c) was allowed, a completion of the
      board after the placement is a completion of the board before it. */
  lemma CompletionOfPlacement(b: Board, r: int, c: int, v: int, s: Board)
    requires IsBoard(b) && IsCell(r, c) && b[r][c] == 0 && 1 <= v <= 9
    requires Possible(b, r, c, v)
    requires Completion(Place(b, r, c, v), s)
    ensures Completion(b, s)
  {
    var p := Place(b, r, c, v);
    forall i, j, k, l | IsCell(i, j) && IsCell(k, l) && b[i][j] == 0 && Peer(i, j, k, l)
      ensures s[i][j] != s[k][l]
    {
      if (i, j) != (r, c) {
        assert p[i][j] == 0;
      } else if p[k][l] == 0 {
        PeerSymmetric(i, j, k, l);
        assert s[k][l] != s[i][j];
      } else {
        assert s[k][l] == b[k][l];
        assert InBox(r, c, k, l) ==> b[k][l] != v;
      }
    }
  }

  /** A completion of b is still a completion once one of its values is
      placed in an empty cell of b. */
  lemma CompletionAfterPlacement(b: Board, r: int, c: int, s: Board)
    requires Completion(b, s) && IsCell(r, c) && b[r][c] == 0
    ensures Completion(Place(b, r, c, s[r][c]), s)
  {
    var p := Place(b, r, c, s[r][c]);
    forall i, j | IsCell(i, j)
      ensures if p[i][j] == 0 then 1 <= s[i][j] <= 9 else s[i][j] == p[i][j]
    {
      if (i, j) != (r, c) { assert p[i][j] == b[i][j]; }
    }
    forall i, j, k, l | IsCell(i, j) && IsCell(k, l) && p[i][j] == 0 && Peer(i, j, k, l)
      ensures s[i][j] != s[k][l]
    {
      assert b[i][j] == 0;
    }
  }

  /** The value a completion gives an empty cell passes the placement check. */
  lemma PossibleFromCompletion(b: Board, r: int, c: int, s: Board)
    requires Completion(b, s) && IsCell(r, c) && b[r][c] == 0
    ensures Possible(b, r, c, s[r][c])
  {
    var v := s[r][c];
    forall k, l | IsCell(k, l) && Peer(r, c, k, l)
      ensures b[k][l] != v
    {
      if b[k][l] != 0 {
        assert s[k][l] == b[k][l];
      }
    }
    PossibleIffNoPeerHolds(b, r, c, v);
  }

  /** Soundness: what the search returns completes its input. */
  lemma {:induction false} SolveSound(b: Board)
    requires IsBoard(b)
    ensures Solve(b).Some? ==> Completion(b, Solve(b).value)
    decreases Empties(b), 1, 0
  {
    match FirstEmpty(b)
    case None =>
      FirstEmptyNoneIffFull(b);
      FullBoardCompletion(b, b);
    case Some(rc) =>
      TryFromSound(b, rc.0, rc.1, 1);
  }

  lemma {:induction false} TryFromSound(b: Board, r: int, c: int, v: int)
    requires IsBoard(b) && IsCell(r, c) && b[r][c] == 0 && 1 <= v <= 10
    ensures TryFrom(b, r, c, v).Some? ==> Completion(b, TryFrom(b, r, c, v).value)
    decreases Empties(b), 0, 10 - v
  {
    if v == 10 {
    } else if Possible(b, r, c, v) {
      var p := Place(b, r, c, v);
      PlaceShrinksEmpties(b, r, c, v);
      SolveSound(p);
      if Solve(p).Some? {
        assert TryFrom(b, r, c, v) == Solve(p);
        CompletionOfPlacement(b, r, c, v, Solve(p).value);
      } else {
        assert TryFrom(b, r, c, v) == TryFrom(b, r, c, v + 1);
        TryFromSound(b, r, c, v + 1);
      }
    } else {
      TryFromSound(b, r, c, v + 1);
    }
  }

  /** Completeness: if b has any completion, the search finds one. */
  lemma {:induction false} SolveComplete(b: Board, s: Board)
    requires Completion(b, s)
    ensures Solve(b).Some?
    decreases Empties(b), 1, 0, 0
  {
    match FirstEmpty(b)
    case None =>
    case Some(rc) =>
      TryFromComplete(b, rc.0, rc.1, 1, s);
  }

  lemma {:induction false} TryFromComplete(b: Board, r: int, c: int, v: int, s: Board)
    requires Completion(b, s) && IsCell(r, c) && b[r][c] == 0 && 1 <= v <= s[r][c]
    ensures TryFrom(b, r, c, v).Some?
    decreases Empties(b), 0, 10 - v, 1
  {
    if v == s[r][c] {
      TryCompletionValue(b, r, c, s);
    } else {
      TryFromComplete(b, r, c, v + 1, s);
    }
  }

  /** The candidate the completion s gives (r, c) passes the check, and the
      search after placing it succeeds. */
  lemma {:induction false} TryCompletionValue(b: Board, r: int, c: int, s: Board)
    requires Completion(b, s) && IsCell(r, c) && b[r][c] == 0
    ensures TryFrom(b, r, c, s[r][c]).Some?
    decreases Empties(b), 0, 10 - s[r][c], 0
  {
    var v := s[r][c];
    PossibleFromCompletion(b, r, c, s);
    PlaceShrinksEmpties(b, r, c, v);
    CompletionAfterPlacement(b, r, c, s);
    SolveComplete(Place(b, r, c, v), s);
  }

  /** The search succeeds exactly on the puzzles that have a completion, and
      then returns one. */
  lemma SolveCorrect(b: Board)
    requires IsBoard(b)
    ensures Solve(b).Some? <==> Solvable(b)
    ensures Solve(b).Some? ==> Completion(b, Solve(b).value)
  {
    SolveSound(b);
    if Solvable(b) {
      var s :| Completion(b, s);
      SolveComplete(b, s);
    }
  }

  /** Givens are never changed, and a successful search leaves no empty cell. */
  lemma SolveKeepsGivens(b: Board)
    requires IsBoard(b) && Solve(b).Some?
    ensures IsBoard(Solve(b).value)
    ensures forall i, j :: IsCell(i, j) && b[i][j] != 0 ==> Solve(b).value[i][j] == b[i][j]
    ensures !HasZero(Solve(b).value)
  {
    SolveSound(b);
    CompletionIsFull(b, Solve(b).value);
  }

  /** On a board without an empty cell the search succeeds at once and
      changes nothing, so searching again from its result is a no-op. */
  lemma SolveFull(b: Board)
    requires IsBoard(b) && !HasZero(b)
    ensures Solve(b) == Some(b)
  {
    FirstEmptyNoneIffFull(b);
  }

  lemma SolveIdempotent(b: Board)
    requires IsBoard(b) && Solve(b).Some?
    ensures Solve(Solve(b).value) == Solve(b)
  {
    SolveKeepsGivens(b);
    SolveFull(Solve(b).value);
  }

  /** With consistent givens a successful search returns a solved Sudoku. */
  lemma SolveConsistentIsSolution(b: Board)
    requires IsBoard(b) && Consistent(b) && Solve(b).Some?
    ensures IsBoard(Solve(b).value) && ValidSolution(Solve(b).value)
  {
    SolveSound(b);
    CompletionOfConsistentIsSolution(b, Solve(b).value);
  }

  /** Givens are not checked against each other: a full board that repeats
      a digit in every row is returned unchanged as solved. */
  lemma FullInconsistentAccepted()
    ensures var b := seq(9, i => seq(9, j => 1));
            IsBoard(b) && !Consistent(b) && Solve(b) == Some(b)
  {
    var b := seq(9, i => seq(9, j => 1));
    assert Peer(0, 0, 0, 1) && b[0][0] == b[0][1];
    SolveFull(b);
  }
}
