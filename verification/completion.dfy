/** What a successful solve produces: a completion of the starting board, in
    which every filled cell is kept and every empty cell receives a value in
    1..n that no peer holds. */
module Completions {
  import opened Cells
  import opened Boards

  /** f has b's layout and keeps every nonzero cell of b as it was. */
  ghost predicate Extends(b: Board, f: Board)
    requires Shaped(b)
  {
    Shaped(f) && f.Shape() == b.Shape()
    && forall i, j :: InRange(b.n, i, j) && At(b, i, j).value != 0 ==> At(f, i, j) == At(b, i, j)
  }

  /** The cell (i, j) of f holds a free value in 1..n that none of its peers holds. */
  ghost predicate PlacedConsistently(f: Board, i: int, j: int)
    requires Shaped(f) && InRange(f.n, i, j)
  {
    !At(f, i, j).isFixed && 1 <= At(f, i, j).value <= f.n
    && forall x, y :: InRange(f.n, x, y) && Peer(f.Shape(), i, j, x, y) ==> At(f, x, y).value != At(f, i, j).value
  }

  /** f completes b: it extends b and every cell empty in b is placed consistently. */
  ghost predicate IsCompletion(b: Board, f: Board)
    requires Shaped(b)
  {
    Extends(b, f)
    && forall i, j :: InRange(b.n, i, j) && At(b, i, j).value == 0 ==> PlacedConsistently(f, i, j)
  }

  ghost predicate Solvable(b: Board)
    requires Shaped(b)
  {
    exists f :: IsCompletion(b, f)
  }

  /** No two peers hold the same nonzero value. */
  ghost predicate CluesConsistent(b: Board)
    requires Shaped(b)
  {
    forall i, j, x, y ::
      InRange(b.n, i, j) && InRange(b.n, x, y) && Peer(b.Shape(), i, j, x, y) && At(b, i, j).value != 0
      ==> At(b, x, y).value != At(b, i, j).value
  }

  /** A solved Sudoku: full, and no two peers equal. */
  ghost predicate IsSolution(f: Board)
    requires Shaped(f)
  {
    NoEmptyCell(f) && CluesConsistent(f)
  }

  lemma PeerSymmetric(l: Layout, r1: int, c1: int, r2: int, c2: int)
    ensures Peer(l, r1, c1, r2, c2) <==> Peer(l, r2, c2, r1, c1)
  {
  }

  /** Placing a valid value v in an empty cell and completing the result
      completes the original board. */
  lemma PlaceThenComplete(b: Board, row: int, col: int, v: int, f: Board)
    requires WellFormed(b) && InRange(b.n, row, col) && At(b, row, col).value == 0
    requires 1 <= v <= b.n && IsValidCell(b, row, col, v)
    requires IsCompletion(SetCell(b, row, col, v), f)
    ensures IsCompletion(b, f)
  {
    var placed := SetCell(b, row, col, v);
    assert At(placed, row, col) == Cell(v, false);
    assert At(f, row, col) == Cell(v, false);
    forall i, j | InRange(b.n, i, j) && At(b, i, j).value == 0
      ensures PlacedConsistently(f, i, j)
    {
      if i == row && j == col {
        forall x, y | InRange(f.n, x, y) && Peer(f.Shape(), i, j, x, y)
          ensures At(f, x, y).value != v
        {
          if At(b, x, y).value == 0 {
            assert At(placed, x, y).value == 0;
            assert PlacedConsistently(f, x, y);
            PeerSymmetric(f.Shape(), i, j, x, y);
          } else {
            assert At(f, x, y) == At(b, x, y);
            assert Sees(b.Shape(), row, col, x, y);
          }
        }
      } else {
        assert At(placed, i, j).value == 0;
      }
    }
  }

  /** The value a completion puts in an empty cell is valid there. */
  lemma CompletionValueValid(b: Board, f: Board, row: int, col: int)
    requires WellFormed(b) && IsCompletion(b, f) && InRange(b.n, row, col) && At(b, row, col).value == 0
    ensures 1 <= At(f, row, col).value <= b.n
    ensures IsValidCell(b, row, col, At(f, row, col).value)
  {
    var v := At(f, row, col).value;
    assert PlacedConsistently(f, row, col);
    forall i, j | InRange(b.n, i, j) && Sees(b.Shape(), row, col, i, j)
      ensures At(b, i, j).value != v
    {
      if !(i == row && j == col) && At(b, i, j).value != 0 {
        assert At(f, i, j) == At(b, i, j);
        assert Peer(f.Shape(), row, col, i, j);
      }
    }
  }

  /** A completion of b also completes b with one of its own values placed. */
  lemma CompletionOfPlaced(b: Board, f: Board, row: int, col: int)
    requires WellFormed(b) && IsCompletion(b, f) && InRange(b.n, row, col) && At(b, row, col).value == 0
    ensures IsCompletion(SetCell(b, row, col, At(f, row, col).value), f)
  {
    var placed := SetCell(b, row, col, At(f, row, col).value);
    assert PlacedConsistently(f, row, col);
    assert At(placed, row, col) == At(f, row, col);
  }

  /** When the clues are consistent, a completion is a solved Sudoku. */
  lemma CompletionOfConsistentIsSolution(b: Board, f: Board)
    requires WellFormed(b) && CluesConsistent(b) && IsCompletion(b, f)
    ensures IsSolution(f)
  {
    forall i, j | InRange(f.n, i, j)
      ensures At(f, i, j).value != 0
    {
      if At(b, i, j).value == 0 {
        assert PlacedConsistently(f, i, j);
      }
    }
    forall i, j, x, y | InRange(f.n, i, j) && InRange(f.n, x, y) && Peer(f.Shape(), i, j, x, y) && At(f, i, j).value != 0
      ensures At(f, x, y).value != At(f, i, j).value
    {
      if At(b, i, j).value == 0 {
        assert PlacedConsistently(f, i, j);
      } else if At(b, x, y).value == 0 {
        assert PlacedConsistently(f, x, y);
        PeerSymmetric(f.Shape(), i, j, x, y);
      } else {
        assert At(f, i, j) == At(b, i, j) && At(f, x, y) == At(b, x, y);
      }
    }
  }
}
