/** The three backtracking solvers. They differ only in how they pick the
    next cell and the order they try its values in (Choose); the recursion,
    the validity re-check before each write and the reset to 0 after a
    failed branch are shared (Solve, TryValues). */
module Solvers {
  import opened Wrappers
  import opened Cells
  import opened Boards
  import opened Completions
  import opened Mrv
  import opened Lcv

  datatype Strategy =
    | FirstEmpty                          // plain DFS
    | MinRemaining                        // MRV
    | LeastConstraining(solver: LcvSolver) // LCV

  ghost predicate Suits(st: Strategy, b: Board)
  {
    WellFormed(b) && (st.LeastConstraining? ==> SolverFor(st.solver, b.Shape()))
  }

  /** The cell to branch on and the values to try there, in order. */
  datatype Choice = Choice(row: int, col: int, order: seq<int>)

  /** What every strategy's choice satisfies: an empty, free cell, values in
      1..n, and every value valid there among them. */
  ghost predicate ChoiceOk(b: Board, ch: Choice)
    requires WellFormed(b)
  {
    && InRange(b.n, ch.row, ch.col)
    && At(b, ch.row, ch.col) == Cell(0, false)
    && (forall k :: 0 <= k < |ch.order| ==> 1 <= ch.order[k] <= b.n)
    && (forall v :: 1 <= v <= b.n && IsValidCell(b, ch.row, ch.col, v) ==> v in ch.order)
  }

  /** 1, 2, ..., n. */
  function OneToN(n: nat): (r: seq<int>)
    ensures |r| == n && forall k :: 0 <= k < n ==> r[k] == k + 1
  {
    seq(n, k requires 0 <= k < n => k + 1)
  }

  lemma AscendingChoiceOk(b: Board, p: Pos)
    requires WellFormed(b) && InRange(b.n, p.row, p.col) && At(b, p.row, p.col).value == 0
    ensures ChoiceOk(b, Choice(p.row, p.col, OneToN(b.n)))
  {
    assert CellInv(At(b, p.row, p.col));
    var order := OneToN(b.n);
    forall v | 1 <= v <= b.n ensures v in order {
      assert order[v - 1] == v;
    }
  }

  lemma LcvChoiceOk(s: LcvSolver, b: Board, sel: Selection)
    requires WellFormed(b) && SolverFor(s, b.Shape()) && InRange(b.n, sel.row, sel.col)
    requires At(b, sel.row, sel.col).value == 0
    requires forall v :: v in sel.candidates <==> 1 <= v <= b.n && IsValidCell(b, sel.row, sel.col, v)
    ensures ChoiceOk(b, Choice(sel.row, sel.col, OrderValues(s, b, sel.row, sel.col, Some(sel.candidates))))
  {
    assert CellInv(At(b, sel.row, sel.col));
    var order := OrderValues(s, b, sel.row, sel.col, Some(sel.candidates));
    assert forall v :: v in order <==> v in sel.candidates;
    forall k | 0 <= k < |order| ensures 1 <= order[k] <= b.n {
      assert order[k] in order;
    }
    forall v | 1 <= v <= b.n && IsValidCell(b, sel.row, sel.col, v) ensures v in order {
      assert v in sel.candidates;
    }
  }

  /** Solver.solve's selection: the first empty cell, values 1..n. */
  function ChooseFirstEmpty(b: Board): (r: Option<Choice>)
    requires WellFormed(b)
    ensures r.None? <==> NoEmptyCell(b)
    ensures r.Some? ==> ChoiceOk(b, r.value)
    ensures r.Some? ==> FindEmptyCell(b) == Some(Pos(r.value.row, r.value.col))
    ensures r.Some? ==> forall i, j :: InRange(b.n, i, j) && Before(i, j, r.value.row, r.value.col) ==> At(b, i, j).value != 0
    ensures r.Some? ==> |r.value.order| == b.n && forall k :: 0 <= k < b.n ==> r.value.order[k] == k + 1
  {
    match FindEmptyCell(b)
    case None => None
    case Some(p) =>
      AscendingChoiceOk(b, p);
      Some(Choice(p.row, p.col, OneToN(b.n)))
  }

  /** MRVSolver.solve's selection: the MRV cell, values 1..n. */
  function ChooseMinRemaining(b: Board): (r: Option<Choice>)
    requires WellFormed(b)
    ensures r.None? <==> NoEmptyCell(b)
    ensures r.Some? ==> ChoiceOk(b, r.value)
    ensures r.Some? ==> FindEmptyCellMrv(b) == Some(Pos(r.value.row, r.value.col))
    ensures r.Some? ==> forall i, j :: IsEmptyAt(b, i, j) ==> CandidateCount(b, r.value.row, r.value.col) <= CandidateCount(b, i, j)
    ensures r.Some? ==> |r.value.order| == b.n && forall k :: 0 <= k < b.n ==> r.value.order[k] == k + 1
  {
    match FindEmptyCellMrv(b)
    case None => None
    case Some(p) =>
      AscendingChoiceOk(b, p);
      Some(Choice(p.row, p.col, OneToN(b.n)))
  }

  /** LCVSolver.solve's selection: the selected cell, its candidates in
      least-constraining order. */
  function ChooseLeastConstraining(s: LcvSolver, b: Board): (r: Option<Choice>)
    requires WellFormed(b) && SolverFor(s, b.Shape())
    ensures r.None? <==> NoEmptyCell(b)
    ensures r.Some? ==> ChoiceOk(b, r.value)
    ensures r.Some? ==> var sel := SelectUnassignedCell(b);
              && sel.Some? && sel.value.row == r.value.row && sel.value.col == r.value.col
              && r.value.order == OrderValues(s, b, sel.value.row, sel.value.col, Some(sel.value.candidates))
  {
    match SelectUnassignedCell(b)
    case None => None
    case Some(sel) =>
      LcvChoiceOk(s, b, sel);
      Some(Choice(sel.row, sel.col, OrderValues(s, b, sel.row, sel.col, Some(sel.candidates))))
  }

  function Choose(st: Strategy, b: Board): (r: Option<Choice>)
    requires Suits(st, b)
    ensures r.None? <==> NoEmptyCell(b)
    ensures r.Some? ==> ChoiceOk(b, r.value)
  {
    match st
    case FirstEmpty => ChooseFirstEmpty(b)
    case MinRemaining => ChooseMinRemaining(b)
    case LeastConstraining(s) => ChooseLeastConstraining(s, b)
  }

  datatype Outcome = Outcome(solved: bool, board: Board)

  /** One decision point: success on a full board, otherwise try the chosen
      cell's values. A success completes b; a failure leaves b as it was. */
  function Solve(st: Strategy, b: Board): (r: Outcome)
    requires Suits(st, b)
    decreases EmptyCount(b), 1, 0
    ensures r.solved ==> IsCompletion(b, r.board)
    ensures !r.solved ==> r.board == b
    ensures NoEmptyCell(b) ==> r == Outcome(true, b)
  {
    match Choose(st, b)
    case None => Outcome(true, b)
    case Some(ch) => TryValues(st, b, ch.row, ch.col, ch.order, 0)
  }

  /** The loop over order[i..] at the empty cell (row, col): a value that is
      valid is written and the rest solved; if that fails the cell is set
      back to 0 and the next value tried. */
  function TryValues(st: Strategy, b: Board, row: int, col: int, order: seq<int>, i: int): (r: Outcome)
    requires Suits(st, b) && InRange(b.n, row, col) && At(b, row, col) == Cell(0, false)
    requires forall k :: 0 <= k < |order| ==> 1 <= order[k] <= b.n
    requires 0 <= i <= |order|
    decreases EmptyCount(b), 0, |order| - i
    ensures r.solved ==> IsCompletion(b, r.board)
    ensures !r.solved ==> r.board == b
  {
    if i == |order| then Outcome(false, b)
    else
      var v := order[i];
      if IsValidCell(b, row, col, v) then
        var placed := SetCell(b, row, col, v);
        FillDecreasesEmptyCount(b, row, col, v);
        var sub := Solve(st, placed);
        if sub.solved then
          PlaceThenComplete(b, row, col, v, sub.board);
          sub
        else
          var restored := SetCell(sub.board, row, col, 0);
          SetCellUndo(b, row, col, v);
          TryValues(st, restored, row, col, order, i + 1)
      else
        TryValues(st, b, row, col, order, i + 1)
  }

  // ---------------------------------------------------------------------
  // Completeness

  function IndexOf(s: seq<int>, v: int): (m: int)
    requires v in s
    ensures 0 <= m < |s| && s[m] == v
  {
    if s[0] == v then 0 else 1 + IndexOf(s[1..], v)
  }

  /** Solve at a board with an empty cell is the loop over the chosen order. */
  lemma SolveUnfold(st: Strategy, b: Board)
    requires Suits(st, b) && Choose(st, b).Some?
    ensures ChoiceOk(b, Choose(st, b).value)
    ensures var ch := Choose(st, b).value;
      Solve(st, b) == TryValues(st, b, ch.row, ch.col, ch.order, 0)
  {
  }

  /** A completion's value at the chosen cell is among the values tried there. */
  lemma CompletionValueIndex(b: Board, f: Board, ch: Choice) returns (m: int)
    requires WellFormed(b) && ChoiceOk(b, ch) && IsCompletion(b, f)
    ensures 0 <= m < |ch.order| && ch.order[m] == At(f, ch.row, ch.col).value
  {
    CompletionValueValid(b, f, ch.row, ch.col);
    m := IndexOf(ch.order, At(f, ch.row, ch.col).value);
  }

  /** If b has a completion f, Solve succeeds. */
  lemma {:induction false} SolveComplete(st: Strategy, b: Board, f: Board)
    requires Suits(st, b) && IsCompletion(b, f)
    ensures Solve(st, b).solved
    decreases EmptyCount(b), 1, 0
  {
    if Choose(st, b).Some? {
      SolveUnfold(st, b);
      BranchComplete(st, b, f, Choose(st, b).value);
    } else {
      SolveFull(st, b);
    }
  }

  /** SolveComplete at a board with an empty cell: the completion's value at
      the chosen cell is tried, so the loop over the order succeeds. */
  lemma {:induction false} BranchComplete(st: Strategy, b: Board, f: Board, ch: Choice)
    requires Suits(st, b) && IsCompletion(b, f) && ChoiceOk(b, ch)
    ensures TryValues(st, b, ch.row, ch.col, ch.order, 0).solved
    decreases EmptyCount(b), 1, -1
  {
    var m := CompletionValueIndex(b, f, ch);
    TryComplete(st, b, ch.row, ch.col, ch.order, 0, f, m);
  }

  /** If f completes b and f's value at (row, col) is order[m] with i <= m,
      the loop from i succeeds. */
  lemma {:induction false} TryComplete(st: Strategy, b: Board, row: int, col: int, order: seq<int>, i: int, f: Board, m: int)
    requires Suits(st, b) && InRange(b.n, row, col) && At(b, row, col) == Cell(0, false)
    requires forall k :: 0 <= k < |order| ==> 1 <= order[k] <= b.n
    requires IsCompletion(b, f) && 0 <= i <= m < |order| && order[m] == At(f, row, col).value
    ensures TryValues(st, b, row, col, order, i).solved
    decreases EmptyCount(b), 0, |order| - i
  {
    var v := order[i];
    CompletionValueValid(b, f, row, col);
    if IsValidCell(b, row, col, v) {
      var placed := SetCell(b, row, col, v);
      FillDecreasesEmptyCount(b, row, col, v);
      if !Solve(st, placed).solved {
        if i == m {
          CompletionOfPlaced(b, f, row, col);
          SolveComplete(st, placed, f);
        }
        SetCellUndo(b, row, col, v);
        TryComplete(st, b, row, col, order, i + 1, f, m);
      }
    } else {
      TryComplete(st, b, row, col, order, i + 1, f, m);
    }
  }

  /** Every strategy succeeds exactly on the boards that have a completion. */
  lemma SolvedIffSolvable(st: Strategy, b: Board)
    requires Suits(st, b)
    ensures Solve(st, b).solved <==> Solvable(b)
  {
    if Solvable(b) {
      var f :| IsCompletion(b, f);
      SolveComplete(st, b, f);
    }
  }

  // ---------------------------------------------------------------------
  // The three solvers

  /** Solver.solve: plain depth-first backtracking on the first empty cell. */
  function SolveDfs(b: Board): (r: Outcome)
    requires WellFormed(b)
    ensures r.solved <==> Solvable(b)
    ensures r.solved ==> IsCompletion(b, r.board)
    ensures !r.solved ==> r.board == b
    ensures NoEmptyCell(b) ==> r == Outcome(true, b)
  {
    SolvedIffSolvable(FirstEmpty, b);
    Solve(FirstEmpty, b)
  }

  /** MRVSolver.solve: backtracking on the cell with the fewest candidates. */
  function SolveMrv(b: Board): (r: Outcome)
    requires WellFormed(b)
    ensures r.solved <==> Solvable(b)
    ensures r.solved ==> IsCompletion(b, r.board)
    ensures !r.solved ==> r.board == b
    ensures NoEmptyCell(b) ==> r == Outcome(true, b)
  {
    SolvedIffSolvable(MinRemaining, b);
    Solve(MinRemaining, b)
  }

  /** LCVSolver.solve: MRV-style selection, values in least-constraining order. */
  function SolveLcv(s: LcvSolver, b: Board): (r: Outcome)
    requires WellFormed(b) && SolverFor(s, b.Shape())
    ensures r.solved <==> Solvable(b)
    ensures r.solved ==> IsCompletion(b, r.board)
    ensures !r.solved ==> r.board == b
    ensures NoEmptyCell(b) ==> r == Outcome(true, b)
  {
    SolvedIffSolvable(LeastConstraining(s), b);
    Solve(LeastConstraining(s), b)
  }

  /** With a unique completion, all three solvers produce it. */
  lemma UniqueCompletionAllAgree(b: Board, f: Board, s: LcvSolver)
    requires WellFormed(b) && SolverFor(s, b.Shape()) && IsCompletion(b, f)
    requires forall g :: IsCompletion(b, g) ==> g == f
    ensures SolveDfs(b) == Outcome(true, f)
    ensures SolveMrv(b) == Outcome(true, f)
    ensures SolveLcv(s, b) == Outcome(true, f)
  {
  }

  /** A solved board whose clues were consistent is a valid Sudoku solution. */
  lemma SolvedIsSolution(st: Strategy, b: Board)
    requires Suits(st, b) && CluesConsistent(b) && Solve(st, b).solved
    ensures IsSolution(Solve(st, b).board)
  {
    CompletionOfConsistentIsSolution(b, Solve(st, b).board);
  }

  /** A successful solve leaves no empty cell, whatever the clues. */
  lemma SolvedIsFull(st: Strategy, b: Board)
    requires Suits(st, b) && Solve(st, b).solved
    ensures NoEmptyCell(Solve(st, b).board)
  {
    var f := Solve(st, b).board;
    forall r, c | InRange(b.n, r, c) ensures At(f, r, c).value != 0 {
      if At(b, r, c).value == 0 {
        assert PlacedConsistently(f, r, c);
      }
    }
  }

  /** The converse of SolvedIsSolution: a solve that ends in a solved Sudoku
      started from consistent clues, because the clues are kept. */
  lemma SolutionNeedsConsistentClues(st: Strategy, b: Board)
    requires Suits(st, b) && Solve(st, b).solved && IsSolution(Solve(st, b).board)
    ensures CluesConsistent(b)
  {
    assert IsCompletion(b, Solve(st, b).board);
  }

  /** No solver compares two clues: a 2-by-2 board whose rows repeat a clue
      and that has no empty cell is reported solved, unchanged. */
  lemma DuplicateClueSolved()
    ensures var b := NewBoard([[1, 1], [2, 2]], 2, 1, 1);
            && WellFormed(b) && !CluesConsistent(b)
            && SolveDfs(b) == Outcome(true, b)
  {
    var b := NewBoard([[1, 1], [2, 2]], 2, 1, 1);
    assert At(b, 0, 0).value == 1 && At(b, 0, 1).value == 1;
    assert Peer(b.Shape(), 0, 0, 0, 1);
  }

  // ---------------------------------------------------------------------
  // Dead cells and neighbour modes

  /** An invalid value is skipped without a write. */
  lemma TrySkip(st: Strategy, b: Board, row: int, col: int, order: seq<int>, i: int)
    requires Suits(st, b) && InRange(b.n, row, col) && At(b, row, col) == Cell(0, false)
    requires forall k :: 0 <= k < |order| ==> 1 <= order[k] <= b.n
    requires 0 <= i < |order| && !IsValidCell(b, row, col, order[i])
    ensures TryValues(st, b, row, col, order, i) == TryValues(st, b, row, col, order, i + 1)
  {
  }

  /** When no value of order[i..] is valid, the loop fails and changes nothing. */
  lemma {:induction false} NoValidValueFails(st: Strategy, b: Board, row: int, col: int, order: seq<int>, i: int)
    requires Suits(st, b) && InRange(b.n, row, col) && At(b, row, col) == Cell(0, false)
    requires forall k :: 0 <= k < |order| ==> 1 <= order[k] <= b.n
    requires 0 <= i <= |order|
    requires forall k :: i <= k < |order| ==> !IsValidCell(b, row, col, order[k])
    ensures TryValues(st, b, row, col, order, i) == Outcome(false, b)
    decreases |order| - i, 1
  {
    if i < |order| {
      NoValidStep(st, b, row, col, order, i);
    }
  }

  /** NoValidValueFails at a position inside the order: skip it, then the rest. */
  lemma {:induction false} NoValidStep(st: Strategy, b: Board, row: int, col: int, order: seq<int>, i: int)
    requires Suits(st, b) && InRange(b.n, row, col) && At(b, row, col) == Cell(0, false)
    requires forall k :: 0 <= k < |order| ==> 1 <= order[k] <= b.n
    requires 0 <= i < |order|
    requires forall k :: i <= k < |order| ==> !IsValidCell(b, row, col, order[k])
    ensures TryValues(st, b, row, col, order, i) == Outcome(false, b)
    decreases |order| - i, 0
  {
    NoValidValueFails(st, b, row, col, order, i + 1);
    TrySkip(st, b, row, col, order, i);
  }

  // ---------------------------------------------------------------------
  // Which branch the loop keeps

  /** Placing v at the empty cell (row, col) passes the validity check and
      the rest of the board is then solved. */
  ghost predicate Succeeds(st: Strategy, b: Board, row: int, col: int, v: int)
    requires Suits(st, b) && InRange(b.n, row, col) && At(b, row, col) == Cell(0, false)
  {
    IsValidCell(b, row, col, v) && Solve(st, SetCell(b, row, col, v)).solved
  }

  /** The index of the first true flag at or after i, or |flags| when there
      is none. */
  function FirstTrue(flags: seq<bool>, i: int): (m: int)
    requires 0 <= i <= |flags|
    ensures i <= m <= |flags|
    ensures forall k :: i <= k < m ==> !flags[k]
    ensures m < |flags| ==> flags[m]
    decreases |flags| - i
  {
    if i == |flags| || flags[i] then i else FirstTrue(flags, i + 1)
  }

  /** For each value of order, whether its branch succeeds. */
  ghost function Successes(st: Strategy, b: Board, row: int, col: int, order: seq<int>): (r: seq<bool>)
    requires Suits(st, b) && InRange(b.n, row, col) && At(b, row, col) == Cell(0, false)
    ensures |r| == |order|
    ensures forall k :: 0 <= k < |order| ==> (r[k] <==> Succeeds(st, b, row, col, order[k]))
  {
    seq(|order|, k requires 0 <= k < |order| => Succeeds(st, b, row, col, order[k]))
  }

  /** The index of the first value of order[i..] whose branch succeeds, or
      |order| when none does. */
  ghost function FirstSuccess(st: Strategy, b: Board, row: int, col: int, order: seq<int>, i: int): (m: int)
    requires Suits(st, b) && InRange(b.n, row, col) && At(b, row, col) == Cell(0, false)
    requires 0 <= i <= |order|
    ensures i <= m <= |order|
    ensures forall k :: i <= k < m ==> !Succeeds(st, b, row, col, order[k])
    ensures m < |order| ==> Succeeds(st, b, row, col, order[m])
  {
    FirstTrue(Successes(st, b, row, col, order), i)
  }

  /** What trying order[i..] in turn and keeping the first success gives:
      that branch's outcome, or failure with b itself. */
  ghost function FirstOutcome(st: Strategy, b: Board, row: int, col: int, order: seq<int>, i: int): Outcome
    requires Suits(st, b) && InRange(b.n, row, col) && At(b, row, col) == Cell(0, false)
    requires 0 <= i <= |order|
  {
    var m := FirstSuccess(st, b, row, col, order, i);
    if m < |order| then Solve(st, SetCell(b, row, col, order[m])) else Outcome(false, b)
  }

  /** One step of the loop: a succeeding value is kept, any other value is
      passed over with the board as it was. */
  lemma TryStep(st: Strategy, b: Board, row: int, col: int, order: seq<int>, i: int)
    requires Suits(st, b) && InRange(b.n, row, col) && At(b, row, col) == Cell(0, false)
    requires forall k :: 0 <= k < |order| ==> 1 <= order[k] <= b.n
    requires 0 <= i < |order|
    ensures TryValues(st, b, row, col, order, i)
            == if Succeeds(st, b, row, col, order[i]) then Solve(st, SetCell(b, row, col, order[i]))
               else TryValues(st, b, row, col, order, i + 1)
  {
    var v := order[i];
    if IsValidCell(b, row, col, v) {
      SetCellUndo(b, row, col, v);
    }
  }

  /** One step of the reference: FirstOutcome from i is the branch at i when
      it succeeds, and FirstOutcome from i + 1 otherwise. */
  lemma FirstStep(st: Strategy, b: Board, row: int, col: int, order: seq<int>, i: int)
    requires Suits(st, b) && InRange(b.n, row, col) && At(b, row, col) == Cell(0, false)
    requires 0 <= i < |order|
    ensures FirstOutcome(st, b, row, col, order, i)
            == if Succeeds(st, b, row, col, order[i]) then Solve(st, SetCell(b, row, col, order[i]))
               else FirstOutcome(st, b, row, col, order, i + 1)
  {
    var flags := Successes(st, b, row, col, order);
    assert FirstTrue(flags, i) == if flags[i] then i else FirstTrue(flags, i + 1);
  }

  /** The loop keeps the first value in order whose branch succeeds, and
      fails with b unchanged when none does. */
  lemma {:induction false} TryValuesFirst(st: Strategy, b: Board, row: int, col: int, order: seq<int>, i: int)
    requires Suits(st, b) && InRange(b.n, row, col) && At(b, row, col) == Cell(0, false)
    requires forall k :: 0 <= k < |order| ==> 1 <= order[k] <= b.n
    requires 0 <= i <= |order|
    ensures TryValues(st, b, row, col, order, i) == FirstOutcome(st, b, row, col, order, i)
    decreases |order| - i, 1
  {
    if i < |order| {
      FirstCombine(st, b, row, col, order, i);
    } else {
      FirstEnd(st, b, row, col, order, i);
    }
  }

  /** The induction step of TryValuesFirst: one step of each side, then
      agreement from i + 1 on. */
  lemma {:induction false} FirstCombine(st: Strategy, b: Board, row: int, col: int, order: seq<int>, i: int)
    requires Suits(st, b) && InRange(b.n, row, col) && At(b, row, col) == Cell(0, false)
    requires forall k :: 0 <= k < |order| ==> 1 <= order[k] <= b.n
    requires 0 <= i < |order|
    ensures TryValues(st, b, row, col, order, i) == FirstOutcome(st, b, row, col, order, i)
    decreases |order| - i, 0
  {
    TryValuesFirst(st, b, row, col, order, i + 1);
    TryStep(st, b, row, col, order, i);
    FirstStep(st, b, row, col, order, i);
  }

  /** With no value left, both the loop and the reference fail with b. */
  lemma FirstEnd(st: Strategy, b: Board, row: int, col: int, order: seq<int>, i: int)
    requires Suits(st, b) && InRange(b.n, row, col) && At(b, row, col) == Cell(0, false)
    requires forall k :: 0 <= k < |order| ==> 1 <= order[k] <= b.n
    requires i == |order|
    ensures TryValues(st, b, row, col, order, i) == FirstOutcome(st, b, row, col, order, i)
  {
  }

  /** A solve with an empty cell returns the branch of the first value, in
      the strategy's order, that succeeds at the chosen cell. */
  lemma SolveFirst(st: Strategy, b: Board)
    requires Suits(st, b) && Choose(st, b).Some?
    ensures var ch := Choose(st, b).value;
            Solve(st, b) == FirstOutcome(st, b, ch.row, ch.col, ch.order, 0)
  {
    SolveUnfold(st, b);
    var ch := Choose(st, b).value;
    TryValuesFirst(st, b, ch.row, ch.col, ch.order, 0);
  }

  /** An empty cell with no candidate makes MRV fail at once, without any
      write: it branches on a dead cell no later than that one, where no value
      of its order passes the validity check, so no branch is ever entered. */
  lemma MrvFailsAtDeadCell(b: Board, row: int, col: int)
    requires WellFormed(b) && IsEmptyAt(b, row, col) && CandidateCount(b, row, col) == 0
    ensures Choose(MinRemaining, b).Some?
    ensures var ch := Choose(MinRemaining, b).value;
            && CandidateCount(b, ch.row, ch.col) == 0 && !Before(row, col, ch.row, ch.col)
            && (forall k :: 0 <= k < |ch.order| ==> !IsValidCell(b, ch.row, ch.col, ch.order[k]))
            && SolveMrv(b) == TryValues(MinRemaining, b, ch.row, ch.col, ch.order, 0)
            && FirstSuccess(MinRemaining, b, ch.row, ch.col, ch.order, 0) == |ch.order|
    ensures SolveMrv(b) == Outcome(false, b)
  {
    MrvSelectsFirstDeadCell(b, row, col);
    SolveUnfold(MinRemaining, b);
    var ch := Choose(MinRemaining, b).value;
    CandidateCountCounts(b, ch.row, ch.col);
    NoValidValueFails(MinRemaining, b, ch.row, ch.col, ch.order, 0);
  }

  /** Any two solvers for the board's layout select the same cell and order. */
  lemma SelectAgree(s1: LcvSolver, s2: LcvSolver, b: Board)
    requires WellFormed(b) && SolverFor(s1, b.Shape()) && SolverFor(s2, b.Shape())
    ensures ChooseLeastConstraining(s1, b) == ChooseLeastConstraining(s2, b)
  {
    match SelectUnassignedCell(b)
    case None =>
    case Some(sel) =>
      OrderAgree(s1, s2, b, sel.row, sel.col, Some(sel.candidates));
  }

  lemma ChooseIsLcv(s: LcvSolver, b: Board)
    requires WellFormed(b) && SolverFor(s, b.Shape())
    ensures Suits(LeastConstraining(s), b)
    ensures Choose(LeastConstraining(s), b) == ChooseLeastConstraining(s, b)
  {
  }

  lemma SolveFull(st: Strategy, b: Board)
    requires Suits(st, b) && Choose(st, b).None?
    ensures Solve(st, b) == Outcome(true, b)
  {
  }

  /** Any two LCV solvers for the board's layout produce the same outcome. */
  lemma {:induction false} SolveAgree(s1: LcvSolver, s2: LcvSolver, b: Board)
    requires WellFormed(b) && SolverFor(s1, b.Shape()) && SolverFor(s2, b.Shape())
    ensures Solve(LeastConstraining(s1), b) == Solve(LeastConstraining(s2), b)
    decreases EmptyCount(b), 1, 0
  {
    var st1, st2 := LeastConstraining(s1), LeastConstraining(s2);
    ChooseIsLcv(s1, b);
    ChooseIsLcv(s2, b);
    SelectAgree(s1, s2, b);
    if Choose(st1, b).Some? {
      BranchAgree(s1, s2, b);
    } else {
      SolveFull(st1, b);
      SolveFull(st2, b);
    }
  }

  /** The branching case of SolveAgree: both loop over the same choice. */
  lemma {:induction false} BranchAgree(s1: LcvSolver, s2: LcvSolver, b: Board)
    requires WellFormed(b) && SolverFor(s1, b.Shape()) && SolverFor(s2, b.Shape())
    requires Choose(LeastConstraining(s1), b) == Choose(LeastConstraining(s2), b)
    requires Choose(LeastConstraining(s1), b).Some?
    ensures Solve(LeastConstraining(s1), b) == Solve(LeastConstraining(s2), b)
    decreases EmptyCount(b), 1, -1
  {
    SolveUnfold(LeastConstraining(s1), b);
    SolveUnfold(LeastConstraining(s2), b);
    var ch := Choose(LeastConstraining(s1), b).value;
    TryAgree(s1, s2, b, ch.row, ch.col, ch.order, 0);
  }

  lemma {:induction false} TryAgree(s1: LcvSolver, s2: LcvSolver, b: Board, row: int, col: int, order: seq<int>, i: int)
    requires WellFormed(b) && SolverFor(s1, b.Shape()) && SolverFor(s2, b.Shape())
    requires InRange(b.n, row, col) && At(b, row, col) == Cell(0, false)
    requires forall k :: 0 <= k < |order| ==> 1 <= order[k] <= b.n
    requires 0 <= i <= |order|
    ensures TryValues(LeastConstraining(s1), b, row, col, order, i)
            == TryValues(LeastConstraining(s2), b, row, col, order, i)
    decreases EmptyCount(b), 0, |order| - i
  {
    if i < |order| {
      var v := order[i];
      if IsValidCell(b, row, col, v) {
        var placed := SetCell(b, row, col, v);
        FillDecreasesEmptyCount(b, row, col, v);
        SolveAgree(s1, s2, placed);
        SetCellUndo(b, row, col, v);
      }
      TryAgree(s1, s2, b, row, col, order, i + 1);
    }
  }

  /** The eager table and lazy recomputation give the same outcome. */
  lemma EagerLazySolveAgree(b: Board)
    requires WellFormed(b)
    ensures SolveLcv(NewLcvSolver(b.Shape(), false), b) == SolveLcv(NewLcvSolver(b.Shape(), true), b)
  {
    SolveAgree(NewLcvSolver(b.Shape(), false), NewLcvSolver(b.Shape(), true), b);
  }
}
