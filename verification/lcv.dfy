/** The least-constraining-value solver's helpers: neighbour sets (eager
    table or lazy recomputation), cell selection, and value ordering. */
module Lcv {
  import opened Wrappers
  import opened Boards
  import opened Mrv
  import opened ScoreSort

  // ---------------------------------------------------------------------
  // Neighbours

  /** (row, k'), k <= k' < n, k' != col: the row part of the neighbour list. */
  function RowNeighbors(l: Layout, row: int, col: int, k: int): (r: seq<Pos>)
    requires 0 <= k <= l.n
    decreases l.n - k
    ensures forall p :: p in r <==> p.row == row && k <= p.col < l.n && p.col != col
  {
    if k == l.n then []
    else (if k != col then [Pos(row, k)] else []) + RowNeighbors(l, row, col, k + 1)
  }

  /** (k', col), k <= k' < n, k' != row: the column part of the neighbour list. */
  function ColNeighbors(l: Layout, row: int, col: int, k: int): (r: seq<Pos>)
    requires 0 <= k <= l.n
    decreases l.n - k
    ensures forall p :: p in r <==> p.col == col && k <= p.row < l.n && p.row != row
  {
    if k == l.n then []
    else (if k != row then [Pos(k, col)] else []) + ColNeighbors(l, row, col, k + 1)
  }

  /** The cells of the block rectangle anchored at (sr, sc), from (x, y) on in
      row-major order, other than (row, col). */
  function BlockNeighbors(l: Layout, row: int, col: int, sr: int, sc: int, x: int, y: int): (r: seq<Pos>)
    requires sr <= x <= sr + l.blockRows && sc <= y <= sc + l.blockCols
    decreases sr + l.blockRows - x, sc + l.blockCols - y
    ensures forall p :: p in r <==>
              sr <= p.row < sr + l.blockRows && sc <= p.col < sc + l.blockCols
              && !Before(p.row, p.col, x, y) && p != Pos(row, col)
  {
    if x == sr + l.blockRows then []
    else if y == sc + l.blockCols then BlockNeighbors(l, row, col, sr, sc, x + 1, sc)
    else (if Pos(x, y) != Pos(row, col) then [Pos(x, y)] else []) + BlockNeighbors(l, row, col, sr, sc, x, y + 1)
  }

  /** The neighbours of (row, col) as one deduplicated set: exactly its peers. */
  function LazyNeighbors(l: Layout, row: int, col: int): (r: set<Pos>)
    requires BlocksFit(l) && InRange(l.n, row, col)
    ensures forall p :: p in r <==> InRange(l.n, p.row, p.col) && Peer(l, row, col, p.row, p.col)
  {
    AnchorRange(row, l.blockRows, l.n);
    AnchorRange(col, l.blockCols, l.n);
    var sr := BlockStart(row, l.blockRows);
    var sc := BlockStart(col, l.blockCols);
    var list := RowNeighbors(l, row, col, 0) + ColNeighbors(l, row, col, 0)
                + BlockNeighbors(l, row, col, sr, sc, sr, sc);
    set p | p in list
  }

  /** The table holds the lazy neighbour set of exactly the cells before (i, j). */
  ghost predicate TableUpTo(l: Layout, i: int, j: int, table: map<Pos, set<Pos>>)
    requires BlocksFit(l)
  {
    (forall p :: p in table <==> InRange(l.n, p.row, p.col) && Before(p.row, p.col, i, j))
    && forall p :: p in table ==> table[p] == LazyNeighbors(l, p.row, p.col)
  }

  lemma TableStep(l: Layout, i: int, j: int, table: map<Pos, set<Pos>>)
    requires BlocksFit(l) && InRange(l.n, i, j) && TableUpTo(l, i, j, table)
    ensures TableUpTo(l, i, j + 1, table[Pos(i, j) := LazyNeighbors(l, i, j)])
  {
  }

  lemma TableNextRow(l: Layout, i: int, table: map<Pos, set<Pos>>)
    requires BlocksFit(l) && 0 <= i < l.n && TableUpTo(l, i, l.n, table)
    ensures TableUpTo(l, i + 1, 0, table)
  {
  }

  lemma TableDone(l: Layout, table: map<Pos, set<Pos>>)
    requires BlocksFit(l) && TableUpTo(l, l.n, 0, table)
    ensures forall p :: p in table <==> InRange(l.n, p.row, p.col)
  {
  }

  /** The table filled in row-major order from (i, j) on, on top of `table`,
      which already holds the cells before (i, j). */
  function PrecomputeFrom(l: Layout, i: int, j: int, table: map<Pos, set<Pos>>): (r: map<Pos, set<Pos>>)
    requires BlocksFit(l) && 0 <= i <= l.n && 0 <= j <= l.n
    requires TableUpTo(l, i, j, table)
    decreases l.n - i, l.n - j
    ensures forall p :: p in r <==> InRange(l.n, p.row, p.col)
    ensures forall p :: p in r ==> r[p] == LazyNeighbors(l, p.row, p.col)
  {
    if i == l.n then
      TableDone(l, table);
      table
    else if j == l.n then
      TableNextRow(l, i, table);
      PrecomputeFrom(l, i + 1, 0, table)
    else
      TableStep(l, i, j, table);
      PrecomputeFrom(l, i, j + 1, table[Pos(i, j) := LazyNeighbors(l, i, j)])
  }

  /** The eager neighbour table: one entry per cell, equal to the lazy set. */
  function PrecomputeNeighbors(l: Layout): (r: map<Pos, set<Pos>>)
    requires BlocksFit(l)
    ensures forall p :: p in r <==> InRange(l.n, p.row, p.col)
    ensures forall p :: p in r ==> r[p] == LazyNeighbors(l, p.row, p.col)
  {
    PrecomputeFrom(l, 0, 0, map[])
  }

  /** The solver's configuration: lazy neighbours, or an eager table. */
  datatype LcvSolver = LcvSolver(lazy: bool, neighbors: map<Pos, set<Pos>>)

  /** LCVSolver.__init__: the eager mode fills the table up front. */
  function NewLcvSolver(l: Layout, lazy: bool := true): (s: LcvSolver)
    requires BlocksFit(l)
    ensures s.lazy == lazy && SolverFor(s, l)
  {
    LcvSolver(lazy, if lazy then map[] else PrecomputeNeighbors(l))
  }

  /** The solver suits boards of layout l: in eager mode its table holds the
      neighbour set of every cell. */
  ghost predicate SolverFor(s: LcvSolver, l: Layout)
  {
    BlocksFit(l)
    && (!s.lazy ==>
          forall p: Pos :: InRange(l.n, p.row, p.col) ==> p in s.neighbors && s.neighbors[p] == LazyNeighbors(l, p.row, p.col))
  }

  /** The neighbours of (row, col), from the table or recomputed. */
  function GetNeighbors(s: LcvSolver, l: Layout, row: int, col: int): (r: set<Pos>)
    requires SolverFor(s, l) && InRange(l.n, row, col)
    ensures forall p :: p in r <==> InRange(l.n, p.row, p.col) && Peer(l, row, col, p.row, p.col)
  {
    if s.lazy then LazyNeighbors(l, row, col) else s.neighbors[Pos(row, col)]
  }

  /** Any two solvers for the layout, in particular the eager and the lazy
      one, give the same neighbour set for every cell. */
  lemma NeighborsAgree(s1: LcvSolver, s2: LcvSolver, l: Layout, row: int, col: int)
    requires SolverFor(s1, l) && SolverFor(s2, l) && InRange(l.n, row, col)
    ensures GetNeighbors(s1, l, row, col) == GetNeighbors(s2, l, row, col)
  {
    var n1, n2 := GetNeighbors(s1, l, row, col), GetNeighbors(s2, l, row, col);
    forall p ensures p in n1 <==> p in n2 {
    }
  }

  // ---------------------------------------------------------------------
  // Cell selection

  /** A selected cell and its candidate list. */
  datatype Selection = Selection(row: int, col: int, candidates: seq<int>)

  /** The MRV scan that also returns at once at a cell with one candidate;
      the candidate list is the cell's valid values, ascending. */
  function SelectUnassignedCell(b: Board): (r: Option<Selection>)
    requires WellFormed(b)
    ensures r.None? <==> NoEmptyCell(b)
    ensures r.Some? ==>
              && IsScanChoice(b, 1, Pick(r.value.row, r.value.col, |r.value.candidates|))
              && (forall v :: v in r.value.candidates <==> 1 <= v <= b.n && IsValidCell(b, r.value.row, r.value.col, v))
              && (forall i, j :: 0 <= i < j < |r.value.candidates| ==> r.value.candidates[i] < r.value.candidates[j])
  {
    match ScanMin(b, 1, 0, 0, None)
    case None => None
    case Some(p) => Some(Selection(p.row, p.col, ValidValues(b, p.row, p.col)))
  }

  /** The two readings of the selection: the first empty cell with at most
      one candidate if there is one, otherwise the first with the fewest. */
  lemma SelectionCases(b: Board)
    requires WellFormed(b) && SelectUnassignedCell(b).Some?
    ensures var s := SelectUnassignedCell(b).value;
            (exists i, j :: IsEmptyAt(b, i, j) && CandidateCount(b, i, j) <= 1) ==>
              && |s.candidates| <= 1
              && forall i, j :: IsEmptyAt(b, i, j) && Before(i, j, s.row, s.col) ==> CandidateCount(b, i, j) > 1
    ensures var s := SelectUnassignedCell(b).value;
            (forall i, j :: IsEmptyAt(b, i, j) ==> CandidateCount(b, i, j) > 1) ==>
              && (forall i, j :: IsEmptyAt(b, i, j) ==> |s.candidates| <= CandidateCount(b, i, j))
              && forall i, j :: IsEmptyAt(b, i, j) && Before(i, j, s.row, s.col) ==> |s.candidates| < CandidateCount(b, i, j)
  {
    if exists i, j :: IsEmptyAt(b, i, j) && CandidateCount(b, i, j) <= 1 {
      var i, j :| IsEmptyAt(b, i, j) && CandidateCount(b, i, j) <= 1;
    }
  }

  // ---------------------------------------------------------------------
  // Value ordering

  /** A neighbour that still accepts v: in range, empty, and v valid there. */
  predicate Accepts(b: Board, p: Pos, v: int)
    requires WellFormed(b)
  {
    InRange(b.n, p.row, p.col) && At(b, p.row, p.col).value == 0 && IsValidCell(b, p.row, p.col, v)
  }

  /** How many empty neighbours still accept v: its constraint score. */
  function Constraint(b: Board, nbrs: set<Pos>, v: int): nat
    requires WellFormed(b)
  {
    |set p | p in nbrs && Accepts(b, p, v)|
  }

  /** The counting loop of order_values_lcv over a listing of the neighbours:
      one for each listed neighbour that still accepts v. */
  function CountAccepting(b: Board, list: seq<Pos>, v: int): nat
    requires WellFormed(b)
  {
    if |list| == 0 then 0
    else CountAccepting(b, list[..|list| - 1], v) + (if Accepts(b, list[|list| - 1], v) then 1 else 0)
  }

  /** Looping over any duplicate-free listing of the neighbour set, as the
      loop over tuple(set(...)) does, counts exactly Constraint. */
  lemma {:induction false} ConstraintLoop(b: Board, list: seq<Pos>, nbrs: set<Pos>, v: int)
    requires WellFormed(b)
    requires forall i, j :: 0 <= i < j < |list| ==> list[i] != list[j]
    requires forall p :: p in list <==> p in nbrs
    ensures CountAccepting(b, list, v) == Constraint(b, nbrs, v)
  {
    if |list| == 0 {
      assert (set p | p in nbrs && Accepts(b, p, v)) == {};
    } else {
      var last := list[|list| - 1];
      ListingFront(list, nbrs);
      ConstraintLoop(b, list[..|list| - 1], nbrs - {last}, v);
      ConstraintRemove(b, nbrs, last, v);
    }
  }

  /** Dropping the last entry of a duplicate-free listing lists the set
      without that entry. */
  lemma ListingFront(list: seq<Pos>, nbrs: set<Pos>)
    requires |list| > 0
    requires forall i, j :: 0 <= i < j < |list| ==> list[i] != list[j]
    requires forall p :: p in list <==> p in nbrs
    ensures var front := list[..|list| - 1];
            && (forall i, j :: 0 <= i < j < |front| ==> front[i] != front[j])
            && (forall p :: p in front <==> p in nbrs - {list[|list| - 1]})
  {
    var front, last := list[..|list| - 1], list[|list| - 1];
    forall p ensures p in front <==> p in nbrs - {last} {
      if p in front {
        var k :| 0 <= k < |front| && front[k] == p;
        assert list[k] == p;
      }
      if p in nbrs - {last} {
        var k :| 0 <= k < |list| && list[k] == p;
        assert front[k] == p;
      }
    }
  }

  /** Taking one neighbour out of the set lowers the score by one exactly
      when that neighbour accepts v. */
  lemma ConstraintRemove(b: Board, nbrs: set<Pos>, q: Pos, v: int)
    requires WellFormed(b) && q in nbrs
    ensures Constraint(b, nbrs, v) == Constraint(b, nbrs - {q}, v) + (if Accepts(b, q, v) then 1 else 0)
  {
    var counted := set p | p in nbrs && Accepts(b, p, v);
    var rest := set p | p in nbrs - {q} && Accepts(b, p, v);
    if Accepts(b, q, v) {
      assert counted == rest + {q};
    } else {
      assert counted == rest;
    }
  }

  /** Pairs each candidate with its constraint score. */
  function ScoreAll(b: Board, nbrs: set<Pos>, list: seq<int>): (r: seq<Scored>)
    requires WellFormed(b)
    ensures |r| == |list|
    ensures forall i :: 0 <= i < |r| ==> r[i] == Scored(list[i], Constraint(b, nbrs, list[i]))
  {
    seq(|list|, i requires 0 <= i < |list| => Scored(list[i], Constraint(b, nbrs, list[i])))
  }

  function Values(s: seq<Scored>): (r: seq<int>)
    ensures |r| == |s| && forall i :: 0 <= i < |s| ==> r[i] == s[i].value
  {
    seq(|s|, i requires 0 <= i < |s| => s[i].value)
  }

  /** The values of s whose constraint score is k, in their order in s. */
  function ValuesScoring(b: Board, nbrs: set<Pos>, s: seq<int>, k: nat): seq<int>
    requires WellFormed(b)
    decreases |s|
  {
    if |s| == 0 then []
    else ValuesScoring(b, nbrs, s[..|s| - 1], k)
         + (if Constraint(b, nbrs, s[|s| - 1]) == k then [s[|s| - 1]] else [])
  }

  /** Every element's score is its value's constraint score. */
  ghost predicate ScoredBy(b: Board, nbrs: set<Pos>, t: seq<Scored>)
    requires WellFormed(b)
  {
    forall i :: 0 <= i < |t| ==> t[i].score == Constraint(b, nbrs, t[i].value)
  }

  lemma {:induction false} ValuesOfWithScore(b: Board, nbrs: set<Pos>, t: seq<Scored>, k: nat)
    requires WellFormed(b) && ScoredBy(b, nbrs, t)
    ensures Values(WithScore(t, k)) == ValuesScoring(b, nbrs, Values(t), k)
    decreases |t|
  {
    if |t| > 0 {
      var front := t[..|t| - 1];
      assert Values(t)[..|t| - 1] == Values(front);
      ValuesOfWithScore(b, nbrs, front, k);
      var tail := if t[|t| - 1].score == k then [t[|t| - 1]] else [];
      assert Values(WithScore(front, k) + tail) == Values(WithScore(front, k)) + Values(tail);
    }
  }

  /** The list order_values_lcv works on: the given one, or the valid values. */
  function CandidatesOrValid(b: Board, row: int, col: int, candidateList: Option<seq<int>>): (r: seq<int>)
    requires WellFormed(b) && InRange(b.n, row, col)
    ensures candidateList.Some? ==> r == candidateList.value
    ensures candidateList.None? ==>
              && (forall v :: v in r <==> 1 <= v <= b.n && IsValidCell(b, row, col, v))
              && (forall i, j :: 0 <= i < j < |r| ==> r[i] < r[j])
  {
    match candidateList
    case Some(list) => list
    case None => ValidValues(b, row, col)
  }

  /** The candidates in ascending order of constraint score, ties kept in
      their given order: a permutation of the candidate list. */
  function OrderValues(s: LcvSolver, b: Board, row: int, col: int, candidateList: Option<seq<int>>): (r: seq<int>)
    requires WellFormed(b) && SolverFor(s, b.Shape()) && InRange(b.n, row, col)
    ensures multiset(r) == multiset(CandidatesOrValid(b, row, col, candidateList))
    ensures forall v :: v in r <==> v in CandidatesOrValid(b, row, col, candidateList)
  {
    var nbrs := GetNeighbors(s, b.Shape(), row, col);
    var list := CandidatesOrValid(b, row, col, candidateList);
    OrderValuesFacts(b, nbrs, list, ScoreAll(b, nbrs, list), SortByScore(ScoreAll(b, nbrs, list)));
    OrderByScore(b, nbrs, list)
  }

  /** The order is ascending in constraint score and stable: the candidates of
      each score keep their relative order from the candidate list. */
  lemma OrderValuesSortedStable(s: LcvSolver, b: Board, row: int, col: int, candidateList: Option<seq<int>>)
    requires WellFormed(b) && SolverFor(s, b.Shape()) && InRange(b.n, row, col)
    ensures var r := OrderValues(s, b, row, col, candidateList);
            var list := CandidatesOrValid(b, row, col, candidateList);
            var nbrs := GetNeighbors(s, b.Shape(), row, col);
            && (forall i, j :: 0 <= i < j < |r| ==> Constraint(b, nbrs, r[i]) <= Constraint(b, nbrs, r[j]))
            && (forall k :: ValuesScoring(b, nbrs, r, k) == ValuesScoring(b, nbrs, list, k))
  {
    var nbrs := GetNeighbors(s, b.Shape(), row, col);
    var list := CandidatesOrValid(b, row, col, candidateList);
    OrderValuesFacts(b, nbrs, list, ScoreAll(b, nbrs, list), SortByScore(ScoreAll(b, nbrs, list)));
  }

  /** Any two solvers for the layout order a cell's candidates the same way. */
  lemma OrderAgree(s1: LcvSolver, s2: LcvSolver, b: Board, row: int, col: int, candidateList: Option<seq<int>>)
    requires WellFormed(b) && SolverFor(s1, b.Shape()) && SolverFor(s2, b.Shape()) && InRange(b.n, row, col)
    ensures OrderValues(s1, b, row, col, candidateList) == OrderValues(s2, b, row, col, candidateList)
  {
    NeighborsAgree(s1, s2, b.Shape(), row, col);
  }

  /** The values of list, stably sorted by their constraint score against nbrs. */
  function OrderByScore(b: Board, nbrs: set<Pos>, list: seq<int>): seq<int>
    requires WellFormed(b)
  {
    Values(SortByScore(ScoreAll(b, nbrs, list)))
  }

  lemma OrderValuesFacts(b: Board, nbrs: set<Pos>, list: seq<int>, scored: seq<Scored>, sorted: seq<Scored>)
    requires WellFormed(b) && scored == ScoreAll(b, nbrs, list) && sorted == SortByScore(scored)
    ensures multiset(Values(sorted)) == multiset(list)
    ensures forall v :: v in Values(sorted) <==> v in list
    ensures forall i, j :: 0 <= i < j < |sorted| ==> Constraint(b, nbrs, Values(sorted)[i]) <= Constraint(b, nbrs, Values(sorted)[j])
    ensures forall k :: ValuesScoring(b, nbrs, Values(sorted), k) == ValuesScoring(b, nbrs, list, k)
  {
    assert Values(scored) == list;
    SortedScoredBy(b, nbrs, scored, sorted);
    OrderedMembers(scored, sorted, list);
    OrderedByConstraint(b, nbrs, sorted);
    forall k ensures ValuesScoring(b, nbrs, Values(sorted), k) == ValuesScoring(b, nbrs, list, k) {
      SortByScoreStable(scored, k);
      ValuesOfWithScore(b, nbrs, sorted, k);
      ValuesOfWithScore(b, nbrs, scored, k);
    }
  }

  /** Sorting keeps every element's score equal to its value's constraint score. */
  lemma SortedScoredBy(b: Board, nbrs: set<Pos>, scored: seq<Scored>, sorted: seq<Scored>)
    requires WellFormed(b) && ScoredBy(b, nbrs, scored) && sorted == SortByScore(scored)
    ensures ScoredBy(b, nbrs, sorted)
  {
    forall i | 0 <= i < |sorted| ensures sorted[i].score == Constraint(b, nbrs, sorted[i].value) {
      assert sorted[i] in multiset(scored);
    }
  }

  lemma OrderedMembers(scored: seq<Scored>, sorted: seq<Scored>, list: seq<int>)
    requires sorted == SortByScore(scored) && Values(scored) == list
    ensures multiset(Values(sorted)) == multiset(list)
    ensures forall v :: v in Values(sorted) <==> v in list
  {
    MultisetOfSortedValues(scored);
    forall v ensures v in Values(sorted) <==> v in list {
      assert v in Values(sorted) <==> v in multiset(Values(sorted));
      assert v in list <==> v in multiset(list);
    }
  }

  lemma OrderedByConstraint(b: Board, nbrs: set<Pos>, sorted: seq<Scored>)
    requires WellFormed(b) && ScoredBy(b, nbrs, sorted) && SortedByScore(sorted)
    ensures forall i, j :: 0 <= i < j < |sorted| ==> Constraint(b, nbrs, Values(sorted)[i]) <= Constraint(b, nbrs, Values(sorted)[j])
  {
    forall i, j | 0 <= i < j < |sorted|
      ensures Constraint(b, nbrs, Values(sorted)[i]) <= Constraint(b, nbrs, Values(sorted)[j])
    {
      assert sorted[i].score <= sorted[j].score;
    }
  }

  lemma ValuesAppend(a: seq<Scored>, c: seq<Scored>)
    ensures Values(a + c) == Values(a) + Values(c)
  {
  }

  lemma {:induction false} InsertValues(x: Scored, s: seq<Scored>)
    ensures multiset(Values(Insert(x, s))) == multiset(Values(s)) + multiset{x.value}
    decreases |s|
  {
    if |s| == 0 {
      assert Values([x]) == [x.value];
    } else if x.score < s[|s| - 1].score {
      var front := s[..|s| - 1];
      var last := s[|s| - 1];
      InsertValues(x, front);
      ValuesAppend(Insert(x, front), [last]);
      ValuesAppend(front, [last]);
      assert s == front + [last];
      assert Values([last]) == [last.value];
    } else {
      ValuesAppend(s, [x]);
      assert Values([x]) == [x.value];
    }
  }

  lemma ValuesSnoc(s: seq<Scored>)
    requires |s| > 0
    ensures Values(s) == Values(s[..|s| - 1]) + [s[|s| - 1].value]
  {
  }

  lemma {:induction false} MultisetOfSortedValues(s: seq<Scored>)
    ensures multiset(Values(SortByScore(s))) == multiset(Values(s))
    decreases |s|
  {
    if |s| > 0 {
      var front := s[..|s| - 1];
      var x := s[|s| - 1];
      var sortedFront := SortByScore(front);
      MultisetOfSortedValues(front);
      InsertValues(x, sortedFront);
      assert SortByScore(s) == Insert(x, sortedFront);
      ValuesSnoc(s);
      assert multiset(Values(s)) == multiset(Values(front)) + multiset{x.value};
    }
  }
}
