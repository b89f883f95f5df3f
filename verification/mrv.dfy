/** Candidate values of a cell and the minimum-remaining-values scan shared by
    the MRV and LCV solvers. */
module Mrv {
  import opened Wrappers
  import opened Boards

  /** The values v..n that are valid at (row, col), ascending. */
  function ValidFrom(b: Board, row: int, col: int, v: int): (r: seq<int>)
    requires WellFormed(b) && InRange(b.n, row, col) && 1 <= v <= b.n + 1
    decreases b.n + 1 - v
    ensures forall k :: 0 <= k < |r| ==> v <= r[k] <= b.n && IsValidCell(b, row, col, r[k])
    ensures forall x :: v <= x <= b.n && IsValidCell(b, row, col, x) ==> x in r
    ensures forall i, j :: 0 <= i < j < |r| ==> r[i] < r[j]
  {
    if v == b.n + 1 then []
    else if IsValidCell(b, row, col, v) then [v] + ValidFrom(b, row, col, v + 1)
    else ValidFrom(b, row, col, v + 1)
  }

  /** The candidate list of a cell: the values 1..n valid there, ascending. */
  function ValidValues(b: Board, row: int, col: int): (r: seq<int>)
    requires WellFormed(b) && InRange(b.n, row, col)
    ensures forall x :: x in r <==> 1 <= x <= b.n && IsValidCell(b, row, col, x)
    ensures forall i, j :: 0 <= i < j < |r| ==> r[i] < r[j]
  {
    ValidFrom(b, row, col, 1)
  }

  /** The count loop of find_empty_cell_mrv: how many values are valid. */
  function CandidateCount(b: Board, row: int, col: int): nat
    requires WellFormed(b) && InRange(b.n, row, col)
  {
    |ValidValues(b, row, col)|
  }

  /** A strictly ascending sequence lists as many values as its set holds. */
  lemma {:induction false} AscendingCard(s: seq<int>)
    requires forall i, j :: 0 <= i < j < |s| ==> s[i] < s[j]
    ensures |set x | x in s| == |s|
  {
    if |s| > 0 {
      AscendingCard(s[1..]);
      SetOfCons(s);
      HeadNotInTail(s);
    }
  }

  /** The values of a nonempty sequence are its head and the values of its tail. */
  lemma SetOfCons(s: seq<int>)
    requires |s| > 0
    ensures (set x | x in s) == {s[0]} + (set x | x in s[1..])
  {
    forall x ensures x in s <==> x == s[0] || x in s[1..] {
      if x in s && x != s[0] {
        var k :| 0 <= k < |s| && s[k] == x;
        assert s[1..][k - 1] == x;
      }
    }
  }

  /** In a strictly ascending sequence the head does not recur in the tail. */
  lemma HeadNotInTail(s: seq<int>)
    requires forall i, j :: 0 <= i < j < |s| ==> s[i] < s[j]
    requires |s| > 0
    ensures s[0] !in (set x | x in s[1..])
  {
    forall k | 0 <= k < |s| - 1 ensures s[1..][k] != s[0] {
      assert s[1..][k] == s[k + 1];
    }
  }

  /** A strictly ascending sequence of values in lo..hi has at most hi - lo + 1
      entries. */
  lemma {:induction false} AscendingLength(s: seq<int>, lo: int, hi: int)
    requires forall i, j :: 0 <= i < j < |s| ==> s[i] < s[j]
    requires forall k :: 0 <= k < |s| ==> lo <= s[k] <= hi
    ensures |s| <= if hi < lo then 0 else hi - lo + 1
  {
    if |s| > 0 {
      var t := s[1..];
      forall k | 0 <= k < |t| ensures s[0] + 1 <= t[k] <= hi {
        assert t[k] == s[k + 1];
      }
      AscendingLength(t, s[0] + 1, hi);
    }
  }

  /** The candidate count is the number of values in 1..n valid at the cell:
      at most n, and 0 exactly when no value is valid (a dead cell). */
  lemma CandidateCountCounts(b: Board, row: int, col: int)
    requires WellFormed(b) && InRange(b.n, row, col)
    ensures CandidateCount(b, row, col) == |set v | 1 <= v <= b.n && IsValidCell(b, row, col, v)|
    ensures CandidateCount(b, row, col) <= b.n
    ensures CandidateCount(b, row, col) == 0 <==> forall v :: 1 <= v <= b.n ==> !IsValidCell(b, row, col, v)
  {
    var r := ValidValues(b, row, col);
    var valid := set v | 1 <= v <= b.n && IsValidCell(b, row, col, v);
    AscendingCard(r);
    assert (set x | x in r) == valid;
    forall k | 0 <= k < |r| ensures 1 <= r[k] <= b.n {
      assert r[k] in r;
    }
    AscendingLength(r, 1, b.n);
    if w :| 1 <= w <= b.n && IsValidCell(b, row, col, w) {
      assert w in r;
    }
  }

  /** A scanned empty cell and its candidate count. */
  datatype Pick = Pick(row: int, col: int, count: nat)

  ghost predicate IsEmptyAt(b: Board, i: int, j: int)
    requires Shaped(b)
  {
    InRange(b.n, i, j) && At(b, i, j).value == 0
  }

  /** What the scan knows after visiting every cell before (row, col):
      each empty cell there had more than stopAt candidates, and `best` is
      the first of them with the fewest candidates (None if there was none). */
  ghost predicate ScannedSummary(b: Board, stopAt: nat, row: int, col: int, best: Option<Pick>)
    requires WellFormed(b)
  {
    (forall i, j :: IsEmptyAt(b, i, j) && Before(i, j, row, col) ==> CandidateCount(b, i, j) > stopAt)
    && match best
       case None =>
         forall i, j :: IsEmptyAt(b, i, j) ==> !Before(i, j, row, col)
       case Some(p) =>
         && IsEmptyAt(b, p.row, p.col) && Before(p.row, p.col, row, col)
         && p.count == CandidateCount(b, p.row, p.col)
         && (forall i, j :: IsEmptyAt(b, i, j) && Before(i, j, row, col) ==> p.count <= CandidateCount(b, i, j))
         && (forall i, j :: IsEmptyAt(b, i, j) && Before(i, j, p.row, p.col) ==> p.count < CandidateCount(b, i, j))
  }

  /** The cell the whole scan selects: an empty cell with its true count such
      that every earlier empty cell has more candidates than it and more than
      stopAt, and, unless the scan stopped early at it, no empty cell has fewer. */
  ghost predicate IsScanChoice(b: Board, stopAt: nat, p: Pick)
    requires WellFormed(b)
  {
    && IsEmptyAt(b, p.row, p.col)
    && p.count == CandidateCount(b, p.row, p.col)
    && (forall i, j :: IsEmptyAt(b, i, j) && Before(i, j, p.row, p.col) ==>
          CandidateCount(b, i, j) > stopAt && CandidateCount(b, i, j) > p.count)
    && (p.count > stopAt ==> forall i, j :: IsEmptyAt(b, i, j) ==> p.count <= CandidateCount(b, i, j))
  }

  lemma SummaryNextRow(b: Board, stopAt: nat, row: int, best: Option<Pick>)
    requires WellFormed(b) && 0 <= row < b.n && ScannedSummary(b, stopAt, row, b.n, best)
    ensures ScannedSummary(b, stopAt, row + 1, 0, best)
  {
  }

  lemma SummarySkipFilled(b: Board, stopAt: nat, row: int, col: int, best: Option<Pick>)
    requires WellFormed(b) && InRange(b.n, row, col) && At(b, row, col).value != 0
    requires ScannedSummary(b, stopAt, row, col, best)
    ensures ScannedSummary(b, stopAt, row, col + 1, best)
  {
  }

  lemma SummaryTake(b: Board, stopAt: nat, row: int, col: int, best: Option<Pick>)
    requires WellFormed(b) && IsEmptyAt(b, row, col) && CandidateCount(b, row, col) > stopAt
    requires best.None? || CandidateCount(b, row, col) < best.value.count
    requires ScannedSummary(b, stopAt, row, col, best)
    ensures ScannedSummary(b, stopAt, row, col + 1, Some(Pick(row, col, CandidateCount(b, row, col))))
  {
    var c := CandidateCount(b, row, col);
    forall i, j | IsEmptyAt(b, i, j) && Before(i, j, row, col + 1)
      ensures CandidateCount(b, i, j) > stopAt && c <= CandidateCount(b, i, j)
    {
      if i != row || j != col {
        assert Before(i, j, row, col);
      }
    }
  }

  lemma SummaryKeep(b: Board, stopAt: nat, row: int, col: int, best: Option<Pick>)
    requires WellFormed(b) && IsEmptyAt(b, row, col) && CandidateCount(b, row, col) > stopAt
    requires best.Some? && best.value.count <= CandidateCount(b, row, col)
    requires ScannedSummary(b, stopAt, row, col, best)
    ensures ScannedSummary(b, stopAt, row, col + 1, best)
  {
    var p := best.value;
    forall i, j | IsEmptyAt(b, i, j) && Before(i, j, row, col + 1)
      ensures CandidateCount(b, i, j) > stopAt && p.count <= CandidateCount(b, i, j)
    {
      if i != row || j != col {
        assert Before(i, j, row, col);
      }
    }
  }

  lemma SummaryStop(b: Board, stopAt: nat, row: int, col: int, best: Option<Pick>)
    requires WellFormed(b) && IsEmptyAt(b, row, col) && CandidateCount(b, row, col) <= stopAt
    requires ScannedSummary(b, stopAt, row, col, best)
    ensures !NoEmptyCell(b)
    ensures IsScanChoice(b, stopAt, Pick(row, col, CandidateCount(b, row, col)))
  {
  }

  lemma SummaryFinish(b: Board, stopAt: nat, best: Option<Pick>)
    requires WellFormed(b) && ScannedSummary(b, stopAt, b.n, 0, best)
    ensures best.None? <==> NoEmptyCell(b)
    ensures best.Some? ==> IsScanChoice(b, stopAt, best.value)
  {
    if best.None? {
      forall i, j | InRange(b.n, i, j)
        ensures At(b, i, j).value != 0
      {
        assert Before(i, j, b.n, 0);
      }
    }
  }

  /** The row-major scan from (row, col) on, keeping the first cell with the
      strictly smallest count and returning at once at a cell with at most
      stopAt candidates. */
  function ScanMin(b: Board, stopAt: nat, row: int, col: int, best: Option<Pick>): (r: Option<Pick>)
    requires WellFormed(b) && 0 <= row <= b.n && 0 <= col <= b.n
    requires ScannedSummary(b, stopAt, row, col, best)
    decreases b.n - row, b.n - col
    ensures r.None? <==> NoEmptyCell(b)
    ensures r.Some? ==> IsScanChoice(b, stopAt, r.value)
  {
    if row == b.n then
      SummaryFinish(b, stopAt, best);
      best
    else if col == b.n then
      SummaryNextRow(b, stopAt, row, best);
      ScanMin(b, stopAt, row + 1, 0, best)
    else if At(b, row, col).value != 0 then
      SummarySkipFilled(b, stopAt, row, col, best);
      ScanMin(b, stopAt, row, col + 1, best)
    else
      var count := CandidateCount(b, row, col);
      if count <= stopAt then
        SummaryStop(b, stopAt, row, col, best);
        Some(Pick(row, col, count))
      else if best.None? || count < best.value.count then
        SummaryTake(b, stopAt, row, col, best);
        ScanMin(b, stopAt, row, col + 1, Some(Pick(row, col, count)))
      else
        SummaryKeep(b, stopAt, row, col, best);
        ScanMin(b, stopAt, row, col + 1, best)
  }

  /** The first empty cell in row-major order with the fewest candidates;
      None iff the board is full. */
  function FindEmptyCellMrv(b: Board): (r: Option<Pos>)
    requires WellFormed(b)
    ensures r.None? <==> NoEmptyCell(b)
    ensures r.Some? ==>
              && IsEmptyAt(b, r.value.row, r.value.col)
              && (forall i, j :: IsEmptyAt(b, i, j) ==> CandidateCount(b, r.value.row, r.value.col) <= CandidateCount(b, i, j))
              && (forall i, j :: IsEmptyAt(b, i, j) && Before(i, j, r.value.row, r.value.col) ==>
                    CandidateCount(b, r.value.row, r.value.col) < CandidateCount(b, i, j))
  {
    match ScanMin(b, 0, 0, 0, None)
    case None => None
    case Some(p) => Some(Pos(p.row, p.col))
  }

  /** When some empty cell has no candidate, MRV selects the first such cell. */
  lemma MrvSelectsFirstDeadCell(b: Board, row: int, col: int)
    requires WellFormed(b) && IsEmptyAt(b, row, col) && CandidateCount(b, row, col) == 0
    ensures FindEmptyCellMrv(b).Some?
    ensures var p := FindEmptyCellMrv(b).value;
            && CandidateCount(b, p.row, p.col) == 0
            && !Before(row, col, p.row, p.col)
  {
    var r := FindEmptyCellMrv(b);
    assert !NoEmptyCell(b);
  }
}
