/** The n-by-n board of cells with rectangular blocks, its validity query,
    the first-empty-cell scan and the single-cell write. */
module Boards {
  import opened Wrappers
  import opened Cells

  /** Grid size and block dimensions; all that neighbourhoods depend on. */
  datatype Layout = Layout(n: nat, blockRows: nat, blockCols: nat)

  datatype Pos = Pos(row: int, col: int)

  datatype Board = Board(n: nat, blockRows: nat, blockCols: nat, grid: seq<seq<Cell>>)
  {
    function Shape(): Layout { Layout(n, blockRows, blockCols) }
  }

  predicate InRange(n: int, row: int, col: int)
  {
    0 <= row < n && 0 <= col < n
  }

  /** The grid has n rows of n cells. */
  predicate Shaped(b: Board)
  {
    |b.grid| == b.n && forall r :: 0 <= r < |b.grid| ==> |b.grid[r]| == b.n
  }

  /** Block dimensions under which every block lies inside the grid. */
  predicate BlocksFit(l: Layout)
  {
    0 < l.blockRows && 0 < l.blockCols && l.n % l.blockRows == 0 && l.n % l.blockCols == 0
  }

  function At(b: Board, row: int, col: int): Cell
    requires Shaped(b) && InRange(b.n, row, col)
  {
    b.grid[row][col]
  }

  /** A board every operation accepts: n-by-n, blocks that fit, no empty clue. */
  ghost predicate WellFormed(b: Board)
  {
    Shaped(b) && BlocksFit(b.Shape())
    && forall r, c :: InRange(b.n, r, c) ==> CellInv(At(b, r, c))
  }

  ghost predicate NoEmptyCell(b: Board)
    requires Shaped(b)
  {
    forall r, c :: InRange(b.n, r, c) ==> At(b, r, c).value != 0
  }

  /** Strict row-major order on positions. */
  predicate Before(r1: int, c1: int, r2: int, c2: int)
  {
    r1 < r2 || (r1 == r2 && c1 < c2)
  }

  // ---------------------------------------------------------------------
  // Construction

  /** Builds the board from the first n entries of the first n rows; the
      layout defaults to a 9-by-9 grid of 3-by-3 blocks. */
  function NewBoard(gridInit: seq<seq<int>>, n: nat := 9, blockRows: nat := 3, blockCols: nat := 3): (b: Board)
    requires n <= |gridInit| && forall r :: 0 <= r < n ==> n <= |gridInit[r]|
    ensures Shaped(b) && b.Shape() == Layout(n, blockRows, blockCols)
    ensures forall r, c :: InRange(n, r, c) ==>
              At(b, r, c).value == gridInit[r][c] && (At(b, r, c).isFixed <==> gridInit[r][c] != 0)
    ensures BlocksFit(b.Shape()) ==> WellFormed(b)
  {
    Board(n, blockRows, blockCols,
          seq(n, r requires 0 <= r < n =>
            seq(n, c requires 0 <= c < n => NewCell(gridInit[r][c]))))
  }

  // ---------------------------------------------------------------------
  // Blocks

  /** Which block band a row (or stack a column) falls in: the number of
      whole blocks of `size` before x, by repeated subtraction. */
  function BlockIndex(x: int, size: int): int
    decreases if x < 0 then 0 else x
  {
    if size <= 0 || x < size then 0 else 1 + BlockIndex(x - size, size)
  }

  /** x lies in the BlockIndex(x)-th band of `size` coordinates. */
  lemma {:induction false} BlockIndexBounds(x: int, size: int)
    requires 0 <= x && 0 < size
    ensures 0 <= BlockIndex(x, size)
    ensures BlockIndex(x, size) * size <= x < BlockIndex(x, size) * size + size
    decreases x
  {
    if x >= size {
      BlockIndexBounds(x - size, size);
      var q := BlockIndex(x - size, size);
      assert (q + 1) * size == q * size + size;
    }
  }

  lemma MulMonotone(a: int, b: int, s: int)
    requires a <= b && 0 < s
    ensures a * s <= b * s
  {
    assert (b - a) * s >= 0;
  }

  /** Two coordinates in the same band of `size` have the same quotient. */
  lemma BandUnique(q: int, d: int, size: int, x: int)
    requires 0 < size
    requires q * size <= x < q * size + size && d * size <= x < d * size + size
    ensures q == d
  {
    assert (q + 1) * size == q * size + size;
    assert (d + 1) * size == d * size + size;
    if q < d {
      MulMonotone(q + 1, d, size);
    } else if d < q {
      MulMonotone(d + 1, q, size);
    }
  }

  /** For a non-negative coordinate, the block index is the floor quotient
      of x by size. */
  lemma BlockIndexIsDiv(x: int, size: int)
    requires 0 <= x && 0 < size
    ensures BlockIndex(x, size) == x / size
  {
    BlockIndexBounds(x, size);
    assert x == (x / size) * size + x % size;
    BandUnique(BlockIndex(x, size), x / size, size, x);
  }

  /** The first row (or column) of the block containing x. */
  function BlockStart(x: int, size: int): int
  {
    BlockIndex(x, size) * size
  }

  /** The block anchored at BlockStart(x) lies inside 0..n and holds exactly
      the non-negative coordinates with the same block index as x. */
  lemma AnchorRange(x: int, size: int, n: int)
    requires 0 <= x < n && 0 < size && n % size == 0
    ensures 0 <= BlockStart(x, size) <= x < BlockStart(x, size) + size <= n
    ensures forall y {:trigger BlockIndex(y, size)} :: 0 <= y ==>
              (BlockStart(x, size) <= y < BlockStart(x, size) + size <==> BlockIndex(y, size) == BlockIndex(x, size))
  {
    AnchorBounds(x, size, n);
    var q := BlockIndex(x, size);
    forall y | 0 <= y
      ensures q * size <= y < q * size + size <==> BlockIndex(y, size) == q
    {
      InBand(y, q, size);
    }
  }

  /** The block holding x starts at or before x and ends at or before n. */
  lemma AnchorBounds(x: int, size: int, n: int)
    requires 0 <= x < n && 0 < size && n % size == 0
    ensures 0 <= BlockStart(x, size) <= x < BlockStart(x, size) + size <= n
  {
    BlockIndexBounds(x, size);
    var q := BlockIndex(x, size);
    var m := n / size;
    assert n == m * size;
    if q >= m {
      MulMonotone(m, q, size);
      assert false;
    }
    MulMonotone(q + 1, m, size);
    assert (q + 1) * size == q * size + size;
  }

  /** y is in the q-th band exactly when its block index is q. */
  lemma InBand(y: int, q: int, size: int)
    requires 0 <= y && 0 < size
    ensures q * size <= y < q * size + size <==> BlockIndex(y, size) == q
  {
    BlockIndexBounds(y, size);
    if q * size <= y < q * size + size {
      BandUnique(BlockIndex(y, size), q, size, y);
    }
  }

  /** Two cells see each other: same row, same column or same block. */
  predicate Sees(l: Layout, r1: int, c1: int, r2: int, c2: int)
  {
    r1 == r2 || c1 == c2
    || (BlockIndex(r1, l.blockRows) == BlockIndex(r2, l.blockRows)
        && BlockIndex(c1, l.blockCols) == BlockIndex(c2, l.blockCols))
  }

  /** A peer of a cell: a different cell that it sees. */
  predicate Peer(l: Layout, r1: int, c1: int, r2: int, c2: int)
  {
    Sees(l, r1, c1, r2, c2) && !(r1 == r2 && c1 == c2)
  }

  // ---------------------------------------------------------------------
  // Validity query

  /** The scan over row `row` and column `col` from index i on. */
  function RowColClear(b: Board, row: int, col: int, v: int, i: int): (r: bool)
    requires Shaped(b) && InRange(b.n, row, col) && 0 <= i <= b.n
    decreases b.n - i
    ensures r <==> forall k :: i <= k < b.n ==> At(b, row, k).value != v && At(b, k, col).value != v
  {
    if i == b.n then true
    else if At(b, row, i).value == v || At(b, i, col).value == v then false
    else RowColClear(b, row, col, v, i + 1)
  }

  /** The scan over the block rectangle [sr, sr+blockRows) x [sc, sc+blockCols),
      from (x, y) on in row-major order. */
  function BlockClear(b: Board, sr: int, sc: int, v: int, x: int, y: int): (r: bool)
    requires Shaped(b) && 0 <= sr && sr + b.blockRows <= b.n && 0 <= sc && sc + b.blockCols <= b.n
    requires sr <= x <= sr + b.blockRows && sc <= y <= sc + b.blockCols
    decreases sr + b.blockRows - x, sc + b.blockCols - y
    ensures r <==> forall i, j ::
              sr <= i < sr + b.blockRows && sc <= j < sc + b.blockCols && !Before(i, j, x, y)
              ==> At(b, i, j).value != v
  {
    if x == sr + b.blockRows then true
    else if y == sc + b.blockCols then BlockClear(b, sr, sc, v, x + 1, sc)
    else if At(b, x, y).value == v then false
    else BlockClear(b, sr, sc, v, x, y + 1)
  }

  /** True iff v occurs nowhere in the row, the column or the block of
      (row, col); the cell's own slot is part of all three. */
  function IsValidCell(b: Board, row: int, col: int, v: int): (r: bool)
    requires WellFormed(b) && InRange(b.n, row, col)
    ensures r <==> forall i, j :: InRange(b.n, i, j) && Sees(b.Shape(), row, col, i, j) ==> At(b, i, j).value != v
    ensures r ==> At(b, row, col).value != v
  {
    AnchorRange(row, b.blockRows, b.n);
    AnchorRange(col, b.blockCols, b.n);
    var sr := BlockStart(row, b.blockRows);
    var sc := BlockStart(col, b.blockCols);
    RowColClear(b, row, col, v, 0) && BlockClear(b, sr, sc, v, sr, sc)
  }

  // ---------------------------------------------------------------------
  // First empty cell

  /** The first empty cell at or after (row, col) in row-major order. */
  function FindEmptyFrom(b: Board, row: int, col: int): (r: Option<Pos>)
    requires Shaped(b) && 0 <= row <= b.n && 0 <= col <= b.n
    decreases b.n - row, b.n - col
    ensures r.None? <==> forall i, j :: InRange(b.n, i, j) && !Before(i, j, row, col) ==> At(b, i, j).value != 0
    ensures r.Some? ==>
              && InRange(b.n, r.value.row, r.value.col)
              && !Before(r.value.row, r.value.col, row, col)
              && At(b, r.value.row, r.value.col).value == 0
              && forall i, j :: InRange(b.n, i, j) && !Before(i, j, row, col) && Before(i, j, r.value.row, r.value.col)
                   ==> At(b, i, j).value != 0
  {
    if row == b.n then None
    else if col == b.n then FindEmptyFrom(b, row + 1, 0)
    else if At(b, row, col).value == 0 then Some(Pos(row, col))
    else FindEmptyFrom(b, row, col + 1)
  }

  /** The first empty cell in row-major order, or None when the board is full. */
  function FindEmptyCell(b: Board): (r: Option<Pos>)
    requires Shaped(b)
    ensures r.None? <==> NoEmptyCell(b)
    ensures r.Some? ==>
              && InRange(b.n, r.value.row, r.value.col)
              && At(b, r.value.row, r.value.col).value == 0
              && forall i, j :: InRange(b.n, i, j) && Before(i, j, r.value.row, r.value.col) ==> At(b, i, j).value != 0
  {
    FindEmptyFrom(b, 0, 0)
  }

  // ---------------------------------------------------------------------
  // Writes

  /** `set_value` on the cell at (row, col); the same write whether or not it
      is drawn. */
  function SetCell(b: Board, row: int, col: int, v: int): (r: Board)
    requires Shaped(b) && InRange(b.n, row, col)
    ensures Shaped(r) && r.Shape() == b.Shape()
    ensures At(r, row, col) == SetValue(At(b, row, col), v)
    ensures forall i, j :: InRange(b.n, i, j) && !(i == row && j == col) ==> At(r, i, j) == At(b, i, j)
    ensures WellFormed(b) ==> WellFormed(r)
  {
    b.(grid := b.grid[row := b.grid[row][col := SetValue(b.grid[row][col], v)]])
  }

  /** Writing 0 back over a value just written to an empty free cell restores
      the board exactly. */
  lemma SetCellUndo(b: Board, row: int, col: int, v: int)
    requires Shaped(b) && InRange(b.n, row, col)
    requires At(b, row, col) == Cell(0, false)
    ensures SetCell(SetCell(b, row, col, v), row, col, 0) == b
  {
    var r := SetCell(SetCell(b, row, col, v), row, col, 0);
    assert r.grid[row] == b.grid[row];
    assert r.grid == b.grid;
  }

  // ---------------------------------------------------------------------
  // Empty-cell count (the measure the solvers decrease)

  function RowEmptyCount(cells: seq<Cell>): nat
  {
    if |cells| == 0 then 0
    else (if cells[|cells| - 1].value == 0 then 1 else 0) + RowEmptyCount(cells[..|cells| - 1])
  }

  function GridEmptyCount(grid: seq<seq<Cell>>): nat
  {
    if |grid| == 0 then 0
    else RowEmptyCount(grid[|grid| - 1]) + GridEmptyCount(grid[..|grid| - 1])
  }

  function EmptyCount(b: Board): nat
  {
    GridEmptyCount(b.grid)
  }

  lemma {:induction false} RowEmptyCountUpdate(cells: seq<Cell>, c: int, x: Cell)
    requires 0 <= c < |cells|
    ensures RowEmptyCount(cells[c := x]) + (if cells[c].value == 0 then 1 else 0)
            == RowEmptyCount(cells) + (if x.value == 0 then 1 else 0)
    decreases |cells|
  {
    var last := |cells| - 1;
    if c < last {
      assert cells[c := x][..last] == cells[..last][c := x];
      RowEmptyCountUpdate(cells[..last], c, x);
    } else {
      assert cells[c := x][..last] == cells[..last];
    }
  }

  lemma {:induction false} GridEmptyCountUpdate(grid: seq<seq<Cell>>, r: int, row: seq<Cell>)
    requires 0 <= r < |grid|
    ensures GridEmptyCount(grid[r := row]) + RowEmptyCount(grid[r]) == GridEmptyCount(grid) + RowEmptyCount(row)
    decreases |grid|
  {
    var last := |grid| - 1;
    if r < last {
      assert grid[r := row][..last] == grid[..last][r := row];
      GridEmptyCountUpdate(grid[..last], r, row);
    } else {
      assert grid[r := row][..last] == grid[..last];
    }
  }

  /** Filling an empty free cell with a nonzero value removes exactly one empty cell. */
  lemma FillDecreasesEmptyCount(b: Board, row: int, col: int, v: int)
    requires Shaped(b) && InRange(b.n, row, col)
    requires At(b, row, col) == Cell(0, false) && v != 0
    ensures EmptyCount(SetCell(b, row, col, v)) + 1 == EmptyCount(b)
  {
    var newRow := b.grid[row][col := SetValue(b.grid[row][col], v)];
    RowEmptyCountUpdate(b.grid[row], col, SetValue(b.grid[row][col], v));
    GridEmptyCountUpdate(b.grid, row, newRow);
  }
}
