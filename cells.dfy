/**
 * The minefield geometry: board dimensions, cell coordinates, the
 * 8-neighbourhood used for hints, the in-bounds orthogonal neighbours used
 * by the flood fill, and the value a tile is given at construction.
 */
module Cells {

  /** Board size and mine count of the game (20 rows of 24 columns, 99 mines). */
  const Rows: int := 20
  const Columns: int := 24
  const MineCount: int := 99

  /** A (row, column) pair, as the game keys its mine and flag sets. */
  type Cell = (int, int)

  predicate InBounds(p: Cell) {
    0 <= p.0 < Rows && 0 <= p.1 < Columns
  }

  /** Every cell of the board. */
  ghost function AllCells(): set<Cell> {
    set i, j | 0 <= i < Rows && 0 <= j < Columns :: (i, j)
  }

  lemma AllCellsAreInBounds(p: Cell)
    ensures p in AllCells() <==> InBounds(p)
  {
    if InBounds(p) {
      assert p == (p.0, p.1);
    }
  }

  /** q lies at Chebyshev distance exactly 1 from p. */
  ghost predicate Adjacent(q: Cell, p: Cell) {
    q != p && -1 <= q.0 - p.0 <= 1 && -1 <= q.1 - p.1 <= 1
  }

  /** The mines among the 8 cells around p. */
  ghost function AdjacentMines(mines: set<Cell>, p: Cell): set<Cell> {
    set q | q in mines && Adjacent(q, p)
  }

  /** The hint of p: how many of its 8 neighbours are mines. */
  ghost function Hint(mines: set<Cell>, p: Cell): nat {
    |AdjacentMines(mines, p)|
  }

  /** 1 when q holds a mine, 0 otherwise. */
  ghost function MineAt(mines: set<Cell>, q: Cell): nat {
    if q in mines then 1 else 0
  }

  /**
   * The k-th of the 8 cells around p in the order the hint count visits
   * them: left then right of p in the rows p.0 - 1, p.0 and p.0 + 1, then
   * the cell above and the cell below.
   */
  function Visit(p: Cell, k: int): Cell {
    if k < 6 then (p.0 + k / 2 - 1, if k % 2 == 0 then p.1 - 1 else p.1 + 1)
    else if k == 6 then (p.0 - 1, p.1)
    else (p.0 + 1, p.1)
  }

  /** The first k cells visited. */
  ghost function Visited(p: Cell, k: int): set<Cell>
    decreases k
  {
    if k <= 0 then {} else Visited(p, k - 1) + {Visit(p, k - 1)}
  }

  /** The mines among the first k cells visited, counted one at a time. */
  ghost function Counted(mines: set<Cell>, p: Cell, k: int): nat
    decreases k
  {
    if k <= 0 then 0 else Counted(mines, p, k - 1) + MineAt(mines, Visit(p, k - 1))
  }

  lemma {:induction false} VisitedBefore(p: Cell, k: int, q: Cell)
    requires q in Visited(p, k)
    ensures exists j :: 0 <= j < k && Visit(p, j) == q
    decreases k
  {
    if q != Visit(p, k - 1) {
      VisitedBefore(p, k - 1, q);
    }
  }

  lemma VisitDistinct(p: Cell, j: int, k: int)
    requires 0 <= j < k < 8
    ensures Visit(p, j) != Visit(p, k)
  {
  }

  /** Adding a cell not yet looked at to the cells looked at adds one mine exactly when the cell holds one. */
  lemma CountStep(mines: set<Cell>, seen: set<Cell>, a: Cell)
    requires a !in seen
    ensures |mines * (seen + {a})| == |mines * seen| + MineAt(mines, a)
  {
    if a in mines {
      assert mines * (seen + {a}) == mines * seen + {a};
    } else {
      assert mines * (seen + {a}) == mines * seen;
    }
  }

  /** Counting one cell at a time counts the mines among the cells visited, at most one per cell. */
  lemma {:induction false} CountedIsCard(mines: set<Cell>, p: Cell, k: int)
    requires 0 <= k <= 8
    ensures Counted(mines, p, k) == |mines * Visited(p, k)|
    ensures Counted(mines, p, k) <= k
  {
    if k > 0 {
      CountedIsCard(mines, p, k - 1);
      if Visit(p, k - 1) in Visited(p, k - 1) {
        VisitedBefore(p, k - 1, Visit(p, k - 1));
        var j :| 0 <= j < k - 1 && Visit(p, j) == Visit(p, k - 1);
        VisitDistinct(p, j, k - 1);
      }
      CountStep(mines, Visited(p, k - 1), Visit(p, k - 1));
    }
  }

  /** The 8 cells visited are exactly the cells at Chebyshev distance 1 from p. */
  lemma VisitedAll(p: Cell, q: Cell)
    ensures q in Visited(p, 8) <==> Adjacent(q, p)
  {
    if q in Visited(p, 8) {
      VisitedBefore(p, 8, q);
    }
  }

  /** The hint is the number of mines met by visiting the 8 cells around p one at a time. */
  lemma HintIsCounted(mines: set<Cell>, p: Cell)
    ensures Hint(mines, p) == Counted(mines, p, 8)
  {
    forall q ensures q in mines * Visited(p, 8) <==> q in AdjacentMines(mines, p) {
      VisitedAll(p, q);
    }
    assert mines * Visited(p, 8) == AdjacentMines(mines, p);
    CountedIsCard(mines, p, 8);
  }

  /** A hint never counts the cell itself and is at most 8. */
  lemma HintBounds(mines: set<Cell>, p: Cell)
    ensures p !in AdjacentMines(mines, p)
    ensures Hint(mines, p) <= 8
    ensures Hint(mines, p) == 0 <==> forall q :: Adjacent(q, p) ==> q !in mines
  {
    HintIsCounted(mines, p);
    CountedIsCard(mines, p, 8);
    if forall q :: Adjacent(q, p) ==> q !in mines {
      assert AdjacentMines(mines, p) == {};
    } else {
      var q :| Adjacent(q, p) && q in mines;
      assert q in AdjacentMines(mines, p);
    }
  }

  /** The tile value of p on a board with the given mines: -1 for a mine, its hint otherwise. */
  ghost function Value(mines: set<Cell>, p: Cell): int {
    if p in mines then -1 else Hint(mines, p)
  }

  /** The in-bounds cells directly above, below, left and right of p. */
  ghost function Orth(p: Cell): set<Cell> {
    set q | q in {(p.0 - 1, p.1), (p.0 + 1, p.1), (p.0, p.1 - 1), (p.0, p.1 + 1)} && InBounds(q)
  }

  /** The k-th cell the flood fill tries from p: above, below, left, right for k = 0, 1, 2, 3. */
  function Step(p: Cell, k: int): Cell {
    if k == 0 then (p.0 - 1, p.1)
    else if k == 1 then (p.0 + 1, p.1)
    else if k == 2 then (p.0, p.1 - 1)
    else (p.0, p.1 + 1)
  }

  /** The in-bounds cells among the first k the flood fill tries from p. */
  ghost function Tried(p: Cell, k: int): set<Cell>
    decreases k
  {
    if k <= 0 then {} else Tried(p, k - 1) + (if InBounds(Step(p, k - 1)) then {Step(p, k - 1)} else {})
  }

  /** Trying the four directions reaches exactly the in-bounds orthogonal neighbours. */
  lemma {:induction false} TriedIsOrth(p: Cell, k: int)
    requires 0 <= k <= 4
    ensures Tried(p, k) <= Orth(p)
    ensures k == 4 ==> Tried(p, k) == Orth(p)
    decreases k
  {
    if k > 0 {
      TriedIsOrth(p, k - 1);
    }
    if k == 4 {
      forall q | q in Orth(p) ensures q in Tried(p, 4) {
        var j := if q == Step(p, 0) then 0 else if q == Step(p, 1) then 1 else if q == Step(p, 2) then 2 else 3;
        assert q == Step(p, j);
        TriedHas(p, 4, j);
      }
    }
  }

  lemma {:induction false} TriedHas(p: Cell, k: int, j: int)
    requires 0 <= j < k && InBounds(Step(p, j))
    ensures Step(p, j) in Tried(p, k)
    decreases k
  {
    if j < k - 1 {
      TriedHas(p, k - 1, j);
    }
  }

  /** No orthogonal neighbour of a tile whose value is 0 is a mine. */
  lemma ZeroTileHasNoMineNeighbour(mines: set<Cell>, p: Cell, q: Cell)
    requires Value(mines, p) == 0
    requires q in Orth(p)
    ensures q !in mines
  {
    assert Adjacent(q, p);
    HintBounds(mines, p);
  }

  /** The cells that are not mines, together with p, form a flood-closed set. */
  lemma SafeCellsFloodClosed(mines: set<Cell>, p: Cell)
    ensures FloodClosed(mines, {p} + (AllCells() - mines))
  {
    var safe := {p} + (AllCells() - mines);
    forall q | q in safe && Value(mines, q) == 0
      ensures Orth(q) <= safe
    {
      forall r | r in Orth(q) ensures r in safe {
        ZeroTileHasNoMineNeighbour(mines, q, r);
        AllCellsAreInBounds(r);
      }
    }
  }

  /**
   * S is closed under the flood fill: with every 0-valued cell it holds all
   * of that cell's in-bounds orthogonal neighbours.
   */
  ghost predicate FloodClosed(mines: set<Cell>, S: set<Cell>) {
    forall q {:trigger Value(mines, q)} :: q in S && Value(mines, q) == 0 ==> Orth(q) <= S
  }

  /** The canvas item of a cell: rectangles are created row by row, numbered from 1. */
  function CanvasIndex(p: Cell): int {
    p.0 * Columns + p.1 + 1
  }

  /** Canvas indices number the board's cells one-to-one from 1 to Rows * Columns. */
  lemma CanvasIndexOneToOne(p: Cell, q: Cell)
    requires InBounds(p) && InBounds(q)
    ensures 1 <= CanvasIndex(p) <= Rows * Columns
    ensures CanvasIndex(p) == CanvasIndex(q) ==> p == q
  {
  }
}
