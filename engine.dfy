/**
 * The game engine of the Minesweeper window without its drawing: a 20 by
 * 24 grid of tiles in a two-dimensional array, the mine and flag sets, the
 * remaining-flag counter and the game-over switch, updated in place by the
 * mouse-event handler and the recursive flood fill.
 */
module Engine {
  import opened Cells
  import opened State

  class Minesweeper {
    var grid: array2<Tile>
    var mineSet: set<Cell>
    var flagSet: set<Cell>
    var numberOfFlags: int
    var isOver: bool

    ghost predicate Shaped()
      reads this
    {
      grid.Length0 == Rows && grid.Length1 == Columns
    }

    /** The state of the engine as a value. */
    ghost function Model(): (g: Game)
      reads this, grid
      requires Shaped()
      ensures g.tiles.Keys == AllCells()
    {
      Game(map p | p in AllCells() :: grid[p.0, p.1], mineSet, flagSet, numberOfFlags, isOver)
    }

    ghost predicate Valid()
      reads this, grid
    {
      Shaped() && State.Valid(Model())
    }

    /** A window opens on a new game over the given mines. */
    constructor (mines: set<Cell>)
      requires mines <= AllCells() && |mines| == MineCount
      ensures Valid() && fresh(grid)
      ensures Model() == NewGame(mines)
    {
      grid := new Tile[0, 0];
      mineSet, flagSet := {}, {};
      numberOfFlags, isOver := 0, false;
      new;
      Initialize(mines);
    }

    /**
     * Starts a new game on the given mines: every tile covered and
     * unflagged, holding -1 on a mine and its hint elsewhere; no flags, 99
     * flags to plant, the game running.
     */
    method Initialize(mines: set<Cell>)
      requires mines <= AllCells() && |mines| == MineCount
      modifies this
      ensures Valid() && fresh(grid)
      ensures Model() == NewGame(mines)
    {
      grid := new Tile[Rows, Columns];
      mineSet := mines;
      flagSet := {};
      isOver := false;
      numberOfFlags := MineCount;
      for i := 0 to Rows
        modifies grid
        invariant forall r, c :: 0 <= r < i && 0 <= c < Columns ==>
          grid[r, c] == Tile(Value(mines, (r, c)), true, false)
      {
        for j := 0 to Columns
          modifies grid
          invariant forall r, c :: 0 <= r < i && 0 <= c < Columns ==>
            grid[r, c] == Tile(Value(mines, (r, c)), true, false)
          invariant forall c :: 0 <= c < j ==> grid[i, c] == Tile(Value(mines, (i, c)), true, false)
        {
          if (i, j) !in mineSet {
            var count := GetHint(i, j);
            grid[i, j] := Tile(count, true, false);
          } else {
            grid[i, j] := Tile(-1, true, false);
          }
        }
      }
      forall p | p in AllCells() ensures Model().tiles[p] == NewGame(mines).tiles[p] {
        AllCellsAreInBounds(p);
      }
      assert Model().tiles == NewGame(mines).tiles;
      NewGameValid(mines);
    }

    /** The number of mines among the 8 cells around (row, col), counted column by column. */
    method GetHint(row: int, col: int) returns (count: nat)
      ensures count == Hint(mineSet, (row, col))
    {
      count := 0;
      for i := -1 to 2
        invariant count == Counted(mineSet, (row, col), 2 * (i + 1))
      {
        if (row + i, col - 1) in mineSet {
          count := count + 1;
        }
        if (row + i, col + 1) in mineSet {
          count := count + 1;
        }
      }
      if (row - 1, col) in mineSet {
        count := count + 1;
      }
      if (row + 1, col) in mineSet {
        count := count + 1;
      }
      HintIsCounted(mineSet, (row, col));
    }

    /** Takes the flag off a flagged tile and gives it back to the counter. */
    method DeleteFlag(row: int, col: int)
      requires Shaped() && InBounds((row, col)) && grid[row, col].flag
      modifies grid, this`numberOfFlags, this`flagSet
      ensures Model() == Toggle(old(Model()), (row, col))
    {
      ghost var g := Model();
      ghost var p := (row, col);
      AllCellsAreInBounds(p);
      grid[row, col] := grid[row, col].(flag := false);
      numberOfFlags := numberOfFlags + 1;
      flagSet := flagSet - {(row, col)};
      assert Model().tiles == g.tiles[p := g.tiles[p].(flag := false)];
    }

    /**
     * Deletes the flag on (row, col), then uncovers the tile if it is
     * covered. A 0 tile goes on to its in-bounds neighbours above, below,
     * left and right; a mine ends the game.
     */
    method ShowTile(row: int, col: int)
      requires Shaped() && InBounds((row, col))
      modifies grid, this`flagSet, this`numberOfFlags, this`isOver
      ensures Model() == State.ShowTile(old(Model()), (row, col))
      decreases |HiddenCells(Model())|, 2
    {
      ghost var g0 := Model();
      ghost var p := (row, col);
      AllCellsAreInBounds(p);
      var value := grid[row, col].value;
      if grid[row, col].flag {
        DeleteFlag(row, col);
      }
      assert Model() == ClearFlag(g0, p);
      if grid[row, col].hide {
        ghost var g1 := Model();
        grid[row, col] := grid[row, col].(hide := false);
        assert Model().tiles == g1.tiles[p := g1.tiles[p].(hide := false)];
        assert Model() == UncoverOne(g0, p);
        UncoverOneHidden(g0, p);
        if value == 0 {
          Flood(row, col, g0);
        } else if value == -1 {
          isOver := true;
        }
      }
    }

    /**
     * The flood fill from the 0 tile (row, col), just uncovered on board
     * g0: showTile on each in-bounds neighbour above, below, left and
     * right, in that order.
     */
    method Flood(row: int, col: int, ghost g0: Game)
      requires Shaped() && InBounds((row, col))
      requires |HiddenCells(Model())| < |HiddenCells(g0)|
      modifies grid, this`flagSet, this`numberOfFlags, this`isOver
      ensures Model() == FloodFrom(g0, old(Model()), (row, col), 0)
      decreases |HiddenCells(g0)|, 1
    {
      ghost var p, g1 := (row, col), Model();
      ShowNeighbour(row, col, 0, g0);
      ghost var g2 := Model();
      ShowNeighbour(row, col, 1, g0);
      ghost var g3 := Model();
      ShowNeighbour(row, col, 2, g0);
      ghost var g4 := Model();
      ShowNeighbour(row, col, 3, g0);
      assert FloodFrom(g0, g4, p, 3) == FloodFrom(g0, Model(), p, 4) == Model();
      assert FloodFrom(g0, g2, p, 1) == FloodFrom(g0, g3, p, 2) == FloodFrom(g0, g4, p, 3);
    }

    /** showTile on the neighbour Step((row, col), k) of the 0 tile (row, col), when it is on the board. */
    method ShowNeighbour(row: int, col: int, k: int, ghost g0: Game)
      requires Shaped() && |HiddenCells(Model())| < |HiddenCells(g0)|
      modifies grid, this`flagSet, this`numberOfFlags, this`isOver
      ensures Model() == FloodNext(g0, old(Model()), (row, col), k)
      ensures |HiddenCells(Model())| < |HiddenCells(g0)|
      decreases |HiddenCells(g0)|, 0
    {
      var q := Step((row, col), k);
      if 0 <= q.0 < Rows && 0 <= q.1 < Columns {
        ShowTile(q.0, q.1);
      }
    }

    /** Button 2 on a covered tile: plants a flag, or takes the flag off. */
    method ToggleFlag(row: int, col: int)
      requires Shaped() && InBounds((row, col))
      modifies grid, this`flagSet, this`numberOfFlags
      ensures Model() == Toggle(old(Model()), (row, col))
    {
      ghost var g := Model();
      ghost var p := (row, col);
      AllCellsAreInBounds(p);
      if !grid[row, col].flag {
        numberOfFlags := numberOfFlags - 1;
        flagSet := flagSet + {(row, col)};
        grid[row, col] := grid[row, col].(flag := true);
        assert Model().tiles == g.tiles[p := g.tiles[p].(flag := true)];
      } else {
        DeleteFlag(row, col);
      }
    }

    /**
     * A mouse event on (row, col): button 1 is showTile on a covered tile
     * without a flag, button 2 plants or removes a flag on a covered tile,
     * and nothing happens once the game is over.
     */
    method ProcessMouseEvent(row: int, col: int, action: Action)
      requires Valid() && InBounds((row, col))
      modifies grid, this`flagSet, this`numberOfFlags, this`isOver
      ensures Valid()
      ensures Model() == Event(old(Model()), (row, col), action)
    {
      ghost var g := Model();
      AllCellsAreInBounds((row, col));
      if !isOver && grid[row, col].hide {
        Press(row, col, action);
      }
      EventKeepsValid(g, (row, col), action);
    }

    /** The part of processMouseEvent that acts on a covered tile of a running game. */
    method Press(row: int, col: int, action: Action)
      requires Shaped() && InBounds((row, col)) && !isOver && grid[row, col].hide
      modifies grid, this`flagSet, this`numberOfFlags, this`isOver
      ensures Model() == Event(old(Model()), (row, col), action)
    {
      AllCellsAreInBounds((row, col));
      match action
      case Reveal =>
        if !grid[row, col].flag {
          ShowTile(row, col);
        }
      case ToggleFlag =>
        ToggleFlag(row, col);
    }
  }
}
