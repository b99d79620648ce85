/**
 * The game state as a value: the tiles, the mine and flag sets, the flag
 * counter and the game-over switch, with the invariants the engine keeps,
 * the effect of each event, and what is disclosed when a mine goes off.
 */
module State {
  import opened Cells

  /**
   * A tile. value is -1 for a mine and the hint 0..8 otherwise; hide holds
   * while the tile is still covered; flag holds while a flag is drawn on it.
   */
  datatype Tile = Tile(value: int, hide: bool, flag: bool)

  /** Everything the engine keeps between two mouse events. */
  datatype Game = Game(
    tiles: map<Cell, Tile>,
    mineSet: set<Cell>,
    flagSet: set<Cell>,
    numberOfFlags: int,
    isOver: bool)

  /** The two mouse buttons the board listens to. */
  datatype Action = Reveal | ToggleFlag

  ghost function HiddenCells(g: Game): set<Cell> {
    set p | p in g.tiles && g.tiles[p].hide
  }

  ghost function FlaggedCells(g: Game): set<Cell> {
    set p | p in g.tiles && g.tiles[p].flag
  }

  ghost function MineTiles(g: Game): set<Cell> {
    set p | p in g.tiles && g.tiles[p].value == -1
  }

  ghost function RevealedMines(g: Game): set<Cell> {
    set p | p in g.mineSet && p in g.tiles && !g.tiles[p].hide
  }

  // ---------------------------------------------------------------------
  // Invariants
  // ---------------------------------------------------------------------

  /** One tile per board cell, 99 mines on the board, every tile holding its value. */
  ghost predicate Layout(g: Game) {
    && g.tiles.Keys == AllCells()
    && g.mineSet <= AllCells()
    && |g.mineSet| == MineCount
    && forall p :: p in g.tiles ==> g.tiles[p].value == Value(g.mineSet, p)
  }

  /**
   * The flag set is exactly the set of flagged tiles, the counter and the
   * flag set add up to the mine count, and only covered tiles carry flags.
   */
  ghost predicate FlagsInStep(g: Game) {
    && g.flagSet == FlaggedCells(g)
    && g.numberOfFlags + |g.flagSet| == MineCount
    && FlaggedCells(g) <= HiddenCells(g)
  }

  /** What holds at every step, even in the middle of a flood fill. */
  ghost predicate Consistent(g: Game) {
    var ok := Layout(g) && FlagsInStep(g); ok
  }

  /** An uncovered 0 tile never has a covered orthogonal neighbour. */
  ghost predicate ZeroSpread(g: Game) {
    forall p :: p in g.tiles && !g.tiles[p].hide && g.tiles[p].value == 0 ==> Orth(p) !! HiddenCells(g)
  }

  /** What holds between two events: also, the game is over exactly when a mine is uncovered. */
  ghost predicate Valid(g: Game) {
    var ok :=
    && Consistent(g)
    && ZeroSpread(g)
    && (g.isOver <==> RevealedMines(g) != {});
    ok
  }

  /** On any consistent board the mine tiles are the mine set, and every value lies in -1..8. */
  lemma LayoutCounts(g: Game)
    requires Layout(g)
    ensures MineTiles(g) == g.mineSet
    ensures |MineTiles(g)| == MineCount
    ensures forall p :: p in g.tiles ==> -1 <= g.tiles[p].value <= 8
  {
    forall p | p in g.tiles
      ensures -1 <= g.tiles[p].value <= 8
      ensures g.tiles[p].value == -1 <==> p in g.mineSet
    {
      HintBounds(g.mineSet, p);
    }
    forall p | p in g.mineSet ensures p in g.tiles {
      AllCellsAreInBounds(p);
    }
  }

  // ---------------------------------------------------------------------
  // A new game
  // ---------------------------------------------------------------------

  /** The state initialize builds from a mine set: every tile covered and unflagged. */
  ghost function NewGame(mines: set<Cell>): Game {
    Game(map p | p in AllCells() :: Tile(Value(mines, p), true, false), mines, {}, MineCount, false)
  }

  /** A new game on 99 in-bounds mines keeps every invariant, with no flag and no tile uncovered. */
  lemma NewGameValid(mines: set<Cell>)
    requires mines <= AllCells() && |mines| == MineCount
    ensures Valid(NewGame(mines))
    ensures HiddenCells(NewGame(mines)) == AllCells()
    ensures FlaggedCells(NewGame(mines)) == {}
  {
    var g := NewGame(mines);
    assert HiddenCells(g) == AllCells();
    assert FlaggedCells(g) == {};
    assert RevealedMines(g) == {};
  }

  // ---------------------------------------------------------------------
  // Flags
  // ---------------------------------------------------------------------

  /** Button 2 on a covered tile: plant a flag on it, or take its flag away. */
  function Toggle(g: Game, p: Cell): Game
    requires p in g.tiles
  {
    var t := g.tiles[p];
    if t.flag then
      g.(tiles := g.tiles[p := t.(flag := false)], flagSet := g.flagSet - {p},
         numberOfFlags := g.numberOfFlags + 1)
    else
      g.(tiles := g.tiles[p := t.(flag := true)], flagSet := g.flagSet + {p},
         numberOfFlags := g.numberOfFlags - 1)
  }

  lemma ToggleKeepsLayout(g: Game, p: Cell)
    requires Layout(g) && p in g.tiles
    ensures Layout(Toggle(g, p))
  {
  }

  /** A flag changes neither which tiles are covered nor which mines are uncovered. */
  lemma ToggleKeepsCover(g: Game, p: Cell)
    requires p in g.tiles
    ensures HiddenCells(Toggle(g, p)) == HiddenCells(g)
    ensures RevealedMines(Toggle(g, p)) == RevealedMines(g)
  {
    assert HiddenCells(Toggle(g, p)) == HiddenCells(g);
    assert RevealedMines(Toggle(g, p)) == RevealedMines(g);
  }

  lemma ToggleKeepsFlagsInStep(g: Game, p: Cell)
    requires FlagsInStep(g) && p in HiddenCells(g)
    ensures FlagsInStep(Toggle(g, p))
  {
    var g' := Toggle(g, p);
    ToggleKeepsCover(g, p);
    if g.tiles[p].flag {
      assert FlaggedCells(g') == FlaggedCells(g) - {p};
    } else {
      assert FlaggedCells(g') == FlaggedCells(g) + {p};
    }
  }

  /**
   * Toggling a covered tile flips its flag and its membership of the flag
   * set, moves the counter the other way, and keeps every invariant. The
   * counter has no lower bound: it goes below zero once more than 99 flags
   * are planted.
   */
  lemma ToggleKeepsValid(g: Game, p: Cell)
    requires Valid(g) && p in HiddenCells(g)
    ensures Valid(Toggle(g, p))
    ensures Toggle(g, p).tiles[p].flag == !g.tiles[p].flag
    ensures p in Toggle(g, p).flagSet <==> p !in g.flagSet
    ensures Toggle(g, p).numberOfFlags == g.numberOfFlags + (if p in g.flagSet then 1 else -1)
    ensures HiddenCells(Toggle(g, p)) == HiddenCells(g)
    ensures forall q :: q in g.tiles && q != p ==> Toggle(g, p).tiles[q] == g.tiles[q]
    ensures Toggle(g, p).mineSet == g.mineSet && Toggle(g, p).isOver == g.isOver
  {
    ToggleKeepsLayout(g, p);
    ToggleKeepsFlagsInStep(g, p);
    ToggleKeepsCover(g, p);
    ToggleKeepsZeroSpread(g, p);
    assert p in g.flagSet <==> g.tiles[p].flag;
  }

  lemma ToggleKeepsZeroSpread(g: Game, p: Cell)
    requires ZeroSpread(g) && p in g.tiles
    ensures ZeroSpread(Toggle(g, p))
  {
    ToggleKeepsCover(g, p);
  }

  /** Two toggles of the same tile give back the state before them. */
  lemma ToggleTwice(g: Game, p: Cell)
    requires FlagsInStep(g) && p in g.tiles
    ensures Toggle(Toggle(g, p), p) == g
  {
    var t := g.tiles[p];
    assert g.tiles[p := t] == g.tiles;
    if t.flag {
      assert p in FlaggedCells(g);
      assert g.flagSet - {p} + {p} == g.flagSet;
    } else {
      assert p !in FlaggedCells(g);
      assert g.flagSet + {p} - {p} == g.flagSet;
    }
  }

  // ---------------------------------------------------------------------
  // Uncovering tiles
  // ---------------------------------------------------------------------

  /** The cells covered in g and uncovered in g'. */
  ghost function Uncovered(g: Game, g': Game): set<Cell> {
    HiddenCells(g) - HiddenCells(g')
  }

  /**
   * g' is g with the covered cells of N uncovered and their flags removed,
   * the counter moving up by one for each flag removed, and nothing else
   * changed.
   */
  ghost predicate Uncovers(g: Game, g': Game, N: set<Cell>) {
    var ok :=
    && N <= HiddenCells(g)
    && g'.tiles.Keys == g.tiles.Keys
    && (forall q :: q in g.tiles ==>
          g'.tiles[q] == if q in N then g.tiles[q].(hide := false, flag := false) else g.tiles[q])
    && g'.mineSet == g.mineSet
    && g'.flagSet == g.flagSet - N
    && g'.numberOfFlags + |g'.flagSet| == g.numberOfFlags + |g.flagSet|;
    ok
  }

  /** What showTile does to a flag on p: deleteFlag when p carries one, nothing otherwise. */
  function ClearFlag(g: Game, p: Cell): Game
    requires p in g.tiles
  {
    if g.tiles[p].flag then Toggle(g, p) else g
  }

  /** One step of showTile on a covered tile: its flag deleted, then the tile uncovered. */
  function UncoverOne(g: Game, p: Cell): Game
    requires p in g.tiles
  {
    var g1 := ClearFlag(g, p);
    g1.(tiles := g1.tiles[p := g1.tiles[p].(hide := false)])
  }

  lemma UncoverOneUncovers(g: Game, p: Cell)
    requires FlagsInStep(g) && p in HiddenCells(g)
    ensures Uncovers(g, UncoverOne(g, p), {p})
    ensures Uncovered(g, UncoverOne(g, p)) == {p}
  {
    var g' := UncoverOne(g, p);
    assert p in FlaggedCells(g) <==> g.tiles[p].flag;
    assert g'.tiles == g.tiles[p := g.tiles[p].(hide := false, flag := false)];
    assert HiddenCells(g') == HiddenCells(g) - {p};
  }

  lemma {:induction false} DifferenceCard<T>(a: set<T>, b: set<T>)
    requires b <= a && b != {}
    ensures |a - b| < |a|
  {
    assert (a - b) + b == a;
    assert (a - b) * b == {};
  }

  lemma UncoversKeepsLayout(g: Game, g': Game, N: set<Cell>)
    requires Layout(g) && Uncovers(g, g', N)
    ensures Layout(g')
  {
  }

  lemma UncoversKeepsFlags(g: Game, g': Game, N: set<Cell>)
    requires FlagsInStep(g) && Uncovers(g, g', N)
    ensures FlagsInStep(g')
  {
    UncoversHidden(g, g', N);
    assert FlaggedCells(g') == FlaggedCells(g) - N;
  }

  /** Uncovering keeps the layout and the flag bookkeeping, and the covered cells shrink by N. */
  lemma UncoversKeepsConsistent(g: Game, g': Game, N: set<Cell>)
    requires Consistent(g) && Uncovers(g, g', N)
    ensures Consistent(g')
    ensures HiddenCells(g') == HiddenCells(g) - N
    ensures Uncovered(g, g') == N
    ensures N != {} ==> |HiddenCells(g')| < |HiddenCells(g)|
  {
    UncoversKeepsLayout(g, g', N);
    UncoversKeepsFlags(g, g', N);
    UncoversHidden(g, g', N);
    if N != {} {
      DifferenceCard(HiddenCells(g), N);
    }
  }

  lemma UncoversHidden(g: Game, g': Game, N: set<Cell>)
    requires Uncovers(g, g', N)
    ensures HiddenCells(g') == HiddenCells(g) - N
  {
    assert HiddenCells(g') == HiddenCells(g) - N;
  }

  lemma UncoversComposeTiles(g0: Game, g1: Game, g2: Game, N1: set<Cell>, N2: set<Cell>)
    requires Uncovers(g0, g1, N1) && Uncovers(g1, g2, N2)
    ensures N1 !! N2 && N1 + N2 <= HiddenCells(g0)
    ensures forall q :: q in g0.tiles ==>
      g2.tiles[q] == if q in N1 + N2 then g0.tiles[q].(hide := false, flag := false) else g0.tiles[q]
  {
    UncoversHidden(g0, g1, N1);
  }

  /** Two uncoverings in a row uncover the union of what each uncovered. */
  lemma UncoversChain(g0: Game, g1: Game, g2: Game, N1: set<Cell>, N2: set<Cell>)
    requires Uncovers(g0, g1, N1) && Uncovers(g1, g2, N2)
    ensures Uncovers(g0, g2, N1 + N2)
    ensures Uncovered(g0, g2) == N1 + N2
    ensures HiddenCells(g2) == HiddenCells(g1) - N2
  {
    UncoversCompose(g0, g1, g2, N1, N2);
    UncoversHidden(g1, g2, N2);
    UncoversHidden(g0, g2, N1 + N2);
  }

  lemma UncoversCompose(g0: Game, g1: Game, g2: Game, N1: set<Cell>, N2: set<Cell>)
    requires Uncovers(g0, g1, N1) && Uncovers(g1, g2, N2)
    ensures Uncovers(g0, g2, N1 + N2)
  {
    UncoversComposeTiles(g0, g1, g2, N1, N2);
    assert g2.flagSet == g0.flagSet - (N1 + N2);
  }

  /** Every cell of N with value 0 on board g0 has no covered orthogonal neighbour on board g. */
  ghost predicate ZerosOpen(g0: Game, N: set<Cell>, g: Game) {
    forall q :: q in N && q in g0.tiles && g0.tiles[q].value == 0 ==> Orth(q) !! HiddenCells(g)
  }

  /** Every flood-closed set holding p holds N: N lies in the flood region of p. */
  ghost predicate InFloodRegion(mines: set<Cell>, N: set<Cell>, p: Cell) {
    forall S :: FloodClosed(mines, S) && p in S ==> N <= S
  }

  /**
   * The effect of showTile(p), as a relation between the state before and
   * after. Exactly the cells N covered before and uncovered after changed:
   * N holds p when p was covered and is empty otherwise; every 0 tile in N
   * has all its orthogonal neighbours uncovered afterwards; every
   * flood-closed set holding p holds N (nothing outside the flood region of
   * p is touched); and the game ends exactly when p is an uncovered mine.
   */
  ghost predicate RevealedBy(g: Game, g': Game, p: Cell) {
    var N := Uncovered(g, g');
    var ok :=
    && Uncovers(g, g', N)
    && (p in HiddenCells(g) ==> p in N)
    && (p !in HiddenCells(g) ==> N == {})
    && ZerosOpen(g, N, g')
    && InFloodRegion(g.mineSet, N, p)
    && g'.isOver == (g.isOver || (p in N && p in g.mineSet));
    ok
  }

  /** showTile on a tile that is already uncovered changes nothing. */
  lemma RevealUncoveredTile(g: Game, p: Cell)
    requires Consistent(g) && p !in HiddenCells(g)
    ensures RevealedBy(g, g, p)
  {
    assert Uncovered(g, g) == {};
    assert g.flagSet - {} == g.flagSet;
  }

  /** showTile on a covered tile whose value is not 0: it alone is uncovered. */
  lemma RevealSingleTile(g: Game, p: Cell, g': Game)
    requires Consistent(g) && p in HiddenCells(g) && g.tiles[p].value != 0
    requires g' == UncoverOne(g, p).(isOver := g.isOver || g.tiles[p].value == -1)
    ensures Consistent(g')
    ensures RevealedBy(g, g', p)
  {
    var g1 := UncoverOne(g, p);
    UncoverOneUncovers(g, p);
    assert HiddenCells(g') == HiddenCells(g1);
    UncoversKeepsConsistent(g, g1, {p});
    assert Uncovers(g, g', {p});
    assert p in g.mineSet <==> g.tiles[p].value == -1 by {
      HintBounds(g.mineSet, p);
    }
  }

  /**
   * Part way through showTile(p) on a covered 0 tile: p and everything the
   * calls on the neighbours in done have uncovered, and nothing else, is
   * uncovered.
   */
  ghost predicate Flooding(g0: Game, g: Game, p: Cell, done: set<Cell>) {
    var N := Uncovered(g0, g);
    var ok :=
    && Uncovers(g0, g, N)
    && p in N
    && done <= Orth(p)
    && done !! HiddenCells(g)
    && ZerosOpen(g0, N - {p}, g)
    && InFloodRegion(g0.mineSet, N, p);
    ok
  }

  lemma FloodStart(g: Game, p: Cell)
    requires Consistent(g) && p in HiddenCells(g) && g.tiles[p].value == 0
    ensures Flooding(g, UncoverOne(g, p), p, {})
  {
    UncoverOneUncovers(g, p);
  }

  /** The flood region of a 0 tile holds the flood regions of its orthogonal neighbours. */
  lemma InFloodRegionStep(mines: set<Cell>, N1: set<Cell>, N2: set<Cell>, p: Cell, q: Cell)
    requires Value(mines, p) == 0 && q in Orth(p)
    requires InFloodRegion(mines, N1, p) && InFloodRegion(mines, N2, q)
    ensures InFloodRegion(mines, N1 + N2, p)
  {
    forall S | FloodClosed(mines, S) && p in S
      ensures N1 + N2 <= S
    {
      assert q in S;
    }
  }

  /** Open zeros stay open as further tiles are uncovered, and the zeros of a later reveal join them. */
  lemma ZerosOpenStep(g0: Game, g: Game, g': Game, N1: set<Cell>, N2: set<Cell>, p: Cell)
    requires ZerosOpen(g0, N1 - {p}, g) && ZerosOpen(g, N2, g')
    requires HiddenCells(g') <= HiddenCells(g)
    requires forall r :: r in g0.tiles ==> r in g.tiles && g.tiles[r].value == g0.tiles[r].value
    ensures ZerosOpen(g0, (N1 + N2) - {p}, g')
  {
  }

  /** Uncovering never changes a tile's value. */
  lemma UncoversKeepsValues(g0: Game, g: Game, N: set<Cell>)
    requires Uncovers(g0, g, N)
    ensures forall r :: r in g0.tiles ==> r in g.tiles && g.tiles[r].value == g0.tiles[r].value
  {
  }

  lemma FloodStep(g0: Game, g: Game, p: Cell, done: set<Cell>, q: Cell, g': Game)
    requires Value(g0.mineSet, p) == 0
    requires Flooding(g0, g, p, done)
    requires q in Orth(p) && RevealedBy(g, g', q)
    ensures Flooding(g0, g', p, done + {q})
    ensures g'.isOver == g.isOver
  {
    var N1, N2 := Uncovered(g0, g), Uncovered(g, g');
    UncoversChain(g0, g, g', N1, N2);
    InFloodRegionStep(g0.mineSet, N1, N2, p, q);
    UncoversKeepsValues(g0, g, N1);
    ZerosOpenStep(g0, g, g', N1, N2, p);
    ZeroTileHasNoMineNeighbour(g0.mineSet, p, q);
  }

  lemma FloodFinish(g0: Game, g: Game, p: Cell)
    requires Consistent(g0) && p in HiddenCells(g0) && g0.tiles[p].value == 0
    requires Flooding(g0, g, p, Orth(p)) && g.isOver == g0.isOver
    ensures Consistent(g)
    ensures RevealedBy(g0, g, p)
  {
    UncoversKeepsConsistent(g0, g, Uncovered(g0, g));
    assert p !in g0.mineSet;
  }

  /** Uncovering a covered tile takes exactly that tile out of the covered cells. */
  lemma UncoverOneHidden(g: Game, p: Cell)
    requires p in g.tiles && g.tiles[p].hide
    ensures HiddenCells(UncoverOne(g, p)) == HiddenCells(g) - {p}
    ensures |HiddenCells(UncoverOne(g, p))| < |HiddenCells(g)|
  {
    assert HiddenCells(UncoverOne(g, p)) == HiddenCells(g) - {p};
  }

  // ---------------------------------------------------------------------
  // showTile as a function on states
  // ---------------------------------------------------------------------

  /**
   * showTile(p): nothing on an uncovered tile; otherwise the flag comes off
   * and the tile is uncovered, a mine ends the game, and a 0 tile goes on
   * to its in-bounds neighbours above, below, left and right, in that
   * order. Every call that recurses has just uncovered a covered tile, so
   * the covered cells shrink and the recursion ends.
   */
  ghost function ShowTile(g: Game, p: Cell): (r: Game)
    requires g.tiles.Keys == AllCells() && InBounds(p)
    ensures r.tiles.Keys == g.tiles.Keys
    ensures HiddenCells(r) <= HiddenCells(g)
    ensures |HiddenCells(r)| <= |HiddenCells(g)|
    decreases |HiddenCells(g)|, 2
  {
    AllCellsAreInBounds(p);
    if !g.tiles[p].hide then
      ToggleKeepsCover(g, p);
      ClearFlag(g, p)
    else
      var g1 := UncoverOne(g, p);
      UncoverOneHidden(g, p);
      if g.tiles[p].value == 0 then FloodFrom(g, g1, p, 0)
      else g1.(isOver := g.isOver || g.tiles[p].value == -1)
  }

  /**
   * The flood fill from the 0 tile p, uncovered on board g0: showTile on
   * the in-bounds neighbours Step(p, k), ..., Step(p, 3) of p, one after
   * the other, starting from board g.
   */
  ghost function FloodFrom(g0: Game, g: Game, p: Cell, k: int): (r: Game)
    requires g.tiles.Keys == AllCells() && |HiddenCells(g)| < |HiddenCells(g0)|
    ensures r.tiles.Keys == g.tiles.Keys
    ensures HiddenCells(r) <= HiddenCells(g)
    ensures |HiddenCells(r)| <= |HiddenCells(g)|
    decreases |HiddenCells(g0)|, 1, 4 - k, 1
  {
    if k >= 4 then g else FloodFrom(g0, FloodNext(g0, g, p, k), p, k + 1)
  }

  /** One step of the flood fill: showTile on Step(p, k) when that cell is on the board. */
  ghost function FloodNext(g0: Game, g: Game, p: Cell, k: int): (r: Game)
    requires g.tiles.Keys == AllCells() && |HiddenCells(g)| < |HiddenCells(g0)|
    ensures r.tiles.Keys == g.tiles.Keys
    ensures HiddenCells(r) <= HiddenCells(g)
    ensures |HiddenCells(r)| <= |HiddenCells(g)|
    decreases |HiddenCells(g0)|, 1, 4 - k, 0
  {
    if InBounds(Step(p, k)) then ShowTile(g, Step(p, k)) else g
  }

  /** The function meets the relation: showTile(p) from a consistent state reveals as RevealedBy says. */
  lemma {:induction false} ShowTileReveals(g: Game, p: Cell)
    requires Consistent(g) && InBounds(p)
    ensures Consistent(ShowTile(g, p))
    ensures RevealedBy(g, ShowTile(g, p), p)
    decreases |HiddenCells(g)|, 2
  {
    AllCellsAreInBounds(p);
    if !g.tiles[p].hide {
      assert p !in HiddenCells(g);
      assert p !in FlaggedCells(g);
      RevealUncoveredTile(g, p);
    } else {
      assert p in HiddenCells(g);
      var g1 := UncoverOne(g, p);
      UncoverOneHidden(g, p);
      if g.tiles[p].value == 0 {
        FloodStart(g, p);
        FloodFromFloods(g, g1, p, 0);
        FloodFinish(g, FloodFrom(g, g1, p, 0), p);
      } else {
        RevealSingleTile(g, p, ShowTile(g, p));
      }
    }
  }

  lemma {:induction false} FloodFromFloods(g0: Game, g: Game, p: Cell, k: int)
    requires Consistent(g0) && p in g0.tiles && g0.tiles[p].value == 0 && 0 <= k <= 4
    requires g.tiles.Keys == AllCells() && |HiddenCells(g)| < |HiddenCells(g0)|
    requires Flooding(g0, g, p, Tried(p, k)) && g.isOver == g0.isOver
    ensures Flooding(g0, FloodFrom(g0, g, p, k), p, Orth(p))
    ensures FloodFrom(g0, g, p, k).isOver == g0.isOver
    decreases |HiddenCells(g0)|, 1, 4 - k
  {
    if k < 4 {
      FloodNeighbour(g0, g, p, k);
      FloodFromFloods(g0, FloodNext(g0, g, p, k), p, k + 1);
    } else {
      TriedIsOrth(p, k);
    }
  }

  /** Trying the neighbour Step(p, k) moves the flood fill from p one neighbour on. */
  lemma FloodNeighbour(g0: Game, g: Game, p: Cell, k: int)
    requires Consistent(g0) && p in g0.tiles && g0.tiles[p].value == 0 && 0 <= k < 4
    requires g.tiles.Keys == AllCells() && |HiddenCells(g)| < |HiddenCells(g0)|
    requires Flooding(g0, g, p, Tried(p, k))
    ensures Flooding(g0, FloodNext(g0, g, p, k), p, Tried(p, k + 1))
    ensures FloodNext(g0, g, p, k).isOver == g.isOver
    decreases |HiddenCells(g0)|, 0, 1
  {
    TriedIsOrth(p, k + 1);
    if InBounds(Step(p, k)) {
      assert Tried(p, k + 1) == Tried(p, k) + {Step(p, k)};
      FloodOnto(g0, g, p, Tried(p, k), Step(p, k));
    } else {
      assert Tried(p, k + 1) == Tried(p, k);
    }
  }

  /** showTile on an orthogonal neighbour q of p moves the flood fill from p on to q. */
  lemma FloodOnto(g0: Game, g: Game, p: Cell, done: set<Cell>, q: Cell)
    requires Consistent(g0) && p in g0.tiles && g0.tiles[p].value == 0
    requires g.tiles.Keys == AllCells() && InBounds(q) && q in Orth(p)
    requires Flooding(g0, g, p, done)
    ensures Flooding(g0, ShowTile(g, q), p, done + {q})
    ensures ShowTile(g, q).isOver == g.isOver
    decreases |HiddenCells(g0)|, 0, 0
  {
    UncoversKeepsConsistent(g0, g, Uncovered(g0, g));
    ShowTileReveals(g, q);
    FloodStep(g0, g, p, done, q, ShowTile(g, q));
  }

  // ---------------------------------------------------------------------
  // What a reveal guarantees
  // ---------------------------------------------------------------------

  /** All uncovered cells of the board. */
  ghost function UncoveredCells(g: Game): set<Cell> {
    AllCells() - HiddenCells(g)
  }

  /** On a consistent board with no covered neighbour next to an uncovered 0, the uncovered cells are flood-closed. */
  lemma ZeroSpreadFloodClosed(g: Game)
    requires Layout(g) && ZeroSpread(g)
    ensures FloodClosed(g.mineSet, UncoveredCells(g))
  {
    forall q | q in UncoveredCells(g) && Value(g.mineSet, q) == 0
      ensures Orth(q) <= UncoveredCells(g)
    {
      forall r | r in Orth(q) ensures r in AllCells() {
        AllCellsAreInBounds(r);
      }
    }
  }

  /** The flood region of p meets no mine but p: the flood fill never reaches a mine. */
  lemma FloodRegionMeetsNoOtherMine(mines: set<Cell>, N: set<Cell>, p: Cell)
    requires InBounds(p) && N <= AllCells() && InFloodRegion(mines, N, p)
    ensures N * mines <= {p}
  {
    AllCellsAreInBounds(p);
    SafeCellsFloodClosed(mines, p);
  }

  lemma RevealKeepsZeroSpread(g: Game, g': Game, p: Cell)
    requires ZeroSpread(g) && RevealedBy(g, g', p)
    ensures ZeroSpread(g')
  {
    var N := Uncovered(g, g');
    UncoversHidden(g, g', N);
    forall q | q in g'.tiles && !g'.tiles[q].hide && g'.tiles[q].value == 0
      ensures Orth(q) !! HiddenCells(g')
    {
      if q !in N {
        assert Orth(q) !! HiddenCells(g);
      }
    }
  }

  lemma UncoversRevealedMines(g: Game, g': Game, N: set<Cell>)
    requires Uncovers(g, g', N)
    ensures RevealedMines(g') == RevealedMines(g) + N * g.mineSet
  {
    assert RevealedMines(g') == RevealedMines(g) + N * g.mineSet;
  }

  /** After a reveal from a valid state the uncovered cells form a flood-closed set holding p. */
  lemma RevealLeavesClosedSet(g: Game, g': Game, p: Cell)
    requires Layout(g) && ZeroSpread(g) && InBounds(p) && RevealedBy(g, g', p)
    ensures ZeroSpread(g') && Layout(g')
    ensures FloodClosed(g.mineSet, UncoveredCells(g')) && p in UncoveredCells(g')
    ensures HiddenCells(g') == HiddenCells(g) - Uncovered(g, g')
  {
    UncoversKeepsLayout(g, g', Uncovered(g, g'));
    UncoversHidden(g, g', Uncovered(g, g'));
    RevealKeepsZeroSpread(g, g', p);
    ZeroSpreadFloodClosed(g');
    AllCellsAreInBounds(p);
  }

  /**
   * A reveal from a valid state gives a valid state. The only mine it can
   * uncover is p itself, and the uncovered cells afterwards form a
   * flood-closed set holding p.
   */
  lemma RevealKeepsValid(g: Game, g': Game, p: Cell)
    requires Valid(g) && InBounds(p) && RevealedBy(g, g', p)
    ensures Valid(g')
    ensures Uncovered(g, g') * g.mineSet <= {p}
    ensures FloodClosed(g.mineSet, UncoveredCells(g')) && p in UncoveredCells(g')
  {
    var N := Uncovered(g, g');
    UncoversKeepsFlags(g, g', N);
    RevealLeavesClosedSet(g, g', p);
    FloodRegionMeetsNoOtherMine(g.mineSet, N, p);
    UncoversRevealedMines(g, g', N);
    assert p in N && p in g.mineSet <==> N * g.mineSet != {};
  }

  /** Two results of uncovering the same cells from the same state, with the same game-over switch, are equal. */
  lemma UncoversSameCells(g: Game, g1: Game, g2: Game, N: set<Cell>)
    requires Uncovers(g, g1, N) && Uncovers(g, g2, N) && g1.isOver == g2.isOver
    ensures g1 == g2
  {
    assert g1.tiles == g2.tiles;
  }

  /**
   * The reveal relation is a function of the state before: from a valid
   * state, two results of showTile(p) are the same state. Together with
   * RevealKeepsValid this says a reveal uncovers exactly the covered cells
   * of the flood region of p (the least flood-closed set holding p).
   */
  lemma RevealDeterminate(g: Game, g1: Game, g2: Game, p: Cell)
    requires Valid(g) && InBounds(p)
    requires RevealedBy(g, g1, p) && RevealedBy(g, g2, p)
    ensures g1 == g2
  {
    RevealWithin(g, g1, g2, p);
    RevealWithin(g, g2, g1, p);
    UncoversSameCells(g, g1, g2, Uncovered(g, g1));
  }

  /** What one reveal of p uncovers, any other reveal of p from the same state uncovers too. */
  lemma RevealWithin(g: Game, g1: Game, g2: Game, p: Cell)
    requires Layout(g) && ZeroSpread(g) && InBounds(p)
    requires RevealedBy(g, g1, p) && RevealedBy(g, g2, p)
    ensures Uncovered(g, g1) <= Uncovered(g, g2)
  {
    RevealLeavesClosedSet(g, g2, p);
    assert Uncovered(g, g1) <= UncoveredCells(g2);
  }


  // ---------------------------------------------------------------------
  // Mouse events
  // ---------------------------------------------------------------------

  /**
   * processMouseEvent on cell p: nothing once the game is over or when the
   * tile is uncovered; button 1 on a covered tile without a flag is
   * showTile, on a flagged one nothing; button 2 toggles the flag.
   */
  ghost function Event(g: Game, p: Cell, a: Action): Game
    requires g.tiles.Keys == AllCells() && InBounds(p)
  {
    AllCellsAreInBounds(p);
    if g.isOver || !g.tiles[p].hide then g
    else match a
      case Reveal => if g.tiles[p].flag then g else ShowTile(g, p)
      case ToggleFlag => Toggle(g, p)
  }

  /**
   * Every event keeps the invariants, and only button 1 on a covered,
   * unflagged mine ends a running game. A button-1 event that acts
   * reveals as RevealedBy says.
   */
  lemma EventKeepsValid(g: Game, p: Cell, a: Action)
    requires Valid(g) && InBounds(p)
    ensures Valid(Event(g, p, a))
    ensures Event(g, p, a).isOver <==>
      g.isOver || (a == Reveal && p in g.mineSet && g.tiles[p].hide && !g.tiles[p].flag)
    ensures Event(g, p, a).mineSet == g.mineSet
    ensures a == Reveal && !g.isOver && !g.tiles[p].flag ==> RevealedBy(g, Event(g, p, a), p)
  {
    AllCellsAreInBounds(p);
    if !g.isOver && g.tiles[p].hide {
      assert p in HiddenCells(g);
      match a
      case Reveal =>
        if !g.tiles[p].flag {
          ShowTileReveals(g, p);
          RevealKeepsValid(g, ShowTile(g, p), p);
        }
      case ToggleFlag =>
        ToggleKeepsValid(g, p);
    } else if !g.tiles[p].hide {
      assert p !in HiddenCells(g);
      RevealUncoveredTile(g, p);
    }
  }

  /**
   * An event changes the state exactly when it acts: the game is running,
   * the tile is covered, and the event is button 2 or a button 1 on a tile
   * without a flag.
   */
  lemma EventActsExactly(g: Game, p: Cell, a: Action)
    requires Consistent(g) && InBounds(p)
    ensures Event(g, p, a) == g <==>
      g.isOver || !g.tiles[p].hide || (a == Reveal && g.tiles[p].flag)
  {
    AllCellsAreInBounds(p);
    if !g.isOver && g.tiles[p].hide {
      assert p in HiddenCells(g);
      match a
      case Reveal =>
        if !g.tiles[p].flag {
          ShowTileReveals(g, p);
          assert p !in HiddenCells(ShowTile(g, p));
        }
      case ToggleFlag =>
        assert Toggle(g, p).tiles[p].flag != g.tiles[p].flag;
    }
  }

  /** Two button-2 events on the same tile give back the state before them. */
  lemma FlagEventTwice(g: Game, p: Cell)
    requires Valid(g) && InBounds(p)
    ensures Event(Event(g, p, ToggleFlag), p, ToggleFlag) == g
  {
    AllCellsAreInBounds(p);
    if !g.isOver && g.tiles[p].hide {
      assert p in HiddenCells(g);
      ToggleKeepsValid(g, p);
      ToggleTwice(g, p);
    }
  }

  // ---------------------------------------------------------------------
  // Disclosure when a mine goes off
  // ---------------------------------------------------------------------

  /** The mines to draw: those without a flag. With the flagged mines they make up the mine set. */
  function UnflaggedMines(mineSet: set<Cell>, flagSet: set<Cell>): (mines: set<Cell>)
    ensures mines !! flagSet
    ensures mines + (flagSet * mineSet) == mineSet
  {
    mineSet - flagSet
  }

  /** The flags to cross out: those not on a mine. They never meet the mines to draw. */
  function FalseFlags(mineSet: set<Cell>, flagSet: set<Cell>): (flags: set<Cell>)
    ensures flags == flagSet - mineSet
    ensures flags !! mineSet
    ensures flags !! UnflaggedMines(mineSet, flagSet)
  {
    flagSet - (flagSet * mineSet)
  }
}
