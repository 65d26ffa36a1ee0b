/** `Board`: a starting grid that never changes and the grid of the game so far, which `shoot`
    rewrites in place. */
module Boards {
  import opened Util
  import opened Ships
  import opened Grid
  import opened Placement
  import opened Shots

  class Board {
    /** `starting_grid`: the validated placement of the five ships. */
    const startingGrid: string
    /** `grid`: the starting grid with every shot so far marked on it. */
    var grid: string

    /** The board invariant: the starting grid is a legal fleet and the grid is what shots
        can make of it. */
    ghost predicate Valid()
      reads this
    {
      ValidFleet(startingGrid) && Consistent(startingGrid, grid)
    }

    /** `Board.__init__` once validation has passed: the grid starts as the starting grid. */
    constructor (g: string)
      requires ValidFleet(g)
      ensures startingGrid == g && grid == g
      ensures Valid()
      ensures RemainingShips() == ShipSymbols && SunkShips() == {} && !NoShips()
    {
      startingGrid := g;
      grid := g;
      new;
      FreshBoard(g);
    }

    /** `Board.can_shoot_at`: the field carries no action marker yet. */
    function CanShootAt(x: int, y: int): (r: bool)
      reads this
      requires Valid() && 0 <= x < N && 0 <= y < N
      ensures r <==> grid[ToIndex(x, y)] !in Actions
    {
      Shots.CanShootAt(startingGrid, grid, x, y)
    }

    /** `Board.no_ships`: every cell of every ship has been sunk. */
    function NoShips(): (r: bool)
      reads this
      requires Valid()
      ensures r <==> forall i | 0 <= i < Cells && startingGrid[i] in ShipSymbols :: grid[i] == SUNK
    {
      NoShipsIffAllSunk(startingGrid, grid);
      Shots.NoShips(grid)
    }

    /** `Board.remaining_ships`: a ship remains exactly when some of its cells is not SUNK. */
    function RemainingShips(): (r: set<char>)
      reads this
      requires Valid()
      ensures forall s :: s in r <==>
        s in ShipSymbols && exists i | 0 <= i < Cells && startingGrid[i] == s :: grid[i] != SUNK
    {
      ValidFleetCounts(startingGrid);
      forall s
        ensures s in Shots.RemainingShips(grid) <==>
          s in ShipSymbols && exists i | 0 <= i < Cells && startingGrid[i] == s :: grid[i] != SUNK
      {
        SunkShipsAreSunk(startingGrid, grid, s);
      }
      Shots.RemainingShips(grid)
    }

    /** `Board.sunk_ships`: a ship is listed exactly when all of its cells are SUNK. */
    function SunkShips(): (r: set<char>)
      reads this
      requires Valid()
      ensures forall s :: s in r <==>
        s in ShipSymbols && forall i | 0 <= i < Cells && startingGrid[i] == s :: grid[i] == SUNK
    {
      ValidFleetCounts(startingGrid);
      forall s
        ensures s in Shots.SunkShips(grid) <==>
          s in ShipSymbols && forall i | 0 <= i < Cells && startingGrid[i] == s :: grid[i] == SUNK
      {
        SunkShipsAreSunk(startingGrid, grid, s);
      }
      Shots.SunkShips(grid)
    }

    /** `Board.enemy_view`: before the end a space marks exactly the fields that may still be
        shot at, and no ship symbol is shown. */
    function EnemyView(): (view: string)
      reads this
      requires Valid()
      ensures |view| == Cells
      ensures !NoShips() ==> forall x, y | 0 <= x < N && 0 <= y < N ::
        view[ToIndex(x, y)] !in ShipSymbols && (view[ToIndex(x, y)] == ' ' <==> CanShootAt(x, y))
        && (view[ToIndex(x, y)] != ' ' ==> view[ToIndex(x, y)] == grid[ToIndex(x, y)])
      ensures NoShips() ==> view == grid
    {
      forall x, y | 0 <= x < N && 0 <= y < N && !Shots.NoShips(grid)
        ensures Shots.EnemyView(grid)[ToIndex(x, y)] == ' ' <==> Shots.CanShootAt(startingGrid, grid, x, y)
      {
        EnemyViewShowsShootable(startingGrid, grid, x, y);
      }
      Shots.EnemyView(grid)
    }

    /** `Board.shoot`: refuses a field already acted upon and leaves the board alone; otherwise
        marks a miss, a hit, or (for the last cell of a ship) the whole ship as sunk, and says
        which. */
    method Shoot(x: int, y: int) returns (r: Result<ShotOutcome, ShotError>)
      requires Valid() && 0 <= x < N && 0 <= y < N
      modifies this
      ensures Valid()
      ensures match Fire(startingGrid, old(grid), x, y)
        case Failure(e) => r == Failure(e) && grid == old(grid)
        case Success(shot) => r == Success(shot.outcome) && grid == shot.grid
    {
      if !CanShootAt(x, y) {
        return Failure(AlreadyActedUpon(x, y));
      }
      FireKeepsConsistent(startingGrid, grid, x, y);
      var xy := ToIndex(x, y);
      if grid[xy] == NO_ACTION {
        grid := Spliced(grid, xy, MISS);
        return Success(Miss);
      }
      var symbol := grid[xy];
      grid := Spliced(grid, xy, HIT);
      if symbol in grid {
        return Success(Hit(ShipFor(symbol)));
      }
      grid := Sink(startingGrid, grid, symbol);
      return Success(Sunk(ShipFor(symbol)));
    }
  }

  /** How `shoot` marks one field: the text before it, the marker, and the text after it.
      The result is the string with exactly that field replaced. */
  function Spliced(s: string, i: nat, c: char): (r: string)
    requires i < |s|
    ensures r == s[i := c]
  {
    s[..i] + [c] + s[i + 1..]
  }

  /** `Board(starting_grid)`: validation first; a board only for a legal starting grid, the
      validation error otherwise. */
  method NewBoard(g: string) returns (r: Result<Board, PlacementError>)
    ensures r.Success? <==> ValidFleet(g)
    ensures r.Success? ==> fresh(r.value) && r.value.startingGrid == g && r.value.grid == g
    ensures r.Success? ==> r.value.Valid()
    ensures r.Failure? ==> Verdict(g) == Fail(r.error)
  {
    var verdict := ValidateStartingGrid(g);
    AcceptedIffValidFleet(g);
    match verdict
    case Fail(e) =>
      return Failure(e);
    case Pass =>
      var board := new Board(g);
      return Success(board);
  }
}
