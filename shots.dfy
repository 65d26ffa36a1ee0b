/** What a shot does to a board and what the board's queries answer, on the two strings a
    `Board` holds: the immutable starting grid and the grid of the game so far. */
module Shots {
  import opened Util
  import opened Ships
  import opened Grid
  import opened Placement

  /** The result of `Board.shoot`: 'Miss', 'Hit {ship_name}' or 'Sunk {ship_name}'. */
  datatype ShotOutcome = Miss | Hit(ship: Ship) | Sunk(ship: Ship)
  {
    /** The string `shoot` returns: a word naming the outcome, then for a hit or a sinking a
        space and the ship's name. */
    function Text(): (t: string)
      ensures Miss? <==> t == "Miss"
      ensures Hit? <==> |t| >= 4 && t[..4] == "Hit "
      ensures Hit? ==> t[4..] == ship.name
      ensures Sunk? <==> |t| >= 5 && t[..5] == "Sunk "
      ensures Sunk? ==> t[5..] == ship.name
    {
      match this
      case Miss =>
        assert "Miss"[..4][0] != "Hit "[0];
        "Miss"
      case Hit(s) =>
        var t := "Hit " + s.name;
        assert t[0] == 'H' && t[..4] == "Hit " && t[4..] == s.name;
        t
      case Sunk(s) =>
        var t := "Sunk " + s.name;
        assert t[0] == 'S' && t[..5] == "Sunk " && t[5..] == s.name;
        t
    }
  }

  /** `shoot` raises when the field was already acted upon. */
  datatype ShotError = AlreadyActedUpon(x: int, y: int)

  /** The returned string tells the outcome apart: different outcomes about catalog ships
      never render to the same text. */
  lemma TextIdentifiesOutcome(a: ShotOutcome, b: ShotOutcome)
    requires !a.Miss? ==> a.ship in Catalog
    requires !b.Miss? ==> b.ship in Catalog
    ensures a.Text() == b.Text() ==> a == b
  {
    CatalogIsWellFormed();
    if a.Text() == b.Text() {
      var t := a.Text();
      if !a.Miss? && !b.Miss? {
        var prefix := if a.Hit? then 4 else 5;
        assert t[0] == (if a.Hit? then 'H' else 'S') == (if b.Hit? then 'H' else 'S');
        assert a.ship.name == t[prefix..] == b.ship.name;
      }
    }
  }

  /** A cell of the grid either still shows its starting character or carries an action marker
      that fits it: a miss on an empty field, a hit or a sunk marker on a ship. */
  predicate CellState(start: char, cell: char)
  {
    || cell == start
    || (start == NO_ACTION && cell == MISS)
    || (start in ShipSymbols && (cell == HIT || cell == SUNK))
  }

  /** The board invariant: every cell untouched or acted upon in a way that fits its starting
      character; a ship is sunk in all its cells or in none; a hit marker stands only on a ship
      that still has an untouched cell. */
  ghost predicate Consistent(start: string, grid: string)
  {
    && |start| == Cells && |grid| == Cells
    && (forall i | 0 <= i < Cells :: start[i] in Alphabet)
    && (forall i | 0 <= i < Cells :: CellState(start[i], grid[i]))
    && (forall i, j | 0 <= i < Cells && 0 <= j < Cells && start[i] == start[j] && grid[i] == SUNK ::
          grid[j] == SUNK)
    && (forall i | 0 <= i < Cells && grid[i] == HIT :: Afloat(start, grid, start[i]))
  }

  /** Some cell of the ship whose symbol is c is still untouched. */
  ghost predicate Afloat(start: string, grid: string, c: char)
    requires |start| == Cells && |grid| == Cells
  {
    exists j | 0 <= j < Cells && start[j] == c :: grid[j] == c
  }

  /** `Board.can_shoot_at`: the field still shows its starting character. On a consistent board
      that is exactly "no action marker on it". */
  function CanShootAt(start: string, grid: string, x: int, y: int): (r: bool)
    requires |start| == Cells && |grid| == Cells && 0 <= x < N && 0 <= y < N
    ensures Consistent(start, grid) ==> (r <==> grid[ToIndex(x, y)] !in Actions)
  {
    var xy := ToIndex(x, y);
    grid[xy] == start[xy]
  }

  /** The batch rewrite of a sunk ship: every cell whose starting character is `symbol`
      becomes SUNK. */
  function Sink(start: string, grid: string, symbol: char): (g: string)
    requires |start| == Cells && |grid| == Cells
    ensures |g| == Cells
    ensures forall i | 0 <= i < Cells :: g[i] == SUNK <==> start[i] == symbol || grid[i] == SUNK
    ensures forall i | 0 <= i < Cells && start[i] != symbol :: g[i] == grid[i]
  {
    seq(Cells, i requires 0 <= i < Cells => if start[i] != symbol then grid[i] else SUNK)
  }

  datatype Shot = Shot(outcome: ShotOutcome, grid: string)

  /** `Board.shoot` on values: the outcome and the new grid, or the error. */
  function Fire(start: string, grid: string, x: int, y: int): (r: Result<Shot, ShotError>)
    requires Consistent(start, grid) && 0 <= x < N && 0 <= y < N
    ensures r.Failure? <==> grid[ToIndex(x, y)] in Actions
    ensures r.Failure? ==> r.error == AlreadyActedUpon(x, y)
    ensures r.Success? ==> |r.value.grid| == Cells && r.value.grid[ToIndex(x, y)] in Actions
  {
    var xy := ToIndex(x, y);
    if !CanShootAt(start, grid, x, y) then Failure(AlreadyActedUpon(x, y))
    else if grid[xy] == NO_ACTION then Success(Shot(Miss, grid[xy := MISS]))
    else
      var symbol := grid[xy];
      var hit := grid[xy := HIT];
      if symbol in hit then Success(Shot(Hit(ShipFor(symbol)), hit))
      else Success(Shot(Sunk(ShipFor(symbol)), Sink(start, hit, symbol)))
  }

  /** `Board.no_ships`: the grid holds nothing but action markers and empty fields, that is,
      every field is one of them. */
  predicate NoShips(grid: string): (r: bool)
    ensures r <==> forall i | 0 <= i < |grid| :: grid[i] in Actions || grid[i] == NO_ACTION
  {
    CharSet(grid) <= Actions + {NO_ACTION}
  }

  /** `Board.remaining_ships`: the ship symbols still on the grid. */
  function RemainingShips(grid: string): (r: set<char>)
    ensures r <= ShipSymbols
  {
    CharSet(grid) * ShipSymbols
  }

  /** `Board.sunk_ships`: the catalog symbols not remaining; the two split the catalog. */
  function SunkShips(grid: string): (r: set<char>)
    ensures r !! RemainingShips(grid) && r + RemainingShips(grid) == ShipSymbols
  {
    ShipSymbols - RemainingShips(grid)
  }

  /** `Board.enemy_view`: the whole grid once no ship is left; before that only the action
      markers, with a space on every other field, so no ship symbol is ever shown. */
  function EnemyView(grid: string): (view: string)
    requires |grid| == Cells
    ensures |view| == Cells
    ensures NoShips(grid) ==> view == grid
    ensures !NoShips(grid) ==>
      forall i | 0 <= i < Cells :: view[i] !in ShipSymbols && (view[i] != ' ' ==> view[i] == grid[i])
  {
    if NoShips(grid) then grid
    else seq(Cells, xy requires 0 <= xy < Cells => if grid[xy] in Actions then grid[xy] else ' ')
  }

  /** A freshly validated board: the grid equals the starting grid, the invariant holds, all five
      ships remain and none is sunk. */
  lemma FreshBoard(g: string)
    requires ValidFleet(g)
    ensures Consistent(g, g)
    ensures RemainingShips(g) == ShipSymbols && SunkShips(g) == {} && !NoShips(g)
  {
    assert forall i | 0 <= i < Cells :: g[i] in CharSet(g);
    assert 'C' in CharSet(g);
  }

  /** A character of a consistent grid that is a ship symbol stands on an untouched cell of
      that ship. */
  lemma SymbolIsUntouched(start: string, grid: string, i: int)
    requires Consistent(start, grid) && 0 <= i < Cells && grid[i] in ShipSymbols
    ensures start[i] == grid[i]
  {
  }

  /** A shot keeps the board invariant. */
  lemma FireKeepsConsistent(start: string, grid: string, x: int, y: int)
    requires Consistent(start, grid) && 0 <= x < N && 0 <= y < N
    requires Fire(start, grid, x, y).Success?
    ensures Consistent(start, Fire(start, grid, x, y).value.grid)
  {
    var xy := ToIndex(x, y);
    var g' := Fire(start, grid, x, y).value.grid;
    var symbol := grid[xy];
    if symbol == NO_ACTION {
      forall i | 0 <= i < Cells && g'[i] == HIT
        ensures start[i] in g'
      {
        var j :| 0 <= j < Cells && grid[j] == start[i];
        assert g'[j] == start[i];
      }
    } else if symbol in grid[xy := HIT] {
      forall i | 0 <= i < Cells && g'[i] == HIT
        ensures start[i] in g'
      {
        if start[i] != symbol {
          var j :| 0 <= j < Cells && grid[j] == start[i];
          assert g'[j] == start[i];
        }
      }
    } else {
      var hit := grid[xy := HIT];
      forall i | 0 <= i < Cells && g'[i] == HIT
        ensures start[i] in g'
      {
        var j :| 0 <= j < Cells && grid[j] == start[i];
        SymbolIsUntouched(start, grid, j);
        assert g'[j] == start[i];
      }
      forall i, j | 0 <= i < Cells && 0 <= j < Cells && start[i] == start[j] && g'[i] == SUNK
        ensures g'[j] == SUNK
      {
        if start[i] != symbol {
          assert hit[i] == SUNK;
        }
      }
    }
  }

  /** What a shot at an untouched field answers: a miss exactly on an empty field; on a ship,
      a sinking exactly when every other cell of that ship was already acted upon, and a hit
      otherwise; the ship named is the one from the catalog. */
  lemma FireOutcome(start: string, grid: string, x: int, y: int)
    requires Consistent(start, grid) && 0 <= x < N && 0 <= y < N
    requires CanShootAt(start, grid, x, y)
    ensures Fire(start, grid, x, y).Success?
    ensures var xy, outcome := ToIndex(x, y), Fire(start, grid, x, y).value.outcome;
      && (outcome == Miss <==> start[xy] == NO_ACTION)
      && (start[xy] != NO_ACTION ==>
            var ship := ShipFor(start[xy]);
            outcome == (if forall j | 0 <= j < Cells && j != xy && start[j] == start[xy] :: grid[j] in Actions
                        then Sunk(ship) else Hit(ship)))
  {
    var xy := ToIndex(x, y);
    var symbol := start[xy];
    if symbol != NO_ACTION {
      var hit := grid[xy := HIT];
      if symbol in hit {
        var j :| 0 <= j < Cells && hit[j] == symbol;
        assert j != xy && start[j] == symbol && grid[j] !in Actions;
      } else {
        forall j | 0 <= j < Cells && j != xy && start[j] == symbol
          ensures grid[j] in Actions
        {
          assert hit[j] != symbol;
        }
      }
    }
  }

  /** What a shot changes: the target field gets an action marker, a miss or a hit touches
      nothing else, a sinking turns exactly the cells of that ship to SUNK, and no action marker
      is ever taken back. */
  lemma FireFrame(start: string, grid: string, x: int, y: int)
    requires Consistent(start, grid) && 0 <= x < N && 0 <= y < N
    requires Fire(start, grid, x, y).Success?
    ensures var xy, shot := ToIndex(x, y), Fire(start, grid, x, y).value;
      && |shot.grid| == Cells
      && shot.grid[xy] in Actions
      && (shot.outcome.Miss? ==> shot.grid == grid[xy := MISS])
      && (shot.outcome.Hit? ==> shot.grid == grid[xy := HIT])
      && (shot.outcome.Sunk? ==>
            forall i | 0 <= i < Cells ::
              shot.grid[i] == if start[i] == start[xy] then SUNK else grid[i])
      && (forall i | 0 <= i < Cells && grid[i] in Actions :: shot.grid[i] in Actions)
  {
    var xy := ToIndex(x, y);
    var shot := Fire(start, grid, x, y).value;
    if shot.outcome.Sunk? {
      forall i | 0 <= i < Cells
        ensures shot.grid[i] == if start[i] == start[xy] then SUNK else grid[i]
      {
        if i == xy {
          assert start[i] == start[xy];
        }
      }
    }
  }

  /** Shooting the same field twice always fails the second time. */
  lemma ShootingTwiceFails(start: string, grid: string, x: int, y: int)
    requires Consistent(start, grid) && 0 <= x < N && 0 <= y < N
    requires Fire(start, grid, x, y).Success?
    ensures var g' := Fire(start, grid, x, y).value.grid;
      Consistent(start, g') && Fire(start, g', x, y) == Failure(AlreadyActedUpon(x, y))
  {
    FireKeepsConsistent(start, grid, x, y);
    FireFrame(start, grid, x, y);
  }

  /** On a consistent board no ship is left exactly when every ship cell is SUNK. */
  lemma NoShipsIffAllSunk(start: string, grid: string)
    requires Consistent(start, grid)
    ensures NoShips(grid) <==> forall i | 0 <= i < Cells && start[i] in ShipSymbols :: grid[i] == SUNK
  {
    if NoShips(grid) {
      forall i | 0 <= i < Cells && start[i] in ShipSymbols
        ensures grid[i] == SUNK
      {
        assert grid[i] in CharSet(grid);
      }
    }
  }

  /** A ship is reported sunk exactly when all its cells are SUNK (every ship symbol occurring
      on the starting grid, as on a validated board). */
  lemma SunkShipsAreSunk(start: string, grid: string, s: char)
    requires Consistent(start, grid) && ShipSymbols <= CharSet(start)
    ensures s in SunkShips(grid) <==>
      s in ShipSymbols && forall i | 0 <= i < Cells && start[i] == s :: grid[i] == SUNK
  {
    if s in ShipSymbols {
      if s in SunkShips(grid) {
        forall i | 0 <= i < Cells && start[i] == s
          ensures grid[i] == SUNK
        {
          assert grid[i] in CharSet(grid);
        }
      } else {
        assert s in CharSet(grid);
        var j :| 0 <= j < Cells && grid[j] == s;
        assert start[j] == s;
      }
    }
  }

  /** Before the game is over, a space in the enemy's view marks exactly the fields that can
      still be shot at. */
  lemma EnemyViewShowsShootable(start: string, grid: string, x: int, y: int)
    requires Consistent(start, grid) && !NoShips(grid) && 0 <= x < N && 0 <= y < N
    ensures EnemyView(grid)[ToIndex(x, y)] == ' ' <==> CanShootAt(start, grid, x, y)
  {
    var xy := ToIndex(x, y);
    assert start[xy] in Alphabet;
  }

  predicate OnBoard(shot: (int, int))
  {
    0 <= shot.0 < N && 0 <= shot.1 < N
  }

  /** `shoot` applied to a list of fields in turn, stopping at the first error. */
  function FireAll(start: string, grid: string, shots: seq<(int, int)>): (r: Result<string, ShotError>)
    requires Consistent(start, grid)
    requires forall k | 0 <= k < |shots| :: OnBoard(shots[k])
    ensures r.Success? ==> Consistent(start, r.value)
    decreases |shots|
  {
    if shots == [] then Success(grid)
    else
      assert OnBoard(shots[0]);
      match Fire(start, grid, shots[0].0, shots[0].1)
        case Failure(e) => Failure(e)
        case Success(shot) =>
          FireKeepsConsistent(start, grid, shots[0].0, shots[0].1);
          FireAll(start, shot.grid, shots[1..])
  }

  /** The grid index a shot aims at. */
  function Target(shot: (int, int)): nat
    requires OnBoard(shot)
  {
    ToIndex(shot.0, shot.1)
  }

  ghost function Targets(shots: seq<(int, int)>): set<nat>
    requires forall k | 0 <= k < |shots| :: OnBoard(shots[k])
  {
    set k | 0 <= k < |shots| :: Target(shots[k])
  }

  /** Once every ship cell has been acted upon, no ship is left and the enemy sees the whole grid. */
  lemma AllActedUponMeansNoShips(start: string, grid: string)
    requires Consistent(start, grid)
    requires forall i | 0 <= i < Cells && start[i] in ShipSymbols :: grid[i] != start[i]
    ensures NoShips(grid) && EnemyView(grid) == grid
  {
    forall c | c in CharSet(grid)
      ensures c in Actions + {NO_ACTION}
    {
      var i :| 0 <= i < Cells && grid[i] == c;
    }
  }

  /** Shooting, in any order, every field that still hides part of a ship (each once, each
      untouched) succeeds at every step and leaves a board with no ships, whose enemy view is
      the whole grid. */
  lemma {:induction false} SinkingEveryShipCell(start: string, grid: string, shots: seq<(int, int)>)
    requires Consistent(start, grid)
    requires forall k | 0 <= k < |shots| :: OnBoard(shots[k])
    requires forall k, l | 0 <= k < l < |shots| :: Target(shots[k]) != Target(shots[l])
    requires forall k | 0 <= k < |shots| :: grid[Target(shots[k])] == start[Target(shots[k])]
    requires forall i | 0 <= i < Cells && start[i] in ShipSymbols && grid[i] == start[i] ::
      i in Targets(shots)
    ensures FireAll(start, grid, shots).Success?
    ensures NoShips(FireAll(start, grid, shots).value)
    ensures EnemyView(FireAll(start, grid, shots).value) == FireAll(start, grid, shots).value
    decreases |shots|
  {
    if shots == [] {
      AllActedUponMeansNoShips(start, grid);
    } else {
      var x, y := shots[0].0, shots[0].1;
      var xy := Target(shots[0]);
      FireOutcome(start, grid, x, y);
      FireFrame(start, grid, x, y);
      FireKeepsConsistent(start, grid, x, y);
      var shot := Fire(start, grid, x, y).value;
      var g' := shot.grid;
      var rest := shots[1..];
      forall k | 0 <= k < |rest|
        ensures g'[Target(rest[k])] == start[Target(rest[k])]
      {
        var t := Target(rest[k]);
        assert rest[k] == shots[k + 1];
        assert t != xy;
        assert grid[t] == start[t] && start[t] in Alphabet;
      }
      forall i | 0 <= i < Cells && start[i] in ShipSymbols && g'[i] == start[i]
        ensures i in Targets(rest)
      {
        assert grid[i] == start[i];
        assert i != xy;
        var k :| 0 <= k < |shots| && Target(shots[k]) == i;
        assert k != 0;
        assert rest[k - 1] == shots[k];
      }
      SinkingEveryShipCell(start, g', rest);
    }
  }
}
