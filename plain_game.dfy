/** The in-memory `Player` and `Game` of `models.py`: the game holds a reference to the player
    whose turn it is and one to the opponent, and swaps them after every shot that does not
    end the game. */
module PlainModels {
  import opened Util
  import opened Grid
  import opened Shots
  import opened Boards
  import opened GameStates

  /** `Player`: a name and a board, compared by identity. */
  class Player {
    const name: string
    const board: Board

    constructor (name: string, board: Board)
      ensures this.name == name && this.board == board
    {
      this.name := name;
      this.board := board;
    }
  }

  class Game {
    /** `current`: whose turn it is (the winner once the game is finished). */
    var current: Player?
    /** `other`: the opponent, whose board the next shot lands on. */
    var other: Player?
    var state: State

    /** The objects the game's invariant depends on: the game and the players' boards. */
    ghost function Footprint(): set<object>
      reads this
    {
      {this} + (if current != null then {current.board} else {})
        + (if other != null then {other.board} else {})
    }

    /** The game invariant: no opponent before the game starts, two distinct players once it
        has, valid boards, and a finished game's loser has no ships left. */
    ghost predicate Valid()
      reads Footprint()
    {
      (current == null ==> state == New)
      && (state == New ==> other == null)
      && (state != New ==> current != null && other != null && current != other)
      && (current != null ==> current.board.Valid())
      && (other != null ==> other.board.Valid())
      && (state == Finished ==> other != null && other.board.Valid() && Shots.NoShips(other.board.grid))
    }

    /** `Game.__init__`: no players, state NEW. */
    constructor ()
      ensures current == null && other == null && state == New
      ensures Valid()
    {
      current := null;
      other := null;
      state := New;
    }

    /** `Game.join`: only while NEW; the first player to join takes the first turn, a second
        distinct player becomes the opponent and starts the game, the same player twice is
        refused. */
    method Join(player: Player) returns (r: Outcome<GameError>)
      requires Valid() && player.board.Valid()
      modifies this
      ensures Valid()
      ensures old(state) != New ==>
        r == Fail(NotInStateNew(old(state))) && unchanged(this)
      ensures old(state) == New && old(current) == null ==>
        r == Pass && current == player && other == null && state == New
      ensures old(state) == New && old(current) == player ==>
        r == Fail(SameGameTwice) && unchanged(this)
      ensures old(state) == New && old(current) != null && old(current) != player ==>
        r == Pass && current == old(current) && other == player && state == Playing
    {
      if state != New {
        return Fail(NotInStateNew(state));
      }
      if current == null {
        current := player;
      } else {
        if current == player {
          return Fail(SameGameTwice);
        }
        other := player;
        state := Playing;
      }
      return Pass;
    }

    /** `Game.shoot`: refused with no players, out of turn, or outside PLAYING (checked in that
        order); otherwise the opponent's board takes the shot, and either the game finishes
        (the shooter stays current and wins) or the turn passes to the opponent. A shot the
        board refuses changes nothing. */
    method Shoot(playerName: string, x: int, y: int) returns (r: Result<ShotOutcome, GameError>)
      requires Valid() && 0 <= x < N && 0 <= y < N
      modifies this, if other != null then {other.board} else {}
      ensures Valid()
      ensures old(current) == null ==>
        r == Failure(NoPlayers) && unchanged(this) && old(other) == null
      ensures old(current) != null && old(current.name) != playerName ==>
        r == Failure(NotYourTurn(old(current.name))) && unchanged(this)
        && (old(other) != null ==> unchanged(old(other).board))
      ensures old(current) != null && old(current.name) == playerName && old(state) != Playing ==>
        r == Failure(NotPlaying(old(state))) && unchanged(this)
        && (old(other) != null ==> unchanged(old(other).board))
      ensures old(current) != null && old(current.name) == playerName && old(state) == Playing ==>
        var board := old(other.board);
        match Fire(board.startingGrid, old(board.grid), x, y)
        case Failure(e) =>
          r == Failure(BoardError(e)) && unchanged(this) && board.grid == old(board.grid)
        case Success(shot) =>
          r == Success(shot.outcome) && board.grid == shot.grid
          && (if Shots.NoShips(shot.grid)
              then state == Finished && current == old(current) && other == old(other)
              else state == Playing && current == old(other) && other == old(current))
    {
      if current == null {
        return Failure(NoPlayers);
      }
      if current.name != playerName {
        return Failure(NotYourTurn(current.name));
      }
      if state != Playing {
        return Failure(NotPlaying(state));
      }
      var result := other.board.Shoot(x, y);
      if result.Failure? {
        return Failure(BoardError(result.error));
      }
      if other.board.NoShips() {
        state := Finished;
      } else {
        current, other := other, current;
      }
      return Success(result.value);
    }

    /** `Game.winner`: the current player once the game is finished, and only then; the
        winner's opponent has no ships left. */
    function Winner(): (w: Player?)
      reads Footprint()
      requires Valid()
      ensures w != null <==> state == Finished
      ensures w != null ==> w == current && other != null && Shots.NoShips(other.board.grid)
    {
      if state == Finished then current else null
    }
  }
}
