/** The database-backed `Player` and `Game` of `app/api/models.py`: the game keeps its players
    in a list and the index of the one whose turn it is. A player is known by its database id,
    which exists only once it has been committed. */
module ApiModels {
  import opened Util
  import opened Grid
  import opened Shots
  import opened Boards
  import opened GameStates

  /** `Player`: database id (None before the first commit), name and board. */
  datatype Player = Player(id: Option<int>, name: string, board: Board)

  /** The index after i among two players: `(i + 1) % 2`. */
  function Next(i: int): (j: int)
    ensures 0 <= i < 2 ==> j == 1 - i
  {
    (i + 1) % 2
  }

  class Game {
    var state: State
    /** `players`: in the order they joined. */
    var players: seq<Player>
    /** `current_idx`: None until the first player joins. */
    var currentIdx: Option<int>

    /** The objects the game's invariant depends on: the game and the players' boards. */
    ghost function Footprint(): set<object>
      reads this
    {
      {this} + (if |players| > 0 then {players[0].board} else {})
        + (if |players| > 1 then {players[1].board} else {})
    }

    /** At most two players, and an index into them exactly when a player has joined. */
    predicate Indexed()
      reads this
    {
      |players| <= 2
      && (currentIdx.None? <==> |players| == 0)
      && (currentIdx.Some? ==> 0 <= currentIdx.value < |players|)
    }

    /** The game invariant: an index exactly when a player has joined, two players (the first
        committed, the two with different ids) once the game has started, valid boards, and a
        finished game's loser has no ships left. */
    ghost predicate Valid()
      reads Footprint()
    {
      Indexed()
      && (state == New ==> |players| <= 1)
      && (state != New ==> |players| == 2)
      && (|players| == 2 ==> players[0].id.Some? && players[0].id != players[1].id)
      && (|players| > 0 ==> players[0].board.Valid())
      && (|players| > 1 ==> players[1].board.Valid())
      && (state == Finished ==> Shots.NoShips(players[Next(currentIdx.value)].board.grid))
    }

    /** `Game.__init__`: no players, state NEW. */
    constructor ()
      ensures state == New && players == [] && currentIdx == None
      ensures Valid()
    {
      state := New;
      players := [];
      currentIdx := None;
    }

    /** `Game.current`: the player whose turn it is, None before anyone has joined. */
    function Current(): (p: Option<Player>)
      reads this
      requires Indexed()
      ensures p.Some? <==> |players| > 0
      ensures p.Some? ==> p.value in players
    {
      if |players| > 0 then Some(players[currentIdx.value]) else None
    }

    /** `Game.other`: the player who is not on turn, present only with two players. */
    function Other(): (p: Option<Player>)
      reads this
      requires Indexed()
      ensures p.Some? <==> |players| == 2
      ensures p.Some? ==> exists k | 0 <= k < 2 :: p.value == players[k] && Current().value == players[1 - k]
    {
      if |players| == 2 then
        var k := Next(currentIdx.value);
        assert Current().value == players[1 - k];
        Some(players[k])
      else None
    }

    /** In a game with two players, `other` is the opponent: never the player on turn. */
    lemma OtherIsOpponent()
      requires Valid() && |players| == 2
      ensures Other().Some? && Current().Some? && Other().value != Current().value
    {
    }

    /** `Game.join`: only while NEW. The first player takes the first turn; the second starts
        the game unless the first has no database id yet or has the same id. Joining appends
        the player to `players` (what setting `player.game` does through the relationship). */
    method Join(player: Player) returns (r: Outcome<GameError>)
      requires Valid() && player.board.Valid()
      modifies this
      ensures Valid()
      ensures old(state) != New ==>
        r == Fail(NotInStateNew(old(state))) && unchanged(this)
      ensures old(state) == New && old(Current()).None? ==>
        r == Pass && players == [player] && currentIdx == Some(0) && state == New
      ensures old(state) == New && old(Current()).Some? && old(Current()).value.id.None? ==>
        r == Fail(NoDatabaseId) && unchanged(this)
      ensures old(state) == New && old(Current()).Some? && old(Current()).value.id.Some? ==>
        old(Current()).value.id == player.id ==>
        r == Fail(SameGameTwice) && unchanged(this)
      ensures old(state) == New && old(Current()).Some? && old(Current()).value.id.Some? ==>
        old(Current()).value.id != player.id ==>
        r == Pass && players == old(players) + [player] && currentIdx == old(currentIdx)
        && state == Playing && Current() == old(Current()) && Other() == Some(player)
    {
      if state != New {
        return Fail(NotInStateNew(state));
      }
      if currentIdx.None? {
        currentIdx := Some(0);
      } else if players[currentIdx.value].id.None? {
        return Fail(NoDatabaseId);
      } else if players[currentIdx.value].id == player.id {
        return Fail(SameGameTwice);
      } else {
        state := Playing;
      }
      players := players + [player];
      return Pass;
    }

    /** `Game.shoot`: refused outside PLAYING or out of turn (checked in that order); otherwise
        the opponent's board takes the shot, and either the game finishes (the shooter stays
        current and wins) or the turn passes to the opponent. A shot the board refuses changes
        nothing. */
    method Shoot(playerName: string, x: int, y: int) returns (r: Result<ShotOutcome, GameError>)
      requires Valid() && 0 <= x < N && 0 <= y < N
      modifies this, if |players| == 2 then {Other().value.board} else {}
      ensures Valid()
      ensures old(state) != Playing ==>
        r == Failure(NotPlaying(old(state))) && unchanged(this)
        && (old(|players|) == 2 ==> unchanged(old(Other()).value.board))
      ensures old(state) == Playing && old(Current()).value.name != playerName ==>
        r == Failure(NotYourTurn(old(Current()).value.name)) && unchanged(this)
        && unchanged(old(Other()).value.board)
      ensures old(state) == Playing && old(Current()).value.name == playerName ==>
        var board := old(Other()).value.board;
        match Fire(board.startingGrid, old(board.grid), x, y)
        case Failure(e) =>
          r == Failure(BoardError(e)) && unchanged(this) && board.grid == old(board.grid)
        case Success(shot) =>
          r == Success(shot.outcome) && board.grid == shot.grid && players == old(players)
          && (if Shots.NoShips(shot.grid)
              then state == Finished && currentIdx == old(currentIdx)
              else state == Playing && Current() == old(Other()) && Other() == old(Current()))
    {
      if state != Playing {
        return Failure(NotPlaying(state));
      }
      var current := players[currentIdx.value];
      if current.name != playerName {
        return Failure(NotYourTurn(current.name));
      }
      var other := players[Next(currentIdx.value)];
      var result := other.board.Shoot(x, y);
      if result.Failure? {
        return Failure(BoardError(result.error));
      }
      if other.board.NoShips() {
        state := Finished;
      } else {
        currentIdx := Some(Next(currentIdx.value));
      }
      return Success(result.value);
    }

    /** `Game.winner`: the current player once the game is finished, and only then; the
        winner's opponent has no ships left. */
    function Winner(): (w: Option<Player>)
      reads Footprint()
      requires Valid()
      ensures w.Some? <==> state == Finished
      ensures w.Some? ==> w == Current() && Shots.NoShips(Other().value.board.grid)
    {
      if state == Finished then Current() else None
    }
  }
}
