/** What both versions of `Game` share: the three states of a game and the ValueErrors that
    `join` and `shoot` raise. */
module GameStates {
  import opened Shots

  /** `Game.State`: NEW until the second player joins, PLAYING until one fleet is gone,
      then FINISHED. */
  datatype State = New | Playing | Finished

  /** The reasons `Game.join` and `Game.shoot` refuse to act; the data they carry is what the
      message text reports. */
  datatype GameError =
    | NotInStateNew(state: State)     // join: the game has already started or finished
    | SameGameTwice                   // join: the joining player is already the first player
    | NoDatabaseId                    // join: the first player has not been committed yet
    | NoPlayers                       // shoot: nobody has joined
    | NotYourTurn(turnOf: string)     // shoot: the named player is not the one on turn
    | NotPlaying(state: State)        // shoot: the game is not in PLAYING
    | BoardError(error: ShotError)    // shoot: the board refused the shot, passed through
}
