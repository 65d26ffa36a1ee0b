# Battleship rules engine, modelled in Dafny

This project models the rules engine of a two-player Battleship game (Hasbro rules, no salvo),
as written in Python in two versions of the same module:

- `models.py`: in-memory classes. The `Game` holds a reference to the player whose turn it is
  (`current`) and one to the opponent (`other`), and swaps the two after every shot that does
  not end the game.
- `app/api/models.py`: the same classes as database rows. The `Game` holds a list of players
  and the index of the one on turn (`current_idx`), and identifies players by database id.

The ship catalogue and the whole of `Board` are the same text in both files (only the ORM
columns differ), so one `Board` model serves both. The table cites the `app/api/models.py`
lines; `models.py` has the same code at lines 17-25 (catalogue) and 28-148 (`Board`).

Modules, from the leaves up:

| module | file | what it holds |
|---|---|---|
| `Util` | util.dfy | `Option`, `Result` and `Outcome` (success, or failure carrying an error) |
| `Ships` | ships.dfy | the five ships, `symbol_to_ship` |
| `Grid` | grid.dfy | the 10x10 grid as a 100-character string, its markers, `_to_1d`, `grid_as_matrix`, transposition |
| `Placement` | placement.dfy | `validate_starting_grid`, checked against a declarative definition of a legal fleet |
| `Shots` | shots.dfy | what a shot does and what the board queries answer, on the two strings a board holds |
| `Boards` | board.dfy | the `Board` class: immutable starting grid, grid rewritten in place by `shoot` |
| `GameStates` | game_state.dfy | `Game.State` and the errors `join` and `shoot` raise |
| `PlainModels` | plain_game.dfy | `Player` and `Game` of `models.py` |
| `ApiModels` | api_game.dfy | `Player` and `Game` of `app/api/models.py` |

Main results:

- The row-and-transpose placement check decides exactly the declarative rule. That rule says
  the grid has length 100, holds only ship symbols and `.`, and each ship fills one straight
  horizontal or vertical run of its own length.
- A shot keeps the board invariant: action markers stay where they are, a ship is either
  wholly SUNK or not SUNK at all, and a HIT means its ship is still afloat somewhere.
- A shot's outcome is a Miss exactly on an empty field. It is a Sunk exactly when every other
  cell of the ship has already been acted upon. A shot only changes the fields it targets and,
  when it sinks a ship, that ship's cells.
- Shooting at the same field twice always fails. Shooting every remaining ship cell once, in
  any order, always succeeds and leaves a board with no ships, whose enemy view is the whole
  grid.
- In both games, `join` and `shoot` check their error conditions in the source's order. A
  successful shot either finishes the game, and then the shooter stays current and is the
  winner, or passes the turn to the opponent. A finished game's loser has no ships left.

## Model

| member | source | states |
|---|---|---|
| Ships.ShipFor | app/api/models.py:21-27 | looking up a ship symbol yields the catalogue entry carrying that symbol |
| Ships.CatalogIsWellFormed | app/api/models.py:21-27 | the catalogue's keys are exactly C, B, R, S, D; no symbol or name repeats; every ship is 2 to 5 cells long |
| Grid.ToIndex | app/api/models.py:110-111 | `_to_1d` maps (x, y) into [0, 100) and is a bijection: `% 10` gives back x and `/ 10` gives back y |
| Grid.IndexOf | app/api/models.py:146 | `grid.index(symbol)` is the first position holding the symbol |
| Grid.AsMatrix | app/api/models.py:113-116 | `grid_as_matrix` yields ceil(len/10) rows, each non-empty and at most 10 long |
| Grid.FlattenAsMatrix | app/api/models.py:113-116 | joining the rows of `grid_as_matrix` gives back the grid |
| Grid.AsMatrixRow | app/api/models.py:113-116 | row r of `grid_as_matrix` is the slice `grid[10r:10r+10]` |
| Grid.Transpose | app/api/models.py:151 | `zip(*g)` has as many rows as the shortest input row, and cell [c][r] is input cell [r][c] |
| Grid.TransposeTwice | app/api/models.py:151 | transposing a rectangular matrix twice gives it back |
| Grid.MatrixCells | app/api/models.py:145-151 | for a 100-character grid, matrix row y is board row y and transposed row x is board column x |
| Placement.ValidFleetCounts | app/api/models.py:137-139 | a legal fleet has exactly as many cells of each ship as the ship's size |
| Placement.OccupiedCount | app/api/models.py:137-139 | a ship filling a straight run of n cells occurs exactly n times in the grid |
| Placement.RunFillsCount | app/api/models.py:158-159 | a run of n copies of a symbol that occurs n times overall is that ship's whole straight placement |
| Placement.HorizontalCheck | app/api/models.py:146-148 | when the first row holding the symbol holds it more than once, the slice test on that row succeeds exactly when the ship is straight |
| Placement.VerticalSound | app/api/models.py:150-159 | a full run of the symbol in a column proves the ship straight |
| Placement.VerticalComplete | app/api/models.py:150-156 | when the first row holds the symbol once and the ship is straight, the run starts at the first column that holds it, at that column's first occurrence |
| Placement.FirstRowHolding | app/api/models.py:153-156 | the search loop finds the first transposed row holding the symbol and its first position there |
| Placement.PlacedCorrectly | app/api/models.py:144-159 | the per-ship check passes exactly when the ship fills one straight run of its size |
| Placement.ValidateStartingGrid | app/api/models.py:118-159 | the result is the first failing rule in source order: length 100, then every ship's count, then the exact set of characters, then the first misplaced ship in catalogue order; otherwise acceptance |
| Placement.AcceptedIffValidFleet | app/api/models.py:118-132 | a grid is accepted exactly when it has 100 fields, holds every ship symbol and `.` and nothing else, and every ship is one straight run of its size |
| Shots.ShotOutcome.Text | app/api/models.py:86-96 | the string `shoot` returns: exactly "Miss" for a miss; "Hit " or "Sunk " followed by the ship's name for a hit or a sinking |
| Shots.TextIdentifiesOutcome | app/api/models.py:68-78 | the returned strings "Miss", "Hit {name}", "Sunk {name}" are distinct for distinct outcomes |
| Shots.CanShootAt | app/api/models.py:62-66 | on a consistent board a field can be shot at exactly when it carries no action marker |
| Shots.Fire | app/api/models.py:68-96 | `shoot` on values: it fails, with "already acted upon" at (x, y), exactly when the field carries an action marker; a successful shot leaves an action marker on the field |
| Shots.Sink | app/api/models.py:94 | the batch rewrite makes a field SUNK exactly when it starts as that ship or was SUNK already, and leaves every field of other ships as it was |
| Shots.NoShips | app/api/models.py:98-100 | the characters of the grid lie within the action markers and `.` exactly when every field is an action marker or empty |
| Shots.FreshBoard | app/api/models.py:50-54 | a new board satisfies the board invariant, has all five ships remaining, none sunk, and is not out of ships |
| Shots.SymbolIsUntouched | app/api/models.py:62-66 | a ship symbol on the grid stands on a field not acted upon |
| Shots.FireKeepsConsistent | app/api/models.py:68-96 | a successful shot keeps the board invariant |
| Shots.FireOutcome | app/api/models.py:68-96 | a shot at a fresh field succeeds; it is a Miss exactly on an empty field, a Sunk exactly when all other cells of the ship are already acted upon, a Hit otherwise, and names the ship |
| Shots.FireFrame | app/api/models.py:79-96 | the targeted field gets MISS, HIT or SUNK; other fields change only when a ship sinks, and then exactly that ship's cells become SUNK |
| Shots.ShootingTwiceFails | app/api/models.py:79-80 | after a successful shot, a second shot at the same field fails with "already acted upon" |
| Shots.NoShipsIffAllSunk | app/api/models.py:98-100 | a consistent board has no ships exactly when every ship cell is SUNK |
| Shots.RemainingShips | app/api/models.py:102-104 | the remaining ships are catalogue symbols |
| Shots.SunkShips | app/api/models.py:106-108 | sunk and remaining ships are disjoint and together make up the catalogue |
| Shots.SunkShipsAreSunk | app/api/models.py:106-108 | a ship is reported sunk exactly when all of its cells are SUNK |
| Shots.EnemyView | app/api/models.py:56-60 | the enemy view is 100 fields long, shows no ship symbol before the end, shows only grid content elsewhere, and is the whole grid once no ships are left |
| Shots.EnemyViewShowsShootable | app/api/models.py:56-66 | before the end, a blank in the enemy view marks exactly a field that can still be shot at |
| Shots.FireAll | app/api/models.py:68-96 | a sequence of successful shots keeps the board invariant |
| Shots.AllActedUponMeansNoShips | app/api/models.py:98-100 | once every ship cell is acted upon, no ships are left and the enemy view is the whole grid |
| Shots.SinkingEveryShipCell | tests/models_test.py:164-170 | shooting each not yet shot ship cell once, in any order, succeeds at every step and leaves no ships and an enemy view equal to the grid |
| Boards.Board.constructor | app/api/models.py:50-54 | a board built from a legal fleet starts with grid equal to the starting grid, all ships remaining and none sunk |
| Boards.Board.CanShootAt | app/api/models.py:62-66 | a field can be shot at exactly when it carries no action marker |
| Boards.Board.NoShips | app/api/models.py:98-100 | the board has no ships exactly when every ship cell is SUNK |
| Boards.Board.RemainingShips | app/api/models.py:102-104 | a ship is listed as remaining exactly when some cell of it is not SUNK |
| Boards.Board.SunkShips | app/api/models.py:106-108 | a ship is listed as sunk exactly when all its cells are SUNK |
| Boards.Board.EnemyView | app/api/models.py:56-60 | before the end the view hides every ship, blanks exactly the shootable fields and shows the grid's marker on every other field; afterwards it is the grid |
| Boards.Spliced | app/api/models.py:84-89 | gluing the text before a field, one marker and the text after it replaces exactly that field |
| Boards.Board.Shoot | app/api/models.py:68-96 | the refusal or outcome and the new grid are those of the shot semantics, and the board invariant is kept; a refused shot changes neither the game nor the opponent's board |
| Boards.NewBoard | app/api/models.py:50-54 | a board exists exactly for a legal fleet, starting untouched; otherwise the validation error is returned |
| PlainModels.Player.constructor | models.py:151-156 | a player pairs the given name and board |
| PlainModels.Game.constructor | models.py:174-178 | a new game has no players and is NEW |
| PlainModels.Game.Join | models.py:180-191 | refused outside NEW; the first player becomes current; the same player object again is refused; another player becomes the opponent and the game is PLAYING; the game invariant is kept |
| PlainModels.Game.Shoot | models.py:193-218 | refused with no players, then out of turn, then outside PLAYING; otherwise the opponent's board takes the shot and either the game finishes with the shooter current or the two players swap; a refused shot changes neither the game nor the opponent's board |
| PlainModels.Game.Winner | models.py:220-221 | there is a winner exactly when the game is finished; it is the current player and its opponent has no ships |
| ApiModels.Game.constructor | app/api/models.py:198-201 | a new game has no players, no index and is NEW |
| ApiModels.Game.Current | app/api/models.py:203-205 | the current player exists exactly once someone has joined, and is one of the players |
| ApiModels.Game.Other | app/api/models.py:207-209 | the other player exists exactly with two players, and it and the current player are the two players |
| ApiModels.Game.OtherIsOpponent | app/api/models.py:203-209 | with two players in a valid game, the other player is never the player on turn |
| ApiModels.Next | app/api/models.py:247 | `(i + 1) % 2` flips between the two player indices 0 and 1 |
| ApiModels.Game.Join | app/api/models.py:211-225 | refused outside NEW; the first player is appended and gets the turn; then refused when the first player has no database id or the same id; otherwise the player is appended as the opponent and the game is PLAYING |
| ApiModels.Game.Shoot | app/api/models.py:227-249 | refused outside PLAYING, then out of turn; otherwise the opponent's board takes the shot and either the game finishes with the shooter current or the turn passes to the opponent; a refused shot changes neither the game nor the opponent's board |
| ApiModels.Game.Winner | app/api/models.py:251-252 | there is a winner exactly when the game is finished; it is the current player and its opponent has no ships |

## Left out

- The Flask application, its routes, JWT tokens, request schemas and error handlers are not
  modelled. Their guarantees that the core relies on appear as preconditions: shot coordinates
  in [0, 9] (app/api/schemas.py:11-12).
- Boards.Board.Shoot, PlainModels.Game.Shoot, ApiModels.Game.Shoot: coordinates outside
  [0, 9] are excluded by precondition, because the schema rejects them before the core is
  called. `_to_1d` itself does no bounds check, so in Python such coordinates do one of three
  things. Some land on a real field of a neighbouring row and are shot there without error:
  (10, 0) is index 10, the field (0, 1); (-1, 1) is index 9, the field (9, 0). A negative
  index counts from the end of the string. An index of 100 or more raises IndexError.
- The player name length limit (1-50 characters) from the schema is not modelled: no core
  operation depends on it.
- The schema's grid length of 100 is not turned into a precondition: `validate_starting_grid`
  rejects other lengths itself, and the model keeps that error path.
- SQLAlchemy persistence (`save_to_db`, `get_new_game`, the tables and foreign keys) is not
  modelled. A database id is a plain `Option<int>` that the caller supplies, `None` before the
  first commit. A player in `players` is an immutable value, so the commit that gives an already
  joined player its id is not modelled: a first player who joins with id `None` keeps `None`,
  and every later `Join` fails with `NoDatabaseId`. The source's sequence of join, commit, join
  is represented only by a first player whose id is already `Some` when it joins.
- ApiModels.Game.Join: setting `player.game` back-populates `game.players`; the model appends
  the player to `players` explicitly. The `order_by='Player.id'` re-sorting that happens when a
  game is reloaded from the database is not modelled, and neither is the `Player.game`
  back-reference itself.
- Error messages are not modelled as text. Each distinct error is a constructor of
  `PlacementError`, `ShotError` or `GameError` carrying the data the message shows. The grid
  dump that validation messages append is left out.
- PlainModels.Game.Join, ApiModels.Game.Join: require the joining player's board to satisfy
  the board invariant. Every board is built through validation, so this always holds.
- In `models.py` two players may share one `Board` object; the model allows that and its
  contracts hold in that case too.
- Concurrency and transactions belong to the service layer and are not modelled.

Where the two versions of `Game.shoot` differ, the model follows each file's code. `models.py`
checks for a missing player, then the turn, then the state. `app/api/models.py` checks the state
first and then the turn.
