# A verified model of the mazegame chase core

The game in `bfs_game.js` takes place on a 20 x 15 grid. Each cell is empty, a wall,
the player, an enemy, a star or the exit.

- The player moves one cell per key press and collects stars.
- When the last star is taken, an exit appears on a random empty cell.
  Stepping onto the exit finishes the game.
- Once a second, every enemy asks a breadth-first search (`bfs`) for a path
  to the player and takes one step along it. An enemy that lands on the player ends the game.

The model has four modules, one file each:

- `grid.dfy` (`Grid`): cell kinds, positions, the board as a value with
  `Height` rows of `Width` cells, and the four neighbour directions in the order
  `bfs` tries them: +x, -x, +y, -y.
- `pathfinder.dfy` (`Pathfinder`): `bfs` as an imperative method over two
  `array2`s (`visited`, `cameFrom`) and a queue. It is proved against a
  specification of walks that avoid walls, the exit and the grid's edge:
  - the result is empty exactly when start and goal coincide;
  - otherwise it is a shortest walk to the goal when one exists;
  - and it is the goal alone when none does.

  The proof carries ghost BFS layers (`depth`), a ghost search tree (`parent`) and
  the order in which cells were enqueued.
- `rules.dfy` (`Rules`): the game's global variables as one value
  (`GameState`). It defines the player's move, one enemy's step, the round
  of enemy steps and the one-second tick as functions, with lemmas for
  what each promises.
- `engine.dfy` (`Engine`): the global variables as the fields of a `Game` class.
  Its methods (`movePlayer`, `moveEnemies`, `placeStars`, `placeExit`, the
  interval body) change those fields in place. `movePlayer`, `moveEnemies`,
  one enemy's callback and the interval body are proved to leave exactly the
  state the corresponding `Rules` function gives. `placeStars`, `placeExit`
  and the game's setup are specified cell by cell: which cells were empty,
  which now hold a star or the exit, and that no other cell changes.

Random choices are nondeterministic or parameters:

- a star's or the exit's cell is any empty cell, picked with `:|`;
- the initial board, with its walls and enemies, is an input.

Ghost results expose what the rules functions need to state the outcome: the
exit's cell, and the paths `bfs` returned.

Some behaviours of `bfs_game.js` may be unexpected. The model keeps them all:

- When no walk reaches the player, `bfs` returns `[goal]` rather than an empty
  path. The walk back from the goal stops at the goal's missing `cameFrom`
  entry. A walled-off enemy therefore jumps onto the player, through walls,
  and catches them (`Rules.WalledOffEnemyCatches`). It does not stay where it is.
- The `return` after a catch only leaves the `forEach` callback. The enemies
  after the catching one still take their steps in the same round
  (`Rules.EveryEnemyProcessed`, `Rules.CaughtIff`).
- The level starts at 6, and the game ends when the level exceeds 3 after
  taking the exit. So the first exit taken ends the game (`Rules.ExitEndsGame`),
  and the level-regeneration branch can never run.
- An enemy that steps onto a star overwrites it, and that cell is emptied
  when the enemy leaves (`Rules.StarTrampled`). The exit is then never placed.
  - The score plus the stars still on the board starts equal to the number of
    stars (`Engine.Game.constructor`).
  - No move, enemy step or tick raises that sum (`Rules.MoveKeepsCollectable`,
    `Rules.EnemyStepKeepsCollectable`, `Rules.RoundKeepsCollectable`).
  - A trampled star lowers the sum for good.
  - Once the sum is below the number of stars, no move places the exit
    (`Rules.LostStarBlocksExit`).
- `bfs` lets enemies pass through other enemies and stars. When the player
  steps onto an enemy's cell, that enemy gets an empty path (`bfs(p, p)` is
  `[]`), so it stays put and does not catch the player
  (`Rules.EnemyUnderPlayerStays`).

## Model

| member | source | states |
|---|---|---|
| `Grid.Update` | bfs_game.js:135 | Writing a cell's kind sets that cell and leaves every other cell of the grid unchanged |
| `Grid.Neighbour` | bfs_game.js:180-186 | The cell reached by direction `k` is a 4-neighbour of the current cell |
| `Grid.AdjacentIsNeighbour` | bfs_game.js:180-186 | The four direction offsets cover every 4-neighbour of a cell |
| `Pathfinder.Bfs` | bfs_game.js:167-211 | The result is `[]` iff start == goal. Otherwise, when the goal is reachable avoiding walls, the exit and the edge, it is a shortest walk to the goal (start excluded, goal included). When the goal is unreachable, it is `[goal]`. Every cell of the result is in bounds |
| `Pathfinder.Search` | bfs_game.js:168-200 | After the queue loop, `visited`/`cameFrom` describe a search tree of adjacent passable cells rooted at start. A visited goal's depth is at most the length of any walk to it. An unvisited goal is unreachable |
| `Pathfinder.Expand` | bfs_game.js:180-199 | Trying the four directions leaves every passable neighbour of the dequeued cell visited, at most one layer deeper. It keeps the queue ordered by layer and the arrays in step with the tree. Earlier `cameFrom` entries are kept, and every newly enqueued cell is a neighbour of the dequeued cell with that cell as its `cameFrom` |
| `Pathfinder.Passable` | bfs_game.js:188-194 | The cells `bfs` may enter: in bounds, neither wall nor exit |
| `Pathfinder.Visit` | bfs_game.js:185-198 | One direction: a passable, unvisited neighbour is enqueued, marked visited and given the current cell as `cameFrom`, one layer deeper than it. Otherwise the queue, the arrays and the ghost tree are unchanged. After the call, the neighbours tried so far are visited, at most one layer deeper |
| `Pathfinder.Mark` | bfs_game.js:196-197 | Setting `visited` and `cameFrom` for a cell keeps the arrays mirroring the extended ghost tree |
| `Pathfinder.Rebuild` | bfs_game.js:202-210 | Following `cameFrom` back from the goal gives `[goal]` for an unvisited goal and `[]` when goal == start. Otherwise it gives a walk from start to goal whose length is the goal's depth |
| `Pathfinder.Enqueue` | bfs_game.js:195-197 | Enqueuing an unvisited passable neighbour one layer deeper keeps the queue sorted by layer and the tree well formed |
| `Pathfinder.Dequeue` | bfs_game.js:176 | Removing the queue head keeps the frontier invariant; the head is the next cell in enqueue order |
| `Pathfinder.Progress` | bfs_game.js:175-200 | Each round of the queue loop either visits new cells or leaves the set of unvisited cells as it was, so the loop terminates |
| `Pathfinder.SearchEnds` | bfs_game.js:175-178 | Whether the loop stopped at the goal or ran dry, the goal's depth bounds every walk to it, and an unvisited goal is unreachable |
| `Pathfinder.SearchResult` | bfs_game.js:202-210 | The search's conclusions plus the rebuilt path give exactly the specified `bfs` result |
| `Pathfinder.WalkBound` | bfs_game.js:175-199 | If every visited cell shallower than a bound is closed, any walk no longer than the bound ends on a visited cell no deeper than its length |
| `Pathfinder.BfsConclusion` | bfs_game.js:175-200 | The layers of a finished search bound all walks to the goal, and an unvisited goal is unreachable |
| `Pathfinder.DirectionSettled` | bfs_game.js:184-199 | After direction `k` is handled, the first `k + 1` neighbours of the current cell are visited, at most one layer deeper |
| `Pathfinder.ExpandCloses` | bfs_game.js:180-199 | Once all four directions are handled, every dequeued cell is closed |
| `Pathfinder.ClosedGrows` | bfs_game.js:195-197 | Visiting more cells keeps a closed cell closed |
| `Pathfinder.BfsEmptyIff` | bfs_game.js:202-210 | A `bfs` result is empty exactly when start equals goal |
| `Pathfinder.BfsFirstStep` | bfs_game.js:202-210 | The first cell of a non-empty result is in bounds. It is a passable 4-neighbour of the start when the goal is reachable, and the goal itself otherwise |
| `Pathfinder.BfsLengthDetermined` | bfs_game.js:167-211 | Any two correct `bfs` answers for the same board, start and goal have the same length |
| `Rules.CellsOf` | bfs_game.js:86-96 | Exactly the in-bounds cells of a given kind. For the empty kind, these are the cells the random retry loops accept |
| `Rules.Overwrite` | bfs_game.js:79-81 | Writing a kind into a cell removes that cell, and no other, from the cells of every other kind; their number drops by one exactly when it was of that kind |
| `Rules.Fill` | bfs_game.js:80 | Writing a kind into a cell adds that cell, and no other, to the cells of that kind; their number grows by one unless it was of that kind already |
| `Rules.Target` | bfs_game.js:127-128 | The cell the player moves towards. For an arrow key's offset it is a 4-neighbour of the player |
| `Rules.MoveAllowed` | bfs_game.js:125-134 | The move goes ahead exactly when the game is running and the target is in bounds and not a wall |
| `Rules.PlacesExit` | bfs_game.js:139-141 | The exit is placed exactly when an allowed move lands on a star and the new score equals the number of stars |
| `Rules.Vacated` | bfs_game.js:135 | Emptying the player's cell changes only that cell |
| `Rules.PlayerMove` | bfs_game.js:124-164 | A move keeps the state consistent. It changes neither the enemies, the stars nor the time, and raises the score and the level by at most one each |
| `Rules.Collected` | bfs_game.js:135-144 | After the old cell is emptied and the star scored, the player stands on the target |
| `Rules.Landing` | bfs_game.js:146-161 | The end of the move keeps the player's position, the score and the exit |
| `Rules.MoveRejected` | bfs_game.js:125-134 | A move changes nothing when the game is over, the target is out of bounds or the target is a wall. An allowed move puts the player on the target |
| `Rules.PlainMove` | bfs_game.js:135-161 | A move onto a cell that is neither star nor exit empties the old cell and marks the new one as the player. Nothing else changes: no other cell, the score, the exit, the level or the game-over flag |
| `Rules.CollectStar` | bfs_game.js:139-144 | A star adds exactly one to the score. The exit is placed iff the score reaches the number of stars, on one previously empty cell other than the target; no other cell changes |
| `Rules.ExitEndsGame` | bfs_game.js:146-153 | Stepping onto the exit raises the level by one to above 3 and ends the game. The exit cell is not overwritten |
| `Rules.EnemyStep` | bfs_game.js:215-231 | One enemy's callback keeps the state consistent |
| `Rules.RunEnemies` | bfs_game.js:213-233 | The round keeps the enemy count and leaves player, stars, exit, score, time and level unchanged. A finished game stays finished |
| `Rules.EveryEnemyProcessed` | bfs_game.js:214-233 | After the round, every enemy stands on the first cell of its path, or where it was if the path was empty, even after an earlier catch |
| `Rules.CaughtIff` | bfs_game.js:222-228 | The round ends the game iff it was over already or some enemy's step lands on the player |
| `Rules.StartsWhereItStood` | bfs_game.js:214-220 | An enemy's callback sees it on its cell from before the round |
| `Rules.ChaseStep` | bfs_game.js:215-220 | An enemy that can reach the player steps to a passable 4-neighbour. That cell is the first of a shortest walk to the player |
| `Rules.WalledOffEnemyCatches` | bfs_game.js:205-228 | An enemy that cannot reach the player jumps onto the player's cell, and the round ends the game |
| `Rules.EnemyUnderPlayerStays` | bfs_game.js:205-216 | An enemy on the player's cell gets an empty path and stays put |
| `Rules.EnemyMoves` | bfs_game.js:216-231 | With a non-empty path, the enemy moves to the path's first cell and that cell becomes an enemy. Its old cell becomes empty and every other cell keeps its kind. The game ends exactly when it was over already or the step lands on the player |
| `Rules.StarTrampled` | bfs_game.js:218-231 | An enemy stepping onto a star overwrites it, and its old cell becomes empty. The score and the list of stars are unaffected |
| `Rules.AfterTick` | bfs_game.js:259-264 | The interval body keeps the state consistent |
| `Rules.TickTime` | bfs_game.js:259-264 | A tick of a finished game changes nothing. A tick of a running game adds exactly one second, even when its round ends the game |
| `Rules.MoveKeepsCollectable` | bfs_game.js:135-161 | A move never raises the score plus the stars on the board: taking a star moves it from the board to the score, and no move puts a star down |
| `Rules.EnemyStepKeepsCollectable` | bfs_game.js:216-231 | An enemy's step never raises the score plus the stars on the board, and a step onto a star lowers it |
| `Rules.RoundKeepsCollectable` | bfs_game.js:213-235 | Neither the round of enemy steps nor the tick raises the score plus the stars on the board |
| `Rules.LostStarBlocksExit` | bfs_game.js:139-142 | When the score plus the stars on the board is below the number of stars, no move places the exit |
| `Engine.Game.constructor` | bfs_game.js:20-39 | A new game on a board without stars: the player at the origin, the given enemies, the counters at zero and the level at 6. It places level + 2 distinct stars on cells that were empty, and no other cell changes. So the score plus the stars on the board equals the number of stars |
| `Engine.Game.PlaceStars` | bfs_game.js:73-84 | `count` distinct stars go on previously empty cells; every other cell is unchanged, so the board holds `count` more stars |
| `Engine.Game.PlaceExit` | bfs_game.js:86-96 | The exit goes on one previously empty cell, the only cell that changes, and is recorded |
| `Engine.Game.MovePlayer` | bfs_game.js:124-164 | The new state is `Rules.PlayerMove` of the old one, with the exit's cell chosen among the empty cells |
| `Engine.Game.Advance` | bfs_game.js:135-144 | Vacating, moving and scoring give `Rules.Collected` of the old state |
| `Engine.Game.Land` | bfs_game.js:146-161 | The end of the move gives `Rules.Landing` of the old state |
| `Engine.Game.EnemyTurn` | bfs_game.js:214-232 | The enemy's path is a correct `bfs` answer on the current grid, and the new state is `Rules.EnemyStep` with that path |
| `Engine.Game.MoveEnemies` | bfs_game.js:213-235 | Every enemy is processed in array order, each with a correct `bfs` answer on the grid its callback sees. The new state is `Rules.RunEnemies` of the old one |
| `Engine.Game.Tick` | bfs_game.js:259-264 | Unless the game is over, every enemy moves with a correct `bfs` answer and the time advances. The new state is `Rules.AfterTick` of the old one |
| `Engine.PlaceOneStar` | bfs_game.js:78-82 | One more star on an empty cell extends the placed stars by that cell, leaves one empty cell fewer and one star cell more |
| `Engine.ChosenExtends` | bfs_game.js:214-233 | The round after one more callback is that callback's step on the state the earlier callbacks left |

## Left out

- Pathfinder.Bfs: the specification does not pin down which shortest walk is returned. The code breaks ties by trying +x, -x, +y, -y in that order and keeping the first `cameFrom` entry; the model only promises some shortest walk.
- Rules.Collected: the contract states only consistency and the player's new position. The effects on score, exit and cells are stated by `Rules.CollectStar` and `Rules.PlainMove`.
- Rules.Landing: the contract states only what is kept. The level and game-over effects are stated by `Rules.ExitEndsGame`.
- Rules.EnemyStep: the contract states only consistency. The cell, enemy and game-over effects of one step are stated by `Rules.EnemyMoves`, and those of the whole round by `Rules.EveryEnemyProcessed` and `Rules.CaughtIff`.
- Rules.AfterTick: the contract states only consistency. The time and game-over effects are stated by `Rules.TickTime`.
- Drawing: `updateGrid`, the status line, the DOM elements kept in each cell, and `alert` messages are not modelled. A cell is only its kind.
- Input and timers: the key and button listeners, `setInterval`/`clearInterval` and `location.reload` are not modelled. `MovePlayer` and `Tick` are the operations they invoke.
- Randomness: `Math.random` and the retry loops are not modelled. The cell chosen by `placeStars` and `placeExit` is an arbitrary empty cell, and `placeStars` requires enough empty cells for the loop to finish.
- `generateWalls`, `placePlayer` and `placeEnemies` are not modelled. The constructor takes their outcome as its input board: the player at the origin, enemies on enemy cells.
- The level regeneration after taking the exit (`score = 0; time = 0; createGrid()`) is not modelled as an operation, because it cannot be reached with a level that starts at 6.
- The grid is a value held in a field. The arrays of cell objects that the source mutates in place are represented by successive board values. No aliasing between cells is modelled.
