/**
 The rules of the chase game as functions on a value of the whole game
 state: the player's move, one enemy's step, the round of enemy steps and the
 one-second tick. The `Engine` module's `Game` class updates its fields in
 place and is specified by these functions.

 Random choices are parameters here: the cell the exit lands on, and the path
 `bfs` returned for each enemy (which the engine really computes; the
 specification only needs it to be a correct `bfs` answer).
 */
module Rules {
  import opened Grid
  import opened Pathfinder

  /** `level` starts at 6; stepping on the exit with a level above 3 afterwards ends the game. */
  const InitialLevel := 6
  const FinalLevel := 3

  /** Where the player is placed. */
  const Origin := Pos(0, 0)

  /** The game's global variables. */
  datatype GameState = GameState(
    board: Board,
    player: Pos,
    enemies: seq<Pos>,
    stars: seq<Pos>,
    exit: Option<Pos>,
    score: int,
    time: int,
    level: int,
    gameOver: bool)

  /** What every reachable state satisfies. */
  predicate Consistent(s: GameState) {
    && Shaped(s.board)
    && InBounds(s.player)
    && (forall i :: 0 <= i < |s.enemies| ==> InBounds(s.enemies[i]))
    && s.level >= InitialLevel
  }

  /** The cells of kind `k` on a board; `CellsOf(b, Empty)` are the cells the random placements accept. */
  function CellsOf(b: Board, k: Kind): (cells: set<Pos>)
    requires Shaped(b)
    ensures forall p :: p in cells <==> InBounds(p) && At(b, p) == k
  {
    var cells := set x: int, y: int | 0 <= x < Width && 0 <= y < Height && b[y][x] == k :: Pos(x, y);
    assert forall p :: InBounds(p) && At(b, p) == k ==> Pos(p.x, p.y) in cells;
    cells
  }

  /**
   Writing kind `k` into cell `p` removes `p` from the cells of every other
   kind `j`, and from no other cell; their number drops by one exactly when
   `p` was of kind `j`.
   */
  lemma Overwrite(b: Board, p: Pos, k: Kind, j: Kind)
    requires Shaped(b) && InBounds(p) && k != j
    ensures CellsOf(Update(b, p, k), j) == CellsOf(b, j) - {p}
    ensures |CellsOf(Update(b, p, k), j)| == |CellsOf(b, j)| - (if At(b, p) == j then 1 else 0)
  {
    var b' := Update(b, p, k);
    assert CellsOf(b', j) == CellsOf(b, j) - {p} by {
      forall q
        ensures q in CellsOf(b', j) <==> q in CellsOf(b, j) - {p}
      {
        if InBounds(q) && q != p {
          assert At(b', q) == At(b, q);
        }
      }
    }
  }

  /** Writing kind `k` into cell `p` adds `p`, and no other cell, to the cells of kind `k`. */
  lemma Fill(b: Board, p: Pos, k: Kind)
    requires Shaped(b) && InBounds(p)
    ensures CellsOf(Update(b, p, k), k) == CellsOf(b, k) + {p}
    ensures |CellsOf(Update(b, p, k), k)| == |CellsOf(b, k)| + (if At(b, p) == k then 0 else 1)
  {
    var b' := Update(b, p, k);
    assert CellsOf(b', k) == CellsOf(b, k) + {p} by {
      forall q
        ensures q in CellsOf(b', k) <==> q in CellsOf(b, k) + {p}
      {
        if InBounds(q) && q != p {
          assert At(b', q) == At(b, q);
        }
      }
    }
    if At(b, p) == k {
      assert CellsOf(b, k) + {p} == CellsOf(b, k);
    } else {
      assert p !in CellsOf(b, k);
    }
  }

  // ---------------------------------------------------------------------------
  // The player's move

  /** The cell the player moves towards; for an arrow key's offset, one of its 4-neighbours. */
  function Target(s: GameState, dx: int, dy: int): (t: Pos)
    ensures (dx, dy) in Directions ==> Adjacent(s.player, t)
  {
    Pos(s.player.x + dx, s.player.y + dy)
  }

  /** The move goes ahead: the game is running and the target is in bounds and not a wall. */
  predicate MoveAllowed(s: GameState, dx: int, dy: int)
    requires Consistent(s)
  {
    var t := Target(s, dx, dy);
    !s.gameOver && InBounds(t) && At(s.board, t) != Wall
  }

  /** The board once the player's old cell has been emptied. */
  function Vacated(s: GameState): (b: Board)
    requires Consistent(s)
    ensures Shaped(b) && At(b, s.player) == Empty
    ensures forall q :: InBounds(q) && q != s.player ==> At(b, q) == At(s.board, q)
  {
    Update(s.board, s.player, Empty)
  }

  /** The move takes the last star, so the exit is placed. */
  predicate PlacesExit(s: GameState, dx: int, dy: int)
    requires Consistent(s)
  {
    MoveAllowed(s, dx, dy) && At(Vacated(s), Target(s, dx, dy)) == Star && s.score + 1 == |s.stars|
  }

  /** `e` is a cell the exit may be placed on: one that is empty once the player has left its cell. */
  predicate ExitChoice(s: GameState, dx: int, dy: int, e: Pos)
    requires Consistent(s)
  {
    PlacesExit(s, dx, dy) ==> InBounds(e) && At(Vacated(s), e) == Empty
  }

  /**
   `movePlayer(dx, dy)`, with `e` the cell the exit is placed on should the
   move take the last star. The target cell is inspected after the player's
   old cell is emptied, so a move of (0, 0) sees an empty cell. On the exit,
   the player's position is updated but the exit cell is not overwritten.
   Going past the exit with `level` at most 3 afterwards would regenerate the
   level; it cannot happen, since `level` never drops below 6.
   */
  function PlayerMove(s: GameState, dx: int, dy: int, e: Pos): (r: GameState)
    requires Consistent(s) && ExitChoice(s, dx, dy, e)
    ensures Consistent(r)
    ensures r.enemies == s.enemies && r.stars == s.stars && r.time == s.time
    ensures s.level <= r.level <= s.level + 1 && s.score <= r.score <= s.score + 1
  {
    if !MoveAllowed(s, dx, dy) then s else Landing(Collected(s, dx, dy, e))
  }

  /**
   The second half of an allowed move, on the cell the player now stands on:
   the exit raises the level and, past level 3, ends the game; any other cell
   becomes the player's.
   */
  function Landing(c: GameState): (r: GameState)
    requires Consistent(c)
    ensures Consistent(r) && r.player == c.player && r.score == c.score && r.exit == c.exit
  {
    if At(c.board, c.player) == Exit then
      if c.level + 1 > FinalLevel then c.(level := c.level + 1, gameOver := true)
      else assert false; c
    else
      c.(board := Update(c.board, c.player, Player))
  }

  /**
   The first half of an allowed move: the player's old cell is emptied, the
   player is on the target, and a star there is scored, placing the exit on
   `e` if it was the last.
   */
  function Collected(s: GameState, dx: int, dy: int, e: Pos): (r: GameState)
    requires Consistent(s) && MoveAllowed(s, dx, dy) && ExitChoice(s, dx, dy, e)
    ensures Consistent(r) && r.player == Target(s, dx, dy)
  {
    var t := Target(s, dx, dy);
    var b := Vacated(s);
    if At(b, t) == Star then
      if PlacesExit(s, dx, dy) then
        s.(board := Update(b, e, Exit), player := t, score := s.score + 1, exit := Some(e))
      else
        s.(board := b, player := t, score := s.score + 1)
    else
      s.(board := b, player := t)
  }

  /** A move that is not allowed changes nothing; an allowed one puts the player on the target. */
  lemma MoveRejected(s: GameState, dx: int, dy: int, e: Pos)
    requires Consistent(s) && ExitChoice(s, dx, dy, e)
    ensures s.gameOver ==> PlayerMove(s, dx, dy, e) == s
    ensures !InBounds(Target(s, dx, dy)) ==> PlayerMove(s, dx, dy, e) == s
    ensures InBounds(Target(s, dx, dy)) && At(s.board, Target(s, dx, dy)) == Wall ==> PlayerMove(s, dx, dy, e) == s
    ensures MoveAllowed(s, dx, dy) ==> PlayerMove(s, dx, dy, e).player == Target(s, dx, dy)
  {
  }

  /**
   A move onto a cell that is neither star nor exit: the old cell becomes
   empty, the new one the player, and nothing else changes.
   */
  lemma PlainMove(s: GameState, dx: int, dy: int, e: Pos)
    requires Consistent(s) && ExitChoice(s, dx, dy, e) && MoveAllowed(s, dx, dy)
    requires At(Vacated(s), Target(s, dx, dy)) != Star && At(Vacated(s), Target(s, dx, dy)) != Exit
    ensures var r, t := PlayerMove(s, dx, dy, e), Target(s, dx, dy);
      && r.player == t && At(r.board, t) == Player
      && (t != s.player ==> At(r.board, s.player) == Empty)
      && (forall q :: InBounds(q) && q != t && q != s.player ==> At(r.board, q) == At(s.board, q))
      && r.score == s.score && r.exit == s.exit && r.level == s.level && r.gameOver == s.gameOver
  {
    var t := Target(s, dx, dy);
    var r := PlayerMove(s, dx, dy, e);
    assert r.board == Update(Vacated(s), t, Player);
  }

  /**
   A move onto a star scores one point. The exit appears exactly when the score
   reaches the number of stars, on one cell that was empty (possibly the one
   the player just left); no other cell changes.
   */
  lemma CollectStar(s: GameState, dx: int, dy: int, e: Pos)
    requires Consistent(s) && ExitChoice(s, dx, dy, e) && MoveAllowed(s, dx, dy)
    requires At(Vacated(s), Target(s, dx, dy)) == Star
    ensures var r, t := PlayerMove(s, dx, dy, e), Target(s, dx, dy);
      && r.score == s.score + 1 && r.player == t && At(r.board, t) == Player
      && r.level == s.level && r.gameOver == s.gameOver
      && (r.exit != s.exit ==> r.score == |s.stars|)
    ensures var r, t := PlayerMove(s, dx, dy, e), Target(s, dx, dy);
      s.score + 1 == |s.stars| ==>
        && r.exit == Some(e) && e != t && At(Vacated(s), e) == Empty && At(r.board, e) == Exit
        && (e != s.player ==> At(r.board, s.player) == Empty)
        && forall q :: InBounds(q) && q != t && q != s.player && q != e ==> At(r.board, q) == At(s.board, q)
    ensures var r, t := PlayerMove(s, dx, dy, e), Target(s, dx, dy);
      s.score + 1 != |s.stars| ==>
        && r.exit == s.exit && At(r.board, s.player) == Empty
        && forall q :: InBounds(q) && q != t && q != s.player ==> At(r.board, q) == At(s.board, q)
  {
    var t := Target(s, dx, dy);
    var b := Vacated(s);
    if s.score + 1 == |s.stars| {
      assert e != t;
      var b' := Update(b, e, Exit);
      assert At(b', t) == Star;
      assert PlayerMove(s, dx, dy, e).board == Update(b', t, Player);
    } else {
      assert PlayerMove(s, dx, dy, e).board == Update(b, t, Player);
    }
  }

  /**
   A move onto the exit raises the level and, the level having started at 6,
   ends the game: the first exit taken completes it.
   */
  lemma ExitEndsGame(s: GameState, dx: int, dy: int, e: Pos)
    requires Consistent(s) && ExitChoice(s, dx, dy, e) && MoveAllowed(s, dx, dy)
    requires At(Vacated(s), Target(s, dx, dy)) == Exit
    ensures var r := PlayerMove(s, dx, dy, e);
      && r.level == s.level + 1 && r.level > FinalLevel && r.gameOver
      && r.player == Target(s, dx, dy) && r.score == s.score && r.exit == s.exit
      && r.board == Vacated(s)
  {
  }

  // ---------------------------------------------------------------------------
  // The enemies' round

  /** The first step of every non-empty path is on the grid. */
  predicate StepsInBounds(paths: seq<seq<Pos>>) {
    forall i :: 0 <= i < |paths| && paths[i] != [] ==> InBounds(paths[i][0])
  }

  /**
   The `forEach` callback for enemy `i`, given the path `bfs` returned for it:
   with a non-empty path the enemy's old cell becomes empty, the enemy moves to
   the path's first cell and that cell becomes an enemy; landing on the player
   ends the game. Nothing stops the callbacks of later enemies.
   */
  function EnemyStep(s: GameState, i: nat, path: seq<Pos>): (r: GameState)
    requires Consistent(s) && i < |s.enemies| && (path != [] ==> InBounds(path[0]))
    ensures Consistent(r)
  {
    if path == [] then s
    else
      var next := path[0];
      s.(board := Update(Update(s.board, s.enemies[i], Empty), next, Enemy),
         enemies := s.enemies[i := next],
         gameOver := s.gameOver || next == s.player)
  }

  /** The callbacks for the first `|paths|` enemies, in array order. */
  function RunEnemies(s: GameState, paths: seq<seq<Pos>>): (r: GameState)
    requires Consistent(s) && |paths| <= |s.enemies| && StepsInBounds(paths)
    ensures Consistent(r) && |r.enemies| == |s.enemies|
    ensures r.player == s.player && r.stars == s.stars && r.exit == s.exit
    ensures r.score == s.score && r.time == s.time && r.level == s.level
    ensures s.gameOver ==> r.gameOver
    decreases |paths|
  {
    if paths == [] then s
    else
      var n := |paths| - 1;
      EnemyStep(RunEnemies(s, paths[..n]), n, paths[n])
  }

  /** The state in which enemy `n`'s callback runs. */
  function Before(s: GameState, paths: seq<seq<Pos>>, n: nat): (r: GameState)
    requires Consistent(s) && |paths| <= |s.enemies| && StepsInBounds(paths) && n <= |paths|
    ensures Consistent(r) && |r.enemies| == |s.enemies| && r.player == s.player
  {
    RunEnemies(s, paths[..n])
  }

  /** Every path is a correct `bfs` answer, from the enemy to the player, in the state its callback sees. */
  ghost predicate ChosenByBfs(s: GameState, paths: seq<seq<Pos>>)
    requires Consistent(s)
  {
    && |paths| <= |s.enemies| && StepsInBounds(paths)
    && forall n :: 0 <= n < |paths| ==>
         BfsResult(Before(s, paths, n).board, Before(s, paths, n).enemies[n], s.player, paths[n])
  }

  /**
   After the round, enemy `i` stands on the first cell of its path, or where it
   was if the path was empty, whether or not an earlier enemy caught the
   player; enemies not yet run have not moved.
   */
  lemma {:induction false} EveryEnemyProcessed(s: GameState, paths: seq<seq<Pos>>)
    requires Consistent(s) && |paths| <= |s.enemies| && StepsInBounds(paths)
    ensures forall i :: 0 <= i < |paths| ==>
      RunEnemies(s, paths).enemies[i] == if paths[i] == [] then s.enemies[i] else paths[i][0]
    ensures forall i :: |paths| <= i < |s.enemies| ==> RunEnemies(s, paths).enemies[i] == s.enemies[i]
  {
    if paths != [] {
      var n := |paths| - 1;
      EveryEnemyProcessed(s, paths[..n]);
    }
  }

  /** The round ends the game exactly when it was over already or some enemy stepped onto the player. */
  lemma {:induction false} CaughtIff(s: GameState, paths: seq<seq<Pos>>)
    requires Consistent(s) && |paths| <= |s.enemies| && StepsInBounds(paths)
    ensures RunEnemies(s, paths).gameOver <==>
      s.gameOver || exists i :: 0 <= i < |paths| && paths[i] != [] && paths[i][0] == s.player
  {
    if paths != [] {
      var n := |paths| - 1;
      var prev := RunEnemies(s, paths[..n]);
      CaughtIff(s, paths[..n]);
      assert RunEnemies(s, paths).gameOver == (prev.gameOver || (paths[n] != [] && paths[n][0] == s.player));
      if exists i :: 0 <= i < |paths| && paths[i] != [] && paths[i][0] == s.player {
        var i :| 0 <= i < |paths| && paths[i] != [] && paths[i][0] == s.player;
        if i < n {
          assert paths[..n][i] == paths[i];
        }
      }
    }
  }

  /** An enemy's callback sees it where it stood before the round: earlier callbacks move only earlier enemies. */
  lemma StartsWhereItStood(s: GameState, paths: seq<seq<Pos>>, n: nat)
    requires Consistent(s) && |paths| <= |s.enemies| && StepsInBounds(paths) && n < |paths|
    ensures Before(s, paths, n).enemies[n] == s.enemies[n]
  {
    EveryEnemyProcessed(s, paths[..n]);
  }

  /**
   An enemy that can reach the player steps to a passable 4-neighbour of its
   cell, the first cell of a shortest walk to the player.
   */
  lemma ChaseStep(s: GameState, paths: seq<seq<Pos>>, n: nat)
    requires Consistent(s) && ChosenByBfs(s, paths) && n < |paths|
    requires s.enemies[n] != s.player && Reaches(Before(s, paths, n).board, s.enemies[n], s.player)
    ensures var b, p := Before(s, paths, n).board, RunEnemies(s, paths).enemies[n];
      Adjacent(s.enemies[n], p) && Passable(b, p) && Shortest(b, s.enemies[n], s.player, paths[n]) && p == paths[n][0]
  {
    StartsWhereItStood(s, paths, n);
    EveryEnemyProcessed(s, paths);
    BfsFirstStep(Before(s, paths, n).board, s.enemies[n], s.player, paths[n]);
  }

  /**
   An enemy walled off from the player jumps onto the player, through walls,
   because `bfs` answers `[goal]`; the round then ends the game.
   */
  lemma WalledOffEnemyCatches(s: GameState, paths: seq<seq<Pos>>, n: nat)
    requires Consistent(s) && ChosenByBfs(s, paths) && n < |paths|
    requires s.enemies[n] != s.player && !Reaches(Before(s, paths, n).board, s.enemies[n], s.player)
    ensures RunEnemies(s, paths).enemies[n] == s.player && RunEnemies(s, paths).gameOver
  {
    StartsWhereItStood(s, paths, n);
    EveryEnemyProcessed(s, paths);
    CaughtIff(s, paths);
  }

  /**
   An enemy the player has stepped onto gets an empty path, so it stays put
   and does not catch the player.
   */
  lemma EnemyUnderPlayerStays(s: GameState, paths: seq<seq<Pos>>, n: nat)
    requires Consistent(s) && ChosenByBfs(s, paths) && n < |paths|
    requires s.enemies[n] == s.player
    ensures paths[n] == [] && RunEnemies(s, paths).enemies[n] == s.player
  {
    StartsWhereItStood(s, paths, n);
    EveryEnemyProcessed(s, paths);
  }

  /**
   An enemy with a non-empty path moves to its first cell, which becomes an
   enemy; the cell it left becomes empty and every other cell keeps its kind.
   The game ends exactly when it was over or the step lands on the player.
   */
  lemma EnemyMoves(s: GameState, i: nat, path: seq<Pos>)
    requires Consistent(s) && i < |s.enemies| && path != [] && InBounds(path[0])
    ensures var r, next := EnemyStep(s, i, path), path[0];
      && At(r.board, next) == Enemy
      && (next != s.enemies[i] ==> At(r.board, s.enemies[i]) == Empty)
      && (forall q :: InBounds(q) && q != next && q != s.enemies[i] ==> At(r.board, q) == At(s.board, q))
      && r.enemies == s.enemies[i := next]
      && r.gameOver == (s.gameOver || next == s.player)
      && r.player == s.player && r.score == s.score && r.stars == s.stars && r.exit == s.exit
  {
  }

  /**
   An enemy stepping onto a star overwrites it, and the cell it leaves becomes
   empty, so the star is gone for good while the score and the list of stars
   stay as they were.
   */
  lemma StarTrampled(s: GameState, i: nat, path: seq<Pos>)
    requires Consistent(s) && i < |s.enemies| && path != [] && InBounds(path[0])
    requires At(s.board, path[0]) == Star
    ensures var r := EnemyStep(s, i, path);
      && At(r.board, path[0]) == Enemy && r.score == s.score && r.stars == s.stars
      && (path[0] != s.enemies[i] ==> At(r.board, s.enemies[i]) == Empty)
  {
  }

  // ---------------------------------------------------------------------------
  // The tick

  /** The interval body: unless the game is over, the enemies' round, then one more second. */
  function AfterTick(s: GameState, paths: seq<seq<Pos>>): (r: GameState)
    requires Consistent(s) && |paths| <= |s.enemies| && StepsInBounds(paths)
    ensures Consistent(r)
  {
    if s.gameOver then s
    else
      var m := RunEnemies(s, paths);
      m.(time := m.time + 1)
  }

  /**
   A tick of a running game adds exactly one second, even when its round ended
   the game; a tick of a finished game changes nothing.
   */
  lemma TickTime(s: GameState, paths: seq<seq<Pos>>)
    requires Consistent(s) && |paths| <= |s.enemies| && StepsInBounds(paths)
    ensures s.gameOver ==> AfterTick(s, paths) == s
    ensures !s.gameOver ==> AfterTick(s, paths).time == s.time + 1
    ensures !s.gameOver ==> AfterTick(s, paths).gameOver == RunEnemies(s, paths).gameOver
    ensures AfterTick(s, paths).score == s.score && AfterTick(s, paths).player == s.player
  {
  }

  // ---------------------------------------------------------------------------
  // Stars that can still be scored

  /** The score plus the stars still lying on the board: the most the score can ever reach. */
  function Collectable(s: GameState): int
    requires Shaped(s.board)
  {
    s.score + |CellsOf(s.board, Star)|
  }

  /**
   A move never raises what can still be scored: taking a star moves one from
   the board to the score, and no move puts a star on the board.
   */
  lemma MoveKeepsCollectable(s: GameState, dx: int, dy: int, e: Pos)
    requires Consistent(s) && ExitChoice(s, dx, dy, e)
    ensures Collectable(PlayerMove(s, dx, dy, e)) <= Collectable(s)
  {
    if MoveAllowed(s, dx, dy) {
      var t, b := Target(s, dx, dy), Vacated(s);
      Overwrite(s.board, s.player, Empty, Star);
      if At(b, t) == Star {
        var c := Collected(s, dx, dy, e);
        if PlacesExit(s, dx, dy) {
          Overwrite(b, e, Exit, Star);
          assert At(c.board, t) == Star;
        }
        Overwrite(c.board, t, Player, Star);
      } else if At(b, t) != Exit {
        Overwrite(b, t, Player, Star);
      }
    }
  }

  /**
   An enemy's step never raises what can still be scored, and stepping onto a
   star lowers it for good.
   */
  lemma EnemyStepKeepsCollectable(s: GameState, i: nat, path: seq<Pos>)
    requires Consistent(s) && i < |s.enemies| && (path != [] ==> InBounds(path[0]))
    ensures Collectable(EnemyStep(s, i, path)) <= Collectable(s)
    ensures path != [] && At(s.board, path[0]) == Star ==> Collectable(EnemyStep(s, i, path)) < Collectable(s)
  {
    if path != [] {
      var b := Update(s.board, s.enemies[i], Empty);
      Overwrite(s.board, s.enemies[i], Empty, Star);
      Overwrite(b, path[0], Enemy, Star);
    }
  }

  /** A round of enemy steps never raises what can still be scored. */
  lemma {:induction false} RoundKeepsCollectable(s: GameState, paths: seq<seq<Pos>>)
    requires Consistent(s) && |paths| <= |s.enemies| && StepsInBounds(paths)
    ensures Collectable(RunEnemies(s, paths)) <= Collectable(s)
    ensures Collectable(AfterTick(s, paths)) <= Collectable(s)
  {
    if paths != [] {
      var n := |paths| - 1;
      RoundKeepsCollectable(s, paths[..n]);
      EnemyStepKeepsCollectable(RunEnemies(s, paths[..n]), n, paths[n]);
    }
  }

  /**
   Once less than every star can still be scored (a star was trampled), no
   move places the exit: it needs a star on the board and the score one short
   of the number of stars.
   */
  lemma LostStarBlocksExit(s: GameState, dx: int, dy: int)
    requires Consistent(s) && Collectable(s) < |s.stars|
    ensures !PlacesExit(s, dx, dy)
  {
  }
}
