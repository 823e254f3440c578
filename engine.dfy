/**
 The running game: the global variables as the fields of one object, changed
 in place by the player's moves and the one-second ticks. `MovePlayer`,
 `MoveEnemies`, one enemy's turn and `Tick` are specified by the corresponding
 function of `Rules` on the state before the call; placing the stars, placing
 the exit and setting up the game are specified cell by cell, by which cells
 were empty and what they hold now.
 */
module Engine {
  import opened Grid
  import opened Pathfinder
  import opened Rules

  class Game {
    var grid: Board
    var player: Pos
    var enemies: seq<Pos>
    var stars: seq<Pos>
    var exit: Option<Pos>
    var score: int
    var time: int
    var level: int
    var gameOver: bool

    /** The fields, as one value. */
    ghost function State(): GameState
      reads this
    {
      GameState(grid, player, enemies, stars, exit, score, time, level, gameOver)
    }

    ghost predicate Valid()
      reads this
    {
      Consistent(State())
    }

    /**
     A new game on a board whose walls, player and enemies are already placed
     (the player at the origin, as many enemies as the initial level, no stars
     yet): the counters start at zero, the level at 6, and `level + 2` stars
     are placed on empty cells, so every star can still be scored.
     */
    constructor (board: Board, enemyCells: seq<Pos>)
      requires Shaped(board) && At(board, Origin) == Player
      requires |enemyCells| == InitialLevel
      requires forall i :: 0 <= i < |enemyCells| ==> InBounds(enemyCells[i]) && At(board, enemyCells[i]) == Enemy
      requires |CellsOf(board, Empty)| >= InitialLevel + 2 && CellsOf(board, Star) == {}
      ensures Valid()
      ensures player == Origin && enemies == enemyCells && exit == None
      ensures score == 0 && time == 0 && level == InitialLevel && !gameOver
      ensures |stars| == InitialLevel + 2 && StarsPlaced(board, grid, stars)
      ensures Collectable(State()) == |stars|
    {
      grid := board;
      player := Origin;
      enemies := enemyCells;
      stars := [];
      exit := None;
      score := 0;
      time := 0;
      level := InitialLevel;
      gameOver := false;
      new;
      PlaceStars(level + 2);
    }

    /**
     `placeStars(count)`: `count` stars, each on a cell chosen among those still
     empty.
     */
    method PlaceStars(count: nat)
      requires Shaped(grid) && |CellsOf(grid, Empty)| >= count
      modifies this`grid, this`stars
      ensures Shaped(grid) && |stars| == count && StarsPlaced(old(grid), grid, stars)
      ensures |CellsOf(grid, Star)| == |CellsOf(old(grid), Star)| + count
    {
      ghost var g := grid;
      stars := [];
      while |stars| < count
        invariant Shaped(grid) && |stars| <= count && |CellsOf(grid, Empty)| >= count - |stars|
        invariant StarsPlaced(g, grid, stars)
        invariant |CellsOf(grid, Star)| == |CellsOf(g, Star)| + |stars|
        decreases count - |stars|
      {
        var cell :| cell in CellsOf(grid, Empty);
        PlaceOneStar(g, grid, stars, cell);
        grid := Update(grid, cell, Star);
        stars := stars + [cell];
      }
    }

    /** `placeExit()`: the exit goes on a cell chosen among the empty ones. */
    method PlaceExit() returns (cell: Pos)
      requires Shaped(grid) && CellsOf(grid, Empty) != {}
      modifies this`grid, this`exit
      ensures InBounds(cell) && At(old(grid), cell) == Empty
      ensures grid == Update(old(grid), cell, Exit) && exit == Some(cell)
    {
      cell :| cell in CellsOf(grid, Empty);
      grid := Update(grid, cell, Exit);
      exit := Some(cell);
    }

    /**
     `movePlayer(dx, dy)`. The ghost result is the cell the exit was placed on,
     if the move placed it.
     */
    method MovePlayer(dx: int, dy: int) returns (ghost e: Pos)
      requires Valid()
      modifies this
      ensures Valid()
      ensures ExitChoice(old(State()), dx, dy, e) && State() == PlayerMove(old(State()), dx, dy, e)
    {
      e := player;
      if gameOver {
        return;
      }
      var newX := player.x + dx;
      var newY := player.y + dy;
      if 0 <= newX < Width && 0 <= newY < Height && grid[newY][newX] != Wall {
        e := Advance(dx, dy);
        Land();
      }
    }

    /**
     The first half of an allowed move: empty the player's cell, move the
     player, and score a star on the target, placing the exit if it was the
     last. The ghost result is the exit's cell, if it was placed.
     */
    method Advance(dx: int, dy: int) returns (ghost e: Pos)
      requires Valid() && MoveAllowed(State(), dx, dy)
      modifies this
      ensures Valid() && ExitChoice(old(State()), dx, dy, e) && State() == Collected(old(State()), dx, dy, e)
    {
      ghost var s := State();
      e := player;
      var newX := player.x + dx;
      var newY := player.y + dy;
      grid := Update(grid, player, Empty);
      player := Pos(newX, newY);
      if grid[newY][newX] == Star {
        score := score + 1;
        if score == |stars| {
          assert s.player in CellsOf(grid, Empty);
          var cell := PlaceExit();
          e := cell;
        }
      }
    }

    /**
     The end of `movePlayer`, once the player stands on the target: stepping on
     the exit raises the level and ends the game past level 3; otherwise the
     cell becomes the player's.
     */
    method Land()
      requires Valid()
      modifies this
      ensures Valid() && State() == Landing(old(State()))
    {
      if grid[player.y][player.x] == Exit {
        level := level + 1;
        if level > FinalLevel {
          gameOver := true;
        } else {
          // The level regeneration: unreachable, the level never being below 6.
          assert false;
        }
      } else {
        grid := Update(grid, player, Player);
      }
    }

    /**
     The `forEach` callback of `moveEnemies` for enemy `i`: ask `bfs` for a path
     to the player and, if it is non-empty, step to its first cell; stepping
     onto the player ends the game. The ghost result is the path `bfs` returned.
     */
    method EnemyTurn(i: nat) returns (ghost path: seq<Pos>)
      requires Valid() && i < |enemies|
      modifies this
      ensures Valid() && BfsResult(old(grid), old(enemies)[i], player, path)
      ensures forall k :: 0 <= k < |path| ==> InBounds(path[k])
      ensures State() == EnemyStep(old(State()), i, path)
    {
      var p := Bfs(grid, enemies[i], player);
      path := p;
      if |p| > 0 {
        var next := p[0];
        grid := Update(grid, enemies[i], Empty);
        enemies := enemies[i := next];
        if next == player {
          grid := Update(grid, next, Enemy);
          gameOver := true;
        } else {
          grid := Update(grid, next, Enemy);
        }
      }
    }

    /**
     `moveEnemies()`: each enemy in turn takes its step; catching the player
     ends the game but the remaining enemies still move. The ghost result is
     the paths `bfs` returned.
     */
    method MoveEnemies() returns (ghost paths: seq<seq<Pos>>)
      requires Valid()
      modifies this
      ensures Valid() && |paths| == |old(enemies)| && ChosenByBfs(old(State()), paths)
      ensures State() == RunEnemies(old(State()), paths)
    {
      ghost var s := State();
      paths := [];
      for i := 0 to |enemies|
        invariant Valid() && |paths| == i && |enemies| == |s.enemies|
        invariant ChosenByBfs(s, paths) && State() == RunEnemies(s, paths)
      {
        ghost var before := State();
        ghost var path := EnemyTurn(i);
        ChosenExtends(s, paths, path, before);
        paths := paths + [path];
      }
    }

    /**
     The interval body: unless the game is over, the enemies move and the clock
     advances one second. The ghost result is the enemies' paths.
     */
    method Tick() returns (ghost paths: seq<seq<Pos>>)
      requires Valid()
      modifies this
      ensures Valid() && |paths| <= |old(enemies)| && StepsInBounds(paths)
      ensures !old(gameOver) ==> |paths| == |old(enemies)| && ChosenByBfs(old(State()), paths)
      ensures State() == AfterTick(old(State()), paths)
    {
      paths := [];
      if !gameOver {
        paths := MoveEnemies();
        time := time + 1;
      }
    }
  }

  /**
   `stars` lists distinct cells that were empty on board `g` and hold a star on
   `b`; every other cell is as on `g`.
   */
  ghost predicate StarsPlaced(g: Board, b: Board, stars: seq<Pos>)
    requires Shaped(g) && Shaped(b)
  {
    && (forall i, j :: 0 <= i < j < |stars| ==> stars[i] != stars[j])
    && (forall i :: 0 <= i < |stars| ==> InBounds(stars[i]) && At(g, stars[i]) == Empty && At(b, stars[i]) == Star)
    && (forall p :: InBounds(p) && p !in stars ==> At(b, p) == At(g, p))
  }

  /**
   Putting a star on an empty cell extends the placed stars by that cell,
   removes it from the empty cells and adds it to the star cells.
   */
  lemma PlaceOneStar(g: Board, b: Board, stars: seq<Pos>, cell: Pos)
    requires Shaped(g) && Shaped(b) && StarsPlaced(g, b, stars) && cell in CellsOf(b, Empty)
    ensures StarsPlaced(g, Update(b, cell, Star), stars + [cell])
    ensures |CellsOf(Update(b, cell, Star), Empty)| == |CellsOf(b, Empty)| - 1
    ensures |CellsOf(Update(b, cell, Star), Star)| == |CellsOf(b, Star)| + 1
  {
    Overwrite(b, cell, Star, Empty);
    Fill(b, cell, Star);
    var b', stars' := Update(b, cell, Star), stars + [cell];
    assert cell !in stars;
    forall p | InBounds(p) && p !in stars'
      ensures At(b', p) == At(g, p)
    {
      assert p != cell && p !in stars;
    }
  }

  /** Appending the path of the next enemy, chosen by `bfs` in the state its callback sees, keeps the round's paths chosen by `bfs`. */
  lemma ChosenExtends(s: GameState, paths: seq<seq<Pos>>, path: seq<Pos>, before: GameState)
    requires Consistent(s) && ChosenByBfs(s, paths) && |paths| < |s.enemies|
    requires before == RunEnemies(s, paths)
    requires BfsResult(before.board, before.enemies[|paths|], s.player, path)
    requires forall i :: 0 <= i < |path| ==> InBounds(path[i])
    ensures ChosenByBfs(s, paths + [path])
    ensures RunEnemies(s, paths + [path]) == EnemyStep(before, |paths|, path)
  {
    var paths' := paths + [path];
    assert paths'[..|paths|] == paths;
    forall n | 0 <= n < |paths'|
      ensures BfsResult(Before(s, paths', n).board, Before(s, paths', n).enemies[n], s.player, paths'[n])
    {
      assert paths'[..n] == paths[..n] || n == |paths|;
    }
  }
}
