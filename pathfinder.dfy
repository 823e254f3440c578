/**
 Breadth-first pathfinding from an enemy cell to the player cell.

 The specification speaks of walks: a walk from `from` is a sequence of cells,
 each a 4-neighbour of the one before it (the first a neighbour of `from`
 itself), none out of bounds, a wall or the exit. `Bfs` returns the cells of
 a shortest such walk to the goal, excluding the start, and keeps one quirk
 of the game: when no walk reaches the goal it returns the goal alone.
 */
module Pathfinder {
  import opened Grid

  /** A cell the pathfinder may enter: in bounds, neither wall nor exit. */
  predicate Passable(b: Board, p: Pos)
    requires Shaped(b)
  {
    InBounds(p) && At(b, p) != Wall && At(b, p) != Exit
  }

  ghost predicate IsWalk(b: Board, from: Pos, w: seq<Pos>)
    requires Shaped(b)
  {
    && (|w| > 0 ==> Adjacent(from, w[0]))
    && (forall i :: 0 <= i < |w| ==> Passable(b, w[i]))
    && (forall i :: 0 < i < |w| ==> Adjacent(w[i - 1], w[i]))
  }

  /** A non-empty walk from `from` that ends at `goal`. */
  ghost predicate PathTo(b: Board, from: Pos, goal: Pos, w: seq<Pos>)
    requires Shaped(b)
  {
    IsWalk(b, from, w) && |w| > 0 && w[|w| - 1] == goal
  }

  ghost predicate Reaches(b: Board, from: Pos, goal: Pos)
    requires Shaped(b)
  {
    exists w :: PathTo(b, from, goal, w)
  }

  ghost predicate Shortest(b: Board, from: Pos, goal: Pos, path: seq<Pos>)
    requires Shaped(b)
  {
    PathTo(b, from, goal, path) && forall w :: PathTo(b, from, goal, w) ==> |path| <= |w|
  }

  /** What `bfs(start, goal)` returns, for a board `b`. */
  ghost predicate BfsResult(b: Board, start: Pos, goal: Pos, path: seq<Pos>)
    requires Shaped(b)
  {
    if start == goal then path == []
    else if Reaches(b, start, goal) then Shortest(b, start, goal, path)
    else path == [goal]
  }

  /** The result is empty exactly when start and goal coincide. */
  lemma BfsEmptyIff(b: Board, start: Pos, goal: Pos, path: seq<Pos>)
    requires Shaped(b) && BfsResult(b, start, goal, path)
    ensures path == [] <==> start == goal
  {
  }

  /**
   The first cell of a non-empty result is where an enemy steps: a passable
   4-neighbour of the start when the goal is reachable, the goal itself
   (wherever it is) when it is not.
   */
  lemma BfsFirstStep(b: Board, start: Pos, goal: Pos, path: seq<Pos>)
    requires Shaped(b) && InBounds(goal) && BfsResult(b, start, goal, path)
    requires start != goal
    ensures path != [] && InBounds(path[0])
    ensures Reaches(b, start, goal) ==> Adjacent(start, path[0]) && Passable(b, path[0])
    ensures !Reaches(b, start, goal) ==> path == [goal]
  {
  }

  /** Shortest paths are unique in length: any two results have equal length. */
  lemma BfsLengthDetermined(b: Board, start: Pos, goal: Pos, p1: seq<Pos>, p2: seq<Pos>)
    requires Shaped(b) && BfsResult(b, start, goal, p1) && BfsResult(b, start, goal, p2)
    ensures |p1| == |p2|
  {
  }

  // ---------------------------------------------------------------------------
  // Proof vocabulary for the search: `depth` gives the BFS layer of every
  // visited cell; a cell is closed once all its passable neighbours are
  // visited no more than one layer deeper.

  ghost predicate Closed(b: Board, depth: map<Pos, nat>, u: Pos)
    requires Shaped(b) && u in depth
  {
    forall n {:trigger Adjacent(u, n)} :: Adjacent(u, n) && Passable(b, n) ==> n in depth && depth[n] <= depth[u] + 1
  }

  ghost predicate ClosedBelow(b: Board, depth: map<Pos, nat>, bound: nat)
    requires Shaped(b)
  {
    forall v :: v in depth && depth[v] < bound ==> Closed(b, depth, v)
  }

  /**
   If every visited cell shallower than `bound` is closed, then a walk from
   the start no longer than `bound` ends at a visited cell no deeper than the
   walk is long.
   */
  lemma {:induction false} WalkBound(b: Board, depth: map<Pos, nat>, start: Pos, w: seq<Pos>, bound: nat)
    requires Shaped(b) && start in depth && depth[start] == 0
    requires ClosedBelow(b, depth, bound)
    requires IsWalk(b, start, w) && 0 < |w| <= bound
    ensures w[|w| - 1] in depth && depth[w[|w| - 1]] <= |w|
  {
    if |w| == 1 {
      assert Closed(b, depth, start);
    } else {
      var w' := w[..|w| - 1];
      assert IsWalk(b, start, w');
      WalkBound(b, depth, start, w', bound);
      assert Closed(b, depth, w'[|w'| - 1]);
      assert Adjacent(w[|w| - 2], w[|w| - 1]);
    }
  }

  /**
   The conclusion of the search. If the search ran dry (`complete`), every
   visited cell is closed; if it stopped on dequeuing the goal, every cell
   shallower than the goal is. Either way the goal's depth bounds every walk
   to it, and an unvisited goal is unreachable.
   */
  lemma BfsConclusion(b: Board, depth: map<Pos, nat>, start: Pos, goal: Pos, complete: bool)
    requires Shaped(b) && start in depth && depth[start] == 0
    requires complete ==> forall v :: v in depth ==> Closed(b, depth, v)
    requires !complete ==> goal in depth && ClosedBelow(b, depth, depth[goal])
    ensures goal in depth ==> forall w :: PathTo(b, start, goal, w) ==> depth[goal] <= |w|
    ensures goal !in depth ==> !Reaches(b, start, goal)
  {
    forall w | PathTo(b, start, goal, w)
      ensures goal in depth && depth[goal] <= |w|
    {
      if complete {
        WalkBound(b, depth, start, w, |w|);
      } else if |w| < depth[goal] {
        WalkBound(b, depth, start, w, depth[goal]);
      }
    }
  }

  /** Growing the map of depths keeps a closed cell closed. */
  lemma ClosedGrows(b: Board, depth: map<Pos, nat>, depth': map<Pos, nat>, u: Pos)
    requires Shaped(b) && u in depth && Closed(b, depth, u)
    requires forall v :: v in depth ==> v in depth' && depth'[v] == depth[v]
    ensures u in depth' && Closed(b, depth', u)
  {
  }

  /**
   The search tree, as ghost maps: every visited cell other than the start
   has a visited predecessor one layer shallower, to which it is adjacent.
   */
  ghost predicate Tree(b: Board, start: Pos, depth: map<Pos, nat>, parent: map<Pos, Pos>)
    requires Shaped(b)
  {
    && start in depth && depth[start] == 0
    && parent.Keys == depth.Keys - {start}
    && (forall v :: v in depth ==> InBounds(v))
    && (forall v :: v in parent ==>
          parent[v] in depth && depth[v] == depth[parent[v]] + 1 &&
          Adjacent(parent[v], v) && Passable(b, v))
  }

  /** The layer of the `i`-th enqueued cell. */
  ghost function DepthAt(depth: map<Pos, nat>, seen: seq<Pos>, i: int): nat
    requires 0 <= i < |seen| && seen[i] in depth
  {
    depth[seen[i]]
  }

  /**
   The order in which cells were enqueued, with non-decreasing depth; `index`
   locates every visited cell in that order.
   */
  ghost predicate Layered(depth: map<Pos, nat>, seen: seq<Pos>, index: map<Pos, nat>)
  {
    && (forall i :: 0 <= i < |seen| ==> seen[i] in depth)
    && index.Keys == depth.Keys
    && (forall v {:trigger index[v]} :: v in index ==> index[v] < |seen| && seen[index[v]] == v)
    && (forall i, j {:trigger DepthAt(depth, seen, i), DepthAt(depth, seen, j)} ::
          0 <= i <= j < |seen| ==> DepthAt(depth, seen, i) <= DepthAt(depth, seen, j))
  }

  /**
   The state of the search: `seen` lists every cell ever enqueued, the live
   queue is `seen[head..]`.
   */
  ghost predicate Frontier(b: Board, start: Pos, depth: map<Pos, nat>, parent: map<Pos, Pos>,
                           seen: seq<Pos>, index: map<Pos, nat>, head: nat, queue: seq<Pos>)
    requires Shaped(b)
  {
    && 0 < |seen| && seen[0] == start && head <= |seen| && queue == seen[head..]
    && Tree(b, start, depth, parent)
    && Layered(depth, seen, index)
  }

  /** The `visited` and `cameFrom` matrices hold exactly what the ghost maps say. */
  ghost predicate Mirrors(visited: array2<bool>, cameFrom: array2<Option<Pos>>,
                          depth: map<Pos, nat>, parent: map<Pos, Pos>)
    requires visited.Length0 == Height && visited.Length1 == Width
    requires cameFrom.Length0 == Height && cameFrom.Length1 == Width
    reads visited, cameFrom
  {
    && (forall y, x {:trigger visited[y, x]} :: 0 <= y < Height && 0 <= x < Width ==>
          (visited[y, x] <==> Pos(x, y) in depth))
    && (forall y, x {:trigger cameFrom[y, x]} :: 0 <= y < Height && 0 <= x < Width ==>
          cameFrom[y, x] == if Pos(x, y) in parent then Some(parent[Pos(x, y)]) else None)
  }

  /** Enqueueing an unvisited passable neighbour of the cell being expanded keeps the search state. */
  lemma Enqueue(b: Board, start: Pos, depth: map<Pos, nat>, parent: map<Pos, Pos>,
                seen: seq<Pos>, index: map<Pos, nat>, head: nat, queue: seq<Pos>, current: Pos, n: Pos)
    requires Shaped(b) && Frontier(b, start, depth, parent, seen, index, head, queue)
    requires current in depth && Adjacent(current, n) && Passable(b, n) && n !in depth
    requires depth[seen[|seen| - 1]] <= depth[current] + 1
    ensures Frontier(b, start, depth[n := depth[current] + 1], parent[n := current],
                     seen + [n], index[n := |seen|], head, queue + [n])
  {
    var depth', seen' := depth[n := depth[current] + 1], seen + [n];
    assert seen'[head..] == queue + [n];
    forall i, j | 0 <= i <= j < |seen'|
      ensures DepthAt(depth', seen', i) <= DepthAt(depth', seen', j)
    {
      if j < |seen| {
        assert DepthAt(depth, seen, i) <= DepthAt(depth, seen, j);
      } else if i < j {
        assert DepthAt(depth, seen, i) <= DepthAt(depth, seen, |seen| - 1);
      }
    }
  }

  ghost function AllCells(): (cells: set<Pos>)
    ensures forall p :: InBounds(p) ==> p in cells
  {
    var cells := set x: int, y: int | 0 <= x < Width && 0 <= y < Height :: Pos(x, y);
    assert forall p :: InBounds(p) ==> Pos(p.x, p.y) in cells;
    cells
  }

  /** Mark `n` visited with predecessor `from`, mirroring the ghost maps' growth. */
  method Mark(visited: array2<bool>, cameFrom: array2<Option<Pos>>, n: Pos, from: Pos,
              ghost depth: map<Pos, nat>, ghost parent: map<Pos, Pos>, ghost d: nat)
    requires visited.Length0 == Height && visited.Length1 == Width
    requires cameFrom.Length0 == Height && cameFrom.Length1 == Width
    requires InBounds(n) && Mirrors(visited, cameFrom, depth, parent)
    modifies visited, cameFrom
    ensures Mirrors(visited, cameFrom, depth[n := d], parent[n := from])
  {
    visited[n.y, n.x] := true;
    cameFrom[n.y, n.x] := Some(from);
  }

  /**
   The first `k` directions around `current` are settled: each passable
   neighbour among them is visited, at most one layer below `current`.
   */
  ghost predicate Settled(b: Board, depth: map<Pos, nat>, current: Pos, k: nat)
    requires Shaped(b) && k <= |Directions|
  {
    && current in depth
    && forall j :: 0 <= j < k && Passable(b, Neighbour(current, j)) ==>
         Neighbour(current, j) in depth && depth[Neighbour(current, j)] <= depth[current] + 1
  }

  /** Settling direction `k` keeps directions `0..k-1` settled. */
  lemma DirectionSettled(b: Board, depth0: map<Pos, nat>, depth1: map<Pos, nat>, current: Pos, k: nat)
    requires Shaped(b) && k < |Directions| && Settled(b, depth0, current, k)
    requires forall v {:trigger depth0[v]} :: v in depth0 ==> v in depth1 && depth1[v] == depth0[v]
    requires Passable(b, Neighbour(current, k)) ==>
      Neighbour(current, k) in depth1 && depth1[Neighbour(current, k)] <= depth1[current] + 1
    ensures Settled(b, depth1, current, k + 1)
  {
    forall j | 0 <= j < k && Passable(b, Neighbour(current, j))
      ensures Neighbour(current, j) in depth1 && depth1[Neighbour(current, j)] <= depth1[current] + 1
    {
      assert depth0[Neighbour(current, j)] <= depth0[current] + 1;
    }
  }

  /**
   Once all four directions are settled, the expanded cell is closed, and the
   cells expanded before it stay closed.
   */
  lemma ExpandCloses(b: Board, depth: map<Pos, nat>, depth': map<Pos, nat>,
                     seen: seq<Pos>, seen': seq<Pos>, current: Pos, head: nat)
    requires Shaped(b) && 0 < head <= |seen| && head <= |seen'| && seen[head - 1] == current
    requires forall i :: 0 <= i < head ==> seen'[i] == seen[i]
    requires forall i :: 0 <= i < head - 1 ==> seen[i] in depth && Closed(b, depth, seen[i])
    requires forall v {:trigger depth[v]} :: v in depth ==> v in depth' && depth'[v] == depth[v]
    requires Settled(b, depth', current, |Directions|)
    ensures forall i :: 0 <= i < head ==> seen'[i] in depth' && Closed(b, depth', seen'[i])
  {
    forall i | 0 <= i < head
      ensures seen'[i] in depth' && Closed(b, depth', seen'[i])
    {
      if i < head - 1 {
        ClosedGrows(b, depth, depth', seen[i]);
      } else {
        forall n | Adjacent(current, n) && Passable(b, n)
          ensures n in depth' && depth'[n] <= depth'[current] + 1
        {
          AdjacentIsNeighbour(current, n);
        }
      }
    }
  }

  /** Dequeuing the front of the queue keeps the search state, and bounds the last cell's layer by the front's. */
  lemma Dequeue(b: Board, start: Pos, depth: map<Pos, nat>, parent: map<Pos, Pos>,
                seen: seq<Pos>, index: map<Pos, nat>, head: nat, queue: seq<Pos>)
    requires Shaped(b) && Frontier(b, start, depth, parent, seen, index, head, queue) && |queue| > 0
    requires head == 0 ==> seen == [start]
    requires head > 0 ==> depth[seen[|seen| - 1]] <= depth[seen[head - 1]] + 1
    ensures Frontier(b, start, depth, parent, seen, index, head + 1, queue[1..])
    ensures seen[head] == queue[0]
    ensures depth[seen[|seen| - 1]] <= depth[seen[head]] + 1
  {
    assert seen[head + 1..] == queue[1..];
    if head > 0 {
      assert DepthAt(depth, seen, head - 1) <= DepthAt(depth, seen, head);
    }
  }

  /** A round of the search that enqueues a cell visits a new one. */
  lemma Progress(depth: map<Pos, nat>, depth': map<Pos, nat>, seen: seq<Pos>, seen': seq<Pos>)
    requires depth.Keys <= depth'.Keys && forall p :: p in depth' ==> InBounds(p)
    requires forall i :: 0 <= i < |seen'| ==> seen'[i] in depth'
    requires forall i :: |seen| <= i < |seen'| ==> seen'[i] !in depth
    requires |seen'| == |seen| ==> depth' == depth
    ensures |seen| < |seen'| ==> AllCells() - depth'.Keys < AllCells() - depth.Keys
    ensures |seen| == |seen'| ==> AllCells() - depth'.Keys == AllCells() - depth.Keys
  {
    if |seen| < |seen'| {
      var n := seen'[|seen|];
      assert n in AllCells() - depth.Keys && n !in AllCells() - depth'.Keys;
    }
  }

  /**
   When the search stops, either on dequeuing the goal (`found`) or with an
   empty queue, the goal's layer (if visited) bounds every walk to it, and an
   unvisited goal is unreachable.
   */
  lemma SearchEnds(b: Board, start: Pos, goal: Pos, depth: map<Pos, nat>, parent: map<Pos, Pos>,
                   seen: seq<Pos>, index: map<Pos, nat>, head: nat, queue: seq<Pos>, found: bool)
    requires Shaped(b) && Frontier(b, start, depth, parent, seen, index, head, queue)
    requires found ==> 0 < head && seen[head - 1] == goal
    requires !found ==> queue == []
    requires forall i :: 0 <= i < (if found then head - 1 else head) ==> seen[i] in depth && Closed(b, depth, seen[i])
    ensures goal in depth ==> forall w :: PathTo(b, start, goal, w) ==> depth[goal] <= |w|
    ensures goal !in depth ==> !Reaches(b, start, goal)
  {
    if !found {
      forall v | v in depth
        ensures Closed(b, depth, v)
      {
        assert seen[index[v]] == v;
      }
    } else {
      forall v | v in depth && depth[v] < depth[goal]
        ensures Closed(b, depth, v)
      {
        assert seen[index[v]] == v;
        // Cells enqueued from the goal's position on are at least as deep as the goal.
        assert index[v] < head - 1 || DepthAt(depth, seen, head - 1) <= DepthAt(depth, seen, index[v]);
      }
    }
    BfsConclusion(b, depth, start, goal, !found);
  }

  /**
   One turn of the inner `for` loop of `bfs`: if the neighbour of `current` in
   direction `k` is in bounds, unvisited, and neither wall nor exit, enqueue it,
   mark it visited and record `current` as its predecessor.
   */
  method Visit(grid: Board, start: Pos, current: Pos, k: nat, queue: seq<Pos>,
               visited: array2<bool>, cameFrom: array2<Option<Pos>>,
               ghost depth: map<Pos, nat>, ghost parent: map<Pos, Pos>,
               ghost seen: seq<Pos>, ghost index: map<Pos, nat>, ghost head: nat)
    returns (queue': seq<Pos>, ghost depth': map<Pos, nat>, ghost parent': map<Pos, Pos>,
             ghost seen': seq<Pos>, ghost index': map<Pos, nat>)
    requires Shaped(grid)
    requires visited.Length0 == Height && visited.Length1 == Width
    requires cameFrom.Length0 == Height && cameFrom.Length1 == Width
    requires k < |Directions|
    requires Frontier(grid, start, depth, parent, seen, index, head, queue)
    requires Mirrors(visited, cameFrom, depth, parent)
    requires Settled(grid, depth, current, k) && depth[seen[|seen| - 1]] <= depth[current] + 1
    modifies visited, cameFrom
    ensures Frontier(grid, start, depth', parent', seen', index', head, queue')
    ensures Mirrors(visited, cameFrom, depth', parent')
    ensures Settled(grid, depth', current, k + 1) && depth'[seen'[|seen'| - 1]] <= depth'[current] + 1
    ensures |seen| <= |seen'| && forall i :: 0 <= i < |seen| ==> seen'[i] == seen[i]
    ensures forall v {:trigger depth[v]} :: v in depth ==> v in depth' && depth'[v] == depth[v]
    ensures depth.Keys <= depth'.Keys && forall i :: |seen| <= i < |seen'| ==> seen'[i] !in depth
    ensures |seen'| == |seen| ==> depth' == depth
    ensures var n := Neighbour(current, k);
      Passable(grid, n) && n !in depth ==>
        && queue' == queue + [n] && seen' == seen + [n] && parent' == parent[n := current]
        && depth' == depth[n := depth[current] + 1] && index' == index[n := |seen|]
    ensures var n := Neighbour(current, k);
      !(Passable(grid, n) && n !in depth) ==>
        queue' == queue && seen' == seen && parent' == parent && depth' == depth && index' == index
    ensures forall v {:trigger parent[v]} :: v in parent ==> v in parent' && parent'[v] == parent[v]
    ensures forall i :: |seen| <= i < |seen'| ==> Adjacent(current, seen'[i]) && seen'[i] in parent' && parent'[seen'[i]] == current
  {
    queue', depth', parent', seen', index' := queue, depth, parent, seen, index;
    var (dx, dy) := Directions[k];
    var nx := current.x + dx;
    var ny := current.y + dy;
    var n := Pos(nx, ny);
    assert n == Neighbour(current, k);
    if 0 <= nx < Width && 0 <= ny < Height && !visited[ny, nx] &&
       grid[ny][nx] != Wall && grid[ny][nx] != Exit
    {
      assert Passable(grid, n) && n !in depth;
      Enqueue(grid, start, depth, parent, seen, index, head, queue, current, n);
      queue' := queue + [n];
      Mark(visited, cameFrom, n, current, depth, parent, depth[current] + 1);
      depth' := depth[n := depth[current] + 1];
      parent' := parent[n := current];
      index' := index[n := |seen|];
      seen' := seen + [n];
    } else if Passable(grid, n) {
      // Already visited: enqueued no later than the last cell, so no deeper.
      assert seen[index[n]] == n;
      assert DepthAt(depth, seen, index[n]) <= DepthAt(depth, seen, |seen| - 1);
    }
    DirectionSettled(grid, depth, depth', current, k);
  }

  /**
   The inner `for` loop of `bfs`: visit the four neighbours of `current` in
   direction order. Afterwards every passable neighbour of `current` is
   visited, at most one layer deeper.
   */
  method Expand(grid: Board, start: Pos, current: Pos, queue: seq<Pos>,
                visited: array2<bool>, cameFrom: array2<Option<Pos>>,
                ghost depth: map<Pos, nat>, ghost parent: map<Pos, Pos>,
                ghost seen: seq<Pos>, ghost index: map<Pos, nat>, ghost head: nat)
    returns (queue': seq<Pos>, ghost depth': map<Pos, nat>, ghost parent': map<Pos, Pos>,
             ghost seen': seq<Pos>, ghost index': map<Pos, nat>)
    requires Shaped(grid)
    requires visited.Length0 == Height && visited.Length1 == Width
    requires cameFrom.Length0 == Height && cameFrom.Length1 == Width
    requires Frontier(grid, start, depth, parent, seen, index, head, queue)
    requires Mirrors(visited, cameFrom, depth, parent)
    requires 0 < head && seen[head - 1] == current
    requires depth[seen[|seen| - 1]] <= depth[current] + 1
    modifies visited, cameFrom
    ensures Frontier(grid, start, depth', parent', seen', index', head, queue')
    ensures Mirrors(visited, cameFrom, depth', parent')
    ensures Settled(grid, depth', current, |Directions|) && depth'[seen'[|seen'| - 1]] <= depth'[current] + 1
    ensures |seen| <= |seen'| && forall i :: 0 <= i < |seen| ==> seen'[i] == seen[i]
    ensures forall v {:trigger depth[v]} :: v in depth ==> v in depth' && depth'[v] == depth[v]
    ensures depth.Keys <= depth'.Keys && forall i :: |seen| <= i < |seen'| ==> seen'[i] !in depth
    ensures |seen'| == |seen| ==> depth' == depth
    ensures forall v {:trigger parent[v]} :: v in parent ==> v in parent' && parent'[v] == parent[v]
    ensures forall i :: |seen| <= i < |seen'| ==> Adjacent(current, seen'[i]) && seen'[i] in parent' && parent'[seen'[i]] == current
  {
    queue', depth', parent', seen', index' := queue, depth, parent, seen, index;
    for k := 0 to |Directions|
      invariant Frontier(grid, start, depth', parent', seen', index', head, queue')
      invariant Mirrors(visited, cameFrom, depth', parent')
      invariant Settled(grid, depth', current, k) && depth'[seen'[|seen'| - 1]] <= depth'[current] + 1
      invariant |seen| <= |seen'| && forall i :: 0 <= i < |seen| ==> seen'[i] == seen[i]
      invariant forall v {:trigger depth[v]} :: v in depth ==> v in depth' && depth'[v] == depth[v]
      invariant depth.Keys <= depth'.Keys && forall i :: |seen| <= i < |seen'| ==> seen'[i] !in depth
      invariant |seen'| == |seen| ==> depth' == depth
      invariant forall v {:trigger parent[v]} :: v in parent ==> v in parent' && parent'[v] == parent[v]
      invariant forall i :: |seen| <= i < |seen'| ==> Adjacent(current, seen'[i]) && seen'[i] in parent' && parent'[seen'[i]] == current
    {
      queue', depth', parent', seen', index' :=
        Visit(grid, start, current, k, queue', visited, cameFrom, depth', parent', seen', index', head);
    }
  }

  /**
   The final loop of `bfs`: walk `cameFrom` back from the goal, prepending
   each cell, until the start or a missing predecessor is met.
   */
  method Rebuild(cameFrom: array2<Option<Pos>>, ghost visited: array2<bool>, ghost b: Board,
                 ghost depth: map<Pos, nat>, ghost parent: map<Pos, Pos>, start: Pos, goal: Pos)
    returns (path: seq<Pos>)
    requires Shaped(b) && InBounds(goal)
    requires visited.Length0 == Height && visited.Length1 == Width
    requires cameFrom.Length0 == Height && cameFrom.Length1 == Width
    requires Tree(b, start, depth, parent) && Mirrors(visited, cameFrom, depth, parent)
    ensures goal !in depth ==> path == [goal]
    ensures goal in depth && goal == start ==> path == []
    ensures goal in depth && goal != start ==> PathTo(b, start, goal, path) && |path| == depth[goal]
  {
    path := [];
    var cur: Option<Pos> := Some(goal);
    while cur.Some? && cur.value != start
      invariant cur.Some? ==> InBounds(cur.value)
      invariant goal !in depth ==> (cur == Some(goal) && path == []) || (cur == None && path == [goal])
      invariant goal in depth ==>
        && cur.Some? && cur.value in depth
        && depth[cur.value] + |path| == depth[goal]
        && (path == [] ==> cur.value == goal)
        && (path != [] ==> PathTo(b, cur.value, goal, path))
      decreases if cur.None? then 0 else if cur.value in depth then depth[cur.value] + 1 else 1
    {
      var v := cur.value;
      path := [v] + path;
      cur := cameFrom[v.y, v.x];
    }
  }

  /** What the search and the path reconstruction establish together is the specification of `bfs`. */
  lemma SearchResult(b: Board, start: Pos, goal: Pos, depth: map<Pos, nat>, path: seq<Pos>)
    requires Shaped(b) && start in depth && depth[start] == 0
    requires goal in depth ==> forall w :: PathTo(b, start, goal, w) ==> depth[goal] <= |w|
    requires goal !in depth ==> !Reaches(b, start, goal)
    requires goal !in depth ==> path == [goal]
    requires goal in depth && goal == start ==> path == []
    requires goal in depth && goal != start ==> PathTo(b, start, goal, path) && |path| == depth[goal]
    ensures BfsResult(b, start, goal, path)
  {
    if goal != start && goal in depth {
      assert Reaches(b, start, goal);
    }
  }

  /**
   The `while` loop of `bfs`: dequeue cells breadth-first, stopping at the goal
   or when the queue runs dry. Its result, as ghost maps, is the search tree,
   whose depths are shortest-walk lengths.
   */
  method Search(grid: Board, start: Pos, goal: Pos,
                visited: array2<bool>, cameFrom: array2<Option<Pos>>)
    returns (ghost depth: map<Pos, nat>, ghost parent: map<Pos, Pos>)
    requires Shaped(grid)
    requires visited.Length0 == Height && visited.Length1 == Width
    requires cameFrom.Length0 == Height && cameFrom.Length1 == Width
    requires InBounds(start) && Mirrors(visited, cameFrom, map[start := 0], map[])
    modifies visited, cameFrom
    ensures Tree(grid, start, depth, parent) && Mirrors(visited, cameFrom, depth, parent)
    ensures goal in depth ==> forall w :: PathTo(grid, start, goal, w) ==> depth[goal] <= |w|
    ensures goal !in depth ==> !Reaches(grid, start, goal)
  {
    var queue: seq<Pos> := [start];
    depth, parent := map[start := 0], map[];
    ghost var seen := [start];
    ghost var index: map<Pos, nat> := map[start := 0];
    ghost var head := 0;
    ghost var found := false;

    while |queue| > 0
      invariant Frontier(grid, start, depth, parent, seen, index, head, queue)
      invariant Mirrors(visited, cameFrom, depth, parent)
      invariant head == 0 ==> seen == [start]
      invariant head > 0 ==> depth[seen[|seen| - 1]] <= depth[seen[head - 1]] + 1
      invariant forall i :: 0 <= i < head ==> seen[i] in depth && Closed(grid, depth, seen[i])
      decreases AllCells() - depth.Keys, |queue|
    {
      Dequeue(grid, start, depth, parent, seen, index, head, queue);
      var current := queue[0];
      queue := queue[1..];
      head := head + 1;
      if current == goal {
        found := true;
        break;
      }

      ghost var depth0, seen0 := depth, seen;
      queue, depth, parent, seen, index :=
        Expand(grid, start, current, queue, visited, cameFrom, depth, parent, seen, index, head);
      ExpandCloses(grid, depth0, depth, seen0, seen, current, head);
      Progress(depth0, depth, seen0, seen);
    }
    SearchEnds(grid, start, goal, depth, parent, seen, index, head, queue, found);
  }

  /**
   `bfs(start, goal)` over the grid `grid`: breadth-first search from `start`
   with a FIFO queue, a `visited` matrix and a `cameFrom` predecessor matrix,
   trying neighbours in the order +x, -x, +y, -y and stopping when the goal is
   dequeued; then the path is rebuilt by following `cameFrom` back from the
   goal.
   */
  method Bfs(grid: Board, start: Pos, goal: Pos) returns (path: seq<Pos>)
    requires Shaped(grid)
    requires InBounds(start) && InBounds(goal)
    ensures BfsResult(grid, start, goal, path)
    ensures forall i :: 0 <= i < |path| ==> InBounds(path[i])
  {
    var visited := new bool[Height, Width]((_, _) => false);
    var cameFrom := new Option<Pos>[Height, Width]((_, _) => None);
    visited[start.y, start.x] := true;
    ghost var depth, parent := Search(grid, start, goal, visited, cameFrom);
    path := Rebuild(cameFrom, visited, grid, depth, parent, start, goal);
    SearchResult(grid, start, goal, depth, path);
  }
}
