/**
 The playing field of the chase game: a fixed 20 x 15 grid of cells, each of
 one kind, kept as a sequence of rows indexed `[y][x]`.
 */
module Grid {

  /** The kind of a cell (the `type` field of a grid cell). */
  datatype Kind = Empty | Wall | Player | Enemy | Star | Exit

  /** A grid position; `x` is the column, `y` the row. */
  datatype Pos = Pos(x: int, y: int)

  datatype Option<T> = None | Some(value: T)

  /** Grid dimensions (`gridWidth`, `gridHeight`). */
  const Width := 20
  const Height := 15

  /** The four neighbour offsets, in the order the pathfinder tries them: +x, -x, +y, -y. */
  const Directions: seq<(int, int)> := [(1, 0), (-1, 0), (0, 1), (0, -1)]

  /** A grid as a value: `Height` rows of `Width` cells. */
  type Board = seq<seq<Kind>>

  predicate InBounds(p: Pos) {
    0 <= p.x < Width && 0 <= p.y < Height
  }

  predicate Shaped(b: Board) {
    |b| == Height && forall y :: 0 <= y < Height ==> |b[y]| == Width
  }

  function At(b: Board, p: Pos): Kind
    requires Shaped(b) && InBounds(p)
  {
    b[p.y][p.x]
  }

  /** The board with the cell at `p` set to `k`. */
  function Update(b: Board, p: Pos, k: Kind): (r: Board)
    requires Shaped(b) && InBounds(p)
    ensures Shaped(r)
    ensures At(r, p) == k
    ensures forall q :: InBounds(q) && q != p ==> At(r, q) == At(b, q)
  {
    b[p.y := b[p.y][p.x := k]]
  }

  /** `b` is one step from `a` along an axis (4-neighbourhood, no diagonals). */
  predicate Adjacent(a: Pos, b: Pos) {
    (a.y == b.y && (b.x == a.x + 1 || b.x == a.x - 1)) ||
    (a.x == b.x && (b.y == a.y + 1 || b.y == a.y - 1))
  }

  /** The neighbour of `p` in direction `k` of `Directions`. */
  function Neighbour(p: Pos, k: nat): (n: Pos)
    requires k < |Directions|
    ensures Adjacent(p, n)
  {
    Pos(p.x + Directions[k].0, p.y + Directions[k].1)
  }

  /** Every 4-neighbour is reached by one of the four directions. */
  lemma AdjacentIsNeighbour(p: Pos, n: Pos)
    requires Adjacent(p, n)
    ensures exists k :: 0 <= k < |Directions| && n == Neighbour(p, k)
  {
    if n == Pos(p.x + 1, p.y) {
      assert n == Neighbour(p, 0);
    } else if n == Pos(p.x - 1, p.y) {
      assert n == Neighbour(p, 1);
    } else if n == Pos(p.x, p.y + 1) {
      assert n == Neighbour(p, 2);
    } else {
      assert n == Neighbour(p, 3);
    }
  }
}
