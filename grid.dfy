/** The lattice of `SquareGraph`: cells (x, y) of an N x N grid, the arena
    index of a cell, and the neighbour rule of `ConnectNodes`. */
module Grid {

  datatype Cell = Cell(x: int, y: int)

  predicate InGrid(n: nat, c: Cell) {
    0 <= c.x < n && 0 <= c.y < n
  }

  /** The arena index of cell (x, y): nodes are created x-major, so this is
      also the position of the cell in the scan order of the nested loops. */
  function Index(n: nat, c: Cell): int {
    c.x * n + c.y
  }

  lemma IndexInRange(n: nat, c: Cell)
    requires InGrid(n, c)
    ensures 0 <= Index(n, c) < n * n
  {
    assert c.x * n <= (n - 1) * n;
  }

  /** Arena order is the x-major scan order of the nested loops; in
      particular distinct cells have distinct indices. */
  lemma IndexOrder(n: nat, a: Cell, b: Cell)
    requires InGrid(n, a) && InGrid(n, b)
    ensures Index(n, a) < Index(n, b) <==> a.x < b.x || (a.x == b.x && a.y < b.y)
    ensures Index(n, a) == Index(n, b) <==> a == b
  {
    if a.x < b.x {
      MulNonNegative(b.x - a.x - 1, n);
      assert a.x * n + n <= b.x * n;
    } else if b.x < a.x {
      MulNonNegative(a.x - b.x - 1, n);
      assert b.x * n + n <= a.x * n;
    }
  }

  lemma MulNonNegative(p: int, q: int)
    requires p >= 0 && q >= 0
    ensures p * q >= 0
  {
  }

  /** Two distinct cells that differ by at most one in each coordinate. */
  predicate Adjacent(a: Cell, b: Cell) {
    a != b && -1 <= a.x - b.x <= 1 && -1 <= a.y - b.y <= 1
  }

  /** The cells whose nodes `ConnectNodes` appends to the `connected` list of
      node (x, y), in the order it appends them. The diagonal (x-1, y-1) is
      guarded by `x > 1` where the other west moves are guarded by `x > 0`, so
      column 1 never lists (0, y-1). */
  function Neighbours(n: nat, x: int, y: int): (r: seq<Cell>)
    requires InGrid(n, Cell(x, y))
    ensures forall c :: c in r ==> InGrid(n, c)
  {
    var south :=
      if y > 0 then
        [Cell(x, y - 1)]
        + (if x > 1 then [Cell(x - 1, y - 1)] else [])
        + (if x < n - 1 then [Cell(x + 1, y - 1)] else [])
      else [];
    var west :=
      if x > 0 then [Cell(x - 1, y)] + (if y < n - 1 then [Cell(x - 1, y + 1)] else []) else [];
    var east :=
      if x < n - 1 then [Cell(x + 1, y)] + (if y < n - 1 then [Cell(x + 1, y + 1)] else []) else [];
    var north := if y < n - 1 then [Cell(x, y + 1)] else [];
    south + west + east + north
  }

  /** The cells listed are exactly the in-grid cells adjacent to (x, y),
      except (0, y-1) for column 1. */
  lemma NeighboursMembers(n: nat, x: int, y: int)
    requires InGrid(n, Cell(x, y))
    ensures forall c :: c in Neighbours(n, x, y) <==>
      InGrid(n, c) && Adjacent(Cell(x, y), c) && !(x == 1 && c == Cell(0, y - 1))
  {
  }

  /** No cell is listed twice, so no node is connected twice. */
  lemma NeighboursDistinct(n: nat, x: int, y: int)
    requires InGrid(n, Cell(x, y))
    ensures forall i, j :: 0 <= i < j < |Neighbours(n, x, y)| ==> Neighbours(n, x, y)[i] != Neighbours(n, x, y)[j]
  {
  }

  /** How many of x-1, x, x+1 lie in [0, n). */
  function Span(n: nat, v: int): nat {
    1 + (if v > 0 then 1 else 0) + (if v < n - 1 then 1 else 0)
  }

  /** The neighbour count: every in-grid cell of the 3 x 3 block around (x, y)
      except the cell itself, less the missing diagonal of column 1. */
  lemma NeighbourCount(n: nat, x: int, y: int)
    requires InGrid(n, Cell(x, y))
    ensures |Neighbours(n, x, y)| == Span(n, x) * Span(n, y) - 1 - (if x == 1 && y > 0 then 1 else 0)
  {
  }

  /** For n >= 3 each corner has 3 neighbours, each node of columns 2 .. n-2
      off the top and bottom rows has 8, and a column-1 node has one fewer than
      its column-2 counterpart. */
  lemma NeighbourCountCases(n: nat, x: int, y: int)
    requires n >= 3 && InGrid(n, Cell(x, y))
    ensures (x == 0 || x == n - 1) && (y == 0 || y == n - 1) ==> |Neighbours(n, x, y)| == 3
    ensures 2 <= x <= n - 2 && 0 < y < n - 1 ==> |Neighbours(n, x, y)| == 8
    ensures x == 1 && 0 < y < n - 1 ==> |Neighbours(n, x, y)| == 7
    ensures (x == 0 || x == n - 1) && 0 < y < n - 1 ==> |Neighbours(n, x, y)| == 5
  {
    NeighbourCount(n, x, y);
  }

  /** Adjacency is not symmetric: (0, y-1) lists (1, y), but (1, y) does not
      list (0, y-1). */
  lemma ColumnOneAsymmetry(n: nat, y: int)
    requires n >= 2 && 0 < y < n
    ensures Cell(1, y) in Neighbours(n, 0, y - 1)
    ensures Cell(0, y - 1) !in Neighbours(n, 1, y)
  {
    NeighboursMembers(n, 0, y - 1);
    NeighboursMembers(n, 1, y);
  }

  /** Apart from that one diagonal, adjacency is symmetric. */
  lemma NeighboursSymmetric(n: nat, a: Cell, b: Cell)
    requires InGrid(n, a) && InGrid(n, b)
    requires b in Neighbours(n, a.x, a.y)
    ensures a in Neighbours(n, b.x, b.y) <==> !(b.x == 1 && a == Cell(0, b.y - 1))
  {
    NeighboursMembers(n, a.x, a.y);
    NeighboursMembers(n, b.x, b.y);
  }
}
