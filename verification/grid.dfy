/** The authoritative grid of GridManager: a Columns x Rows array of optional
    blocks, addressed grid[col][row], and the adjacency test used to gate swaps. */
module Grid {
  import opened Block

  datatype Option<T> = None | Some(value: T)

  /** A cell is empty (`null` in the grid array) or holds a block of some type. */
  type Cell = Option<int>

  /** The grid as a sequence of columns; row 0 is the bottom of each column. */
  type Grid = seq<seq<Cell>>

  /** A grid coordinate; a block's identity in the model is the cell it occupies. */
  datatype Pos = Pos(col: int, row: int)

  predicate InBounds(p: Pos)
  {
    0 <= p.col < Columns && 0 <= p.row < Rows
  }

  predicate WellFormed(g: Grid)
  {
    |g| == Columns && forall c :: 0 <= c < Columns ==> |g[c]| == Rows
  }

  function At(g: Grid, p: Pos): Cell
    requires WellFormed(g) && InBounds(p)
  {
    g[p.col][p.row]
  }

  /** One cell assignment `grid[col][row] = cell`. */
  function Put(g: Grid, p: Pos, cell: Cell): (r: Grid)
    requires WellFormed(g) && InBounds(p)
    ensures WellFormed(r)
    ensures At(r, p) == cell
    ensures forall q :: InBounds(q) && q != p ==> At(r, q) == At(g, q)
  {
    g[p.col := g[p.col][p.row := cell]]
  }

  /** No cell of the grid is empty. */
  ghost predicate Full(g: Grid)
    requires WellFormed(g)
  {
    forall p :: InBounds(p) ==> At(g, p).Some?
  }

  /** Every block of the grid has one of the TypeCount types. */
  ghost predicate TypesInRange(g: Grid)
    requires WellFormed(g)
  {
    forall p :: InBounds(p) && At(g, p).Some? ==> 0 <= At(g, p).value < TypeCount
  }

  /** Two well-formed grids that agree on every cell are the same grid. */
  lemma {:induction false} Extensionality(g: Grid, h: Grid)
    requires WellFormed(g) && WellFormed(h)
    requires forall p :: InBounds(p) ==> At(g, p) == At(h, p)
    ensures g == h
  {
    forall c | 0 <= c < Columns
      ensures g[c] == h[c]
    {
      forall r | 0 <= r < Rows
        ensures g[c][r] == h[c][r]
      {
        assert At(g, Pos(c, r)) == At(h, Pos(c, r));
      }
    }
  }

  /** `areAdjacent`: the Manhattan distance of the two grid positions is 1,
      that is, they share a column and their rows differ by one, or the other
      way round. */
  function AreAdjacent(a: Pos, b: Pos): (r: bool)
    ensures r <==> ((a.col == b.col && (a.row == b.row + 1 || b.row == a.row + 1)) ||
                    (a.row == b.row && (a.col == b.col + 1 || b.col == a.col + 1)))
  {
    Dist(a.col, b.col) + Dist(a.row, b.row) == 1
  }

  /** Adjacency is symmetric and irreflexive, and diagonal neighbours are not
      adjacent. */
  lemma AdjacencyShape(a: Pos, b: Pos)
    ensures AreAdjacent(a, b) == AreAdjacent(b, a)
    ensures !AreAdjacent(a, a)
    ensures Dist(a.col, b.col) == 1 && Dist(a.row, b.row) == 1 ==> !AreAdjacent(a, b)
  {
  }

  /** The grid with the contents of cells a and b exchanged, written the way the
      source writes it: `grid[a] = blockB; grid[b] = blockA`. */
  function Swapped(g: Grid, a: Pos, b: Pos): (r: Grid)
    requires WellFormed(g) && InBounds(a) && InBounds(b)
    ensures WellFormed(r)
    ensures At(r, a) == At(g, b) && At(r, b) == At(g, a)
    ensures forall q :: InBounds(q) && q != a && q != b ==> At(r, q) == At(g, q)
  {
    Put(Put(g, a, At(g, b)), b, At(g, a))
  }
}
