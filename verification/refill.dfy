/** Clearing matched blocks and refilling holes (`clearMatches`, `refillGrid`,
    `createNewBlock`, `setupBlock`, and `initGrid`, which fills an empty grid
    the same way). The random type of a new block comes from an oracle:
    draw(n) is the n-th number drawn, and the block gets it through the
    clamping `type` setter. */
module Refill {
  import opened Block
  import opened Grid

  /** `clearMatches`, grid part: every matched cell becomes empty and no other
      cell changes. */
  function Clear(g: Grid, matches: set<Pos>): (r: Grid)
    requires WellFormed(g)
    ensures WellFormed(r)
    ensures forall p :: InBounds(p) ==> At(r, p) == if p in matches then None else At(g, p)
  {
    seq(Columns, c requires 0 <= c < Columns =>
      seq(Rows, row requires 0 <= row < Rows => if Pos(c, row) in matches then None else g[c][row]))
  }

  /** The block `setupBlock` creates with the n-th drawn number as its type. */
  function NewBlock(draw: nat -> int, n: nat): (c: Cell)
    ensures c.Some? && 0 <= c.value < TypeCount
    ensures 0 <= draw(n) < TypeCount ==> c.value == draw(n)
  {
    Some(ClampType(draw(n)))
  }

  /** How a refill in progress relates to the grid it started from: the cells
      it has filled are listed in `created`, in order, each holding the block
      made from the matching draw; nothing else has changed. */
  ghost predicate Refilling(g: Grid, r: Grid, created: seq<Pos>, draw: nat -> int, n: nat)
  {
    && WellFormed(g) && WellFormed(r)
    && (forall i :: 0 <= i < |created| ==>
          InBounds(created[i]) && At(g, created[i]).None? && At(r, created[i]) == NewBlock(draw, n + i))
    && (forall i, j :: 0 <= i < j < |created| ==> created[i] != created[j])
    && (forall p :: InBounds(p) && At(g, p).Some? ==> At(r, p) == At(g, p))
    && (forall p :: InBounds(p) && At(g, p).None? && At(r, p).Some? ==> p in created)
  }

  /** Fill one cell if it is empty, as `createNewBlock` followed by `setupBlock`. */
  method FillCell(ghost g: Grid, r: Grid, created: seq<Pos>, draw: nat -> int, n: nat, p: Pos)
    returns (r': Grid, created': seq<Pos>)
    requires InBounds(p) && Refilling(g, r, created, draw, n)
    ensures Refilling(g, r', created', draw, n)
    ensures At(r', p).Some?
    ensures forall q :: InBounds(q) && At(r, q).Some? ==> At(r', q) == At(r, q)
    ensures At(r, p).None? ==> created' == created + [p]
    ensures At(r, p).Some? ==> r' == r && created' == created
  {
    if At(r, p).None? {
      r' := Put(r, p, NewBlock(draw, n + |created|));
      created' := created + [p];
      forall i | 0 <= i < |created|
        ensures created[i] != p
      {
        assert At(r, created[i]).Some?;
      }
    } else {
      r', created' := r, created;
    }
  }

  /** `refillGrid(positions)`: first the listed positions, then every cell in
      column-major order; each cell found empty gets a new block. Afterwards no
      cell is empty, no block that was there has changed, the cells filled are
      exactly the cells that were empty, each filled once, and the k-th cell
      filled got the type clamped from draw(n + k). */
  method RefillGrid(g: Grid, positions: seq<Pos>, draw: nat -> int, n: nat)
    returns (r: Grid, created: seq<Pos>)
    requires WellFormed(g)
    requires forall i :: 0 <= i < |positions| ==> InBounds(positions[i])
    ensures WellFormed(r) && Full(r)
    ensures forall p :: InBounds(p) && At(g, p).Some? ==> At(r, p) == At(g, p)
    ensures forall p :: p in created <==> InBounds(p) && At(g, p).None?
    ensures forall i, j :: 0 <= i < j < |created| ==> created[i] != created[j]
    ensures forall i :: 0 <= i < |created| ==> At(r, created[i]) == NewBlock(draw, n + i)
    ensures TypesInRange(g) ==> TypesInRange(r)
    ensures Full(g) ==> r == g && created == []
  {
    r, created := g, [];
    for i := 0 to |positions|
      invariant Refilling(g, r, created, draw, n)
    {
      r, created := FillCell(g, r, created, draw, n, positions[i]);
    }
    for col := 0 to Columns
      invariant Refilling(g, r, created, draw, n)
      invariant forall p :: InBounds(p) && p.col < col ==> At(r, p).Some?
    {
      for row := 0 to Rows
        invariant Refilling(g, r, created, draw, n)
        invariant forall p :: InBounds(p) && (p.col < col || (p.col == col && p.row < row)) ==> At(r, p).Some?
      {
        r, created := FillCell(g, r, created, draw, n, Pos(col, row));
      }
    }
    if Full(g) {
      if created != [] {
        assert At(g, created[0]).None?;
      }
      Extensionality(r, g);
    }
  }

  /** The cells the full-grid loop of `refillGrid` visits from column c on:
      column by column, each from the bottom row up. */
  function ScanFrom(c: int): (s: seq<Pos>)
    requires 0 <= c <= Columns
    ensures forall i :: 0 <= i < |s| ==> InBounds(s[i]) && c <= s[i].col
    ensures forall p :: InBounds(p) && c <= p.col ==> p in s
    decreases Columns - c
  {
    if c == Columns then []
    else
      var column := seq(Rows, row requires 0 <= row < Rows => Pos(c, row));
      assert forall row :: 0 <= row < Rows ==> column[row] == Pos(c, row);
      column + ScanFrom(c + 1)
  }

  /** Every cell in the order of the full-grid loop of `refillGrid`. */
  function ScanOrder(): (s: seq<Pos>)
    ensures forall i :: 0 <= i < |s| ==> InBounds(s[i])
    ensures forall p :: InBounds(p) ==> p in s
  {
    ScanFrom(0)
  }

  /** The positions of ps whose cell in g is empty, in order. */
  function EmptyAmong(g: Grid, ps: seq<Pos>): (s: seq<Pos>)
    requires WellFormed(g)
    requires forall i :: 0 <= i < |ps| ==> InBounds(ps[i])
    ensures forall p :: p in s <==> p in ps && At(g, p).None?
  {
    if ps == [] then []
    else (if At(g, ps[0]).None? then [ps[0]] else []) + EmptyAmong(g, ps[1..])
  }

  /** The cells for which one `refillGrid` pass, as written, calls
      `createNewBlock`: a new block reaches the grid only when its drop tween
      ends, so both loops of the pass test the grid as it was when the pass
      began. */
  function SpawnsAsWritten(g: Grid, positions: seq<Pos>): (s: seq<Pos>)
    requires WellFormed(g)
    requires forall i :: 0 <= i < |positions| ==> InBounds(positions[i])
    ensures forall p :: p in s <==> InBounds(p) && At(g, p).None?
  {
    EmptyAmong(g, positions) + EmptyAmong(g, ScanOrder())
  }

  /** As written, every listed position that is empty when the pass begins is
      sent two new blocks, one from each loop; the second block is written over
      the first, whose node stays on screen outside the grid. RefillGrid, which
      fills each empty cell exactly once, is the intended behaviour. */
  lemma DoubleSpawn(g: Grid, positions: seq<Pos>, p: Pos)
    requires WellFormed(g)
    requires forall i :: 0 <= i < |positions| ==> InBounds(positions[i])
    requires p in positions && At(g, p).None?
    ensures var spawns := SpawnsAsWritten(g, positions);
            exists i, j :: 0 <= i < j < |spawns| && spawns[i] == p && spawns[j] == p
  {
    var first := EmptyAmong(g, positions);
    var second := EmptyAmong(g, ScanOrder());
    var spawns := first + second;
    assert spawns == SpawnsAsWritten(g, positions);
    var i :| 0 <= i < |first| && first[i] == p;
    var k :| 0 <= k < |second| && second[k] == p;
    assert spawns[i] == p && spawns[|first| + k] == p;
  }

  /** The empty grid `onLoad` allocates. */
  function EmptyGrid(): (g: Grid)
    ensures WellFormed(g)
    ensures forall p :: InBounds(p) ==> At(g, p).None?
  {
    seq(Columns, _ => seq(Rows, _ => None))
  }

  /** `onLoad` and `initGrid`: every cell of the empty grid gets a block, in
      column-major order, whose type is clamped from the next draw. */
  method InitGrid(draw: nat -> int) returns (g: Grid)
    ensures WellFormed(g) && Full(g) && TypesInRange(g)
  {
    var created;
    g, created := RefillGrid(EmptyGrid(), [], draw, 0);
  }
}
