/** The touch handling of GridManager: the busy flag, the first selection,
    the adjacency gate of the second touch, the committed swap
    (`swapBlocks`), and the tween callback that resolves the swap. */
module Selection {
  import opened Block
  import opened Grid
  import opened Matching
  import opened Swapping
  import opened Resolution

  /** The grid manager's state: the grid, `isProcessing`, and `selectedBlock`
      (a block is named by the cell it occupies). */
  datatype Session = Session(grid: Grid, busy: bool, selected: Option<Pos>)

  predicate Valid(s: Session)
  {
    WellFormed(s.grid) && (s.selected.Some? ==> InBounds(s.selected.value))
  }

  /** `swapBlocks(a, b)` up to its tween: when the lookahead finds no match
      nothing changes; otherwise the session becomes busy and exactly the
      blocks at a and b trade places. */
  function SwapBlocks(s: Session, a: Pos, b: Pos, minCount: int): (r: Session)
    requires Valid(s) && InBounds(a) && InBounds(b)
    ensures Valid(r) && r.selected == s.selected
    ensures !CanSwap(s.grid, a, b, minCount) ==> r == s
    ensures CanSwap(s.grid, a, b, minCount) ==>
              && r.busy
              && At(r.grid, a) == At(s.grid, b)
              && At(r.grid, b) == At(s.grid, a)
              && forall p :: InBounds(p) && p != a && p != b ==> At(r.grid, p) == At(s.grid, p)
  {
    if !CanSwap(s.grid, a, b, minCount) then s
    else
      var blockA, blockB := At(s.grid, a), At(s.grid, b);
      Session(Put(Put(s.grid, a, blockB), b, blockA), true, s.selected)
  }

  /** `onBlockTouched(block)` for the block at `touched`; `live` is
      `block.node.isValid`. A touch while busy, or on a dead node, is ignored.
      With nothing selected, the touched block becomes the selection. A second
      touch always clears the selection, and the grid can change only when the
      two blocks are adjacent and the swap finds a match; touching the selected
      block again never swaps. */
  function OnBlockTouched(s: Session, touched: Pos, live: bool, minCount: int): (r: Session)
    requires Valid(s) && InBounds(touched)
    ensures Valid(r)
    ensures s.busy || !live ==> r == s
    ensures !s.busy && live && s.selected.None? ==> r == s.(selected := Some(touched))
    ensures !s.busy && live && s.selected.Some? ==> r.selected.None?
    ensures r.grid != s.grid ==>
              && !s.busy && live && s.selected.Some?
              && AreAdjacent(touched, s.selected.value)
              && CanSwap(s.grid, touched, s.selected.value, minCount)
              && r.busy
    ensures s.selected == Some(touched) ==> r.grid == s.grid && r.busy == s.busy
    ensures !s.busy && live && s.selected.Some? && AreAdjacent(touched, s.selected.value) &&
            CanSwap(s.grid, touched, s.selected.value, minCount) ==>
              r.busy && r.grid == Swapped(s.grid, touched, s.selected.value)
    ensures !s.busy && live && s.selected.Some? &&
            !(AreAdjacent(touched, s.selected.value) && CanSwap(s.grid, touched, s.selected.value, minCount)) ==>
              r == s.(selected := None)
  {
    if s.busy || !live then s
    else if s.selected.None? then s.(selected := Some(touched))
    else
      var other := s.selected.value;
      var cleared := s.(selected := None);
      if !AreAdjacent(touched, other) then cleared
      else SwapBlocks(cleared, touched, other, minCount)
  }

  /** The callback at the end of the swap tween: `checkMatches([posA, posB])`
      with its cascade (at most `fuel` rounds, recorded as in `Resolve`), then
      the busy flag is lowered. The selection is kept, the grid is the one the
      cascade ends with, block types stay in range, and a full grid stays
      full. */
  method FinishSwap(s: Session, a: Pos, b: Pos, minCount: int, draw: nat -> int, n: nat, fuel: nat)
    returns (r: Session, n': nat, trace: seq<Grid>, fronts: seq<seq<Pos>>, stable: bool)
    requires Valid(s)
    ensures Valid(r) && !r.busy && r.selected == s.selected
    ensures Cascade(s.grid, [a, b], minCount, trace, fronts)
    ensures r.grid == Last(trace) && |trace| <= fuel + 1
    ensures stable <==> !SomeSeedQualifies(r.grid, Last(fronts), minCount)
    ensures stable <==> CheckMatches(r.grid, Last(fronts), minCount) == {}
    ensures !stable ==> |trace| == fuel + 1
    ensures !SomeSeedQualifies(s.grid, [a, b], minCount) ==> r.grid == s.grid
    ensures Full(s.grid) ==> Full(r.grid)
    ensures TypesInRange(s.grid) ==> TypesInRange(r.grid)
  {
    var g;
    g, n', trace, fronts, stable := Resolve(s.grid, [a, b], minCount, draw, n, fuel);
    r := Session(g, false, s.selected);
  }
}
