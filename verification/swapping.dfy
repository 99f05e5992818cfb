/** The swap lookahead of GridManager (`canSwap`): exchange two cells on a
    trial basis, run `checkChain` at both positions, and write the original
    blocks back. */
module Swapping {
  import opened Grid
  import opened Matching

  /** What the lookahead reports, and the grid it leaves behind. */
  datatype Lookahead = Lookahead(found: bool, after: Grid)

  /** `canSwap(a, b)` step by step: the blocks read at a and b are written
      crosswise, the chains through a and then b are collected into one set,
      and the two blocks are written back. The grid left behind is the grid
      found, and the answer is yes iff, on the swapped grid, a or b lies on a
      maximal run of at least minCount blocks. */
  function SwapLookahead(g: Grid, a: Pos, b: Pos, minCount: int): (r: Lookahead)
    requires WellFormed(g) && InBounds(a) && InBounds(b)
    ensures r.after == g
    ensures r.found <==> QualifiesAt(Swapped(g, a, b), a, minCount) || QualifiesAt(Swapped(g, a, b), b, minCount)
  {
    var blockA := At(g, a);
    var blockB := At(g, b);
    var trial := Put(Put(g, a, blockB), b, blockA);
    var found := CheckChain(trial, b.col, b.row, minCount, CheckChain(trial, a.col, a.row, minCount, {}));
    var restored := Put(Put(trial, a, blockA), b, blockB);
    CheckChainAccumulates(trial, a, minCount, {});
    CheckChainAccumulates(trial, b, minCount, ChainAdds(trial, a, minCount));
    ChainAddsNonEmptyIff(trial, a, minCount);
    ChainAddsNonEmptyIff(trial, b, minCount);
    Extensionality(restored, g);
    Lookahead(|found| > 0, restored)
  }

  /** The verdict of `canSwap`. */
  function CanSwap(g: Grid, a: Pos, b: Pos, minCount: int): bool
    requires WellFormed(g) && InBounds(a) && InBounds(b)
  {
    SwapLookahead(g, a, b, minCount).found
  }
}
