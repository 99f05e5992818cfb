# Match-3 grid engine of ai-eliminateTD, in Dafny

This project models the grid logic of the match-3 board: `GridManager.ts` and
the configuration and conversions of `Block.ts`. The board is 9 columns by 10
rows of blocks. Each block has one of 5 types.

- A player touches one block and then an adjacent one.
- The two blocks are swapped only when a trial swap shows that one of them
  would lie on a line of at least `matchMinCount` blocks of one type.
- After a swap, `checkMatches` collects every such line through the two cells.
- `clearMatches` empties the collected cells.
- `dropBlocks` lets the remaining blocks of each affected column fall to the
  bottom.
- `refillGrid` creates a new block of random type in every empty cell.
- Each new block is checked again, so matches can cascade.

Modules follow the source:

- `Block` holds the constants, the type clamp, cell and pixel conversions and
  the hit box.
- `Grid` holds the board and adjacency.
- `Matching` holds `getLineMatches`, `checkChain` and `checkMatches`. It also
  gives a declarative description of maximal runs and proves the scans agree
  with it.
- `Swapping` holds `canSwap`.
- `Gravity` holds `dropBlocks`.
- `Refill` holds `clearMatches`' clearing, `refillGrid`, `setupBlock` and
  `initGrid`.
- `Resolution` holds the `checkMatches` → `clearMatches` → refill cascade.
- `Selection` holds `onBlockTouched` and `swapBlocks`.

Representation:

- The grid is `seq<seq<Option<int>>>`, indexed `grid[col][row]`, with row 0 at
  the bottom. An empty cell is `None`.
- A block is named by the cell it occupies. The source's `Set<Block>` becomes
  `set<Pos>`. This is sound because every block sits in exactly one cell, and
  with tweens taken as immediate its `gridPosition` is that cell.
- Random types come from an oracle `draw: nat -> int`. The n-th block created
  gets `draw(n)`, which passes through the clamping `type` setter.
- A tween is taken as finished before the next step of the model. The one
  exception is the double spawn under "## Findings", which comes from the
  refill's drop tweens not having finished yet.
- The callback of `createNewBlock` is split in two. Its `setupBlock` runs
  inside the refill. Its per-block `checkMatches([pos])` calls run together
  afterwards, as the next round of the cascade (see `Resolution.Resolve`
  under "## Left out").

## Model

| member | source | states |
|---|---|---|
| `Block.ClampType` | assets/Scripts/Block.ts:33-34 | The stored type is in [0, 4], and it is the in-range value nearest to the one assigned. |
| `Block.ClampTypeFacts` | assets/Scripts/Block.ts:33-34 | Clamping leaves in-range values alone, is idempotent and is monotone. |
| `Block.GridPositionInvertsPlacement` | assets/Scripts/Block.ts:104-108 | A node placed at (col·SIZE, row·SIZE) reports grid position (col, row). A node reporting an integral (col, row) is at exactly that placement. |
| `Block.TouchSquare` | assets/Scripts/Block.ts:82-91 | A touch hits a block iff it lies in the closed SIZE×SIZE square at the block's placement. A touch on the edge shared by two horizontal neighbours hits both. |
| `Grid.AreAdjacent` | assets/Scripts/GridManager.ts:73-77 | Two cells are adjacent iff they share a column and their rows differ by one, or they share a row and their columns differ by one. |
| `Grid.AdjacencyShape` | assets/Scripts/GridManager.ts:73-77 | Adjacency is symmetric and irreflexive. Diagonal neighbours are not adjacent. |
| `Grid.Swapped` | assets/Scripts/GridManager.ts:247-248 | The cells a and b trade contents, and every other cell is unchanged. |
| `Matching.Scan` | assets/Scripts/GridManager.ts:216-227 | The k-th cell visited is k steps along the direction. Every cell visited is on the grid and holds the start type. The cell after the last one stops the scan. |
| `Matching.GetLineMatches` | assets/Scripts/GridManager.ts:212-228 | The result lists the blocks strictly beyond the start, in order, all of the start's type. The next cell is off the grid, empty, or of another type. An empty start cell gives no matches. |
| `Matching.LineMatchesStayOnLine` | assets/Scripts/GridManager.ts:212-228 | A horizontal scan stays in the start's row, and a vertical one stays in its column. |
| `Matching.HorizontalRunIsMaximal` | assets/Scripts/GridManager.ts:201 | Right scan + seed + left scan lists the cells of the maximal horizontal run through the seed, each once. |
| `Matching.VerticalRunIsMaximal` | assets/Scripts/GridManager.ts:202 | Up scan + seed + down scan lists the cells of the maximal vertical run through the seed, each once. |
| `Matching.CheckChain` | assets/Scripts/GridManager.ts:195-210 | A seed off the grid or on an empty cell adds nothing. The set only grows. Every added block is on the grid, has the seed's type, and lies in the seed's row or column. |
| `Matching.CheckChainAddsQualifyingRuns` | assets/Scripts/GridManager.ts:201-209 | `checkChain` adds exactly the maximal horizontal run when it has ≥ minCount cells, and exactly the maximal vertical run when that has ≥ minCount cells. |
| `Matching.RunThreshold` | assets/Scripts/GridManager.ts:204-209 | A run of at least minCount cells is included in full. No other cell of a shorter run is included. |
| `Matching.ChainAddsNonEmptyIff` | assets/Scripts/GridManager.ts:195-210 | A seed contributes something iff it lies on a maximal run of at least minCount blocks. |
| `Matching.CheckChainAccumulates` | assets/Scripts/GridManager.ts:204-209 | What a seed adds does not depend on the set it is added to. |
| `Matching.CheckMatchesFrom` | assets/Scripts/GridManager.ts:182-184 | Folding `checkChain` over the remaining seeds yields the starting set plus the contributions of those seeds. |
| `Matching.CheckMatches` | assets/Scripts/GridManager.ts:181-184 | The matches are the union of every seed's contribution, all on the grid and occupied. |
| `Matching.CheckMatchesNonEmptyIff` | assets/Scripts/GridManager.ts:181-186 | `checkMatches` finds something iff some seed lies on a maximal run of at least minCount blocks. |
| `Swapping.SwapLookahead` | assets/Scripts/GridManager.ts:270-288 | The trial swap is undone, so the grid is unchanged. The verdict is yes iff, on the swapped grid, a or b lies on a maximal run of at least minCount blocks. |
| `Gravity.CompactedKeepsBlocks` | assets/Scripts/GridManager.ts:104-117 | Gravity keeps a column's blocks, their order and their number. |
| `Gravity.CompactedIdempotent` | assets/Scripts/GridManager.ts:104-117 | Settling a settled column changes nothing. |
| `Gravity.CompactedPermutes` | assets/Scripts/GridManager.ts:104-117 | A settled column is a permutation of the original column. |
| `Gravity.CompactedHolesOnTop` | assets/Scripts/GridManager.ts:104-123 | After gravity a cell is empty exactly when it lies above the column's blocks. |
| `Gravity.DropColumn` | assets/Scripts/GridManager.ts:102-123 | The two-pointer loop moves every block to the lowest free row in order, giving the blocks followed by empty cells. The freed rows listed are exactly the empty rows of the result, from the write pointer up. |
| `Gravity.SettleColumn` | assets/Scripts/GridManager.ts:101-123 | One column is settled and every other column is kept. The positions listed are exactly its empty cells. |
| `Gravity.DropBlocks` | assets/Scripts/GridManager.ts:98-124 | Every column holding an affected position is settled, and the other columns are untouched. `refillNeeded` names exactly the empty cells of the settled columns. Block types stay in range. |
| `Refill.Clear` | assets/Scripts/GridManager.ts:84-92 | Exactly the matched cells become empty, and every other cell is kept. |
| `Refill.FillCell` | assets/Scripts/GridManager.ts:145-147 | An empty cell gets the next drawn block and is recorded. An occupied cell is left alone. No existing block changes. |
| `Refill.RefillGrid` | assets/Scripts/GridManager.ts:143-156 | Afterwards no cell is empty and every block already present is kept. The cells filled are exactly the cells that were empty, each once. The k-th cell filled holds clamp(draw(n + k)). On a full grid nothing happens. |
| `Refill.ScanOrder` | assets/Scripts/GridManager.ts:149-150 | The full-grid loop visits only cells on the grid, and visits all of them. |
| `Refill.NewBlock` | assets/Scripts/GridManager.ts:134 | A new block always has a type in [0, 4]. A draw already in range is kept unchanged. |
| `Refill.SpawnsAsWritten` | assets/Scripts/GridManager.ts:143-156 | The pass as written, with the grid read before any new block lands, calls `createNewBlock` on exactly the grid's empty cells (some of them twice, see `Refill.DoubleSpawn`). |
| `Refill.DoubleSpawn` | assets/Scripts/GridManager.ts:143-171 | As written, a listed position that is empty when the pass starts is sent two new blocks. |
| `Refill.EmptyGrid` | assets/Scripts/GridManager.ts:17 | The grid `onLoad` allocates has the right shape, and all its cells are empty. |
| `Refill.InitGrid` | assets/Scripts/GridManager.ts:16-27 | After start-up every cell holds a block, and every type is in range. |
| `Resolution.Listing` | assets/Scripts/GridManager.ts:95 | `Array.from` of the matched set lists exactly its elements. |
| `Resolution.SurvivorsStayPut` | assets/Scripts/GridManager.ts:94-95 | Refilling after the drop keeps the settled blocks of a dropped column in its lowest rows. |
| `Resolution.OtherColumnsKept` | assets/Scripts/GridManager.ts:84-124 | Blocks in columns without a match are not cleared, moved or replaced. |
| `Resolution.RefilledAreHoles` | assets/Scripts/GridManager.ts:84-124 | After clearing and dropping, the empty cells are exactly the rows above each matched column's survivors and the cells that were already empty. |
| `Resolution.AssembleClear` | assets/Scripts/GridManager.ts:94-95 | A refill of exactly the holes left by the drop, keeping every block, completes a `clearMatches`. |
| `Resolution.ClearingRefillsSomething` | assets/Scripts/GridManager.ts:84-95 | Clearing a non-empty set of matches always refills at least one cell. |
| `Resolution.ClearAndDrop` | assets/Scripts/GridManager.ts:84-94 | A matched column is settled after its matched cells are emptied. Every other column is as it was. Block types stay in range. |
| `Resolution.ClearMatches` | assets/Scripts/GridManager.ts:79-96 | After clearing, dropping and refilling, no cell is empty. Outside the matched columns every block stays put. A matched column has its survivors, in order, in its lowest rows. `created` lists, once each, exactly the cells above the survivors and the cells that were already empty. The k-th new block takes its type from draw(n + k). Types stay in range. |
| `Resolution.FindsMatch` | assets/Scripts/GridManager.ts:178-186 | The test that decides whether a round runs is true iff some seed lies on a maximal run of at least minCount blocks. |
| `Resolution.ResolveStep` | assets/Scripts/GridManager.ts:178-193 | If no seed lies on a qualifying run, the grid is unchanged and nothing is created. Otherwise exactly the matches found are cleared and refilled as in `ClearMatches`, and at least one block is created. |
| `Resolution.CascadeStart` | assets/Scripts/GridManager.ts:163-168 | A cascade record starts at the given grid and seeds. |
| `Resolution.CascadeRounds` | assets/Scripts/GridManager.ts:163-168 | In every recorded round, the previous frontier has a qualifying run, and exactly the matches it finds are cleared and refilled. That gives the next grid and frontier. |
| `Resolution.CascadeExtend` | assets/Scripts/GridManager.ts:165-167 | A further round that finds a match and clears it extends the cascade record. |
| `Resolution.Resolve` | assets/Scripts/GridManager.ts:163-168 | The result is a cascade record from the given grid and seeds, ending at the returned grid. In every round the cells created by the previous round (at first the seeds) lie on a match, and exactly those matches are cleared and refilled. `stable` holds iff `checkMatches` of the last frontier finds nothing, that is, iff no cell of it lies on a qualifying run. The cascade is cut short only when the fuel runs out. With no first match the grid is unchanged and nothing is drawn. Otherwise the grid ends full. |
| `Selection.SwapBlocks` | assets/Scripts/GridManager.ts:229-248 | With no match in prospect nothing changes. Otherwise the session becomes busy and exactly the two blocks trade cells. |
| `Selection.OnBlockTouched` | assets/Scripts/GridManager.ts:40-72 | A touch while busy or on a dead node is ignored. A first touch selects. A second touch clears the selection. For adjacent blocks whose swap makes a match, the grid becomes the swapped grid and busy is set. Any other second touch changes only the selection. |
| `Selection.FinishSwap` | assets/Scripts/GridManager.ts:257-265 | After the swap tween the cascade seeded with the two swapped cells runs as in `Resolve`, and its final grid is kept. Busy is cleared and the selection is kept. With no match the grid is unchanged. |

## Left out

- Tweens, `scaleBlock`, node scale and pixel animation are left out. A tween is taken as finished before the next step, except where the double spawn under "## Findings" depends on it not having finished.
- Randomness is not modelled. `math.randomRangeInt(0, 5)` is replaced by the oracle `draw`, whose value goes through the clamp as in the source.
- Node pooling (`blockPool`), `instantiate`, `node.active`, collider `apply()`, event registration, sprite loading with its fallback texture, and console logging have no effect on the grid. They are left out.
- The `blockPrefab === null` early return of `createBlock` is left out. The model assumes the prefab is set.
- Scoring is not modelled. `GridManager.ts` computes no score.
- The buff system, `MainScene`, `GameManager`, `BlockType` and `TopUIManager` are outside the grid engine.
- `checkChain` returns silently for a seed off the grid (GridManager.ts:196), and `Matching.CheckChain` models exactly that.
- `Matching.GetLineMatches`: requires `col` on the grid, because the source reads `grid[col]` before any check and would throw otherwise. It also requires a nonzero direction, because the source's loop never ends for (0, 0).
- `Resolution.Resolve`: the source re-checks each new block on its own, asynchronously, at the end of its tween. The model re-checks all cells created in one round together. It stops after `fuel` rounds, so an endless cascade is not modelled.
- `Selection.FinishSwap`: in the source, `isProcessing` is cleared right after `checkMatches` returns, while the refill it started is still animating. The model clears it after the cascade, so it says nothing about touches that arrive during the refill.
- `Resolution.ClearMatches`: `affectedPositions` is a set of distinct objects, so a column is listed once per matched block. The model uses the set of matched cells. The drop result is the same either way, because `Gravity.CompactedIdempotent` shows that settling a column again changes nothing.
- `Refill.RefillGrid`: this is the corrected refill, which fills each empty cell once (see Findings). The as-written double spawn is modelled only as far as `Refill.DoubleSpawn` states it. The extra block's node stays in the scene but outside the grid, and the model does not track it.
- The drop tween in `dropBlocks` animates each moved block's node. The model takes the block's grid position to be its new cell at once.

## Findings

| source | as written | input that shows it | evidently intended | confidence | as-written member | corrected member |
|---|---|---|---|---|---|---|
| assets/Scripts/GridManager.ts:143-171 | Both loops of `refillGrid` test `grid[col][row]`, but a new block is written to the grid only when its 0.4 s drop tween ends. Within one pass, every listed position that is still empty is therefore sent to `createNewBlock` twice, once by each loop. | A match in the top row: after `dropBlocks` the matched cell (c, 9) is still empty and is listed in `affectedPositions`. | One new block per empty cell. | not executed | `Refill.DoubleSpawn` (model of the pass: `Refill.SpawnsAsWritten`) | `Refill.RefillGrid` |
