# Tile-map generator: wave-function-collapse step and tile extraction

This project models the two algorithmic cores of a small browser tile-map
generator and proves properties of them.

1. **The wave-function-collapse solver** (`index.js`). The output is a square
   grid of tiles. Each tile carries a candidate list (its "entropy"), a
   collapsed flag and links to its four cardinal neighbours. A rule table says,
   for every tile type, its weight and which types may sit next to it in each
   direction. One generation step does three things:
   - it picks an uncollapsed tile with the shortest candidate list, breaking
     ties with a random index;
   - it collapses that tile to one candidate chosen by weight;
   - it filters the candidate lists of its uncollapsed neighbours against the
     chosen type's rule, one hop only.
2. **The tile extractor of the image worker** (`worker.js`). It cuts an RGBA
   pixel buffer into `tileWidth × tileHeight` blocks, scanning block rows top
   to bottom and blocks left to right. It keeps the first copy of every
   distinct block.

Modules:
- `Rules` (`rules.dfy`): tile types, rules, the shipped rule table and its
  properties.
- `Grid` (`grid.dfy`): the map as `seq<seq<Tile>>` indexed `[y][x]`,
  `generateEmptyMap`, and the link and counting lemmas.
- `Solver` (`solver.dfy`): lowest-entropy selection and the weighted pick.
- `Step` (`step.dfy`): filtering, the collapse step, what the step preserves,
  and the `Generator` class that holds the map and runs one step at a time.
- `TileDedup` (`tiles.dfy`): `getTileData`, `compareTiles` and the
  scan-and-deduplicate loop of `computeTileMap`.
- `Arith` (`arith.dfy`): multiplication as repeated addition (`Mul`) and the
  small arithmetic facts the index proofs use.

How the model represents the source:
- **Random numbers.** Each value of `Math.random()` is a caller-supplied
  `Draw(num, den)` with `num < den`, an exact rational in [0, 1).
  - The tie-breaking index is `floor(num * len / den)`.
  - The weighted comparison `random * totalWeight < cumulativeWeight` becomes
    `num * totalWeight < cumulativeWeight * den`.
- **Neighbour links.** A link is the neighbour's position, not an object
  reference.
- **Candidate filtering.** `filter(... includes ...)` is `Filter`, an
  order-preserving filter.
- **The `Generator` class.** Its field `tiles` is the map that the source's
  in-place field writes update.
- **The generation loop.** `Generator.Iteration` is one call of `iteration`.
  The timer loop around it is driven from outside.
  - The constructor gives `Unresolved() == size * size`.
  - Each `Collapsed` step lowers `Unresolved()` by one.
  - `Done` is returned exactly when `Unresolved()` is 0.
  - Together these give the `size × size` termination bound.

## Model

| member | source | states |
|---|---|---|
| Rules.ShippedAllowed | index.js:54-70 | each shipped rule uses one neighbour list in all four directions: land allows [land, coast], coast allows [coast, land, sea], sea allows [sea, coast] |
| Rules.ShippedWellFormed | index.js:54-70 | in the shipped table rule `t` describes type `t`, every weight is 1, and every listed neighbour type and every initial candidate has a rule |
| Rules.ShippedSymmetric | index.js:54-70 | in the shipped table, `a` allows `b` in direction `d` exactly when `b` allows `a` in the opposite direction |
| Rules.ShippedCoastEverywhere | index.js:56-69 | coast is in every allowed list of the shipped table |
| Grid.GenerateEmptyMap | index.js:140-162 | the result is `size × size`; every tile is uncollapsed with candidates `[land, coast, sea]`, records its own position, and links to exactly the adjacent positions (none beyond the border) |
| Grid.WireOne | index.js:151-158 | wiring tile `(x, y)` with the links the loop computes extends the row-major prefix of wired tiles by that tile and leaves the rest bare |
| Grid.LinksAreMutual | index.js:151-158 | on a linked map, following a link and then the opposite link leads back to the tile (`north.south == tile`, `east.west == tile`) |
| Grid.LinkFollowsPosition | index.js:151-158 | a link equals the adjacent position: north exists iff `y > 0`, south iff `y < size - 1`, west iff `x > 0`, east iff `x < size - 1` |
| Grid.LinkedKept | index.js:93-103 | changing only candidate lists and collapsed flags keeps every position and link |
| Grid.CountUpdate | index.js:94 | replacing one tile changes the number of collapsed tiles only by the change of that tile's flag, and keeps the number of tiles |
| Grid.CountBound | index.js:171 | at most every tile is collapsed, and all are exactly when the count equals the number of tiles |
| Grid.SquareSize | index.js:143-149 | a square map of side `size` has `size * size` tiles |
| Solver.Pick | index.js:180 | `floor(random * len)` is a valid index of a non-empty list |
| Solver.LastIsHit | index.js:198-203 | with positive weights and a draw below 1, the cumulative weight of the whole list exceeds the scaled draw, so the walk always stops on a non-empty list |
| Solver.WeightedTile | index.js:184-205 | the result is the smallest index whose cumulative weight exceeds `random * totalWeight`, or 0 when there is none (in particular for an empty list); with positive weights it is a valid index exactly when the list is non-empty |
| Solver.LowestEntropy | index.js:165-181 | the cohort is exactly the uncollapsed tiles of minimal candidate count, in row-major order; the result is the cohort member the draw selects; it is none exactly when every tile is collapsed; otherwise it is uncollapsed and no uncollapsed tile has a shorter list |
| Solver.ScanRow | index.js:169-177 | after row `y` the kept list is the lowest-entropy cohort of all tiles in rows `0..y` |
| Solver.CohortMembers | index.js:174-180 | the cohort is empty exactly when every tile is collapsed; each member is uncollapsed and minimal |
| Solver.LowestExists | index.js:174 | once the scan has passed an uncollapsed tile, the cohort is not empty |
| Solver.ScanStep | index.js:170-176 | one scanned tile keeps the kept list the cohort of all tiles scanned so far |
| Solver.ScanSkip | index.js:171 | skipping a collapsed tile keeps the cohort |
| Solver.ScanFirst | index.js:174 | the first uncollapsed tile starts the cohort |
| Solver.ScanLower | index.js:175 | a strictly shorter list replaces the cohort by that tile alone |
| Solver.ScanTie | index.js:176 | an equally short list joins the cohort at its end |
| Solver.ScanHigher | index.js:173-176 | a longer list leaves the cohort unchanged |
| Solver.RowDone | index.js:168-169 | finishing row `y` is the same as reaching the start of row `y + 1` |
| Step.Filter | index.js:100-103 | the filtered list holds exactly the candidates that are also allowed, is no longer, and is unchanged when every candidate is allowed |
| Step.FilterTyped | index.js:100-103 | filtering keeps every candidate a type with a rule |
| Step.Propagate | index.js:100 | only the linked neighbour changes, and only when it is uncollapsed, its list becoming the filter of its old list; every other tile is unchanged |
| Step.AfterCollapseOk | index.js:92-103 | every tile after a step keeps its position and links; a collapsed tile holds one candidate; candidates still have rules |
| Step.CollapseAt | index.js:92-103 | the four sequential neighbour updates after setting the tile give, at each position, the tile-by-tile result `AfterCollapse`: the tile becomes `[v]`, an adjacent uncollapsed tile is filtered by `v`'s rule for that direction, and everything else is unchanged |
| Step.CollapseTiles | index.js:92-103 | the step keeps the map's shape, and every tile is as `AfterCollapse` describes |
| Step.CollapseKeepsGrid | index.js:92-103 | a step keeps the map linked, candidates typed, and collapsed tiles with exactly one candidate |
| Step.CollapseShrinks | index.js:92-103 | each candidate list only shrinks: its new list is drawn from its old one and is no longer |
| Step.CollapseIsLocal | index.js:100-103 | tiles other than the chosen one and its four neighbours are unchanged, collapsed tiles are unchanged, and the collapsed tiles afterwards are those before plus the chosen one |
| Step.PropagateCount | index.js:100-103 | filtering a neighbour changes neither the number of collapsed tiles nor the number of tiles |
| Step.CollapseCount | index.js:92-103 | collapsing an uncollapsed tile raises the collapsed count by exactly one |
| Step.CollapseKeepsAllowedEverywhere | index.js:100-103 | a type allowed next to everything stays a candidate of every uncollapsed tile |
| Step.CollapseConsistent | index.js:100-103 | with a symmetric table, each candidate a neighbour keeps allows the chosen type back in the opposite direction |
| Step.FilterConsistent | index.js:100-103 | with a symmetric table, filtering typed candidates by `v`'s rule in direction `d` keeps only types that allow `v` back in the opposite direction |
| Step.OpenTileNotEmpty | index.js:92 | while an initial type allowed everywhere is kept, no uncollapsed tile has an empty list |
| Step.CollapseKeepsValid | index.js:92-103 | a step at an uncollapsed tile with a candidate keeps the map valid and adds one collapsed tile |
| Step.ZeroCount | index.js:27 | a map of uncollapsed tiles has no collapsed tile to count |
| Step.Generator.constructor | index.js:85 | a generator starts valid, on the empty map, with `size * size` unresolved tiles |
| Step.Generator.FilterNeighbour | index.js:100 | the map after one neighbour update is `Propagate` of the old map |
| Step.Generator.CollapseTile | index.js:92-103 | the map after setting the tile and the four neighbour updates is `Collapse` of the old map |
| Step.Generator.Iteration | index.js:88-103 | `Done` exactly when every tile is collapsed, map unchanged; otherwise the tile collapsed is the member of the lowest-entropy cohort that the `select` draw picks (the cohort entry at `floor(select * length)`), the value is its candidate at the smallest index whose cumulative weight exceeds `weigh * totalWeight`, the map becomes `Collapse` of the old map and one fewer tile is unresolved; `Contradiction` only at an empty list and never when an initial type is allowed everywhere; validity is kept |
| TileDedup.SourceBound | worker.js:55-58 | every byte of a block that lies inside the image is read from inside the pixel buffer |
| TileDedup.Block | worker.js:50-51 | a block of `tileWidth × tileHeight` pixels is `tileWidth * tileHeight * 4` bytes long |
| TileDedup.SourceAt | worker.js:55-56 | byte `i` of pixel `(x, y)` of a block comes from `y` rows below the block's first row and `x` pixels in |
| TileDedup.BlockAt | worker.js:53-60 | output index `(y * tileWidth + x) * 4 + i` of the block holds the byte at source index `((startY + y) * width + startX + x) * 4 + i`, and both indices are in range |
| TileDedup.GetTileData | worker.js:50-64 | the copied buffer has `tileWidth * tileHeight * 4` bytes and equals the block at `(startX, startY)` |
| TileDedup.SameBytesIsEquality | worker.js:66-76 | pointwise comparison is equality of byte sequences, so it is reflexive, symmetric and transitive |
| TileDedup.CompareTiles | worker.js:66-76 | true exactly when the lengths agree and every byte agrees, that is, when the two buffers are equal |
| TileDedup.RowOfBlocks | worker.js:30-31 | a block row contributes exactly `rows` blocks |
| TileDedup.Scanned | worker.js:26-31 | exactly `floor(width / tileWidth) * floor(height / tileHeight)` whole blocks are scanned |
| TileDedup.RowOfBlocksAt | worker.js:30-31 | entry `x` of block row `y` is the block whose top-left pixel is `(x * tileWidth, y * tileHeight)` |
| TileDedup.ScannedNext | worker.js:29-30 | scanning one more block row appends that row's blocks |
| TileDedup.BlockInBounds | worker.js:31 | every whole block of the scan lies inside the buffer |
| TileDedup.DedupMembers | worker.js:33-43 | keeping first occurrences loses no scanned block and invents none, and keeps at most as many as were scanned |
| TileDedup.DedupDistinct | worker.js:33-43 | no two kept blocks are equal |
| TileDedup.DedupOrder | worker.js:29-45 | kept blocks appear in the order of their first occurrence in the scan |
| TileDedup.DedupStep | worker.js:41-43 | a scanned block is appended exactly when no equal block was kept before |
| TileDedup.ScanStep | worker.js:31-43 | one pass of the inner loop body turns the kept list for the blocks before column `x` into the kept list for those up to column `x` |
| TileDedup.IsUnique | worker.js:33-39 | the flag is true exactly when no kept tile equals the new one |
| TileDedup.ComputeTileMap | worker.js:26-47 | the result is the scan with duplicates removed: a block is kept exactly when it was scanned, no two kept blocks are equal, they are at most the number of scanned blocks, and every read is within the buffer |
| TileDedup.ScanBlocks | worker.js:29-45 | the outer loop's kept list is the deduplicated scan of all block rows |
| TileDedup.ScanBlockRow | worker.js:30-44 | the inner loop extends the kept list by the new distinct blocks of one block row, in order |
| TileDedup.ScanFitsImage | worker.js:26-27 | whole blocks that fit in a `width × height` image lie inside its `width * height * 4`-byte buffer |

## Left out

- The DOM and canvas work (`drawMap`, the buttons, image loading): presentation and browser I/O.
- The `setTimeout`/`clearTimeout` driver: scheduling, not logic. A caller repeats `Generator.Iteration` until it returns `Done` or `Contradiction`.
- The worker's `onmessage`, `fetch`, `createImageBitmap`, `OffscreenCanvas` and `getImageData` (worker.js:1-24): foreign asynchronous browser APIs. The pixel buffer, width and height are inputs.
- `Math.random()` is a caller-supplied rational `Draw`. Floating-point rounding of `random * length` and `random * totalWeight` is not modelled, and neither is the fairness of the distribution.
- `Rules.Rule`: weights are natural numbers, as in the shipped table. The texture coordinates are render keys the solver never reads.
- `Grid.Tile`: neighbour links are positions, not object references, so aliasing between tiles is not modelled. `Step.Generator` holds the map as a value that each update reassigns.
- `Step.Generator.Iteration`: when the chosen tile has an empty list, the source stores `[undefined]` in it and marks it collapsed. It then throws at the first of index.js:100-103 whose neighbour exists and is uncollapsed (`rules[undefined]`); with no such neighbour, `drawMap` throws at index.js:128 when index.js:105 calls it. The model returns `Contradiction` and leaves the map unchanged. For the shipped table this case cannot occur: coast is allowed everywhere.
- `Step.Generator.constructor` requires a well-formed rule table. The source does not check one, and `Rules.ShippedWellFormed` proves the shipped table is.
- `Grid.GenerateEmptyMap`: the side is a parameter, where the source uses the constant `outputSize` (10). The map is square, as in the source.
- `Solver.LowestEntropy` and `Solver.ScanRow`: the outer scan bound is the number of rows `|m|` (index.js:168) and the inner bound is the row's length (index.js:169), where the source uses `outputSize` for both. The two agree on every map the generator builds.
- `TileDedup.ComputeTileMap` requires positive tile dimensions. With a zero dimension the source divides by zero and its loop bound becomes `Infinity`.
- `TileDedup.GetTileData`: `Uint8ClampedArray` clamping never applies, because every value copied is already a byte. Bytes are integers 0..255.
- `TileDedup.ComputeTileMap`: the source's unused `tile_hashes` array is not modelled.
- Helper methods: `ScanRow`, `ScanBlocks`, `ScanBlockRow`, `IsUnique`, `FilterNeighbour` and `CollapseTile` are the source's inner loops and statement groups as separate methods. The statements and their order are the source's.
