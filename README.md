# CDLOD terrain core, modelled in Dafny

This project models the sequential core of **cdlod**, a browser terrain renderer that draws a height-mapped landscape by continuous distance-dependent level of detail (CDLOD). It covers five pieces.

1. **The LOD quadtree** of `src/quad_tree.ts`.
   - A centre-origin tree is built eagerly down to depth 5.
   - `traverse` walks it in pre-order.
   - `selectNodes` walks it recursively and picks the squares to draw, with their LOD level, from a sphere test, a frustum test and a table of ranges.
   - The tree is a datatype, and the callback calls are a returned sequence of picks.
   - A JavaScript node object is identified by the path of quadrants from the root.
2. **The older corner-origin quadtree** of `src/core/quad_tree.ts`. It is built down to depth 2, and its children partition the parent square.
3. **The tile worker** of `src/core/worker.ts`:
   - the Z-order (Morton) index `calcZOrderCurveValue` over JavaScript's 32-bit bitwise operators;
   - the mapping from a world position to a tile cell;
   - the ring counter `textureIdx++ % maxTextures` that assigns slots of the height atlas, modelled as a class;
   - the tile file name, with an uppercase hexadecimal key zero-padded to eight characters;
   - the decode loop that writes one tile of 65536 heights into its atlas slot while tracking `minY` and `maxY`;
   - the batch loop of the message handler.
4. **The terrains** of `src/terrain.ts` and `src/core/terrain.ts`:
   - the LOD range table each constructor fills;
   - `update`, which copies the selected nodes into the per-instance buffers and sets the draw count;
   - in `src/terrain.ts` only, `loadHeightmap`, which copies a height image with its rows flipped vertically.
5. **The frame loop** `Raf` of `src/core/raf.ts`:
   - a callback list without duplicates, with add, remove and dispose;
   - a pause flag that acts only when its value changes;
   - the frame handler, which clamps the time step and calls the callbacks from the last registered to the first.

Code that changes state is modelled as imperative Dafny. The terrains, the slot counter and the frame loop are classes whose methods name what they modify. The loops are `while` loops with invariants, and each is proved against a specification function. Code that is only recursion or expressions is modelled as datatypes, functions and lemmas: both quadtrees, the Z-order index and the file name.

Three behaviours of the code worth knowing; the model follows the code in each:
- **A tile that cannot be loaded** (src/core/worker.ts:43-70). `loadTileFromFile` resolves its promise only from the loader's success callback, so a missing tile makes the handler wait forever and post nothing. The model's batch result is then `None`.
- **An eye far from the terrain** (src/quad_tree.ts:44-47, src/terrain.ts:60). From the root, a failed sphere test returns `false`, and no caller emits the root. So the selection is empty, and nothing is drawn for that area.
- **`minY`** (src/core/worker.ts:63-64). Because of the `else if`, `minY` is never compared with a height that raised `maxY`. The final `minY` is therefore not always the smallest height. `Worker.ScanMin` states what it is, and `Worker.ScanMinMissesRisingHeights` gives an input where it misses.

## Model

| member | source | states |
|---|---|---|
| QuadTree.Build | src/quad_tree.ts:12-25 | definition: the tree `new Node(x, y, halfSize, level)` builds; below level 5 it has four children of half the half-size, centred that far towards TL, TR, BL and BR, and at level 5 none; properties in QuadTree.BuildWellFormed and QuadTree.WellFormedIsBuild. |
| QuadTree.BuildWellFormed | src/quad_tree.ts:12-25 | The constructor yields a well-formed tree. A node below level 5 has all four children and a node at level 5 has none. Each child has half the half-size and one more level, and its centre is offset by that half-size towards its quadrant (TL, TR, BL, BR). |
| QuadTree.WellFormedIsBuild | src/quad_tree.ts:12-25 | A well-formed tree is exactly the tree the constructor builds from its root's centre, half-size and level. |
| QuadTree.Traverse | src/quad_tree.ts:27-34 | definition: the callback calls of `traverse`, the node first and then the TL, TR, BL and BR subtrees; its contract says the first visit is the node itself; properties in QuadTree.TraverseLength, QuadTree.TraverseWithin and QuadTree.TraverseDistinct. |
| QuadTree.Visit | src/quad_tree.ts:30-33 | definition: `child?.traverse(cb)`, the child's traversal, or no calls for a null child; properties in QuadTree.TraverseLength and QuadTree.TraverseDistinct. |
| QuadTree.TraverseLength | src/quad_tree.ts:27-34 | A well-formed subtree at depth `l` is traversed in (4^(6-l) - 1) / 3 visits: one per node. |
| QuadTree.RootTraverseLength | src/quad_tree.ts:27-34 | From a level-0 root the walk makes 1365 = 1 + 4 + ... + 4^5 visits. |
| QuadTree.TraverseWithin | src/quad_tree.ts:27-34 | For a positive half-size, every node visited from `n` lies strictly inside the square of `n`, no shallower than `n`. |
| QuadTree.TraverseDistinct | src/quad_tree.ts:27-34 | For a positive half-size, the pre-order walk never visits a node twice. |
| QuadTree.QuadPicks | src/quad_tree.ts:59-64 | definition: the four children tagged with the node's level, in the order TL, TR, BL, BR, when all four exist, and nothing otherwise; properties in QuadTree.QuadPicksPrefixFree and QuadTree.SelectNodes. |
| QuadTree.SelectChild | src/quad_tree.ts:78-92 | definition: for one quadrant, the picks of the child's own selection one level down, then the child itself, tagged with the node's level, when that selection returned false; nothing for a null child; properties in QuadTree.SelectPrefixFree, QuadTree.SelectAt, QuadTree.SelectLevels and QuadTree.SelectCount. |
| QuadTree.SelectNodes | src/quad_tree.ts:36-97 | Four cases. A failed sphere test at `ranges[level]` returns false and emits nothing. In range but outside the frustum returns true and emits nothing. At level 0, or when the tighter test at `ranges[level-1]` fails, it emits exactly the four children, TL, TR, BL, BR, tagged with the node's depth, when all four exist, and nothing otherwise. Otherwise it returns true. |
| QuadTree.QuadPicksPrefixFree | src/quad_tree.ts:59-73 | The four children emitted together are distinct, and each lies directly below the node: its path is the node's path plus one quadrant. |
| QuadTree.SelectPrefixFree | src/quad_tree.ts:36-97 | Every emitted node lies strictly below the node the selection starts from. No emitted node is emitted twice or has an emitted ancestor. |
| QuadTree.SelectAt | src/quad_tree.ts:59-92 | Each emitted node is the tree's node at the path it is emitted with. |
| QuadTree.SelectLevels | src/quad_tree.ts:59-92 | Each emitted node is tagged with its parent's depth. That tag is one less than the node's own level. |
| QuadTree.SelectCount | src/quad_tree.ts:36-97 | A selection emits fewer nodes than its subtree holds. |
| QuadTree.SelectFromRoot | src/quad_tree.ts:36-97 | From the root, every pick is a real node of the tree. The root is never emitted, no node is emitted twice or with an emitted ancestor, each carries its parent's depth, and there are fewer picks than the tree has nodes. For a level-0 root that means fewer than 1365 picks, using QuadTree.RootTraverseLength. |
| CoreQuadTree.Build | src/core/quad_tree.ts:7-20 | definition: the tree `new Node(x, y, size, level)` builds; below level 2 it has four children of half the size with corners (x, y), (x+s, y), (x, y+s) and (x+s, y+s), and at level 2 none; properties in CoreQuadTree.BuildWellFormed and CoreQuadTree.WellFormedIsBuild. |
| CoreQuadTree.BuildWellFormed | src/core/quad_tree.ts:7-20 | The constructor yields a well-formed tree. A node below level 2 has all four children and a node at level 2 has none. Each child has half the size and one more level, with corners (x, y), (x+s, y), (x, y+s) and (x+s, y+s). |
| CoreQuadTree.WellFormedIsBuild | src/core/quad_tree.ts:7-20 | A well-formed tree is exactly the tree the constructor builds from its root's corner, size and level. |
| CoreQuadTree.ChildrenPartition | src/core/quad_tree.ts:13-19 | The four half-open child squares are pairwise disjoint. A point is in the parent square exactly when it is in one of them. |
| CoreQuadTree.Traverse | src/core/quad_tree.ts:22-29 | definition: the callback calls of `traverse`, the node first and then the TL, TR, BL and BR subtrees; its contract says the first visit is the node itself; properties in CoreQuadTree.TraverseLength, CoreQuadTree.TraverseSizes, CoreQuadTree.TraverseWithin and CoreQuadTree.TraverseDistinct. |
| CoreQuadTree.Visit | src/core/quad_tree.ts:25-28 | definition: `child?.traverse(cb)`, the child's traversal, or no calls for a null child; properties in CoreQuadTree.TraverseLength and CoreQuadTree.TraverseDistinct. |
| CoreQuadTree.TraverseLength | src/core/quad_tree.ts:22-29 | A well-formed subtree at depth `l` is traversed in (4^(3-l) - 1) / 3 visits. |
| CoreQuadTree.RootTraverseLength | src/core/quad_tree.ts:22-29 | From a level-0 root the walk makes 21 visits. |
| CoreQuadTree.TraverseSizes | src/core/quad_tree.ts:13-19 | Every node below `n` is between the level of `n` and 2. Its size times 2^(depth below `n`) is the size of `n`. |
| CoreQuadTree.RootSizes | src/core/quad_tree.ts:13-19 | Under a level-0 root every node has a level in [0, 2] and size rootSize / 2^level. |
| CoreQuadTree.TraverseWithin | src/core/quad_tree.ts:22-29 | For a positive size, every visited node has its corner inside the square of the start node. |
| CoreQuadTree.TraverseDistinct | src/core/quad_tree.ts:22-29 | For a positive size, the pre-order walk never visits a node twice. |
| TileIndex.SignedRange | src/core/worker.ts:88 | A 32-bit result read as a JavaScript number lies in [-2^31, 2^31). It is negative exactly when bit 31 is set. |
| TileIndex.Part1By1 | src/core/worker.ts:78-81 | definition: the four 32-bit steps that OR the value with itself shifted left by 8, 4, 2 and 1 and then mask it with 0x00ff00ff, 0x0f0f0f0f, 0x33333333 and 0x55555555; properties in TileIndex.Part1By1Bits. |
| TileIndex.ZOrderBits | src/core/worker.ts:74-88 | definition: the 32-bit OR of the spread x with the spread y shifted left by one; properties in TileIndex.ZOrderInterleaves, TileIndex.ZOrderRoundTrip and TileIndex.ZOrderBitsInjective. |
| TileIndex.ZOrder | src/core/worker.ts:74-89 | definition: `calcZOrderCurveValue(x, y)` as the JavaScript number it returns, the 32-bit result read as signed; properties in TileIndex.ZOrderInjective, TileIndex.ZOrderSign and TileIndex.ZOrderExamples. |
| TileIndex.Part1By1Bits | src/core/worker.ts:78-86 | The four mask-and-shift steps move bit i of a 16-bit value to bit 2i and clear every odd bit. |
| TileIndex.ZOrderInterleaves | src/core/worker.ts:74-89 | For coordinates below 2^16, bit 2i of the index is bit i of x, and bit 2i+1 is bit i of y. |
| TileIndex.ZOrderRoundTrip | src/core/worker.ts:74-89 | Gathering the even bits, then the odd bits, of the index gives back x and y. |
| TileIndex.ZOrderBitsInjective | src/core/worker.ts:74-89 | Distinct cells with coordinates below 2^16 have distinct 32-bit indices. |
| TileIndex.ZOrderInjective | src/core/worker.ts:74-89 | Distinct cells with coordinates below 2^16 have distinct indices as JavaScript numbers. |
| TileIndex.ZOrderSign | src/core/worker.ts:74-89 | For coordinates in [0, 2^16), the index is non-negative exactly when y < 2^15. |
| TileIndex.ZOrderExamples | src/core/worker.ts:74-89 | z(3, 5) = 39, z(5, 3) = 27 and z(0, 0) = 0. |
| TileIndex.TileSize | src/core/worker.ts:16-17 | The halving loop yields 16384 / 2^level, or 16384 for a negative level. |
| TileIndex.TileCoord | src/core/worker.ts:19-20 | definition: `Math.floor((x + 8192) / tileSize)`, the grid cell of a world coordinate; properties in TileIndex.TileCoordInRange and TileIndex.TileCoordCell. |
| TileIndex.TileCoordInRange | src/core/worker.ts:19-20 | For a coordinate in [-8192, 8192), the tile cell at a level lies in [0, 2^level). |
| TileIndex.TileCoordCell | src/core/worker.ts:19-20 | A coordinate in cell c lies in [c * tileSize - 8192, (c + 1) * tileSize - 8192). |
| TileKey.NumberToString | src/core/worker.ts:44-45 | definition: `n.toString(radix)` for an integer, a '-' sign before the digits of a negative number; properties in TileKey.DigitsRoundTrip and TileKey.HexLength. |
| TileKey.ToUpperCase | src/core/worker.ts:44 | The definition of `toUpperCase` on ASCII: it keeps the length and capitalises exactly the lower-case letters. TileKey.UpperCaseRoundTrip and TileKey.HexKeyDigits state what that means for the key. |
| TileKey.PadStart | src/core/worker.ts:44 | A string at least as long as the width is unchanged. A shorter one gets width minus its length copies of the fill character in front. |
| TileKey.DigitsRoundTrip | src/core/worker.ts:44-45 | The digits `toString(radix)` writes read back as the number. |
| TileKey.UpperCaseRoundTrip | src/core/worker.ts:44 | Upper-casing does not change the value of the hexadecimal digits. |
| TileKey.LeadingZeros | src/core/worker.ts:44 | Zero padding does not change the value. |
| TileKey.HexLength | src/core/worker.ts:44 | A number below 16^k has at most k hexadecimal digits. |
| TileKey.HexKey | src/core/worker.ts:44 | definition: `tileIdx.toString(16).toUpperCase().padStart(8, '0')`; properties in TileKey.HexKeyDigits and TileKey.HexKeyRoundTrip. |
| TileKey.FileName | src/core/worker.ts:45 | definition: `../assets/terrain/5${level}${idxInHex}.hght`; properties in TileKey.FileNameRoundTrip and TileKey.ParseNameParts. |
| TileKey.HexKeyDigits | src/core/worker.ts:44 | The key of a non-negative index consists of '0'..'9' and 'A'..'F' only. |
| TileKey.HexKeyRoundTrip | src/core/worker.ts:44 | For 0 <= tileIdx < 2^32 the key has exactly eight characters and reads back as tileIdx. |
| TileKey.FileNameRoundTrip | src/core/worker.ts:44-45 | The file name of a non-negative level and an index below 2^32 reads back as that level and index. So distinct tiles load distinct files. |
| TileKey.ParseNameParts | src/core/worker.ts:45 | Prefix, decimal level, eight-character key and suffix split back into their parts. |
| Worker.SlotAllocator.constructor | src/core/worker.ts:4 | The counter starts at 1. |
| Worker.SlotAllocator.Next | src/core/worker.ts:28 | Returns the old counter modulo 500, which is in [0, 500), and increments the counter. |
| Worker.SlotInRange | src/core/worker.ts:5 | Every slot is in [0, 500). |
| Worker.FirstSlot | src/core/worker.ts:4-5 | The first request gets slot 1. |
| Worker.SlotsDistinct | src/core/worker.ts:4-5 | Any 500 consecutive requests get pairwise distinct slots. |
| Worker.CounterSlotsDistinct | src/core/worker.ts:4-5 | From any counter value, requests fewer than 500 places apart get distinct slots. |
| Worker.SlotsRepeat | src/core/worker.ts:4-5 | The slots repeat with period 500, so the 501st request gets the first request's slot. |
| Worker.Samples | src/core/worker.ts:46 | The bytes decode to 16-bit samples exactly when their number is even. There are then half as many samples, each in [0, 65536). |
| Worker.Height | src/core/worker.ts:59 | definition: sample i times 800 / 65535, or NaN past the end of the samples; properties in Worker.HeightRange. |
| Worker.Track | src/core/worker.ts:63-64 | definition: one update of the extremes, `maxY` on a larger height, else `minY` on a smaller one, and no change for NaN; properties in Worker.ScanMax, Worker.ScanMin and Worker.ScanMinMissesRisingHeights. |
| Worker.Scan | src/core/worker.ts:48-65 | definition: the extremes after the loop has read the heights, starting from `minY = 800` and `maxY = 0`; properties in Worker.ScanMax, Worker.ScanMin and Worker.DecodeTile. |
| Worker.DecodeTile | src/core/worker.ts:48-65 | The loop writes height i at index `texIdx * 65536 + i` (when that index is inside the buffer) and nothing else. It returns the extremes that `Scan` defines. |
| Worker.ScanMax | src/core/worker.ts:48-64 | The final `maxY` is max(0, all heights): an upper bound of every height, and 0 or one of the heights. |
| Worker.ScanMin | src/core/worker.ts:48-64 | The final `minY` is at most 800, and is 800 or one of the heights. It is at most every height that did not raise `maxY` when read. |
| Worker.ScanMinMissesRisingHeights | src/core/worker.ts:63-64 | For the heights 10, 20 the final `minY` stays 800. |
| Worker.HeightRange | src/core/worker.ts:59 | A height decoded from a 16-bit sample lies in [0, 800]. |
| Worker.SlotsDisjoint | src/core/worker.ts:53 | The buffer ranges of two distinct slots are disjoint. |
| Worker.WritesDoNotInterfere | src/core/worker.ts:51-61 | Decoding into one slot changes no index outside it. A later decode into another slot leaves its heights intact. |
| Worker.Load | src/core/worker.ts:16-27 | definition: the 16-bit samples of the file named after the request's level and Z-order tile index, or `None` when the file is missing or has an odd byte length; properties in Worker.ServeRequest, Worker.LoadsAt and Worker.RunShape. |
| Worker.Step | src/core/worker.ts:23-30 | definition: one pass of the loop body; it takes a slot and, when the tile loads, writes it into that slot and appends its response, and once a load has failed it changes nothing; properties in Worker.ServeRequest, Worker.RunAfterFailure and Worker.RunShape. |
| Worker.Run | src/core/worker.ts:10-34 | definition: the handler's progress after the requests in order, each one a `Step`; properties in Worker.RunShape, Worker.RunAfterFailure, Worker.HandleBatch and Worker.BatchTilesIntact. |
| Worker.RunAfterFailure | src/core/worker.ts:23-29 | Once a load has failed, the handler never resolves, and later requests change nothing. |
| Worker.ServeRequest | src/core/worker.ts:14-30 | One pass of the loop body. It takes the next slot, then loads the tile. If the tile decodes, it writes it into that slot and returns the response. It returns `None` when the file is missing or does not decode. |
| Worker.HandleBatch | src/core/worker.ts:10-34 | The handler's result, the slots it takes and the height buffer it leaves are those of the specification `Run` over the requests. |
| Worker.BatchTilesIntact | src/core/worker.ts:10-34 | After a batch of at most 500 requests that all load, the slot of the k-th request still holds that request's tile. No later write of the batch overwrites an earlier one, and the buffer keeps its length. |
| Worker.LoadsAt | src/core/worker.ts:17-27 | Element k of `Loads` is the tile that request k loads. |
| Worker.RunShape | src/core/worker.ts:11-33 | The handler answers exactly when every tile loads. The answer then has one response per request, in request order. Each response carries the request's level and position, the k-th slot of the counter and the extremes of its tile. |
| Common.Reversed | src/terrain.ts:60 | The copy `[...s].reverse()` has the length of `s`, and element k is `s[|s|-1-k]`. |
| Terrain.LodRange | src/terrain.ts:24 | definition: `128 * 2^(1 + 4 - i)`; properties in Terrain.FillLodRanges, Terrain.LodRangeValues and Terrain.LodRangeHalves. |
| Terrain.FillLodRanges | src/terrain.ts:21-25 | The loop yields five ranges with `ranges[i] = 128 * 2^(5-i)`. |
| Terrain.LodRangeValues | src/terrain.ts:21-25 | The table is [4096, 2048, 1024, 512, 256]. |
| Terrain.LodRangeHalves | src/terrain.ts:24 | Each range is twice the next one, so the table strictly decreases. |
| Terrain.ReversedLodRanges | src/terrain.ts:60 | The reversed copy has `rev[k] = 256 * 2^k` and is increasing. |
| Terrain.NewTree | src/terrain.ts:19 | `new QuadTree(0, 0, 1024)` gives a well-formed level-0 tree centred at (0, 0) with half-size 1024. |
| Terrain.Terrain.constructor | src/terrain.ts:14-54 | Builds the tree, the range table, 2000 identity transforms (scale 1, as a new `InstancedMesh` holds), a `lodLevel` buffer of 2000 zeros, and sets `grid.count = 1`. |
| Terrain.Terrain.Update | src/terrain.ts:56-80 | Leaves `lodRanges` and the tree unchanged and selects with the reversed table from level 4. Pick i goes into instance i, with position (x, 0, y), scale `halfSize * 2` and the emitted level as `lodLevel`. Later instances are unchanged. `grid.count` becomes the number of picks, and that number never exceeds the 2000 instances. |
| Terrain.InstanceOf | src/terrain.ts:65-72 | definition: the transform of a selected node, at (x, 0, y) with scale (halfSize * 2, 1, halfSize * 2); properties in Terrain.Terrain.Update. |
| Terrain.LodLevelOf | src/terrain.ts:74 | definition: the level the selection emitted with the node; properties in Terrain.Terrain.Update. |
| Terrain.LoadHeightmap | src/terrain.ts:83-100 | The buffer holds, at `y * width + x`, sample `(height - y - 1) * width + x` divided by 65535. The nested loops write every index of the image exactly once, in ascending order. |
| Terrain.Flipped | src/terrain.ts:89-98 | definition: the whole float image, index j holding the sample at the row-flipped index divided by 65535; properties in Terrain.LoadHeightmap. |
| Terrain.CopyRow | src/terrain.ts:92-95 | The inner loop fills row y, extending the filled prefix from `y * width` to `(y + 1) * width`. |
| Terrain.FlipIndex | src/terrain.ts:93 | definition: `(height - y - 1) * width + x` for `j = y * width + x`, the same column with the row mirrored; properties in Terrain.FlipInRange, Terrain.FlipInvolution and Terrain.FlipInjective. |
| Terrain.FlipInRange | src/terrain.ts:93 | The row flip maps every index of the image into the image. |
| Terrain.FlipInvolution | src/terrain.ts:93-94 | Flipping twice gives the index back, so the flip is a bijection of the image. |
| Terrain.FlipInjective | src/terrain.ts:93-94 | Distinct destination indices read distinct source indices. |
| CoreTerrain.LodRange | src/core/terrain.ts:22 | definition: `128 * 2^(4 - i)`; properties in CoreTerrain.FillLodRanges, CoreTerrain.LodRangeValues, CoreTerrain.LodRangeHalves and CoreTerrain.HalfOfTerrainRange. |
| CoreTerrain.FillLodRanges | src/core/terrain.ts:19-23 | The loop yields five ranges with `ranges[i] = 128 * 2^(4-i)`. |
| CoreTerrain.LodRangeValues | src/core/terrain.ts:19-23 | The table is [2048, 1024, 512, 256, 128]. |
| CoreTerrain.LodRangeHalves | src/core/terrain.ts:22 | Each range is twice the next one, so the table strictly decreases. |
| CoreTerrain.HalfOfTerrainRange | src/core/terrain.ts:22 | Every range is half the range at the same index of `src/terrain.ts`. |
| CoreTerrain.ReversedLodRanges | src/core/terrain.ts:51 | The reversed copy has `rev[k] = 128 * 2^k` and is increasing. |
| CoreTerrain.NewTree | src/core/terrain.ts:17 | `new QuadTree(0, 0, 1024)` gives a well-formed level-0 corner-origin tree at (0, 0) of size 1024. |
| CoreTerrain.Terrain.constructor | src/core/terrain.ts:12-47 | Builds the tree, the range table, 2000 identity transforms (scale 1, as a new `InstancedMesh` holds), a `lodLevel` buffer of 2000 zeros, and sets `grid.count = 1`. |
| CoreTerrain.InstanceOf | src/core/terrain.ts:58-65 | definition: the transform of a node, at (x, 0, y) with scale (NaN, 1, NaN), since the node has no `halfSize`; properties in CoreTerrain.Terrain.Update. |
| CoreTerrain.Terrain.Update | src/core/terrain.ts:57-72 | Node i goes into instance i, with position (x, 0, y) and the node's own `level` as `lodLevel`; the scale is NaN. With at most 2000 nodes, `grid.count` becomes their number. With more, the write of the 2001st `lodLevel` throws, and the count keeps its value. The first 2000 instances keep what was written. |
| Raf.IndexOf | src/core/raf.ts:18 | `indexOf` is -1 exactly when the callback is absent. Otherwise it is the first position holding it. |
| Raf.Added | src/core/raf.ts:17-20 | definition: the list after `add`, the callback pushed when `indexOf` does not find it; properties in Raf.AddedProps, Raf.RemoveUndoesAdd and Raf.Raf.Add. |
| Raf.Removed | src/core/raf.ts:26-29 | definition: the list after `remove`, the element `indexOf` finds spliced out; properties in Raf.RemovedProps, Raf.RemovedIsWithout, Raf.RemoveUndoesAdd and Raf.Raf.Remove. |
| Raf.AddedProps | src/core/raf.ts:17-20 | Adding keeps the list duplicate-free and puts the callback in, and nothing else. Adding a present callback, or adding twice, changes nothing. |
| Raf.RemovedProps | src/core/raf.ts:26-29 | Removing keeps the list duplicate-free and takes out exactly that callback. Removing an absent callback changes nothing. |
| Raf.RemovedIsWithout | src/core/raf.ts:26-29 | On a duplicate-free list, `remove` is the filter that drops the callback and keeps the order of the others. |
| Raf.RemoveUndoesAdd | src/core/raf.ts:17-29 | Removing a callback just added to a list that lacked it gives the list back. |
| Raf.ReversedNoDuplicates | src/core/raf.ts:58-60 | The reverse dispatch order has the same callbacks, without duplicates. |
| Raf.Delta | src/core/raf.ts:52-56 | definition: `time - lastTime`, capped at 250; properties in Raf.DeltaClamp and Raf.Raf.Update. |
| Raf.DeltaClamp | src/core/raf.ts:52-56 | The time step is `time - lastTime` unless that exceeds 250, and then it is 250. A callback never gets more than 0.25. |
| Raf.Raf.constructor | src/core/raf.ts:7-11 | Starts paused, with `lastTime = 0`, no callbacks and no frame requested. |
| Raf.Raf.Add | src/core/raf.ts:17-20 | The list becomes `Added(old list, callback)`: the callback is pushed only when `indexOf` misses it. It stays duplicate-free and the other fields are unchanged. |
| Raf.Raf.Remove | src/core/raf.ts:26-29 | The list becomes `Removed(old list, callback)`: the callback is gone. It stays duplicate-free and the other fields are unchanged. |
| Raf.Raf.Dispose | src/core/raf.ts:34-38 | Cancels the frame, empties the list and pauses. |
| Raf.Raf.SetPause | src/core/raf.ts:43-48 | Sets `paused`. On a change, pausing cancels the frame and unpausing requests one. Setting the same value changes nothing. |
| Raf.Raf.Update | src/core/raf.ts:50-63 | Requests the next frame. It calls every registered callback exactly once, from the last registered to the first, with the clamped step times 0.001 and `time`. Then `lastTime` becomes `time`, and the list and the pause flag are unchanged. |

## Left out

- three.js geometry is left out. The box-sphere and box-frustum intersection tests of `Box3`, `Sphere` and `Frustum` are floating-point library code, so `QuadTree.SelectNodes` takes them as parameters. The node's `aabb` is never assigned after it is created, and the model does not give it a value.
- Rendering objects are left out. `Matrix4.compose` with an identity rotation becomes a plain `Instance` of position and scale. `InstancedMesh` and `InstancedBufferAttribute` become two arrays and a count. Materials, shaders, colours and `needsUpdate` flags are left out entirely.
- Floating point is modelled by exact reals, with `NaN` as a separate value. Rounding to single precision in `Float32Array` is not modelled.
- File I/O, promises and worker messaging are left out. The file loader becomes a parameter `files` from names to bytes. `postMessage` becomes the returned result. `DataTexture` and `TextureLoader` are left out. `Terrain.LoadHeightmap` takes the decoded 16-bit samples as input.
- `Uint16Array` decodes bytes as little-endian here. The host byte order is assumed, not modelled.
- Worker.HandleBatch: models one message handler running alone. Every message starts its own async handler. While one waits at the `await` of src/core/worker.ts:23, another can take slots from the same `textureIdx`. So the k-th response gets slot (counter + k) % 500 (`Worker.RunShape`) only when batches do not overlap.
- Worker.HandleBatch: each request carries its own `buffer` in the source, but the model writes every tile into one shared height buffer. Any 500 consecutive requests get distinct slots, and distinct slots are disjoint ranges, so in a batch of up to 500 requests no write overwrites another (`Worker.BatchTilesIntact`).
- TileKey.FileNameRoundTrip: stated for non-negative indices below 2^32. A negative index, which `calcZOrderCurveValue` returns once y >= 2^15, is written with a '-' sign (`TileKey.NumberToString`), but no round trip is proved for it.
- TileIndex.ZOrderInjective: stated over the 32-bit images of the coordinates. For integer coordinates outside [0, 2^16) the interleave is not injective, and no claim is made.
- The selection in `src/core/terrain.ts` is not modelled. It calls a `selectNodes` that `src/core/quad_tree.ts` does not define, so `CoreTerrain.Terrain.Update` takes the selected nodes as input. As written, that call throws a TypeError (`selectNodes` is not a function), so the copy loop is never reached and `grid.count` stays 1. The model describes the copy loop as if the call had returned nodes. The node there has `size`, not `halfSize`, so the scale is NaN.
- `requestAnimationFrame` and `cancelAnimationFrame` are reduced to the flag `frameScheduled`. The frame handle `raf` and the browser's timing are not modelled.
- Raf.Raf.Update: returns the calls it makes instead of running them. A callback that adds or removes callbacks while the loop runs is not modelled.
- Raf.Raf.Update: treats `lastTime || 0.0` as `lastTime`. Times are reals, so the NaN case of `||` cannot arise.
- The UI overlays, window, camera, renderer and controls wiring and the build configuration are outside the modelled core. These are `src/stats.ts`, `src/render_stats.ts`, `src/world.ts`, `src/core/world.ts`, `src/main.ts`, `src/core/scene.ts` and `vite.config.ts`.
