# pi_math core, modelled in Dafny

This project models the core of the `pi_math` Rust workspace and proves properties of it. It covers six files:

- `cg/src/octree.rs`: a loose octree spatial index. Entries hang in intrusive doubly linked lists. The lists hang off a cell's own list, off one of its eight slots, or off the global outer list. Cells live in one arena, entries in another. Slots either hold a list or a child cell together with the number of entries beneath it. Dirty bits and a per-layer queue decide which slots `collect` splits or merges.
- `cg/src/rect_map.rs`: a guillotine rectangle packer over an arena of nodes.
- `cg2d/src/lib.rs`: point-in-triangle and point-in-quadrilateral classification by cross-product signs.
- `src/hash.rs`: fixed-width byte hashes.
- `polygon/src/lib.rs` and `polygon/src/grad_analy.rs`: the index and list helpers of the polygon crate.

Each source file becomes one or more Dafny modules:

| Dafny files | modules | source |
|---|---|---|
| `slab.dfy` | `Slab` | the `slab` arena both imperative files use |
| `octree.dfy` | `Octree` (class `Tree`) | `Tree` and its public methods |
| `octree_geometry.dfy` | `OctreeGeometry` | boxes, `intersects`, `calc_layer`, octants, `check_contain` |
| `octree_state.dfy`, `octree_lists.dfy`, `octree_counts.dfy`, `octree_steps.dfy` | `OctreeState`, `OctreeLists`, `OctreeCounts`, `OctreeSteps` | cell and entry records, the tree invariant, `NodeList::push` |
| `octree_dirty.dfy` | `OctreeDirty` | `set_dirty`, `set_tree_dirty` |
| `octree_down.dfy`, `octree_update.dfy`, `octree_relink.dfy` | `OctreeDown`, `OctreeUpdate`, `OctreeRelink` | `down`, `update`, `remove_add`, `remove_up`, `NodeList::remove` |
| `octree_split.dfy`, `octree_grow.dfy` | `OctreeSplit`, `OctreeGrow` | `create_child`, `split_down`, `fix_prev` |
| `octree_gather.dfy`, `octree_shrink.dfy` | `OctreeGather`, `OctreeShrink` | `shrink`, `shrink_merge`, freeing the merged cells |
| `octree_collect.dfy` | `OctreeCollect` | `collect`, `split` |
| `octree_query.dfy` | `OctreeQuery` | `query`, `query_outer`, `collision`, `collision_list` |
| `rect_map.dfy` | `RectMap` (class `RectMap`) | the whole file |
| `cg2d.dfy` | `Cg2d` | the whole file |
| `hash.dfy` | `Hash` | the hash types |
| `polygon.dfy` | `Polygon` | the index helpers of `polygon/src/lib.rs` |
| `grad_analy.dfy` | `GradAnaly` | the index helpers of `polygon/src/grad_analy.rs` |

The two arena-based files are imperative in the source, and so is the model:

- `Octree.Tree` and `RectMap.RectMap` are classes. Their arenas are `map` fields that the methods update.
- The octree's internal functions (`down`, `update`, `remove_add`, `remove_up`, `collect`, `shrink`, `split_down`, `fix_prev`, `query`) are methods over the arena values. Each is proved against ghost functions: the lists every owner holds, the ancestor sets of the cells, and the placement and count invariants.
- Loops stay loops. Recursion with mutation stays recursion.

The tree invariant `OctreeState.Inv`, which `Octree.Tree.Valid` wraps, states the following:

- every entry is in exactly one list;
- each list's `len` equals its length;
- forward and backward links agree;
- each slot's count equals the number of entries beneath its child cell;
- each entry fits the cell or octant it hangs in;
- the cells form a tree of nested loose boxes.

Every public operation keeps this invariant. `OctreeState.DirtyOk` ties the dirty count to the queue, and `OctreeState.MaskQueued` says that every cell with a dirty slot waits in the queue, so `collect` ends with every mask clean. The second holds only with the sibling-slot report restored (see "## Findings").

The scalar of the octree, the packer and the classifiers is an unbounded `int`. Rust's truncating division is written out. `f32` keys of the polygon crate are `real` without NaN; only comparisons are made on them.

## Model

| member | source | states |
|---|---|---|
| Slab.Fresh | cg/src/octree.rs:132 | the key a slab insertion hands out is positive and not in use |
| Slab.FreshLeast | cg/src/octree.rs:132 | every positive key below the handed-out key is in use, so it is the least free key and the first key of an empty slab is 1 |
| Slab.FreshOfEmpty | cg/src/octree.rs:72 | the first record put in an empty slab gets key 1, the key the root is later fetched with |
| Cg2d.SignScan | cg2d/src/lib.rs:19-54 | reference rule of both classifiers: a zero first product gives `Boundary`; `Inner` exactly when every later product has the first one's strict sign; `Outer` only when some later product has the opposite strict sign |
| Cg2d.Decide3 | cg2d/src/lib.rs:19-54 | the nested branches of `include_tri2` over its three products agree with the reference rule |
| Cg2d.Decide4 | cg2d/src/lib.rs:64-113 | the nested branches of `include_quad2` over its four products agree with the reference rule |
| Cg2d.IncludeTri2 | cg2d/src/lib.rs:13-55 | `include_tri2` answers as the reference rule over the products `(p-p1)x(p-p2)`, `(p-p2)x(p-p3)`, `(p-p3)x(p-p1)` in that order; see also Cg2d.TriInnerIffSameSign and Cg2d.TriVerticesAreBoundary |
| Cg2d.IncludeQuad2 | cg2d/src/lib.rs:57-111 | `include_quad2` answers as the reference rule over the four products of consecutive corner vectors, closing with `(p-p4)x(p-p1)`; see also Cg2d.QuadInnerIffSameSign and Cg2d.QuadVerticesAreBoundary |
| Cg2d.TriZeroFirstIsBoundary | cg2d/src/lib.rs:19-20 | a zero first product `(p-p1)x(p-p2)` classifies the point as `Boundary` |
| Cg2d.TriInnerIffSameSign | cg2d/src/lib.rs:19-51 | `include_tri2` answers `Inner` if and only if the three products share one strict sign |
| Cg2d.TriVerticesAreBoundary | cg2d/src/lib.rs:15-26 | each vertex of the triangle classifies as `Boundary` |
| Cg2d.QuadInnerIffSameSign | cg2d/src/lib.rs:57-110 | `include_quad2` answers `Inner` if and only if the four products share one strict sign |
| Cg2d.QuadVerticesAreBoundary | cg2d/src/lib.rs:59-94 | the first three vertices of the quadrilateral classify as `Boundary`, and the fourth does when the first two products do not have opposite signs |
| Hash.Size | src/hash.rs:146-148 | `size()` is 4, 20, 32 or 64, and 32 for `H256` |
| Hash.Zeros | src/hash.rs:11 | the zero array has the width's length and only zero bytes |
| Hash.Default | src/hash.rs:9-13 | `default()` has the right length and every byte zero |
| Hash.FromByte | src/hash.rs:55-61 | `From<u8>` puts `v` at byte 0 and zero everywhere else |
| Hash.FromSlice | src/hash.rs:41-47 | `From<&[u8]>` copies the first N bytes of the slice |
| Hash.FromStr | src/hash.rs:63-77 | parsing succeeds exactly when the decoder returns N bytes, and then holds those bytes; decoder errors pass through; a wrong length is `InvalidHexLength` |
| Hash.Reverse | src/hash.rs:140-144 | byte `i` of the result is byte `n-1-i` of the input |
| Hash.Reversed | src/hash.rs:140-144 | `reversed()` keeps the type and reverses the bytes |
| Hash.ReversedTwice | src/hash.rs:140-144 | reversing twice gives the hash back |
| Hash.IsZero | src/hash.rs:150-152 | `is_zero()` holds exactly when every byte is 0 |
| Hash.DefaultIsZero | src/hash.rs:9-13 | the default hash is zero |
| Hash.FromByteIsZeroIff | src/hash.rs:55-61 | `from(v)` is zero exactly when `v` is 0 |
| Hash.Compare | src/hash.rs:113-119 | slice comparison reports `Equal` exactly for equal byte sequences |
| Hash.Eq | src/hash.rs:105-111 | `eq` holds exactly for equal hashes |
| Hash.CompareFlip | src/hash.rs:113-119 | swapping the operands flips the ordering |
| Hash.CompareTransitive | src/hash.rs:113-119 | the ordering is transitive |
| Hash.ZeroIsLeast | src/hash.rs:113-119 | the zero hash is never greater than another hash of its width |
| Hash.FromStaticStr | src/hash.rs:49-53 | `From<&'static str>` on a string that parses holds the decoded bytes |
| Hash.FromReversedStr | src/hash.rs:453-457 | `from_reversed_str` holds the decoded bytes in reverse order |
| Hash.ToHex | src/hash.rs:135-137 | `to_hex()` writes two lower-case hex digits per byte, the high nibble first, so character `2i` and `2i+1` are the digits of byte `i` |
| Hash.ToHexIsHex | src/hash.rs:135-137 | the text `to_hex()` writes is well-formed hex of exactly its bytes: every digit reads back as the nibble it was written from |
| Hash.Display | src/hash.rs:85-89 | the display text of a hash is well-formed hex of its bytes |
| Hash.ToReversedStr | src/hash.rs:459-462 | `to_reversed_str` is twice as long as the hash, and characters `2i` and `2i+1` are the hex digits of byte `n-1-i`, so the last byte is written first |
| Hash.ReversedStrRoundTrip | src/hash.rs:453-462 | reading a reversed string and writing it back reversed gives the hex text of the decoded bytes |
| Hash.ReversedStrParse | src/hash.rs:453-462 | for any decoder that turns well-formed hex text into its bytes, `from_reversed_str` of `to_reversed_str` of an `H256` parses and gives the hash back |
| Hash.DisplayParseRoundTrip | src/hash.rs:63-89 | for any decoder that turns well-formed hex text into its bytes, parsing the display of a hash gives `Ok` of the same hash |
| Polygon.FanTriangles | polygon/src/lib.rs:810-823 | the fan of `n >= 2` indices has `3(n-2)` entries and triangle `k` is `(ix[0], ix[k+1], ix[k+2])` |
| Polygon.FanUsesInputIndices | polygon/src/lib.rs:814-818 | every index the fan emits is one of the polygon's indices |
| Polygon.ToTriangle0 | polygon/src/lib.rs:810-823 | the loop of `to_triangle_0` builds exactly the fan |
| Polygon.ToTriangle | polygon/src/lib.rs:127-131 | `to_triangle` keeps the output so far and appends the fan |
| Polygon.MultToTriangle | polygon/src/lib.rs:133-139 | `mult_to_triangle` appends the polygons' fans in order |
| Polygon.FansLength | polygon/src/lib.rs:133-139 | a polygon of `n` indices contributes `n-2` triangles to the output |
| Polygon.ScaleLevel | polygon/src/lib.rs:858-868 | the level becomes 4, 8 or 16: 4 for a level up to 4, 16 above 8, never below a level up to 16, and never more than double the input above 4 |
| Polygon.ArcSegmentsSpanQuarter | polygon/src/lib.rs:849-857 | the table for a scaled level `l` has `l+1` evenly spaced steps from 0 to 16, and every `VEC_ARR` lookup made with it is within the 34 entries |
| Polygon.CutU16 | polygon/src/lib.rs:798 | a loop bounded by `len() as u16` walks the first `len % 65536` elements, which is the whole list when it is shorter than 65536 |
| Polygon.FillVec | polygon/src/lib.rs:796-807 | `fill_vec` keeps the list as a prefix and appends `value` until the length read `as u16` reaches `size`; a list shorter than 65536 ends at length `size`, or unchanged when it was already that long |
| Polygon.CopyBlock | polygon/src/lib.rs:785-791 | the copy loop writes `data[..size]` at offset `size*index` and changes no other position |
| Polygon.InsertVec | polygon/src/lib.rs:776-794 | `insert_vec` zero-pads until the length read `as u16` reaches `size*(index+1)` (for a list shorter than 65536, to that length), writes the block at `size*index`, and keeps every other position |
| Polygon.IsBetween | polygon/src/lib.rs:1160-1171 | for distinct ends, `is_between` holds exactly on the closed span without the end `b`; for equal ends, exactly at that point |
| Polygon.IsBetweenBothWays | polygon/src/lib.rs:1160-1171 | read both ways, the test covers the closed span, and it holds both ways exactly strictly inside it |
| Polygon.FindPreNextGradDirect | polygon/src/lib.rs:1173-1197 | `nxt` is the first stop above `value` (the last stop when none is) and `pre = nxt-1`; fewer than two stops or a first stop above `value` underflow |
| Polygon.BracketUnique | polygon/src/lib.rs:1173-1197 | the bracketing contract leaves one answer per input |
| Polygon.BracketEnclosesValue | polygon/src/lib.rs:1173-1197 | the returned pair brackets `value`, unless `value` lies past every stop |
| Polygon.SplitIndices | polygon/src/lib.rs:30-35 | the index loop emits `0 .. count-1`, each cast to `u16` |
| GradAnaly.GradKeys | polygon/src/grad_analy.rs:429 | the keys compared by the bracket search are the stops' `GRAD_DIRECT` fields, one per stop in order |
| GradAnaly.AsI16 | polygon/src/grad_analy.rs:454 | a cast `as i16` keeps the value modulo 65536 in the range -32768..32767, and changes nothing already in that range |
| GradAnaly.ResortSrcPoint | polygon/src/grad_analy.rs:449-468 | the first loop copies the points from the start index up to `(count - 1) as i16` (nothing when that is below the start) and the second those before the start; below 32768 points this is the list rotated left by the start index |
| GradAnaly.RotationInverse | polygon/src/grad_analy.rs:449-468 | the rotation keeps every point exactly once, and rotating by the complementary amount restores the original list |
| GradAnaly.LineIndexPairs | polygon/src/grad_analy.rs:471-516 | edge i joins point i to point i+1 for every i below `(count - 1) as u16`, and one more edge closes the ring from that index back to point 0; up to 65536 points this is one edge per point |
| GradAnaly.LinePairsRing | polygon/src/grad_analy.rs:471-516 | every point starts exactly one edge and ends exactly one, the one from its predecessor around the ring |
| GradAnaly.FindPreNextGradDirect | polygon/src/grad_analy.rs:422-446 | over the `GRAD_DIRECT` fields of the first `count as u16` stops the result is an adjacent pair whose upper stop is the first one above the target (or the last searched stop when none is), with every earlier stop at most the target; the `u16` index underflows exactly when fewer than two stops are searched or the first stop is above the target |
| GradAnaly.Directs | polygon/src/grad_analy.rs:774-776 | the keys the result points are ordered by are their `POINT_DIRECT` fields |
| GradAnaly.FirstAtLeast | polygon/src/grad_analy.rs:772-782 | the inner scan finds the first listed point whose key is at least the new one's, or -1 when every listed key is smaller |
| GradAnaly.ResortStepAsWritten | polygon/src/grad_analy.rs:769-788 | one outer step as written, with the `<= 0` test that appends when the found position is 0; the list only ever holds point indexes |
| GradAnaly.InsertAt | polygon/src/grad_analy.rs:787 | `Vec::insert` puts the element at the position, keeps the elements before it and shifts those after it by one |
| GradAnaly.ResortResultPointsAsWritten | polygon/src/grad_analy.rs:760-794 | the whole ordering as written: a list of indexes of the points |
| GradAnaly.ResortAsWrittenUnsorted | polygon/src/grad_analy.rs:784 | with directions [1.0, 0.0] the code as written returns [0, 1], which is not ordered by direction |
| GradAnaly.ResortStep | polygon/src/grad_analy.rs:769-788 | with the corrected `< 0` test a step adds the new index once to the list |
| GradAnaly.ResortSpec | polygon/src/grad_analy.rs:760-794 | the corrected ordering of the first n points lists only point indexes |
| GradAnaly.ResortStepSorted | polygon/src/grad_analy.rs:769-788 | a corrected step keeps a list ordered by direction ordered |
| GradAnaly.ResortSortedPermutation | polygon/src/grad_analy.rs:760-794 | the corrected ordering is ordered by direction and holds each of the indexes 0..n-1 exactly once |
| GradAnaly.FirstAtLeastIs | polygon/src/grad_analy.rs:772-782 | any position with the first-at-least property is the one the scan returns |
| GradAnaly.FirstAtLeastFrom | polygon/src/grad_analy.rs:772-782 | the same uniqueness for a scan that starts part-way through the list |
| GradAnaly.ResortSpecStep | polygon/src/grad_analy.rs:784-788 | the corrected ordering of n+1 points appends the new index when the scan found none and otherwise inserts it at the found position |
| GradAnaly.ResortResultPoints | polygon/src/grad_analy.rs:760-794 | the two nested loops, with the corrected test, compute the ordering specified above (sorted by direction, a permutation of the indexes) |
| GradAnaly.Range | polygon/src/grad_analy.rs:766 | the indexes visited by the outer loop are 0..n-1 in order |
| GradAnaly.SortAsc | polygon/src/grad_analy.rs:821 | `Vec::sort` returns an ascending rearrangement of the same indexes |
| GradAnaly.InsertAsc | polygon/src/grad_analy.rs:821 | inserting one index into an ascending list keeps it ascending and adds that index once |
| GradAnaly.InsertAscCons | polygon/src/grad_analy.rs:821 | inserting behind a smaller head keeps the head first, the list ascending and the contents right |
| GradAnaly.SortedUnique | polygon/src/grad_analy.rs:821 | two ascending lists with the same contents are equal, so the sorted result does not depend on how it was sorted |
| GradAnaly.BandsPartition | polygon/src/grad_analy.rs:807-885 | the three selector tests (below the minimum stop, from the minimum up to the maximum stop, above the maximum stop) never both hold, and together cover every direction except one equal to the maximum stop |
| GradAnaly.Select | polygon/src/grad_analy.rs:800-812 | the selected indexes are exactly the listed source points whose direction passes the band test |
| GradAnaly.SelectMultiset | polygon/src/grad_analy.rs:800-812 | each selected index occurs as often as it occurs in the order list when its point passes, and not at all otherwise |
| GradAnaly.SelectionOrderIrrelevant | polygon/src/grad_analy.rs:821-823 | because the selection is sorted before triangulating, any reordering of the ordered list gives the same index list |
| GradAnaly.SelectLoop | polygon/src/grad_analy.rs:798-812 | the selection loop collects the selection specified above over the first `len() as u16` ordered indexes, in list order |
| GradAnaly.AnalyTrianglesPoints | polygon/src/grad_analy.rs:905-915 | the loop appends to the output the triangle fan of the first `len() as u16` indexes, anchored at the first index; `count - 1` underflows exactly when that count is 0 |
| GradAnaly.AnalyTrianglesLowerMin | polygon/src/grad_analy.rs:797-824 | the output grows by the fan of the sorted list of the scanned source points below the minimum stop plus the stop's own result points, each list read up to its length `as u16`; it underflows exactly when the sorted list's `u16` count is 0 |
| GradAnaly.AnalyTrianglesBetweenMinMax | polygon/src/grad_analy.rs:827-872 | the output grows by the fan of the sorted list of the scanned source points in the band plus both stops' result points, each list read up to its length `as u16`; it underflows exactly when the sorted list's `u16` count is 0 |
| GradAnaly.AnalyTrianglesBigMax | polygon/src/grad_analy.rs:875-902 | the output grows by the fan of the sorted list of the scanned source points above the maximum stop plus the stop's result points, each list read up to its length `as u16`; it underflows exactly when the sorted list's `u16` count is 0 |
| RectMap.AlignUp | cg/src/rect_map.rs:243-246 | rounding one side up gives the least multiple of the alignment not below it |
| RectMap.AlignSize | cg/src/rect_map.rs:242-251 | `align_size` returns an aligned size that holds the request and exceeds it by less than one alignment step on each axis |
| RectMap.AlignUpBelow | cg/src/rect_map.rs:242-251 | the rounded side is the least aligned value holding the request: it stays within any aligned bound of the request |
| RectMap.AlignSizeWithin | cg/src/rect_map.rs:56-98 | a request that fits an aligned free leaf still fits it once aligned, so the left child `add` cuts never overflows the leaf |
| RectMap.InsideDisjoint | cg/src/rect_map.rs:58-99 | a rectangle inside one of two disjoint rectangles is disjoint from the other: the fact that keeps placements apart |
| RectMap.TileCover | cg/src/rect_map.rs:58-99 | the left, right and bottom children of a split node cover every point of it |
| RectMap.Packed | cg/src/rect_map.rs:215-227 | in a well-formed map every placed rectangle lies inside the root, its node has the aligned size of the rectangle, and two placed rectangles never overlap |
| RectMap.RootCountsAll | cg/src/rect_map.rs:43-49 | the root's count covers every placed rectangle, and a free root means none is placed |
| RectMap.FindNode | cg/src/rect_map.rs:255-287 | a found node is a free leaf at or below the start node, the returned area and position are that leaf's, and the request fits the area |
| RectMap.FindNodeComplete | cg/src/rect_map.rs:255-287 | the depth-first search fails only when no free leaf under the start node can hold the request |
| RectMap.Lookup | cg/src/rect_map.rs:111-119 | `get` answers exactly for ids that hold a rectangle, with that rectangle's size and its node's position |
| RectMap.PlaceLookup | cg/src/rect_map.rs:91-93 | storing a rectangle in a free leaf makes that id answer with the size and the leaf's position and changes no other answer |
| RectMap.SplitLookup | cg/src/rect_map.rs:58-100 | splitting a leaf adds the new left child as the only new answer, holding the request at the leaf's position; every other answer and the map size stay |
| RectMap.PlaceCounts | cg/src/rect_map.rs:91-104 | after filling a leaf in place, only the counts on the path above it are one short, which `incr_count` then settles |
| RectMap.ClearCounts | cg/src/rect_map.rs:121-130 | after clearing a rectangle, only the counts on the path above it are one too many, and the root never holds a rectangle itself |
| RectMap.SplitCounts | cg/src/rect_map.rs:91-104 | after a split, the split node's count is 1 and only the counts above it are one short |
| RectMap.RecountChain | cg/src/rect_map.rs:290-333 | adjusting one count on the path moves the remaining discrepancy to the node's parent |
| RectMap.PlaceOk | cg/src/rect_map.rs:91-104 | filling a leaf whose size is already the aligned request keeps the tree's shape and geometry, leaving only the path counts to settle |
| RectMap.ClearOk | cg/src/rect_map.rs:121-130 | clearing a rectangle keeps the tree's shape and geometry, leaving only the path counts to settle |
| RectMap.SplitOk | cg/src/rect_map.rs:58-104 | splitting a free leaf into the aligned left child plus right and bottom strips keeps the tree's shape and geometry, leaving only the path counts to settle |
| RectMap.RecountOk | cg/src/rect_map.rs:290-301 | changing only counts keeps the tree's shape and geometry |
| RectMap.RecountLookup | cg/src/rect_map.rs:290-301 | changing only counts changes no answer of `get` and not the map size |
| RectMap.CollapseSteps | cg/src/rect_map.rs:316-331 | freeing the node and removing its left, right and bottom children as written is the collapse step |
| RectMap.CollapseContents | cg/src/rect_map.rs:316-331 | collapsing a node whose last rectangle went keeps every placed rectangle and its node unchanged |
| RectMap.CollapseOk | cg/src/rect_map.rs:316-331 | collapsing a node whose last rectangle went keeps the tree's shape and geometry, and its parent still has one count too many |
| RectMap.DecountStep | cg/src/rect_map.rs:312-314 | taking one off a count above 1 keeps the map well formed and moves the excess to the parent |
| RectMap.Defrag | cg/src/rect_map.rs:305-333 | the walk up from the parent restores a well-formed map with the same placed rectangles, unchanged, and the same map size |
| RectMap.Incr | cg/src/rect_map.rs:290-301 | the walk up from the parent settles the counts and restores a well-formed map, changing nothing but counts |
| RectMap.SameButCountTrans | cg/src/rect_map.rs:290-301 | two count-only changes in a row are a count-only change |
| RectMap.Place | cg/src/rect_map.rs:51-109 | `add` returns 0 exactly when no free leaf can hold the request, leaving the map as it was; otherwise the returned id is new, answers with the request at the found leaf's position, no other answer changes, the map stays well formed and its size stays |
| RectMap.GrowSteps | cg/src/rect_map.rs:160-209 | the strips, the new left node holding the old root's children, the reparenting and the new root, applied in order as written, are the grow step |
| RectMap.GrowContents | cg/src/rect_map.rs:160-209 | growing a split root keeps every placed rectangle with its size and position |
| RectMap.GrowOk | cg/src/rect_map.rs:160-209 | growing a split root to an aligned size that holds it gives a well-formed map of that size with the same answers for every id |
| RectMap.GrowLeaf | cg/src/rect_map.rs:153-156 | a free root is the only node, and resizing it to an aligned size keeps the map well formed and empty |
| RectMap.GrowRoot | cg/src/rect_map.rs:160-210 | the method for the split-root case computes a well-formed map of the new size with the same answers for every id |
| RectMap.SameContentsLookup | cg/src/rect_map.rs:111-119 | two maps that hold the same rectangles at the same positions give the same answers |
| RectMap.InsideRoot | cg/src/rect_map.rs:34-37 | every placed rectangle lies within the map size |
| RectMap.ExtendsSize | cg/src/rect_map.rs:138-147 | the grown size is the least size holding both the old size and the aligned request |
| RectMap.GrowAsWritten | cg/src/rect_map.rs:161-209 | the split-root branch of `extends` as written: the new root takes the aligned request as its size, and the new left node keeps the old root's size |
| RectMap.ExtendsAsWrittenBreaksTiling | cg/src/rect_map.rs:154-208 | a 512 by 512 map with one rectangle, extended as written to 256 by 1024, gets a root narrower than its left child, so its children no longer tile it |
| RectMap.RectMap.constructor | cg/src/rect_map.rs:19-32 | `new` gives an empty map whose size is the aligned requested size, with the given alignment |
| RectMap.RectMap.GetSize | cg/src/rect_map.rs:34-37 | `get_size` is the root's size, and every placed rectangle lies within it |
| RectMap.RectMap.Count | cg/src/rect_map.rs:43-49 | `count` is the number of placed rectangles |
| RectMap.RectMap.Get | cg/src/rect_map.rs:111-119 | `get` answers exactly for ids that hold a rectangle, with its size and position |
| RectMap.RectMap.IncrCount | cg/src/rect_map.rs:290-301 | `incr_count` settles the one-short counts on the path and changes nothing but counts |
| RectMap.RectMap.AttemptDefrag | cg/src/rect_map.rs:305-333 | `attempt_defrag` restores a well-formed map with the same placed rectangles and map size |
| RectMap.RectMap.Add | cg/src/rect_map.rs:51-109 | `add` returns 0 exactly when no free leaf holds the request, changing nothing; otherwise the new id answers with the request at the leaf's position, no other answer changes and the size stays |
| RectMap.RectMap.Remove | cg/src/rect_map.rs:121-132 | `remove` returns the size and position `get` gave, after which the id no longer answers; no other answer changes and the size stays |
| RectMap.RectMap.ExtendsSplitRoot | cg/src/rect_map.rs:160-210 | the split-root half of `extends` grows the map to the given size and keeps every answer |
| RectMap.RectMap.Extends | cg/src/rect_map.rs:134-211 | `extends` reports growth exactly when the aligned request does not fit the old size, and otherwise changes nothing; a free root takes the aligned request as its size, as written, even where it is smaller on one axis; a split root grows to the per-axis maximum of the old size and the aligned request; every answer is kept |
| Octree.LooseRatio | cg/src/octree.rs:66-67 | the kept loose ratio is positive and at most `LOOSE_MAX`; 0 gives the default `LOOSE` and an in-range ratio is kept as given |
| Octree.RootLoose | cg/src/octree.rs:68-70 | the root's loose value is non-negative and at most half of the root's extent on each axis |
| Octree.DeepLimit | cg/src/octree.rs:73-77 | the depth limit is positive and at most `DEEP_MAX`; an in-range request is kept as given |
| Octree.MaxDeep | cg/src/octree.rs:78-87 | the loop settles on the deepest layer up to the limit whose loose value, and every shallower one, is positive on all three axes, and stops early only at a layer whose next loose value is not |
| Octree.Adjust | cg/src/octree.rs:91-105 | the thresholds are positive with merge at most split; a given merge threshold is kept, a given split threshold is kept unless below it, and a valid pair is kept as given |
| Octree.InvRoot | cg/src/octree.rs:71-115 | a tree with only the empty root cell and no entry satisfies the whole invariant |
| Octree.Tree.constructor | cg/src/octree.rs:58-116 | `Tree::new` builds a valid tree whose settings are the ones computed above, with the root cell alone, no entry, an empty outer list and an empty dirty queue |
| Octree.Tree.GetLayer | cg/src/octree.rs:126-128 | the layer of a box is one where the box fits under the loose value of every shallower layer, and the deepest such: a box with some positive extent does not fit under the loose value of its own layer; a point gets layer 64, `usize::MAX`'s bit length |
| Octree.Tree.Get | cg/src/octree.rs:160-165 | `get` answers exactly for live ids, with the entry's box and bind |
| Octree.Tree.GetUnchecked | cg/src/octree.rs:167-170 | for a live id, `get_unchecked` gives what `get` gives |
| Octree.Hang | cg/src/octree.rs:133-152 | a new entry goes outside the tree exactly when it neither lies in nor touches the root; when the root contains it, it hangs in a cell whose box contains it |
| Octree.InvHang | cg/src/octree.rs:133-156 | hanging the new entry at the head of its list and pointing the old head back to it restores the invariant |
| Octree.AddedBy | cg/src/octree.rs:130-158 | the records after `add` are the old ones plus the new entry, with only the old head's backward link changed |
| Octree.AddEntry | cg/src/octree.rs:130-158 | `add` on the tree's values keeps the invariant and the dirty queue's bookkeeping and adds the entry as described; every dirty cell stays queued |
| Octree.Tree.Add | cg/src/octree.rs:130-158 | `add` keeps the tree valid, hands out a free key, stores the box, bind and layer, hangs the entry outside exactly when it misses the root and inside a containing cell when the root contains it, and changes no other record but the old head's backward link |
| Octree.LiveLayer | cg/src/octree.rs:131 | every live entry's layer is the layer of its box |
| Octree.InvReattach | cg/src/octree.rs:779-804 | after `update` moved an entry to the head of a new list, everything but its old list's links and the new list's old head already satisfies the invariant |
| Octree.InvDetach | cg/src/octree.rs:785-802 | unlinking the moved entry from its old list and pointing the new list's old head back to it restores the invariant |
| Octree.RelinkedBy | cg/src/octree.rs:785-802 | unlinking and relinking change only links: the moved entry keeps its new record but for links, every other entry its old one |
| Octree.Reattach | cg/src/octree.rs:779-804 | `remove_add` after a reported move restores the invariant and changes only links besides the moved record |
| Octree.UpdateEntry | cg/src/octree.rs:172-191 | (corrected) `update` on the tree's values keeps the invariant and the dirty queue's bookkeeping; the entry gets its new box and layer and only links of others change; every dirty cell stays queued; when the entry stays (OctreeUpdate.Stays) the cells, the outer list, every list, the dirty queue and every other record are unchanged |
| Octree.Tree.Update | cg/src/octree.rs:172-191 | `update` reports true exactly for a live id and then gives the entry the new box and the layer of that box, keeping every other record but its links and every cell; when the entry still fits where it hangs, the cells, lists and dirty queue are unchanged and only its record changes; an unknown id changes nothing |
| Octree.Tree.Shift | cg/src/octree.rs:193-211 | `shift` reports true exactly for a live id and moves its box by the distance, keeping its layer; otherwise as `update`, including the unchanged cells, lists and dirty queue when the entry still fits; an unknown id changes nothing |
| Octree.InvBind | cg/src/octree.rs:213-221 | a new bind keeps the invariant |
| Octree.Tree.UpdateBind | cg/src/octree.rs:213-221 | `update_bind` reports true exactly for a live id, changes only that entry's bind, and changes nothing for an unknown id |
| Octree.InvDeleted | cg/src/octree.rs:224-243 | the list a deleted entry hung in exists and is non-empty, and its neighbours are live |
| Octree.RemovedBy | cg/src/octree.rs:224-243 | deleting an entry and unlinking it changes only the links of the others |
| Octree.RemoveEntry | cg/src/octree.rs:223-246 | `remove` on the tree's values keeps the invariant and the dirty queue's bookkeeping, returns the entry's box and bind, and deletes only that record; every dirty cell stays queued |
| Octree.Tree.Remove | cg/src/octree.rs:223-246 | `remove` of a live id keeps the tree valid, returns its box and bind, deletes that entry and changes only links of the others |
| Octree.CollectLayer | cg/src/octree.rs:259-268 | collecting the cells queued at one layer keeps the invariant, loses no entry, keeps every box and bind, turns no clean cell dirty and leaves every collected cell clean |
| Octree.CollectVec | cg/src/octree.rs:259-268 | collecting one layer's vector keeps the invariant and every entry, and every dirty cell queued from that layer on stays queued from the next layer on |
| Octree.CollectAll | cg/src/octree.rs:248-277 | `collect` does nothing with an empty queue; otherwise it keeps the invariant, loses no entry, and leaves every queued vector empty, the count 0 and no lowest layer; when every dirty cell was queued, every cell ends clean |
| Octree.Tree.Collect | cg/src/octree.rs:248-277 | (corrected) the method form: a valid tree with every entry, box and bind kept, an empty dirty queue and no dirty cell left |
| Octree.QueuedFromMin | cg/src/octree.rs:253 | starting at the lowest recorded layer skips no queued cell |
| Octree.QueuedPast | cg/src/octree.rs:259-269 | once a layer's vector is collected, every dirty cell waits in a later vector |
| Octree.QueuedNone | cg/src/octree.rs:270-272 | stopping when the count is used up leaves no dirty cell, since every later vector is empty |
| Octree.Tree.Query | cg/src/octree.rs:280-296 | `query` visits exactly the entries of the walk from the root under the octant predicate, each a live entry hanging in a cell |
| Octree.Tree.QueryOuter | cg/src/octree.rs:298-309 | `query_outer` visits the outer list in order, which holds exactly the live entries that hang outside the tree |
| Octree.Tree.Collision | cg/src/octree.rs:312-337 | `collision` of an unknown id visits nothing; otherwise the root's own list, then the entries after the id in its list, then those before it, nearest first |
| OctreeGeometry.Shift | cg/src/octree.rs:196 | a shifted box keeps its size and is well formed exactly when the original is |
| OctreeGeometry.Half | cg/src/octree.rs:477-482 | halving by `/ two` truncates toward zero: the result is within one half of the exact value, on the side of zero |
| OctreeGeometry.HalfMono | cg/src/octree.rs:477-482 | halving keeps order |
| OctreeGeometry.OctantOf | cg/src/octree.rs:483-509 | each choice of low or high side on the three axes names exactly one of the eight octants |
| OctreeGeometry.AxisCover | cg/src/octree.rs:477-482 | on one axis, an interval inside the cell no longer than the loose value lies wholly on the low or wholly on the high side |
| OctreeGeometry.AxisInside | cg/src/octree.rs:477-482 | a side of a cell lies inside the cell and is at least half the loose value long |
| OctreeGeometry.Octant | cg/src/octree.rs:477-509 | the octant box `check_contain`, `down`, `split_down`, `query` and `create_child` build lies inside its cell and has room for the halved loose value whenever the cell's loose value fits it, so a created child meets the same condition as its parent |
| OctreeGeometry.FirstOctant | cg/src/octree.rs:608-642 | the first octant, in the order `down` tries them, that contains the box, or 8 when none does |
| OctreeGeometry.OctantCover | cg/src/octree.rs:608-642 | a box inside a cell and no larger than its loose value always fits some octant |
| OctreeGeometry.CheckContain | cg/src/octree.rs:470-561 | `check_contain` keeps the current slot when its octant contains the box (or falls back to 3), returns 9 exactly when the cell does not contain the box, and otherwise names an octant inside a cell that contains it |
| OctreeGeometry.CheckContainSound | cg/src/octree.rs:470-561 | for a contained box small enough for the loose value, the named slot's octant really contains the box: the fallback 3 is right |
| OctreeGeometry.CheckContainStay | cg/src/octree.rs:661-663 | a small box kept in its slot lies in that slot's octant |
| OctreeGeometry.BitLen | cg/src/octree.rs:467 | `64 - leading_zeros` is the number of significant bits: the value lies between the matching powers of two |
| OctreeGeometry.BitLenMono | cg/src/octree.rs:467 | a larger value never has fewer significant bits |
| OctreeGeometry.BitLenAbove | cg/src/octree.rs:467 | more than k significant bits means at least 2 to the k |
| OctreeGeometry.CalcLayer | cg/src/octree.rs:448-468 | `calc_layer` gives a layer of at most 64, and layer 0 exactly when the box is longer than the loose value on some axis; see also OctreeGeometry.CalcLayerMono, OctreeGeometry.LayerSmall, OctreeGeometry.LayerTight and OctreeGeometry.LayerPoint |
| OctreeGeometry.RatioZero | cg/src/octree.rs:450-465 | a per-axis ratio is 0 exactly when the extent exceeds the loose value |
| OctreeGeometry.CalcLayerMono | cg/src/octree.rs:450-468 | a larger box never gets a deeper layer |
| OctreeGeometry.LooseStep | cg/src/octree.rs:907 | halving a layer's loose value gives the next layer's |
| OctreeGeometry.LayerSmall | cg/src/octree.rs:450-468 | a box whose layer is deeper than k is no larger than the loose value of layer k, which lets `down` move it below a cell of layer k |
| OctreeGeometry.LayerTight | cg/src/octree.rs:450-468 | a box with some positive extent does not fit under the loose value of its own layer, so no deeper layer would do |
| OctreeGeometry.LayerPoint | cg/src/octree.rs:450-468 | a box with no extent gets layer 64: every ratio is `usize::MAX`, whose bit length is 64 |
| OctreeGeometry.MinPositive | cg/src/octree.rs:466 | the smallest of the three ratios belongs to an axis with a positive extent, when there is one |
| OctreeGeometry.RatioBound | cg/src/octree.rs:451-455 | a ratio is `usize::MAX` for a zero extent and at most that otherwise |
| OctreeGeometry.LayerAxisTight | cg/src/octree.rs:467 | an extent whose ratio to the loose value is below `2^k` is larger than the loose value halved `k` times |
| OctreeGeometry.Pow2Word | cg/src/octree.rs:467 | `2^64` is one more than `usize::MAX`, the 64 bits of `size_of::<usize>() << 3` |
| OctreeGeometry.BitLenOnes | cg/src/octree.rs:467 | `k` one bits have bit length `k` |
| OctreeState.NewCell | cg/src/octree.rs:390-416 | a new cell has eight empty slot lists, an empty own list and a clean mask |
| OctreeLists.UnlinkAbs | cg/src/octree.rs:356-368 | `NodeList::remove` changes only the links of the predecessor and the successor |
| OctreeLists.LinkedPush | cg/src/octree.rs:351-354 | pushing an entry linked to the old head gives a linked list one longer, with the old head's backward link left stale |
| OctreeLists.LinkedFixHead | cg/src/octree.rs:153-156 | pointing the second entry back to the head repairs its stale link |
| OctreeLists.LinkedUnlink | cg/src/octree.rs:356-368 | removing the entry at a position gives the linked list without it, one shorter |
| OctreeLists.NextChainIsDistinct | cg/src/octree.rs:341-344 | a chain of forward links that ends in 0 visits no entry twice |
| OctreeDirty.SetDirty | cg/src/octree.rs:838-845 | the mask gains exactly the slot's bit, and the cell is reported with its layer exactly when the mask was clean |
| OctreeDirty.SetDirtyOnce | cg/src/octree.rs:838-845 | a cell is reported at most once until its mask is cleared |
| OctreeDirty.SetTreeDirty | cg/src/octree.rs:848-863 | nothing for a 0 id; otherwise the count grows by one, the lowest layer drops to the reported layer if needed, the queue is padded with empty vectors up to it and the id is appended there, keeping the count equal to the queued ids; every queued cell stays queued and a reported cell is queued afterwards |
| OctreeDirty.QueuedAfter | cg/src/octree.rs:848-863 | a step that turns only the reported cell dirty, followed by reporting it, keeps every dirty cell in the queue |
| OctreeDirty.QueuedMark | cg/src/octree.rs:838-863 | rewriting one cell keeps every dirty cell queued when the cell, turned from clean to dirty, was queued |
| OctreeDown.Down | cg/src/octree.rs:563-643 | `down` from a cell that contains the entry and is not deeper than it sends the entry to the own list of the first cell whose layer reaches the entry's; before that, to the first octant that contains it, where a child cell counts it and the descent goes on, or a slot list takes it at its head; a reported cell is the entry's new cell, reported with its layer, clean before and holding the entry in a slot |
| OctreeDown.PushNodes | cg/src/octree.rs:572-577 | an entry whose layer the cell reaches joins the head of the cell's own list |
| OctreeDown.PushSlot | cg/src/octree.rs:588-597 | an entry joins the head of a slot list; a list grown past the split threshold above the depth limit marks the slot and reports the cell if its mask was clean |
| OctreeDown.Descend | cg/src/octree.rs:602-642 | a cell above the entry's layer that contains it has an octant that contains it |
| OctreeDown.SinkDeeper | cg/src/octree.rs:584-587 | counting the entry in the child cell and sinking it from there is sinking it from the parent |
| OctreeDown.DeeperOk | cg/src/octree.rs:584-587 | the child cell the entry descends into contains it and is not deeper than it |
| OctreeUpdate.Update | cg/src/octree.rs:645-777 | (corrected) `update` reports nothing exactly when the entry stays (OctreeUpdate.Stays: an outer entry that misses the root; an entry deeper than its cell whose slot `check_contain` keeps; an entry of a cell's own list at its layer that the cell contains; a root-list entry that touches the root and has no octant to move to), and then changes nothing, the entry still fitting where it hangs; otherwise it relocates the entry to the head of a different list where it fits, with counts following it, and reports its old cell, slot, neighbours and new successor; the dirty queue's bookkeeping is kept and every dirty cell stays queued |
| OctreeUpdate.StayPlaced | cg/src/octree.rs:661-693 | an entry `check_contain` keeps in its slot, or one of the cell's own layer kept in its own list, still fits where it hangs |
| OctreeUpdate.MoveSibling | cg/src/octree.rs:665-686 | (corrected) a move to another slot of the same cell relocates the entry: a child cell there counts it and `down` continues from it; a list there takes it at its head and, grown past the split threshold while the ENTRY's layer is above the depth limit (the condition as written), marks the slot and reports the cell with its layer when its mask was clean; no other cell turns dirty |
| OctreeUpdate.SiblingDown | cg/src/octree.rs:670-676 | the move to a slot holding a child cell relocates the entry: the child cell counts it and `down` continues from it; only the cell `down` reports can turn dirty |
| OctreeUpdate.SiblingList | cg/src/octree.rs:677-685 | (corrected) the move to a slot holding a list relocates the entry to the head of that list; grown past the split threshold while the entry's layer is above the depth limit, the slot is marked and the cell reported; no other cell turns dirty |
| OctreeUpdate.ToSibling | cg/src/octree.rs:661-686 | (corrected) an entry deeper than its cell, for which `check_contain` names another slot, is relocated there, and every cell the move reports joins the dirty queue, whose bookkeeping is kept |
| OctreeUpdate.Leave | cg/src/octree.rs:703-753 | (corrected) an entry that fits neither its slot, another slot nor its cell's own list stays exactly when it is on the root's own list and still touches the root; otherwise it is relocated to the first ancestor that contains it, the root's own list or the outer list, and the report names its old list; the dirty queue keeps every dirty cell |
| OctreeUpdate.SiblingMarkAsWritten | cg/src/octree.rs:677-684 | the sibling-list push as written: the entry heads the slot's list; under the split condition the slot's bit is set, otherwise the mask is unchanged; nothing is reported |
| OctreeUpdate.SiblingMarkLost | cg/src/octree.rs:682 | a clean cell not in the queue whose sibling list outgrows the split threshold ends dirty and still not queued |
| OctreeUpdate.MoveToNodes | cg/src/octree.rs:689-701 | (corrected) the move from a slot to the cell's own list relocates the entry as the head with no predecessor |
| OctreeUpdate.Uncount | cg/src/octree.rs:716-727 | one step up: the slot holding the entry's cell counts one less, and below the merge threshold it is marked and its cell reported when it was clean; the queue keeps every queued cell, and every dirty cell stays queued |
| OctreeUpdate.MarkBelow | cg/src/octree.rs:719-724 | a count below the merge threshold marks its slot and reports a clean cell; otherwise nothing is marked; the queue keeps every queued cell and holds the cell once it turned dirty |
| OctreeUpdate.ClimbStep | cg/src/octree.rs:712-733 | the slot holding the current cell stops counting the entry, which now counts as sitting in the parent |
| OctreeUpdate.Climb | cg/src/octree.rs:706-738 | the climb lowers the count of each ancestor's slot on the way up, marking it below the merge threshold and reporting the cell with the ENTRY's layer (as written), and the first ancestor no deeper than the entry that contains it takes it by `down` |
| OctreeUpdate.SettleTop | cg/src/octree.rs:739-753 | an entry no cell takes joins the root's own list when it touches the root and the outer list otherwise, relocated |
| OctreeUpdate.Enter | cg/src/octree.rs:754-776 | an outer entry enters exactly when it touches the root, and then leaves the outer list for the cell `down` gives it, or the root's own list; otherwise it stays |
| OctreeRelink.ListRemove | cg/src/octree.rs:356-368 | `NodeList::remove`: the predecessor, or the head without one, skips the entry, the successor points back past it, and the length drops by one |
| OctreeRelink.OwnerAtOf | cg/src/octree.rs:785-798 | the cell and slot `update` reports name the list the entry hung in |
| OctreeRelink.RemoveAdd | cg/src/octree.rs:779-804 | with a reported move the entry is unlinked from its old list and its new successor points back to it; with none nothing changes; only list records change among the cells |
| OctreeRelink.RemoveUp | cg/src/octree.rs:808-835 | every slot from the removed entry's cell up to the root stops counting it, the slots that fall below the merge threshold are marked, and each cell whose mask was clean joins the queue; every dirty cell stays queued |
| OctreeRelink.ClimbTrans | cg/src/octree.rs:808-835 | one step of `remove_up` and the rest of the climb make the whole climb |
| OctreeRelink.UpStep | cg/src/octree.rs:832-834 | the next step goes to the parent, one layer up, whose slot holds the cell |
| OctreeRelink.Flagged | cg/src/octree.rs:823-828 | marks set by one step survive the rest of the climb |
| OctreeRelink.MoveToNodesAsWritten | cg/src/octree.rs:694-700 | the move as written makes the entry the head of the own list but keeps its old predecessor link |
| OctreeRelink.MoveToNodesAsWrittenBreaksLinks | cg/src/octree.rs:694-700 | an entry that had a predecessor ends up as a list head with a predecessor link, so the list is not linked |
| OctreeRelink.RootStayAsWritten | cg/src/octree.rs:706-742 | an entry of the root's own list that still touches the root but no longer fits in it has its predecessor link cleared, and nothing is reported |
| OctreeRelink.RootStayAsWrittenBreaksLinks | cg/src/octree.rs:706-742 | such an entry that is not the head no longer points back to its predecessor |
| OctreeQuery.WalkList | cg/src/octree.rs:1160-1165 | the walk along forward links from a list's head yields the list in order |
| OctreeQuery.Query | cg/src/octree.rs:1150-1233 | the recursive walk yields exactly the specified visit: the cell's own list, then each slot in order whose octant the predicate accepts, a child cell only when it counts entries |
| OctreeQuery.QuerySlot | cg/src/octree.rs:1169-1189 | one slot visits its list or recurses into its child cell, as the visit says |
| OctreeQuery.VisitAll | cg/src/octree.rs:1150-1233 | a predicate that accepts every octant visits every entry beneath the cell |
| OctreeQuery.VisitSound | cg/src/octree.rs:1150-1233 | every visited entry lies beneath the cell the walk starts from |
| OctreeQuery.QueryOuter | cg/src/octree.rs:298-309 | the walk of the outer list yields it in order |
| OctreeQuery.WalkBack | cg/src/octree.rs:328-333 | the backward walk from an entry yields its predecessors, nearest first |
| OctreeQuery.WalkFrom | cg/src/octree.rs:1236-1250 | the forward walk from the entry's successor yields the entries after it |
| OctreeQuery.Collision | cg/src/octree.rs:312-337 | `collision` yields nothing for an unknown id, else the root's own list, the entries after the id and those before it, nearest first |
| OctreeQuery.CollisionOwnList | cg/src/octree.rs:327-333 | the entries after the id and those before it, nearest first, are every other entry of its own list exactly once, and never the id itself |
| OctreeSplit.CreateChild | cg/src/octree.rs:866-908 | `create_child` gives the empty cell of the slot's octant, one layer down with half the loose value, inside the parent when the parent's loose value fits it |
| OctreeSplit.Dest | cg/src/octree.rs:1072-1120 | the list `split_down` pushes an entry on: one of the eight slots, the cell's own list (8) or none (9); OctreeSplit.DestSpec states which |
| OctreeSplit.DestSpec | cg/src/octree.rs:1072-1120 | `split_down` sends an entry to the new cell's own list when the cell's layer reaches it, else to the first octant that contains it, else nowhere |
| OctreeSplit.NoStrand | cg/src/octree.rs:1072-1120 | no entry of a slot's list is dropped: each reaches the new cell's own list or fits one of its octants |
| OctreeSplit.FixPrev | cg/src/octree.rs:1132-1147 | `fix_prev` changes only backward links, and afterwards every entry of the walked list links back to its predecessor |
| OctreeSplit.FixedLink | cg/src/octree.rs:1132-1147 | after the walk every position of the list links both ways |
| OctreeSplit.FixFrame | cg/src/octree.rs:1132-1147 | a list that shares no entry with the walked one stays linked |
| OctreeSplit.SplitOne | cg/src/octree.rs:1073-1120 | one pass of the loop: the entry loses its predecessor and is pushed on the list its destination names; a list grown past the split threshold above the depth limit marks its slot |
| OctreeSplit.SplitDown | cg/src/octree.rs:1037-1129 | every entry of the slot list lands in the new cell's list its destination names, in reverse walking order; a slot is marked exactly when its list outgrew the threshold above the depth limit; every list is then linked both ways, and the returned mask is the cell's |
| OctreeSplit.SplitWalk | cg/src/octree.rs:1072-1120 | the loop of `split_down` leaves the buckets of all walked entries |
| OctreeSplit.SplitFix | cg/src/octree.rs:1121-1127 | the `fix_prev` calls repair the own list and all eight slot lists |
| OctreeGrow.InvSplit | cg/src/octree.rs:1016-1035 | a split keeps the invariant: with the new cell in the slot, counting the slot's entries, and those entries in the new cell's lists, every shape, count, list and placement holds |
| OctreeGrow.CellGeomNew | cg/src/octree.rs:866-908 | the new cell is the slot's octant one layer down, inside every ancestor of its parent |
| OctreeGrow.NewCount | cg/src/octree.rs:942 | the new slot counts exactly the entries that went down |
| OctreeGrow.OldCount | cg/src/octree.rs:937-942 | every other slot holding a child cell still counts the same entries |
| OctreeGrow.NewEntry | cg/src/octree.rs:1078-1119 | an entry that went down hangs in the list its destination names and fits it |
| OctreeShrink.FreeCells | cg/src/octree.rs:935 | (corrected) the merged cell and every cell beneath it leave the slab, child cells first |
| OctreeShrink.FreeAsWritten | cg/src/octree.rs:935 | as written, only the merged cell leaves the slab |
| OctreeShrink.FreeAsWrittenOrphans | cg/src/octree.rs:935 | a merged cell with a child cell leaves that child in the slab without its parent, so the cells are no longer a tree |
| OctreeShrink.FreeCellsKeepsParents | cg/src/octree.rs:935 | what stays after the corrected free is closed under parents |
| OctreeShrink.InvShrink | cg/src/octree.rs:930-938 | a shrink keeps the invariant: the subtree gone, the slot holding the gathered list, and its entries rehung in that slot |
| OctreeGather.ShrinkMerge | cg/src/octree.rs:987-1012 | `shrink_merge` puts the list in front of the gathered one: its entries now hang in the parent's slot, its last entry is followed by the old head and the old head points back to it |
| OctreeGather.Shrink | cg/src/octree.rs:950-984 | `shrink` merges every list of the cell's subtree, own list first, then slot by slot, skipping empty lists and child cells that count nothing |
| OctreeGather.GatherComplete | cg/src/octree.rs:950-984 | every entry beneath the cell is gathered |
| OctreeGather.GatherIsBeneath | cg/src/octree.rs:950-984 | `shrink` gathers exactly the entries beneath the cell, each once, as many as the slot counted |
| OctreeGather.SlotUnique | cg/src/octree.rs:950-984 | an entry lies beneath at most one slot of a cell |
| OctreeCollect.Grow | cg/src/octree.rs:1016-1035 | a split gives the slot a new child cell with a free key, sends the slot's list down into it and makes the slot count the list's length, keeping the invariant |
| OctreeCollect.Split | cg/src/octree.rs:1016-1035 | `split` and the collection of the new cell keep the invariant and every entry |
| OctreeCollect.Merge | cg/src/octree.rs:930-938 | the merge gathers the entries beneath the child cell, frees its whole subtree and gives the slot the gathered list, keeping the invariant and every entry |
| OctreeCollect.CollectSlot | cg/src/octree.rs:928-945 | a flagged child cell counting fewer than the merge threshold is merged, a flagged list longer than the split threshold is split, anything else is left alone |
| OctreeCollect.SweepSlot | cg/src/octree.rs:927-947 | one turn of the loop collects the slot when its bit is set |
| OctreeCollect.Collect | cg/src/octree.rs:911-948 | a clean cell is left alone; otherwise the mask is cleared and every flagged slot is collected in slot order from the copied slots, keeping the invariant and every entry |

## Left out

- Floating point: the `f32` instantiation of the octree is not modelled. The geometric and trigonometric parts of the polygon crate are not modelled either: arcs, rounded rectangles, line intersection, `float_clip`, colour interpolation, `split_by_lg_0`, `interp_by_lg_0` and `polygon_grad_analy`. `f32` keys are `real` and NaN is excluded.
- The `collision` and `cgmath` crates are not part of this model. Boxes, `dim`, `contains`, `intersects` and `cross` are defined locally over `int`. `contains` is taken to be inclusive on every axis, which the crate's text does not show here.
- Integer widths: `usize` and the octree's scalar are unbounded. `calc_layer`'s `usize::MAX` for a zero extent and the `usize::MAX` initial minimum layer are kept as constants.
- The `u16` and `i16` counters of the polygon crate are bounded. A cast (`as u16`, `as i16`) wraps, and the model writes that wrap out: Polygon.CutU16, Polygon.FillVec, Polygon.InsertVec, Polygon.SplitIndices, GradAnaly.AsI16, GradAnaly.ResortSrcPoint, GradAnaly.LineIndexPairs, GradAnaly.FindPreNextGradDirect, GradAnaly.SelectLoop, GradAnaly.AnalyTrianglesPoints and the three band selectors. Arithmetic that overflows or underflows (`+`, `-`, `*` on a `u16`, `i16` or `usize`) panics in a debug build; the model gives it an error result where the members below say so, and otherwise excludes it by a precondition named on its own line below. The wrap-around of a release build is not modelled.
- The `hex` crate is not part of this model. Its encoder is written out as `Hash.ToHex`, lower case, two digits per byte. Its decoder is not: `Hash.FromStr` takes the decoder's result as input, and the round-trip lemmas take any decoder that returns the bytes of well-formed hex text of either case (`Hash.Decodes`). The decoder's error kinds for malformed text are not modelled. `Hash` (std `Hasher`), `Deref` and `AsRef` are left out.
- The `println` dumps and the `test1` function of cg/src/octree.rs are left out, as is the test module.
- Slab.Fresh: the key an insertion takes is the least free positive key. The `slab` crate reuses the most recently freed key first. Every property here holds for any fresh positive key; only the exact key a later insertion returns can differ.
- OctreeQuery.Query: the visitor and the octant predicate are a function value and the sequence of visited ids. The order of the visits is kept.
- OctreeQuery.Collision: the layer limit and the visitor's boolean result are unused in the source. Early termination is not modelled.
- Octree.Tree.constructor: requires the root box's extents to be at most `usize::MAX`, the range `calc_layer` works in. `get_loose_ratio` and `get_adjust` are read as the `looseRatio` and `adjust` constant fields.
- Octree.Tree.Collect: a cell queued for collection can be freed by the merge of an ancestor collected earlier in the same call, after which the source reads a vacant key without a check. The model skips queued keys that are no longer in the arena.
- OctreeCollect.Split: after the new child cell is collected, the parent's slot is written as `Oct(new, len)` before that collection in the model. The collection of the child does not look at the parent's slot, so the final state is the same.
- OctreeDown.Down: the source can leave an entry without a list when no octant contains it. The model rules this out with the precondition that the cell contains the entry and is above its layer, and OctreeDown.Descend proves an octant then exists. The same holds in `split_down` by OctreeSplit.NoStrand.
- RectMap.RectMap.Remove: requires the key to hold a rectangle. The source panics otherwise.
- Octree.Tree.Remove: requires a live id. The source panics otherwise, in `Slab::remove`. Octree.RemoveEntry, the same operation on the field values, has the same precondition.
- Hash.FromSlice: requires at least `size` bytes. The source panics on a shorter slice.
- Hash.FromStaticStr: requires text that parses. The source's `unwrap` panics otherwise.
- Hash.FromReversedStr: requires text that parses, as Hash.FromStaticStr, which it calls. The source panics otherwise.
- Polygon.ToTriangle0: requires at least two indices. With fewer, the source's `count - 2` underflows and panics.
- GradAnaly.AnalyTrianglesPoints: the underflow of `count - 1` when the list's length read `as u16` is 0 is a `CountUnderflow` result instead of a panic. The three band selectors return the same result.
- GradAnaly.SelectLoop: requires the scanned ordered indexes to index `points`. The source panics on an index out of range. The three band selectors have the same precondition.
- Polygon.InsertVec: requires `index + 1` and `size * (index + 1)` to fit a `u16`, and `item` to hold `size` values. The source's `u16` sum and product panic on overflow (the sum even when `size` is 0), and its copy indexes `item` out of range on a shorter one.
- GradAnaly.ResortSrcPoint: requires at least one point, `0 <= k <= |list|`, and `(count - 1) as i16` below 32767. Without points `count - 1` underflows. With a bound of 32767 the `i16` counter overflows after the last copy. A start index above the list makes the second loop index out of range. A negative start index indexes out of range in the first loop, except when it lies above the wrapped bound, where the source returns an empty list; that case is not modelled.
- GradAnaly.LineIndexPairs: requires at least one point. The source's `count - 1` underflows on an empty list.
- GradAnaly.ResortResultPoints: requires at most 32768 points. With more, the source walks only the first `count as u16` points, and `index_0 as i16` turns a found position of 32768 or more negative, so the index is appended and the order is no longer sorted. GradAnaly.ResortResultPointsAsWritten and GradAnaly.ResortSpec are stated over any number of points and do not model these casts.
- RectMap.RectMap.constructor: requires `align > 0`. The source's `size.x % align` in `align_size` panics on 0. RectMap.AlignSize and RectMap.AlignUp have the same precondition.
- Polygon.FindPreNextGradDirect: the index underflow for fewer than two stops, or for a first stop above the value, is an `Underflow` result instead of a panic. GradAnaly.FindPreNextGradDirect does the same.
- Polygon.SplitIndices: only the index loop of `split_by_radius` is modelled. The radius-based point generation is floating point.
- Concurrency: the source has none.

## Findings

| source | as written | input that shows it | evidently intended | confidence | as-written member | corrected member |
|---|---|---|---|---|---|---|
| cg/src/rect_map.rs:154-208 | `extends` sizes the new root, and the bottom strip, with the requested aligned size instead of the per-axis maximum of the old and requested sizes | a 512 by 512 map (alignment 16) holding one 16 by 16 rectangle, extended to 256 by 1024: the new root is 256 wide and the old 512-wide root no longer fits in it | the new root takes the maximum of the old and requested size on each axis, so the old root tiles part of it | not executed | RectMap.GrowAsWritten, RectMap.ExtendsAsWrittenBreaksTiling | RectMap.RectMap.Extends, RectMap.GrowOk |
| cg/src/octree.rs:682 | `update` moving an entry into a sibling slot's list that outgrows the split threshold marks the slot in the cell's mask but drops the report `set_dirty` returns, and passes the entry's id where the cell's belongs | a clean cell not in the dirty queue, whose slot list grows past `adjust.1` by the move while the entry's layer is above the depth limit: the cell ends dirty and unqueued, so `collect` never splits that list | the cell is reported to the dirty queue with its layer, as every other `set_dirty` call does through `set_tree_dirty` | not executed | OctreeUpdate.SiblingMarkAsWritten, OctreeUpdate.SiblingMarkLost | OctreeUpdate.MoveSibling, Octree.Tree.Collect |
| cg/src/octree.rs:935 | the merge in `collect` frees only the merged child cell | a merged cell that itself holds a child cell in a slot: that grandchild stays in the arena with no parent | the whole subtree beneath the merged cell is freed, as its entries were all gathered by `shrink` | not executed | OctreeShrink.FreeAsWritten, OctreeShrink.FreeAsWrittenOrphans | OctreeShrink.FreeCells, OctreeShrink.FreeCellsKeepsParents |
| cg/src/octree.rs:694-700 | `update` moving an entry from a slot list to its cell's own list makes it the head but keeps its old backward link | an entry that is not the head of its slot list, whose layer becomes the cell's | the new head's backward link is cleared | not executed | OctreeRelink.MoveToNodesAsWritten, OctreeRelink.MoveToNodesAsWrittenBreaksLinks | OctreeUpdate.MoveToNodes |
| cg/src/octree.rs:706-742 | `update` of an entry of the root's own list that no longer fits the root but still touches it clears its backward link and reports no move | such an entry that is not the head of the root's list | nothing changes, the entry keeps its backward link | not executed | OctreeRelink.RootStayAsWritten, OctreeRelink.RootStayAsWrittenBreaksLinks | OctreeUpdate.Update |
| polygon/src/grad_analy.rs:784 | `resort_result_points` treats a first entry whose key is at least the new key (position 0) like "not found" and appends | direction keys `[1.0, 0.0]`: the result is `[0, 1]`, not sorted by key | an insertion at position 0, which gives a list sorted by key | not executed | GradAnaly.ResortResultPointsAsWritten, GradAnaly.ResortAsWrittenUnsorted | GradAnaly.ResortResultPoints, GradAnaly.ResortSortedPermutation |
