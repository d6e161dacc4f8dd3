# Dense grids and the dense-to-sparse converter of OpenVDB, in Dafny

This project models `openvdb/tools/Dense.h`. That header defines two things.

- **`Dense<ValueT>`** is a flat value array addressed by an inclusive, signed 3-D
  coordinate box. Its layout makes z the fastest axis: the y stride is the z extent,
  the x stride is the y extent times the z extent, and the offset of the local
  coordinate (i, j, k) is `k + j*yStride + i*xStride`.
- **`CopyFromDense`** writes a dense grid into a sparse tree in three phases:
  - it cuts the grid's box into blocks that each lie in one leaf-aligned cube;
  - it builds each block, either as a candidate leaf or as a constant (value, state) summary;
  - it commits the blocks into the tree, one after another.

Modules:

- `Coords` holds `Coord` and the inclusive `CoordBBox`.
- `Layout` holds the z-fastest offset formula and its inverse, together with a proof that the offset is a bijection.
- `DenseGrid` holds the `Dense` class. It has const box, strides and storage fields over an `array<V>`. The four C++ constructors become static factory methods that return `Result`, so the empty-box `ValueError` is the `Err` case.
- `Sparse` is a leaf-level model of the tree and leaf primitives that the converter calls (their code is not part of this model; the behaviour assumed for each is listed under "## Left out"):
  - a leaf is a map from local coordinate to (value, active);
  - a tree is a background value plus leaves and level-1 tiles, keyed by cube origin.
- `Blocks` holds two views of the partition:
  - the specification, as a product of one-dimensional segment lists;
  - the triple loop that produces it, `MakeBlocks` with its inner loop `CutRow`, proved equal to that specification.

  The lemmas prove four things about the blocks:
  - each block lies in one cube;
  - no two blocks share a voxel or a cube;
  - every voxel of the box lies in exactly one block;
  - blocks come out in x-major, then y, then z order.
- `FromDense` holds:
  - the per-block build, `BuildBlock`;
  - the commit rules;
  - the `CopyFromDense` class, with `Copy`, `Apply` (the range operator) and `Commit`;
  - the end-to-end theorems, `CopyMatchesDense` and `CopyKeepsOutside`.

The tolerance test `|b - a| <= tolerance` is a parameter, `near: (V, V) -> bool`. The leaf side `LeafT::DIM` is a parameter `dim > 0`. The mask `c & ~(DIM-1)` is written as `c - c % dim`; for a power-of-two `dim` this agrees with the two's-complement mask, negative coordinates included. The value getters follow the source's chain of calls: `GetValueAt(xyz)` is `GetValueLocal` at `xyz - bbox.min`, which is `GetValue` at `CoordToOffset(i, j, k)`, which reads one array element.

## Model

| member | source | states |
|---|---|---|
| Layout.OffsetBound | openvdb/tools/Dense.h:228-231 | a local coordinate inside the extents has an offset below the volume |
| Layout.DecodeOffset | openvdb/tools/Dense.h:228-231 | decoding the offset of (i, j, k) gives (i, j, k) back, so the layout is injective |
| Layout.Decode | openvdb/tools/Dense.h:228-231 | every offset below the volume is the offset of an in-range local coordinate (the layout is onto) |
| Layout.OffsetMonotone | openvdb/tools/Dense.h:361-373 | lexicographically ordered (x, y, z) indices have increasing offsets |
| Layout.DecodeMonotone | openvdb/tools/Dense.h:361-373 | decoding preserves order: a smaller offset decodes to a lexicographically smaller (x, y, z) index |
| DenseGrid.Dense.Init | openvdb/tools/Dense.h:108-109 | the member initialisers: y stride is the z extent, x stride is the z extent times the y extent |
| DenseGrid.Dense.InitArray | openvdb/tools/Dense.h:250-257 | an empty box fails with EmptyBoundingBox; otherwise a fresh array of exactly volume elements |
| DenseGrid.Dense.Create | openvdb/tools/Dense.h:108-112 | fails exactly on an empty box; otherwise a valid, owned grid over the box with one element per voxel |
| DenseGrid.Dense.CreateFilled | openvdb/tools/Dense.h:120-125 | fails exactly on an empty box; otherwise every voxel holds the given value |
| DenseGrid.Dense.Wrap | openvdb/tools/Dense.h:136-142 | fails exactly on an empty box; otherwise wraps the caller's array without copying (borrowed storage) |
| DenseGrid.Dense.CreateWithDim | openvdb/tools/Dense.h:151-155 | fails exactly when some extent is not positive; otherwise the box is [min, min+dim-1], with min defaulting to the origin, and valueCount is the product of the extents |
| DenseGrid.Dense.ValueCount | openvdb/tools/Dense.h:178 | the voxel count is the x stride times the x extent, positive, and within the array |
| DenseGrid.Dense.CoordToOffset | openvdb/tools/Dense.h:228-231 | in-range local coordinates map below valueCount |
| DenseGrid.Dense.OffsetToLocal | openvdb/tools/Dense.h:228-231 | inverse of coordToOffset on the box: an in-range coordinate whose offset is the given one |
| DenseGrid.Dense.LocalInjective | openvdb/tools/Dense.h:228-231 | distinct in-range local coordinates have distinct offsets |
| DenseGrid.Dense.LocalOnto | openvdb/tools/Dense.h:228-231 | every offset below valueCount is reached by some in-range local coordinate |
| DenseGrid.Dense.CoordToOffsetAt | openvdb/tools/Dense.h:239-245 | a signed coordinate inside the box maps below valueCount, to the local offset of xyz - bbox.min |
| DenseGrid.Dense.OffsetToCoord | openvdb/tools/Dense.h:239-245 | the inverse of the signed offset lands inside the box |
| DenseGrid.Dense.SignedInjective | openvdb/tools/Dense.h:239-245 | distinct signed coordinates of the box have distinct offsets |
| DenseGrid.Dense.SignedRoundTrip | openvdb/tools/Dense.h:239-245 | the signed offset equals the local offset of xyz - bbox.min, and converting back gives xyz |
| DenseGrid.Dense.OffsetRoundTrip | openvdb/tools/Dense.h:239-245 | converting an offset to a coordinate and back gives the offset |
| DenseGrid.Dense.GetValue | openvdb/tools/Dense.h:184 | reads the array element at the offset |
| DenseGrid.Dense.GetValueLocal | openvdb/tools/Dense.h:195-198 | the value of voxel (i, j, k) is the value at its offset coordToOffset(i, j, k) |
| DenseGrid.Dense.GetValueAt | openvdb/tools/Dense.h:209-212 | the value at a signed coordinate is the value of the local voxel xyz - bbox.min |
| DenseGrid.Dense.SetValue | openvdb/tools/Dense.h:181 | only the element at the offset changes, and getValue there returns the new value |
| DenseGrid.Dense.SetValueLocal | openvdb/tools/Dense.h:188-191 | getValue(i, j, k) returns the new value and no other voxel of the box changes |
| DenseGrid.Dense.SetValueAt | openvdb/tools/Dense.h:202-205 | getValue(xyz) returns the new value and no other voxel of the box changes |
| DenseGrid.Dense.Fill | openvdb/tools/Dense.h:215-220 | all valueCount elements equal the value; array elements past the box are untouched |
| Sparse.AlignDown | openvdb/tools/Dense.h:369 | the masked coordinate is the multiple of dim at or below c and within dim of it |
| Sparse.LocalCoord | openvdb/tools/Dense.h:369 | a coordinate is its cube origin plus a position inside the local cube |
| Sparse.FillLeaf | openvdb/tools/Dense.h:411 | the filled leaf covers the whole cube with (value, state) |
| Sparse.LeafConstant | openvdb/tools/Dense.h:424 | a leaf is constant exactly when every voxel has the first voxel's state and a value within tolerance of its value; the constant is the first voxel's (value, state) |
| Sparse.ProbeConstLeaf | openvdb/tools/Dense.h:413 | finds a leaf exactly when the tree stores one for the cube of xyz, and returns that leaf |
| Sparse.ProbeValue | openvdb/tools/Dense.h:416-417 | a voxel reads its leaf's voxel, else its cube's tile, else (background, inactive) |
| Sparse.AddLeaf | openvdb/tools/Dense.h:387 | the leaf replaces whatever its cube held; probing elsewhere is unchanged |
| Sparse.AddTile | openvdb/tools/Dense.h:389 | the tile replaces whatever its cube held; probing elsewhere is unchanged |
| Blocks.SegEnd | openvdb/tools/Dense.h:368-369 | a block's max along an axis lies between its min and the box max |
| Blocks.SegmentsShape | openvdb/tools/Dense.h:361-373 | the segments along an axis start at the box min, end at the box max, and follow one another without gap |
| Blocks.SegmentsOrdered | openvdb/tools/Dense.h:361-373 | earlier segments lie wholly before later ones |
| Blocks.SegmentsCover | openvdb/tools/Dense.h:361-373 | every coordinate of the axis range lies in some segment |
| Blocks.SegmentCube | openvdb/tools/Dense.h:368-369 | a segment never leaves the cube of its start |
| Blocks.SegmentsDistinctCubes | openvdb/tools/Dense.h:361-373 | different segments lie in different cubes |
| Blocks.AxesShape | openvdb/tools/Dense.h:361-373 | a non-empty box has at least one segment per axis |
| Blocks.BlockOfVoxel | openvdb/tools/Dense.h:361-373 | every voxel of the box lies in some block |
| Blocks.PartitionCovers | openvdb/tools/Dense.h:361-373 | the blocks cover the box |
| Blocks.PartitionBlock | openvdb/tools/Dense.h:361-373 | each block is non-empty, lies in the box, and lies in the one cube of its min corner |
| Blocks.BoxesOrdered | openvdb/tools/Dense.h:361-373 | blocks from lexicographically ordered segment indices have ordered mins and cube origins |
| Blocks.PartitionOrdered | openvdb/tools/Dense.h:361-373 | blocks come out x-major, then y, then z, in their mins and their cube origins |
| Blocks.PartitionDisjoint | openvdb/tools/Dense.h:361-373 | two blocks share neither a cube nor a voxel |
| Blocks.BlockAtOffset | openvdb/tools/Dense.h:361-373 | the block from the ix-th, iy-th, iz-th segments is the one at their layout offset |
| Blocks.ClipIsBox | openvdb/tools/Dense.h:368-369 | clipping at the box max and at the end of the min corner's cube yields the block made of the corresponding segments |
| Blocks.AppendBlock | openvdb/tools/Dense.h:370 | pushing the next block extends the partition prefix by one |
| Blocks.CutRow | openvdb/tools/Dense.h:365-371 | the innermost loop appends, in order, the blocks of one (x, y) row |
| Blocks.MakeBlocks | openvdb/tools/Dense.h:358-373 | the triple loop produces exactly the partition, in order, each block still unbuilt |
| FromDense.Sparsify | openvdb/tools/Dense.h:422 | a dense value becomes an active voxel holding it exactly when it is not within tolerance of the background; otherwise an inactive background voxel |
| FromDense.Overlay | openvdb/tools/Dense.h:422 | the leaf overlay keeps the leaf's origin and still covers the whole cube |
| FromDense.OverlayValues | openvdb/tools/Dense.h:422 | after the overlay, a voxel of the cube holds the sparsified dense value where the box covers it and its old value elsewhere |
| FromDense.StartLeaf | openvdb/tools/Dense.h:410-420 | the candidate's starting state is a full leaf |
| FromDense.StartLeafProbe | openvdb/tools/Dense.h:410-420 | when the tree was empty as the flag says, the starting state agrees with the tree at every voxel of the cube |
| FromDense.CubeVoxel | openvdb/tools/Dense.h:422 | a voxel of the block's cube is the cube origin plus its local position |
| FromDense.BuildBlock | openvdb/tools/Dense.h:405-429 | a block gets exactly one of a leaf (origin set to the block's min, and not constant) or a constant summary |
| FromDense.BuildBlockValues | openvdb/tools/Dense.h:405-429 | every voxel of a built block's cube holds, with the same state and a value equal or within tolerance, the sparsified dense value inside the box and the starting state outside it |
| FromDense.BuildAll | openvdb/tools/Dense.h:405-429 | the build phase yields one block per box, in the boxes' order, each carrying its box |
| FromDense.CommitBlock | openvdb/tools/Dense.h:386-390 | committing one block keeps the tree valid and its background unchanged |
| FromDense.CommitAll | openvdb/tools/Dense.h:384-391 | committing the blocks in order keeps the tree valid and its background unchanged |
| FromDense.CommitBlockElsewhere | openvdb/tools/Dense.h:384-391 | committing a block leaves every other cube as it was |
| FromDense.CommitBlockCongruent | openvdb/tools/Dense.h:384-391 | what a commit leaves in the block's cube depends only on what the tree held there |
| FromDense.CommitAllElsewhere | openvdb/tools/Dense.h:384-391 | committing blocks in other cubes leaves a cube as it was |
| FromDense.CommitBlockValue | openvdb/tools/Dense.h:386-390 | in its cube, a committed block reads back as its leaf voxel or its summary, unless the rule skips it, in which case the tree reads as before |
| FromDense.CommitAllAt | openvdb/tools/Dense.h:384-391 | with one block per cube, the commit loop leaves in each block's cube what that block alone leaves |
| FromDense.CommitBlockInside | openvdb/tools/Dense.h:384-391 | inside its box a committed block gives the sparsified dense value (always with the corrected rule, and with the rule as written where the tree held nothing) |
| FromDense.CommitBlockOutside | openvdb/tools/Dense.h:384-391 | outside its box a committed block keeps each voxel's state and its value up to tolerance |
| FromDense.PartitionContained | openvdb/tools/Dense.h:361-373 | every block lies in the dense box |
| FromDense.BuiltBlocks | openvdb/tools/Dense.h:375-380 | the build phase yields one block per partition box, with valid leaves placed at the block's min |
| FromDense.BuiltKeysDistinct | openvdb/tools/Dense.h:361-373 | built blocks sit in pairwise different cubes |
| FromDense.CopyMatchesDense | openvdb/tools/Dense.h:356-393 | after the copy, every voxel of the dense box holds its dense value as active, or inactive background when within tolerance of the background (corrected commit; as written only on an empty tree) |
| FromDense.Copied | openvdb/tools/Dense.h:356-393 | the whole conversion (partition, build, commit under a rule) keeps the tree valid and its background unchanged; CopyMatchesDense and CopyKeepsOutside state what it reads |
| FromDense.CopyKeepsOutside | openvdb/tools/Dense.h:356-393 | outside the dense box every voxel keeps its state and its value up to tolerance |
| FromDense.SingleSegment | openvdb/tools/Dense.h:361-373 | one aligned cube's range along an axis is a single segment |
| FromDense.SingleBlockPartition | openvdb/tools/Dense.h:361-373 | a box with one segment per axis is its own single block |
| FromDense.OneCubePartition | openvdb/tools/Dense.h:361-373 | a box that is one aligned cube is cut into exactly that cube |
| FromDense.BackgroundBlock | openvdb/tools/Dense.h:405-429 | a block whose values are all within tolerance of the background collapses to one inactive background summary |
| FromDense.CommitInactiveOnEmpty | openvdb/tools/Dense.h:384-391 | inactive summaries committed into an empty tree add nothing |
| FromDense.BackgroundCopyAddsNothing | openvdb/tools/Dense.h:356-393 | copying a grid of background values into an empty tree adds no leaf and no tile |
| FromDense.LocalCoordOfOrigin | openvdb/tools/Dense.h:369 | a cube origin is at local position (0, 0, 0) |
| FromDense.StaleLeafSurvives | openvdb/tools/Dense.h:388-390 | as written, an active leaf stays where the dense box asks for inactive background |
| FromDense.CopyFromDense.constructor | openvdb/tools/Dense.h:338-345 | records the grid, the tree, the tolerance, whether the tree was empty, and the commit rule; no blocks yet |
| FromDense.CopyFromDense.Apply | openvdb/tools/Dense.h:400-432 | the loop builds each block of the range as BuildBlock describes, against the unchanged tree; all other blocks are unchanged |
| FromDense.CopyFromDense.Commit | openvdb/tools/Dense.h:382-391 | the commit loop leaves the tree CommitAll describes, under the converter's rule (as written or corrected) |
| FromDense.CopyFromDense.Copy | openvdb/tools/Dense.h:356-393 | the whole conversion yields Copied under the converter's rule; under the corrected rule, or on an empty tree, every voxel of the dense box holds its sparsified value; the block list is dropped |

## Left out

- Parallel dispatch (`tbb::parallel_for`, `blocked_range`, the per-task accessor copies): the serial path, in which `Apply` covers the whole range, computes the same blocks.
- `CopyToDense` and `copyToDense`: they forward to tree internals that are not part of this model.
- `pruneTiles` at Dense.h:395: merging sibling tiles into coarser ones needs the upper tree levels, which the model does not have. `Copy` ends before the prune.
- Tree levels above the leaf: the model tree holds leaves and level-1 tiles only. Coarser tiles, and probes that land in them, are not modelled.
- Floating-point tolerance: `near` is an arbitrary predicate. Only the constant-collapse lemmas require it to be reflexive.
- Leaf ownership, `new`/`delete`, and the reuse of one leaf object across iterations: each block gets a fresh candidate value, and a committed leaf is a value.
- `memUsage`: it depends on `sizeof`.
- The `TreeAdapter` and the free functions `copyFromDense`/`copyToDense`.
- `data()`, `bbox()`, `xStride()`, `yStride()`: these are the class's fields, read directly.
- Integer widths: coordinates are unbounded integers and offsets are `nat`. The `int32` coordinate arithmetic and the `size_t` offset arithmetic cannot overflow in the model.
- Blocks.MakeBlocks: when a component of the dense box's max is the largest `int32`, the C++ partition loop at Dense.h:361-366 never ends, because `sub.max()[i] + 1` overflows back below the bound. The model's loops terminate only because `int` is unbounded, so this case is not captured.
- Sparse.TreeValid does not tie a stored leaf's origin to its key. So the model cannot show that `setOrigin(bbox.min())` at Dense.h:425 gives the first block along each axis of an unaligned dense box an unaligned leaf origin. Probes find leaves by key, as the model's tree does.
- Leaf and tree primitives whose code is not part of this model are given the following behaviour, and the end-to-end theorems rest on it:
  - Sparse.LeafConstant (`isConstant`): the result is voxel (0, 0, 0)'s (value, state) when every voxel has that state and `near(v, first)` holds for every value v; otherwise there is no result.
  - FromDense.Overlay (`copyFromDense`): each voxel that the box covers becomes `Sparsify(d, background)`, which tests `near(background, d)`. Voxels are matched by local position in the cube of box.min, and the others keep their value.
  - Sparse.ProbeConstLeaf (`probeConstLeaf`): returns the leaf stored under the cube origin, if there is one.
  - Sparse.ProbeValue (`probeValue`): reads the leaf's voxel, else the level-1 tile, else (background, inactive).
  - Sparse.FillLeaf, Sparse.AddLeaf, Sparse.AddTile (`fill`, `addLeaf`, `addTile` at level 1): these overwrite the whole leaf, or the whole cube's entry.
- DenseGrid.Dense.Wrap: the caller's promise that the array is large enough is a precondition, not a check (the C++ cannot check it).
- FromDense.CopyKeepsOutside: it promises the prior content only up to tolerance. A cube the box only partly covers may collapse into a tile, as the source does, so this is weaker than exact preservation.
- Tolerance monotonicity (more tolerance never yields more leaves): not stated.

## Findings

| source | as written | input that shows it | evidently intended | confidence | as-written member | corrected member |
|---|---|---|---|---|---|---|
| openvdb/tools/Dense.h:388-390 | a block that collapses to an inactive constant commits nothing, so a leaf or tile already in that cube stays | a tree holding an active leaf in the cube [f, f+dim-1]^3, and a dense grid over exactly that cube whose values are all within tolerance of the background | the cube reads back as inactive background | medium; not executed | FromDense.StaleLeafSurvives | FromDense.CopyMatchesDense |

The corrected commit, `CommitRule.Corrected`, adds the inactive tile when the tree holds something in that cube. The `CopyFromDense` class takes the rule as a field, so `Copy` runs either the commit as written or the corrected one. When the cube is empty, it skips the block as the source does.
