/** The dense-to-sparse converter: cut the dense grid's box into blocks (module Blocks),
    build each block's candidate leaf and collapse it to a constant when it is one, then
    commit the results into the tree. */
module FromDense {
  import opened Coords
  import opened Sparse
  import opened Blocks
  import opened DenseGrid

  /** The per-voxel rule of the leaf primitive copyFromDense: a dense value within
      tolerance of the background becomes an inactive background voxel, any other value
      an active voxel holding it. */
  function Sparsify<V>(d: V, background: V, near: (V, V) -> bool): (r: (V, bool))
    ensures r.1 <==> !near(background, d)
    ensures r.0 == if r.1 then d else background
  {
    if near(background, d) then (background, false) else (d, true)
  }

  /** `actual` has the state of `expected` and its value, or one within tolerance of it. */
  ghost predicate Approx<V>(actual: (V, bool), expected: (V, bool), near: (V, V) -> bool)
  {
    actual.1 == expected.1 && (actual.0 == expected.0 || near(expected.0, actual.0))
  }

  /** The leaf primitive copyFromDense(box, dense, background, tolerance): the voxels of
      the leaf that `box` covers take the sparsified dense values, the others keep theirs.
      The leaf is taken to sit in the cube of box.min. */
  function Overlay<V(0)>(leaf: Leaf<V>, box: CoordBBox, dense: Dense<V>, background: V,
                         near: (V, V) -> bool, dim: nat): (r: Leaf<V>)
    reads dense.data
    requires dim > 0 && dense.Valid() && dense.bbox.Contains(box) && LeafValid(leaf, dim)
    ensures r.origin == leaf.origin && LeafValid(r, dim)
  {
    var f := LeafOrigin(box.min, dim);
    Leaf(leaf.origin, map p | p in leaf.voxels ::
                        if box.IsInside(f.Plus(p))
                        then Sparsify(dense.GetValueAt(f.Plus(p)), background, near)
                        else leaf.voxels[p])
  }

  /** In global coordinates: a voxel of the cube of box.min takes the sparsified dense
      value when the box covers it and keeps the leaf's own otherwise. */
  lemma OverlayValues<V(0)>(leaf: Leaf<V>, box: CoordBBox, dense: Dense<V>, background: V,
                            near: (V, V) -> bool, dim: nat, xyz: Coord)
    requires dim > 0 && dense.Valid() && dense.bbox.Contains(box) && LeafValid(leaf, dim)
    requires LeafOrigin(xyz, dim) == LeafOrigin(box.min, dim)
    ensures LocalCoord(xyz, dim) in leaf.voxels
    ensures Overlay(leaf, box, dense, background, near, dim).voxels[LocalCoord(xyz, dim)] ==
            if box.IsInside(xyz) then Sparsify(dense.GetValueAt(xyz), background, near)
            else leaf.voxels[LocalCoord(xyz, dim)]
  {
    CubeVoxel(xyz, box.min, dim);
  }

  /** A default-constructed leaf, before it is filled or assigned. */
  function NewLeaf<V>(): Leaf<V>
  {
    Leaf(Coord(0, 0, 0), map[])
  }

  /** The starting state of the candidate leaf for a block whose min corner is `at`:
      background and inactive when the target tree was empty, else a copy of the tree's
      leaf at that place, else the tree's value and state there. */
  function StartLeaf<V>(t: Tree<V>, treeEmpty: bool, at: Coord, dim: nat): (l: Leaf<V>)
    requires TreeValid(t, dim)
    ensures LeafValid(l, dim)
  {
    if treeEmpty then FillLeaf(NewLeaf(), t.background, false, dim)
    else match ProbeConstLeaf(t, at, dim)
      case Some(target) => target
      case None =>
        var vs := ProbeValue(t, at, dim);
        FillLeaf(NewLeaf(), vs.0, vs.1, dim)
  }

  /** What a built block stores for voxel `xyz` of its cube. */
  function BlockValue<V>(b: Block<V>, xyz: Coord, dim: nat): (V, bool)
    requires dim > 0 && (b.leaf.Some? || b.tile.Some?)
    requires b.leaf.Some? ==> LeafValid(b.leaf.value, dim)
  {
    if b.leaf.Some? then b.leaf.value.voxels[LocalCoord(xyz, dim)] else b.tile.value
  }

  /** The voxels of a cube, seen through the leaf that sits there. */
  lemma CubeVoxel(xyz: Coord, at: Coord, dim: nat)
    requires dim > 0 && LeafOrigin(xyz, dim) == LeafOrigin(at, dim)
    ensures LeafOrigin(at, dim).Plus(LocalCoord(xyz, dim)) == xyz
    ensures LocalCoord(xyz, dim) in LocalCube(dim)
  {
  }

  /** The build step for one block (the body of the per-block loop): start the candidate,
      overlay the dense values, then keep a constant (value, state) if the candidate is
      constant, or else the candidate itself with its origin set to the block's min. */
  function BuildBlock<V(0)>(box: CoordBBox, t: Tree<V>, treeEmpty: bool, dense: Dense<V>,
                            near: (V, V) -> bool, dim: nat): (b: Block<V>)
    reads dense.data
    requires dim > 0 && TreeValid(t, dim) && dense.Valid() && dense.bbox.Contains(box)
    ensures b.bbox == box && (b.leaf.Some? <==> b.tile.None?)
    ensures b.leaf.Some? ==> b.leaf.value.origin == box.min && LeafValid(b.leaf.value, dim)
    ensures b.leaf.Some? ==> LeafConstant(b.leaf.value, near, dim).None?
  {
    var cand := Overlay(StartLeaf(t, treeEmpty, box.min, dim), box, dense, t.background, near, dim);
    match LeafConstant(cand, near, dim)
    case Some(tile) => Block(box, None, Some(tile))
    case None => Block(box, Some(cand.(origin := box.min)), None)
  }

  /** Every voxel of a built block's cube holds, with the same state and a value equal or
      within tolerance, the sparsified dense value inside the box and the candidate's
      starting state outside it. */
  lemma BuildBlockValues<V(0)>(box: CoordBBox, t: Tree<V>, treeEmpty: bool, dense: Dense<V>,
                               near: (V, V) -> bool, dim: nat, xyz: Coord)
    requires dim > 0 && TreeValid(t, dim) && dense.Valid() && dense.bbox.Contains(box)
    requires LeafOrigin(xyz, dim) == LeafOrigin(box.min, dim)
    ensures Approx(BlockValue(BuildBlock(box, t, treeEmpty, dense, near, dim), xyz, dim),
                   if box.IsInside(xyz) then Sparsify(dense.GetValueAt(xyz), t.background, near)
                   else StartLeaf(t, treeEmpty, box.min, dim).voxels[LocalCoord(xyz, dim)],
                   near)
  {
    OverlayValues(StartLeaf(t, treeEmpty, box.min, dim), box, dense, t.background, near, dim, xyz);
  }

  /** Builds every block of `boxes` against the same tree. */
  function BuildAll<V(0)>(boxes: seq<CoordBBox>, t: Tree<V>, treeEmpty: bool, dense: Dense<V>,
                          near: (V, V) -> bool, dim: nat): (bs: seq<Block<V>>)
    reads dense.data
    requires dim > 0 && TreeValid(t, dim) && dense.Valid()
    requires forall n :: 0 <= n < |boxes| ==> dense.bbox.Contains(boxes[n])
    ensures |bs| == |boxes|
    ensures forall n :: 0 <= n < |bs| ==> bs[n].bbox == boxes[n]
  {
    seq(|boxes|, n reads dense.data requires 0 <= n < |boxes| =>
                   BuildBlock(boxes[n], t, treeEmpty, dense, near, dim))
  }

  /** The commit rule: as the converter is written, an inactive constant block adds
      nothing; corrected, it replaces whatever the tree already holds in its cube. */
  datatype CommitRule = AsWritten | Corrected

  ghost predicate Committable<V>(bs: seq<Block<V>>, dim: nat)
  {
    forall n :: 0 <= n < |bs| && bs[n].leaf.Some? ==> LeafValid(bs[n].leaf.value, dim)
  }

  lemma CommittablePrefix<V>(bs: seq<Block<V>>, m: nat, dim: nat)
    requires Committable(bs, dim) && m <= |bs|
    ensures Committable(bs[..m], dim)
  {
  }

  /** Commits one block: its leaf if it has one, else an active tile, else (under the
      corrected rule, and only where the tree holds something in that cube) an inactive
      tile. */
  function CommitBlock<V>(rule: CommitRule, t: Tree<V>, b: Block<V>, dim: nat): (r: Tree<V>)
    requires TreeValid(t, dim) && (b.leaf.Some? ==> LeafValid(b.leaf.value, dim))
    ensures TreeValid(r, dim) && r.background == t.background
  {
    if b.leaf.Some? then AddLeaf(t, b.leaf.value, dim)
    else if b.tile.Some? && b.tile.value.1 then AddTile(t, b.bbox.min, b.tile.value.0, true, dim)
    else if rule == Corrected && b.tile.Some? && Holds(t, LeafOrigin(b.bbox.min, dim))
    then AddTile(t, b.bbox.min, b.tile.value.0, false, dim)
    else t
  }

  /** Commits the blocks in order. */
  function CommitAll<V>(rule: CommitRule, t: Tree<V>, bs: seq<Block<V>>, dim: nat): (r: Tree<V>)
    requires TreeValid(t, dim) && Committable(bs, dim)
    ensures TreeValid(r, dim) && r.background == t.background
  {
    if bs == [] then t
    else CommitBlock(rule, CommitAll(rule, t, bs[..|bs| - 1], dim), bs[|bs| - 1], dim)
  }

  /** The cube a block commits to. */
  function Key<V>(b: Block<V>, dim: nat): Coord
    requires dim > 0
  {
    LeafOrigin(b.bbox.min, dim)
  }

  /** Two trees store the same thing in the cube with origin `k`. */
  ghost predicate SameCube<V>(t1: Tree<V>, t2: Tree<V>, k: Coord, dim: nat)
    requires TreeValid(t1, dim) && TreeValid(t2, dim)
  {
    && Holds(t1, k) == Holds(t2, k)
    && forall xyz | LeafOrigin(xyz, dim) == k :: ProbeValue(t1, xyz, dim) == ProbeValue(t2, xyz, dim)
  }

  /** Committing a block leaves every other cube as it was. */
  lemma CommitBlockElsewhere<V>(rule: CommitRule, t: Tree<V>, b: Block<V>, k: Coord, dim: nat)
    requires TreeValid(t, dim) && (b.leaf.Some? ==> LeafValid(b.leaf.value, dim))
    requires b.leaf.Some? ==> b.leaf.value.origin == b.bbox.min
    requires Key(b, dim) != k
    ensures SameCube(CommitBlock(rule, t, b, dim), t, k, dim)
  {
  }

  /** What a committed block leaves in its cube depends only on what the tree held there. */
  lemma CommitBlockCongruent<V>(rule: CommitRule, t1: Tree<V>, t2: Tree<V>, b: Block<V>, dim: nat)
    requires TreeValid(t1, dim) && TreeValid(t2, dim) && (b.leaf.Some? ==> LeafValid(b.leaf.value, dim))
    requires b.leaf.Some? ==> b.leaf.value.origin == b.bbox.min
    requires SameCube(t1, t2, Key(b, dim), dim)
    ensures SameCube(CommitBlock(rule, t1, b, dim), CommitBlock(rule, t2, b, dim), Key(b, dim), dim)
  {
  }

  /** Blocks are placed at their own min corner. */
  ghost predicate Placed<V>(bs: seq<Block<V>>)
  {
    forall n :: 0 <= n < |bs| && bs[n].leaf.Some? ==> bs[n].leaf.value.origin == bs[n].bbox.min
  }

  /** Committing blocks none of which lies in cube `k` leaves that cube as it was. */
  lemma {:induction false} CommitAllElsewhere<V>(rule: CommitRule, t: Tree<V>, bs: seq<Block<V>>, k: Coord, dim: nat)
    requires TreeValid(t, dim) && Committable(bs, dim) && Placed(bs)
    requires forall n :: 0 <= n < |bs| ==> Key(bs[n], dim) != k
    ensures SameCube(CommitAll(rule, t, bs, dim), t, k, dim)
  {
    if bs != [] {
      var pre := bs[..|bs| - 1];
      CommitAllElsewhere(rule, t, pre, k, dim);
      CommitBlockElsewhere(rule, CommitAll(rule, t, pre, dim), bs[|bs| - 1], k, dim);
    }
  }

  lemma SameCubeTrans<V>(t1: Tree<V>, t2: Tree<V>, t3: Tree<V>, k: Coord, dim: nat)
    requires TreeValid(t1, dim) && TreeValid(t2, dim) && TreeValid(t3, dim)
    requires SameCube(t1, t2, k, dim) && SameCube(t2, t3, k, dim)
    ensures SameCube(t1, t3, k, dim)
  {
  }

  /** When block `n` is the only one in its cube, committing all blocks leaves in that cube
      what committing block `n` alone leaves. */
  lemma {:induction false} CommitAllAt<V>(rule: CommitRule, t: Tree<V>, bs: seq<Block<V>>, n: nat, dim: nat)
    requires TreeValid(t, dim) && Committable(bs, dim) && Placed(bs) && n < |bs|
    requires forall m :: 0 <= m < |bs| && m != n ==> Key(bs[m], dim) != Key(bs[n], dim)
    ensures SameCube(CommitAll(rule, t, bs, dim), CommitBlock(rule, t, bs[n], dim), Key(bs[n], dim), dim)
  {
    var last := |bs| - 1;
    var pre := bs[..last];
    var k := Key(bs[n], dim);
    var tp := CommitAll(rule, t, pre, dim);
    assert CommitAll(rule, t, bs, dim) == CommitBlock(rule, tp, bs[last], dim);
    if n == last {
      assert forall m :: 0 <= m < |pre| ==> pre[m] == bs[m];
      CommitAllElsewhere(rule, t, pre, k, dim);
      CommitBlockCongruent(rule, tp, t, bs[n], dim);
    } else {
      assert pre[n] == bs[n];
      CommitAllAt(rule, t, pre, n, dim);
      CommitBlockElsewhere(rule, tp, bs[last], k, dim);
      SameCubeTrans(CommitBlock(rule, tp, bs[last], dim), tp, CommitBlock(rule, t, bs[n], dim), k, dim);
    }
  }

  /** The candidate's starting state agrees with the tree on every voxel of the cube, as
      long as the tree really was empty when the converter found it so. */
  lemma StartLeafProbe<V>(t: Tree<V>, treeEmpty: bool, at: Coord, xyz: Coord, dim: nat)
    requires TreeValid(t, dim) && (treeEmpty ==> IsEmpty(t))
    requires LeafOrigin(xyz, dim) == LeafOrigin(at, dim)
    ensures StartLeaf(t, treeEmpty, at, dim).voxels[LocalCoord(xyz, dim)] == ProbeValue(t, xyz, dim)
  {
  }

  /** Committing `b` leaves the tree as it was: no leaf, and an inactive summary the rule
      does not materialise. */
  predicate Skips<V>(rule: CommitRule, t: Tree<V>, b: Block<V>, dim: nat)
    requires dim > 0
  {
    b.leaf.None? && (b.tile.None? || (!b.tile.value.1 && !(rule == Corrected && Holds(t, Key(b, dim)))))
  }

  /** In the block's cube, a committed block reads back as the block's own value, unless
      the commit skips it. */
  lemma CommitBlockValue<V>(rule: CommitRule, t: Tree<V>, b: Block<V>, xyz: Coord, dim: nat)
    requires TreeValid(t, dim) && (b.leaf.Some? || b.tile.Some?)
    requires b.leaf.Some? ==> LeafValid(b.leaf.value, dim) && b.leaf.value.origin == b.bbox.min
    requires LeafOrigin(xyz, dim) == Key(b, dim)
    ensures ProbeValue(CommitBlock(rule, t, b, dim), xyz, dim) ==
            if Skips(rule, t, b, dim) then ProbeValue(t, xyz, dim) else BlockValue(b, xyz, dim)
  {
  }

  /** Inside its box, a committed block gives each voxel the sparsified dense value: always
      under the corrected rule, and as written only where the tree held nothing before. */
  lemma CommitBlockInside<V(0)>(rule: CommitRule, t: Tree<V>, treeEmpty: bool, dense: Dense<V>,
                                near: (V, V) -> bool, box: CoordBBox, xyz: Coord, dim: nat)
    requires dim > 0 && TreeValid(t, dim) && dense.Valid() && dense.bbox.Contains(box)
    requires box.IsInside(xyz) && LeafOrigin(xyz, dim) == LeafOrigin(box.min, dim)
    requires rule == Corrected || !Holds(t, LeafOrigin(box.min, dim))
    ensures Approx(ProbeValue(CommitBlock(rule, t, BuildBlock(box, t, treeEmpty, dense, near, dim), dim), xyz, dim),
                   Sparsify(dense.GetValueAt(xyz), t.background, near), near)
  {
    var b := BuildBlock(box, t, treeEmpty, dense, near, dim);
    CommitBlockValue(rule, t, b, xyz, dim);
    BuildBlockValues(box, t, treeEmpty, dense, near, dim, xyz);
  }

  /** Outside its box, a committed block changes a voxel of its cube by no more than the
      tolerance, and not its state. */
  lemma CommitBlockOutside<V(0)>(rule: CommitRule, t: Tree<V>, treeEmpty: bool, dense: Dense<V>,
                                 near: (V, V) -> bool, box: CoordBBox, xyz: Coord, dim: nat)
    requires dim > 0 && TreeValid(t, dim) && dense.Valid() && dense.bbox.Contains(box)
    requires treeEmpty ==> IsEmpty(t)
    requires !box.IsInside(xyz) && LeafOrigin(xyz, dim) == LeafOrigin(box.min, dim)
    ensures Approx(ProbeValue(CommitBlock(rule, t, BuildBlock(box, t, treeEmpty, dense, near, dim), dim), xyz, dim),
                   ProbeValue(t, xyz, dim), near)
  {
    var b := BuildBlock(box, t, treeEmpty, dense, near, dim);
    StartLeafProbe(t, treeEmpty, box.min, xyz, dim);
    CommitBlockValue(rule, t, b, xyz, dim);
    BuildBlockValues(box, t, treeEmpty, dense, near, dim, xyz);
  }

  /** Every block of the partition lies in the partitioned box. */
  lemma PartitionContained(b: CoordBBox, dim: nat)
    requires dim > 0 && !b.IsEmpty()
    ensures forall n :: 0 <= n < |Partition(b, dim)| ==> b.Contains(Partition(b, dim)[n])
  {
    forall n | 0 <= n < |Partition(b, dim)|
      ensures b.Contains(Partition(b, dim)[n])
    {
      PartitionBlock(b, dim, n);
    }
  }

  /** The blocks of the dense grid's box, built against `t`. */
  function BuiltBlocks<V(0)>(t: Tree<V>, treeEmpty: bool, dense: Dense<V>, near: (V, V) -> bool, dim: nat): (bs: seq<Block<V>>)
    reads dense.data
    requires dim > 0 && TreeValid(t, dim) && dense.Valid()
    ensures Committable(bs, dim) && Placed(bs)
    ensures |bs| == |Partition(dense.bbox, dim)|
    ensures forall n :: 0 <= n < |bs| ==> bs[n].bbox == Partition(dense.bbox, dim)[n]
  {
    PartitionContained(dense.bbox, dim);
    BuildAll(Partition(dense.bbox, dim), t, treeEmpty, dense, near, dim)
  }

  /** The tree after the whole conversion. */
  function Copied<V(0)>(rule: CommitRule, t: Tree<V>, treeEmpty: bool, dense: Dense<V>,
                        near: (V, V) -> bool, dim: nat): (r: Tree<V>)
    reads dense.data
    requires dim > 0 && TreeValid(t, dim) && dense.Valid()
    ensures TreeValid(r, dim) && r.background == t.background
  {
    CommitAll(rule, t, BuiltBlocks(t, treeEmpty, dense, near, dim), dim)
  }

  /** Blocks of the partition sit in pairwise different cubes. */
  lemma BuiltKeysDistinct<V(0)>(t: Tree<V>, treeEmpty: bool, dense: Dense<V>, near: (V, V) -> bool, dim: nat, n: nat)
    requires dim > 0 && TreeValid(t, dim) && dense.Valid()
    requires n < |BuiltBlocks(t, treeEmpty, dense, near, dim)|
    ensures var bs := BuiltBlocks(t, treeEmpty, dense, near, dim);
            forall m :: 0 <= m < |bs| && m != n ==> Key(bs[m], dim) != Key(bs[n], dim)
  {
    var bs := BuiltBlocks(t, treeEmpty, dense, near, dim);
    forall m | 0 <= m < |bs| && m != n
      ensures Key(bs[m], dim) != Key(bs[n], dim)
    {
      PartitionDisjoint(dense.bbox, dim, m, n);
    }
  }

  /** After the copy, every voxel of the dense grid's box holds the dense value, turned
      into inactive background when it is within tolerance of the background: always under
      the corrected commit, and as written when the tree started out empty. */
  lemma CopyMatchesDense<V(0)>(rule: CommitRule, t: Tree<V>, treeEmpty: bool, dense: Dense<V>,
                               near: (V, V) -> bool, dim: nat, xyz: Coord)
    requires dim > 0 && TreeValid(t, dim) && dense.Valid()
    requires rule == Corrected || IsEmpty(t)
    requires dense.bbox.IsInside(xyz)
    ensures Approx(ProbeValue(Copied(rule, t, treeEmpty, dense, near, dim), xyz, dim),
                   Sparsify(dense.GetValueAt(xyz), t.background, near), near)
  {
    var P := Partition(dense.bbox, dim);
    var bs := BuiltBlocks(t, treeEmpty, dense, near, dim);
    var n := BlockOfVoxel(dense.bbox, dim, xyz);
    PartitionBlock(dense.bbox, dim, n);
    PartitionContained(dense.bbox, dim);
    BuiltKeysDistinct(t, treeEmpty, dense, near, dim, n);
    CommitAllAt(rule, t, bs, n, dim);
    CommitBlockInside(rule, t, treeEmpty, dense, near, P[n], xyz, dim);
  }

  /** Voxels outside the dense grid's box keep their state, and their value up to the
      tolerance (a cube the box only partly covers may collapse to one constant tile). */
  lemma CopyKeepsOutside<V(0)>(rule: CommitRule, t: Tree<V>, treeEmpty: bool, dense: Dense<V>,
                               near: (V, V) -> bool, dim: nat, xyz: Coord)
    requires dim > 0 && TreeValid(t, dim) && dense.Valid()
    requires treeEmpty ==> IsEmpty(t)
    requires !dense.bbox.IsInside(xyz)
    ensures Approx(ProbeValue(Copied(rule, t, treeEmpty, dense, near, dim), xyz, dim), ProbeValue(t, xyz, dim), near)
  {
    var P := Partition(dense.bbox, dim);
    var bs := BuiltBlocks(t, treeEmpty, dense, near, dim);
    var k := LeafOrigin(xyz, dim);
    if n :| 0 <= n < |bs| && Key(bs[n], dim) == k {
      PartitionContained(dense.bbox, dim);
      BuiltKeysDistinct(t, treeEmpty, dense, near, dim, n);
      CommitAllAt(rule, t, bs, n, dim);
      CommitBlockOutside(rule, t, treeEmpty, dense, near, P[n], xyz, dim);
    } else {
      CommitAllElsewhere(rule, t, bs, k, dim);
    }
  }

  /** A box that is exactly one aligned cube. */
  ghost predicate OneCube(b: CoordBBox, dim: nat)
    requires dim > 0
  {
    LeafOrigin(b.min, dim) == b.min && b.max == b.min.OffsetBy(dim - 1)
  }

  /** One aligned cube's extent along an axis is a single segment. */
  lemma SingleSegment(a: int, dim: nat)
    requires dim > 0 && AlignDown(a, dim) == a
    ensures Segments(a, a + dim - 1, dim) == [(a, a + dim - 1)]
  {
    assert Segments(a + dim, a + dim - 1, dim) == [];
  }

  /** A box whose three axes are single segments is cut into one block, itself. */
  lemma SingleBlockPartition(b: CoordBBox, dim: nat)
    requires dim > 0 && !b.IsEmpty()
    requires |AxisX(b, dim)| == 1 && AxisX(b, dim)[0] == (b.min.x, b.max.x)
    requires |AxisY(b, dim)| == 1 && AxisY(b, dim)[0] == (b.min.y, b.max.y)
    requires |AxisZ(b, dim)| == 1 && AxisZ(b, dim)[0] == (b.min.z, b.max.z)
    ensures |Partition(b, dim)| == 1 && Partition(b, dim)[0] == b
  {
    BlockAtOffset(b, dim, 0, 0, 0);
    assert BlockCount(b, dim) == 1;
  }

  /** One aligned cube is cut into the single block that is the cube itself. */
  lemma OneCubePartition(b: CoordBBox, dim: nat)
    requires dim > 0 && OneCube(b, dim)
    ensures !b.IsEmpty() && |Partition(b, dim)| == 1 && Partition(b, dim)[0] == b
  {
    assert AlignDown(b.min.x, dim) == b.min.x && b.max.x == b.min.x + dim - 1;
    assert AlignDown(b.min.y, dim) == b.min.y && b.max.y == b.min.y + dim - 1;
    assert AlignDown(b.min.z, dim) == b.min.z && b.max.z == b.min.z + dim - 1;
    SingleSegment(b.min.x, dim);
    SingleSegment(b.min.y, dim);
    SingleSegment(b.min.z, dim);
    SingleBlockPartition(b, dim);
  }

  /** A block whose every voxel is (or starts as) inactive background collapses to one
      inactive background tile, whatever the tree held there. */
  lemma BackgroundBlock<V(0)>(box: CoordBBox, t: Tree<V>, treeEmpty: bool, dense: Dense<V>,
                              near: (V, V) -> bool, dim: nat)
    requires dim > 0 && TreeValid(t, dim) && dense.Valid() && dense.bbox.Contains(box)
    requires forall a :: near(a, a)
    requires forall xyz | dense.bbox.IsInside(xyz) :: near(t.background, dense.GetValueAt(xyz))
    requires forall p | p in LocalCube(dim) ::
               box.IsInside(LeafOrigin(box.min, dim).Plus(p)) ||
               StartLeaf(t, treeEmpty, box.min, dim).voxels[p] == (t.background, false)
    ensures BuildBlock(box, t, treeEmpty, dense, near, dim) == Block(box, None, Some((t.background, false)))
  {
    var cand := Overlay(StartLeaf(t, treeEmpty, box.min, dim), box, dense, t.background, near, dim);
    assert forall p | p in cand.voxels :: cand.voxels[p] == (t.background, false);
    assert Coord(0, 0, 0) in LocalCube(dim);
    assert LeafConstant(cand, near, dim) == Some((t.background, false));
  }

  /** Inactive tiles committed into an empty tree add nothing, under either rule. */
  lemma {:induction false} CommitInactiveOnEmpty<V>(rule: CommitRule, t: Tree<V>, bs: seq<Block<V>>, dim: nat)
    requires TreeValid(t, dim) && IsEmpty(t) && Committable(bs, dim)
    requires forall n :: 0 <= n < |bs| ==> bs[n].leaf.None? && bs[n].tile.Some? && !bs[n].tile.value.1
    ensures CommitAll(rule, t, bs, dim) == t
  {
    if bs != [] {
      CommitInactiveOnEmpty(rule, t, bs[..|bs| - 1], dim);
    }
  }

  /** Copying a grid whose every value is within tolerance of the background into an
      empty tree adds neither a leaf nor a tile. */
  lemma BackgroundCopyAddsNothing<V(0)>(rule: CommitRule, t: Tree<V>, treeEmpty: bool, dense: Dense<V>,
                                        near: (V, V) -> bool, dim: nat)
    requires dim > 0 && TreeValid(t, dim) && dense.Valid() && IsEmpty(t)
    requires forall a :: near(a, a)
    requires forall xyz | dense.bbox.IsInside(xyz) :: near(t.background, dense.GetValueAt(xyz))
    ensures Copied(rule, t, treeEmpty, dense, near, dim) == t
  {
    var bs := BuiltBlocks(t, treeEmpty, dense, near, dim);
    PartitionContained(dense.bbox, dim);
    forall n | 0 <= n < |bs|
      ensures bs[n].leaf.None? && bs[n].tile.Some? && !bs[n].tile.value.1
    {
      BackgroundBlock(bs[n].bbox, t, treeEmpty, dense, near, dim);
    }
    CommitInactiveOnEmpty(rule, t, bs, dim);
  }

  /** A tree with one active leaf filled with `w`. */
  function OneLeafTree<V>(background: V, at: Coord, w: V, dim: nat): Tree<V>
  {
    Tree(background, map[at := FillLeaf(Leaf(at, map[]), w, true, dim)], map[])
  }

  /** As written, copying one cube of background values over a cube where the tree has an
      active leaf leaves that leaf in place: the voxel stays active, where the dense grid
      asks for inactive background. */
  lemma StaleLeafSurvives<V(0)>(dense: Dense<V>, background: V, w: V, near: (V, V) -> bool, dim: nat)
    requires dim > 0 && dense.Valid() && OneCube(dense.bbox, dim)
    requires forall a :: near(a, a)
    requires forall xyz | dense.bbox.IsInside(xyz) :: near(background, dense.GetValueAt(xyz))
    ensures var t := OneLeafTree(background, dense.bbox.min, w, dim);
            TreeValid(t, dim) &&
            ProbeValue(Copied(AsWritten, t, false, dense, near, dim), dense.bbox.min, dim) == (w, true) &&
            !Approx(ProbeValue(Copied(AsWritten, t, false, dense, near, dim), dense.bbox.min, dim),
                    Sparsify(dense.GetValueAt(dense.bbox.min), background, near), near)
  {
    var b := dense.bbox;
    var t := OneLeafTree(background, b.min, w, dim);
    OneCubePartition(b, dim);
    assert TreeValid(t, dim);
    forall p | p in LocalCube(dim)
      ensures b.IsInside(LeafOrigin(b.min, dim).Plus(p))
    {
    }
    BackgroundBlock(b, t, false, dense, near, dim);
    var bs := BuiltBlocks(t, false, dense, near, dim);
    assert bs == [Block(b, None, Some((background, false)))];
    assert CommitAll(AsWritten, t, bs, dim) == t by {
      assert bs[..0] == [];
    }
    LocalCoordOfOrigin(b.min, dim);
  }

  /** The local coordinate of a cube origin is (0, 0, 0). */
  lemma LocalCoordOfOrigin(c: Coord, dim: nat)
    requires dim > 0 && LeafOrigin(c, dim) == c
    ensures LocalCoord(c, dim) == Coord(0, 0, 0)
  {
  }

  /** The converter: a dense grid, the tree it writes into, and the list of blocks that
      the partition, build and commit phases pass along. */
  class CopyFromDense<V(0)> {
    const dense: Dense<V>
    var tree: Tree<V>
    var blocks: seq<Block<V>>
    /** The tolerance test: near(a, b) when b differs from a by no more than the tolerance. */
    const near: (V, V) -> bool
    /** Whether the tree was empty when the converter was made (it then keeps no accessor
        and never probes the tree). */
    const treeWasEmpty: bool
    /** The side length of a leaf cube. */
    const dim: nat
    /** How a block that collapses to an inactive constant is committed: skipped, as the
        source does, or written as an inactive tile over whatever the cube held. */
    const rule: CommitRule

    ghost predicate Valid()
      reads this
    {
      && dim > 0 && dense.Valid() && TreeValid(tree, dim)
      && (forall n :: 0 <= n < |blocks| ==> dense.bbox.Contains(blocks[n].bbox))
      && Committable(blocks, dim)
    }

    constructor (dense: Dense<V>, tree: Tree<V>, near: (V, V) -> bool, dim: nat, rule: CommitRule)
      requires dim > 0 && dense.Valid() && TreeValid(tree, dim)
      ensures Valid() && blocks == []
      ensures this.dense == dense && this.tree == tree && this.near == near && this.dim == dim
      ensures this.rule == rule
      ensures treeWasEmpty == IsEmpty(tree)
    {
      this.dense := dense;
      this.tree := tree;
      this.blocks := [];
      this.near := near;
      this.treeWasEmpty := IsEmpty(tree);
      this.dim := dim;
      this.rule := rule;
    }

    /** Builds the blocks with index in [begin, end), each of which is still unbuilt. */
    method Apply(begin: nat, end: nat)
      requires Valid() && begin <= end <= |blocks|
      requires forall m :: begin <= m < end ==> blocks[m].leaf.None? && blocks[m].tile.None?
      modifies this`blocks
      ensures Valid() && |blocks| == |old(blocks)|
      ensures forall m :: begin <= m < end ==>
                blocks[m] == BuildBlock(old(blocks)[m].bbox, tree, treeWasEmpty, dense, near, dim)
      ensures forall m :: 0 <= m < |blocks| && !(begin <= m < end) ==> blocks[m] == old(blocks)[m]
    {
      var m := begin;
      while m < end
        invariant begin <= m <= end && |blocks| == |old(blocks)|
        invariant forall i :: begin <= i < m ==>
                    blocks[i] == BuildBlock(old(blocks)[i].bbox, tree, treeWasEmpty, dense, near, dim)
        invariant forall i :: 0 <= i < |blocks| && !(begin <= i < m) ==> blocks[i] == old(blocks)[i]
      {
        blocks := blocks[m := BuildBlock(blocks[m].bbox, tree, treeWasEmpty, dense, near, dim)];
        m := m + 1;
      }
    }

    /** Commits the blocks, in order, under the converter's rule. */
    method Commit()
      requires Valid()
      modifies this`tree
      ensures Valid() && tree == CommitAll(rule, old(tree), blocks, dim)
    {
      ghost var t0, bs := tree, blocks;
      var acc := tree;
      var m := 0;
      while m < |blocks|
        invariant m <= |bs| == |blocks| && TreeValid(acc, dim) && Committable(bs[..m], dim)
        invariant acc == CommitAll(rule, t0, bs[..m], dim)
      {
        CommittablePrefix(bs, m + 1, dim);
        acc := CommitBlock(rule, acc, blocks[m], dim);
        assert bs[..m + 1][..m] == bs[..m];
        m := m + 1;
      }
      assert bs[..m] == bs;
      tree := acc;
    }

    /** The whole conversion: cut the box into blocks, build them all, commit them in order
        under the converter's rule, and drop the block list. Every voxel of the dense box
        then reads its sparsified value under the corrected rule, and under the rule as
        written when the tree was empty. */
    method Copy()
      requires Valid()
      modifies this
      ensures Valid() && blocks == []
      ensures tree == Copied(rule, old(tree), treeWasEmpty, dense, near, dim)
      ensures rule == Corrected || IsEmpty(old(tree)) ==>
              forall xyz :: dense.bbox.IsInside(xyz) ==>
                Approx(ProbeValue(tree, xyz, dim), Sparsify(dense.GetValueAt(xyz), old(tree).background, near), near)
    {
      blocks := MakeBlocks(dense.bbox, dim);
      PartitionContained(dense.bbox, dim);
      Apply(0, |blocks|);
      ghost var built := BuiltBlocks(tree, treeWasEmpty, dense, near, dim);
      assert blocks == built;
      Commit();
      blocks := [];
      if rule == Corrected || IsEmpty(old(tree)) {
        forall xyz | dense.bbox.IsInside(xyz)
          ensures Approx(ProbeValue(tree, xyz, dim), Sparsify(dense.GetValueAt(xyz), old(tree).background, near), near)
        {
          CopyMatchesDense(rule, old(tree), treeWasEmpty, dense, near, dim, xyz);
        }
      }
    }
  }
}
