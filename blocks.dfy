/** The pre-processing step of the dense-to-sparse converter: cutting the dense grid's box
    into blocks, each the part of the box that falls in one leaf-aligned cube of side
    `dim`, listed with x slowest and z fastest. */
module Blocks {
  import opened Coords
  import Layout
  import opened Sparse

  /** A unit of work: its sub-box, and after the build step either the leaf made for it
      or the constant (value, active) it collapsed to. */
  datatype Block<V> = Block(bbox: CoordBBox, leaf: Option<Leaf<V>>, tile: Option<(V, bool)>)

  /** A closed interval [lo, hi] along one axis. */
  type Seg = (int, int)

  /** Where the block starting at `lo` ends along one axis: at the end of its cube, or at
      `hi` if that comes first. */
  function SegEnd(lo: int, hi: int, dim: nat): (e: int)
    requires dim > 0 && lo <= hi
    ensures lo <= e <= hi
  {
    Min(hi, AlignDown(lo, dim) + dim - 1)
  }

  /** The successive block intervals of [lo, hi] along one axis. */
  function Segments(lo: int, hi: int, dim: nat): seq<Seg>
    requires dim > 0
    decreases if lo <= hi then hi - lo + 1 else 0
  {
    if lo > hi then [] else [(lo, SegEnd(lo, hi, dim))] + Segments(SegEnd(lo, hi, dim) + 1, hi, dim)
  }

  /** The segments of [lo, hi] start at lo, end at hi, are consecutive, and each ends where
      its cube or the interval ends. */
  lemma {:induction false} SegmentsShape(lo: int, hi: int, dim: nat)
    requires dim > 0
    ensures var s := Segments(lo, hi, dim);
            && (|s| == 0 <==> lo > hi)
            && (|s| > 0 ==> s[0].0 == lo && s[|s| - 1].1 == hi)
            && (forall k :: 0 <= k < |s| ==> lo <= s[k].0 <= s[k].1 <= hi && s[k].1 == SegEnd(s[k].0, hi, dim))
            && (forall k :: 0 <= k < |s| - 1 ==> s[k + 1].0 == s[k].1 + 1)
    decreases if lo <= hi then hi - lo + 1 else 0
  {
    if lo <= hi {
      var e := SegEnd(lo, hi, dim);
      SegmentsShape(e + 1, hi, dim);
      var s, t := Segments(lo, hi, dim), Segments(e + 1, hi, dim);
      assert s == [(lo, e)] + t;
      assert forall k :: 1 <= k < |s| ==> s[k] == t[k - 1];
    }
  }

  /** Later segments start after earlier ones end. */
  lemma {:induction false} SegmentsOrdered(lo: int, hi: int, dim: nat, k: nat, k': nat)
    requires dim > 0 && k < k' < |Segments(lo, hi, dim)|
    ensures Segments(lo, hi, dim)[k].0 <= Segments(lo, hi, dim)[k].1 < Segments(lo, hi, dim)[k'].0
    decreases k' - k
  {
    SegmentsShape(lo, hi, dim);
    if k + 1 < k' {
      SegmentsOrdered(lo, hi, dim, k + 1, k');
    }
  }

  /** Every coordinate of [lo, hi] lies in some segment. */
  lemma {:induction false} SegmentsCover(lo: int, hi: int, dim: nat, c: int) returns (k: nat)
    requires dim > 0 && lo <= c <= hi
    ensures k < |Segments(lo, hi, dim)|
    ensures Segments(lo, hi, dim)[k].0 <= c <= Segments(lo, hi, dim)[k].1
    decreases hi - lo
  {
    var e := SegEnd(lo, hi, dim);
    if c <= e {
      k := 0;
    } else {
      var k' := SegmentsCover(e + 1, hi, dim, c);
      k := k' + 1;
    }
  }

  /** Every coordinate of a segment has the segment start's cube. */
  lemma SegmentCube(lo: int, hi: int, dim: nat, k: nat, c: int)
    requires dim > 0 && k < |Segments(lo, hi, dim)|
    requires Segments(lo, hi, dim)[k].0 <= c <= Segments(lo, hi, dim)[k].1
    ensures AlignDown(c, dim) == AlignDown(Segments(lo, hi, dim)[k].0, dim)
  {
    SegmentsShape(lo, hi, dim);
    var a := Segments(lo, hi, dim)[k].0;
    AlignDownInCube(c, AlignDown(a, dim), dim);
  }

  /** Distinct segments lie in distinct cubes, in increasing order. */
  lemma SegmentsDistinctCubes(lo: int, hi: int, dim: nat, k: nat, k': nat)
    requires dim > 0 && k < k' < |Segments(lo, hi, dim)|
    ensures AlignDown(Segments(lo, hi, dim)[k].0, dim) < AlignDown(Segments(lo, hi, dim)[k'].0, dim)
  {
    SegmentsShape(lo, hi, dim);
    SegmentsOrdered(lo, hi, dim, k, k');
  }

  /** The block with the given intervals along x, y and z. */
  function Box(xs: Seg, ys: Seg, zs: Seg): CoordBBox
  {
    CoordBBox(Coord(xs.0, ys.0, zs.0), Coord(xs.1, ys.1, zs.1))
  }

  function AxisX(b: CoordBBox, dim: nat): seq<Seg>
    requires dim > 0
  {
    Segments(b.min.x, b.max.x, dim)
  }

  function AxisY(b: CoordBBox, dim: nat): seq<Seg>
    requires dim > 0
  {
    Segments(b.min.y, b.max.y, dim)
  }

  function AxisZ(b: CoordBBox, dim: nat): seq<Seg>
    requires dim > 0
  {
    Segments(b.min.z, b.max.z, dim)
  }

  lemma AxesShape(b: CoordBBox, dim: nat)
    requires dim > 0 && !b.IsEmpty()
    ensures |AxisX(b, dim)| > 0 && |AxisY(b, dim)| > 0 && |AxisZ(b, dim)| > 0
  {
    SegmentsShape(b.min.x, b.max.x, dim);
    SegmentsShape(b.min.y, b.max.y, dim);
    SegmentsShape(b.min.z, b.max.z, dim);
  }

  /** Number of blocks of the box. */
  function BlockCount(b: CoordBBox, dim: nat): nat
    requires dim > 0
  {
    |AxisX(b, dim)| * (|AxisZ(b, dim)| * |AxisY(b, dim)|)
  }

  /** Block `n`: its axis intervals are the ones whose indices `n` encodes in the layout
      order (x slowest, z fastest). */
  function BlockAt(b: CoordBBox, dim: nat, n: nat): CoordBBox
    requires dim > 0 && !b.IsEmpty() && n < BlockCount(b, dim)
  {
    var X, Y, Z := AxisX(b, dim), AxisY(b, dim), AxisZ(b, dim);
    AxesShape(b, dim);
    var ijk := Layout.Decode(n, |X|, |Y|, |Z|);
    Box(X[ijk.0], Y[ijk.1], Z[ijk.2])
  }

  /** The list of block boxes of `b`, in the order they are produced. */
  function Partition(b: CoordBBox, dim: nat): seq<CoordBBox>
    requires dim > 0 && !b.IsEmpty()
  {
    seq(BlockCount(b, dim), n requires 0 <= n < BlockCount(b, dim) => BlockAt(b, dim, n))
  }

  /** The block `c` falls in: the one built from the segments holding each of its
      components. */
  lemma BlockOfVoxel(b: CoordBBox, dim: nat, c: Coord) returns (n: nat)
    requires dim > 0 && b.IsInside(c)
    ensures n < |Partition(b, dim)| && Partition(b, dim)[n].IsInside(c)
  {
    var X, Y, Z := AxisX(b, dim), AxisY(b, dim), AxisZ(b, dim);
    var i := SegmentsCover(b.min.x, b.max.x, dim, c.x);
    var j := SegmentsCover(b.min.y, b.max.y, dim, c.y);
    var k := SegmentsCover(b.min.z, b.max.z, dim, c.z);
    Layout.DecodeOffset(i, j, k, |X|, |Y|, |Z|);
    n := Layout.Offset(i, j, k, |Y|, |Z|);
  }

  /** Every voxel of the box lies in some block. */
  lemma PartitionCovers(b: CoordBBox, dim: nat)
    requires dim > 0 && !b.IsEmpty()
    ensures forall c :: b.IsInside(c) ==> exists n :: 0 <= n < |Partition(b, dim)| && Partition(b, dim)[n].IsInside(c)
  {
    forall c | b.IsInside(c)
      ensures exists n :: 0 <= n < |Partition(b, dim)| && Partition(b, dim)[n].IsInside(c)
    {
      var n := BlockOfVoxel(b, dim, c);
    }
  }

  /** `blk` lies in the cube [f, f + dim - 1]^3 where f is its min corner rounded down. */
  predicate InOneCube(blk: CoordBBox, dim: nat)
    requires dim > 0
  {
    blk.max.x <= LeafOrigin(blk.min, dim).x + dim - 1 &&
    blk.max.y <= LeafOrigin(blk.min, dim).y + dim - 1 &&
    blk.max.z <= LeafOrigin(blk.min, dim).z + dim - 1
  }

  /** Every block is non-empty, inside the box and inside one leaf-aligned cube, and every
      voxel of it has that cube's origin. */
  lemma PartitionBlock(b: CoordBBox, dim: nat, n: nat)
    requires dim > 0 && !b.IsEmpty() && n < |Partition(b, dim)|
    ensures var blk := Partition(b, dim)[n];
            && !blk.IsEmpty() && b.Contains(blk) && InOneCube(blk, dim)
            && forall c :: blk.IsInside(c) ==> LeafOrigin(c, dim) == LeafOrigin(blk.min, dim)
  {
    var X, Y, Z := AxisX(b, dim), AxisY(b, dim), AxisZ(b, dim);
    AxesShape(b, dim);
    SegmentsShape(b.min.x, b.max.x, dim);
    SegmentsShape(b.min.y, b.max.y, dim);
    SegmentsShape(b.min.z, b.max.z, dim);
    var ijk := Layout.Decode(n, |X|, |Y|, |Z|);
    var blk := Partition(b, dim)[n];
    assert blk == Box(X[ijk.0], Y[ijk.1], Z[ijk.2]);
    forall c | blk.IsInside(c)
      ensures LeafOrigin(c, dim) == LeafOrigin(blk.min, dim)
    {
      SegmentCube(b.min.x, b.max.x, dim, ijk.0, c.x);
      SegmentCube(b.min.y, b.max.y, dim, ijk.1, c.y);
      SegmentCube(b.min.z, b.max.z, dim, ijk.2, c.z);
    }
  }

  /** Boxes built from lexicographically ordered interval indices are ordered by their min
      corners and by their cubes. */
  lemma BoxesOrdered(b: CoordBBox, dim: nat, p: (nat, nat, nat), q: (nat, nat, nat))
    requires dim > 0
    requires p.0 < |AxisX(b, dim)| && p.1 < |AxisY(b, dim)| && p.2 < |AxisZ(b, dim)|
    requires q.0 < |AxisX(b, dim)| && q.1 < |AxisY(b, dim)| && q.2 < |AxisZ(b, dim)|
    requires p.0 < q.0 || (p.0 == q.0 && (p.1 < q.1 || (p.1 == q.1 && p.2 < q.2)))
    ensures var bp := Box(AxisX(b, dim)[p.0], AxisY(b, dim)[p.1], AxisZ(b, dim)[p.2]);
            var bq := Box(AxisX(b, dim)[q.0], AxisY(b, dim)[q.1], AxisZ(b, dim)[q.2]);
            LexLess(bp.min, bq.min) && LexLess(LeafOrigin(bp.min, dim), LeafOrigin(bq.min, dim))
  {
    if p.0 < q.0 {
      SegmentsOrdered(b.min.x, b.max.x, dim, p.0, q.0);
      SegmentsDistinctCubes(b.min.x, b.max.x, dim, p.0, q.0);
    } else if p.1 < q.1 {
      SegmentsOrdered(b.min.y, b.max.y, dim, p.1, q.1);
      SegmentsDistinctCubes(b.min.y, b.max.y, dim, p.1, q.1);
    } else {
      SegmentsOrdered(b.min.z, b.max.z, dim, p.2, q.2);
      SegmentsDistinctCubes(b.min.z, b.max.z, dim, p.2, q.2);
    }
  }

  /** Blocks come in x-major, then y, then z order of their min corners, and distinct
      blocks lie in distinct cubes. */
  lemma PartitionOrdered(b: CoordBBox, dim: nat, n: nat, m: nat)
    requires dim > 0 && !b.IsEmpty() && n < m < |Partition(b, dim)|
    ensures LexLess(Partition(b, dim)[n].min, Partition(b, dim)[m].min)
    ensures LexLess(LeafOrigin(Partition(b, dim)[n].min, dim), LeafOrigin(Partition(b, dim)[m].min, dim))
  {
    var X, Y, Z := AxisX(b, dim), AxisY(b, dim), AxisZ(b, dim);
    AxesShape(b, dim);
    var p, q := Layout.Decode(n, |X|, |Y|, |Z|), Layout.Decode(m, |X|, |Y|, |Z|);
    Layout.DecodeMonotone(n, m, |X|, |Y|, |Z|);
    assert Partition(b, dim)[n] == Box(X[p.0], Y[p.1], Z[p.2]);
    assert Partition(b, dim)[m] == Box(X[q.0], Y[q.1], Z[q.2]);
    BoxesOrdered(b, dim, p, q);
  }

  /** Distinct blocks share no voxel and lie in distinct cubes. */
  lemma PartitionDisjoint(b: CoordBBox, dim: nat, n: nat, m: nat)
    requires dim > 0 && !b.IsEmpty() && n < |Partition(b, dim)| && m < |Partition(b, dim)| && n != m
    ensures LeafOrigin(Partition(b, dim)[n].min, dim) != LeafOrigin(Partition(b, dim)[m].min, dim)
    ensures forall c :: !(Partition(b, dim)[n].IsInside(c) && Partition(b, dim)[m].IsInside(c))
  {
    if n < m {
      PartitionOrdered(b, dim, n, m);
    } else {
      PartitionOrdered(b, dim, m, n);
    }
    PartitionBlock(b, dim, n);
    PartitionBlock(b, dim, m);
  }

  /** The block made from the ix-th, iy-th and iz-th intervals sits at their layout offset. */
  lemma BlockAtOffset(b: CoordBBox, dim: nat, ix: nat, iy: nat, iz: nat)
    requires dim > 0 && !b.IsEmpty()
    requires ix < |AxisX(b, dim)| && iy < |AxisY(b, dim)| && iz < |AxisZ(b, dim)|
    ensures Layout.Offset(ix, iy, iz, |AxisY(b, dim)|, |AxisZ(b, dim)|) < |Partition(b, dim)|
    ensures Partition(b, dim)[Layout.Offset(ix, iy, iz, |AxisY(b, dim)|, |AxisZ(b, dim)|)]
            == Box(AxisX(b, dim)[ix], AxisY(b, dim)[iy], AxisZ(b, dim)[iz])
  {
    Layout.DecodeOffset(ix, iy, iz, |AxisX(b, dim)|, |AxisY(b, dim)|, |AxisZ(b, dim)|);
  }

  /** The blocks before the (ix, iy, iz)-th one are in place. */
  ghost predicate BlocksUpTo<V>(blocks: seq<Block<V>>, b: CoordBBox, dim: nat, count: nat)
    requires dim > 0 && !b.IsEmpty()
  {
    && |blocks| == count <= |Partition(b, dim)|
    && forall n :: 0 <= n < count ==> blocks[n] == Block(Partition(b, dim)[n], None, None)
  }

  /** The clipped box of the loop body, started at the ix-th, iy-th and iz-th segment
      starts, is the block made of those segments. */
  lemma ClipIsBox(bbox: CoordBBox, dim: nat, ix: nat, iy: nat, iz: nat, m: Coord)
    requires dim > 0
    requires ix < |AxisX(bbox, dim)| && iy < |AxisY(bbox, dim)| && iz < |AxisZ(bbox, dim)|
    requires m == Coord(AxisX(bbox, dim)[ix].0, AxisY(bbox, dim)[iy].0, AxisZ(bbox, dim)[iz].0)
    ensures CoordBBox(m, MinComponent(bbox.max, LeafOrigin(m, dim).OffsetBy(dim - 1)))
            == Box(AxisX(bbox, dim)[ix], AxisY(bbox, dim)[iy], AxisZ(bbox, dim)[iz])
  {
    SegmentsShape(bbox.min.x, bbox.max.x, dim);
    SegmentsShape(bbox.min.y, bbox.max.y, dim);
    SegmentsShape(bbox.min.z, bbox.max.z, dim);
  }

  /** Appending the (ix, iy, iz)-th block extends the prefix of the partition by one. */
  lemma AppendBlock<V>(blocks: seq<Block<V>>, bbox: CoordBBox, dim: nat, ix: nat, iy: nat, iz: nat)
    requires dim > 0 && !bbox.IsEmpty()
    requires ix < |AxisX(bbox, dim)| && iy < |AxisY(bbox, dim)| && iz < |AxisZ(bbox, dim)|
    requires BlocksUpTo(blocks, bbox, dim, Layout.Offset(ix, iy, iz, |AxisY(bbox, dim)|, |AxisZ(bbox, dim)|))
    ensures BlocksUpTo(blocks + [Block(Box(AxisX(bbox, dim)[ix], AxisY(bbox, dim)[iy], AxisZ(bbox, dim)[iz]), None, None)],
                       bbox, dim, Layout.Offset(ix, iy, iz, |AxisY(bbox, dim)|, |AxisZ(bbox, dim)|) + 1)
  {
    BlockAtOffset(bbox, dim, ix, iy, iz);
  }

  /** The innermost loop of the pre-processing step: the blocks of one z row, whose x and y
      intervals are the ix-th and iy-th. */
  method CutRow<V>(bbox: CoordBBox, dim: nat, sub0: CoordBBox, blocks0: seq<Block<V>>, ghost ix: nat, ghost iy: nat)
    returns (sub: CoordBBox, blocks: seq<Block<V>>)
    requires dim > 0 && !bbox.IsEmpty()
    requires ix < |AxisX(bbox, dim)| && iy < |AxisY(bbox, dim)|
    requires sub0.min.x == AxisX(bbox, dim)[ix].0 && sub0.min.y == AxisY(bbox, dim)[iy].0
    requires BlocksUpTo(blocks0, bbox, dim, Layout.Offset(ix, iy, 0, |AxisY(bbox, dim)|, |AxisZ(bbox, dim)|))
    ensures sub.min.x == sub0.min.x && sub.min.y == sub0.min.y
    ensures sub.max.x == AxisX(bbox, dim)[ix].1 && sub.max.y == AxisY(bbox, dim)[iy].1
    ensures BlocksUpTo(blocks, bbox, dim, Layout.Offset(ix, iy + 1, 0, |AxisY(bbox, dim)|, |AxisZ(bbox, dim)|))
  {
    ghost var X, Y, Z := AxisX(bbox, dim), AxisY(bbox, dim), AxisZ(bbox, dim);
    AxesShape(bbox, dim);
    SegmentsShape(bbox.min.z, bbox.max.z, dim);
    sub, blocks := sub0, blocks0;
    ghost var iz: nat := 0;
    sub := sub.(min := sub.min.(z := bbox.min.z));
    while sub.min.z <= bbox.max.z
      invariant iz <= |Z|
      invariant sub.min.x == X[ix].0 && sub.min.y == Y[iy].0
      invariant iz < |Z| ==> sub.min.z == Z[iz].0
      invariant iz == |Z| ==> sub.min.z == bbox.max.z + 1
      invariant iz > 0 ==> sub.max.x == X[ix].1 && sub.max.y == Y[iy].1
      invariant BlocksUpTo(blocks, bbox, dim, Layout.Offset(ix, iy, iz, |Y|, |Z|))
      decreases bbox.max.z - sub.min.z
    {
      ClipIsBox(bbox, dim, ix, iy, iz, sub.min);
      sub := sub.(max := MinComponent(bbox.max, LeafOrigin(sub.min, dim).OffsetBy(dim - 1)));
      AppendBlock(blocks, bbox, dim, ix, iy, iz);
      blocks := blocks + [Block(sub, None, None)];
      sub := sub.(min := sub.min.(z := sub.max.z + 1));
      iz := iz + 1;
    }
    Layout.OffsetCarryZ(ix, iy, |Y|, |Z|);
  }

  /** The pre-processing loop of the converter: walks the box with x outermost and z
      innermost, clips each block to the box and to the cube of its min corner, and
      appends it with no result yet; the next block starts one past the clipped max. */
  method MakeBlocks<V>(bbox: CoordBBox, dim: nat) returns (blocks: seq<Block<V>>)
    requires dim > 0 && !bbox.IsEmpty()
    ensures |blocks| == |Partition(bbox, dim)|
    ensures forall n :: 0 <= n < |blocks| ==> blocks[n] == Block(Partition(bbox, dim)[n], None, None)
  {
    ghost var X, Y, Z := AxisX(bbox, dim), AxisY(bbox, dim), AxisZ(bbox, dim);
    AxesShape(bbox, dim);
    SegmentsShape(bbox.min.x, bbox.max.x, dim);
    SegmentsShape(bbox.min.y, bbox.max.y, dim);
    blocks := [];
    var sub := bbox;
    ghost var ix: nat := 0;
    while sub.min.x <= bbox.max.x
      invariant ix <= |X|
      invariant ix < |X| ==> sub.min.x == X[ix].0
      invariant ix == |X| ==> sub.min.x == bbox.max.x + 1
      invariant BlocksUpTo(blocks, bbox, dim, Layout.Offset(ix, 0, 0, |Y|, |Z|))
      decreases bbox.max.x - sub.min.x
    {
      ghost var iy: nat := 0;
      sub := sub.(min := sub.min.(y := bbox.min.y));
      while sub.min.y <= bbox.max.y
        invariant iy <= |Y|
        invariant ix < |X| && sub.min.x == X[ix].0
        invariant iy < |Y| ==> sub.min.y == Y[iy].0
        invariant iy == |Y| ==> sub.min.y == bbox.max.y + 1
        invariant iy > 0 ==> sub.max.x == X[ix].1
        invariant BlocksUpTo(blocks, bbox, dim, Layout.Offset(ix, iy, 0, |Y|, |Z|))
        decreases bbox.max.y - sub.min.y
      {
        sub, blocks := CutRow(bbox, dim, sub, blocks, ix, iy);
        sub := sub.(min := sub.min.(y := sub.max.y + 1));
        iy := iy + 1;
      }
      Layout.OffsetCarryY(ix, |Y|, |Z|);
      sub := sub.(min := sub.min.(x := sub.max.x + 1));
      ix := ix + 1;
    }
  }
}
