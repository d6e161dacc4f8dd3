/** The parts of the sparse tree that the dense-to-sparse converter calls, modelled at
    leaf granularity: a tree is its background value plus, for each leaf-aligned cube of
    side `dim`, either a leaf node or a level-1 tile (a constant value and active state
    covering the whole cube). Cubes holding neither read as background and inactive. */
module Sparse {
  import opened Coords
  import Layout

  datatype Option<T> = None | Some(value: T)

  /** Rounds `c` down to a multiple of `dim`; for a power-of-two `dim` this is the
      two's-complement mask `c & ~(dim - 1)`. */
  function AlignDown(c: int, dim: int): (r: int)
    requires dim > 0
    ensures r <= c < r + dim
    ensures r % dim == 0
  {
    Layout.DivModUnique(c - c % dim, dim, c / dim, 0);
    c - c % dim
  }

  /** A multiple of `dim` is the aligned start of every coordinate of its cube. */
  lemma AlignDownInCube(c: int, a: int, dim: int)
    requires dim > 0 && a % dim == 0 && a <= c < a + dim
    ensures AlignDown(c, dim) == a
  {
    Layout.DivModUnique(a, dim, a / dim, 0);
    Layout.DivModUnique(c, dim, a / dim, c - a);
  }

  /** Origin of the leaf-aligned cube that holds `c`. */
  function LeafOrigin(c: Coord, dim: int): Coord
    requires dim > 0
  {
    Coord(AlignDown(c.x, dim), AlignDown(c.y, dim), AlignDown(c.z, dim))
  }

  /** Position of `c` inside its cube. */
  function LocalCoord(c: Coord, dim: int): (p: Coord)
    requires dim > 0
    ensures InLocalCube(p, dim)
    ensures LeafOrigin(c, dim).Plus(p) == c
  {
    Coord(c.x % dim, c.y % dim, c.z % dim)
  }

  predicate InLocalCube(p: Coord, dim: int)
  {
    0 <= p.x < dim && 0 <= p.y < dim && 0 <= p.z < dim
  }

  /** The local coordinates of a leaf. */
  function LocalCube(dim: nat): (s: set<Coord>)
    ensures forall p :: p in s <==> InLocalCube(p, dim)
  {
    set x, y, z | 0 <= x < dim && 0 <= y < dim && 0 <= z < dim :: Coord(x, y, z)
  }

  /** A leaf node: its origin and the (value, active) pair of each voxel, keyed by local
      coordinate. */
  datatype Leaf<V> = Leaf(origin: Coord, voxels: map<Coord, (V, bool)>)

  ghost predicate LeafValid<V>(l: Leaf<V>, dim: nat)
  {
    l.voxels.Keys == LocalCube(dim)
  }

  /** The leaf primitive `fill(value, active)`: every voxel becomes (value, active). */
  function FillLeaf<V>(l: Leaf<V>, value: V, active: bool, dim: nat): (r: Leaf<V>)
    ensures LeafValid(r, dim) && r.origin == l.origin
    ensures forall p :: p in r.voxels ==> r.voxels[p] == (value, active)
  {
    Leaf(l.origin, map p | p in LocalCube(dim) :: (value, active))
  }

  /** The leaf primitive `isConstant(value, state, tolerance)`: if all voxels share one
      active state and every value is within tolerance of the first voxel's value, the
      first voxel's (value, state); otherwise nothing. */
  function LeafConstant<V>(l: Leaf<V>, near: (V, V) -> bool, dim: nat): (r: Option<(V, bool)>)
    requires dim > 0 && LeafValid(l, dim)
    ensures r.Some? ==> r.value == l.voxels[Coord(0, 0, 0)]
    ensures r.Some? <==> forall p | p in l.voxels ::
                           && l.voxels[p].1 == l.voxels[Coord(0, 0, 0)].1
                           && near(l.voxels[p].0, l.voxels[Coord(0, 0, 0)].0)
  {
    var first := l.voxels[Coord(0, 0, 0)];
    if forall p | p in l.voxels :: l.voxels[p].1 == first.1 && near(l.voxels[p].0, first.0)
    then Some(first)
    else None
  }

  datatype Tree<V> = Tree(background: V, leaves: map<Coord, Leaf<V>>, tiles: map<Coord, (V, bool)>)

  /** Leaves and tiles sit at aligned cube origins and never share a cube. */
  ghost predicate TreeValid<V>(t: Tree<V>, dim: nat)
  {
    && dim > 0
    && (forall k :: k in t.leaves ==> LeafOrigin(k, dim) == k && LeafValid(t.leaves[k], dim))
    && (forall k :: k in t.tiles ==> LeafOrigin(k, dim) == k)
    && t.leaves.Keys !! t.tiles.Keys
  }

  predicate IsEmpty<V>(t: Tree<V>)
  {
    t.leaves == map[] && t.tiles == map[]
  }

  /** Something (a leaf or a tile) is stored for the cube with origin `k`. */
  predicate Holds<V>(t: Tree<V>, k: Coord)
  {
    k in t.leaves || k in t.tiles
  }

  /** The leaf holding `xyz`, if there is one. */
  function ProbeConstLeaf<V>(t: Tree<V>, xyz: Coord, dim: nat): (r: Option<Leaf<V>>)
    requires dim > 0
    ensures r.Some? <==> LeafOrigin(xyz, dim) in t.leaves
    ensures r.Some? ==> r.value == t.leaves[LeafOrigin(xyz, dim)]
  {
    var k := LeafOrigin(xyz, dim);
    if k in t.leaves then Some(t.leaves[k]) else None
  }

  /** The value and active state of voxel `xyz`. */
  function ProbeValue<V>(t: Tree<V>, xyz: Coord, dim: nat): (r: (V, bool))
    requires TreeValid(t, dim)
    ensures !Holds(t, LeafOrigin(xyz, dim)) ==> r == (t.background, false)
    ensures LeafOrigin(xyz, dim) in t.tiles ==> r == t.tiles[LeafOrigin(xyz, dim)]
    ensures ProbeConstLeaf(t, xyz, dim).Some? ==> r == ProbeConstLeaf(t, xyz, dim).value.voxels[LocalCoord(xyz, dim)]
  {
    var k := LeafOrigin(xyz, dim);
    if k in t.leaves then t.leaves[k].voxels[LocalCoord(xyz, dim)]
    else if k in t.tiles then t.tiles[k]
    else (t.background, false)
  }

  /** Inserts `l` in place of whatever the cube of its origin held. */
  function AddLeaf<V>(t: Tree<V>, l: Leaf<V>, dim: nat): (r: Tree<V>)
    requires TreeValid(t, dim) && LeafValid(l, dim)
    ensures TreeValid(r, dim) && r.background == t.background
    ensures forall xyz :: ProbeValue(r, xyz, dim) ==
              if LeafOrigin(xyz, dim) == LeafOrigin(l.origin, dim)
              then l.voxels[LocalCoord(xyz, dim)] else ProbeValue(t, xyz, dim)
    ensures Holds(r, LeafOrigin(l.origin, dim))
    ensures forall k :: k != LeafOrigin(l.origin, dim) ==> Holds(r, k) == Holds(t, k)
  {
    var k := LeafOrigin(l.origin, dim);
    AlignedOrigin(l.origin, dim);
    Tree(t.background, t.leaves[k := l], t.tiles - {k})
  }

  /** Inserts a level-1 tile (value, active) in place of whatever the cube of `xyz` held. */
  function AddTile<V>(t: Tree<V>, xyz: Coord, value: V, active: bool, dim: nat): (r: Tree<V>)
    requires TreeValid(t, dim)
    ensures TreeValid(r, dim) && r.background == t.background
    ensures forall c :: ProbeValue(r, c, dim) ==
              if LeafOrigin(c, dim) == LeafOrigin(xyz, dim) then (value, active) else ProbeValue(t, c, dim)
    ensures Holds(r, LeafOrigin(xyz, dim))
    ensures forall k :: k != LeafOrigin(xyz, dim) ==> Holds(r, k) == Holds(t, k)
  {
    var k := LeafOrigin(xyz, dim);
    AlignedOrigin(xyz, dim);
    Tree(t.background, t.leaves - {k}, t.tiles[k := (value, active)])
  }

  /** A cube origin is its own cube origin. */
  lemma AlignedOrigin(c: Coord, dim: nat)
    requires dim > 0
    ensures LeafOrigin(LeafOrigin(c, dim), dim) == LeafOrigin(c, dim)
  {
    var o := LeafOrigin(c, dim);
    AlignDownInCube(o.x, o.x, dim);
    AlignDownInCube(o.y, o.y, dim);
    AlignDownInCube(o.z, o.z, dim);
  }
}
