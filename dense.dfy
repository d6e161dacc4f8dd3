/** The dense grid: a flat value array addressed by an inclusive, signed coordinate box,
    with z the fastest-varying axis (the layout of module Layout). */
module DenseGrid {
  import opened Coords
  import Layout

  /** Who owns the value array: the grid allocated it, or it wraps a caller's array
      that the caller keeps alive and large enough. */
  datatype Storage = Owned | Borrowed

  /** The one failure of construction: the coordinate box is empty (a ValueError). */
  datatype DenseError = EmptyBoundingBox

  datatype Result<T> = Ok(value: T) | Err(error: DenseError)

  class Dense<V(0)> {
    /** Signed coordinates of the domain the grid represents. */
    const bbox: CoordBBox
    /** Stride between neighbouring y rows (the z extent). */
    const yStride: nat
    /** Stride between neighbouring x slabs (the y extent times the z extent). */
    const xStride: nat
    const data: array<V>
    const storage: Storage

    ghost predicate Valid()
    {
      && !bbox.IsEmpty()
      && yStride == bbox.Dim().z
      && xStride == yStride * bbox.Dim().y
      && bbox.Volume() <= data.Length
    }

    /** Sets the fields as the member initialisers do, for a box already known to be
        non-empty; the public construction paths below perform the emptiness check. */
    constructor Init(b: CoordBBox, a: array<V>, s: Storage)
      requires !b.IsEmpty() && b.Volume() <= a.Length
      ensures Valid()
      ensures bbox == b && data == a && storage == s
    {
      bbox := b;
      yStride := b.Dim().z;
      xStride := b.Dim().z * b.Dim().y;
      data := a;
      storage := s;
    }

    /** Allocates an owned array of one value per voxel, refusing an empty box. */
    static method InitArray(b: CoordBBox) returns (r: Result<array<V>>)
      ensures r.Err? <==> b.IsEmpty()
      ensures r.Err? ==> r.error == EmptyBoundingBox
      ensures r.Ok? ==> fresh(r.value) && r.value.Length == b.Volume()
    {
      if b.IsEmpty() {
        return Err(EmptyBoundingBox);
      }
      var n := b.Volume();
      var a := new V[n];
      return Ok(a);
    }

    /** A grid over `b` with its own, uninitialised array. */
    static method Create(b: CoordBBox) returns (r: Result<Dense<V>>)
      ensures r.Err? <==> b.IsEmpty()
      ensures r.Ok? ==> && fresh(r.value) && fresh(r.value.data) && r.value.Valid()
                        && r.value.bbox == b && r.value.storage == Owned
                        && r.value.ValueCount() == r.value.data.Length
    {
      var arr := InitArray(b);
      if arr.Err? {
        return Err(arr.error);
      }
      var g := new Dense<V>.Init(b, arr.value, Owned);
      return Ok(g);
    }

    /** A grid over `b` with its own array, every voxel set to `value`. */
    static method CreateFilled(b: CoordBBox, value: V) returns (r: Result<Dense<V>>)
      ensures r.Err? <==> b.IsEmpty()
      ensures r.Ok? ==> && fresh(r.value) && fresh(r.value.data) && r.value.Valid()
                        && r.value.bbox == b && r.value.storage == Owned
                        && r.value.data[..] == seq(r.value.ValueCount(), _ => value)
    {
      var arr := InitArray(b);
      if arr.Err? {
        return Err(arr.error);
      }
      var g := new Dense<V>.Init(b, arr.value, Owned);
      g.Fill(value);
      return Ok(g);
    }

    /** A grid over `b` that wraps the caller's array `a`, which must hold at least one
        value per voxel; nothing is copied. */
    static method Wrap(b: CoordBBox, a: array<V>) returns (r: Result<Dense<V>>)
      requires b.IsEmpty() || b.Volume() <= a.Length
      ensures r.Err? <==> b.IsEmpty()
      ensures r.Ok? ==> && fresh(r.value) && r.value.Valid()
                        && r.value.bbox == b && r.value.data == a && r.value.storage == Borrowed
    {
      if b.IsEmpty() {
        return Err(EmptyBoundingBox);
      }
      var g := new Dense<V>.Init(b, a, Borrowed);
      return Ok(g);
    }

    /** A grid of extents `dim` whose first voxel is `min`, so its box is
        [min, min + dim - 1]; a zero or negative extent gives an empty box. */
    static method CreateWithDim(dim: Coord, min: Coord := Coord(0, 0, 0)) returns (r: Result<Dense<V>>)
      ensures r.Err? <==> (dim.x <= 0 || dim.y <= 0 || dim.z <= 0)
      ensures r.Ok? ==> && fresh(r.value) && r.value.Valid() && r.value.storage == Owned
                        && r.value.bbox == CoordBBox(min, min.Plus(dim).OffsetBy(-1))
                        && r.value.bbox.Dim() == dim
                        && r.value.ValueCount() == dim.x * dim.y * dim.z
    {
      var b := CoordBBox(min, min.Plus(dim.OffsetBy(-1)));
      assert b.Dim() == dim;
      r := Create(b);
    }

    /** The number of voxels; the x stride times the x extent. */
    function ValueCount(): (n: nat)
      requires Valid()
      ensures n == xStride * bbox.Dim().x
      ensures n > 0 && n <= data.Length
    {
      var d := bbox.Dim();
      Layout.MulLe(1, d.z, d.y);
      Layout.MulLe(1, d.z * d.y, d.x);
      bbox.Volume()
    }

    /** Offset of the unsigned local coordinate (i, j, k), counted from bbox.min. */
    function CoordToOffset(i: nat, j: nat, k: nat): (off: nat)
      requires Valid()
      ensures i < bbox.Dim().x && j < bbox.Dim().y && k < bbox.Dim().z ==> off < ValueCount()
    {
      var d := bbox.Dim();
      Layout.OffsetBoundIfInside(i, j, k, d.x, d.y, d.z);
      k + j * yStride + i * xStride
    }

    /** The local coordinate stored at `off`; the inverse of CoordToOffset on the box. */
    function OffsetToLocal(off: nat): (r: (nat, nat, nat))
      requires Valid() && off < ValueCount()
      ensures r.0 < bbox.Dim().x && r.1 < bbox.Dim().y && r.2 < bbox.Dim().z
      ensures CoordToOffset(r.0, r.1, r.2) == off
    {
      var d := bbox.Dim();
      Layout.Decode(off, d.x, d.y, d.z)
    }

    /** Offset of the signed coordinate `xyz`, which must lie in the box. */
    function CoordToOffsetAt(xyz: Coord): (off: nat)
      requires Valid() && bbox.IsInside(xyz)
      ensures off < ValueCount()
      ensures OffsetToLocal(off) == (xyz.x - bbox.min.x, xyz.y - bbox.min.y, xyz.z - bbox.min.z)
    {
      var d, l := bbox.Dim(), xyz.Minus(bbox.min);
      Layout.DecodeOffset(l.x, l.y, l.z, d.x, d.y, d.z);
      CoordToOffset(l.x, l.y, l.z)
    }

    /** The signed coordinate stored at `off`. */
    function OffsetToCoord(off: nat): (c: Coord)
      requires Valid() && off < ValueCount()
      ensures bbox.IsInside(c)
    {
      var l := OffsetToLocal(off);
      bbox.min.Plus(Coord(l.0, l.1, l.2))
    }

    /** The value stored at array offset `off`. */
    function GetValue(off: nat): (v: V)
      reads data
      requires Valid() && off < ValueCount()
      ensures v == data[off]
    {
      data[off]
    }

    /** The value of voxel (i, j, k): the value at that coordinate's offset. */
    function GetValueLocal(i: nat, j: nat, k: nat): (v: V)
      reads data
      requires Valid() && i < bbox.Dim().x && j < bbox.Dim().y && k < bbox.Dim().z
      ensures v == GetValue(CoordToOffset(i, j, k))
    {
      data[CoordToOffset(i, j, k)]
    }

    /** The value at signed coordinate `xyz`: the value of the local voxel xyz - bbox.min. */
    function GetValueAt(xyz: Coord): (v: V)
      reads data
      requires Valid() && bbox.IsInside(xyz)
      ensures v == GetValueLocal(xyz.x - bbox.min.x, xyz.y - bbox.min.y, xyz.z - bbox.min.z)
    {
      data[CoordToOffsetAt(xyz)]
    }

    method SetValue(off: nat, value: V)
      requires Valid() && off < ValueCount()
      modifies data
      ensures data[..] == old(data[..])[off := value]
      ensures GetValue(off) == value
    {
      data[off] := value;
    }

    /** Writes voxel (i, j, k); no other voxel of the box changes. */
    method SetValueLocal(i: nat, j: nat, k: nat, value: V)
      requires Valid() && i < bbox.Dim().x && j < bbox.Dim().y && k < bbox.Dim().z
      modifies data
      ensures data[..] == old(data[..])[CoordToOffset(i, j, k) := value]
      ensures GetValueLocal(i, j, k) == value
      ensures forall i': nat, j': nat, k': nat ::
                i' < bbox.Dim().x && j' < bbox.Dim().y && k' < bbox.Dim().z && (i', j', k') != (i, j, k)
                ==> GetValueLocal(i', j', k') == old(GetValueLocal(i', j', k'))
    {
      data[CoordToOffset(i, j, k)] := value;
      forall i': nat, j': nat, k': nat |
        i' < bbox.Dim().x && j' < bbox.Dim().y && k' < bbox.Dim().z && (i', j', k') != (i, j, k)
        ensures CoordToOffset(i', j', k') != CoordToOffset(i, j, k)
      {
        LocalInjective(i, j, k, i', j', k');
      }
    }

    /** Writes the voxel at signed coordinate `xyz`; no other voxel of the box changes. */
    method SetValueAt(xyz: Coord, value: V)
      requires Valid() && bbox.IsInside(xyz)
      modifies data
      ensures data[..] == old(data[..])[CoordToOffsetAt(xyz) := value]
      ensures GetValueAt(xyz) == value
      ensures forall c :: bbox.IsInside(c) && c != xyz ==> GetValueAt(c) == old(GetValueAt(c))
    {
      data[CoordToOffsetAt(xyz)] := value;
      forall c | bbox.IsInside(c) && c != xyz
        ensures CoordToOffsetAt(c) != CoordToOffsetAt(xyz)
      {
        SignedInjective(c, xyz);
      }
    }

    /** Overwrites every voxel with `value`; array elements past the box (possible in a
        wrapped array) are left alone. */
    method Fill(value: V)
      requires Valid()
      modifies data
      ensures forall o :: 0 <= o < ValueCount() ==> data[o] == value
      ensures forall o :: ValueCount() <= o < data.Length ==> data[o] == old(data[o])
    {
      var size: nat := ValueCount();
      var a: nat := 0;
      while size > 0
        invariant a + size == ValueCount()
        invariant forall o :: 0 <= o < a ==> data[o] == value
        invariant forall o :: a <= o < data.Length ==> data[o] == old(data[o])
      {
        data[a] := value;
        a := a + 1;
        size := size - 1;
      }
    }

    /** Distinct local coordinates of the box have distinct offsets. */
    lemma LocalInjective(i: nat, j: nat, k: nat, i': nat, j': nat, k': nat)
      requires Valid()
      requires i < bbox.Dim().x && j < bbox.Dim().y && k < bbox.Dim().z
      requires i' < bbox.Dim().x && j' < bbox.Dim().y && k' < bbox.Dim().z
      requires (i, j, k) != (i', j', k')
      ensures CoordToOffset(i, j, k) != CoordToOffset(i', j', k')
    {
      var d := bbox.Dim();
      Layout.DecodeOffset(i, j, k, d.x, d.y, d.z);
      Layout.DecodeOffset(i', j', k', d.x, d.y, d.z);
    }

    /** Every offset below ValueCount() is the offset of exactly one local coordinate. */
    lemma LocalOnto(off: nat)
      requires Valid() && off < ValueCount()
      ensures exists i: nat, j: nat, k: nat ::
                i < bbox.Dim().x && j < bbox.Dim().y && k < bbox.Dim().z && CoordToOffset(i, j, k) == off
    {
      var l := OffsetToLocal(off);
      assert CoordToOffset(l.0, l.1, l.2) == off;
    }

    /** Distinct signed coordinates of the box have distinct offsets. */
    lemma SignedInjective(c: Coord, c': Coord)
      requires Valid() && bbox.IsInside(c) && bbox.IsInside(c') && c != c'
      ensures CoordToOffsetAt(c) != CoordToOffsetAt(c')
    {
      var l, l' := c.Minus(bbox.min), c'.Minus(bbox.min);
      LocalInjective(l.x, l.y, l.z, l'.x, l'.y, l'.z);
    }

    /** The signed offset is the local offset of the coordinate relative to bbox.min,
        and OffsetToCoord undoes it. */
    lemma SignedRoundTrip(xyz: Coord)
      requires Valid() && bbox.IsInside(xyz)
      ensures CoordToOffsetAt(xyz) == CoordToOffset(xyz.x - bbox.min.x, xyz.y - bbox.min.y, xyz.z - bbox.min.z)
      ensures OffsetToCoord(CoordToOffsetAt(xyz)) == xyz
    {
    }

    /** OffsetToCoord lands on a coordinate whose offset is the one decoded. */
    lemma OffsetRoundTrip(off: nat)
      requires Valid() && off < ValueCount()
      ensures CoordToOffsetAt(OffsetToCoord(off)) == off
    {
      var c := OffsetToCoord(off);
      var l := OffsetToLocal(off);
      assert c.Minus(bbox.min) == Coord(l.0, l.1, l.2);
    }
  }
}
