/** The linear voxel order shared by the dense grid and the sparse tree: for a box whose
    extents are (nx, ny, nz), the local coordinate (i, j, k) lives at offset
    k + j*nz + i*(nz*ny), so z varies fastest and x slowest. The block partition of the
    dense-to-sparse converter enumerates its blocks in the same order. */
module Layout {

  function Offset(i: nat, j: nat, k: nat, ny: nat, nz: nat): nat
  {
    k + j * nz + i * (nz * ny)
  }

  lemma MulLe(a: int, b: int, c: nat)
    requires a <= b
    ensures a * c <= b * c
  {
  }

  /** Euclidean division is determined by the equation n == q*d + r with 0 <= r < d. */
  lemma DivModUnique(n: int, d: int, q: int, r: int)
    requires d > 0 && 0 <= r < d && n == q * d + r
    ensures n / d == q && n % d == r
  {
    var q', r' := n / d, n % d;
    assert n == q' * d + r';
    if q' < q {
      MulLe(q' + 1, q, d);
    } else if q < q' {
      MulLe(q + 1, q', d);
    }
  }

  /** The part of an offset below one x-slab is smaller than the slab. */
  lemma InSlab(j: nat, k: nat, ny: nat, nz: nat)
    requires j < ny && k < nz
    ensures k + j * nz < nz * ny
  {
    MulLe(j + 1, ny, nz);
  }

  lemma OffsetBound(i: nat, j: nat, k: nat, nx: nat, ny: nat, nz: nat)
    requires i < nx && j < ny && k < nz
    ensures Offset(i, j, k, ny, nz) < nx * (nz * ny)
  {
    InSlab(j, k, ny, nz);
    MulLe(i + 1, nx, nz * ny);
  }

  /** OffsetBound stated for every triple, as an implication. */
  lemma OffsetBoundIfInside(i: nat, j: nat, k: nat, nx: nat, ny: nat, nz: nat)
    ensures i < nx && j < ny && k < nz ==> Offset(i, j, k, ny, nz) < nx * (nz * ny)
  {
    if i < nx && j < ny && k < nz {
      OffsetBound(i, j, k, nx, ny, nz);
    }
  }

  /** The local coordinate stored at offset `n`: the inverse of Offset. */
  function Decode(n: nat, nx: nat, ny: nat, nz: nat): (r: (nat, nat, nat))
    requires ny > 0 && nz > 0 && n < nx * (nz * ny)
    ensures r.0 < nx && r.1 < ny && r.2 < nz
    ensures Offset(r.0, r.1, r.2, ny, nz) == n
  {
    DecodeFacts(n, nx, ny, nz);
    (n / (nz * ny), (n % (nz * ny)) / nz, n % (nz * ny) % nz)
  }

  lemma DecodeFacts(n: nat, nx: nat, ny: nat, nz: nat)
    requires ny > 0 && nz > 0 && n < nx * (nz * ny)
    ensures var s := nz * ny;
            var i, rem := n / s, n % s;
            0 <= i < nx && 0 <= rem / nz < ny && 0 <= rem % nz &&
            rem % nz + (rem / nz) * nz + i * s == n
  {
    var s := nz * ny;
    var i, rem := n / s, n % s;
    assert n == i * s + rem;
    if nx <= i {
      MulLe(nx, i, s);
    }
    var j, k := rem / nz, rem % nz;
    assert rem == j * nz + k;
    if ny <= j {
      MulLe(ny, j, nz);
    }
  }

  /** Offset is injective on the box: decoding an offset gives back its coordinate. */
  lemma {:induction false} DecodeOffset(i: nat, j: nat, k: nat, nx: nat, ny: nat, nz: nat)
    requires i < nx && j < ny && k < nz
    ensures Offset(i, j, k, ny, nz) < nx * (nz * ny)
    ensures Decode(Offset(i, j, k, ny, nz), nx, ny, nz) == (i, j, k)
  {
    OffsetBound(i, j, k, nx, ny, nz);
    var n, s := Offset(i, j, k, ny, nz), nz * ny;
    InSlab(j, k, ny, nz);
    DivModUnique(n, s, i, k + j * nz);
    DivModUnique(k + j * nz, nz, j, k);
  }

  /** Offsets follow the lexicographic order of (i, j, k). */
  lemma OffsetMonotone(i: nat, j: nat, k: nat, i': nat, j': nat, k': nat, ny: nat, nz: nat)
    requires j < ny && k < nz && j' < ny && k' < nz
    requires i < i' || (i == i' && (j < j' || (j == j' && k < k')))
    ensures Offset(i, j, k, ny, nz) < Offset(i', j', k', ny, nz)
  {
    if i < i' {
      InSlab(j, k, ny, nz);
      MulLe(i + 1, i', nz * ny);
    } else if j < j' {
      MulLe(j + 1, j', nz);
    }
  }

  /** Decoding preserves order: a smaller offset decodes to a lexicographically smaller
      coordinate. */
  lemma {:induction false} DecodeMonotone(n: nat, m: nat, nx: nat, ny: nat, nz: nat)
    requires ny > 0 && nz > 0 && n < m < nx * (nz * ny)
    ensures var a, b := Decode(n, nx, ny, nz), Decode(m, nx, ny, nz);
            a.0 < b.0 || (a.0 == b.0 && (a.1 < b.1 || (a.1 == b.1 && a.2 < b.2)))
  {
    var a, b := Decode(n, nx, ny, nz), Decode(m, nx, ny, nz);
    if !(a.0 < b.0 || (a.0 == b.0 && (a.1 < b.1 || (a.1 == b.1 && a.2 < b.2)))) {
      if a != b {
        OffsetMonotone(b.0, b.1, b.2, a.0, a.1, a.2, ny, nz);
      }
      assert false;
    }
  }

  /** Finishing a row of z moves the offset to the start of the next row. */
  lemma OffsetCarryZ(i: nat, j: nat, ny: nat, nz: nat)
    ensures Offset(i, j, nz, ny, nz) == Offset(i, j + 1, 0, ny, nz)
  {
  }

  /** Finishing an x slab moves the offset to the start of the next slab. */
  lemma OffsetCarryY(i: nat, ny: nat, nz: nat)
    ensures Offset(i, ny, 0, ny, nz) == Offset(i + 1, 0, 0, ny, nz)
  {
  }
}
