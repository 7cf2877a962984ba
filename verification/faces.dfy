/**
 * Face initialization at the start of every octant: each face array is
 * seeded, over its two free axes and every energy, angle and unknown, with
 * the externally supplied boundary value one cell outside the domain on the
 * side the octant's sweep enters from.
 */
module Faces {
  import opened Types
  import opened Octant
  import opened Axis

  /** The entries of a face array with free-axis extents n1 (inner, `a`)
      and n2 (outer, `b`), at the octant class the sweeper uses. */
  predicate InBlock(d: Dims, n1: int, n2: int, k: FaceIdx) {
    0 <= k.a < n1 && 0 <= k.b < n2 && 0 <= k.e < d.ne && 0 <= k.ang < d.na && 0 <= k.u < NU
    && k.octant == OCTANT_INDEX
  }

  function Block(d: Dims, n1: int, n2: int): (s: set<FaceIdx>)
    ensures forall k :: k in s <==> InBlock(d, n1, n2, k)
  {
    var s := set a, b, e, ang, u | 0 <= a < n1 && 0 <= b < n2 && 0 <= e < d.ne && 0 <= ang < d.na && 0 <= u < NU
                                   :: FaceIdx(a, b, e, ang, u, OCTANT_INDEX);
    assert forall k :: InBlock(d, n1, n2, k) ==> k in s by {
      forall k | InBlock(d, n1, n2, k)
        ensures k in s
      {
        assert k == FaceIdx(k.a, k.b, k.e, k.ang, k.u, OCTANT_INDEX);
      }
    }
    s
  }

  /** A face array with every block entry set from its coordinates. */
  function Fill(f: Face, d: Dims, n1: int, n2: int, val: (int, int, int, int, int) -> real): Face {
    map k | k in f.Keys + Block(d, n1, n2) :: if InBlock(d, n1, n2, k) then val(k.a, k.b, k.e, k.ang, k.u) else f[k]
  }

  /** Block entry k comes before loop counters (iu, i2, i1, ie, ia) in the
      initialization loop nest, whose order is u, b, a, e, ang. */
  predicate Done(d: Dims, n1: int, n2: int, k: FaceIdx, iu: int, i2: int, i1: int, ie: int, ia: int) {
    InBlock(d, n1, n2, k)
    && (k.u < iu || (k.u == iu && (k.b < i2 || (k.b == i2 && (k.a < i1 || (k.a == i1 && (k.e < ie || (k.e == ie && k.ang < ia))))))))
  }

  /** The two innermost loops (energy, angle) at fixed (iu, i2, i1). */
  method FillEnergiesAngles(f: Face, d: Dims, n1: int, n2: int, val: (int, int, int, int, int) -> real,
                            f0: Face, iu: int, i2: int, i1: int) returns (r: Face)
    requires d.Valid() && 0 <= iu < NU && 0 <= i2 < n2 && 0 <= i1 < n1
    requires forall k :: k in f <==> k in f0 || Done(d, n1, n2, k, iu, i2, i1, 0, 0)
    requires forall k | k in f :: f[k] == if Done(d, n1, n2, k, iu, i2, i1, 0, 0) then val(k.a, k.b, k.e, k.ang, k.u) else f0[k]
    ensures forall k :: k in r <==> k in f0 || Done(d, n1, n2, k, iu, i2, i1 + 1, 0, 0)
    ensures forall k | k in r :: r[k] == if Done(d, n1, n2, k, iu, i2, i1 + 1, 0, 0) then val(k.a, k.b, k.e, k.ang, k.u) else f0[k]
  {
    r := f;
    var ie := 0;
    while ie < d.ne
      invariant 0 <= ie <= d.ne
      invariant forall k :: k in r <==> k in f0 || Done(d, n1, n2, k, iu, i2, i1, ie, 0)
      invariant forall k | k in r :: r[k] == if Done(d, n1, n2, k, iu, i2, i1, ie, 0) then val(k.a, k.b, k.e, k.ang, k.u) else f0[k]
    {
      var ia := 0;
      while ia < d.na
        invariant 0 <= ia <= d.na
        invariant forall k :: k in r <==> k in f0 || Done(d, n1, n2, k, iu, i2, i1, ie, ia)
        invariant forall k | k in r :: r[k] == if Done(d, n1, n2, k, iu, i2, i1, ie, ia) then val(k.a, k.b, k.e, k.ang, k.u) else f0[k]
      {
        r := r[FaceIdx(i1, i2, ie, ia, iu, OCTANT_INDEX) := val(i1, i2, ie, ia, iu)];
        ia := ia + 1;
      }
      ie := ie + 1;
    }
  }

  /** The initialization loop nest of one face array: every block entry is
      written with its boundary value; entries outside the block (other octant
      classes included) keep their contents. */
  method FillFace(f: Face, d: Dims, n1: int, n2: int, val: (int, int, int, int, int) -> real) returns (r: Face)
    requires d.Valid()
    ensures forall k :: k in r <==> k in f || InBlock(d, n1, n2, k)
    ensures forall k | InBlock(d, n1, n2, k) :: k in r && r[k] == val(k.a, k.b, k.e, k.ang, k.u)
    ensures forall k | k in f && !InBlock(d, n1, n2, k) :: r[k] == f[k]
    ensures r == Fill(f, d, n1, n2, val)
  {
    r := f;
    var iu := 0;
    while iu < NU
      invariant 0 <= iu <= NU
      invariant forall k :: k in r <==> k in f || Done(d, n1, n2, k, iu, 0, 0, 0, 0)
      invariant forall k | k in r :: r[k] == if Done(d, n1, n2, k, iu, 0, 0, 0, 0) then val(k.a, k.b, k.e, k.ang, k.u) else f[k]
    {
      var i2 := 0;
      while i2 < n2
        invariant 0 <= i2 <= n2 || (n2 <= 0 && i2 == 0)
        invariant forall k :: k in r <==> k in f || Done(d, n1, n2, k, iu, i2, 0, 0, 0)
        invariant forall k | k in r :: r[k] == if Done(d, n1, n2, k, iu, i2, 0, 0, 0) then val(k.a, k.b, k.e, k.ang, k.u) else f[k]
      {
        var i1 := 0;
        while i1 < n1
          invariant 0 <= i1 <= n1 || (n1 <= 0 && i1 == 0)
          invariant forall k :: k in r <==> k in f || Done(d, n1, n2, k, iu, i2, i1, 0, 0)
          invariant forall k | k in r :: r[k] == if Done(d, n1, n2, k, iu, i2, i1, 0, 0) then val(k.a, k.b, k.e, k.ang, k.u) else f[k]
        {
          r := FillEnergiesAngles(r, d, n1, n2, val, f, iu, i2, i1);
          i1 := i1 + 1;
        }
        i2 := i2 + 1;
      }
      iu := iu + 1;
    }
    var l := Fill(f, d, n1, n2, val);
    assert forall k :: k in r <==> k in l;
    assert forall k | k in r :: r[k] == l[k];
  }

  /** Boundary values of the xy face: z fixed one cell outside the domain. */
  function FacexyValues(d: Dims, q: Quantities, dirs: Dirs): (int, int, int, int, int) -> real
    requires d.Valid()
  {
    var iz := Boundary(d.nz, dirs.z);
    (ix, iy, ie, ia, iu) => q.initFacexy(ix, iy, iz, ie, ia, iu)
  }

  /** Boundary values of the xz face: y fixed one cell outside the domain. */
  function FacexzValues(d: Dims, q: Quantities, dirs: Dirs): (int, int, int, int, int) -> real
    requires d.Valid()
  {
    var iy := Boundary(d.ny, dirs.y);
    (ix, iz, ie, ia, iu) => q.initFacexz(ix, iy, iz, ie, ia, iu)
  }

  /** Boundary values of the yz face: x fixed one cell outside the domain. */
  function FaceyzValues(d: Dims, q: Quantities, dirs: Dirs): (int, int, int, int, int) -> real
    requires d.Valid()
  {
    var ix := Boundary(d.nx, dirs.x);
    (iy, iz, ie, ia, iu) => q.initFaceyz(ix, iy, iz, ie, ia, iu)
  }

  /** The sweeper's buffers after the three face arrays are seeded. */
  function InitFaces(s: Sweeper, d: Dims, q: Quantities, dirs: Dirs): Sweeper
    requires d.Valid()
  {
    s.(facexy := Fill(s.facexy, d, d.nx, d.ny, FacexyValues(d, q, dirs)),
       facexz := Fill(s.facexz, d, d.nx, d.nz, FacexzValues(d, q, dirs)),
       faceyz := Fill(s.faceyz, d, d.ny, d.nz, FaceyzValues(d, q, dirs)))
  }

  /** Face initialization of one octant: each face entry in the block receives
      its initializer's value with the fixed coordinate at the boundary index;
      the local vector and every entry outside the blocks are untouched. */
  method InitializeFaces(s: Sweeper, d: Dims, q: Quantities, dirs: Dirs) returns (r: Sweeper)
    requires d.Valid()
    ensures r.vLocal == s.vLocal
    ensures forall k | InBlock(d, d.nx, d.ny, k) ::
              k in r.facexy && r.facexy[k] == q.initFacexy(k.a, k.b, Boundary(d.nz, dirs.z), k.e, k.ang, k.u)
    ensures forall k | InBlock(d, d.nx, d.nz, k) ::
              k in r.facexz && r.facexz[k] == q.initFacexz(k.a, Boundary(d.ny, dirs.y), k.b, k.e, k.ang, k.u)
    ensures forall k | InBlock(d, d.ny, d.nz, k) ::
              k in r.faceyz && r.faceyz[k] == q.initFaceyz(Boundary(d.nx, dirs.x), k.a, k.b, k.e, k.ang, k.u)
    ensures forall k | k in s.facexy && !InBlock(d, d.nx, d.ny, k) :: k in r.facexy && r.facexy[k] == s.facexy[k]
    ensures forall k | k in s.facexz && !InBlock(d, d.nx, d.nz, k) :: k in r.facexz && r.facexz[k] == s.facexz[k]
    ensures forall k | k in s.faceyz && !InBlock(d, d.ny, d.nz, k) :: k in r.faceyz && r.faceyz[k] == s.faceyz[k]
    ensures r == InitFaces(s, d, q, dirs)
  {
    var xy := FillFace(s.facexy, d, d.nx, d.ny, FacexyValues(d, q, dirs));
    var xz := FillFace(s.facexz, d, d.nx, d.nz, FacexzValues(d, q, dirs));
    var yz := FillFace(s.faceyz, d, d.ny, d.nz, FaceyzValues(d, q, dirs));
    r := s.(facexy := xy, facexz := xz, faceyz := yz);
  }
}
