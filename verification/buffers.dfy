/**
 * The sweeper's scratch buffers as Sweeper_ctor allocates them: v_local
 * holds one slot per (angle, unknown), each face array one slot per (two
 * free axes, energy, angle, unknown) at the single octant class used. The
 * sizes are exactly the element counts passed to the allocator, and a
 * sweep never writes a slot outside these buffers.
 */
module Buffers {
  import opened Types
  import opened Octant
  import opened Axis
  import opened Transforms
  import opened Faces
  import opened Sweep

  /** The slots of buffers of the shape Sweeper_ctor allocates for d. */
  predicate Allocated(d: Dims, s: Sweeper) {
    && s.vLocal.Keys == AngleDomain(d)
    && s.facexy.Keys == Block(d, d.nx, d.ny)
    && s.facexz.Keys == Block(d, d.nx, d.nz)
    && s.faceyz.Keys == Block(d, d.ny, d.nz)
  }

  /** Sweeper_ctor: fresh buffers of the allocated shape. The allocator
      leaves their contents unspecified, so slot by slot they are whatever
      lc (for v_local) and fxy, fxz, fyz (for the faces) say. */
  function Construct(d: Dims, lc: AngleIdx -> real, fxy: FaceIdx -> real, fxz: FaceIdx -> real, fyz: FaceIdx -> real): (s: Sweeper)
    ensures Allocated(d, s)
    ensures forall k | k in s.vLocal :: s.vLocal[k] == lc(k)
    ensures forall k | k in s.facexy :: s.facexy[k] == fxy(k)
    ensures forall k | k in s.facexz :: s.facexz[k] == fxz(k)
    ensures forall k | k in s.faceyz :: s.faceyz[k] == fyz(k)
  {
    Sweeper(map k | k in AngleDomain(d) :: lc(k),
            map k | k in Block(d, d.nx, d.ny) :: fxy(k),
            map k | k in Block(d, d.nx, d.nz) :: fxz(k),
            map k | k in Block(d, d.ny, d.nz) :: fyz(k))
  }

  /** The integers 0 .. n - 1. */
  function Range(n: int): (r: set<int>)
    ensures forall i :: i in r <==> 0 <= i < n
    decreases n
  {
    if n <= 0 then {} else Range(n - 1) + {n - 1}
  }

  lemma {:induction false} RangeSize(n: nat)
    ensures |Range(n)| == n
  {
    if n > 0 {
      RangeSize(n - 1);
    }
  }

  /** The set of f(x, y) over x in X and y in Y. */
  function Image2<A, B, C>(X: set<A>, Y: set<B>, f: (A, B) -> C): set<C> {
    set x, y | x in X && y in Y :: f(x, y)
  }

  /** One row of a product: the images of a fixed x paired with each y. */
  lemma {:induction false} RowSize<A, B, C>(x: A, Y: set<B>, f: (A, B) -> C)
    requires forall y1, y2 | y1 in Y && y2 in Y && f(x, y1) == f(x, y2) :: y1 == y2
    ensures |Image2({x}, Y, f)| == |Y|
    decreases |Y|
  {
    if Y != {} {
      var y :| y in Y;
      var Y' := Y - {y};
      RowSize(x, Y', f);
      assert Image2({x}, Y, f) == Image2({x}, Y', f) + {f(x, y)};
      assert f(x, y) !in Image2({x}, Y', f);
    }
  }

  lemma MulSucc(a: int, b: int)
    ensures (a + 1) * b == a * b + b
  {
  }

  /** Splitting one x off X splits its image into the rest and a row. */
  lemma ImageSplit<A, B, C>(X: set<A>, Y: set<B>, f: (A, B) -> C, x: A)
    requires x in X
    ensures Image2(X, Y, f) == Image2(X - {x}, Y, f) + Image2({x}, Y, f)
  {
    var all, rest, row := Image2(X, Y, f), Image2(X - {x}, Y, f), Image2({x}, Y, f);
    forall z | z in all
      ensures z in rest + row
    {
      var a, b :| a in X && b in Y && z == f(a, b);
      if a == x {
        assert z in row;
      } else {
        assert z in rest;
      }
    }
  }

  /** Under injectivity, the row of x and the image of the rest are disjoint. */
  lemma ImageDisjoint<A, B, C>(X: set<A>, Y: set<B>, f: (A, B) -> C, x: A)
    requires x in X
    requires forall x1, y1, x2, y2 | x1 in X && y1 in Y && x2 in X && y2 in Y && f(x1, y1) == f(x2, y2) :: x1 == x2 && y1 == y2
    ensures Image2(X - {x}, Y, f) !! Image2({x}, Y, f)
  {
    forall z | z in Image2({x}, Y, f)
      ensures z !in Image2(X - {x}, Y, f)
    {
      var b :| b in Y && z == f(x, b);
      forall a, b' | a in X - {x} && b' in Y
        ensures z != f(a, b')
      {
        assert a != x;
      }
    }
  }

  /** An injective image of a product of two sets has |X| * |Y| elements. */
  lemma {:induction false} ProductSize<A, B, C>(X: set<A>, Y: set<B>, f: (A, B) -> C)
    requires forall x1, y1, x2, y2 | x1 in X && y1 in Y && x2 in X && y2 in Y && f(x1, y1) == f(x2, y2) :: x1 == x2 && y1 == y2
    ensures |Image2(X, Y, f)| == |X| * |Y|
    decreases |X|
  {
    if X != {} {
      var x :| x in X;
      var X' := X - {x};
      ProductSize(X', Y, f);
      RowSize(x, Y, f);
      ImageSplit(X, Y, f, x);
      ImageDisjoint(X, Y, f, x);
      assert |Image2(X, Y, f)| == |Image2(X', Y, f)| + |Image2({x}, Y, f)|;
      assert |X| == |X'| + 1;
      MulSucc(|X'|, |Y|);
      assert |Image2(X, Y, f)| == |X'| * |Y| + |Y|;
    }
  }

  function MkAngle(ia: int, iu: int): AngleIdx { AngleIdx(ia, iu) }
  function MkPair(a: int, b: int): (int, int) { (a, b) }
  function AddE(x: (int, int), e: int): ((int, int), int) { (x, e) }
  function AddAng(x: ((int, int), int), ang: int): (((int, int), int), int) { (x, ang) }
  function MkFace(x: (((int, int), int), int), u: int): FaceIdx {
    FaceIdx(x.0.0.0, x.0.0.1, x.0.1, x.1, u, OCTANT_INDEX)
  }

  /** v_local has na * NU slots. */
  lemma LocalSize(d: Dims)
    requires d.Valid()
    ensures |AngleDomain(d)| == d.na * NU
  {
    RangeSize(d.na);
    RangeSize(NU);
    ProductSize(Range(d.na), Range(NU), MkAngle);
    var s := Image2(Range(d.na), Range(NU), MkAngle);
    forall k | k in AngleDomain(d)
      ensures k in s
    {
      assert MkAngle(k.ang, k.u) == k;
    }
    assert AngleDomain(d) == s;
  }

  /** The (a, b, e, ang) part of a face block, as nested pairs. */
  function FaceKeys(d: Dims, n1: int, n2: int): set<(((int, int), int), int)> {
    Image2(Image2(Image2(Range(n1), Range(n2), MkPair), Range(d.ne), AddE), Range(d.na), AddAng)
  }

  lemma FaceKeysSize(d: Dims, n1: nat, n2: nat)
    requires d.Valid()
    ensures |FaceKeys(d, n1, n2)| == n1 * n2 * d.ne * d.na
  {
    RangeSize(n1);
    RangeSize(n2);
    RangeSize(d.ne);
    RangeSize(d.na);
    var p1 := Image2(Range(n1), Range(n2), MkPair);
    var p2 := Image2(p1, Range(d.ne), AddE);
    ProductSize(Range(n1), Range(n2), MkPair);
    ProductSize(p1, Range(d.ne), AddE);
    ProductSize(p2, Range(d.na), AddAng);
  }

  lemma InFaceKeys(d: Dims, n1: int, n2: int, k: FaceIdx)
    requires InBlock(d, n1, n2, k)
    ensures (((k.a, k.b), k.e), k.ang) in FaceKeys(d, n1, n2)
  {
    var p1 := Image2(Range(n1), Range(n2), MkPair);
    var p2 := Image2(p1, Range(d.ne), AddE);
    assert MkPair(k.a, k.b) in p1;
    assert AddE((k.a, k.b), k.e) in p2;
    assert AddAng(((k.a, k.b), k.e), k.ang) in Image2(p2, Range(d.na), AddAng);
  }

  /** A face array has n1 * n2 * ne * na * NU slots. */
  lemma FaceSize(d: Dims, n1: nat, n2: nat)
    requires d.Valid()
    ensures |Block(d, n1, n2)| == n1 * n2 * d.ne * d.na * NU
  {
    RangeSize(NU);
    FaceKeysSize(d, n1, n2);
    ProductSize(FaceKeys(d, n1, n2), Range(NU), MkFace);
    var s := Image2(FaceKeys(d, n1, n2), Range(NU), MkFace);
    forall k | k in Block(d, n1, n2)
      ensures k in s
    {
      InFaceKeys(d, n1, n2, k);
      assert MkFace((((k.a, k.b), k.e), k.ang), k.u) == k;
    }
    forall k | k in s
      ensures k in Block(d, n1, n2)
    {
      var x, u :| x in FaceKeys(d, n1, n2) && u in Range(NU) && k == MkFace(x, u);
    }
    assert Block(d, n1, n2) == s;
  }

  /** Sweeper_ctor's allocations: na * NU local slots and, per face array,
      the product of its two free extents with ne * na * NU. */
  lemma AllocatedSizes(d: Dims, s: Sweeper)
    requires d.Valid() && Allocated(d, s)
    ensures |s.vLocal| == d.na * NU
    ensures |s.facexy| == d.nx * d.ny * d.ne * d.na * NU
    ensures |s.facexz| == d.nx * d.nz * d.ne * d.na * NU
    ensures |s.faceyz| == d.ny * d.nz * d.ne * d.na * NU
  {
    LocalSize(d);
    FaceSize(d, d.nx, d.ny);
    FaceSize(d, d.nx, d.nz);
    FaceSize(d, d.ny, d.nz);
  }

  /** A cell step writes only allocated slots. */
  lemma StepAllocated(p: Problem, s: Sweeper, c: Cell, ie: int)
    requires p.dims.Valid() && Allocated(p.dims, s)
    ensures Allocated(p.dims, Step(p, s, c, ie))
  {
    LoadSlots(s.vLocal, p.dims, p.q.aFromM, p.vi, c, ie);
  }

  /** So does every prefix of an octant's pass. */
  lemma {:induction false} RunAllocated(p: Problem, dirs: Dirs, s: Sweeper, ie: int, pz: int, py: int, px: int)
    requires p.dims.Valid() && Allocated(p.dims, s)
    ensures Allocated(p.dims, Run(p, dirs, s, ie, pz, py, px))
    decreases ie, pz, py, px
  {
    if px > 0 {
      RunAllocated(p, dirs, s, ie, pz, py, px - 1);
      StepAllocated(p, Run(p, dirs, s, ie, pz, py, px - 1), CellAt(p.dims, dirs, pz, py, px - 1), ie);
    } else if py > 0 {
      RunAllocated(p, dirs, s, ie, pz, py - 1, p.dims.nx);
    } else if pz > 0 {
      RunAllocated(p, dirs, s, ie, pz - 1, p.dims.ny, 0);
    } else if ie > 0 {
      RunAllocated(p, dirs, s, ie - 1, p.dims.nz, 0, 0);
    }
  }

  /** Seeding the faces writes exactly the allocated face slots. */
  lemma InitFacesAllocated(s: Sweeper, d: Dims, q: Quantities, dirs: Dirs)
    requires d.Valid() && Allocated(d, s)
    ensures Allocated(d, InitFaces(s, d, q, dirs))
  {
    var r := InitFaces(s, d, q, dirs);
    assert r.facexy.Keys == Block(d, d.nx, d.ny);
    assert r.facexz.Keys == Block(d, d.nx, d.nz);
    assert r.faceyz.Keys == Block(d, d.ny, d.nz);
  }

  /** A whole sweep, octant after octant, stays inside the buffers
      Sweeper_ctor allocated: no write lands outside them. */
  lemma {:induction false} SweepAllocated(p: Problem, s0: Sweeper, n: int)
    requires p.dims.Valid() && 0 <= n <= NOCTANT && Allocated(p.dims, s0)
    ensures Allocated(p.dims, AfterOctants(p, s0, n))
    ensures n < NOCTANT ==> Allocated(p.dims, OctantStart(p, s0, n))
    decreases n
  {
    if n > 0 {
      SweepAllocated(p, s0, n - 1);
      RunAllocated(p, Decode(n - 1), OctantStart(p, s0, n - 1), p.dims.ne, 0, 0, 0);
    }
    if n < NOCTANT {
      InitFacesAllocated(AfterOctants(p, s0, n), p.dims, p.q, Decode(n));
    }
  }
}
