/**
 * Shared definitions for the simple serial sweeper: grid dimensions, the
 * compile-time constants, the index records of the state, angle and face
 * arrays, the sweeper's scratch buffers and the externally supplied
 * Quantities bundle (matrices, face initializers and the cell solve).
 *
 * Arrays are modelled as maps keyed by their multi-index, so no memory
 * layout is assumed; the scalar type is `real`, so every sum is exact.
 */
module Types {

  type Positive = n: int | n > 0 witness 1

  /** Number of sweep directions: one per sign combination of the three axes. */
  const NOCTANT: int := 8

  /** The single octant class the simple sweeper uses for every octant:
      the face arrays are read and written at this slot only. */
  const OCTANT_INDEX: int := 0

  /** Batch width of simultaneously solved right-hand sides; a build-time
      constant whose value is left open (only its positivity is used). */
  const NU: Positive

  /** Grid extents, energy groups, angles and moments. */
  datatype Dims = Dims(nx: int, ny: int, nz: int, ne: int, na: int, nm: int)
  {
    predicate Valid() {
      nx > 0 && ny > 0 && nz > 0 && ne > 0 && na > 0 && nm > 0
    }
  }

  datatype Cell = Cell(x: int, y: int, z: int)

  /** Index of the input and output state fields: (cell, energy, moment, unknown). */
  datatype StateIdx = StateIdx(cell: Cell, e: int, m: int, u: int)

  /** Index of the local angle-space vector: (angle, unknown). */
  datatype AngleIdx = AngleIdx(ang: int, u: int)

  /** Index of a face array: the two free spatial axes, energy, angle,
      unknown and octant class. */
  datatype FaceIdx = FaceIdx(a: int, b: int, e: int, ang: int, u: int, octant: int)

  type Field = map<StateIdx, real>
  type Face = map<FaceIdx, real>

  /** The sweeper's scratch buffers. */
  datatype Sweeper = Sweeper(vLocal: map<AngleIdx, real>, facexy: Face, facexz: Face, faceyz: Face)

  /** Two sets of buffers with the same slots: the solve updates the
      sweeper's fixed-size buffers in place, never adding or removing one. */
  predicate SameShape(a: Sweeper, b: Sweeper) {
    && a.vLocal.Keys == b.vLocal.Keys && a.facexy.Keys == b.facexy.Keys
    && a.facexz.Keys == b.facexz.Keys && a.faceyz.Keys == b.faceyz.Keys
  }

  /** A cell solve: given the buffers, the cell, the energy group and the
      octant class, the buffers it leaves, of the same shape. */
  type Solve = f: (Sweeper, Cell, int, int) -> Sweeper | forall s, c, e, o :: SameShape(f(s, c, e, o), s)
    witness (s: Sweeper, c: Cell, e: int, o: int) => s

  /** The externally supplied physics: the two transform matrices indexed
      (moment, angle), the three face initializers taking
      (ix, iy, iz, ie, ia, iu), and the cell solve taking the buffers, the
      cell, the energy group and the octant class. */
  datatype Quantities = Quantities(
    aFromM: (int, int) -> real,
    mFromA: (int, int) -> real,
    initFacexy: (int, int, int, int, int, int) -> real,
    initFacexz: (int, int, int, int, int, int) -> real,
    initFaceyz: (int, int, int, int, int, int) -> real,
    solve: Solve)

  predicate InGrid(d: Dims, c: Cell) {
    0 <= c.x < d.nx && 0 <= c.y < d.ny && 0 <= c.z < d.nz
  }

  predicate InState(d: Dims, k: StateIdx) {
    InGrid(d, k.cell) && 0 <= k.e < d.ne && 0 <= k.m < d.nm && 0 <= k.u < NU
  }

  predicate InAngles(d: Dims, k: AngleIdx) {
    0 <= k.ang < d.na && 0 <= k.u < NU
  }

  /** Every index of a state field of the given dimensions. */
  function StateDomain(d: Dims): (s: set<StateIdx>)
    ensures forall k :: k in s <==> InState(d, k)
  {
    var s := set x, y, z, e, m, u | 0 <= x < d.nx && 0 <= y < d.ny && 0 <= z < d.nz
                                    && 0 <= e < d.ne && 0 <= m < d.nm && 0 <= u < NU
                                    :: StateIdx(Cell(x, y, z), e, m, u);
    assert forall k :: InState(d, k) ==> k in s by {
      forall k | InState(d, k)
        ensures k in s
      {
        assert k == StateIdx(Cell(k.cell.x, k.cell.y, k.cell.z), k.e, k.m, k.u);
      }
    }
    s
  }

  /** Every index of the local angle-space vector. */
  function AngleDomain(d: Dims): (s: set<AngleIdx>)
    ensures forall k :: k in s <==> InAngles(d, k)
  {
    var s := set ia, iu | 0 <= ia < d.na && 0 <= iu < NU :: AngleIdx(ia, iu);
    assert forall k :: InAngles(d, k) ==> k in s by {
      forall k | InAngles(d, k)
        ensures k in s
      {
        assert k == AngleIdx(k.ang, k.u);
      }
    }
    s
  }

  /** A state field with every entry zero: `initialize_state_zero`. */
  function ZeroState(d: Dims): (vo: Field)
    ensures forall k :: k in vo <==> InState(d, k)
    ensures forall k | k in vo :: vo[k] == 0.0
  {
    map k | k in StateDomain(d) :: 0.0
  }
}
