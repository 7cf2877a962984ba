/**
 * One full sweep: zero the output, then for each of the eight octants seed
 * the faces and, for every energy group, walk the grid in the octant's
 * direction doing moments-to-angles, the cell solve and angles-to-moments.
 *
 * The reference semantics is a fold over the steps of an octant's pass in
 * visiting order (Run for the buffers the solve threads from step to step,
 * Out for the output), positions being counted lexicographically as
 * (group, plane, row, cell within the row). The loop nest of Sweep is proved
 * to compute exactly these folds, and the output to be, entry by entry, the
 * sum of one contribution per octant.
 */
module Sweep {
  import opened Types
  import opened Octant
  import opened Axis
  import opened Traversal
  import opened Transforms
  import opened Faces

  /** The fixed inputs of a sweep. */
  datatype Problem = Problem(dims: Dims, q: Quantities, vi: StateIdx -> real)

  /** The buffers handed to the solve at cell c, group ie. */
  function Loaded(p: Problem, s: Sweeper, c: Cell, ie: int): Sweeper {
    s.(vLocal := Load(s.vLocal, p.dims, p.q.aFromM, p.vi, c, ie))
  }

  /** The buffers after the cell step at c, group ie. */
  function Step(p: Problem, s: Sweeper, c: Cell, ie: int): Sweeper {
    p.q.solve(Loaded(p, s, c, ie), c, ie, OCTANT_INDEX)
  }

  /** The cell visited at step (pz, py, px) of a pass in direction dirs. */
  function CellAt(d: Dims, dirs: Dirs, pz: int, py: int, px: int): Cell {
    Cell(Coord(d.nx, dirs.x, px), Coord(d.ny, dirs.y, py), Coord(d.nz, dirs.z, pz))
  }

  /** Bounds of a position (ie, pz, py, px) of an octant's pass. */
  predicate InPass(d: Dims, ie: int, pz: int, py: int, px: int) {
    0 <= ie <= d.ne && 0 <= pz <= d.nz && 0 <= py <= d.ny && 0 <= px <= d.nx
  }

  /** The buffers after every step of an octant's pass, started from s,
      that precedes position (ie, pz, py, px): all earlier groups, the
      earlier planes of group ie, the earlier rows of plane pz and the
      first px cells of row py. */
  function Run(p: Problem, dirs: Dirs, s: Sweeper, ie: int, pz: int, py: int, px: int): Sweeper
    decreases ie, pz, py, px
  {
    if px > 0 then Step(p, Run(p, dirs, s, ie, pz, py, px - 1), CellAt(p.dims, dirs, pz, py, px - 1), ie)
    else if py > 0 then Run(p, dirs, s, ie, pz, py - 1, p.dims.nx)
    else if pz > 0 then Run(p, dirs, s, ie, pz - 1, p.dims.ny, 0)
    else if ie > 0 then Run(p, dirs, s, ie - 1, p.dims.nz, 0, 0)
    else s
  }

  /** The output after the same steps, started from output vo. */
  function Out(p: Problem, dirs: Dirs, s: Sweeper, vo: Field, ie: int, pz: int, py: int, px: int): Field
    decreases ie, pz, py, px
  {
    if px > 0 then
      var c := CellAt(p.dims, dirs, pz, py, px - 1);
      Deposit(Out(p, dirs, s, vo, ie, pz, py, px - 1), p.dims, p.q.mFromA,
              Step(p, Run(p, dirs, s, ie, pz, py, px - 1), c, ie).vLocal, c, ie)
    else if py > 0 then Out(p, dirs, s, vo, ie, pz, py - 1, p.dims.nx)
    else if pz > 0 then Out(p, dirs, s, vo, ie, pz - 1, p.dims.ny, 0)
    else if ie > 0 then Out(p, dirs, s, vo, ie - 1, p.dims.nz, 0, 0)
    else vo
  }

  /** The buffers after the first n octants, starting from s0. */
  function AfterOctants(p: Problem, s0: Sweeper, n: int): Sweeper
    requires p.dims.Valid() && 0 <= n <= NOCTANT
    decreases n, 0
  {
    if n == 0 then s0
    else Run(p, Decode(n - 1), OctantStart(p, s0, n - 1), p.dims.ne, 0, 0, 0)
  }

  /** The buffers once octant o has seeded its faces. */
  function OctantStart(p: Problem, s0: Sweeper, o: int): Sweeper
    requires p.dims.Valid() && 0 <= o < NOCTANT
    decreases o, 1
  {
    InitFaces(AfterOctants(p, s0, o), p.dims, p.q, Decode(o))
  }

  /** The output after the first n octants, starting from output vo0. */
  function OutOctants(p: Problem, s0: Sweeper, vo0: Field, n: int): Field
    requires p.dims.Valid() && 0 <= n <= NOCTANT
    decreases n
  {
    if n == 0 then vo0
    else Out(p, Decode(n - 1), OctantStart(p, s0, n - 1), OutOctants(p, s0, vo0, n - 1), p.dims.ne, 0, 0, 0)
  }

  /** Output entry k's step comes before position (ie, pz, py, px). */
  predicate Earlier(d: Dims, dirs: Dirs, k: StateIdx, ie: int, pz: int, py: int, px: int) {
    k.e < ie || (k.e == ie && Before(d, dirs, k.cell, pz, py, px))
  }

  /** What the pass started from buffers s adds to output entry k: the
      angle-to-moment image of the local vector the solve leaves at k's
      cell and group, with the buffers as every earlier step left them. */
  function PassContribution(p: Problem, dirs: Dirs, s: Sweeper, k: StateIdx): real
    requires p.dims.Valid() && InState(p.dims, k)
  {
    var d := p.dims;
    var at := Run(p, dirs, s, k.e, Pos(d.nz, dirs.z, k.cell.z), Pos(d.ny, dirs.y, k.cell.y), Pos(d.nx, dirs.x, k.cell.x));
    MomentValue(d, p.q.mFromA, Step(p, at, k.cell, k.e).vLocal, k.m, k.u)
  }

  /** What octant o adds to output entry k. */
  function Contribution(p: Problem, s0: Sweeper, o: int, k: StateIdx): real
    requires p.dims.Valid() && 0 <= o < NOCTANT && InState(p.dims, k)
  {
    PassContribution(p, Decode(o), OctantStart(p, s0, o), k)
  }

  /** The contributions of the first n octants to output entry k. */
  function Accumulated(p: Problem, s0: Sweeper, n: int, k: StateIdx): real
    requires p.dims.Valid() && 0 <= n <= NOCTANT && InState(p.dims, k)
  {
    if n == 0 then 0.0 else Accumulated(p, s0, n - 1, k) + Contribution(p, s0, n - 1, k)
  }

  /** Positions of in-grid coordinates lie inside the axis. */
  lemma PosInRange(d: Dims, dirs: Dirs, c: Cell)
    requires d.Valid() && InGrid(d, c)
    ensures 0 <= Pos(d.nx, dirs.x, c.x) < d.nx
    ensures 0 <= Pos(d.ny, dirs.y, c.y) < d.ny
    ensures 0 <= Pos(d.nz, dirs.z, c.z) < d.nz
  {
    CoordIsStep(d.nx, dirs.x, Pos(d.nx, dirs.x, c.x));
    CoordIsStep(d.ny, dirs.y, Pos(d.ny, dirs.y, c.y));
    CoordIsStep(d.nz, dirs.z, Pos(d.nz, dirs.z, c.z));
  }

  /** The position of cell c in a pass: the step (pz, py, px) at which
      SweepRow, SweepPlane and SweepBox reach it. */
  function PosOf(d: Dims, dirs: Dirs, c: Cell): (int, int, int) {
    (Pos(d.nz, dirs.z, c.z), Pos(d.ny, dirs.y, c.y), Pos(d.nx, dirs.x, c.x))
  }

  /** Upwind ordering of the pass the sweep performs: the step of Run at
      PosOf(c) solves cell c, and every in-grid upwind neighbour of c is
      solved at a step before it, so its faces are already computed. */
  lemma SweepUpwindFirst(d: Dims, dirs: Dirs, c: Cell, up: Cell)
    requires d.Valid() && InGrid(d, c) && InGrid(d, up)
    requires up == UpwindX(dirs, c) || up == UpwindY(dirs, c) || up == UpwindZ(dirs, c)
    ensures CellAt(d, dirs, PosOf(d, dirs, c).0, PosOf(d, dirs, c).1, PosOf(d, dirs, c).2) == c
    ensures CellAt(d, dirs, PosOf(d, dirs, up).0, PosOf(d, dirs, up).1, PosOf(d, dirs, up).2) == up
    ensures Before(d, dirs, up, PosOf(d, dirs, c).0, PosOf(d, dirs, c).1, PosOf(d, dirs, c).2)
    ensures !Before(d, dirs, c, PosOf(d, dirs, up).0, PosOf(d, dirs, up).1, PosOf(d, dirs, up).2)
  {
    UpwindPrecedes(d, dirs, c);
  }

  /** The cell step at position (ie, pz, py, px - 1) adds to entry k its
      contribution when k belongs to that step, and nothing otherwise. */
  lemma StepAdds(p: Problem, dirs: Dirs, s: Sweeper, vo: Field, ie: int, pz: int, py: int, px: int, k: StateIdx)
    requires p.dims.Valid() && InPass(p.dims, ie, pz, py, px) && px > 0
    requires k in Out(p, dirs, s, vo, ie, pz, py, px - 1) && InState(p.dims, k)
    ensures k in Out(p, dirs, s, vo, ie, pz, py, px)
    ensures Out(p, dirs, s, vo, ie, pz, py, px)[k] == Out(p, dirs, s, vo, ie, pz, py, px - 1)[k] +
              if Earlier(p.dims, dirs, k, ie, pz, py, px) && !Earlier(p.dims, dirs, k, ie, pz, py, px - 1)
              then PassContribution(p, dirs, s, k) else 0.0
  {
    var d := p.dims;
    var c := CellAt(d, dirs, pz, py, px - 1);
    CoordIsStep(d.nx, dirs.x, px - 1);
    CoordIsStep(d.ny, dirs.y, py);
    CoordIsStep(d.nz, dirs.z, pz);
    DepositEntries(Out(p, dirs, s, vo, ie, pz, py, px - 1), d, p.q.mFromA,
                   Step(p, Run(p, dirs, s, ie, pz, py, px - 1), c, ie).vLocal, c, ie);
    if k.cell == c && k.e == ie {
      assert PassContribution(p, dirs, s, k)
          == MomentValue(d, p.q.mFromA, Step(p, Run(p, dirs, s, ie, pz, py, px - 1), c, ie).vLocal, k.m, k.u);
    }
  }

  /** A cell step adds no output entry and removes none. */
  lemma StepKeeps(p: Problem, dirs: Dirs, s: Sweeper, vo: Field, ie: int, pz: int, py: int, px: int)
    requires p.dims.Valid() && px > 0
    ensures forall k :: k in Out(p, dirs, s, vo, ie, pz, py, px) <==> k in Out(p, dirs, s, vo, ie, pz, py, px - 1)
  {
    var c := CellAt(p.dims, dirs, pz, py, px - 1);
    DepositEntries(Out(p, dirs, s, vo, ie, pz, py, px - 1), p.dims, p.q.mFromA,
                   Step(p, Run(p, dirs, s, ie, pz, py, px - 1), c, ie).vLocal, c, ie);
  }

  /** Finishing a row, a plane or a group reaches the same entries as
      starting the next one. */
  lemma EarlierCarries(d: Dims, dirs: Dirs, k: StateIdx, ie: int, pz: int, py: int)
    requires d.Valid() && InState(d, k)
    ensures Earlier(d, dirs, k, ie, pz, py + 1, 0) == Earlier(d, dirs, k, ie, pz, py, d.nx)
    ensures Earlier(d, dirs, k, ie, pz + 1, 0, 0) == Earlier(d, dirs, k, ie, pz, d.ny, 0)
    ensures Earlier(d, dirs, k, ie + 1, 0, 0, 0) == Earlier(d, dirs, k, ie, d.nz, 0, 0)
  {
    PosInRange(d, dirs, k.cell);
  }

  /** The pass keeps the output's entries, and adds to each entry whose step
      comes before (ie, pz, py, px) exactly the contribution of that step,
      once; every other entry is unchanged. */
  lemma {:induction false} OutAdds(p: Problem, dirs: Dirs, s: Sweeper, vo: Field, ie: int, pz: int, py: int, px: int)
    requires p.dims.Valid() && InPass(p.dims, ie, pz, py, px)
    ensures forall k :: k in Out(p, dirs, s, vo, ie, pz, py, px) <==> k in vo
    ensures forall k | k in vo && InState(p.dims, k) ::
              Out(p, dirs, s, vo, ie, pz, py, px)[k] == vo[k] +
                if Earlier(p.dims, dirs, k, ie, pz, py, px) then PassContribution(p, dirs, s, k) else 0.0
    decreases ie, pz, py, px
  {
    var d := p.dims;
    if px > 0 {
      OutAdds(p, dirs, s, vo, ie, pz, py, px - 1);
      StepKeeps(p, dirs, s, vo, ie, pz, py, px);
      forall k | k in vo && InState(d, k)
        ensures Out(p, dirs, s, vo, ie, pz, py, px)[k] == vo[k] +
                  if Earlier(d, dirs, k, ie, pz, py, px) then PassContribution(p, dirs, s, k) else 0.0
      {
        StepAdds(p, dirs, s, vo, ie, pz, py, px, k);
      }
    } else if py > 0 {
      OutAdds(p, dirs, s, vo, ie, pz, py - 1, d.nx);
      forall k | k in vo && InState(d, k) {
        EarlierCarries(d, dirs, k, ie, pz, py - 1);
      }
    } else if pz > 0 {
      OutAdds(p, dirs, s, vo, ie, pz - 1, d.ny, 0);
      forall k | k in vo && InState(d, k) {
        EarlierCarries(d, dirs, k, ie, pz - 1, 0);
      }
    } else if ie > 0 {
      OutAdds(p, dirs, s, vo, ie - 1, d.nz, 0, 0);
      forall k | k in vo && InState(d, k) {
        EarlierCarries(d, dirs, k, ie - 1, 0, 0);
      }
    }
  }

  /** After n octants every entry holds its starting value plus exactly one
      contribution from each of those octants. */
  lemma {:induction false} OutOctantsAdds(p: Problem, s0: Sweeper, vo0: Field, n: int)
    requires p.dims.Valid() && 0 <= n <= NOCTANT
    ensures forall k :: k in OutOctants(p, s0, vo0, n) <==> k in vo0
    ensures forall k | k in vo0 && InState(p.dims, k) ::
              OutOctants(p, s0, vo0, n)[k] == vo0[k] + Accumulated(p, s0, n, k)
    decreases n
  {
    if n > 0 {
      OutOctantsAdds(p, s0, vo0, n - 1);
      OutAdds(p, Decode(n - 1), OctantStart(p, s0, n - 1), OutOctants(p, s0, vo0, n - 1), p.dims.ne, 0, 0, 0);
    }
  }

  /** One more cell of a row: both folds advance by the cell step at c. */
  lemma RowStep(p: Problem, dirs: Dirs, s0: Sweeper, vo0: Field, ie: int, pz: int, py: int, px: int, c: Cell)
    requires px >= 0 && c == CellAt(p.dims, dirs, pz, py, px)
    ensures Run(p, dirs, s0, ie, pz, py, px + 1) == Step(p, Run(p, dirs, s0, ie, pz, py, px), c, ie)
    ensures Out(p, dirs, s0, vo0, ie, pz, py, px + 1)
         == Deposit(Out(p, dirs, s0, vo0, ie, pz, py, px), p.dims, p.q.mFromA,
                    Step(p, Run(p, dirs, s0, ie, pz, py, px), c, ie).vLocal, c, ie)
  {
  }

  /** One cell step: moments to angles, the solve, angles to moments. */
  method CellStep(p: Problem, s: Sweeper, vo: Field, c: Cell, ie: int) returns (s': Sweeper, vo': Field)
    requires p.dims.Valid() && InGrid(p.dims, c) && 0 <= ie < p.dims.ne
    requires vo.Keys == StateDomain(p.dims)
    ensures s' == Step(p, s, c, ie)
    ensures vo' == Deposit(vo, p.dims, p.q.mFromA, s'.vLocal, c, ie)
    ensures vo'.Keys == vo.Keys
  {
    var v := MomentsToAngles(s.vLocal, p.dims, p.q.aFromM, p.vi, c, ie);
    var loaded := s.(vLocal := v);
    s' := p.q.solve(loaded, c, ie, OCTANT_INDEX);
    vo' := AnglesToMoments(vo, s'.vLocal, p.dims, p.q.mFromA, c, ie);
  }

  /** The innermost spatial loop: row iy of plane iz, group ie, of the pass
      started from buffers s0 and output vo0. */
  method SweepRow(p: Problem, dirs: Dirs, ghost s0: Sweeper, ghost vo0: Field, s: Sweeper, vo: Field, ie: int, iy: int, iz: int)
    returns (s': Sweeper, vo': Field)
    requires p.dims.Valid() && 0 <= ie < p.dims.ne && 0 <= iy < p.dims.ny && 0 <= iz < p.dims.nz
    requires vo.Keys == StateDomain(p.dims)
    requires s == Run(p, dirs, s0, ie, Pos(p.dims.nz, dirs.z, iz), Pos(p.dims.ny, dirs.y, iy), 0)
    requires vo == Out(p, dirs, s0, vo0, ie, Pos(p.dims.nz, dirs.z, iz), Pos(p.dims.ny, dirs.y, iy), 0)
    ensures s' == Run(p, dirs, s0, ie, Pos(p.dims.nz, dirs.z, iz), Pos(p.dims.ny, dirs.y, iy) + 1, 0)
    ensures vo' == Out(p, dirs, s0, vo0, ie, Pos(p.dims.nz, dirs.z, iz), Pos(p.dims.ny, dirs.y, iy) + 1, 0)
    ensures vo'.Keys == vo.Keys
  {
    var d := p.dims;
    ghost var pz, py := Pos(d.nz, dirs.z, iz), Pos(d.ny, dirs.y, iy);
    var ixbeg := if dirs.x == 1 then 0 else d.nx - 1;
    var ixend := if dirs.x == -1 then 0 else d.nx - 1;
    s', vo' := s, vo;
    var ix := ixbeg;
    while ix != ixend + dirs.x
      invariant 0 <= Pos(d.nx, dirs.x, ix) <= d.nx
      invariant s' == Run(p, dirs, s0, ie, pz, py, Pos(d.nx, dirs.x, ix))
      invariant vo' == Out(p, dirs, s0, vo0, ie, pz, py, Pos(d.nx, dirs.x, ix))
      invariant vo'.Keys == vo.Keys
      decreases d.nx - Pos(d.nx, dirs.x, ix)
    {
      ghost var px := Pos(d.nx, dirs.x, ix);
      RowStep(p, dirs, s0, vo0, ie, pz, py, px, Cell(ix, iy, iz));
      s', vo' := CellStep(p, s', vo', Cell(ix, iy, iz), ie);
      ix := ix + dirs.x;
      assert Pos(d.nx, dirs.x, ix) == px + 1;
    }
  }

  /** The middle spatial loop: plane iz of group ie. */
  method SweepPlane(p: Problem, dirs: Dirs, ghost s0: Sweeper, ghost vo0: Field, s: Sweeper, vo: Field, ie: int, iz: int)
    returns (s': Sweeper, vo': Field)
    requires p.dims.Valid() && 0 <= ie < p.dims.ne && 0 <= iz < p.dims.nz
    requires vo.Keys == StateDomain(p.dims)
    requires s == Run(p, dirs, s0, ie, Pos(p.dims.nz, dirs.z, iz), 0, 0)
    requires vo == Out(p, dirs, s0, vo0, ie, Pos(p.dims.nz, dirs.z, iz), 0, 0)
    ensures s' == Run(p, dirs, s0, ie, Pos(p.dims.nz, dirs.z, iz) + 1, 0, 0)
    ensures vo' == Out(p, dirs, s0, vo0, ie, Pos(p.dims.nz, dirs.z, iz) + 1, 0, 0)
    ensures vo'.Keys == vo.Keys
  {
    var d := p.dims;
    ghost var pz := Pos(d.nz, dirs.z, iz);
    var iybeg := if dirs.y == 1 then 0 else d.ny - 1;
    var iyend := if dirs.y == -1 then 0 else d.ny - 1;
    s', vo' := s, vo;
    var iy := iybeg;
    while iy != iyend + dirs.y
      invariant 0 <= Pos(d.ny, dirs.y, iy) <= d.ny
      invariant s' == Run(p, dirs, s0, ie, pz, Pos(d.ny, dirs.y, iy), 0)
      invariant vo' == Out(p, dirs, s0, vo0, ie, pz, Pos(d.ny, dirs.y, iy), 0)
      invariant vo'.Keys == vo.Keys
      decreases d.ny - Pos(d.ny, dirs.y, iy)
    {
      s', vo' := SweepRow(p, dirs, s0, vo0, s', vo', ie, iy, iz);
      iy := iy + dirs.y;
    }
  }

  /** The outer spatial loop: every plane of group ie. */
  method SweepBox(p: Problem, dirs: Dirs, ghost s0: Sweeper, ghost vo0: Field, s: Sweeper, vo: Field, ie: int)
    returns (s': Sweeper, vo': Field)
    requires p.dims.Valid() && 0 <= ie < p.dims.ne
    requires vo.Keys == StateDomain(p.dims)
    requires s == Run(p, dirs, s0, ie, 0, 0, 0)
    requires vo == Out(p, dirs, s0, vo0, ie, 0, 0, 0)
    ensures s' == Run(p, dirs, s0, ie + 1, 0, 0, 0)
    ensures vo' == Out(p, dirs, s0, vo0, ie + 1, 0, 0, 0)
    ensures vo'.Keys == vo.Keys
  {
    var d := p.dims;
    var izbeg := if dirs.z == 1 then 0 else d.nz - 1;
    var izend := if dirs.z == -1 then 0 else d.nz - 1;
    s', vo' := s, vo;
    var iz := izbeg;
    while iz != izend + dirs.z
      invariant 0 <= Pos(d.nz, dirs.z, iz) <= d.nz
      invariant s' == Run(p, dirs, s0, ie, Pos(d.nz, dirs.z, iz), 0, 0)
      invariant vo' == Out(p, dirs, s0, vo0, ie, Pos(d.nz, dirs.z, iz), 0, 0)
      invariant vo'.Keys == vo.Keys
      decreases d.nz - Pos(d.nz, dirs.z, iz)
    {
      s', vo' := SweepPlane(p, dirs, s0, vo0, s', vo', ie, iz);
      iz := iz + dirs.z;
    }
  }

  /** The energy loop of one octant's pass, after its faces are seeded. */
  method SweepGroups(p: Problem, dirs: Dirs, s: Sweeper, vo: Field)
    returns (s': Sweeper, vo': Field)
    requires p.dims.Valid()
    requires vo.Keys == StateDomain(p.dims)
    ensures s' == Run(p, dirs, s, p.dims.ne, 0, 0, 0)
    ensures vo' == Out(p, dirs, s, vo, p.dims.ne, 0, 0, 0)
    ensures vo'.Keys == vo.Keys
  {
    s', vo' := s, vo;
    var ie := 0;
    while ie < p.dims.ne
      invariant 0 <= ie <= p.dims.ne
      invariant s' == Run(p, dirs, s, ie, 0, 0, 0)
      invariant vo' == Out(p, dirs, s, vo, ie, 0, 0, 0)
      invariant vo'.Keys == vo.Keys
    {
      s', vo' := SweepBox(p, dirs, s, vo, s', vo', ie);
      ie := ie + 1;
    }
  }

  /** Sweeper_sweep: the output is zeroed, then every entry receives exactly
      one contribution from each of the NOCTANT octants, each computed from
      the buffers as the reference folds leave them. */
  method Sweep(sweeper: Sweeper, vi: StateIdx -> real, q: Quantities, d: Dims) returns (vo: Field, s: Sweeper)
    requires d.Valid()
    ensures forall k :: k in vo <==> InState(d, k)
    ensures forall k | k in vo :: vo[k] == Accumulated(Problem(d, q, vi), sweeper, NOCTANT, k)
    ensures s == AfterOctants(Problem(d, q, vi), sweeper, NOCTANT)
  {
    var p := Problem(d, q, vi);
    var zero := ZeroState(d);
    vo := zero;
    s := sweeper;
    var octant := 0;
    while octant < NOCTANT
      invariant 0 <= octant <= NOCTANT
      invariant s == AfterOctants(p, sweeper, octant)
      invariant vo == OutOctants(p, sweeper, zero, octant)
      invariant vo.Keys == StateDomain(d)
    {
      var dirs := Decode(octant);
      s := InitializeFaces(s, d, q, dirs);
      s, vo := SweepGroups(p, dirs, s, vo);
      octant := octant + 1;
    }
    OutOctantsAdds(p, sweeper, zero, NOCTANT);
  }
}
