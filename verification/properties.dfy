/**
 * What a whole sweep computes when the cell solve leaves the local vector
 * as it found it. Every octant then adds the same amount to an output
 * entry, namely the moment-to-angle-to-moment image of the input at that
 * entry's cell and group, whatever the face contents, the octant's
 * direction or the order of the cells. With one moment, one angle and unit
 * transforms, the output is therefore NOCTANT times the input.
 */
module Properties {
  import opened Types
  import opened Octant
  import opened Axis
  import opened Transforms
  import opened Sweep

  /** The solve leaves the local vector unchanged (it may rewrite the faces). */
  ghost predicate KeepsLocal(q: Quantities) {
    forall s, c, e, o :: q.solve(s, c, e, o).vLocal == s.vLocal
  }

  /** Term ia of the moment-to-angle-to-moment image of the input at k. */
  function ProjectedTerm(p: Problem, k: StateIdx): int -> real {
    ia => p.q.mFromA(k.m, ia) * AngleValue(p.dims, p.q.aFromM, p.vi, k.cell, k.e, ia, k.u)
  }

  /** The input at k's cell and group carried to angles by a_from_m and
      back to moment k.m by m_from_a. */
  function Projected(p: Problem, k: StateIdx): real {
    Sum(p.dims.na, ProjectedTerm(p, k))
  }

  /** With a solve that keeps the local vector, the pass of any octant, from
      any buffers, adds Projected to entry k: the slots the angle-to-moment
      transform reads are exactly the ones the moment-to-angle transform has
      just written. */
  lemma PassProjects(p: Problem, dirs: Dirs, s: Sweeper, k: StateIdx)
    requires p.dims.Valid() && InState(p.dims, k) && KeepsLocal(p.q)
    ensures PassContribution(p, dirs, s, k) == Projected(p, k)
  {
    var d := p.dims;
    var at := Run(p, dirs, s, k.e, Pos(d.nz, dirs.z, k.cell.z), Pos(d.ny, dirs.y, k.cell.y), Pos(d.nx, dirs.x, k.cell.x));
    var v := Step(p, at, k.cell, k.e).vLocal;
    assert v == Load(at.vLocal, d, p.q.aFromM, p.vi, k.cell, k.e);
    LoadSlots(at.vLocal, d, p.q.aFromM, p.vi, k.cell, k.e);
    forall ia | 0 <= ia < d.na
      ensures AngleTerm(p.q.mFromA, v, k.m, k.u)(ia) == ProjectedTerm(p, k)(ia)
    {
      assert InAngles(d, AngleIdx(ia, k.u));
      assert Get(v, AngleIdx(ia, k.u)) == AngleValue(d, p.q.aFromM, p.vi, k.cell, k.e, ia, k.u);
    }
    SumCongruent(d.na, AngleTerm(p.q.mFromA, v, k.m, k.u), ProjectedTerm(p, k));
  }

  /** Hence every octant adds Projected to entry k. */
  lemma ContributionProjects(p: Problem, s0: Sweeper, o: int, k: StateIdx)
    requires p.dims.Valid() && 0 <= o < NOCTANT && InState(p.dims, k) && KeepsLocal(p.q)
    ensures Contribution(p, s0, o, k) == Projected(p, k)
  {
    PassProjects(p, Decode(o), OctantStart(p, s0, o), k);
  }

  /** The term function that is x everywhere. */
  function Constant(x: real): int -> real {
    _ => x
  }

  /** When every octant adds the same x to entry k, the first n octants
      add x, n times. */
  lemma {:induction false} AccumulatedConstant(p: Problem, s0: Sweeper, n: int, k: StateIdx, x: real)
    requires p.dims.Valid() && 0 <= n <= NOCTANT && InState(p.dims, k)
    requires forall o | 0 <= o < n :: Contribution(p, s0, o, k) == x
    ensures Accumulated(p, s0, n, k) == Sum(n, Constant(x))
    decreases n
  {
    if n > 0 {
      AccumulatedConstant(p, s0, n - 1, k, x);
    }
  }

  /** The same holds for each of the NOCTANT octants. */
  lemma EveryOctantProjects(p: Problem, s0: Sweeper, k: StateIdx)
    requires p.dims.Valid() && InState(p.dims, k) && KeepsLocal(p.q)
    ensures forall o | 0 <= o < NOCTANT :: Contribution(p, s0, o, k) == Projected(p, k)
  {
    forall o | 0 <= o < NOCTANT
      ensures Contribution(p, s0, o, k) == Projected(p, k)
    {
      ContributionProjects(p, s0, o, k);
    }
  }

  /** With one moment, one angle and unit transforms, the image of the
      input is the input itself. */
  lemma UnitProjects(p: Problem, k: StateIdx)
    requires p.dims.Valid() && p.dims.nm == 1 && p.dims.na == 1
    requires p.q.aFromM(0, 0) == 1.0 && p.q.mFromA(0, 0) == 1.0
    requires InState(p.dims, k)
    ensures Projected(p, k) == p.vi(k)
  {
    assert k == StateIdx(k.cell, k.e, 0, k.u);
    assert AngleValue(p.dims, p.q.aFromM, p.vi, k.cell, k.e, 0, k.u) == p.vi(k);
  }

  /** All NOCTANT = 8 octants together add 8 times Projected to entry k. */
  lemma OctantsProject(p: Problem, s0: Sweeper, k: StateIdx)
    requires p.dims.Valid() && InState(p.dims, k) && KeepsLocal(p.q)
    ensures Accumulated(p, s0, NOCTANT, k) == 8.0 * Projected(p, k)
  {
    var x := Projected(p, k);
    EveryOctantProjects(p, s0, k);
    AccumulatedConstant(p, s0, NOCTANT, k, x);
    SumConstant(NOCTANT, Constant(x), x);
  }

  /** A sweep whose solve keeps the local vector: every output entry is
      NOCTANT = 8 times the image of the input at that entry. */
  method SweepKeepingLocal(sweeper: Sweeper, vi: StateIdx -> real, q: Quantities, d: Dims) returns (vo: Field, s: Sweeper)
    requires d.Valid() && KeepsLocal(q)
    ensures forall k :: k in vo <==> InState(d, k)
    ensures forall k | k in vo :: vo[k] == 8.0 * Projected(Problem(d, q, vi), k)
  {
    vo, s := Sweep.Sweep(sweeper, vi, q, d);
    forall k | k in vo
      ensures vo[k] == 8.0 * Projected(Problem(d, q, vi), k)
    {
      OctantsProject(Problem(d, q, vi), sweeper, k);
    }
  }

  /** The identity property of the simple sweeper: one moment, one angle, unit
      transforms and a solve that keeps the local vector give an output of
      exactly NOCTANT = 8 times the input, entry by entry. */
  method UnitSweep(sweeper: Sweeper, vi: StateIdx -> real, q: Quantities, d: Dims) returns (vo: Field, s: Sweeper)
    requires d.Valid() && d.nm == 1 && d.na == 1
    requires q.aFromM(0, 0) == 1.0 && q.mFromA(0, 0) == 1.0 && KeepsLocal(q)
    ensures forall k :: k in vo <==> InState(d, k)
    ensures forall k | k in vo :: vo[k] == 8.0 * vi(k)
  {
    vo, s := SweepKeepingLocal(sweeper, vi, q, d);
    forall k | k in vo
      ensures vo[k] == 8.0 * vi(k)
    {
      UnitProjects(Problem(d, q, vi), k);
    }
  }
}
