# Simple serial sweeper of minisweep, modelled in Dafny

minisweep is a mini-application for the radiation-transport sweep of the
Denovo code. This project models its simple serial C sweeper,
`Sweeper_sweep`, and the buffer allocation of `Sweeper_ctor`.

A sweep works as follows:
- It zeroes the output state `vo`.
- It runs over the eight octants. For each octant it decodes a direction
  triple from the octant number and seeds the three face arrays with
  boundary values taken one cell outside the grid.
- For every energy group it walks the grid along the octant's direction
  with three `!=`-terminated loops.
- At every cell it makes three moves:
  - it transforms the input state from moments to angles into the local
    vector `v_local`;
  - it calls the external cell solve;
  - it adds the angle-to-moment image of `v_local` into `vo`.

Arrays are maps keyed by their multi-index, and the scalar type `P` is
`real`. The external physics is a parameter, the `Quantities` bundle:
- the two transform matrices;
- the three face initializers;
- the cell solve. It may rewrite the buffers' contents in place but keeps
  their slots.

Modules, in dependency order:
- `Types`: dimensions, index records, the buffers and `Quantities`.
- `Octant`: octant decoding.
- `Axis`: loop extents, face boundary indices and the one-axis walk.
- `Traversal`: visiting order and upwind ordering.
- `Faces`: face seeding.
- `Transforms`: the two dense transforms.
- `Sweep`: the loop nest, and the reference folds it is proved equal to.
- `Buffers`: allocation sizes, and the fact that every write stays inside
  them.
- `Properties`: what a sweep computes when the solve keeps the local vector.

The reference semantics of one octant's pass is a fold over its steps in
visiting order:
- `Sweep.Run` threads the buffers from step to step.
- `Sweep.Out` gives the output.
- Positions are counted as (group, plane, row, cell in row).

The imperative loop nest `Sweep.Sweep` is proved to compute these folds.
On top of them, the output is proved to be, entry by entry, the sum of
exactly one contribution per octant.

## Model

| member | source | states |
|---|---|---|
| Octant.Decode | serial_c/sweeper_simple_c.h:90-92 | bit 0, 1 or 2 of the octant number is set exactly when the x, y or z direction is −1; otherwise that direction is +1 |
| Octant.DecodeEncode | serial_c/sweeper_simple_c.h:83-92 | every direction triple is the decoding of the octant number Encode assigns it |
| Octant.EncodeDecode | serial_c/sweeper_simple_c.h:83-92 | the octant number is recovered from its decoded triple |
| Octant.DecodeInjective | serial_c/sweeper_simple_c.h:83-92 | two octants in 0..7 decode to the same triple if and only if they are equal, so the eight octants sweep eight distinct directions |
| Octant.DecodeSurjective | serial_c/sweeper_simple_c.h:83-92 | every triple of ±1 directions is swept by some octant in 0..7 |
| Axis.Beg | serial_c/sweeper_simple_c.h:157-159 | the first index of a walk is 0 upward and n−1 downward, inside the axis |
| Axis.End | serial_c/sweeper_simple_c.h:161-163 | the last index of a walk is inside the axis, and is where the walk in the opposite direction starts |
| Axis.Boundary | serial_c/sweeper_simple_c.h:113 | the fixed z coordinate of xy-face seeding (and likewise y at line 126 and x at line 139) is −1 or n: it lies outside the axis, one step upwind of the walk's first index |
| Axis.CoordIsStep | serial_c/sweeper_simple_c.h:167-169 | the p-th index a walk visits is Beg + p·dir; it lies inside the axis exactly when 0 ≤ p < n, and the position is recovered from it |
| Axis.LoopExit | serial_c/sweeper_simple_c.h:167-169 | the `!=` exit test `i != end + dir` first fails at step n exactly, so every walk terminates after n iterations |
| Axis.Walk | serial_c/sweeper_simple_c.h:157-169 | an `!=`-terminated walk visits n indices; each of 0..n−1 appears exactly once; they increase upward and decrease downward |
| Traversal.PrecedesStrictTotal | serial_c/sweeper_simple_c.h:167-169 | the visiting order of a pass is a strict total order on cells: irreflexive, asymmetric, transitive and total |
| Traversal.UpwindPrecedes | serial_c/sweeper_simple_c.h:167-169 | each cell's upwind neighbour along x, y and z comes before it in the visiting order |
| Traversal.TraverseRow | serial_c/sweeper_simple_c.h:169 | one x row appends its nx cells, extending the visited prefix in visiting order |
| Traversal.TraversePlane | serial_c/sweeper_simple_c.h:168-169 | one z plane appends its ny·nx cells, extending the visited prefix in visiting order |
| Traversal.Traverse | serial_c/sweeper_simple_c.h:167-169 | a pass visits nx·ny·nz cells: every grid cell appears, none repeats, and they come in visiting order |
| Traversal.UpwindVisitedFirst | serial_c/sweeper_simple_c.h:167-169 | every in-grid upwind neighbour of a visited cell was visited before it |
| Faces.Block | serial_c/sweeper_simple_c.h:114-120 | a face array's seeded slots are exactly those inside its loop bounds, at octant class 0 |
| Faces.FillEnergiesAngles | serial_c/sweeper_simple_c.h:117-122 | the energy and angle loops write every slot of their (iu, b, a) with its boundary value; slots not reached keep their contents |
| Faces.FillFace | serial_c/sweeper_simple_c.h:114-122 | after a face's loop nest, every slot in the block holds its initializer value; every other slot is unchanged; no slot is lost |
| Faces.InitializeFaces | serial_c/sweeper_simple_c.h:112-149 | the three face arrays are seeded at octant class 0, with the third coordinate at the boundary index on the side the octant enters from; v_local and the slots outside the blocks are untouched |
| Transforms.LoadUpToSlots | serial_c/sweeper_simple_c.h:183-193 | part way through the moment-to-angle loops, exactly the slots already reached hold their dot products; every other slot is as before |
| Transforms.LoadSlots | serial_c/sweeper_simple_c.h:183-193 | moments to angles sets every (ia, iu) slot of v_local to the dot product of column ia of a_from_m with the input moments; other slots are unchanged |
| Transforms.MomentsToAngles | serial_c/sweeper_simple_c.h:183-193 | the loops compute v_local[ia, iu] = Σ_im a_from_m[im, ia]·vi[cell, ie, im, iu] for every angle and unknown, and touch no other slot |
| Transforms.DepositUpToEntries | serial_c/sweeper_simple_c.h:211-221 | part way through the angle-to-moment loops, exactly the entries already reached have received their increment |
| Transforms.DepositEntries | serial_c/sweeper_simple_c.h:211-221 | angles to moments raises every (im, iu) entry of vo at the cell and group by the dot product of row im of m_from_a with v_local; no other entry changes and none is added |
| Transforms.AnglesToMoments | serial_c/sweeper_simple_c.h:211-221 | the loops add Σ_ia m_from_a[im, ia]·v_local[ia, iu] to vo at (cell, ie, im, iu), and leave every other entry alone |
| Sweep.StepAdds | serial_c/sweeper_simple_c.h:183-221 | one cell step adds its contribution to exactly the output entries of its own cell and group, and adds nothing elsewhere |
| Sweep.StepKeeps | serial_c/sweeper_simple_c.h:220 | a cell step neither adds nor removes output entries |
| Sweep.OutAdds | serial_c/sweeper_simple_c.h:153-225 | part way through a pass, every entry whose step has already been taken holds its start value plus exactly one contribution; the others hold their start value |
| Sweep.OutOctantsAdds | serial_c/sweeper_simple_c.h:83-227 | after n octants, every output entry holds its start value plus exactly one contribution from each of those octants |
| Sweep.SweepUpwindFirst | serial_c/sweeper_simple_c.h:157-169 | in the pass the sweep loops perform, the step at a cell's position solves that cell, and every in-grid upwind neighbour is solved at an earlier step, never a later one |
| Sweep.CellStep | serial_c/sweeper_simple_c.h:183-221 | a cell does moments to angles, then the solve at octant class 0, then angles to moments on the solve's v_local; the output keeps its entries |
| Sweep.SweepRow | serial_c/sweeper_simple_c.h:169-223 | the x loop carries the buffers and output from the start of a row to the start of the next row in visiting order |
| Sweep.SweepPlane | serial_c/sweeper_simple_c.h:168-223 | the y loop carries them from the start of a plane to the start of the next plane |
| Sweep.SweepBox | serial_c/sweeper_simple_c.h:157-223 | the z loop carries them through every plane of one energy group |
| Sweep.SweepGroups | serial_c/sweeper_simple_c.h:153-225 | the energy loop carries them through a whole octant pass |
| Sweep.Sweep | serial_c/sweeper_simple_c.h:79-227 | vo holds exactly the state entries of the grid. Each entry is the sum, over the eight octants, of that octant's contribution; it starts from zero. The buffers end as the octant-by-octant fold leaves them |
| Buffers.Construct | serial_c/sweeper_simple_c.h:24-32 | a new sweeper has v_local over the na·NU angle slots, and each face array over its two free axes, groups, angles and unknowns; each slot holds whatever contents the allocator left there |
| Buffers.LocalSize | serial_c/sweeper_simple_c.h:29 | v_local has na·NU slots |
| Buffers.FaceSize | serial_c/sweeper_simple_c.h:30-32 | a face array with free extents n1 and n2 has n1·n2·ne·na·NU slots |
| Buffers.AllocatedSizes | serial_c/sweeper_simple_c.h:29-32 | allocated buffers have exactly the element counts passed to pmalloc |
| Buffers.StepAllocated | serial_c/sweeper_simple_c.h:183-201 | a cell step writes only slots inside the allocated buffers |
| Buffers.RunAllocated | serial_c/sweeper_simple_c.h:153-225 | every prefix of an octant pass keeps the buffers to their allocated slots |
| Buffers.InitFacesAllocated | serial_c/sweeper_simple_c.h:112-149 | face seeding writes only allocated face slots |
| Buffers.SweepAllocated | serial_c/sweeper_simple_c.h:83-227 | a whole sweep, octant after octant, never writes outside the buffers Sweeper_ctor allocated |
| Properties.PassProjects | serial_c/sweeper_simple_c.h:183-221 | with a solve that keeps v_local, any pass adds to an entry the m_from_a·a_from_m image of the input there, whatever the faces and the direction |
| Properties.ContributionProjects | serial_c/sweeper_simple_c.h:83-221 | under the same solve, each octant adds that image |
| Properties.EveryOctantProjects | serial_c/sweeper_simple_c.h:83-221 | under the same solve, all eight octants add the same image |
| Properties.AccumulatedConstant | serial_c/sweeper_simple_c.h:83 | when every octant adds the same amount to an entry, the first n octants add n copies of it |
| Properties.OctantsProject | serial_c/sweeper_simple_c.h:83 | under that solve, the eight octants together add eight times the image |
| Properties.UnitProjects | serial_c/sweeper_simple_c.h:183-221 | with one moment, one angle and unit transforms, the image of the input is the input itself |
| Properties.SweepKeepingLocal | serial_c/sweeper_simple_c.h:79-227 | a sweep whose solve keeps v_local outputs, at every entry, eight times the transformed input there |
| Properties.UnitSweep | serial_c/sweeper_simple_c.h:79-227 | with nm = na = 1, unit transforms and a solve that keeps v_local, the output is exactly 8 × the input, entry by entry |

## Left out

- Sweeper_dtor (lines 38-51): freeing memory and nulling pointers have no
  counterpart in a value model.
- pmalloc leaves fresh buffers unspecified. `Buffers.Construct` takes their
  contents, slot by slot, as parameters.
- Buffers.AllocatedSizes: the element counts are unbounded products here.
  In C, lines 29-32 compute them in fixed-width `int`, which overflows once
  a product exceeds INT_MAX = 2^31 − 1 (for example nx = ny = 2048, ne = 16,
  na = 32, NU = 4). The allocation then no longer has the slots `Allocated`
  describes, so this lemma and `Buffers.SweepAllocated` describe the sweeper
  only for dimensions whose counts fit in an `int`.
- Quantities_solve and the three face initializers belong to the physics
  and are not part of this model. They are parameters. The solve is
  constrained only to keep the buffers' slots, as an in-place update of
  fixed arrays does.
- Floating point: `P` is modelled as `real`, so rounding and the order of
  summation are not modelled.
- The accessor macros and array layouts (`ref_state`, `ref_v_local`,
  `ref_face*`, `ref_a_from_m`, `ref_m_from_a`) are not part of this model.
  Arrays are maps keyed by their indices, so aliasing between distinct
  indices is impossible by construction.
- `vi` and `vo` are declared `__restrict__`. The model takes `vi` as a
  separate function, so no write to `vo` can change it.
- The `assert`s on non-null pointers (lines 63-65) are not modelled.
  Values always exist.
- NU is a build-time constant whose value is left open. Only its
  positivity is used.
- Types.Dims.Valid: every member requires all six extents to be positive.
  The source also runs with an empty extent, doing nothing on that axis,
  and that case is not modelled. A negative extent is worse: the `!=` loops
  at lines 167-169 never reach their exit value (nx = −1 upward gives
  ix = 0, 1, 2, … against the exit value −1). The `decreases` clauses of
  `Axis.Walk`, the `Traversal` loops and the `Sweep` loops hold only because
  `Valid` excludes such extents.
- Transforms.DepositUpTo: it skips an output entry that is absent, only so
  that the fold is total. Sweep.CellStep requires `vo` to hold every state
  entry, so the skip never happens in a sweep.
- Faces.FillFace: states the final contents of each face slot, not the
  number of writes. Each slot is reached at the single loop step equal to
  its own indices, so the write order cannot be observed.
- Properties.SweepKeepingLocal: the closed form of the output is stated
  only for a solve that keeps v_local. For other solves, Sweep.Sweep
  states the output as a sum of per-octant contributions that depend on the
  solve.
