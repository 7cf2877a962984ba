/**
 * The spatial traversal of one (octant, energy group) pass: three nested
 * `!=`-terminated loops over z, y and x, each stepping in the octant's
 * direction along its axis.
 */
module Traversal {
  import opened Types
  import opened Octant
  import opened Axis

  /** Cell c is reached before step (pz, py, px) of the nested walk. */
  predicate Before(d: Dims, dirs: Dirs, c: Cell, pz: int, py: int, px: int) {
    var cz := Pos(d.nz, dirs.z, c.z);
    var cy := Pos(d.ny, dirs.y, c.y);
    var cx := Pos(d.nx, dirs.x, c.x);
    cz < pz || (cz == pz && (cy < py || (cy == py && cx < px)))
  }

  /** The traversal of the pass reaches c1 strictly before c2. */
  predicate Precedes(d: Dims, dirs: Dirs, c1: Cell, c2: Cell) {
    Before(d, dirs, c1, Pos(d.nz, dirs.z, c2.z), Pos(d.ny, dirs.y, c2.y), Pos(d.nx, dirs.x, c2.x))
  }

  /** The neighbours one step upwind of c along each axis. */
  function UpwindX(dirs: Dirs, c: Cell): Cell { Cell(c.x - dirs.x, c.y, c.z) }
  function UpwindY(dirs: Dirs, c: Cell): Cell { Cell(c.x, c.y - dirs.y, c.z) }
  function UpwindZ(dirs: Dirs, c: Cell): Cell { Cell(c.x, c.y, c.z - dirs.z) }

  /** Precedes is a strict total order on the cells of the grid. */
  lemma PrecedesStrictTotal(d: Dims, dirs: Dirs, c1: Cell, c2: Cell, c3: Cell)
    ensures !Precedes(d, dirs, c1, c1)
    ensures Precedes(d, dirs, c1, c2) ==> !Precedes(d, dirs, c2, c1)
    ensures Precedes(d, dirs, c1, c2) && Precedes(d, dirs, c2, c3) ==> Precedes(d, dirs, c1, c3)
    ensures c1 != c2 ==> Precedes(d, dirs, c1, c2) || Precedes(d, dirs, c2, c1)
  {
  }

  /** Each upwind neighbour that lies in the grid comes earlier in the pass. */
  lemma UpwindPrecedes(d: Dims, dirs: Dirs, c: Cell)
    ensures Precedes(d, dirs, UpwindX(dirs, c), c)
    ensures Precedes(d, dirs, UpwindY(dirs, c), c)
    ensures Precedes(d, dirs, UpwindZ(dirs, c), c)
  {
  }

  /** Cells in the grid reached before step (pz, py, px), listed in visiting order. */
  ghost predicate Prefix(d: Dims, dirs: Dirs, cells: seq<Cell>, pz: int, py: int, px: int) {
    && (forall c :: c in cells <==> InGrid(d, c) && Before(d, dirs, c, pz, py, px))
    && (forall i, j :: 0 <= i < j < |cells| ==> Precedes(d, dirs, cells[i], cells[j]))
  }

  /** The innermost loop: one row along x at fixed (iy, iz). */
  method TraverseRow(d: Dims, dirs: Dirs, cells: seq<Cell>, iy: int, iz: int) returns (cells': seq<Cell>)
    requires d.Valid() && 0 <= iy < d.ny && 0 <= iz < d.nz
    requires Prefix(d, dirs, cells, Pos(d.nz, dirs.z, iz), Pos(d.ny, dirs.y, iy), 0)
    ensures Prefix(d, dirs, cells', Pos(d.nz, dirs.z, iz), Pos(d.ny, dirs.y, iy), d.nx)
    ensures |cells'| == |cells| + d.nx
  {
    var ixbeg := if dirs.x == 1 then 0 else d.nx - 1;
    var ixend := if dirs.x == -1 then 0 else d.nx - 1;
    cells' := cells;
    var ix := ixbeg;
    while ix != ixend + dirs.x
      invariant 0 <= Pos(d.nx, dirs.x, ix) <= d.nx
      invariant |cells'| == |cells| + Pos(d.nx, dirs.x, ix)
      invariant Prefix(d, dirs, cells', Pos(d.nz, dirs.z, iz), Pos(d.ny, dirs.y, iy), Pos(d.nx, dirs.x, ix))
      decreases d.nx - Pos(d.nx, dirs.x, ix)
    {
      cells' := cells' + [Cell(ix, iy, iz)];
      ix := ix + dirs.x;
    }
  }

  /** The middle loop: one plane along y at fixed iz. */
  method TraversePlane(d: Dims, dirs: Dirs, cells: seq<Cell>, iz: int) returns (cells': seq<Cell>)
    requires d.Valid() && 0 <= iz < d.nz
    requires Prefix(d, dirs, cells, Pos(d.nz, dirs.z, iz), 0, 0)
    ensures Prefix(d, dirs, cells', Pos(d.nz, dirs.z, iz), d.ny, 0)
    ensures |cells'| == |cells| + d.ny * d.nx
  {
    var iybeg := if dirs.y == 1 then 0 else d.ny - 1;
    var iyend := if dirs.y == -1 then 0 else d.ny - 1;
    cells' := cells;
    var iy := iybeg;
    while iy != iyend + dirs.y
      invariant 0 <= Pos(d.ny, dirs.y, iy) <= d.ny
      invariant |cells'| == |cells| + Pos(d.ny, dirs.y, iy) * d.nx
      invariant Prefix(d, dirs, cells', Pos(d.nz, dirs.z, iz), Pos(d.ny, dirs.y, iy), 0)
      decreases d.ny - Pos(d.ny, dirs.y, iy)
    {
      cells' := TraverseRow(d, dirs, cells', iy, iz);
      iy := iy + dirs.y;
    }
  }

  /** The cells visited by the nested loops of one pass, in order. */
  method Traverse(d: Dims, dirs: Dirs) returns (cells: seq<Cell>)
    requires d.Valid()
    ensures |cells| == d.nx * d.ny * d.nz
    ensures forall c :: c in cells <==> InGrid(d, c)
    ensures forall i, j :: 0 <= i < j < |cells| ==> Precedes(d, dirs, cells[i], cells[j])
    ensures forall i, j :: 0 <= i < j < |cells| ==> cells[i] != cells[j]
  {
    var izbeg := if dirs.z == 1 then 0 else d.nz - 1;
    var izend := if dirs.z == -1 then 0 else d.nz - 1;
    cells := [];
    var iz := izbeg;
    while iz != izend + dirs.z
      invariant 0 <= Pos(d.nz, dirs.z, iz) <= d.nz
      invariant |cells| == Pos(d.nz, dirs.z, iz) * (d.ny * d.nx)
      invariant Prefix(d, dirs, cells, Pos(d.nz, dirs.z, iz), 0, 0)
      decreases d.nz - Pos(d.nz, dirs.z, iz)
    {
      cells := TraversePlane(d, dirs, cells, iz);
      iz := iz + dirs.z;
    }
    forall i, j | 0 <= i < j < |cells|
      ensures cells[i] != cells[j]
    {
      PrecedesStrictTotal(d, dirs, cells[i], cells[j], cells[j]);
    }
  }

  /** In the order Traverse produces, every in-grid upwind neighbour of a
      cell has been visited before that cell. */
  lemma UpwindVisitedFirst(d: Dims, dirs: Dirs, cells: seq<Cell>, j: int, up: Cell)
    requires forall c :: c in cells <==> InGrid(d, c)
    requires forall i, k :: 0 <= i < k < |cells| ==> Precedes(d, dirs, cells[i], cells[k])
    requires 0 <= j < |cells|
    requires up == UpwindX(dirs, cells[j]) || up == UpwindY(dirs, cells[j]) || up == UpwindZ(dirs, cells[j])
    requires InGrid(d, up)
    ensures up in cells[..j]
  {
    UpwindPrecedes(d, dirs, cells[j]);
    var i :| 0 <= i < |cells| && cells[i] == up;
    if i >= j {
      if i > j {
        PrecedesStrictTotal(d, dirs, cells[j], up, up);
      } else {
        PrecedesStrictTotal(d, dirs, up, up, up);
      }
      assert false;
    }
    assert cells[..j][i] == up;
  }
}
