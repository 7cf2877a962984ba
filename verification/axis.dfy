/**
 * One spatial axis of the sweep: the loop extents, the `!=`-terminated
 * stepping loop, and the boundary index at which a face array is seeded.
 */
module Axis {
  import opened Octant

  /** First index visited along an axis of length n. */
  function Beg(n: int, dir: Dir): (i: int)
    requires n > 0
    ensures 0 <= i < n
    ensures dir == 1 ==> i == 0
    ensures dir == -1 ==> i == n - 1
  {
    if dir == 1 then 0 else n - 1
  }

  /** Last index visited along an axis of length n. */
  function End(n: int, dir: Dir): (i: int)
    requires n > 0
    ensures 0 <= i < n
    ensures i == Beg(n, if dir == 1 then -1 else 1)
  {
    if dir == -1 then 0 else n - 1
  }

  /** The index one cell outside the domain on the side the sweep enters
      from: where a face array is seeded. */
  function Boundary(n: int, dir: Dir): (i: int)
    requires n > 0
    ensures i < 0 || i >= n
    ensures i == Beg(n, dir) - dir
    ensures i == -1 || i == n
  {
    if dir == 1 then -1 else n
  }

  /** The index visited at step p of the walk. */
  function Coord(n: int, dir: Dir, p: int): int
  {
    if dir == 1 then p else n - 1 - p
  }

  /** How many steps of the walk precede index i. */
  function Pos(n: int, dir: Dir, i: int): (p: int)
    ensures Coord(n, dir, p) == i
  {
    if dir == 1 then i else n - 1 - i
  }

  lemma CoordIsStep(n: int, dir: Dir, p: int)
    requires n > 0
    ensures Coord(n, dir, p) == Beg(n, dir) + p * dir
    ensures Pos(n, dir, Coord(n, dir, p)) == p
    ensures 0 <= p < n <==> 0 <= Coord(n, dir, p) < n
  {
  }

  /** The loop condition `i != end + dir` fails exactly after n steps. */
  lemma LoopExit(n: int, dir: Dir, p: int)
    requires n > 0 && 0 <= p <= n
    ensures Coord(n, dir, p) == End(n, dir) + dir <==> p == n
  {
  }

  /** The indices visited by `for (i = beg; i != end + dir; i += dir)`. */
  method Walk(n: int, dir: Dir) returns (visited: seq<int>)
    requires n > 0
    ensures |visited| == n
    ensures forall p :: 0 <= p < n ==> visited[p] == Coord(n, dir, p)
    ensures forall i :: 0 <= i < n <==> i in visited
    ensures forall p, q :: 0 <= p < q < n ==> visited[p] != visited[q]
    ensures dir == 1 ==> forall p, q :: 0 <= p < q < n ==> visited[p] < visited[q]
    ensures dir == -1 ==> forall p, q :: 0 <= p < q < n ==> visited[p] > visited[q]
  {
    var beg := if dir == 1 then 0 else n - 1;
    var end := if dir == -1 then 0 else n - 1;
    visited := [];
    var i := beg;
    while i != end + dir
      invariant 0 <= Pos(n, dir, i) <= n
      invariant |visited| == Pos(n, dir, i)
      invariant forall p :: 0 <= p < |visited| ==> visited[p] == Coord(n, dir, p)
      decreases n - Pos(n, dir, i)
    {
      visited := visited + [i];
      i := i + dir;
    }
    forall j | 0 <= j < n
      ensures j in visited
    {
      assert visited[Pos(n, dir, j)] == j;
    }
  }
}
