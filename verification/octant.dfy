/**
 * Octant decoding: the loop counter 0..NOCTANT-1 is read as three bits, one
 * per axis; a set bit means the sweep runs downward (-1) along that axis, a
 * clear bit upward (+1).
 */
module Octant {
  import opened Types

  /** A sweep direction along one axis. */
  type Dir = d: int | d == 1 || d == -1 witness 1

  datatype Dirs = Dirs(x: Dir, y: Dir, z: Dir)

  /** The direction triple of an octant, decoded bit by bit with `&` as the
      sweep loop does. */
  function Decode(octant: int): (d: Dirs)
    requires 0 <= octant < NOCTANT
    ensures d.x == -1 <==> octant % 2 == 1
    ensures d.y == -1 <==> (octant / 2) % 2 == 1
    ensures d.z == -1 <==> octant / 4 == 1
  {
    var bits := octant as bv3;
    Dirs(if bits & (1 << 0) != 0 then -1 else 1,
         if bits & (1 << 1) != 0 then -1 else 1,
         if bits & (1 << 2) != 0 then -1 else 1)
  }

  /** The octant number whose decoding is the given triple. */
  function Encode(d: Dirs): (octant: int)
    ensures 0 <= octant < NOCTANT
  {
    (if d.x == -1 then 1 else 0) + (if d.y == -1 then 2 else 0) + (if d.z == -1 then 4 else 0)
  }

  lemma DecodeEncode(d: Dirs)
    ensures Decode(Encode(d)) == d
  {
  }

  lemma EncodeDecode(octant: int)
    requires 0 <= octant < NOCTANT
    ensures Encode(Decode(octant)) == octant
  {
  }

  /** Distinct octants sweep in distinct directions. */
  lemma DecodeInjective(o1: int, o2: int)
    requires 0 <= o1 < NOCTANT && 0 <= o2 < NOCTANT
    ensures Decode(o1) == Decode(o2) <==> o1 == o2
  {
    EncodeDecode(o1);
    EncodeDecode(o2);
  }

  /** Every one of the eight direction triples is swept by some octant. */
  lemma DecodeSurjective(d: Dirs)
    ensures exists octant :: 0 <= octant < NOCTANT && Decode(octant) == d
  {
    DecodeEncode(d);
  }
}
