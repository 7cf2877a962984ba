/**
 * The two small dense transforms that bracket the cell solve: moments to
 * angles (filling the local vector from the input state) and angles to
 * moments (adding the local vector's image into the output state).
 *
 * Each transform is defined as the fold of its slot writes in the loop
 * order of the sweeper (iu outer, then ia or im); the lemmas LoadSlots and
 * DepositEntries give the closed form of the result, slot by slot.
 */
module Transforms {
  import opened Types

  /** f(0) + f(1) + ... + f(n - 1). */
  function Sum(n: int, f: int -> real): real
    decreases n
  {
    if n <= 0 then 0.0 else Sum(n - 1, f) + f(n - 1)
  }

  /** Sums of pointwise equal terms are equal. */
  lemma {:induction false} SumCongruent(n: int, f: int -> real, g: int -> real)
    requires forall i :: 0 <= i < n ==> f(i) == g(i)
    ensures Sum(n, f) == Sum(n, g)
    decreases n
  {
    if n > 0 {
      SumCongruent(n - 1, f, g);
    }
  }

  /** A sum of n copies of c. */
  lemma {:induction false} SumConstant(n: nat, f: int -> real, c: real)
    requires forall i :: 0 <= i < n ==> f(i) == c
    ensures Sum(n, f) == n as real * c
  {
    if n > 0 {
      SumConstant(n - 1, f, c);
      assert n as real * c == (n - 1) as real * c + c;
    }
  }

  /** Reads a slot of the local vector (every slot read is present). */
  function Get(v: map<AngleIdx, real>, k: AngleIdx): real {
    if k in v then v[k] else 0.0
  }

  /** Term im of the moment-to-angle product for (ia, iu). */
  function MomentTerm(aFromM: (int, int) -> real, vi: StateIdx -> real, c: Cell, ie: int, ia: int, iu: int): int -> real {
    im => aFromM(im, ia) * vi(StateIdx(c, ie, im, iu))
  }

  /** Term ia of the angle-to-moment product for (im, iu). */
  function AngleTerm(mFromA: (int, int) -> real, v: map<AngleIdx, real>, im: int, iu: int): int -> real {
    ia => mFromA(im, ia) * Get(v, AngleIdx(ia, iu))
  }

  /** The local vector entry (ia, iu) computed from the input state at cell c, group ie. */
  function AngleValue(d: Dims, aFromM: (int, int) -> real, vi: StateIdx -> real, c: Cell, ie: int, ia: int, iu: int): real {
    Sum(d.nm, MomentTerm(aFromM, vi, c, ie, ia, iu))
  }

  /** The output state increment for (im, iu) computed from the local vector. */
  function MomentValue(d: Dims, mFromA: (int, int) -> real, v: map<AngleIdx, real>, im: int, iu: int): real {
    Sum(d.na, AngleTerm(mFromA, v, im, iu))
  }

  /** Slot (i, u) of a two-level loop nest (u outer, i inner) is written
      before the nest reaches (iu, i0). */
  predicate Written(i: int, u: int, iu: int, i0: int) {
    u < iu || (u == iu && i < i0)
  }

  /** The local vector once the moment-to-angle loops have written every
      slot before (iu, ia). */
  function LoadUpTo(v: map<AngleIdx, real>, d: Dims, aFromM: (int, int) -> real, vi: StateIdx -> real,
                    c: Cell, ie: int, iu: int, ia: int): map<AngleIdx, real>
    decreases iu, ia
  {
    if ia > 0 then LoadUpTo(v, d, aFromM, vi, c, ie, iu, ia - 1)[AngleIdx(ia - 1, iu) := AngleValue(d, aFromM, vi, c, ie, ia - 1, iu)]
    else if iu > 0 then LoadUpTo(v, d, aFromM, vi, c, ie, iu - 1, d.na)
    else v
  }

  /** The local vector after the moment-to-angle transform at (c, ie). */
  function Load(v: map<AngleIdx, real>, d: Dims, aFromM: (int, int) -> real, vi: StateIdx -> real, c: Cell, ie: int): map<AngleIdx, real> {
    LoadUpTo(v, d, aFromM, vi, c, ie, NU, 0)
  }

  /** The output state once the angle-to-moment loops have added into
      every entry of (c, ie) before (iu, im). The output always holds
      those entries; the membership test only keeps the fold total. */
  function DepositUpTo(vo: Field, d: Dims, mFromA: (int, int) -> real, v: map<AngleIdx, real>,
                       c: Cell, ie: int, iu: int, im: int): Field
    decreases iu, im
  {
    if im > 0 then
      var r := DepositUpTo(vo, d, mFromA, v, c, ie, iu, im - 1);
      var k := StateIdx(c, ie, im - 1, iu);
      if k in r then r[k := r[k] + MomentValue(d, mFromA, v, im - 1, iu)] else r
    else if iu > 0 then DepositUpTo(vo, d, mFromA, v, c, ie, iu - 1, d.nm)
    else vo
  }

  /** The output state after the angle-to-moment transform at (c, ie). */
  function Deposit(vo: Field, d: Dims, mFromA: (int, int) -> real, v: map<AngleIdx, real>, c: Cell, ie: int): Field {
    DepositUpTo(vo, d, mFromA, v, c, ie, NU, 0)
  }

  /** Part way through the moment-to-angle loops, exactly the slots written
      so far hold their dot products; every other slot is as it was. */
  lemma {:induction false} LoadUpToSlots(v: map<AngleIdx, real>, d: Dims, aFromM: (int, int) -> real, vi: StateIdx -> real,
                                         c: Cell, ie: int, iu: int, ia: int)
    requires d.Valid() && 0 <= iu && 0 <= ia <= d.na
    ensures forall k :: k in LoadUpTo(v, d, aFromM, vi, c, ie, iu, ia) <==>
              k in v || (0 <= k.ang < d.na && 0 <= k.u && Written(k.ang, k.u, iu, ia))
    ensures forall k | k in LoadUpTo(v, d, aFromM, vi, c, ie, iu, ia) ::
              LoadUpTo(v, d, aFromM, vi, c, ie, iu, ia)[k] ==
                if 0 <= k.ang < d.na && 0 <= k.u && Written(k.ang, k.u, iu, ia)
                then AngleValue(d, aFromM, vi, c, ie, k.ang, k.u) else v[k]
    decreases iu, ia
  {
    if ia > 0 {
      LoadUpToSlots(v, d, aFromM, vi, c, ie, iu, ia - 1);
    } else if iu > 0 {
      LoadUpToSlots(v, d, aFromM, vi, c, ie, iu - 1, d.na);
    }
  }

  /** Moments to angles writes every (ia, iu) slot of the local vector with
      the dot product of column ia of a_from_m and the input moments at
      (c, ie, iu), adds no other slot and leaves every other slot alone. */
  lemma LoadSlots(v: map<AngleIdx, real>, d: Dims, aFromM: (int, int) -> real, vi: StateIdx -> real, c: Cell, ie: int)
    requires d.Valid()
    ensures forall k :: k in Load(v, d, aFromM, vi, c, ie) <==> k in v || InAngles(d, k)
    ensures forall k | k in Load(v, d, aFromM, vi, c, ie) ::
              Load(v, d, aFromM, vi, c, ie)[k] == if InAngles(d, k) then AngleValue(d, aFromM, vi, c, ie, k.ang, k.u) else v[k]
  {
    LoadUpToSlots(v, d, aFromM, vi, c, ie, NU, 0);
  }

  /** Part way through the angle-to-moment loops, exactly the entries of
      (c, ie) written so far have received their increment. */
  lemma {:induction false} DepositUpToEntries(vo: Field, d: Dims, mFromA: (int, int) -> real, v: map<AngleIdx, real>,
                                              c: Cell, ie: int, iu: int, im: int)
    requires d.Valid() && 0 <= iu && 0 <= im <= d.nm
    ensures forall k :: k in DepositUpTo(vo, d, mFromA, v, c, ie, iu, im) <==> k in vo
    ensures forall k | k in vo ::
              DepositUpTo(vo, d, mFromA, v, c, ie, iu, im)[k] == vo[k] +
                if k.cell == c && k.e == ie && 0 <= k.m < d.nm && 0 <= k.u && Written(k.m, k.u, iu, im)
                then MomentValue(d, mFromA, v, k.m, k.u) else 0.0
    decreases iu, im
  {
    if im > 0 {
      DepositUpToEntries(vo, d, mFromA, v, c, ie, iu, im - 1);
    } else if iu > 0 {
      DepositUpToEntries(vo, d, mFromA, v, c, ie, iu - 1, d.nm);
    }
  }

  /** Angles to moments increases every (im, iu) entry of the output at
      (c, ie) by the dot product of row im of m_from_a and the local
      vector's angles for iu; no other entry changes and none is added. */
  lemma DepositEntries(vo: Field, d: Dims, mFromA: (int, int) -> real, v: map<AngleIdx, real>, c: Cell, ie: int)
    requires d.Valid()
    ensures forall k :: k in Deposit(vo, d, mFromA, v, c, ie) <==> k in vo
    ensures forall k | k in vo ::
              Deposit(vo, d, mFromA, v, c, ie)[k] == vo[k] +
                if k.cell == c && k.e == ie && 0 <= k.m < d.nm && 0 <= k.u < NU
                then MomentValue(d, mFromA, v, k.m, k.u) else 0.0
  {
    DepositUpToEntries(vo, d, mFromA, v, c, ie, NU, 0);
  }

  /** Moments to angles, in the sweeper's loop order; the result is the
      local vector Load describes. */
  method MomentsToAngles(v: map<AngleIdx, real>, d: Dims, aFromM: (int, int) -> real, vi: StateIdx -> real, c: Cell, ie: int)
    returns (r: map<AngleIdx, real>)
    requires d.Valid()
    ensures r == Load(v, d, aFromM, vi, c, ie)
    ensures forall k :: k in r <==> k in v || InAngles(d, k)
    ensures forall ia, iu :: 0 <= ia < d.na && 0 <= iu < NU ==>
              AngleIdx(ia, iu) in r && r[AngleIdx(ia, iu)] == Sum(d.nm, im => aFromM(im, ia) * vi(StateIdx(c, ie, im, iu)))
    ensures forall k | k in v && !InAngles(d, k) :: r[k] == v[k]
  {
    r := v;
    var iu := 0;
    while iu < NU
      invariant 0 <= iu <= NU
      invariant r == LoadUpTo(v, d, aFromM, vi, c, ie, iu, 0)
    {
      var ia := 0;
      while ia < d.na
        invariant 0 <= ia <= d.na
        invariant r == LoadUpTo(v, d, aFromM, vi, c, ie, iu, ia)
      {
        var result := 0.0;
        var im := 0;
        while im < d.nm
          invariant 0 <= im <= d.nm
          invariant result == Sum(im, MomentTerm(aFromM, vi, c, ie, ia, iu))
        {
          result := result + aFromM(im, ia) * vi(StateIdx(c, ie, im, iu));
          im := im + 1;
        }
        r := r[AngleIdx(ia, iu) := result];
        ia := ia + 1;
      }
      iu := iu + 1;
    }
    LoadSlots(v, d, aFromM, vi, c, ie);
    forall ia, iu | 0 <= ia < d.na && 0 <= iu < NU
      ensures r[AngleIdx(ia, iu)] == Sum(d.nm, im => aFromM(im, ia) * vi(StateIdx(c, ie, im, iu)))
    {
      SumCongruent(d.nm, MomentTerm(aFromM, vi, c, ie, ia, iu), im => aFromM(im, ia) * vi(StateIdx(c, ie, im, iu)));
    }
  }

  /** Angles to moments, in the sweeper's loop order; the result is the
      output Deposit describes. */
  method AnglesToMoments(vo: Field, v: map<AngleIdx, real>, d: Dims, mFromA: (int, int) -> real, c: Cell, ie: int)
    returns (r: Field)
    requires d.Valid()
    requires forall k :: InAngles(d, k) ==> k in v
    requires forall im, iu :: 0 <= im < d.nm && 0 <= iu < NU ==> StateIdx(c, ie, im, iu) in vo
    ensures r == Deposit(vo, d, mFromA, v, c, ie)
    ensures forall k :: k in r <==> k in vo
    ensures forall im, iu :: 0 <= im < d.nm && 0 <= iu < NU ==>
              r[StateIdx(c, ie, im, iu)] == vo[StateIdx(c, ie, im, iu)] + Sum(d.na, ia => mFromA(im, ia) * Get(v, AngleIdx(ia, iu)))
    ensures forall k | k in vo && !(k.cell == c && k.e == ie && 0 <= k.m < d.nm && 0 <= k.u < NU) :: r[k] == vo[k]
  {
    r := vo;
    var iu := 0;
    while iu < NU
      invariant 0 <= iu <= NU
      invariant r == DepositUpTo(vo, d, mFromA, v, c, ie, iu, 0)
      invariant r.Keys == vo.Keys
    {
      var im := 0;
      while im < d.nm
        invariant 0 <= im <= d.nm
        invariant r == DepositUpTo(vo, d, mFromA, v, c, ie, iu, im)
        invariant r.Keys == vo.Keys
      {
        var result := 0.0;
        var ia := 0;
        while ia < d.na
          invariant 0 <= ia <= d.na
          invariant result == Sum(ia, AngleTerm(mFromA, v, im, iu))
        {
          result := result + mFromA(im, ia) * v[AngleIdx(ia, iu)];
          ia := ia + 1;
        }
        r := r[StateIdx(c, ie, im, iu) := r[StateIdx(c, ie, im, iu)] + result];
        im := im + 1;
      }
      iu := iu + 1;
    }
    DepositEntries(vo, d, mFromA, v, c, ie);
    forall im, iu | 0 <= im < d.nm && 0 <= iu < NU
      ensures r[StateIdx(c, ie, im, iu)] == vo[StateIdx(c, ie, im, iu)] + Sum(d.na, ia => mFromA(im, ia) * Get(v, AngleIdx(ia, iu)))
    {
      SumCongruent(d.na, AngleTerm(mFromA, v, im, iu), ia => mFromA(im, ia) * Get(v, AngleIdx(ia, iu)));
    }
  }
}
