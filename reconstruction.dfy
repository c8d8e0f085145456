/** Piecewise-linear reconstruction (`states`): cell-centred primitive
    values are extended to the two interfaces of each cell along the sweep
    with the slope limiter of Stone & Gardiner 2009, section 4.2.
    Convention: ql[i] is the left state at interface i-1/2 and qr[i] the
    right state at the same interface, so cell i feeds qr[i] and ql[i+1]. */
module Reconstruction {
  import opened Numerics

  /** The limited slope sign(dc) * min(2|dl|, 2|dr|, |dc|) built from the
      backward, forward and centred differences of one component. */
  function LimitedSlope(dl: real, dr: real, dc: real): (s: real)
  {
    Sign(dc) * Min(2.0 * Abs(dl), Min(2.0 * Abs(dr), Abs(dc)))
  }

  /** Component of the primitive state that is the field along the sweep. */
  function NormalComponent(idir: int, ibx: int, iby: int): int
  {
    if idir == 1 then ibx else iby
  }

  /** dq_l: backward difference along the sweep, 0 on the outermost layer. */
  function BackwardDiff(qv: array3<real>, idir: int, i: int, j: int, k: int): real
    reads qv
    requires 0 <= i < qv.Length0 && 0 <= j < qv.Length1 && 0 <= k < qv.Length2
  {
    if idir == 1 then
      if 1 <= i < qv.Length0 - 1 then qv[i, j, k] - qv[i - 1, j, k] else 0.0
    else
      if 1 <= j < qv.Length1 - 1 then qv[i, j, k] - qv[i, j - 1, k] else 0.0
  }

  /** dq_r: forward difference along the sweep, 0 on the outermost layer. */
  function ForwardDiff(qv: array3<real>, idir: int, i: int, j: int, k: int): real
    reads qv
    requires 0 <= i < qv.Length0 && 0 <= j < qv.Length1 && 0 <= k < qv.Length2
  {
    if idir == 1 then
      if 1 <= i < qv.Length0 - 1 then qv[i + 1, j, k] - qv[i, j, k] else 0.0
    else
      if 1 <= j < qv.Length1 - 1 then qv[i, j + 1, k] - qv[i, j, k] else 0.0
  }

  /** dq_c: centred difference along the sweep, 0 on the outermost layer. */
  function CentredDiff(qv: array3<real>, idir: int, i: int, j: int, k: int): real
    reads qv
    requires 0 <= i < qv.Length0 && 0 <= j < qv.Length1 && 0 <= k < qv.Length2
  {
    if idir == 1 then
      if 1 <= i < qv.Length0 - 1 then 0.5 * (qv[i + 1, j, k] - qv[i - 1, j, k]) else 0.0
    else
      if 1 <= j < qv.Length1 - 1 then 0.5 * (qv[i, j + 1, k] - qv[i, j - 1, k]) else 0.0
  }

  /** dq: the limited slope of every component, except the normal field,
      whose slope is zero (it lives on faces and is not reconstructed). */
  function Slope(qv: array3<real>, idir: int, ibx: int, iby: int, i: int, j: int, k: int): real
    reads qv
    requires 0 <= i < qv.Length0 && 0 <= j < qv.Length1 && 0 <= k < qv.Length2
  {
    if k == NormalComponent(idir, ibx, iby) then 0.0
    else LimitedSlope(BackwardDiff(qv, idir, i, j, k), ForwardDiff(qv, idir, i, j, k),
                      CentredDiff(qv, idir, i, j, k))
  }

  /** Cells whose interface states are computed: ng-3 cells beyond the
      interior on every side, i.e. [ng-3, n-ng+3) along each axis. */
  predicate Swept(qv: array3<real>, ng: int, i: int, j: int)
  {
    ng - 3 <= i < qv.Length0 - ng + 3 && ng - 3 <= j < qv.Length1 - ng + 3
  }

  /** Value of ql[a, b, k] after `states`: cell (a-1, b) (x sweep) or
      (a, b-1) (y sweep) plus half its slope, or 0 where no cell wrote. */
  function LeftState(qv: array3<real>, idir: int, ng: int, ibx: int, iby: int, a: int, b: int, k: int): real
    reads qv
    requires ng >= 4
    requires 0 <= a < qv.Length0 && 0 <= b < qv.Length1 && 0 <= k < qv.Length2
  {
    if idir == 1 then
      if Swept(qv, ng, a - 1, b) then qv[a - 1, b, k] + 0.5 * Slope(qv, idir, ibx, iby, a - 1, b, k) else 0.0
    else
      if Swept(qv, ng, a, b - 1) then qv[a, b - 1, k] + 0.5 * Slope(qv, idir, ibx, iby, a, b - 1, k) else 0.0
  }

  /** Value of qr[a, b, k] after `states`: cell (a, b) minus half its
      slope, or 0 where no cell wrote. */
  function RightState(qv: array3<real>, idir: int, ng: int, ibx: int, iby: int, a: int, b: int, k: int): real
    reads qv
    requires ng >= 4
    requires 0 <= a < qv.Length0 && 0 <= b < qv.Length1 && 0 <= k < qv.Length2
  {
    if Swept(qv, ng, a, b) then qv[a, b, k] - 0.5 * Slope(qv, idir, ibx, iby, a, b, k) else 0.0
  }

  /** The limiter never makes the slope steeper than twice either one-sided
      difference or than the centred difference, and never gives it a sign
      other than that of the centred difference; it is zero exactly when one
      of the three differences is. */
  lemma LimitedSlopeBounds(dl: real, dr: real, dc: real)
    ensures Abs(LimitedSlope(dl, dr, dc)) <= 2.0 * Abs(dl)
    ensures Abs(LimitedSlope(dl, dr, dc)) <= 2.0 * Abs(dr)
    ensures Abs(LimitedSlope(dl, dr, dc)) <= Abs(dc)
    ensures LimitedSlope(dl, dr, dc) == 0.0 || (LimitedSlope(dl, dr, dc) > 0.0 && dc > 0.0)
                                          || (LimitedSlope(dl, dr, dc) < 0.0 && dc < 0.0)
    ensures LimitedSlope(dl, dr, dc) == 0.0 <==> dl == 0.0 || dr == 0.0 || dc == 0.0
  {
    var m := Min(2.0 * Abs(dl), Min(2.0 * Abs(dr), Abs(dc)));
    assert m >= 0.0;
    assert m == 0.0 <==> dl == 0.0 || dr == 0.0 || dc == 0.0;
    if dc > 0.0 {
      assert LimitedSlope(dl, dr, dc) == m;
    } else if dc < 0.0 {
      assert LimitedSlope(dl, dr, dc) == -m;
    } else {
      assert LimitedSlope(dl, dr, dc) == 0.0;
    }
  }

  /** The limiter has no extremum test: at a peak (the left difference
      positive, the right one negative) the slope can still be nonzero, so
      the reconstructed value exceeds the peak. */
  lemma LimitedSlopeAtPeak()
    ensures LimitedSlope(2.0, -1.0, 0.5) == 0.5
    ensures 2.0 + 0.5 * LimitedSlope(2.0, -1.0, 0.5) > 2.0
  {
  }

  /** Where a cell and both its neighbours along the sweep agree, the slope is
      zero and both interface states of the cell are the cell value. */
  lemma FlatNeighbourhood(qv: array3<real>, idir: int, ng: int, ibx: int, iby: int, i: int, j: int, k: int)
    requires ng >= 4
    requires 0 <= i < qv.Length0 && 0 <= j < qv.Length1 && 0 <= k < qv.Length2
    requires Swept(qv, ng, i, j)
    requires idir == 1 ==> 1 <= i < qv.Length0 - 1 && qv[i - 1, j, k] == qv[i, j, k] == qv[i + 1, j, k]
    requires idir != 1 ==> 1 <= j < qv.Length1 - 1 && qv[i, j - 1, k] == qv[i, j, k] == qv[i, j + 1, k]
    ensures Slope(qv, idir, ibx, iby, i, j, k) == 0.0
    ensures RightState(qv, idir, ng, ibx, iby, i, j, k) == qv[i, j, k]
    ensures idir == 1 ==> LeftState(qv, idir, ng, ibx, iby, i + 1, j, k) == qv[i, j, k]
    ensures idir != 1 ==> LeftState(qv, idir, ng, ibx, iby, i, j + 1, k) == qv[i, j, k]
  {
    var dl, dr, dc := BackwardDiff(qv, idir, i, j, k), ForwardDiff(qv, idir, i, j, k), CentredDiff(qv, idir, i, j, k);
    assert dl == 0.0 && Abs(dl) == 0.0;
    assert Min(2.0 * Abs(dl), Min(2.0 * Abs(dr), Abs(dc))) == 0.0;
  }

  /** The field component along the sweep is copied, not reconstructed: both
      interface states a swept cell feeds hold the cell value. */
  lemma NormalFieldNotReconstructed(qv: array3<real>, idir: int, ng: int, ibx: int, iby: int, i: int, j: int)
    requires ng >= 4
    requires 0 <= i < qv.Length0 && 0 <= j < qv.Length1
    requires 0 <= NormalComponent(idir, ibx, iby) < qv.Length2
    requires Swept(qv, ng, i, j)
    ensures RightState(qv, idir, ng, ibx, iby, i, j, NormalComponent(idir, ibx, iby)) == qv[i, j, NormalComponent(idir, ibx, iby)]
    ensures idir == 1 && i + 1 < qv.Length0 ==>
      LeftState(qv, idir, ng, ibx, iby, i + 1, j, NormalComponent(idir, ibx, iby)) == qv[i, j, NormalComponent(idir, ibx, iby)]
    ensures idir != 1 && j + 1 < qv.Length1 ==>
      LeftState(qv, idir, ng, ibx, iby, i, j + 1, NormalComponent(idir, ibx, iby)) == qv[i, j, NormalComponent(idir, ibx, iby)]
  {
  }

  /** The limiter is odd: flipping the sign of every difference flips the
      sign of the slope. */
  lemma LimitedSlopeOdd(dl: real, dr: real, dc: real)
    ensures LimitedSlope(-dl, -dr, -dc) == -LimitedSlope(dl, dr, dc)
  {
    assert Abs(-dl) == Abs(dl) && Abs(-dr) == Abs(dr) && Abs(-dc) == Abs(dc);
    assert Sign(-dc) == -Sign(dc);
  }

  /** For non-decreasing values across the stencil, s/2 lies between 0 and
      each one-sided difference. */
  lemma RisingSlopeBounded(dl: real, dr: real)
    requires dl >= 0.0 && dr >= 0.0
    ensures 0.0 <= 0.5 * LimitedSlope(dl, dr, 0.5 * (dl + dr)) <= dl
    ensures 0.5 * LimitedSlope(dl, dr, 0.5 * (dl + dr)) <= dr
  {
    var dc := 0.5 * (dl + dr);
    var m := Min(2.0 * Abs(dl), Min(2.0 * Abs(dr), Abs(dc)));
    if dc > 0.0 {
      assert Sign(dc) == 1.0;
      assert 0.0 <= m <= 2.0 * dl && m <= 2.0 * dr;
    } else {
      assert Sign(dc) == 0.0;
    }
  }

  /** For values monotone across the limiter's stencil, s/2 stays between 0
      and each one-sided difference. */
  lemma MonotoneSlopeBounded(dl: real, dr: real)
    requires (dl >= 0.0 && dr >= 0.0) || (dl <= 0.0 && dr <= 0.0)
    ensures Between(0.0, 0.5 * LimitedSlope(dl, dr, 0.5 * (dl + dr)), dl)
    ensures Between(0.0, 0.5 * LimitedSlope(dl, dr, 0.5 * (dl + dr)), dr)
  {
    if dl >= 0.0 && dr >= 0.0 {
      RisingSlopeBounded(dl, dr);
    } else {
      RisingSlopeBounded(-dl, -dr);
      assert 0.5 * (-dl + -dr) == -(0.5 * (dl + dr));
      LimitedSlopeOdd(dl, dr, 0.5 * (dl + dr));
    }
  }

  /** Where the values are monotone across a cell and its two neighbours, the
      two interface states the cell feeds lie between the cell value and the
      neighbour on their side: the reconstruction makes no new extremum. */
  lemma MonotoneInterfaceBounded(qv: array3<real>, idir: int, ng: int, ibx: int, iby: int, i: int, j: int, k: int)
    requires ng >= 4
    requires 0 <= i < qv.Length0 && 0 <= j < qv.Length1 && 0 <= k < qv.Length2
    requires Swept(qv, ng, i, j)
    requires idir == 1 ==> (1 <= i < qv.Length0 - 1 &&
      ((qv[i - 1, j, k] <= qv[i, j, k] <= qv[i + 1, j, k]) || (qv[i - 1, j, k] >= qv[i, j, k] >= qv[i + 1, j, k])))
    requires idir != 1 ==> (1 <= j < qv.Length1 - 1 &&
      ((qv[i, j - 1, k] <= qv[i, j, k] <= qv[i, j + 1, k]) || (qv[i, j - 1, k] >= qv[i, j, k] >= qv[i, j + 1, k])))
    ensures idir == 1 ==> Between(qv[i - 1, j, k], RightState(qv, idir, ng, ibx, iby, i, j, k), qv[i, j, k])
    ensures idir == 1 ==> Between(qv[i, j, k], LeftState(qv, idir, ng, ibx, iby, i + 1, j, k), qv[i + 1, j, k])
    ensures idir != 1 ==> Between(qv[i, j - 1, k], RightState(qv, idir, ng, ibx, iby, i, j, k), qv[i, j, k])
    ensures idir != 1 ==> Between(qv[i, j, k], LeftState(qv, idir, ng, ibx, iby, i, j + 1, k), qv[i, j + 1, k])
  {
    var c, half := qv[i, j, k], 0.5 * Slope(qv, idir, ibx, iby, i, j, k);
    MonotoneHalfSlope(qv, idir, ibx, iby, i, j, k);
    assert RightState(qv, idir, ng, ibx, iby, i, j, k) == c - half;
    if idir == 1 {
      assert LeftState(qv, idir, ng, ibx, iby, i + 1, j, k) == c + half;
      HalfStepBetween(qv[i - 1, j, k], c, qv[i + 1, j, k], half);
    } else {
      assert LeftState(qv, idir, ng, ibx, iby, i, j + 1, k) == c + half;
      HalfStepBetween(qv[i, j - 1, k], c, qv[i, j + 1, k], half);
    }
  }

  /** At a cell whose one-sided differences share a sign, half the slope
      lies between 0 and each of them. */
  lemma MonotoneHalfSlope(qv: array3<real>, idir: int, ibx: int, iby: int, i: int, j: int, k: int)
    requires 0 <= i < qv.Length0 && 0 <= j < qv.Length1 && 0 <= k < qv.Length2
    requires idir == 1 ==> 1 <= i < qv.Length0 - 1
    requires idir != 1 ==> 1 <= j < qv.Length1 - 1
    requires (BackwardDiff(qv, idir, i, j, k) >= 0.0 && ForwardDiff(qv, idir, i, j, k) >= 0.0)
          || (BackwardDiff(qv, idir, i, j, k) <= 0.0 && ForwardDiff(qv, idir, i, j, k) <= 0.0)
    ensures Between(0.0, 0.5 * Slope(qv, idir, ibx, iby, i, j, k), BackwardDiff(qv, idir, i, j, k))
    ensures Between(0.0, 0.5 * Slope(qv, idir, ibx, iby, i, j, k), ForwardDiff(qv, idir, i, j, k))
  {
    var dl, dr := BackwardDiff(qv, idir, i, j, k), ForwardDiff(qv, idir, i, j, k);
    assert CentredDiff(qv, idir, i, j, k) == 0.5 * (dl + dr);
    if k != NormalComponent(idir, ibx, iby) {
      MonotoneSlopeBounded(dl, dr);
    }
  }

  /** A half slope bounded by both one-sided differences keeps c - half
      between the previous value and c, and c + half between c and the
      next value. */
  lemma HalfStepBetween(prev: real, c: real, next: real, half: real)
    requires Between(0.0, half, c - prev) && Between(0.0, half, next - c)
    ensures Between(prev, c - half, c) && Between(c, c + half, next)
  {
  }

  /** dq_l: a zero array whose interior along the sweep is overwritten by
      the backward differences (slice assignment). */
  method BackwardDifferences(idir: int, qv: array3<real>) returns (dl: array3<real>)
    ensures fresh(dl)
    ensures dl.Length0 == qv.Length0 && dl.Length1 == qv.Length1 && dl.Length2 == qv.Length2
    ensures forall i, j, k | 0 <= i < qv.Length0 && 0 <= j < qv.Length1 && 0 <= k < qv.Length2 ::
      dl[i, j, k] == BackwardDiff(qv, idir, i, j, k)
  {
    var qx, qy, nvar := qv.Length0, qv.Length1, qv.Length2;
    dl := new real[qx, qy, nvar]((_, _, _) => 0.0);
    if idir == 1 {
      forall i, j, k | 1 <= i < qx - 1 && 0 <= j < qy && 0 <= k < nvar {
        dl[i, j, k] := qv[i, j, k] - qv[i - 1, j, k];
      }
    } else {
      forall i, j, k | 0 <= i < qx && 1 <= j < qy - 1 && 0 <= k < nvar {
        dl[i, j, k] := qv[i, j, k] - qv[i, j - 1, k];
      }
    }
  }

  /** dq_r: the forward differences, written the same way. */
  method ForwardDifferences(idir: int, qv: array3<real>) returns (dr: array3<real>)
    ensures fresh(dr)
    ensures dr.Length0 == qv.Length0 && dr.Length1 == qv.Length1 && dr.Length2 == qv.Length2
    ensures forall i, j, k | 0 <= i < qv.Length0 && 0 <= j < qv.Length1 && 0 <= k < qv.Length2 ::
      dr[i, j, k] == ForwardDiff(qv, idir, i, j, k)
  {
    var qx, qy, nvar := qv.Length0, qv.Length1, qv.Length2;
    dr := new real[qx, qy, nvar]((_, _, _) => 0.0);
    if idir == 1 {
      forall i, j, k | 1 <= i < qx - 1 && 0 <= j < qy && 0 <= k < nvar {
        dr[i, j, k] := qv[i + 1, j, k] - qv[i, j, k];
      }
    } else {
      forall i, j, k | 0 <= i < qx && 1 <= j < qy - 1 && 0 <= k < nvar {
        dr[i, j, k] := qv[i, j + 1, k] - qv[i, j, k];
      }
    }
  }

  /** dq_c: the centred differences, written the same way. */
  method CentredDifferences(idir: int, qv: array3<real>) returns (dc: array3<real>)
    ensures fresh(dc)
    ensures dc.Length0 == qv.Length0 && dc.Length1 == qv.Length1 && dc.Length2 == qv.Length2
    ensures forall i, j, k | 0 <= i < qv.Length0 && 0 <= j < qv.Length1 && 0 <= k < qv.Length2 ::
      dc[i, j, k] == CentredDiff(qv, idir, i, j, k)
  {
    var qx, qy, nvar := qv.Length0, qv.Length1, qv.Length2;
    dc := new real[qx, qy, nvar]((_, _, _) => 0.0);
    if idir == 1 {
      forall i, j, k | 1 <= i < qx - 1 && 0 <= j < qy && 0 <= k < nvar {
        dc[i, j, k] := 0.5 * (qv[i + 1, j, k] - qv[i - 1, j, k]);
      }
    } else {
      forall i, j, k | 0 <= i < qx && 1 <= j < qy - 1 && 0 <= k < nvar {
        dc[i, j, k] := 0.5 * (qv[i, j + 1, k] - qv[i, j - 1, k]);
      }
    }
  }

  /** The limiter applied entry by entry to three arrays of one shape. */
  method Limited(dl: array3<real>, dr: array3<real>, dc: array3<real>) returns (dq: array3<real>)
    requires dr.Length0 == dc.Length0 == dl.Length0
    requires dr.Length1 == dc.Length1 == dl.Length1
    requires dr.Length2 == dc.Length2 == dl.Length2
    ensures fresh(dq)
    ensures dq.Length0 == dl.Length0 && dq.Length1 == dl.Length1 && dq.Length2 == dl.Length2
    ensures forall i, j, k | 0 <= i < dl.Length0 && 0 <= j < dl.Length1 && 0 <= k < dl.Length2 ::
      dq[i, j, k] == LimitedSlope(dl[i, j, k], dr[i, j, k], dc[i, j, k])
  {
    dq := new real[dl.Length0, dl.Length1, dl.Length2];
    forall i, j, k | 0 <= i < dl.Length0 && 0 <= j < dl.Length1 && 0 <= k < dl.Length2 {
      dq[i, j, k] := LimitedSlope(dl[i, j, k], dr[i, j, k], dc[i, j, k]);
    }
  }

  /** dq: the limiter applied entry by entry, then the normal-field
      component set to 0. */
  method LimitedSlopes(idir: int, ibx: int, iby: int, qv: array3<real>) returns (dq: array3<real>)
    requires 0 <= NormalComponent(idir, ibx, iby) < qv.Length2
    ensures fresh(dq)
    ensures dq.Length0 == qv.Length0 && dq.Length1 == qv.Length1 && dq.Length2 == qv.Length2
    ensures forall i, j, k | 0 <= i < qv.Length0 && 0 <= j < qv.Length1 && 0 <= k < qv.Length2 ::
      dq[i, j, k] == Slope(qv, idir, ibx, iby, i, j, k)
  {
    var qx, qy, nvar := qv.Length0, qv.Length1, qv.Length2;
    var dl := BackwardDifferences(idir, qv);
    var dr := ForwardDifferences(idir, qv);
    var dc := CentredDifferences(idir, qv);
    dq := Limited(dl, dr, dc);
    var n := if idir == 1 then ibx else iby;
    forall i, j | 0 <= i < qx && 0 <= j < qy {
      dq[i, j, n] := 0.0;
    }
  }

  /** One pass of the inner `for j` loop of `states`: for every cell (i, j)
      with jlo <= j < jhi, ql receives cell + dq/2 one cell further along
      the sweep and qr receives cell - dq/2 at the cell itself. */
  method ReconstructRow(idir: int, i: int, jlo: int, jhi: int,
                        qv: array3<real>, dq: array3<real>, ql: array3<real>, qr: array3<real>)
    requires ql != qr && ql != qv && ql != dq && qr != qv && qr != dq
    requires dq.Length0 == ql.Length0 == qr.Length0 == qv.Length0
    requires dq.Length1 == ql.Length1 == qr.Length1 == qv.Length1
    requires dq.Length2 == ql.Length2 == qr.Length2 == qv.Length2
    requires 0 <= i && i + 1 < qv.Length0
    requires jlo < jhi ==> 0 <= jlo && jhi + 1 <= qv.Length1
    modifies ql, qr
    ensures idir == 1 ==> forall a, b, k | 0 <= a < qv.Length0 && 0 <= b < qv.Length1 && 0 <= k < qv.Length2 ::
      ql[a, b, k] == (if a - 1 == i && jlo <= b < jhi then qv[i, b, k] + 0.5 * dq[i, b, k] else old(ql[a, b, k]))
    ensures idir != 1 ==> forall a, b, k | 0 <= a < qv.Length0 && 0 <= b < qv.Length1 && 0 <= k < qv.Length2 ::
      ql[a, b, k] == (if a == i && jlo <= b - 1 < jhi then qv[i, b - 1, k] + 0.5 * dq[i, b - 1, k] else old(ql[a, b, k]))
    ensures forall a, b, k | 0 <= a < qv.Length0 && 0 <= b < qv.Length1 && 0 <= k < qv.Length2 ::
      qr[a, b, k] == (if a == i && jlo <= b < jhi then qv[i, b, k] - 0.5 * dq[i, b, k] else old(qr[a, b, k]))
  {
    var nvar := qv.Length2;
    var j := jlo;
    while j < jhi
      invariant j == jlo || jlo <= j <= jhi
      invariant idir == 1 ==> forall a, b, k | 0 <= a < qv.Length0 && 0 <= b < qv.Length1 && 0 <= k < nvar ::
        ql[a, b, k] == (if a - 1 == i && jlo <= b < j then qv[i, b, k] + 0.5 * dq[i, b, k] else old(ql[a, b, k]))
      invariant idir != 1 ==> forall a, b, k | 0 <= a < qv.Length0 && 0 <= b < qv.Length1 && 0 <= k < nvar ::
        ql[a, b, k] == (if a == i && jlo <= b - 1 < j then qv[i, b - 1, k] + 0.5 * dq[i, b - 1, k] else old(ql[a, b, k]))
      invariant forall a, b, k | 0 <= a < qv.Length0 && 0 <= b < qv.Length1 && 0 <= k < nvar ::
        qr[a, b, k] == (if a == i && jlo <= b < j then qv[i, b, k] - 0.5 * dq[i, b, k] else old(qr[a, b, k]))
    {
      if idir == 1 {
        forall k | 0 <= k < nvar {
          ql[i + 1, j, k] := qv[i, j, k] + 0.5 * dq[i, j, k];
        }
      } else {
        forall k | 0 <= k < nvar {
          ql[i, j + 1, k] := qv[i, j, k] + 0.5 * dq[i, j, k];
        }
      }
      forall k | 0 <= k < nvar {
        qr[i, j, k] := qv[i, j, k] - 0.5 * dq[i, j, k];
      }
      j := j + 1;
    }
  }

  /** The `for i / for j` loop of `states`: interface states of every
      swept cell from the cell values and the slopes dq. */
  method Interfaces(idir: int, ng: int, qv: array3<real>, dq: array3<real>) returns (ql: array3<real>, qr: array3<real>)
    requires ng >= 4
    requires dq.Length0 == qv.Length0 && dq.Length1 == qv.Length1 && dq.Length2 == qv.Length2
    ensures fresh(ql) && fresh(qr)
    ensures ql.Length0 == qr.Length0 == qv.Length0
    ensures ql.Length1 == qr.Length1 == qv.Length1
    ensures ql.Length2 == qr.Length2 == qv.Length2
    ensures idir == 1 ==> forall a, b, k | 0 <= a < qv.Length0 && 0 <= b < qv.Length1 && 0 <= k < qv.Length2 ::
      ql[a, b, k] == (if Swept(qv, ng, a - 1, b) then qv[a - 1, b, k] + 0.5 * dq[a - 1, b, k] else 0.0)
    ensures idir != 1 ==> forall a, b, k | 0 <= a < qv.Length0 && 0 <= b < qv.Length1 && 0 <= k < qv.Length2 ::
      ql[a, b, k] == (if Swept(qv, ng, a, b - 1) then qv[a, b - 1, k] + 0.5 * dq[a, b - 1, k] else 0.0)
    ensures forall a, b, k | 0 <= a < qv.Length0 && 0 <= b < qv.Length1 && 0 <= k < qv.Length2 ::
      qr[a, b, k] == (if Swept(qv, ng, a, b) then qv[a, b, k] - 0.5 * dq[a, b, k] else 0.0)
  {
    var qx, qy, nvar := qv.Length0, qv.Length1, qv.Length2;
    ql := new real[qx, qy, nvar]((_, _, _) => 0.0);
    qr := new real[qx, qy, nvar]((_, _, _) => 0.0);

    var ilo, ihi, jlo, jhi := ng - 3, qx - ng + 3, ng - 3, qy - ng + 3;
    var i := ilo;
    while i < ihi
      invariant i == ilo || ilo <= i <= ihi
      invariant idir == 1 ==> forall a, b, k | 0 <= a < qx && 0 <= b < qy && 0 <= k < nvar ::
        ql[a, b, k] == (if ilo <= a - 1 < i && jlo <= b < jhi then qv[a - 1, b, k] + 0.5 * dq[a - 1, b, k] else 0.0)
      invariant idir != 1 ==> forall a, b, k | 0 <= a < qx && 0 <= b < qy && 0 <= k < nvar ::
        ql[a, b, k] == (if ilo <= a < i && jlo <= b - 1 < jhi then qv[a, b - 1, k] + 0.5 * dq[a, b - 1, k] else 0.0)
      invariant forall a, b, k | 0 <= a < qx && 0 <= b < qy && 0 <= k < nvar ::
        qr[a, b, k] == (if ilo <= a < i && jlo <= b < jhi then qv[a, b, k] - 0.5 * dq[a, b, k] else 0.0)
      modifies ql, qr
    {
      ReconstructRow(idir, i, jlo, jhi, qv, dq, ql, qr);
      i := i + 1;
    }
  }

  /** `states`: the limited slopes dq of every cell, then the interface
      states ql and qr of every swept cell; all other entries stay 0. */
  method States(idir: int, ng: int, ibx: int, iby: int, qv: array3<real>) returns (ql: array3<real>, qr: array3<real>)
    requires ng >= 4
    requires 0 <= NormalComponent(idir, ibx, iby) < qv.Length2
    ensures fresh(ql) && fresh(qr)
    ensures ql.Length0 == qr.Length0 == qv.Length0
    ensures ql.Length1 == qr.Length1 == qv.Length1
    ensures ql.Length2 == qr.Length2 == qv.Length2
    ensures forall a, b, k | 0 <= a < qv.Length0 && 0 <= b < qv.Length1 && 0 <= k < qv.Length2 ::
      ql[a, b, k] == LeftState(qv, idir, ng, ibx, iby, a, b, k)
    ensures forall a, b, k | 0 <= a < qv.Length0 && 0 <= b < qv.Length1 && 0 <= k < qv.Length2 ::
      qr[a, b, k] == RightState(qv, idir, ng, ibx, iby, a, b, k)
  {
    var dq := LimitedSlopes(idir, ibx, iby, qv);
    ql, qr := Interfaces(idir, ng, qv, dq);
  }
}
