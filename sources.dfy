/** `sources`: the momentum source on the idir interfaces, the cell field
    times the jump of the interface normal field across the cell, divided
    by the cell size. With Bz = vz = 0 the energy and Bz sources vanish, so
    only the two momentum slots are written. */
module Sources {
  import opened Numerics
  import opened VariableLayout

  /** The arguments of `sources` as values: the sweep direction, the
      layout, the cell size dx, the cell-centred state U and the interface
      state Ux, both qx by qy by nvar. */
  datatype SourceInput = SourceInput(idir: int, lay: Layout, dx: real,
                                     U: seq<seq<seq<real>>>, Ux: seq<seq<seq<real>>>, qx: nat, qy: nat, nvar: nat)
  {
    /** The loop runs over [1, q-1) on both axes, whatever ng is. */
    predicate InLoop(i: int, j: int)
    {
      1 <= i < qx - 1 && 1 <= j < qy - 1
    }

    /** Grids of one shape and, when the loop does any iteration, the
        momentum and field slots inside the state vector (the only slots the
        loop reads or writes) and a non-zero dx. */
    predicate Valid()
    {
      && Grid3(U, qx, qy, nvar) && Grid3(Ux, qx, qy, nvar)
      && (qx < 3 || qy < 3 || (lay.MomentaIn(nvar) && lay.FieldIn(nvar) && dx != 0.0))
    }

    /** The jump of the interface normal field across cell (i, j): Bx
        between the faces i and i+1 for idir == 1, By between the faces j
        and j+1 otherwise. */
    function FieldJump(i: int, j: int): real
      requires Valid() && InLoop(i, j)
    {
      if idir == 1 then Ux[i + 1][j][lay.ixmag] - Ux[i][j][lay.ixmag]
      else Ux[i][j + 1][lay.iymag] - Ux[i][j][lay.iymag]
    }

    /** S[i, j, k]. Inside the loop the x momentum gets Bx times the jump
        over dx and the y momentum By times it; the y slot is written
        second, so it wins if the two slots coincide. Everything else is
        zero. */
    function Source(i: int, j: int, k: int): real
      requires Valid() && 0 <= i < qx && 0 <= j < qy && 0 <= k < nvar
    {
      if !InLoop(i, j) then 0.0
      else if k == lay.iymom then U[i][j][lay.iymag] * FieldJump(i, j) / dx
      else if k == lay.ixmom then U[i][j][lay.ixmag] * FieldJump(i, j) / dx
      else 0.0
    }
  }

  /** The values of the kernel's array arguments. */
  function Inputs(idir: int, lay: Layout, dx: real, U: array3<real>, Ux: array3<real>): SourceInput
    reads U, Ux
  {
    SourceInput(idir, lay, dx, Snapshot3(U), Snapshot3(Ux), U.Length0, U.Length1, U.Length2)
  }

  /** Cell (i, j) of the loop body: the jump of the normal field across
      the cell, then the x momentum slot, then the y momentum slot. */
  method SourceAt(ghost s: SourceInput, idir: int, lay: Layout, dx: real, U: array3<real>, Ux: array3<real>,
                  S: array3<real>, i: int, j: int)
    requires s.Valid() && s.idir == idir && s.lay == lay && s.dx == dx
    requires U.Length0 == s.qx && U.Length1 == s.qy && U.Length2 == s.nvar
    requires Ux.Length0 == s.qx && Ux.Length1 == s.qy && Ux.Length2 == s.nvar
    requires forall a, b, k | 0 <= a < s.qx && 0 <= b < s.qy && 0 <= k < s.nvar ::
      U[a, b, k] == s.U[a][b][k] && Ux[a, b, k] == s.Ux[a][b][k]
    requires S != U && S != Ux
    requires S.Length0 == s.qx && S.Length1 == s.qy && S.Length2 == s.nvar
    requires s.InLoop(i, j)
    requires forall k | 0 <= k < s.nvar :: S[i, j, k] == 0.0
    modifies S
    ensures forall a, b, k | 0 <= a < s.qx && 0 <= b < s.qy && 0 <= k < s.nvar ::
      S[a, b, k] == if a == i && b == j then s.Source(a, b, k) else old(S[a, b, k])
  {
    var jump := if idir == 1 then Ux[i + 1, j, lay.ixmag] - Ux[i, j, lay.ixmag]
                else Ux[i, j + 1, lay.iymag] - Ux[i, j, lay.iymag];
    assert jump == s.FieldJump(i, j);
    var sx, sy := U[i, j, lay.ixmag] * jump / dx, U[i, j, lay.iymag] * jump / dx;
    assert sy == s.Source(i, j, lay.iymom);
    assert lay.ixmom != lay.iymom ==> sx == s.Source(i, j, lay.ixmom);
    S[i, j, lay.ixmom] := sx;
    S[i, j, lay.iymom] := sy;
  }

  /** Row i of the loop. */
  method SourceRow(ghost s: SourceInput, idir: int, lay: Layout, dx: real, U: array3<real>, Ux: array3<real>,
                   S: array3<real>, i: int)
    requires s.Valid() && s.idir == idir && s.lay == lay && s.dx == dx
    requires U.Length0 == s.qx && U.Length1 == s.qy && U.Length2 == s.nvar
    requires Ux.Length0 == s.qx && Ux.Length1 == s.qy && Ux.Length2 == s.nvar
    requires forall a, b, k | 0 <= a < s.qx && 0 <= b < s.qy && 0 <= k < s.nvar ::
      U[a, b, k] == s.U[a][b][k] && Ux[a, b, k] == s.Ux[a][b][k]
    requires S != U && S != Ux
    requires S.Length0 == s.qx && S.Length1 == s.qy && S.Length2 == s.nvar
    requires 1 <= i < s.qx - 1
    requires forall b, k | 0 <= b < s.qy && 0 <= k < s.nvar :: S[i, b, k] == 0.0
    modifies S
    ensures forall a, b, k | 0 <= a < s.qx && 0 <= b < s.qy && 0 <= k < s.nvar ::
      S[a, b, k] == if a == i && s.InLoop(a, b) then s.Source(a, b, k) else old(S[a, b, k])
  {
    var j := 1;
    while j < S.Length1 - 1
      invariant 1 <= j
      invariant j <= S.Length1 - 1 || j == 1
      invariant forall a, b, k | 0 <= a < s.qx && 0 <= b < s.qy && 0 <= k < s.nvar ::
        S[a, b, k] == if a == i && 1 <= b < j then s.Source(a, b, k) else old(S[a, b, k])
    {
      SourceAt(s, idir, lay, dx, U, Ux, S, i, j);
      j := j + 1;
    }
  }

  /** `sources`: a fresh array of U's shape holding Source at every entry. */
  method ComputeSources(idir: int, ng: int, lay: Layout, dx: real, U: array3<real>, Ux: array3<real>)
    returns (S: array3<real>)
    requires Ux.Length0 == U.Length0 && Ux.Length1 == U.Length1 && Ux.Length2 == U.Length2
    requires Inputs(idir, lay, dx, U, Ux).Valid()
    ensures fresh(S) && S.Length0 == U.Length0 && S.Length1 == U.Length1 && S.Length2 == U.Length2
    ensures forall a, b, k | 0 <= a < U.Length0 && 0 <= b < U.Length1 && 0 <= k < U.Length2 ::
      S[a, b, k] == Inputs(idir, lay, dx, U, Ux).Source(a, b, k)
  {
    ghost var s := Inputs(idir, lay, dx, U, Ux);
    assert forall a, b, k | 0 <= a < s.qx && 0 <= b < s.qy && 0 <= k < s.nvar ::
      U[a, b, k] == s.U[a][b][k] && Ux[a, b, k] == s.Ux[a][b][k] by {
      forall a, b | 0 <= a < s.qx && 0 <= b < s.qy
        ensures s.U[a][b] == Cell(U, a, b) && s.Ux[a][b] == Cell(Ux, a, b)
      {
      }
    }
    var qx, qy := U.Length0, U.Length1;
    S := new real[qx, qy, U.Length2]((_, _, _) => 0.0);
    var ilo := ng;
    var ihi := ng + (qx - 2 * ng);
    var i := ilo - ng + 1;
    while i < ihi + ng - 1
      invariant 1 <= i
      invariant i <= qx - 1 || i == 1
      invariant forall a, b, k | 0 <= a < qx && 0 <= b < qy && 0 <= k < s.nvar ::
        S[a, b, k] == if a < i && s.InLoop(a, b) then s.Source(a, b, k) else 0.0
    {
      SourceRow(s, idir, lay, dx, U, Ux, S, i);
      i := i + 1;
    }
  }

  /** The source is zero in every slot but the two momenta, and outside
      [1, q-1) on either axis. */
  lemma OnlyMomentumInside(s: SourceInput, i: int, j: int, k: int)
    requires s.Valid() && 0 <= i < s.qx && 0 <= j < s.qy && 0 <= k < s.nvar
    requires s.Source(i, j, k) != 0.0
    ensures k == s.lay.ixmom || k == s.lay.iymom
    ensures 1 <= i <= s.qx - 2 && 1 <= j <= s.qy - 2
  {
  }

  /** With an interface normal field uniform along the sweep (every Bx of
      a grid row equal to the first for idir == 1, every By of a grid
      column equal to the first otherwise) the source vanishes everywhere. */
  lemma UniformFieldNoSource(s: SourceInput)
    requires s.Valid()
    requires s.idir == 1 ==>
      forall i, j | 0 <= i < s.qx && 0 <= j < s.qy && 0 <= s.lay.ixmag < s.nvar :: s.Ux[i][j][s.lay.ixmag] == s.Ux[0][j][s.lay.ixmag]
    requires s.idir != 1 ==>
      forall i, j | 0 <= i < s.qx && 0 <= j < s.qy && 0 <= s.lay.iymag < s.nvar :: s.Ux[i][j][s.lay.iymag] == s.Ux[i][0][s.lay.iymag]
    ensures forall i, j, k | 0 <= i < s.qx && 0 <= j < s.qy && 0 <= k < s.nvar :: s.Source(i, j, k) == 0.0
  {
    forall i, j, k | 0 <= i < s.qx && 0 <= j < s.qy && 0 <= k < s.nvar
      ensures s.Source(i, j, k) == 0.0
    {
      if s.InLoop(i, j) {
        if s.idir == 1 {
          assert s.Ux[i + 1][j][s.lay.ixmag] == s.Ux[0][j][s.lay.ixmag] == s.Ux[i][j][s.lay.ixmag];
        } else {
          assert s.Ux[i][j + 1][s.lay.iymag] == s.Ux[i][0][s.lay.iymag] == s.Ux[i][j][s.lay.iymag];
        }
        assert s.FieldJump(i, j) == 0.0;
      }
    }
  }

  /** For a proper layout the momentum source is parallel to the cell
      field: (Sx, Sy) is (Bx, By) times one scalar, the field jump over dx. */
  lemma SourceAlongField(s: SourceInput, i: int, j: int)
    requires s.Valid() && s.lay.Distinct(s.nvar) && s.InLoop(i, j)
    ensures s.Source(i, j, s.lay.ixmom) == s.U[i][j][s.lay.ixmag] * (s.FieldJump(i, j) / s.dx)
    ensures s.Source(i, j, s.lay.iymom) == s.U[i][j][s.lay.iymag] * (s.FieldJump(i, j) / s.dx)
    ensures s.Source(i, j, s.lay.ixmom) * s.U[i][j][s.lay.iymag] == s.Source(i, j, s.lay.iymom) * s.U[i][j][s.lay.ixmag]
  {
    var fieldX, fieldY, g := s.U[i][j][s.lay.ixmag], s.U[i][j][s.lay.iymag], s.FieldJump(i, j) / s.dx;
    assert s.Source(i, j, s.lay.ixmom) == fieldX * g;
    assert s.Source(i, j, s.lay.iymom) == fieldY * g;
    assert (fieldX * g) * fieldY == (fieldY * g) * fieldX;
  }
}
