/** `emf`: the z electromotive force at cell corners, reconstructed from
    the face EMFs of the two Riemann sweeps and a cell-centred reference
    EMF (Gardiner & Stone 2005, section 4.1.1), upwinded by the sign of the
    mass flux through the neighbouring faces. */
module Emf {
  import opened Numerics
  import opened VariableLayout

  /** The value the kernel reads at index i - 1 of an axis of length n:
      NumPy reads index -1 as the last one. */
  function Prev(i: int, n: int): (p: int)
    requires 0 <= i < n
    ensures 0 <= p < n
    ensures i > 0 ==> p == i - 1
    ensures i == 0 ==> p == n - 1
  {
    if i == 0 then n - 1 else i - 1
  }

  /** The reference EMF of one cell, -(u By - v Bx). */
  function CellEmf(lay: Layout, u: seq<real>): real
    requires 0 <= lay.idens < |u| && lay.MomentaIn(|u|) && lay.FieldIn(|u|) && u[lay.idens] != 0.0
  {
    var vx := u[lay.ixmom] / u[lay.idens];
    var vy := u[lay.iymom] / u[lay.idens];
    -(vx * u[lay.iymag] - vy * u[lay.ixmag])
  }

  /** The upwinded slope at a corner: the lower neighbour's slope when the
      mass flux m through the face is positive, the upper one's when it is
      negative, their mean when it is zero; so always between the two. */
  function Upwind(m: real, lower: real, upper: real): (s: real)
    ensures m > 0.0 ==> s == lower
    ensures m < 0.0 ==> s == upper
    ensures m == 0.0 ==> s + s == lower + upper
    ensures Between(lower, s, upper)
  {
    if m > 0.0 then lower else if m < 0.0 then upper else 0.5 * (lower + upper)
  }

  /** The corner formula: the mean of the four edge EMFs plus an eighth of
      the two upwinded slope differences, weighted by dy and dx. */
  function Combine(mean: real, dx: real, dy: real, dEdyx14: real, dEdyx34: real, dEdxy14: real, dEdxy34: real): real
  {
    mean + 0.125 * dy * (dEdyx14 - dEdyx34) + 0.125 * dx * (dEdxy14 - dEdxy34)
  }

  /** The arguments of `emf` as values: ng ghost cells, the variable
      layout, the cell sizes, the cell-centred state U and the two face
      fluxes Fx and Fy (qx by qy by nvar), the reference EMF Eref (rows by
      erCols) and the switch between Eref and the EMF computed from U. */
  datatype EmfInput = EmfInput(ng: int, lay: Layout, dx: real, dy: real,
                               U: seq<seq<seq<real>>>, Fx: seq<seq<seq<real>>>, Fy: seq<seq<seq<real>>>,
                               Eref: seq<seq<real>>, erCols: nat, useRef: bool, qx: nat, qy: nat, nvar: nat)
  {
    /** The slopes are computed for [ng-3, q-ng+3) on both axes. */
    predicate InLoop1(i: int, j: int)
    {
      ng - 3 <= i < qx - ng + 3 && ng - 3 <= j < qy - ng + 3
    }

    /** The corners are computed for [ng-2, q-ng+2) on both axes. */
    predicate InLoop2(i: int, j: int)
    {
      ng - 2 <= i < qx - ng + 2 && ng - 2 <= j < qy - ng + 2
    }

    /** The slope loop does no iteration, so no division is made. */
    predicate Loop1Empty()
    {
      qx - ng + 3 <= ng - 3 || qy - ng + 3 <= ng - 3
    }

    /** What the kernel needs of its arguments: three ghost cells (the
        corner loop reads i+1 and j+1 at q-ng+1), fluxes of U's shape, the
        density and field slots inside the state vector (and the momentum
        slots when the EMF comes from U), a reference EMF that broadcasts to
        the grid when it is used, non-zero densities when it is not, and
        non-zero cell sizes when a slope is computed. */
    predicate Valid()
    {
      && ng >= 3
      && Grid3(U, qx, qy, nvar) && Grid3(Fx, qx, qy, nvar) && Grid3(Fy, qx, qy, nvar)
      && 0 <= lay.idens < nvar && lay.FieldIn(nvar)
      && (!useRef ==> lay.MomentaIn(nvar))
      && (useRef ==> Grid2(Eref, |Eref|, erCols) && (|Eref| == 1 || |Eref| == qx) && (erCols == 1 || erCols == qy))
      && (!useRef ==> forall i, j | 0 <= i < qx && 0 <= j < qy :: U[i][j][lay.idens] != 0.0)
      && (Loop1Empty() || (dx != 0.0 && dy != 0.0))
    }

    /** Er[i, j]: the reference EMF broadcast to the grid, or the EMF of
        the cell state. */
    function Er(i: int, j: int): real
      requires Valid() && 0 <= i < qx && 0 <= j < qy
    {
      if useRef then Eref[if |Eref| == 1 then 0 else i][if erCols == 1 then 0 else j]
      else CellEmf(lay, U[i][j])
    }

    /** Ex[i, j]: the EMF on the x face, minus the By flux. */
    function Ex(i: int, j: int): real
      requires Valid() && 0 <= i < qx && 0 <= j < qy
    {
      -Fx[i][j][lay.iymag]
    }

    /** Ey[i, j]: the EMF on the y face, the Bx flux. */
    function Ey(i: int, j: int): real
      requires Valid() && 0 <= i < qx && 0 <= j < qy
    {
      Fy[i][j][lay.ixmag]
    }

    /** dEz/dy at (i, j - 1/4). */
    function DEdy14(i: int, j: int): real
      requires Valid() && InLoop1(i, j)
    {
      2.0 * (Er(i, j) - Ey(i, j)) / dy
    }

    /** dEz/dx at (i - 1/4, j). */
    function DEdx14(i: int, j: int): real
      requires Valid() && InLoop1(i, j)
    {
      2.0 * (Er(i, j) - Ex(i, j)) / dx
    }

    /** dEz/dy at (i, j - 3/4). */
    function DEdy34(i: int, j: int): real
      requires Valid() && InLoop1(i, j)
    {
      2.0 * (Ey(i, j) - Er(i, Prev(j, qy))) / dy
    }

    /** dEz/dx at (i - 3/4, j). */
    function DEdx34(i: int, j: int): real
      requires Valid() && InLoop1(i, j)
    {
      2.0 * (Ex(i, j) - Er(Prev(i, qx), j)) / dx
    }

    /** The mass fluxes that choose the upwind slopes at corner (i, j). */
    function MassX(i: int, j: int): real
      requires Valid() && 0 <= i < qx && 0 <= j < qy
    {
      Fx[i][j][lay.idens]
    }

    function MassY(i: int, j: int): real
      requires Valid() && 0 <= i < qx && 0 <= j < qy
    {
      Fy[i][j][lay.idens]
    }

    /** The mean of the four edge EMFs around corner (i - 1/2, j - 1/2). */
    function EdgeMean(i: int, j: int): real
      requires Valid() && InLoop2(i, j)
    {
      0.25 * (Ex(i, j) + Ex(i, j + 1) + Ey(i, j) + Ey(i + 1, j))
    }

    /** Ec[i, j], the EMF at corner (i - 1/2, j - 1/2): the edge mean plus an
        eighth of the upwinded slope differences, weighted by dy and dx. */
    function Corner(i: int, j: int): real
      requires Valid() && InLoop2(i, j)
    {
      Combine(EdgeMean(i, j), dx, dy,
              Upwind(MassX(i, j), DEdy14(i - 1, j), DEdy14(i, j)),
              Upwind(MassX(i, j - 1), DEdy34(i - 1, j), DEdy34(i, j)),
              Upwind(MassY(i, j), DEdx14(i, j - 1), DEdx14(i, j)),
              Upwind(MassY(i - 1, j), DEdx34(i, j - 1), DEdx34(i, j)))
    }

    /** The array `emf` returns: the corner EMF in the corner loop's range,
        zero elsewhere. */
    function Result(i: int, j: int): real
      requires Valid() && 0 <= i < qx && 0 <= j < qy
    {
      if InLoop2(i, j) then Corner(i, j) else 0.0
    }

    /** Result over the whole grid. */
    function Results(): (g: seq<seq<real>>)
      requires Valid()
      ensures Grid2(g, qx, qy)
      ensures forall a, b | 0 <= a < qx && 0 <= b < qy :: g[a][b] == Result(a, b)
    {
      seq(qx, a requires 0 <= a < qx && Valid() => seq(qy, b requires 0 <= b < qy && Valid() => Result(a, b)))
    }
  }

  /** The values of the kernel's array arguments. */
  function Inputs(ng: int, lay: Layout, dx: real, dy: real, U: array3<real>, Fx: array3<real>, Fy: array3<real>,
                  Eref: array2<real>, useRef: bool): EmfInput
    reads U, Fx, Fy, Eref
  {
    EmfInput(ng, lay, dx, dy, Snapshot3(U), Snapshot3(Fx), Snapshot3(Fy), Snapshot2(Eref), Eref.Length1, useRef,
             U.Length0, U.Length1, U.Length2)
  }

  /** Er over the whole grid: -(u By - v Bx) of each cell, or Eref
      broadcast to the grid. */
  method ReferenceEmf(ghost e: EmfInput, lay: Layout, U: array3<real>, Eref: array2<real>, useRef: bool)
    returns (Er: array2<real>)
    requires e.Valid() && e.lay == lay && e.useRef == useRef
    requires U.Length0 == e.qx && U.Length1 == e.qy && U.Length2 == e.nvar
    requires e.U == Snapshot3(U) && e.Eref == Snapshot2(Eref) && e.erCols == Eref.Length1
    ensures fresh(Er) && Er.Length0 == e.qx && Er.Length1 == e.qy
    ensures forall a, b | 0 <= a < e.qx && 0 <= b < e.qy :: Er[a, b] == e.Er(a, b)
  {
    Er := new real[U.Length0, U.Length1]((_, _) => 0.0);
    if !useRef {
      forall a, b | 0 <= a < U.Length0 && 0 <= b < U.Length1 {
        Er[a, b] := CellEmf(lay, Cell(U, a, b));
      }
    } else {
      var rows, cols := Eref.Length0, Eref.Length1;
      assert rows == 1 || rows == U.Length0;
      assert cols == 1 || cols == U.Length1;
      forall a, b | 0 <= a < U.Length0 && 0 <= b < U.Length1 {
        Er[a, b] := Eref[if rows == 1 then 0 else a, if cols == 1 then 0 else b];
      }
    }
  }

  /** Ex = -Fx[:, :, iymag] and Ey = Fy[:, :, ixmag] over the whole grid. */
  method EdgeEmfs(ghost e: EmfInput, lay: Layout, Fx: array3<real>, Fy: array3<real>)
    returns (Ex: array2<real>, Ey: array2<real>)
    requires e.Valid() && e.lay == lay
    requires Fx.Length0 == e.qx && Fx.Length1 == e.qy && Fx.Length2 == e.nvar
    requires Fy.Length0 == e.qx && Fy.Length1 == e.qy && Fy.Length2 == e.nvar
    requires e.Fx == Snapshot3(Fx) && e.Fy == Snapshot3(Fy)
    ensures fresh(Ex) && fresh(Ey)
    ensures Ex.Length0 == e.qx && Ex.Length1 == e.qy && Ey.Length0 == e.qx && Ey.Length1 == e.qy
    ensures forall a, b | 0 <= a < e.qx && 0 <= b < e.qy :: Ex[a, b] == e.Ex(a, b) && Ey[a, b] == e.Ey(a, b)
  {
    Ex := new real[Fx.Length0, Fx.Length1]((_, _) => 0.0);
    Ey := new real[Fx.Length0, Fx.Length1]((_, _) => 0.0);
    forall a, b | 0 <= a < Fx.Length0 && 0 <= b < Fx.Length1 {
      Ex[a, b] := -Fx[a, b, lay.iymag];
    }
    forall a, b | 0 <= a < Fx.Length0 && 0 <= b < Fx.Length1 {
      Ey[a, b] := Fy[a, b, lay.ixmag];
    }
    assert forall a, b | 0 <= a < e.qx && 0 <= b < e.qy :: e.Fx[a][b] == Cell(Fx, a, b) && e.Fy[a][b] == Cell(Fy, a, b);
  }

  /** Row i of the slope loop. */
  method SlopeRow(ghost e: EmfInput, ng: int, dx: real, dy: real, Er: array2<real>, Ex: array2<real>, Ey: array2<real>,
                  dEdy14: array2<real>, dEdx14: array2<real>, dEdy34: array2<real>, dEdx34: array2<real>, i: int)
    requires e.Valid() && e.ng == ng && e.dx == dx && e.dy == dy
    requires Er.Length0 == e.qx && Er.Length1 == e.qy && Ex.Length0 == e.qx && Ex.Length1 == e.qy
    requires Ey.Length0 == e.qx && Ey.Length1 == e.qy
    requires forall a, b | 0 <= a < e.qx && 0 <= b < e.qy :: Er[a, b] == e.Er(a, b)
    requires forall a, b | 0 <= a < e.qx && 0 <= b < e.qy :: Ex[a, b] == e.Ex(a, b) && Ey[a, b] == e.Ey(a, b)
    requires dEdy14.Length0 == e.qx && dEdy14.Length1 == e.qy && dEdx14.Length0 == e.qx && dEdx14.Length1 == e.qy
    requires dEdy34.Length0 == e.qx && dEdy34.Length1 == e.qy && dEdx34.Length0 == e.qx && dEdx34.Length1 == e.qy
    requires dEdy14 != dEdx14 && dEdy14 != dEdy34 && dEdy14 != dEdx34 && dEdx14 != dEdy34 && dEdx14 != dEdx34 && dEdy34 != dEdx34
    requires dEdy14 != Er && dEdy14 != Ex && dEdy14 != Ey && dEdx14 != Er && dEdx14 != Ex && dEdx14 != Ey
    requires dEdy34 != Er && dEdy34 != Ex && dEdy34 != Ey && dEdx34 != Er && dEdx34 != Ex && dEdx34 != Ey
    requires e.ng - 3 <= i < e.qx - e.ng + 3
    modifies dEdy14, dEdx14, dEdy34, dEdx34
    ensures forall a, b | 0 <= a < e.qx && 0 <= b < e.qy ::
      && dEdy14[a, b] == (if a == i && e.InLoop1(a, b) then e.DEdy14(a, b) else old(dEdy14[a, b]))
      && dEdx14[a, b] == (if a == i && e.InLoop1(a, b) then e.DEdx14(a, b) else old(dEdx14[a, b]))
      && dEdy34[a, b] == (if a == i && e.InLoop1(a, b) then e.DEdy34(a, b) else old(dEdy34[a, b]))
      && dEdx34[a, b] == (if a == i && e.InLoop1(a, b) then e.DEdx34(a, b) else old(dEdx34[a, b]))
  {
    var qy := Er.Length1;
    var j := ng - 3;
    while j < qy - ng + 3
      invariant e.ng - 3 <= j
      invariant j <= qy - e.ng + 3 || j == e.ng - 3
      invariant forall a, b | 0 <= a < e.qx && 0 <= b < e.qy ::
        && dEdy14[a, b] == (if a == i && e.ng - 3 <= b < j then e.DEdy14(a, b) else old(dEdy14[a, b]))
        && dEdx14[a, b] == (if a == i && e.ng - 3 <= b < j then e.DEdx14(a, b) else old(dEdx14[a, b]))
        && dEdy34[a, b] == (if a == i && e.ng - 3 <= b < j then e.DEdy34(a, b) else old(dEdy34[a, b]))
        && dEdx34[a, b] == (if a == i && e.ng - 3 <= b < j then e.DEdx34(a, b) else old(dEdx34[a, b]))
    {
      dEdy14[i, j] := 2.0 * (Er[i, j] - Ey[i, j]) / dy;
      dEdx14[i, j] := 2.0 * (Er[i, j] - Ex[i, j]) / dx;
      dEdy34[i, j] := 2.0 * (Ey[i, j] - Er[i, Prev(j, qy)]) / dy;
      dEdx34[i, j] := 2.0 * (Ex[i, j] - Er[Prev(i, Er.Length0), j]) / dx;
      j := j + 1;
    }
  }

  /** The slope loop: the four quarter-cell slopes over [ng-3, q-ng+3) on
      both axes, zero elsewhere. */
  method QuarterSlopes(ghost e: EmfInput, ng: int, dx: real, dy: real, Er: array2<real>, Ex: array2<real>, Ey: array2<real>)
    returns (dEdy14: array2<real>, dEdx14: array2<real>, dEdy34: array2<real>, dEdx34: array2<real>)
    requires e.Valid() && e.ng == ng && e.dx == dx && e.dy == dy
    requires Er.Length0 == e.qx && Er.Length1 == e.qy && Ex.Length0 == e.qx && Ex.Length1 == e.qy
    requires Ey.Length0 == e.qx && Ey.Length1 == e.qy
    requires forall a, b | 0 <= a < e.qx && 0 <= b < e.qy :: Er[a, b] == e.Er(a, b)
    requires forall a, b | 0 <= a < e.qx && 0 <= b < e.qy :: Ex[a, b] == e.Ex(a, b) && Ey[a, b] == e.Ey(a, b)
    ensures fresh(dEdy14) && fresh(dEdx14) && fresh(dEdy34) && fresh(dEdx34)
    ensures dEdy14.Length0 == e.qx && dEdy14.Length1 == e.qy && dEdx14.Length0 == e.qx && dEdx14.Length1 == e.qy
    ensures dEdy34.Length0 == e.qx && dEdy34.Length1 == e.qy && dEdx34.Length0 == e.qx && dEdx34.Length1 == e.qy
    ensures forall a, b | 0 <= a < e.qx && 0 <= b < e.qy ::
      && dEdy14[a, b] == (if e.InLoop1(a, b) then e.DEdy14(a, b) else 0.0)
      && dEdx14[a, b] == (if e.InLoop1(a, b) then e.DEdx14(a, b) else 0.0)
      && dEdy34[a, b] == (if e.InLoop1(a, b) then e.DEdy34(a, b) else 0.0)
      && dEdx34[a, b] == (if e.InLoop1(a, b) then e.DEdx34(a, b) else 0.0)
  {
    var qx, qy := Er.Length0, Er.Length1;
    dEdy14 := new real[qx, qy]((_, _) => 0.0);
    dEdx14 := new real[qx, qy]((_, _) => 0.0);
    dEdy34 := new real[qx, qy]((_, _) => 0.0);
    dEdx34 := new real[qx, qy]((_, _) => 0.0);
    var i := ng - 3;
    while i < qx - ng + 3
      invariant e.ng - 3 <= i
      invariant i <= qx - e.ng + 3 || i == e.ng - 3
      invariant forall a, b | 0 <= a < e.qx && 0 <= b < e.qy ::
        && dEdy14[a, b] == (if a < i && e.InLoop1(a, b) then e.DEdy14(a, b) else 0.0)
        && dEdx14[a, b] == (if a < i && e.InLoop1(a, b) then e.DEdx14(a, b) else 0.0)
        && dEdy34[a, b] == (if a < i && e.InLoop1(a, b) then e.DEdy34(a, b) else 0.0)
        && dEdx34[a, b] == (if a < i && e.InLoop1(a, b) then e.DEdx34(a, b) else 0.0)
    {
      SlopeRow(e, ng, dx, dy, Er, Ex, Ey, dEdy14, dEdx14, dEdy34, dEdx34, i);
      i := i + 1;
    }
  }

  /** The arrays the corner loop reads hold what the kernel computed
      before it: the mass fluxes, the edge EMFs and the four slopes. */
  ghost predicate CornerInputs(e: EmfInput, lay: Layout, Fx: array3<real>, Fy: array3<real>, Ex: array2<real>, Ey: array2<real>,
                         dEdy14: array2<real>, dEdx14: array2<real>, dEdy34: array2<real>, dEdx34: array2<real>)
    reads Fx, Fy, Ex, Ey, dEdy14, dEdx14, dEdy34, dEdx34
  {
    && e.Valid() && e.lay == lay
    && Fx.Length0 == e.qx && Fx.Length1 == e.qy && Fx.Length2 == e.nvar
    && Fy.Length0 == e.qx && Fy.Length1 == e.qy && Fy.Length2 == e.nvar
    && (forall a, b | 0 <= a < e.qx && 0 <= b < e.qy ::
          Fx[a, b, lay.idens] == e.MassX(a, b) && Fy[a, b, lay.idens] == e.MassY(a, b))
    && Ex.Length0 == e.qx && Ex.Length1 == e.qy && Ey.Length0 == e.qx && Ey.Length1 == e.qy
    && (forall a, b | 0 <= a < e.qx && 0 <= b < e.qy :: Ex[a, b] == e.Ex(a, b) && Ey[a, b] == e.Ey(a, b))
    && dEdy14.Length0 == e.qx && dEdy14.Length1 == e.qy && dEdx14.Length0 == e.qx && dEdx14.Length1 == e.qy
    && dEdy34.Length0 == e.qx && dEdy34.Length1 == e.qy && dEdx34.Length0 == e.qx && dEdx34.Length1 == e.qy
    && forall a, b | e.InLoop1(a, b) ::
         && dEdy14[a, b] == e.DEdy14(a, b) && dEdx14[a, b] == e.DEdx14(a, b)
         && dEdy34[a, b] == e.DEdy34(a, b) && dEdx34[a, b] == e.DEdx34(a, b)
  }

  /** One corner of the corner loop, from the arrays the kernel holds. */
  method CornerAt(ghost e: EmfInput, lay: Layout, dx: real, dy: real, Fx: array3<real>, Fy: array3<real>,
                  Ex: array2<real>, Ey: array2<real>,
                  dEdy14: array2<real>, dEdx14: array2<real>, dEdy34: array2<real>, dEdx34: array2<real>,
                  i: int, j: int) returns (c: real)
    requires e.Valid() && e.lay == lay && e.dx == dx && e.dy == dy
    requires Fx.Length0 == e.qx && Fx.Length1 == e.qy && Fx.Length2 == e.nvar
    requires Fy.Length0 == e.qx && Fy.Length1 == e.qy && Fy.Length2 == e.nvar
    requires forall a, b | 0 <= a < e.qx && 0 <= b < e.qy ::
      Fx[a, b, lay.idens] == e.MassX(a, b) && Fy[a, b, lay.idens] == e.MassY(a, b)
    requires Ex.Length0 == e.qx && Ex.Length1 == e.qy && Ey.Length0 == e.qx && Ey.Length1 == e.qy
    requires forall a, b | 0 <= a < e.qx && 0 <= b < e.qy :: Ex[a, b] == e.Ex(a, b) && Ey[a, b] == e.Ey(a, b)
    requires dEdy14.Length0 == e.qx && dEdy14.Length1 == e.qy && dEdx14.Length0 == e.qx && dEdx14.Length1 == e.qy
    requires dEdy34.Length0 == e.qx && dEdy34.Length1 == e.qy && dEdx34.Length0 == e.qx && dEdx34.Length1 == e.qy
    requires forall a, b | e.InLoop1(a, b) ::
      && dEdy14[a, b] == e.DEdy14(a, b) && dEdx14[a, b] == e.DEdx14(a, b)
      && dEdy34[a, b] == e.DEdy34(a, b) && dEdx34[a, b] == e.DEdx34(a, b)
    requires e.InLoop2(i, j)
    ensures c == e.Corner(i, j)
  {
    assert 1 <= i && i + 1 < e.qx && 1 <= j && j + 1 < e.qy;
    var dEdyx14 := Upwind(Fx[i, j, lay.idens], dEdy14[i - 1, j], dEdy14[i, j]);
    var dEdyx34 := Upwind(Fx[i, j - 1, lay.idens], dEdy34[i - 1, j], dEdy34[i, j]);
    var dEdxy14 := Upwind(Fy[i, j, lay.idens], dEdx14[i, j - 1], dEdx14[i, j]);
    var dEdxy34 := Upwind(Fy[i - 1, j, lay.idens], dEdx34[i, j - 1], dEdx34[i, j]);
    assert dEdyx14 == Upwind(e.MassX(i, j), e.DEdy14(i - 1, j), e.DEdy14(i, j));
    assert dEdyx34 == Upwind(e.MassX(i, j - 1), e.DEdy34(i - 1, j), e.DEdy34(i, j));
    assert dEdxy14 == Upwind(e.MassY(i, j), e.DEdx14(i, j - 1), e.DEdx14(i, j));
    assert dEdxy34 == Upwind(e.MassY(i - 1, j), e.DEdx34(i, j - 1), e.DEdx34(i, j));
    assert 0.25 * (Ex[i, j] + Ex[i, j + 1] + Ey[i, j] + Ey[i + 1, j]) == e.EdgeMean(i, j);
    c := Combine(0.25 * (Ex[i, j] + Ex[i, j + 1] + Ey[i, j] + Ey[i + 1, j]), dx, dy, dEdyx14, dEdyx34, dEdxy14, dEdxy34);
  }

  /** Row i of the corner loop. */
  method CornerRow(ghost e: EmfInput, ng: int, lay: Layout, dx: real, dy: real, Fx: array3<real>, Fy: array3<real>,
                   Ex: array2<real>, Ey: array2<real>,
                   dEdy14: array2<real>, dEdx14: array2<real>, dEdy34: array2<real>, dEdx34: array2<real>,
                   Ec: array2<real>, i: int, ghost C: seq<seq<real>>)
    requires e.Valid() && e.ng == ng && e.lay == lay && e.dx == dx && e.dy == dy
    requires CornerInputs(e, lay, Fx, Fy, Ex, Ey, dEdy14, dEdx14, dEdy34, dEdx34)
    requires Ec.Length0 == e.qx && Ec.Length1 == e.qy
    requires Ec != Ex && Ec != Ey && Ec != dEdy14 && Ec != dEdx14 && Ec != dEdy34 && Ec != dEdx34
    requires ng - 2 <= i < e.qx - ng + 2
    requires Grid2(C, e.qx, e.qy)
    requires forall b {:trigger e.Corner(i, b)} | ng - 2 <= b < e.qy - ng + 2 :: e.Corner(i, b) == C[i][b]
    modifies Ec
    ensures forall a, b | 0 <= a < e.qx && 0 <= b < e.qy ::
      Ec[a, b] == if a == i && e.InLoop2(a, b) then C[a][b] else old(Ec[a, b])
  {
    var j := ng - 2;
    while j < Ec.Length1 - ng + 2
      invariant ng - 2 <= j
      invariant j <= Ec.Length1 - ng + 2 || j == ng - 2
      invariant forall a, b | 0 <= a < e.qx && 0 <= b < e.qy ::
        Ec[a, b] == if a == i && ng - 2 <= b < j then C[a][b] else old(Ec[a, b])
    {
      var c := CornerAt(e, lay, dx, dy, Fx, Fy, Ex, Ey, dEdy14, dEdx14, dEdy34, dEdx34, i, j);
      assert c == C[i][j];
      Ec[i, j] := c;
      j := j + 1;
    }
  }

  /** The corner loop: a fresh array holding the corner EMF over
      [ng-2, q-ng+2) on both axes and zero elsewhere. */
  method Corners(ghost e: EmfInput, ng: int, lay: Layout, dx: real, dy: real, Fx: array3<real>, Fy: array3<real>,
                 Ex: array2<real>, Ey: array2<real>,
                 dEdy14: array2<real>, dEdx14: array2<real>, dEdy34: array2<real>, dEdx34: array2<real>)
    returns (Ec: array2<real>)
    requires e.Valid() && e.ng == ng && e.lay == lay && e.dx == dx && e.dy == dy
    requires CornerInputs(e, lay, Fx, Fy, Ex, Ey, dEdy14, dEdx14, dEdy34, dEdx34)
    ensures fresh(Ec) && Ec.Length0 == e.qx && Ec.Length1 == e.qy
    ensures forall a, b | 0 <= a < e.qx && 0 <= b < e.qy :: Ec[a, b] == e.Result(a, b)
  {
    ghost var C := e.Results();
    Ec := new real[Ex.Length0, Ex.Length1]((_, _) => 0.0);
    var i := ng - 2;
    while i < Ex.Length0 - ng + 2
      invariant ng - 2 <= i
      invariant i <= Ex.Length0 - ng + 2 || i == ng - 2
      invariant forall a, b | 0 <= a < e.qx && 0 <= b < e.qy ::
        Ec[a, b] == if a < i && e.InLoop2(a, b) then C[a][b] else 0.0
    {
      CornerRow(e, ng, lay, dx, dy, Fx, Fy, Ex, Ey, dEdy14, dEdx14, dEdy34, dEdx34, Ec, i, C);
      i := i + 1;
    }
  }

  /** `emf`: a fresh qx by qy array holding, at each corner, the value
      Result gives for the arguments. */
  method ComputeEmf(ng: int, lay: Layout, dx: real, dy: real, U: array3<real>, Fx: array3<real>, Fy: array3<real>,
                    Eref: array2<real>, useRef: bool) returns (Ec: array2<real>)
    requires Fx.Length0 == U.Length0 && Fx.Length1 == U.Length1 && Fx.Length2 == U.Length2
    requires Fy.Length0 == U.Length0 && Fy.Length1 == U.Length1 && Fy.Length2 == U.Length2
    requires Inputs(ng, lay, dx, dy, U, Fx, Fy, Eref, useRef).Valid()
    ensures fresh(Ec) && Ec.Length0 == U.Length0 && Ec.Length1 == U.Length1
    ensures forall a, b | 0 <= a < U.Length0 && 0 <= b < U.Length1 ::
      Ec[a, b] == Inputs(ng, lay, dx, dy, U, Fx, Fy, Eref, useRef).Result(a, b)
  {
    ghost var e := Inputs(ng, lay, dx, dy, U, Fx, Fy, Eref, useRef);
    var Er := ReferenceEmf(e, lay, U, Eref, useRef);
    var Ex, Ey := EdgeEmfs(e, lay, Fx, Fy);
    var dEdy14, dEdx14, dEdy34, dEdx34 := QuarterSlopes(e, ng, dx, dy, Er, Ex, Ey);
    assert forall a, b | 0 <= a < e.qx && 0 <= b < e.qy :: e.Fx[a][b] == Cell(Fx, a, b) && e.Fy[a][b] == Cell(Fy, a, b);
    Ec := Corners(e, ng, lay, dx, dy, Fx, Fy, Ex, Ey, dEdy14, dEdx14, dEdy34, dEdx34);
  }

  /** Er, Ex and Ey all equal c over the whole grid. */
  predicate Uniform(e: EmfInput, c: real)
    requires e.Valid()
  {
    forall i, j | 0 <= i < e.qx && 0 <= j < e.qy :: e.Er(i, j) == c && e.Ex(i, j) == c && e.Ey(i, j) == c
  }

  /** With uniform edge and reference EMFs, the four quarter-cell slopes of
      a cell of the slope loop vanish. */
  lemma UniformSlopesZero(e: EmfInput, c: real, i: int, j: int)
    requires e.Valid() && Uniform(e, c) && e.InLoop1(i, j)
    ensures e.DEdy14(i, j) == 0.0 && e.DEdx14(i, j) == 0.0 && e.DEdy34(i, j) == 0.0 && e.DEdx34(i, j) == 0.0
  {
    assert e.Er(i, j) == c && e.Ex(i, j) == c && e.Ey(i, j) == c;
    assert e.Er(i, Prev(j, e.qy)) == c && e.Er(Prev(i, e.qx), j) == c;
  }

  /** With uniform edge and reference EMFs, a corner of the corner loop is
      that value, whichever way the mass flows. */
  lemma UniformCorner(e: EmfInput, c: real, i: int, j: int)
    requires e.Valid() && Uniform(e, c) && e.InLoop2(i, j)
    ensures e.Corner(i, j) == c
  {
    UniformSlopesZero(e, c, i - 1, j);
    UniformSlopesZero(e, c, i, j - 1);
    UniformSlopesZero(e, c, i, j);
    assert e.EdgeMean(i, j) == c by {
      assert e.Ex(i, j) == c && e.Ey(i, j) == c && e.Ex(i, j + 1) == c && e.Ey(i + 1, j) == c;
    }
    assert Upwind(e.MassX(i, j), e.DEdy14(i - 1, j), e.DEdy14(i, j)) == 0.0;
    assert Upwind(e.MassX(i, j - 1), e.DEdy34(i - 1, j), e.DEdy34(i, j)) == 0.0;
    assert Upwind(e.MassY(i, j), e.DEdx14(i, j - 1), e.DEdx14(i, j)) == 0.0;
    assert Upwind(e.MassY(i - 1, j), e.DEdx34(i, j - 1), e.DEdx34(i, j)) == 0.0;
  }

  /** Where the reference EMF and the edge EMFs all equal one value c,
      every quarter-cell slope vanishes, whichever way the mass flows, and
      every corner EMF is c. */
  lemma UniformEmf(e: EmfInput, c: real)
    requires e.Valid()
    requires forall i, j | 0 <= i < e.qx && 0 <= j < e.qy :: e.Er(i, j) == c && e.Ex(i, j) == c && e.Ey(i, j) == c
    ensures forall i, j | e.InLoop1(i, j) ::
      e.DEdy14(i, j) == 0.0 && e.DEdx14(i, j) == 0.0 && e.DEdy34(i, j) == 0.0 && e.DEdx34(i, j) == 0.0
    ensures forall i, j | e.InLoop2(i, j) :: e.Corner(i, j) == c
  {
    forall i, j | e.InLoop1(i, j)
      ensures e.DEdy14(i, j) == 0.0 && e.DEdx14(i, j) == 0.0 && e.DEdy34(i, j) == 0.0 && e.DEdx34(i, j) == 0.0
    {
      UniformSlopesZero(e, c, i, j);
    }
    forall i, j | e.InLoop2(i, j)
      ensures e.Corner(i, j) == c
    {
      UniformCorner(e, c, i, j);
    }
  }
}
