/** `consFlux`: the physical flux of one conservative MHD state vector
    through a face normal to x (idir == 1) or y (any other idir). */
module Flux {
  import opened VariableLayout

  /** Gas pressure of a conservative state: (gamma - 1) times the total
      energy less the kinetic and magnetic energies. */
  function Pressure(gamma: real, lay: Layout, u: seq<real>): real
    requires lay.InBounds(|u|) && u[lay.idens] != 0.0
  {
    var vx := u[lay.ixmom] / u[lay.idens];
    var vy := u[lay.iymom] / u[lay.idens];
    var b2 := u[lay.ixmag] * u[lay.ixmag] + u[lay.iymag] * u[lay.iymag];
    (u[lay.iener] - 0.5 * u[lay.idens] * (vx * vx + vy * vy) - 0.5 * b2) * (gamma - 1.0)
  }

  /** The species block of the flux, irhoX .. irhoX+nspec-1 (cut at the end
      of the vector, as a NumPy slice is), is each partial density times the
      normal velocity vn; every other entry is taken from f. */
  function WithSpecies(f: seq<real>, u: seq<real>, lay: Layout, vn: real): (g: seq<real>)
    requires |f| == |u|
    ensures |g| == |u|
    ensures forall k | 0 <= k < |u| :: g[k] == if lay.irhoX <= k < lay.irhoX + lay.nspec then u[k] * vn else f[k]
  {
    seq(|u|, k requires 0 <= k < |u| => if lay.irhoX <= k < lay.irhoX + lay.nspec then u[k] * vn else f[k])
  }

  /** A zero vector with the six named slots written in the order idens,
      ixmom, iymom, iener, ixmag, iymag; where slots coincide the later write
      wins, as it does for the NumPy assignments. */
  function WriteSlots(n: nat, lay: Layout, dens: real, xmom: real, ymom: real, ener: real, xmag: real, ymag: real): (f: seq<real>)
    requires lay.InBounds(n)
    ensures |f| == n
    ensures forall k | 0 <= k < n ::
              f[k] == if k == lay.iymag then ymag else if k == lay.ixmag then xmag else if k == lay.iener then ener
                      else if k == lay.iymom then ymom else if k == lay.ixmom then xmom else if k == lay.idens then dens
                      else 0.0
  {
    seq(n, _ => 0.0)[lay.idens := dens][lay.ixmom := xmom][lay.iymom := ymom]
                    [lay.iener := ener][lay.ixmag := xmag][lay.iymag := ymag]
  }

  /** The flux vector. The slots are written in the source's order, so when
      two slots of a layout coincide the later write wins, as in NumPy. */
  function ConsFlux(idir: int, gamma: real, lay: Layout, u: seq<real>): (f: seq<real>)
    requires lay.InBounds(|u|) && u[lay.idens] != 0.0
    ensures |f| == |u|
  {
    var rho := u[lay.idens];
    var vx := u[lay.ixmom] / rho;
    var vy := u[lay.iymom] / rho;
    var Bx := u[lay.ixmag];
    var By := u[lay.iymag];
    var B2 := Bx * Bx + By * By;
    var p := Pressure(gamma, lay, u);
    if idir == 1 then
      var f := WriteSlots(|u|, lay,
                          rho * vx,
                          u[lay.ixmom] * vx + p + 0.5 * B2 - Bx * Bx,
                          u[lay.iymom] * vx - Bx * By,
                          (u[lay.iener] + p + 0.5 * B2) * vx - Bx * (Bx * vx + By * vy),
                          0.0,
                          By * vx - Bx * vy);
      if lay.nspec > 0 then WithSpecies(f, u, lay, vx) else f
    else
      var f := WriteSlots(|u|, lay,
                          rho * vy,
                          u[lay.ixmom] * vy - Bx * By,
                          u[lay.iymom] * vy + p + 0.5 * B2 - By * By,
                          (u[lay.iener] + p + 0.5 * B2) * vy - By * (Bx * vx + By * vy),
                          Bx * vy - By * vx,
                          0.0);
      if lay.nspec > 0 then WithSpecies(f, u, lay, vy) else f
  }

  /** Normal velocity of a state: normal momentum over density. */
  function NormalVelocity(idir: int, lay: Layout, u: seq<real>): real
    requires lay.InBounds(|u|) && u[lay.idens] != 0.0
  {
    u[lay.NormalMomentum(idir)] / u[lay.idens]
  }

  /** The field along the face normal is not transported through the face. */
  lemma NormalFieldFluxZero(idir: int, gamma: real, lay: Layout, u: seq<real>)
    requires lay.Distinct(|u|) && u[lay.idens] != 0.0
    ensures ConsFlux(idir, gamma, lay, u)[lay.NormalField(idir)] == 0.0
  {
  }

  /** The mass flux is the momentum along the face normal. */
  lemma MassFluxIsNormalMomentum(idir: int, gamma: real, lay: Layout, u: seq<real>)
    requires lay.Distinct(|u|) && u[lay.idens] != 0.0
    ensures ConsFlux(idir, gamma, lay, u)[lay.idens] == u[lay.NormalMomentum(idir)]
  {
    var rho, m := u[lay.idens], u[lay.NormalMomentum(idir)];
    assert rho * (m / rho) == m;
  }

  /** Each species is carried with the normal velocity. */
  lemma SpeciesFlux(idir: int, gamma: real, lay: Layout, u: seq<real>)
    requires lay.Distinct(|u|) && u[lay.idens] != 0.0
    ensures forall k | lay.irhoX <= k < lay.irhoX + lay.nspec ::
      ConsFlux(idir, gamma, lay, u)[k] == u[k] * NormalVelocity(idir, lay, u)
  {
  }

  /** Every slot outside the six named ones and the species block stays
      zero. */
  lemma OtherSlotsZero(idir: int, gamma: real, lay: Layout, u: seq<real>, k: int)
    requires lay.InBounds(|u|) && u[lay.idens] != 0.0
    requires 0 <= k < |u|
    requires k != lay.idens && k != lay.ixmom && k != lay.iymom && k != lay.iener && k != lay.ixmag && k != lay.iymag
    requires !(lay.irhoX <= k < lay.irhoX + lay.nspec)
    ensures ConsFlux(idir, gamma, lay, u)[k] == 0.0
  {
  }

  /** A gas at rest with unit density and pressure and no field pushes only
      momentum across an x face, and carries no species. */
  lemma StaticStateFlux(gamma: real, nspec: nat, species: seq<real>)
    requires gamma != 1.0
    requires |species| == nspec
    ensures ConsFlux(1, gamma, StandardLayout(nspec), [1.0, 0.0, 0.0, 1.0 / (gamma - 1.0), 0.0, 0.0] + species)
         == [0.0, 1.0, 0.0, 0.0, 0.0, 0.0] + seq(nspec, _ => 0.0)
  {
    var u := [1.0, 0.0, 0.0, 1.0 / (gamma - 1.0), 0.0, 0.0] + species;
    var lay := StandardLayout(nspec);
    assert Pressure(gamma, lay, u) == 1.0;
    var f := ConsFlux(1, gamma, lay, u);
    var expected := [0.0, 1.0, 0.0, 0.0, 0.0, 0.0] + seq(nspec, _ => 0.0);
    forall k | 0 <= k < |u|
      ensures f[k] == expected[k]
    {
    }
  }
}
