/** `riemann_adiabatic` and `calc_evals`: the HLLE flux through every face
    of the grid along one sweep, from the interface states on either side.
    The square roots and pi are taken from an Oracle; everything else is
    the kernel's own arithmetic over the reals. */
module Riemann {
  import opened Numerics
  import opened VariableLayout
  import opened Flux

  /** The floors `smallc` and `smallp` (1e-10). */
  const SmallC: real := 0.0000000001
  const SmallP: real := 0.0000000001

  /** A pair of field components. */
  datatype Field = Field(x: real, y: real)

  /** What the kernel derives from one side of a face: density, normal and
      transverse velocity, the two field components, the floored pressure,
      the floored sound speed and the fast magnetosonic speed. */
  datatype SideState = SideState(rho: real, un: real, ut: real, Bx: real, By: real, p: real, c: real, cf: real)

  /** Wave speed bounds: bp (fastest to the right) and bm (to the left). */
  datatype Bounds = Bounds(plus: real, minus: real)

  /** sqrt(4 pi), the factor between the field and its Alfven-unit value. */
  function FieldScale(o: Oracle): real
  {
    o.sqrt(4.0 * o.pi)
  }

  /** The field on a face: the component along the sweep comes from the
      face-centred array, the other one from the state itself. */
  function FaceField(idir: int, lay: Layout, u: seq<real>, bxFace: real, byFace: real): (b: Field)
    requires lay.InBounds(|u|)
    ensures idir == 1 ==> b == Field(bxFace, u[lay.iymag])
    ensures idir != 1 ==> b == Field(u[lay.ixmag], byFace)
  {
    if idir == 1 then Field(bxFace, u[lay.iymag]) else Field(u[lay.ixmag], byFace)
  }

  /** The pressure of a side before the floor is applied. */
  function RawPressure(idir: int, gamma: real, lay: Layout, u: seq<real>, bxFace: real, byFace: real): real
    requires lay.InBounds(|u|) && u[lay.idens] != 0.0
  {
    var rho := u[lay.idens];
    var un := u[lay.NormalMomentum(idir)] / rho;
    var ut := u[lay.TransverseMomentum(idir)] / rho;
    var b := FaceField(idir, lay, u, bxFace, byFace);
    var rhoe := u[lay.iener] - 0.5 * rho * (un * un + ut * ut) - 0.5 * (b.x * b.x + b.y * b.y);
    rhoe * (gamma - 1.0)
  }

  /** The pressure floored at smallp. */
  function FlooredPressure(raw: real): (p: real)
    ensures p >= SmallP
    ensures raw >= SmallP ==> p == raw
    ensures raw < SmallP ==> p == SmallP
  {
    Max(raw, SmallP)
  }

  /** The sound speed floored at smallc. */
  function SoundSpeed(gamma: real, p: real, rho: real, o: Oracle): (c: real)
    requires rho != 0.0
    ensures c >= SmallC
    ensures o.sqrt(gamma * p / rho) >= SmallC ==> c == o.sqrt(gamma * p / rho)
  {
    Max(SmallC, o.sqrt(gamma * p / rho))
  }

  /** The fast magnetosonic speed of a side from its sound speed c and its
      Alfven-unit field (bn along the sweep, bt across it). */
  function FastSpeed(c: real, bn: real, bt: real, rho: real, o: Oracle): real
    requires rho != 0.0
  {
    var cA2 := (bn * bn + bt * bt) / rho;
    var cAx2 := bn * bn / rho;
    o.sqrt(0.5 * (c * c + cA2 + o.sqrt((c * c + cA2) * (c * c + cA2) - 4.0 * c * c * cAx2)))
  }

  /** Everything the kernel derives from one side of the face. */
  function Side(idir: int, gamma: real, lay: Layout, u: seq<real>, bxFace: real, byFace: real, o: Oracle): (s: SideState)
    requires lay.InBounds(|u|) && u[lay.idens] != 0.0 && FieldScale(o) != 0.0
    ensures s.rho == u[lay.idens] && s.rho != 0.0
    ensures s.un == NormalVelocity(idir, lay, u)
    ensures s.p >= SmallP && s.c >= SmallC
  {
    var rho := u[lay.idens];
    var b := FaceField(idir, lay, u, bxFace, byFace);
    var p := FlooredPressure(RawPressure(idir, gamma, lay, u, bxFace, byFace));
    var c := SoundSpeed(gamma, p, rho, o);
    var bxA := b.x / FieldScale(o);
    var byA := b.y / FieldScale(o);
    var cf := if idir == 1 then FastSpeed(c, bxA, byA, rho, o) else FastSpeed(c, byA, bxA, rho, o);
    SideState(rho, u[lay.NormalMomentum(idir)] / rho, u[lay.TransverseMomentum(idir)] / rho, b.x, b.y, p, c, cf)
  }

  /** The specific enthalpy of a side as the Roe average weights it. */
  function Enthalpy(gamma: real, lay: Layout, u: seq<real>, s: SideState): real
    requires lay.InBounds(|u|) && s.rho != 0.0
  {
    (gamma * u[lay.iener]
     - (gamma - 1.0) * (u[lay.ixmom] * u[lay.ixmom] + u[lay.iymom] * u[lay.iymom]) / s.rho
     + 0.5 * gamma * (s.Bx * s.Bx + s.By * s.By)) / s.rho
  }

  /** The conditions under which the Roe average can be formed: both
      densities and their square roots nonzero, the weights' sum nonzero. */
  predicate RoeDefined(lay: Layout, ul: seq<real>, ur: seq<real>, o: Oracle)
  {
    && |ul| == |ur| && lay.InBounds(|ul|)
    && ul[lay.idens] != 0.0 && ur[lay.idens] != 0.0
    && o.sqrt(ul[lay.idens]) != 0.0 && o.sqrt(ur[lay.idens]) != 0.0
    && o.sqrt(ul[lay.idens]) + o.sqrt(ur[lay.idens]) != 0.0
  }

  /** Slot k of q_av, the sqrt(rho)-weighted Roe average in primitive
      form. The slots are written in the source's order (density, momenta,
      enthalpy, the field slice ixmag..iymag, the species from irhoX on), so
      the later write wins where they overlap. */
  function RoeSlot(gamma: real, lay: Layout, ul: seq<real>, ur: seq<real>, l: SideState, r: SideState, o: Oracle, k: int): real
    requires RoeDefined(lay, ul, ur, o)
    requires l.rho == ul[lay.idens] && r.rho == ur[lay.idens]
    requires 0 <= k < |ul|
  {
    var sl, sr := o.sqrt(l.rho), o.sqrt(r.rho);
    if lay.irhoX <= k then (ul[k] / sl + ur[k] / sr) / (sl + sr)
    else if lay.ixmag <= k <= lay.iymag then (ul[k] * sl + ur[k] * sr) / (sl + sr)
    else if k == lay.iener then (Enthalpy(gamma, lay, ul, l) * sl + Enthalpy(gamma, lay, ur, r) * sr) / (sl + sr)
    else if k == lay.iymom then (ul[k] / sl + ur[k] / sr) / (sl + sr)
    else if k == lay.ixmom then (ul[k] / sl + ur[k] / sr) / (sl + sr)
    else if k == lay.idens then o.sqrt(l.rho * r.rho)
    else 0.0
  }

  /** q_av: the Roe average in primitive form, slot by slot. */
  function RoePrimitive(gamma: real, lay: Layout, ul: seq<real>, ur: seq<real>, l: SideState, r: SideState, o: Oracle): (q: seq<real>)
    requires RoeDefined(lay, ul, ur, o)
    requires l.rho == ul[lay.idens] && r.rho == ur[lay.idens]
    ensures |q| == |ul|
    ensures forall k | 0 <= k < |ul| :: q[k] == RoeSlot(gamma, lay, ul, ur, l, r, o, k)
  {
    seq(|ul|, k requires 0 <= k < |ul| => RoeSlot(gamma, lay, ul, ur, l, r, o, k))
  }

  /** U_av: the Roe average back in conservative form, written in the same
      order as q_av. */
  function RoeConserved(gamma: real, lay: Layout, q: seq<real>): (w: seq<real>)
    requires lay.InBounds(|q|) && gamma != 0.0
    ensures |w| == |q|
  {
    seq(|q|, k requires 0 <= k < |q| =>
      if lay.irhoX <= k then q[lay.idens] * q[k]
      else if lay.ixmag <= k <= lay.iymag then q[k]
      else if k == lay.iener then
        (q[lay.iener] * q[lay.idens]
         + (gamma - 1.0) * q[lay.idens] * (q[lay.ixmom] * q[lay.ixmom] + q[lay.iymom] * q[lay.iymom])
         - 0.5 * gamma * (q[lay.ixmag] * q[lay.ixmag] + q[lay.iymag] * q[lay.iymag])) / gamma
      else if k == lay.iymom then q[lay.idens] * q[lay.iymom]
      else if k == lay.ixmom then q[lay.idens] * q[lay.ixmom]
      else if k == lay.idens then q[lay.idens]
      else 0.0)
  }

  /** `calc_evals`: the seven characteristic speeds of the averaged state
      (Stone, Gardiner et al. 2008, section B.3), in the order fast, Alfven,
      slow to the left, the entropy wave, then slow, Alfven, fast to the
      right. They are placed symmetrically about the normal velocity. */
  function CalcEvals(idir: int, w: seq<real>, gamma: real, lay: Layout, x: real, y: real, o: Oracle): (evals: seq<real>)
    requires lay.InBounds(|w|) && w[lay.idens] != 0.0 && FieldScale(o) != 0.0
    ensures |evals| == 7
    ensures evals[3] == (if idir == 1 then w[lay.ixmom] else w[lay.iymom]) / w[lay.idens]
    ensures forall k | 0 <= k < 3 :: evals[k] + evals[6 - k] == 2.0 * evals[3]
  {
    var dens := w[lay.idens];
    var u := w[lay.ixmom] / dens;
    var v := w[lay.iymom] / dens;
    var e := w[lay.iener];
    var bxA := w[lay.ixmag] / FieldScale(o);
    var byA := w[lay.iymag] / FieldScale(o);
    var b2 := bxA * bxA + byA * byA;
    var rhoe := e - 0.5 * dens * (u * u + v * v) - 0.5 * b2;
    var pres := rhoe * (gamma - 1.0);
    var h := (e + pres + 0.5 * b2) / dens;
    var gammaD := gamma - 1.0;
    var xD := (gamma - 2.0) * x;
    var yD := (gamma - 2.0) * y;
    var a2 := gammaD * (h - 0.5 * (u * u + v * v) - b2 / dens) - xD;
    var cAx2 := if idir == 1 then bxA * bxA / dens else byA * byA / dens;
    var bNorm2 := if idir == 1 then (gammaD - yD) * byA * byA else (gammaD - yD) * bxA * bxA;
    var cA2 := cAx2 + bNorm2 / dens;
    var root := o.sqrt((a2 + cA2) * (a2 + cA2) - 4.0 * a2 * cAx2);
    var cf2 := 0.5 * ((a2 + cA2) + root);
    var cs2 := 0.5 * ((a2 + cA2) - root);
    var vx := if idir == 1 then u else v;
    [vx - o.sqrt(cf2), vx - o.sqrt(cAx2), vx - o.sqrt(cs2), vx,
     vx + o.sqrt(cs2), vx + o.sqrt(cAx2), vx + o.sqrt(cf2)]
  }

  /** bp and bm: the largest and smallest of the seven averaged speeds, the
      right state's fast speed to the right, the left state's to the left,
      and 0. */
  function WaveSpeedBounds(evals: seq<real>, unl: real, cfl: real, unr: real, cfr: real): (b: Bounds)
    requires |evals| > 0
    ensures b.plus >= 0.0 >= b.minus
    ensures forall k | 0 <= k < |evals| :: b.minus <= evals[k] <= b.plus
    ensures unl - cfl >= b.minus && unr + cfr <= b.plus
    ensures b.plus == 0.0 || b.plus == unr + cfr || b.plus in evals
    ensures b.minus == 0.0 || b.minus == unl - cfl || b.minus in evals
  {
    Bounds(Max(Max(SeqMax(evals), unr + cfr), 0.0), Min(Min(SeqMin(evals), unl - cfl), 0.0))
  }

  /** The conditions under which the wave speeds of a face can be formed:
      the Roe average exists, gamma and sqrt(4 pi) are nonzero, and the
      averaged density is nonzero. */
  predicate SpeedsDefined(idir: int, gamma: real, lay: Layout, ul: seq<real>, ur: seq<real>, bxFace: real, byFace: real, o: Oracle)
  {
    && RoeDefined(lay, ul, ur, o) && gamma != 0.0 && FieldScale(o) != 0.0
    && RoeConserved(gamma, lay, RoePrimitive(gamma, lay, ul, ur,
         Side(idir, gamma, lay, ul, bxFace, byFace, o), Side(idir, gamma, lay, ur, bxFace, byFace, o), o))[lay.idens] != 0.0
  }

  /** The wave speed bounds of one face. */
  function SignalSpeeds(idir: int, gamma: real, lay: Layout, ul: seq<real>, ur: seq<real>, bxFace: real, byFace: real, o: Oracle): (b: Bounds)
    requires SpeedsDefined(idir, gamma, lay, ul, ur, bxFace, byFace, o)
    ensures b.plus >= 0.0 >= b.minus
  {
    var l := Side(idir, gamma, lay, ul, bxFace, byFace, o);
    var r := Side(idir, gamma, lay, ur, bxFace, byFace, o);
    var q := RoePrimitive(gamma, lay, ul, ur, l, r, o);
    var w := RoeConserved(gamma, lay, q);
    var s4 := FieldScale(o);
    var sl, sr := o.sqrt(l.rho), o.sqrt(r.rho);
    var x := if idir == 1 then 0.5 * (l.By / s4 - r.By / s4) * (l.By / s4 - r.By / s4) / (sl + sr)
             else 0.5 * (l.Bx / s4 - r.Bx / s4) * (l.Bx / s4 - r.Bx / s4) / (sl + sr);
    var y := 0.5 * (l.rho + r.rho) / w[lay.idens];
    var evals := CalcEvals(idir, w, gamma, lay, x, y, o);
    WaveSpeedBounds(evals, l.un, l.cf, r.un, r.cf)
  }

  /** The HLLE blend of the two side fluxes,
      (bp fl - bm fr) / (bp - bm) + bp bm / (bp - bm) (ur - ul). */
  function HlleBlend(fl: seq<real>, fr: seq<real>, ul: seq<real>, ur: seq<real>, bp: real, bm: real): (f: seq<real>)
    requires |fl| == |fr| == |ul| == |ur| && bp != bm
    ensures |f| == |fl|
  {
    seq(|fl|, k requires 0 <= k < |fl| =>
      (bp * fl[k] - bm * fr[k]) / (bp - bm) + bp * bm / (bp - bm) * (ur[k] - ul[k]))
  }

  /** The conditions under which the face flux can be formed: the wave
      speeds exist and are not both zero (the blend divides by bp - bm). */
  predicate FluxDefined(idir: int, gamma: real, lay: Layout, ul: seq<real>, ur: seq<real>, bxFace: real, byFace: real, o: Oracle)
  {
    && SpeedsDefined(idir, gamma, lay, ul, ur, bxFace, byFace, o)
    && SignalSpeeds(idir, gamma, lay, ul, ur, bxFace, byFace, o).plus != SignalSpeeds(idir, gamma, lay, ul, ur, bxFace, byFace, o).minus
  }

  /** The flux through one face: the HLLE blend of `consFlux` of both sides. */
  function HlleFlux(idir: int, gamma: real, lay: Layout, ul: seq<real>, ur: seq<real>, bxFace: real, byFace: real, o: Oracle): (f: seq<real>)
    requires FluxDefined(idir, gamma, lay, ul, ur, bxFace, byFace, o)
    ensures |f| == |ul|
  {
    var b := SignalSpeeds(idir, gamma, lay, ul, ur, bxFace, byFace, o);
    HlleBlend(ConsFlux(idir, gamma, lay, ul), ConsFlux(idir, gamma, lay, ur), ul, ur, b.plus, b.minus)
  }

  /** With the same state and flux on both sides the blend returns that
      flux, whatever the wave speeds. */
  lemma BlendConsistent(f: seq<real>, u: seq<real>, bp: real, bm: real)
    requires |f| == |u| && bp != bm
    ensures HlleBlend(f, f, u, u, bp, bm) == f
  {
    var g := HlleBlend(f, f, u, u, bp, bm);
    forall k | 0 <= k < |f|
      ensures g[k] == f[k]
    {
      calc {
        g[k];
        (bp * f[k] - bm * f[k]) / (bp - bm) + bp * bm / (bp - bm) * (u[k] - u[k]);
        ((bp - bm) * f[k]) / (bp - bm);
        f[k];
      }
    }
  }

  /** When no wave travels left (bm == 0) the blend is the left flux, and
      when none travels right (bp == 0) it is the right flux. */
  lemma BlendUpwind(fl: seq<real>, fr: seq<real>, ul: seq<real>, ur: seq<real>, bp: real, bm: real)
    requires |fl| == |fr| == |ul| == |ur| && bp != bm
    ensures bm == 0.0 ==> HlleBlend(fl, fr, ul, ur, bp, bm) == fl
    ensures bp == 0.0 ==> HlleBlend(fl, fr, ul, ur, bp, bm) == fr
  {
    var g := HlleBlend(fl, fr, ul, ur, bp, bm);
    if bm == 0.0 {
      forall k | 0 <= k < |fl|
        ensures g[k] == fl[k]
      {
        assert g[k] == (bp * fl[k]) / bp;
      }
    }
    if bp == 0.0 {
      forall k | 0 <= k < |fl|
        ensures g[k] == fr[k]
      {
        assert g[k] == (-bm * fr[k]) / (-bm);
      }
    }
  }

  /** The bounds bp and bm coincide (and the blend divides by zero) exactly
      when every averaged speed is 0, the left fast speed does not reach left
      and the right one does not reach right. */
  lemma BoundsCoincideOnlyAtZero(evals: seq<real>, unl: real, cfl: real, unr: real, cfr: real)
    requires |evals| > 0
    ensures WaveSpeedBounds(evals, unl, cfl, unr, cfr).plus == WaveSpeedBounds(evals, unl, cfl, unr, cfr).minus
        <==> (forall k | 0 <= k < |evals| :: evals[k] == 0.0) && unl - cfl >= 0.0 && unr + cfr <= 0.0
  {
    var b := WaveSpeedBounds(evals, unl, cfl, unr, cfr);
    if (forall k | 0 <= k < |evals| :: evals[k] == 0.0) && unl - cfl >= 0.0 && unr + cfr <= 0.0 {
      assert SeqMax(evals) in evals && SeqMin(evals) in evals;
      assert b.plus == 0.0 && b.minus == 0.0;
    }
  }

  /** Consistency of the solver: when both sides of a face hold the same
      state, the face flux is the physical flux of that state. */
  lemma RiemannConsistent(idir: int, gamma: real, lay: Layout, u: seq<real>, bxFace: real, byFace: real, o: Oracle)
    requires FluxDefined(idir, gamma, lay, u, u, bxFace, byFace, o)
    ensures HlleFlux(idir, gamma, lay, u, u, bxFace, byFace, o) == ConsFlux(idir, gamma, lay, u)
  {
    var b := SignalSpeeds(idir, gamma, lay, u, u, bxFace, byFace, o);
    BlendConsistent(ConsFlux(idir, gamma, lay, u), u, b.plus, b.minus);
  }

  /** Upwinding: when every wave moves right (bm == 0) the face takes the
      left state's flux, and when every wave moves left (bp == 0) the right
      state's. */
  lemma SupersonicUpwind(idir: int, gamma: real, lay: Layout, ul: seq<real>, ur: seq<real>, bxFace: real, byFace: real, o: Oracle)
    requires FluxDefined(idir, gamma, lay, ul, ur, bxFace, byFace, o)
    ensures SignalSpeeds(idir, gamma, lay, ul, ur, bxFace, byFace, o).minus == 0.0 ==>
      HlleFlux(idir, gamma, lay, ul, ur, bxFace, byFace, o) == ConsFlux(idir, gamma, lay, ul)
    ensures SignalSpeeds(idir, gamma, lay, ul, ur, bxFace, byFace, o).plus == 0.0 ==>
      HlleFlux(idir, gamma, lay, ul, ur, bxFace, byFace, o) == ConsFlux(idir, gamma, lay, ur)
  {
    var b := SignalSpeeds(idir, gamma, lay, ul, ur, bxFace, byFace, o);
    BlendUpwind(ConsFlux(idir, gamma, lay, ul), ConsFlux(idir, gamma, lay, ur), ul, ur, b.plus, b.minus);
  }

  /** Faces the kernel computes: [ng-2, n-ng+2) along each axis of a
      qx by qy grid. */
  predicate FaceRange(ng: int, qx: int, qy: int, i: int, j: int)
  {
    ng - 2 <= i < qx - ng + 2 && ng - 2 <= j < qy - ng + 2
  }

  /** The flux through a face, zero where the HLLE flux cannot be formed
      (the kernel's callers never ask for one there). */
  function FaceFlux(idir: int, gamma: real, lay: Layout, ul: seq<real>, ur: seq<real>, bxFace: real, byFace: real, o: Oracle): (f: seq<real>)
    ensures |f| == |ul|
    ensures FluxDefined(idir, gamma, lay, ul, ur, bxFace, byFace, o) ==> f == HlleFlux(idir, gamma, lay, ul, ur, bxFace, byFace, o)
  {
    if FluxDefined(idir, gamma, lay, ul, ur, bxFace, byFace, o) then HlleFlux(idir, gamma, lay, ul, ur, bxFace, byFace, o)
    else seq(|ul|, _ => 0.0)
  }

  /** Two qx by qy grids of states of nvar components and two grids of face
      fields. */
  predicate GridShape(ul: seq<seq<seq<real>>>, ur: seq<seq<seq<real>>>, Bx: seq<seq<real>>, By: seq<seq<real>>,
                      qx: int, qy: int, nvar: int)
  {
    && |ul| == qx && |ur| == qx && |Bx| == qx && |By| == qx
    && (forall i | 0 <= i < qx :: |ul[i]| == qy && |ur[i]| == qy && |Bx[i]| == qy && |By[i]| == qy)
    && (forall i, j | 0 <= i < qx && 0 <= j < qy :: |ul[i][j]| == nvar && |ur[i][j]| == nvar)
  }

  /** The inputs `riemann_adiabatic` is called with: grids of the right
      shape, at least two ghost cells, and a flux that can be formed at
      every face of the loop range. */
  predicate FacesDefined(idir: int, ng: int, gamma: real, lay: Layout, ul: seq<seq<seq<real>>>, ur: seq<seq<seq<real>>>,
                         Bx: seq<seq<real>>, By: seq<seq<real>>, o: Oracle, qx: int, qy: int, nvar: int)
  {
    && ng >= 2
    && GridShape(ul, ur, Bx, By, qx, qy, nvar)
    && forall i, j | ng - 2 <= i < qx - ng + 2 && ng - 2 <= j < qy - ng + 2 ::
         FluxDefined(idir, gamma, lay, ul[i][j], ur[i][j], Bx[i][j], By[i][j], o)
  }

  /** The array `riemann_adiabatic` returns, as a value: the flux through
      each face of the loop range, zero on every other face. */
  function FluxGrid(idir: int, ng: int, gamma: real, lay: Layout, ul: seq<seq<seq<real>>>, ur: seq<seq<seq<real>>>,
                    Bx: seq<seq<real>>, By: seq<seq<real>>, o: Oracle, qx: nat, qy: nat, nvar: nat): (g: seq<seq<seq<real>>>)
    requires GridShape(ul, ur, Bx, By, qx, qy, nvar)
    ensures |g| == qx
    ensures forall a | 0 <= a < qx :: |g[a]| == qy
    ensures forall a, b | 0 <= a < qx && 0 <= b < qy :: |g[a][b]| == nvar
    ensures forall a, b | 0 <= a < qx && 0 <= b < qy && !FaceRange(ng, qx, qy, a, b) ::
      forall k | 0 <= k < nvar :: g[a][b][k] == 0.0
  {
    seq(qx, a requires 0 <= a < qx =>
      seq(qy, b requires 0 <= b < qy =>
        if FaceRange(ng, qx, qy, a, b) then FaceFlux(idir, gamma, lay, ul[a][b], ur[a][b], Bx[a][b], By[a][b], o)
        else seq(nvar, _ => 0.0)))
  }

  /** On the inputs the kernel is called with, FluxGrid holds the HLLE flux
      at every face of the loop range. */
  lemma FluxGridAt(idir: int, ng: int, gamma: real, lay: Layout, ul: seq<seq<seq<real>>>, ur: seq<seq<seq<real>>>,
                   Bx: seq<seq<real>>, By: seq<seq<real>>, o: Oracle, qx: nat, qy: nat, nvar: nat, i: int, j: int)
    requires FacesDefined(idir, ng, gamma, lay, ul, ur, Bx, By, o, qx, qy, nvar)
    requires FaceRange(ng, qx, qy, i, j)
    ensures FluxDefined(idir, gamma, lay, ul[i][j], ur[i][j], Bx[i][j], By[i][j], o)
    ensures FluxGrid(idir, ng, gamma, lay, ul, ur, Bx, By, o, qx, qy, nvar)[i][j]
         == HlleFlux(idir, gamma, lay, ul[i][j], ur[i][j], Bx[i][j], By[i][j], o)
  {
  }

  /** Row i of FluxGrid, face by face, and its shape. */
  lemma FluxGridRow(idir: int, ng: int, gamma: real, lay: Layout, ul: seq<seq<seq<real>>>, ur: seq<seq<seq<real>>>,
                    Bx: seq<seq<real>>, By: seq<seq<real>>, o: Oracle, qx: nat, qy: nat, nvar: nat, i: int)
    requires GridShape(ul, ur, Bx, By, qx, qy, nvar)
    requires ng >= 2 && ng - 2 <= i < qx - ng + 2
    ensures Grid3(FluxGrid(idir, ng, gamma, lay, ul, ur, Bx, By, o, qx, qy, nvar), qx, qy, nvar)
    ensures forall b | ng - 2 <= b < qy - ng + 2 ::
      FaceFlux(idir, gamma, lay, ul[i][b], ur[i][b], Bx[i][b], By[i][b], o)
      == FluxGrid(idir, ng, gamma, lay, ul, ur, Bx, By, o, qx, qy, nvar)[i][b]
  {
  }

  /** The flux through face (i, j), read off the arrays, is row i's entry
      of the flux grid G. */
  method FaceAt(idir: int, ng: int, gamma: real, lay: Layout, ul: array3<real>, ur: array3<real>,
                Bx: array2<real>, By: array2<real>, o: Oracle, i: int, j: int,
                ghost UL: seq<seq<seq<real>>>, ghost UR: seq<seq<seq<real>>>,
                ghost BX: seq<seq<real>>, ghost BY: seq<seq<real>>, ghost G: seq<seq<seq<real>>>)
    returns (flux: seq<real>)
    requires UL == Snapshot3(ul) && UR == Snapshot3(ur) && BX == Snapshot2(Bx) && BY == Snapshot2(By)
    requires ur.Length0 == ul.Length0 && ur.Length1 == ul.Length1 && ur.Length2 == ul.Length2
    requires Bx.Length0 == ul.Length0 && Bx.Length1 == ul.Length1 && By.Length0 == ul.Length0 && By.Length1 == ul.Length1
    requires ng >= 2 && 0 <= i < ul.Length0 && ng - 2 <= j < ul.Length1 - ng + 2
    requires Grid3(G, ul.Length0, ul.Length1, ul.Length2)
    requires forall b {:trigger FaceFlux(idir, gamma, lay, UL[i][b], UR[i][b], BX[i][b], BY[i][b], o)}
      | ng - 2 <= b < ul.Length1 - ng + 2 :: FaceFlux(idir, gamma, lay, UL[i][b], UR[i][b], BX[i][b], BY[i][b], o) == G[i][b]
    ensures flux == G[i][j]
  {
    flux := FaceFlux(idir, gamma, lay, Cell(ul, i, j), Cell(ur, i, j), Bx[i, j], By[i, j], o);
    assert UL[i][j] == Cell(ul, i, j) && UR[i][j] == Cell(ur, i, j) && BX[i][j] == Bx[i, j] && BY[i][j] == By[i, j];
  }

  /** One row i of the loop: F[i, j, :] for every j of the range, with UL,
      UR, BX and BY the values of the input arrays and G their FluxGrid. */
  method RiemannRow(idir: int, ng: int, gamma: real, lay: Layout, ul: array3<real>, ur: array3<real>,
                    Bx: array2<real>, By: array2<real>, o: Oracle, f: array3<real>, i: int,
                    ghost UL: seq<seq<seq<real>>>, ghost UR: seq<seq<seq<real>>>,
                    ghost BX: seq<seq<real>>, ghost BY: seq<seq<real>>, ghost G: seq<seq<seq<real>>>)
    requires UL == Snapshot3(ul) && UR == Snapshot3(ur) && BX == Snapshot2(Bx) && BY == Snapshot2(By)
    requires ur.Length0 == ul.Length0 && ur.Length1 == ul.Length1 && ur.Length2 == ul.Length2
    requires Bx.Length0 == ul.Length0 && Bx.Length1 == ul.Length1 && By.Length0 == ul.Length0 && By.Length1 == ul.Length1
    requires ng >= 2 && ng - 2 <= i < ul.Length0 - ng + 2
    requires GridShape(UL, UR, BX, BY, ul.Length0, ul.Length1, ul.Length2)
    requires Grid3(G, ul.Length0, ul.Length1, ul.Length2)
    requires forall b {:trigger FaceFlux(idir, gamma, lay, UL[i][b], UR[i][b], BX[i][b], BY[i][b], o)}
      | ng - 2 <= b < ul.Length1 - ng + 2 :: FaceFlux(idir, gamma, lay, UL[i][b], UR[i][b], BX[i][b], BY[i][b], o) == G[i][b]
    requires f != ul && f != ur
    requires f.Length0 == ul.Length0 && f.Length1 == ul.Length1 && f.Length2 == ul.Length2
    modifies f
    ensures forall a, b, k | 0 <= a < f.Length0 && 0 <= b < f.Length1 && 0 <= k < f.Length2 ::
      f[a, b, k] == if a == i && ng - 2 <= b < ul.Length1 - ng + 2 then G[a][b][k] else old(f[a, b, k])
  {
    var j := ng - 2;
    while j < ul.Length1 - ng + 2
      invariant ng - 2 <= j
      invariant j <= ul.Length1 - ng + 2 || j == ng - 2
      invariant forall a, b, k | 0 <= a < f.Length0 && 0 <= b < f.Length1 && 0 <= k < f.Length2 ::
        f[a, b, k] == if a == i && ng - 2 <= b < j then G[a][b][k] else old(f[a, b, k])
    {
      var flux := FaceAt(idir, ng, gamma, lay, ul, ur, Bx, By, o, i, j, UL, UR, BX, BY, G);
      forall k | 0 <= k < f.Length2 {
        f[i, j, k] := flux[k];
      }
      j := j + 1;
    }
  }

  /** `riemann_adiabatic`: a fresh array holding FluxGrid of the inputs,
      which FluxGridAt ties to the HLLE flux face by face. */
  method RiemannAdiabatic(idir: int, ng: int, gamma: real, lay: Layout, ul: array3<real>, ur: array3<real>,
                          Bx: array2<real>, By: array2<real>, o: Oracle) returns (f: array3<real>)
    requires ur.Length0 == ul.Length0 && ur.Length1 == ul.Length1 && ur.Length2 == ul.Length2
    requires Bx.Length0 == ul.Length0 && Bx.Length1 == ul.Length1 && By.Length0 == ul.Length0 && By.Length1 == ul.Length1
    requires FacesDefined(idir, ng, gamma, lay, Snapshot3(ul), Snapshot3(ur), Snapshot2(Bx), Snapshot2(By), o,
                          ul.Length0, ul.Length1, ul.Length2)
    ensures fresh(f)
    ensures f.Length0 == ul.Length0 && f.Length1 == ul.Length1 && f.Length2 == ul.Length2
    ensures forall a, b, k | 0 <= a < f.Length0 && 0 <= b < f.Length1 && 0 <= k < f.Length2 ::
      f[a, b, k] == FluxGrid(idir, ng, gamma, lay, Snapshot3(ul), Snapshot3(ur), Snapshot2(Bx), Snapshot2(By), o,
                             ul.Length0, ul.Length1, ul.Length2)[a][b][k]
  {
    ghost var UL, UR, BX, BY := Snapshot3(ul), Snapshot3(ur), Snapshot2(Bx), Snapshot2(By);
    ghost var G := FluxGrid(idir, ng, gamma, lay, UL, UR, BX, BY, o, ul.Length0, ul.Length1, ul.Length2);
    f := new real[ul.Length0, ul.Length1, ul.Length2]((_, _, _) => 0.0);
    var i := ng - 2;
    while i < ul.Length0 - ng + 2
      invariant ng - 2 <= i
      invariant i <= ul.Length0 - ng + 2 || i == ng - 2
      invariant forall a, b, k | 0 <= a < f.Length0 && 0 <= b < f.Length1 && 0 <= k < f.Length2 ::
        f[a, b, k] == if ng - 2 <= a < i && ng - 2 <= b < ul.Length1 - ng + 2 then G[a][b][k] else 0.0
      modifies f
    {
      FluxGridRow(idir, ng, gamma, lay, UL, UR, BX, BY, o, ul.Length0, ul.Length1, ul.Length2, i);
      RiemannRow(idir, ng, gamma, lay, ul, ur, Bx, By, o, f, i, UL, UR, BX, BY, G);
      i := i + 1;
    }
  }

  /** At a face of the loop range whose two interface states agree, the
      flux `riemann_adiabatic` stores is the physical flux of that state. */
  lemma FluxGridConsistent(idir: int, ng: int, gamma: real, lay: Layout, ul: seq<seq<seq<real>>>, ur: seq<seq<seq<real>>>,
                           Bx: seq<seq<real>>, By: seq<seq<real>>, o: Oracle, qx: int, qy: int, nvar: nat, i: int, j: int)
    requires FacesDefined(idir, ng, gamma, lay, ul, ur, Bx, By, o, qx, qy, nvar)
    requires FaceRange(ng, qx, qy, i, j) && ul[i][j] == ur[i][j]
    ensures FluxGrid(idir, ng, gamma, lay, ul, ur, Bx, By, o, qx, qy, nvar)[i][j] == ConsFlux(idir, gamma, lay, ul[i][j])
  {
    RiemannConsistent(idir, gamma, lay, ul[i][j], Bx[i][j], By[i][j], o);
  }
}
