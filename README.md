# MHD interface kernels

A Dafny model of the interface kernels of a two-dimensional,
unsplit magnetohydrodynamics solver (`mhd/interface.py`). Every quantity
is a Dafny `real`, and the square root and pi come from an `Oracle`
argument.

- **`states`** (module `Reconstruction`) reconstructs the left and right
  interface states from the cell-centred primitive state.
  - It takes backward, forward and centred differences along the sweep.
  - It limits the slope to `sign(dc) * min(2|dl|, 2|dr|, |dc|)`, as in
    section 4.2 of Stone & Gardiner 2009.
  - It zeroes the slope of the field component along the sweep.
  - It writes `q_l[i+1] = q + dq/2` and `q_r[i] = q - dq/2`.
- **`consFlux`** (module `Flux`) maps one conservative state to its
  physical flux through an x face or a y face.
- **`riemann_adiabatic`** and **`calc_evals`** (module `Riemann`) form the
  HLLE flux at every face.
  - From each side's primitive variables they compute floored pressures
    and sound speeds, fast speeds and a Roe average.
  - From the Roe average they compute seven characteristic speeds and
    the wave speed bounds `bp >= 0 >= bm`.
  - The flux is the blend `(bp fl - bm fr)/(bp - bm) + bp bm/(bp - bm) (ur - ul)`.
- **`emf`** (module `Emf`) reconstructs the corner electromotive force,
  following section 4.1.1 of Gardiner & Stone 2005.
  - It computes quarter-cell slopes from a reference EMF and the face
    EMFs.
  - It chooses the upwind slope by the sign of the face mass flux.
  - It combines the four edge values with an eighth-weighted correction.
- **`sources`** (module `Sources`) computes the magnetic-tension momentum
  source from the jump of the interface normal field.

Modules `Numerics` and `VariableLayout` hold the shared pieces:
- sign, absolute value, minimum and maximum;
- the maximum and minimum of a sequence;
- snapshots of arrays as sequences;
- the `Oracle`;
- the slot layout `idens, ixmom, iymom, iener, ixmag, iymag, irhoX, nspec`.

The kernels that fill arrays in place are methods over `array2`/`array3`.
- Each returns fresh arrays, as the source's `np.zeros` allocations are.
- The loops carry invariants that fix every entry, inside and outside the
  loop range.
- Each method's `ensures` ties every entry of its result to a function of
  the input values: `FluxGrid`, `EmfInput.Result` or `SourceInput.Source`.
- The lemmas state the properties of those functions.

The per-cell formulas are functions: `LimitedSlope`, `LeftState`,
`RightState`, `ConsFlux`, `Side`, `CalcEvals`, `HlleBlend`,
`EmfInput.Corner` and `SourceInput.Source`.

## Model

The table gives one row per member that models the source or states a
property of it. Rows that say "definition" name the function that
transcribes the cited lines, and name the lemmas and methods that state
its properties. `Flux.WithSpecies`, `Riemann.FaceField` and
`Riemann.FaceFlux` are helpers: their contracts only spell out what they
compute. The properties they serve are stated by `Flux.SpeciesFlux`,
`Riemann.Side` and `Riemann.FluxGridAt`.

| member | source | states |
|---|---|---|
| Numerics.SeqMax | mhd/interface.py:302 | `np.max` of the eigenvalues: an element of the sequence, no smaller than any element |
| Numerics.SeqMin | mhd/interface.py:303 | `np.min` of the eigenvalues: an element of the sequence, no larger than any element |
| Reconstruction.LimitedSlope | mhd/interface.py:119-120 | definition of the limiter `sign(dc) min(2\|dl\|, 2\|dr\|, \|dc\|)`; its properties are stated by LimitedSlopeBounds, LimitedSlopeOdd, MonotoneSlopeBounded and LimitedSlopeAtPeak |
| Reconstruction.BackwardDiff | mhd/interface.py:108-115 | definition of `dq_l` at one entry (0 on the outer layers along the sweep); tied to the array by BackwardDifferences, used by FlatNeighbourhood and MonotoneHalfSlope |
| Reconstruction.ForwardDiff | mhd/interface.py:108-115 | definition of `dq_r` at one entry; tied to the array by ForwardDifferences, used by FlatNeighbourhood and MonotoneHalfSlope |
| Reconstruction.CentredDiff | mhd/interface.py:108-115 | definition of `dq_c` at one entry; tied to the array by CentredDifferences; MonotoneHalfSlope relates it to the one-sided differences |
| Reconstruction.Slope | mhd/interface.py:119-126 | definition of `dq` at one entry, 0 in the sweep-normal field component; its properties are stated by FlatNeighbourhood, MonotoneHalfSlope and LimitedSlopes |
| Reconstruction.LeftState | mhd/interface.py:129-136 | definition of `q_l` at one entry (the swept cell before it plus half its slope, 0 outside the loop); its properties are stated by FlatNeighbourhood, NormalFieldNotReconstructed, MonotoneInterfaceBounded and States |
| Reconstruction.RightState | mhd/interface.py:129-136 | definition of `q_r` at one entry (the swept cell minus half its slope, 0 outside the loop); its properties are stated by the same lemmas |
| Reconstruction.LimitedSlopeBounds | mhd/interface.py:119-120 | the limited slope is no larger in magnitude than 2\|dl\|, 2\|dr\| or \|dc\|; it is zero or has the sign of dc; it is zero exactly when one of the three differences is |
| Reconstruction.LimitedSlopeAtPeak | mhd/interface.py:119-120 | the limiter has no extremum test: at a peak (dl = 2, dr = -1, dc = 0.5) the slope is 0.5, and the left interface value overshoots the peak |
| Reconstruction.LimitedSlopeOdd | mhd/interface.py:119-120 | negating all three differences negates the limited slope |
| Reconstruction.RisingSlopeBounded | mhd/interface.py:111-120 | for non-negative one-sided differences, half the limited slope lies between 0 and each of them |
| Reconstruction.MonotoneSlopeBounded | mhd/interface.py:111-120 | for one-sided differences of one sign, half the limited slope lies between 0 and each of them |
| Reconstruction.MonotoneHalfSlope | mhd/interface.py:109-126 | at a cell whose array differences share a sign, half the slope (the sweep-normal field included) lies between 0 and each difference |
| Reconstruction.HalfStepBetween | mhd/interface.py:132-136 | c - half and c + half stay between the neighbours when half is bounded by both differences |
| Reconstruction.FlatNeighbourhood | mhd/interface.py:109-136 | a cell equal to both sweep neighbours has slope 0, and both interface states it feeds equal the cell value, in either sweep direction |
| Reconstruction.NormalFieldNotReconstructed | mhd/interface.py:123-136 | the field component along the sweep is copied: `q_l` and `q_r` hold the cell value |
| Reconstruction.MonotoneInterfaceBounded | mhd/interface.py:109-136 | where values are monotone over a cell and its neighbours, `q_r[i]` lies between the left neighbour and the cell and `q_l[i+1]` between the cell and the right neighbour: no new extremum |
| Reconstruction.BackwardDifferences | mhd/interface.py:103-113 | a fresh array: the backward difference inside the sweep interior, 0 on the two outer layers |
| Reconstruction.ForwardDifferences | mhd/interface.py:104-114 | a fresh array: the forward difference inside the sweep interior, 0 on the two outer layers |
| Reconstruction.CentredDifferences | mhd/interface.py:105-115 | a fresh array: half the centred difference inside the sweep interior, 0 on the two outer layers |
| Reconstruction.Limited | mhd/interface.py:119-120 | a fresh array holding the limited slope of the three difference arrays at every entry |
| Reconstruction.LimitedSlopes | mhd/interface.py:103-126 | a fresh array holding `Slope`: the limited slope, and 0 in the sweep-normal field component |
| Reconstruction.ReconstructRow | mhd/interface.py:130-136 | one row of the loop writes `q_l` at the next cell along the sweep and `q_r` at the cell, and leaves every other entry unchanged |
| Reconstruction.Interfaces | mhd/interface.py:92-138 | fresh `q_l`/`q_r`: `LeftState`/`RightState` in the loop range [ng-3, q-ng+3) (shifted by one for `q_l`), 0 elsewhere |
| Reconstruction.States | mhd/interface.py:6-138 | `states` as a whole: the interface arrays are `LeftState`/`RightState` of the input |
| Flux.Pressure | mhd/interface.py:398-399 | definition of the gas pressure; StaticStateFlux evaluates it at a gas at rest |
| Flux.ConsFlux | mhd/interface.py:365-425 | definition of `consFlux`, of the state's length; its properties are stated by NormalFieldFluxZero, MassFluxIsNormalMomentum, SpeciesFlux, OtherSlotsZero and StaticStateFlux |
| Flux.WriteSlots | mhd/interface.py:390-420 | a zero vector whose six named slots hold the given values, the later write winning where slots coincide |
| Flux.NormalFieldFluxZero | mhd/interface.py:401-420 | the flux of the field component along the face normal is exactly 0 |
| Flux.MassFluxIsNormalMomentum | mhd/interface.py:392-414 | the mass flux equals the normal momentum |
| Flux.SpeciesFlux | mhd/interface.py:408-423 | every species flux is the species' partial density times the normal velocity |
| Flux.OtherSlotsZero | mhd/interface.py:390-423 | every slot outside the named ones and the species block is 0 |
| Flux.StaticStateFlux | mhd/interface.py:365-408 | density 1, no velocity, no field, pressure 1 gives x flux [0, 1, 0, 0, 0, 0] and zero species fluxes |
| Riemann.RawPressure | mhd/interface.py:196-214 | definition of a side's pressure before the floor; FlooredPressure and Side state what the floor does to it |
| Riemann.FlooredPressure | mhd/interface.py:199-215 | the pressure is at least smallp, equals the raw pressure when that reaches smallp, and is smallp otherwise |
| Riemann.SoundSpeed | mhd/interface.py:218-219 | the sound speed is at least smallc, and is the square root when that reaches smallc |
| Riemann.Side | mhd/interface.py:168-224 | a side's density is the state's density, its normal velocity is the state's, and its pressure and sound speed respect the floors |
| Riemann.FastSpeed | mhd/interface.py:282-300 | definition of a side's fast speed through the oracle's square root; WaveSpeedBounds holds whatever value it takes |
| Riemann.Enthalpy | mhd/interface.py:242-248 | definition of a side's specific enthalpy; no property beyond feeding the Roe average (see Left out) |
| Riemann.RoeSlot | mhd/interface.py:232-257 | definition of one slot of `q_av`, in the source's write order; no property beyond feeding `calc_evals` (see Left out) |
| Riemann.RoePrimitive | mhd/interface.py:232-257 | `q_av` as the sequence of RoeSlot values; no property beyond feeding `calc_evals` (see Left out) |
| Riemann.RoeConserved | mhd/interface.py:259-268 | definition of `U_av`, of `q_av`'s length; no property beyond feeding `calc_evals` (see Left out) |
| Riemann.CalcEvals | mhd/interface.py:317-361 | seven speeds; the middle one is the averaged normal velocity; speeds k and 6-k sit symmetrically about it |
| Riemann.WaveSpeedBounds | mhd/interface.py:302-303 | bp >= 0 >= bm; every eigenvalue and both fast-speed signals lie in [bm, bp]; bp and bm are each 0 or one of the candidates |
| Riemann.SignalSpeeds | mhd/interface.py:270-303 | for every state pair and oracle, the face's bounds satisfy bp >= 0 >= bm |
| Riemann.HlleBlend | mhd/interface.py:310-311 | definition of the HLLE blend; its properties are stated by BlendConsistent and BlendUpwind |
| Riemann.HlleFlux | mhd/interface.py:305-311 | the blend of `consFlux` of both sides with the face's wave speeds; its properties are stated by RiemannConsistent, SupersonicUpwind and FluxGridAt |
| Riemann.BlendConsistent | mhd/interface.py:310-311 | the blend of one flux with itself (equal states) returns that flux whatever bp != bm |
| Riemann.BlendUpwind | mhd/interface.py:310-311 | bm == 0 gives the left flux, bp == 0 the right flux |
| Riemann.BoundsCoincideOnlyAtZero | mhd/interface.py:302-311 | bp == bm (the unguarded division by zero) holds exactly when every eigenvalue is 0, un_l - cf_l >= 0 and un_r + cf_r <= 0 |
| Riemann.RiemannConsistent | mhd/interface.py:305-311 | with U_l == U_r the HLLE flux is `consFlux` of that state |
| Riemann.SupersonicUpwind | mhd/interface.py:302-311 | bm == 0 gives `consFlux(U_l)` and bp == 0 gives `consFlux(U_r)` |
| Riemann.FluxGrid | mhd/interface.py:150-313 | the returned grid has the state grid's shape and is 0 outside the face range [ng-2, q-ng+2) |
| Riemann.FluxGridAt | mhd/interface.py:165-311 | on valid inputs, the grid holds the HLLE flux at every face of the range |
| Riemann.FluxGridRow | mhd/interface.py:166-311 | row i of the grid holds the face flux of each face of the row |
| Riemann.FaceAt | mhd/interface.py:168-311 | the flux formed from the array entries at face (i, j) is the grid's entry |
| Riemann.RiemannRow | mhd/interface.py:166-311 | one row of the loop writes the grid's row into F over the face range and leaves everything else unchanged |
| Riemann.RiemannAdiabatic | mhd/interface.py:142-313 | `riemann_adiabatic`: a fresh array equal entry by entry to `FluxGrid` of the inputs |
| Riemann.FluxGridConsistent | mhd/interface.py:165-311 | at a face of the range with U_l == U_r, F holds `consFlux` of that state |
| Emf.Prev | mhd/interface.py:487-489 | index i - 1 as NumPy reads it: i - 1 when i > 0, the last index when i == 0 |
| Emf.Upwind | mhd/interface.py:496-526 | the lower slope for positive mass flux, the upper for negative, their mean for zero; always between the two |
| Emf.CellEmf | mhd/interface.py:466-470 | definition of -(u By - v Bx) of one cell; tied to the array by ReferenceEmf |
| Emf.EmfInput.Er | mhd/interface.py:465-472 | definition of Er at one cell, Eref broadcast or CellEmf; tied to the array by ReferenceEmf, used by UniformEmf |
| Emf.EmfInput.Ex | mhd/interface.py:475 | definition of Ex at one face; tied to the array by EdgeEmfs, used by UniformEmf |
| Emf.EmfInput.Ey | mhd/interface.py:476 | definition of Ey at one face; tied to the array by EdgeEmfs, used by UniformEmf |
| Emf.EmfInput.DEdy14 | mhd/interface.py:482 | definition of dEz/dy at (i, j-1/4); tied to the array by QuarterSlopes; UniformEmf shows it is 0 for uniform inputs |
| Emf.EmfInput.DEdx14 | mhd/interface.py:484 | definition of dEz/dx at (i-1/4, j); tied to the array by QuarterSlopes; UniformEmf shows it is 0 for uniform inputs |
| Emf.EmfInput.DEdy34 | mhd/interface.py:487 | definition of dEz/dy at (i, j-3/4), reading j-1 through Prev; tied to the array by QuarterSlopes; UniformEmf shows it is 0 for uniform inputs |
| Emf.EmfInput.DEdx34 | mhd/interface.py:489 | definition of dEz/dx at (i-3/4, j), reading i-1 through Prev; tied to the array by QuarterSlopes; UniformEmf shows it is 0 for uniform inputs |
| Emf.EmfInput.MassX | mhd/interface.py:496 | the x mass flux that picks the dEz/dy slopes; Upwind states the choice |
| Emf.EmfInput.MassY | mhd/interface.py:512 | the y mass flux that picks the dEz/dx slopes; Upwind states the choice |
| Emf.EmfInput.EdgeMean | mhd/interface.py:528 | definition of the mean of the four edge EMFs; UniformEmf shows it is the constant for uniform inputs |
| Emf.EmfInput.Corner | mhd/interface.py:494-530 | definition of `Ec[i, j]` with the four upwind choices; tied to the array by CornerAt and Corners; its property is stated by UniformEmf |
| Emf.Combine | mhd/interface.py:528-530 | definition of the corner sum: the edge mean plus an eighth of the two upwinded slope differences, weighted by dy and dx; used by Corner, whose value UniformCorner states |
| Emf.EmfInput.Result | mhd/interface.py:450-532 | definition of the returned `Ec` at one corner: Corner inside the corner loop's range, 0 outside it; tied to the array by Corners and ComputeEmf |
| Emf.ReferenceEmf | mhd/interface.py:465-472 | a fresh Er: -(u By - v Bx) of each cell, or Eref broadcast to the grid |
| Emf.EdgeEmfs | mhd/interface.py:475-476 | fresh Ex = -Fx[iymag] and Ey = Fy[ixmag] over the whole grid |
| Emf.SlopeRow | mhd/interface.py:479-489 | one row of the slope loop writes the four quarter-cell slopes and nothing else |
| Emf.QuarterSlopes | mhd/interface.py:452-489 | fresh slope arrays: the quarter-cell slopes over [ng-3, q-ng+3), 0 elsewhere |
| Emf.CornerAt | mhd/interface.py:494-530 | the corner value formed from the arrays equals `Corner` of the inputs |
| Emf.CornerRow | mhd/interface.py:492-530 | one row of the corner loop writes the corner EMF over the range and leaves everything else unchanged |
| Emf.Corners | mhd/interface.py:450-532 | a fresh Ec equal to the corner EMF in [ng-2, q-ng+2) and 0 elsewhere |
| Emf.ComputeEmf | mhd/interface.py:429-532 | `emf`: a fresh array equal entry by entry to `Result` of the inputs |
| Emf.UniformSlopesZero | mhd/interface.py:482-489 | with Er, Ex and Ey all equal to one constant, the four quarter-cell slopes of a cell of the slope loop are 0 |
| Emf.UniformCorner | mhd/interface.py:494-530 | with Er, Ex and Ey all equal to one constant, a corner of the corner loop equals that constant whatever the signs of the mass fluxes |
| Emf.UniformEmf | mhd/interface.py:478-530 | if Er, Ex and Ey all equal one constant, every quarter slope is 0 and every corner of the range equals that constant |
| Sources.SourceInput.FieldJump | mhd/interface.py:557-565 | definition of the jump of the interface normal field across a cell; UniformFieldNoSource shows it is 0 for a uniform field |
| Sources.SourceInput.Source | mhd/interface.py:556-565 | definition of `S[i, j, k]`; tied to the array by ComputeSources; its properties are stated by OnlyMomentumInside, UniformFieldNoSource and SourceAlongField |
| Sources.SourceAt | mhd/interface.py:556-565 | one cell of the loop writes `Source` into its slots, and no other entry changes |
| Sources.SourceRow | mhd/interface.py:555-565 | one row of the loop writes `Source` in its cells, and no other entry changes |
| Sources.ComputeSources | mhd/interface.py:536-567 | `sources`: a fresh array equal entry by entry to `Source` of the inputs |
| Sources.OnlyMomentumInside | mhd/interface.py:545-565 | a nonzero entry is an ixmom/iymom slot of a cell with i, j in 1..q-2 |
| Sources.UniformFieldNoSource | mhd/interface.py:554-565 | with the interface normal field uniform along the sweep, S is identically 0 |
| Sources.SourceAlongField | mhd/interface.py:556-565 | for a proper layout, the momentum source is the cell field times the jump over dx, so it is parallel to the cell field |

## Left out

- Floating point is not modelled: rounding, NaN and infinity propagation, and `np.sign` of NaN. All arithmetic is over the reals.
- Square roots and pi are not computed. They come from an `Oracle` argument, and every property holds for every oracle.
- The magnetosonic ordering of the seven eigenvalues (fast >= Alfven >= slow) is not proved, because it depends on properties of the square root.
- The Roe average is not proved to round-trip. The model has the Roe-average assembly (`RoeSlot`, `RoePrimitive`, `RoeConserved`), but no property of it beyond feeding `calc_evals`.
- Divisions by zero are not modelled; they are preconditions. This covers the densities, the square-root weights and their sum, sqrt(4 pi) (`FieldScale`), gamma in the Roe energy, the averaged density, dx, dy and bp - bm.
  - `Riemann.BoundsCoincideOnlyAtZero` states exactly when bp - bm is 0.
- `Riemann.FaceFlux`, a helper, is 0 at a face where the HLLE flux cannot be formed. Such a face is excluded by `FacesDefined`, so no caller reaches that case.
- `states` assumes ng >= 4, because its loop writes `q_l` at `qx-ng+3`. With fewer ghost cells the source indexes past the array or wraps to negative indices.
- `riemann_adiabatic` assumes ng >= 2, and `emf` assumes ng >= 3.
  - For the negative index that `emf` reads at the first slope row, the model follows NumPy and reads the last entry (`Prev`).
- `Eref` is modelled only as a 2-D array that broadcasts to the grid: 1 or qx rows, 1 or qy columns.
- `sources` loops over [1, q-1) whatever ng is. In the y sweep it also divides by the `dx` argument, as written.
- Arguments a kernel never reads are handled in one of two ways.
  - For `states`, `dx`, `dt`, `irho`, `iu`, `iv`, `ip`, `ix`, `nspec`, `gamma`, `Bx` and `By` are not parameters of its model; only `ibx`/`iby` among the slots are read.
  - For `riemann_adiabatic`, `lower_solid` and `upper_solid` are not parameters of its model.
  - For `sources`, the `idens`, `iener` and `irhoX` slots are carried in its `lay` argument but neither constrained nor read.
  - For `emf`, the `iener` and `irhoX` slots are carried in its `lay` argument but neither constrained nor read.
- Slot indices are taken as non-negative and inside the state vector wherever a kernel reads or writes them. A negative index, which NumPy would count from the end, is not modelled.
  - `Flux` and `Riemann` ask this of all six named slots (`Layout.InBounds`), since `consFlux` and the Roe average read every one of them.
  - `states` asks it only of the field slot along the sweep: `ibx` when idir == 1, `iby` otherwise.
  - `sources` asks it only of the momentum and field slots, and only when its loop runs.
  - `emf` asks it of the density and field slots, and of the momenta when the EMF comes from U.
- Emf.EmfInput.Valid: asks for the density slot to be in range even when `use_ref` is set and the corner loop is empty, the one case where `emf` does not read it.
- The just-in-time compilation decorators are not modelled: they change nothing in the results.
- The commented-out `artificial_viscosity` is not modelled, because it is dead code.
- The problem-setup module `pyro/burgers/problems/smooth.py` is not modelled. It fills arrays with exponentials and handles I/O, and contains no kernel logic.
- The x/y mirror symmetry of `consFlux` is not proved.
