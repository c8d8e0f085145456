/** The variable layout: the slots of the conservative state vector that
    every kernel receives as separate integer parameters (idens, ixmom,
    iymom, iener, ixmag, iymag, irhoX and the species count). */
module VariableLayout {

  datatype Layout = Layout(idens: int, ixmom: int, iymom: int, iener: int,
                           ixmag: int, iymag: int, irhoX: int, nspec: nat)
  {
    /** Every named slot indexes a state vector of length n, and the species
        block starts at a non-negative slot (a negative start would make the
        NumPy slices count from the end). */
    predicate InBounds(n: int)
    {
      && 0 <= idens < n && 0 <= ixmom < n && 0 <= iymom < n
      && 0 <= iener < n && 0 <= ixmag < n && 0 <= iymag < n
      && 0 <= irhoX
    }

    /** A layout proper: the six named slots are pairwise distinct, and the
        species block irhoX .. irhoX+nspec-1 follows all of them inside the
        vector. */
    predicate Distinct(n: int)
    {
      && InBounds(n)
      && idens != ixmom && idens != iymom && idens != iener && idens != ixmag && idens != iymag
      && ixmom != iymom && ixmom != iener && ixmom != ixmag && ixmom != iymag
      && iymom != iener && iymom != ixmag && iymom != iymag
      && iener != ixmag && iener != iymag
      && ixmag != iymag
      && idens < irhoX && ixmom < irhoX && iymom < irhoX && iener < irhoX
      && ixmag < irhoX && iymag < irhoX
      && irhoX + nspec <= n
    }

    /** The two momentum slots index a state vector of length n. */
    predicate MomentaIn(n: int)
    {
      0 <= ixmom < n && 0 <= iymom < n
    }

    /** The two field slots index a state vector of length n. */
    predicate FieldIn(n: int)
    {
      0 <= ixmag < n && 0 <= iymag < n
    }

    /** Slot of the momentum along the sweep (idir == 1 is x, anything else y). */
    function NormalMomentum(idir: int): int
    {
      if idir == 1 then ixmom else iymom
    }

    /** Slot of the momentum across the sweep. */
    function TransverseMomentum(idir: int): int
    {
      if idir == 1 then iymom else ixmom
    }

    /** Slot of the magnetic field component along the sweep. */
    function NormalField(idir: int): int
    {
      if idir == 1 then ixmag else iymag
    }
  }

  /** The layout the solver uses: density, two momenta, energy, two field
      components, then the species partial densities. */
  function StandardLayout(nspec: nat): (lay: Layout)
    ensures lay.Distinct(6 + nspec)
  {
    Layout(0, 1, 2, 3, 4, 5, 6, nspec)
  }
}
