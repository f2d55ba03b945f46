/** Chemical element tags and the covalent-radius table used by the bond heuristics. */
module Elements {
  import opened Wrappers

  /** The element enumeration of molecule.h (atomic numbers 1 to 17). */
  datatype Element = H | He | Li | Be | B | C | N | O | F | Ne | Na | Mg | Al | Si | P | S | Cl

  /** The failure `atomBondAvgRadius` throws for an element without a tabulated radius. */
  datatype RadiusError = UnknownElement(elt: Element)

  /** The five elements that take part in bond-distance heuristics. */
  predicate Tabulated(e: Element) {
    e in {H, C, N, O, S}
  }

  /** Average covalent bond radius in angstroms (after Heyrovska); any other element is an error. */
  function AtomBondAvgRadius(e: Element): (r: Result<real, RadiusError>)
    ensures r.Ok? <==> Tabulated(e)
    ensures r.Err? ==> r.error == UnknownElement(e)
    ensures r.Ok? ==> 0.37 <= r.value <= 1.04
  {
    if e == H then Ok(0.37)
    else if e == C then Ok(0.70)
    else if e == O then Ok(0.63)
    else if e == N then Ok(0.66)
    else if e == S then Ok(1.04)
    else Err(UnknownElement(e))
  }

  /**
    * Expected bond length between two elements: 2 * 0.37 for H-H, otherwise the sum of the two
    * radii. The left radius is looked up first, so its error is the one reported when both fail.
    */
  function AtomBondAvgDistance(e1: Element, e2: Element): (r: Result<real, RadiusError>)
    ensures r.Ok? <==> Tabulated(e1) && Tabulated(e2)
    ensures r.Err? ==> r.error == UnknownElement(if Tabulated(e1) then e2 else e1)
    ensures r.Ok? ==> r.value == AtomBondAvgRadius(e1).value + AtomBondAvgRadius(e2).value
  {
    if e1 == H && e2 == H then Ok(2.0 * 0.37)
    else match AtomBondAvgRadius(e1)
      case Err(err) => Err(err)
      case Ok(r1) =>
        match AtomBondAvgRadius(e2)
        case Err(err) => Err(err)
        case Ok(r2) => Ok(r1 + r2)
  }

  /** The expected bond length does not depend on the order of the two elements. */
  lemma AvgDistanceSymmetric(e1: Element, e2: Element)
    requires Tabulated(e1) && Tabulated(e2)
    ensures AtomBondAvgDistance(e1, e2) == AtomBondAvgDistance(e2, e1)
  {
  }
}
