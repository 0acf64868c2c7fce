/** `Unitless` (src/units/unitless.rs): a unit known only by the word written after a number. */
module UnitlessUnits {
  import opened Rationals

  datatype Unitless = Unitless(unit: string)

  /** `Unitless::new`: stores the word as the unit's name. */
  function New(unit: string): (u: Unitless)
    ensures Abbreviation(u) == unit && Description(u, true) == unit && Description(u, false) == unit
  {
    Unitless(unit)
  }

  function Multiple(u: Unitless): (m: Rat)
    ensures m == One()
  {
    FromInteger(1)
  }

  /** Both the abbreviation and the description are the stored name. */
  function Abbreviation(u: Unitless): string
  {
    u.unit
  }

  function Description(u: Unitless, plural: bool): string
  {
    u.unit
  }

  /** A unitless unit has no aliases, so the unit parser never resolves a word to one by alias. */
  function Aliases(u: Unitless): (a: seq<string>)
    ensures a == []
  {
    []
  }
}
