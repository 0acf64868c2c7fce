/** `VolumeUnit` (src/units/volume.rs), with the tables the unit macro (src/utils.rs) generates. */
module VolumeUnits {
  import opened Rationals

  datatype VolumeUnit = Drop | Smidgen | Pinch | Dash | Teaspoon | Tablespoon | Cup | Pint | Quart | Gallon

  /** `VolumeUnit::all()`: the units in declaration order. */
  function All(): (all: seq<VolumeUnit>)
    ensures |all| == 10
    ensures forall i, j :: 0 <= i < j < |all| ==> all[i] != all[j]
  {
    [Drop, Smidgen, Pinch, Dash, Teaspoon, Tablespoon, Cup, Pint, Quart, Gallon]
  }

  lemma AllListsEveryUnit(u: VolumeUnit)
    ensures u in All()
  {
  }

  /** How many drops (the base volume) one of the unit holds. */
  function Drops(u: VolumeUnit): nat
  {
    match u
    case Drop => 1
    case Smidgen => 3
    case Pinch => 6
    case Dash => 12
    case Teaspoon => 96
    case Tablespoon => 288
    case Cup => 4_608
    case Pint => 9_216
    case Quart => 18_432
    case Gallon => 73_728
  }

  /** `UnitLike::multiple`: a positive whole number of drops. */
  function Multiple(u: VolumeUnit): (m: Rat)
    ensures IsInteger(m) && m.numer >= 1
  {
    FromInteger(Drops(u))
  }

  /** Declaration order runs from the smallest unit to the largest. */
  lemma MultiplesIncrease(i: nat, j: nat)
    requires i < j < |All()|
    ensures Val(Multiple(All()[i])) < Val(Multiple(All()[j]))
  {
  }

  /** `DESCRIPTION` (the unit's module name) or `DESCRIPTION_PLURAL`. */
  function Description(u: VolumeUnit, plural: bool): string
  {
    match u
    case Drop => if plural then "drops" else "drop"
    case Smidgen => if plural then "smidgens" else "smidgen"
    case Pinch => if plural then "pinches" else "pinch"
    case Dash => if plural then "dashes" else "dash"
    case Teaspoon => if plural then "teaspoons" else "teaspoon"
    case Tablespoon => if plural then "tablespoons" else "tablespoon"
    case Cup => if plural then "cups" else "cup"
    case Pint => if plural then "pints" else "pint"
    case Quart => if plural then "quarts" else "quart"
    case Gallon => if plural then "gallons" else "gallon"
  }

  /** `ABBREVIATION`: the literal after the plural in the unit table. */
  function Abbreviation(u: VolumeUnit): string
  {
    match u
    case Drop => "dr"
    case Smidgen => "smdg"
    case Pinch => "pn"
    case Dash => "ds"
    case Teaspoon => "tsp"
    case Tablespoon => "tbsp"
    case Cup => "C"
    case Pint => "pt"
    case Quart => "qt"
    case Gallon => "gal"
  }

  /** The further aliases listed after the abbreviation in the unit table. */
  function ExtraAliases(u: VolumeUnit): seq<string>
  {
    match u
    case Drop => ["gt", "gtt"]
    case Smidgen => ["smi"]
    case Pinch => []
    case Dash => []
    case Teaspoon => ["t"]
    case Tablespoon => ["Tb", "T"]
    case Cup => ["c"]
    case Pint => []
    case Quart => []
    case Gallon => []
  }

  /**
   * `ALIASES`: the name, the plural, the further aliases, then the
   * abbreviation, in that order (src/utils.rs:84-90).
   */
  function Aliases(u: VolumeUnit): (a: seq<string>)
    ensures |a| >= 3 && a[0] == Description(u, false) && a[1] == Description(u, true)
    ensures a[|a| - 1] == Abbreviation(u)
  {
    [Description(u, false), Description(u, true)] + ExtraAliases(u) + [Abbreviation(u)]
  }

  /** The alias lists of the three units recipes use most. */
  lemma AliasExamples()
    ensures Aliases(Teaspoon) == ["teaspoon", "teaspoons", "t", "tsp"]
    ensures Aliases(Tablespoon) == ["tablespoon", "tablespoons", "Tb", "T", "tbsp"]
    ensures Aliases(Cup) == ["cup", "cups", "c", "C"]
  {
  }
}
