/** `TemperatureUnit` (src/units/temperature.rs), with the tables the unit macro generates. */
module TemperatureUnits {
  import opened Rationals

  datatype TemperatureUnit = Fahrenheit | Celsius

  /** `TemperatureUnit::all()`: Fahrenheit first, as the source prefers it. */
  function All(): (all: seq<TemperatureUnit>)
    ensures |all| == 2 && all[0] != all[1]
  {
    [Fahrenheit, Celsius]
  }

  lemma AllListsEveryUnit(u: TemperatureUnit)
    ensures u in All()
  {
  }

  /** `UnitLike::multiple`: one for both scales (the offset between them is not modelled by the source). */
  function Multiple(u: TemperatureUnit): (m: Rat)
    ensures m == One()
  {
    match u
    case Fahrenheit => FromInteger(1)
    case Celsius => FromInteger(1)
  }

  function Description(u: TemperatureUnit, plural: bool): string
  {
    match u
    case Fahrenheit => "fahrenheit"
    case Celsius => "celsius"
  }

  function Abbreviation(u: TemperatureUnit): string
  {
    match u
    case Fahrenheit => "F"
    case Celsius => "C"
  }

  function ExtraAliases(u: TemperatureUnit): seq<string>
  {
    match u
    case Fahrenheit => ["degrees", "°F"]
    case Celsius => ["°C"]
  }

  /** `ALIASES`: the name, the plural, the further aliases, then the abbreviation. */
  function Aliases(u: TemperatureUnit): (a: seq<string>)
    ensures |a| >= 3 && a[0] == Description(u, false) && a[1] == Description(u, true)
    ensures a[|a| - 1] == Abbreviation(u)
  {
    [Description(u, false), Description(u, true)] + ExtraAliases(u) + [Abbreviation(u)]
  }

  lemma AliasExamples()
    ensures Aliases(Fahrenheit) == ["fahrenheit", "fahrenheit", "degrees", "°F", "F"]
    ensures Aliases(Celsius) == ["celsius", "celsius", "°C", "C"]
  {
  }
}
