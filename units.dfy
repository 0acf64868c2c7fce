/**
 * `Unit` and `UnitLike` (src/units/mod.rs): the closed sum of unit kinds,
 * the dispatch of the unit tables to the payload, base-value conversion and
 * the list of units the unit parser searches.
 */
module Units {
  import opened Rationals
  import opened Dimensions
  import VolumeUnits
  import TemperatureUnits
  import UnitlessUnits

  datatype Unit =
    | Volume(volume: VolumeUnits.VolumeUnit)
    | Temperature(temperature: TemperatureUnits.TemperatureUnit)
    | Unitless(unitless: UnitlessUnits.Unitless)

  /** `CommonUnit`: a unit together with the fractions of it recipes commonly use. */
  datatype CommonUnit = CommonUnit(unit: Unit, fractions: seq<Rat>)

  /** `UnitLike::dimension`. */
  function DimensionOf(u: Unit): (d: Dimension)
    ensures d == VolumeDimension <==> u.Volume?
    ensures d == TemperatureDimension <==> u.Temperature?
    ensures d == UnitlessDimension <==> u.Unitless?
  {
    match u
    case Volume(_) => VolumeDimension
    case Temperature(_) => TemperatureDimension
    case Unitless(_) => UnitlessDimension
  }

  /** `UnitLike::multiple`: how many base units one of u is; always a positive whole number. */
  function Multiple(u: Unit): (m: Rat)
    ensures IsInteger(m) && m.numer >= 1
    ensures Val(m) == m.numer as real
  {
    match u
    case Volume(v) => VolumeUnits.Multiple(v)
    case Temperature(t) => TemperatureUnits.Multiple(t)
    case Unitless(w) => UnitlessUnits.Multiple(w)
  }

  function Abbreviation(u: Unit): string
  {
    match u
    case Volume(v) => VolumeUnits.Abbreviation(v)
    case Temperature(t) => TemperatureUnits.Abbreviation(t)
    case Unitless(w) => UnitlessUnits.Abbreviation(w)
  }

  function Description(u: Unit, plural: bool): string
  {
    match u
    case Volume(v) => VolumeUnits.Description(v, plural)
    case Temperature(t) => TemperatureUnits.Description(t, plural)
    case Unitless(w) => UnitlessUnits.Description(w, plural)
  }

  function Aliases(u: Unit): seq<string>
  {
    match u
    case Volume(v) => VolumeUnits.Aliases(v)
    case Temperature(t) => TemperatureUnits.Aliases(t)
    case Unitless(w) => UnitlessUnits.Aliases(w)
  }

  /** A unit has no aliases exactly when it is unitless; otherwise they start with the name and the plural and end with the abbreviation. */
  lemma AliasesShape(u: Unit)
    ensures Aliases(u) == [] <==> u.Unitless?
    ensures !u.Unitless? ==>
      && |Aliases(u)| >= 3 && Aliases(u)[0] == Description(u, false)
      && Aliases(u)[1] == Description(u, true) && Aliases(u)[|Aliases(u)| - 1] == Abbreviation(u)
  {
  }

  /** `UnitLike::value_to_base`: a value in u expressed in base units. */
  function ValueToBase(u: Unit, value: Rat): (b: Rat)
    ensures Val(b) == Val(value) * Val(Multiple(u))
  {
    Mul(value, Multiple(u))
  }

  /** `UnitLike::value_from_base`: a base-unit value expressed in u. */
  function ValueFromBase(u: Unit, baseValue: Rat): (v: Rat)
    ensures Val(v) * Val(Multiple(u)) == Val(baseValue)
  {
    var v := Div(baseValue, Multiple(u));
    CancelFactor(Val(baseValue), Val(Multiple(u)));
    v
  }

  /** Converting to base units and back gives the value again. */
  lemma FromBaseOfToBase(u: Unit, value: Rat)
    ensures ValueFromBase(u, ValueToBase(u, value)) == value
  {
    var m := Val(Multiple(u));
    var b := Val(ValueToBase(u, value));
    var v := Val(ValueFromBase(u, ValueToBase(u, value)));
    assert v * m == Val(value) * m;
    ReducedUnique(ValueFromBase(u, ValueToBase(u, value)), value);
  }

  /** Expressing a base value in u and converting back gives the base value again. */
  lemma ToBaseOfFromBase(u: Unit, baseValue: Rat)
    ensures ValueToBase(u, ValueFromBase(u, baseValue)) == baseValue
  {
    ReducedUnique(ValueToBase(u, ValueFromBase(u, baseValue)), baseValue);
  }

  /** A value in u, converted into w and back into u, is unchanged. */
  lemma ConvertThroughOtherUnit(u: Unit, w: Unit, value: Rat)
    ensures ValueFromBase(u, ValueToBase(w, ValueFromBase(w, ValueToBase(u, value)))) == value
  {
    ToBaseOfFromBase(w, ValueToBase(u, value));
    FromBaseOfToBase(u, value);
  }

  /** `volume::UNITS`: the volume units in declaration order. */
  function VolumeUnitList(): (us: seq<Unit>)
    ensures |us| == |VolumeUnits.All()|
    ensures forall i :: 0 <= i < |us| ==> us[i] == Volume(VolumeUnits.All()[i])
  {
    seq(|VolumeUnits.All()|, i requires 0 <= i < |VolumeUnits.All()| => Volume(VolumeUnits.All()[i]))
  }

  /** `temperature::UNITS`: Fahrenheit, then Celsius. */
  function TemperatureUnitList(): (us: seq<Unit>)
    ensures |us| == |TemperatureUnits.All()|
    ensures forall i :: 0 <= i < |us| ==> us[i] == Temperature(TemperatureUnits.All()[i])
  {
    seq(|TemperatureUnits.All()|, i requires 0 <= i < |TemperatureUnits.All()| => Temperature(TemperatureUnits.All()[i]))
  }

  /** `UNITFUL_UNITS`: the volume units, then the temperature units, in their declaration orders. */
  function UnitfulUnits(): (us: seq<Unit>)
    ensures |us| == 12
    ensures forall i :: 0 <= i < 10 ==> us[i] == Volume(VolumeUnits.All()[i])
    ensures forall i :: 10 <= i < 12 ==> us[i] == Temperature(TemperatureUnits.All()[i - 10])
  {
    VolumeUnitList() + TemperatureUnitList()
  }

  /** The unit parser searches every volume and temperature unit, and never a unitless one. */
  lemma UnitfulUnitsComplete(u: Unit)
    ensures u in UnitfulUnits() <==> !u.Unitless?
  {
    match u
    case Volume(v) =>
      VolumeUnits.AllListsEveryUnit(v);
      var i :| 0 <= i < 10 && VolumeUnits.All()[i] == v;
      assert UnitfulUnits()[i] == u;
    case Temperature(t) =>
      TemperatureUnits.AllListsEveryUnit(t);
      var i :| 0 <= i < 2 && TemperatureUnits.All()[i] == t;
      assert UnitfulUnits()[10 + i] == u;
    case Unitless(_) =>
  }
}
