/** `Dimension` (src/dimension.rs): what kind of quantity a unit measures. */
module Dimensions {
  /** The three variants; equality is equality of the variant. */
  datatype Dimension = VolumeDimension | TemperatureDimension | UnitlessDimension
}

/** `DimensionLike` (src/dimension.rs): the unit tables each dimension dispatches to. */
module DimensionTables {
  import opened Rationals
  import opened Dimensions
  import opened Units
  import VolumeUnits
  import TemperatureUnits

  /** `DimensionLike::units`: the `UNITS` list of the dimension's module. */
  function UnitsOf(d: Dimension): (us: seq<Unit>)
    ensures forall i :: 0 <= i < |us| ==> DimensionOf(us[i]) == d
  {
    match d
    case VolumeDimension => VolumeUnitList()
    case TemperatureDimension => TemperatureUnitList()
    case UnitlessDimension => []
  }

  /** `DimensionLike::common_units`: the `COMMON_UNITS` list of the dimension's module. */
  function CommonUnitsOf(d: Dimension): (cs: seq<CommonUnit>)
    ensures forall i :: 0 <= i < |cs| ==> DimensionOf(cs[i].unit) == d
  {
    match d
    case VolumeDimension => VolumeCommonUnits()
    case TemperatureDimension => []
    case UnitlessDimension => []
  }

  /** `volume::COMMON_UNITS`: the volume units recipes use, with the fractions they are read in. */
  function VolumeCommonUnits(): seq<CommonUnit>
  {
    [ CommonUnit(Volume(VolumeUnits.Teaspoon), [New(1, 8)]),
      CommonUnit(Volume(VolumeUnits.Tablespoon), [New(1, 2)]),
      CommonUnit(Volume(VolumeUnits.Cup), [New(1, 4), New(1, 3)]) ]
  }

  /** `From<U: UnitLike> for Dimension`. */
  function FromUnit(u: Unit): (d: Dimension)
    ensures u in UnitsOf(d) <==> !u.Unitless?
  {
    UnitListsComplete(u);
    DimensionOf(u)
  }

  /** Every unitful unit is listed under its own dimension, and no unitless one is. */
  lemma UnitListsComplete(u: Unit)
    ensures u in UnitsOf(DimensionOf(u)) <==> !u.Unitless?
  {
    match u
    case Volume(v) =>
      VolumeUnits.AllListsEveryUnit(v);
      var i :| 0 <= i < |VolumeUnits.All()| && VolumeUnits.All()[i] == v;
      assert VolumeUnitList()[i] == u;
    case Temperature(t) =>
      TemperatureUnits.AllListsEveryUnit(t);
      var i :| 0 <= i < |TemperatureUnits.All()| && TemperatureUnits.All()[i] == t;
      assert TemperatureUnitList()[i] == u;
    case Unitless(_) =>
  }

  /** Only volume has common units: Teaspoon (1/8), Tablespoon (1/2) and Cup (1/4, 1/3). */
  lemma CommonUnitsTable()
    ensures |CommonUnitsOf(VolumeDimension)| == 3
    ensures CommonUnitsOf(VolumeDimension)[0].unit == Volume(VolumeUnits.Teaspoon)
    ensures Val(CommonUnitsOf(VolumeDimension)[0].fractions[0]) == 0.125
    ensures CommonUnitsOf(VolumeDimension)[1].unit == Volume(VolumeUnits.Tablespoon)
    ensures Val(CommonUnitsOf(VolumeDimension)[1].fractions[0]) == 0.5
    ensures CommonUnitsOf(VolumeDimension)[2].unit == Volume(VolumeUnits.Cup)
    ensures Val(CommonUnitsOf(VolumeDimension)[2].fractions[0]) == 0.25
    ensures 3.0 * Val(CommonUnitsOf(VolumeDimension)[2].fractions[1]) == 1.0
    ensures CommonUnitsOf(TemperatureDimension) == [] && CommonUnitsOf(UnitlessDimension) == []
  {
  }
}
