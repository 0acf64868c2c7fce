/**
 * `Magnitude` (src/magnitude.rs): an amount in the base unit of its
 * dimension, independent of the unit it was written in.
 */
module Magnitudes {
  import opened Rationals
  import opened Dimensions

  datatype Magnitude =
    | Single(baseValue: Rat, dimension: Dimension)
    | Range(fromBaseValue: Rat, toBaseValue: Rat, dimension: Dimension)

  /** `Magnitude::single`. */
  function NewSingle(baseValue: Rat, dimension: Dimension): (m: Magnitude)
    ensures m.Single? && m.baseValue == baseValue && m.dimension == dimension
  {
    Single(baseValue, dimension)
  }

  /** `Magnitude::range`. */
  function NewRange(fromBaseValue: Rat, toBaseValue: Rat, dimension: Dimension): (m: Magnitude)
    ensures m.Range? && m.fromBaseValue == fromBaseValue && m.toBaseValue == toBaseValue
    ensures m.dimension == dimension
  {
    Range(fromBaseValue, toBaseValue, dimension)
  }

  /** `Mul<Rational32>`: every base value times k; the variant and the dimension stay. */
  function Scale(m: Magnitude, k: Rat): (r: Magnitude)
    ensures r.Single? == m.Single? && r.dimension == m.dimension
    ensures r.Single? ==> Val(r.baseValue) == Val(m.baseValue) * Val(k)
    ensures r.Range? ==> Val(r.fromBaseValue) == Val(m.fromBaseValue) * Val(k)
    ensures r.Range? ==> Val(r.toBaseValue) == Val(m.toBaseValue) * Val(k)
  {
    match m
    case Single(b, d) => Single(Mul(b, k), d)
    case Range(f, t, d) => Range(Mul(f, k), Mul(t, k), d)
  }

  /** Scaling by one changes nothing. */
  lemma ScaleByOne(m: Magnitude)
    ensures Scale(m, One()) == m
  {
    match m
    case Single(b, _) =>
      MulOne(b);
    case Range(f, t, _) =>
      MulOne(f);
      MulOne(t);
  }
}

/**
 * The parts of src/magnitude.rs that go back from a magnitude to measures:
 * `measure(unit)`, the best-measure search and `From<Measure>`.
 */
module MagnitudeMeasures {
  import opened Wrappers
  import opened Rationals
  import opened Dimensions
  import opened Units
  import opened Measures
  import M = Magnitudes
  import VolumeUnits

  /** `Magnitude::measure`: the magnitude written in the given unit. */
  function MeasureIn(mag: M.Magnitude, unit: Unit): (m: Measure)
    ensures mag.Single? ==> m.Single? && m.single.unit == unit && BaseValue(m.single) == mag.baseValue
    ensures mag.Range? ==> m.Range? && m.range.from.unit == unit && m.range.to.unit == unit
    ensures mag.Range? ==> BaseValue(m.range.from) == mag.fromBaseValue && BaseValue(m.range.to) == mag.toBaseValue
  {
    match mag
    case Single(b, _) => Single(SingleFromBase(b, unit))
    case Range(f, t, _) => Range(RangeFromBase(f, unit, t, unit))
  }

  /** `From<Measure> for Magnitude`. */
  function FromMeasure(m: Measure): (mag: M.Magnitude)
    requires m.Multi? ==> |m.multi.measures| > 0
    ensures mag.dimension == MeasureDimension(m)
    ensures mag.Range? <==> m.Range?
  {
    MeasureMagnitude(m)
  }

  /** Writing a magnitude in a unit of its own dimension and taking the magnitude again gives it back. */
  lemma MeasureInRoundTrip(mag: M.Magnitude, unit: Unit)
    requires DimensionOf(unit) == mag.dimension
    ensures FromMeasure(MeasureIn(mag, unit)) == mag
  {
  }

  /**
   * `Magnitude::best_measures`. Only the `Range` arm is implemented in the
   * source, and it yields no measures; the `Single` arm is `todo!()`.
   */
  function BestMeasures(mag: M.Magnitude): (ms: seq<Measure>)
    requires mag.Range?
    ensures ms == []
  {
    []
  }

  /** `Magnitude::best_measure`: the first of the best measures, if any. */
  function BestMeasure(mag: M.Magnitude): (m: Option<Measure>)
    requires mag.Range?
    ensures m.Some? <==> |BestMeasures(mag)| > 0
    ensures m.Some? ==> m.value == BestMeasures(mag)[0]
  {
    First(BestMeasures(mag))
  }

  /** `Iterator::next` on a fresh iterator over s. */
  function First<T>(s: seq<T>): Option<T>
  {
    if |s| == 0 then None else Some(s[0])
  }

  /** The volume ladder of the source's tests, as exact equalities of magnitudes. */
  lemma VolumeLadder()
    ensures FromMeasure(Single(SingleMeasure(One(), Volume(VolumeUnits.Drop))))
         == FromMeasure(Single(SingleMeasure(New(1, 96), Volume(VolumeUnits.Teaspoon))))
    ensures FromMeasure(Single(SingleMeasure(One(), Volume(VolumeUnits.Smidgen))))
         == FromMeasure(Single(SingleMeasure(New(1, 32), Volume(VolumeUnits.Teaspoon))))
    ensures FromMeasure(Single(SingleMeasure(One(), Volume(VolumeUnits.Pinch))))
         == FromMeasure(Single(SingleMeasure(New(1, 16), Volume(VolumeUnits.Teaspoon))))
    ensures FromMeasure(Single(SingleMeasure(One(), Volume(VolumeUnits.Dash))))
         == FromMeasure(Single(SingleMeasure(New(1, 8), Volume(VolumeUnits.Teaspoon))))
    ensures FromMeasure(Single(SingleMeasure(One(), Volume(VolumeUnits.Teaspoon))))
         == FromMeasure(Single(SingleMeasure(New(1, 3), Volume(VolumeUnits.Tablespoon))))
    ensures FromMeasure(Single(SingleMeasure(One(), Volume(VolumeUnits.Tablespoon))))
         == FromMeasure(Single(SingleMeasure(New(1, 16), Volume(VolumeUnits.Cup))))
    ensures FromMeasure(Single(SingleMeasure(One(), Volume(VolumeUnits.Cup))))
         == FromMeasure(Single(SingleMeasure(New(1, 2), Volume(VolumeUnits.Pint))))
    ensures FromMeasure(Single(SingleMeasure(One(), Volume(VolumeUnits.Pint))))
         == FromMeasure(Single(SingleMeasure(New(1, 2), Volume(VolumeUnits.Quart))))
    ensures FromMeasure(Single(SingleMeasure(One(), Volume(VolumeUnits.Quart))))
         == FromMeasure(Single(SingleMeasure(New(1, 4), Volume(VolumeUnits.Gallon))))
  {
    Rung(VolumeUnits.Drop, VolumeUnits.Teaspoon, 96);
    Rung(VolumeUnits.Smidgen, VolumeUnits.Teaspoon, 32);
    Rung(VolumeUnits.Pinch, VolumeUnits.Teaspoon, 16);
    Rung(VolumeUnits.Dash, VolumeUnits.Teaspoon, 8);
    Rung(VolumeUnits.Teaspoon, VolumeUnits.Tablespoon, 3);
    Rung(VolumeUnits.Tablespoon, VolumeUnits.Cup, 16);
    Rung(VolumeUnits.Cup, VolumeUnits.Pint, 2);
    Rung(VolumeUnits.Pint, VolumeUnits.Quart, 2);
    Rung(VolumeUnits.Quart, VolumeUnits.Gallon, 4);
  }

  /** When v holds d of u, one u is the same magnitude as 1/d of a v. */
  lemma Rung(u: VolumeUnits.VolumeUnit, v: VolumeUnits.VolumeUnit, d: int)
    requires d >= 1 && VolumeUnits.Drops(v) == d * VolumeUnits.Drops(u)
    ensures FromMeasure(Single(SingleMeasure(One(), Volume(u))))
         == FromMeasure(Single(SingleMeasure(New(1, d), Volume(v))))
  {
    var x := SingleMeasure(One(), Volume(u));
    var y := SingleMeasure(New(1, d), Volume(v));
    var du, dv := VolumeUnits.Drops(u) as real, VolumeUnits.Drops(v) as real;
    assert Val(Multiple(x.unit)) == du;
    assert Val(Multiple(y.unit)) == dv;
    assert dv == d as real * du;
    assert (1.0 / d as real) * (d as real * du) == du;
    SameBase(x, y);
  }

  lemma SameBase(x: SingleMeasure, y: SingleMeasure)
    requires Val(x.value) * Val(Multiple(x.unit)) == Val(y.value) * Val(Multiple(y.unit))
    ensures BaseValue(x) == BaseValue(y)
  {
    ReducedUnique(BaseValue(x), BaseValue(y));
  }
}
