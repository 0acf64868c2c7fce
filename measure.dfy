/**
 * Measures (src/measure.rs): a value in a unit, a sum of such values, or a
 * range between two of them, and their magnitudes in base units.
 */
module Measures {
  import opened Rationals
  import opened Text
  import opened Dimensions
  import opened Units
  import M = Magnitudes
  import VolumeUnits

  datatype SingleMeasure = SingleMeasure(value: Rat, unit: Unit)

  datatype MultiMeasure = MultiMeasure(measures: seq<SingleMeasure>)

  datatype RangeMeasure = RangeMeasure(from: SingleMeasure, to: SingleMeasure)

  datatype Measure =
    | Single(single: SingleMeasure)
    | Multi(multi: MultiMeasure)
    | Range(range: RangeMeasure)

  /** `SingleMeasure::base_value`: the value in base units. */
  function BaseValue(m: SingleMeasure): (b: Rat)
    ensures Val(b) == Val(m.value) * Val(Multiple(m.unit))
  {
    ValueToBase(m.unit, m.value)
  }

  /** `SingleMeasure::from_base`: the measure in `unit` whose base value is `baseValue`. */
  function SingleFromBase(baseValue: Rat, unit: Unit): (m: SingleMeasure)
    ensures m.unit == unit && BaseValue(m) == baseValue
  {
    ToBaseOfFromBase(unit, baseValue);
    SingleMeasure(ValueFromBase(unit, baseValue), unit)
  }

  /** A measure is recovered from its base value and its unit. */
  lemma FromBaseOfBaseValue(m: SingleMeasure)
    ensures SingleFromBase(BaseValue(m), m.unit) == m
  {
    FromBaseOfToBase(m.unit, m.value);
  }

  /** `COMMON_FRACTIONS`: 1/8 and 1/3. */
  function CommonFractions(): (fs: seq<Rat>)
    ensures forall f :: f in fs ==> f.numer != 0
    ensures |fs| == 2 && Val(fs[0]) == 1.0 / 8.0 && Val(fs[1]) == 1.0 / 3.0
  {
    [New(1, 8), New(1, 3)]
  }

  /** `SingleMeasure::is_good`: non-zero, and whole or a whole number of some common fraction. */
  predicate IsGood(m: SingleMeasure)
  {
    m.value != Zero()
    && (IsInteger(m.value) || exists f :: f in CommonFractions() && IsInteger(Div(m.value, f)))
  }

  /** `is_good` in terms of the value: non-zero, and v, 8v or 3v is whole. */
  lemma IsGoodIff(m: SingleMeasure)
    ensures IsGood(m) <==> (Val(m.value) != 0.0
      && (IsIntegral(Val(m.value)) || IsIntegral(Val(m.value) * 8.0) || IsIntegral(Val(m.value) * 3.0)))
  {
    var v := m.value;
    var fs := CommonFractions();
    IsIntegerIff(v);
    IsIntegerIff(Div(v, fs[0]));
    IsIntegerIff(Div(v, fs[1]));
    assert Val(Div(v, fs[0])) == Val(v) * 8.0;
    assert Val(Div(v, fs[1])) == Val(v) * 3.0;
    assert v == Zero() <==> Val(v) == 0.0 by {
      if Val(v) == 0.0 {
        ReducedUnique(v, Zero());
      }
    }
  }

  /** `MeasureLike::dimension` of a single measure: that of its unit. */
  function SingleDimension(m: SingleMeasure): Dimension
  {
    DimensionOf(m.unit)
  }

  /** `MeasureLike::magnitude` of a single measure. */
  function SingleMagnitude(m: SingleMeasure): (mag: M.Magnitude)
    ensures mag.Single? && mag.dimension == DimensionOf(m.unit)
    ensures Val(mag.baseValue) == Val(m.value) * Val(Multiple(m.unit))
  {
    M.NewSingle(BaseValue(m), SingleDimension(m))
  }

  /** The unit as `Display` writes it: the abbreviation, or in alternate mode the description. */
  function UnitLabel(m: SingleMeasure, alternate: bool): string
  {
    if !alternate then Abbreviation(m.unit) else Description(m.unit, Val(m.value) > 1.0)
  }

  /**
   * `Display for SingleMeasure`: "n u" for a whole value, "w p/q u" with
   * the reduced fractional part for a value above one, otherwise "p/q u".
   */
  function Display(m: SingleMeasure, alternate: bool): string
  {
    var u := UnitLabel(m, alternate);
    var v := m.value;
    if IsInteger(v) then
      IntToString(v.numer) + " " + u
    else if Val(v) > 1.0 then
      IntToString(Trunc(v)) + " " + IntToString(Fract(v).numer) + "/" + IntToString(Fract(v).denom) + " " + u
    else
      IntToString(v.numer) + "/" + IntToString(v.denom) + " " + u
  }

  /** Whatever the number's form, the text ends with a space and the unit label, after a non-empty number. */
  lemma DisplayEndsWithUnitLabel(m: SingleMeasure, alternate: bool)
    ensures var d, u := Display(m, alternate), UnitLabel(m, alternate);
      |d| > |u| + 1 && d[|d| - |u| - 1..] == " " + u
  {
    var u, v := UnitLabel(m, alternate), m.value;
    var number: string;
    if IsInteger(v) {
      number := IntToString(v.numer);
    } else if Val(v) > 1.0 {
      number := IntToString(Trunc(v)) + " " + IntToString(Fract(v).numer) + "/" + IntToString(Fract(v).denom);
    } else {
      number := IntToString(v.numer) + "/" + IntToString(v.denom);
    }
    assert Display(m, alternate) == number + (" " + u);
    EndsWith(number, " " + u);
  }

  /** A non-empty text followed by t ends with t. */
  lemma EndsWith(h: string, t: string)
    requires |h| >= 1
    ensures |h + t| > |t| && (h + t)[|h + t| - |t|..] == t
  {
  }

  /** The parts of a mixed number: a whole part, and a proper fraction that adds up to the value. */
  lemma MixedNumberParts(v: Rat)
    requires !IsInteger(v) && Val(v) > 1.0
    ensures Trunc(v) >= 1
    ensures 0 < Fract(v).numer < Fract(v).denom
    ensures Val(v) == Trunc(v) as real + Val(Fract(v))
  {
    ValSign(v);
    TruncSplit(v);
    WholeIsIntegral(Trunc(v));
    IsIntegerIff(v);
    assert Trunc(v) as real < Val(v);
    ValSign(Fract(v));
  }

  /** 3/4 and 7/4 are already in lowest terms. */
  lemma QuarterFractions()
    ensures IsReduced(Rational(3, 4)) && IsReduced(Rational(7, 4))
  {
    forall q | 1 <= q < 4
      ensures !Clears(0.75, q) && !Clears(1.75, q)
    {
      assert q == 1 || q == 2 || q == 3;
    }
  }

  /**
   * `Display` on the three kinds of value: a whole number, a mixed number
   * and a proper fraction, with the abbreviation or, in alternate mode, the
   * description (plural above one).
   */
  lemma DisplayExamples()
    ensures Display(SingleMeasure(FromInteger(2), Volume(VolumeUnits.Cup)), false) == "2 C"
    ensures Display(SingleMeasure(New(7, 4), Volume(VolumeUnits.Teaspoon)), true) == "1 3/4 teaspoons"
    ensures Display(SingleMeasure(New(3, 4), Volume(VolumeUnits.Cup)), false) == "3/4 C"
    ensures Display(SingleMeasure(New(3, 4), Volume(VolumeUnits.Cup)), true) == "3/4 cup"
  {
    DisplayMixed();
    DisplayFraction();
  }

  lemma DisplayMixed()
    ensures Display(SingleMeasure(New(7, 4), Volume(VolumeUnits.Teaspoon)), true) == "1 3/4 teaspoons"
  {
    QuarterFractions();
    var threeQuarters: Rat := Rational(3, 4);
    var sevenQuarters: Rat := Rational(7, 4);
    ReducedUnique(New(7, 4), sevenQuarters);
    assert Trunc(sevenQuarters) == 1;
    ReducedUnique(Fract(sevenQuarters), threeQuarters);
  }

  lemma DisplayFraction()
    ensures Display(SingleMeasure(New(3, 4), Volume(VolumeUnits.Cup)), false) == "3/4 C"
    ensures Display(SingleMeasure(New(3, 4), Volume(VolumeUnits.Cup)), true) == "3/4 cup"
  {
    QuarterFractions();
    ReducedUnique(New(3, 4), Rational(3, 4));
  }

  /** `MultiMeasure::base_value`: the base values of the parts, summed from zero. */
  function SumBaseValues(ms: seq<SingleMeasure>): Rat
  {
    if ms == [] then Zero() else Add(SumBaseValues(ms[..|ms| - 1]), BaseValue(ms[|ms| - 1]))
  }

  /** The sum over a concatenation is the sum of the sums. */
  lemma {:induction false} SumBaseValuesAppend(a: seq<SingleMeasure>, b: seq<SingleMeasure>)
    ensures SumBaseValues(a + b) == Add(SumBaseValues(a), SumBaseValues(b))
  {
    if b == [] {
      assert a + b == a;
      AddZero(SumBaseValues(a));
    } else {
      var b' := b[..|b| - 1];
      assert (a + b)[..|a + b| - 1] == a + b';
      assert (a + b)[|a + b| - 1] == b[|b| - 1];
      SumBaseValuesAppend(a, b');
      AddAssociative(SumBaseValues(a), SumBaseValues(b'), BaseValue(b[|b| - 1]));
    }
  }

  /** A multi measure of one part has that part's base value. */
  lemma SumBaseValuesSingleton(m: SingleMeasure)
    ensures SumBaseValues([m]) == BaseValue(m)
  {
    assert [m][..0] == [];
    AddZero(BaseValue(m));
  }

  /** `MeasureLike::dimension` of a multi measure: that of its first part (the source panics on none). */
  function MultiDimension(m: MultiMeasure): Dimension
    requires |m.measures| > 0
  {
    SingleDimension(m.measures[0])
  }

  /** `MeasureLike::magnitude` of a multi measure: the summed base value in the first part's dimension. */
  function MultiMagnitude(m: MultiMeasure): (mag: M.Magnitude)
    requires |m.measures| > 0
    ensures mag.Single? && mag.dimension == DimensionOf(m.measures[0].unit)
    ensures mag.baseValue == SumBaseValues(m.measures)
  {
    M.NewSingle(SumBaseValues(m.measures), MultiDimension(m))
  }

  /** `RangeMeasure::new`. */
  function NewRange(fromValue: Rat, fromUnit: Unit, toValue: Rat, toUnit: Unit): (r: RangeMeasure)
    ensures r.from == SingleMeasure(fromValue, fromUnit) && r.to == SingleMeasure(toValue, toUnit)
  {
    RangeMeasure(SingleMeasure(fromValue, fromUnit), SingleMeasure(toValue, toUnit))
  }

  /** `RangeMeasure::from_base`: converts each end point with its own unit. */
  function RangeFromBase(fromBaseValue: Rat, fromUnit: Unit, toBaseValue: Rat, toUnit: Unit): (r: RangeMeasure)
    ensures r.from.unit == fromUnit && BaseValue(r.from) == fromBaseValue
    ensures r.to.unit == toUnit && BaseValue(r.to) == toBaseValue
  {
    ToBaseOfFromBase(fromUnit, fromBaseValue);
    ToBaseOfFromBase(toUnit, toBaseValue);
    NewRange(ValueFromBase(fromUnit, fromBaseValue), fromUnit, ValueFromBase(toUnit, toBaseValue), toUnit)
  }

  /** `MeasureLike::dimension` of a range: that of its lower end. */
  function RangeDimension(r: RangeMeasure): Dimension
  {
    SingleDimension(r.from)
  }

  /** `MeasureLike::magnitude` of a range. */
  function RangeMagnitude(r: RangeMeasure): (mag: M.Magnitude)
    ensures mag.Range? && mag.dimension == DimensionOf(r.from.unit)
    ensures mag.fromBaseValue == BaseValue(r.from) && mag.toBaseValue == BaseValue(r.to)
  {
    M.NewRange(BaseValue(r.from), BaseValue(r.to), RangeDimension(r))
  }

  /** `Measure::single`. */
  function MeasureSingle(value: Rat, unit: Unit): (m: Measure)
    ensures m.Single? && m.single.value == value && m.single.unit == unit
  {
    Single(SingleMeasure(value, unit))
  }

  /** `MeasureLike::dimension`, dispatched to the variant. */
  function MeasureDimension(m: Measure): Dimension
    requires m.Multi? ==> |m.multi.measures| > 0
  {
    match m
    case Single(s) => SingleDimension(s)
    case Multi(mm) => MultiDimension(mm)
    case Range(r) => RangeDimension(r)
  }

  /** `MeasureLike::magnitude`, dispatched to the variant. */
  function MeasureMagnitude(m: Measure): (mag: M.Magnitude)
    requires m.Multi? ==> |m.multi.measures| > 0
    ensures mag.dimension == MeasureDimension(m)
    ensures mag.Range? <==> m.Range?
  {
    match m
    case Single(s) => SingleMagnitude(s)
    case Multi(mm) => MultiMagnitude(mm)
    case Range(r) => RangeMagnitude(r)
  }
}
