/**
 * The examples of the tests in src/parser/parse_measure.rs, as lemmas about
 * the model's parsers. The first lemmas below take a layout of a text and
 * the value it should come to and conclude what the parser returns; each
 * example is one of them applied to a test text.
 */
module ParseMeasureExamples {
  import opened Wrappers
  import opened Text
  import opened Nom
  import ParserInputs
  import opened Rationals
  import opened ParseMeasures
  import opened Units
  import VolumeUnits
  import TemperatureUnits
  import UnitlessUnits
  import opened Measures

  // ---------------------------------------------------------------------
  // Layouts

  /** s[j..k] is white space, the character at m (one of list), then white space. */
  predicate SeparatorAt(s: seq<char>, j: nat, m: nat, k: nat, list: seq<char>)
  {
    SpacesSpan(s, j, m) && m < |s| && s[m] in list && SpacesSpan(s, m + 1, k)
  }

  /** A decimal laid out from the start of s whose parts add up to n/d reads as n/d. */
  lemma DecimalIs(s: seq<char>, j: nat, m: nat, k: nat, e: nat, n: int, d: int)
    requires DigitsSpan(s, 0, j) && SeparatorAt(s, j, m, k, ".") && DigitsSpan(s, k, e) && d != 0
    requires DigitsFrom(s, 0, j) as real + DigitsFrom(s, k, e) as real / Pow10(e - k) as real == n as real / d as real
    ensures ParseDecimal(s, 0) == Scanned(e, New(n, d))
  {
    assert SeparatorSpan(s, j, k, ".");
    DecimalReads(s, 0, j, k, e);
    ReducedUnique(ParseDecimal(s, 0).value, New(n, d));
  }

  /** An ASCII fraction laid out from i whose parts come to n/d reads, as a simple fraction, as n/d. */
  lemma SimpleAsciiIs(s: seq<char>, i: nat, j: nat, m: nat, k: nat, e: nat, n: int, d: int)
    requires DigitsSpan(s, i, j) && SeparatorAt(s, j, m, k, "/⁄") && DigitsSpan(s, k, e) && d != 0
    requires DigitsFrom(s, k, e) != 0
    requires DigitsFrom(s, i, j) as real / DigitsFrom(s, k, e) as real == n as real / d as real
    ensures SimpleRational(s, i) == Scanned(e, New(n, d))
  {
    assert SeparatorSpan(s, j, k, "/⁄");
    AsciiRationalReads(s, i, j, k, e);
    ReducedUnique(AsciiRational(s, i).value, New(n, d));
  }

  /** A glyph at i, the first entry g of the table for it, reads as a simple fraction: that entry's fraction. */
  lemma GlyphIs(s: seq<char>, i: nat, g: nat)
    requires i < |s| && g < |Glyphs()| && Glyphs()[g].0 == s[i]
    requires forall h :: 0 <= h < g ==> Glyphs()[h].0 != s[i]
    ensures SimpleRational(s, i) == Scanned(i + 1, New(Glyphs()[g].1, Glyphs()[g].2))
  {
    GlyphsDistinctProper();
    assert AsciiRational(s, i).Failed?;
  }

  /** After the leading digits and white space, nothing that starts a fraction: `parse_rational` is the simple fraction at 0. */
  lemma NotMixed(s: seq<char>, j: nat, m: nat)
    requires DigitsSpan(s, 0, j) && SpacesSpan(s, j, m)
    requires m < |s| ==> !IsDigit(s[m]) && (s[m] in "/⁄." || IsAlpha(s[m]))
    ensures ParseRational(s, 0) == SimpleRational(s, 0)
  {
    GlyphsDistinctProper();
    assert AsciiRational(s, m).Failed?;
    assert UnicodeRational(s, m).Failed?;
    MultiRationalReads(s, 0, j, m);
  }

  /** A fraction laid out from the start of s, not preceded by a whole number, reads as n/d. */
  lemma FractionIs(s: seq<char>, j: nat, m: nat, k: nat, e: nat, n: int, d: int)
    requires DigitsSpan(s, 0, j) && SeparatorAt(s, j, m, k, "/⁄") && DigitsSpan(s, k, e) && d != 0
    requires DigitsFrom(s, k, e) != 0
    requires DigitsFrom(s, 0, j) as real / DigitsFrom(s, k, e) as real == n as real / d as real
    ensures ParseRational(s, 0) == Scanned(e, New(n, d))
  {
    NotMixed(s, j, m);
    SimpleAsciiIs(s, 0, j, m, k, e, n, d);
  }

  /** A whole number, white space and a simple fraction a/b whose sum is n/d read, as a rational, as n/d. */
  lemma MixedSimpleIs(s: seq<char>, j: nat, m: nat, e: nat, a: int, b: int, n: int, d: int)
    requires DigitsSpan(s, 0, j) && SpacesSpan(s, j, m) && b != 0 && d != 0
    requires SimpleRational(s, m) == Scanned(e, New(a, b))
    requires DigitsFrom(s, 0, j) as real + a as real / b as real == n as real / d as real
    ensures ParseRational(s, 0) == Scanned(e, New(n, d))
  {
    MultiRationalReads(s, 0, j, m);
    var v := MultiRational(s, 0).value;
    assert Val(v) == n as real / d as real;
    ReducedUnique(v, New(n, d));
  }

  /** A whole number, white space and an ASCII fraction a/b whose sum is n/d read, as a rational, as n/d. */
  lemma MixedIs(s: seq<char>, j: nat, m: nat, k: nat, l: nat, f: nat, e: nat, a: int, b: int, n: int, d: int)
    requires DigitsSpan(s, 0, j) && SpacesSpan(s, j, m) && b != 0 && d != 0
    requires DigitsSpan(s, m, k) && SeparatorAt(s, k, l, f, "/⁄") && DigitsSpan(s, f, e) && DigitsFrom(s, f, e) != 0
    requires DigitsFrom(s, m, k) as real / DigitsFrom(s, f, e) as real == a as real / b as real
    requires DigitsFrom(s, 0, j) as real + a as real / b as real == n as real / d as real
    ensures ParseRational(s, 0) == Scanned(e, New(n, d))
  {
    SimpleAsciiIs(s, m, k, l, f, e, a, b);
    MixedSimpleIs(s, j, m, e, a, b, n, d);
  }

  /** A whole number, white space and the glyph of table entry g whose sum is n/d read, as a rational, as n/d. */
  lemma MixedGlyphIs(s: seq<char>, j: nat, m: nat, g: nat, n: int, d: int)
    requires DigitsSpan(s, 0, j) && SpacesSpan(s, j, m) && d != 0
    requires m < |s| && g < |Glyphs()| && Glyphs()[g].0 == s[m] && forall h :: 0 <= h < g ==> Glyphs()[h].0 != s[m]
    requires DigitsFrom(s, 0, j) as real + Glyphs()[g].1 as real / Glyphs()[g].2 as real == n as real / d as real
    ensures ParseRational(s, 0) == Scanned(m + 1, New(n, d))
  {
    GlyphIs(s, m, g);
    MixedSimpleIs(s, j, m, m + 1, Glyphs()[g].1, Glyphs()[g].2, n, d);
  }

  /** A whole number followed by white space and then neither a slash nor a glyph: no rational. */
  lemma WholeOnlyFails(s: seq<char>, j: nat, m: nat)
    requires DigitsSpan(s, 0, j) && SpacesSpan(s, j, m)
    requires m < |s| ==> !IsDigit(s[m]) && s[m] !in "/⁄" && (s[m] == '.' || IsAlpha(s[m]))
    ensures ParseRational(s, 0).Failed?
  {
    NotMixed(s, j, m);
    U32Reads(s, 0, j);
    Multispace0Reads(s, j, m);
    assert Separator(s, j, "/⁄").None?;
    assert AsciiRational(s, 0).Failed?;
    GlyphsDistinctProper();
    assert UnicodeRational(s, 0).Failed?;
  }

  /** A fraction laid out from the start of s with a zero denominator: no rational. */
  lemma ZeroDenominatorFails(s: seq<char>, j: nat, m: nat, k: nat, e: nat)
    requires DigitsSpan(s, 0, j) && SeparatorAt(s, j, m, k, "/⁄") && DigitsSpan(s, k, e)
    requires DigitsFrom(s, k, e) == 0
    ensures ParseRational(s, 0).Failed?
  {
    NotMixed(s, j, m);
    assert SeparatorSpan(s, j, k, "/⁄");
    AsciiRationalReads(s, 0, j, k, e);
    GlyphsDistinctProper();
    assert UnicodeRational(s, 0).Failed?;
  }

  /** The first seven unitful units, in `UNITFUL_UNITS` order, with their aliases. */
  lemma UnitfulAliasTable()
    ensures UnitfulUnits()[0] == Volume(VolumeUnits.Drop) && Aliases(UnitfulUnits()[0]) == ["drop", "drops", "gt", "gtt", "dr"]
    ensures UnitfulUnits()[1] == Volume(VolumeUnits.Smidgen) && Aliases(UnitfulUnits()[1]) == ["smidgen", "smidgens", "smi", "smdg"]
    ensures UnitfulUnits()[2] == Volume(VolumeUnits.Pinch) && Aliases(UnitfulUnits()[2]) == ["pinch", "pinches", "pn"]
    ensures UnitfulUnits()[3] == Volume(VolumeUnits.Dash) && Aliases(UnitfulUnits()[3]) == ["dash", "dashes", "ds"]
    ensures UnitfulUnits()[4] == Volume(VolumeUnits.Teaspoon) && Aliases(UnitfulUnits()[4]) == ["teaspoon", "teaspoons", "t", "tsp"]
    ensures UnitfulUnits()[5] == Volume(VolumeUnits.Tablespoon) && Aliases(UnitfulUnits()[5]) == ["tablespoon", "tablespoons", "Tb", "T", "tbsp"]
    ensures UnitfulUnits()[6] == Volume(VolumeUnits.Cup) && Aliases(UnitfulUnits()[6]) == ["cup", "cups", "c", "C"]
  {
  }

  /**
   * The word of k letters at the start of p that is an alias of the
   * unitful unit g and of none before it: `parse_unit` reads it as that unit.
   */
  lemma UnitIs(p: ParserInputs.ParserInput, word: string, k: nat, g: nat)
    requires LettersSpan(p.input, 0, k) && p.input[..k] == word && g < |UnitfulUnits()|
    requires word in Aliases(UnitfulUnits()[g])
    requires forall h :: 0 <= h < g ==> word !in Aliases(UnitfulUnits()[h])
    ensures UnitParse(p) == Parsed(ParserInputs.Advance(p, k), UnitfulUnits()[g])
  {
    ExactAliasResolves(word, g);
    UnitParseShift(p, 0);
    assert ParserInputs.Advance(p, 0) == p;
    RunEndAt(p.input, 0, k, Letters);
  }

  /** A whole number at the start of s followed by white space and no letter: no measure of a whole number. */
  lemma IntegerNoUnit(s: seq<char>, j: nat, m: nat)
    requires DigitsSpan(s, 0, j) && SpacesSpan(s, j, m) && !IsAlphaAt(s, m)
    ensures NumberThenUnit(IntegerSyntax, s, 0).Failed?
  {
    IntegerReads(s, 0, j);
    Multispace0Reads(s, j, m);
  }

  /** Digits at the start of s followed by white space and no point: no decimal. */
  lemma NoPoint(s: seq<char>, j: nat, m: nat)
    requires DigitsSpan(s, 0, j) && SpacesSpan(s, j, m) && (m < |s| ==> s[m] != '.')
    ensures NumberThenUnit(DecimalSyntax, s, 0).Failed?
  {
    U32Reads(s, 0, j);
    Multispace0Reads(s, j, m);
    assert Separator(s, j, ".").None?;
    assert ParseDecimal(s, 0).Failed?;
  }

  /** Digits, white space, then neither a letter nor a point: neither a whole number nor a decimal is followed by a unit. */
  lemma NotIntegerNorDecimal(s: seq<char>, j: nat, m: nat)
    requires DigitsSpan(s, 0, j) && SpacesSpan(s, j, m) && !IsAlphaAt(s, m) && (m < |s| ==> s[m] != '.')
    ensures NumberThenUnit(IntegerSyntax, s, 0).Failed? && NumberThenUnit(DecimalSyntax, s, 0).Failed?
  {
    IntegerNoUnit(s, j, m);
    NoPoint(s, j, m);
  }

  /** The measure found at the start of a whole document: what `parse_measure` returns on it. */
  lemma MeasureOfText(s: seq<char>, k: nat, parts: Parts)
    requires MeasureAt(s, 0) == Scanned(k, parts)
    ensures ParseMeasure(ParserInputs.FromStr(s)) == Parsed(ParserInputs.ParserInput(s[k..], k),
      MeasureToken(MeasureSingle(parts.number, parts.unit), ParserInputs.CharRange(0, parts.numberEnd),
        ParserInputs.CharRange(parts.unitStart, k), s[..k]))
  {
    var p := ParserInputs.FromStr(s);
    assert p == ParserInputs.ParserInput(s, 0);
    ParseMeasureOf(p, k, parts);
    var t := MeasureToken(MeasureSingle(parts.number, parts.unit), ParserInputs.CharRange(p.charIndex, p.charIndex + parts.numberEnd),
      ParserInputs.CharRange(p.charIndex + parts.unitStart, p.charIndex + k), p.input[..k]);
    assert ParseMeasure(p) == Parsed(ParserInputs.Advance(p, k), t);
    assert ParserInputs.Advance(p, k) == ParserInputs.ParserInput(s[k..], k);
    assert t == MeasureToken(MeasureSingle(parts.number, parts.unit), ParserInputs.CharRange(0, parts.numberEnd),
        ParserInputs.CharRange(parts.unitStart, k), s[..k]);
  }

  /**
   * A rational, white space and a word resolving to unit, where neither a
   * whole number nor a decimal is followed by a unit: `parse_measure` on the
   * whole text finds that rational of that unit.
   */
  lemma RationalMeasureIs(s: seq<char>, n: nat, number: Rat, u: nat, w: nat, unit: Unit)
    requires NumberThenUnit(IntegerSyntax, s, 0).Failed? && NumberThenUnit(DecimalSyntax, s, 0).Failed?
    requires ParseRational(s, 0) == Scanned(n, number) && SpacesSpan(s, n, u) && LettersSpan(s, u, w)
    requires ResolvedUnit(s[u..w]) == unit
    ensures ParseMeasure(ParserInputs.FromStr(s)) == Parsed(ParserInputs.ParserInput(s[w..], w),
      MeasureToken(MeasureSingle(number, unit), ParserInputs.CharRange(0, n), ParserInputs.CharRange(u, w), s[..w]))
  {
    assert ParseNumber(RationalSyntax, s, 0) == Scanned(n, number);
    NumberThenUnitReads(RationalSyntax, s, 0, n, number, u, w);
    assert MeasureAt(s, 0) == Scanned(w, Parts(n, u, number, unit));
    MeasureOfText(s, w, Parts(n, u, number, unit));
  }

  /** A fraction n/d laid out from the start of s, white space and a word resolving to unit: that measure. */
  lemma FractionMeasureIs(s: seq<char>, j: nat, m: nat, k: nat, e: nat, n: int, d: int, u: nat, w: nat, unit: Unit)
    requires DigitsSpan(s, 0, j) && SeparatorAt(s, j, m, k, "/⁄") && DigitsSpan(s, k, e) && d != 0
    requires DigitsFrom(s, k, e) != 0
    requires DigitsFrom(s, 0, j) as real / DigitsFrom(s, k, e) as real == n as real / d as real
    requires SpacesSpan(s, e, u) && LettersSpan(s, u, w) && ResolvedUnit(s[u..w]) == unit
    ensures ParseMeasure(ParserInputs.FromStr(s)) == Parsed(ParserInputs.ParserInput(s[w..], w),
      MeasureToken(MeasureSingle(New(n, d), unit), ParserInputs.CharRange(0, e), ParserInputs.CharRange(u, w), s[..w]))
  {
    IntegerNoUnit(s, j, m);
    NoPoint(s, j, m);
    FractionIs(s, j, m, k, e, n, d);
    RationalMeasureIs(s, e, New(n, d), u, w, unit);
  }

  /** A whole number, white space and an ASCII fraction a/b adding up to n/d, white space and a word resolving to unit: that measure. */
  lemma MixedMeasureIs(s: seq<char>, j: nat, m: nat, k: nat, l: nat, f: nat, e: nat, a: int, b: int, n: int, d: int,
                       u: nat, w: nat, unit: Unit)
    requires DigitsSpan(s, 0, j) && SpacesSpan(s, j, m) && b != 0 && d != 0
    requires DigitsSpan(s, m, k) && SeparatorAt(s, k, l, f, "/⁄") && DigitsSpan(s, f, e) && DigitsFrom(s, f, e) != 0
    requires DigitsFrom(s, m, k) as real / DigitsFrom(s, f, e) as real == a as real / b as real
    requires DigitsFrom(s, 0, j) as real + a as real / b as real == n as real / d as real
    requires SpacesSpan(s, e, u) && LettersSpan(s, u, w) && ResolvedUnit(s[u..w]) == unit
    ensures ParseMeasure(ParserInputs.FromStr(s)) == Parsed(ParserInputs.ParserInput(s[w..], w),
      MeasureToken(MeasureSingle(New(n, d), unit), ParserInputs.CharRange(0, e), ParserInputs.CharRange(u, w), s[..w]))
  {
    NotIntegerNorDecimal(s, j, m);
    MixedIs(s, j, m, k, l, f, e, a, b, n, d);
    RationalMeasureIs(s, e, New(n, d), u, w, unit);
  }

  /** A glyph is neither a letter nor a point. */
  lemma GlyphStartsNoWord(s: seq<char>, m: nat, g: nat)
    requires m < |s| && g < |Glyphs()| && Glyphs()[g].0 == s[m]
    ensures !IsAlphaAt(s, m) && s[m] != '.'
  {
    GlyphsDistinctProper();
    assert !IsAlpha(Glyphs()[g].0) && Glyphs()[g].0 !in "/⁄.";
  }

  /** A whole number, white space and the glyph of entry g adding up to n/d, white space and a word resolving to unit: that measure. */
  lemma MixedGlyphMeasureIs(s: seq<char>, j: nat, m: nat, g: nat, n: int, d: int, u: nat, w: nat, unit: Unit)
    requires DigitsSpan(s, 0, j) && SpacesSpan(s, j, m) && d != 0
    requires m < |s| && g < |Glyphs()| && Glyphs()[g].0 == s[m] && forall h :: 0 <= h < g ==> Glyphs()[h].0 != s[m]
    requires DigitsFrom(s, 0, j) as real + Glyphs()[g].1 as real / Glyphs()[g].2 as real == n as real / d as real
    requires SpacesSpan(s, m + 1, u) && LettersSpan(s, u, w) && ResolvedUnit(s[u..w]) == unit
    ensures ParseMeasure(ParserInputs.FromStr(s)) == Parsed(ParserInputs.ParserInput(s[w..], w),
      MeasureToken(MeasureSingle(New(n, d), unit), ParserInputs.CharRange(0, m + 1), ParserInputs.CharRange(u, w), s[..w]))
  {
    GlyphStartsNoWord(s, m, g);
    NotIntegerNorDecimal(s, j, m);
    MixedGlyphIs(s, j, m, g, n, d);
    RationalMeasureIs(s, m + 1, New(n, d), u, w, unit);
  }

  /** A whole number, white space and a word resolving to unit: that many of the unit. */
  lemma IntegerMeasureIs(s: seq<char>, j: nat, u: nat, w: nat, unit: Unit)
    requires DigitsSpan(s, 0, j) && SpacesSpan(s, j, u) && LettersSpan(s, u, w) && ResolvedUnit(s[u..w]) == unit
    ensures ParseMeasure(ParserInputs.FromStr(s)) == Parsed(ParserInputs.ParserInput(s[w..], w),
      MeasureToken(MeasureSingle(FromInteger(DigitsFrom(s, 0, j)), unit), ParserInputs.CharRange(0, j), ParserInputs.CharRange(u, w), s[..w]))
  {
    IntegerReads(s, 0, j);
    var number := ParseInteger(s, 0).value;
    ReducedUnique(number, FromInteger(DigitsFrom(s, 0, j)));
    assert ParseNumber(IntegerSyntax, s, 0) == Scanned(j, number);
    NumberThenUnitReads(IntegerSyntax, s, 0, j, number, u, w);
    assert MeasureAt(s, 0) == Scanned(w, Parts(j, u, number, unit));
    MeasureOfText(s, w, Parts(j, u, number, unit));
  }

  /** Digits, white space, a point and white space, then no digit: no decimal. */
  lemma PointWithoutFraction(s: seq<char>, j: nat, m: nat, k: nat)
    requires DigitsSpan(s, 0, j) && SeparatorAt(s, j, m, k, ".") && !(k < |s| && IsDigit(s[k]))
    ensures NumberThenUnit(DecimalSyntax, s, 0).Failed?
  {
    U32Reads(s, 0, j);
    SeparatorReads(s, j, m, k, ".");
    RunEndAt(s, k, k, Digits);
    assert ParseDecimal(s, 0).Failed?;
    assert ParseNumber(DecimalSyntax, s, 0).Failed?;
  }

  /** Digits, then a point not followed by digits: no measure. */
  lemma PointWithoutFractionFails(s: seq<char>, j: nat, m: nat, k: nat)
    requires DigitsSpan(s, 0, j) && SeparatorAt(s, j, m, k, ".") && !(k < |s| && IsDigit(s[k]))
    ensures ParseMeasure(ParserInputs.FromStr(s)).NoParse?
  {
    IntegerNoUnit(s, j, m);
    PointWithoutFraction(s, j, m, k);
    WholeOnlyFails(s, j, m);
    NoReadingNoMeasure(s);
  }

  /** When no reading of a number followed by a unit succeeds, there is no measure. */
  lemma NoReadingNoMeasure(s: seq<char>)
    requires NumberThenUnit(IntegerSyntax, s, 0).Failed? && NumberThenUnit(DecimalSyntax, s, 0).Failed?
    requires ParseRational(s, 0).Failed?
    ensures ParseMeasure(ParserInputs.FromStr(s)).NoParse?
  {
    assert ParseNumber(RationalSyntax, s, 0).Failed?;
    assert NumberThenUnit(RationalSyntax, s, 0).Failed?;
    assert MeasureAt(s, 0).Failed?;
  }

  /** "teaspoon" is the teaspoon. */
  lemma TeaspoonResolves()
    ensures ResolvedUnit("teaspoon") == Volume(VolumeUnits.Teaspoon)
  {
    UnitfulAliasTable();
    ExactAliasResolves("teaspoon", 4);
  }

  /** "times" matches none of the drop, the smidgen, the pinch and the dash, even ignoring case. */
  lemma TimesMatchesNoSmallMeasure()
    ensures !LooseMatch("times", Volume(VolumeUnits.Drop)) && !LooseMatch("times", Volume(VolumeUnits.Smidgen)) && !LooseMatch("times", Volume(VolumeUnits.Pinch)) && !LooseMatch("times", Volume(VolumeUnits.Dash))
  {
    NoLooseMatchByShape("times", Volume(VolumeUnits.Drop));
    NoLooseMatchByShape("times", Volume(VolumeUnits.Smidgen));
    NoLooseMatchByShape("times", Volume(VolumeUnits.Pinch));
    NoLooseMatchByShape("times", Volume(VolumeUnits.Dash));
  }

  /** "times" matches none of the teaspoon, the tablespoon and the cup: their aliases that start with a t are not five letters long. */
  lemma TimesMatchesNoSpoonOrCup()
    ensures !LooseMatch("times", Volume(VolumeUnits.Teaspoon)) && !LooseMatch("times", Volume(VolumeUnits.Tablespoon)) && !LooseMatch("times", Volume(VolumeUnits.Cup))
  {
    NoLooseMatchByShape("times", Volume(VolumeUnits.Teaspoon));
    NoLooseMatchByShape("times", Volume(VolumeUnits.Tablespoon));
    NoLooseMatchByShape("times", Volume(VolumeUnits.Cup));
  }

  /** "times" matches none of the pint, the quart and the gallon, even ignoring case. */
  lemma TimesMatchesNoLargeMeasure()
    ensures !LooseMatch("times", Volume(VolumeUnits.Pint)) && !LooseMatch("times", Volume(VolumeUnits.Quart)) && !LooseMatch("times", Volume(VolumeUnits.Gallon))
  {
    NoLooseMatchByShape("times", Volume(VolumeUnits.Pint));
    NoLooseMatchByShape("times", Volume(VolumeUnits.Quart));
    NoLooseMatchByShape("times", Volume(VolumeUnits.Gallon));
  }

  /** "times" matches no volume unit, even ignoring case. */
  lemma TimesMatchesNoVolume(v: VolumeUnits.VolumeUnit)
    ensures !LooseMatch("times", Volume(v))
  {
    TimesMatchesNoSmallMeasure();
    TimesMatchesNoSpoonOrCup();
    TimesMatchesNoLargeMeasure();
  }

  /** "times" matches no temperature unit, even ignoring case. */
  lemma TimesMatchesNoTemperature(t: TemperatureUnits.TemperatureUnit)
    ensures !LooseMatch("times", Temperature(t))
  {
    match t
    case Fahrenheit => NoLooseMatchByShape("times", Temperature(TemperatureUnits.Fahrenheit));
    case Celsius => NoLooseMatchByShape("times", Temperature(TemperatureUnits.Celsius));
  }

  /** "times" is a unitless unit of that name. */
  lemma TimesIsUnitless()
    ensures ResolvedUnit("times") == Unitless(UnitlessUnits.New("times"))
  {
    forall g | 0 <= g < |UnitfulUnits()|
      ensures !LooseMatch("times", UnitfulUnits()[g])
    {
      match UnitfulUnits()[g]
      case Volume(v) => TimesMatchesNoVolume(v);
      case Temperature(t) => TimesMatchesNoTemperature(t);
    }
    ResolvedUnitless("times");
  }

  /** "tablespoon" is the tablespoon. */
  lemma TablespoonResolves()
    ensures ResolvedUnit("tablespoon") == Volume(VolumeUnits.Tablespoon)
  {
    UnitfulAliasTable();
    ExactAliasResolves("tablespoon", 5);
  }

  // ---------------------------------------------------------------------
  // The tests

  /** `parse_integer` on "1": the whole number 1, the whole text. */
  lemma IntegerAlone()
    ensures ParseInteger("1", 0) == Scanned(1, FromInteger(1))
  {
    IntegerReads("1", 0, 1);
    ReducedUnique(ParseInteger("1", 0).value, FromInteger(1));
  }

  /** `parse_integer` on "1 cup": the whole number 1, leaving the rest. */
  lemma IntegerBeforeWord()
    ensures ParseInteger("1 cup", 0) == Scanned(1, FromInteger(1))
  {
    IntegerReads("1 cup", 0, 1);
    ReducedUnique(ParseInteger("1 cup", 0).value, FromInteger(1));
  }

  /** `parse_decimal` on "0.2": one fifth, the whole text. */
  lemma DecimalOneFifth()
    ensures ParseDecimal("0.2", 0) == Scanned(3, New(1, 5))
  {
    DecimalIs("0.2", 1, 1, 2, 3, 1, 5);
  }

  /** `parse_decimal` on "0 .2": white space before the point is allowed. */
  lemma DecimalSpaceBeforePoint()
    ensures ParseDecimal("0 .2", 0) == Scanned(4, New(1, 5))
  {
    DecimalIs("0 .2", 1, 2, 3, 4, 1, 5);
  }

  /** `parse_decimal` on "0. 2": white space after the point is allowed. */
  lemma DecimalSpaceAfterPoint()
    ensures ParseDecimal("0. 2", 0) == Scanned(4, New(1, 5))
  {
    DecimalIs("0. 2", 1, 1, 3, 4, 1, 5);
  }

  /** `parse_decimal` on "0 . 2": white space on both sides of the point. */
  lemma DecimalSpacesAroundPoint()
    ensures ParseDecimal("0 . 2", 0) == Scanned(5, New(1, 5))
  {
    DecimalIs("0 . 2", 1, 2, 4, 5, 1, 5);
  }

  /** `parse_decimal` on "1.2": the whole part is added. */
  lemma DecimalSixFifths()
    ensures ParseDecimal("1.2", 0) == Scanned(3, New(6, 5))
  {
    DecimalIs("1.2", 1, 1, 2, 3, 6, 5);
  }

  /** `parse_decimal` on "1.12": two fraction digits are hundredths. */
  lemma DecimalHundredths()
    ensures ParseDecimal("1.12", 0) == Scanned(4, New(112, 100))
  {
    DecimalIs("1.12", 1, 1, 2, 4, 112, 100);
  }

  /** `parse_decimal` on "1.012": a leading zero among the fraction digits counts. */
  lemma DecimalThousandths()
    ensures ParseDecimal("1.012", 0) == Scanned(5, New(1012, 1000))
  {
    DecimalIs("1.012", 1, 1, 2, 5, 1012, 1000);
  }

  /** `parse_decimal` on "0.2 cups": the white space and the word are left. */
  lemma DecimalBeforeWord()
    ensures ParseDecimal("0.2 cups", 0) == Scanned(3, New(1, 5))
  {
    DecimalIs("0.2 cups", 1, 1, 2, 3, 1, 5);
  }

  /** `parse_rational` on "3/4". */
  lemma RationalThreeQuarters()
    ensures ParseRational("3/4", 0) == Scanned(3, New(3, 4))
  {
    FractionIs("3/4", 1, 1, 2, 3, 3, 4);
  }

  /** `parse_rational` on "3 /4": white space before the slash. */
  lemma RationalSpaceBeforeSlash()
    ensures ParseRational("3 /4", 0) == Scanned(4, New(3, 4))
  {
    FractionIs("3 /4", 1, 2, 3, 4, 3, 4);
  }

  /** `parse_rational` on "3/ 4": white space after the slash. */
  lemma RationalSpaceAfterSlash()
    ensures ParseRational("3/ 4", 0) == Scanned(4, New(3, 4))
  {
    FractionIs("3/ 4", 1, 1, 3, 4, 3, 4);
  }

  /** `parse_rational` on "3 / 4": white space on both sides. */
  lemma RationalSpacesAroundSlash()
    ensures ParseRational("3 / 4", 0) == Scanned(5, New(3, 4))
  {
    FractionIs("3 / 4", 1, 2, 4, 5, 3, 4);
  }

  /** `parse_rational` on "3⁄4", with the fraction slash. */
  lemma RationalFractionSlash()
    ensures ParseRational("3⁄4", 0) == Scanned(3, New(3, 4))
  {
    FractionIs("3⁄4", 1, 1, 2, 3, 3, 4);
  }

  /** `parse_rational` on "13⁄4": thirteen quarters, not a mixed number. */
  lemma RationalThirteenQuarters()
    ensures ParseRational("13⁄4", 0) == Scanned(4, New(13, 4))
  {
    FractionIs("13⁄4", 2, 2, 3, 4, 13, 4);
  }

  /** `parse_rational` on "3/4 cups": the white space and the word are left. */
  lemma RationalBeforeWord()
    ensures ParseRational("3/4 cups", 0) == Scanned(3, New(3, 4))
  {
    FractionIs("3/4 cups", 1, 1, 2, 3, 3, 4);
  }

  /** `parse_rational` on "¼": a glyph. */
  lemma RationalGlyph()
    ensures ParseRational("¼", 0) == Scanned(1, New(1, 4))
  {
    GlyphIs("¼", 0, 0);
  }

  /** `parse_rational` on "1 3/4": a whole number and a fraction, added. */
  lemma RationalMixed()
    ensures ParseRational("1 3/4", 0) == Scanned(5, New(7, 4))
  {
    MixedIs("1 3/4", 1, 2, 3, 3, 4, 5, 3, 4, 7, 4);
  }

  /** `parse_rational` on "1 3⁄4", with the fraction slash. */
  lemma RationalMixedFractionSlash()
    ensures ParseRational("1 3⁄4", 0) == Scanned(5, New(7, 4))
  {
    MixedIs("1 3⁄4", 1, 2, 3, 3, 4, 5, 3, 4, 7, 4);
  }

  /** `parse_rational` on "1 ¾": a whole number and a glyph, added. */
  lemma RationalMixedGlyph()
    ensures ParseRational("1 ¾", 0) == Scanned(3, New(7, 4))
  {
    MixedGlyphIs("1 ¾", 1, 2, 2, 7, 4);
  }

  /** `parse_rational` on "1": a whole number alone is not a fraction. */
  lemma RationalWholeFails()
    ensures ParseRational("1", 0).Failed?
  {
    WholeOnlyFails("1", 1, 1);
  }

  /** `parse_rational` on "1.1": a decimal is not a fraction. */
  lemma RationalDecimalFails()
    ensures ParseRational("1.1", 0).Failed?
  {
    WholeOnlyFails("1.1", 1, 1);
  }

  /** `parse_rational` on "1 cups": a whole number before a word is not a fraction. */
  lemma RationalWordFails()
    ensures ParseRational("1 cups", 0).Failed?
  {
    WholeOnlyFails("1 cups", 1, 2);
  }

  /** `parse_rational` on "1/0": a zero denominator is refused. */
  lemma RationalZeroDenominatorFails()
    ensures ParseRational("1/0", 0).Failed?
  {
    ZeroDenominatorFails("1/0", 1, 1, 2, 3);
  }

  /** `parse_rational` on "1⁄0", with the fraction slash. */
  lemma RationalZeroDenominatorSlashFails()
    ensures ParseRational("1⁄0", 0).Failed?
  {
    ZeroDenominatorFails("1⁄0", 1, 1, 2, 3);
  }

  /** `parse_unit` on "drop": the name of a unit. */
  lemma UnitDrop()
    ensures UnitParse(ParserInputs.FromStr("drop")) == Parsed(ParserInputs.ParserInput("", 4), Volume(VolumeUnits.Drop))
  {
    UnitfulAliasTable();
    UnitIs(ParserInputs.FromStr("drop"), "drop", 4, 0);
  }

  /** `parse_unit` on "t": "t" is a teaspoon. */
  lemma UnitTeaspoonAbbreviated()
    ensures UnitParse(ParserInputs.FromStr("t")) == Parsed(ParserInputs.ParserInput("", 1), Volume(VolumeUnits.Teaspoon))
  {
    UnitfulAliasTable();
    UnitIs(ParserInputs.FromStr("t"), "t", 1, 4);
  }

  /** `parse_unit` on "T": "T" is a tablespoon: the exact match wins over the teaspoon's "t". */
  lemma UnitTablespoonAbbreviated()
    ensures UnitParse(ParserInputs.FromStr("T")) == Parsed(ParserInputs.ParserInput("", 1), Volume(VolumeUnits.Tablespoon))
  {
    UnitfulAliasTable();
    UnitIs(ParserInputs.FromStr("T"), "T", 1, 5);
  }

  /** `parse_unit` on "Tb": "Tb" is a tablespoon. */
  lemma UnitTablespoonTb()
    ensures UnitParse(ParserInputs.FromStr("Tb")) == Parsed(ParserInputs.ParserInput("", 2), Volume(VolumeUnits.Tablespoon))
  {
    UnitfulAliasTable();
    UnitIs(ParserInputs.FromStr("Tb"), "Tb", 2, 5);
  }

  /** `parse_unit` on "c": "c" is a cup. */
  lemma UnitCupLower()
    ensures UnitParse(ParserInputs.FromStr("c")) == Parsed(ParserInputs.ParserInput("", 1), Volume(VolumeUnits.Cup))
  {
    UnitfulAliasTable();
    UnitIs(ParserInputs.FromStr("c"), "c", 1, 6);
  }

  /** `parse_unit` on "C": "C" is a cup, not Celsius: the volume units come first. */
  lemma UnitCupUpper()
    ensures UnitParse(ParserInputs.FromStr("C")) == Parsed(ParserInputs.ParserInput("", 1), Volume(VolumeUnits.Cup))
  {
    UnitfulAliasTable();
    UnitIs(ParserInputs.FromStr("C"), "C", 1, 6);
  }

  /** `parse_unit` on "C other": the unit word ends at the space, which stays, at document position 1. */
  lemma UnitBeforeWord()
    ensures UnitParse(ParserInputs.FromStr("C other")) == Parsed(ParserInputs.ParserInput(" other", 1), Volume(VolumeUnits.Cup))
  {
    UnitfulAliasTable();
    UnitIs(ParserInputs.FromStr("C other"), "C", 1, 6);
  }

  /** Where the fraction of "3/4 teaspoon other" stands, and what it comes to. */
  lemma ThreeQuartersTeaspoonNumber(s: string)
    requires s == "3/4 teaspoon other"
    ensures DigitsSpan(s, 0, 1) && SeparatorAt(s, 1, 1, 2, "/⁄") && DigitsSpan(s, 2, 3) && DigitsFrom(s, 2, 3) != 0
    ensures DigitsFrom(s, 0, 1) as real / DigitsFrom(s, 2, 3) as real == 3 as real / 4 as real
  {
    assert DigitsFrom(s, 0, 1) == 3 && DigitsFrom(s, 2, 3) == 4;
  }

  /** Where the unit word of "3/4 teaspoon other" stands, and what is left after it. */
  lemma ThreeQuartersTeaspoonWord(s: string)
    requires s == "3/4 teaspoon other"
    ensures SpacesSpan(s, 3, 4) && LettersSpan(s, 4, 12)
    ensures s[4..12] == "teaspoon" && s[12..] == " other" && s[..12] == "3/4 teaspoon"
  {
  }

  /** `parse_measure` on "3/4 teaspoon other": three quarters of a teaspoon, the number at 0..3, the unit at 4..12. */
  lemma MeasureThreeQuartersTeaspoon()
    ensures ParseMeasure(ParserInputs.FromStr("3/4 teaspoon other")) == Parsed(ParserInputs.ParserInput(" other", 12),
      MeasureToken(MeasureSingle(New(3, 4), Volume(VolumeUnits.Teaspoon)),
        ParserInputs.CharRange(0, 3), ParserInputs.CharRange(4, 12), "3/4 teaspoon"))
  {
    var s := "3/4 teaspoon other";
    ThreeQuartersTeaspoonNumber(s);
    ThreeQuartersTeaspoonWord(s);
    TeaspoonResolves();
    FractionMeasureIs(s, 1, 1, 2, 3, 3, 4, 4, 12, Volume(VolumeUnits.Teaspoon));
  }

  /** Where the fraction of "3/4  tablespoon other" stands, and what it comes to. */
  lemma ThreeQuartersTablespoonNumber(s: string)
    requires s == "3/4  tablespoon other"
    ensures DigitsSpan(s, 0, 1) && SeparatorAt(s, 1, 1, 2, "/⁄") && DigitsSpan(s, 2, 3) && DigitsFrom(s, 2, 3) != 0
    ensures DigitsFrom(s, 0, 1) as real / DigitsFrom(s, 2, 3) as real == 3 as real / 4 as real
  {
    assert DigitsFrom(s, 0, 1) == 3 && DigitsFrom(s, 2, 3) == 4;
  }

  /** Where the unit word of "3/4  tablespoon other" stands, and what is left after it. */
  lemma ThreeQuartersTablespoonWord(s: string)
    requires s == "3/4  tablespoon other"
    ensures SpacesSpan(s, 3, 5) && LettersSpan(s, 5, 15)
    ensures s[5..15] == "tablespoon" && s[15..] == " other" && s[..15] == "3/4  tablespoon"
  {
  }

  /** `parse_measure` on "3/4  tablespoon other": two spaces before the unit, which starts at 5. */
  lemma MeasureThreeQuartersTablespoon()
    ensures ParseMeasure(ParserInputs.FromStr("3/4  tablespoon other")) == Parsed(ParserInputs.ParserInput(" other", 15),
      MeasureToken(MeasureSingle(New(3, 4), Volume(VolumeUnits.Tablespoon)),
        ParserInputs.CharRange(0, 3), ParserInputs.CharRange(5, 15), "3/4  tablespoon"))
  {
    var s := "3/4  tablespoon other";
    ThreeQuartersTablespoonNumber(s);
    ThreeQuartersTablespoonWord(s);
    TablespoonResolves();
    FractionMeasureIs(s, 1, 1, 2, 3, 3, 4, 5, 15, Volume(VolumeUnits.Tablespoon));
  }

  /** Where the fraction of "3/4teaspoon other" stands, and what it comes to. */
  lemma NoSpaceBeforeUnitNumber(s: string)
    requires s == "3/4teaspoon other"
    ensures DigitsSpan(s, 0, 1) && SeparatorAt(s, 1, 1, 2, "/⁄") && DigitsSpan(s, 2, 3) && DigitsFrom(s, 2, 3) != 0
    ensures DigitsFrom(s, 0, 1) as real / DigitsFrom(s, 2, 3) as real == 3 as real / 4 as real
  {
    assert DigitsFrom(s, 0, 1) == 3 && DigitsFrom(s, 2, 3) == 4;
  }

  /** Where the unit word of "3/4teaspoon other" stands, and what is left after it. */
  lemma NoSpaceBeforeUnitWord(s: string)
    requires s == "3/4teaspoon other"
    ensures SpacesSpan(s, 3, 3) && LettersSpan(s, 3, 11)
    ensures s[3..11] == "teaspoon" && s[11..] == " other" && s[..11] == "3/4teaspoon"
  {
  }

  /** `parse_measure` on "3/4teaspoon other": the unit may follow the number directly. */
  lemma MeasureNoSpaceBeforeUnit()
    ensures ParseMeasure(ParserInputs.FromStr("3/4teaspoon other")) == Parsed(ParserInputs.ParserInput(" other", 11),
      MeasureToken(MeasureSingle(New(3, 4), Volume(VolumeUnits.Teaspoon)),
        ParserInputs.CharRange(0, 3), ParserInputs.CharRange(3, 11), "3/4teaspoon"))
  {
    var s := "3/4teaspoon other";
    NoSpaceBeforeUnitNumber(s);
    NoSpaceBeforeUnitWord(s);
    TeaspoonResolves();
    FractionMeasureIs(s, 1, 1, 2, 3, 3, 4, 3, 11, Volume(VolumeUnits.Teaspoon));
  }

  /** Where the fraction of "3 /4teaspoon other" stands, and what it comes to. */
  lemma SpaceBeforeSlashNumber(s: string)
    requires s == "3 /4teaspoon other"
    ensures DigitsSpan(s, 0, 1) && SeparatorAt(s, 1, 2, 3, "/⁄") && DigitsSpan(s, 3, 4) && DigitsFrom(s, 3, 4) != 0
    ensures DigitsFrom(s, 0, 1) as real / DigitsFrom(s, 3, 4) as real == 3 as real / 4 as real
  {
    assert DigitsFrom(s, 0, 1) == 3 && DigitsFrom(s, 3, 4) == 4;
  }

  /** Where the unit word of "3 /4teaspoon other" stands, and what is left after it. */
  lemma SpaceBeforeSlashWord(s: string)
    requires s == "3 /4teaspoon other"
    ensures SpacesSpan(s, 4, 4) && LettersSpan(s, 4, 12)
    ensures s[4..12] == "teaspoon" && s[12..] == " other" && s[..12] == "3 /4teaspoon"
  {
  }

  /** `parse_measure` on "3 /4teaspoon other": the number range takes in the white space before the slash. */
  lemma MeasureSpaceBeforeSlash()
    ensures ParseMeasure(ParserInputs.FromStr("3 /4teaspoon other")) == Parsed(ParserInputs.ParserInput(" other", 12),
      MeasureToken(MeasureSingle(New(3, 4), Volume(VolumeUnits.Teaspoon)),
        ParserInputs.CharRange(0, 4), ParserInputs.CharRange(4, 12), "3 /4teaspoon"))
  {
    var s := "3 /4teaspoon other";
    SpaceBeforeSlashNumber(s);
    SpaceBeforeSlashWord(s);
    TeaspoonResolves();
    FractionMeasureIs(s, 1, 2, 3, 4, 3, 4, 4, 12, Volume(VolumeUnits.Teaspoon));
  }

  /** Where the fraction of "3/ 4teaspoon other" stands, and what it comes to. */
  lemma SpaceAfterSlashNumber(s: string)
    requires s == "3/ 4teaspoon other"
    ensures DigitsSpan(s, 0, 1) && SeparatorAt(s, 1, 1, 3, "/⁄") && DigitsSpan(s, 3, 4) && DigitsFrom(s, 3, 4) != 0
    ensures DigitsFrom(s, 0, 1) as real / DigitsFrom(s, 3, 4) as real == 3 as real / 4 as real
  {
    assert DigitsFrom(s, 0, 1) == 3 && DigitsFrom(s, 3, 4) == 4;
  }

  /** Where the unit word of "3/ 4teaspoon other" stands, and what is left after it. */
  lemma SpaceAfterSlashWord(s: string)
    requires s == "3/ 4teaspoon other"
    ensures SpacesSpan(s, 4, 4) && LettersSpan(s, 4, 12)
    ensures s[4..12] == "teaspoon" && s[12..] == " other" && s[..12] == "3/ 4teaspoon"
  {
  }

  /** `parse_measure` on "3/ 4teaspoon other": the number range takes in the white space after the slash. */
  lemma MeasureSpaceAfterSlash()
    ensures ParseMeasure(ParserInputs.FromStr("3/ 4teaspoon other")) == Parsed(ParserInputs.ParserInput(" other", 12),
      MeasureToken(MeasureSingle(New(3, 4), Volume(VolumeUnits.Teaspoon)),
        ParserInputs.CharRange(0, 4), ParserInputs.CharRange(4, 12), "3/ 4teaspoon"))
  {
    var s := "3/ 4teaspoon other";
    SpaceAfterSlashNumber(s);
    SpaceAfterSlashWord(s);
    TeaspoonResolves();
    FractionMeasureIs(s, 1, 1, 3, 4, 3, 4, 4, 12, Volume(VolumeUnits.Teaspoon));
  }

  /** Where the fraction of "3 / 4 teaspoon other" stands, and what it comes to. */
  lemma SpacesAroundSlashNumber(s: string)
    requires s == "3 / 4 teaspoon other"
    ensures DigitsSpan(s, 0, 1) && SeparatorAt(s, 1, 2, 4, "/⁄") && DigitsSpan(s, 4, 5) && DigitsFrom(s, 4, 5) != 0
    ensures DigitsFrom(s, 0, 1) as real / DigitsFrom(s, 4, 5) as real == 3 as real / 4 as real
  {
    assert DigitsFrom(s, 0, 1) == 3 && DigitsFrom(s, 4, 5) == 4;
  }

  /** Where the unit word of "3 / 4 teaspoon other" stands, and what is left after it. */
  lemma SpacesAroundSlashWord(s: string)
    requires s == "3 / 4 teaspoon other"
    ensures SpacesSpan(s, 5, 6) && LettersSpan(s, 6, 14)
    ensures s[6..14] == "teaspoon" && s[14..] == " other" && s[..14] == "3 / 4 teaspoon"
  {
  }

  /** `parse_measure` on "3 / 4 teaspoon other": white space on both sides of the slash. */
  lemma MeasureSpacesAroundSlash()
    ensures ParseMeasure(ParserInputs.FromStr("3 / 4 teaspoon other")) == Parsed(ParserInputs.ParserInput(" other", 14),
      MeasureToken(MeasureSingle(New(3, 4), Volume(VolumeUnits.Teaspoon)),
        ParserInputs.CharRange(0, 5), ParserInputs.CharRange(6, 14), "3 / 4 teaspoon"))
  {
    var s := "3 / 4 teaspoon other";
    SpacesAroundSlashNumber(s);
    SpacesAroundSlashWord(s);
    TeaspoonResolves();
    FractionMeasureIs(s, 1, 2, 4, 5, 3, 4, 6, 14, Volume(VolumeUnits.Teaspoon));
  }

  /** Where the fraction of "13⁄4 teaspoon other" stands, and what it comes to. */
  lemma ThirteenQuartersNumber(s: string)
    requires s == "13⁄4 teaspoon other"
    ensures DigitsSpan(s, 0, 2) && SeparatorAt(s, 2, 2, 3, "/⁄") && DigitsSpan(s, 3, 4) && DigitsFrom(s, 3, 4) != 0
    ensures DigitsFrom(s, 0, 2) as real / DigitsFrom(s, 3, 4) as real == 13 as real / 4 as real
  {
    assert DigitsFrom(s, 0, 2) == 13 && DigitsFrom(s, 3, 4) == 4;
  }

  /** Where the unit word of "13⁄4 teaspoon other" stands, and what is left after it. */
  lemma ThirteenQuartersWord(s: string)
    requires s == "13⁄4 teaspoon other"
    ensures SpacesSpan(s, 4, 5) && LettersSpan(s, 5, 13)
    ensures s[5..13] == "teaspoon" && s[13..] == " other" && s[..13] == "13⁄4 teaspoon"
  {
  }

  /** `parse_measure` on "13⁄4 teaspoon other": digits run together before a fraction slash are one numerator. */
  lemma MeasureThirteenQuarters()
    ensures ParseMeasure(ParserInputs.FromStr("13⁄4 teaspoon other")) == Parsed(ParserInputs.ParserInput(" other", 13),
      MeasureToken(MeasureSingle(New(13, 4), Volume(VolumeUnits.Teaspoon)),
        ParserInputs.CharRange(0, 4), ParserInputs.CharRange(5, 13), "13⁄4 teaspoon"))
  {
    var s := "13⁄4 teaspoon other";
    ThirteenQuartersNumber(s);
    ThirteenQuartersWord(s);
    TeaspoonResolves();
    FractionMeasureIs(s, 2, 2, 3, 4, 13, 4, 5, 13, Volume(VolumeUnits.Teaspoon));
  }

  /** Where the whole number and the fraction of "1 3 / 4 teaspoon other" stand, and what they come to. */
  lemma MixedSpacedSlashNumber(s: string)
    requires s == "1 3 / 4 teaspoon other"
    ensures DigitsSpan(s, 0, 1) && SpacesSpan(s, 1, 2) && DigitsSpan(s, 2, 3)
    ensures SeparatorAt(s, 3, 4, 6, "/⁄") && DigitsSpan(s, 6, 7) && DigitsFrom(s, 6, 7) != 0
    ensures DigitsFrom(s, 2, 3) as real / DigitsFrom(s, 6, 7) as real == 3 as real / 4 as real
    ensures DigitsFrom(s, 0, 1) as real + 3 as real / 4 as real == 7 as real / 4 as real
  {
    assert DigitsFrom(s, 0, 1) == 1 && DigitsFrom(s, 2, 3) == 3 && DigitsFrom(s, 6, 7) == 4;
  }

  /** Where the unit word of "1 3 / 4 teaspoon other" stands, and what is left after it. */
  lemma MixedSpacedSlashWord(s: string)
    requires s == "1 3 / 4 teaspoon other"
    ensures SpacesSpan(s, 7, 8) && LettersSpan(s, 8, 16)
    ensures s[8..16] == "teaspoon" && s[16..] == " other" && s[..16] == "1 3 / 4 teaspoon"
  {
  }

  /** `parse_measure` on "1 3 / 4 teaspoon other": a whole number and a fraction, with white space around the slash, make seven quarters. */
  lemma MeasureMixedSpacedSlash()
    ensures ParseMeasure(ParserInputs.FromStr("1 3 / 4 teaspoon other")) == Parsed(ParserInputs.ParserInput(" other", 16),
      MeasureToken(MeasureSingle(New(7, 4), Volume(VolumeUnits.Teaspoon)),
        ParserInputs.CharRange(0, 7), ParserInputs.CharRange(8, 16), "1 3 / 4 teaspoon"))
  {
    var s := "1 3 / 4 teaspoon other";
    MixedSpacedSlashNumber(s);
    MixedSpacedSlashWord(s);
    TeaspoonResolves();
    MixedMeasureIs(s, 1, 2, 3, 4, 6, 7, 3, 4, 7, 4, 8, 16, Volume(VolumeUnits.Teaspoon));
  }

  /** Where the whole number and the fraction of "1 3⁄4 teaspoon other" stand, and what they come to. */
  lemma MixedFractionSlashNumber(s: string)
    requires s == "1 3⁄4 teaspoon other"
    ensures DigitsSpan(s, 0, 1) && SpacesSpan(s, 1, 2) && DigitsSpan(s, 2, 3)
    ensures SeparatorAt(s, 3, 3, 4, "/⁄") && DigitsSpan(s, 4, 5) && DigitsFrom(s, 4, 5) != 0
    ensures DigitsFrom(s, 2, 3) as real / DigitsFrom(s, 4, 5) as real == 3 as real / 4 as real
    ensures DigitsFrom(s, 0, 1) as real + 3 as real / 4 as real == 7 as real / 4 as real
  {
    assert DigitsFrom(s, 0, 1) == 1 && DigitsFrom(s, 2, 3) == 3 && DigitsFrom(s, 4, 5) == 4;
  }

  /** Where the unit word of "1 3⁄4 teaspoon other" stands, and what is left after it. */
  lemma MixedFractionSlashWord(s: string)
    requires s == "1 3⁄4 teaspoon other"
    ensures SpacesSpan(s, 5, 6) && LettersSpan(s, 6, 14)
    ensures s[6..14] == "teaspoon" && s[14..] == " other" && s[..14] == "1 3⁄4 teaspoon"
  {
  }

  /** `parse_measure` on "1 3⁄4 teaspoon other": a whole number and a fraction with the fraction slash make seven quarters. */
  lemma MeasureMixedFractionSlash()
    ensures ParseMeasure(ParserInputs.FromStr("1 3⁄4 teaspoon other")) == Parsed(ParserInputs.ParserInput(" other", 14),
      MeasureToken(MeasureSingle(New(7, 4), Volume(VolumeUnits.Teaspoon)),
        ParserInputs.CharRange(0, 5), ParserInputs.CharRange(6, 14), "1 3⁄4 teaspoon"))
  {
    var s := "1 3⁄4 teaspoon other";
    MixedFractionSlashNumber(s);
    MixedFractionSlashWord(s);
    TeaspoonResolves();
    MixedMeasureIs(s, 1, 2, 3, 3, 4, 5, 3, 4, 7, 4, 6, 14, Volume(VolumeUnits.Teaspoon));
  }

  /** Where the whole number and the glyph of "1 ¾ teaspoon other" stand, and what they come to. */
  lemma MixedGlyphNumber(s: string)
    requires s == "1 ¾ teaspoon other"
    ensures DigitsSpan(s, 0, 1) && SpacesSpan(s, 1, 2)
    ensures 2 < |s| && Glyphs()[2].0 == s[2] && forall h :: 0 <= h < 2 ==> Glyphs()[h].0 != s[2]
    ensures DigitsFrom(s, 0, 1) as real + Glyphs()[2].1 as real / Glyphs()[2].2 as real == 7 as real / 4 as real
  {
    assert DigitsFrom(s, 0, 1) == 1 && Glyphs()[2].1 == 3 && Glyphs()[2].2 == 4;
  }

  /** Where the unit word of "1 ¾ teaspoon other" stands, and what is left after it. */
  lemma MixedGlyphWord(s: string)
    requires s == "1 ¾ teaspoon other"
    ensures SpacesSpan(s, 3, 4) && LettersSpan(s, 4, 12)
    ensures s[4..12] == "teaspoon" && s[12..] == " other" && s[..12] == "1 ¾ teaspoon"
  {
  }

  /** `parse_measure` on "1 ¾ teaspoon other": a whole number and a glyph make seven quarters. */
  lemma MeasureMixedGlyph()
    ensures ParseMeasure(ParserInputs.FromStr("1 ¾ teaspoon other")) == Parsed(ParserInputs.ParserInput(" other", 12),
      MeasureToken(MeasureSingle(New(7, 4), Volume(VolumeUnits.Teaspoon)),
        ParserInputs.CharRange(0, 3), ParserInputs.CharRange(4, 12), "1 ¾ teaspoon"))
  {
    var s := "1 ¾ teaspoon other";
    MixedGlyphNumber(s);
    MixedGlyphWord(s);
    TeaspoonResolves();
    MixedGlyphMeasureIs(s, 1, 2, 2, 7, 4, 4, 12, Volume(VolumeUnits.Teaspoon));
  }

  /** `parse_measure` on "3. Line": a point with no digits after it is no number, so there is no measure. */
  lemma MeasurePointBeforeWordFails()
    ensures ParseMeasure(ParserInputs.FromStr("3. Line")).NoParse?
  {
    PointWithoutFractionFails("3. Line", 1, 1, 3);
  }

  /** `parse_measure` on "10 times": a word that names no unit becomes a unitless unit. */
  lemma MeasureUnitless()
    ensures ParseMeasure(ParserInputs.FromStr("10 times")) == Parsed(ParserInputs.ParserInput("", 8),
      MeasureToken(MeasureSingle(FromInteger(10), Unitless(UnitlessUnits.New("times"))),
        ParserInputs.CharRange(0, 2), ParserInputs.CharRange(3, 8), "10 times"))
  {
    var s := "10 times";
    assert DigitsSpan(s, 0, 2) && DigitsFrom(s, 0, 2) == 10;
    assert SpacesSpan(s, 2, 3) && LettersSpan(s, 3, 8);
    assert s[3..8] == "times" && s[8..] == "" && s[..8] == s;
    TimesIsUnitless();
    IntegerMeasureIs(s, 2, 3, 8, Unitless(UnitlessUnits.New("times")));
  }
}
