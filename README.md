# recipe-measures in Dafny

This project models recipe-measures, a Rust library that finds quantities
such as `1 ¾ cups`, `0.2 tsp` or `3/4 teaspoon` in free recipe text. Each
quantity becomes an exact rational value in a unit, and from there an
amount in the base unit of its dimension. The model covers these parts:

- **Position cursor** (`char_indexing.dfy`, `parser_input.dfy`).
  - Text is `seq<char>`, and each character has its UTF-8 width.
  - `char_slice` slices by character range.
  - `char_index_for_byte` maps a byte offset to a character index.
  - `ParserInput` is a piece of the document together with the character index where it starts.
  - This part also holds the nom input operations of that type: `take`, `take_split`, the three `Slice` impls and `Offset`.
- **nom primitives** (`nom.dfy`): the parsers the grammar is built from.
  - `multispace0`, `digit1`, `alpha1`, `u32`, `char`, `one_of`, `take(1)` and `consumed`.
  - Each is defined by what it accepts and what it leaves, and is shown equal to how nom computes it through byte offsets and slices.
- **Measure grammar** (`parse_measure.dfy`).
  - `parse_integer`, `parse_decimal`, `ascii_rational`, `unicode_rational`, `simple_rational`, `multi_rational` and `parse_rational`.
  - The unit resolver `parse_unit`: first exact alias, else the last case-insensitive match, else a unitless unit named by the word.
  - `parse_measure` and the `MeasureToken` accessors.
  - The number parsers are functions of a text and a position. Lemmas equate them with the nom parsers applied to the rest of the input.
- **Document scanner** (`parse_recipe.dfy`): `parse_recipe`, the fold that tries a measure at each position and otherwise skips one character.
- **Units, dimensions, measures and magnitudes**.
  - Files: `units.dfy`, `volume.dfy`, `temperature.dfy`, `unitless.dfy`, `dimension.dfy`, `measure.dfy` and `magnitude.dfy`.
  - They hold the static unit tables, exact conversion to and from base units, `is_good`, `Display` for single measures, multi and range measures, scaling, and `best_measure` on ranges.
- **`Rational32`** (`rationals.dfy`): exact fractions kept in lowest terms. Two reduced fractions with the same value are the same pair, so structural equality agrees with Rust's `Eq`.
- **Examples** (`parse_measure_examples.dfy`): the test cases of `src/parser/parse_measure.rs`. The other test cases are example lemmas next to the members they exercise.

The imperative code of the source is modelled by methods with loops. Each
method is proved against a function that states what it computes:

- `CharIndexForByte`, for the `find_map` that counts down the byte offset;
- the `CharIndices` class and `CharSlice`, for the `nth` calls on a character iterator;
- `ScanAliases` and `FindUnit`, for the nested loops of `parse_unit`;
- `FoldMany`, the `fold_many0` that `ParseRecipe` runs to push tokens. It is generic over its step, as nom's combinator is.

## Behaviour worth knowing

- **Alias order.** The aliases of a volume or temperature unit are its name, its plural name and its extra aliases, with the abbreviation last (src/utils.rs:84-90).
- **Zero denominator.** A zero denominator is an ordinary parse failure. `map_res` turns the `InfiniteNumber` error into a recoverable nom error (src/parser/parse_measure.rs:84-95), so no distinct error reaches the caller.
- **"13⁄4".** It is thirteen quarters, because `u32` reads "13" before the slash (the test at src/parser/parse_measure.rs:393-396).
- **Number order.** `parse_measure` tries integer, decimal and rational readings in that order, each together with its unit (src/parser/parse_measure.rs:27-31). A whole number is therefore taken only when a unit word follows it.

## Model

| member | source | states |
|---|---|---|
| Text.ToLower | src/parser/parse_measure.rs:131 | ASCII lower-casing sends letters to lower-case letters and leaves every other character unchanged |
| Text.Lower | src/parser/parse_measure.rs:131 | `to_lowercase` keeps the length and lower-cases each character |
| Text.NatToString | src/measure.rs:92 | the decimal digits of n have no leading zero ("0" only for zero) |
| Text.NatToStringRoundTrip | src/measure.rs:92 | reading back the digits `Display` writes gives the number again |
| Text.LowerKeepsAlpha | src/parser/parse_measure.rs:123-131 | lower-casing a word of letters gives a word of letters |
| CharIndexing.Utf8Width | src/parser/char_indexing.rs:32 | `len_utf8` is between one and four bytes |
| CharIndexing.ByteLen | src/parser/mod.rs:40-44 | the byte length of a text is at least its character count |
| CharIndexing.ByteLenSplit | src/parser/mod.rs:78-84 | cutting a text at character k cuts its bytes at the offset of character k |
| CharIndexing.ByteOffsetIncreasing | src/parser/char_indexing.rs:15-17 | a later character starts at a strictly later byte |
| CharIndexing.OffsetZeroIff | src/parser/char_indexing.rs:30-35 | only the first character starts at byte 0 |
| CharIndexing.CharsStartingBelowIsFirst | src/parser/char_indexing.rs:28-39 | the character index of byte b counts exactly the leading characters that start before b |
| CharIndexing.CharsStartingBelowUnique | src/parser/char_indexing.rs:28-39 | that property determines the index uniquely |
| CharIndexing.CharIndexOfOffset | src/parser/char_indexing.rs:28-39 | at the first byte of character k the index is k |
| CharIndexing.CharIndexPastEnd | src/parser/char_indexing.rs:38 | an offset at or past the last byte gives the character count |
| CharIndexing.CharIndexMonotone | src/parser/char_indexing.rs:28-39 | a later byte never gives an earlier character |
| CharIndexing.OffsetIsBoundary | src/parser/char_indexing.rs:19 | the byte where each character starts is a character boundary, so slicing there is allowed |
| CharIndexing.CharIndexForByte | src/parser/char_indexing.rs:28-39 | the loop that subtracts character widths from the offset returns the number of characters starting below it; a byte inside a glyph gives that glyph's index |
| CharIndexing.CharIndices.constructor | src/parser/char_indexing.rs:15 | a fresh iterator over the byte offsets of the characters starts at the first character |
| CharIndexing.CharIndices.Next | src/parser/char_indexing.rs:15-17 | yields the byte offset of the next character and advances one character, or yields None at the end |
| CharIndexing.CharIndices.Nth | src/parser/char_indexing.rs:16-17 | skips n characters and yields the byte offset of the next one, or None (and is exhausted) when there are too few |
| CharIndexing.CharSlice | src/parser/char_indexing.rs:13-26 | `char_slice` equals `CharSliceOf`: `Some("")` for an empty range; otherwise `Some` exactly when characters start and end exist, and then characters start..end |
| CharIndexing.CharSliceExamples | src/parser/char_indexing.rs:70-83 | the slicing tests, multi-byte glyphs and the empty text included |
| CharIndexing.CharIndexForByteExamples | src/parser/char_indexing.rs:86-97 | the byte-to-character tests: 5 and 6 inside "⅐" give 4, 7 gives 5, 10 gives 6, and offsets past the end give the count |
| CharIndexing.CowCharSlice | src/parser/char_indexing.rs:52-58 | the `Cow` slice is the `&str` slice of its text and stays borrowed or owned |
| CharIndexing.CowCharIndexForByte | src/parser/char_indexing.rs:60-62 | the `Cow` impl agrees with the `&str` impl |
| CharIndexing.CharSliceMissesLastChar | src/parser/char_indexing.rs:15-19 | on "12" the range 1..2 is the character "2", yet `char_slice` returns None |
| CharIndexing.CharSliceCorrectedComplete | src/parser/char_indexing.rs:13-26 | the corrected slice returns every in-bounds range and agrees with `char_slice` wherever that succeeds |
| ParserInputs.New | src/parser/mod.rs:27-29 | `new` stores the text and its starting character index |
| ParserInputs.FromStr | src/parser/mod.rs:147-151 | a whole document starts at character 0 and covers all of its characters |
| ParserInputs.CharIndex | src/parser/mod.rs:31-33 | `char_index` lies within the piece's document range |
| ParserInputs.CharIndexAtOffset | src/parser/mod.rs:31-33 | at the first byte of character k of the piece, `char_index` is the start index plus k |
| ParserInputs.Range | src/parser/mod.rs:35-38 | `range` starts at the piece's index and is as long as the piece in characters |
| ParserInputs.InputLen | src/parser/mod.rs:40-44 | `input_len` is the length in bytes, not in characters |
| ParserInputs.Take | src/parser/mod.rs:71-76 | `take` keeps the first `count` bytes at the same document position |
| ParserInputs.TakeSplit | src/parser/mod.rs:78-84 | `take_split` gives (suffix, prefix): together they are the piece; the prefix keeps the index and the suffix starts where the prefix ends |
| ParserInputs.SliceRange | src/parser/mod.rs:87-92 | `slice(a..b)` is the text between the byte offsets, placed at the start index plus the byte offset a |
| ParserInputs.SliceRangeMislocates | src/parser/mod.rs:87-92 | on "½2" the slice of bytes 2..3 is "2" placed at index 2, which is not where it sits in the document |
| ParserInputs.SliceRangeCorrected | src/parser/mod.rs:87-92 | with the start converted by `char_index`, the slice sits where its text is in the document |
| ParserInputs.SliceFrom | src/parser/mod.rs:94-99 | `slice(a..)` is a suffix of the piece placed at `char_index(a)` |
| ParserInputs.SliceTo | src/parser/mod.rs:101-105 | `slice(..b)` is the first b bytes at the same position |
| ParserInputs.Offset | src/parser/mod.rs:107-111 | `offset` is the byte count of the characters that precede the suffix |
| ParserInputs.SplitAtChar | src/parser/mod.rs:71-105 | at the byte where character k starts, `take`, `take_split` and both one-sided slices agree with cutting the piece at character k |
| ParserInputs.CharIndexExamples | src/parser/mod.rs:178-181 | on "½2", `char_index(2)` is 1 and `char_index(3)` is 2 |
| ParserInputs.RangeExamples | src/parser/mod.rs:184-191 | the range tests, at start indices 0, 1 and 2 |
| Nom.AdvanceConsumes | src/parser/parse_recipe.rs:33 | moving past k > 0 characters consumes exactly k characters |
| Nom.RunEnd | src/parser/mod.rs:58-63 | the run of a character class from position i ends at the first character outside the class |
| Nom.RunLength | src/parser/mod.rs:58-63 | the run at the start of the text is all in the class, and so is nothing just after it |
| Nom.Run | src/parser/mod.rs:58-63 | a run split succeeds exactly when empty runs are allowed or the run is non-empty; it splits the piece there, keeping the positions |
| Nom.SplitAtPositionComplete | src/parser/mod.rs:58-63 | `split_at_position_complete`, computed by `position` and `take_split` on byte offsets, is the possibly empty run |
| Nom.SplitAtPosition1Complete | src/parser/mod.rs:58-63 | `split_at_position1_complete`, computed the same way, is the run and fails on an empty one |
| Nom.Multispace0 | src/parser/parse_measure.rs:28-30 | `multispace0` always succeeds and skips exactly the leading spaces, tabs, carriage returns and newlines |
| Nom.Digit1 | src/parser/parse_measure.rs:53 | `digit1` succeeds exactly on a leading digit and takes all the digits that follow |
| Nom.Alpha1 | src/parser/parse_measure.rs:123 | `alpha1` succeeds exactly on a leading ASCII letter and takes all the letters that follow |
| Nom.U32 | src/parser/parse_measure.rs:45 | `u32` succeeds exactly on a leading digit, takes all the digits and yields the number they denote |
| Nom.U32ByOffsets | src/parser/parse_measure.rs:45 | `u32` computed through byte offsets and slices equals `U32` |
| Nom.CharP | src/parser/parse_measure.rs:52 | `char(c)` succeeds exactly when the next character is c, and consumes one character |
| Nom.CharPByOffsets | src/parser/parse_measure.rs:52 | `char(c)` computed through the byte width of c equals `CharP` |
| Nom.OneOf | src/parser/parse_measure.rs:86 | `one_of(list)` succeeds exactly when the next character is in the list, and yields it |
| Nom.OneOfByOffsets | src/parser/parse_measure.rs:86 | `one_of` computed through byte offsets equals `OneOf` |
| Nom.Take1 | src/parser/parse_recipe.rs:33 | `take(1)` succeeds exactly on a non-empty input and yields its first character |
| Nom.Take1ByOffsets | src/parser/parse_recipe.rs:33 | `take(1)` computed by `take_split` at the byte offset of the second character equals `Take1` |
| Nom.Consumed | src/parser/parse_measure.rs:28-30 | `consumed` yields the part of the input before the rest, at the input's position |
| Nom.ConsumedByOffsets | src/parser/parse_measure.rs:28-30 | `consumed` computed by `offset` and `slice(..n)` equals `Consumed` |
| Nom.RunEndShift | src/parser/parse_measure.rs:26-31 | run ends counted in a suffix are the run ends of the whole text shifted |
| Nom.RunShift | src/parser/parse_measure.rs:26-31 | a run split on the rest of the input after i characters stops where the run from position i ends |
| Nom.RunIsSplit | src/parser/mod.rs:78-84 | a run split is the cut of the piece at the run's length |
| Nom.Multispace0At | src/parser/parse_measure.rs:28-30 | `multispace0` read at a position ends where the white space there ends |
| Nom.Multispace0Reads | src/parser/parse_measure.rs:28-30 | white space up to j with none after is exactly what `multispace0` reads |
| Nom.DigitsFromSlice | src/parser/parse_measure.rs:45 | reading digits at a position gives the value of those digits as a string |
| Nom.U32At | src/parser/parse_measure.rs:45 | `u32` read at a position: it succeeds exactly on a digit, takes every digit that follows, and yields their value |
| Nom.U32Reads | src/parser/parse_measure.rs:45 | digits up to j with none after are read as the number they denote |
| Nom.U32Shift | src/parser/parse_measure.rs:45 | `u32` on the rest of the input after i characters is `U32At` at position i |
| Nom.Alpha1Shift | src/parser/parse_measure.rs:123 | `alpha1` on the rest of the input after i characters stops where the letters from i end |
| Nom.CharPShift | src/parser/parse_measure.rs:52 | `char(c)` on the rest of the input after i characters succeeds exactly when character i is c |
| Nom.OneOfShift | src/parser/parse_measure.rs:86 | `one_of` on the rest of the input after i characters succeeds exactly when character i is in the list |
| Nom.CharIsOneOf | src/parser/parse_measure.rs:86 | `char(c)` behaves exactly as `one_of([c])` |
| Rationals.Normalize | src/parser/parse_measure.rs:57-60 | `Ratio::new` gives the reduced fraction with the value n/d |
| Rationals.ReducedUnique | src/measure.rs:21 | two reduced fractions with the same value are equal, so derived equality is equality of value |
| Rationals.New | src/parser/parse_measure.rs:89 | `Rational32::new(n, d)` has the value n/d |
| Rationals.FromInteger | src/parser/parse_measure.rs:45 | `from_integer(i)` has the value i |
| Rationals.Add | src/parser/parse_measure.rs:62 | the sum has the sum of the values |
| Rationals.Sub | src/measure.rs:94 | the difference has the difference of the values |
| Rationals.Mul | src/units/mod.rs:33-35 | the product has the product of the values |
| Rationals.Div | src/units/mod.rs:37-39 | the quotient by a non-zero fraction has the quotient of the values |
| Rationals.Trunc | src/measure.rs:98 | `to_integer` rounds toward zero: for n/d with n >= 0 it is the t with t·d <= n < (t+1)·d, and for n < 0 the t <= 0 with (t−1)·d < n <= t·d |
| Rationals.Fract | src/measure.rs:94 | `fract` is the value minus its truncation toward zero |
| Rationals.IsIntegerIff | src/measure.rs:66 | `is_integer` holds exactly when the value is whole |
| Rationals.AddAssociative | src/measure.rs:124-131 | addition is associative, so the fold over a concatenation splits |
| Rationals.AddZero | src/measure.rs:129 | zero, the fold's start, is neutral for addition |
| Rationals.MulOne | src/magnitude.rs:145-167 | multiplying by one changes nothing |
| Rationals.ValSign | src/measure.rs:93 | a reduced fraction is positive, zero or below one exactly as its numerator is positive, zero or below its denominator |
| Rationals.TruncSplit | src/measure.rs:98 | for a non-negative value, `to_integer` is its whole part |
| VolumeUnits.All | src/units/volume.rs:11 | `VolumeUnit::all()` has ten units, none of them twice |
| VolumeUnits.AllListsEveryUnit | src/units/volume.rs:11 | `VolumeUnit::all()` lists every volume unit |
| VolumeUnits.Multiple | src/units/volume.rs:36-45 | every volume multiple is a positive whole number of drops |
| VolumeUnits.MultiplesIncrease | src/units/volume.rs:36-45 | in declaration order the multiples strictly increase |
| VolumeUnits.Description | src/units/volume.rs:36-45 | the singular description is the unit's name, and the plural is the first string of its table row |
| VolumeUnits.Abbreviation | src/units/volume.rs:36-45 | the abbreviation is the second string of the unit's table row |
| VolumeUnits.ExtraAliases | src/units/volume.rs:36-45 | the further aliases are the remaining strings of the table row, in order |
| VolumeUnits.Aliases | src/utils.rs:84-90 | an alias list starts with the name and the plural and ends with the abbreviation |
| VolumeUnits.AliasExamples | src/units/volume.rs:40-42 | the alias lists of teaspoon, tablespoon and cup, in table order |
| TemperatureUnits.All | src/units/temperature.rs:10 | `TemperatureUnit::all()` has two different units |
| TemperatureUnits.AllListsEveryUnit | src/units/temperature.rs:10 | `TemperatureUnit::all()` lists both scales |
| TemperatureUnits.Multiple | src/units/temperature.rs:29-30 | both scales have multiple one |
| TemperatureUnits.Description | src/units/temperature.rs:29-30 | the description is the scale's name, the same singular and plural |
| TemperatureUnits.Abbreviation | src/units/temperature.rs:29-30 | the abbreviations are "F" and "C" |
| TemperatureUnits.ExtraAliases | src/units/temperature.rs:29-30 | the further aliases are "degrees" and "°F" for Fahrenheit and "°C" for Celsius |
| TemperatureUnits.Aliases | src/utils.rs:84-90 | an alias list starts with the name and the plural and ends with the abbreviation |
| TemperatureUnits.AliasExamples | src/units/temperature.rs:29-30 | Fahrenheit: fahrenheit, fahrenheit, degrees, °F, F; Celsius: celsius, celsius, °C, C |
| UnitlessUnits.New | src/units/unitless.rs:29-35 | `Unitless::new` stores the word, which is then both the abbreviation and the description, plural or not |
| UnitlessUnits.Multiple | src/units/unitless.rs:42-44 | the multiple is one |
| UnitlessUnits.Abbreviation | src/units/unitless.rs:46-48 | the abbreviation is the word itself |
| UnitlessUnits.Description | src/units/unitless.rs:50-52 | the description is the word itself, plural or not |
| UnitlessUnits.Aliases | src/units/unitless.rs:54-56 | there are no aliases |
| Units.DimensionOf | src/units/mod.rs:29 | a unit's dimension is volume, temperature or unitless exactly when the unit is a volume, temperature or unitless unit |
| Units.Abbreviation | src/units/mod.rs:41 | `abbreviation` comes from the unit's own kind |
| Units.Description | src/units/mod.rs:43 | `description`, singular or plural, comes from the unit's own kind |
| Units.Aliases | src/units/mod.rs:45 | `aliases` comes from the unit's own kind |
| Units.AliasesShape | src/units/mod.rs:45 | a unit has no aliases exactly when it is unitless; otherwise its aliases start with the name and the plural and end with the abbreviation |
| Units.Multiple | src/units/mod.rs:31 | every unit's multiple is a positive whole number |
| Units.ValueToBase | src/units/mod.rs:33-35 | `value_to_base` is the value times the multiple |
| Units.ValueFromBase | src/units/mod.rs:37-39 | `value_from_base` is the base value divided by the multiple |
| Units.FromBaseOfToBase | src/units/mod.rs:33-39 | converting to base units and back gives the value again |
| Units.ToBaseOfFromBase | src/units/mod.rs:33-39 | expressing a base value in a unit and converting back gives the base value again |
| Units.ConvertThroughOtherUnit | src/units/mod.rs:33-39 | a value converted from u into w and back into u is unchanged |
| Units.VolumeUnitList | src/units/volume.rs:11 | `volume::UNITS` holds the volume units in declaration order |
| Units.TemperatureUnitList | src/units/temperature.rs:10 | `temperature::UNITS` is Fahrenheit, then Celsius |
| Units.UnitfulUnits | src/units/mod.rs:19-25 | `UNITFUL_UNITS` is the ten volume units in order, then the two temperature units |
| Units.UnitfulUnitsComplete | src/units/mod.rs:19-25 | a unit is in `UNITFUL_UNITS` exactly when it is not unitless |
| DimensionTables.UnitsOf | src/dimension.rs:10-15 | `units()` lists only units of that dimension |
| DimensionTables.CommonUnitsOf | src/dimension.rs:10-15 | `common_units()` lists only units of that dimension |
| DimensionTables.FromUnit | src/dimension.rs:25-29 | `Dimension::from(u)` is a dimension whose unit list holds u exactly when u is unitful |
| DimensionTables.UnitListsComplete | src/units/unitless.rs:6-9 | every unitful unit is listed under its own dimension, and no unitless unit is |
| DimensionTables.CommonUnitsTable | src/units/volume.rs:12-19 | the common units: teaspoon [1/8], tablespoon [1/2], cup [1/4, 1/3]; none for temperature and unitless |
| Measures.BaseValue | src/measure.rs:47-49 | `base_value` is the value times the unit's multiple |
| Measures.SingleFromBase | src/measure.rs:43-45 | `from_base(b, u)` is a measure in u whose base value is b |
| Measures.FromBaseOfBaseValue | src/measure.rs:43-49 | a measure is recovered from its base value and its unit |
| Measures.CommonFractions | src/measure.rs:34 | `COMMON_FRACTIONS` is 1/8 and 1/3 |
| Measures.IsGood | src/measure.rs:64-71 | `is_good`: non-zero, and whole or a whole number of 1/8 or of 1/3 |
| Measures.IsGoodIff | src/measure.rs:64-71 | `is_good` holds exactly when the value is non-zero and v, 8v or 3v is whole |
| Measures.SingleDimension | src/measure.rs:75-77 | a single measure has its unit's dimension |
| Measures.SingleMagnitude | src/measure.rs:79-81 | the magnitude of a single measure is single, in its unit's dimension, with its base value |
| Measures.UnitLabel | src/measure.rs:86-90 | the unit text is the abbreviation, or in alternate mode the description, plural when the value is above one |
| Measures.Display | src/measure.rs:84-110 | `Display for SingleMeasure`: "n u" for a whole value, "w p/q u" above one, "p/q u" otherwise |
| Measures.DisplayEndsWithUnitLabel | src/measure.rs:91-109 | whatever the number's form, the text ends with a space and the unit text, after a non-empty number |
| Measures.MixedNumberParts | src/measure.rs:93-101 | for a non-integer above one, `Display` writes a whole part of at least one and a proper fraction that add up to the value |
| Measures.QuarterFractions | src/measure.rs:91-108 | 3/4 and 7/4 are in lowest terms |
| Measures.DisplayExamples | src/measure.rs:84-110 | "2 C"; "1 3/4 teaspoons" in alternate mode (plural above one); "3/4 C", and "3/4 cup" in alternate mode |
| Measures.DisplayMixed | src/measure.rs:93-101 | 7/4 teaspoon in alternate mode is "1 3/4 teaspoons" |
| Measures.DisplayFraction | src/measure.rs:102-108 | 3/4 cup is "3/4 C", and "3/4 cup" in alternate mode |
| Measures.SumBaseValues | src/measure.rs:124-131 | `MultiMeasure::base_value` folds the parts' base values from zero, in order |
| Measures.SumBaseValuesAppend | src/measure.rs:124-131 | the base value of a concatenation of parts is the sum of theirs |
| Measures.SumBaseValuesSingleton | src/measure.rs:124-131 | a multi measure of one part has that part's base value |
| Measures.MultiDimension | src/measure.rs:134-139 | a non-empty multi measure has its first part's dimension |
| Measures.MultiMagnitude | src/measure.rs:133-144 | the magnitude of a non-empty multi measure is single, in its first part's dimension, with the summed base value |
| Measures.NewRange | src/measure.rs:152-163 | `RangeMeasure::new` stores both end points |
| Measures.RangeFromBase | src/measure.rs:165-184 | each end point of `from_base` has its own unit and the given base value |
| Measures.RangeDimension | src/measure.rs:188-190 | a range has its lower end's dimension |
| Measures.RangeMagnitude | src/measure.rs:187-198 | a range's magnitude is a range of the end points' base values in the lower end's dimension |
| Measures.MeasureSingle | src/measure.rs:201-204 | `Measure::single` is a single measure of that value and unit |
| Measures.MeasureDimension | src/measure.rs:14-26 | `dimension` comes from the measure's own variant |
| Measures.MeasureMagnitude | src/measure.rs:14-26 | the dispatched magnitude has the measure's dimension and is a range exactly for a range measure |
| Magnitudes.NewSingle | src/magnitude.rs:31-36 | `single` stores its fields |
| Magnitudes.NewRange | src/magnitude.rs:38-48 | `range` stores its fields |
| Magnitudes.Scale | src/magnitude.rs:145-167 | multiplying scales every base value by k and keeps the variant and the dimension |
| Magnitudes.ScaleByOne | src/magnitude.rs:145-167 | scaling by one gives the magnitude back |
| MagnitudeMeasures.MeasureIn | src/magnitude.rs:57-70 | `measure(u)` writes the magnitude in u: a single measure, or a range with both ends in u, with the same base values |
| MagnitudeMeasures.FromMeasure | src/magnitude.rs:170-174 | `Magnitude::from` keeps the dimension and gives a range exactly for a range measure |
| MagnitudeMeasures.MeasureInRoundTrip | src/magnitude.rs:57-70 | for a unit of the magnitude's own dimension, the magnitude of `measure(u)` is the magnitude again |
| MagnitudeMeasures.BestMeasures | src/magnitude.rs:87-89 | `best_measures` of a range is empty |
| MagnitudeMeasures.BestMeasure | src/magnitude.rs:131-142 | `best_measure` is the first of `best_measures`, and None when there are none |
| MagnitudeMeasures.VolumeLadder | src/units/volume.rs:54-92 | 1 drop = 1/96 tsp, 1 smidgen = 1/32 tsp, 1 pinch = 1/16 tsp, 1 dash = 1/8 tsp, 1 tsp = 1/3 tbsp, 1 tbsp = 1/16 cup, 1 cup = 1/2 pint, 1 pint = 1/2 quart, 1 quart = 1/4 gallon, as equal magnitudes |
| MagnitudeMeasures.Rung | src/units/volume.rs:54-92 | when unit v holds d of unit u, one u is the same magnitude as 1/d of a v |
| ParseMeasures.ParseInteger | src/parser/parse_measure.rs:44-46 | succeeds exactly on a digit, takes all the digits and yields the whole number they denote |
| ParseMeasures.IntegerReads | src/parser/parse_measure.rs:44-46 | digits up to a non-digit are read as that number |
| ParseMeasures.Separator | src/parser/parse_measure.rs:52 | white space, one character of the list and white space: where they end, or why there are none |
| ParseMeasures.SeparatorReads | src/parser/parse_measure.rs:86 | white space, a list character and white space are read as the separator |
| ParseMeasures.DecimalFraction | src/parser/parse_measure.rs:56-60 | the fraction digits f are worth f / 10^len(f) |
| ParseMeasures.ParseDecimal | src/parser/parse_measure.rs:48-65 | a parsed decimal is digits, a point with optional white space around it and digits, worth integer + f / 10^len(f) |
| ParseMeasures.DecimalReads | src/parser/parse_measure.rs:48-65 | conversely, that layout is read as that decimal |
| ParseMeasures.AsciiRational | src/parser/parse_measure.rs:84-95 | a parsed fraction is digits, a "/" or "⁄" with optional white space around it and digits, with a non-zero denominator, worth their quotient |
| ParseMeasures.AsciiRationalReads | src/parser/parse_measure.rs:84-95 | conversely, that layout is read exactly when the denominator is not zero, and then as numerator/denominator |
| ParseMeasures.GlyphValue | src/parser/parse_measure.rs:98-119 | the `alt` over glyphs finds a fraction exactly for a listed glyph, that of its first entry |
| ParseMeasures.UnicodeRational | src/parser/parse_measure.rs:97-120 | succeeds exactly on one of the listed glyphs, consumes one character and yields its fraction |
| ParseMeasures.GlyphsDistinctProper | src/parser/parse_measure.rs:97-120 | the 18 glyphs are distinct proper fractions, and none is a digit, a letter, a slash or a point |
| ParseMeasures.SimpleRational | src/parser/parse_measure.rs:72-74 | succeeds exactly when an ASCII fraction or a glyph does |
| ParseMeasures.SimpleRationalValue | src/parser/parse_measure.rs:72-74 | the result is the ASCII fraction when one reads, and otherwise the glyph |
| ParseMeasures.MultiRational | src/parser/parse_measure.rs:77-82 | a mixed number is a whole number, white space and a simple fraction, worth their sum |
| ParseMeasures.MultiRationalReads | src/parser/parse_measure.rs:77-82 | after digits and white space, a mixed number is read exactly when a simple fraction follows |
| ParseMeasures.ParseRational | src/parser/parse_measure.rs:67-69 | succeeds exactly when a mixed number or a simple fraction does |
| ParseMeasures.ParseRationalValue | src/parser/parse_measure.rs:67-69 | the result is the mixed number when one reads, and otherwise the simple fraction |
| ParseMeasures.ParseNumber | src/parser/parse_measure.rs:27-31 | each of the three number parsers consumes at least one character |
| ParseMeasures.FirstSuchIsFirst | src/parser/parse_measure.rs:126-130 | the first unit passing a test is found exactly when one passes, and no earlier unit passes |
| ParseMeasures.LastSuchIsLast | src/parser/parse_measure.rs:131-133 | the last unit passing a test is found exactly when one passes, and no later unit passes |
| ParseMeasures.LooseAmongIff | src/parser/parse_measure.rs:127-133 | a case-insensitive match among the first n aliases is a lower-cased equality with one of them |
| ParseMeasures.NoLooseMatchByShape | src/parser/parse_measure.rs:131 | a word matches no alias ignoring case when each alias differs in length or in its lower-cased first letter |
| ParseMeasures.ExactIsLoose | src/parser/parse_measure.rs:128-131 | an exact alias also matches ignoring case |
| ParseMeasures.ExactAliasResolves | src/parser/parse_measure.rs:126-130 | a word that is an alias of unit g and of no earlier unit resolves to unit g |
| ParseMeasures.LooseAliasResolves | src/parser/parse_measure.rs:131-141 | a word that is no unit's exact alias and matches unit g ignoring case, but no later unit, resolves to g |
| ParseMeasures.UnitAmongUnitless | src/parser/parse_measure.rs:138-141 | among unitful units, the word becomes a unitless unit named by itself exactly when nothing matches it even ignoring case |
| ParseMeasures.ResolvedUnitless | src/parser/parse_measure.rs:138-141 | the same over `UNITFUL_UNITS` |
| ParseMeasures.UnitParse | src/parser/parse_measure.rs:122-142 | `parse_unit` succeeds exactly on a leading letter, takes all the letters and yields the unit they name |
| ParseMeasures.ScanAliases | src/parser/parse_measure.rs:127-135 | the inner loop finds an exact alias exactly when the word is one; otherwise the secondary match becomes this unit if an alias matches ignoring case |
| ParseMeasures.FindUnitStep | src/parser/parse_measure.rs:126-136 | one unit further through the outer loop: an exact alias decides the unit, and the secondary match is the last loose match so far |
| ParseMeasures.FindUnitEnd | src/parser/parse_measure.rs:138-141 | after all units with no exact match: the secondary match, or a unitless unit |
| ParseMeasures.FindUnit | src/parser/parse_measure.rs:125-141 | the nested loops return the first unit with the word as an exact alias, else the last case-insensitive match, else a unitless unit of the word |
| ParseMeasures.ParseUnit | src/parser/parse_measure.rs:122-142 | `parse_unit` with its loops computes `UnitParse` |
| ParseMeasures.UnitWord | src/parser/parse_measure.rs:122-142 | `parse_unit` read at a position: exactly on a letter, all the letters, and the unit they name |
| ParseMeasures.UnitParseShift | src/parser/parse_measure.rs:122-142 | `parse_unit` on the rest of the input after u characters is `UnitWord` at u |
| ParseMeasures.NumberThenUnit | src/parser/parse_measure.rs:28-30 | `tuple((consumed(number), multispace0, consumed(parse_unit)))` succeeds exactly when the number parses and a letter follows its white space, and then lays out number, white space and unit word |
| ParseMeasures.NumberThenUnitReads | src/parser/parse_measure.rs:28-30 | a number, white space and a run of letters are read as that number and the unit the letters name |
| ParseMeasures.MeasureAt | src/parser/parse_measure.rs:27-31 | a measure found is a well-formed number of one of the three syntaxes followed by its unit |
| ParseMeasures.MeasureAtIff | src/parser/parse_measure.rs:27-31 | a measure is found exactly when one of the three syntaxes followed by a unit reads |
| ParseMeasures.MeasureAtOrder | src/parser/parse_measure.rs:27-31 | the whole-number reading wins when it succeeds, then the decimal reading |
| ParseMeasures.ConsumedText | src/parser/parse_measure.rs:39 | the text cut at `input_len() - remainder.input_len()` bytes is the first k characters |
| ParseMeasures.Token | src/parser/parse_measure.rs:33-41 | the token built from the parts describes the measure written over the first k characters |
| ParseMeasures.ParseMeasure | src/parser/parse_measure.rs:26-42 | `parse_measure` succeeds exactly when a measure reads at the start; the token's raw text is the consumed prefix, its number range covers a number with the token's value, and its unit range holds the letters that name its unit |
| ParseMeasures.ParseMeasureOf | src/parser/parse_measure.rs:33-41 | the token's measure, its two document ranges and its raw text, given the parts found |
| ParseMeasures.FullRange | src/parser/parse_measure.rs:170-172 | `full_range` runs from the number's start to the unit's end |
| ParseMeasures.NumberText | src/parser/parse_measure.rs:174-178 | `number_text` is the start of the raw text, as many characters as the number range is long, and `None` where the source panics |
| ParseMeasures.UnitText | src/parser/parse_measure.rs:180-187 | `unit_text` slices the raw text at the unit range's offsets from the number's start, and gives `None` where the source panics |
| ParseMeasures.TokenTexts | src/parser/parse_measure.rs:170-178 | `full_range` is the document range of the raw text, and `number_text` is the number as written |
| ParseMeasures.UnitTextAlwaysFails | src/parser/parse_measure.rs:180-187 | the unit range ends at the end of the raw text, so `unit_text` as written never succeeds |
| ParseMeasures.UnitTextCorrectedIsUnitWord | src/parser/parse_measure.rs:180-187 | with the corrected slice, the unit text is the unit word as written |
| ParseMeasureExamples.DecimalIs | src/parser/parse_measure.rs:48-65 | a decimal laid out from the start whose parts add up to n/d reads as n/d |
| ParseMeasureExamples.SimpleAsciiIs | src/parser/parse_measure.rs:84-95 | an ASCII fraction laid out from i reads, as a simple fraction, as its value |
| ParseMeasureExamples.GlyphIs | src/parser/parse_measure.rs:97-120 | a glyph reads, as a simple fraction, as its entry's fraction |
| ParseMeasureExamples.FractionIs | src/parser/parse_measure.rs:67-69 | with no mixed reading, `parse_rational` is the simple fraction |
| ParseMeasureExamples.NotMixed | src/parser/parse_measure.rs:67-69 | when no fraction follows the leading digits and white space, `parse_rational` is the simple fraction at the start |
| ParseMeasureExamples.MixedSimpleIs | src/parser/parse_measure.rs:77-82 | a whole number, white space and a simple fraction read as their sum |
| ParseMeasureExamples.MixedIs | src/parser/parse_measure.rs:77-82 | a whole number, white space and an ASCII fraction read as their sum |
| ParseMeasureExamples.MixedGlyphIs | src/parser/parse_measure.rs:77-82 | a whole number, white space and a glyph read as their sum |
| ParseMeasureExamples.WholeOnlyFails | src/parser/parse_measure.rs:67-82 | a whole number followed by neither a slash nor a glyph is no rational |
| ParseMeasureExamples.ZeroDenominatorFails | src/parser/parse_measure.rs:84-95 | a fraction with a zero denominator is no rational |
| ParseMeasureExamples.UnitfulAliasTable | src/units/volume.rs:36-42 | the first seven unitful units in `UNITFUL_UNITS` order, with their alias lists |
| ParseMeasureExamples.UnitIs | src/parser/parse_measure.rs:122-142 | a whole word that resolves to unit g is parsed as unit g |
| ParseMeasureExamples.IntegerNoUnit | src/parser/parse_measure.rs:28 | a whole number followed by no letter is no whole-number measure |
| ParseMeasureExamples.NoPoint | src/parser/parse_measure.rs:48-65 | digits not followed by a point are no decimal |
| ParseMeasureExamples.NotIntegerNorDecimal | src/parser/parse_measure.rs:28-29 | digits followed by neither a letter nor a point give neither of the first two readings |
| ParseMeasureExamples.MeasureOfText | src/parser/parse_measure.rs:33-41 | the token `parse_measure` returns on a whole document |
| ParseMeasureExamples.RationalMeasureIs | src/parser/parse_measure.rs:30 | a fraction, white space and a unit word: that measure |
| ParseMeasureExamples.FractionMeasureIs | src/parser/parse_measure.rs:84-95 | an ASCII fraction n/d, white space and a unit word: n/d of that unit |
| ParseMeasureExamples.MixedMeasureIs | src/parser/parse_measure.rs:77-82 | a mixed number with an ASCII fraction, white space and a unit word: the sum, in that unit |
| ParseMeasureExamples.MixedGlyphMeasureIs | src/parser/parse_measure.rs:77-82 | a mixed number with a glyph, white space and a unit word: the sum, in that unit |
| ParseMeasureExamples.GlyphStartsNoWord | src/parser/parse_measure.rs:97-120 | a fraction glyph is neither a letter nor a point |
| ParseMeasureExamples.IntegerMeasureIs | src/parser/parse_measure.rs:28 | a whole number, white space and a unit word: that many of the unit |
| ParseMeasureExamples.PointWithoutFraction | src/parser/parse_measure.rs:48-65 | digits and a point with no digits after it give no decimal reading of a measure |
| ParseMeasureExamples.PointWithoutFractionFails | src/parser/parse_measure.rs:26-31 | digits and a point with no digits after it are no measure |
| ParseMeasureExamples.NoReadingNoMeasure | src/parser/parse_measure.rs:26-31 | when none of the three number readings is followed by a unit, there is no measure |
| ParseMeasureExamples.TeaspoonResolves | src/parser/parse_measure.rs:122-142 | "teaspoon" is the teaspoon |
| ParseMeasureExamples.TimesMatchesNoSmallMeasure | src/parser/parse_measure.rs:131 | "times" matches neither drop, smidgen, pinch nor dash, even ignoring case |
| ParseMeasureExamples.TimesMatchesNoSpoonOrCup | src/parser/parse_measure.rs:131 | "times" matches neither teaspoon, tablespoon nor cup, even ignoring case |
| ParseMeasureExamples.TimesMatchesNoLargeMeasure | src/parser/parse_measure.rs:131 | "times" matches neither pint, quart nor gallon, even ignoring case |
| ParseMeasureExamples.TimesMatchesNoVolume | src/parser/parse_measure.rs:131 | "times" matches no volume unit, even ignoring case |
| ParseMeasureExamples.TimesMatchesNoTemperature | src/parser/parse_measure.rs:131 | "times" matches no temperature unit, even ignoring case |
| ParseMeasureExamples.TimesIsUnitless | src/parser/parse_measure.rs:138-141 | "times" resolves to the unitless unit "times" |
| ParseMeasureExamples.TablespoonResolves | src/parser/parse_measure.rs:122-142 | "tablespoon" is the tablespoon |
| ParseMeasureExamples.IntegerAlone | src/parser/parse_measure.rs:347-350 | `parse_integer` on "1" reads 1 and the whole text |
| ParseMeasureExamples.IntegerBeforeWord | src/parser/parse_measure.rs:351-354 | `parse_integer` on "1 cup" reads 1 and leaves " cup" |
| ParseMeasureExamples.DecimalOneFifth | src/parser/parse_measure.rs:359 | "0.2" is 1/5 |
| ParseMeasureExamples.DecimalSpaceBeforePoint | src/parser/parse_measure.rs:360 | "0 .2" is 1/5 |
| ParseMeasureExamples.DecimalSpaceAfterPoint | src/parser/parse_measure.rs:361 | "0. 2" is 1/5 |
| ParseMeasureExamples.DecimalSpacesAroundPoint | src/parser/parse_measure.rs:362 | "0 . 2" is 1/5 |
| ParseMeasureExamples.DecimalSixFifths | src/parser/parse_measure.rs:363 | "1.2" is 6/5 |
| ParseMeasureExamples.DecimalHundredths | src/parser/parse_measure.rs:364-367 | "1.12" is 112/100 |
| ParseMeasureExamples.DecimalThousandths | src/parser/parse_measure.rs:368-371 | "1.012" is 1012/1000 |
| ParseMeasureExamples.DecimalBeforeWord | src/parser/parse_measure.rs:372-375 | "0.2 cups" reads 1/5 and leaves " cups" |
| ParseMeasureExamples.RationalThreeQuarters | src/parser/parse_measure.rs:380 | "3/4" is 3/4 |
| ParseMeasureExamples.RationalSpaceBeforeSlash | src/parser/parse_measure.rs:381 | "3 /4" is 3/4 |
| ParseMeasureExamples.RationalSpaceAfterSlash | src/parser/parse_measure.rs:382 | "3/ 4" is 3/4 |
| ParseMeasureExamples.RationalSpacesAroundSlash | src/parser/parse_measure.rs:383-386 | "3 / 4" is 3/4 |
| ParseMeasureExamples.RationalFractionSlash | src/parser/parse_measure.rs:387 | "3⁄4" is 3/4 |
| ParseMeasureExamples.RationalGlyph | src/parser/parse_measure.rs:388 | "¼" is 1/4 |
| ParseMeasureExamples.RationalMixed | src/parser/parse_measure.rs:389-392 | "1 3/4" is 7/4 |
| ParseMeasureExamples.RationalThirteenQuarters | src/parser/parse_measure.rs:393-396 | "13⁄4" is 13/4 |
| ParseMeasureExamples.RationalMixedFractionSlash | src/parser/parse_measure.rs:397-400 | "1 3⁄4" is 7/4 |
| ParseMeasureExamples.RationalMixedGlyph | src/parser/parse_measure.rs:401 | "1 ¾" is 7/4 |
| ParseMeasureExamples.RationalBeforeWord | src/parser/parse_measure.rs:402-405 | "3/4 cups" reads 3/4 and leaves " cups" |
| ParseMeasureExamples.RationalWholeFails | src/parser/parse_measure.rs:406 | "1" is no rational |
| ParseMeasureExamples.RationalDecimalFails | src/parser/parse_measure.rs:407 | "1.1" is no rational |
| ParseMeasureExamples.RationalWordFails | src/parser/parse_measure.rs:408 | "1 cups" is no rational |
| ParseMeasureExamples.RationalZeroDenominatorFails | src/parser/parse_measure.rs:409 | "1/0" is no rational |
| ParseMeasureExamples.RationalZeroDenominatorSlashFails | src/parser/parse_measure.rs:410 | "1⁄0" is no rational |
| ParseMeasureExamples.UnitDrop | src/parser/parse_measure.rs:415 | "drop" is the drop |
| ParseMeasureExamples.UnitTeaspoonAbbreviated | src/parser/parse_measure.rs:416 | "t" is the teaspoon |
| ParseMeasureExamples.UnitTablespoonAbbreviated | src/parser/parse_measure.rs:417 | "T" is the tablespoon: the exact match wins over the teaspoon's "t" |
| ParseMeasureExamples.UnitTablespoonTb | src/parser/parse_measure.rs:418 | "Tb" is the tablespoon |
| ParseMeasureExamples.UnitCupLower | src/parser/parse_measure.rs:419 | "c" is the cup |
| ParseMeasureExamples.UnitCupUpper | src/parser/parse_measure.rs:420 | "C" is the cup, not Celsius, because the volume units come first |
| ParseMeasureExamples.UnitBeforeWord | src/parser/parse_measure.rs:421-424 | "C other" is the cup and leaves " other" at document index 1 |
| ParseMeasureExamples.MeasureThreeQuartersTeaspoon | src/parser/parse_measure.rs:214-225 | "3/4 teaspoon other": 3/4 teaspoon, number 0..3, unit 4..12, raw "3/4 teaspoon" |
| ParseMeasureExamples.ThreeQuartersTeaspoonNumber | src/parser/parse_measure.rs:214-225 | where the number of "3/4 teaspoon other" stands, and its value |
| ParseMeasureExamples.ThreeQuartersTeaspoonWord | src/parser/parse_measure.rs:214-225 | where the unit word of "3/4 teaspoon other" stands, and what follows it |
| ParseMeasureExamples.MeasureThreeQuartersTablespoon | src/parser/parse_measure.rs:226-237 | "3/4  tablespoon other": number 0..3, unit 5..15 |
| ParseMeasureExamples.ThreeQuartersTablespoonNumber | src/parser/parse_measure.rs:226-237 | where the number of "3/4  tablespoon other" stands, and its value |
| ParseMeasureExamples.ThreeQuartersTablespoonWord | src/parser/parse_measure.rs:226-237 | where the unit word of "3/4  tablespoon other" stands, and what follows it |
| ParseMeasureExamples.MeasureNoSpaceBeforeUnit | src/parser/parse_measure.rs:238-249 | "3/4teaspoon other": number 0..3, unit 3..11 |
| ParseMeasureExamples.NoSpaceBeforeUnitNumber | src/parser/parse_measure.rs:238-249 | where the number of "3/4teaspoon other" stands, and its value |
| ParseMeasureExamples.NoSpaceBeforeUnitWord | src/parser/parse_measure.rs:238-249 | where the unit word of "3/4teaspoon other" stands, and what follows it |
| ParseMeasureExamples.MeasureSpaceBeforeSlash | src/parser/parse_measure.rs:250-261 | "3 /4teaspoon other": number 0..4, unit 4..12 |
| ParseMeasureExamples.SpaceBeforeSlashNumber | src/parser/parse_measure.rs:250-261 | where the number of "3 /4teaspoon other" stands, and its value |
| ParseMeasureExamples.SpaceBeforeSlashWord | src/parser/parse_measure.rs:250-261 | where the unit word of "3 /4teaspoon other" stands, and what follows it |
| ParseMeasureExamples.MeasureSpaceAfterSlash | src/parser/parse_measure.rs:262-273 | "3/ 4teaspoon other": number 0..4, unit 4..12 |
| ParseMeasureExamples.SpaceAfterSlashNumber | src/parser/parse_measure.rs:262-273 | where the number of "3/ 4teaspoon other" stands, and its value |
| ParseMeasureExamples.SpaceAfterSlashWord | src/parser/parse_measure.rs:262-273 | where the unit word of "3/ 4teaspoon other" stands, and what follows it |
| ParseMeasureExamples.MeasureSpacesAroundSlash | src/parser/parse_measure.rs:274-285 | "3 / 4 teaspoon other": number 0..5, unit 6..14 |
| ParseMeasureExamples.SpacesAroundSlashNumber | src/parser/parse_measure.rs:274-285 | where the number of "3 / 4 teaspoon other" stands, and its value |
| ParseMeasureExamples.SpacesAroundSlashWord | src/parser/parse_measure.rs:274-285 | where the unit word of "3 / 4 teaspoon other" stands, and what follows it |
| ParseMeasureExamples.MeasureMixedSpacedSlash | src/parser/parse_measure.rs:286-297 | "1 3 / 4 teaspoon other": 7/4 teaspoon, number 0..7, unit 8..16 |
| ParseMeasureExamples.MixedSpacedSlashNumber | src/parser/parse_measure.rs:286-297 | where the number of "1 3 / 4 teaspoon other" stands, and its value |
| ParseMeasureExamples.MixedSpacedSlashWord | src/parser/parse_measure.rs:286-297 | where the unit word of "1 3 / 4 teaspoon other" stands, and what follows it |
| ParseMeasureExamples.MeasureMixedFractionSlash | src/parser/parse_measure.rs:298-309 | "1 3⁄4 teaspoon other": 7/4 teaspoon, number 0..5, unit 6..14 |
| ParseMeasureExamples.MixedFractionSlashNumber | src/parser/parse_measure.rs:298-309 | where the number of "1 3⁄4 teaspoon other" stands, and its value |
| ParseMeasureExamples.MixedFractionSlashWord | src/parser/parse_measure.rs:298-309 | where the unit word of "1 3⁄4 teaspoon other" stands, and what follows it |
| ParseMeasureExamples.MeasureThirteenQuarters | src/parser/parse_measure.rs:310-321 | "13⁄4 teaspoon other": 13/4 teaspoon, number 0..4, unit 5..13 |
| ParseMeasureExamples.ThirteenQuartersNumber | src/parser/parse_measure.rs:310-321 | where the number of "13⁄4 teaspoon other" stands, and its value |
| ParseMeasureExamples.ThirteenQuartersWord | src/parser/parse_measure.rs:310-321 | where the unit word of "13⁄4 teaspoon other" stands, and what follows it |
| ParseMeasureExamples.MeasureMixedGlyph | src/parser/parse_measure.rs:322-333 | "1 ¾ teaspoon other": 7/4 teaspoon, number 0..3, unit 4..12 |
| ParseMeasureExamples.MixedGlyphNumber | src/parser/parse_measure.rs:322-333 | where the number of "1 ¾ teaspoon other" stands, and its value |
| ParseMeasureExamples.MixedGlyphWord | src/parser/parse_measure.rs:322-333 | where the unit word of "1 ¾ teaspoon other" stands, and what follows it |
| ParseMeasureExamples.MeasurePointBeforeWordFails | src/parser/parse_measure.rs:335 | "3. Line" is no measure |
| ParseMeasureExamples.MeasureUnitless | src/parser/parse_measure.rs:336-342 | "10 times" is 10 of the unitless unit "times" |
| ParseRecipes.Step | src/parser/parse_recipe.rs:33 | one step succeeds exactly on a non-empty input and consumes something: the measure that starts here, or else one character skipped |
| ParseRecipes.Tokens | src/parser/parse_recipe.rs:31-41 | the tokens the fold collects over an input |
| ParseRecipes.Remainder | src/parser/parse_recipe.rs:31-42 | the input the fold leaves over |
| ParseRecipes.TokensStep | src/parser/parse_recipe.rs:34-40 | the tokens collected are what this step yields, if a measure, followed by the tokens collected after it |
| ParseRecipes.RemainderIsEmpty | src/parser/parse_recipe.rs:44-54 | the fold stops only at the end of the input, so the remainder is empty and the panic branch is never taken |
| Nom.FoldMany | src/parser/parse_recipe.rs:31-42 | `fold_many0` with an accumulator that pushes each `Some`: the loop returns exactly the input left where the step first fails and the items collected up to there, in order |
| Nom.LeftoverFails | src/parser/parse_recipe.rs:31-42 | the fold stops only where its step fails, and what it leaves is a suffix of its input |
| ParseRecipes.ParseRecipe | src/parser/parse_recipe.rs:27-55 | the tokens are exactly those of the fold, and the remainder check always passes; `raw` is the whole text; the tokens are in increasing position, do not overlap, lie in the text with its characters as their raw text, and each is what `parse_measure` returns at its own start |
| ParseRecipes.MeasureTokenAt | src/parser/parse_measure.rs:33-41 | a token `parse_measure` returns starts where the input starts and ends where the rest begins |
| ParseRecipes.TokensLaidOut | src/parser/parse_recipe.rs:31-42 | the tokens collected are in increasing position, do not overlap, and lie in the input, each carrying the text of its range |
| ParseRecipes.RecipeTokensLaidOut | src/parser/parse_recipe.rs:27-49 | in a whole document every token covers a non-empty range of the text, and its raw text is the text there |
| ParseRecipes.TokensAreMeasures | src/parser/parse_recipe.rs:33-40 | every token collected is what `parse_measure` returns at the token's own start |

## Left out

- Fixed-width integers. `Rational32` is i32 arithmetic, `u32` overflows on long digit runs, and `parse_decimal` has `as i32` casts and `10^len`. The model uses unbounded integers, so an overflowing input that the source rejects or wraps is read as its exact value.
- `Rationals.Normalize` finds the reduced form by searching for the least clearing denominator, not by a gcd. The result is the same reduced fraction.
- Nom's error values. `InfiniteNumber` and nom's error kinds become "no parse". `map_res` swallows the first into an ordinary failure, so nothing more is observable.
- `ParseRecipes.ParseRecipe` returns a `Recipe` rather than a `Result`. Its error arm, `.finish()?`, is never taken, because `fold_many0` never fails. Its panic branch is proved unreachable (`ParseRecipes.RemainderIsEmpty`).
- The fold's guard against a parser that succeeds without consuming is not modelled. `Nom.FoldMany` requires a step that always consumes (`Nom.Progresses`), and the recipe step does (`ParseRecipes.Step`), so the guard never fires.
- The test in `src/parser/parse_recipe.rs` is commented out, so there is no recipe example.
- `ParseMeasures.UnitText` returns `None` where `MeasureToken::unit_text` panics in its `expect`. `ParseMeasures.NumberText` returns `None` likewise, but that case cannot happen for a parsed token.
- `Measures.MultiDimension`, `Measures.MultiMagnitude`, `Measures.MeasureDimension`, `Measures.MeasureMagnitude` and `MagnitudeMeasures.FromMeasure` require a multi measure to have at least one part. On an empty one the source panics in `.first().expect("Found empty MultiMeasure")` (src/measure.rs:135-137), and the model leaves that case out.
- The Single arm of `Magnitude::best_measures` is `todo!()`. The selection heuristic exists only as commented-out code, so `MagnitudeMeasures.BestMeasures` and `MagnitudeMeasures.BestMeasure` are modelled on ranges only.
- The `todo!()` of `Display for Measure`, all `Debug` impls, and the serde, lazy_static and enum_dispatch mechanics are left out: they hold no behaviour to model.
- The nom traits `InputIter`, `Compare`, `AsBytes`, `ParseTo` and `UnspecializedInput` are thin delegations to `str`. Only the operations the grammar uses are modelled, in module Nom: `position`, the slices, `take_split` and `offset`.
- `MeasureToken::new`, `into_owned` and `Cow` ownership are left out. Tokens are plain values; the `Cow` delegation of `char_slice` is kept.
- The `String` impl of `CharIndexing` is not separate: it is identical text here, so it is the `&str` impl.
- Lower-casing is ASCII only. `alpha1` admits only ASCII letters, so this matches `to_lowercase` on every word the unit parser sees. Aliases such as "°F" never equal a word of letters, lower-cased or not.
- src/unit.rs is not part of this model. It is not compiled (src/lib.rs declares `units`, not `unit`).
- Temperature conversion has no offset. Both scales have multiple one, as in the source, so converting between Fahrenheit and Celsius keeps the number.
- `TemperatureUnits.Multiple` and `UnitlessUnits.Multiple` use `Rational32::new_raw(1, 1)`; the model states them as the reduced one, which is the same value.

## Findings

| source | as written | input that shows it | evidently intended | confidence | as-written member | corrected member |
|---|---|---|---|---|---|---|
| src/parser/char_indexing.rs:15-19 | the end of the range is found by asking the character iterator for character `end`, so a range that ends at the last character finds none and gives `None`; `unit_text` (src/parser/parse_measure.rs:180-187) always slices up to the end of `raw` and so always panics | `"12".char_slice(1..2)` gives `None`, where the characters are "2"; any parsed token, such as "3/4 teaspoon", makes `unit_text` panic | a range ending at the character count gives the characters up to the end, so `unit_text` gives the unit word | high, not executed | CharIndexing.CharSliceMissesLastChar, ParseMeasures.UnitTextAlwaysFails | CharIndexing.CharSliceCorrectedComplete, ParseMeasures.UnitTextCorrectedIsUnitWord |
| src/parser/mod.rs:87-92 | `slice(a..b)` adds the byte offset a to the character index, while `slice(a..)` converts it with `char_index` | on `ParserInput::from("½2")`, `slice(2..3)` is "2" at index 2, but the "2" is character 1 | the start is converted with `char_index(a)`, as the `RangeFrom` impl does | medium (no caller in the core uses this slice), not executed | ParserInputs.SliceRangeMislocates | ParserInputs.SliceRangeCorrected |
