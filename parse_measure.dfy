/**
 * The measure grammar of src/parser/parse_measure.rs: a number (whole,
 * decimal or fraction), optional white space, then a word naming the unit.
 *
 * The number and unit parsers are functions of a text s and a position i:
 * each stands for the nom parser applied to the piece of s after its first
 * i characters and yields the position where that parser stops (a `Scan`).
 * Module Nom shows its positional primitives equal to nom's (the `...Shift`
 * lemmas). `ParseMeasure` and `ParseUnit` take a `ParserInput`, as the
 * source's functions do.
 */
module ParseMeasures {
  import opened Wrappers
  import opened Text
  import opened CharIndexing
  import opened ParserInputs
  import opened Nom
  import opened Rationals
  import opened Units
  import opened Measures
  import VolumeUnits
  import TemperatureUnits
  import UnitlessUnits

  /** `MeasureToken`: a measure found in a document, where its parts sit, and its text. */
  datatype MeasureToken = MeasureToken(measure: Measure, numberRange: CharRange, unitRange: CharRange, raw: seq<char>)

  type Positive = n: int | n >= 1 witness 1

  function Pow10(n: nat): (r: nat)
    ensures r >= 1
  {
    if n == 0 then 1 else 10 * Pow10(n - 1)
  }

  /** ASCII text is one byte per character. */
  lemma {:induction false} AsciiByteLen(s: seq<char>)
    requires forall i :: 0 <= i < |s| ==> s[i] as int < 0x80
    ensures ByteLen(s) == |s|
  {
    if s != [] {
      AsciiByteLen(s[1..]);
    }
  }

  /** Digits are one byte each. */
  lemma DigitsByteLen(s: seq<char>, k: nat, e: nat)
    requires k <= e <= |s| && forall m :: k <= m < e ==> IsDigit(s[m])
    ensures ByteLen(s[k..e]) == e - k
  {
    assert forall m :: 0 <= m < e - k ==> s[k..e][m] == s[k + m];
    AsciiByteLen(s[k..e]);
  }

  // ---------------------------------------------------------------------
  // Numbers

  /** `parse_integer`: the digits at i as a whole number. */
  function ParseInteger(s: seq<char>, i: nat): (r: Scan<Rat>)
    requires i <= |s|
    ensures r.Scanned? <==> i < |s| && IsDigit(s[i])
    ensures r.Scanned? ==> DigitsSpan(s, i, r.end) && Val(r.value) == DigitsFrom(s, i, r.end) as real
  {
    match U32At(s, i)
    case Failed => Failed
    case Scanned(j, n) => Scanned(j, FromInteger(n))
  }

  /** Conversely, the digits from i up to the first non-digit are read as the number they denote. */
  lemma IntegerReads(s: seq<char>, i: nat, j: nat)
    requires DigitsSpan(s, i, j)
    ensures ParseInteger(s, i).Scanned? && ParseInteger(s, i).end == j
    ensures Val(ParseInteger(s, i).value) == DigitsFrom(s, i, j) as real
  {
    U32Reads(s, i, j);
  }

  /** s[i..j] is white space, one character of list, then white space. */
  ghost predicate SeparatorSpan(s: seq<char>, i: nat, j: nat, list: seq<char>)
  {
    exists m: nat :: SpacesSpan(s, i, m) && m < |s| && s[m] in list && SpacesSpan(s, m + 1, j)
  }

  /**
   * `tuple((multispace0, one_of(list), multispace0))` at i: where it ends.
   * `char(c)` is the case of the one-character list [c].
   */
  function Separator(s: seq<char>, i: nat, list: seq<char>): (r: Option<nat>)
    requires i <= |s|
    ensures r.Some? ==> i < r.value <= |s| && SeparatorSpan(s, i, r.value, list)
    ensures r.None? ==> var m := Multispace0At(s, i); m == |s| || s[m] !in list
  {
    var m := Multispace0At(s, i);
    if m < |s| && s[m] in list then
      var j := Multispace0At(s, m + 1);
      assert SpacesSpan(s, i, m) && SpacesSpan(s, m + 1, j);
      Some(j)
    else
      None
  }

  /** Conversely, white space, a character of list and white space are read as a separator. */
  lemma SeparatorReads(s: seq<char>, i: nat, m: nat, j: nat, list: seq<char>)
    requires SpacesSpan(s, i, m) && m < |s| && s[m] in list && SpacesSpan(s, m + 1, j)
    ensures Separator(s, i, list) == Some(j)
  {
    Multispace0Reads(s, i, m);
    Multispace0Reads(s, m + 1, j);
  }

  /**
   * The fraction digits s[k..e] of a decimal over ten to the power of their
   * length in bytes, as `fraction.input.len()` counts it.
   */
  function DecimalFraction(s: seq<char>, k: nat, e: nat): (r: Rat)
    requires k <= e <= |s| && forall m :: k <= m < e ==> IsDigit(s[m])
    ensures Val(r) == DigitsFrom(s, k, e) as real / Pow10(e - k) as real
  {
    DigitsByteLen(s, k, e);
    Rationals.New(DigitsFrom(s, k, e), Pow10(ByteLen(s[k..e])))
  }

  /**
   * `parse_decimal`: digits, a point (white space allowed around it), and
   * one or more fraction digits f; the whole part plus f / 10^len(f).
   */
  function ParseDecimal(s: seq<char>, i: nat): (r: Scan<Rat>)
    requires i <= |s|
    ensures r.Scanned? ==> i < r.end <= |s|
    ensures r.Scanned? ==> exists j, k :: (DigitsSpan(s, i, j) && SeparatorSpan(s, j, k, ".") && DigitsSpan(s, k, r.end)
      && Val(r.value) == DigitsFrom(s, i, j) as real + DigitsFrom(s, k, r.end) as real / Pow10(r.end - k) as real)
  {
    match U32At(s, i)
    case Failed => Failed
    case Scanned(j, integer) =>
      match Separator(s, j, ".")
      case None => Failed
      case Some(k) =>
        var e := RunEnd(s, k, Digits);
        if e == k then Failed
        else
          assert DigitsSpan(s, i, j) && DigitsSpan(s, k, e);
          Scanned(e, Add(FromInteger(integer), DecimalFraction(s, k, e)))
  }

  /** Conversely, digits, a point and fraction digits laid out from i are read as that decimal. */
  lemma DecimalReads(s: seq<char>, i: nat, j: nat, k: nat, e: nat)
    requires DigitsSpan(s, i, j) && SeparatorSpan(s, j, k, ".") && DigitsSpan(s, k, e)
    ensures ParseDecimal(s, i).Scanned? && ParseDecimal(s, i).end == e
    ensures Val(ParseDecimal(s, i).value) == DigitsFrom(s, i, j) as real + DigitsFrom(s, k, e) as real / Pow10(e - k) as real
  {
    U32Reads(s, i, j);
    var m: nat :| SpacesSpan(s, j, m) && m < |s| && s[m] in "." && SpacesSpan(s, m + 1, k);
    SeparatorReads(s, j, m, k, ".");
    RunEndAt(s, k, e, Digits);
    var integer, fraction := FromInteger(DigitsFrom(s, i, j)), DecimalFraction(s, k, e);
    assert ParseDecimal(s, i) == Scanned(e, Add(integer, fraction));
    assert Val(Add(integer, fraction)) == Val(integer) + Val(fraction);
  }

  /**
   * `ascii_rational`: digits, a slash or a fraction slash (white space
   * allowed around it), digits. A zero denominator makes it fail.
   */
  function AsciiRational(s: seq<char>, i: nat): (r: Scan<Rat>)
    requires i <= |s|
    ensures r.Scanned? ==> i < r.end <= |s|
    ensures r.Scanned? ==> exists j, k :: (DigitsSpan(s, i, j) && SeparatorSpan(s, j, k, "/⁄") && DigitsSpan(s, k, r.end)
      && DigitsFrom(s, k, r.end) != 0 && Val(r.value) == DigitsFrom(s, i, j) as real / DigitsFrom(s, k, r.end) as real)
  {
    match U32At(s, i)
    case Failed => Failed
    case Scanned(j, numer) =>
      match Separator(s, j, "/⁄")
      case None => Failed
      case Some(k) =>
        match U32At(s, k)
        case Failed => Failed
        case Scanned(e, denom) =>
          if denom != 0 then
            assert DigitsSpan(s, i, j) && DigitsSpan(s, k, e);
            Scanned(e, Rationals.New(numer, denom))
          else
            Failed
  }

  /**
   * Conversely, digits, a slash and digits laid out from i are read as that
   * fraction when the denominator is not zero, and not at all when it is.
   */
  lemma AsciiRationalReads(s: seq<char>, i: nat, j: nat, k: nat, e: nat)
    requires DigitsSpan(s, i, j) && SeparatorSpan(s, j, k, "/⁄") && DigitsSpan(s, k, e)
    ensures AsciiRational(s, i).Scanned? <==> DigitsFrom(s, k, e) != 0
    ensures AsciiRational(s, i).Scanned? ==> (AsciiRational(s, i).end == e
      && Val(AsciiRational(s, i).value) == DigitsFrom(s, i, j) as real / DigitsFrom(s, k, e) as real)
  {
    U32Reads(s, i, j);
    var m: nat :| SpacesSpan(s, j, m) && m < |s| && s[m] in "/⁄" && SpacesSpan(s, m + 1, k);
    SeparatorReads(s, j, m, k, "/⁄");
    U32Reads(s, k, e);
  }

  /** The vulgar-fraction glyphs `unicode_rational` tries, in its order, each with its numerator and denominator. */
  function Glyphs(): seq<(char, nat, Positive)>
  {
    [ ('¼', 1, 4), ('½', 1, 2), ('¾', 3, 4),
      ('⅐', 1, 7), ('⅑', 1, 9), ('⅒', 1, 10),
      ('⅓', 1, 3), ('⅔', 2, 3), ('⅕', 1, 5),
      ('⅖', 2, 5), ('⅗', 3, 5), ('⅘', 4, 5),
      ('⅙', 1, 6), ('⅚', 5, 6), ('⅛', 1, 8),
      ('⅜', 3, 8), ('⅝', 5, 8), ('⅞', 7, 8) ]
  }

  /** `alt` over `value(Rational32::new(n, d), char(c))` for the (c, n, d) of gs: the fraction of the first entry for c. */
  function GlyphValue(c: char, gs: seq<(char, nat, Positive)>): (r: Option<Rat>)
    ensures r.Some? <==> exists g :: 0 <= g < |gs| && gs[g].0 == c
    ensures r.Some? ==> exists g :: (0 <= g < |gs| && gs[g].0 == c
      && (forall h :: 0 <= h < g ==> gs[h].0 != c) && r.value == Rationals.New(gs[g].1, gs[g].2))
    decreases |gs|
  {
    if gs == [] then None
    else if gs[0].0 == c then Some(Rationals.New(gs[0].1, gs[0].2))
    else
      var r := GlyphValue(c, gs[1..]);
      assert forall g :: 1 <= g < |gs| ==> gs[g] == gs[1..][g - 1];
      r
  }

  /** `unicode_rational`: one vulgar-fraction glyph. */
  function UnicodeRational(s: seq<char>, i: nat): (r: Scan<Rat>)
    requires i <= |s|
    ensures r.Scanned? <==> i < |s| && exists g :: 0 <= g < |Glyphs()| && Glyphs()[g].0 == s[i]
    ensures r.Scanned? ==> r.end == i + 1 && GlyphValue(s[i], Glyphs()) == Some(r.value)
  {
    if i == |s| then Failed
    else
      match GlyphValue(s[i], Glyphs())
      case None => Failed
      case Some(v) => Scanned(i + 1, v)
  }

  /** The glyph table has no glyph twice, and every entry is a proper fraction. */
  lemma GlyphsDistinctProper()
    ensures |Glyphs()| == 18
    ensures forall g, h :: 0 <= g < h < |Glyphs()| ==> Glyphs()[g].0 != Glyphs()[h].0
    ensures forall g :: 0 <= g < |Glyphs()| ==> 0 < Glyphs()[g].1 < Glyphs()[g].2
    ensures forall g :: 0 <= g < |Glyphs()| ==> !IsDigit(Glyphs()[g].0) && !IsAlpha(Glyphs()[g].0) && Glyphs()[g].0 !in "/⁄."
  {
  }

  /** `simple_rational`: an ASCII fraction, else a glyph. */
  function SimpleRational(s: seq<char>, i: nat): (r: Scan<Rat>)
    requires i <= |s|
    ensures r.Scanned? ==> i < r.end <= |s|
    ensures r.Scanned? <==> AsciiRational(s, i).Scanned? || UnicodeRational(s, i).Scanned?
  {
    var ascii := AsciiRational(s, i);
    if ascii.Scanned? then ascii else UnicodeRational(s, i)
  }

  /** A simple fraction is the ASCII fraction when one reads, and otherwise the glyph. */
  lemma SimpleRationalValue(s: seq<char>, i: nat)
    requires i <= |s|
    ensures SimpleRational(s, i).Scanned? ==>
      || (AsciiRational(s, i).Scanned? && SimpleRational(s, i) == AsciiRational(s, i))
      || (!AsciiRational(s, i).Scanned? && SimpleRational(s, i) == UnicodeRational(s, i))
  {
  }

  /** `multi_rational`: a whole number, optional white space, then a simple fraction; their sum. */
  function MultiRational(s: seq<char>, i: nat): (r: Scan<Rat>)
    requires i <= |s|
    ensures r.Scanned? ==> i < r.end <= |s|
    ensures r.Scanned? ==> exists j, m :: (DigitsSpan(s, i, j) && SpacesSpan(s, j, m) && SimpleRational(s, m).Scanned?
      && SimpleRational(s, m).end == r.end
      && Val(r.value) == DigitsFrom(s, i, j) as real + Val(SimpleRational(s, m).value))
  {
    match U32At(s, i)
    case Failed => Failed
    case Scanned(j, integer) =>
      var m := Multispace0At(s, j);
      match SimpleRational(s, m)
      case Failed => Failed
      case Scanned(e, rational) => Scanned(e, Add(FromInteger(integer), rational))
  }

  /**
   * Conversely, after digits and white space, a mixed number is read exactly
   * when a simple fraction follows, and it is their sum.
   */
  lemma MultiRationalReads(s: seq<char>, i: nat, j: nat, m: nat)
    requires DigitsSpan(s, i, j) && SpacesSpan(s, j, m)
    ensures MultiRational(s, i).Scanned? <==> SimpleRational(s, m).Scanned?
    ensures MultiRational(s, i).Scanned? ==> (MultiRational(s, i).end == SimpleRational(s, m).end
      && Val(MultiRational(s, i).value) == DigitsFrom(s, i, j) as real + Val(SimpleRational(s, m).value))
  {
    U32Reads(s, i, j);
    Multispace0Reads(s, j, m);
  }

  /** `parse_rational`: a mixed number, else a simple fraction. */
  function ParseRational(s: seq<char>, i: nat): (r: Scan<Rat>)
    requires i <= |s|
    ensures r.Scanned? ==> i < r.end <= |s|
    ensures r.Scanned? <==> MultiRational(s, i).Scanned? || SimpleRational(s, i).Scanned?
  {
    var multi := MultiRational(s, i);
    if multi.Scanned? then multi else SimpleRational(s, i)
  }

  /** A rational is the mixed number when one reads, and otherwise the simple fraction. */
  lemma ParseRationalValue(s: seq<char>, i: nat)
    requires i <= |s|
    ensures ParseRational(s, i).Scanned? ==>
      || (MultiRational(s, i).Scanned? && ParseRational(s, i) == MultiRational(s, i))
      || (!MultiRational(s, i).Scanned? && ParseRational(s, i) == SimpleRational(s, i))
  {
  }

  /** The three number syntaxes `parse_measure` tries, in its order. */
  datatype NumberSyntax = IntegerSyntax | DecimalSyntax | RationalSyntax

  function ParseNumber(syntax: NumberSyntax, s: seq<char>, i: nat): (r: Scan<Rat>)
    requires i <= |s|
    ensures r.Scanned? ==> i < r.end <= |s|
  {
    match syntax
    case IntegerSyntax => ParseInteger(s, i)
    case DecimalSyntax => ParseDecimal(s, i)
    case RationalSyntax => ParseRational(s, i)
  }

  // ---------------------------------------------------------------------
  // Units

  /** The first of us, in order, that satisfies test. */
  function FirstSuch(us: seq<Unit>, test: Unit -> bool): Option<Unit>
  {
    if us == [] then None
    else if test(us[0]) then Some(us[0])
    else FirstSuch(us[1..], test)
  }

  /** `FirstSuch` finds a unit exactly when one passes the test, and then the first that does. */
  lemma {:induction false} FirstSuchIsFirst(us: seq<Unit>, test: Unit -> bool)
    ensures FirstSuch(us, test).Some? <==> exists g :: 0 <= g < |us| && test(us[g])
    ensures FirstSuch(us, test).Some? ==> exists g :: (0 <= g < |us| && test(us[g])
      && (forall h :: 0 <= h < g ==> !test(us[h])) && FirstSuch(us, test).value == us[g])
  {
    if us != [] && !test(us[0]) {
      FirstSuchIsFirst(us[1..], test);
      assert forall g :: 1 <= g < |us| ==> us[g] == us[1..][g - 1];
      if FirstSuch(us, test).Some? {
        var g :| 0 <= g < |us[1..]| && test(us[1..][g])
          && (forall h :: 0 <= h < g ==> !test(us[1..][h])) && FirstSuch(us[1..], test).value == us[1..][g];
        assert test(us[g + 1]) && FirstSuch(us, test).value == us[g + 1];
      }
    }
  }

  /** Units that fail the test do not change what follows them yields. */
  lemma {:induction false} FirstSuchSplit(a: seq<Unit>, b: seq<Unit>, test: Unit -> bool)
    requires FirstSuch(a, test).None?
    ensures FirstSuch(a + b, test) == FirstSuch(b, test)
  {
    if a != [] {
      assert (a + b)[1..] == a[1..] + b;
      FirstSuchSplit(a[1..], b, test);
    } else {
      assert a + b == b;
    }
  }

  /** The last of us, in order, that satisfies test. */
  function LastSuch(us: seq<Unit>, test: Unit -> bool): Option<Unit>
  {
    if us == [] then None
    else if test(us[|us| - 1]) then Some(us[|us| - 1])
    else LastSuch(us[..|us| - 1], test)
  }

  /** `LastSuch` finds a unit exactly when one passes the test, and then the last that does. */
  lemma {:induction false} LastSuchIsLast(us: seq<Unit>, test: Unit -> bool)
    ensures LastSuch(us, test).Some? <==> exists g :: 0 <= g < |us| && test(us[g])
    ensures LastSuch(us, test).Some? ==> exists g :: (0 <= g < |us| && test(us[g])
      && (forall h :: g < h < |us| ==> !test(us[h])) && LastSuch(us, test).value == us[g])
  {
    if us != [] && !test(us[|us| - 1]) {
      var init := us[..|us| - 1];
      LastSuchIsLast(init, test);
      assert LastSuch(us, test) == LastSuch(init, test);
      if g :| 0 <= g < |us| && test(us[g]) {
        assert g < |init| && init[g] == us[g];
      }
      if LastSuch(us, test).Some? {
        var g :| 0 <= g < |init| && test(init[g])
          && (forall h :: g < h < |init| ==> !test(init[h])) && LastSuch(init, test).value == init[g];
        assert init[g] == us[g];
        forall h | g < h < |us|
          ensures !test(us[h])
        {
          if h < |init| {
            assert init[h] == us[h];
          }
        }
      }
    }
  }

  lemma LastSuchStep(us: seq<Unit>, i: nat, test: Unit -> bool)
    requires i < |us|
    ensures LastSuch(us[..i + 1], test) == if test(us[i]) then Some(us[i]) else LastSuch(us[..i], test)
  {
    assert us[..i + 1][..i] == us[..i];
  }

  /** One of the first n aliases equals word once both are lower-cased. */
  predicate LooseAmong(word: string, aliases: seq<string>, n: nat)
    requires n <= |aliases|
  {
    n > 0 && (Lower(aliases[n - 1]) == Lower(word) || LooseAmong(word, aliases, n - 1))
  }

  lemma {:induction false} LooseAmongIff(word: string, aliases: seq<string>, n: nat)
    requires n <= |aliases|
    ensures LooseAmong(word, aliases, n) <==> exists j :: 0 <= j < n && Lower(aliases[j]) == Lower(word)
  {
    if n > 0 {
      LooseAmongIff(word, aliases, n - 1);
    }
  }

  /** Some alias of u equals word once both are lower-cased. */
  predicate LooseMatch(word: string, u: Unit)
  {
    LooseAmong(word, Aliases(u), |Aliases(u)|)
  }

  /** A word matches no alias of u ignoring case when every alias differs from it in length or in its lower-cased first letter. */
  lemma NoLooseMatchByShape(word: string, u: Unit)
    requires |word| > 0
    requires forall a :: a in Aliases(u) ==> |a| != |word| || ToLower(a[0]) != ToLower(word[0])
    ensures !LooseMatch(word, u)
  {
    forall j | 0 <= j < |Aliases(u)|
      ensures Lower(Aliases(u)[j]) != Lower(word)
    {
      if |Aliases(u)[j]| == |word| {
        assert Lower(Aliases(u)[j])[0] != Lower(word)[0];
      }
    }
    LooseAmongIff(word, Aliases(u), |Aliases(u)|);
  }

  /** An exact alias is also a match ignoring case. */
  lemma ExactIsLoose(word: string, u: Unit)
    requires word in Aliases(u)
    ensures LooseMatch(word, u)
  {
    var j :| 0 <= j < |Aliases(u)| && Aliases(u)[j] == word;
    assert Lower(Aliases(u)[j]) == Lower(word);
    LooseAmongIff(word, Aliases(u), |Aliases(u)|);
  }

  /** The test of an exact match: word is one of the unit's aliases. */
  function ExactTest(word: string): Unit -> bool
  {
    u => word in Aliases(u)
  }

  /** The test of a match ignoring case. */
  function LooseTest(word: string): Unit -> bool
  {
    u => LooseMatch(word, u)
  }

  /** The first of us, in order, that has word as one of its aliases. */
  function FirstExact(word: string, us: seq<Unit>): Option<Unit>
  {
    FirstSuch(us, ExactTest(word))
  }

  /** The last of us, in order, that matches word ignoring case. */
  function LastLoose(word: string, us: seq<Unit>): Option<Unit>
  {
    LastSuch(us, LooseTest(word))
  }

  /**
   * The unit a word names among us: the first with the word as an exact
   * alias; failing that, the last one matching it ignoring case; failing
   * that, a unitless unit named by the word.
   */
  function UnitAmong(word: string, us: seq<Unit>): Unit
  {
    match FirstExact(word, us)
    case Some(u) => u
    case None =>
      match LastLoose(word, us)
      case Some(u) => u
      case None => Unitless(UnitlessUnits.New(word))
  }

  /** The unit a word names, among the unitful units in `UNITFUL_UNITS` order. */
  function ResolvedUnit(word: string): Unit
  {
    UnitAmong(word, UnitfulUnits())
  }

  /** A word that is an alias of unit g and of no unit before it resolves to unit g. */
  lemma ExactAliasResolves(word: string, g: nat)
    requires g < |UnitfulUnits()| && word in Aliases(UnitfulUnits()[g])
    requires forall h :: 0 <= h < g ==> word !in Aliases(UnitfulUnits()[h])
    ensures ResolvedUnit(word) == UnitfulUnits()[g]
  {
    FirstSuchIsFirst(UnitfulUnits(), ExactTest(word));
  }

  /**
   * A word that is no unit's alias, that matches unit g ignoring case and
   * no unit after it, resolves to unit g.
   */
  lemma LooseAliasResolves(word: string, g: nat)
    requires g < |UnitfulUnits()| && forall h :: 0 <= h < |UnitfulUnits()| ==> word !in Aliases(UnitfulUnits()[h])
    requires LooseMatch(word, UnitfulUnits()[g]) && forall h :: g < h < |UnitfulUnits()| ==> !LooseMatch(word, UnitfulUnits()[h])
    ensures ResolvedUnit(word) == UnitfulUnits()[g]
  {
    FirstSuchIsFirst(UnitfulUnits(), ExactTest(word));
    LastSuchIsLast(UnitfulUnits(), LooseTest(word));
  }

  /**
   * Among units none of which is unitless, the search yields a unitless
   * unit, the word itself, exactly when no unit matches even ignoring case.
   */
  lemma UnitAmongUnitless(word: string, us: seq<Unit>)
    requires forall g :: 0 <= g < |us| ==> !us[g].Unitless?
    ensures UnitAmong(word, us).Unitless? <==> forall g :: 0 <= g < |us| ==> !LooseMatch(word, us[g])
    ensures UnitAmong(word, us).Unitless? ==> UnitAmong(word, us) == Unitless(UnitlessUnits.New(word))
  {
    var exact, loose := ExactTest(word), LooseTest(word);
    FirstSuchIsFirst(us, exact);
    LastSuchIsLast(us, loose);
    if FirstSuch(us, exact).Some? {
      var g :| 0 <= g < |us| && exact(us[g]) && FirstSuch(us, exact).value == us[g];
      ExactIsLoose(word, us[g]);
    } else if LastSuch(us, loose).Some? {
      var g :| 0 <= g < |us| && loose(us[g]) && LastSuch(us, loose).value == us[g];
    }
  }

  /** A word names a unitless unit, the word itself, exactly when no unitful unit matches it even ignoring case. */
  lemma ResolvedUnitless(word: string)
    ensures ResolvedUnit(word).Unitless? <==> forall g :: 0 <= g < |UnitfulUnits()| ==> !LooseMatch(word, UnitfulUnits()[g])
    ensures ResolvedUnit(word).Unitless? ==> ResolvedUnit(word) == Unitless(UnitlessUnits.New(word))
  {
    UnitAmongUnitless(word, UnitfulUnits());
  }

  /** What `parse_unit` computes: the letters that follow, and the unit they name. */
  function UnitParse(p: ParserInput): (r: PResult<Unit>)
    ensures r.Parsed? <==> |p.input| > 0 && IsAlpha(p.input[0])
    ensures r.Parsed? ==> Consumes(p, r.rest)
    ensures r.Parsed? ==> var k := |p.input| - |r.rest.input|;
      (forall i :: 0 <= i < k ==> IsAlpha(p.input[i]))
      && (k < |p.input| ==> !IsAlpha(p.input[k]))
      && r.value == ResolvedUnit(p.input[..k])
  {
    match Alpha1(p)
    case NoParse => NoParse
    case Parsed(rest, raw) => Parsed(rest, ResolvedUnit(raw.input))
  }

  /**
   * The inner loop of `parse_unit`, over the aliases of one unit: whether
   * one of them is exactly raw and, when none is, the secondary match after
   * the loop (the unit itself when an alias matches ignoring case).
   */
  method ScanAliases(raw: string, unit: Unit, aliases: seq<string>, secondary: Option<Unit>) returns (exact: bool, next: Option<Unit>)
    ensures exact <==> raw in aliases
    ensures !exact ==> next == if LooseAmong(raw, aliases, |aliases|) then Some(unit) else secondary
  {
    next := secondary;
    for j := 0 to |aliases|
      invariant forall j' :: 0 <= j' < j ==> aliases[j'] != raw
      invariant next == if LooseAmong(raw, aliases, j) then Some(unit) else secondary
    {
      if raw == aliases[j] {
        return true, next;
      } else if Lower(raw) == Lower(aliases[j]) {
        next := Some(unit);
      }
    }
    exact := false;
  }

  /** One unit further through the search of `FindUnit`. */
  lemma FindUnitStep(raw: string, units: seq<Unit>, i: nat)
    requires i < |units| && FirstExact(raw, units[..i]).None?
    ensures raw in Aliases(units[i]) ==> UnitAmong(raw, units) == units[i]
    ensures raw !in Aliases(units[i]) ==> FirstExact(raw, units[..i + 1]).None?
    ensures LastLoose(raw, units[..i + 1]) == if LooseMatch(raw, units[i]) then Some(units[i]) else LastLoose(raw, units[..i])
  {
    ExactStep(raw, units, i);
    LastSuchStep(units, i, LooseTest(raw));
  }

  lemma ExactStep(raw: string, units: seq<Unit>, i: nat)
    requires i < |units| && FirstExact(raw, units[..i]).None?
    ensures raw in Aliases(units[i]) ==> UnitAmong(raw, units) == units[i]
    ensures raw !in Aliases(units[i]) ==> FirstExact(raw, units[..i + 1]).None?
  {
    var exact := ExactTest(raw);
    if exact(units[i]) {
      FirstSuchAt(units, i, exact);
    } else {
      FirstSuchNoneExtends(units, i, exact);
    }
  }

  /** When no unit before us[i] passes the test and us[i] does, `FirstSuch` is us[i]. */
  lemma FirstSuchAt(us: seq<Unit>, i: nat, test: Unit -> bool)
    requires i < |us| && FirstSuch(us[..i], test).None? && test(us[i])
    ensures FirstSuch(us, test) == Some(us[i])
  {
    var rest := us[i..];
    assert rest != [] && rest[0] == us[i];
    FirstSuchSplit(us[..i], rest, test);
    assert us[..i] + rest == us;
  }

  /** When neither the units before us[i] nor us[i] pass the test, none up to us[i] does. */
  lemma FirstSuchNoneExtends(us: seq<Unit>, i: nat, test: Unit -> bool)
    requires i < |us| && FirstSuch(us[..i], test).None? && !test(us[i])
    ensures FirstSuch(us[..i + 1], test).None?
  {
    assert us[..i + 1] == us[..i] + [us[i]];
    FirstSuchSplit(us[..i], [us[i]], test);
  }

  /** After every unit, with no exact match: the last loose match, or a unitless unit. */
  lemma FindUnitEnd(raw: string, units: seq<Unit>, secondary: Option<Unit>)
    requires FirstExact(raw, units[..|units|]).None? && secondary == LastLoose(raw, units[..|units|])
    ensures UnitAmong(raw, units) == if secondary.Some? then secondary.value else Unitless(UnitlessUnits.New(raw))
  {
    assert units[..|units|] == units;
  }

  /**
   * The loops of `parse_unit` over every alias of every unit of us,
   * returning at the first exact match and remembering the last match that
   * ignores case.
   */
  method FindUnit(raw: string, units: seq<Unit>) returns (unit: Unit)
    ensures unit == UnitAmong(raw, units)
  {
    var secondary: Option<Unit> := None;
    for i := 0 to |units|
      invariant FirstExact(raw, units[..i]).None?
      invariant secondary == LastLoose(raw, units[..i])
    {
      FindUnitStep(raw, units, i);
      var exact;
      exact, secondary := ScanAliases(raw, units[i], Aliases(units[i]), secondary);
      if exact {
        return units[i];
      }
    }
    FindUnitEnd(raw, units, secondary);
    unit := if secondary.Some? then secondary.value else Unitless(UnitlessUnits.New(raw));
  }

  /** `parse_unit`: the letters that follow, then the unit they name among the unitful units. */
  method ParseUnit(p: ParserInput) returns (r: PResult<Unit>)
    ensures r == UnitParse(p)
  {
    var alpha := Alpha1(p);
    if alpha.NoParse? {
      return NoParse;
    }
    var unit := FindUnit(alpha.value.input, UnitfulUnits());
    r := Parsed(alpha.rest, unit);
  }

  /** `parse_unit` read at position u: the letters there, as many as follow, and the unit they name. */
  function UnitWord(s: seq<char>, u: nat): (r: Scan<Unit>)
    requires u <= |s|
    ensures r.Scanned? <==> u < |s| && IsAlpha(s[u])
    ensures r.Scanned? ==> LettersSpan(s, u, r.end) && r.value == ResolvedUnit(s[u..r.end])
  {
    var k := RunEnd(s, u, Letters);
    if k == u then Failed else Scanned(k, ResolvedUnit(s[u..k]))
  }

  /** `parse_unit` on the piece after the first u characters is `UnitWord` at position u. */
  lemma UnitParseShift(p: ParserInput, u: nat)
    requires u <= |p.input|
    ensures UnitParse(Advance(p, u)) == Lift(p, UnitWord(p.input, u))
  {
    Alpha1Shift(p, u);
    var k := RunEnd(p.input, u, Letters);
    if k > u {
      assert Prefix(Advance(p, u), k - u).input == p.input[u..k];
    }
  }

  // ---------------------------------------------------------------------
  // Measures

  /** Where the parts of one measure sit: its number ends at numberEnd, its unit word starts at unitStart. */
  datatype Parts = Parts(numberEnd: nat, unitStart: nat, number: Rat, unit: Unit)

  /**
   * s[i..k] is a measure laid out as parts says: a number up to numberEnd,
   * white space, then the unit word (all the letters that follow) up to k,
   * naming the unit.
   */
  predicate WellFormed(s: seq<char>, i: nat, k: nat, parts: Parts)
  {
    i < parts.numberEnd && SpacesSpan(s, parts.numberEnd, parts.unitStart) && LettersSpan(s, parts.unitStart, k)
    && parts.unit == ResolvedUnit(s[parts.unitStart..k])
  }

  /** `tuple((consumed(number), multispace0, consumed(parse_unit)))` for one number syntax. */
  function NumberThenUnit(syntax: NumberSyntax, s: seq<char>, i: nat): (r: Scan<Parts>)
    requires i <= |s|
    ensures r.Scanned? ==> (WellFormed(s, i, r.end, r.value)
      && ParseNumber(syntax, s, i) == Scanned(r.value.numberEnd, r.value.number))
    ensures r.Failed? <==> (ParseNumber(syntax, s, i).Failed?
      || !IsAlphaAt(s, Multispace0At(s, ParseNumber(syntax, s, i).end)))
  {
    match ParseNumber(syntax, s, i)
    case Failed => Failed
    case Scanned(n, number) =>
      var u := Multispace0At(s, n);
      match UnitWord(s, u)
      case Failed => Failed
      case Scanned(k, unit) => Scanned(k, Parts(n, u, number, unit))
  }

  /** A number, white space, then a run of letters: the unit word those letters resolve to. */
  lemma NumberThenUnitReads(syntax: NumberSyntax, s: seq<char>, i: nat, n: nat, number: Rat, u: nat, k: nat)
    requires i <= |s| && ParseNumber(syntax, s, i) == Scanned(n, number)
    requires SpacesSpan(s, n, u) && LettersSpan(s, u, k)
    ensures NumberThenUnit(syntax, s, i) == Scanned(k, Parts(n, u, number, ResolvedUnit(s[u..k])))
  {
    Multispace0Reads(s, n, u);
    UnitWordReads(s, u, k);
  }

  /** On a run of letters from u to k, the unit word ends at k and is what those letters resolve to. */
  lemma UnitWordReads(s: seq<char>, u: nat, k: nat)
    requires LettersSpan(s, u, k)
    ensures UnitWord(s, u) == Scanned(k, ResolvedUnit(s[u..k]))
  {
    RunEndAt(s, u, k, Letters);
  }

  /** A letter stands at position u. */
  predicate IsAlphaAt(s: seq<char>, u: nat)
  {
    u < |s| && IsAlpha(s[u])
  }

  /** The `alt` of the three: a whole number, else a decimal, else a fraction, each followed by its unit. */
  function MeasureAt(s: seq<char>, i: nat): (r: Scan<Parts>)
    requires i <= |s|
    ensures r.Scanned? ==> WellFormed(s, i, r.end, r.value)
    ensures r.Scanned? ==> exists syntax :: ParseNumber(syntax, s, i) == Scanned(r.value.numberEnd, r.value.number)
  {
    var integer := NumberThenUnit(IntegerSyntax, s, i);
    if integer.Scanned? then integer
    else
      var decimal := NumberThenUnit(DecimalSyntax, s, i);
      if decimal.Scanned? then decimal else NumberThenUnit(RationalSyntax, s, i)
  }

  /** A measure is found exactly when one of the three syntaxes, followed by a unit word, reads at i. */
  lemma MeasureAtIff(s: seq<char>, i: nat)
    requires i <= |s|
    ensures MeasureAt(s, i).Scanned? <==> exists syntax :: NumberThenUnit(syntax, s, i).Scanned?
  {
    var integer, decimal := NumberThenUnit(IntegerSyntax, s, i), NumberThenUnit(DecimalSyntax, s, i);
    var rational := NumberThenUnit(RationalSyntax, s, i);
    assert MeasureAt(s, i) == if integer.Scanned? then integer else if decimal.Scanned? then decimal else rational;
    forall syntax | NumberThenUnit(syntax, s, i).Scanned?
      ensures MeasureAt(s, i).Scanned?
    {
      match syntax
      case IntegerSyntax =>
      case DecimalSyntax =>
      case RationalSyntax =>
    }
  }

  /** The whole-number reading wins when it succeeds; the decimal one when only it and the fraction do. */
  lemma MeasureAtOrder(s: seq<char>, i: nat)
    requires i <= |s|
    ensures NumberThenUnit(IntegerSyntax, s, i).Scanned? ==> MeasureAt(s, i) == NumberThenUnit(IntegerSyntax, s, i)
    ensures NumberThenUnit(IntegerSyntax, s, i).Failed? && NumberThenUnit(DecimalSyntax, s, i).Scanned?
      ==> MeasureAt(s, i) == NumberThenUnit(DecimalSyntax, s, i)
  {
  }

  /**
   * `&input.input[..input.input_len() - remainder.input_len()]`: the text
   * before the remainder, cut at a byte offset; it is the first k characters.
   */
  function ConsumedText(p: ParserInput, k: nat): (raw: seq<char>)
    requires k <= |p.input|
    ensures raw == p.input[..k]
  {
    var rest := Advance(p, k);
    ByteLenSplit(p.input, k);
    ByteOffsetEnd(p.input);
    ByteOffsetEnd(rest.input);
    OffsetIsBoundary(p.input, k);
    CharIndexOfOffset(p.input, k);
    ByteSliceTo(p.input, InputLen(p) - InputLen(rest))
  }

  /**
   * t is laid out over the first k characters of p: its raw text is those
   * characters; its number range starts them; white space separates it
   * from the unit range, which holds letters (all that follow) and ends
   * them.
   */
  predicate LaidOut(p: ParserInput, k: nat, t: MeasureToken)
  {
    k <= |p.input| && t.raw == p.input[..k] && t.measure.Single?
    && t.numberRange.start == p.charIndex && t.unitRange.end == p.charIndex + k
    && p.charIndex < t.numberRange.end <= t.unitRange.start < t.unitRange.end
    && SpacesSpan(p.input, t.numberRange.end - p.charIndex, t.unitRange.start - p.charIndex)
    && LettersSpan(p.input, t.unitRange.start - p.charIndex, k)
  }

  /**
   * t describes the measure written as the first k characters of p: it is
   * laid out over them, its number range covers a number of one of the
   * three syntaxes with the token's value, and its unit is the one the
   * letters of its unit range name.
   */
  ghost predicate Describes(p: ParserInput, k: nat, t: MeasureToken)
  {
    LaidOut(p, k, t)
    && t.measure.single.unit == ResolvedUnit(p.input[t.unitRange.start - p.charIndex..k])
    && exists syntax :: ParseNumber(syntax, p.input, 0) == Scanned(t.numberRange.end - p.charIndex, t.measure.single.value)
  }

  /** The token `parse_measure` builds from the parts it read. */
  function Token(p: ParserInput, k: nat, parts: Parts): (t: MeasureToken)
    requires WellFormed(p.input, 0, k, parts)
    requires exists syntax :: ParseNumber(syntax, p.input, 0) == Scanned(parts.numberEnd, parts.number)
    ensures Describes(p, k, t)
  {
    var u := parts.unitStart;
    var t := MeasureToken(MeasureSingle(parts.number, parts.unit),
      ParserInputs.Range(Prefix(p, parts.numberEnd)),
      ParserInputs.Range(Prefix(Advance(p, u), k - u)),
      ConsumedText(p, k));
    assert t.numberRange.end - p.charIndex == parts.numberEnd;
    assert t.unitRange.start - p.charIndex == u;
    t
  }

  /**
   * `parse_measure`: a whole number, else a decimal, else a fraction, each
   * followed by optional white space and a unit word. The token's raw text
   * is the consumed prefix of the input.
   */
  function ParseMeasure(p: ParserInput): (r: PResult<MeasureToken>)
    ensures r.Parsed? <==> MeasureAt(p.input, 0).Scanned?
    ensures r.Parsed? ==> Consumes(p, r.rest) && Describes(p, |p.input| - |r.rest.input|, r.value)
  {
    match MeasureAt(p.input, 0)
    case Failed => NoParse
    case Scanned(k, parts) =>
      assert 0 < parts.numberEnd <= parts.unitStart < k;
      AdvanceConsumes(p, k);
      Parsed(Advance(p, k), Token(p, k, parts))
  }

  /** The token `parse_measure` returns for the parts it finds: their ranges in the document and the text up to the unit's end. */
  lemma ParseMeasureOf(p: ParserInput, k: nat, parts: Parts)
    requires MeasureAt(p.input, 0) == Scanned(k, parts)
    ensures ParseMeasure(p) == Parsed(Advance(p, k), MeasureToken(MeasureSingle(parts.number, parts.unit),
      CharRange(p.charIndex, p.charIndex + parts.numberEnd), CharRange(p.charIndex + parts.unitStart, p.charIndex + k), p.input[..k]))
  {
    assert ParseMeasure(p) == Parsed(Advance(p, k), Token(p, k, parts));
    TokenFields(p, k, parts);
  }

  lemma TokenFields(p: ParserInput, k: nat, parts: Parts)
    requires WellFormed(p.input, 0, k, parts)
    requires exists syntax :: ParseNumber(syntax, p.input, 0) == Scanned(parts.numberEnd, parts.number)
    ensures Token(p, k, parts) == MeasureToken(MeasureSingle(parts.number, parts.unit),
      CharRange(p.charIndex, p.charIndex + parts.numberEnd), CharRange(p.charIndex + parts.unitStart, p.charIndex + k), p.input[..k])
  {
    var t := Token(p, k, parts);
    assert t.numberRange == CharRange(p.charIndex, p.charIndex + parts.numberEnd);
    assert t.unitRange == CharRange(p.charIndex + parts.unitStart, p.charIndex + k);
  }

  /** `MeasureToken::full_range`: from the start of the number to the end of the unit. */
  function FullRange(t: MeasureToken): CharRange
  {
    CharRange(t.numberRange.start, t.unitRange.end)
  }

  /** `MeasureToken::number_text`; `None` where the source panics. */
  function NumberText(t: MeasureToken): Option<seq<char>>
  {
    if t.numberRange.end < t.numberRange.start then None
    else CharSliceOf(t.raw, 0, t.numberRange.end - t.numberRange.start)
  }

  /** `MeasureToken::unit_text` as written; `None` where the source panics. */
  function UnitText(t: MeasureToken): Option<seq<char>>
  {
    if t.unitRange.start < t.numberRange.start || t.unitRange.end < t.numberRange.start then None
    else CharSliceOf(t.raw, t.unitRange.start - t.numberRange.start, t.unitRange.end - t.numberRange.start)
  }

  /** `unit_text` with the slice that can end at the end of the raw text. */
  function UnitTextCorrected(t: MeasureToken): Option<seq<char>>
  {
    if t.unitRange.start < t.numberRange.start || t.unitRange.end < t.numberRange.start then None
    else CharSliceCorrected(t.raw, t.unitRange.start - t.numberRange.start, t.unitRange.end - t.numberRange.start)
  }

  /**
   * A token's full range is exactly the document range of its raw text, and
   * its number text is the number exactly as written.
   */
  lemma TokenTexts(p: ParserInput, k: nat, t: MeasureToken)
    requires LaidOut(p, k, t)
    ensures FullRange(t) == ParserInputs.Range(Prefix(p, k)) && |t.raw| == k
    ensures NumberText(t) == Some(p.input[..t.numberRange.end - p.charIndex])
  {
    var n := t.numberRange.end - p.charIndex;
    assert t.raw[0..n] == p.input[..n];
  }

  /** The unit range always ends at the end of the raw text, so `unit_text` as written never succeeds. */
  lemma UnitTextAlwaysFails(p: ParserInput, k: nat, t: MeasureToken)
    requires LaidOut(p, k, t)
    ensures UnitText(t) == None
  {
  }

  /**
   * With the corrected slice, the unit text is the unit word as written: all
   * the letters of the unit range (which, for a token `parse_measure`
   * returns, name its unit, as `Describes` says).
   */
  lemma UnitTextCorrectedIsUnitWord(p: ParserInput, k: nat, t: MeasureToken)
    requires LaidOut(p, k, t)
    ensures var u := t.unitRange.start - p.charIndex;
      UnitTextCorrected(t) == Some(p.input[u..k]) && LettersSpan(p.input, u, k)
  {
    var u := t.unitRange.start - p.charIndex;
    CharSliceCorrectedComplete(t.raw, u, k);
    assert t.raw[u..k] == p.input[u..k];
  }
}
