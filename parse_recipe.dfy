/**
 * `parse_recipe` (src/parser/parse_recipe.rs): the document scanner. At
 * every position it tries `parse_measure`; when that fails it skips exactly
 * one character; the measures found are collected in order.
 */
module ParseRecipes {
  import opened Wrappers
  import opened ParserInputs
  import opened Nom
  import opened Measures
  import opened ParseMeasures

  /** `Recipe`: the measure tokens found, and the whole text they were found in. */
  datatype Recipe = Recipe(tokens: seq<MeasureToken>, raw: seq<char>)

  /**
   * One step of the fold, `alt((map(parse_measure, Some), map(take(1), |_| None)))`:
   * a measure when one starts here, otherwise one character skipped.
   */
  function Step(p: ParserInput): (r: PResult<Option<MeasureToken>>)
    ensures r.Parsed? <==> |p.input| > 0
    ensures r.Parsed? ==> Consumes(p, r.rest)
    ensures ParseMeasure(p).Parsed? ==> r == Parsed(ParseMeasure(p).rest, Some(ParseMeasure(p).value))
    ensures ParseMeasure(p).NoParse? && |p.input| > 0 ==> r == Parsed(Advance(p, 1), None)
  {
    match ParseMeasure(p)
    case Parsed(rest, t) => Parsed(rest, Some(t))
    case NoParse =>
      match Take1(p)
      case Parsed(rest, _) => Parsed(rest, None)
      case NoParse => NoParse
  }

  /** The step consumes at least one character whenever it succeeds. */
  lemma StepProgresses()
    ensures Progresses(Step)
  {
  }

  /** The tokens `fold_many0` collects from p to the point where the step fails. */
  function Tokens(p: ParserInput): seq<MeasureToken>
  {
    StepProgresses();
    Collected(Step, p)
  }

  /** What `fold_many0` leaves of p: the input at which the step fails. */
  function Remainder(p: ParserInput): ParserInput
  {
    StepProgresses();
    Leftover(Step, p)
  }

  /** The step fails only on an empty input, so the fold always reads the whole document. */
  lemma {:induction false} RemainderIsEmpty(p: ParserInput)
    ensures Remainder(p) == Advance(p, |p.input|)
    decreases |p.input|
  {
    match Step(p)
    case NoParse =>
      assert p.input[|p.input|..] == p.input;
    case Parsed(rest, _) =>
      RemainderIsEmpty(rest);
      AdvanceAdvance(p, |p.input| - |rest.input|, |rest.input|);
  }

  /** One step of the fold: what the step yields here comes first, then the tokens after it. */
  lemma TokensStep(p: ParserInput)
    ensures Step(p).NoParse? ==> Tokens(p) == []
    ensures Step(p).Parsed? && Step(p).value.Some? ==> Tokens(p) == [Step(p).value.value] + Tokens(Step(p).rest)
    ensures Step(p).Parsed? && Step(p).value.None? ==> Tokens(p) == Tokens(Step(p).rest)
  {
  }

  /**
   * `parse_recipe`. The fold pushes each measure found onto the token vector
   * and skips one character wherever there is none; it stops only when the
   * input is used up, so the test for a non-empty remainder, which panics,
   * always passes.
   */
  method ParseRecipe(text: seq<char>) returns (recipe: Recipe)
    ensures recipe.raw == text
    ensures recipe.tokens == Tokens(FromStr(text))
    ensures InOrder(recipe.tokens)
    ensures forall t :: t in recipe.tokens ==> Within(FromStr(text), t) && MeasureStartsAt(FromStr(text), t)
  {
    var input := FromStr(text);
    StepProgresses();
    var remainder, tokens := FoldMany(Step, input);
    RemainderIsEmpty(input);
    assert |remainder.input| == 0;
    RecipeTokens(text);
    recipe := Recipe(tokens, input.input);
  }

  /** What the scanner collects from a whole document is ordered, and each token is a measure within it. */
  lemma RecipeTokens(text: seq<char>)
    ensures InOrder(Tokens(FromStr(text)))
    ensures forall t :: t in Tokens(FromStr(text)) ==> Within(FromStr(text), t) && MeasureStartsAt(FromStr(text), t)
  {
    TokensLaidOut(FromStr(text));
    TokensAreMeasures(FromStr(text));
  }

  /** Token a ends at or before token b starts. */
  predicate Precedes(a: MeasureToken, b: MeasureToken)
  {
    FullRange(a).end <= FullRange(b).start
  }

  /** The tokens are in increasing position and do not overlap. */
  predicate InOrder(ts: seq<MeasureToken>)
  {
    forall i, j :: 0 <= i < j < |ts| ==> Precedes(ts[i], ts[j])
  }

  /** A token before all of an ordered sequence of tokens keeps it ordered. */
  lemma InOrderCons(t0: MeasureToken, ts: seq<MeasureToken>)
    requires InOrder(ts) && forall t :: t in ts ==> Precedes(t0, t)
    ensures InOrder([t0] + ts)
  {
    var all := [t0] + ts;
    forall i, j | 0 <= i < j < |all|
      ensures Precedes(all[i], all[j])
    {
      assert all[j] == ts[j - 1];
      if i > 0 {
        assert all[i] == ts[i - 1];
      }
    }
  }

  /**
   * Token t covers a non-empty part of p's document range, and its raw text
   * is the text of p at that range.
   */
  predicate Within(p: ParserInput, t: MeasureToken)
  {
    var r := FullRange(t);
    p.charIndex <= r.start < r.end <= p.charIndex + |p.input|
    && t.raw == p.input[r.start - p.charIndex..r.end - p.charIndex]
  }

  /** A part of p's text further on is a part of p's text. */
  lemma WithinSuffix(p: ParserInput, q: ParserInput, t: MeasureToken)
    requires IsSuffix(p, q) && Within(q, t)
    ensures Within(p, t)
  {
    var k := |p.input| - |q.input|;
    var r := FullRange(t);
    assert q.input == p.input[k..];
    assert q.input[r.start - q.charIndex..r.end - q.charIndex] == p.input[r.start - p.charIndex..r.end - p.charIndex];
  }

  /** A token `parse_measure` returns at p starts at p and ends where the rest begins. */
  lemma MeasureTokenAt(p: ParserInput)
    requires ParseMeasure(p).Parsed?
    ensures var t := ParseMeasure(p).value; var rest := ParseMeasure(p).rest;
      Within(p, t) && FullRange(t).start == p.charIndex && FullRange(t).end == rest.charIndex
  {
    var t, rest := ParseMeasure(p).value, ParseMeasure(p).rest;
    var k := |p.input| - |rest.input|;
    LaidOutWithin(p, k, t);
  }

  /** A token laid out over the first k characters of p lies within p, from p's start up to character k. */
  lemma LaidOutWithin(p: ParserInput, k: nat, t: MeasureToken)
    requires LaidOut(p, k, t)
    ensures Within(p, t) && FullRange(t) == CharRange(p.charIndex, p.charIndex + k)
  {
    TokenTexts(p, k, t);
    assert p.input[0..k] == p.input[..k];
  }

  /**
   * The tokens collected from p lie, in increasing position and without
   * overlapping, within p, each carrying the text of its range.
   */
  lemma {:induction false} TokensLaidOut(p: ParserInput)
    ensures InOrder(Tokens(p))
    ensures forall t :: t in Tokens(p) ==> Within(p, t)
    decreases |p.input|
  {
    match Step(p)
    case NoParse =>
    case Parsed(rest, None) =>
      TokensLaidOut(rest);
      forall t | t in Tokens(rest)
        ensures Within(p, t)
      {
        WithinSuffix(p, rest, t);
      }
    case Parsed(rest, Some(t0)) =>
      TokensLaidOut(rest);
      MeasureTokenAt(p);
      var ts := Tokens(rest);
      assert Tokens(p) == [t0] + ts;
      forall t | t in ts
        ensures Within(p, t) && Precedes(t0, t)
      {
        WithinSuffix(p, rest, t);
      }
      InOrderCons(t0, ts);
  }

  /** Every token of a recipe lies in its text, in increasing position, and has that text's characters as its raw text. */
  lemma RecipeTokensLaidOut(text: seq<char>)
    ensures InOrder(Tokens(FromStr(text)))
    ensures forall t :: t in Tokens(FromStr(text)) ==>
      (FullRange(t).start < FullRange(t).end <= |text| && t.raw == text[FullRange(t).start..FullRange(t).end])
  {
    TokensLaidOut(FromStr(text));
    forall t | t in Tokens(FromStr(text))
      ensures FullRange(t).start < FullRange(t).end <= |text| && t.raw == text[FullRange(t).start..FullRange(t).end]
    {
      WithinDocument(text, t);
    }
  }

  /** Within a whole document, a token's range is a range of its text, and its raw text is the text there. */
  lemma WithinDocument(text: seq<char>, t: MeasureToken)
    requires Within(FromStr(text), t)
    ensures FullRange(t).start < FullRange(t).end <= |text| && t.raw == text[FullRange(t).start..FullRange(t).end]
  {
    var d := FromStr(text);
    assert d.input == text && d.charIndex == 0;
  }

  /** Token t is what `parse_measure` returns at t's own start, a position within p. */
  predicate MeasureStartsAt(p: ParserInput, t: MeasureToken)
  {
    var s := FullRange(t).start;
    p.charIndex <= s <= p.charIndex + |p.input|
    && ParseMeasure(Advance(p, s - p.charIndex)).Parsed?
    && ParseMeasure(Advance(p, s - p.charIndex)).value == t
  }

  /** A measure that starts further on in p starts in p. */
  lemma MeasureStartsFurther(p: ParserInput, q: ParserInput, t: MeasureToken)
    requires IsSuffix(p, q) && MeasureStartsAt(q, t)
    ensures MeasureStartsAt(p, t)
  {
    AdvanceTo(p, q, FullRange(t).start);
  }

  /**
   * Each token collected from p is what `parse_measure` returns at its own
   * start: the scanner reports measures and nothing else.
   */
  lemma {:induction false} TokensAreMeasures(p: ParserInput)
    ensures forall t :: t in Tokens(p) ==> MeasureStartsAt(p, t)
    decreases |p.input|
  {
    match Step(p)
    case NoParse =>
    case Parsed(rest, v) =>
      TokensAreMeasures(rest);
      forall t | t in Tokens(rest)
        ensures MeasureStartsAt(p, t)
      {
        MeasureStartsFurther(p, rest, t);
      }
      if v.Some? {
        MeasureTokenAt(p);
        assert Advance(p, 0) == p;
      }
  }
}
