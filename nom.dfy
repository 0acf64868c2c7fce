/**
 * The nom 7 parsers the measure grammar is built from, as they behave on a
 * `ParserInput` in complete (non-streaming) mode. Each is stated in
 * characters: how many it consumes and what it yields. nom itself computes
 * them through the byte offsets of `ParserInput`'s trait implementations;
 * each `...ByOffsets` function below is that computation, and its contract
 * says it yields the character-level result the grammar uses.
 */
module Nom {
  import opened Wrappers
  import opened Text
  import opened CharIndexing
  import opened ParserInputs

  /** `IResult`: the remaining input and a value, or nom's recoverable `Err::Error`. */
  datatype PResult<T> = Parsed(rest: ParserInput, value: T) | NoParse

  /** What is left after a parser that used at least one character. */
  predicate Consumes(p: ParserInput, rest: ParserInput)
  {
    IsSuffix(p, rest) && |rest.input| < |p.input|
  }

  /** Moving past k > 0 characters consumes exactly those k. */
  lemma AdvanceConsumes(p: ParserInput, k: nat)
    requires 0 < k <= |p.input|
    ensures Consumes(p, Advance(p, k)) && |p.input| - |Advance(p, k).input| == k
  {
  }

  datatype CharClass = Digits | Letters | Spaces

  predicate InClass(c: char, cls: CharClass)
  {
    match cls
    case Digits => IsDigit(c)
    case Letters => IsAlpha(c)
    case Spaces => IsMultispace(c)
  }

  /** Where the run of cls characters that starts at position i of s ends. */
  function RunEnd(s: seq<char>, i: nat, cls: CharClass): (j: nat)
    requires i <= |s|
    ensures i <= j <= |s|
    ensures forall k :: i <= k < j ==> InClass(s[k], cls)
    ensures j < |s| ==> !InClass(s[j], cls)
    decreases |s| - i
  {
    if i < |s| && InClass(s[i], cls) then RunEnd(s, i + 1, cls) else i
  }

  /** The length of the longest prefix of s whose characters are all in cls. */
  function RunLength(s: seq<char>, cls: CharClass): (n: nat)
    ensures n <= |s|
    ensures forall i :: 0 <= i < n ==> InClass(s[i], cls)
    ensures n < |s| ==> !InClass(s[n], cls)
  {
    RunEnd(s, 0, cls)
  }

  /** `InputIter::position` of the first character outside cls, as a byte offset. */
  function Position(s: seq<char>, cls: CharClass): Option<nat>
  {
    var k := RunLength(s, cls);
    if k < |s| then Some(ByteOffset(s, k)) else None
  }

  /** The leading run of cls and what follows it; fails on an empty run when nonEmpty. */
  function Run(p: ParserInput, cls: CharClass, nonEmpty: bool): (r: PResult<ParserInput>)
    ensures r.Parsed? <==> !nonEmpty || RunLength(p.input, cls) > 0
    ensures r.Parsed? ==> IsSuffix(p, r.rest) && r.value.input + r.rest.input == p.input
    ensures r.Parsed? ==> r.value.charIndex == p.charIndex && |r.value.input| == RunLength(p.input, cls)
  {
    var k := RunLength(p.input, cls);
    assert p.input[..k] + p.input[k..] == p.input;
    if nonEmpty && k == 0 then NoParse else Parsed(Advance(p, k), Prefix(p, k))
  }

  /** `split_at_position_complete`: the (possibly empty) leading run of cls, split at its byte offset. */
  function SplitAtPositionComplete(p: ParserInput, cls: CharClass): (r: PResult<ParserInput>)
    ensures r == Run(p, cls, false)
  {
    var k := RunLength(p.input, cls);
    SplitAtChar(p, k);
    ByteOffsetEnd(p.input);
    match Position(p.input, cls)
    case Some(n) => Parsed(TakeSplit(p, n).0, TakeSplit(p, n).1)
    case None => Parsed(TakeSplit(p, InputLen(p)).0, TakeSplit(p, InputLen(p)).1)
  }

  /** `split_at_position1_complete`: the leading run of cls, which must not be empty. */
  function SplitAtPosition1Complete(p: ParserInput, cls: CharClass): (r: PResult<ParserInput>)
    ensures r == Run(p, cls, true)
  {
    var k := RunLength(p.input, cls);
    SplitAtChar(p, k);
    ByteOffsetEnd(p.input);
    OffsetZeroIff(p.input, k);
    OffsetZeroIff(p.input, |p.input|);
    var split := match Position(p.input, cls)
      case Some(n) => if n == 0 then None else Some(n)
      case None => if InputLen(p) == 0 then None else Some(InputLen(p));
    if split.None? then NoParse
    else
      var (rest, taken) := TakeSplit(p, split.value);
      Parsed(rest, taken)
  }

  /** `multispace0` (`split_at_position_complete` on white space): skips spaces, tabs, carriage returns and newlines. */
  function Multispace0(p: ParserInput): (r: PResult<ParserInput>)
    ensures r.Parsed? && IsSuffix(p, r.rest)
    ensures var k := |p.input| - |r.rest.input|;
      (forall i :: 0 <= i < k ==> IsMultispace(p.input[i])) && (k < |p.input| ==> !IsMultispace(p.input[k]))
  {
    Run(p, Spaces, false)
  }

  /** `digit1` (`split_at_position1_complete` on digits): one or more ASCII digits. */
  function Digit1(p: ParserInput): (r: PResult<ParserInput>)
    ensures r.Parsed? <==> |p.input| > 0 && IsDigit(p.input[0])
    ensures r.Parsed? ==> Consumes(p, r.rest) && r.value.input + r.rest.input == p.input && r.value.charIndex == p.charIndex
    ensures r.Parsed? ==> AllDigits(r.value.input) && (r.rest.input == [] || !IsDigit(r.rest.input[0]))
  {
    Run(p, Digits, true)
  }

  /** `alpha1` (`split_at_position1_complete` on letters): one or more ASCII letters. */
  function Alpha1(p: ParserInput): (r: PResult<ParserInput>)
    ensures r.Parsed? <==> |p.input| > 0 && IsAlpha(p.input[0])
    ensures r.Parsed? ==> Consumes(p, r.rest) && r.value.input + r.rest.input == p.input && r.value.charIndex == p.charIndex
    ensures r.Parsed? ==> AllAlpha(r.value.input) && (r.rest.input == [] || !IsAlpha(r.rest.input[0]))
  {
    Run(p, Letters, true)
  }

  /**
   * `character::complete::u32`: one or more ASCII digits read as a number.
   * Integers are unbounded here, so the overflow error of the source is not
   * modelled.
   */
  function U32(p: ParserInput): (r: PResult<nat>)
    ensures r.Parsed? <==> |p.input| > 0 && IsDigit(p.input[0])
    ensures r.Parsed? ==> Consumes(p, r.rest)
    ensures r.Parsed? ==> var k := |p.input| - |r.rest.input|;
      AllDigits(p.input[..k]) && r.value == DigitsValue(p.input[..k]) && (r.rest.input == [] || !IsDigit(r.rest.input[0]))
  {
    match Digit1(p)
    case NoParse => NoParse
    case Parsed(rest, digits) =>
      assert digits.input == p.input[..|p.input| - |rest.input|];
      Parsed(rest, DigitsValue(digits.input))
  }

  /** `u32` as nom computes it: the byte position of the first non-digit, then a slice from there. */
  function U32ByOffsets(p: ParserInput): (r: PResult<nat>)
    ensures r == U32(p)
  {
    var k := RunLength(p.input, Digits);
    SplitAtChar(p, k);
    ByteOffsetEnd(p.input);
    OffsetZeroIff(p.input, |p.input|);
    if InputLen(p) == 0 || k == 0 then NoParse
    else
      var value := DigitsValue(p.input[..k]);
      match Position(p.input, Digits)
      case Some(pos) => Parsed(SliceFrom(p, pos), value)
      case None => Parsed(SliceFrom(p, InputLen(p)), value)
  }

  lemma FirstCharOffset(s: seq<char>)
    requires |s| > 0
    ensures ByteOffset(s, 1) == Utf8Width(s[0])
  {
    ByteOffsetStep(s, 0);
    assert s[..0] == [];
  }

  /** `character::complete::char(c)`: exactly the character c. */
  function CharP(p: ParserInput, c: char): (r: PResult<char>)
    ensures r.Parsed? <==> |p.input| > 0 && p.input[0] == c
    ensures r.Parsed? ==> r.rest == Advance(p, 1) && r.value == c && Consumes(p, r.rest)
  {
    if |p.input| > 0 && p.input[0] == c then Parsed(Advance(p, 1), c) else NoParse
  }

  /** `char(c)` as nom computes it: a slice after the byte width of c. */
  function CharPByOffsets(p: ParserInput, c: char): (r: PResult<char>)
    ensures r == CharP(p, c)
  {
    if |p.input| > 0 && p.input[0] == c then
      FirstCharOffset(p.input);
      SplitAtChar(p, 1);
      Parsed(SliceFrom(p, Utf8Width(c)), c)
    else
      NoParse
  }

  /** `character::complete::one_of(list)`: one character from the list. */
  function OneOf(p: ParserInput, list: seq<char>): (r: PResult<char>)
    ensures r.Parsed? <==> |p.input| > 0 && p.input[0] in list
    ensures r.Parsed? ==> r.rest == Advance(p, 1) && r.value == p.input[0] && Consumes(p, r.rest)
  {
    if |p.input| > 0 && p.input[0] in list then Parsed(Advance(p, 1), p.input[0]) else NoParse
  }

  /** `one_of(list)` as nom computes it: a slice after the byte width of the character found. */
  function OneOfByOffsets(p: ParserInput, list: seq<char>): (r: PResult<char>)
    ensures r == OneOf(p, list)
  {
    if |p.input| > 0 && p.input[0] in list then
      FirstCharOffset(p.input);
      SplitAtChar(p, 1);
      Parsed(SliceFrom(p, Utf8Width(p.input[0])), p.input[0])
    else
      NoParse
  }

  /** `bytes::complete::take(1usize)`: any one character. */
  function Take1(p: ParserInput): (r: PResult<ParserInput>)
    ensures r.Parsed? <==> |p.input| > 0
    ensures r.Parsed? ==> r.rest == Advance(p, 1) && r.value == Prefix(p, 1) && Consumes(p, r.rest)
  {
    if |p.input| == 0 then NoParse else Parsed(Advance(p, 1), Prefix(p, 1))
  }

  /** `take(1usize)` as nom computes it: `take_split` at the byte offset of the second character. */
  function Take1ByOffsets(p: ParserInput): (r: PResult<ParserInput>)
    ensures r == Take1(p)
  {
    if |p.input| == 0 then NoParse
    else
      SplitAtChar(p, 1);
      Parsed(TakeSplit(p, ByteOffset(p.input, 1)).0, TakeSplit(p, ByteOffset(p.input, 1)).1)
  }

  /** `combinator::consumed`: the part of p a parser used up, given what it left. */
  function Consumed(p: ParserInput, rest: ParserInput): (c: ParserInput)
    requires IsSuffix(p, rest)
    ensures c.input + rest.input == p.input && c.charIndex == p.charIndex
  {
    var k := |p.input| - |rest.input|;
    assert p.input[..k] + p.input[k..] == p.input;
    Prefix(p, k)
  }

  /** `consumed` as nom computes it: `Offset` between input and rest, then a slice up to it. */
  function ConsumedByOffsets(p: ParserInput, rest: ParserInput): (c: ParserInput)
    requires IsSuffix(p, rest)
    ensures c == Consumed(p, rest)
  {
    SplitAtChar(p, |p.input| - |rest.input|);
    SliceTo(p, Offset(p, rest))
  }

  // ---------------------------------------------------------------------
  // The same parsers, read at a position of a text.
  //
  // A parser applied to `Advance(p, i)`, the piece of p after its first i
  // characters, is described below by a function of p's text and i that
  // returns the position where the parser stops. The `...Shift` lemmas say
  // that the two agree.

  /** What a parser yields read at a position: where it stopped and its value, or no parse. */
  datatype Scan<T> = Scanned(end: nat, value: T) | Failed

  /** The `IResult` a positional outcome on the text of p stands for. */
  function Lift<T>(p: ParserInput, r: Scan<T>): PResult<T>
    requires r.Scanned? ==> r.end <= |p.input|
  {
    match r
    case Failed => NoParse
    case Scanned(e, v) => Parsed(Advance(p, e), v)
  }

  /** Run ends counted from position i agree with run ends of the suffix that starts there. */
  lemma {:induction false} RunEndShift(s: seq<char>, i: nat, j: nat, cls: CharClass)
    requires i <= j <= |s|
    ensures RunEnd(s[i..], j - i, cls) == RunEnd(s, j, cls) - i
    decreases |s| - j
  {
    if j < |s| {
      assert s[i..][j - i] == s[j];
      if InClass(s[j], cls) {
        RunEndShift(s, i, j + 1, cls);
      }
    }
  }

  /** `Run` on the piece after the first i characters stops where the run from position i ends. */
  lemma RunShift(p: ParserInput, i: nat, cls: CharClass, nonEmpty: bool)
    requires i <= |p.input|
    ensures var j := RunEnd(p.input, i, cls);
      Run(Advance(p, i), cls, nonEmpty)
        == if nonEmpty && j == i then NoParse else Parsed(Advance(p, j), Prefix(Advance(p, i), j - i))
  {
    var j := RunEnd(p.input, i, cls);
    RunEndShift(p.input, i, i, cls);
    AdvanceAdvance(p, i, j - i);
    RunIsSplit(Advance(p, i), cls, nonEmpty);
  }

  lemma RunIsSplit(p: ParserInput, cls: CharClass, nonEmpty: bool)
    ensures var k := RunLength(p.input, cls);
      Run(p, cls, nonEmpty) == if nonEmpty && k == 0 then NoParse else Parsed(Advance(p, k), Prefix(p, k))
  {
  }

  /** s[i..j] is white space, and no white space follows it. */
  predicate SpacesSpan(s: seq<char>, i: nat, j: nat)
  {
    i <= j <= |s| && (forall k :: i <= k < j ==> IsMultispace(s[k])) && (j < |s| ==> !IsMultispace(s[j]))
  }

  /** s[i..j] is one or more digits, and no digit follows it. */
  predicate DigitsSpan(s: seq<char>, i: nat, j: nat)
  {
    i < j <= |s| && (forall k :: i <= k < j ==> IsDigit(s[k])) && (j < |s| ==> !IsDigit(s[j]))
  }

  /** s[i..j] is one or more letters, and no letter follows it. */
  predicate LettersSpan(s: seq<char>, i: nat, j: nat)
  {
    i < j <= |s| && (forall k :: i <= k < j ==> IsAlpha(s[k])) && (j < |s| ==> !IsAlpha(s[j]))
  }

  /** A run of cls from i that stops at j is what `RunEnd` finds. */
  lemma RunEndAt(s: seq<char>, i: nat, j: nat, cls: CharClass)
    requires i <= j <= |s| && (forall k :: i <= k < j ==> InClass(s[k], cls)) && (j < |s| ==> !InClass(s[j], cls))
    ensures RunEnd(s, i, cls) == j
  {
  }

  /** `multispace0` read at position i: where the white space there ends. */
  function Multispace0At(s: seq<char>, i: nat): (j: nat)
    requires i <= |s|
    ensures SpacesSpan(s, i, j)
  {
    RunEnd(s, i, Spaces)
  }

  /** The number the digits s[i..j] denote, read in place. */
  function DigitsFrom(s: seq<char>, i: nat, j: nat): nat
    requires i <= j <= |s|
    requires forall k :: i <= k < j ==> IsDigit(s[k])
    decreases j - i
  {
    if j == i then 0 else DigitsFrom(s, i, j - 1) * 10 + DigitValue(s[j - 1])
  }

  lemma {:induction false} DigitsFromSlice(s: seq<char>, i: nat, j: nat)
    requires i <= j <= |s|
    requires forall k :: i <= k < j ==> IsDigit(s[k])
    ensures AllDigits(s[i..j]) && DigitsFrom(s, i, j) == DigitsValue(s[i..j])
    decreases j - i
  {
    if j > i {
      DigitsFromSlice(s, i, j - 1);
      assert s[i..j][..j - 1 - i] == s[i..j - 1];
      assert s[i..j][j - 1 - i] == s[j - 1];
    } else {
      assert s[i..j] == [];
    }
  }

  /** `u32` read at position i: the digits there, as many as follow, and the number they denote. */
  function U32At(s: seq<char>, i: nat): (r: Scan<nat>)
    requires i <= |s|
    ensures r.Scanned? <==> i < |s| && IsDigit(s[i])
    ensures r.Scanned? ==> DigitsSpan(s, i, r.end) && r.value == DigitsFrom(s, i, r.end)
  {
    var j := RunEnd(s, i, Digits);
    if j == i then Failed else Scanned(j, DigitsFrom(s, i, j))
  }

  /** White space from i up to j, and none after, is what `multispace0` reads. */
  lemma Multispace0Reads(s: seq<char>, i: nat, j: nat)
    requires SpacesSpan(s, i, j)
    ensures Multispace0At(s, i) == j
  {
    RunEndAt(s, i, j, Spaces);
  }

  /** Digits from i up to j, and none after, are what `u32` reads. */
  lemma U32Reads(s: seq<char>, i: nat, j: nat)
    requires DigitsSpan(s, i, j)
    ensures U32At(s, i) == Scanned(j, DigitsFrom(s, i, j))
  {
    RunEndAt(s, i, j, Digits);
  }

  /** `u32` on the piece after the first i characters is `U32At` at position i. */
  lemma U32Shift(p: ParserInput, i: nat)
    requires i <= |p.input|
    ensures U32(Advance(p, i)) == Lift(p, U32At(p.input, i))
  {
    RunShift(p, i, Digits, true);
    var j := RunEnd(p.input, i, Digits);
    if j > i {
      DigitsFromSlice(p.input, i, j);
      assert Prefix(Advance(p, i), j - i).input == p.input[i..j];
    }
  }

  /** `alpha1` on the piece after the first i characters stops where the letters from position i end. */
  lemma Alpha1Shift(p: ParserInput, i: nat)
    requires i <= |p.input|
    ensures var j := RunEnd(p.input, i, Letters);
      Alpha1(Advance(p, i)) == if j == i then NoParse else Parsed(Advance(p, j), Prefix(Advance(p, i), j - i))
  {
    RunShift(p, i, Letters, true);
  }

  lemma CharPShift(p: ParserInput, i: nat, c: char)
    requires i <= |p.input|
    ensures CharP(Advance(p, i), c)
      == if i < |p.input| && p.input[i] == c then Parsed(Advance(p, i + 1), c) else NoParse
  {
    if i < |p.input| {
      AdvanceAdvance(p, i, 1);
    }
  }

  lemma OneOfShift(p: ParserInput, i: nat, list: seq<char>)
    requires i <= |p.input|
    ensures OneOf(Advance(p, i), list)
      == if i < |p.input| && p.input[i] in list then Parsed(Advance(p, i + 1), p.input[i]) else NoParse
  {
    if i < |p.input| {
      AdvanceAdvance(p, i, 1);
    }
  }

  /** `char(c)` accepts what `one_of` accepts for the one-character list [c]. */
  lemma CharIsOneOf(p: ParserInput, c: char)
    ensures CharP(p, c).Parsed? <==> OneOf(p, [c]).Parsed?
    ensures CharP(p, c).Parsed? ==> CharP(p, c) == OneOf(p, [c])
  {
  }

  /** A parser that consumes at least one character whenever it succeeds. */
  ghost predicate Progresses<T>(step: ParserInput -> PResult<T>)
  {
    forall q :: step(q).Parsed? ==> Consumes(q, step(q).rest)
  }

  /**
   * The items `fold_many0(step, Vec::new, push-if-Some)` collects from p:
   * what step yields, in order and without the `None`s, until it fails.
   */
  function Collected<T>(step: ParserInput -> PResult<Option<T>>, p: ParserInput): seq<T>
    requires Progresses(step)
    decreases |p.input|
  {
    match step(p)
    case NoParse => []
    case Parsed(rest, Some(t)) => [t] + Collected(step, rest)
    case Parsed(rest, None) => Collected(step, rest)
  }

  /** The input `fold_many0` leaves: where step first fails. */
  function Leftover<T>(step: ParserInput -> PResult<T>, p: ParserInput): ParserInput
    requires Progresses(step)
    decreases |p.input|
  {
    match step(p)
    case NoParse => p
    case Parsed(rest, _) => Leftover(step, rest)
  }

  /** The fold stops only where the step fails, at a suffix of where it started. */
  lemma {:induction false} LeftoverFails<T>(step: ParserInput -> PResult<T>, p: ParserInput)
    requires Progresses(step)
    ensures step(Leftover(step, p)).NoParse? && IsSuffix(p, Leftover(step, p))
    decreases |p.input|
  {
    match step(p)
    case NoParse =>
      assert p.input[0..] == p.input;
    case Parsed(rest, _) =>
      LeftoverFails(step, rest);
      SuffixTransitive(p, rest, Leftover(step, rest));
  }

  /**
   * `fold_many0` with an accumulator that pushes every `Some`: it applies
   * step until step fails, and returns the input left there and the items
   * collected.
   */
  method FoldMany<T>(step: ParserInput -> PResult<Option<T>>, input: ParserInput) returns (remainder: ParserInput, items: seq<T>)
    requires Progresses(step)
    ensures remainder == Leftover(step, input) && items == Collected(step, input)
  {
    var p := input;
    items := [];
    var done := false;
    while !done
      invariant Leftover(step, p) == Leftover(step, input)
      invariant !done ==> items + Collected(step, p) == Collected(step, input)
      invariant done ==> items == Collected(step, input) && p == Leftover(step, input)
      decreases |p.input| + (if done then 0 else 1)
    {
      match step(p)
      case NoParse =>
        assert items + [] == items;
        done := true;
      case Parsed(rest, Some(t)) =>
        assert (items + [t]) + Collected(step, rest) == items + ([t] + Collected(step, rest));
        items, p := items + [t], rest;
      case Parsed(rest, None) =>
        p := rest;
    }
    remainder := p;
  }
}
