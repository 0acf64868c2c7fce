/**
 * `ParserInput` (src/parser/mod.rs): the piece of the document a parser is
 * looking at, together with the character index in the whole document at
 * which that piece starts. nom drives it through byte offsets; the model
 * keeps the text as characters and converts with `CharIndexing`.
 */
module ParserInputs {
  import opened CharIndexing

  datatype ParserInput = ParserInput(input: seq<char>, charIndex: nat)

  /** `Range<usize>` of character indices. */
  datatype CharRange = CharRange(start: nat, end: nat)

  /** The piece p after its first k characters, at its document position. */
  function Advance(p: ParserInput, k: nat): ParserInput
    requires k <= |p.input|
  {
    ParserInput(p.input[k..], p.charIndex + k)
  }

  /** The first k characters of p, at p's document position. */
  function Prefix(p: ParserInput, k: nat): ParserInput
    requires k <= |p.input|
  {
    ParserInput(p.input[..k], p.charIndex)
  }

  /**
   * q is a part of p at the document position q claims: its characters are
   * exactly those of p from q.charIndex on.
   */
  predicate Located(p: ParserInput, q: ParserInput)
  {
    p.charIndex <= q.charIndex
    && q.charIndex - p.charIndex + |q.input| <= |p.input|
    && p.input[q.charIndex - p.charIndex..q.charIndex - p.charIndex + |q.input|] == q.input
  }

  /** q is what is left of p after some of its leading characters. */
  predicate IsSuffix(p: ParserInput, q: ParserInput)
  {
    |q.input| <= |p.input| && q == Advance(p, |p.input| - |q.input|)
  }

  lemma SuffixIsLocated(p: ParserInput, q: ParserInput)
    requires IsSuffix(p, q)
    ensures Located(p, q)
  {
  }

  lemma AdvanceAdvance(p: ParserInput, j: nat, k: nat)
    requires j + k <= |p.input|
    ensures Advance(Advance(p, j), k) == Advance(p, j + k)
  {
    assert p.input[j..][k..] == p.input[j + k..];
  }

  /** Document position s, reached from p or from its suffix q, is the same input. */
  lemma AdvanceTo(p: ParserInput, q: ParserInput, s: int)
    requires IsSuffix(p, q) && q.charIndex <= s <= q.charIndex + |q.input|
    ensures p.charIndex <= s <= p.charIndex + |p.input|
    ensures Advance(q, s - q.charIndex) == Advance(p, s - p.charIndex)
  {
    AdvanceAdvance(p, |p.input| - |q.input|, s - q.charIndex);
  }

  lemma SuffixTransitive(p: ParserInput, q: ParserInput, r: ParserInput)
    requires IsSuffix(p, q) && IsSuffix(q, r)
    ensures IsSuffix(p, r)
  {
    AdvanceAdvance(p, |p.input| - |q.input|, |q.input| - |r.input|);
  }

  /** `ParserInput::new`: a piece of text starting at a document character index. */
  function New(input: seq<char>, charIndex: nat): (p: ParserInput)
    ensures p.input == input && p.charIndex == charIndex
  {
    ParserInput(input, charIndex)
  }

  /** `From<&str>`: a whole document, starting at character 0. */
  function FromStr(s: seq<char>): (p: ParserInput)
    ensures p.input == s && Range(p) == CharRange(0, |s|)
  {
    New(s, 0)
  }

  /** `ParserInput::char_index`: the document character index of a byte of the piece. */
  function CharIndex(p: ParserInput, byteOffset: nat): (i: nat)
    ensures p.charIndex <= i <= p.charIndex + |p.input|
  {
    p.charIndex + CharsStartingBelow(p.input, byteOffset)
  }

  /** At the first byte of character k, the document index is k characters past the piece's start. */
  lemma CharIndexAtOffset(p: ParserInput, k: nat)
    requires k <= |p.input|
    ensures CharIndex(p, ByteOffset(p.input, k)) == p.charIndex + k
  {
    CharIndexOfOffset(p.input, k);
  }

  /** `ParserInput::range`: the document character indices the piece covers. */
  function Range(p: ParserInput): (r: CharRange)
    ensures r.start == p.charIndex && r.end - r.start == |p.input|
  {
    CharRange(p.charIndex, p.charIndex + |p.input|)
  }

  /** `InputLength::input_len`: the length in bytes. */
  function InputLen(p: ParserInput): (n: nat)
    ensures n == ByteOffset(p.input, |p.input|)
  {
    ByteOffsetEnd(p.input);
    ByteLen(p.input)
  }

  /** `InputTake::take`: the first `count` bytes; the position does not move. */
  function Take(p: ParserInput, count: nat): (r: ParserInput)
    requires IsCharBoundary(p.input, count)
    ensures Located(p, r) && r.charIndex == p.charIndex
    ensures InputLen(r) == count
  {
    ParserInput(ByteSliceTo(p.input, count), p.charIndex)
  }

  /**
   * `InputTake::take_split`: (the rest after `count` bytes, the first
   * `count` bytes). The rest starts, in the document, where the taken part
   * ends.
   */
  function TakeSplit(p: ParserInput, count: nat): (r: (ParserInput, ParserInput))
    requires IsCharBoundary(p.input, count)
    ensures r.1.input + r.0.input == p.input
    ensures r.1.charIndex == p.charIndex && r.0.charIndex == Range(r.1).end
    ensures InputLen(r.1) == count
    ensures IsSuffix(p, r.0) && Located(p, r.1)
  {
    var k := CharsStartingBelow(p.input, count);
    assert p.input[..k] + p.input[k..] == p.input;
    (New(ByteSliceFrom(p.input, count), CharIndex(p, count)), New(ByteSliceTo(p.input, count), p.charIndex))
  }

  /**
   * `Slice<Range<usize>>` as written: slices the bytes a..b but gives the
   * result the document index `char_index + a`, a byte count.
   */
  function SliceRange(p: ParserInput, a: nat, b: nat): (r: ParserInput)
    requires a <= b && IsCharBoundary(p.input, a) && IsCharBoundary(p.input, b)
    ensures r.input == ByteSlice(p.input, a, b)
    ensures r.charIndex == p.charIndex + a
  {
    New(ByteSlice(p.input, a, b), p.charIndex + a)
  }

  /** On "½2", slicing out the "2" (bytes 2..3) claims document index 2, but the "2" is character 1. */
  lemma SliceRangeMislocates()
    ensures var p := FromStr("½2");
      IsCharBoundary(p.input, 2) && IsCharBoundary(p.input, 3)
      && SliceRange(p, 2, 3) == ParserInput("2", 2)
      && !Located(p, SliceRange(p, 2, 3))
  {
    var p := FromStr("½2");
    ByteOffsetStep(p.input, 0);
    ByteOffsetStep(p.input, 1);
    OffsetIsBoundary(p.input, 1);
    OffsetIsBoundary(p.input, 2);
    CharIndexOfOffset(p.input, 1);
    CharIndexOfOffset(p.input, 2);
  }

  /** `Slice<Range<usize>>` with the start converted to a character index, as the other slices do. */
  function SliceRangeCorrected(p: ParserInput, a: nat, b: nat): (r: ParserInput)
    requires a <= b && IsCharBoundary(p.input, a) && IsCharBoundary(p.input, b)
    ensures Located(p, r)
    ensures r.charIndex == CharIndex(p, a) && Range(r).end == CharIndex(p, b)
  {
    CharIndexMonotone(p.input, a, b);
    New(ByteSlice(p.input, a, b), CharIndex(p, a))
  }

  /** `Slice<RangeFrom<usize>>`: everything from byte a on, at its document position. */
  function SliceFrom(p: ParserInput, a: nat): (r: ParserInput)
    requires IsCharBoundary(p.input, a)
    ensures IsSuffix(p, r) && r.charIndex == CharIndex(p, a)
  {
    New(ByteSliceFrom(p.input, a), CharIndex(p, a))
  }

  /** `Slice<RangeTo<usize>>`: the first b bytes; the position does not move. */
  function SliceTo(p: ParserInput, b: nat): (r: ParserInput)
    requires IsCharBoundary(p.input, b)
    ensures Located(p, r) && r.charIndex == p.charIndex && InputLen(r) == b
  {
    New(ByteSliceTo(p.input, b), p.charIndex)
  }

  /** `Offset::offset`: how many bytes of p precede its suffix q. */
  function Offset(p: ParserInput, q: ParserInput): (n: nat)
    requires IsSuffix(p, q)
    ensures n == ByteOffset(p.input, |p.input| - |q.input|)
  {
    ByteLenSplit(p.input, |p.input| - |q.input|);
    InputLen(p) - InputLen(q)
  }

  /** Cutting at the start of character k: take_split and the slices agree with Advance and Prefix. */
  lemma SplitAtChar(p: ParserInput, k: nat)
    requires k <= |p.input|
    ensures IsCharBoundary(p.input, ByteOffset(p.input, k))
    ensures TakeSplit(p, ByteOffset(p.input, k)) == (Advance(p, k), Prefix(p, k))
    ensures SliceFrom(p, ByteOffset(p.input, k)) == Advance(p, k)
    ensures SliceTo(p, ByteOffset(p.input, k)) == Prefix(p, k)
    ensures Take(p, ByteOffset(p.input, k)) == Prefix(p, k)
  {
    OffsetIsBoundary(p.input, k);
    CharIndexOfOffset(p.input, k);
  }

  /** The character-index examples of the source's tests. */
  lemma CharIndexExamples()
    ensures CharIndex(New("½2", 0), 2) == 1
    ensures CharIndex(New("½2", 0), 3) == 2
  {
    CharIndexAtOffset(New("½2", 0), 1);
    CharIndexAtOffset(New("½2", 0), 2);
    ByteOffsetStep("½2", 0);
    ByteOffsetStep("½2", 1);
  }

  /** The range examples of the source's tests. */
  lemma RangeExamples()
    ensures Range(New("½2", 0)) == CharRange(0, 2)
    ensures Range(New("12", 0)) == CharRange(0, 2)
    ensures Range(New("½½", 0)) == CharRange(0, 2)
    ensures Range(New("1½1", 0)) == CharRange(0, 3)
    ensures Range(New("1½1", 1)) == CharRange(1, 4)
    ensures Range(New("1½1", 2)) == CharRange(2, 5)
  {
  }
}
