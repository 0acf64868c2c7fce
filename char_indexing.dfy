/**
 * Unicode-safe positions in text (src/parser/char_indexing.rs). Text is a
 * sequence of Unicode scalar values; Rust's `str` stores it as UTF-8, so a
 * byte offset and a character index differ once a multi-byte glyph
 * (such as ¾ or ⁄) has been passed.
 */
module CharIndexing {
  import opened Wrappers

  /** `char::len_utf8`: the number of bytes UTF-8 uses for c. */
  function Utf8Width(c: char): (w: nat)
    ensures 1 <= w <= 4
  {
    if c as int < 0x80 then 1
    else if c as int < 0x800 then 2
    else if c as int < 0x10000 then 3
    else 4
  }

  /** `str::len`: the length of the UTF-8 encoding in bytes. */
  function ByteLen(s: seq<char>): (n: nat)
    ensures n >= |s|
  {
    if s == [] then 0 else Utf8Width(s[0]) + ByteLen(s[1..])
  }

  lemma {:induction false} ByteLenAppend(a: seq<char>, b: seq<char>)
    ensures ByteLen(a + b) == ByteLen(a) + ByteLen(b)
  {
    if a != [] {
      assert (a + b)[0] == a[0];
      assert (a + b)[1..] == a[1..] + b;
      ByteLenAppend(a[1..], b);
    } else {
      assert a + b == b;
    }
  }

  /** The byte offset at which character k starts (or the byte length, for k == |s|). */
  function ByteOffset(s: seq<char>, k: nat): nat
    requires k <= |s|
  {
    ByteLen(s[..k])
  }

  lemma ByteOffsetStep(s: seq<char>, k: nat)
    requires k < |s|
    ensures ByteOffset(s, k + 1) == ByteOffset(s, k) + Utf8Width(s[k])
  {
    assert s[..k + 1] == s[..k] + [s[k]];
    ByteLenAppend(s[..k], [s[k]]);
  }

  lemma ByteOffsetEnd(s: seq<char>)
    ensures ByteOffset(s, |s|) == ByteLen(s)
  {
    assert s[..|s|] == s;
  }

  /** Only the first character starts at byte 0. */
  lemma OffsetZeroIff(s: seq<char>, k: nat)
    requires k <= |s|
    ensures ByteOffset(s, k) == 0 <==> k == 0
  {
    assert s[..0] == [];
    if k > 0 {
      ByteOffsetIncreasing(s, 0, k);
    }
  }

  /** Splitting the text at character k splits its bytes at ByteOffset(s, k). */
  lemma ByteLenSplit(s: seq<char>, k: nat)
    requires k <= |s|
    ensures ByteLen(s) == ByteOffset(s, k) + ByteLen(s[k..])
  {
    assert s == s[..k] + s[k..];
    ByteLenAppend(s[..k], s[k..]);
  }

  /** Later characters start at strictly later bytes. */
  lemma {:induction false} ByteOffsetIncreasing(s: seq<char>, j: nat, k: nat)
    requires j < k <= |s|
    ensures ByteOffset(s, j) < ByteOffset(s, k)
  {
    ByteOffsetStep(s, k - 1);
    if j < k - 1 {
      ByteOffsetIncreasing(s, j, k - 1);
    }
  }

  /** Among the first n characters, how many start before byte b. */
  function StartsBelow(s: seq<char>, b: nat, n: nat): (c: nat)
    requires n <= |s|
    ensures c <= n
  {
    if n == 0 then 0
    else StartsBelow(s, b, n - 1) + (if ByteOffset(s, n - 1) < b then 1 else 0)
  }

  /**
   * The character index `char_index_for_byte` computes: the number of
   * characters that start before byte b.
   */
  function CharsStartingBelow(s: seq<char>, b: nat): (i: nat)
    ensures i <= |s|
  {
    StartsBelow(s, b, |s|)
  }

  /** StartsBelow counts the leading run of characters that start before b. */
  lemma {:induction false} StartsBelowIsPrefix(s: seq<char>, b: nat, n: nat)
    requires n <= |s|
    ensures StartsBelow(s, b, n) <= n
    ensures forall k :: 0 <= k < StartsBelow(s, b, n) ==> ByteOffset(s, k) < b
    ensures StartsBelow(s, b, n) < n ==> ByteOffset(s, StartsBelow(s, b, n)) >= b
  {
    if n > 0 {
      StartsBelowIsPrefix(s, b, n - 1);
      var c := StartsBelow(s, b, n - 1);
      if ByteOffset(s, n - 1) < b && c < n - 1 {
        ByteOffsetIncreasing(s, c, n - 1);
      }
    }
  }

  /**
   * CharsStartingBelow(s, b) is the first character index that does not start
   * before b, or the character count when every character does.
   */
  lemma CharsStartingBelowIsFirst(s: seq<char>, b: nat)
    ensures CharsStartingBelow(s, b) <= |s|
    ensures forall k :: 0 <= k < CharsStartingBelow(s, b) ==> ByteOffset(s, k) < b
    ensures CharsStartingBelow(s, b) < |s| ==> ByteOffset(s, CharsStartingBelow(s, b)) >= b
  {
    StartsBelowIsPrefix(s, b, |s|);
  }

  /** The two properties of CharsStartingBelowIsFirst single out one index. */
  lemma CharsStartingBelowUnique(s: seq<char>, b: nat, m: nat)
    requires m <= |s|
    requires forall k :: 0 <= k < m ==> ByteOffset(s, k) < b
    requires m < |s| ==> ByteOffset(s, m) >= b
    ensures CharsStartingBelow(s, b) == m
  {
    CharsStartingBelowIsFirst(s, b);
  }

  /** At the start of character k, the character index is k. */
  lemma CharIndexOfOffset(s: seq<char>, k: nat)
    requires k <= |s|
    ensures CharsStartingBelow(s, ByteOffset(s, k)) == k
  {
    forall j | 0 <= j < k
      ensures ByteOffset(s, j) < ByteOffset(s, k)
    {
      ByteOffsetIncreasing(s, j, k);
    }
    CharsStartingBelowUnique(s, ByteOffset(s, k), k);
  }

  /** Any offset at or past the last byte maps to the character count. */
  lemma CharIndexPastEnd(s: seq<char>, b: nat)
    requires b >= ByteLen(s)
    ensures CharsStartingBelow(s, b) == |s|
  {
    forall k | 0 <= k < |s|
      ensures ByteOffset(s, k) < b
    {
      ByteOffsetEnd(s);
      ByteOffsetIncreasing(s, k, |s|);
    }
    CharsStartingBelowUnique(s, b, |s|);
  }

  /** A later byte never maps to an earlier character. */
  lemma CharIndexMonotone(s: seq<char>, a: nat, b: nat)
    requires a <= b
    ensures CharsStartingBelow(s, a) <= CharsStartingBelow(s, b)
  {
    CharsStartingBelowIsFirst(s, a);
    CharsStartingBelowIsFirst(s, b);
  }

  /** `str::is_char_boundary`: b is where some character starts, or the end. */
  predicate IsCharBoundary(s: seq<char>, b: nat)
  {
    ByteOffset(s, CharsStartingBelow(s, b)) == b
  }

  lemma OffsetIsBoundary(s: seq<char>, k: nat)
    requires k <= |s|
    ensures IsCharBoundary(s, ByteOffset(s, k))
  {
    CharIndexOfOffset(s, k);
  }

  /** `&s[a..b]` on a `str`, for byte offsets on character boundaries. */
  function ByteSlice(s: seq<char>, a: nat, b: nat): seq<char>
    requires a <= b && IsCharBoundary(s, a) && IsCharBoundary(s, b)
  {
    CharIndexMonotone(s, a, b);
    s[CharsStartingBelow(s, a)..CharsStartingBelow(s, b)]
  }

  /** `&s[a..]` on a `str`. */
  function ByteSliceFrom(s: seq<char>, a: nat): seq<char>
    requires IsCharBoundary(s, a)
  {
    s[CharsStartingBelow(s, a)..]
  }

  /** `&s[..b]` on a `str`. */
  function ByteSliceTo(s: seq<char>, b: nat): seq<char>
    requires IsCharBoundary(s, b)
  {
    s[..CharsStartingBelow(s, b)]
  }

  /**
   * `char_index_for_byte` as the source runs it: walk the characters,
   * subtracting each one's width from the remaining byte count (stopping at
   * zero), and report the index of the first character reached with nothing
   * left; if none is reached, the character count.
   */
  method CharIndexForByte(s: seq<char>, byteOffset: nat) returns (r: nat)
    ensures r == CharsStartingBelow(s, byteOffset)
  {
    var remaining := byteOffset;
    var i := 0;
    while i < |s|
      invariant 0 <= i <= |s|
      invariant forall k :: 0 <= k < i ==> ByteOffset(s, k) < byteOffset
      invariant remaining == if ByteOffset(s, i) >= byteOffset then 0 else byteOffset - ByteOffset(s, i)
    {
      if remaining > 0 {
        ByteOffsetStep(s, i);
        var width := Utf8Width(s[i]);
        remaining := if remaining >= width then remaining - width else 0;
        i := i + 1;
      } else {
        CharsStartingBelowUnique(s, byteOffset, i);
        return i;
      }
    }
    CharsStartingBelowUnique(s, byteOffset, |s|);
    r := |s|;
  }

  /**
   * `str::char_indices`, mapped to the byte offsets: each call to Next
   * yields where the next character starts.
   */
  class CharIndices {
    const text: seq<char>
    var front: nat

    ghost predicate Valid()
      reads this
    {
      front <= |text|
    }

    constructor (s: seq<char>)
      ensures Valid() && text == s && front == 0
    {
      text := s;
      front := 0;
    }

    method Next() returns (item: Option<nat>)
      requires Valid()
      modifies this
      ensures Valid()
      ensures old(front) < |text| ==> item == Some(ByteOffset(text, old(front))) && front == old(front) + 1
      ensures old(front) == |text| ==> item == None && front == old(front)
    {
      if front < |text| {
        item := Some(ByteOffset(text, front));
        front := front + 1;
      } else {
        item := None;
      }
    }

    /** `Iterator::nth`: skip n items, then yield the next one. */
    method Nth(n: nat) returns (item: Option<nat>)
      requires Valid()
      modifies this
      ensures Valid()
      ensures old(front) + n < |text| ==> item == Some(ByteOffset(text, old(front) + n)) && front == old(front) + n + 1
      ensures old(front) + n >= |text| ==> item == None && front == |text|
    {
      var skipped := 0;
      while skipped < n
        invariant Valid()
        invariant 0 <= skipped <= n
        invariant front == old(front) + skipped
      {
        var x := Next();
        if x.None? {
          return None;
        }
        skipped := skipped + 1;
      }
      item := Next();
    }
  }

  /**
   * What `char_slice` returns: for an empty range the empty string, whatever
   * the text; otherwise the characters start..end, provided a character with
   * index `end` exists (the end of the range is looked up as the start of
   * that character).
   */
  function CharSliceOf(s: seq<char>, start: nat, end: nat): Option<seq<char>>
  {
    if start >= end then Some([])
    else if end < |s| then Some(s[start..end])
    else None
  }

  /**
   * `char_slice` as the source runs it: take the byte offset of character
   * `start`, then that of character `end` from the same iterator, and slice
   * the bytes between them.
   */
  method CharSlice(s: seq<char>, start: nat, end: nat) returns (r: Option<seq<char>>)
    ensures r == CharSliceOf(s, start, end)
  {
    if start < end {
      var iter := new CharIndices(s);
      var byteStart := iter.Nth(start);
      var byteEnd := iter.Nth(end - start - 1);
      if byteStart.Some? && byteEnd.Some? {
        OffsetIsBoundary(s, start);
        OffsetIsBoundary(s, end);
        CharIndexOfOffset(s, start);
        CharIndexOfOffset(s, end);
        ByteOffsetIncreasing(s, start, end);
        r := Some(ByteSlice(s, byteStart.value, byteEnd.value));
      } else {
        r := None;
      }
    } else {
      r := Some([]);
    }
  }

  /** On "12", the slice 1..2 is the last character, "2", yet `char_slice` finds no character 2 to end at. */
  lemma CharSliceMissesLastChar()
    ensures CharSliceOf("12", 1, 2) == None
    ensures "12"[1..2] == "2"
  {
  }

  /**
   * `char_slice` as evidently intended: a range that ends at the end of the
   * text takes the byte length as its end offset.
   */
  function CharSliceCorrected(s: seq<char>, start: nat, end: nat): Option<seq<char>>
  {
    if start >= end then Some([])
    else if end <= |s| then Some(s[start..end])
    else None
  }

  /** The corrected slice yields every in-bounds range and agrees with `char_slice` wherever that succeeds. */
  lemma CharSliceCorrectedComplete(s: seq<char>, start: nat, end: nat)
    ensures start <= end <= |s| ==> CharSliceCorrected(s, start, end) == Some(s[start..end])
    ensures CharSliceCorrected(s, start, end).Some? <==> (start >= end || end <= |s|)
    ensures CharSliceOf(s, start, end).Some? ==> CharSliceCorrected(s, start, end) == CharSliceOf(s, start, end)
  {
    if start == end <= |s| {
      assert s[start..end] == [];
    }
  }

  /** The slicing examples of the source's tests, multi-byte glyphs included. */
  lemma CharSliceExamples()
    ensures CharSliceOf("12345", 0, 1) == Some("1")
    ensures CharSliceOf("⅑45", 0, 2) == Some("⅑4")
    ensures CharSliceOf("⅑45", 1, 1) == Some("")
    ensures CharSliceOf("⅑45", 1, 2) == Some("4")
    ensures CharSliceOf("456⅐⅙⅑45", 4, 5) == Some("⅙")
    ensures CharSliceOf("1⁄945", 1, 4) == Some("⁄94")
    ensures CharSliceOf("1234", 0, 0) == Some("")
    ensures CharSliceOf("", 0, 1) == None
  {
    assert "12345"[0..1] == "1";
    assert "⅑45"[0..2] == "⅑4";
    assert "⅑45"[1..2] == "4";
    assert "456⅐⅙⅑45"[4..5] == "⅙";
    assert "1⁄945"[1..4] == "⁄94";
  }

  /**
   * The byte-to-character examples of the source's tests: a byte inside a
   * multi-byte glyph maps to the character after it, and any byte past the
   * end maps to the character count.
   */
  lemma CharIndexForByteExamples()
    ensures CharsStartingBelow("456⅐⅙⅑45", 0) == 0
    ensures CharsStartingBelow("456⅐⅙⅑45", 1) == 1
    ensures CharsStartingBelow("456⅐⅙⅑45", 4) == 4
    ensures CharsStartingBelow("456⅐⅙⅑45", 5) == 4
    ensures CharsStartingBelow("456⅐⅙⅑45", 6) == 4
    ensures CharsStartingBelow("456⅐⅙⅑45", 7) == 5
    ensures CharsStartingBelow("456⅐⅙⅑45", 10) == 6
    ensures CharsStartingBelow("", 10) == 0
    ensures CharsStartingBelow("1", 10) == 1
  {
    var s := "456⅐⅙⅑45";
    assert s[..0] == [];
    ByteOffsetStep(s, 0);
    ByteOffsetStep(s, 1);
    ByteOffsetStep(s, 2);
    ByteOffsetStep(s, 3);
    ByteOffsetStep(s, 4);
    ByteOffsetStep(s, 5);
    ByteOffsetStep(s, 6);
    CharsStartingBelowUnique(s, 0, 0);
    CharsStartingBelowUnique(s, 1, 1);
    CharsStartingBelowUnique(s, 4, 4);
    CharsStartingBelowUnique(s, 5, 4);
    CharsStartingBelowUnique(s, 6, 4);
    CharsStartingBelowUnique(s, 7, 5);
    CharsStartingBelowUnique(s, 10, 6);
    CharIndexPastEnd("1", 10);
  }

  /** `Cow<str>`: text that is either borrowed from the document or owned. */
  datatype Cow = Borrowed(text: seq<char>) | Owned(text: seq<char>)

  /** `char_slice` on a `Cow`: slices the text and keeps it borrowed or owned as it was. */
  method CowCharSlice(c: Cow, start: nat, end: nat) returns (r: Option<Cow>)
    ensures r.Some? <==> CharSliceOf(c.text, start, end).Some?
    ensures r.Some? ==> r.value.text == CharSliceOf(c.text, start, end).value
    ensures r.Some? ==> (r.value.Borrowed? <==> c.Borrowed?)
  {
    match c
    case Borrowed(s) =>
      var sliced := CharSlice(s, start, end);
      r := if sliced.Some? then Some(Borrowed(sliced.value)) else None;
    case Owned(s) =>
      var sliced := CharSlice(s, start, end);
      r := if sliced.Some? then Some(Owned(sliced.value)) else None;
  }

  /** `char_index_for_byte` on a `Cow`: that of the text it holds. */
  method CowCharIndexForByte(c: Cow, byteOffset: nat) returns (r: nat)
    ensures r == CharsStartingBelow(c.text, byteOffset)
  {
    r := CharIndexForByte(c.text, byteOffset);
  }
}
