/** Bytes of a report file and the whitespace of section 2 of RFC 8259. */
module Bytes {
  newtype Byte = b: int | 0 <= b < 256

  const SPACE: Byte := 0x20
  const TAB: Byte := 0x09
  const LINE_FEED: Byte := 0x0A
  const CARRIAGE_RETURN: Byte := 0x0D
  const QUOTE: Byte := 0x22
  const PLUS: Byte := 0x2B
  const COMMA: Byte := 0x2C
  const MINUS: Byte := 0x2D
  const POINT: Byte := 0x2E
  const DIGIT_0: Byte := 0x30
  const DIGIT_9: Byte := 0x39
  const COLON: Byte := 0x3A
  const OPEN_BRACKET: Byte := 0x5B
  const BACKSLASH: Byte := 0x5C
  const CLOSE_BRACKET: Byte := 0x5D
  const OPEN_BRACE: Byte := 0x7B
  const CLOSE_BRACE: Byte := 0x7D

  predicate IsSpace(b: Byte) {
    b == SPACE || b == TAB || b == CARRIAGE_RETURN || b == LINE_FEED
  }

  predicate IsDigit(b: Byte) {
    DIGIT_0 <= b <= DIGIT_9
  }

  /** True iff every byte of s from index i on is whitespace. */
  predicate AllSpace(s: seq<Byte>, i: nat)
    requires i <= |s|
  {
    forall k :: i <= k < |s| ==> IsSpace(s[k])
  }

  /** The first index from i on that does not hold whitespace, or |s|. */
  function SkipSpaces(s: seq<Byte>, i: nat): (j: nat)
    requires i <= |s|
    ensures i <= j <= |s|
    ensures forall k :: i <= k < j ==> IsSpace(s[k])
    ensures j < |s| ==> !IsSpace(s[j])
    decreases |s| - i
  {
    if i < |s| && IsSpace(s[i]) then SkipSpaces(s, i + 1) else i
  }

  /** SkipSpaces is determined by its postcondition. */
  lemma SkipSpacesUnique(s: seq<Byte>, i: nat, j: nat)
    requires i <= j <= |s|
    requires forall k :: i <= k < j ==> IsSpace(s[k])
    requires j < |s| ==> !IsSpace(s[j])
    ensures SkipSpaces(s, i) == j
  {
  }
}
