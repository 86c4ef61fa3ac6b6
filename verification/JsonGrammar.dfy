/**
 * JSON values as a recursive-descent grammar, following sections 2 to 7 of
 * RFC 8259 production by production. This is the reference that the pushdown
 * scanner in JsonScanner is proved against. Each production reports where it
 * ends, the first byte that no JSON text can have there, or that the input
 * stopped too early to tell.
 */
module JsonGrammar {
  import opened Bytes

  datatype Outcome = Complete(end: nat) | Malformed(at: nat) | Incomplete

  ghost predicate Advances(o: Outcome, i: nat, s: seq<Byte>) {
    && (o.Complete? ==> i < o.end <= |s|)
    && (o.Malformed? ==> i <= o.at < |s|)
  }

  // ---- Section 7: strings ----

  /** The bytes that may follow a backslash on their own: " \ / b f n r t */
  predicate IsSimpleEscape(b: Byte) {
    b in [QUOTE, BACKSLASH, 0x2F, 0x62, 0x66, 0x6E, 0x72, 0x74]
  }

  predicate IsHexDigit(b: Byte) {
    IsDigit(b) || 0x61 <= b <= 0x66 || 0x41 <= b <= 0x46
  }

  /** The rest of a string whose opening quote ends at i. */
  function StringBody(s: seq<Byte>, i: nat): (o: Outcome)
    requires i <= |s|
    ensures Advances(o, i, s)
    decreases |s| - i, 5
  {
    if i == |s| then Incomplete
    else if s[i] == QUOTE then Complete(i + 1)
    else if s[i] == BACKSLASH then
      if i + 1 == |s| then Incomplete
      else if IsSimpleEscape(s[i + 1]) then StringBody(s, i + 2)
      else if s[i + 1] == 0x75 then HexDigits(s, i + 2, 4)
      else Malformed(i + 1)
    else if s[i] < 0x20 then Malformed(i)
    else StringBody(s, i + 1)
  }

  /** The n hexadecimal digits left of a \u escape, then the rest of the string. */
  function HexDigits(s: seq<Byte>, i: nat, n: nat): (o: Outcome)
    requires i <= |s| && n <= 4
    ensures Advances(o, i, s)
    decreases |s| - i, 6 + n
  {
    if n == 0 then StringBody(s, i)
    else if i == |s| then Incomplete
    else if IsHexDigit(s[i]) then HexDigits(s, i + 1, n - 1)
    else Malformed(i)
  }

  // ---- Section 6: numbers ----

  function Digits(s: seq<Byte>, i: nat): (j: nat)
    requires i <= |s|
    ensures i <= j <= |s|
    ensures j < |s| ==> !IsDigit(s[j])
    decreases |s| - i
  {
    if i < |s| && IsDigit(s[i]) then Digits(s, i + 1) else i
  }

  function Number(s: seq<Byte>, i: nat): (o: Outcome)
    requires i < |s|
    ensures Advances(o, i, s)
  {
    Unsigned(s, if s[i] == MINUS then i + 1 else i)
  }

  function Unsigned(s: seq<Byte>, i: nat): (o: Outcome)
    requires i <= |s|
    ensures Advances(o, i, s)
  {
    if i == |s| then Incomplete
    else if s[i] == DIGIT_0 then Fraction(s, i + 1)
    else if IsDigit(s[i]) then Fraction(s, Digits(s, i + 1))
    else Malformed(i)
  }

  function Fraction(s: seq<Byte>, i: nat): (o: Outcome)
    requires i <= |s|
    ensures o.Complete? ==> i <= o.end <= |s|
    ensures o.Malformed? ==> i <= o.at < |s|
  {
    if i < |s| && s[i] == POINT then
      if i + 1 == |s| then Incomplete
      else if IsDigit(s[i + 1]) then Exponent(s, Digits(s, i + 2))
      else Malformed(i + 1)
    else Exponent(s, i)
  }

  predicate IsExponentMark(b: Byte) {
    b == 0x65 || b == 0x45
  }

  function Exponent(s: seq<Byte>, i: nat): (o: Outcome)
    requires i <= |s|
    ensures o.Complete? ==> i <= o.end <= |s|
    ensures o.Malformed? ==> i <= o.at < |s|
  {
    if i < |s| && IsExponentMark(s[i]) then
      var j := if i + 1 < |s| && (s[i + 1] == PLUS || s[i + 1] == MINUS) then i + 2 else i + 1;
      if j == |s| then Incomplete
      else if IsDigit(s[j]) then Complete(Digits(s, j + 1))
      else Malformed(j)
    else Complete(i)
  }

  // ---- Section 3: literal names ----

  const TRUE_TAIL: seq<Byte> := [0x72, 0x75, 0x65]
  const FALSE_TAIL: seq<Byte> := [0x61, 0x6C, 0x73, 0x65]
  const NULL_TAIL: seq<Byte> := [0x75, 0x6C, 0x6C]

  /** What is left of a literal name, byte by byte. */
  function Word(s: seq<Byte>, i: nat, rest: seq<Byte>): (o: Outcome)
    requires i <= |s|
    ensures o.Complete? ==> i <= o.end <= |s|
    ensures o.Malformed? ==> i <= o.at < |s|
    decreases |rest|
  {
    if rest == [] then Complete(i)
    else if i == |s| then Incomplete
    else if s[i] == rest[0] then Word(s, i + 1, rest[1..])
    else Malformed(i)
  }

  // ---- Sections 3, 4 and 5: values, objects and arrays ----

  function Value(s: seq<Byte>, i: nat): (o: Outcome)
    requires i <= |s|
    ensures Advances(o, i, s)
    decreases |s| - i, 0
  {
    var j := SkipSpaces(s, i);
    if j == |s| then Incomplete
    else if s[j] == OPEN_BRACE then Members(s, j + 1)
    else if s[j] == OPEN_BRACKET then Elements(s, j + 1)
    else if s[j] == QUOTE then StringBody(s, j + 1)
    else if s[j] == 0x74 then Word(s, j + 1, TRUE_TAIL)
    else if s[j] == 0x66 then Word(s, j + 1, FALSE_TAIL)
    else if s[j] == 0x6E then Word(s, j + 1, NULL_TAIL)
    else Number(s, j)
  }

  /** What follows the opening brace of an object. */
  function Members(s: seq<Byte>, i: nat): (o: Outcome)
    requires i <= |s|
    ensures Advances(o, i, s)
    decreases |s| - i, 2
  {
    var j := SkipSpaces(s, i);
    if j < |s| && s[j] == CLOSE_BRACE then Complete(j + 1) else Member(s, i)
  }

  /** One member of an object and everything up to its closing brace. */
  function Member(s: seq<Byte>, i: nat): (o: Outcome)
    requires i <= |s|
    ensures Advances(o, i, s)
    decreases |s| - i, 1
  {
    var j := SkipSpaces(s, i);
    if j == |s| then Incomplete
    else if s[j] != QUOTE then Malformed(j)
    else
      var name := StringBody(s, j + 1);
      if !name.Complete? then name
      else MemberValue(s, name.end)
  }

  /** The colon and value of a member, and everything up to the closing brace. */
  function MemberValue(s: seq<Byte>, i: nat): (o: Outcome)
    requires i <= |s|
    ensures Advances(o, i, s)
    decreases |s| - i, 4
  {
    var colon := SkipSpaces(s, i);
    if colon == |s| then Incomplete
    else if s[colon] != COLON then Malformed(colon)
    else
      var value := Value(s, colon + 1);
      if !value.Complete? then value else MoreMembers(s, value.end)
  }

  /** What may follow a member: a comma and the next one, or the closing brace. */
  function MoreMembers(s: seq<Byte>, i: nat): (o: Outcome)
    requires i <= |s|
    ensures Advances(o, i, s)
    decreases |s| - i, 4
  {
    var next := SkipSpaces(s, i);
    if next == |s| then Incomplete
    else if s[next] == COMMA then Member(s, next + 1)
    else if s[next] == CLOSE_BRACE then Complete(next + 1)
    else Malformed(next)
  }

  /** What follows the opening bracket of an array. */
  function Elements(s: seq<Byte>, i: nat): (o: Outcome)
    requires i <= |s|
    ensures Advances(o, i, s)
    decreases |s| - i, 2
  {
    var j := SkipSpaces(s, i);
    if j < |s| && s[j] == CLOSE_BRACKET then Complete(j + 1) else Element(s, i)
  }

  /** One element of an array and everything up to its closing bracket. */
  function Element(s: seq<Byte>, i: nat): (o: Outcome)
    requires i <= |s|
    ensures Advances(o, i, s)
    decreases |s| - i, 1
  {
    var value := Value(s, i);
    if !value.Complete? then value else MoreElements(s, value.end)
  }

  /** What may follow an element: a comma and the next one, or the closing bracket. */
  function MoreElements(s: seq<Byte>, i: nat): (o: Outcome)
    requires i <= |s|
    ensures Advances(o, i, s)
    decreases |s| - i, 4
  {
    var next := SkipSpaces(s, i);
    if next == |s| then Incomplete
    else if s[next] == COMMA then Element(s, next + 1)
    else if s[next] == CLOSE_BRACKET then Complete(next + 1)
    else Malformed(next)
  }

  /** An object whose opening brace is at i. */
  function Object(s: seq<Byte>, i: nat): (o: Outcome)
    requires i < |s| && s[i] == OPEN_BRACE
    ensures Advances(o, i, s)
  {
    Members(s, i + 1)
  }
}
