/**
 * Every spelling of a JSON value as data: whitespace wherever it may stand, each
 * character of a string raw or escaped, each number with its sign, fraction and
 * exponent. The texts are given byte by byte and name nothing of the grammar or the
 * scanner. Each printed object is an object text, and each object text is one of them.
 */
module JsonPrinter {
  import opened Bytes
  import opened JsonGrammar
  import opened JsonScanner

  datatype Json =
    | JNull | JTrue | JFalse
    | JNumber(number: Number)
    | JString(content: seq<Char>)
    | JArray(elements: seq<Element>, space: seq<Byte>)
    | JObject(members: seq<Member>, space: seq<Byte>)

  /** A value with the whitespace around it. */
  datatype Element = Element(before: seq<Byte>, value: Json, after: seq<Byte>)

  datatype Member = Member(before: seq<Byte>, name: seq<Char>, between: seq<Byte>, element: Element)

  /** A character of a string: itself, a short escape, or the four digits of a long one. */
  datatype Char = Raw(b: Byte) | Short(b: Byte) | Long(digits: seq<Byte>)

  /** A number as it is spelled; `fraction` is empty if there is no point. */
  datatype Number = Number(negative: bool, whole: seq<Byte>, fraction: seq<Byte>, power: Power)

  datatype Power = NoPower | Power(mark: Byte, sign: Sign, digits: seq<Byte>)

  datatype Sign = Unsigned | Positive | Negative

  // ---- Which spellings there are ----

  predicate AllDigits(s: seq<Byte>) {
    forall i :: 0 <= i < |s| ==> 0x30 <= s[i] <= 0x39
  }

  /** Digit strings without leading zeros. */
  predicate IsWholeNumber(digits: seq<Byte>) {
    digits != [] && AllDigits(digits) && (digits[0] == 0x30 ==> |digits| == 1)
  }

  predicate IsPower(p: Power) {
    p.Power? ==> (p.mark == 0x65 || p.mark == 0x45) && p.digits != [] && AllDigits(p.digits)
  }

  predicate IsNumber(n: Number) {
    IsWholeNumber(n.whole) && AllDigits(n.fraction) && IsPower(n.power)
  }

  predicate IsBlank(s: seq<Byte>) {
    forall i :: 0 <= i < |s| ==> s[i] == 0x20 || s[i] == 0x09 || s[i] == 0x0A || s[i] == 0x0D
  }

  predicate IsChar(c: Char) {
    match c
    case Raw(b) => 0x20 <= b && b != 0x22 && b != 0x5C
    case Short(b) =>
      b == 0x22 || b == 0x5C || b == 0x2F || b == 0x62 || b == 0x66 || b == 0x6E || b == 0x72 || b == 0x74
    case Long(digits) =>
      |digits| == 4 && forall i :: 0 <= i < 4 ==>
        0x30 <= digits[i] <= 0x39 || 0x61 <= digits[i] <= 0x66 || 0x41 <= digits[i] <= 0x46
  }

  predicate AllChars(content: seq<Char>) {
    forall i :: 0 <= i < |content| ==> IsChar(content[i])
  }

  predicate WellFormed(v: Json)
    decreases v
  {
    match v
    case JNumber(number) => IsNumber(number)
    case JString(content) => AllChars(content)
    case JArray(elements, space) =>
      IsBlank(space) && forall i :: 0 <= i < |elements| ==> WellSpaced(elements[i])
    case JObject(members, space) =>
      IsBlank(space) && forall i :: 0 <= i < |members| ==> WellNamed(members[i])
    case _ => true
  }

  predicate WellSpaced(e: Element)
    decreases e
  {
    IsBlank(e.before) && IsBlank(e.after) && WellFormed(e.value)
  }

  predicate WellNamed(m: Member)
    decreases m
  {
    IsBlank(m.before) && AllChars(m.name) && IsBlank(m.between) && WellSpaced(m.element)
  }

  // ---- Their texts ----

  function CharText(c: Char): seq<Byte> {
    match c
    case Raw(b) => [b]
    case Short(b) => [0x5C, b]
    case Long(digits) => [0x5C, 0x75] + digits
  }

  /** The content of a string and its closing quote. */
  function StringTail(content: seq<Char>): seq<Byte> {
    if content == [] then [0x22] else CharText(content[0]) + StringTail(content[1..])
  }

  function SignText(sign: Sign): seq<Byte> {
    match sign
    case Unsigned => []
    case Positive => [0x2B]
    case Negative => [0x2D]
  }

  function PowerText(p: Power): seq<Byte> {
    if p.NoPower? then [] else [p.mark] + (SignText(p.sign) + p.digits)
  }

  /** Everything behind the whole number. */
  function FractionText(n: Number): seq<Byte> {
    (if n.fraction == [] then [] else [0x2E] + n.fraction) + PowerText(n.power)
  }

  function NumberText(n: Number): seq<Byte> {
    (if n.negative then [0x2D] else []) + (n.whole + FractionText(n))
  }

  function Print(v: Json): seq<Byte>
    decreases v
  {
    match v
    case JNull => [0x6E, 0x75, 0x6C, 0x6C]
    case JTrue => [0x74, 0x72, 0x75, 0x65]
    case JFalse => [0x66, 0x61, 0x6C, 0x73, 0x65]
    case JNumber(number) => NumberText(number)
    case JString(content) => [0x22] + StringTail(content)
    case JArray(elements, space) => [0x5B] + if elements == [] then space + [0x5D] else ElementsTail(elements)
    case JObject(members, space) => [0x7B] + if members == [] then space + [0x7D] else MembersTail(members)
  }

  function ElementText(e: Element): seq<Byte>
    decreases e
  {
    e.before + (Print(e.value) + e.after)
  }

  /** Elements separated by commas, up to the closing bracket. */
  function ElementsTail(elements: seq<Element>): seq<Byte>
    requires elements != []
    decreases elements
  {
    ElementText(elements[0])
    + if |elements| == 1 then [0x5D] else [0x2C] + ElementsTail(elements[1..])
  }

  /** A name in quotes, the colon, and the value. */
  function MemberText(m: Member): seq<Byte>
    decreases m
  {
    m.before + ([0x22] + (StringTail(m.name) + (m.between + ([0x3A] + ElementText(m.element)))))
  }

  /** Members separated by commas, up to the closing brace. */
  function MembersTail(members: seq<Member>): seq<Byte>
    requires members != []
    decreases members
  {
    MemberText(members[0])
    + if |members| == 1 then [0x7D] else [0x2C] + MembersTail(members[1..])
  }

  // ---- Reading back ----

  /** The text occurs in s at i. */
  ghost predicate At(s: seq<Byte>, i: nat, text: seq<Byte>) {
    i + |text| <= |s| && s[i..i + |text|] == text
  }

  lemma AtSplits(s: seq<Byte>, i: nat, a: seq<Byte>, b: seq<Byte>)
    requires At(s, i, a + b)
    ensures At(s, i, a) && At(s, i + |a|, b)
    ensures a != [] ==> i < |s| && s[i] == a[0]
  {
    var t := s[i..i + |a + b|];
    assert t[..|a|] == a && t[|a|..] == b;
    assert s[i..i + |a|] == t[..|a|];
    assert s[i + |a|..i + |a| + |b|] == t[|a|..];
    assert a != [] ==> s[i..i + |a|][0] == s[i];
  }

  lemma SkipsNothing(s: seq<Byte>, i: nat)
    requires i < |s| && !IsSpace(s[i])
    ensures SkipSpaces(s, i) == i
  {
  }

  lemma AtJoins(s: seq<Byte>, i: nat, a: seq<Byte>, b: seq<Byte>)
    requires At(s, i, a) && At(s, i + |a|, b)
    ensures At(s, i, a + b)
  {
    assert s[i..i + |a + b|] == s[i..i + |a|] + s[i + |a|..i + |a| + |b|];
  }

  lemma AtOne(s: seq<Byte>, i: nat, b: Byte)
    ensures At(s, i, [b]) <==> i < |s| && s[i] == b
  {
    assert i < |s| ==> s[i..i + 1] == [s[i]];
  }

  lemma AtNone(s: seq<Byte>, i: nat)
    requires i <= |s|
    ensures At(s, i, [])
  {
  }

  /** Whitespace that ends at a byte which is none. */
  lemma {:induction false} ReadBlank(s: seq<Byte>, i: nat, blank: seq<Byte>)
    requires IsBlank(blank) && At(s, i, blank)
    requires i + |blank| < |s| && !IsSpace(s[i + |blank|])
    ensures SkipSpaces(s, i) == i + |blank|
  {
    assert forall k :: i <= k < i + |blank| ==> s[k] == s[i..i + |blank|][k - i];
    SkipSpacesUnique(s, i, i + |blank|);
  }

  /** A string in any spelling is read to its closing quote. */
  lemma {:induction false} ReadString(s: seq<Byte>, i: nat, content: seq<Char>)
    requires AllChars(content) && At(s, i, StringTail(content))
    ensures StringBody(s, i) == Complete(i + |StringTail(content)|)
    decreases |content|
  {
    hide CharText;
    if content == [] {
      assert s[i..i + 1][0] == s[i];
    } else {
      var e := CharText(content[0]);
      AtSplits(s, i, e, StringTail(content[1..]));
      ReadString(s, i + |e|, content[1..]);
      ReadChar(s, i, content[0]);
    }
  }

  lemma AtByte(s: seq<Byte>, i: nat, text: seq<Byte>, k: nat)
    requires At(s, i, text) && k < |text|
    ensures i + k < |s| && s[i + k] == text[k]
  {
    assert s[i..i + |text|][k] == s[i + k];
  }

  lemma {:induction false} ReadChar(s: seq<Byte>, i: nat, c: Char)
    requires IsChar(c) && At(s, i, CharText(c))
    ensures StringBody(s, i) == StringBody(s, i + |CharText(c)|)
  {
    hide At;
    AtByte(s, i, CharText(c), 0);
    match c {
      case Long(digits) => ReadLong(s, i, digits);
      case Short(b) =>
        AtByte(s, i, [0x5C, b], 1);
        assert StringBody(s, i) == StringBody(s, i + 2);
      case Raw(b) =>
        assert StringBody(s, i) == StringBody(s, i + 1);
    }
  }

  /** The four digits of a long escape. */
  lemma {:induction false} ReadLong(s: seq<Byte>, i: nat, digits: seq<Byte>)
    requires IsChar(Long(digits)) && At(s, i, CharText(Long(digits)))
    ensures StringBody(s, i) == StringBody(s, i + 6)
  {
    hide At;
    var e := CharText(Long(digits));
    AtByte(s, i, e, 0);
    AtByte(s, i, e, 1);
    AtByte(s, i, e, 2);
    AtByte(s, i, e, 3);
    AtByte(s, i, e, 4);
    AtByte(s, i, e, 5);
    assert StringBody(s, i) == HexDigits(s, i + 2, 4);
    assert HexDigits(s, i + 2, 4) == HexDigits(s, i + 3, 3);
    assert HexDigits(s, i + 3, 3) == HexDigits(s, i + 4, 2);
    assert HexDigits(s, i + 4, 2) == HexDigits(s, i + 5, 1);
    assert HexDigits(s, i + 5, 1) == HexDigits(s, i + 6, 0);
    assert HexDigits(s, i + 6, 0) == StringBody(s, i + 6);
  }

  lemma {:induction false} ReadWord(s: seq<Byte>, i: nat, rest: seq<Byte>)
    requires At(s, i, rest)
    ensures Word(s, i, rest) == Complete(i + |rest|)
    decreases |rest|
  {
    if rest != [] {
      assert rest == [rest[0]] + rest[1..];
      AtSplits(s, i, [rest[0]], rest[1..]);
      ReadWord(s, i + 1, rest[1..]);
    }
  }

  lemma {:induction false} ReadDigits(s: seq<Byte>, i: nat, digits: seq<Byte>)
    requires At(s, i, digits) && forall k :: 0 <= k < |digits| ==> IsDigit(digits[k])
    requires i + |digits| < |s| ==> !IsDigit(s[i + |digits|])
    ensures Digits(s, i) == i + |digits|
    decreases |digits|
  {
    if digits != [] {
      assert digits == [digits[0]] + digits[1..];
      AtSplits(s, i, [digits[0]], digits[1..]);
      ReadDigits(s, i + 1, digits[1..]);
    }
  }

  /** A byte that can follow a value inside a container. */
  predicate Delimits(b: Byte) {
    IsSpace(b) || b == COMMA || b == CLOSE_BRACKET || b == CLOSE_BRACE
  }

  /** One or more digits. */
  lemma {:induction false} ReadSomeDigits(s: seq<Byte>, i: nat, digits: seq<Byte>)
    requires At(s, i, digits) && digits != [] && AllDigits(digits)
    requires i + |digits| < |s| && !IsDigit(s[i + |digits|])
    ensures IsDigit(s[i]) && Digits(s, i + 1) == i + |digits|
  {
    assert digits == [digits[0]] + digits[1..];
    AtSplits(s, i, [digits[0]], digits[1..]);
    ReadDigits(s, i + 1, digits[1..]);
  }

  lemma {:induction false} ReadPower(s: seq<Byte>, i: nat, p: Power)
    requires IsPower(p) && At(s, i, PowerText(p))
    requires i + |PowerText(p)| < |s| && Delimits(s[i + |PowerText(p)|])
    ensures Exponent(s, i) == Complete(i + |PowerText(p)|)
    ensures !IsDigit(s[i]) && s[i] != POINT
  {
    hide Digits, At, SignText, PowerText, AllDigits;
    PowerAt(s, i, p);
    if p.Power? {
      ReadSomeDigits(s, i + 1 + |SignText(p.sign)|, p.digits);
    }
  }

  /** Where the sign and the digits of an exponent stand. */
  lemma {:induction false} PowerAt(s: seq<Byte>, i: nat, p: Power)
    requires At(s, i, PowerText(p))
    ensures |PowerText(p)| == if p.NoPower? then 0 else 1 + |SignText(p.sign)| + |p.digits|
    ensures p.Power? ==>
              && i < |s| && s[i] == p.mark && At(s, i + 1 + |SignText(p.sign)|, p.digits)
              && (if p.sign == Unsigned then |SignText(p.sign)| == 0
                  else |SignText(p.sign)| == 1 && i + 1 < |s|
                       && s[i + 1] == if p.sign == Positive then PLUS else MINUS)
  {
    hide At;
    if p.Power? {
      AtSplits(s, i, [p.mark], SignText(p.sign) + p.digits);
      AtSplits(s, i + 1, SignText(p.sign), p.digits);
    }
  }

  lemma {:induction false} ReadFraction(s: seq<Byte>, i: nat, n: Number)
    requires IsNumber(n) && At(s, i, FractionText(n))
    requires i + |FractionText(n)| < |s| && Delimits(s[i + |FractionText(n)|])
    ensures Fraction(s, i) == Complete(i + |FractionText(n)|)
    ensures !IsDigit(s[i])
  {
    hide Digits, At, PowerText, Exponent;
    if n.fraction == [] {
      assert FractionText(n) == PowerText(n.power);
      ReadPower(s, i, n.power);
    } else {
      var end := i + 1 + |n.fraction|;
      assert FractionText(n) == [0x2E] + (n.fraction + PowerText(n.power));
      AtSplits(s, i, [0x2E], n.fraction + PowerText(n.power));
      AtSplits(s, i + 1, n.fraction, PowerText(n.power));
      ReadPower(s, end, n.power);
      ReadSomeDigits(s, i + 1, n.fraction);
    }
  }

  /** A number in any spelling is read back to its end. */
  lemma {:induction false} ReadNumber(s: seq<Byte>, i: nat, n: Number)
    requires IsNumber(n) && At(s, i, NumberText(n))
    requires i + |NumberText(n)| < |s| && Delimits(s[i + |NumberText(n)|])
    ensures Value(s, i) == Complete(i + |NumberText(n)|)
  {
    hide Digits, At, FractionText, Fraction;
    var sign := if n.negative then [0x2D] else [];
    var start := i + |sign|;
    AtSplits(s, i, sign, n.whole + FractionText(n));
    AtSplits(s, start, n.whole, FractionText(n));
    ReadFraction(s, start + |n.whole|, n);
    ReadSomeDigits(s, start, n.whole);
    SkipsNothing(s, i);
  }

  /** Every printed value that a delimiter follows is read back to its end. */
  lemma {:induction false} ReadValue(s: seq<Byte>, i: nat, v: Json)
    requires WellFormed(v) && At(s, i, Print(v))
    requires i + |Print(v)| < |s| && Delimits(s[i + |Print(v)|])
    ensures Value(s, i) == Complete(i + |Print(v)|)
    decreases v, 1
  {
    match v
    case JNumber(number) => ReadNumber(s, i, number);
    case JArray(elements, space) => ReadArray(s, i, elements, space);
    case JObject(members, space) => ReadObjectValue(s, i, members, space);
    case _ => ReadScalar(s, i, v);
  }

  lemma {:induction false} ReadScalar(s: seq<Byte>, i: nat, v: Json)
    requires v.JNull? || v.JTrue? || v.JFalse? || (v.JString? && AllChars(v.content))
    requires At(s, i, Print(v))
    ensures Value(s, i) == Complete(i + |Print(v)|)
  {
    hide StringBody, StringTail;
    var first := Print(v)[..1];
    var rest := if v.JNull? then NULL_TAIL else if v.JTrue? then TRUE_TAIL
                else if v.JFalse? then FALSE_TAIL else StringTail(v.content);
    assert Print(v) == first + rest;
    AtSplits(s, i, first, rest);
    SkipsNothing(s, i);
    if v.JString? {
      ReadString(s, i + 1, v.content);
    } else {
      ReadWord(s, i + 1, rest);
    }
  }

  /** A value does not start with whitespace, a closing bracket or a closing brace. */
  lemma {:induction false} FirstOfValue(v: Json)
    requires WellFormed(v)
    ensures Print(v) != [] && !IsSpace(Print(v)[0])
    ensures Print(v)[0] != CLOSE_BRACKET && Print(v)[0] != CLOSE_BRACE
  {
  }

  lemma ValueSkips(s: seq<Byte>, i: nat, j: nat)
    requires i <= |s| && SkipSpaces(s, i) == j
    ensures Value(s, i) == Value(s, j)
  {
    SkipSpacesUnique(s, j, j);
  }

  lemma {:induction false} FirstAt(s: seq<Byte>, i: nat, v: Json)
    requires WellFormed(v) && At(s, i, Print(v))
    ensures i < |s| && !IsSpace(s[i]) && s[i] != CLOSE_BRACKET && s[i] != CLOSE_BRACE
  {
    hide Print, WellFormed;
    FirstOfValue(v);
    assert s[i] == s[i..i + |Print(v)|][0];
  }

  /** Where the parts of a value with whitespace around it stand. */
  lemma {:induction false} ElementAt(s: seq<Byte>, i: nat, e: Element)
    requires At(s, i, ElementText(e))
    ensures var start, end := i + |e.before|, i + |e.before| + |Print(e.value)|;
            && At(s, i, e.before) && At(s, start, Print(e.value)) && At(s, end, e.after)
            && i + |ElementText(e)| == end + |e.after|
  {
    hide Print, At;
    AtSplits(s, i, e.before, Print(e.value) + e.after);
    AtSplits(s, i + |e.before|, Print(e.value), e.after);
  }

  /** A value with whitespace around it, in front of a delimiter. */
  lemma {:induction false} ReadElement(s: seq<Byte>, i: nat, e: Element)
    requires WellSpaced(e) && At(s, i, ElementText(e))
    requires i + |ElementText(e)| < |s| && s[i + |ElementText(e)|] in [COMMA, CLOSE_BRACKET, CLOSE_BRACE]
    ensures Value(s, i) == Complete(i + |e.before| + |Print(e.value)|)
    ensures SkipSpaces(s, i + |e.before| + |Print(e.value)|) == i + |ElementText(e)|
    ensures SkipSpaces(s, i) == i + |e.before| < |s| && s[i + |e.before|] !in [CLOSE_BRACKET, CLOSE_BRACE]
    decreases e, 0
  {
    hide Print, ElementText, Value, At, WellFormed, SkipSpaces, IsBlank;
    var start, end := i + |e.before|, i + |e.before| + |Print(e.value)|;
    ElementAt(s, i, e);
    FirstAt(s, start, e.value);
    ReadBlank(s, i, e.before);
    ReadBlank(s, end, e.after);
    FirstOfBlank(s, end, e.after);
    ReadValue(s, start, e.value);
    ValueSkips(s, i, start);
  }

  lemma FirstOfBlank(s: seq<Byte>, i: nat, blank: seq<Byte>)
    requires IsBlank(blank) && At(s, i, blank) && i + |blank| < |s|
    ensures s[i] == s[i + |blank|] || IsSpace(s[i])
  {
    assert blank != [] ==> s[i] == s[i..i + |blank|][0];
  }

  /** The inside of an empty container. */
  lemma {:induction false} ReadEmpty(s: seq<Byte>, i: nat, open: Byte, space: seq<Byte>, close: Byte)
    requires IsBlank(space) && At(s, i, [open] + (space + [close])) && !IsSpace(close)
    ensures i < |s| && s[i] == open
    ensures SkipSpaces(s, i + 1) == i + 1 + |space| < |s| && s[i + 1 + |space|] == close
  {
    AtSplits(s, i, [open], space + [close]);
    AtSplits(s, i + 1, space, [close]);
    AtSplits(s, i + 1 + |space|, [close], []);
    ReadBlank(s, i + 1, space);
  }

  lemma {:induction false} ReadArray(s: seq<Byte>, i: nat, elements: seq<Element>, space: seq<Byte>)
    requires WellFormed(JArray(elements, space)) && At(s, i, Print(JArray(elements, space)))
    ensures Value(s, i) == Complete(i + |Print(JArray(elements, space))|)
    decreases elements, 2
  {
    hide JsonGrammar.Element, ElementsTail, At;
    if elements == [] {
      ReadEmpty(s, i, 0x5B, space, 0x5D);
    } else {
      AtSplits(s, i, [0x5B], ElementsTail(elements));
      ReadElements(s, i + 1, elements);
    }
    SkipsNothing(s, i);
  }

  lemma {:induction false} ReadElements(s: seq<Byte>, i: nat, elements: seq<Element>)
    requires elements != [] && (forall k :: 0 <= k < |elements| ==> WellSpaced(elements[k]))
    requires At(s, i, ElementsTail(elements))
    ensures JsonGrammar.Element(s, i) == Complete(i + |ElementsTail(elements)|)
    ensures SkipSpaces(s, i) < |s| && s[SkipSpaces(s, i)] != CLOSE_BRACKET
    decreases elements, 1
  {
    hide Print, ElementText, ElementsTail, Value, At, SkipSpaces, WellSpaced;
    var next := ElementsAt(s, i, elements);
    ReadElement(s, i, elements[0]);
    if |elements| > 1 {
      ReadElements(s, next + 1, elements[1..]);
    }
  }

  /** Where the text of the first element ends, what stands there, and what follows. */
  lemma {:induction false} ElementsAt(s: seq<Byte>, i: nat, elements: seq<Element>) returns (next: nat)
    requires elements != [] && At(s, i, ElementsTail(elements))
    ensures At(s, i, ElementText(elements[0])) && next == i + |ElementText(elements[0])| < |s|
    ensures s[next] == if |elements| == 1 then CLOSE_BRACKET else COMMA
    ensures i + |ElementsTail(elements)|
         == next + 1 + if |elements| == 1 then 0 else |ElementsTail(elements[1..])|
    ensures |elements| > 1 ==> At(s, next + 1, ElementsTail(elements[1..]))
  {
    hide ElementText, ElementsTail, At;
    var p, last := ElementText(elements[0]), |elements| == 1;
    var more := if last then [] else ElementsTail(elements[1..]);
    var c := if last then CLOSE_BRACKET else COMMA;
    ElementsSplit(elements);
    next := i + |p|;
    SplitsInThree(s, i, p, c, more);
  }

  lemma ElementsSplit(elements: seq<Element>)
    requires elements != []
    ensures ElementsTail(elements)
         == ElementText(elements[0])
            + if |elements| == 1 then [CLOSE_BRACKET] + [] else [COMMA] + ElementsTail(elements[1..])
  {
    hide ElementText;
  }

  lemma SplitsInThree(s: seq<Byte>, i: nat, a: seq<Byte>, c: Byte, b: seq<Byte>)
    requires At(s, i, a + ([c] + b))
    ensures At(s, i, a) && i + |a| < |s| && s[i + |a|] == c && At(s, i + |a| + 1, b)
  {
    hide At;
    AtSplits(s, i, a, [c] + b);
    AtSplits(s, i + |a|, [c], b);
  }

  lemma {:induction false} ReadObjectValue(s: seq<Byte>, i: nat, members: seq<Member>, space: seq<Byte>)
    requires WellFormed(JObject(members, space)) && At(s, i, Print(JObject(members, space)))
    ensures Value(s, i) == Complete(i + |Print(JObject(members, space))|)
    decreases members, 3
  {
    hide Members, MembersTail;
    ReadObject(s, i, members, space);
    SkipsNothing(s, i);
  }

  lemma {:induction false} ReadObject(s: seq<Byte>, i: nat, members: seq<Member>, space: seq<Byte>)
    requires WellFormed(JObject(members, space)) && At(s, i, Print(JObject(members, space)))
    ensures i < |s| && s[i] == OPEN_BRACE
    ensures Members(s, i + 1) == Complete(i + |Print(JObject(members, space))|)
    decreases members, 2
  {
    hide JsonGrammar.Member, MembersTail, At, SkipSpaces;
    if members == [] {
      ReadEmpty(s, i, 0x7B, space, 0x7D);
    } else {
      AtSplits(s, i, [0x7B], MembersTail(members));
      ReadMembers(s, i + 1, members);
    }
  }

  /** One member in front of a delimiter. */
  lemma {:induction false} ReadMember(s: seq<Byte>, i: nat, m: Member)
    requires WellNamed(m) && At(s, i, MemberText(m))
    requires i + |MemberText(m)| < |s| && s[i + |MemberText(m)|] in [COMMA, CLOSE_BRACKET, CLOSE_BRACE]
    ensures SkipSpaces(s, i) < |s| && s[SkipSpaces(s, i)] == QUOTE
    ensures JsonGrammar.Member(s, i) == MoreMembers(s, i + |MemberText(m)|)
    decreases m, 0
  {
    hide Print, StringTail, Value, At, SkipSpaces, MoreMembers, ElementText, WellSpaced, AllChars, IsBlank;
    var value, colon := MemberAt(s, i, m);
    var start := i + |m.before|;
    ReadBlank(s, i, m.before);
    ReadString(s, start + 1, m.name);
    ReadBlank(s, colon - |m.between|, m.between);
    ReadElement(s, value, m.element);
    MoreSkips(s, value + |m.element.before| + |Print(m.element.value)|, i + |MemberText(m)|);
  }

  lemma MoreSkips(s: seq<Byte>, i: nat, j: nat)
    requires i <= |s| && SkipSpaces(s, i) == j < |s|
    ensures MoreMembers(s, i) == MoreMembers(s, j)
  {
    hide JsonGrammar.Member;
    SkipSpacesUnique(s, j, j);
  }

  /** Where the colon of a member and its value stand. */
  lemma {:induction false} MemberAt(s: seq<Byte>, i: nat, m: Member) returns (value: nat, colon: nat)
    requires At(s, i, MemberText(m))
    ensures var start := i + |m.before|;
            && At(s, i, m.before) && start < |s| && s[start] == QUOTE && At(s, start + 1, StringTail(m.name))
            && At(s, start + 1 + |StringTail(m.name)|, m.between)
            && colon == start + 1 + |StringTail(m.name)| + |m.between| < |s| && s[colon] == COLON
    ensures value == colon + 1 && At(s, value, ElementText(m.element))
    ensures i + |MemberText(m)| == value + |ElementText(m.element)|
  {
    hide StringTail, At, ElementText;
    var name, e := StringTail(m.name), ElementText(m.element);
    SplitsInThree(s, i, m.before, 0x22, name + (m.between + ([0x3A] + e)));
    var start := i + |m.before|;
    AtSplits(s, start + 1, name, m.between + ([0x3A] + e));
    colon := start + 1 + |name| + |m.between|;
    SplitsInThree(s, colon - |m.between|, m.between, 0x3A, e);
    value := colon + 1;
  }

  lemma {:induction false} ReadMembers(s: seq<Byte>, i: nat, members: seq<Member>)
    requires members != [] && (forall k :: 0 <= k < |members| ==> WellNamed(members[k]))
    requires At(s, i, MembersTail(members))
    ensures SkipSpaces(s, i) < |s| && s[SkipSpaces(s, i)] == QUOTE
    ensures JsonGrammar.Member(s, i) == Complete(i + |MembersTail(members)|)
    decreases members, 1
  {
    hide MemberText, MembersTail, At, SkipSpaces, JsonGrammar.Member, WellNamed;
    var next := MembersAt(s, i, members);
    ReadMember(s, i, members[0]);
    SkipsNothing(s, next);
    if |members| > 1 {
      ReadMembers(s, next + 1, members[1..]);
    }
  }

  /** Where the text of the first member ends, what stands there, and what follows. */
  lemma {:induction false} MembersAt(s: seq<Byte>, i: nat, members: seq<Member>) returns (next: nat)
    requires members != [] && At(s, i, MembersTail(members))
    ensures At(s, i, MemberText(members[0])) && next == i + |MemberText(members[0])| < |s|
    ensures s[next] == if |members| == 1 then CLOSE_BRACE else COMMA
    ensures i + |MembersTail(members)|
         == next + 1 + if |members| == 1 then 0 else |MembersTail(members[1..])|
    ensures |members| > 1 ==> At(s, next + 1, MembersTail(members[1..]))
  {
    hide MemberText, MembersTail, At;
    var p, last := MemberText(members[0]), |members| == 1;
    var more := if last then [] else MembersTail(members[1..]);
    var c := if last then CLOSE_BRACE else COMMA;
    MembersSplit(members);
    next := i + |p|;
    SplitsInThree(s, i, p, c, more);
  }

  lemma MembersSplit(members: seq<Member>)
    requires members != []
    ensures MembersTail(members)
         == MemberText(members[0])
            + if |members| == 1 then [CLOSE_BRACE] + [] else [COMMA] + MembersTail(members[1..])
  {
    hide MemberText;
  }

  /** The printed text of any object is an object text: the scanner ends exactly at its end. */
  lemma {:induction false} PrintedObjectIsObject(members: seq<Member>, space: seq<Byte>)
    requires WellFormed(JObject(members, space))
    ensures IsObject(Print(JObject(members, space)))
  {
    var text := Print(JObject(members, space));
    assert text[0..0 + |text|] == text;
    ReadObject(text, 0, members, space);
    ScannerMatchesGrammar(text, 0);
  }
}
