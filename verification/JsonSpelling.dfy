/**
 * The converse of printing: whatever the grammar accepts is one of the spellings of
 * JsonPrinter, so the object texts are exactly the printed objects.
 */
module JsonSpelling {
  import opened Bytes
  import opened JsonGrammar
  import opened JsonScanner
  import opened JsonPrinter

  // ---- Whitespace ----

  lemma SpellBlank(s: seq<Byte>, i: nat) returns (blank: seq<Byte>)
    requires i <= |s|
    ensures IsBlank(blank) && At(s, i, blank) && i + |blank| == SkipSpaces(s, i)
  {
    blank := s[i..SkipSpaces(s, i)];
  }

  // ---- Strings ----

  lemma {:induction false} SpellChar(s: seq<Byte>, i: nat) returns (c: Char)
    requires i < |s| && s[i] != QUOTE && StringBody(s, i).Complete?
    ensures IsChar(c) && At(s, i, CharText(c)) && CharText(c) != []
    ensures StringBody(s, i) == StringBody(s, i + |CharText(c)|)
  {
    hide HexDigits;
    if s[i] != BACKSLASH {
      c := Raw(s[i]);
      AtOne(s, i, s[i]);
    } else if s[i + 1] != 0x75 {
      c := Short(s[i + 1]);
      assert s[i..i + 2] == [0x5C, s[i + 1]];
    } else {
      SpellDigits(s, i + 2);
      c := Long(s[i + 2..i + 6]);
      assert s[i..i + 6] == [0x5C, 0x75] + s[i + 2..i + 6];
    }
  }

  /** The four digits of a long escape. */
  lemma {:induction false} SpellDigits(s: seq<Byte>, i: nat)
    requires i <= |s| && HexDigits(s, i, 4).Complete?
    ensures i + 4 <= |s| && HexDigits(s, i, 4) == StringBody(s, i + 4)
    ensures forall k :: i <= k < i + 4 ==> IsHexDigit(s[k])
  {
    assert HexDigits(s, i, 4) == HexDigits(s, i + 1, 3);
    assert HexDigits(s, i + 1, 3) == HexDigits(s, i + 2, 2);
    assert HexDigits(s, i + 2, 2) == HexDigits(s, i + 3, 1);
    assert HexDigits(s, i + 3, 1) == HexDigits(s, i + 4, 0);
    assert HexDigits(s, i + 4, 0) == StringBody(s, i + 4);
  }

  /** Every accepted string is a list of characters, each raw or escaped. */
  lemma {:induction false} SpellString(s: seq<Byte>, i: nat) returns (content: seq<Char>)
    requires i <= |s| && StringBody(s, i).Complete?
    ensures AllChars(content) && At(s, i, StringTail(content))
    ensures i + |StringTail(content)| == StringBody(s, i).end
    decreases |s| - i
  {
    hide IsChar, CharText, At;
    if s[i] == QUOTE {
      content := [];
      AtOne(s, i, 0x22);
    } else {
      hide StringBody;
      var c := SpellChar(s, i);
      AtBounds(s, i, CharText(c));
      var rest := SpellString(s, i + |CharText(c)|);
      content := [c] + rest;
      assert content[1..] == rest;
      AtJoins(s, i, CharText(c), StringTail(rest));
    }
  }

  lemma AtBounds(s: seq<Byte>, i: nat, text: seq<Byte>)
    requires At(s, i, text)
    ensures i + |text| <= |s|
  {
  }

  // ---- Numbers ----

  lemma {:induction false} DigitsAreDigits(s: seq<Byte>, i: nat)
    requires i <= |s|
    ensures forall k :: i <= k < Digits(s, i) ==> 0x30 <= s[k] <= 0x39
    decreases |s| - i
  {
    if i < |s| && IsDigit(s[i]) {
      DigitsAreDigits(s, i + 1);
    }
  }

  /** One digit or more. */
  lemma SpellSome(s: seq<Byte>, i: nat) returns (digits: seq<Byte>)
    requires i < |s| && IsDigit(s[i])
    ensures digits != [] && AllDigits(digits) && digits[0] == s[i]
    ensures At(s, i, digits) && i + |digits| == Digits(s, i + 1)
  {
    DigitsAreDigits(s, i + 1);
    digits := s[i..Digits(s, i + 1)];
  }

  lemma SpellSign(s: seq<Byte>, i: nat) returns (sign: Sign)
    requires i <= |s|
    ensures At(s, i, SignText(sign))
    ensures |SignText(sign)| == if i < |s| && (s[i] == PLUS || s[i] == MINUS) then 1 else 0
  {
    hide At;
    AtNone(s, i);
    if i < |s| {
      AtOne(s, i, s[i]);
    }
    sign := if i < |s| && s[i] == 0x2B then Positive else if i < |s| && s[i] == 0x2D then Negative else Unsigned;
  }

  lemma {:induction false} SpellPower(s: seq<Byte>, i: nat) returns (p: JsonPrinter.Power)
    requires i <= |s| && Exponent(s, i).Complete?
    ensures IsPower(p) && At(s, i, PowerText(p)) && i + |PowerText(p)| == Exponent(s, i).end
  {
    hide At, Digits, AllDigits, SignText;
    if i == |s| || !IsExponentMark(s[i]) {
      AtNone(s, i);
      p := NoPower;
    } else {
      var sign := SpellSign(s, i + 1);
      var digits := SpellSome(s, i + 1 + |SignText(sign)|);
      p := JsonPrinter.Power(s[i], sign, digits);
      AtOne(s, i, s[i]);
      AtJoins(s, i + 1, SignText(sign), digits);
      AtJoins(s, i, [s[i]], SignText(sign) + digits);
    }
  }

  lemma {:induction false} SpellFraction(s: seq<Byte>, i: nat, negative: bool, whole: seq<Byte>)
    returns (n: JsonPrinter.Number)
    requires i <= |s| && Fraction(s, i).Complete?
    ensures n.negative == negative && n.whole == whole && AllDigits(n.fraction) && IsPower(n.power)
    ensures At(s, i, FractionText(n)) && i + |FractionText(n)| == Fraction(s, i).end
  {
    hide At, Digits, Exponent, PowerText, IsPower;
    if i < |s| && s[i] == POINT {
      var fraction := SpellSome(s, i + 1);
      var power := SpellPower(s, Digits(s, i + 2));
      n := JsonPrinter.Number(negative, whole, fraction, power);
      AtOne(s, i, 0x2E);
      AtJoins(s, i, [0x2E], fraction);
      AtJoins(s, i, [0x2E] + fraction, PowerText(power));
    } else {
      var power := SpellPower(s, i);
      n := JsonPrinter.Number(negative, whole, [], power);
      assert FractionText(n) == PowerText(power);
    }
  }

  lemma {:induction false} SpellUnsigned(s: seq<Byte>, i: nat, negative: bool) returns (n: JsonPrinter.Number)
    requires i <= |s| && JsonGrammar.Unsigned(s, i).Complete?
    ensures n.negative == negative && IsNumber(n)
    ensures At(s, i, n.whole + FractionText(n)) && i + |n.whole + FractionText(n)| == JsonGrammar.Unsigned(s, i).end
  {
    hide At, Digits, Fraction, FractionText, IsPower;
    var whole;
    if s[i] == DIGIT_0 {
      whole := [s[i]];
      AtOne(s, i, s[i]);
    } else {
      whole := SpellSome(s, i);
    }
    n := SpellFraction(s, i + |whole|, negative, whole);
    AtJoins(s, i, whole, FractionText(n));
  }

  /** Every accepted number is a sign, digits, a fraction and an exponent. */
  lemma {:induction false} SpellNumber(s: seq<Byte>, i: nat) returns (n: JsonPrinter.Number)
    requires i < |s| && JsonGrammar.Number(s, i).Complete?
    ensures IsNumber(n) && At(s, i, JsonPrinter.NumberText(n))
    ensures i + |JsonPrinter.NumberText(n)| == JsonGrammar.Number(s, i).end
  {
    hide At, JsonGrammar.Unsigned, FractionText, IsNumber;
    var negative := s[i] == MINUS;
    var j := if negative then i + 1 else i;
    n := SpellUnsigned(s, j, negative);
    if negative {
      AtOne(s, i, 0x2D);
      AtJoins(s, i, [0x2D], n.whole + FractionText(n));
    } else {
      assert [] + (n.whole + FractionText(n)) == n.whole + FractionText(n);
    }
  }

  // ---- Literal names ----

  lemma {:induction false} SpellWord(s: seq<Byte>, i: nat, rest: seq<Byte>)
    requires i <= |s| && Word(s, i, rest).Complete?
    ensures At(s, i, rest) && Word(s, i, rest).end == i + |rest|
    decreases |rest|
  {
    if rest == [] {
      AtNone(s, i);
    } else {
      SpellWord(s, i + 1, rest[1..]);
      AtOne(s, i, rest[0]);
      AtJoins(s, i, [rest[0]], rest[1..]);
      assert [rest[0]] + rest[1..] == rest;
    }
  }

  // ---- Values ----

  lemma {:induction false} SpellScalar(s: seq<Byte>, i: nat) returns (v: Json)
    requires i < |s| && !IsSpace(s[i]) && s[i] != OPEN_BRACE && s[i] != OPEN_BRACKET && Value(s, i).Complete?
    ensures WellFormed(v) && At(s, i, Print(v)) && i + |Print(v)| == Value(s, i).end
  {
    hide At, StringBody, StringTail, JsonGrammar.Number, JsonPrinter.NumberText, Word;
    SkipsNothing(s, i);
    AtOne(s, i, s[i]);
    if s[i] == QUOTE {
      var content := SpellString(s, i + 1);
      v := JString(content);
      AtJoins(s, i, [0x22], StringTail(content));
    } else if s[i] == 0x74 || s[i] == 0x66 || s[i] == 0x6E {
      v := if s[i] == 0x74 then JTrue else if s[i] == 0x66 then JFalse else JNull;
      var tail := if s[i] == 0x74 then TRUE_TAIL else if s[i] == 0x66 then FALSE_TAIL else NULL_TAIL;
      SpellWord(s, i + 1, tail);
      AtJoins(s, i, [s[i]], tail);
      assert [s[i]] + tail == Print(v);
    } else {
      var n := SpellNumber(s, i);
      v := JNumber(n);
    }
  }

  /** Every accepted value, with the whitespace in front of it. */
  lemma {:induction false} SpellValue(s: seq<Byte>, i: nat) returns (before: seq<Byte>, v: Json)
    requires i <= |s| && Value(s, i).Complete?
    ensures IsBlank(before) && WellFormed(v) && At(s, i, before) && At(s, i + |before|, Print(v))
    ensures i + |before| + |Print(v)| == Value(s, i).end
    decreases |s| - i, 0
  {
    hide At, Print, WellFormed, Members, Elements;
    before := SpellBlank(s, i);
    var j := i + |before|;
    ValueSkips(s, i, j);
    if s[j] == OPEN_BRACE {
      v := SpellObject(s, j);
    } else if s[j] == OPEN_BRACKET {
      v := SpellArray(s, j);
    } else {
      hide Value;
      v := SpellScalar(s, j);
    }
  }

  /** An empty container. */
  lemma {:induction false} SpellEmpty(s: seq<Byte>, i: nat, open: Byte, close: Byte) returns (space: seq<Byte>)
    requires i < |s| && s[i] == open && SkipSpaces(s, i + 1) < |s| && s[SkipSpaces(s, i + 1)] == close
    ensures IsBlank(space) && At(s, i, [open] + (space + [close]))
    ensures i + |space| + 2 == SkipSpaces(s, i + 1) + 1
  {
    hide At;
    space := SpellBlank(s, i + 1);
    AtOne(s, i, open);
    AtOne(s, i + 1 + |space|, close);
    AtJoins(s, i + 1, space, [close]);
    AtJoins(s, i, [open], space + [close]);
  }

  lemma {:induction false} SpellArray(s: seq<Byte>, i: nat) returns (v: Json)
    requires i < |s| && s[i] == OPEN_BRACKET && Elements(s, i + 1).Complete?
    ensures WellFormed(v) && At(s, i, Print(v)) && i + |Print(v)| == Elements(s, i + 1).end
    decreases |s| - i - 1, 3
  {
    hide At, ElementsTail, JsonGrammar.Element;
    var j := SkipSpaces(s, i + 1);
    if j < |s| && s[j] == CLOSE_BRACKET {
      var space := SpellEmpty(s, i, 0x5B, 0x5D);
      v := JArray([], space);
    } else {
      var elements := SpellElements(s, i + 1);
      v := JArray(elements, []);
      AtOne(s, i, 0x5B);
      AtJoins(s, i, [0x5B], ElementsTail(elements));
    }
  }

  /** A value and the whitespace around it. */
  lemma {:induction false} SpellElement(s: seq<Byte>, i: nat) returns (e: JsonPrinter.Element)
    requires i <= |s| && Value(s, i).Complete?
    ensures WellSpaced(e) && At(s, i, ElementText(e))
    ensures i + |ElementText(e)| == SkipSpaces(s, Value(s, i).end)
    decreases |s| - i, 1
  {
    hide At, Print, Value, WellFormed, SkipSpaces, IsBlank;
    var before, v := SpellValue(s, i);
    var after := SpellBlank(s, Value(s, i).end);
    e := JsonPrinter.Element(before, v, after);
    AtJoins(s, i + |before|, Print(v), after);
    AtJoins(s, i, before, Print(v) + after);
  }

  lemma {:induction false} SpellElements(s: seq<Byte>, i: nat) returns (elements: seq<JsonPrinter.Element>)
    requires i <= |s| && JsonGrammar.Element(s, i).Complete?
    ensures elements != [] && forall k :: 0 <= k < |elements| ==> WellSpaced(elements[k])
    ensures At(s, i, ElementsTail(elements)) && i + |ElementsTail(elements)| == JsonGrammar.Element(s, i).end
    decreases |s| - i, 2
  {
    hide At, ElementText, Value, WellSpaced, SkipSpaces;
    var e := SpellElement(s, i);
    var next := i + |ElementText(e)|;
    elements := [e];
    if s[next] == COMMA {
      hide ElementsTail;
      var rest := SpellElements(s, next + 1);
      elements := [e] + rest;
      assert elements[1..] == rest;
      ElementsSplit(elements);
      JoinsThree(s, i, ElementText(e), 0x2C, ElementsTail(rest));
    } else {
      AtNone(s, next + 1);
      JoinsThree(s, i, ElementText(e), 0x5D, []);
      assert [0x5D] + [] == [0x5D];
    }
  }

  lemma JoinsThree(s: seq<Byte>, i: nat, a: seq<Byte>, c: Byte, b: seq<Byte>)
    requires At(s, i, a) && i + |a| < |s| && s[i + |a|] == c && At(s, i + |a| + 1, b)
    ensures At(s, i, a + ([c] + b))
  {
    hide At;
    AtOne(s, i + |a|, c);
    AtJoins(s, i + |a|, [c], b);
    AtJoins(s, i, a, [c] + b);
  }

  lemma {:induction false} SpellObject(s: seq<Byte>, i: nat) returns (v: Json)
    requires i < |s| && s[i] == OPEN_BRACE && Members(s, i + 1).Complete?
    ensures v.JObject? && WellFormed(v) && At(s, i, Print(v)) && i + |Print(v)| == Members(s, i + 1).end
    decreases |s| - i - 1, 3
  {
    hide At, MembersTail, JsonGrammar.Member;
    var j := SkipSpaces(s, i + 1);
    if j < |s| && s[j] == CLOSE_BRACE {
      var space := SpellEmpty(s, i, 0x7B, 0x7D);
      v := JObject([], space);
    } else {
      var members := SpellMembers(s, i + 1);
      v := JObject(members, []);
      AtOne(s, i, 0x7B);
      AtJoins(s, i, [0x7B], MembersTail(members));
    }
  }

  /** A name, its colon, and its value up to the next delimiter. */
  lemma {:induction false} SpellMember(s: seq<Byte>, i: nat) returns (m: JsonPrinter.Member)
    requires i <= |s| && JsonGrammar.Member(s, i).Complete?
    ensures WellNamed(m) && At(s, i, MemberText(m)) && i + |MemberText(m)| < |s|
    ensures !IsSpace(s[i + |MemberText(m)|])
    ensures JsonGrammar.Member(s, i) == MoreMembers(s, i + |MemberText(m)|)
    decreases |s| - i, 1
  {
    hide At, Value, WellSpaced, SkipSpaces, StringBody, StringTail, ElementText, IsBlank, AllChars, MoreMembers;
    var before := SpellBlank(s, i);
    var start := i + |before|;
    var name := SpellString(s, start + 1);
    var between := SpellBlank(s, start + 1 + |StringTail(name)|);
    var colon := start + 1 + |StringTail(name)| + |between|;
    var e := SpellElement(s, colon + 1);
    m := JsonPrinter.Member(before, name, between, e);
    JoinsThree(s, colon - |between|, between, 0x3A, ElementText(e));
    AtJoins(s, start + 1, StringTail(name), between + ([0x3A] + ElementText(e)));
    JoinsThree(s, i, before, 0x22, StringTail(name) + (between + ([0x3A] + ElementText(e))));
    MoreIsThere(s, Value(s, colon + 1).end);
    MoreSkips(s, Value(s, colon + 1).end, i + |MemberText(m)|);
  }

  lemma MoreIsThere(s: seq<Byte>, i: nat)
    requires i <= |s| && MoreMembers(s, i).Complete?
    ensures SkipSpaces(s, i) < |s|
  {
  }

  lemma {:induction false} SpellMembers(s: seq<Byte>, i: nat) returns (members: seq<JsonPrinter.Member>)
    requires i <= |s| && JsonGrammar.Member(s, i).Complete?
    ensures members != [] && forall k :: 0 <= k < |members| ==> WellNamed(members[k])
    ensures At(s, i, MembersTail(members)) && i + |MembersTail(members)| == JsonGrammar.Member(s, i).end
    decreases |s| - i, 2
  {
    hide At, MemberText, WellNamed, JsonGrammar.Member;
    var m := SpellMember(s, i);
    var next := i + |MemberText(m)|;
    SkipsNothing(s, next);
    members := [m];
    if s[next] == COMMA {
      hide MembersTail;
      var rest := SpellMembers(s, next + 1);
      members := [m] + rest;
      assert members[1..] == rest;
      MembersSplit(members);
      JoinsThree(s, i, MemberText(m), 0x2C, MembersTail(rest));
    } else {
      AtNone(s, next + 1);
      JoinsThree(s, i, MemberText(m), 0x7D, []);
      assert [0x7D] + [] == [0x7D];
    }
  }

  // ---- Object texts ----

  /** The text is an object in some spelling. */
  ghost predicate IsSpelled(text: seq<Byte>) {
    exists members, space :: WellFormed(JObject(members, space)) && text == Print(JObject(members, space))
  }

  /** The object texts are exactly the spelled objects. */
  lemma {:induction false} ObjectsAreSpelled(text: seq<Byte>)
    ensures IsObject(text) <==> IsSpelled(text)
  {
    hide WellFormed, Print, IsObject, Members, ScanObject;
    if IsSpelled(text) {
      var members, space :| WellFormed(JObject(members, space)) && text == Print(JObject(members, space));
      PrintedObjectIsObject(members, space);
    }
    if IsObject(text) {
      ObjectIsRead(text);
      var v := SpellObject(text, 0);
      assert text[0..|text|] == text;
      assert v == JObject(v.members, v.space);
    }
  }

  lemma ObjectIsRead(text: seq<Byte>)
    requires IsObject(text)
    ensures text != [] && text[0] == OPEN_BRACE && Members(text, 1) == Complete(|text|)
  {
    hide Members, ScanObject;
    ScannerMatchesGrammar(text, 0);
  }

  // ---- The scanner's answers ----

  /** The bytes between two places of s spell an object. */
  ghost predicate SpelledAt(s: seq<Byte>, start: nat, end: nat) {
    start < end <= |s| && IsSpelled(s[start..end])
  }

  /** Whatever bytes follow, no spelled object starts here. */
  ghost predicate NeverSpelled(s: seq<Byte>, start: nat) {
    forall more: seq<Byte>, end: nat :: !SpelledAt(s + more, start, end)
  }

  lemma {:induction false} HeldIsSpelled(s: seq<Byte>, start: nat, end: nat)
    ensures HoldsObject(s, start, end) <==> SpelledAt(s, start, end)
  {
    hide IsObject, IsSpelled;
    if start < end <= |s| {
      ObjectsAreSpelled(s[start..end]);
    }
  }

  lemma {:induction false} NeverHeldIsNeverSpelled(s: seq<Byte>, start: nat)
    ensures NeverObject(s, start) <==> NeverSpelled(s, start)
  {
    hide HoldsObject, SpelledAt;
    forall more: seq<Byte>, end: nat
      ensures HoldsObject(s + more, start, end) <==> SpelledAt(s + more, start, end)
    {
      HeldIsSpelled(s + more, start, end);
    }
  }

  /**
   * The scanner answers what can be known of an opening brace: the end of the object
   * that is spelled there; or the first byte with which no object can be spelled any
   * more, whatever follows; or else that it depends on the bytes to come.
   */
  lemma {:induction false} ScannerIsExact(s: seq<Byte>, start: nat)
    requires start < |s| && s[start] == OPEN_BRACE
    ensures forall end: nat :: ScanObject(s, start) == Complete(end) <==> SpelledAt(s, start, end)
    ensures ScanObject(s, start).Malformed? <==> NeverSpelled(s, start)
    ensures forall n :: start < n <= |s| && ScanObject(s, start).Malformed? ==>
              (NeverSpelled(s[..n], start) <==> ScanObject(s, start).at < n)
  {
    hide HoldsObject, SpelledAt, NeverSpelled, NeverObject, ScanObject;
    forall end: nat
      ensures ScanObject(s, start) == Complete(end) <==> SpelledAt(s, start, end)
    {
      OutcomeIsExact(s, start, end);
      HeldIsSpelled(s, start, end);
    }
    OutcomeIsExact(s, start, 0);
    NeverHeldIsNeverSpelled(s, start);
    forall n | start < n <= |s| && ScanObject(s, start).Malformed?
      ensures NeverSpelled(s[..n], start) <==> ScanObject(s, start).at < n
    {
      MalformedIsFirst(s, start, n);
      NeverHeldIsNeverSpelled(s[..n], start);
    }
  }
}
