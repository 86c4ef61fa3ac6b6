/**
 * The object scanner as a byte-at-a-time pushdown automaton: a mode and a stack
 * of open containers, with string and escape modes, so that braces and quotes
 * inside strings do not count. This is how the decoder finds the end of a report
 * object without looking at a byte twice. It is proved to agree with the grammar
 * of JsonGrammar on every input, in what it accepts, where it stops and what it
 * calls malformed, and to keep its answer when more bytes arrive.
 */
module JsonScanner {
  import opened Bytes
  import opened JsonGrammar

  datatype Mode =
    | BeginValue | BeginElementOrEmpty | BeginNameOrEmpty | BeginName | AfterValue
    | InString | Escape | Hex(left: nat)
    | Sign | Zero | Whole | Dot | Decimals | Mark | MarkSign | Power
    | Name(rest: seq<Byte>)

  /** What the innermost open container is waiting for. */
  datatype Container = ObjectName | ObjectValue | ArrayElement

  datatype Stack = Empty | Push(top: Container, below: Stack)

  datatype Scan = Scanning(mode: Mode, stack: Stack) | Finished | Failed

  // ---- One step ----

  /** A container has closed; the text is finished when none is left open. */
  function Pop(below: Stack): Scan {
    if below.Empty? then Finished else Scanning(AfterValue, below)
  }

  function StepAfterValue(stack: Stack, c: Byte): Scan {
    if IsSpace(c) then Scanning(AfterValue, stack)
    else match stack
      case Empty => Failed
      case Push(ObjectName, below) =>
        if c == COLON then Scanning(BeginValue, Push(ObjectValue, below)) else Failed
      case Push(ObjectValue, below) =>
        if c == COMMA then Scanning(BeginName, Push(ObjectName, below))
        else if c == CLOSE_BRACE then Pop(below)
        else Failed
      case Push(ArrayElement, below) =>
        if c == COMMA then Scanning(BeginValue, stack)
        else if c == CLOSE_BRACKET then Pop(below)
        else Failed
  }

  function StepBeginValue(stack: Stack, c: Byte): Scan {
    if IsSpace(c) then Scanning(BeginValue, stack)
    else if c == OPEN_BRACE then Scanning(BeginNameOrEmpty, Push(ObjectName, stack))
    else if c == OPEN_BRACKET then Scanning(BeginElementOrEmpty, Push(ArrayElement, stack))
    else if c == QUOTE then Scanning(InString, stack)
    else if c == MINUS then Scanning(Sign, stack)
    else if c == DIGIT_0 then Scanning(Zero, stack)
    else if IsDigit(c) then Scanning(Whole, stack)
    else if c == 0x74 then Scanning(Name(TRUE_TAIL), stack)
    else if c == 0x66 then Scanning(Name(FALSE_TAIL), stack)
    else if c == 0x6E then Scanning(Name(NULL_TAIL), stack)
    else Failed
  }

  function StepBeginName(stack: Stack, c: Byte): Scan {
    if IsSpace(c) then Scanning(BeginName, stack)
    else if c == QUOTE then Scanning(InString, stack)
    else Failed
  }

  function Step(mode: Mode, stack: Stack, c: Byte): Scan {
    match mode
    case BeginValue => StepBeginValue(stack, c)
    case BeginElementOrEmpty =>
      if IsSpace(c) then Scanning(mode, stack)
      else if c == CLOSE_BRACKET then StepAfterValue(stack, c)
      else StepBeginValue(stack, c)
    case BeginNameOrEmpty =>
      if IsSpace(c) then Scanning(mode, stack)
      else if c == CLOSE_BRACE && stack.Push? then Pop(stack.below)
      else StepBeginName(stack, c)
    case BeginName => StepBeginName(stack, c)
    case AfterValue => StepAfterValue(stack, c)
    case InString =>
      if c == QUOTE then Scanning(AfterValue, stack)
      else if c == BACKSLASH then Scanning(Escape, stack)
      else if c < 0x20 then Failed
      else Scanning(InString, stack)
    case Escape =>
      if IsSimpleEscape(c) then Scanning(InString, stack)
      else if c == 0x75 then Scanning(Hex(4), stack)
      else Failed
    case Hex(left) =>
      if !IsHexDigit(c) then Failed
      else if left <= 1 then Scanning(InString, stack)
      else Scanning(Hex(left - 1), stack)
    case Sign =>
      if c == DIGIT_0 then Scanning(Zero, stack)
      else if IsDigit(c) then Scanning(Whole, stack)
      else Failed
    case Whole => if IsDigit(c) then Scanning(Whole, stack) else StepZero(stack, c)
    case Zero => StepZero(stack, c)
    case Dot => if IsDigit(c) then Scanning(Decimals, stack) else Failed
    case Decimals =>
      if IsDigit(c) then Scanning(Decimals, stack)
      else if IsExponentMark(c) then Scanning(Mark, stack)
      else StepAfterValue(stack, c)
    case Mark =>
      if c == PLUS || c == MINUS then Scanning(MarkSign, stack)
      else if IsDigit(c) then Scanning(Power, stack)
      else Failed
    case MarkSign => if IsDigit(c) then Scanning(Power, stack) else Failed
    case Power => if IsDigit(c) then Scanning(Power, stack) else StepAfterValue(stack, c)
    case Name(rest) =>
      if rest == [] || c != rest[0] then Failed
      else if |rest| == 1 then Scanning(AfterValue, stack)
      else Scanning(Name(rest[1..]), stack)
  }

  function StepZero(stack: Stack, c: Byte): Scan {
    if c == POINT then Scanning(Dot, stack)
    else if IsExponentMark(c) then Scanning(Mark, stack)
    else StepAfterValue(stack, c)
  }

  // ---- Whole runs ----

  function Run(s: seq<Byte>, i: nat, mode: Mode, stack: Stack): (o: Outcome)
    requires i <= |s|
    ensures Advances(o, i, s)
    decreases |s| - i
  {
    if i == |s| then Incomplete
    else match Step(mode, stack, s[i])
      case Finished => Complete(i + 1)
      case Failed => Malformed(i)
      case Scanning(next, open) => Run(s, i + 1, next, open)
  }

  /** Where the JSON value that starts at i ends. */
  function ScanObject(s: seq<Byte>, i: nat): (o: Outcome)
    requires i < |s| && s[i] == OPEN_BRACE
    ensures Advances(o, i, s)
  {
    Run(s, i, BeginValue, Empty)
  }

  // ---- Agreement with the grammar ----

  /** Continue after a value that a production has recognised. */
  ghost function Resume(s: seq<Byte>, o: Outcome, stack: Stack): Outcome
    requires o.Complete? ==> o.end <= |s|
  {
    if o.Complete? then Run(s, o.end, AfterValue, stack) else o
  }

  /** Continue after a container that a production has recognised up to its end. */
  ghost function Leave(s: seq<Byte>, o: Outcome, below: Stack): Outcome
    requires o.Complete? ==> o.end <= |s|
  {
    if o.Complete? && below.Empty? then o else Resume(s, o, below)
  }

  predicate SkipsSpaces(mode: Mode) {
    mode in [BeginValue, BeginElementOrEmpty, BeginNameOrEmpty, BeginName, AfterValue]
  }

  lemma {:induction false} RunSpaces(s: seq<Byte>, i: nat, mode: Mode, stack: Stack)
    requires i <= |s| && SkipsSpaces(mode)
    ensures Run(s, i, mode, stack) == Run(s, SkipSpaces(s, i), mode, stack)
    decreases |s| - i
  {
    if i < |s| && IsSpace(s[i]) {
      RunSpaces(s, i + 1, mode, stack);
    }
  }

  lemma {:induction false} RunString(s: seq<Byte>, i: nat, stack: Stack)
    requires i <= |s|
    ensures Run(s, i, InString, stack) == Resume(s, StringBody(s, i), stack)
    decreases |s| - i, 5
  {
    if i == |s| || s[i] == QUOTE {
    } else if s[i] == BACKSLASH {
      if i + 1 < |s| && IsSimpleEscape(s[i + 1]) {
        RunString(s, i + 2, stack);
      } else if i + 1 < |s| && s[i + 1] == 0x75 {
        RunHex(s, i + 2, 4, stack);
      }
    } else if s[i] >= 0x20 {
      RunString(s, i + 1, stack);
    }
  }

  lemma {:induction false} RunHex(s: seq<Byte>, i: nat, n: nat, stack: Stack)
    requires i <= |s| && 1 <= n <= 4
    ensures Run(s, i, Hex(n), stack) == Resume(s, HexDigits(s, i, n), stack)
    decreases |s| - i, 6 + n
  {
    if i < |s| && IsHexDigit(s[i]) {
      if n == 1 {
        RunString(s, i + 1, stack);
        assert HexDigits(s, i + 1, 0) == StringBody(s, i + 1);
      } else {
        RunHex(s, i + 1, n - 1, stack);
      }
    }
  }

  lemma {:induction false} RunName(s: seq<Byte>, i: nat, rest: seq<Byte>, stack: Stack)
    requires i <= |s| && rest != []
    ensures Run(s, i, Name(rest), stack) == Resume(s, Word(s, i, rest), stack)
    decreases |rest|
  {
    if i < |s| && s[i] == rest[0] {
      if |rest| == 1 {
        assert Word(s, i + 1, rest[1..]) == Complete(i + 1);
      } else {
        RunName(s, i + 1, rest[1..], stack);
      }
    }
  }

  /** A digit run leaves the scanner in the mode it was in. */
  lemma {:induction false} RunDigits(s: seq<Byte>, i: nat, mode: Mode, stack: Stack)
    requires i <= |s| && mode in [Whole, Decimals, Power]
    ensures Run(s, i, mode, stack) == Run(s, Digits(s, i), mode, stack)
    decreases |s| - i
  {
    if i < |s| && IsDigit(s[i]) {
      RunDigits(s, i + 1, mode, stack);
    }
  }

  lemma {:induction false} RunExponent(s: seq<Byte>, i: nat, mode: Mode, stack: Stack)
    requires i <= |s| && mode in [Zero, Whole, Decimals]
    requires i < |s| && mode in [Whole, Decimals] ==> !IsDigit(s[i])
    requires i < |s| && mode in [Zero, Whole] ==> s[i] != POINT
    ensures Run(s, i, mode, stack) == Resume(s, Exponent(s, i), stack)
  {
    hide Digits;
    if i < |s| && IsExponentMark(s[i]) {
      assert Run(s, i, mode, stack) == Run(s, i + 1, Mark, stack);
      RunMark(s, i, stack);
    } else if i < |s| {
      assert Step(mode, stack, s[i]) == Step(AfterValue, stack, s[i]);
    }
  }

  lemma {:induction false} RunMark(s: seq<Byte>, i: nat, stack: Stack)
    requires i < |s| && IsExponentMark(s[i])
    ensures Run(s, i + 1, Mark, stack) == Resume(s, Exponent(s, i), stack)
  {
    hide Digits;
    if i + 1 < |s| && (s[i + 1] == PLUS || s[i + 1] == MINUS) {
      assert Run(s, i + 1, Mark, stack) == Run(s, i + 2, MarkSign, stack);
      RunPower(s, i + 2, MarkSign, stack);
    } else {
      RunPower(s, i + 1, Mark, stack);
    }
  }

  /** The digits of an exponent, its mark and sign being read. */
  lemma {:induction false} RunPower(s: seq<Byte>, j: nat, mode: Mode, stack: Stack)
    requires j <= |s| && mode in [Mark, MarkSign]
    requires j < |s| && mode == Mark ==> s[j] != PLUS && s[j] != MINUS
    ensures Run(s, j, mode, stack)
         == if j == |s| then Incomplete
            else if IsDigit(s[j]) then Run(s, Digits(s, j + 1), AfterValue, stack)
            else Malformed(j)
  {
    if j < |s| && IsDigit(s[j]) {
      RunDigits(s, j + 1, Power, stack);
      var k := Digits(s, j + 1);
      if k < |s| {
        assert Step(Power, stack, s[k]) == Step(AfterValue, stack, s[k]);
      }
    }
  }

  lemma {:induction false} RunFraction(s: seq<Byte>, i: nat, mode: Mode, stack: Stack)
    requires i <= |s| && mode in [Zero, Whole]
    requires i < |s| && mode == Whole ==> !IsDigit(s[i])
    ensures Run(s, i, mode, stack) == Resume(s, Fraction(s, i), stack)
  {
    if i < |s| && s[i] == POINT {
      assert Run(s, i, mode, stack) == Run(s, i + 1, Dot, stack);
      if i + 1 < |s| && IsDigit(s[i + 1]) {
        RunDigits(s, i + 2, Decimals, stack);
        RunExponent(s, Digits(s, i + 2), Decimals, stack);
      }
    } else {
      RunExponent(s, i, mode, stack);
    }
  }

  lemma {:induction false} RunNumber(s: seq<Byte>, i: nat, stack: Stack)
    requires i < |s| && !IsSpace(s[i])
    requires s[i] !in [OPEN_BRACE, OPEN_BRACKET, QUOTE, 0x74, 0x66, 0x6E]
    ensures Run(s, i, BeginValue, stack) == Resume(s, Number(s, i), stack)
  {
    hide Digits, Fraction, Unsigned;
    if s[i] == MINUS {
      assert Run(s, i, BeginValue, stack) == Run(s, i + 1, Sign, stack);
      RunUnsigned(s, i + 1, Sign, stack);
    } else {
      RunUnsigned(s, i, BeginValue, stack);
    }
  }

  /** A number without its sign. */
  lemma {:induction false} RunUnsigned(s: seq<Byte>, j: nat, mode: Mode, stack: Stack)
    requires j <= |s| && mode in [BeginValue, Sign]
    requires j < |s| && mode == BeginValue ==>
               s[j] !in [OPEN_BRACE, OPEN_BRACKET, QUOTE, 0x74, 0x66, 0x6E, MINUS] && !IsSpace(s[j])
    ensures Run(s, j, mode, stack) == Resume(s, Unsigned(s, j), stack)
  {
    hide Digits, Fraction;
    if j < |s| && s[j] == DIGIT_0 {
      assert Run(s, j, mode, stack) == Run(s, j + 1, Zero, stack);
      RunFraction(s, j + 1, Zero, stack);
    } else if j < |s| && IsDigit(s[j]) {
      assert Run(s, j, mode, stack) == Run(s, j + 1, Whole, stack);
      RunDigits(s, j + 1, Whole, stack);
      RunFraction(s, Digits(s, j + 1), Whole, stack);
    }
  }

  /** Literal names: their first byte selects the rest. */
  lemma {:induction false} RunLiteral(s: seq<Byte>, i: nat, stack: Stack)
    requires i < |s| && s[i] in [0x74, 0x66, 0x6E]
    ensures Run(s, i, BeginValue, stack) == Resume(s, Value(s, i), stack)
  {
    hide Word, Members, Elements, StringBody, Number;
    var tail := if s[i] == 0x74 then TRUE_TAIL else if s[i] == 0x66 then FALSE_TAIL else NULL_TAIL;
    assert Run(s, i, BeginValue, stack) == Run(s, i + 1, Name(tail), stack);
    RunName(s, i + 1, tail, stack);
  }

  lemma {:induction false} RunValue(s: seq<Byte>, i: nat, stack: Stack)
    requires i <= |s| && stack.Push?
    ensures Run(s, i, BeginValue, stack) == Resume(s, Value(s, i), stack)
    decreases |s| - i, 0
  {
    hide Members, Elements, StringBody, Number, Word, SkipSpaces;
    RunSpaces(s, i, BeginValue, stack);
    var j := SkipSpaces(s, i);
    if j < |s| {
      if s[j] == OPEN_BRACE {
        assert Run(s, j, BeginValue, stack) == Run(s, j + 1, BeginNameOrEmpty, Push(ObjectName, stack));
        RunMembers(s, j + 1, stack);
      } else if s[j] == OPEN_BRACKET {
        assert Run(s, j, BeginValue, stack) == Run(s, j + 1, BeginElementOrEmpty, Push(ArrayElement, stack));
        RunElements(s, j + 1, stack);
      } else if s[j] == QUOTE {
        assert Run(s, j, BeginValue, stack) == Run(s, j + 1, InString, stack);
        RunString(s, j + 1, stack);
      } else if s[j] in [0x74, 0x66, 0x6E] {
        RunLiteral(s, j, stack);
        SkipSpacesUnique(s, j, j);
        assert Value(s, j) == Value(s, i);
      } else {
        RunNumber(s, j, stack);
      }
    }
  }

  lemma {:induction false} RunMembers(s: seq<Byte>, i: nat, below: Stack)
    requires i <= |s|
    ensures Run(s, i, BeginNameOrEmpty, Push(ObjectName, below)) == Leave(s, Members(s, i), below)
    decreases |s| - i, 2
  {
    var stack := Push(ObjectName, below);
    RunSpaces(s, i, BeginNameOrEmpty, stack);
    RunSpaces(s, i, BeginName, stack);
    var j := SkipSpaces(s, i);
    if j == |s| || s[j] != CLOSE_BRACE {
      assert Run(s, j, BeginNameOrEmpty, stack) == Run(s, j, BeginName, stack);
      RunMember(s, i, below);
    }
  }

  lemma {:induction false} RunMember(s: seq<Byte>, i: nat, below: Stack)
    requires i <= |s|
    ensures Run(s, i, BeginName, Push(ObjectName, below)) == Leave(s, Member(s, i), below)
    decreases |s| - i, 1
  {
    var stack := Push(ObjectName, below);
    RunSpaces(s, i, BeginName, stack);
    var j := SkipSpaces(s, i);
    if j < |s| && s[j] == QUOTE {
      RunString(s, j + 1, stack);
      var name := StringBody(s, j + 1);
      if name.Complete? {
        RunMemberValue(s, name.end, below);
      }
    }
  }

  lemma {:induction false} RunMemberValue(s: seq<Byte>, i: nat, below: Stack)
    requires i <= |s|
    ensures Run(s, i, AfterValue, Push(ObjectName, below)) == Leave(s, MemberValue(s, i), below)
    decreases |s| - i, 4
  {
    hide Value, MoreMembers, SkipSpaces;
    RunSpaces(s, i, AfterValue, Push(ObjectName, below));
    var colon := SkipSpaces(s, i);
    if colon < |s| && s[colon] == COLON {
      var stack := Push(ObjectValue, below);
      assert Run(s, colon, AfterValue, Push(ObjectName, below)) == Run(s, colon + 1, BeginValue, stack);
      RunValue(s, colon + 1, stack);
      var value := Value(s, colon + 1);
      if value.Complete? {
        RunMoreMembers(s, value.end, below);
      }
    }
  }

  lemma {:induction false} RunMoreMembers(s: seq<Byte>, i: nat, below: Stack)
    requires i <= |s|
    ensures Run(s, i, AfterValue, Push(ObjectValue, below)) == Leave(s, MoreMembers(s, i), below)
    decreases |s| - i, 4
  {
    RunSpaces(s, i, AfterValue, Push(ObjectValue, below));
    var next := SkipSpaces(s, i);
    if next < |s| && s[next] == COMMA {
      RunMember(s, next + 1, below);
    }
  }

  lemma {:induction false} RunElements(s: seq<Byte>, i: nat, below: Stack)
    requires i <= |s|
    ensures Run(s, i, BeginElementOrEmpty, Push(ArrayElement, below)) == Leave(s, Elements(s, i), below)
    decreases |s| - i, 2
  {
    var stack := Push(ArrayElement, below);
    RunSpaces(s, i, BeginElementOrEmpty, stack);
    RunSpaces(s, i, BeginValue, stack);
    var j := SkipSpaces(s, i);
    if j == |s| || s[j] != CLOSE_BRACKET {
      assert Run(s, j, BeginElementOrEmpty, stack) == Run(s, j, BeginValue, stack);
      RunElement(s, i, below);
    }
  }

  lemma {:induction false} RunElement(s: seq<Byte>, i: nat, below: Stack)
    requires i <= |s|
    ensures Run(s, i, BeginValue, Push(ArrayElement, below)) == Leave(s, Element(s, i), below)
    decreases |s| - i, 1
  {
    var stack := Push(ArrayElement, below);
    RunValue(s, i, stack);
    var value := Value(s, i);
    if value.Complete? {
      RunMoreElements(s, value.end, below);
    }
  }

  lemma {:induction false} RunMoreElements(s: seq<Byte>, i: nat, below: Stack)
    requires i <= |s|
    ensures Run(s, i, AfterValue, Push(ArrayElement, below)) == Leave(s, MoreElements(s, i), below)
    decreases |s| - i, 4
  {
    RunSpaces(s, i, AfterValue, Push(ArrayElement, below));
    var next := SkipSpaces(s, i);
    if next < |s| && s[next] == COMMA {
      RunElement(s, next + 1, below);
    }
  }

  /**
   * The scanner is the grammar: on every input it ends where the grammar ends,
   * rejects the byte the grammar rejects, and asks for more exactly when the
   * grammar does.
   */
  lemma {:induction false} ScannerMatchesGrammar(s: seq<Byte>, i: nat)
    requires i < |s| && s[i] == OPEN_BRACE
    ensures ScanObject(s, i) == Object(s, i)
  {
    RunMembers(s, i + 1, Empty);
    assert Run(s, i, BeginValue, Empty) == Run(s, i + 1, BeginNameOrEmpty, Push(ObjectName, Empty));
  }

  // ---- Stability ----

  /** The outcome rests on the first n bytes alone. */
  ghost predicate Decided(o: Outcome, n: nat) {
    (o.Complete? && o.end <= n) || (o.Malformed? && o.at < n)
  }

  /** Inputs that share their first n bytes share every outcome decided by them. */
  lemma {:induction false} RunAgrees(s: seq<Byte>, t: seq<Byte>, i: nat, n: nat, mode: Mode, stack: Stack)
    requires i <= n <= |s| && n <= |t| && s[..n] == t[..n]
    requires Decided(Run(s, i, mode, stack), n)
    ensures Run(t, i, mode, stack) == Run(s, i, mode, stack)
    decreases n - i
  {
    if i < n {
      assert s[i] == s[..n][i] == t[..n][i] == t[i];
      var step := Step(mode, stack, s[i]);
      if step.Scanning? {
        RunAgrees(s, t, i + 1, n, step.mode, step.stack);
      }
    }
  }

  /**
   * More bytes never move the end of a complete object, never repair a
   * malformed one, and can only complete or break an incomplete one beyond the
   * bytes already seen.
   */
  lemma {:induction false} ScanIsStable(s: seq<Byte>, more: seq<Byte>, i: nat)
    requires i < |s| && s[i] == OPEN_BRACE
    ensures var now, later := ScanObject(s, i), ScanObject(s + more, i);
            && (now.Complete? || now.Malformed? ==> later == now)
            && (now.Incomplete? && later.Complete? ==> later.end > |s|)
            && (now.Incomplete? && later.Malformed? ==> later.at >= |s|)
  {
    assert (s + more)[..|s|] == s[..|s|] == s;
    if Decided(ScanObject(s, i), |s|) {
      RunAgrees(s, s + more, i, |s|, BeginValue, Empty);
    } else if Decided(ScanObject(s + more, i), |s|) {
      RunAgrees(s + more, s, i, |s|, BeginValue, Empty);
    }
  }

  /** The scanner consumes exactly the bytes up to the end it reports. */
  ghost predicate IsObject(o: seq<Byte>) {
    |o| > 0 && o[0] == OPEN_BRACE && ScanObject(o, 0) == Complete(|o|)
  }

  /** No proper prefix of an object text is an object text, or is malformed. */
  lemma {:induction false} PrefixIsIncomplete(o: seq<Byte>, n: nat)
    requires IsObject(o) && 0 < n < |o|
    ensures ScanObject(o[..n], 0) == Incomplete
  {
    assert o[..n] + o[n..] == o;
    ScanIsStable(o[..n], o[n..], 0);
  }

  // ---- Position independence ----

  function Shift(o: Outcome, n: nat): Outcome {
    match o
    case Complete(end) => Complete(end + n)
    case Malformed(at) => Malformed(at + n)
    case Incomplete => Incomplete
  }

  lemma {:induction false} RunShifts(before: seq<Byte>, s: seq<Byte>, i: nat, mode: Mode, stack: Stack)
    requires i <= |s|
    ensures Run(before + s, |before| + i, mode, stack) == Shift(Run(s, i, mode, stack), |before|)
    decreases |s| - i
  {
    if i < |s| {
      assert (before + s)[|before| + i] == s[i];
      var step := Step(mode, stack, s[i]);
      if step.Scanning? {
        RunShifts(before, s, i + 1, step.mode, step.stack);
      }
    }
  }

  /** A complete object is an object text wherever it is cut out. */
  lemma {:induction false} CutOutIsObject(s: seq<Byte>, start: nat)
    requires start < |s| && s[start] == OPEN_BRACE
    requires ScanObject(s, start).Complete?
    ensures IsObject(s[start..ScanObject(s, start).end])
  {
    var end := ScanObject(s, start).end;
    var o := s[start..end];
    assert s[..end] == s[..start] + o;
    RunAgrees(s, s[..end], start, end, BeginValue, Empty);
    RunShifts(s[..start], o, 0, BeginValue, Empty);
  }

  /** The text between two places of s is an object. */
  ghost predicate HoldsObject(s: seq<Byte>, start: nat, end: nat) {
    start < end <= |s| && IsObject(s[start..end])
  }

  /** An object can end in one place only, and the scanner finds it. */
  lemma {:induction false} ObjectIsScanned(s: seq<Byte>, start: nat, end: nat)
    requires HoldsObject(s, start, end)
    ensures s[start] == OPEN_BRACE && ScanObject(s, start) == Complete(end)
  {
    var o := s[start..end];
    assert o[0] == s[start];
    ScanIsStable(o, s[end..], 0);
    RunShifts(s[..start], o + s[end..], 0, BeginValue, Empty);
    assert s == s[..start] + (o + s[end..]);
  }

  lemma ScannedIsObject(s: seq<Byte>, start: nat)
    requires start < |s| && s[start] == OPEN_BRACE && ScanObject(s, start).Complete?
    ensures HoldsObject(s, start, ScanObject(s, start).end)
  {
    CutOutIsObject(s, start);
  }

  /** What an object in a longer input says about the bytes at hand. */
  lemma {:induction false} ObjectComesLater(s: seq<Byte>, more: seq<Byte>, start: nat, end: nat)
    requires start < |s| && HoldsObject(s + more, start, end)
    ensures s[start] == OPEN_BRACE
    ensures ScanObject(s, start) == Complete(end) || (ScanObject(s, start).Incomplete? && end > |s|)
  {
    ObjectIsScanned(s + more, start, end);
    assert s[start] == (s + more)[start];
    ScanIsStable(s, more, start);
  }

  /** Whatever bytes follow, no object within the limit starts here. */
  ghost predicate NeverWithin(s: seq<Byte>, start: nat, max: nat) {
    forall more: seq<Byte>, end: nat :: HoldsObject(s + more, start, end) ==> end - start > max
  }

  /** Whatever bytes follow, no object starts here. */
  ghost predicate NeverObject(s: seq<Byte>, start: nat) {
    forall more: seq<Byte>, end: nat :: !HoldsObject(s + more, start, end)
  }

  lemma {:induction false} MalformedIsFinal(s: seq<Byte>, start: nat)
    requires start < |s| && s[start] == OPEN_BRACE && ScanObject(s, start).Malformed?
    ensures NeverObject(s, start)
  {
    hide HoldsObject;
    forall more: seq<Byte>, end: nat
      ensures !HoldsObject(s + more, start, end)
    {
      if HoldsObject(s + more, start, end) {
        ObjectComesLater(s, more, start, end);
      }
    }
  }

  lemma {:induction false} OversizeIsFinal(s: seq<Byte>, start: nat, max: nat)
    requires start < |s| && s[start] == OPEN_BRACE
    requires var o := ScanObject(s, start);
             if o.Complete? then o.end - start > max else |s| - start > max
    ensures NeverWithin(s, start, max)
  {
    hide HoldsObject;
    forall more: seq<Byte>, end: nat | HoldsObject(s + more, start, end)
      ensures end - start > max
    {
      ObjectComesLater(s, more, start, end);
    }
  }

  lemma {:induction false} NoObjectYet(s: seq<Byte>, start: nat)
    requires start < |s| && s[start] == OPEN_BRACE && !ScanObject(s, start).Complete?
    ensures forall end: nat :: !HoldsObject(s, start, end)
  {
    hide HoldsObject;
    forall end: nat
      ensures !HoldsObject(s, start, end)
    {
      if HoldsObject(s, start, end) {
        ObjectIsScanned(s, start, end);
      }
    }
  }

  // ---- Every incomplete text can be completed ----

  /** The states that a scan can be in behind the opening brace. */
  predicate IsOpen(mode: Mode, stack: Stack) {
    && stack.Push?
    && (mode in [BeginName, BeginNameOrEmpty] ==> stack.top == ObjectName)
    && (mode == BeginElementOrEmpty ==> stack.top == ArrayElement)
    && (mode.Hex? ==> 1 <= mode.left <= 4) && (mode.Name? ==> mode.rest != [])
  }

  lemma StaysOpen(mode: Mode, stack: Stack, c: Byte)
    requires IsOpen(mode, stack) && Step(mode, stack, c).Scanning?
    ensures IsOpen(Step(mode, stack, c).mode, Step(mode, stack, c).stack)
  {
  }

  /** Closes all containers behind a value or a name. */
  function CloseAll(stack: Stack): seq<Byte> {
    match stack
    case Empty => []
    case Push(ObjectName, below) => [COLON, OPEN_BRACE, CLOSE_BRACE, CLOSE_BRACE] + CloseAll(below)
    case Push(ObjectValue, below) => [CLOSE_BRACE] + CloseAll(below)
    case Push(ArrayElement, below) => [CLOSE_BRACKET] + CloseAll(below)
  }

  /** Ends the token that the scan is in, or puts a value or a name where one must come. */
  function EndToken(mode: Mode): seq<Byte> {
    match mode
    case BeginValue => [OPEN_BRACE, CLOSE_BRACE]
    case BeginElementOrEmpty => [OPEN_BRACE, CLOSE_BRACE]
    case BeginName => [QUOTE, QUOTE]
    case BeginNameOrEmpty => [QUOTE, QUOTE]
    case InString => [QUOTE]
    case Escape => [BACKSLASH, QUOTE]
    case Hex(left) => seq(left, _ => DIGIT_0) + [QUOTE]
    case Sign => [DIGIT_0]
    case Dot => [DIGIT_0]
    case Mark => [DIGIT_0]
    case MarkSign => [DIGIT_0]
    case Name(rest) => rest
    case _ => []
  }

  predicate EndsValue(mode: Mode) {
    mode in [AfterValue, Zero, Whole, Decimals, Power]
  }

  lemma {:induction false} RunCloses(t: seq<Byte>, i: nat, mode: Mode, stack: Stack)
    requires EndsValue(mode) && stack.Push? && i <= |t| && t[i..] == CloseAll(stack)
    ensures Run(t, i, mode, stack) == Complete(|t|)
    decreases stack
  {
    var n := if stack.top == ObjectName then 4 else 1;
    assert forall k :: 0 <= k < n ==> t[i + k] == CloseAll(stack)[k];
    assert t[i + n..] == CloseAll(stack)[n..] == CloseAll(stack.below);
    if stack.top == ObjectName {
      var value := Push(ObjectValue, stack.below);
      assert Run(t, i, mode, stack) == Run(t, i + 1, BeginValue, value);
      assert Run(t, i + 1, BeginValue, value) == Run(t, i + 2, BeginNameOrEmpty, Push(ObjectName, value));
      assert Run(t, i + 2, BeginNameOrEmpty, Push(ObjectName, value)) == Run(t, i + 3, AfterValue, value);
      assert Step(AfterValue, value, t[i + 3]) == Pop(stack.below);
    } else {
      assert Step(mode, stack, t[i]) == Pop(stack.below);
    }
    if stack.below.Push? {
      RunCloses(t, i + n, AfterValue, stack.below);
    }
  }

  lemma {:induction false} RunEndsHex(t: seq<Byte>, i: nat, left: nat, stack: Stack)
    requires 1 <= left && i + left < |t| && (forall k :: i <= k < i + left ==> t[k] == DIGIT_0)
    requires t[i + left] == QUOTE
    ensures Run(t, i, Hex(left), stack) == Run(t, i + left + 1, AfterValue, stack)
    decreases left
  {
    if left == 1 {
      assert Run(t, i, Hex(left), stack) == Run(t, i + 1, InString, stack);
    } else {
      RunEndsHex(t, i + 1, left - 1, stack);
    }
  }

  lemma {:induction false} RunEndsName(t: seq<Byte>, i: nat, rest: seq<Byte>, stack: Stack)
    requires rest != [] && i + |rest| <= |t| && t[i..i + |rest|] == rest
    ensures Run(t, i, Name(rest), stack) == Run(t, i + |rest|, AfterValue, stack)
    decreases |rest|
  {
    assert t[i] == t[i..i + |rest|][0];
    if |rest| > 1 {
      assert t[i + 1..i + |rest|] == rest[1..];
      RunEndsName(t, i + 1, rest[1..], stack);
    }
  }

  /** The token that the scan is in ends where it is told to. */
  lemma {:induction false} RunEndsToken(t: seq<Byte>, mode: Mode, stack: Stack) returns (after: Mode)
    requires IsOpen(mode, stack) && |EndToken(mode)| <= |t| && t[..|EndToken(mode)|] == EndToken(mode)
    ensures EndsValue(after) && Run(t, 0, mode, stack) == Run(t, |EndToken(mode)|, after, stack)
  {
    var n := |EndToken(mode)|;
    assert forall k :: 0 <= k < n ==> t[k] == EndToken(mode)[k];
    after := AfterValue;
    match mode {
      case Hex(left) => RunEndsHex(t, 0, left, stack);
      case Name(rest) => RunEndsName(t, 0, rest, stack);
      case BeginValue =>
        assert Run(t, 0, mode, stack) == Run(t, 1, BeginNameOrEmpty, Push(ObjectName, stack));
      case BeginElementOrEmpty =>
        assert Run(t, 0, mode, stack) == Run(t, 1, BeginNameOrEmpty, Push(ObjectName, stack));
      case BeginName =>
        assert Run(t, 0, mode, stack) == Run(t, 1, InString, stack);
      case BeginNameOrEmpty =>
        assert Run(t, 0, mode, stack) == Run(t, 1, InString, stack);
      case Escape =>
        assert Run(t, 0, mode, stack) == Run(t, 1, InString, stack);
      case InString =>
      case Sign => after := Zero;
      case Dot => after := Decimals;
      case Mark => after := Power;
      case MarkSign => after := Power;
      case _ => after := mode;
    }
  }

  /** Wherever a scan has come to behind the opening brace, some bytes finish it. */
  lemma {:induction false} RunFinishes(s: seq<Byte>, i: nat, mode: Mode, stack: Stack) returns (more: seq<Byte>)
    requires i <= |s| && IsOpen(mode, stack) && Run(s, i, mode, stack) == Incomplete
    ensures Run(s + more, i, mode, stack) == Complete(|s + more|)
    decreases |s| - i
  {
    if i == |s| {
      more := EndToken(mode) + CloseAll(stack);
      var after := RunEndsToken(more, mode, stack);
      RunCloses(more, |EndToken(mode)|, after, stack);
      RunShifts(s, more, 0, mode, stack);
    } else {
      var step := Step(mode, stack, s[i]);
      StaysOpen(mode, stack, s[i]);
      more := RunFinishes(s, i + 1, step.mode, step.stack);
      assert (s + more)[i] == s[i];
    }
  }

  /** An incomplete object can be completed. */
  lemma {:induction false} IncompleteGoesOn(s: seq<Byte>, start: nat) returns (more: seq<Byte>)
    requires start < |s| && s[start] == OPEN_BRACE && ScanObject(s, start) == Incomplete
    ensures HoldsObject(s + more, start, |s + more|)
  {
    var stack := Push(ObjectName, Empty);
    assert Run(s, start, BeginValue, Empty) == Run(s, start + 1, BeginNameOrEmpty, stack);
    more := RunFinishes(s, start + 1, BeginNameOrEmpty, stack);
    assert (s + more)[start] == s[start];
    assert ScanObject(s + more, start) == Complete(|s + more|);
    ScannedIsObject(s + more, start);
  }

  /** The shortest part of the input that no object can start with ends at the malformed byte. */
  lemma {:induction false} MalformedIsFirst(s: seq<Byte>, start: nat, n: nat)
    requires start < n <= |s| && s[start] == OPEN_BRACE && ScanObject(s, start).Malformed?
    ensures NeverObject(s[..n], start) <==> ScanObject(s, start).at < n
  {
    hide NeverObject, HoldsObject;
    assert s[..n] + s[n..] == s;
    ScanIsStable(s[..n], s[n..], start);
    if ScanObject(s, start).at < n {
      RunAgrees(s, s[..n], start, n, BeginValue, Empty);
      MalformedIsFinal(s[..n], start);
    } else {
      var more := IncompleteGoesOn(s[..n], start);
      NotNever(s[..n], start, more, |s[..n] + more|);
    }
  }

  lemma NotNever(s: seq<Byte>, start: nat, more: seq<Byte>, end: nat)
    requires HoldsObject(s + more, start, end)
    ensures !NeverObject(s, start)
  {
  }

  /**
   * What the scanner answers is what can be known: an object ends here, no object can
   * start like this, or it depends on the bytes to come.
   */
  lemma {:induction false} OutcomeIsExact(s: seq<Byte>, start: nat, end: nat)
    requires start < |s| && s[start] == OPEN_BRACE
    ensures ScanObject(s, start) == Complete(end) <==> HoldsObject(s, start, end)
    ensures ScanObject(s, start).Malformed? <==> NeverObject(s, start)
  {
    hide HoldsObject, NeverObject;
    assert s + [] == s;
    var o := ScanObject(s, start);
    if HoldsObject(s, start, end) {
      ObjectIsScanned(s, start, end);
    }
    match o {
      case Complete(at) =>
        ScannedIsObject(s, start);
        NotNever(s, start, [], at);
      case Malformed(_) => MalformedIsFinal(s, start);
      case Incomplete =>
        var more := IncompleteGoesOn(s, start);
        NotNever(s, start, more, |s + more|);
    }
  }
}
