/**
  Sequences of key presses, backspaces and clears, from the empty buffer the
  page starts with, and what stays true of the buffer along any of them.
 */
module Sessions {
  import opened Expression

  /** One editing event: a pressed key or button value, Backspace, or Escape / the clear button. */
  datatype Input = Press(key: char) | Back | ClearAll

  /** The buffer after one editing event. */
  function Step(e: string, input: Input): string
  {
    match input
    case Press(v) => AppendValue(e, v)
    case Back => Backspaced(e)
    case ClearAll => []
  }

  /** The buffer after the events, in order, starting from `e`. */
  function RunFrom(e: string, inputs: seq<Input>): string
    decreases |inputs|
  {
    if inputs == [] then e else RunFrom(Step(e, inputs[0]), inputs[1..])
  }

  /** The buffer after the events, starting from the empty buffer of page load. */
  function Run(inputs: seq<Input>): string
  {
    RunFrom([], inputs)
  }

  /** Key presses for each character of `s`, in order. */
  function Presses(s: string): (r: seq<Input>)
    ensures |r| == |s|
    ensures forall i :: 0 <= i < |s| ==> r[i] == Press(s[i])
  {
    if s == [] then [] else [Press(s[0])] + Presses(s[1..])
  }

  /**
    The buffer read from left to right: every point stands where the number
    before it has no point yet.
   */
  predicate OnePointPerNumber(e: string)
    decreases |e|
  {
    e == [] ||
    (OnePointPerNumber(e[..|e| - 1]) && (e[|e| - 1] == '.' ==> !NumberHasPoint(e[..|e| - 1])))
  }

  /** An operator or a parenthesis stands strictly between positions `i` and `j`. */
  ghost predicate Separated(e: string, i: int, j: int) {
    exists k :: i < k < j && 0 <= k < |e| && IsSeparator(e[k])
  }

  /** Between any two points of the buffer there is an operator or a parenthesis. */
  ghost predicate SingleDotPerSegment(e: string) {
    forall i, j :: 0 <= i < j < |e| && e[i] == '.' && e[j] == '.' ==> Separated(e, i, j)
  }

  /** No minus directly follows another minus. */
  predicate NoDoubleMinus(e: string) {
    forall i :: 0 <= i < |e| - 1 ==> !(e[i] == '-' && e[i + 1] == '-')
  }

  /** Every character of the buffer is one the keyboard handler forwards. */
  predicate OnlyKeys(e: string) {
    forall i :: 0 <= i < |e| ==> IsKey(e[i])
  }

  /** Every key pressed is a keyboard key or one of the three glyphs. */
  predicate KeyboardInputs(inputs: seq<Input>) {
    forall i :: 0 <= i < |inputs| && inputs[i].Press? ==> IsKey(inputs[i].key) || IsGlyph(inputs[i].key)
  }

  /** A point of the buffer outside its last number lies before that number's separator. */
  lemma PointBeforeLastSegment(p: string, i: int)
    requires 0 <= i < |p| && p[i] == '.' && '.' !in LastSegment(p)
    ensures 0 < SegmentStart(p) && i < SegmentStart(p) - 1 && IsSeparator(p[SegmentStart(p) - 1])
  {
  }

  /** A separator found in the buffer is still there after a character is added. */
  lemma SeparatedSnoc(p: string, c: char, i: int, j: int)
    requires j <= |p|
    ensures Separated(p + [c], i, j) <==> Separated(p, i, j)
  {
    if Separated(p + [c], i, j) {
      var k :| i < k < j && 0 <= k < |p + [c]| && IsSeparator((p + [c])[k]);
      assert (p + [c])[k] == p[k];
    }
    if Separated(p, i, j) {
      var k :| i < k < j && 0 <= k < |p| && IsSeparator(p[k]);
      assert (p + [c])[k] == p[k];
    }
  }

  /** Adding a character keeps points separated when it is not a point, or a point where the last number has none. */
  lemma SnocKeepsSingleDot(p: string, c: char)
    requires SingleDotPerSegment(p) && (c == '.' ==> '.' !in LastSegment(p))
    ensures SingleDotPerSegment(p + [c])
  {
    var r := p + [c];
    forall i, j | 0 <= i < j < |r| && r[i] == '.' && r[j] == '.'
      ensures Separated(r, i, j)
    {
      if j < |p| {
        assert p[i] == '.' && p[j] == '.';
        SeparatedSnoc(p, c, i, j);
      } else {
        PointBeforeLastSegment(p, i);
        var m := SegmentStart(p);
        assert r[m - 1] == p[m - 1];
      }
    }
  }

  /** Conversely, a buffer whose points are separated has a prefix whose points are too,
      and its last point was added where the number before it had none. */
  lemma SnocRevealsSingleDot(p: string, c: char)
    requires SingleDotPerSegment(p + [c])
    ensures SingleDotPerSegment(p)
    ensures c == '.' ==> '.' !in LastSegment(p)
  {
    var r := p + [c];
    forall i, j | 0 <= i < j < |p| && p[i] == '.' && p[j] == '.'
      ensures Separated(p, i, j)
    {
      assert r[i] == '.' && r[j] == '.';
      SeparatedSnoc(p, c, i, j);
    }
    if c == '.' && '.' in LastSegment(p) {
      var m := SegmentStart(p);
      var t :| 0 <= t < |LastSegment(p)| && LastSegment(p)[t] == '.';
      assert r[m + t] == '.' && r[|p|] == '.';
      var k :| m + t < k < |p| && 0 <= k < |r| && IsSeparator(r[k]);
      assert false;
    }
  }

  /** The left-to-right reading and the pairwise statement of "one point per number" agree. */
  lemma {:induction false} OnePointPerNumberMeaning(e: string)
    ensures OnePointPerNumber(e) <==> SingleDotPerSegment(e)
    decreases |e|
  {
    if e != [] {
      var p, c := e[..|e| - 1], e[|e| - 1];
      assert e == p + [c];
      OnePointPerNumberMeaning(p);
      if OnePointPerNumber(e) {
        SnocKeepsSingleDot(p, c);
      }
      if SingleDotPerSegment(e) {
        SnocRevealsSingleDot(p, c);
      }
    }
  }

  /** A character added at the end keeps one point per number, unless it is a second point of the last number. */
  lemma SnocKeepsOnePoint(p: string, c: char)
    requires OnePointPerNumber(p) && (c == '.' ==> !NumberHasPoint(p))
    ensures OnePointPerNumber(p + [c])
  {
    assert (p + [c])[..|p|] == p;
  }

  /** Whatever value is appended, no number gets a second point. */
  lemma AppendKeepsOnePoint(e: string, v: char)
    requires OnePointPerNumber(e)
    ensures OnePointPerNumber(AppendValue(e, v))
  {
    var c := Normalize(v);
    if c == '.' {
      if NumberHasPoint(e) {
      } else if e == [] {
        SnocKeepsOnePoint([], '0');
        assert !NumberHasPoint("0") by {
          assert "0"[..0] == [];
        }
        SnocKeepsOnePoint("0", '.');
        assert AppendValue(e, v) == "0" + ['.'];
      } else {
        SnocKeepsOnePoint(e, '.');
      }
    } else if IsOperator(c) && e == [] && c != '-' {
    } else if IsOperator(c) && EndsWithOperator(e) {
      if c == '-' && e[|e| - 1] != '-' {
        SnocKeepsOnePoint(e, '-');
      } else {
        assert OnePointPerNumber(e[..|e| - 1]);
        SnocKeepsOnePoint(e[..|e| - 1], c);
      }
    } else {
      SnocKeepsOnePoint(e, c);
    }
  }

  /** Whatever value is appended, no minus ends up directly after a minus. */
  lemma AppendKeepsNoDoubleMinus(e: string, v: char)
    requires NoDoubleMinus(e)
    ensures NoDoubleMinus(AppendValue(e, v))
  {
    var c := Normalize(v);
    var r := AppendValue(e, v);
    if IsOperator(c) && EndsWithOperator(e) && !(c == '-' && e[|e| - 1] != '-') {
      assert r == e[..|e| - 1] + [c];
      assert c == '-' ==> r == e;
    }
  }

  /** Appending a keyboard key or a glyph keeps the buffer within the keyboard alphabet. */
  lemma AppendKeepsOnlyKeys(e: string, v: char)
    requires OnlyKeys(e) && (IsKey(v) || IsGlyph(v))
    ensures OnlyKeys(AppendValue(e, v))
  {
    var c := Normalize(v);
    var r := AppendValue(e, v);
    if IsOperator(c) && EndsWithOperator(e) && !(c == '-' && e[|e| - 1] != '-') {
      assert r == e[..|e| - 1] + [c];
    }
  }

  /** One event keeps one point per number and never puts a minus after a minus. */
  lemma StepKeepsInvariants(e: string, input: Input)
    requires OnePointPerNumber(e) && NoDoubleMinus(e)
    ensures OnePointPerNumber(Step(e, input)) && NoDoubleMinus(Step(e, input))
  {
    match input
    case Press(v) =>
      AppendKeepsOnePoint(e, v);
      AppendKeepsNoDoubleMinus(e, v);
    case Back =>
    case ClearAll =>
  }

  /**
    Along any sequence of presses (of any value), backspaces and clears
    from any buffer that satisfies them, no number gets a second point and
    no minus follows a minus.
   */
  lemma {:induction false} RunFromKeepsInvariants(e: string, inputs: seq<Input>)
    requires OnePointPerNumber(e) && NoDoubleMinus(e)
    ensures OnePointPerNumber(RunFrom(e, inputs)) && NoDoubleMinus(RunFrom(e, inputs))
    decreases |inputs|
  {
    if inputs != [] {
      StepKeepsInvariants(e, inputs[0]);
      RunFromKeepsInvariants(Step(e, inputs[0]), inputs[1..]);
    }
  }

  /** From the empty start-up buffer, both invariants hold of every buffer the events reach. */
  lemma RunKeepsInvariants(inputs: seq<Input>)
    ensures SingleDotPerSegment(Run(inputs)) && NoDoubleMinus(Run(inputs))
  {
    RunFromKeepsInvariants([], inputs);
    OnePointPerNumberMeaning(Run(inputs));
  }

  /** Keyboard keys and glyphs, backspaces and clears never put a non-keyboard character in the buffer. */
  lemma {:induction false} RunFromKeepsOnlyKeys(e: string, inputs: seq<Input>)
    requires OnlyKeys(e) && KeyboardInputs(inputs)
    ensures OnlyKeys(RunFrom(e, inputs))
    decreases |inputs|
  {
    if inputs != [] {
      var e' := Step(e, inputs[0]);
      if inputs[0].Press? {
        AppendKeepsOnlyKeys(e, inputs[0].key);
      }
      assert KeyboardInputs(inputs[1..]) by {
        forall i | 0 <= i < |inputs[1..]| && inputs[1..][i].Press?
          ensures IsKey(inputs[1..][i].key) || IsGlyph(inputs[1..][i].key)
        {
          assert inputs[1..][i] == inputs[i + 1];
        }
      }
      RunFromKeepsOnlyKeys(e', inputs[1..]);
    }
  }

  /**
    A non-empty buffer built from keyboard keys and glyphs passes the
    validation pattern, so evaluating it never reports "Entrada inválida".
   */
  lemma KeyboardBufferPassesValidation(inputs: seq<Input>, engine: string -> Completion)
    requires KeyboardInputs(inputs)
    ensures OnlyKeys(Run(inputs))
    ensures Run(inputs) != [] ==> MatchesPattern(Run(inputs))
    ensures Evaluation(Run(inputs), engine) != Rejected(InvalidInput)
  {
    RunFromKeepsOnlyKeys([], inputs);
    if Run(inputs) != [] {
      KeysMatchPattern(Run(inputs));
    }
  }

  /** Pressing only digits builds exactly the digits pressed. */
  lemma {:induction false} DigitsAreConcatenated(e: string, digits: string)
    requires forall i :: 0 <= i < |digits| ==> '0' <= digits[i] <= '9'
    ensures RunFrom(e, Presses(digits)) == e + digits
    decreases |digits|
  {
    if digits != [] {
      var d := digits[0];
      RunFromCons(e, Press(d), Presses(digits[1..]));
      PressAppends(e, d);
      DigitsAreConcatenated(e + [d], digits[1..]);
      assert (e + [d]) + digits[1..] == e + digits;
    }
  }

  /** A press that adds its (normalised) character at the end. */
  lemma PressAppends(e: string, v: char)
    requires var c := Normalize(v);
      || (c != '.' && !IsOperator(c))
      || (c == '-' && e == [])
      || (IsOperator(c) && e != [] && !EndsWithOperator(e))
      || (c == '-' && EndsWithOperator(e) && e[|e| - 1] != '-')
    ensures Step(e, Press(v)) == e + [Normalize(v)]
  {
  }

  /** A press of an operator that replaces the operator at the end. */
  lemma PressReplaces(e: string, v: char)
    requires IsOperator(Normalize(v)) && EndsWithOperator(e)
    requires Normalize(v) != '-' || e[|e| - 1] == '-'
    ensures Step(e, Press(v)) == e[..|e| - 1] + [Normalize(v)]
  {
  }

  /** Running a sequence that starts with `input` is running the rest from the buffer `input` leaves. */
  lemma RunFromCons(e: string, input: Input, rest: seq<Input>)
    ensures RunFrom(e, [input] + rest) == RunFrom(Step(e, input), rest)
  {
    assert ([input] + rest)[1..] == rest;
  }

  /**
    Once the number being typed has a point, typing a digit and then a point
    adds only the digit: `1.` then `2 .` gives `1.2`.
   */
  lemma SecondPointOfNumberIgnored(e: string, d: char)
    requires NumberHasPoint(e) && '0' <= d <= '9'
    ensures RunFrom(e, [Press(d), Press('.')]) == e + [d]
  {
    var e1 := e + [d];
    assert NumberHasPoint(e1) by {
      assert e1[..|e|] == e;
    }
    calc {
      RunFrom(e, [Press(d), Press('.')]);
      { RunFromCons(e, Press(d), [Press('.')]); PressAppends(e, d); }
      RunFrom(e1, [Press('.')]);
      { RunFromCons(e1, Press('.'), []); }
      RunFrom(e1, []);
    }
  }

  /**
    Operators can follow operators without bound: after a buffer that ends
    in an operand, `+ - + -` adds `++-`, three operators in a row, in which
    a plus follows an operator.
   */
  lemma OperatorsCanPileUp(e: string)
    requires e != [] && !EndsWithOperator(e)
    ensures RunFrom(e, [Press('+'), Press('-'), Press('+'), Press('-')]) == e + "++-"
  {
    var e1, e2, e3 := e + "+", e + "+-", e + "++";
    calc {
      RunFrom(e, [Press('+'), Press('-'), Press('+'), Press('-')]);
      { RunFromCons(e, Press('+'), [Press('-'), Press('+'), Press('-')]); PressAppends(e, '+'); }
      RunFrom(e1, [Press('-'), Press('+'), Press('-')]);
      { RunFromCons(e1, Press('-'), [Press('+'), Press('-')]); PressAppends(e1, '-'); }
      RunFrom(e2, [Press('+'), Press('-')]);
      { RunFromCons(e2, Press('+'), [Press('-')]); PressReplaces(e2, '+'); assert e2[..|e2| - 1] + "+" == e3; }
      RunFrom(e3, [Press('-')]);
      { RunFromCons(e3, Press('-'), []); PressAppends(e3, '-'); }
      RunFrom(e + "++-", []);
    }
  }

  /**
    The comment above `appendValue` speaks of avoiding double operators such
    as `+*`, yet after an operand any operator other than a minus, then a
    minus, then any operator leaves two operators: `3 + - *` gives `3+*`.
   */
  lemma OperatorPairReachable(e: string, o: char, v: char)
    requires e != [] && !EndsWithOperator(e)
    requires IsOperator(o) && o != '-' && IsOperator(v)
    ensures RunFrom(e, [Press(o), Press('-'), Press(v)]) == e + [o, v]
  {
    var e1, e2 := e + [o], e + [o, '-'];
    calc {
      RunFrom(e, [Press(o), Press('-'), Press(v)]);
      { RunFromCons(e, Press(o), [Press('-'), Press(v)]); PressAppends(e, o); }
      RunFrom(e1, [Press('-'), Press(v)]);
      { RunFromCons(e1, Press('-'), [Press(v)]); PressAppends(e1, '-'); assert e1 + "-" == e2; }
      RunFrom(e2, [Press(v)]);
      { RunFromCons(e2, Press(v), []); PressReplaces(e2, v); assert e2[..|e2| - 1] + [v] == e + [o, v]; }
      RunFrom(e + [o, v], []);
    }
  }

  /** `- v` gives `v` for any operator `v`: the buffer can start with `+`, `*` or `/`. */
  lemma LeadingOperatorReachable(v: char)
    requires IsOperator(v)
    ensures Run([Press('-'), Press(v)]) == [v]
  {
    calc {
      Run([Press('-'), Press(v)]);
      { RunFromCons([], Press('-'), [Press(v)]); PressAppends([], '-'); }
      RunFrom("-", [Press(v)]);
      { RunFromCons("-", Press(v), []); PressReplaces("-", v); }
      RunFrom([v], []);
    }
  }

  /** Backspace undoes every press that added exactly one character. */
  lemma BackspaceUndoesAppend(e: string, v: char)
    requires |AppendValue(e, v)| == |e| + 1
    ensures Backspaced(AppendValue(e, v)) == e
  {
  }
}
