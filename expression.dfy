/**
  The pure rules behind the calculator's expression buffer: which characters
  are operators, where the number being typed starts, how a pressed key
  changes the buffer, what the display shows, and how evaluation treats the
  buffer before and after handing it to the JavaScript engine.
 */
module Expression {

  /** The keys the keyboard handler forwards to the buffer (the digits and `+ - * / ( ) .`). */
  predicate IsKey(c: char) {
    ('0' <= c <= '9') || IsSeparator(c) || c == '.'
  }

  /** The display glyphs for multiplication, division and minus that buttons may send. */
  predicate IsGlyph(c: char) {
    c == '\U{D7}' || c == '\U{F7}' || c == '\U{2212}'
  }

  /** The four binary operators; `isOperator`. */
  predicate IsOperator(c: char) {
    c == '+' || c == '-' || c == '*' || c == '/'
  }

  /** The characters the last-number split cuts at: the operators and the parentheses. */
  predicate IsSeparator(c: char) {
    IsOperator(c) || c == '(' || c == ')'
  }

  /** True when the buffer is non-empty and its last character is an operator. */
  predicate EndsWithOperator(e: string) {
    |e| > 0 && IsOperator(e[|e| - 1])
  }

  /** Maps the multiplication, division and minus glyphs to `*`, `/` and `-`. */
  function Normalize(v: char): (c: char)
    ensures IsGlyph(v) ==> IsOperator(c)
    ensures !IsGlyph(v) ==> c == v
    ensures c == '*' <==> v == '*' || v == '\U{D7}'
    ensures c == '/' <==> v == '/' || v == '\U{F7}'
    ensures c == '-' <==> v == '-' || v == '\U{2212}'
  {
    if v == '\U{D7}' then '*'
    else if v == '\U{F7}' then '/'
    else if v == '\U{2212}' then '-'
    else v
  }

  /**
    Where the last number segment starts: the segment is what follows the
    last separator, or the whole buffer when there is none.
   */
  function SegmentStart(e: string): (m: nat)
    ensures m <= |e|
    ensures forall k :: m <= k < |e| ==> !IsSeparator(e[k])
    ensures m > 0 ==> IsSeparator(e[m - 1])
  {
    if e == [] then 0
    else if IsSeparator(e[|e| - 1]) then |e|
    else SegmentStart(e[..|e| - 1])
  }

  /** The last element of splitting the buffer at `+ - * / ( )`. */
  function LastSegment(e: string): string
  {
    e[SegmentStart(e)..]
  }

  /** Whether the last number segment already holds a point (`lastNum.includes('.')`). */
  function NumberHasPoint(e: string): (b: bool)
    ensures b <==> '.' in LastSegment(e)
  {
    if e == [] then false
    else if e[|e| - 1] == '.' then true
    else if IsSeparator(e[|e| - 1]) then false
    else NumberHasPoint(e[..|e| - 1])
  }

  /** The two cases in which appending returns before touching the buffer or the display. */
  predicate AppendIgnored(e: string, v: char) {
    var c := Normalize(v);
    (c == '.' && NumberHasPoint(e)) || (IsOperator(c) && e == [] && c != '-')
  }

  /** The buffer after `appendValue(v)` on buffer `e`. */
  function AppendValue(e: string, v: char): (r: string)
    ensures AppendIgnored(e, v) ==> r == e
    // a point: refused inside a number that has one, `0.` on an empty buffer,
    // otherwise the point alone
    ensures Normalize(v) == '.' && !NumberHasPoint(e) ==>
              r == (if e == [] then "0." else e + ".")
    // an operator on an empty buffer: only a minus gets in
    ensures IsOperator(Normalize(v)) && e == [] ==> r == (if Normalize(v) == '-' then "-" else "")
    // an operator after an operator: a minus is added after any other operator,
    // otherwise the last operator is replaced
    ensures IsOperator(Normalize(v)) && EndsWithOperator(e) ==>
              if Normalize(v) == '-' && e[|e| - 1] != '-' then r == e + "-"
              else |r| == |e| && r[..|e| - 1] == e[..|e| - 1] && r[|e| - 1] == Normalize(v)
    // an operator after a non-operator, and every other character, is appended
    ensures IsOperator(Normalize(v)) && e != [] && !EndsWithOperator(e) ==> r == e + [Normalize(v)]
    ensures Normalize(v) != '.' && !IsOperator(Normalize(v)) ==> r == e + [v]
  {
    var c := Normalize(v);
    if c == '.' then
      if NumberHasPoint(e) then e
      else if e == [] then "0."
      else e + "."
    else if IsOperator(c) && e == [] && c != '-' then e
    else if IsOperator(c) && EndsWithOperator(e) then
      if c == '-' && e[|e| - 1] != '-' then e + "-"
      else e[..|e| - 1] + [c]
    else e + [c]
  }

  /** Appending never shortens the buffer, changes at most its last character and adds at most two. */
  lemma AppendTouchesOnlyTheEnd(e: string, v: char)
    ensures var r := AppendValue(e, v);
      && |e| <= |r| <= |e| + 2
      && (|e| > 0 ==> e[..|e| - 1] <= r)
  {
  }

  /** The buffer after `backspace()`: the last character goes, an empty buffer stays empty. */
  function Backspaced(e: string): (r: string)
    ensures e == [] ==> r == []
    ensures e != [] ==> r + [e[|e| - 1]] == e
  {
    if e == [] then [] else e[..|e| - 1]
  }

  /** The text `updateDisplay` puts on the display: the buffer, or "0" for an empty one. */
  function DisplayText(e: string): (r: string)
    ensures r != []
    ensures r == e <==> e != []
    ensures e == [] ==> r == "0"
  {
    if e == [] then "0" else e
  }

  /** The characters JavaScript's `\s` class matches. */
  predicate IsJsWhitespace(c: char) {
    ('\U{9}' <= c <= '\U{D}') || c == ' ' || c == '\U{A0}' || c == '\U{1680}'
    || ('\U{2000}' <= c <= '\U{200A}') || c == '\U{2028}' || c == '\U{2029}'
    || c == '\U{202F}' || c == '\U{205F}' || c == '\U{3000}' || c == '\U{FEFF}'
  }

  /** One character of the validation pattern's class of digits, operators, parentheses, point and whitespace. */
  predicate IsPatternChar(c: char) {
    ('0' <= c <= '9') || IsSeparator(c) || c == '.' || IsJsWhitespace(c)
  }

  /** The anchored validation pattern: one or more characters, each of that class. */
  predicate MatchesPattern(e: string) {
    |e| >= 1 && forall i :: 0 <= i < |e| ==> IsPatternChar(e[i])
  }

  /** A non-empty string of keyboard keys passes the validation pattern. */
  lemma KeysMatchPattern(e: string)
    requires e != [] && forall i :: 0 <= i < |e| ==> IsKey(e[i])
    ensures MatchesPattern(e)
  {
  }

  /** The error messages `showError` shows. */
  const InvalidInput: string := "Entrada inv\U{E1}lida"
  const InvalidResult: string := "Resultado no v\U{E1}lido"
  const CalculationError: string := "Error de c\U{E1}lculo"

  /**
    What the JavaScript engine does with `"use strict"; return (<buffer>)`:
    it throws, returns something that is not a finite number, or returns a
    finite number, of which only the text that `String` gives for the
    rounded value is kept.
   */
  datatype Completion = Threw | NotFinite | Finite(text: string)

  /** What `evaluateExpression` does: nothing, replace the buffer, or show an error. */
  datatype EvalOutcome = Ignored | Replaced(text: string) | Rejected(message: string)

  /** The outcome of `evaluateExpression` on buffer `e`, with `engine` as the evaluator. */
  function Evaluation(e: string, engine: string -> Completion): (r: EvalOutcome)
    ensures r == Ignored <==> e == []
    ensures e != [] && !MatchesPattern(e) ==> r == Rejected(InvalidInput)
    ensures r.Rejected? ==> r.message in {InvalidInput, InvalidResult, CalculationError}
    ensures r.Rejected? && r.message != InvalidInput ==> MatchesPattern(e)
    ensures r == Rejected(CalculationError) <==> MatchesPattern(e) && engine(e) == Threw
    ensures r == Rejected(InvalidResult) <==> MatchesPattern(e) && engine(e) == NotFinite
    ensures r.Replaced? <==> MatchesPattern(e) && engine(e).Finite?
    ensures r.Replaced? ==> engine(e) == Finite(r.text)
  {
    if e == [] then Ignored
    else if !MatchesPattern(e) then Rejected(InvalidInput)
    else match engine(e)
      case Threw => Rejected(CalculationError)
      case NotFinite => Rejected(InvalidResult)
      case Finite(text) => Replaced(text)
  }

  /** The buffer after `evaluateExpression`: only a finite result replaces it. */
  function Evaluated(e: string, engine: string -> Completion): (r: string)
    ensures r != e ==> MatchesPattern(e) && engine(e) == Finite(r)
    ensures MatchesPattern(e) && engine(e).Finite? ==> r == engine(e).text
    ensures !MatchesPattern(e) || !engine(e).Finite? ==> r == e
  {
    match Evaluation(e, engine)
    case Replaced(text) => text
    case _ => e
  }
}
