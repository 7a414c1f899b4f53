/**
  The calculator's state as the page keeps it: the module-level `expression`
  string and the text of the display it renders into. Each method is one
  event handler's effect on that state.
 */
module Calculator {
  import opened Expression

  class ExpressionEngine {
    /** The expression being built; starts empty. */
    var expression: string
    /** What the display element currently shows. */
    var display: string

    /** The page's start-up: an empty expression, rendered once. */
    constructor ()
      ensures expression == [] && display == "0"
    {
      expression := [];
      display := DisplayText([]);
    }

    /** `updateDisplay`, also what the error timer runs 900 ms after `showError`. */
    method UpdateDisplay()
      modifies this
      ensures expression == old(expression)
      ensures display == DisplayText(expression)
    {
      display := if expression == [] then "0" else expression;
    }

    /** `showError`: the message replaces the display; the buffer stays. */
    method ShowError(message: string)
      modifies this
      ensures expression == old(expression)
      ensures display == message
    {
      display := message;
    }

    /** `appendValue(v)`. */
    method Append(v: char)
      modifies this
      ensures expression == AppendValue(old(expression), v)
      ensures display == if AppendIgnored(old(expression), v) then old(display) else DisplayText(expression)
    {
      var last := if expression == [] then "" else expression[|expression| - 1..];
      var c := v;
      if c == '\U{D7}' { c := '*'; }
      if c == '\U{F7}' { c := '/'; }
      if c == '\U{2212}' { c := '-'; }

      if c == '.' {
        var lastNum := LastSegment(expression);
        if '.' in lastNum {
          return;
        }
        if last == "" {
          expression := expression + "0";
        }
        expression := expression + ".";
        UpdateDisplay();
        return;
      }

      if IsOperator(c) {
        if expression == "" && c != '-' {
          return;
        }
        if last != "" && IsOperator(last[0]) {
          if c == '-' && last != "-" {
            expression := expression + "-";
          } else {
            expression := expression[..|expression| - 1] + [c];
          }
          UpdateDisplay();
          return;
        }
      }

      expression := expression + [c];
      UpdateDisplay();
    }

    /** `clearAll`. */
    method Clear()
      modifies this
      ensures expression == [] && display == "0"
    {
      expression := "";
      UpdateDisplay();
    }

    /** `backspace`. */
    method Backspace()
      modifies this
      ensures expression == Backspaced(old(expression))
      ensures display == DisplayText(expression)
    {
      expression := if expression == [] then [] else expression[..|expression| - 1];
      UpdateDisplay();
    }

    /**
      `evaluateExpression`, with `engine` standing for the JavaScript engine
      running the buffer as a function body. The outcome names the path taken;
      on every error path the buffer is left as it was.
     */
    method Evaluate(engine: string -> Completion) returns (outcome: EvalOutcome)
      modifies this
      ensures outcome == Evaluation(old(expression), engine)
      ensures expression == Evaluated(old(expression), engine)
      ensures outcome.Rejected? ==> expression == old(expression) && display == outcome.message
      ensures outcome.Replaced? ==> display == DisplayText(expression)
      ensures outcome == Ignored ==> display == old(display) && expression == old(expression)
    {
      if expression == [] {
        return Ignored;
      }
      if !MatchesPattern(expression) {
        ShowError(InvalidInput);
        return Rejected(InvalidInput);
      }
      var result := engine(expression);
      match result {
        case Finite(text) =>
          expression := text;
          UpdateDisplay();
          outcome := Replaced(text);
        case NotFinite =>
          ShowError(InvalidResult);
          outcome := Rejected(InvalidResult);
        case Threw =>
          ShowError(CalculationError);
          outcome := Rejected(CalculationError);
      }
    }
  }
}
