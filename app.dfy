/**
 * The calculator screen's state and its five button handlers. The expression and
 * the last result are two fields that the handlers update in place; each handler
 * runs to completion before the next key is taken.
 */
module App {

  import opened Options
  import opened Scanning
  import opened InputRules
  import opened Evaluation

  class Calculator {
    /** The expression being typed. */
    var input: string
    /** The text of the last `=`, or empty before any. */
    var result: string

    /** The shape every expression reachable from the start keeps. */
    ghost predicate Valid()
      reads this
    {
      WellFormed(input)
    }

    /** The screen starts with both texts empty. */
    constructor ()
      ensures input == [] && result == []
      ensures Valid()
    {
      input := [];
      result := [];
    }

    /** A digit, `.`, `%` or operator key. */
    method HandleButtonPress(key: char)
      modifies this
      ensures input == PressKey(old(input), key)
      ensures result == old(result)
      ensures old(Valid()) ==> Valid()
    {
      ghost var pressed := PressKey(input, key);
      assert Valid() ==> WellFormed(pressed) by {
        if Valid() {
          PressKeepsWellFormed(input, key);
        }
      }
      if IsOperator(key) && input == [] {
        return;
      }
      if IsOperator(key) && EndsWithOperator(input) {
        input := input[..|input| - 1] + [key];
        return;
      }
      if key == '.' {
        var lastNumber := LastNumber(input);
        if '.' in lastNumber {
          return;
        }
      }
      if key == '%' && |input| > 0 && input[|input| - 1] == '%' {
        return;
      }
      input := input + [key];
    }

    /** `C`: both texts emptied. */
    method HandleClearPress()
      modifies this
      ensures input == [] && result == []
      ensures Valid()
    {
      input := [];
      result := [];
    }

    /** `⌫`: the last character of the expression removed, if there is one. */
    method HandleBackspace()
      modifies this
      ensures input == DropLast(old(input))
      ensures result == old(result)
      ensures old(Valid()) ==> Valid()
    {
      ghost var dropped := DropLast(input);
      assert Valid() ==> WellFormed(dropped) by {
        if Valid() {
          BackspaceKeepsWellFormed(input);
        }
      }
      if input != [] {
        input := input[..|input| - 1];
      }
    }

    /**
     * `=`: the result set from the expression, which stays as it is. `eval` stands
     * for the evaluator and its number formatting; `None` is a thrown exception.
     */
    method HandleEqualPress(eval: string -> Option<string>)
      modifies this
      ensures input == old(input)
      ensures result == EqualResult(input, eval)
      ensures old(Valid()) ==> Valid()
    {
      if HasZeroDivisor(input) {
        result := ERROR_TEXT;
        return;
      }
      var sanitizedInput := Sanitize(input);
      var finalInput := RewritePercent(sanitizedInput);
      match eval(finalInput)
      case None =>
        result := ERROR_TEXT;
      case Some(evaluatedResult) =>
        result := evaluatedResult;
    }

    /** `π`: its digits appended at the start or after an operator. */
    method HandlePiPress()
      modifies this
      ensures input == AppendPi(old(input))
      ensures result == old(result)
      ensures old(Valid()) ==> Valid()
    {
      ghost var appended := AppendPi(input);
      assert Valid() ==> WellFormed(appended) by {
        if Valid() {
          AppendPiKeepsWellFormed(input);
        }
      }
      if input == [] || EndsWithOperator(input) {
        input := input + PI_TEXT;
      }
    }

    /** The expression line: the expression, or "0" while it is empty. */
    function InputLine(): (line: string)
      reads this
      ensures line != []
      ensures input != [] ==> line == input
      ensures input == [] ==> line == "0"
    {
      if input == [] then "0" else input
    }

    /** The result line: "= " and the result, shown only when there is a result. */
    function ResultLine(): (line: Option<string>)
      reads this
      ensures line.Some? <==> result != []
      ensures line.Some? ==> line.value == "= " + result
    {
      if result == [] then None else Some("= " + result)
    }
  }
}
