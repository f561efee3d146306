/** The evaluator's error kinds and the failure-compatible result type.

    The source throws `Error`, `SyntaxError`, `TypeError` objects (and the
    engine throws `RangeError` when recursion runs too deep); here every kind
    is one constructor of a closed datatype, and `Message` renders it the way
    `err.toString()` does in the command router (utils.js, command.js:65). */
module Results {

  datatype Error =
    | NotANumber(operand: string)  // calc: an operand parses to NaN
    | DivideByZero                 // calc: divisor parses to 0
    | Mismatched                   // evaluateParens
    | InvalidVarName               // setVariable, or a letter touching a letter, digit or dot
    | InvalidChar                  // character outside ()0-9.+-*/ and space
    | InvalidNumFormat             // trailing dot or a second dot in one number
    | MissingOperator              // lone negative literal, or two operands side by side
    | InvalidOpPlacement           // operators side by side, or at an edge
    | Undefined                    // getVariable on a pair that was never set
    | NotNumber                    // setVariable with NaN or a non-number
    | StackOverflow                // the engine's RangeError: recursion never stopped
    | NoRightSide                  // evaluateEquation on a text without `=`: `parts[1]` is undefined

  /** Errors that arithmetic evaluation of a parenthesis-free expression can raise. */
  predicate IsEvaluationError(e: Error) {
    e.NotANumber? || e.DivideByZero? || e.StackOverflow?
  }

  /** Errors raised by the syntax checks that run before any arithmetic. */
  predicate IsSyntaxError(e: Error) {
    e.InvalidVarName? || e.InvalidChar? || e.InvalidNumFormat? || e.MissingOperator? || e.InvalidOpPlacement?
  }

  datatype Result<+T> = Ok(value: T) | Err(error: Error) {
    predicate IsFailure() { Err? }

    function PropagateFailure<U>(): Result<U>
      requires Err?
    {
      Err(error)
    }

    function Extract(): T
      requires Ok?
    {
      value
    }
  }

  /** `err.toString()`: the error's constructor name, a colon, and its message. */
  function Message(e: Error): string {
    match e
    case NotANumber(operand) => "Error: " + operand + " is not a number"
    case DivideByZero => "Error: Cannot divide by zero"
    case Mismatched => "SyntaxError: Mismatched parentheses"
    case InvalidVarName => "SyntaxError: Invalid variable name"
    case InvalidChar => "SyntaxError: Invalid character"
    case InvalidNumFormat => "SyntaxError: Invalid number format"
    case MissingOperator => "SyntaxError: Missing operator"
    case InvalidOpPlacement => "SyntaxError: Invalid operator placement"
    case Undefined => "Error: Variable is not defined"
    case NotNumber => "TypeError: Value is not a number"
    case StackOverflow => "RangeError: Maximum call stack size exceeded"
    case NoRightSide => "TypeError: Cannot read property 'trim' of undefined"
  }
}
