/** What `doOperation` and `evaluateSimpleExpression` (utils.js:109-199)
    compute on the simplest complete input: two numbers, as number-to-string
    writes them, around one operator with a space on each side. The result
    is the operator applied to the two values, written back as text. */
module SingleOperation {
  import opened Chars
  import opened Numbers
  import opened Results
  import opened Arithmetic
  import opened Operations

  /** `a op b` with one space on each side of the operator. */
  function Binary(a: string, op: char, b: string): (s: string)
    ensures |s| == |a| + |b| + 3
    ensures s[..|a|] == a && s[|a|] == ' ' && s[|a| + 1] == op && s[|a| + 2] == ' '
    ensures s[|a| + 3..] == b
  {
    a + " " + [op] + " " + b
  }

  /** A computed number as the text the evaluator puts in its place. */
  function ShowResult(r: Result<real>): Result<string> {
    match r
    case Ok(v) => Ok(Show(v))
    case Err(e) => Err(e)
  }

  /** A signed decimal starts with a digit or a minus sign and goes on with
      digits and dots only. */
  lemma SignedDecimalChars(t: string)
    requires IsSignedDecimal(t)
    ensures |t| >= 1 && (IsDigit(t[0]) || t[0] == '-')
    ensures t[0] == '-' ==> IsDecimal(t[1..])
    ensures t[0] != '-' ==> IsDecimal(t)
    ensures forall k :: 1 <= k < |t| ==> IsDigit(t[k]) || t[k] == '.'
  {
    if t[0] == '-' {
      assert forall k :: 1 <= k < |t| ==> t[k] == t[1..][k - 1];
    }
  }

  /** A signed decimal that ends the text is the greedy third group. */
  lemma SecondEndSigned(s: string, q: nat)
    requires q < |s| && IsSignedDecimal(s[q..])
    ensures SecondOperandEnd(s, q) == Some(|s|)
  {
    var t := s[q..];
    SignedDecimalChars(t);
    assert t[0] == s[q];
    if s[q] == '-' {
      assert t[1..] == s[q + 1..|s|];
      DecimalLenExact(s, q + 1, |s|);
    } else {
      assert t == s[q..|s|];
      DecimalLenExact(s, q, |s|);
    }
  }

  /** A signed decimal followed by a space at the start of the text is the
      first group the scanner reads there. */
  lemma FirstEndSigned(s: string, e: nat)
    requires e < |s| && IsSignedDecimal(s[..e]) && s[e] == ' '
    ensures FirstOperandEnd(s, 0) == Some(e)
  {
    var t := s[..e];
    SignedDecimalChars(t);
    assert t[0] == s[0];
    if s[0] == '-' {
      assert t[1..] == s[1..e];
      FirstEndNegative(s, e);
    } else {
      assert t == s[0..e];
      FirstEndDecimal(s, 0, e);
    }
  }

  /** In `a op b` the pattern matches at the very start, and the match is the
      whole text with the three parts as its groups. */
  lemma {:induction false} BinaryMatchAt(a: string, op: char, b: string, ops: string)
    requires IsSignedDecimal(a) && IsSignedDecimal(b)
    requires IsOperatorClass(ops) && op in ops
    ensures var s := Binary(a, op, b);
      MatchAt(s, 0, ops) == Some(Match(0, |a|, |a| + 1, |a| + 3, |s|))
  {
    var s := Binary(a, op, b);
    FirstEndSigned(s, |a|);
    BinaryAfterFirst(a, op, b, ops);
  }

  /** After the first number of `a op b` come the operator and the second
      number, up to the end of the text. */
  lemma BinaryAfterFirst(a: string, op: char, b: string, ops: string)
    requires |a| > 0 && IsSignedDecimal(b)
    requires IsOperatorClass(ops) && op in ops
    ensures var s := Binary(a, op, b);
      MatchAfterFirst(s, 0, |a|, ops) == Some(Match(0, |a|, |a| + 1, |a| + 3, |s|))
  {
    var s := Binary(a, op, b);
    var n := |a|;
    OperatorOfClass(op, ops);
    RunEndUnique(s, n, Spaces, n + 1);
    SignedDecimalChars(b);
    assert s[n + 3] == b[0];
    RunEndUnique(s, n + 2, Spaces, n + 3);
    SecondEndSigned(s, n + 3);
  }

  /** The leftmost match of `a op b` is that whole-text match. */
  lemma BinaryFindMatch(a: string, op: char, b: string, ops: string)
    requires IsSignedDecimal(a) && IsSignedDecimal(b)
    requires IsOperatorClass(ops) && op in ops
    ensures var s := Binary(a, op, b);
      FindMatch(s, ops) == Some(Match(0, |a|, |a| + 1, |a| + 3, |s|))
  {
    BinaryMatchAt(a, op, b, ops);
    var s := Binary(a, op, b);
    assert Candidates(s, ops)[0] == MatchAt(s, 0, ops);
  }

  /** One replacement step on `a op b`: the whole text becomes what
      `calc` makes of the two numbers, or the step fails with its error. */
  lemma {:induction false} BinaryStepText(a: string, op: char, b: string, ops: string)
    requires IsSignedDecimal(a) && IsSignedDecimal(b)
    requires IsOperatorClass(ops) && op in ops
    ensures Step(Binary(a, op, b), ops) == ShowResult(Calc(a, op, b))
  {
    var s := Binary(a, op, b);
    BinaryFindMatch(a, op, b, ops);
    var m := Match(0, |a|, |a| + 1, |a| + 3, |s|);
    assert s[m.start..m.firstEnd] == a;
    assert s[m.secondStart..m.end] == b;
    OperatorOfClass(op, ops);
    StartsWithNumber(a);
    MatchAtSound(s, 0, ops);
    StepBinaryMatch(s, ops, m, a, op, b);
  }

  /** One replacement step on `a op b`, for integers shown as text: the
      whole text becomes the shown result, or the step fails with the
      operation's error. */
  lemma BinaryStep(x: int, op: char, y: int, ops: string)
    requires IsOperatorClass(ops) && op in ops
    ensures var s := Binary(Show(x as real), op, Show(y as real));
      Step(s, ops) == ShowResult(Apply(x as real, op, y as real))
  {
    OperatorOfClass(op, ops);
    BinaryStepText(Show(x as real), op, Show(y as real), ops);
    CalcShownIntegers(x, op, y);
  }

  /** Replacing a match that covers the whole text by `getResult` of its
      groups leaves only that result. */
  lemma StepBinaryMatch(s: string, ops: string, m: Match, a: string, op: char, b: string)
    requires IsOperatorClass(ops) && FindMatch(s, ops) == Some(m) && IsMatch(s, ops, m)
    requires m.start == 0 && m.end == |s|
    requires s[m.start..m.firstEnd] == a && s[m.opAt] == op && s[m.secondStart..m.end] == b
    requires IsOperator(op) && IsOperandNumber(a) && StartsNumber(a)
    ensures Step(s, ops) == ShowResult(Calc(a, op, b))
  {
    WholeOperandResult(a, op, b);
    var res := GetResult(a, op, b);
    if res.Ok? {
      assert Splice(s, 0, |s|, res.value) == res.value;
    }
  }

  /** A first operand that is a number with no text before it is reduced
      to the bare number-to-string of its result. */
  lemma WholeOperandResult(a: string, op: char, b: string)
    requires IsOperator(op) && IsOperandNumber(a) && StartsNumber(a)
    ensures IsFirstOperand(a) && GetResult(a, op, b) == ShowResult(Calc(a, op, b))
  {
    FirstGroupIsOperand(a, true);
    assert SplitOperand(a) == ("", a);
    match Calc(a, op, b)
    case Err(e) =>
    case Ok(v) =>
      assert GetResult(a, op, b) == Ok("" + Show(v));
  }

  /** A pattern match always has its operator somewhere after the first
      character. */
  lemma MatchOperatorLate(s: string, ops: string)
    requires IsOperatorClass(ops)
    ensures FindMatch(s, ops).Some? ==>
      var m := FindMatch(s, ops).value;
      1 <= m.opAt < |s| && IsOperator(s[m.opAt])
  {
    if FindMatch(s, ops).Some? {
      var m := FindMatch(s, ops).value;
      MatchAtSound(s, m.start, ops);
      OperatorOfClass(s[m.opAt], ops);
    }
  }

  /** A step that leaves a signed decimal ends `doOperation`: its only
      possible operator character is its own minus sign, which the count of
      negative numbers accounts for. */
  lemma {:induction false} DoOperationToNumber(s: string, ops: string, fuel: nat, t: string)
    requires IsOperatorClass(ops) && fuel > 0
    requires Step(s, ops) == Ok(t) && IsSignedDecimal(t)
    ensures DoOperation(s, ops, fuel) == Ok(t)
  {
    SignedDecimalChars(t);
    OperatorCharsOfSigned(t, ops);
    if t[0] == '-' && '-' in ops {
      NegativeSettled(t);
      DoOperationStopsNegative(s, ops, fuel, t);
    } else {
      DoOperationStopsClean(s, ops, fuel, t);
    }
  }

  /** `doOperation` returns what a step leaves when no operator character is left. */
  lemma DoOperationStopsClean(s: string, ops: string, fuel: nat, t: string)
    requires IsOperatorClass(ops) && fuel > 0
    requires Step(s, ops) == Ok(t) && Count(t, ops) == 0
    ensures DoOperation(s, ops, fuel) == Ok(t)
  {
  }

  /** `doOperation` returns what a step leaves when every operator character
      left is the sign of a negative number and there is no double negative. */
  lemma DoOperationStopsNegative(s: string, ops: string, fuel: nat, t: string)
    requires IsOperatorClass(ops) && fuel > 0 && '-' in ops
    requires Step(s, ops) == Ok(t) && Count(t, ops) > 0
    requires DoubleNeg(t) == t && NegCount(t) == Count(t, ops)
    ensures DoOperation(s, ops, fuel) == Ok(t)
  {
  }

  /** The operator characters of a signed decimal: its minus sign, if it has
      one and the class holds it. */
  lemma OperatorCharsOfSigned(t: string, ops: string)
    requires IsOperatorClass(ops) && IsSignedDecimal(t)
    ensures Count(t, ops) == (if t[0] == '-' && '-' in ops then 1 else 0)
  {
    SignedDecimalChars(t);
    forall k | 1 <= k < |t| ensures t[k] !in ops {
      if t[k] in ops {
        OperatorOfClass(t[k], ops);
      }
    }
    assert CountFrom(t, ops, 1) == 0;
    if t[0] in ops {
      OperatorOfClass(t[0], ops);
    }
  }

  /** A negative decimal is no double negative and counts as one negative
      number. */
  lemma NegativeSettled(t: string)
    requires IsNegativeDecimal(t)
    ensures DoubleNeg(t) == t
    ensures NegCount(t) == 1
  {
    assert t[1..][0] == t[1];
    RunEndUnique(t, 1, Spaces, 1);
    assert !IsDoubleNegative(t);
    DecimalLenExact(t, 1, |t|);
    assert NegAt(t, 0) == Some(|t|);
  }

  /** `doOperation` leaves a lone signed decimal as it is. */
  lemma DoOperationOfNumber(t: string, ops: string, fuel: nat)
    requires IsOperatorClass(ops) && fuel > 0 && IsSignedDecimal(t)
    ensures DoOperation(t, ops, fuel) == Ok(t)
  {
    MatchOperatorLate(t, ops);
    SignedDecimalChars(t);
    DoOperationToNumber(t, ops, fuel, t);
  }

  /** `doOperation` on two integers around one operator of its class
      computes the operation and writes the result as number-to-string does. */
  lemma {:induction false} DoOperationBinary(x: int, op: char, y: int, ops: string, fuel: nat)
    requires IsOperatorClass(ops) && op in ops && fuel > 0
    ensures var s := Binary(Show(x as real), op, Show(y as real));
      DoOperation(s, ops, fuel) == ShowResult(Apply(x as real, op, y as real))
  {
    var s := Binary(Show(x as real), op, Show(y as real));
    BinaryStep(x, op, y, ops);
    match Apply(x as real, op, y as real)
    case Err(e) =>
    case Ok(v) =>
      DoOperationToNumber(s, ops, fuel, Show(v));
  }

  /** A text made of two shown numbers and one operator holds no operator
      of another class. */
  lemma BinaryOtherClass(a: string, op: char, b: string, ops: string)
    requires forall k :: 0 <= k < |a| ==> IsNumeralChar(a[k])
    requires forall k :: 0 <= k < |b| ==> IsNumeralChar(b[k])
    requires op !in ops && '-' !in ops && '.' !in ops && ' ' !in ops
    requires forall c :: c in ops ==> !IsDigit(c)
    ensures Count(Binary(a, op, b), ops) == 0
  {
    var s := Binary(a, op, b);
    forall k | 0 <= k < |s| ensures s[k] !in ops {
      if k < |a| {
        assert s[k] == a[k];
      } else if k >= |a| + 3 {
        assert s[k] == b[k - |a| - 3];
      }
    }
  }

  /** `evaluateSimpleExpression` on two integers around one operator: the
      value of the operation, whichever of the two classes the operator is in. */
  lemma {:induction false} EvaluateSimpleBinary(x: int, op: char, y: int)
    requires IsOperator(op)
    ensures var s := Binary(Show(x as real), op, Show(y as real));
      EvaluateSimpleExpression(s) == ShowResult(Apply(x as real, op, y as real))
  {
    OperatorClassesValid();
    var s := Binary(Show(x as real), op, Show(y as real));
    if op == '*' || op == '/' {
      DoOperationBinary(x, op, y, Products, StackLimit);
      match Apply(x as real, op, y as real)
      case Err(e) =>
        EvaluateSimpleFails(s, e);
      case Ok(v) =>
        DoOperationOfNumber(Show(v), Sums, StackLimit);
        EvaluateSimplePasses(s, Show(v));
    } else {
      BinaryOtherClass(Show(x as real), op, Show(y as real), Products);
      DoOperationBinary(x, op, y, Sums, StackLimit);
      EvaluateSimplePasses(s, s);
    }
  }

  /** `evaluateSimpleExpression` is the additive pass over what the
      multiplicative pass leaves. */
  lemma EvaluateSimplePasses(s: string, t: string)
    requires IsOperatorClass(Products) && IsOperatorClass(Sums)
    requires DoOperation(s, Products, StackLimit) == Ok(t)
    ensures EvaluateSimpleExpression(s) == DoOperation(t, Sums, StackLimit)
  {
  }

  /** An error of the multiplicative pass is the error of the whole. */
  lemma EvaluateSimpleFails(s: string, e: Error)
    requires IsOperatorClass(Products)
    requires DoOperation(s, Products, StackLimit) == Err(e)
    ensures EvaluateSimpleExpression(s) == Err(e)
  {
  }

  // The double negative `--6` (utils.js:145-159).

  /** `--6` holds no `a op b`: its minus signs are signs, not operators. */
  lemma DoubleMinusNoMatch()
    ensures FindMatch("--6", Sums).None?
  {
    OperatorClassesValid();
    assert MatchAt("--6", 0, Sums).None?;
    assert MatchAt("--6", 1, Sums).None?;
    assert MatchAt("--6", 2, Sums).None?;
  }

  lemma DoubleMinusCollapses()
    ensures DoubleNeg("--6") == "6" && Count("6", Sums) == 0
  {
    assert IsNumber("6");
  }

  /** The additive pass finds nothing to compute in `--6`, collapses the
      double negative to `6` and stops on the next round. */
  lemma DoubleMinusOperation(fuel: nat)
    requires fuel >= 2
    ensures DoOperation("--6", Sums, fuel) == Ok("6")
  {
    OperatorClassesValid();
    DoubleMinusNoMatch();
    DoubleMinusCollapses();
    assert Step("--6", Sums) == Ok("--6");
    assert Count("--6", Sums) == 2;
  }

  /** `--6` evaluates to `6`: the unary minus applied twice. */
  lemma DoubleMinusExample()
    ensures EvaluateSimpleExpression("--6") == Ok("6")
  {
    OperatorClassesValid();
    assert Count("--6", Products) == 0;
    DoubleMinusOperation(StackLimit);
  }
}
