/** Worked examples of `evaluateExpression` (utils.js:349-416) on texts
    without variables: every check before and after substitution, then the
    arithmetic. Each fact about a literal has its own small lemma, because
    unfolding the checks on several literals at once is costly for the
    solver. */
module ExpressionExamples {
  import opened Chars
  import opened Numbers
  import opened Results
  import opened Variables
  import opened Validation
  import opened Operations
  import opened Parens
  import opened Evaluator
  import opened SingleOperation

  /** Without variables, substitution leaves the text as it is. */
  lemma SubstituteNoVars(s: string)
    ensures Substitute(s, map[]) == s
  {
    var none: Vars := map[];
    assert none.Keys == {};
    SubstituteNone(s, none, {});
  }

  /** A text of allowed characters holds no letter, so no variable name. */
  lemma AllowedHasNoName(s: string)
    requires AllAllowed(s)
    ensures !VarNamePattern(s)
  {
    VarNameMeans(s);
  }

  /** Without variables, a text that passes every check is computed:
      `evaluateParens`, then `evaluateSimpleExpression`. */
  lemma CheckedExpression(s: string)
    requires !IsLoneNegative(s) && CheckSyntax(s) == None
    ensures EvaluateExpression(s, map[]) == Compute(s)
  {
    AllowedHasNoName(s);
    SubstituteNoVars(s);
  }

  /** Computing is `evaluateParens`, then `evaluateSimpleExpression`. */
  lemma ComputeParts(s: string, u: string, v: string)
    requires EvaluateParens(s) == Ok(u) && EvaluateSimpleExpression(u) == Ok(v)
    ensures Compute(s) == Ok(v)
  {
  }

  /** With no parenthesis, computing is `evaluateSimpleExpression`. */
  lemma PlainCompute(s: string)
    requires '(' !in s && ')' !in s
    ensures Compute(s) == EvaluateSimpleExpression(s)
  {
  }

  /** The checks on a text, one pattern at a time: none objects. */
  lemma PassesEachCheck(s: string)
    requires AllAllowed(s) && !BadNumberFound(s) && !MissingOperatorFound(s)
    requires !AdjacentOperatorsFound(s) && !OperatorAtEdge(s)
    ensures CheckSyntax(s) == None
  {
  }

  /** A number alone, negative or not, is its own value. */
  lemma SignedNumberSimple(t: string)
    requires IsSignedDecimal(t)
    ensures EvaluateSimpleExpression(t) == Ok(t)
  {
    OperatorClassesValid();
    DoOperationOfNumber(t, Products, StackLimit);
    DoOperationOfNumber(t, Sums, StackLimit);
  }

  /** One group, from `i` to `j`, whose value `v` leaves text `t` without
      parentheses: `evaluateParens` ends with `t`. */
  lemma ParensLastRound(s: string, i: nat, j: nat, v: string, t: string)
    requires LastIndexOf(s, '(') == Some(i) && IndexOfFrom(s, ')', i) == Some(j)
    requires EvaluateSimpleExpression(s[i + 1..j]) == Ok(v)
    requires Splice(s, i, j + 1, v) == t && '(' !in t && ')' !in t
    ensures EvaluateParens(s) == Ok(t)
  {
    SimpleGroupEvaluator();
    GroupStep(s, i, j, v, EvaluateSimpleExpression);
    RoundsAfterNext(s, t, EvaluateSimpleExpression);
  }

  /** The round on the group from `i` to `j` goes on with its value in its place. */
  lemma GroupStep(s: string, i: nat, j: nat, v: string, eval: string -> Result<string>)
    requires GroupEvaluator(eval)
    requires LastIndexOf(s, '(') == Some(i) && IndexOfFrom(s, ')', i) == Some(j)
    requires eval(s[i + 1..j]) == Ok(v)
    ensures ParensStep(s, eval) == Next(Splice(s, i, j + 1, v))
  {
  }

  /** A round that goes on leaves the rest to the later rounds. */
  lemma RoundsAfterNext(s: string, t: string, eval: string -> Result<string>)
    requires GroupEvaluator(eval) && ParensStep(s, eval) == Next(t)
    ensures ParensRounds(s, eval) == ParensRounds(t, eval)
  {
  }

  // `--6` is `6` (spec/utilsSpec.js:259).

  lemma DoubleMinusNotLone()
    ensures !IsLoneNegative("--6")
  {
    assert !IsNumber("-6");
  }

  /** The second minus sign of `--6` starts the number, so no check objects. */
  lemma DoubleMinusPassesChecks()
    ensures CheckSyntax("--6") == None
  {
    assert !AdjacentOperatorsFound("--6");
  }

  lemma DoubleMinusCompute()
    ensures Compute("--6") == Ok("6")
  {
    PlainCompute("--6");
    DoubleMinusExample();
  }

  /** `--6` evaluates to `6`: a second minus sign is the unary minus. */
  lemma DoubleMinusExpression()
    ensures EvaluateExpression("--6", map[]) == Ok("6")
  {
    DoubleMinusNotLone();
    DoubleMinusPassesChecks();
    CheckedExpression("--6");
    DoubleMinusCompute();
  }

  // `---6` is refused (spec/utilsSpec.js:260).

  /** The third minus sign of `---6` follows an operator and starts no number. */
  lemma TripleMinusRefused()
    ensures CheckSyntax("---6") == Some(InvalidOpPlacement)
  {
    assert RunEnd("---6", 1, Spaces) == 1;
    assert AdjacentOperatorsFound("---6");
  }

  /** `---6` is refused: only one unary minus may follow an operator. */
  lemma TripleMinusExpression()
    ensures EvaluateExpression("---6", map[]) == Err(InvalidOpPlacement)
  {
    VarNameMeans("---6");
    assert !IsLoneNegative("---6");
    assert !LetterTouches("---6");
    SubstituteNoVars("---6");
    TripleMinusRefused();
  }

  // `-6 + 1` is `-5` (spec/utilsSpec.js:254).

  lemma NegativeSumNotLone()
    ensures !IsLoneNegative("-6 + 1")
  {
    assert !IsNumber("6 + 1");
  }

  lemma NegativeSumNumbers()
    ensures AllAllowed("-6 + 1") && !BadNumberFound("-6 + 1")
  {
  }

  lemma NegativeSumOperators()
    ensures !MissingOperatorFound("-6 + 1")
  {
  }

  lemma NegativeSumPlacement()
    ensures !AdjacentOperatorsFound("-6 + 1") && !OperatorAtEdge("-6 + 1")
  {
  }

  /** `-6 + 1` is two integers around `+`, as number-to-string writes them. */
  lemma NegativeSumSimple()
    ensures EvaluateSimpleExpression("-6 + 1") == Ok("-5")
  {
    assert Binary(Show(-6.0), '+', Show(1.0)) == "-6 + 1";
    assert Show(-5.0) == "-5";
    EvaluateSimpleBinary(-6, '+', 1);
  }

  lemma NegativeSumCompute()
    ensures Compute("-6 + 1") == Ok("-5")
  {
    PlainCompute("-6 + 1");
    NegativeSumSimple();
  }

  lemma NegativeSumPassesChecks()
    ensures CheckSyntax("-6 + 1") == None
  {
    NegativeSumNumbers();
    NegativeSumOperators();
    NegativeSumPlacement();
    PassesEachCheck("-6 + 1");
  }

  /** A negative number is allowed once an operator follows: `-6 + 1` is `-5`. */
  lemma NegativeSumExpression()
    ensures EvaluateExpression("-6 + 1", map[]) == Ok("-5")
  {
    NegativeSumNotLone();
    NegativeSumPassesChecks();
    CheckedExpression("-6 + 1");
    NegativeSumCompute();
  }

  // `-(--6)` is `-6` (spec/utilsSpec.js:261).

  lemma NegatedGroupFound()
    ensures LastIndexOf("-(--6)", '(') == Some(1)
    ensures IndexOfFrom("-(--6)", ')', 1) == Some(5)
    ensures "-(--6)"[2..5] == "--6"
  {
  }

  lemma NegatedDoubleMinusSplice()
    ensures Splice("-(--6)", 1, 6, "6") == "-6"
  {
  }

  /** The group of `-(--6)` is `--6`, which evaluates to `6`, leaving `-6`. */
  lemma NegatedDoubleMinusParens()
    ensures EvaluateParens("-(--6)") == Ok("-6")
  {
    NegatedGroupFound();
    DoubleMinusExample();
    NegatedDoubleMinusSplice();
    ParensLastRound("-(--6)", 1, 5, "6", "-6");
  }

  lemma NegatedDoubleMinusNotLone()
    ensures !IsLoneNegative("-(--6)")
  {
    assert !IsNumber("(--6)");
  }

  lemma NegatedDoubleMinusNumbers()
    ensures AllAllowed("-(--6)") && !BadNumberFound("-(--6)") && !MissingOperatorFound("-(--6)")
  {
  }

  lemma NegatedDoubleMinusPlacement()
    ensures !AdjacentOperatorsFound("-(--6)") && !OperatorAtEdge("-(--6)")
  {
  }

  lemma MinusSixSimple()
    ensures EvaluateSimpleExpression("-6") == Ok("-6")
  {
    assert IsSignedDecimal("-6");
    SignedNumberSimple("-6");
  }

  lemma NegatedDoubleMinusCompute()
    ensures Compute("-(--6)") == Ok("-6")
  {
    NegatedDoubleMinusParens();
    MinusSixSimple();
    ComputeParts("-(--6)", "-6", "-6");
  }

  /** `-(--6)` is `-6`: a minus sign in front of a group negates its value. */
  lemma NegatedDoubleMinusExpression()
    ensures EvaluateExpression("-(--6)", map[]) == Ok("-6")
  {
    NegatedDoubleMinusNotLone();
    NegatedDoubleMinusNumbers();
    NegatedDoubleMinusPlacement();
    PassesEachCheck("-(--6)");
    CheckedExpression("-(--6)");
    NegatedDoubleMinusCompute();
  }

  // `-(-3 - -5)` is `-2` (spec/utilsSpec.js:262).

  lemma NegatedDifferenceOpen()
    ensures LastIndexOf("-(-3 - -5)", '(') == Some(1)
  {
    var s := "-(-3 - -5)";
    assert s[1] == '(';
    assert s[2..] == "-3 - -5)";
  }

  lemma NegatedDifferenceClose()
    ensures IndexOfFrom("-(-3 - -5)", ')', 1) == Some(9)
    ensures "-(-3 - -5)"[2..9] == "-3 - -5"
  {
    var s := "-(-3 - -5)";
    assert s[9] == ')' && s[1..9] == "(-3 - -5";
  }

  lemma NegatedDifferenceGroup()
    ensures EvaluateSimpleExpression("-3 - -5") == Ok("2")
  {
    assert Binary(Show(-3.0), '-', Show(-5.0)) == "-3 - -5";
    assert Show(2.0) == "2";
    EvaluateSimpleBinary(-3, '-', -5);
  }

  lemma NegatedDifferenceSplice()
    ensures Splice("-(-3 - -5)", 1, 10, "2") == "-2"
  {
  }

  /** The group of `-(-3 - -5)` is `-3 - -5`, which evaluates to `2`, leaving `-2`. */
  lemma NegatedDifferenceParens()
    ensures EvaluateParens("-(-3 - -5)") == Ok("-2")
  {
    NegatedDifferenceOpen();
    NegatedDifferenceClose();
    NegatedDifferenceGroup();
    NegatedDifferenceSplice();
    ParensLastRound("-(-3 - -5)", 1, 9, "2", "-2");
  }

  lemma MinusTwoSimple()
    ensures EvaluateSimpleExpression("-2") == Ok("-2")
  {
    assert IsSignedDecimal("-2");
    SignedNumberSimple("-2");
  }

  lemma NegatedDifferenceCompute()
    ensures Compute("-(-3 - -5)") == Ok("-2")
  {
    NegatedDifferenceParens();
    MinusTwoSimple();
    ComputeParts("-(-3 - -5)", "-2", "-2");
  }

  lemma NegatedDifferenceNotLone()
    ensures !IsLoneNegative("-(-3 - -5)")
  {
    assert !IsNumber("(-3 - -5)");
  }

  lemma NegatedDifferenceNumbers()
    ensures AllAllowed("-(-3 - -5)") && !BadNumberFound("-(-3 - -5)")
  {
  }

  lemma NegatedDifferenceOperators()
    ensures !MissingOperatorFound("-(-3 - -5)")
  {
  }

  lemma NegatedDifferencePlacement()
    ensures !AdjacentOperatorsFound("-(-3 - -5)") && !OperatorAtEdge("-(-3 - -5)")
  {
  }

  lemma NegatedDifferencePassesChecks()
    ensures CheckSyntax("-(-3 - -5)") == None
  {
    NegatedDifferenceNumbers();
    NegatedDifferenceOperators();
    NegatedDifferencePlacement();
    PassesEachCheck("-(-3 - -5)");
  }

  /** `-(-3 - -5)` is `-2`: the group is computed first, then negated. */
  lemma NegatedDifferenceExpression()
    ensures EvaluateExpression("-(-3 - -5)", map[]) == Ok("-2")
  {
    NegatedDifferenceNotLone();
    NegatedDifferencePassesChecks();
    CheckedExpression("-(-3 - -5)");
    NegatedDifferenceCompute();
  }
}
