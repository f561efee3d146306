/** One binary operation on operand text: `calc` and `getResult`
    (utils.js:27-89). */
module Arithmetic {
  import opened Chars
  import opened Numbers
  import opened Results

  /** One of the four operators applied to two numbers; only a zero divisor
      is refused. */
  function Apply(a: real, op: char, b: real): (r: Result<real>)
    requires IsOperator(op)
    ensures r.Err? <==> op == '/' && b == 0.0
    ensures r.Err? ==> r.error == DivideByZero
    ensures op == '+' ==> r == Ok(a + b)
    ensures op == '-' ==> r == Ok(a - b)
    ensures op == '*' ==> r == Ok(a * b)
    ensures op == '/' && b != 0.0 ==> r == Ok(a / b)
  {
    if op == '+' then Ok(a + b)
    else if op == '-' then Ok(a - b)
    else if op == '*' then Ok(a * b)
    else if b == 0.0 then Err(DivideByZero)
    else Ok(a / b)
  }

  /** `calc(operand1, operator, operand2)`: parse both operands, check them
      first operand first, refuse a zero divisor, then apply the operator. */
  function Calc(op1: string, op: char, op2: string): (r: Result<real>)
    requires IsOperator(op)
    ensures ParseFloat(op1).None? ==> r == Err(NotANumber(op1))
    ensures ParseFloat(op1).Some? && ParseFloat(op2).None? ==> r == Err(NotANumber(op2))
    ensures op == '/' && ParseFloat(op1).Some? && ParseFloat(op2) == Some(0.0) ==> r == Err(DivideByZero)
    ensures r.Ok? <==> ParseFloat(op1).Some? && ParseFloat(op2).Some? && !(op == '/' && ParseFloat(op2).value == 0.0)
    ensures r.Ok? ==> var a, b := ParseFloat(op1).value, ParseFloat(op2).value;
      && (op == '+' ==> r.value == a + b)
      && (op == '-' ==> r.value == a - b)
      && (op == '*' ==> r.value == a * b)
      && (op == '/' && b != 0.0 ==> r.value == a / b)
  {
    var p1 := ParseFloat(op1);
    var p2 := ParseFloat(op2);
    if p1.None? then Err(NotANumber(op1))
    else if p2.None? then Err(NotANumber(op2))
    else Apply(p1.value, op, p2.value)
  }

  /** `-?\d+(?:\.\d+)?|\.\d+` read as a whole string: a number as the
      second operand of `doOperation`'s pattern and the second group of
      `opNumRegex` accept it. */
  ghost predicate IsOperandNumber(t: string) {
    IsDecimal(t) || IsFraction(t) || IsNegativeDecimal(t)
  }

  /** `[*\/+\-] *` read as a whole string: an operator and the spaces after it. */
  ghost predicate IsOperatorPrefix(t: string) {
    |t| >= 1 && IsOperator(t[0]) && forall k :: 1 <= k < |t| ==> t[k] == ' '
  }

  /** An operator, spaces, and a negative decimal: the first operand
      `doOperation`'s pattern captures when a negative number follows another
      operator, as in `+ -3`. The spaces end where the minus sign is. */
  ghost predicate IsPrefixedOperand(t: string) {
    && |t| >= 3
    && IsOperator(t[0])
    && IsNegativeDecimal(t[RunEnd(t, 1, Spaces)..])
  }

  /** Every text the first group of `doOperation`'s pattern can capture. */
  ghost predicate IsFirstOperand(t: string) {
    IsOperandNumber(t) || IsPrefixedOperand(t)
  }

  /** `op1.match(opNumRegex)`: group 1 (the leading operator text, lazily
      optional, so absent whenever the operand starts with a number) and
      group 2 (the number). */
  function SplitOperand(t: string): (r: (string, string))
    requires IsFirstOperand(t)
    ensures r.0 + r.1 == t
    ensures IsOperandNumber(r.1)
    ensures IsOperandNumber(t) <==> r.0 == ""
    ensures r.0 != "" ==> IsOperatorPrefix(r.0)
  {
    StartsWithNumber(t);
    if StartsNumber(t) then ("", t)
    else
      var k := RunEnd(t, 1, Spaces);
      assert t[..k] + t[k..] == t;
      (t[..k], t[k..])
  }

  /** Whether `opNumRegex` matches at the start of `t` without its first group. */
  predicate StartsNumber(t: string) {
    |t| > 0 && (IsDigit(t[0]) || t[0] == '.' || (t[0] == '-' && |t| > 1 && IsDigit(t[1])))
  }

  /** A first operand is a number exactly when it starts like one. */
  lemma StartsWithNumber(t: string)
    requires IsFirstOperand(t)
    ensures IsOperandNumber(t) <==> StartsNumber(t)
  {
    if IsPrefixedOperand(t) {
      var k := RunEnd(t, 1, Spaces);
      assert t[k..][0] == t[k];
      assert k == 1 ==> t[1] == '-';
      assert !StartsNumber(t);
    }
  }

  /** Operand text always reads as a number, so `calc` can only refuse it for
      a zero divisor. */
  lemma OperandNumberParses(t: string)
    requires IsOperandNumber(t)
    ensures ParseFloat(t).Some?
  {
    assert !IsWhitespace(t[0]);
    assert TrimStart(t) == 0;
  }

  /** `getResult(match, op1, operator, op2)`: evaluate with the number part of
      the first operand and put its leading operator text back in front. */
  function GetResult(op1: string, op: char, op2: string): (r: Result<string>)
    requires IsOperator(op) && IsFirstOperand(op1)
    ensures r.Ok? <==> Calc(SplitOperand(op1).1, op, op2).Ok?
    ensures r.Err? ==> r.error == Calc(SplitOperand(op1).1, op, op2).error
    ensures r.Ok? ==> var pre := SplitOperand(op1).0;
      && |pre| < |r.value|
      && r.value[..|pre|] == pre
      && r.value[|pre|..] == Show(Calc(SplitOperand(op1).1, op, op2).value)
    ensures r.Ok? ==> CharsFrom(r.value, op1)
  {
    var (pre, num) := SplitOperand(op1);
    var v :- Calc(num, op, op2);
    Ok(pre + Show(v))
  }

  /** `calc` on two operands that parse is the operator applied to their values. */
  lemma CalcParsed(x: string, op: char, y: string, a: real, b: real)
    requires IsOperator(op)
    requires ParseFloat(x) == Some(a) && ParseFloat(y) == Some(b)
    ensures Calc(x, op, y) == Apply(a, op, b)
  {
  }

  /** Integers written by number-to-string and read back by `calc` are
      combined exactly: the result is the operator applied to the integers. */
  lemma {:induction false} CalcShownIntegers(a: int, op: char, b: int)
    requires IsOperator(op)
    ensures Calc(Show(a as real), op, Show(b as real)) == Apply(a as real, op, b as real)
  {
    ShowParseInt(a);
    ShowParseInt(b);
    CalcParsed(Show(a as real), op, Show(b as real), a as real, b as real);
  }

  // The source's examples. Each literal is read by its own lemma: unfolding
  // `parseFloat` on several literals at once is costly for the solver.

  lemma ParseOneExample()
    ensures ParseFloat("1") == Some(1.0)
  {
  }

  lemma ParseZeroExample()
    ensures ParseFloat("0") == Some(0.0)
  {
  }

  lemma ParseTwoExample()
    ensures ParseFloat("2") == Some(2.0)
  {
  }

  lemma ParseMinusTwoExample()
    ensures ParseFloat("-2") == Some(-2.0)
  {
  }

  lemma ParseMinusThreeExample()
    ensures ParseFloat("-3") == Some(-3.0)
  {
  }

  lemma ParseMinusSixExample()
    ensures ParseFloat("-6") == Some(-6.0)
  {
  }

  lemma ParseOnePointOneExample()
    ensures ParseFloat("1.1") == Some(1.1)
  {
    assert TrimStart("1.1") == 0 && NumeralStart("1.1") == 0;
    UnsignedDecimal("1.1", 0, 1);
  }

  lemma ParsePointThreeExample()
    ensures ParseFloat(".3") == Some(0.3)
  {
    assert TrimStart(".3") == 0 && NumeralStart(".3") == 0;
    UnsignedDecimal(".3", 0, 0);
  }

  /** `parseFloat` gives NaN for text that starts with a letter. */
  lemma ParseLetterExample()
    ensures ParseFloat("a1") == None
  {
  }

  lemma CalcAddExample()
    ensures Calc("1", '+', "1") == Ok(2.0)
  {
    ParseOneExample();
    CalcParsed("1", '+', "1", 1.0, 1.0);
  }

  lemma CalcNegativesExample()
    ensures Calc("-6", '/', "-2") == Ok(3.0)
  {
    ParseMinusSixExample();
    ParseMinusTwoExample();
    CalcParsed("-6", '/', "-2", -6.0, -2.0);
  }

  lemma CalcDecimalExample()
    ensures Calc("1.1", '+', ".3") == Ok(1.4)
  {
    ParseOnePointOneExample();
    ParsePointThreeExample();
    CalcParsed("1.1", '+', ".3", 1.1, 0.3);
  }

  lemma CalcDivideByZeroExample()
    ensures Calc("1", '/', "0") == Err(DivideByZero)
  {
    ParseOneExample();
    ParseZeroExample();
    CalcParsed("1", '/', "0", 1.0, 0.0);
  }

  lemma CalcNaNExample()
    ensures Calc("a1", '*', "2") == Err(NotANumber("a1"))
  {
    ParseLetterExample();
  }

  /** `getResult` with a known split and a known value. */
  lemma GetResultOf(op1: string, op: char, op2: string, pre: string, num: string, v: real)
    requires IsOperator(op) && IsFirstOperand(op1)
    requires SplitOperand(op1) == (pre, num) && Calc(num, op, op2) == Ok(v)
    ensures GetResult(op1, op, op2) == Ok(pre + Show(v))
  {
  }

  lemma NegativeThreeExample()
    ensures IsNegativeDecimal("-3")
  {
    assert "-3"[1..] == "3";
  }

  lemma PrefixedExample()
    ensures IsPrefixedOperand("+ -3")
  {
    assert RunEnd("+ -3", 1, Spaces) == 2;
    assert "+ -3"[2..] == "-3";
    NegativeThreeExample();
  }

  lemma SplitPrefixedExample()
    ensures IsFirstOperand("+ -3") && SplitOperand("+ -3") == ("+ ", "-3")
  {
    PrefixedExample();
    assert RunEnd("+ -3", 1, Spaces) == 2;
    assert "+ -3"[..2] == "+ " && "+ -3"[2..] == "-3";
  }

  lemma CalcProductExample()
    ensures Calc("-3", '*', "2") == Ok(-6.0)
  {
    ParseMinusThreeExample();
    ParseTwoExample();
    CalcParsed("-3", '*', "2", -3.0, 2.0);
  }

  lemma ShowMinusSixExample()
    ensures Show(-6.0) == "-6"
    ensures "+ " + Show(-6.0) == "+ -6"
  {
  }

  /** The source's example of leading operator text kept in front of the result. */
  lemma GetResultExample()
    ensures GetResult("+ -3", '*', "2") == Ok("+ -6")
  {
    SplitPrefixedExample();
    CalcProductExample();
    ShowMinusSixExample();
    GetResultOf("+ -3", '*', "2", "+ ", "-3", -6.0);
  }
}
