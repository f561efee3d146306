/** The syntax checks of `evaluateExpression` (utils.js:349-402) and the
    lone-negative test of `evaluateEquation` (utils.js:446-447).

    Each regular expression is stated twice: once as what it means for a
    backtracking matcher (a ghost predicate that some substring fits the
    pattern), once as a scanner that tries each start position with the
    greedy `RunEnd`. A `...Means` lemma shows the two agree on every text.
    Most of the patterns have one shape: a head character, a run of one
    class, and a test on what follows the run; `RunAt`/`FindRun` state that
    shape once. */
module Validation {
  import opened Chars
  import opened Results

  /** The pattern `head mid{min,} tail` matches `s[i..j]` followed by what
      `tail` accepts at `j`: the head at `i`, at least `min` characters of
      `mid` between. */
  ghost predicate RunAt(s: string, head: char -> bool, mid: Class, min: nat, tail: (string, nat) -> bool, i: nat, j: nat) {
    && i < j <= |s|
    && head(s[i])
    && j - i - 1 >= min
    && (forall k :: i < k < j ==> InClass(s[k], mid))
    && tail(s, j)
  }

  /** The pattern matches somewhere in `s`. */
  ghost predicate HasRun(s: string, head: char -> bool, mid: Class, min: nat, tail: (string, nat) -> bool) {
    exists i, j :: RunAt(s, head, mid, min, tail, i, j)
  }

  /** `tail` only accepts where a run of `mid` must stop: at the end of the
      text or before a character outside `mid`. */
  ghost predicate StopsRun(tail: (string, nat) -> bool, mid: Class) {
    forall s: string, j: nat :: tail(s, j) ==> j <= |s| && (j < |s| ==> !InClass(s[j], mid))
  }

  /** The scanner: at each start position from `from`, the head, the greedy
      run after it, and the tail where the run stops. */
  function FindRun(s: string, head: char -> bool, mid: Class, min: nat, tail: (string, nat) -> bool, from: nat): bool
    requires from <= |s|
    decreases |s| - from
  {
    if from == |s| then false
    else
      var e := RunEnd(s, from + 1, mid);
      (head(s[from]) && e - from - 1 >= min && tail(s, e)) || FindRun(s, head, mid, min, tail, from + 1)
  }

  lemma {:induction false} FindRunSound(s: string, head: char -> bool, mid: Class, min: nat, tail: (string, nat) -> bool, from: nat)
    requires from <= |s| && FindRun(s, head, mid, min, tail, from)
    ensures HasRun(s, head, mid, min, tail)
    decreases |s| - from
  {
    var e := RunEnd(s, from + 1, mid);
    if head(s[from]) && e - from - 1 >= min && tail(s, e) {
      assert RunAt(s, head, mid, min, tail, from, e);
    } else {
      FindRunSound(s, head, mid, min, tail, from + 1);
    }
  }

  lemma {:induction false} FindRunComplete(s: string, head: char -> bool, mid: Class, min: nat, tail: (string, nat) -> bool, from: nat, i: nat, j: nat)
    requires StopsRun(tail, mid)
    requires from <= i && RunAt(s, head, mid, min, tail, i, j)
    ensures FindRun(s, head, mid, min, tail, from)
    decreases i - from
  {
    if from < i {
      FindRunComplete(s, head, mid, min, tail, from + 1, i, j);
    } else if j < |s| {
      RunEndUnique(s, i + 1, mid, j);
    } else {
      RunEndWhole(s, i + 1, mid);
    }
  }

  /** The scanner finds the pattern exactly when it matches somewhere. */
  lemma FindRunMeans(s: string, head: char -> bool, mid: Class, min: nat, tail: (string, nat) -> bool)
    requires StopsRun(tail, mid)
    ensures FindRun(s, head, mid, min, tail, 0) <==> HasRun(s, head, mid, min, tail)
  {
    if FindRun(s, head, mid, min, tail, 0) {
      FindRunSound(s, head, mid, min, tail, 0);
    }
    if HasRun(s, head, mid, min, tail) {
      var i: nat, j: nat :| RunAt(s, head, mid, min, tail, i, j);
      FindRunComplete(s, head, mid, min, tail, 0, i, j);
    }
  }

  // The single characters and lookaheads the patterns are built from.

  predicate IsDot(c: char) { c == '.' }
  predicate IsClose(c: char) { c == ')' }
  predicate IsCloseOrDigit(c: char) { c == ')' || IsDigit(c) }
  /** `[*\/+]`: an operator that cannot be a sign. */
  predicate IsNonSign(c: char) { c == '*' || c == '/' || c == '+' }
  /** `[a-zA-Z\d.]`: what may not touch a variable name. */
  predicate IsWordChar(c: char) { IsLetter(c) || IsDigit(c) || c == '.' }
  /** `[()\d.+\-*\/ ]`: the characters an expression may hold. */
  predicate IsAllowed(c: char) { c == '(' || c == ')' || IsDigit(c) || c == '.' || IsOperator(c) || c == ' ' }

  predicate OpenAt(s: string, j: nat) { j < |s| && s[j] == '(' }
  predicate DotAt(s: string, j: nat) { j < |s| && s[j] == '.' }
  predicate DigitAt(s: string, j: nat) { j < |s| && IsDigit(s[j]) }
  predicate DotOrDigitAt(s: string, j: nat) { j < |s| && (s[j] == '.' || IsDigit(s[j])) }
  predicate NonSignAt(s: string, j: nat) { j < |s| && IsNonSign(s[j]) }
  /** `-(?!\.?\d)`: a minus sign that does not start a number. */
  predicate BareMinusAt(s: string, j: nat) {
    && j < |s| && s[j] == '-'
    && !(j + 1 < |s| && IsDigit(s[j + 1]))
    && !(j + 2 < |s| && s[j + 1] == '.' && IsDigit(s[j + 2]))
  }

  lemma TailsStopRuns()
    ensures StopsRun(OpenAt, DotsOrSpaces) && StopsRun(DigitAt, DotsOrSpaces)
    ensures StopsRun(DotOrDigitAt, Spaces) && StopsRun(DotAt, Digits)
    ensures StopsRun(NonSignAt, Spaces) && StopsRun(BareMinusAt, Spaces)
  {
  }

  // `^-(?:(?:\d+(?:\.\d+)?)|(?:\.\d+))$` (utils.js:356).

  /** A negative number and nothing else, as the scanner tests it. */
  predicate IsLoneNegative(s: string) {
    |s| >= 2 && s[0] == '-' && IsNumber(s[1..])
  }

  /** The test agrees with the pattern: a minus sign, then a decimal or a fraction. */
  lemma LoneNegativeMeans(s: string)
    ensures IsLoneNegative(s) <==> |s| >= 2 && s[0] == '-' && (IsDecimal(s[1..]) || IsFraction(s[1..]))
  {
    if |s| >= 1 {
      IsNumberMeans(s[1..]);
    }
  }

  // `^-(?:(?:\d+(?:\.\d+)*)|(?:\.\d+))$` (utils.js:447): the equation's
  // variant, whose `*` admits any number of dotted digit groups.

  /** `\d+(?:\.\d+)*` read as a whole string. */
  predicate IsDottedDigits(t: string) {
    && |t| > 0
    && IsDigit(t[0])
    && IsDigit(t[|t| - 1])
    && (forall k :: 0 <= k < |t| ==> IsDigit(t[k]) || t[k] == '.')
    && (forall k :: 0 <= k < |t| - 1 && t[k] == '.' ==> t[k + 1] != '.')
  }

  /** The equation's test for a negative number alone. */
  predicate IsLoneNegativeValue(s: string) {
    |s| >= 2 && s[0] == '-' && (IsDottedDigits(s[1..]) || FractionLen(s, 1) == |s| - 1)
  }

  /** Every lone negative of `evaluateExpression` is one for
      `evaluateEquation`, and `-1.2.3` is one only for the latter. */
  lemma LoneNegativeValueWider(s: string)
    ensures IsLoneNegative(s) ==> IsLoneNegativeValue(s)
    ensures IsLoneNegativeValue("-1.2.3") && !IsLoneNegative("-1.2.3")
  {
    LoneNegativeMeans(s);
    if IsLoneNegative(s) {
      var t := s[1..];
      if IsDecimal(t) {
        assert IsDottedDigits(t) by {
          forall k | 0 <= k < |t| - 1 && t[k] == '.' ensures t[k + 1] != '.' {
          }
        }
      } else {
        assert t[0..|t|] == t;
        FractionLenAtLeast(s, 1, |s|);
        assert s[1..|s|] == t;
      }
    }
    var w := "-1.2.3";
    assert IsDottedDigits(w[1..]);
    LoneNegativeMeans(w);
    assert w[1..][1] == '.' && w[1..][3] == '.';
  }

  // `[a-zA-Z\d.]+[a-zA-Z]|[a-zA-Z][a-zA-Z\d.]+` (utils.js:362).

  /** `[a-zA-Z\d.]+[a-zA-Z]` matches `s[i..j + 1]`. */
  ghost predicate WordsThenLetter(s: string, i: nat, j: nat) {
    i < j < |s| && (forall k :: i <= k < j ==> IsWordChar(s[k])) && IsLetter(s[j])
  }

  /** `[a-zA-Z][a-zA-Z\d.]+` matches `s[i..j + 1]`. */
  ghost predicate LetterThenWords(s: string, i: nat, j: nat) {
    i < j < |s| && IsLetter(s[i]) && (forall k :: i < k <= j ==> IsWordChar(s[k]))
  }

  /** The pattern matches somewhere in `s`. */
  ghost predicate VarNamePattern(s: string) {
    (exists i, j :: WordsThenLetter(s, i, j)) || (exists i, j :: LetterThenWords(s, i, j))
  }

  /** The scanner: two adjacent word characters, one of them a letter. */
  predicate LetterTouches(s: string) {
    exists k :: 0 <= k < |s| - 1 && IsWordChar(s[k]) && IsWordChar(s[k + 1]) && (IsLetter(s[k]) || IsLetter(s[k + 1]))
  }

  lemma VarNameMeans(s: string)
    ensures LetterTouches(s) <==> VarNamePattern(s)
  {
    if LetterTouches(s) {
      var k :| 0 <= k < |s| - 1 && IsWordChar(s[k]) && IsWordChar(s[k + 1]) && (IsLetter(s[k]) || IsLetter(s[k + 1]));
      if IsLetter(s[k + 1]) {
        assert WordsThenLetter(s, k, k + 1);
      } else {
        assert LetterThenWords(s, k, k + 1);
      }
    }
    if exists i, j :: WordsThenLetter(s, i, j) {
      var i: nat, j: nat :| WordsThenLetter(s, i, j);
      assert IsWordChar(s[j - 1]) && IsWordChar(s[j]);
    }
    if exists i, j :: LetterThenWords(s, i, j) {
      var i: nat, j: nat :| LetterThenWords(s, i, j);
      assert IsWordChar(s[i]) && IsWordChar(s[i + 1]);
    }
  }

  // `^[()\d.+\-*\/ ]+$` (utils.js:375).

  predicate AllAllowed(s: string) {
    |s| > 0 && forall k :: 0 <= k < |s| ==> IsAllowed(s[k])
  }

  // `\.(?:[().+\-*\/ ]|$)|\.\d+\.` (utils.js:385).

  /** `[().+\-*\/ ]`: what may not follow a decimal point. */
  predicate EndsNumberBadly(c: char) {
    c == '(' || c == ')' || c == '.' || IsOperator(c) || c == ' '
  }

  ghost predicate NumFormatPattern(s: string) {
    || (exists k :: 0 <= k < |s| && s[k] == '.' && (k + 1 == |s| || EndsNumberBadly(s[k + 1])))
    || HasRun(s, IsDot, Digits, 1, DotAt)
  }

  predicate BadNumberFound(s: string) {
    || (exists k :: 0 <= k < |s| && s[k] == '.' && (k + 1 == |s| || EndsNumberBadly(s[k + 1])))
    || FindRun(s, IsDot, Digits, 1, DotAt, 0)
  }

  lemma NumFormatMeans(s: string)
    ensures BadNumberFound(s) <==> NumFormatPattern(s)
  {
    TailsStopRuns();
    FindRunMeans(s, IsDot, Digits, 1, DotAt);
  }

  // `(?:(?:\)|\d)[. ]*\()|(?:\)[. ]*\d)|(?:\d +(?:\.|\d))` (utils.js:390).

  ghost predicate MissingOperatorPattern(s: string) {
    || HasRun(s, IsCloseOrDigit, DotsOrSpaces, 0, OpenAt)
    || HasRun(s, IsClose, DotsOrSpaces, 0, DigitAt)
    || HasRun(s, IsDigit, Spaces, 1, DotOrDigitAt)
  }

  predicate MissingOperatorFound(s: string) {
    || FindRun(s, IsCloseOrDigit, DotsOrSpaces, 0, OpenAt, 0)
    || FindRun(s, IsClose, DotsOrSpaces, 0, DigitAt, 0)
    || FindRun(s, IsDigit, Spaces, 1, DotOrDigitAt, 0)
  }

  lemma MissingOperatorMeans(s: string)
    ensures MissingOperatorFound(s) <==> MissingOperatorPattern(s)
  {
    TailsStopRuns();
    FindRunMeans(s, IsCloseOrDigit, DotsOrSpaces, 0, OpenAt);
    FindRunMeans(s, IsClose, DotsOrSpaces, 0, DigitAt);
    FindRunMeans(s, IsDigit, Spaces, 1, DotOrDigitAt);
  }

  // `(?:[*\/+\-] *[*\/+])|(?:[*\/+\-] *-(?!\.?\d))` (utils.js:396).

  ghost predicate AdjacentOperatorsPattern(s: string) {
    || HasRun(s, IsOperator, Spaces, 0, NonSignAt)
    || HasRun(s, IsOperator, Spaces, 0, BareMinusAt)
  }

  predicate AdjacentOperatorsFound(s: string) {
    || FindRun(s, IsOperator, Spaces, 0, NonSignAt, 0)
    || FindRun(s, IsOperator, Spaces, 0, BareMinusAt, 0)
  }

  lemma AdjacentOperatorsMeans(s: string)
    ensures AdjacentOperatorsFound(s) <==> AdjacentOperatorsPattern(s)
  {
    TailsStopRuns();
    FindRunMeans(s, IsOperator, Spaces, 0, NonSignAt);
    FindRunMeans(s, IsOperator, Spaces, 0, BareMinusAt);
  }

  // `(?:(?:^|\()[*\/+])|(?:[*\/+\-](?:\)|$))` (utils.js:402): no run, so the
  // scanner is the pattern itself.

  predicate OperatorAtEdge(s: string) {
    || (|s| > 0 && IsNonSign(s[0]))
    || (exists k :: 0 <= k < |s| - 1 && s[k] == '(' && IsNonSign(s[k + 1]))
    || (exists k :: 0 <= k < |s| && IsOperator(s[k]) && (k + 1 == |s| || s[k + 1] == ')'))
  }

  /** No check after substitution objects to `s`. */
  ghost predicate PassesChecks(s: string) {
    && AllAllowed(s) && !NumFormatPattern(s) && !MissingOperatorPattern(s)
    && !AdjacentOperatorsPattern(s) && !OperatorAtEdge(s)
  }

  /** The checks `evaluateExpression` makes after substitution, in order:
      the first that fails names the error, and none failing means the
      text may be evaluated. */
  function CheckSyntax(s: string): (r: Option<Error>)
    ensures r == None <==> PassesChecks(s)
    ensures r == Some(InvalidChar) <==> !AllAllowed(s)
    ensures r == Some(InvalidNumFormat) <==> AllAllowed(s) && NumFormatPattern(s)
    ensures r == Some(MissingOperator) <==> AllAllowed(s) && !NumFormatPattern(s) && MissingOperatorPattern(s)
    ensures r == Some(InvalidOpPlacement) <==>
      AllAllowed(s) && !NumFormatPattern(s) && !MissingOperatorPattern(s)
      && (AdjacentOperatorsPattern(s) || OperatorAtEdge(s))
  {
    NumFormatMeans(s);
    MissingOperatorMeans(s);
    AdjacentOperatorsMeans(s);
    if !AllAllowed(s) then Some(InvalidChar)
    else if BadNumberFound(s) then Some(InvalidNumFormat)
    else if MissingOperatorFound(s) then Some(MissingOperator)
    else if AdjacentOperatorsFound(s) then Some(InvalidOpPlacement)
    else if OperatorAtEdge(s) then Some(InvalidOpPlacement)
    else None
  }

  /** Two numbers with only a space between them lack an operator. */
  lemma MissingOperatorExample()
    ensures CheckSyntax("1 1") == Some(MissingOperator)
  {
    assert MissingOperatorFound("1 1");
  }
}
