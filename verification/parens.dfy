/** `evaluateParens` (utils.js:216-259): the innermost-last parenthesised
    group is evaluated and its value put in its place, until no parenthesis
    is left.

    The group chosen is the one opened by the last `(`, closed by the first
    `)` after it; its content therefore holds no parenthesis. The reference
    for which texts are well parenthesised is `Walk`, the running nesting
    depth: it must never go below zero and must end at zero. */
module Parens {
  import opened Chars
  import opened Results
  import opened Operations

  /** The nesting depth after reading `s` from depth `d`, or `None` when a
      `)` closes more than was opened. */
  function Walk(s: string, d: nat): (r: Option<nat>)
    decreases |s|
  {
    if |s| == 0 then Some(d)
    else if s[0] == '(' then Walk(s[1..], d + 1)
    else if s[0] == ')' then (if d == 0 then None else Walk(s[1..], d - 1))
    else Walk(s[1..], d)
  }

  /** Every `)` closes an earlier `(` and every `(` is closed. */
  predicate Balanced(s: string) {
    Walk(s, 0) == Some(0)
  }

  /** What one round of `evaluateParens` does: finish with a result, or go
      on with the text that has the last group replaced by its value. */
  datatype Progress = Done(result: Result<string>) | Next(rest: string)

  /** What `evaluateParens` asks of the evaluator it applies to each group:
      a value draws its characters from the group (or is written by
      number-to-string), and the only failures are arithmetic ones. */
  ghost predicate GroupEvaluator(eval: string -> Result<string>) {
    forall x :: FitsGroup(eval, x)
  }

  /** What `GroupEvaluator` asks of the value of the one group `x`. */
  ghost predicate FitsGroup(eval: string -> Result<string>, x: string) {
    && (eval(x).Ok? ==> CharsFrom(eval(x).value, x))
    && (eval(x).Err? ==> eval(x).error == DivideByZero || eval(x).error == StackOverflow)
  }

  /** One round of `evaluateParens`, with `eval` evaluating the group: with
      no `(` the text is returned, or refused when it holds a `)`; otherwise
      the group from the last `(` to the first `)` after it is evaluated and
      its value put in its place. */
  function ParensStep(s: string, eval: string -> Result<string>): (p: Progress)
    requires GroupEvaluator(eval)
    ensures LastIndexOf(s, '(').None? ==> p == Done(if ')' in s then Err(Mismatched) else Ok(s))
    ensures LastIndexOf(s, '(').Some? && IndexOfFrom(s, ')', LastIndexOf(s, '(').value).None? ==>
      p == Done(Err(Mismatched))
    ensures p.Next? ==> Count(p.rest, "(") < Count(s, "(")
    ensures p.Done? && p.result.Ok? ==> p.result.value == s && '(' !in s && ')' !in s
    ensures p.Done? && p.result.Err? ==> p.result.error == Mismatched || p.result.error == DivideByZero || p.result.error == StackOverflow
  {
    match LastIndexOf(s, '(')
    case None => Done(if ')' in s then Err(Mismatched) else Ok(s))
    case Some(i) =>
      match IndexOfFrom(s, ')', i)
      case None => Done(Err(Mismatched))
      case Some(j) =>
        assert FitsGroup(eval, s[i + 1..j]);
        GroupRound(s, i, j, eval(s[i + 1..j]))
  }

  /** A round that finds a group from the last `(` to the first `)` after
      it evaluates the text between them: a failure ends the rounds with
      that error, a value takes the place of the whole group, parentheses
      included. */
  lemma ParensStepGroup(s: string, eval: string -> Result<string>, i: nat, j: nat)
    requires GroupEvaluator(eval)
    requires LastIndexOf(s, '(') == Some(i) && IndexOfFrom(s, ')', i) == Some(j)
    ensures eval(s[i + 1..j]).Err? ==> ParensStep(s, eval) == Done(eval(s[i + 1..j]))
    ensures eval(s[i + 1..j]).Ok? ==> ParensStep(s, eval) == Next(Splice(s, i, j + 1, eval(s[i + 1..j]).value))
  {
    assert FitsGroup(eval, s[i + 1..j]);
    assert ParensStep(s, eval) == GroupRound(s, i, j, eval(s[i + 1..j]));
    GroupRoundEnds(s, i, j, eval(s[i + 1..j]));
  }

  /** `GroupRound`'s two outcomes, as facts about one call. */
  lemma GroupRoundEnds(s: string, i: nat, j: nat, value: Result<string>)
    requires i < j < |s| && s[i] == '(' && '(' !in s[i + 1..]
    requires value.Ok? ==> CharsFrom(value.value, s[i + 1..j])
    ensures value.Err? ==> GroupRound(s, i, j, value) == Done(value)
    ensures value.Ok? ==> GroupRound(s, i, j, value) == Next(Splice(s, i, j + 1, value.value))
  {
  }

  /** The end of a round that found the last group from `i` to `j` and
      evaluated its content to `value`. */
  function GroupRound(s: string, i: nat, j: nat, value: Result<string>): (p: Progress)
    requires i < j < |s| && s[i] == '(' && '(' !in s[i + 1..]
    requires value.Ok? ==> CharsFrom(value.value, s[i + 1..j])
    ensures p.Next? ==> Count(p.rest, "(") < Count(s, "(")
    ensures p.Done? <==> value.Err?
    ensures p.Done? ==> p.result == value
    ensures value.Ok? ==> p == Next(Splice(s, i, j + 1, value.value))
  {
    match value
    case Err(e) => Done(Err(e))
    case Ok(v) =>
      NoOpenInValue(s, i, j, v);
      SpliceFewerOpen(s, i, j, v);
      Next(Splice(s, i, j + 1, v))
  }

  /** Rounds until one finishes. */
  function ParensRounds(s: string, eval: string -> Result<string>): (r: Result<string>)
    requires GroupEvaluator(eval)
    ensures r.Ok? ==> '(' !in r.value && ')' !in r.value
    ensures r.Err? ==> r.error == Mismatched || r.error == DivideByZero || r.error == StackOverflow
    ensures '(' !in s && ')' !in s ==> r == Ok(s)
    decreases Count(s, "(")
  {
    match ParensStep(s, eval)
    case Done(r) => r
    case Next(t) => ParensRounds(t, eval)
  }

  /** `evaluateSimpleExpression` is an evaluator `evaluateParens` can use. */
  lemma SimpleGroupEvaluator()
    ensures GroupEvaluator(EvaluateSimpleExpression)
  {
  }

  /** `evaluateParens(expression)`: every group evaluated by
      `evaluateSimpleExpression`, innermost last. */
  function EvaluateParens(s: string): (r: Result<string>)
    ensures r.Ok? ==> '(' !in r.value && ')' !in r.value
    ensures r.Err? ==> r.error == Mismatched || r.error == DivideByZero || r.error == StackOverflow
    ensures '(' !in s && ')' !in s ==> r == Ok(s)
  {
    SimpleGroupEvaluator();
    ParensRounds(s, EvaluateSimpleExpression)
  }

  /** The value of the last group holds no `(`: neither does the group. */
  lemma NoOpenInValue(s: string, i: nat, j: nat, v: string)
    requires i < j < |s| && '(' !in s[i + 1..] && CharsFrom(v, s[i + 1..j])
    ensures '(' !in v
  {
    NotInSlice(s, '(', i + 1, |s|, i + 1, j);
    forall k | 0 <= k < |v| ensures v[k] != '(' {
      assert v[k] in s[i + 1..j] || IsNumeralChar(v[k]);
    }
  }

  /** The text with the group replaced by its value draws its characters
      from the text. */
  lemma GroupSpliceChars(s: string, i: nat, j: nat, v: string)
    requires i < j < |s| && CharsFrom(v, s[i + 1..j])
    ensures CharsFrom(Splice(s, i, j + 1, v), s)
  {
    CharsFromSlice(v, s, i + 1, j);
    var t := Splice(s, i, j + 1, v);
    forall k | 0 <= k < |t| ensures t[k] in s || IsNumeralChar(t[k]) {
      if k < i {
        assert t[k] == s[k];
      } else if k >= i + |v| {
        assert t[k] == s[j + 1 + k - i - |v|];
      } else {
        assert t[k] == v[k - i];
      }
    }
  }

  /** Replacing a group that starts with `(` by text without `(` leaves one
      `(` fewer or more: the recursion ends. */
  lemma SpliceFewerOpen(s: string, i: nat, j: nat, v: string)
    requires i <= j < |s| && s[i] == '(' && '(' !in v
    ensures Count(Splice(s, i, j + 1, v), "(") < Count(s, "(")
  {
    assert s == s[..i] + s[i..j + 1] + s[j + 1..];
    CountAppend(s[..i] + s[i..j + 1], s[j + 1..], "(");
    CountAppend(s[..i], s[i..j + 1], "(");
    assert s[i..j + 1][0] == '(';
    assert Splice(s, i, j + 1, v) == s[..i] + v + s[j + 1..];
    CountAppend(s[..i] + v, s[j + 1..], "(");
    CountAppend(s[..i], v, "(");
    assert forall k :: 0 <= k < |v| ==> v[k] !in "(";
  }

  /** Reading `a + b` is reading `a`, then `b` from where `a` left off. */
  lemma {:induction false} WalkAppend(a: string, b: string, d: nat)
    ensures Walk(a + b, d) == (match Walk(a, d) case None => None case Some(e) => Walk(b, e))
    decreases |a|
  {
    if |a| == 0 {
      assert a + b == b;
    } else {
      assert (a + b)[0] == a[0] && (a + b)[1..] == a[1..] + b;
      if a[0] == '(' {
        WalkAppend(a[1..], b, d + 1);
      } else if a[0] == ')' {
        if d > 0 {
          WalkAppend(a[1..], b, d - 1);
        }
      } else {
        WalkAppend(a[1..], b, d);
      }
    }
  }

  /** Text without parentheses leaves the depth as it is. */
  lemma {:induction false} WalkPlain(x: string, d: nat)
    requires '(' !in x && ')' !in x
    ensures Walk(x, d) == Some(d)
    decreases |x|
  {
    if |x| > 0 {
      assert x[0] in x;
      assert forall c :: c in x[1..] ==> c in x;
      WalkPlain(x[1..], d);
    }
  }

  /** Text without `(` can only lower the depth, and does lower it when it
      holds a `)`. */
  lemma {:induction false} WalkNoOpen(x: string, d: nat)
    requires '(' !in x
    ensures Walk(x, d).Some? ==> Walk(x, d).value <= d
    ensures Walk(x, d).Some? && ')' in x ==> Walk(x, d).value < d
    decreases |x|
  {
    if |x| > 0 {
      assert x[0] in x;
      assert forall c :: c in x[1..] ==> c in x;
      assert ')' in x && x[0] != ')' ==> ')' in x[1..];
      if x[0] == ')' {
        if d > 0 {
          WalkNoOpen(x[1..], d - 1);
        }
      } else {
        WalkNoOpen(x[1..], d);
      }
    }
  }

  /** A group `(` ... `)` with no parenthesis inside leaves the depth as it is. */
  lemma WalkGroup(g: string, d: nat)
    requires |g| >= 2 && g[0] == '(' && g[|g| - 1] == ')'
    requires '(' !in g[1..|g| - 1] && ')' !in g[1..|g| - 1]
    ensures Walk(g, d) == Some(d)
  {
    assert g[1..] == g[1..|g| - 1] + [')'];
    WalkAppend(g[1..|g| - 1], [')'], d + 1);
    WalkPlain(g[1..|g| - 1], d + 1);
    assert [')'][1..] == [];
  }

  /** Replacing the last group by text without parentheses does not change
      the final depth, nor whether some `)` closes too much. */
  lemma {:induction false} SpliceKeepsWalk(s: string, i: nat, j: nat, v: string)
    requires i < j < |s| && s[i] == '(' && s[j] == ')'
    requires '(' !in s[i + 1..] && ')' !in s[i..j]
    requires '(' !in v && ')' !in v
    ensures Walk(Splice(s, i, j + 1, v), 0) == Walk(s, 0)
  {
    var p, g, q := s[..i], s[i..j + 1], s[j + 1..];
    assert s == p + g + q;
    assert Splice(s, i, j + 1, v) == p + v + q;
    assert g[1..|g| - 1] == s[i + 1..j];
    NotInSlice(s, '(', i + 1, |s|, i + 1, j);
    NotInSlice(s, ')', i, j, i + 1, j);
    WalkAppend(p + g, q, 0);
    WalkAppend(p, g, 0);
    WalkAppend(p + v, q, 0);
    WalkAppend(p, v, 0);
    match Walk(p, 0)
    case None =>
    case Some(e) =>
      WalkGroup(g, e);
      WalkPlain(v, e);
  }

  /** A last `(` that no `)` follows is never closed. */
  lemma UnclosedUnbalanced(s: string, i: nat)
    requires i < |s| && s[i] == '(' && '(' !in s[i + 1..] && ')' !in s[i..]
    ensures !Balanced(s)
  {
    assert s == s[..i] + s[i..];
    WalkAppend(s[..i], s[i..], 0);
    assert s[i..][1..] == s[i + 1..];
    assert forall c :: c in s[i + 1..] ==> c in s[i..];
    match Walk(s[..i], 0)
    case None =>
    case Some(e) =>
      WalkPlain(s[i + 1..], e + 1);
  }

  /** One round keeps the final depth and whether some `)` closes too
      much; it finishes with mismatched parentheses only on a text that is
      not balanced, and successfully only on one that is. */
  lemma StepWalk(s: string, eval: string -> Result<string>)
    requires GroupEvaluator(eval)
    ensures ParensStep(s, eval).Next? ==> Walk(ParensStep(s, eval).rest, 0) == Walk(s, 0)
    ensures ParensStep(s, eval) == Done(Err(Mismatched)) ==> !Balanced(s)
    ensures ParensStep(s, eval).Done? && ParensStep(s, eval).result.Ok? ==> Balanced(s)
  {
    match LastIndexOf(s, '(')
    case None =>
      if ')' in s {
        WalkNoOpen(s, 0);
      } else {
        WalkPlain(s, 0);
      }
    case Some(i) =>
      match IndexOfFrom(s, ')', i)
      case None =>
        UnclosedUnbalanced(s, i);
      case Some(j) =>
        assert FitsGroup(eval, s[i + 1..j]);
        assert ParensStep(s, eval) == GroupRound(s, i, j, eval(s[i + 1..j]));
        GroupWalk(s, i, j, eval(s[i + 1..j]));
  }

  /** The round that evaluates the group from `i` to `j` keeps the final depth. */
  lemma GroupWalk(s: string, i: nat, j: nat, value: Result<string>)
    requires i < j < |s| && s[i] == '(' && s[j] == ')'
    requires '(' !in s[i + 1..] && ')' !in s[i..j]
    requires value.Ok? ==> CharsFrom(value.value, s[i + 1..j])
    ensures GroupRound(s, i, j, value).Next? ==> Walk(GroupRound(s, i, j, value).rest, 0) == Walk(s, 0)
  {
    match value
    case Err(e) =>
    case Ok(v) =>
      NoOpenInValue(s, i, j, v);
      NoCloseInValue(s, i, j, v);
      SpliceKeepsWalk(s, i, j, v);
  }

  /** The text a round goes on with draws its characters from the text. */
  lemma StepChars(s: string, eval: string -> Result<string>)
    requires GroupEvaluator(eval)
    ensures ParensStep(s, eval).Next? ==> CharsFrom(ParensStep(s, eval).rest, s)
  {
    match LastIndexOf(s, '(')
    case None =>
    case Some(i) =>
      match IndexOfFrom(s, ')', i)
      case None =>
      case Some(j) =>
        assert FitsGroup(eval, s[i + 1..j]);
        assert ParensStep(s, eval) == GroupRound(s, i, j, eval(s[i + 1..j]));
        if eval(s[i + 1..j]).Ok? {
          GroupSpliceChars(s, i, j, eval(s[i + 1..j]).value);
        }
  }

  /** Whenever the rounds succeed, the text was balanced. */
  lemma {:induction false} RoundsOkBalanced(s: string, eval: string -> Result<string>)
    requires GroupEvaluator(eval)
    ensures ParensRounds(s, eval).Ok? ==> Balanced(s)
    decreases Count(s, "(")
  {
    StepWalk(s, eval);
    match ParensStep(s, eval)
    case Done(r) =>
    case Next(t) =>
      RoundsOkBalanced(t, eval);
  }

  /** The rounds report mismatched parentheses only for a text that is not
      balanced. */
  lemma {:induction false} RoundsMismatchUnbalanced(s: string, eval: string -> Result<string>)
    requires GroupEvaluator(eval)
    ensures ParensRounds(s, eval) == Err(Mismatched) ==> !Balanced(s)
    decreases Count(s, "(")
  {
    StepWalk(s, eval);
    match ParensStep(s, eval)
    case Done(r) =>
    case Next(t) =>
      RoundsMismatchUnbalanced(t, eval);
  }

  /** Every character the rounds leave comes from the text or is one that
      number-to-string writes. */
  lemma {:induction false} RoundsChars(s: string, eval: string -> Result<string>)
    requires GroupEvaluator(eval)
    ensures ParensRounds(s, eval).Ok? ==> CharsFrom(ParensRounds(s, eval).value, s)
    decreases Count(s, "(")
  {
    StepChars(s, eval);
    match ParensStep(s, eval)
    case Done(r) =>
      CharsFromRefl(s);
    case Next(t) =>
      RoundsChars(t, eval);
      if ParensRounds(t, eval).Ok? {
        CharsFromTrans(ParensRounds(t, eval).value, t, s);
      }
  }

  /** Whenever `evaluateParens` succeeds, the text was balanced. */
  lemma ParensOkBalanced(s: string)
    ensures EvaluateParens(s).Ok? ==> Balanced(s)
  {
    SimpleGroupEvaluator();
    RoundsOkBalanced(s, EvaluateSimpleExpression);
  }

  /** `evaluateParens` reports mismatched parentheses only for a text that is
      not balanced. */
  lemma ParensMismatchUnbalanced(s: string)
    ensures EvaluateParens(s) == Err(Mismatched) ==> !Balanced(s)
  {
    SimpleGroupEvaluator();
    RoundsMismatchUnbalanced(s, EvaluateSimpleExpression);
  }

  /** Every character of the result of `evaluateParens` comes from the text
      or is one that number-to-string writes. */
  lemma ParensChars(s: string)
    ensures EvaluateParens(s).Ok? ==> CharsFrom(EvaluateParens(s).value, s)
  {
    SimpleGroupEvaluator();
    RoundsChars(s, EvaluateSimpleExpression);
  }

  /** The value of the last group holds no `)`: neither does the group. */
  lemma NoCloseInValue(s: string, i: nat, j: nat, v: string)
    requires i < j <= |s| && ')' !in s[i..j] && CharsFrom(v, s[i + 1..j])
    ensures ')' !in v
  {
    NotInSlice(s, ')', i, j, i + 1, j);
    forall k | 0 <= k < |v| ensures v[k] != ')' {
      assert v[k] in s[i + 1..j] || IsNumeralChar(v[k]);
    }
  }
}
