/** `evaluateExpression` and `evaluateEquation` (utils.js:349-459): the
    syntax checks around variable substitution, the arithmetic, and the
    assignment of a result to a variable.

    The store is passed in and, for an equation, returned. Substitution is
    stated per character (`Substitute`); the source instead replaces each
    defined name in turn with a global regular expression, in the order the
    account's names were first set, and `SubstituteAnyOrder` shows that
    every such order gives the per-character result for the values `Show`
    writes, which hold no letter. */
module Evaluator {
  import opened Chars
  import opened Numbers
  import opened Results
  import opened Variables
  import opened Validation
  import opened Operations
  import opened Parens

  // Variable substitution (utils.js:367-370).

  /** What character `c` becomes when the variables named in `names` are
      replaced by their values. */
  function Piece(c: char, vars: Vars, names: set<char>): string {
    if c in names && c in vars then Show(vars[c]) else [c]
  }

  /** Every character of `s` replaced by its piece. */
  function SubstituteOn(s: string, vars: Vars, names: set<char>): string
    decreases |s|
  {
    if |s| == 0 then [] else Piece(s[0], vars, names) + SubstituteOn(s[1..], vars, names)
  }

  /** Every defined variable of `s` replaced by number-to-string of its value. */
  function Substitute(s: string, vars: Vars): string {
    SubstituteOn(s, vars, vars.Keys)
  }

  /** `s.replace(new RegExp(c, 'g'), t)` for a letter `c`: every `c` becomes `t`. */
  function ReplaceAll(s: string, c: char, t: string): string
    decreases |s|
  {
    if |s| == 0 then [] else (if s[0] == c then t else [s[0]]) + ReplaceAll(s[1..], c, t)
  }

  /** The source's loop: each name of `keys`, in order, replaced everywhere
      by its value. */
  function SubstituteInOrder(s: string, vars: Vars, keys: seq<char>): string
    requires forall k :: 0 <= k < |keys| ==> keys[k] in vars
    decreases |keys|
  {
    if |keys| == 0 then s
    else SubstituteInOrder(ReplaceAll(s, keys[0], Show(vars[keys[0]])), vars, keys[1..])
  }

  lemma {:induction false} SubstituteAppend(a: string, b: string, vars: Vars, names: set<char>)
    ensures SubstituteOn(a + b, vars, names) == SubstituteOn(a, vars, names) + SubstituteOn(b, vars, names)
    decreases |a|
  {
    if |a| == 0 {
      assert a + b == b;
    } else {
      assert (a + b)[0] == a[0] && (a + b)[1..] == a[1..] + b;
      SubstituteAppend(a[1..], b, vars, names);
    }
  }

  /** Text holding none of the names is left as it is. */
  lemma {:induction false} SubstituteNone(t: string, vars: Vars, names: set<char>)
    requires forall k :: 0 <= k < |t| ==> t[k] !in names
    ensures SubstituteOn(t, vars, names) == t
    decreases |t|
  {
    if |t| > 0 {
      SubstituteNone(t[1..], vars, names);
      assert t == [t[0]] + t[1..];
    }
  }

  /** Replacing one more name everywhere, before the others, is the same as
      substituting it together with them: number-to-string, as modelled by
      `Show`, writes no letter, so the later replacements never touch it. */
  lemma {:induction false} ReplaceThenSubstitute(s: string, vars: Vars, names: set<char>, c: char)
    requires c in vars && c !in names
    requires forall n :: n in names ==> IsLetter(n)
    ensures SubstituteOn(ReplaceAll(s, c, Show(vars[c])), vars, names) == SubstituteOn(s, vars, names + {c})
    decreases |s|
  {
    if |s| > 0 {
      var head := if s[0] == c then Show(vars[c]) else [s[0]];
      ReplaceThenSubstitute(s[1..], vars, names, c);
      SubstituteAppend(head, ReplaceAll(s[1..], c, Show(vars[c])), vars, names);
      if s[0] == c {
        SubstituteNone(head, vars, names);
      } else {
        assert SubstituteOn(head, vars, names) == Piece(s[0], vars, names) + SubstituteOn([], vars, names);
      }
    }
  }

  /** Replacing distinct names one after another, in any order, substitutes
      exactly those names. */
  lemma {:induction false} SubstituteInOrderIs(s: string, vars: Vars, keys: seq<char>)
    requires forall k :: 0 <= k < |keys| ==> keys[k] in vars && IsLetter(keys[k])
    requires forall i, j :: 0 <= i < j < |keys| ==> keys[i] != keys[j]
    ensures SubstituteInOrder(s, vars, keys) == SubstituteOn(s, vars, set k | k in keys)
    decreases |keys|
  {
    if |keys| == 0 {
      SubstituteNone(s, vars, {});
      assert (set k | k in keys) == {};
    } else {
      var rest := keys[1..];
      var t := ReplaceAll(s, keys[0], Show(vars[keys[0]]));
      SubstituteInOrderIs(t, vars, rest);
      assert keys[0] !in rest by {
        forall j | 0 <= j < |rest| ensures rest[j] != keys[0] {
          assert rest[j] == keys[j + 1];
        }
      }
      ReplaceThenSubstitute(s, vars, (set k | k in rest), keys[0]);
      KeySetCons(keys);
    }
  }

  lemma KeySetCons(keys: seq<char>)
    requires |keys| > 0
    ensures (set k | k in keys[1..]) + {keys[0]} == set k | k in keys
  {
    assert keys == [keys[0]] + keys[1..];
  }

  /** The source's substitution, for any order of the account's names,
      gives the per-character substitution. */
  lemma SubstituteAnyOrder(s: string, vars: Vars, keys: seq<char>)
    requires forall c :: c in vars ==> IsLetter(c)
    requires forall i, j :: 0 <= i < j < |keys| ==> keys[i] != keys[j]
    requires forall c :: c in vars <==> c in keys
    ensures forall k :: 0 <= k < |keys| ==> keys[k] in vars
    ensures SubstituteInOrder(s, vars, keys) == Substitute(s, vars)
  {
    SubstituteInOrderIs(s, vars, keys);
    assert (set k | k in keys) == vars.Keys;
  }

  /** After substitution no defined name is left, and every other character
      of the text is still there. */
  lemma {:induction false} SubstituteRemovesNames(s: string, vars: Vars)
    requires forall c :: c in vars ==> IsLetter(c)
    ensures forall k :: 0 <= k < |Substitute(s, vars)| ==> Substitute(s, vars)[k] !in vars
    ensures forall k :: 0 <= k < |s| && s[k] !in vars ==> s[k] in Substitute(s, vars)
    decreases |s|
  {
    if |s| > 0 {
      SubstituteRemovesNames(s[1..], vars);
      var p := Piece(s[0], vars, vars.Keys);
      assert Substitute(s, vars) == p + Substitute(s[1..], vars);
      forall k | 0 <= k < |p| ensures p[k] !in vars {
        if s[0] in vars {
          assert IsNumeralChar(Show(vars[s[0]])[k]);
        }
      }
      forall k | 0 <= k < |s| && s[k] !in vars ensures s[k] in Substitute(s, vars) {
        if k > 0 {
          assert s[k] == s[1..][k - 1];
        } else {
          assert p == [s[0]];
        }
      }
    }
  }

  // The arithmetic, once every check has passed (utils.js:406-415).

  /** `evaluateParens`, then `evaluateSimpleExpression` on what is left. */
  function Compute(t: string): (r: Result<string>)
    ensures r.Ok? ==> '*' !in r.value && '/' !in r.value && Settled(r.value, Sums)
    ensures r.Err? ==> r.error == Mismatched || r.error == DivideByZero || r.error == StackOverflow
  {
    match EvaluateParens(t)
    case Err(e) => Err(e)
    case Ok(u) => EvaluateSimpleExpression(u)
  }

  /** The value `Compute` finds holds no parenthesis and draws its
      characters from the text. */
  lemma ComputeChars(t: string)
    ensures Compute(t).Ok? ==> '(' !in Compute(t).value && ')' !in Compute(t).value
    ensures Compute(t).Ok? ==> CharsFrom(Compute(t).value, t)
  {
    ParensChars(t);
    match EvaluateParens(t)
    case Err(e) =>
    case Ok(u) =>
      var r := EvaluateSimpleExpression(u);
      if r.Ok? {
        CharsFromTrans(r.value, u, t);
        forall k | 0 <= k < |r.value| ensures r.value[k] != '(' && r.value[k] != ')' {
          assert r.value[k] in u || IsNumeralChar(r.value[k]);
        }
      }
  }

  // `evaluateExpression(expression, account)` (utils.js:349-416).

  /** `evaluateExpression` with the account's variables `vars`. */
  function EvaluateExpression(s: string, vars: Vars): (r: Result<string>)
    ensures IsLoneNegative(s) ==> r == Err(MissingOperator)
    ensures !IsLoneNegative(s) && VarNamePattern(s) ==> r == Err(InvalidVarName)
    ensures !IsLoneNegative(s) && !VarNamePattern(s) ==>
      r == (match CheckSyntax(Substitute(s, vars))
            case Some(e) => Err(e)
            case None => Compute(Substitute(s, vars)))
    ensures r.Ok? ==> !IsLoneNegative(s) && !VarNamePattern(s) && PassesChecks(Substitute(s, vars))
    ensures r.Err? && IsSyntaxError(r.error) ==>
      IsLoneNegative(s) || VarNamePattern(s) || !PassesChecks(Substitute(s, vars))
    ensures r.Err? && !IsSyntaxError(r.error) ==>
      PassesChecks(Substitute(s, vars)) && (r.error == Mismatched || r.error == DivideByZero || r.error == StackOverflow)
    ensures r.Ok? ==> '*' !in r.value && '/' !in r.value && Settled(r.value, Sums)
  {
    VarNameMeans(s);
    if IsLoneNegative(s) then Err(MissingOperator)
    else if LetterTouches(s) then Err(InvalidVarName)
    else
      match CheckSyntax(Substitute(s, vars))
      case Some(e) => Err(e)
      case None => Compute(Substitute(s, vars))
  }

  /** A letter that names no variable survives substitution and is refused
      as an invalid character: `evaluateExpression` never reports an
      undefined variable. */
  lemma UndefinedIsInvalidChar(s: string, vars: Vars, k: nat)
    requires forall c :: c in vars ==> IsLetter(c)
    requires k < |s| && IsLetter(s[k]) && s[k] !in vars
    requires !IsLoneNegative(s) && !VarNamePattern(s)
    ensures EvaluateExpression(s, vars) == Err(InvalidChar)
  {
    VarNameMeans(s);
    SubstituteRemovesNames(s, vars);
    var t := Substitute(s, vars);
    var j :| 0 <= j < |t| && t[j] == s[k];
    assert !IsAllowed(t[j]);
    assert CheckSyntax(t) == Some(InvalidChar);
  }

  /** The checks before substitution decide alone: a lone negative number or
      a letter touching a word character is refused whatever the variables. */
  lemma ChecksBeforeSubstitution(s: string, vars1: Vars, vars2: Vars)
    requires IsLoneNegative(s) || VarNamePattern(s)
    ensures EvaluateExpression(s, vars1) == EvaluateExpression(s, vars2)
    ensures EvaluateExpression(s, vars1).Err? && IsSyntaxError(EvaluateExpression(s, vars1).error)
  {
  }

  // `evaluateEquation(equation, account)` (utils.js:439-459).

  /** `/[+\-*\/]/.test(t)`. */
  predicate HasOperator(t: string) {
    exists k :: 0 <= k < |t| && IsOperator(t[k])
  }

  /** `equation.split('=')`, first two parts: the text before the first `=`
      and the text from there to the next `=` or the end; `None` when there
      is no `=` (the second part is then undefined). */
  function SplitEquation(eq: string): (r: Option<(string, string)>)
    ensures r.None? <==> '=' !in eq
    ensures r.Some? ==>
      var (left, right) := r.value;
      var n := |left| + 1 + |right|;
      && n <= |eq|
      && eq[..|left|] == left && eq[|left|] == '=' && eq[|left| + 1..n] == right
      && (n == |eq| || eq[n] == '=')
      && '=' !in left && '=' !in right
  {
    match IndexOfFrom(eq, '=', 0)
    case None =>
      assert eq[0..] == eq;
      None
    case Some(i) =>
      var j := match IndexOfFrom(eq, '=', i + 1) case None => |eq| case Some(j) => j;
      assert eq[..i] == eq[0..i];
      assert eq[i + 1..j] == eq[i + 1..][..j - i - 1];
      Some((eq[..i], eq[i + 1..j]))
  }

  /** The value text becomes an expression to evaluate when it holds an
      operator and is not a negative number alone. */
  predicate IsExpressionValue(value: string) {
    HasOperator(value) && !IsLoneNegativeValue(value)
  }

  /** `parseFloat`'s answer as a JavaScript value. */
  function ParseValue(t: string): (v: JsValue)
    ensures v.Number? <==> ParseFloat(t).Some?
    ensures v.Number? ==> v.x == ParseFloat(t).value
    ensures !v.Number? ==> v == NaN
  {
    match ParseFloat(t)
    case None => NaN
    case Some(x) => Number(x)
  }

  /** The end of `evaluateEquation` once the value text is `v`:
      `parseFloat`, `setVariable`, and the reply `name = value`. */
  function Assign(store: Store, name: string, v: string, account: string): (r: Result<(string, Store)>)
    ensures r.Ok? <==> IsVarName(name) && ParseFloat(v).Some?
    ensures !IsVarName(name) ==> r == Err(InvalidVarName)
    ensures IsVarName(name) && ParseFloat(v).None? ==> r == Err(NotNumber)
    ensures r.Err? ==> r.error == InvalidVarName || r.error == NotNumber
    ensures r.Ok? ==> GetVariable(r.value.1, name, account) == Ok(ParseFloat(v).value)
    ensures r.Ok? ==> r.value.0 == name + " = " + Show(ParseFloat(v).value)
    ensures r.Ok? ==> r.value.1 == SetVariable(store, name, Number(ParseFloat(v).value), account).value
  {
    match SetVariable(store, name, ParseValue(v), account)
    case Err(e) => Err(e)
    case Ok(st) =>
      GetAfterSet(store, name, ParseValue(v).x, account);
      Ok((name + " = " + Show(ParseValue(v).x), st))
  }

  /** `evaluateEquation(equation, account)`: the reply text and the new store. */
  function EvaluateEquation(eq: string, store: Store, account: string): (r: Result<(string, Store)>)
    ensures '=' !in eq ==> r == Err(NoRightSide)
    ensures r.Ok? ==>
      var name := Trim(SplitEquation(eq).value.0);
      && IsVarName(name)
      && GetVariable(r.value.1, name, account).Ok?
      && r.value.0 == name + " = " + Show(GetVariable(r.value.1, name, account).value)
  {
    match SplitEquation(eq)
    case None => Err(NoRightSide)
    case Some((left, right)) =>
      var value := Trim(right);
      var evaluated := if IsExpressionValue(value) then EvaluateExpression(value, VarsOf(store, account)) else Ok(value);
      match evaluated
      case Err(e) => Err(e)
      case Ok(v) => Assign(store, Trim(left), v, account)
  }

  /** An equation changes at most the variable it names, and nothing of
      any other account. */
  lemma EquationIsolation(eq: string, store: Store, account: string, other: string, otherAccount: string)
    requires EvaluateEquation(eq, store, account).Ok?
    requires otherAccount != account || other != Trim(SplitEquation(eq).value.0)
    ensures GetVariable(EvaluateEquation(eq, store, account).value.1, other, otherAccount) == GetVariable(store, other, otherAccount)
    ensures forall a :: a != account ==> (a in EvaluateEquation(eq, store, account).value.1 <==> a in store)
    ensures forall a :: a != account && a in store ==> EvaluateEquation(eq, store, account).value.1[a] == store[a]
  {
    var (left, right) := SplitEquation(eq).value;
    var value := Trim(right);
    var v := if IsExpressionValue(value) then EvaluateExpression(value, VarsOf(store, account)).value else value;
    assert EvaluateEquation(eq, store, account) == Assign(store, Trim(left), v, account);
    SetIsolation(store, Trim(left), Number(ParseFloat(v).value), account, other, otherAccount);
  }

  /** An equation never fails for an undefined variable nor for an operand
      that is not a number: those errors do not arise on its paths. */
  lemma EquationErrors(eq: string, store: Store, account: string)
    ensures EvaluateEquation(eq, store, account).Err? ==>
      var e := EvaluateEquation(eq, store, account).error;
      e != Undefined && !e.NotANumber?
  {
    match SplitEquation(eq)
    case None =>
    case Some((left, right)) =>
      var value := Trim(right);
      if IsExpressionValue(value) {
        var r := EvaluateExpression(value, VarsOf(store, account));
        if r.Ok? {
          assert EvaluateEquation(eq, store, account) == Assign(store, Trim(left), r.value, account);
        } else {
          assert IsSyntaxError(r.error) || r.error == Mismatched || r.error == DivideByZero || r.error == StackOverflow;
          assert EvaluateEquation(eq, store, account) == Err(r.error);
        }
      } else {
        assert EvaluateEquation(eq, store, account) == Assign(store, Trim(left), value, account);
      }
  }

  /** A value that is a number (no operator, or a negative number alone) is
      stored as `parseFloat` reads it, without evaluation; a value
      `parseFloat` cannot read is refused once the name is valid. */
  lemma EquationPlainValue(eq: string, store: Store, account: string)
    requires SplitEquation(eq).Some?
    requires !IsExpressionValue(Trim(SplitEquation(eq).value.1))
    ensures var name, value := Trim(SplitEquation(eq).value.0), Trim(SplitEquation(eq).value.1);
      EvaluateEquation(eq, store, account) == (
        if !IsVarName(name) then Err(InvalidVarName)
        else match ParseFloat(value)
          case None => Err(NotNumber)
          case Some(x) => Ok((name + " = " + Show(x), SetVariable(store, name, Number(x), account).value)))
  {
  }

  /** A value that is an expression is evaluated first: its failure is the
      equation's, even when the name is invalid too, and its result is what
      `parseFloat` reads and stores. */
  lemma EquationEvaluatesFirst(eq: string, store: Store, account: string)
    requires SplitEquation(eq).Some?
    requires IsExpressionValue(Trim(SplitEquation(eq).value.1))
    ensures var name, value := Trim(SplitEquation(eq).value.0), Trim(SplitEquation(eq).value.1);
      match EvaluateExpression(value, VarsOf(store, account))
      case Err(e) => EvaluateEquation(eq, store, account) == Err(e)
      case Ok(v) =>
        EvaluateEquation(eq, store, account) == (
          if !IsVarName(name) then Err(InvalidVarName)
          else match ParseFloat(v)
            case None => Err(NotNumber)
            case Some(x) => Ok((name + " = " + Show(x), SetVariable(store, name, Number(x), account).value)))
  {
  }

  /** A negative number alone is not an expression. */
  lemma LoneNegativeExample(vars: Vars)
    ensures EvaluateExpression("-6", vars) == Err(MissingOperator)
  {
    assert IsLoneNegative("-6");
  }

  /** A name longer than one letter is refused before any substitution. */
  lemma LongNameExample(vars: Vars)
    ensures EvaluateExpression("abc + 1", vars) == Err(InvalidVarName)
  {
    var s := "abc + 1";
    assert IsWordChar(s[0]) && IsWordChar(s[1]) && IsLetter(s[0]);
  }
}
