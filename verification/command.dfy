/** The command router (command.js:19-73): one trimmed line of chat text
    becomes a reply, and an assignment also becomes a new store. */
module Command {
  import opened Chars
  import opened Results
  import opened Variables
  import opened Evaluator

  /** What `execute` returns: a text, or the bare number `getVariable` gives back. */
  datatype Output = Reply(text: string) | Value(x: real)

  const Unrecognized: string := "Error: Unrecognized command"

  const HelpText: string :=
    "\nCommands:\n"
    + "hello\n    Output \"world\"\n"
    + "author\n    Output author name\n"
    + "help\n    Output this help message\n"
    + "\nThis bot can also perform basic mathematical calculations "
    + "(exponents are not supported). Variables may be assigned using "
    + "the format:\nx = 1\nVariable names may consist of a single "
    + "letter and are case sensitive. Variables may also be used in "
    + "calculations. For example:\na = 1\nb = 2\n2 * (a+b)\n-> 6"

  /** The branch `execute` takes for a trimmed command, in the order it tests them. */
  datatype Route = Hello | Author | Help | Equation | Expression | Lookup | Other

  function RouteOf(c: string): (r: Route) {
    if LowerEquals(c, "hello") then Hello
    else if LowerEquals(c, "author") then Author
    else if LowerEquals(c, "help") then Help
    else if '=' in c then Equation
    else if HasOperator(c) then Expression
    else if IsVarName(c) then Lookup
    else Other
  }

  /** A keyword is made of letters only, so no keyword holds `=` or an operator. */
  lemma KeywordLetters(c: string, word: string)
    requires word == "hello" || word == "author" || word == "help"
    requires LowerEquals(c, word)
    ensures forall k :: 0 <= k < |c| ==> IsLetter(c[k])
    ensures '=' !in c && !HasOperator(c)
  {
    forall k | 0 <= k < |c| ensures IsLetter(c[k]) {
      assert IsLetter(word[k]);
      assert LowerAscii(c[k]) == word[k];
    }
  }

  /** The keyword tests come first in the source, yet the routes are told
      apart by plain facts about the text: `=` anywhere makes an equation,
      an operator without `=` an expression, a lone letter a lookup. */
  lemma {:induction false} RouteMeans(c: string)
    ensures RouteOf(c) == Equation <==> '=' in c
    ensures RouteOf(c) == Expression <==> '=' !in c && HasOperator(c)
    ensures RouteOf(c) == Lookup <==> IsVarName(c)
    ensures RouteOf(c) in {Hello, Author, Help} <==>
      LowerEquals(c, "hello") || LowerEquals(c, "author") || LowerEquals(c, "help")
    ensures RouteOf(c) == Other <==>
      && !LowerEquals(c, "hello") && !LowerEquals(c, "author") && !LowerEquals(c, "help")
      && '=' !in c && !HasOperator(c) && !IsVarName(c)
  {
    if LowerEquals(c, "hello") {
      KeywordLetters(c, "hello");
    } else if LowerEquals(c, "author") {
      KeywordLetters(c, "author");
    } else if LowerEquals(c, "help") {
      KeywordLetters(c, "help");
    }
    if IsVarName(c) {
      assert !LowerEquals(c, "hello") && !LowerEquals(c, "author") && !LowerEquals(c, "help");
      assert c[0] != '=' && !IsOperator(c[0]);
    }
  }

  /** The reply to an error: `err.toString()`, with the store left alone. */
  function Failed(e: Error, store: Store): (Output, Store) {
    (Reply(Message(e)), store)
  }

  /** `execute(command, account)`: the reply and the store afterwards. */
  function Execute(command: string, account: string, store: Store): (r: (Output, Store))
    ensures r.0.Value? <==> IsVarName(Trim(command)) && GetVariable(store, Trim(command), account).Ok?
    ensures r.0.Value? ==> r.0.x == GetVariable(store, Trim(command), account).value
    ensures '=' !in Trim(command) ==> r.1 == store
  {
    var c := Trim(command);
    RouteMeans(c);
    match RouteOf(c)
    case Hello => (Reply("world"), store)
    case Author => (Reply("Bill Bryant"), store)
    case Help => (Reply(HelpText), store)
    case Equation =>
      (match EvaluateEquation(c, store, account)
       case Err(e) => Failed(e, store)
       case Ok((text, st)) => (Reply(text), st))
    case Expression =>
      (match EvaluateExpression(c, VarsOf(store, account))
       case Err(e) => Failed(e, store)
       case Ok(v) => (Reply(v), store))
    case Lookup =>
      (match GetVariable(store, c, account)
       case Err(e) => Failed(e, store)
       case Ok(x) => (Value(x), store))
    case Other => (Reply(Unrecognized), store)
  }

  /** The three keywords answer whatever their letters' case and whatever
      whitespace surrounds them, and change nothing. */
  lemma KeywordReplies(command: string, account: string, store: Store)
    ensures LowerEquals(Trim(command), "hello") ==> Execute(command, account, store) == (Reply("world"), store)
    ensures LowerEquals(Trim(command), "author") ==> Execute(command, account, store) == (Reply("Bill Bryant"), store)
    ensures LowerEquals(Trim(command), "help") ==> Execute(command, account, store) == (Reply(HelpText), store)
  {
  }

  /** A command with `=` is an equation, operators or not; its failure is
      reported as text and leaves the store as it was. */
  lemma EquationRoute(command: string, account: string, store: Store)
    requires '=' in Trim(command)
    ensures match EvaluateEquation(Trim(command), store, account)
      case Err(e) => Execute(command, account, store) == (Reply(Message(e)), store)
      case Ok((text, st)) => Execute(command, account, store) == (Reply(text), st)
  {
    RouteMeans(Trim(command));
  }

  /** A command with an operator and no `=` is an expression over the
      account's variables; it never changes the store. */
  lemma ExpressionRoute(command: string, account: string, store: Store)
    requires '=' !in Trim(command) && HasOperator(Trim(command))
    ensures match EvaluateExpression(Trim(command), VarsOf(store, account))
      case Err(e) => Execute(command, account, store) == (Reply(Message(e)), store)
      case Ok(v) => Execute(command, account, store) == (Reply(v), store)
  {
    RouteMeans(Trim(command));
  }

  /** Anything that is not a keyword, has no `=` nor operator and is not
      a single letter is refused with the same text. */
  lemma OtherRoute(command: string, account: string, store: Store)
    requires var c := Trim(command);
      && !LowerEquals(c, "hello") && !LowerEquals(c, "author") && !LowerEquals(c, "help")
      && '=' !in c && !HasOperator(c) && !IsVarName(c)
    ensures Execute(command, account, store) == (Reply(Unrecognized), store)
  {
    RouteMeans(Trim(command));
  }

  /** A single letter that is not set for the account reads as the
      undefined-variable error. */
  lemma UndefinedLookup(command: string, account: string, store: Store)
    requires IsVarName(Trim(command)) && GetVariable(store, Trim(command), account).Err?
    ensures Execute(command, account, store) == (Reply("Error: Variable is not defined"), store)
  {
    RouteMeans(Trim(command));
  }

  /** No command of one account changes what any other account has stored. */
  lemma {:induction false} AccountIsolation(command: string, account: string, store: Store, otherAccount: string)
    requires otherAccount != account
    ensures var st := Execute(command, account, store).1;
      && (otherAccount in st <==> otherAccount in store)
      && (otherAccount in store ==> st[otherAccount] == store[otherAccount])
  {
    var c := Trim(command);
    RouteMeans(c);
    if '=' in c {
      match EvaluateEquation(c, store, account)
      case Err(e) =>
        assert Execute(command, account, store).1 == store;
      case Ok((text, st)) =>
        assert Execute(command, account, store).1 == st;
        EquationIsolation(c, store, account, "a", otherAccount);
    }
  }

  /** Trimming drops the spaces around a worked command. */
  lemma TrimExample()
    ensures Trim("  HeLLo ") == "HeLLo"
  {
    var s := "  HeLLo ";
    assert IsWhitespace(s[0]) && IsWhitespace(s[1]) && !IsWhitespace(s[2]);
    assert TrimStart(s) == 2;
    assert !IsWhitespace(s[6]) && IsWhitespace(s[7]);
    assert TrimEnd(s, 2) == 7;
    assert s[2..7] == "HeLLo";
  }

  lemma HelloIsKeyword()
    ensures LowerEquals("HeLLo", "hello")
  {
  }

  /** `fakecommand` is no keyword, holds no `=` nor operator and is no
      variable name. */
  lemma FakeCommandIsOther()
    ensures var c := "fakecommand";
      && !LowerEquals(c, "hello") && !LowerEquals(c, "author") && !LowerEquals(c, "help")
      && '=' !in c && !HasOperator(c) && !IsVarName(c)
  {
    var c := "fakecommand";
    assert !HasOperator(c);
  }

  /** Worked reply: a command that trims to `HeLLo`, such as `  HeLLo `,
      is answered `world`. */
  lemma HelloExample(command: string, account: string, store: Store)
    requires Trim(command) == "HeLLo"
    ensures Execute(command, account, store) == (Reply("world"), store)
  {
    HelloIsKeyword();
    KeywordReplies(command, account, store);
  }

  /** Worked reply: an unknown word, trimmed or not, is refused. */
  lemma UnknownExample(command: string, account: string, store: Store)
    requires Trim(command) == "fakecommand"
    ensures Execute(command, account, store) == (Reply(Unrecognized), store)
  {
    FakeCommandIsOther();
    OtherRoute(command, account, store);
  }

  /** The help text opens with its heading. */
  lemma HelpHeading()
    ensures HelpText[..10] == "\nCommands:"
  {
  }
}
