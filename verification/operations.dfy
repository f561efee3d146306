/** `doOperation` and `evaluateSimpleExpression` (utils.js:109-199): the
    repeated search-and-replace that evaluates a parenthesis-free expression,
    one operator class at a time.

    `doOperation` replaces the leftmost match of

      ((?:(?:^|[ops] *)-)?\d+(?:\.\d+)?|\.\d+) *([ops]) *(-?\d+(?:\.\d+)?|\.\d+)

    (the operand patterns written out, `ops` the operator class) by
    `getResult` of its groups, counts the operator characters left, removes a
    whole-string double negative, counts the negative numbers, and calls
    itself again unless every operator character left is the sign of a
    negative number. Here the search is a greedy scanner per start position
    (`MatchAt`), shown equal to the pattern's backtracking semantics
    (`IsMatch`, `MatchAtSound`, `MatchAtComplete`); the recursion carries a
    fuel bound that stands for the engine's call stack. */
module Operations {
  import opened Chars
  import opened Numbers
  import opened Results
  import opened Arithmetic

  /** How deep `doOperation` may recurse before the engine's stack overflows. */
  const StackLimit: nat := 10000

  /** The operator characters between `[` and `]`, such as multiplication with division, or `+-`. */
  predicate IsOperatorClass(ops: string) {
    |ops| > 0 && forall k :: 0 <= k < |ops| ==> IsOperator(ops[k])
  }

  /** A match of the pattern: the first group is `s[start..firstEnd]`, the
      operator is at `opAt`, the third group is `s[secondStart..end]`. */
  datatype Match = Match(start: nat, firstEnd: nat, opAt: nat, secondStart: nat, end: nat)

  /** The texts the first group can capture at `p`: a plain number, a decimal
      after a minus sign at the very start (`^-`), or an operator, spaces, a
      minus sign and a decimal. */
  ghost predicate IsFirstGroup(t: string, atStart: bool) {
    || IsDecimal(t)
    || IsFraction(t)
    || IsPrefixedOperand(t)
    || (atStart && IsNegativeDecimal(t))
  }

  /** The pattern matches `s` at `m.start` with these groups, in the sense of
      a backtracking matcher: any split of the text that fits the pattern. */
  ghost predicate IsMatch(s: string, ops: string, m: Match) {
    && m.start < m.firstEnd <= m.opAt < m.secondStart < m.end <= |s|
    && IsFirstGroup(s[m.start..m.firstEnd], m.start == 0)
    && (forall k :: m.firstEnd <= k < m.opAt ==> s[k] == ' ')
    && s[m.opAt] in ops
    && (forall k :: m.opAt < k < m.secondStart ==> s[k] == ' ')
    && IsOperandNumber(s[m.secondStart..m.end])
  }

  lemma FirstGroupIsOperand(t: string, atStart: bool)
    requires IsFirstGroup(t, atStart)
    ensures IsFirstOperand(t)
  {
  }

  /** Where the first group ends when the match starts at `p`; the three
      branches are the pattern's alternatives in the order it tries them, and
      at most one of them applies. */
  function FirstOperandEnd(s: string, p: nat): (r: Option<nat>)
    requires p <= |s|
    ensures r.Some? ==> p < r.value <= |s|
  {
    if p == 0 && NegativeEnd(s).Some? then NegativeEnd(s)
    else if p < |s| && IsOperator(s[p]) then PrefixedEnd(s, p)
    else if NumberLen(s, p) > 0 then Some(p + NumberLen(s, p))
    else None
  }

  /** `^-` and a decimal: where a negative number at the very start ends. */
  function NegativeEnd(s: string): (r: Option<nat>)
    ensures r.Some? ==> 1 < r.value <= |s|
  {
    if 0 < |s| && s[0] == '-' && DecimalLen(s, 1) > 0 then Some(1 + DecimalLen(s, 1)) else None
  }

  /** `[*\/+\-] *-` and a decimal: where an operator followed by a negative
      number ends, when the operator is at `p`. */
  function PrefixedEnd(s: string, p: nat): (r: Option<nat>)
    requires p < |s|
    ensures r.Some? ==> p + 2 < r.value <= |s|
  {
    var k := RunEnd(s, p + 1, Spaces);
    if k < |s| && s[k] == '-' && DecimalLen(s, k + 1) > 0 then Some(k + 1 + DecimalLen(s, k + 1)) else None
  }

  /** What `FirstOperandEnd` scans is a first group of the pattern. */
  lemma FirstOperandEndSound(s: string, p: nat)
    requires p <= |s| && FirstOperandEnd(s, p).Some?
    ensures IsFirstGroup(s[p..FirstOperandEnd(s, p).value], p == 0)
  {
    if p == 0 && NegativeEnd(s).Some? {
      NegativeEndSound(s);
    } else if p < |s| && IsOperator(s[p]) {
      PrefixedEndSound(s, p);
    } else {
      NumberAtSound(s, p);
    }
  }

  lemma NegativeEndSound(s: string)
    requires NegativeEnd(s).Some?
    ensures IsFirstGroup(s[0..NegativeEnd(s).value], true)
  {
    var e := NegativeEnd(s).value;
    DecimalLenSound(s, 1);
    assert s[0..e][1..] == s[1..e];
  }

  lemma PrefixedEndSound(s: string, p: nat)
    requires p < |s| && IsOperator(s[p]) && PrefixedEnd(s, p).Some?
    ensures IsFirstGroup(s[p..PrefixedEnd(s, p).value], p == 0)
  {
    var k := RunEnd(s, p + 1, Spaces);
    DecimalLenSound(s, k + 1);
    PrefixedAt(s, p, k, PrefixedEnd(s, p).value);
  }

  lemma NumberAtSound(s: string, p: nat)
    requires p <= |s| && NumberLen(s, p) > 0
    ensures IsFirstGroup(s[p..p + NumberLen(s, p)], p == 0)
  {
    NumberLenSound(s, p);
  }

  /** An operator at `p`, spaces up to a minus sign at `k`, and a decimal up to
      `e` make a prefixed first operand. */
  lemma PrefixedAt(s: string, p: nat, k: nat, e: nat)
    requires p < k < e <= |s|
    requires IsOperator(s[p]) && s[k] == '-'
    requires forall j :: p < j < k ==> s[j] == ' '
    requires k + 1 < e && IsDecimal(s[k + 1..e])
    ensures IsPrefixedOperand(s[p..e])
  {
    var t := s[p..e];
    RunEndUnique(t, 1, Spaces, k - p);
    assert t[k - p..][1..] == s[k + 1..e];
  }

  /** Where the third group ends when it starts at `q`: a minus sign and a
      decimal, a decimal, or a fraction. */
  function SecondOperandEnd(s: string, q: nat): (r: Option<nat>)
    requires q <= |s|
    ensures r.Some? ==> q < r.value <= |s|
  {
    if q < |s| && s[q] == '-' && DecimalLen(s, q + 1) > 0 then Some(q + 1 + DecimalLen(s, q + 1))
    else if NumberLen(s, q) > 0 then Some(q + NumberLen(s, q))
    else None
  }

  /** What `SecondOperandEnd` scans is an operand number. */
  lemma SecondOperandEndSound(s: string, q: nat)
    requires q <= |s| && SecondOperandEnd(s, q).Some?
    ensures IsOperandNumber(s[q..SecondOperandEnd(s, q).value])
  {
    var e := SecondOperandEnd(s, q).value;
    if q < |s| && s[q] == '-' && DecimalLen(s, q + 1) > 0 {
      DecimalLenSound(s, q + 1);
      assert s[q..e][1..] == s[q + 1..e];
    } else {
      NumberLenSound(s, q);
    }
  }

  /** The match of the pattern starting exactly at `p`, if there is one. */
  function MatchAt(s: string, p: nat, ops: string): (r: Option<Match>)
    requires p <= |s|
    ensures r.Some? ==> r.value.start == p < r.value.firstEnd <= r.value.opAt < r.value.secondStart < r.value.end <= |s|
  {
    match FirstOperandEnd(s, p)
    case None => None
    case Some(e1) => MatchAfterFirst(s, p, e1, ops)
  }

  /** The rest of the match once the first group is `s[p..e1]`: spaces, an
      operator of the class, spaces, and the third group. */
  function MatchAfterFirst(s: string, p: nat, e1: nat, ops: string): (r: Option<Match>)
    requires p < e1 <= |s|
    ensures r.Some? ==> r.value.start == p && r.value.firstEnd == e1 <= r.value.opAt < r.value.secondStart < r.value.end <= |s|
  {
    var k1 := RunEnd(s, e1, Spaces);
    if k1 < |s| && s[k1] in ops then
      var k2 := RunEnd(s, k1 + 1, Spaces);
      match SecondOperandEnd(s, k2)
      case None => None
      case Some(e2) => Some(Match(p, e1, k1, k2, e2))
    else None
  }

  /** What `MatchAt` finds is a match of the pattern. */
  lemma MatchAtSound(s: string, p: nat, ops: string)
    requires p <= |s| && IsOperatorClass(ops)
    requires MatchAt(s, p, ops).Some?
    ensures MatchAt(s, p, ops).value.start == p
    ensures IsMatch(s, ops, MatchAt(s, p, ops).value)
  {
    FirstOperandEndSound(s, p);
    var m := MatchAt(s, p, ops).value;
    SecondOperandEndSound(s, m.secondStart);
  }

  /** Whatever split of the text fits the pattern at `m.start`, `MatchAt` finds
      the same first group, the same operator, the same start of the third
      group and a third group at least as long: the greedy scan agrees with
      the backtracking matcher, which prefers the longest third group. */
  lemma {:induction false} MatchAtComplete(s: string, ops: string, m: Match)
    requires IsOperatorClass(ops) && IsMatch(s, ops, m)
    ensures MatchAt(s, m.start, ops).Some?
    ensures var r := MatchAt(s, m.start, ops).value;
      r.firstEnd == m.firstEnd && r.opAt == m.opAt && r.secondStart == m.secondStart && r.end >= m.end
  {
    FirstOperandEndUnique(s, ops, m);
    MatchAfterFirstComplete(s, ops, m);
  }

  /** The rest of any match is the one `MatchAfterFirst` scans. */
  lemma MatchAfterFirstComplete(s: string, ops: string, m: Match)
    requires IsOperatorClass(ops) && IsMatch(s, ops, m)
    ensures MatchAfterFirst(s, m.start, m.firstEnd, ops).Some?
    ensures var r := MatchAfterFirst(s, m.start, m.firstEnd, ops).value;
      r.opAt == m.opAt && r.secondStart == m.secondStart && r.end >= m.end
  {
    OperatorOfClass(s[m.opAt], ops);
    RunEndUnique(s, m.firstEnd, Spaces, m.opAt);
    assert s[m.secondStart] != ' ' by {
      assert s[m.secondStart..m.end][0] == s[m.secondStart];
    }
    RunEndUnique(s, m.opAt + 1, Spaces, m.secondStart);
    SecondOperandEndAtLeast(s, m.secondStart, m.end);
  }

  /** The first group of any match is the one `FirstOperandEnd` scans. */
  lemma {:induction false} FirstOperandEndUnique(s: string, ops: string, m: Match)
    requires IsOperatorClass(ops) && IsMatch(s, ops, m)
    ensures FirstOperandEnd(s, m.start) == Some(m.firstEnd)
  {
    var p, e := m.start, m.firstEnd;
    var t := s[p..e];
    assert NumberEnds(s, e) by {
      if e == m.opAt {
        OperatorOfClass(s[e], ops);
      }
    }
    if IsDecimal(t) {
      FirstEndDecimal(s, p, e);
    } else if IsFraction(t) {
      FirstEndFraction(s, p, e);
    } else if IsPrefixedOperand(t) {
      FirstEndPrefixed(s, p, e);
    } else {
      assert t[0] == s[0] && t[1..] == s[1..e];
      FirstEndNegative(s, e);
    }
  }

  /** Neither a digit nor a dot follows position `e`: a number written up to
      `e` cannot be read any longer. */
  predicate NumberEnds(s: string, e: nat) {
    e == |s| || (e < |s| && !IsDigit(s[e]) && s[e] != '.')
  }

  lemma OperatorOfClass(c: char, ops: string)
    requires IsOperatorClass(ops) && c in ops
    ensures IsOperator(c)
  {
    var j :| 0 <= j < |ops| && ops[j] == c;
  }

  lemma FirstEndDecimal(s: string, p: nat, e: nat)
    requires p < e <= |s| && IsDecimal(s[p..e]) && NumberEnds(s, e)
    ensures FirstOperandEnd(s, p) == Some(e)
  {
    assert s[p..e][0] == s[p];
    DecimalLenExact(s, p, e);
  }

  lemma FirstEndFraction(s: string, p: nat, e: nat)
    requires p < e <= |s| && IsFraction(s[p..e]) && NumberEnds(s, e)
    ensures FirstOperandEnd(s, p) == Some(e)
  {
    assert s[p..e][0] == s[p];
    FractionLenAtLeast(s, p, e);
  }

  lemma FirstEndPrefixed(s: string, p: nat, e: nat)
    requires p < e <= |s| && IsPrefixedOperand(s[p..e]) && NumberEnds(s, e)
    ensures FirstOperandEnd(s, p) == Some(e)
  {
    var k := PrefixedParts(s, p, e);
    FirstEndAfterOperator(s, p, k, e);
  }

  /** The parts of a prefixed first operand `s[p..e]`: the operator at `p`,
      spaces, and the minus sign at the returned position. */
  lemma PrefixedParts(s: string, p: nat, e: nat) returns (k: nat)
    requires p < e <= |s| && IsPrefixedOperand(s[p..e])
    ensures p < k && k + 1 < e
    ensures IsOperator(s[p]) && s[k] == '-' && IsDecimal(s[k + 1..e])
    ensures forall j :: p < j < k ==> s[j] == ' '
  {
    var t := s[p..e];
    var d := RunEnd(t, 1, Spaces);
    k := p + d;
    assert t[d..][0] == t[d];
    assert t[0] == s[p];
    assert t[d] == s[k];
    forall j | p < j < k ensures s[j] == ' ' {
      assert t[j - p] == s[j];
    }
    assert t[d..][1..] == s[k + 1..e];
  }

  lemma FirstEndAfterOperator(s: string, p: nat, k: nat, e: nat)
    requires p < k && k + 1 < e <= |s|
    requires IsOperator(s[p]) && s[k] == '-' && IsDecimal(s[k + 1..e]) && NumberEnds(s, e)
    requires forall j :: p < j < k ==> s[j] == ' '
    ensures FirstOperandEnd(s, p) == Some(e)
  {
    assert !IsDigit(s[p + 1]);
    RunEndUnique(s, p + 1, Spaces, k);
    DecimalLenExact(s, k + 1, e);
    assert PrefixedEnd(s, p) == Some(e);
  }

  lemma FirstEndNegative(s: string, e: nat)
    requires 2 <= e <= |s| && s[0] == '-' && IsDecimal(s[1..e]) && NumberEnds(s, e)
    ensures FirstOperandEnd(s, 0) == Some(e)
  {
    DecimalLenExact(s, 1, e);
  }

  /** The greedy third group reaches at least as far as any number written at `q`. */
  lemma SecondOperandEndAtLeast(s: string, q: nat, e: nat)
    requires q < e <= |s| && IsOperandNumber(s[q..e])
    ensures SecondOperandEnd(s, q).Some? && SecondOperandEnd(s, q).value >= e
  {
    var t := s[q..e];
    assert t[0] == s[q];
    if IsDecimal(t) {
      DecimalLenAtLeast(s, q, e);
    } else if IsFraction(t) {
      FractionLenAtLeast(s, q, e);
    } else {
      assert t[1..] == s[q + 1..e];
      DecimalLenAtLeast(s, q + 1, e);
    }
  }

  /** The match, if any, at every start position of `s`. */
  function Candidates(s: string, ops: string): (c: seq<Option<Match>>)
    ensures |c| == |s|
    ensures forall p :: 0 <= p < |s| ==> c[p] == MatchAt(s, p, ops)
  {
    seq(|s|, p requires 0 <= p < |s| => MatchAt(s, p, ops))
  }

  /** The first position at or after `from` whose candidate is a match. */
  function Leftmost(c: seq<Option<Match>>, from: nat): (r: Option<nat>)
    requires from <= |c|
    ensures r.Some? ==> from <= r.value < |c| && c[r.value].Some?
    ensures r.Some? ==> forall p :: from <= p < r.value ==> c[p].None?
    ensures r.None? ==> forall p :: from <= p < |c| ==> c[p].None?
    decreases |c| - from
  {
    if from == |c| then None
    else if c[from].Some? then Some(from)
    else Leftmost(c, from + 1)
  }

  /** The leftmost match: `String.prototype.replace` with a non-global
      pattern replaces only this one. No position before it has a match, and
      when there is none, no position has one. */
  function FindMatch(s: string, ops: string): (r: Option<Match>)
    ensures r.Some? ==> r.value.start < |s| && MatchAt(s, r.value.start, ops) == r
    ensures forall p :: 0 <= p < |s| && (r.None? || p < r.value.start) ==> MatchAt(s, p, ops).None?
    ensures r.Some? && IsOperatorClass(ops) ==> IsMatch(s, ops, r.value)
  {
    var c := Candidates(s, ops);
    match Leftmost(c, 0)
    case None => None
    case Some(p) =>
      if IsOperatorClass(ops) then MatchAtSound(s, p, ops); c[p] else c[p]
  }

  /** `FindMatch` from the start finds the leftmost match of the pattern, with
      its longest third group, and finds nothing exactly when the pattern
      matches nowhere. */
  lemma {:induction false} FindMatchLeftmost(s: string, ops: string)
    requires IsOperatorClass(ops)
    ensures FindMatch(s, ops).None? <==> forall m :: !IsMatch(s, ops, m)
    ensures FindMatch(s, ops).Some? ==>
      var r := FindMatch(s, ops).value;
      && IsMatch(s, ops, r)
      && forall m :: IsMatch(s, ops, m) ==> r.start <= m.start && (m.start == r.start ==> m.end <= r.end)
  {
    var f := FindMatch(s, ops);
    forall m | IsMatch(s, ops, m)
      ensures f.Some? && f.value.start <= m.start && (m.start == f.value.start ==> m.end <= f.value.end)
    {
      MatchAtComplete(s, ops, m);
    }
    if f.Some? {
      MatchAtSound(s, f.value.start, ops);
    }
  }

  /** One `expressionStr.replace(pattern, getResult)`: the leftmost match is
      replaced by `getResult` of its groups; with no match the text stays. */
  function Step(s: string, ops: string): (r: Result<string>)
    requires IsOperatorClass(ops)
    ensures FindMatch(s, ops).None? ==> r == Ok(s)
    ensures FindMatch(s, ops).Some? ==>
      var m := FindMatch(s, ops).value;
      var res := GetResult(s[m.start..m.firstEnd], s[m.opAt], s[m.secondStart..m.end]);
      && (r.Ok? <==> res.Ok?)
      && (r.Ok? ==> r.value == Splice(s, m.start, m.end, res.value))
      && (r.Err? ==> r.error == res.error)
    ensures r.Err? ==> r.error == DivideByZero
    ensures r.Ok? ==> CharsFrom(r.value, s)
  {
    match FindMatch(s, ops)
    case None => Ok(s)
    case Some(m) =>
      MatchAtSound(s, m.start, ops);
      ReplaceMatch(s, ops, m)
  }

  /** The text with match `m` replaced by `getResult` of its groups. `calc`
      never sees an operand that is not a number here, so the only error is
      division by zero. */
  function ReplaceMatch(s: string, ops: string, m: Match): (r: Result<string>)
    requires IsOperatorClass(ops) && IsMatch(s, ops, m)
    ensures var res := GetResult(s[m.start..m.firstEnd], s[m.opAt], s[m.secondStart..m.end]);
      && (r.Ok? <==> res.Ok?)
      && (r.Ok? ==> r.value == Splice(s, m.start, m.end, res.value))
      && (r.Err? ==> r.error == res.error)
    ensures r.Err? <==> s[m.opAt] == '/' && ParseFloat(s[m.secondStart..m.end]) == Some(0.0)
    ensures r.Err? ==> r.error == DivideByZero
    ensures r.Ok? ==> CharsFrom(r.value, s)
    ensures r.Ok? ==> |r.value| > m.start + |s| - m.end
    ensures r.Ok? ==> r.value[..m.start] == s[..m.start]
    ensures r.Ok? ==> r.value[|r.value| - (|s| - m.end)..] == s[m.end..]
  {
    var first, second := s[m.start..m.firstEnd], s[m.secondStart..m.end];
    FirstGroupIsOperand(first, m.start == 0);
    OperatorOfClass(s[m.opAt], ops);
    OperandNumberParses(SplitOperand(first).1);
    OperandNumberParses(second);
    var res :- GetResult(first, s[m.opAt], second);
    SpliceChars(s, m.start, m.firstEnd, m.end, res);
    Ok(Splice(s, m.start, m.end, res))
  }

  /** `s` with `s[i..j]` replaced by `res`. */
  function Splice(s: string, i: nat, j: nat, res: string): (r: string)
    requires i <= j <= |s|
    ensures |r| == |s| - (j - i) + |res|
    ensures r[..i] == s[..i] && r[i..i + |res|] == res && r[i + |res|..] == s[j..]
    ensures r[|r| - (|s| - j)..] == s[j..]
  {
    s[..i] + res + s[j..]
  }

  /** Replacing part of `s` by text made of characters of that part (or of
      number-to-string) keeps every character drawn from `s`. */
  lemma SpliceChars(s: string, i: nat, f: nat, j: nat, res: string)
    requires i <= f <= j <= |s|
    requires CharsFrom(res, s[i..f])
    ensures CharsFrom(Splice(s, i, j, res), s)
  {
    var r := Splice(s, i, j, res);
    forall k | 0 <= k < |r| ensures r[k] in s || IsNumeralChar(r[k]) {
      if k < i {
        assert r[k] == s[k];
      } else if k < i + |res| {
        assert r[k] == res[k - i];
        if res[k - i] in s[i..f] {
          var x :| 0 <= x < f - i && s[i..f][x] == res[k - i];
          assert s[i + x] == r[k];
        }
      } else {
        assert r[k] == s[j + k - i - |res|];
      }
    }
  }

  /** The negative number `negNumRegex` (`(?:^|[*\/+\-] *)-` and a number)
      matches at `p`, ending where this returns. Unlike the first group of
      the main pattern, the number here may also be a bare fraction. */
  function NegAt(s: string, p: nat): (r: Option<nat>)
    requires p <= |s|
    ensures r.Some? ==> p < r.value <= |s| && exists k :: p <= k < r.value && s[k] == '-'
  {
    if p == 0 && 0 < |s| && s[0] == '-' && NumberLen(s, 1) > 0 then
      assert s[0] == '-';
      Some(1 + NumberLen(s, 1))
    else if p < |s| && IsOperator(s[p]) then
      var k := RunEnd(s, p + 1, Spaces);
      if k < |s| && s[k] == '-' && NumberLen(s, k + 1) > 0 then
        assert s[k] == '-';
        Some(k + 1 + NumberLen(s, k + 1))
      else None
    else None
  }

  /** `(?:\d+(?:\.\d+)?)|(?:\.\d+)` read as a whole string. */
  ghost predicate IsUnsignedNumber(t: string) {
    IsDecimal(t) || IsFraction(t)
  }

  /** An operator at `p`, spaces, a minus sign at `k`, and a number up to `e`. */
  ghost predicate IsSignAfterOperator(s: string, p: nat, k: nat, e: nat) {
    && p < k && k + 1 < e <= |s|
    && IsOperator(s[p])
    && (forall j :: p < j < k ==> s[j] == ' ')
    && s[k] == '-'
    && IsUnsignedNumber(s[k + 1..e])
  }

  /** `negNumRegex` matches `s[p..e]`, in the sense of a backtracking
      matcher: a minus sign at the very start (`^-`), or an operator, spaces
      and a minus sign, followed by a number. */
  ghost predicate IsNegMatch(s: string, p: nat, e: nat) {
    && p < e <= |s|
    && (|| (p == 0 && s[0] == '-' && IsUnsignedNumber(s[1..e]))
        || (exists k: nat :: IsSignAfterOperator(s, p, k, e)))
  }

  /** What `NegAt` scans is a match of `negNumRegex`. */
  lemma NegAtSound(s: string, p: nat)
    requires p <= |s| && NegAt(s, p).Some?
    ensures IsNegMatch(s, p, NegAt(s, p).value)
  {
    var e := NegAt(s, p).value;
    if p == 0 && 0 < |s| && s[0] == '-' && NumberLen(s, 1) > 0 {
      NumberLenSound(s, 1);
    } else {
      var k := RunEnd(s, p + 1, Spaces);
      NumberLenSound(s, k + 1);
      assert IsSignAfterOperator(s, p, k, e);
    }
  }

  /** Wherever `negNumRegex` can match at `p`, `NegAt` finds a match there
      reaching at least as far: the greedy scan is the matcher's first choice. */
  lemma NegAtComplete(s: string, p: nat, e: nat)
    requires IsNegMatch(s, p, e)
    ensures NegAt(s, p).Some? && NegAt(s, p).value >= e
  {
    if p == 0 && s[0] == '-' && IsUnsignedNumber(s[1..e]) {
      NumberLenAtLeast(s, 1, e);
    } else {
      var k: nat :| IsSignAfterOperator(s, p, k, e);
      SignAfterOperatorScanned(s, p, k, e);
    }
  }

  /** The operator branch of `NegAtComplete`: the start-of-text branch cannot
      fire, since a space or a minus sign follows the operator. */
  lemma SignAfterOperatorScanned(s: string, p: nat, k: nat, e: nat)
    requires IsSignAfterOperator(s, p, k, e)
    ensures NegAt(s, p).Some? && NegAt(s, p).value >= e
  {
    assert p == 0 ==> NumberLen(s, 1) == 0 by {
      if p == 0 {
        assert s[1] == ' ' || s[1] == '-';
      }
    }
    assert RunEnd(s, p + 1, Spaces) == k by {
      forall j | p + 1 <= j < k
        ensures InClass(s[j], Spaces)
      {
        assert s[j] == ' ';
      }
      RunEndUnique(s, p + 1, Spaces, k);
    }
    assert NumberLen(s, k + 1) >= e - (k + 1) by {
      NumberLenAtLeast(s, k + 1, e);
    }
    NegAtOperator(s, p, k);
  }

  /** `NegAt` takes its operator branch once the start-of-text branch is ruled out. */
  lemma NegAtOperator(s: string, p: nat, k: nat)
    requires p < k < |s| && IsOperator(s[p]) && RunEnd(s, p + 1, Spaces) == k
    requires s[k] == '-' && NumberLen(s, k + 1) > 0
    requires p == 0 ==> NumberLen(s, 1) == 0
    ensures NegAt(s, p) == Some(k + 1 + NumberLen(s, k + 1))
  {
  }

  /** The greedy number at `i` reaches at least as far as any number written at `i`. */
  lemma NumberLenAtLeast(s: string, i: nat, j: nat)
    requires i < j <= |s| && IsUnsignedNumber(s[i..j])
    ensures NumberLen(s, i) >= j - i
  {
    assert s[i..j][0] == s[i];
    if IsDecimal(s[i..j]) {
      DecimalLenAtLeast(s, i, j);
    } else {
      FractionLenAtLeast(s, i, j);
    }
  }

  /** Number of matches of the global `negNumRegex` from `p` on: after a
      match the search resumes where it ended. There are never more of them
      than minus signs. */
  function NegCountFrom(s: string, p: nat): (n: nat)
    requires p <= |s|
    ensures n <= CountFrom(s, "-", p)
    decreases |s| - p
  {
    if p == |s| then 0
    else
      match NegAt(s, p)
      case Some(e) =>
        CountFromRange(s, '-', "-", p, e);
        1 + NegCountFrom(s, e)
      case None => NegCountFrom(s, p + 1)
  }

  /** A range holding a counted character adds at least one to `CountFrom`. */
  lemma CountFromRange(s: string, c: char, cs: string, p: nat, e: nat)
    requires p < e <= |s| && c in cs
    requires exists k :: p <= k < e && s[k] == c
    ensures CountFrom(s, cs, p) >= 1 + CountFrom(s, cs, e)
    decreases e - p
  {
    if s[p] != c {
      CountFromRange(s, c, cs, p + 1, e);
    } else {
      CountFromMonotone(s, cs, p + 1, e);
    }
  }

  lemma CountFromMonotone(s: string, cs: string, p: nat, e: nat)
    requires p <= e <= |s|
    ensures CountFrom(s, cs, p) >= CountFrom(s, cs, e)
    decreases e - p
  {
    if p < e {
      CountFromMonotone(s, cs, p + 1, e);
    }
  }

  function NegCount(s: string): nat {
    NegCountFrom(s, 0)
  }

  /** `^(- *-)(number)$` as a whole-string test: two minus signs and a number. */
  ghost predicate IsDoubleNegative(s: string) {
    && |s| > 0 && s[0] == '-'
    && var k := RunEnd(s, 1, Spaces);
    && k < |s| && s[k] == '-' && IsNumber(s[k + 1..])
  }

  /** `expressionStr.replace(doubleNegRegex, '$2')`: a whole-string double
      negative becomes its number; anything else stays. */
  function DoubleNeg(s: string): (r: string)
    ensures IsDoubleNegative(s) ==> r == s[RunEnd(s, 1, Spaces) + 1..]
    ensures !IsDoubleNegative(s) ==> r == s
  {
    if |s| > 0 && s[0] == '-' then
      var k := RunEnd(s, 1, Spaces);
      if k < |s| && s[k] == '-' then
        NumberAtEnd(s, k + 1);
        if k + 1 < |s| && NumberLen(s, k + 1) == |s| - k - 1 then s[k + 1..] else s
      else s
    else s
  }

  /** What `DoubleNeg` leaves is either its input or a bare number, which
      holds no operator and no negative number; its characters come from its
      input. */
  lemma DoubleNegResult(s: string, ops: string)
    requires IsOperatorClass(ops)
    ensures CharsFrom(DoubleNeg(s), s)
    ensures DoubleNeg(s) != s ==> IsNumber(DoubleNeg(s)) && NegCount(DoubleNeg(s)) == 0 && Count(DoubleNeg(s), ops) == 0
  {
    var r := DoubleNeg(s);
    if r != s {
      var k := RunEnd(s, 1, Spaces);
      assert r == s[k + 1..];
      NumberHasNoNegatives(r);
      NumberHasNoOperators(r, ops);
    }
  }

  /** A number that runs to the end of `s` is a whole-string number there. */
  lemma NumberAtEnd(s: string, i: nat)
    requires i <= |s|
    ensures (i < |s| && NumberLen(s, i) == |s| - i) <==> IsNumber(s[i..])
  {
    NumberLenShift(s, i);
  }

  /** `NumberLen` reads the same text in a suffix. */
  lemma NumberLenShift(s: string, i: nat)
    requires i <= |s|
    ensures NumberLen(s[i..], 0) == NumberLen(s, i)
  {
    RunEndShift(s, i, 0, Digits);
    var a := RunEnd(s, i, Digits);
    if a < |s| {
      RunEndShift(s, i, a - i + 1, Digits);
    }
    if i + 1 <= |s| {
      RunEndShift(s, i, 1, Digits);
    }
  }

  lemma RunEndShift(t: string, k: nat, i: nat, cls: Class)
    requires k + i <= |t|
    ensures RunEnd(t[k..], i, cls) == RunEnd(t, k + i, cls) - k
    decreases |t| - k - i
  {
    if k + i < |t| && InClass(t[k + i], cls) {
      RunEndShift(t, k, i + 1, cls);
    }
  }

  /** All operator characters left are signs of negative numbers: the
      condition on which `doOperation` stops. */
  predicate Settled(s: string, ops: string) {
    Count(s, ops) == 0 || ('-' in ops && NegCount(s) == Count(s, ops))
  }

  /** `doOperation(expressionStr, operator)`; `fuel` is the stack the engine has left. */
  function DoOperation(s: string, ops: string, fuel: nat): (r: Result<string>)
    requires IsOperatorClass(ops)
    ensures r.Ok? ==> Settled(r.value, ops)
    ensures r.Err? ==> r.error == DivideByZero || r.error == StackOverflow
    ensures r.Ok? ==> CharsFrom(r.value, s)
    ensures fuel > 0 && Count(s, ops) == 0 ==> r == Ok(s)
    ensures fuel > 0 && Step(s, ops).Err? ==> r == Step(s, ops)
    decreases fuel
  {
    if fuel == 0 then Err(StackOverflow)
    else
      NoOperatorNoMatch(s, ops);
      match Step(s, ops)
      case Err(e) => Err(e)
      case Ok(s1) =>
      var opCount := Count(s1, ops);
      var negative := opCount > 0 && '-' in ops;
      var s2 := if negative then DoubleNeg(s1) else s1;
      var negCount := if negative then NegCount(s2) else 0;
      DoubleNegResult(s1, ops);
      CharsFromRefl(s1);
      CharsFromTrans(s2, s1, s);
      if opCount == 0 || (negCount > 0 && negCount == opCount) then
        Ok(s2)
      else
        var r := DoOperation(s2, ops, fuel - 1);
        if r.Ok? then CharsFromTrans(r.value, s2, s); r else r
  }

  /** Without an operator character there is nothing the pattern can match. */
  lemma NoOperatorNoMatch(s: string, ops: string)
    requires IsOperatorClass(ops)
    ensures Count(s, ops) == 0 ==> FindMatch(s, ops).None?
  {
    if FindMatch(s, ops).Some? {
      var m := FindMatch(s, ops).value;
      MatchAtSound(s, m.start, ops);
      assert s[m.opAt] in ops;
    }
  }

  /** A bare number holds no negative number. */
  lemma NumberHasNoNegatives(t: string)
    requires IsNumber(t)
    ensures NegCount(t) == 0
  {
    NumberChars(t);
    NoMinusNoNegatives(t, 0);
  }

  lemma NoMinusNoNegatives(t: string, p: nat)
    requires p <= |t|
    requires forall k :: p <= k < |t| ==> IsDigit(t[k]) || t[k] == '.'
    ensures NegCountFrom(t, p) == 0
    decreases |t| - p
  {
    if p < |t| {
      NoMinusNoNegatives(t, p + 1);
    }
  }

  /** A bare number is made of digits and dots only. */
  lemma NumberChars(t: string)
    requires IsNumber(t)
    ensures forall k :: 0 <= k < |t| ==> IsDigit(t[k]) || t[k] == '.'
  {
    IsNumberMeans(t);
  }

  lemma NumberHasNoOperators(t: string, ops: string)
    requires IsNumber(t) && IsOperatorClass(ops)
    ensures Count(t, ops) == 0
  {
    NumberChars(t);
    forall k | 0 <= k < |t| ensures t[k] !in ops {
      assert !IsOperator(t[k]);
      assert forall j :: 0 <= j < |ops| ==> ops[j] != t[k];
    }
  }

  /** The two operator classes in order of precedence. */
  const Products: string := "*/"
  const Sums: string := "+-"

  lemma OperatorClassesValid()
    ensures IsOperatorClass(Products) && IsOperatorClass(Sums)
    ensures '-' !in Products && '-' in Sums
  {
  }

  /** `evaluateSimpleExpression`: multiplication and division first, then
      addition and subtraction. */
  function EvaluateSimpleExpression(s: string): (r: Result<string>)
    ensures r.Ok? ==> '*' !in r.value && '/' !in r.value
    ensures r.Ok? ==> Settled(r.value, Sums)
    ensures r.Err? ==> r.error == DivideByZero || r.error == StackOverflow
    ensures r.Ok? ==> CharsFrom(r.value, s)
    ensures Count(s, "*/+-") == 0 ==> r == Ok(s)
  {
    OperatorClassesValid();
    OperatorClasses(s);
    match DoOperation(s, Products, StackLimit)
    case Err(e) => Err(e)
    case Ok(t) =>
      var r := DoOperation(t, Sums, StackLimit);
      if r.Ok? then
        NoProductsLeft(r.value, t, s);
        r
      else r
  }

  /** What is left of a text without `*` or `/` has none either. */
  lemma NoProductsLeft(r: string, t: string, s: string)
    requires Count(t, Products) == 0
    requires CharsFrom(r, t) && CharsFrom(t, s)
    ensures '*' !in r && '/' !in r
    ensures CharsFrom(r, s)
  {
    CharsFromTrans(r, t, s);
    forall k | 0 <= k < |r| ensures r[k] != '*' && r[k] != '/' {
      if r[k] in t {
        var j :| 0 <= j < |t| && t[j] == r[k];
        assert t[j] !in Products;
      }
    }
  }

  /** No character of any operator means none of either class. */
  lemma OperatorClasses(s: string)
    ensures Count(s, "*/+-") == 0 ==> Count(s, Products) == 0 && Count(s, Sums) == 0
  {
  }
}
