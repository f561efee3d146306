/** Character classes and greedy scanners shared by the evaluator.

    Every regular expression of the evaluator is built from a handful of
    pieces: `\d`, `[a-zA-Z]`, the operator class `[*\/+\-]`, a literal space,
    and runs of these. This module gives each piece a predicate and each run
    a greedy scanner `RunEnd`, together with the one fact that makes greedy
    scanning agree with backtracking: a run followed by a character outside
    the run can only end where the scanner stops (`RunEndUnique`). */
module Chars {

  /** `\d` in a JavaScript regular expression: ASCII digits only. */
  predicate IsDigit(c: char) { '0' <= c <= '9' }

  /** `[a-zA-Z]`: a variable name is one ASCII letter. */
  predicate IsLetter(c: char) { 'a' <= c <= 'z' || 'A' <= c <= 'Z' }

  /** `[*\/+\-]`: the four supported operators. */
  predicate IsOperator(c: char) { c == '+' || c == '-' || c == '*' || c == '/' }

  /** Characters that number-to-string can produce: digits, the decimal point and the minus sign. */
  predicate IsNumeralChar(c: char) { IsDigit(c) || c == '.' || c == '-' }

  /** ECMAScript WhiteSpace and LineTerminator code points, as removed by
      `String.prototype.trim` and skipped by `parseFloat`. */
  predicate IsWhitespace(c: char) {
    || c == '\t' || c == '\n' || c == '\U{000B}' || c == '\U{000C}' || c == '\r' || c == ' '
    || c == '\U{00A0}' || c == '\U{1680}' || ('\U{2000}' <= c <= '\U{200A}')
    || c == '\U{2028}' || c == '\U{2029}' || c == '\U{202F}' || c == '\U{205F}'
    || c == '\U{3000}' || c == '\U{FEFF}'
  }

  /** The classes whose runs the regular expressions repeat with `*` or `+`. */
  datatype Class = Digits | Spaces | DotsOrSpaces | Whitespace

  predicate InClass(c: char, cls: Class) {
    match cls
    case Digits => IsDigit(c)
    case Spaces => c == ' '
    case DotsOrSpaces => c == '.' || c == ' '
    case Whitespace => IsWhitespace(c)
  }

  /** The end of the longest run of `cls` characters starting at `i`. */
  function RunEnd(s: string, i: nat, cls: Class): (k: nat)
    requires i <= |s|
    ensures i <= k <= |s|
    ensures forall j :: i <= j < k ==> InClass(s[j], cls)
    ensures k == |s| || !InClass(s[k], cls)
    decreases |s| - i
  {
    if i < |s| && InClass(s[i], cls) then RunEnd(s, i + 1, cls) else i
  }

  /** A run of `cls` characters from `i` that is followed by a character
      outside `cls` ends exactly where `RunEnd` stops: this is why a greedy
      scan finds the same match as a backtracking regular expression. */
  lemma RunEndUnique(s: string, i: nat, cls: Class, j: nat)
    requires i <= j < |s|
    requires forall k :: i <= k < j ==> InClass(s[k], cls)
    requires !InClass(s[j], cls)
    ensures RunEnd(s, i, cls) == j
  {
  }

  /** A run that reaches the end of the string is all of the rest. */
  lemma RunEndWhole(s: string, i: nat, cls: Class)
    requires i <= |s|
    requires forall k :: i <= k < |s| ==> InClass(s[k], cls)
    ensures RunEnd(s, i, cls) == |s|
  {
  }

  /** `\d+(?:\.\d+)?` read as a whole string. */
  ghost predicate IsDecimal(t: string) {
    && |t| > 0
    && IsDigit(t[0])
    && IsDigit(t[|t| - 1])
    && (forall k :: 0 <= k < |t| ==> IsDigit(t[k]) || t[k] == '.')
    && (forall j, k :: 0 <= j < k < |t| && t[j] == '.' ==> t[k] != '.')
  }

  /** `-\d+(?:\.\d+)?` read as a whole string. */
  ghost predicate IsNegativeDecimal(t: string) {
    |t| >= 2 && t[0] == '-' && IsDecimal(t[1..])
  }

  /** `\.\d+` read as a whole string. */
  ghost predicate IsFraction(t: string) {
    && |t| >= 2
    && t[0] == '.'
    && (forall k :: 1 <= k < |t| ==> IsDigit(t[k]))
  }

  /** Length of the greedy match of `\d+(?:\.\d+)?` at `i` (0 when there is none). */
  function DecimalLen(s: string, i: nat): (n: nat)
    requires i <= |s|
    ensures i + n <= |s|
    ensures n == 0 <==> !(i < |s| && IsDigit(s[i]))
  {
    var a := RunEnd(s, i, Digits);
    if a == i then 0
    else if a < |s| && s[a] == '.' && RunEnd(s, a + 1, Digits) > a + 1 then RunEnd(s, a + 1, Digits) - i
    else a - i
  }

  /** What `DecimalLen` scans is a decimal. */
  lemma DecimalLenSound(s: string, i: nat)
    requires i <= |s| && DecimalLen(s, i) > 0
    ensures IsDecimal(s[i..i + DecimalLen(s, i)])
  {
    var a := RunEnd(s, i, Digits);
    var e := i + DecimalLen(s, i);
    if a < |s| && s[a] == '.' && RunEnd(s, a + 1, Digits) > a + 1 {
      assert forall k :: i <= k < e ==> IsDigit(s[k]) || s[k] == '.' by {
        forall k | i <= k < e ensures IsDigit(s[k]) || s[k] == '.' {
          if k < a {} else if k == a {} else {}
        }
      }
    }
  }

  /** A run of `cls` characters covering `[i, j)` is at most as long as the greedy run. */
  lemma RunEndAtLeast(s: string, i: nat, j: nat, cls: Class)
    requires i <= j <= |s|
    requires forall k :: i <= k < j ==> InClass(s[k], cls)
    ensures RunEnd(s, i, cls) >= j
    decreases j - i
  {
    if i < j {
      RunEndAtLeast(s, i + 1, j, cls);
    }
  }

  /** The greedy decimal at `i` is at least as long as any decimal written at `i`. */
  lemma DecimalLenAtLeast(s: string, i: nat, j: nat)
    requires i < j <= |s| && IsDecimal(s[i..j])
    ensures DecimalLen(s, i) >= j - i
  {
    var t := s[i..j];
    if forall k :: 0 <= k < |t| ==> t[k] != '.' {
      RunEndAtLeast(s, i, j, Digits);
    } else {
      var d :| 0 <= d < |t| && t[d] == '.';
      assert forall k :: 0 <= k < |t| && k != d ==> IsDigit(t[k]);
      assert forall k :: i <= k < j && k != i + d ==> IsDigit(s[k]) by {
        forall k | i <= k < j && k != i + d ensures IsDigit(s[k]) {
          assert s[k] == t[k - i];
        }
      }
      RunEndUnique(s, i, Digits, i + d);
      RunEndAtLeast(s, i + d + 1, j, Digits);
    }
  }

  /** A decimal written at `i` and followed by neither a digit nor a dot is
      exactly the greedy decimal. */
  lemma DecimalLenExact(s: string, i: nat, j: nat)
    requires i < j <= |s| && IsDecimal(s[i..j])
    requires j == |s| || (!IsDigit(s[j]) && s[j] != '.')
    ensures DecimalLen(s, i) == j - i
  {
    DecimalLenAtLeast(s, i, j);
  }

  /** Length of the match of `\.\d+` at `i` (0 when there is none). */
  function FractionLen(s: string, i: nat): (n: nat)
    requires i <= |s|
    ensures i + n <= |s|
    ensures n > 0 ==> s[i] == '.'
  {
    if i < |s| && s[i] == '.' && RunEnd(s, i + 1, Digits) > i + 1 then RunEnd(s, i + 1, Digits) - i else 0
  }

  /** What `FractionLen` scans is a fraction. */
  lemma FractionLenSound(s: string, i: nat)
    requires i <= |s| && FractionLen(s, i) > 0
    ensures IsFraction(s[i..i + FractionLen(s, i)])
  {
  }

  /** The greedy fraction at `i` is at least as long as any fraction written at `i`,
      and exactly as long when no digit follows it. */
  lemma FractionLenAtLeast(s: string, i: nat, j: nat)
    requires i < j <= |s| && IsFraction(s[i..j])
    ensures FractionLen(s, i) >= j - i
    ensures j == |s| || !IsDigit(s[j]) ==> FractionLen(s, i) == j - i
  {
    RunEndAtLeast(s, i + 1, j, Digits);
    if j < |s| && !IsDigit(s[j]) {
      RunEndUnique(s, i + 1, Digits, j);
    } else if j == |s| {
      RunEndWhole(s, i + 1, Digits);
    }
  }

  /** Length of the match of `(?:\d+(?:\.\d+)?)|(?:\.\d+)` at `i`. */
  function NumberLen(s: string, i: nat): (n: nat)
    requires i <= |s|
    ensures i + n <= |s|
    ensures n > 0 <==> i < |s| && (IsDigit(s[i]) || FractionLen(s, i) > 0)
    ensures n > 0 ==> IsDigit(s[i]) || s[i] == '.'
  {
    if DecimalLen(s, i) > 0 then DecimalLen(s, i) else FractionLen(s, i)
  }

  /** What `NumberLen` scans is a decimal or a fraction. */
  lemma NumberLenSound(s: string, i: nat)
    requires i <= |s| && NumberLen(s, i) > 0
    ensures IsDecimal(s[i..i + NumberLen(s, i)]) || IsFraction(s[i..i + NumberLen(s, i)])
  {
    if DecimalLen(s, i) > 0 {
      DecimalLenSound(s, i);
    } else {
      FractionLenSound(s, i);
    }
  }

  /** A whole string matches `(?:\d+(?:\.\d+)?)|(?:\.\d+)`. */
  predicate IsNumber(t: string) {
    |t| > 0 && NumberLen(t, 0) == |t|
  }

  /** The scanner's whole-string test agrees with the pattern. */
  lemma IsNumberMeans(t: string)
    ensures IsNumber(t) <==> IsDecimal(t) || IsFraction(t)
  {
    if IsNumber(t) {
      NumberLenSound(t, 0);
      assert t[0..|t|] == t;
    }
    if IsDecimal(t) {
      assert t[0..|t|] == t;
      DecimalLenExact(t, 0, |t|);
    } else if IsFraction(t) {
      assert t[0..|t|] == t;
      FractionLenAtLeast(t, 0, |t|);
    }
  }

  /** Number of positions at or after `i` holding a character of `cs`. */
  function CountFrom(s: string, cs: seq<char>, i: nat): (n: nat)
    requires i <= |s|
    ensures n <= |s| - i
    ensures n == 0 <==> forall k :: i <= k < |s| ==> s[k] !in cs
    decreases |s| - i
  {
    if i == |s| then 0 else (if s[i] in cs then 1 else 0) + CountFrom(s, cs, i + 1)
  }

  /** Number of characters of `s` that belong to `cs`: how many results a global
      single-character class match returns. */
  function Count(s: string, cs: seq<char>): nat {
    CountFrom(s, cs, 0)
  }

  lemma CountFromAppend(a: string, b: string, cs: seq<char>, i: nat)
    requires i <= |a|
    ensures CountFrom(a + b, cs, i) == CountFrom(a, cs, i) + CountFrom(b, cs, 0)
    decreases |a| - i
  {
    if i < |a| {
      CountFromAppend(a, b, cs, i + 1);
    } else {
      CountFromShift(a, b, cs, 0);
    }
  }

  lemma CountFromShift(a: string, b: string, cs: seq<char>, i: nat)
    requires i <= |b|
    ensures CountFrom(a + b, cs, |a| + i) == CountFrom(b, cs, i)
    decreases |b| - i
  {
    if i < |b| {
      CountFromShift(a, b, cs, i + 1);
    }
  }

  /** Counting distributes over concatenation. */
  lemma CountAppend(a: string, b: string, cs: seq<char>)
    ensures Count(a + b, cs) == Count(a, cs) + Count(b, cs)
  {
    CountFromAppend(a, b, cs, 0);
  }

  /** Index of the first non-whitespace character. */
  function TrimStart(s: string): (i: nat)
    ensures i <= |s|
    ensures forall k :: 0 <= k < i ==> IsWhitespace(s[k])
    ensures i == |s| || !IsWhitespace(s[i])
  {
    RunEnd(s, 0, Whitespace)
  }

  /** One past the last non-whitespace character at or after `from`. */
  function TrimEnd(s: string, from: nat): (j: nat)
    requires from <= |s|
    ensures from <= j <= |s|
    ensures forall k :: j <= k < |s| ==> IsWhitespace(s[k])
    ensures j == from || !IsWhitespace(s[j - 1])
    decreases |s| - from
  {
    if from == |s| then from
    else if IsWhitespace(s[|s| - 1]) then TrimEnd(s[..|s| - 1], from)
    else |s|
  }

  /** `String.prototype.trim`: the text between the leading and the trailing whitespace. */
  function Trim(s: string): (t: string)
    ensures |t| <= |s|
    ensures |t| == 0 || (!IsWhitespace(t[0]) && !IsWhitespace(t[|t| - 1]))
    ensures exists a: nat, b: nat {:trigger s[a..b]} ::
              && a <= b <= |s| && t == s[a..b]
              && (forall k :: 0 <= k < a ==> IsWhitespace(s[k]))
              && (forall k :: b <= k < |s| ==> IsWhitespace(s[k]))
  {
    var a := TrimStart(s);
    var b := TrimEnd(s, a);
    s[a..b]
  }

  /** Every character of `r` comes from `s` or is one number-to-string can write. */
  ghost predicate CharsFrom(r: string, s: string) {
    forall k :: 0 <= k < |r| ==> r[k] in s || IsNumeralChar(r[k])
  }

  lemma CharsFromRefl(s: string)
    ensures CharsFrom(s, s)
  {
    forall k | 0 <= k < |s| ensures s[k] in s {
    }
  }

  lemma CharsFromTrans(a: string, b: string, c: string)
    requires CharsFrom(a, b) && CharsFrom(b, c)
    ensures CharsFrom(a, c)
  {
    forall k | 0 <= k < |a| ensures a[k] in c || IsNumeralChar(a[k]) {
      if a[k] in b {
        var j :| 0 <= j < |b| && b[j] == a[k];
      }
    }
  }

  /** Characters drawn from a slice are drawn from the whole text. */
  lemma CharsFromSlice(r: string, s: string, a: nat, b: nat)
    requires a <= b <= |s| && CharsFrom(r, s[a..b])
    ensures CharsFrom(r, s)
  {
    forall k | 0 <= k < |r| && r[k] in s[a..b] ensures r[k] in s {
      var j :| 0 <= j < b - a && s[a..b][j] == r[k];
      assert s[a + j] == r[k];
    }
  }

  /** A character missing from a slice is missing from every slice inside it. */
  lemma NotInSlice(s: string, ch: char, a: nat, b: nat, c: nat, d: nat)
    requires a <= c <= d <= b <= |s| && ch !in s[a..b]
    ensures ch !in s[c..d]
  {
    forall x | 0 <= x < d - c ensures s[c..d][x] != ch {
      assert s[c..d][x] == s[a..b][c - a + x];
    }
  }

  /** ASCII lower-casing of one character. */
  function LowerAscii(c: char): (d: char)
    ensures IsLetter(c) ==> IsLetter(d)
    ensures !('A' <= c <= 'Z') ==> d == c
  {
    if 'A' <= c <= 'Z' then (c as int + 32) as char else c
  }

  /** `s.toLowerCase() === word` for a lower-case ASCII `word`. */
  predicate LowerEquals(s: string, word: string) {
    |s| == |word| && forall k :: 0 <= k < |s| ==> LowerAscii(s[k]) == word[k]
  }

  /** Position of the last occurrence of `c` (`lastIndexOf`), if any. */
  function LastIndexOf(s: string, c: char): (r: Option<nat>)
    ensures r.None? <==> c !in s
    ensures r.Some? ==> r.value < |s| && s[r.value] == c && c !in s[r.value + 1..]
  {
    if |s| == 0 then None
    else if s[|s| - 1] == c then Some(|s| - 1)
    else
      var r := LastIndexOf(s[..|s| - 1], c);
      assert s == s[..|s| - 1] + [s[|s| - 1]];
      assert r.Some? ==> s[r.value + 1..] == s[..|s| - 1][r.value + 1..] + [s[|s| - 1]];
      r
  }

  /** Position of the first occurrence of `c` at or after `from` (`indexOf(c, from)`), if any. */
  function IndexOfFrom(s: string, c: char, from: nat): (r: Option<nat>)
    requires from <= |s|
    ensures r.None? <==> c !in s[from..]
    ensures r.Some? ==> from <= r.value < |s| && s[r.value] == c && c !in s[from..r.value]
    decreases |s| - from
  {
    if from == |s| then None
    else if s[from] == c then Some(from)
    else
      var r := IndexOfFrom(s, c, from + 1);
      assert s[from..] == [s[from]] + s[from + 1..];
      assert r.Some? ==> s[from..r.value] == [s[from]] + s[from + 1..r.value];
      r
  }

  datatype Option<+T> = None | Some(value: T)
}
