/** The two JavaScript number primitives the evaluator leans on:
    `parseFloat` (text to number) and number-to-string (the implicit
    `'' + n` of string concatenation).

    Numbers are mathematical reals. `ParseFloat` follows the grammar of
    StrDecimalLiteral: leading whitespace, an optional sign, digits with an
    optional fraction, an optional exponent, and it reads the longest prefix
    of that shape; `None` stands for NaN. `Show` writes the integer part in
    decimal and the fractional part digit by digit, stopping when it is
    exhausted or after `FractionDigits` digits. */
module Numbers {
  import opened Chars

  function DigitValue(c: char): (d: nat)
    requires IsDigit(c)
    ensures d < 10
  {
    c as int - '0' as int
  }

  function DigitChar(d: nat): (c: char)
    requires d < 10
    ensures IsDigit(c) && DigitValue(c) == d
  {
    ('0' as int + d) as char
  }

  /** The value of the digit string `s[i..j]`. */
  function ValueOf(s: string, i: nat, j: nat): nat
    requires i <= j <= |s|
    requires forall k :: i <= k < j ==> IsDigit(s[k])
    decreases j
  {
    if j == i then 0 else ValueOf(s, i, j - 1) * 10 + DigitValue(s[j - 1])
  }

  /** `x` times `10^e` for a signed exponent, one factor of ten at a time
      (so that every step is linear). */
  function Shift(x: real, e: int): (r: real)
    ensures x >= 0.0 ==> r >= 0.0
    ensures e == 0 ==> r == x
    decreases if e >= 0 then e else -e
  {
    if e == 0 then x
    else if e > 0 then Shift(x, e - 1) * 10.0
    else Shift(x, e + 1) / 10.0
  }

  /** The signed exponent written at `k` as `e`/`E`, an optional sign and digits;
      0 when no complete exponent part is there. */
  function ExponentAt(s: string, k: nat): (e: int)
    requires k <= |s|
    ensures !(k < |s| && (s[k] == 'e' || s[k] == 'E')) ==> e == 0
  {
    if k < |s| && (s[k] == 'e' || s[k] == 'E') then
      var signed := k + 1 < |s| && (s[k + 1] == '+' || s[k + 1] == '-');
      var m := if signed then k + 2 else k + 1;
      var c := RunEnd(s, m, Digits);
      if c == m then 0
      else if signed && s[k + 1] == '-' then -(ValueOf(s, m, c) as int)
      else ValueOf(s, m, c)
    else 0
  }

  /** Where the unsigned part of a numeral starts once `parseFloat` has skipped
      whitespace and a sign. */
  function NumeralStart(s: string): (j: nat)
    ensures j <= |s|
  {
    var i := TrimStart(s);
    if i < |s| && (s[i] == '+' || s[i] == '-') then i + 1 else i
  }

  /** The unsigned numeral at `j`: digits with an optional fraction (either
      part may be empty, not both) and an optional exponent. */
  function UnsignedAt(s: string, j: nat): (r: Option<real>)
    requires j <= |s|
    ensures r.Some? <==> (j < |s| && IsDigit(s[j])) || (j + 1 < |s| && s[j] == '.' && IsDigit(s[j + 1]))
    ensures r.Some? ==> r.value >= 0.0
  {
    var a := RunEnd(s, j, Digits);
    var dot := a < |s| && s[a] == '.';
    var b := if dot then RunEnd(s, a + 1, Digits) else a;
    if a == j && (!dot || b == a + 1) then None
    else
      var whole := ValueOf(s, j, a) as real;
      var frac := if dot then Shift(ValueOf(s, a + 1, b) as real, a + 1 - b) else 0.0;
      Some(Shift(whole + frac, ExponentAt(s, if dot then b else a)))
  }

  /** `parseFloat(s)`; `None` is NaN. */
  function ParseFloat(s: string): (r: Option<real>)
    ensures var j := NumeralStart(s);
      r.Some? <==> (j < |s| && IsDigit(s[j])) || (j + 1 < |s| && s[j] == '.' && IsDigit(s[j + 1]))
  {
    var i := TrimStart(s);
    match UnsignedAt(s, NumeralStart(s))
    case None => None
    case Some(m) => Some(if i < |s| && s[i] == '-' then -m else m)
  }

  /** The decimal digits of `n`, most significant first, without leading zeros. */
  function NatToDigits(n: nat): (t: string)
    ensures |t| >= 1
    ensures forall k :: 0 <= k < |t| ==> IsDigit(t[k])
    ensures ValueOf(t, 0, |t|) == n
  {
    if n < 10 then [DigitChar(n)]
    else
      var t := NatToDigits(n / 10) + [DigitChar(n % 10)];
      ValueOfAppend(NatToDigits(n / 10), [DigitChar(n % 10)], 0, |NatToDigits(n / 10)|);
      t
  }

  /** Appending text after `s[i..j]` does not change its value. */
  lemma ValueOfAppend(s: string, u: string, i: nat, j: nat)
    requires i <= j <= |s|
    requires forall k :: i <= k < j ==> IsDigit(s[k])
    ensures ValueOf(s + u, i, j) == ValueOf(s, i, j)
    decreases j
  {
    if j > i {
      ValueOfAppend(s, u, i, j - 1);
    }
  }

  /** Most fractional digits number-to-string writes in this model. */
  const FractionDigits: nat := 20

  /** The first `k` (or fewer, when the expansion ends) decimal digits of a fraction `0 < f < 1`. */
  function FracDigits(f: real, k: nat): (t: string)
    requires 0.0 < f < 1.0 && k >= 1
    ensures 1 <= |t| <= k
    ensures forall m :: 0 <= m < |t| ==> IsDigit(t[m])
    decreases k
  {
    var d := (f * 10.0).Floor;
    var rest := f * 10.0 - d as real;
    [DigitChar(d)] + (if rest == 0.0 || k == 1 then "" else FracDigits(rest, k - 1))
  }

  function ShowMagnitude(x: real): (t: string)
    requires x >= 0.0
    ensures IsDecimal(t)
  {
    var n: nat := x.Floor;
    var f := x - n as real;
    var whole := NatToDigits(n);
    if f == 0.0 then whole
    else
      var t := whole + "." + FracDigits(f, FractionDigits);
      assert forall j, k :: 0 <= j < k < |t| && t[j] == '.' ==> t[k] != '.' by {
        forall j, k | 0 <= j < k < |t| && t[j] == '.' ensures t[k] != '.' {
          assert j == |whole|;
        }
      }
      t
  }

  /** A string matching `-?\d+(?:\.\d+)?`. */
  ghost predicate IsSignedDecimal(t: string) {
    IsDecimal(t) || IsNegativeDecimal(t)
  }

  /** Number-to-string: a minus sign for negative values, then the magnitude. */
  function Show(x: real): (t: string)
    ensures IsSignedDecimal(t)
    ensures t[0] == '-' <==> x < 0.0
    ensures forall k :: 0 <= k < |t| ==> IsNumeralChar(t[k])
  {
    if x < 0.0 then
      var t := "-" + ShowMagnitude(-x);
      assert t[1..] == ShowMagnitude(-x);
      t
    else ShowMagnitude(x)
  }

  /** Integers survive number-to-string followed by `parseFloat`. */
  lemma {:induction false} ShowParseInt(n: int)
    ensures ParseFloat(Show(n as real)) == Some(n as real)
  {
    var m: nat := if n < 0 then -n else n;
    var sign := ShowInt(n);
    ParseSignedDigits(sign, NatToDigits(m));
  }

  /** Number-to-string of an integer: an optional minus sign and its digits. */
  lemma ShowInt(n: int) returns (sign: string)
    ensures sign == (if n < 0 then "-" else "")
    ensures Show(n as real) == sign + NatToDigits(if n < 0 then -n else n)
  {
    var m: nat := if n < 0 then -n else n;
    assert (m as real).Floor == m;
    assert ShowMagnitude(m as real) == NatToDigits(m);
    sign := if n < 0 then "-" else "";
    if n >= 0 {
      assert sign + NatToDigits(m) == NatToDigits(m);
    }
  }

  /** `parseFloat` of an optional minus sign followed by digits only. */
  lemma ParseSignedDigits(sign: string, digits: string)
    requires sign == "" || sign == "-"
    requires |digits| > 0 && forall k :: 0 <= k < |digits| ==> IsDigit(digits[k])
    ensures var v := ValueOf(digits, 0, |digits|) as real;
      ParseFloat(sign + digits) == Some(if sign == "-" then -v else v)
  {
    var t := sign + digits;
    var j := |sign|;
    assert !IsWhitespace(t[0]);
    assert TrimStart(t) == 0;
    assert NumeralStart(t) == j;
    ValueOfShift(sign, digits, 0, |digits|);
    UnsignedDigits(t, j);
  }

  /** The unsigned numeral of a string that ends in digits only is their value. */
  lemma UnsignedDigits(t: string, j: nat)
    requires j < |t|
    requires forall k :: j <= k < |t| ==> IsDigit(t[k])
    ensures UnsignedAt(t, j) == Some(ValueOf(t, j, |t|) as real)
  {
    RunEndWhole(t, j, Digits);
    assert ExponentAt(t, |t|) == 0;
  }

  /** The unsigned numeral of a string that ends in `digits.digits` (the
      whole part may be empty) is the whole part plus the scaled fraction. */
  lemma UnsignedDecimal(t: string, j: nat, a: nat)
    requires j <= a && a + 1 < |t|
    requires forall k :: j <= k < a ==> IsDigit(t[k])
    requires t[a] == '.'
    requires forall k :: a < k < |t| ==> IsDigit(t[k])
    ensures UnsignedAt(t, j) == Some(ValueOf(t, j, a) as real + Shift(ValueOf(t, a + 1, |t|) as real, a + 1 - |t|))
  {
    RunEndUnique(t, j, Digits, a);
    RunEndWhole(t, a + 1, Digits);
    assert ExponentAt(t, |t|) == 0;
  }

  /** Putting text in front of a digit string does not change its value. */
  lemma ValueOfShift(p: string, s: string, i: nat, j: nat)
    requires i <= j <= |s|
    requires forall k :: i <= k < j ==> IsDigit(s[k])
    ensures forall k :: |p| + i <= k < |p| + j ==> IsDigit((p + s)[k])
    ensures ValueOf(p + s, |p| + i, |p| + j) == ValueOf(s, i, j)
    decreases j
  {
    if j > i {
      ValueOfShift(p, s, i, j - 1);
    }
  }
}
