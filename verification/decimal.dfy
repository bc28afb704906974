/** Decimal text for integers: `Number.prototype.toString()` on an integral
    number, and `parseInt(text, 10)`. */
module Decimal {
  import opened Wrappers

  predicate IsDigit(c: char) {
    '0' <= c <= '9'
  }

  function DigitChar(d: nat): (c: char)
    requires d < 10
    ensures IsDigit(c) && DigitValue(c) == d
  {
    ['0', '1', '2', '3', '4', '5', '6', '7', '8', '9'][d]
  }

  function DigitValue(c: char): nat
    requires IsDigit(c)
  {
    (c as int - '0' as int) as nat
  }

  /** Decimal digits of a natural number, most significant first, with no
      leading zero. */
  function NatToString(n: nat): (s: string)
    ensures |s| > 0
    ensures forall i | 0 <= i < |s| :: IsDigit(s[i])
    ensures |s| > 1 ==> s[0] != '0'
    decreases n
  {
    if n < 10 then [DigitChar(n)] else NatToString(n / 10) + [DigitChar(n % 10)]
  }

  /** `n.toString()` for an integral `n`: a minus sign for negatives. */
  function IntToString(n: int): (s: string)
    ensures |s| > 0
    ensures n < 0 <==> s[0] == '-'
  {
    if n < 0 then "-" + NatToString(-n) else NatToString(n)
  }

  /** The white space `parseInt` skips before the number: the ECMAScript
      WhiteSpace and LineTerminator characters. */
  predicate IsJsWhiteSpace(c: char) {
    c == '\t' || c == '\n' || c == '\U{B}' || c == '\U{C}' || c == '\r' || c == ' '
    || c == '\U{A0}' || c == '\U{1680}' || ('\U{2000}' <= c <= '\U{200A}')
    || c == '\U{2028}' || c == '\U{2029}' || c == '\U{202F}' || c == '\U{205F}'
    || c == '\U{3000}' || c == '\U{FEFF}'
  }

  function SkipWhiteSpace(s: string): (r: string)
    ensures |r| <= |s| && r == s[|s| - |r|..]
    ensures |r| > 0 ==> !IsJsWhiteSpace(r[0])
    ensures forall i | 0 <= i < |s| - |r| :: IsJsWhiteSpace(s[i])
  {
    if |s| > 0 && IsJsWhiteSpace(s[0]) then SkipWhiteSpace(s[1..]) else s
  }

  /** Length of the longest prefix of `s` made of decimal digits. */
  function DigitRun(s: string): (k: nat)
    ensures k <= |s|
    ensures forall i | 0 <= i < k :: IsDigit(s[i])
    ensures k < |s| ==> !IsDigit(s[k])
  {
    if |s| > 0 && IsDigit(s[0]) then 1 + DigitRun(s[1..]) else 0
  }

  /** Value of a string of digits, read most significant first. */
  function DigitsValue(s: string): nat
    requires forall i | 0 <= i < |s| :: IsDigit(s[i])
  {
    if |s| == 0 then 0 else 10 * DigitsValue(s[..|s| - 1]) + DigitValue(s[|s| - 1])
  }

  /** `parseInt(s, 10)`: skip leading white space, read an optional sign and
      then as many digits as there are; `None` (the source's `NaN`) when no
      digit follows. Whatever follows the digits is ignored. */
  function ParseInt(s: string): (r: Option<int>)
    ensures (forall i | 0 <= i < |s| :: !IsDigit(s[i])) ==> r.None?
  {
    var t := SkipWhiteSpace(s);
    assert forall i | 0 <= i < |t| :: t[i] == s[|s| - |t| + i];
    ParseSigned(t)
  }

  /** The part of `parseInt` after the white space. */
  function ParseSigned(t: string): (r: Option<int>)
    ensures (forall i | 0 <= i < |t| :: !IsDigit(t[i])) ==> r.None?
  {
    var negative := |t| > 0 && t[0] == '-';
    var body := if |t| > 0 && (t[0] == '-' || t[0] == '+') then t[1..] else t;
    var k := DigitRun(body);
    if k == 0 then None
    else
      assert IsDigit(t[|t| - |body|]);
      var v: int := DigitsValue(body[..k]);
      Some(if negative then -v else v)
  }

  /** Empty text is not a number. */
  lemma ParseIntEmpty()
    ensures ParseInt("") == None
  {
    assert SkipWhiteSpace("") == "";
  }

  lemma {:induction false} DigitsOfNat(n: nat)
    ensures DigitsValue(NatToString(n)) == n
    decreases n
  {
    if n >= 10 {
      var s := NatToString(n);
      DigitsOfNat(n / 10);
      assert s[..|s| - 1] == NatToString(n / 10);
    }
  }

  /** `parseInt` reads back what `toString` writes. */
  lemma ParseIntOfIntToString(n: int)
    ensures ParseInt(IntToString(n)) == Some(n)
  {
    var m: nat := if n < 0 then -n else n;
    var digits := NatToString(m);
    DigitsOfNat(m);
    var s := IntToString(n);
    NoWhiteSpaceToSkip(s);
    if n < 0 {
      assert s == "-" + digits;
      ParseSignedDigits("-", digits);
    } else {
      assert s == "" + digits;
      ParseSignedDigits("", digits);
    }
  }

  lemma NoWhiteSpaceToSkip(s: string)
    requires |s| > 0 && (s[0] == '-' || IsDigit(s[0]))
    ensures SkipWhiteSpace(s) == s
  {
    assert '0' <= s[0] <= '9' || s[0] == '-';
    assert !IsJsWhiteSpace(s[0]);
  }

  lemma ParseSignedDigits(sign: string, digits: string)
    requires sign == "" || sign == "-"
    requires |digits| > 0 && forall i | 0 <= i < |digits| :: IsDigit(digits[i])
    ensures ParseSigned(sign + digits)
      == Some(if sign == "-" then -(DigitsValue(digits) as int) else DigitsValue(digits))
  {
    DigitRunAll(digits);
    assert digits[..|digits|] == digits;
    if sign == "-" {
      NegativeDigits(digits);
    } else {
      assert sign + digits == digits;
      assert digits[0] != '-' && digits[0] != '+';
    }
  }

  lemma NegativeDigits(digits: string)
    requires |digits| > 0 && forall i | 0 <= i < |digits| :: IsDigit(digits[i])
    requires DigitRun(digits) == |digits|
    ensures ParseSigned("-" + digits) == Some(-(DigitsValue(digits[..|digits|]) as int))
  {
    var t := "-" + digits;
    assert t[0] == '-';
    assert t[1..] == digits;
  }

  lemma {:induction false} DigitRunAll(s: string)
    requires forall i | 0 <= i < |s| :: IsDigit(s[i])
    ensures DigitRun(s) == |s|
  {
    if |s| > 0 {
      DigitRunAll(s[1..]);
    }
  }
}
