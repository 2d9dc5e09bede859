/** std::to_string and strtol with base 10, as the port number goes through them. */
module Decimals {
  import opened OdbcTypes

  function Digit(d: nat): char
    requires d < 10
  {
    ('0' as int + d) as char
  }

  predicate IsDigit(c: char) {
    '0' <= c <= '9'
  }

  function DigitValue(c: char): int {
    c as int - '0' as int
  }

  function ToDecimal(n: nat): (r: string)
    ensures r != "" && forall i :: 0 <= i < |r| ==> IsDigit(r[i])
  {
    if n < 10 then [Digit(n)] else ToDecimal(n / 10) + [Digit(n % 10)]
  }

  function DecimalValue(s: string): int {
    if s == "" then 0 else DecimalValue(s[..|s| - 1]) * 10 + DigitValue(s[|s| - 1])
  }

  predicate IsSpace(c: char) {
    c == ' ' || '\t' <= c <= '\r'
  }

  function Spaces(s: string): (r: nat)
    ensures r <= |s|
  {
    if s == "" || !IsSpace(s[0]) then 0 else 1 + Spaces(s[1..])
  }

  function DigitRun(s: string): (r: nat)
    ensures r <= |s|
    ensures forall i :: 0 <= i < r ==> IsDigit(s[i])
  {
    if s == "" || !IsDigit(s[0]) then 0 else 1 + DigitRun(s[1..])
  }

  /** A conversion that overflows a 64-bit long yields its limit. */
  function ClampLong(n: int): int {
    Max(-TWO_63, Min(TWO_63 - 1, n))
  }

  /** The number at the start of a text and how many characters it has. */
  function Number(s: string): Option<(int, nat)> {
    var k := DigitRun(s);
    if k == 0 then None else Some((DecimalValue(s[..k]), k))
  }

  function SignedNumber(s: string): (r: Option<(int, nat)>)
    ensures r.Some? ==> r.value.1 <= |s|
  {
    if s != "" && s[0] in {'+', '-'} then
      var r := Number(s[1..]);
      if r == None then None else Some((if s[0] == '-' then -r.value.0 else r.value.0, 1 + r.value.1))
    else Number(s)
  }

  /** strtol: the value and the index of the first character not consumed. */
  function StrToL(s: string): (r: (int, nat))
    ensures r.1 <= |s|
  {
    var b := Spaces(s);
    var r := SignedNumber(s[b..]);
    if r == None then (0, 0) else (ClampLong(r.value.0), b + r.value.1)
  }

  lemma {:induction false} ValueOfDecimal(n: nat)
    ensures DecimalValue(ToDecimal(n)) == n
  {
    if n >= 10 {
      ValueOfDecimal(n / 10);
      var s := ToDecimal(n);
      assert s[..|s| - 1] == ToDecimal(n / 10);
    }
  }

  lemma {:induction false} AllDigits(s: string)
    requires forall i :: 0 <= i < |s| ==> IsDigit(s[i])
    ensures DigitRun(s) == |s|
    decreases |s|
  {
    if s != "" {
      AllDigits(s[1..]);
    }
  }

  predicate AllSpaces(s: string) {
    forall i :: 0 <= i < |s| ==> s[i] in " \t\n\U{b}\U{c}\r"
  }

  predicate DecimalDigits(s: string) {
    forall i :: 0 <= i < |s| ==> s[i] in "0123456789"
  }

  predicate IsSign(s: string) {
    s == "" || s == "+" || s == "-"
  }

  /** A text behind white space, a sign and digits that none of them could take more of. */
  predicate Ends(sign: string, digits: string, rest: string) {
    rest != "" ==>
      && rest[0] !in "0123456789"
      && (sign == "" && digits == "" ==> rest[0] !in "+- \t\n\U{b}\U{c}\r")
  }

  /**
   * What strtol makes of any text: white space, a sign and digits are consumed and give the number, as far as 64 bits
   * go; without digits nothing is consumed.
   */
  lemma {:induction false} StrToLMeans(spaces: string, sign: string, digits: string, rest: string)
    requires AllSpaces(spaces) && IsSign(sign) && Ends(sign, digits, rest)
    requires DecimalDigits(digits)
    ensures var v := if sign == "-" then -DecimalValue(digits) else DecimalValue(digits);
            StrToL(spaces + (sign + (digits + rest)))
            == if digits == "" then (0, 0)
               else (if v < -0x8000_0000_0000_0000 then -0x8000_0000_0000_0000
                     else if v > 0x7FFF_FFFF_FFFF_FFFF then 0x7FFF_FFFF_FFFF_FFFF else v,
                     |spaces| + |sign| + |digits|)
  {
    hide Spaces, SignedNumber, DecimalValue, AllSpaces, Ends;
    var body := digits + rest;
    SpacesSkipped(spaces, sign, digits, rest);
    assert (spaces + (sign + body))[|spaces|..] == sign + body;
    SignedMeans(sign, digits, rest);
  }

  lemma {:induction false} SignedMeans(sign: string, digits: string, rest: string)
    requires IsSign(sign) && Ends(sign, digits, rest)
    requires DecimalDigits(digits)
    ensures SignedNumber(sign + (digits + rest))
         == if digits == "" then None
            else Some((if sign == "-" then -DecimalValue(digits) else DecimalValue(digits), |sign| + |digits|))
  {
    hide Number, DecimalValue, DecimalDigits, Ends;
    var body := digits + rest;
    NumberMeans(sign, digits, rest);
    if sign == "" {
      assert sign + body == body;
      NoSign(digits, rest);
    } else {
      assert (sign + body)[0] == sign[0] && (sign + body)[1..] == body;
    }
  }

  lemma {:induction false} NoSign(digits: string, rest: string)
    requires Ends("", digits, rest) && DecimalDigits(digits)
    ensures digits + rest != "" ==> (digits + rest)[0] !in {'+', '-'}
  {
    assert digits + rest != "" ==> (digits + rest)[0] == if digits != "" then digits[0] else rest[0];
  }

  lemma {:induction false} NumberMeans(sign: string, digits: string, rest: string)
    requires DecimalDigits(digits) && Ends(sign, digits, rest)
    ensures Number(digits + rest) == if digits == "" then None else Some((DecimalValue(digits), |digits|))
  {
    hide DigitRun, DecimalValue;
    RunOf(digits, rest);
    assert (digits + rest)[..|digits|] == digits;
  }

  lemma DigitIff(c: char)
    ensures IsDigit(c) <==> c in "0123456789"
  {
    if IsDigit(c) {
      assert c == "0123456789"[DigitValue(c)];
    }
  }

  lemma SpaceIff(c: char)
    ensures IsSpace(c) <==> c in " \t\n\U{b}\U{c}\r"
  {
    var t := " \t\n\U{b}\U{c}\r";
    assert t[0] == ' ' && t[1] == '\t' && t[2] == '\n' && t[3] == 11 as char && t[4] == 12 as char && t[5] == '\r';
  }

  lemma {:induction false} SpacesSkipped(spaces: string, sign: string, digits: string, rest: string)
    requires AllSpaces(spaces) && IsSign(sign) && Ends(sign, digits, rest)
    requires DecimalDigits(digits)
    ensures Spaces(spaces + (sign + (digits + rest))) == |spaces|
    decreases |spaces|
  {
    hide IsSpace;
    var more := sign + (digits + rest);
    if spaces == "" {
      assert "" + more == more;
      if more != "" {
        assert more[0] == if sign != "" then sign[0] else if digits != "" then digits[0] else rest[0];
        SpaceIff(more[0]);
      }
    } else {
      SpaceIff(spaces[0]);
      assert (spaces + more)[1..] == spaces[1..] + more;
      SpacesSkipped(spaces[1..], sign, digits, rest);
    }
  }

  lemma {:induction false} RunOf(digits: string, rest: string)
    requires DecimalDigits(digits)
    requires rest != "" ==> rest[0] !in "0123456789"
    ensures DigitRun(digits + rest) == |digits|
    decreases |digits|
  {
    hide IsDigit;
    if digits == "" {
      assert digits + rest == rest;
      if rest != "" {
        DigitIff(rest[0]);
      }
    } else {
      DigitIff(digits[0]);
      assert (digits + rest)[0] == digits[0] && (digits + rest)[1..] == digits[1..] + rest;
      RunOf(digits[1..], rest);
    }
  }

  /** A printed number is consumed whole and read back. */
  lemma DecimalRoundTrip(n: nat)
    requires n < TWO_63
    ensures StrToL(ToDecimal(n)) == (n, |ToDecimal(n)|)
  {
    var s := ToDecimal(n);
    assert IsDigit(s[0]) && Spaces(s) == 0;
    assert s[0..] == s && s[0..|s|] == s;
    AllDigits(s);
    ValueOfDecimal(n);
  }
}
