/**
 * GUID parameters and columns travel as text: one printf format prints a GUID structure and scans it back.
 * printf and scanf are modelled for the conversions of that format (ISO C11, sections 7.21.6.1 and 7.21.6.2).
 */
module GuidText {
  import opened OdbcTypes
  import AppMemory

  datatype Guid = Guid(data1: int, data2: int, data3: int, data4: seq<int>)

  predicate ValidGuid(g: Guid) {
    && 0 <= g.data1 < TWO_32 && 0 <= g.data2 < TWO_16 && 0 <= g.data3 < TWO_16
    && |g.data4| == 8 && forall i :: 0 <= i < 8 ==> 0 <= g.data4[i] < 256
  }

  /** A format: hexadecimal conversions of given widths and literal dashes. */
  datatype Format = End | Hex(width: nat, rest: Format) | Dash(rest: Format)

  /** "%08lx-%04x-%04x-%02x%02x-%02x%02x%02x%02x%02x%02x" */
  function GuidFormat(): Format {
    Hex(8, Dash(Hex(4, Dash(Hex(4, Dash(Hex(2, Hex(2, Dash(
      Hex(2, Hex(2, Hex(2, Hex(2, Hex(2, Hex(2, End)))))))))))))))
  }

  function Fields(g: Guid): seq<int>
    requires ValidGuid(g)
  {
    [g.data1, g.data2, g.data3, g.data4[0], g.data4[1], g.data4[2], g.data4[3], g.data4[4], g.data4[5],
     g.data4[6], g.data4[7]]
  }

  // ----- printing -----

  const DIGITS: string := "0123456789abcdef"

  function Pow16(w: nat): (r: nat)
    ensures r >= 1
  {
    if w == 0 then 1 else 16 * Pow16(w - 1)
  }

  /** The hexadecimal digits of a number, without leading zeros. */
  function MinimalHex(n: nat): (r: string)
    ensures r != []
  {
    if n < 16 then [DIGITS[n]] else MinimalHex(n / 16) + [DIGITS[n % 16]]
  }

  function Zeros(n: nat): (r: string)
    ensures |r| == n
  {
    if n == 0 then "" else Zeros(n - 1) + "0"
  }

  /** The conversion %0wx: at least `w` digits. */
  function PrintHex(n: nat, w: nat): string {
    var s := MinimalHex(n);
    if |s| < w then Zeros(w - |s|) + s else s
  }

  function Print(format: Format, values: seq<int>): string
    requires forall i :: 0 <= i < |values| ==> values[i] >= 0
    decreases format
  {
    match format
    case End => ""
    case Dash(rest) => "-" + Print(rest, values)
    case Hex(w, rest) => if values == [] then "" else PrintHex(values[0], w) + Print(rest, values[1..])
  }

  // ----- scanning -----

  function DigitValue(c: char): (r: int)
    ensures -1 <= r < 16
  {
    if '0' <= c <= '9' then c as int - '0' as int
    else if 'a' <= c <= 'f' then c as int - 'a' as int + 10
    else if 'A' <= c <= 'F' then c as int - 'A' as int + 10
    else -1
  }

  predicate IsSpace(c: char) {
    c == ' ' || '\t' <= c <= '\r'
  }

  function SkipSpaces(s: string): string {
    if s != [] && IsSpace(s[0]) then SkipSpaces(s[1..]) else s
  }

  /** The number of leading hexadecimal digits, at most `w`. */
  function DigitRun(s: string, w: nat): (r: nat)
    ensures r <= |s| && r <= w
    ensures forall i :: 0 <= i < r ==> DigitValue(s[i]) >= 0
  {
    if w == 0 || s == [] || DigitValue(s[0]) < 0 then 0 else 1 + DigitRun(s[1..], w - 1)
  }

  function HexValue(s: string): int {
    if s == [] then 0 else HexValue(s[..|s| - 1]) * 16 + DigitValue(s[|s| - 1])
  }

  function TakeDigits(s: string, w: nat): Option<(int, string)> {
    var k := DigitRun(s, w);
    if k == 0 then None else Some((HexValue(s[..k]), s[k..]))
  }

  predicate HasPrefix(s: string) {
    |s| >= 2 && s[0] == '0' && s[1] in {'x', 'X'}
  }

  /** An optional 0x and digits, at most `w` characters. */
  function ScanDigits(s: string, w: nat): Option<(int, string)> {
    if w >= 2 && HasPrefix(s) then TakeDigits(s[2..], w - 2) else TakeDigits(s, w)
  }

  /** The conversion %wx: white space, an optional sign, an optional 0x, then digits, `w` characters in all. */
  function ScanHex(input: string, w: nat): (r: Option<(int, string)>)
    ensures r.Some? ==> 0 <= r.value.0 < TWO_32
  {
    var s := SkipSpaces(input);
    var sign := w > 0 && s != [] && s[0] in {'+', '-'};
    var r := if sign then ScanDigits(s[1..], w - 1) else ScanDigits(s, w);
    if r == None then None
    else Some((ToUint32(if sign && s[0] == '-' then -r.value.0 else r.value.0), r.value.1))
  }

  /** sscanf: the values converted before the first failure. */
  function Scan(format: Format, s: string): seq<int>
    decreases format
  {
    match format
    case End => []
    case Dash(rest) => if s != [] && s[0] == '-' then Scan(rest, s[1..]) else []
    case Hex(w, rest) =>
      var r := ScanHex(s, w);
      if r == None then [] else [r.value.0] + Scan(rest, r.value.1)
  }

  /** The text bindParameter sends for a GUID. */
  function ToText(g: Guid): string
    requires ValidGuid(g)
  {
    Print(GuidFormat(), Fields(g))
  }

  /** The GUID fillOutput makes of a text, when all eleven conversions succeed. */
  function FromText(s: string): Option<Guid> {
    var v := Scan(GuidFormat(), s);
    if |v| == 11 then Some(Guid(v[0], v[1] % TWO_16, v[2] % TWO_16, seq(8, i requires 0 <= i < 8 => v[3 + i] % 256)))
    else None
  }

  // ----- one conversion -----

  /** Exactly `w` digits of `n`. */
  function FixedHex(n: nat, w: nat): (r: string)
    ensures |r| == w
    decreases w
  {
    if w == 0 then "" else FixedHex(n / 16, w - 1) + [DIGITS[n % 16]]
  }

  lemma DigitsDecode(d: nat)
    requires d < 16
    ensures DigitValue(DIGITS[d]) == d && !IsSpace(DIGITS[d]) && DIGITS[d] !in {'+', '-', 'x', 'X'}
  {
  }

  lemma {:induction false} FixedOfZero(w: nat)
    ensures FixedHex(0, w) == Zeros(w)
  {
    if w > 0 {
      FixedOfZero(w - 1);
    }
  }

  /** A number that fits is printed with exactly the width of its conversion. */
  lemma {:induction false} PrintHexIsFixed(n: nat, w: nat)
    requires w >= 1 && n < Pow16(w)
    ensures PrintHex(n, w) == FixedHex(n, w)
    decreases w
  {
    hide PrintHex, Pow16;
    if n < 16 {
      PrintHexDigit(n, w);
    } else {
      FewerDigits(n, w);
      PrintHexIsFixed(n / 16, w - 1);
      PrintHexStep(n, w);
    }
  }

  lemma FewerDigits(n: nat, w: nat)
    requires w >= 1 && 16 <= n < Pow16(w)
    ensures w >= 2 && n / 16 < Pow16(w - 1)
  {
    assert Pow16(0) == 1;
  }

  lemma PrintHexDigit(n: nat, w: nat)
    requires w >= 1 && n < 16
    ensures PrintHex(n, w) == FixedHex(n, w)
  {
    hide Zeros;
    FixedOfZero(w - 1);
    assert MinimalHex(n) == [DIGITS[n]];
    if w == 1 {
      assert FixedHex(n, 1) == FixedHex(0, 0) + [DIGITS[n]];
    }
  }

  lemma PrintHexStep(n: nat, w: nat)
    requires n >= 16 && w >= 2
    ensures PrintHex(n, w) == PrintHex(n / 16, w - 1) + [DIGITS[n % 16]]
  {
    hide Zeros;
    var s := MinimalHex(n / 16);
    if |s| < w - 1 {
      assert Zeros(w - 1 - |s|) + (s + [DIGITS[n % 16]]) == (Zeros(w - 1 - |s|) + s) + [DIGITS[n % 16]];
    }
  }

  lemma {:induction false} FixedHexDigits(n: nat, w: nat)
    requires n < Pow16(w)
    ensures HexValue(FixedHex(n, w)) == n
    ensures forall i :: 0 <= i < w ==> exists d: nat :: d < 16 && FixedHex(n, w)[i] == DIGITS[d]
    decreases w
  {
    if w > 0 {
      assert n / 16 < Pow16(w - 1);
      FixedHexDigits(n / 16, w - 1);
      DigitsDecode(n % 16);
      var s := FixedHex(n, w);
      assert s[..w - 1] == FixedHex(n / 16, w - 1);
    }
  }

  lemma {:induction false} FullRun(s: string, w: nat)
    requires w <= |s| && forall i :: 0 <= i < w ==> DigitValue(s[i]) >= 0
    ensures DigitRun(s, w) == w
    decreases w
  {
    if w > 0 {
      FullRun(s[1..], w - 1);
    }
  }

  /** A full-width run of digits is scanned as its value, and the rest of the text is left alone. */
  lemma ScanFullRun(t: string, w: nat, rest: string)
    requires 1 <= w == |t| && forall i :: 0 <= i < w ==> DigitValue(t[i]) >= 0
    requires 0 <= HexValue(t) < TWO_32
    ensures ScanHex(t + rest, w) == Some((HexValue(t), rest))
  {
    var s := t + rest;
    assert s[0] == t[0] && !IsSpace(s[0]) && s[0] !in {'+', '-'};
    assert w >= 2 ==> s[1] == t[1] && s[1] !in {'x', 'X'};
    assert SkipSpaces(s) == s;
    FullRun(s, w);
    assert s[..w] == t && s[w..] == rest;
  }

  const HEX_DIGITS: string := "0123456789abcdefABCDEF"

  lemma DigitIff(c: char)
    ensures DigitValue(c) >= 0 <==> c in HEX_DIGITS
  {
    if DigitValue(c) >= 0 {
      var i := if c >= 'a' then c as int - 'a' as int + 10 else if c >= 'A' then c as int - 'A' as int + 16
               else c as int - '0' as int;
      assert c == HEX_DIGITS[i];
    }
  }

  /** A text that begins with nothing a hexadecimal conversion could take. */
  predicate StopsScan(rest: string) {
    rest != "" ==> rest[0] !in HEX_DIGITS && rest[0] !in "xX+- \t\n\U{b}\U{c}\r"
  }

  /**
   * What one conversion of width `w` takes from a text: white space outside the width, then a sign, 0x and digits. The
   * value is that of the digits, negated in 32 bits for a minus sign; without digits nothing is converted.
   */
  lemma {:induction false} ScanHexMeans(spaces: string, sign: string, prefix: string, digits: string, rest: string,
                                        w: nat)
    requires forall i :: 0 <= i < |spaces| ==> spaces[i] in " \t\n\U{b}\U{c}\r"
    requires sign in {"", "+", "-"} && prefix in {"", "0x", "0X"}
    requires forall i :: 0 <= i < |digits| ==> digits[i] in HEX_DIGITS
    requires |sign| + |prefix| + |digits| <= w && (|sign| + |prefix| + |digits| < w ==> StopsScan(rest))
    ensures ScanHex(spaces + (sign + (prefix + (digits + rest))), w)
         == if digits == "" then None
            else Some(((if sign == "-" then -HexValue(digits) else HexValue(digits)) % 0x1_0000_0000, rest))
  {
    hide *;
    var s1 := prefix + (digits + rest);
    var s := sign + s1;
    assert sign == "" ==> s == s1;
    NoSpace(sign, prefix, digits, rest, w);
    SkipAll(spaces, s, w);
    if w > 0 {
      SignTaken(spaces + s, sign, s1, w);
      ScanDigitsMeans(prefix, digits, rest, w - |sign|);
    } else {
      NoWidth(spaces + s);
    }
  }

  lemma {:induction false} SignTaken(input: string, sign: string, s: string, w: nat)
    requires SkipSpaces(input) == sign + s && sign in {"", "+", "-"} && |sign| <= w && w > 0
    requires sign == "" && s != "" ==> s[0] !in {'+', '-'}
    ensures var r := ScanDigits(s, w - |sign|);
            ScanHex(input, w) == if r == None then None
              else Some(((if sign == "-" then -r.value.0 else r.value.0) % 0x1_0000_0000, r.value.1))
  {
    hide ScanDigits, SkipSpaces;
    if sign == "" {
      assert sign + s == s;
    } else {
      assert (sign + s)[0] == sign[0] && (sign + s)[1..] == s;
    }
  }

  lemma NoWidth(s: string)
    ensures ScanHex(s, 0) == None
  {
  }

  lemma {:induction false} ScanDigitsMeans(prefix: string, digits: string, rest: string, w: nat)
    requires prefix in {"", "0x", "0X"} && forall i :: 0 <= i < |digits| ==> digits[i] in HEX_DIGITS
    requires |prefix| + |digits| <= w && (|prefix| + |digits| < w ==> StopsScan(rest))
    ensures ScanDigits(prefix + (digits + rest), w) == if digits == "" then None else Some((HexValue(digits), rest))
  {
    hide TakeDigits, HasPrefix, HexValue, StopsScan, HEX_DIGITS;
    var body := digits + rest;
    DigitsTaken(digits, rest, w - |prefix|);
    if prefix == "" {
      assert prefix + body == body;
      NoPrefix(digits, rest, w);
    } else {
      Prefixed(prefix, body);
    }
  }

  lemma {:induction false} DigitsTaken(digits: string, rest: string, w: nat)
    requires forall i :: 0 <= i < |digits| ==> digits[i] in HEX_DIGITS
    requires |digits| <= w && (|digits| < w ==> StopsScan(rest))
    ensures TakeDigits(digits + rest, w) == if digits == "" then None else Some((HexValue(digits), rest))
  {
    hide DigitRun, HexValue, StopsScan, HEX_DIGITS;
    RunOf(digits, rest, w);
    assert (digits + rest)[..|digits|] == digits && (digits + rest)[|digits|..] == rest;
  }

  lemma Prefixed(prefix: string, body: string)
    requires prefix in {"0x", "0X"}
    ensures |prefix| == 2 && HasPrefix(prefix + body) && (prefix + body)[2..] == body
  {
    var s := prefix + body;
    assert |prefix| == 2 && prefix[0] == '0' && (prefix[1] == 'x' || prefix[1] == 'X');
    assert s[0] == prefix[0] && s[1] == prefix[1];
  }

  lemma {:induction false} NoSpace(sign: string, prefix: string, digits: string, rest: string, w: nat)
    requires sign in {"", "+", "-"} && prefix in {"", "0x", "0X"}
    requires forall i :: 0 <= i < |digits| ==> digits[i] in HEX_DIGITS
    requires |sign| + |prefix| + |digits| < w ==> StopsScan(rest)
    ensures var s := sign + (prefix + (digits + rest));
            w > 0 && s != "" && |sign| + |prefix| + |digits| <= w ==>
              !IsSpace(s[0]) && (sign == "" ==> s[0] !in {'+', '-'})
  {
    var s := sign + (prefix + (digits + rest));
    if sign == "" && prefix == "" && digits != "" {
      assert s[0] == digits[0];
      HexIsNoSpace(digits[0]);
    } else if sign == "" && prefix == "" && rest != "" {
      assert s[0] == rest[0];
      SpacesAre(rest[0]);
    }
  }

  lemma SpacesAre(c: char)
    ensures IsSpace(c) <==> c in " \t\n\U{b}\U{c}\r"
  {
    var t := " \t\n\U{b}\U{c}\r";
    assert t[0] == ' ' && t[1] == '\t' && t[2] == '\n' && t[3] == 11 as char && t[4] == 12 as char && t[5] == '\r';
  }

  lemma HexIsNoSpace(c: char)
    requires c in HEX_DIGITS
    ensures !IsSpace(c) && c !in {'+', '-', 'x', 'X'}
  {
  }

  lemma {:induction false} NoPrefix(digits: string, rest: string, w: nat)
    requires forall i :: 0 <= i < |digits| ==> digits[i] in HEX_DIGITS
    requires |digits| <= w && (|digits| < w ==> StopsScan(rest))
    ensures !(w >= 2 && HasPrefix(digits + rest))
  {
    var body := digits + rest;
    if |digits| >= 2 {
      assert body[1] == digits[1];
      HexIsNoSpace(digits[1]);
    } else if |body| >= 2 {
      assert |digits| == 1 ==> body[1] == rest[0];
      assert |digits| == 0 ==> body[0] == rest[0];
      assert '0' == HEX_DIGITS[0];
    }
  }

  lemma {:induction false} SkipAll(spaces: string, s: string, w: nat)
    requires forall i :: 0 <= i < |spaces| ==> spaces[i] in " \t\n\U{b}\U{c}\r"
    requires w > 0 && s != "" ==> !IsSpace(s[0])
    ensures w > 0 ==> SkipSpaces(spaces + s) == s
    decreases |spaces|
  {
    if spaces == "" {
      assert spaces + s == s;
    } else {
      SpacesAre(spaces[0]);
      assert (spaces + s)[1..] == spaces[1..] + s;
      SkipAll(spaces[1..], s, w);
    }
  }

  lemma {:induction false} RunOf(digits: string, rest: string, w: nat)
    requires forall i :: 0 <= i < |digits| ==> digits[i] in HEX_DIGITS
    requires |digits| <= w && (|digits| < w ==> StopsScan(rest))
    ensures DigitRun(digits + rest, w) == |digits|
    decreases |digits|
  {
    hide DigitValue;
    if digits == "" {
      assert digits + rest == rest;
      if w > 0 && rest != "" {
        DigitIff(rest[0]);
      }
    } else {
      DigitIff(digits[0]);
      assert (digits + rest)[0] == digits[0] && (digits + rest)[1..] == digits[1..] + rest;
      RunOf(digits[1..], rest, w - 1);
    }
  }

  lemma {:induction false} HexValueBound(s: string)
    requires forall i :: 0 <= i < |s| ==> DigitValue(s[i]) >= 0
    ensures 0 <= HexValue(s) < Pow16(|s|)
    decreases |s|
  {
    if s != [] {
      HexValueBound(s[..|s| - 1]);
    }
  }

  lemma Pow16Widths()
    ensures Pow16(2) == 256 && Pow16(4) == TWO_16 && Pow16(8) == TWO_32
  {
    assert Pow16(1) == 16 && Pow16(2) == 16 * Pow16(1) && Pow16(3) == 16 * Pow16(2) && Pow16(4) == 16 * Pow16(3);
    assert Pow16(5) == 16 * Pow16(4) && Pow16(6) == 16 * Pow16(5) && Pow16(7) == 16 * Pow16(6);
    assert Pow16(8) == 16 * Pow16(7);
  }

  lemma {:induction false} Pow16Monotone(a: nat, b: nat)
    requires a <= b
    ensures Pow16(a) <= Pow16(b)
    decreases b - a
  {
    if a < b {
      Pow16Monotone(a, b - 1);
    }
  }

  // ----- any format -----

  predicate Widths(format: Format) {
    match format
    case End => true
    case Dash(rest) => Widths(rest)
    case Hex(w, rest) => 1 <= w <= 8 && Widths(rest)
  }

  /** The values from index `i` on are as many as the conversions, and each fits its width. */
  predicate Fit(format: Format, values: seq<int>, i: nat)
    decreases format
  {
    match format
    case End => i == |values|
    case Dash(rest) => Fit(rest, values, i)
    case Hex(w, rest) => i < |values| && 0 <= values[i] < Pow16(w) && Fit(rest, values, i + 1)
  }

  function Length(format: Format): nat {
    match format
    case End => 0
    case Dash(rest) => 1 + Length(rest)
    case Hex(w, rest) => w + Length(rest)
  }

  lemma {:induction false} FitNonNegative(format: Format, values: seq<int>, i: nat)
    requires Fit(format, values, i)
    ensures i <= |values| && forall j :: i <= j < |values| ==> values[j] >= 0
    decreases format
  {
    match format
    case End =>
    case Dash(rest) => FitNonNegative(rest, values, i);
    case Hex(w, rest) => FitNonNegative(rest, values, i + 1);
  }

  lemma FixedHexIsDigits(n: nat, w: nat)
    requires n < Pow16(w)
    ensures HexValue(FixedHex(n, w)) == n
    ensures forall i :: 0 <= i < w ==> DigitValue(FixedHex(n, w)[i]) >= 0
  {
    FixedHexDigits(n, w);
    var t := FixedHex(n, w);
    forall i | 0 <= i < w
      ensures DigitValue(t[i]) >= 0
    {
      var d: nat :| d < 16 && t[i] == DIGITS[d];
      DigitsDecode(d);
    }
  }

  /** Printing and scanning with one format is the identity on values that fit, for every such format. */
  lemma {:induction false} ScanPrints(format: Format, values: seq<int>, i: nat)
    requires Widths(format) && Fit(format, values, i)
    ensures i <= |values| && forall j :: i <= j < |values| ==> values[j] >= 0
    ensures Scan(format, Print(format, values[i..])) == values[i..]
    ensures |Print(format, values[i..])| == Length(format)
    decreases format
  {
    hide ScanHex, FixedHex, PrintHex, HexValue, DigitValue;
    FitNonNegative(format, values, i);
    match format
    case End =>
    case Dash(rest) =>
      ScanPrints(rest, values, i);
      assert Print(format, values[i..])[1..] == Print(rest, values[i..]);
    case Hex(w, rest) =>
      ScanPrints(rest, values, i + 1);
      PrintHexIsFixed(values[i], w);
      FixedHexIsDigits(values[i], w);
      Pow16Monotone(w, 8);
      Pow16Widths();
      assert values[i..][1..] == values[i + 1..];
      ScanFullRun(FixedHex(values[i], w), w, Print(rest, values[i + 1..]));
  }

  // ----- the GUID format -----

  /** Every GUID is printed as exactly 36 characters, of the 38 that snprintf leaves room for, and scanned back. */
  lemma GuidRoundTrip(g: Guid)
    requires ValidGuid(g)
    ensures |ToText(g)| == 36 <= 39 - 1
    ensures FromText(ToText(g)) == Some(g)
  {
    hide Print, Scan;
    GuidFit(g);
    ScanPrints(GuidFormat(), Fields(g), 0);
    assert Fields(g)[0..] == Fields(g);
    FieldsBack(g);
  }

  /** The digits of a number, the most significant one first. */
  predicate IsHex(s: string, n: nat) {
    forall i :: 0 <= i < |s| ==> s[i] == "0123456789abcdef"[n / Pow16(|s| - 1 - i) % 16]
  }

  lemma {:induction false} FixedIsHex(n: nat, w: nat)
    ensures IsHex(FixedHex(n, w), n)
    decreases w
  {
    if w > 0 {
      FixedIsHex(n / 16, w - 1);
      forall i | 0 <= i < w
        ensures FixedHex(n, w)[i] == "0123456789abcdef"[n / Pow16(w - 1 - i) % 16]
      {
        if i < w - 1 {
          var p := Pow16(w - 2 - i);
          assert FixedHex(n, w)[i] == FixedHex(n / 16, w - 1)[i];
          assert Pow16(w - 1 - i) == 16 * p;
          DivTwice(n, p);
        }
      }
    }
  }

  lemma DivTwice(n: nat, p: nat)
    requires p >= 1
    ensures n / 16 / p == n / (16 * p)
  {
    var q, r := n / 16 / p, n / 16 % p;
    assert n / 16 == p * q + r;
    assert n == 16 * (p * q + r) + n % 16 == (16 * p) * q + (16 * r + n % 16);
    AppMemory.DivModUnique(n, 16 * p, q, 16 * r + n % 16);
  }

  /** The text of a format that starts with a conversion: its digits, then the text of the rest. */
  lemma PrintSplits(format: Format, values: seq<int>, i: nat)
    requires format.Hex? && 1 <= format.width && Fit(format, values, i)
    requires forall j :: 0 <= j < |values| ==> values[j] >= 0
    ensures var t := Print(format, values[i..]);
            && |t| >= format.width && IsHex(t[..format.width], values[i])
            && t[format.width..] == Print(format.rest, values[i + 1..])
  {
    hide IsHex, PrintHex, FixedHex;
    PrintHexIsFixed(values[i], format.width);
    FixedIsHex(values[i], format.width);
    assert values[i..][1..] == values[i + 1..];
    var d := FixedHex(values[i], format.width);
    assert Print(format, values[i..]) == d + Print(format.rest, values[i + 1..]);
    assert (d + Print(format.rest, values[i + 1..]))[..format.width] == d;
  }

  /** A group of digits and the dash behind it, in a text that goes on from `at` with the rest of the format. */
  lemma GroupAt(t: string, at: nat, format: Format, values: seq<int>, i: nat)
    requires at <= |t| && format.Hex? && format.width >= 1 && format.rest.Dash? && Fit(format, values, i)
    requires forall j :: 0 <= j < |values| ==> values[j] >= 0
    requires t[at..] == Print(format, values[i..])
    ensures var dash := at + format.width;
            && dash < |t| && IsHex(t[at..dash], values[i]) && t[dash] == '-'
            && t[dash + 1..] == Print(format.rest.rest, values[i + 1..]) && Fit(format.rest.rest, values, i + 1)
  {
    hide IsHex;
    PrintSplits(format, values, i);
    var u, w := t[at..], format.width;
    assert u[..w] == t[at..at + w] && u[w..] == t[at + w..];
    assert u[w..][0] == '-' && u[w..][1..] == t[at + w + 1..];
  }

  /** Two bytes in a row. */
  lemma BytesAt(t: string, at: nat, format: Format, values: seq<int>, i: nat)
    requires at <= |t| && format.Hex? && format.width == 2 && format.rest.Hex? && format.rest.width == 2
    requires Fit(format, values, i) && forall j :: 0 <= j < |values| ==> values[j] >= 0
    requires t[at..] == Print(format, values[i..])
    ensures at + 4 <= |t| && i + 2 <= |values|
    ensures IsHex(t[at..at + 2], values[i]) && IsHex(t[at + 2..at + 4], values[i + 1])
    ensures t[at + 4..] == Print(format.rest.rest, values[i + 2..]) && Fit(format.rest.rest, values, i + 2)
  {
    hide IsHex, Print;
    PrintSplits(format, values, i);
    PrintSplits(format.rest, values, i + 1);
    var u := t[at..];
    assert u[..2] == t[at..at + 2] && u[2..][..2] == t[at + 2..at + 4] && u[2..][2..] == t[at + 4..];
  }

  /** Where everything stands in the text of a GUID. */
  lemma GuidLayout(g: Guid)
    requires ValidGuid(g)
    ensures var t := ToText(g);
            && |t| == 36 && t[8] == t[13] == t[18] == t[23] == '-'
            && IsHex(t[0..8], g.data1) && IsHex(t[9..13], g.data2) && IsHex(t[14..18], g.data3)
            && IsHex(t[19..21], g.data4[0]) && IsHex(t[21..23], g.data4[1])
            && IsHex(t[24..26], g.data4[2]) && IsHex(t[26..28], g.data4[3]) && IsHex(t[28..30], g.data4[4])
            && IsHex(t[30..32], g.data4[5]) && IsHex(t[32..34], g.data4[6]) && IsHex(t[34..36], g.data4[7])
  {
    hide IsHex, Print, Fit, Scan, FromText;
    var v, t, f := Fields(g), ToText(g), GuidFormat();
    GuidRoundTrip(g);
    GuidFit(g);
    assert v[0..] == v && t[0..] == t;
    GroupAt(t, 0, f, v, 0);
    GroupAt(t, 9, f.rest.rest, v, 1);
    GroupAt(t, 14, f.rest.rest.rest.rest, v, 2);
    NodeLayout(t, v, f.rest.rest.rest.rest.rest.rest);
  }

  lemma NodeLayout(t: string, v: seq<int>, f: Format)
    requires |v| == 11 && |t| == 36 && forall j :: 0 <= j < |v| ==> v[j] >= 0
    requires f == Hex(2, Hex(2, Dash(Hex(2, Hex(2, Hex(2, Hex(2, Hex(2, Hex(2, End)))))))))
    requires t[19..] == Print(f, v[3..]) && Fit(f, v, 3)
    ensures IsHex(t[19..21], v[3]) && IsHex(t[21..23], v[4]) && t[23] == '-'
    ensures IsHex(t[24..26], v[5]) && IsHex(t[26..28], v[6]) && IsHex(t[28..30], v[7])
    ensures IsHex(t[30..32], v[8]) && IsHex(t[32..34], v[9]) && IsHex(t[34..36], v[10])
  {
    hide IsHex, Print, Fit;
    BytesAt(t, 19, f, v, 3);
    var f1 := f.rest.rest;
    DashAt(t, 23, f1, v, 5);
    BytesAt(t, 24, f1.rest, v, 5);
    BytesAt(t, 28, f1.rest.rest.rest, v, 7);
    BytesAt(t, 32, f1.rest.rest.rest.rest.rest, v, 9);
  }

  lemma DashAt(t: string, at: nat, format: Format, values: seq<int>, i: nat)
    requires at <= |t| && format.Dash? && Fit(format, values, i) && i <= |values|
    requires forall j :: 0 <= j < |values| ==> values[j] >= 0
    requires t[at..] == Print(format, values[i..])
    ensures at < |t| && t[at] == '-' && t[at + 1..] == Print(format.rest, values[i..]) && Fit(format.rest, values, i)
  {
    var u := t[at..];
    assert u[0] == '-' && u[1..] == t[at + 1..];
  }

  /** The eleven numbers make up the structure they come from. */
  lemma FieldsBack(g: Guid)
    requires ValidGuid(g)
    ensures var v := Fields(g);
            && |v| == 11
            && Guid(v[0], v[1] % TWO_16, v[2] % TWO_16, seq(8, i requires 0 <= i < 8 => v[3 + i] % 256)) == g
  {
    var v := Fields(g);
    var data4: seq<int> := seq(8, i requires 0 <= i < 8 => v[3 + i] % 256);
    assert data4[0] == g.data4[0] && data4[1] == g.data4[1] && data4[2] == g.data4[2] && data4[3] == g.data4[3];
    assert data4[4] == g.data4[4] && data4[5] == g.data4[5] && data4[6] == g.data4[6] && data4[7] == g.data4[7];
    assert data4 == g.data4;
  }

  lemma GuidFit(g: Guid)
    requires ValidGuid(g)
    ensures Fit(GuidFormat(), Fields(g), 0) && Widths(GuidFormat()) && Length(GuidFormat()) == 36
  {
    Pow16Widths();
  }

  // ----- texts of the canonical shape -----

  /** A text that the format describes: full-width digit runs, of either case, and dashes. */
  predicate Shaped(format: Format, s: string)
    decreases format
  {
    match format
    case End => s == ""
    case Dash(rest) => s != "" && s[0] == '-' && Shaped(rest, s[1..])
    case Hex(w, rest) =>
      w <= |s| && (forall i :: 0 <= i < w ==> s[i] in HEX_DIGITS) && Shaped(rest, s[w..])
  }

  function LowerDigit(c: char): char {
    if 'A' <= c <= 'F' then (c as int + 32) as char else c
  }

  lemma DigitsLower(t: string)
    requires forall i :: 0 <= i < |t| ==> t[i] in HEX_DIGITS
    ensures forall i :: 0 <= i < |t| ==> DigitValue(t[i]) >= 0 && LowerDigit(t[i]) == DIGITS[DigitValue(t[i])]
  {
    forall i | 0 <= i < |t|
      ensures DigitValue(t[i]) >= 0
    {
      DigitIff(t[i]);
    }
  }

  function Lower(s: string): (r: string)
    ensures |r| == |s|
    ensures forall i :: 0 <= i < |s| ==> r[i] == LowerDigit(s[i])
  {
    seq(|s|, i requires 0 <= i < |s| => LowerDigit(s[i]))
  }

  lemma {:induction false} FixedHexOfValue(t: string)
    requires forall i :: 0 <= i < |t| ==> DigitValue(t[i]) >= 0 && LowerDigit(t[i]) == DIGITS[DigitValue(t[i])]
    ensures 0 <= HexValue(t) < Pow16(|t|)
    ensures FixedHex(HexValue(t), |t|) == Lower(t)
    decreases |t|
  {
    HexValueBound(t);
    if t != "" {
      var init, d := t[..|t| - 1], DigitValue(t[|t| - 1]);
      FixedHexOfValue(init);
      assert HexValue(t) == HexValue(init) * 16 + d;
      assert HexValue(t) / 16 == HexValue(init) && HexValue(t) % 16 == d;
      assert Lower(t) == Lower(init) + [DIGITS[d]];
    }
  }

  lemma {:induction false} FitShift(format: Format, x: int, values: seq<int>, i: nat)
    requires Fit(format, values, i)
    ensures Fit(format, [x] + values, i + 1)
    decreases format
  {
    match format
    case End =>
    case Dash(rest) => FitShift(rest, x, values, i);
    case Hex(w, rest) => FitShift(rest, x, values, i + 1);
  }

  lemma LowerSplits(s: string, w: nat)
    requires w <= |s|
    ensures Lower(s) == Lower(s[..w]) + Lower(s[w..])
  {
  }

  /** Scanning a text of the format's shape and printing it again gives the same text in lower case. */
  lemma {:induction false} PrintScans(format: Format, s: string)
    requires Widths(format) && Shaped(format, s)
    ensures Fit(format, Scan(format, s), 0)
    ensures forall j :: 0 <= j < |Scan(format, s)| ==> Scan(format, s)[j] >= 0
    ensures Print(format, Scan(format, s)) == Lower(s)
    decreases format
  {
    hide ScanHex, FixedHex, PrintHex, HexValue, Lower;
    match format
    case End =>
    case Dash(rest) =>
      PrintScans(rest, s[1..]);
      LowerSplits(s, 1);
      assert Lower(s[..1]) == "-";
    case Hex(w, rest) =>
      var t := s[..w];
      PrintScans(rest, s[w..]);
      DigitsLower(t);
      FixedHexOfValue(t);
      Pow16Monotone(w, 8);
      Pow16Widths();
      ScanFullRun(t, w, s[w..]);
      assert t + s[w..] == s;
      var v := Scan(format, s);
      assert v == [HexValue(t)] + Scan(rest, s[w..]) && v[1..] == Scan(rest, s[w..]);
      FitShift(rest, HexValue(t), v[1..], 0);
      PrintHexIsFixed(HexValue(t), w);
      LowerSplits(s, w);
  }

  /** Every text of GUID shape is read as a GUID, and that GUID is sent as the same text in lower case. */
  lemma GuidTextRoundTrip(s: string)
    requires Shaped(GuidFormat(), s)
    ensures FromText(s).Some? && ValidGuid(FromText(s).value)
    ensures ToText(FromText(s).value) == Lower(s)
  {
    hide Print, Scan, Shaped, Fit, Lower;
    assert Widths(GuidFormat());
    PrintScans(GuidFormat(), s);
    var v := Scan(GuidFormat(), s);
    FitBounds(v);
    assert Fields(FromText(s).value) == v;
  }

  lemma FitBounds(v: seq<int>)
    requires Fit(GuidFormat(), v, 0)
    ensures |v| == 11 && 0 <= v[0] < TWO_32 && 0 <= v[1] < TWO_16 && 0 <= v[2] < TWO_16
    ensures forall i :: 3 <= i < 11 ==> 0 <= v[i] < 256
  {
    Pow16Widths();
    var f1 := GuidFormat().rest.rest;
    assert Fit(f1, v, 1);
    var f2 := f1.rest.rest;
    assert Fit(f2, v, 2);
    var f3 := f2.rest.rest;
    assert Fit(f3, v, 3);
    var f5 := f3.rest.rest.rest;
    assert Fit(f3.rest, v, 4) && Fit(f5, v, 5);
    var f7 := f5.rest.rest;
    assert Fit(f5.rest, v, 6) && Fit(f7, v, 7);
    var f9 := f7.rest.rest;
    assert Fit(f7.rest, v, 8) && Fit(f9, v, 9);
    assert Fit(f9.rest, v, 10) && Fit(f9.rest.rest, v, 11);
  }
}
