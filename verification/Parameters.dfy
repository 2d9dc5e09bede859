/**
 * The conversion of one bound parameter into the native parameter list, as bindParameter does it, for
 * character, binary and all integer C types.
 */
module Parameters {
  import opened OdbcTypes

  datatype ParamCType =
    | PChar | PBinary
    | PShort | PUShort | PSLong | PULong | PLong | PTinyInt | PSTinyInt | PSBigInt | PUBigInt
    | PUnsupported
  {
    predicate IsInteger() {
      !PChar? && !PBinary? && !PUnsupported?
    }

    function FixedWidth(): (r: int)
      ensures IsInteger() ==> r > 0
    {
      match this
      case PTinyInt | PSTinyInt => 1
      case PShort | PUShort => 2
      case PSLong | PULong | PLong => 4
      case PSBigInt | PUBigInt => 8
      case _ => 0
    }
  }

  datatype Direction = Input | Output | InputOutput

  /** The application's memory as the driver reads it: bytes, integers of each type and length words by address. */
  datatype Memory = Memory(bytes: int -> seq<Byte>, ints: (ParamCType, int) -> int, words: int -> int)

  /** m_o_lenOrIndp: null, an address, or the local length of one SQLPutData call. */
  datatype LenRef = NoLen | LenAt(addr: int) | LenLocal(n: int)

  /** A bound parameter; value address 0 is the null pointer. */
  datatype Parameter = Parameter(direction: Direction, ctype: ParamCType, isDataAtExec: bool, isBound: bool,
                                 value: int, valueSize: int, len: LenRef)

  /** One element of the native parameter list. */
  datatype NativeValue = Unset | NullValue | Text(chars: seq<Byte>) | Binary(bytes: seq<Byte>) | Integer(n: int)

  const SIZEOF_SQLLEN: int := 8

  /** The arguments of SQLBindParameter that the model keeps. */
  datatype Binding = Binding(direction: Direction, ctype: ParamCType, value: int, valueSize: int, len: LenRef)

  /** A parameter in the vector that was never bound counts as one with data at execution. */
  const NEVER_BOUND: Parameter := Parameter(Input, PUnsupported, true, false, 0, 0, NoLen)

  /** Parameter::set after the null check of addParameter: the bound flag is not reset. */
  function Rebind(mem: Memory, p: Parameter, b: Binding): Parameter {
    var v := if b.value != 0 && b.len.LenAt? && mem.words(b.len.addr) == SQL_NULL_DATA then 0 else b.value;
    Parameter(b.direction, b.ctype, false, p.isBound, v, b.valueSize, b.len)
  }

  /** addParameter: the vector grows to the parameter number before its element is set. */
  function BindAt(mem: Memory, params: seq<Parameter>, i: nat, b: Binding): (r: seq<Parameter>)
    ensures |r| == Max(|params|, i + 1) && r[i] == Rebind(mem, if i < |params| then params[i] else NEVER_BOUND, b)
    ensures forall j :: 0 <= j < |params| && j != i ==> r[j] == params[j]
  {
    var grown := params + seq(Max(i + 1 - |params|, 0), _ => NEVER_BOUND);
    grown[i := Rebind(mem, grown[i], b)]
  }

  function LenValue(mem: Memory, len: LenRef, lenOffset: int): int {
    match len
    case NoLen => SQL_NTS
    case LenAt(a) => mem.words(a + SIZEOF_SQLLEN * lenOffset)
    case LenLocal(n) => n
  }

  /** IS_DATA_AT_EXEC: looks at the first length word, whatever the offset. */
  predicate LenSaysDataAtExec(mem: Memory, len: LenRef) {
    len != NoLen &&
    (LenValue(mem, len, 0) == SQL_DATA_AT_EXEC || LenValue(mem, len, 0) <= SQL_LEN_DATA_AT_EXEC_OFFSET)
  }

  predicate NeedsData(mem: Memory, p: Parameter) {
    p.isDataAtExec || LenSaysDataAtExec(mem, p.len)
  }

  /** The text up to the first NUL. */
  function CString(s: seq<Byte>): (r: seq<Byte>)
    ensures r <= s
  {
    if s == [] || s[0] == 0 then [] else [s[0]] + CString(s[1..])
  }

  function Bytes(mem: Memory, addr: int, len: int, terminated: bool): seq<Byte> {
    var s := mem.bytes(addr);
    if terminated then CString(s) else if 0 <= len <= |s| then s[..len] else s
  }

  /** What the bound type and length make of the data at `addr`. */
  function ReadValue(mem: Memory, ctype: ParamCType, addr: int, len: int): (r: NativeValue)
    ensures r == Unset <==> ctype == PUnsupported
    ensures r != NullValue
  {
    match ctype
    case PChar => Text(Bytes(mem, addr, len, len < 0))
    case PBinary => Binary(Bytes(mem, addr, len, len == SQL_NTS))
    case PUnsupported => Unset
    case _ => Integer(mem.ints(ctype, addr))
  }

  // ----- what the application passes -----

  /** `t` is the text at the start of `s` up to the first NUL, or all of it. */
  predicate IsTerminated(s: seq<Byte>, t: seq<Byte>) {
    |t| <= |s| && t == s[..|t|] && 0 !in t && (|t| < |s| ==> s[|t|] == 0)
  }

  predicate IsStart(s: seq<Byte>, n: nat, t: seq<Byte>) {
    |t| == n <= |s| && forall k :: 0 <= k < n ==> t[k] == s[k]
  }

  /**
   * `v` is the value the application passes at an address with a length: text and binary data of that many bytes, or
   * up to the first NUL where the length says so, or an integer. A length beyond the memory means nothing.
   */
  predicate IsPassed(mem: Memory, ctype: ParamCType, addr: int, len: int, v: NativeValue) {
    var s := mem.bytes(addr);
    match ctype
    case PChar =>
      && v.Text?
      && (len < 0 ==> IsTerminated(s, v.chars)) && (0 <= len <= |s| ==> IsStart(s, len, v.chars))
    case PBinary =>
      && v.Binary?
      && (len == -3 ==> IsTerminated(s, v.bytes)) && (0 <= len <= |s| ==> IsStart(s, len, v.bytes))
    case PUnsupported => v == Unset
    case _ => v == Integer(mem.ints(ctype, addr))
  }

  /** Text in front of a NUL is passed as just that text. */
  lemma TerminatedText(t: seq<Byte>, rest: seq<Byte>, u: seq<Byte>)
    requires 0 !in t && IsTerminated(t + [0] + rest, u)
    ensures u == t
  {
    var s := t + [0] + rest;
    assert s[|t|] == 0 && s[..|t|] == t;
    assert forall k :: 0 <= k < |u| ==> u[k] == s[k];
    assert forall k :: 0 <= k < |t| ==> s[k] == t[k];
  }

  lemma {:induction false} CStringTerminated(s: seq<Byte>)
    ensures IsTerminated(s, CString(s))
    decreases |s|
  {
    if s != [] && s[0] != 0 {
      CStringTerminated(s[1..]);
    }
  }

  lemma ReadValuePassed(mem: Memory, ctype: ParamCType, addr: int, len: int)
    ensures IsPassed(mem, ctype, addr, len, ReadValue(mem, ctype, addr, len))
  {
    CStringTerminated(mem.bytes(addr));
  }

  /** The length that goes with a value: none given means terminated text. */
  function LengthWord(mem: Memory, len: LenRef): int {
    match len
    case NoLen => -3
    case LenAt(a) => mem.words(a)
    case LenLocal(n) => n
  }

  /** The application says that it is going to put the data of a parameter. */
  predicate Asks(mem: Memory, p: Parameter) {
    p.isDataAtExec || (p.len != NoLen && (LengthWord(mem, p.len) == -2 || LengthWord(mem, p.len) <= -100))
  }

  lemma AsksIff(mem: Memory, p: Parameter)
    ensures NeedsData(mem, p) <==> Asks(mem, p)
  {
  }

  /**
   * Binding a parameter takes over everything the application gives, and NULL for a value whose length word says so at
   * that moment; only the flag of put data stays. New parameters in between are pending ones.
   */
  lemma BindMeans(mem: Memory, params: seq<Parameter>, i: nat, b: Binding)
    ensures var r := BindAt(mem, params, i, b);
            && |r| == Max(|params|, i + 1)
            && r[i].direction == b.direction && r[i].ctype == b.ctype && r[i].valueSize == b.valueSize
            && r[i].len == b.len && !r[i].isDataAtExec
            && r[i].value == (if b.len.LenAt? && mem.words(b.len.addr) == -1 then 0 else b.value)
            && r[i].isBound == (i < |params| && params[i].isBound)
            && (forall j :: 0 <= j < |params| && j != i ==> r[j] == params[j])
            && (forall j :: |params| <= j < i ==>
                  Asks(mem, r[j]) && r[j].value == 0 && r[j].valueSize == 0 && !r[j].isBound)
  {
    var grown := params + seq(Max(i + 1 - |params|, 0), _ => NEVER_BOUND);
    assert forall j :: |params| <= j < i ==> grown[j] == NEVER_BOUND;
  }

  // ----- the conversion -----

  /** appendString and appendBinary extend a value of their own kind and otherwise set it. */
  function Append(prior: NativeValue, v: NativeValue): NativeValue {
    if prior.Text? && v.Text? then Text(prior.chars + v.chars)
    else if prior.Binary? && v.Binary? then Binary(prior.bytes + v.bytes)
    else v
  }

  function Resized(exec: seq<NativeValue>, n: nat): (r: seq<NativeValue>)
    ensures |r| == n
    ensures forall i :: 0 <= i < n ==> r[i] == if i < |exec| then exec[i] else Unset
  {
    seq(n, i requires 0 <= i => if i < |exec| then exec[i] else Unset)
  }

  function SetAt(exec: seq<NativeValue>, i: nat, v: NativeValue): (r: seq<NativeValue>)
    ensures i < |r| && r[i] == v && (i < |exec| ==> r == exec[i := v])
  {
    if i < |exec| then exec[i := v] else Resized(exec, i) + [v]
  }

  datatype Bound = Bound(exec: seq<NativeValue>, param: Parameter, code: Code)

  /** bindParameter for the parameter at index `i`. */
  function BindParameter(mem: Memory, exec: seq<NativeValue>, i: nat, p: Parameter, append: bool,
                         valueOffset: int, lenOffset: int): Bound
  {
    if !append && NeedsData(mem, p) then Bound(exec, p.(isDataAtExec := true, len := NoLen), NeedData)
    else if !append && p.isBound then Bound(exec, p, Success)
    else if p.value != 0 && p.direction != Output then
      if p.ctype == PUnsupported then Bound(exec, p, Error)
      else
        var v := ReadValue(mem, p.ctype, p.value + valueOffset, LenValue(mem, p.len, lenOffset));
        var prior := if append && i < |exec| then exec[i] else Unset;
        Bound(SetAt(exec, i, Append(prior, v)),
              if p.ctype.IsInteger() && p.valueSize <= 0 then p.(valueSize := p.ctype.FixedWidth()) else p,
              Success)
    else Bound(SetAt(exec, i, NullValue), p, Success)
  }
}
