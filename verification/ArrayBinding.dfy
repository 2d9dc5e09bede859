/** Arrays of parameter sets: what each set reads, and how the codes of its parameters are combined. */
module ArrayBinding {
  import opened OdbcTypes
  import opened Parameters

  // ----- combining codes -----

  /** updateStatus for one parameter: the status word of the set and the overall result. */
  function UpdateStatus(status: Code, result: Code, ret: Code): (Code, Code) {
    if ret == Success then (status, result)
    else
      (if status == Error then Error else if ret == SuccessWithInfo then SuccessWithInfo else Error,
       if result == Success || result == SuccessWithInfo || ret == Error then ret else result)
  }

  /** The severity order of the codes a conversion can report. */
  function Rank(c: Code): nat {
    match c
    case Success => 0
    case SuccessWithInfo => 1
    case Error => 3
    case _ => 2
  }

  /** The codes a parameter conversion can report. */
  predicate Reported(c: Code) {
    c in {Success, SuccessWithInfo, NeedData, Error}
  }

  predicate AllReported(codes: seq<Code>) {
    forall i :: 0 <= i < |codes| ==> Reported(codes[i])
  }

  lemma UpdateStatusIsMaximum(status: Code, result: Code, ret: Code)
    requires Reported(ret) && Reported(result) && status in {Success, SuccessWithInfo, Error}
    ensures var (s, r) := UpdateStatus(status, result, ret);
            && r == (if Rank(result) >= Rank(ret) then result else ret)
            && s == (if status == Error || Rank(ret) >= 2 then Error
                     else if status == SuccessWithInfo || Rank(ret) == 1 then SuccessWithInfo else Success)
  {
  }

  function Codes(status: Code, result: Code, rets: seq<Code>): (Code, Code)
    decreases |rets|
  {
    if rets == [] then (status, result)
    else
      var (s1, r1) := UpdateStatus(status, result, rets[0]);
      Codes(s1, r1, rets[1..])
  }

  /**
   * The overall result is the most severe code met, whatever the order: it is one of them and at least as severe
   * as each. The status word is an error exactly when some code is neither success nor information.
   */
  lemma {:induction false} CodesAreMaximum(status: Code, result: Code, rets: seq<Code>)
    requires AllReported(rets) && Reported(result) && status in {Success, SuccessWithInfo, Error}
    ensures var (s, r) := Codes(status, result, rets);
            && (r == result || r in rets) && Rank(result) <= Rank(r)
            && (forall c :: c in rets ==> Rank(c) <= Rank(r))
            && (s == Error <==> status == Error || NeedData in rets || Error in rets)
            && (s == Success <==> status == Success && forall c :: c in rets ==> c == Success)
            && s in {Success, SuccessWithInfo, Error}
    decreases |rets|
  {
    hide UpdateStatus;
    if rets != [] {
      var (s1, r1) := UpdateStatus(status, result, rets[0]);
      UpdateStatusIsMaximum(status, result, rets[0]);
      CodesAreMaximum(s1, r1, rets[1..]);
      var (s, r) := Codes(s1, r1, rets[1..]);
      assert rets[0] in rets;
      assert forall c :: c in rets <==> c == rets[0] || c in rets[1..];
    }
  }

  lemma SameMembers(rets: seq<Code>, rets': seq<Code>)
    requires AllReported(rets) && multiset(rets) == multiset(rets')
    ensures AllReported(rets') && forall c :: c in rets <==> c in rets'
  {
    assert forall c :: c in rets <==> c in multiset(rets);
    assert forall c :: c in rets' <==> c in multiset(rets');
    forall i | 0 <= i < |rets'|
      ensures Reported(rets'[i])
    {
      assert rets'[i] in rets;
    }
  }

  /** So the same codes in any order give the same result and the same status. */
  lemma CodesOrderIndependent(rets: seq<Code>, rets': seq<Code>)
    requires AllReported(rets) && multiset(rets) == multiset(rets')
    ensures Codes(Success, Success, rets) == Codes(Success, Success, rets')
  {
    hide Codes;
    SameMembers(rets, rets');
    CodesAreMaximum(Success, Success, rets);
    CodesAreMaximum(Success, Success, rets');
  }

  // ----- the sets -----

  /** Between two sets: the parameters, the native list, the sets and statuses so far, and the overall result. */
  datatype ArrayState = ArrayState(params: seq<Parameter>, exec: seq<NativeValue>, batch: seq<seq<NativeValue>>,
                                   statuses: seq<Code>, result: Code)

  /** The parameters of set `i` from index `c` on. */
  datatype SetState = SetState(params: seq<Parameter>, exec: seq<NativeValue>, status: Code, result: Code)

  function ValueOffset(p: Parameter, i: nat, bindOffset: int, offset: int, orientation: nat): int {
    if orientation == BIND_BY_COLUMN then i * p.valueSize + bindOffset else offset
  }

  function BindColumns(mem: Memory, s: SetState, c: nat, i: nat, bindOffset: int, offset: int, orientation: nat)
      : (r: SetState)
    requires c <= |s.params|
    ensures |r.params| == |s.params|
    decreases |s.params| - c
  {
    if c == |s.params| then s
    else
      var p := s.params[c];
      var b := BindParameter(mem, s.exec, c, p, false, ValueOffset(p, i, bindOffset, offset, orientation), offset);
      var (status, result) := UpdateStatus(s.status, s.result, b.code);
      BindColumns(mem, SetState(s.params[c := b.param], b.exec, status, result), c + 1, i, bindOffset, offset,
                  orientation)
  }

  function SetOffset(i: nat, bindOffset: int, orientation: nat): int {
    bindOffset + (if orientation == BIND_BY_COLUMN then i else i * orientation)
  }

  /** One parameter set. */
  function BindSet(mem: Memory, a: ArrayState, i: nat, bindOffset: int, orientation: nat): (r: ArrayState)
    ensures |r.params| == |a.params| && |r.batch| == |a.batch| + 1 && |r.statuses| == |a.statuses| + 1
  {
    var s := BindColumns(mem, SetState(a.params, Resized(a.exec, |a.params|), Success, a.result), 0, i, bindOffset,
                         SetOffset(i, bindOffset, orientation), orientation);
    ArrayState(s.params, [], a.batch + [s.exec], a.statuses + [s.status], s.result)
  }

  /** bindArrayOfParameters, from set `i` on. */
  function BindSets(mem: Memory, a: ArrayState, i: nat, setSize: nat, bindOffset: int, orientation: nat)
      : (r: ArrayState)
    requires i <= setSize
    ensures |r.params| == |a.params|
    ensures |r.batch| == |a.batch| + (setSize - i) && |r.statuses| == |a.statuses| + (setSize - i)
    decreases setSize - i
  {
    if i == setSize then a
    else BindSets(mem, BindSet(mem, a, i, bindOffset, orientation), i + 1, setSize, bindOffset, orientation)
  }

  /** The 32-bit counter of the sets after `n` increments. */
  function Counter(n: nat): (r: nat)
    ensures r < TWO_32 && (n < TWO_32 ==> r == n)
  {
    if n == 0 then 0 else ToUint32(Counter(n - 1) + 1)
  }

  /** The loop over the sets ends exactly when the set size fits 32 bits, and then after exactly that many sets. */
  lemma CounterPassesIff(setSize: nat)
    ensures (exists n :: Counter(n) >= setSize) <==> setSize < TWO_32
    ensures setSize < TWO_32 ==> Counter(setSize) == setSize && forall n :: 0 <= n < setSize ==> Counter(n) < setSize
  {
    if setSize < TWO_32 {
      assert Counter(setSize) >= setSize;
      forall n | 0 <= n < setSize
        ensures Counter(n) < setSize
      {
        assert n < TWO_32;
      }
    }
  }

  // ----- what each set reads -----

  /** The code a parameter reports, the same for every set. */
  function RetOf(mem: Memory, p: Parameter): Code {
    if NeedsData(mem, p) then NeedData
    else if !p.isBound && p.value != 0 && p.direction != Output && p.ctype == PUnsupported then Error
    else Success
  }

  function Rets(mem: Memory, params: seq<Parameter>, c: nat): (r: seq<Code>)
    requires c <= |params|
    ensures AllReported(r)
    decreases |params| - c
  {
    if c == |params| then [] else [RetOf(mem, params[c])] + Rets(mem, params, c + 1)
  }

  /** The parameter once a set has been bound: flagged as pending, or with its fixed width filled in. */
  function After(mem: Memory, p: Parameter): Parameter {
    if NeedsData(mem, p) then p.(isDataAtExec := true, len := NoLen)
    else if !p.isBound && p.value != 0 && p.direction != Output && p.ctype.IsInteger() && p.valueSize <= 0 then
      p.(valueSize := p.ctype.FixedWidth())
    else p
  }

  /** The element at a given address and length position, unless the parameter is skipped. */
  function ElementRead(mem: Memory, p: Parameter, addr: int, lenOffset: int): NativeValue {
    if NeedsData(mem, p) || p.isBound then Unset
    else if p.value != 0 && p.direction != Output then ReadValue(mem, p.ctype, addr, LenValue(mem, p.len, lenOffset))
    else NullValue
  }

  /** The width an array element has: the declared one, or that of the integer type declared without one. */
  function ElementWidth(p: Parameter): int {
    if p.valueSize > 0 then p.valueSize
    else match p.ctype
      case PTinyInt | PSTinyInt => 1
      case PShort | PUShort => 2
      case PSLong | PULong | PLong => 4
      case PSBigInt | PUBigInt => 8
      case _ => p.valueSize
  }

  /** How bytes of a value column are laid out: elements one after the other, or one in each row structure. */
  function ElementOffset(p: Parameter, i: nat, bindOffset: int, orientation: nat): int {
    if orientation == BIND_BY_COLUMN then i * ElementWidth(p) + bindOffset else bindOffset + i * orientation
  }

  /** Element `i` of a column bound as an array, with the length word the driver looks at. */
  function Element(mem: Memory, p: Parameter, i: nat, bindOffset: int, orientation: nat): NativeValue {
    ElementRead(mem, p, p.value + ElementOffset(p, i, bindOffset, orientation), SetOffset(i, bindOffset, orientation))
  }

  /** The length word so many bytes behind the bound one; none given means terminated text. */
  function IntendedLength(mem: Memory, len: LenRef, byteOffset: int): int {
    match len
    case NoLen => -3
    case LenAt(a) => mem.words(a + byteOffset)
    case LenLocal(n) => n
  }

  /**
   * `v` is what the application has in element `i` of a column. The length word is the one the driver looks at: offsets
   * in bytes count as so many words there.
   */
  predicate ElementIs(mem: Memory, p: Parameter, i: nat, bindOffset: int, orientation: nat, v: NativeValue) {
    if Asks(mem, p) || p.isBound then v == Unset
    else if p.value == 0 || p.direction == Output then v == NullValue
    else
      var word := bindOffset + (if orientation == BIND_BY_COLUMN then i else i * orientation);
      IsPassed(mem, p.ctype, p.value + ElementOffset(p, i, bindOffset, orientation),
               IntendedLength(mem, p.len, 8 * word), v)
  }

  lemma ElementMeans(mem: Memory, p: Parameter, i: nat, bindOffset: int, orientation: nat)
    ensures ElementIs(mem, p, i, bindOffset, orientation, Element(mem, p, i, bindOffset, orientation))
  {
    hide ReadValue, IsPassed, NeedsData, Asks, ElementOffset;
    AsksIff(mem, p);
    ReadValuePassed(mem, p.ctype, p.value + ElementOffset(p, i, bindOffset, orientation),
                    LenValue(mem, p.len, SetOffset(i, bindOffset, orientation)));
  }

  /** A parameter set made of element `i` of every column. */
  predicate SetIs(mem: Memory, params: seq<Parameter>, i: nat, bindOffset: int, orientation: nat,
                  values: seq<NativeValue>)
  {
    && |values| == |params|
    && (forall c :: 0 <= c < |params| ==> values[c] == Element(mem, params[c], i, bindOffset, orientation))
    && forall c :: 0 <= c < |params| ==> ElementIs(mem, params[c], i, bindOffset, orientation, values[c])
  }

  lemma ParameterRead(mem: Memory, exec: seq<NativeValue>, c: nat, p: Parameter, valueOffset: int, lenOffset: int)
    requires c < |exec| && exec[c] == Unset
    ensures var b := BindParameter(mem, exec, c, p, false, valueOffset, lenOffset);
            && b.param == After(mem, p) && b.code == RetOf(mem, p)
            && b.exec == exec[c := ElementRead(mem, p, p.value + valueOffset, lenOffset)]
  {
    hide ReadValue, LenValue, LenSaysDataAtExec;
  }

  lemma {:induction false} BindColumnsReads(mem: Memory, s: SetState, c: nat, i: nat, bindOffset: int, offset: int,
                                            orientation: nat)
    requires c <= |s.params| == |s.exec|
    requires forall k :: c <= k < |s.params| ==> s.exec[k] == Unset
    ensures var r := BindColumns(mem, s, c, i, bindOffset, offset, orientation);
            && |r.exec| == |s.exec|
            && (forall k :: 0 <= k < c ==> r.params[k] == s.params[k] && r.exec[k] == s.exec[k])
            && (forall k :: c <= k < |s.params| ==> r.params[k] == After(mem, s.params[k]))
            && (forall k :: c <= k < |s.params| ==> r.exec[k] == ElementRead(mem, s.params[k],
                  s.params[k].value + ValueOffset(s.params[k], i, bindOffset, offset, orientation), offset))
            && (r.status, r.result) == Codes(s.status, s.result, Rets(mem, s.params, c))
    decreases |s.params| - c
  {
    hide BindParameter, After, RetOf, ElementRead, UpdateStatus, ValueOffset;
    if c < |s.params| {
      var p := s.params[c];
      var b := BindParameter(mem, s.exec, c, p, false, ValueOffset(p, i, bindOffset, offset, orientation), offset);
      ParameterRead(mem, s.exec, c, p, ValueOffset(p, i, bindOffset, offset, orientation), offset);
      var (status, result) := UpdateStatus(s.status, s.result, b.code);
      var s' := SetState(s.params[c := b.param], b.exec, status, result);
      BindColumnsReads(mem, s', c + 1, i, bindOffset, offset, orientation);
      RetsAgree(mem, s.params, s'.params, c + 1);
      assert Rets(mem, s.params, c)[1..] == Rets(mem, s.params, c + 1);
    }
  }

  lemma {:induction false} RetsAgree(mem: Memory, params: seq<Parameter>, params': seq<Parameter>, c: nat)
    requires c <= |params| == |params'|
    requires forall k :: c <= k < |params| ==> RetOf(mem, params[k]) == RetOf(mem, params'[k])
    ensures Rets(mem, params, c) == Rets(mem, params', c)
    decreases |params| - c
  {
    if c < |params| {
      RetsAgree(mem, params, params', c + 1);
    }
  }

  /** The parameters before set `i`: as bound, or as set 0 has left them. */
  predicate Settled(mem: Memory, params: seq<Parameter>, original: seq<Parameter>, i: nat) {
    |params| == |original|
    && forall c :: 0 <= c < |params| ==> params[c] == if i == 0 then original[c] else After(mem, original[c])
  }

  lemma AfterIsStable(mem: Memory, p: Parameter)
    ensures After(mem, After(mem, p)) == After(mem, p) && RetOf(mem, After(mem, p)) == RetOf(mem, p)
    ensures NeedsData(mem, After(mem, p)) == NeedsData(mem, p)
  {
  }

  /** Set 0 fills in the widths that the offsets of the later sets need. */
  lemma SettledElement(mem: Memory, p: Parameter, q: Parameter, i: nat, bindOffset: int, orientation: nat)
    requires q == if i == 0 then p else After(mem, p)
    ensures
      var offset := SetOffset(i, bindOffset, orientation);
      var addr := q.value + ValueOffset(q, i, bindOffset, offset, orientation);
      ElementRead(mem, q, addr, offset) == Element(mem, p, i, bindOffset, orientation)
  {
    hide ReadValue, LenValue, LenSaysDataAtExec;
    AfterIsStable(mem, p);
  }

  /** One set reads element `i` of every column, for every bind offset and orientation. */
  lemma SetReads(mem: Memory, a: ArrayState, original: seq<Parameter>, i: nat, bindOffset: int, orientation: nat)
    requires Settled(mem, a.params, original, i) && a.exec == []
    ensures var r := BindSet(mem, a, i, bindOffset, orientation);
            && Settled(mem, r.params, original, i + 1) && r.exec == []
            && r.batch[..|a.batch|] == a.batch && r.statuses[..|a.statuses|] == a.statuses
            && SetIs(mem, original, i, bindOffset, orientation, r.batch[|a.batch|])
            && (r.statuses[|a.statuses|], r.result) == Codes(Success, a.result, Rets(mem, original, 0))
  {
    hide BindColumns, Codes, After, RetOf, ElementRead, Element, ElementIs, ValueOffset, SetOffset;
    var s := SetState(a.params, Resized([], |a.params|), Success, a.result);
    BindColumnsReads(mem, s, 0, i, bindOffset, SetOffset(i, bindOffset, orientation), orientation);
    forall c | 0 <= c < |original|
      ensures RetOf(mem, a.params[c]) == RetOf(mem, original[c])
      ensures After(mem, a.params[c]) == After(mem, original[c])
    {
      AfterIsStable(mem, original[c]);
    }
    forall c | 0 <= c < |original|
      ensures ElementRead(mem, a.params[c],
                          a.params[c].value + ValueOffset(a.params[c], i, bindOffset,
                                                          SetOffset(i, bindOffset, orientation), orientation),
                          SetOffset(i, bindOffset, orientation))
           == Element(mem, original[c], i, bindOffset, orientation)
      ensures ElementIs(mem, original[c], i, bindOffset, orientation,
                        Element(mem, original[c], i, bindOffset, orientation))
    {
      SettledElement(mem, original[c], a.params[c], i, bindOffset, orientation);
      ElementMeans(mem, original[c], i, bindOffset, orientation);
    }
    RetsAgree(mem, a.params, original, 0);
  }

  /**
   * Array binding, column-wise or row-wise and for every bind offset: the batch has exactly `setSize` sets, set `i`
   * reads element `i` of every column (a fixed-width size declared as 0 is filled in by set 0), every status is the
   * one the parameters of that set give, and the overall code is the most severe one.
   */
  lemma {:induction false} SetsRead(mem: Memory, a: ArrayState, original: seq<Parameter>, i: nat, setSize: nat,
                                    bindOffset: int, orientation: nat)
    requires i <= setSize && Settled(mem, a.params, original, i) && a.exec == []
    requires |a.batch| == |a.statuses| == i && Reported(a.result)
    ensures var r := BindSets(mem, a, i, setSize, bindOffset, orientation);
            && |r.batch| == |r.statuses| == setSize
            && r.batch[..i] == a.batch && r.statuses[..i] == a.statuses
            && (forall j :: i <= j < setSize ==> SetIs(mem, original, j, bindOffset, orientation, r.batch[j]))
            && (forall j :: i <= j < setSize ==> r.statuses[j] == Codes(Success, Success, Rets(mem, original, 0)).0)
            && (r.result == a.result || r.result in Rets(mem, original, 0))
            && Rank(a.result) <= Rank(r.result)
            && (i < setSize ==> forall c :: c in Rets(mem, original, 0) ==> Rank(c) <= Rank(r.result))
    decreases setSize - i
  {
    hide BindSet, SetIs, Settled, Codes, Rets;
    if i < setSize {
      SetReads(mem, a, original, i, bindOffset, orientation);
      CodesAreMaximum(Success, a.result, Rets(mem, original, 0));
      StatusIgnoresResult(Success, a.result, Success, Rets(mem, original, 0));
      var a1 := BindSet(mem, a, i, bindOffset, orientation);
      SetsRead(mem, a1, original, i + 1, setSize, bindOffset, orientation);
      var r := BindSets(mem, a, i, setSize, bindOffset, orientation);
      assert r.batch[i] == r.batch[..i + 1][i] && r.statuses[i] == r.statuses[..i + 1][i];
      assert r.batch[..i] == r.batch[..i + 1][..i] && r.statuses[..i] == r.statuses[..i + 1][..i];
    }
  }

  lemma {:induction false} StatusIgnoresResult(status: Code, result: Code, result': Code, rets: seq<Code>)
    ensures Codes(status, result, rets).0 == Codes(status, result', rets).0
    decreases |rets|
  {
    if rets != [] {
      var (s1, r1) := UpdateStatus(status, result, rets[0]);
      var (s2, r2) := UpdateStatus(status, result', rets[0]);
      StatusIgnoresResult(s1, r1, r2, rets[1..]);
    }
  }

  // ----- the length words that are meant -----

  /** The byte distance of set `i`'s length word, as the application lays it out. */
  function LengthOffset(i: nat, bindOffset: int, orientation: nat): int {
    bindOffset + (if orientation == BIND_BY_COLUMN then SIZEOF_SQLLEN * i else i * orientation)
  }

  /** What element `i` of a column ought to be: its value bytes, as long as its own length word says. */
  function Intended(mem: Memory, p: Parameter, i: nat, bindOffset: int, orientation: nat): NativeValue {
    if NeedsData(mem, p) || p.isBound then Unset
    else if p.value != 0 && p.direction != Output then
      ReadValue(mem, p.ctype, p.value + ElementOffset(p, i, bindOffset, orientation),
                IntendedLength(mem, p.len, LengthOffset(i, bindOffset, orientation)))
    else NullValue
  }

  predicate NonePending(mem: Memory, params: seq<Parameter>) {
    forall c :: 0 <= c < |params| ==> !NeedsData(mem, params[c])
  }

  /** Every value of the batch is the intended one. */
  predicate BatchIntended(mem: Memory, params: seq<Parameter>, setSize: nat, bindOffset: int, orientation: nat) {
    var r := BindSets(mem, ArrayState(params, [], [], [], Success), 0, setSize, bindOffset, orientation);
    && |r.batch| == setSize
    && (forall i :: 0 <= i < setSize ==> |r.batch[i]| == |params|)
    && (forall i, c :: 0 <= i < setSize && 0 <= c < |params| ==>
          r.batch[i][c] == Intended(mem, params[c], i, bindOffset, orientation))
  }

  /** A text or binary parameter with a length word of its own. */
  predicate Measured(p: Parameter) {
    && (p.ctype == PChar || p.ctype == PBinary) && p.len.LenAt?
    && p.value != 0 && p.direction != Output && !p.isBound
  }

  /** The driver counts length words in elements where bytes are meant; both agree on these set sizes and offsets. */
  predicate LengthsMet(setSize: nat, bindOffset: int, orientation: nat) {
    bindOffset == 0 && (orientation == BIND_BY_COLUMN || setSize <= 1)
  }

  lemma BatchOfSets(mem: Memory, params: seq<Parameter>, setSize: nat, bindOffset: int, orientation: nat)
    ensures var r := BindSets(mem, ArrayState(params, [], [], [], Success), 0, setSize, bindOffset, orientation);
            && |r.batch| == setSize
            && forall i :: 0 <= i < setSize ==> SetIs(mem, params, i, bindOffset, orientation, r.batch[i])
  {
    hide SetIs;
    SetsRead(mem, ArrayState(params, [], [], [], Success), params, 0, setSize, bindOffset, orientation);
  }

  lemma LengthsMetReads(mem: Memory, params: seq<Parameter>, setSize: nat, bindOffset: int, orientation: nat)
    requires LengthsMet(setSize, bindOffset, orientation)
    ensures BatchIntended(mem, params, setSize, bindOffset, orientation)
  {
    hide BindSets, ReadValue, NeedsData, ElementOffset;
    BatchOfSets(mem, params, setSize, bindOffset, orientation);
    forall i, c | 0 <= i < setSize && 0 <= c < |params|
      ensures Element(mem, params[c], i, bindOffset, orientation)
           == Intended(mem, params[c], i, bindOffset, orientation)
    {
      assert SIZEOF_SQLLEN * SetOffset(i, bindOffset, orientation) == LengthOffset(i, bindOffset, orientation);
    }
  }

  /** A memory in which the length word at `at` is 1 and every other one is 0. */
  function MarkedMemory(at: int): Memory {
    Memory(_ => [1, 1], (_, _) => 0, x => if x == at then 1 else 0)
  }

  lemma MissedLengthShows(params: seq<Parameter>, setSize: nat, bindOffset: int, orientation: nat, c: nat, i: nat)
    requires c < |params| && Measured(params[c]) && i < setSize
    requires forall k :: 0 <= k < |params| ==> !params[k].isDataAtExec && !params[k].len.LenLocal?
    requires SIZEOF_SQLLEN * SetOffset(i, bindOffset, orientation) != LengthOffset(i, bindOffset, orientation)
    ensures var mem := MarkedMemory(params[c].len.addr + SIZEOF_SQLLEN * SetOffset(i, bindOffset, orientation));
            NonePending(mem, params) && !BatchIntended(mem, params, setSize, bindOffset, orientation)
  {
    hide BindSets, SetOffset, ElementOffset, LengthOffset;
    var p := params[c];
    var mem := MarkedMemory(p.len.addr + SIZEOF_SQLLEN * SetOffset(i, bindOffset, orientation));
    BatchOfSets(mem, params, setSize, bindOffset, orientation);
    assert LenValue(mem, p.len, SetOffset(i, bindOffset, orientation)) == 1;
    assert IntendedLength(mem, p.len, LengthOffset(i, bindOffset, orientation)) == 0;
    assert [1, 1][..1] != [1, 1][..0];
    assert Element(mem, p, i, bindOffset, orientation) != Intended(mem, p, i, bindOffset, orientation);
    var r := BindSets(mem, ArrayState(params, [], [], [], Success), 0, setSize, bindOffset, orientation);
    assert SetIs(mem, params, i, bindOffset, orientation, r.batch[i]);
    assert r.batch[i][c] == Element(mem, p, i, bindOffset, orientation);
  }

  /**
   * With a text or binary column among the parameters, every set of the batch reads its intended values and lengths
   * in every memory if and only if there is no bind offset and, row-wise, only one set.
   */
  lemma BatchIntendedIff(params: seq<Parameter>, setSize: nat, bindOffset: int, orientation: nat, c: nat)
    requires c < |params| && Measured(params[c]) && setSize >= 1
    requires forall k :: 0 <= k < |params| ==> !params[k].isDataAtExec && !params[k].len.LenLocal?
    ensures (forall mem :: NonePending(mem, params) ==> BatchIntended(mem, params, setSize, bindOffset, orientation))
       <==> LengthsMet(setSize, bindOffset, orientation)
  {
    hide NonePending, BatchIntended;
    if LengthsMet(setSize, bindOffset, orientation) {
      forall mem | NonePending(mem, params)
        ensures BatchIntended(mem, params, setSize, bindOffset, orientation)
      {
        LengthsMetReads(mem, params, setSize, bindOffset, orientation);
      }
    } else {
      MissedLengthShows(params, setSize, bindOffset, orientation, c, if bindOffset != 0 then 0 else 1);
    }
  }
}
