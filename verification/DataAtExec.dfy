/**
 * The data-at-execution protocol: SQLExecute asks for data, SQLParamData walks the pending parameters and
 * SQLPutData delivers their chunks.
 */
module DataAtExec {
  import opened OdbcTypes
  import opened Parameters
  import opened ArrayBinding

  /** A prepared statement; `sent` records the parameter lists the native statement was executed with. */
  datatype Session = Session(params: seq<Parameter>, exec: seq<NativeValue>, current: nat, resultOpen: bool,
                             sent: seq<seq<NativeValue>>)

  /** bindParameters from index `i` on: it stops at the first parameter that does not report success. */
  function BindFrom(mem: Memory, s: Session, i: nat): (r: (Session, Code))
    requires i <= |s.params|
    ensures |r.0.params| == |s.params| && r.0.current == s.current && r.0.sent == s.sent
    ensures r.0.resultOpen == s.resultOpen
    decreases |s.params| - i
  {
    if i == |s.params| then (s, Success)
    else
      var b := BindParameter(mem, s.exec, i, s.params[i], false, 0, 0);
      var s' := s.(exec := b.exec, params := s.params[i := b.param]);
      if b.code != Success then (s', b.code) else BindFrom(mem, s', i + 1)
  }

  /** execute(); `opens` says whether the native execution returns a result set. */
  function Execute(mem: Memory, s: Session, opens: bool): (r: (Session, Code))
    ensures |r.0.params| == |s.params| && r.0.current == s.current
  {
    if s.resultOpen then (s, Error)
    else
      var (s', code) := BindFrom(mem, s.(exec := Resized(s.exec, |s.params|)), 0);
      if code != Success then (s', code)
      else (s'.(sent := s'.sent + [s'.exec], exec := [], resultOpen := opens), Success)
  }

  /** The statement attributes for arrays of parameters: the set count, which has 32 bits, and where the sets lie. */
  type SetCount = n: nat | n < TWO_32
  datatype Sets = Sets(count: SetCount, bindOffset: int, orientation: nat)

  /** executeWithArrayOfParams: the batch is executed whatever the binding of its parameters has reported. */
  function ExecuteSets(mem: Memory, s: Session, sets: Sets): (r: (Session, Code))
    ensures |r.0.params| == |s.params| && r.0.current == s.current && r.0.resultOpen == s.resultOpen
  {
    if s.resultOpen then (s, Error)
    else
      var a := BindSets(mem, ArrayState(s.params, s.exec, [], [], Success), 0, sets.count, sets.bindOffset,
                        sets.orientation);
      (s.(params := a.params, exec := a.exec, sent := s.sent + a.batch), a.result)
  }

  /** execute() by the set count in force. */
  function ExecuteWith(mem: Memory, s: Session, sets: Sets, opens: bool): (Session, Code) {
    if sets.count > 1 then ExecuteSets(mem, s, sets) else Execute(mem, s, opens)
  }

  /** The first pending parameter from index `i` on, or the number of parameters. */
  function FirstPending(mem: Memory, params: seq<Parameter>, i: nat): (r: nat)
    requires i <= |params|
    ensures i <= r <= |params|
    ensures r < |params| ==> NeedsData(mem, params[r])
    ensures forall j :: i <= j < r ==> !NeedsData(mem, params[j])
    decreases |params| - i
  {
    if i == |params| || NeedsData(mem, params[i]) then i else FirstPending(mem, params, i + 1)
  }

  function Asked(p: Parameter): Parameter {
    p.(value := 0, valueSize := 0, len := NoLen, isBound := false, isDataAtExec := false)
  }

  /** getParamData. */
  function ParamData(mem: Memory, s: Session, opens: bool): (r: (Session, Code))
    ensures |r.0.params| == |s.params|
  {
    var i := if s.current < |s.params| then FirstPending(mem, s.params, s.current) else |s.params|;
    if i < |s.params| then (s.(current := i, params := s.params[i := Asked(s.params[i])]), NeedData)
    else Execute(mem, s, opens)
  }

  /** getParamData by the set count in force. */
  function ParamDataWith(mem: Memory, s: Session, sets: Sets, opens: bool): (Session, Code) {
    if s.current < |s.params| && FirstPending(mem, s.params, s.current) < |s.params| then ParamData(mem, s, opens)
    else ExecuteWith(mem, s, sets, opens)
  }

  /** One SQLPutData call: the memory at that moment, the data pointer and the length. */
  datatype Chunk = Chunk(mem: Memory, ptr: int, len: int)

  /** putData. */
  function PutData(s: Session, c: Chunk): (r: (Session, Code))
    ensures |r.0.params| == |s.params| && r.0.current == s.current && r.0.sent == s.sent
    ensures r.0.resultOpen == s.resultOpen
  {
    if s.current >= |s.params| then (s, Error)
    else
      var p := s.params[s.current];
      var ptr := if c.len == SQL_NULL_DATA then 0 else c.ptr;
      var b := BindParameter(c.mem, s.exec, s.current,
                             p.(isDataAtExec := false, value := ptr, len := LenLocal(c.len)), true, 0, 0);
      var p' := b.param.(len := p.len, isBound := b.param.isBound || b.code == Success);
      (s.(exec := b.exec, params := s.params[s.current := p']), b.code)
  }

  // ----- what a session should send -----

  /** What a chunk contributes: NULL, or the data its pointer and length describe. */
  function ChunkValue(p: Parameter, c: Chunk): NativeValue {
    if c.ptr == 0 || c.len == SQL_NULL_DATA || p.direction == Output then NullValue
    else ReadValue(c.mem, p.ctype, c.ptr, c.len)
  }

  /** The chunks of one parameter put together: text and binary chunks are concatenated, NULL starts over. */
  function Assemble(p: Parameter, v: NativeValue, chunks: seq<Chunk>): NativeValue
    decreases |chunks|
  {
    if chunks == [] then v
    else
      var x := ChunkValue(p, chunks[0]);
      Assemble(p, if x == NullValue then x else Append(v, x), chunks[1..])
  }

  /** What an asked parameter ends up with: NULL without any chunk. */
  function FromChunks(p: Parameter, chunks: seq<Chunk>): NativeValue {
    if chunks == [] then NullValue else Assemble(p, Unset, chunks)
  }

  /** What the application puts with one chunk. */
  predicate ChunkIs(p: Parameter, c: Chunk, v: NativeValue) {
    if c.ptr == 0 || c.len == -1 || p.direction == Output then v == NullValue
    else IsPassed(c.mem, p.ctype, c.ptr, c.len, v)
  }

  /** The data of a list of values, one after the other. */
  function Joined(values: seq<NativeValue>): seq<Byte> {
    if values == [] then [] else DataOf(values[0]) + Joined(values[1..])
  }

  function DataOf(v: NativeValue): seq<Byte> {
    if v.Text? then v.chars else if v.Binary? then v.bytes else []
  }

  /** What values without NULL amount to, after some data: a text or binary value of all of it, or the last integer. */
  function Together(ctype: ParamCType, before: seq<Byte>, values: seq<NativeValue>): NativeValue
    requires values != []
  {
    match ctype
    case PChar => Text(before + Joined(values))
    case PBinary => Binary(before + Joined(values))
    case _ => values[|values| - 1]
  }

  /** The position behind the last NULL, from which on values count. */
  function CountsFrom(values: seq<NativeValue>): (n: nat)
    ensures n <= |values| && (n > 0 ==> values[n - 1] == NullValue)
    ensures forall j :: n <= j < |values| ==> values[j] != NullValue
  {
    if values == [] then 0
    else
      var last := |values| - 1;
      if values[last] == NullValue then last + 1 else CountsFrom(values[..last])
  }

  /** NULL without a value or with NULL at the end; otherwise the values behind the last NULL, put together. */
  function PutTogether(ctype: ParamCType, values: seq<NativeValue>): NativeValue {
    var n := CountsFrom(values);
    if n == |values| then NullValue else Together(ctype, [], values[n..])
  }

  /** The value of a parameter whose data was put in these chunks. */
  ghost predicate ChunksAre(p: Parameter, chunks: seq<Chunk>, v: NativeValue) {
    exists values :: |values| == |chunks| && v == PutTogether(p.ctype, values)
      && forall i :: 0 <= i < |chunks| ==> ChunkIs(p, chunks[i], values[i])
  }

  function ChunkValues(p: Parameter, chunks: seq<Chunk>): (r: seq<NativeValue>)
    ensures |r| == |chunks| && forall i :: 0 <= i < |chunks| ==> r[i] == ChunkValue(p, chunks[i])
  {
    seq(|chunks|, i requires 0 <= i < |chunks| => ChunkValue(p, chunks[i]))
  }

  lemma ChunkMeans(p: Parameter, c: Chunk)
    ensures ChunkIs(p, c, ChunkValue(p, c))
  {
    hide ReadValue, IsPassed;
    ReadValuePassed(c.mem, p.ctype, c.ptr, c.len);
  }

  /** A value of the kind its type gives. */
  predicate OfKind(ctype: ParamCType, v: NativeValue) {
    match ctype
    case PChar => v.Text?
    case PBinary => v.Binary?
    case PUnsupported => false
    case _ => v.Integer?
  }

  lemma ChunkKind(p: Parameter, c: Chunk)
    requires p.ctype != PUnsupported && ChunkValue(p, c) != NullValue
    ensures OfKind(p.ctype, ChunkValue(p, c))
  {
    hide Bytes;
  }

  lemma AppendJoins(ctype: ParamCType, v: NativeValue, x: NativeValue)
    requires OfKind(ctype, x) && (v in {Unset, NullValue} || OfKind(ctype, v))
    ensures OfKind(ctype, Append(v, x))
    ensures !ctype.IsInteger() ==> DataOf(Append(v, x)) == DataOf(v) + DataOf(x)
    ensures Append(v, x)
         == match ctype {
           case PChar => Text(DataOf(v) + DataOf(x))
           case PBinary => Binary(DataOf(v) + DataOf(x))
           case _ => x
         }
  {
  }

  lemma {:induction false} AssembleJoins(p: Parameter, v: NativeValue, chunks: seq<Chunk>)
    requires p.ctype != PUnsupported && chunks != []
    requires forall j :: 0 <= j < |chunks| ==> ChunkValue(p, chunks[j]) != NullValue
    requires v in {Unset, NullValue} || OfKind(p.ctype, v)
    ensures Assemble(p, v, chunks) == Together(p.ctype, DataOf(v), ChunkValues(p, chunks))
    decreases |chunks|
  {
    hide ChunkValue, Append, OfKind, DataOf;
    var x, values := ChunkValue(p, chunks[0]), ChunkValues(p, chunks);
    ChunkKind(p, chunks[0]);
    AppendJoins(p.ctype, v, x);
    assert values[0] == x && values[1..] == ChunkValues(p, chunks[1..]);
    if |chunks| == 1 {
      assert Joined(values) == DataOf(x) + [];
    } else {
      AssembleJoins(p, Append(v, x), chunks[1..]);
    }
    assert (DataOf(v) + DataOf(x)) + Joined(values[1..]) == DataOf(v) + Joined(values);
  }

  lemma {:induction false} AssembleSplits(p: Parameter, v: NativeValue, xs: seq<Chunk>, ys: seq<Chunk>)
    ensures Assemble(p, v, xs + ys) == Assemble(p, Assemble(p, v, xs), ys)
    decreases |xs|
  {
    hide ChunkValue, Append;
    if xs == [] {
      assert xs + ys == ys;
    } else {
      var x := ChunkValue(p, xs[0]);
      AssembleSplits(p, if x == NullValue then x else Append(v, x), xs[1..], ys);
      assert (xs + ys)[1..] == xs[1..] + ys;
    }
  }

  /** A pending parameter is sent with what its chunks say, from the memory they were put from. */
  lemma ChunksMean(p: Parameter, chunks: seq<Chunk>)
    requires p.ctype != PUnsupported
    ensures ChunksAre(p, chunks, FromChunks(p, chunks))
  {
    hide ChunkValue, Append, Together, CountsFrom, ChunkIs;
    var values := ChunkValues(p, chunks);
    ChunksPutTogether(p, chunks);
    forall i | 0 <= i < |chunks|
      ensures ChunkIs(p, chunks[i], values[i])
    {
      ChunkMeans(p, chunks[i]);
    }
  }

  lemma ChunksPutTogether(p: Parameter, chunks: seq<Chunk>)
    requires p.ctype != PUnsupported
    ensures FromChunks(p, chunks) == PutTogether(p.ctype, ChunkValues(p, chunks))
  {
    hide ChunkValue, Append, Together, CountsFrom;
    var values := ChunkValues(p, chunks);
    var n := CountsFrom(values);
    if n > 0 {
      assert chunks == chunks[..n] + chunks[n..] && chunks[..n] == chunks[..n - 1] + [chunks[n - 1]];
      AssembleSplits(p, Unset, chunks[..n], chunks[n..]);
      AssembleSplits(p, Unset, chunks[..n - 1], [chunks[n - 1]]);
      assert Assemble(p, Unset, chunks[..n]) == NullValue;
    } else {
      assert chunks[n..] == chunks;
    }
    if n < |chunks| {
      assert values[n..] == ChunkValues(p, chunks[n..]);
      AssembleJoins(p, if n > 0 then NullValue else Unset, chunks[n..]);
    }
  }

  function FromBuffer(mem: Memory, p: Parameter): NativeValue {
    if p.value != 0 && p.direction != Output then ReadValue(mem, p.ctype, p.value, LenValue(mem, p.len, 0))
    else NullValue
  }

  function ElementAt(exec: seq<NativeValue>, i: nat): NativeValue {
    if i < |exec| then exec[i] else Unset
  }

  /** What a parameter in its current state is going to contribute to the execution. */
  function Outcome(mem: Memory, p: Parameter, element: NativeValue, chunks: seq<Chunk>): NativeValue {
    if NeedsData(mem, p) then FromChunks(p, chunks)
    else if p.isBound then element
    else FromBuffer(mem, p)
  }

  /** The application's answers: the chunks it puts for each parameter index. */
  type Feed = nat -> seq<Chunk>

  function Outcomes(mem: Memory, s: Session, feed: Feed): (r: seq<NativeValue>)
    ensures |r| == |s.params|
    ensures forall i :: 0 <= i < |s.params| ==> r[i] == Outcome(mem, s.params[i], ElementAt(s.exec, i), feed(i))
  {
    seq(|s.params|, i requires 0 <= i < |s.params| => Outcome(mem, s.params[i], ElementAt(s.exec, i), feed(i)))
  }

  /**
   * `v` is what ought to be sent for a parameter: its chunks if the application puts them, what was put before if the
   * bound flag is set, NULL without a buffer, and otherwise what the buffer has.
   */
  ghost predicate SentAs(mem: Memory, p: Parameter, element: NativeValue, chunks: seq<Chunk>, v: NativeValue) {
    if Asks(mem, p) then ChunksAre(p, chunks, v)
    else if p.isBound then v == element
    else if p.value == 0 || p.direction == Output then v == NullValue
    else IsPassed(mem, p.ctype, p.value, LengthWord(mem, p.len), v)
  }

  ghost predicate ListSent(mem: Memory, s: Session, feed: Feed, list: seq<NativeValue>) {
    && |list| == |s.params|
    && forall j :: 0 <= j < |list| ==> SentAs(mem, s.params[j], ElementAt(s.exec, j), feed(j), list[j])
  }

  lemma OutcomesSent(mem: Memory, s: Session, feed: Feed)
    requires forall j :: 0 <= j < |s.params| ==> s.params[j].ctype != PUnsupported
    ensures ListSent(mem, s, feed, Outcomes(mem, s, feed))
  {
    hide ReadValue, IsPassed, Asks, NeedsData, ChunksAre, FromChunks;
    forall j | 0 <= j < |s.params|
      ensures SentAs(mem, s.params[j], ElementAt(s.exec, j), feed(j), Outcomes(mem, s, feed)[j])
    {
      var p := s.params[j];
      AsksIff(mem, p);
      ChunksMean(p, feed(j));
      ReadValuePassed(mem, p.ctype, p.value, LenValue(mem, p.len, 0));
    }
  }

  /** The indices of the pending parameters from `i` on, in ascending order. */
  function PendingIndices(mem: Memory, params: seq<Parameter>, i: nat): (r: seq<nat>)
    requires i <= |params|
    ensures forall j :: 0 <= j < |r| ==> i <= r[j] < |params| && NeedsData(mem, params[r[j]])
    decreases |params| - i
  {
    if i == |params| then []
    else
      var rest := PendingIndices(mem, params, i + 1);
      if NeedsData(mem, params[i]) then [i] + rest else rest
  }

  /** They are exactly the pending parameters. */
  lemma {:induction false} PendingMembers(mem: Memory, params: seq<Parameter>, i: nat, k: nat)
    requires i <= k < |params|
    ensures k in PendingIndices(mem, params, i) <==> Asks(mem, params[k])
    ensures NeedsData(mem, params[k]) == Asks(mem, params[k])
    decreases |params| - i
  {
    hide NeedsData, Asks;
    AsksIff(mem, params[k]);
    var rest := PendingIndices(mem, params, i + 1);
    if i < k {
      PendingMembers(mem, params, i + 1, k);
    } else {
      assert k !in rest;
    }
  }

  lemma PendingStep(mem: Memory, params: seq<Parameter>, i: nat)
    requires i < |params|
    ensures PendingIndices(mem, params, i)
         == (if NeedsData(mem, params[i]) then [i] else []) + PendingIndices(mem, params, i + 1)
  {
  }

  /** Each of them once, in ascending order. */
  lemma {:induction false} PendingAscending(mem: Memory, params: seq<Parameter>, i: nat, j: nat, k: nat)
    requires i <= |params| && j < k < |PendingIndices(mem, params, i)|
    ensures PendingIndices(mem, params, i)[j] < PendingIndices(mem, params, i)[k]
    decreases |params| - i
  {
    if i < |params| {
      PendingLater(mem, params, i, j, k);
      var d := if NeedsData(mem, params[i]) then 1 else 0;
      if j >= d {
        PendingAscending(mem, params, i + 1, j - d, k - d);
      }
    }
  }

  lemma PendingLater(mem: Memory, params: seq<Parameter>, i: nat, j: nat, k: nat)
    requires i < |params| && j < k < |PendingIndices(mem, params, i)|
    ensures var p, rest := PendingIndices(mem, params, i), PendingIndices(mem, params, i + 1);
            if NeedsData(mem, params[i])
            then |p| == |rest| + 1 && p[k] == rest[k - 1] && (if j == 0 then p[j] == i < p[k] else p[j] == rest[j - 1])
            else p == rest
  {
    hide NeedsData, PendingIndices;
    PendingStep(mem, params, i);
  }

  // ----- driving a session -----

  function Start(s: Session): (r: nat)
    ensures r <= |s.params|
  {
    Min(s.current, |s.params|)
  }

  /** No parameter below the current index is pending. */
  predicate NoneBefore(mem: Memory, s: Session) {
    forall j :: 0 <= j < Start(s) ==> !NeedsData(mem, s.params[j])
  }

  function PutAll(s: Session, chunks: seq<Chunk>): (r: Session)
    ensures |r.params| == |s.params| && r.current == s.current && r.sent == s.sent && r.resultOpen == s.resultOpen
    decreases |chunks|
  {
    if chunks == [] then s else PutAll(PutData(s, chunks[0]).0, chunks[1..])
  }

  /** Putting data touches nothing but the current parameter and its native element. */
  lemma {:induction false} PutAllFrame(mem: Memory, s: Session, chunks: seq<Chunk>)
    requires s.current < |s.params| == |s.exec| && !NeedsData(mem, s.params[s.current])
    ensures var r := PutAll(s, chunks);
            && |r.exec| == |s.exec| && !NeedsData(mem, r.params[s.current])
            && forall j :: 0 <= j < |s.params| && j != s.current ==>
                 r.params[j] == s.params[j] && r.exec[j] == s.exec[j]
    decreases |chunks|
  {
    if chunks != [] {
      PutAllFrame(mem, PutData(s, chunks[0]).0, chunks[1..]);
    }
  }

  /** The chunks of an asked parameter add up in its native element. */
  lemma {:induction false} PutAllAssembles(s: Session, chunks: seq<Chunk>)
    requires s.current < |s.params| == |s.exec| && s.params[s.current].ctype != PUnsupported
    ensures var r, i := PutAll(s, chunks), s.current;
            && |r.exec| == |s.exec|
            && r.exec[i] == Assemble(s.params[i], s.exec[i], chunks)
            && r.params[i].isBound == (s.params[i].isBound || chunks != [])
            && (chunks == [] ==> r == s)
    decreases |chunks|
  {
    if chunks != [] {
      var i := s.current;
      var s1 := PutData(s, chunks[0]).0;
      PutAllAssembles(s1, chunks[1..]);
      AssembleCongruent(s.params[i], s1.params[i], s1.exec[i], chunks[1..]);
    }
  }

  /** What the chunks of an asked parameter leave in its native element. */
  lemma PutAllMeans(s: Session, chunks: seq<Chunk>)
    requires s.current < |s.params| == |s.exec| && s.params[s.current].ctype != PUnsupported
    requires s.exec[s.current] == Unset && chunks != []
    ensures var i, r := s.current, PutAll(s, chunks);
            && |r.exec| == |s.exec| && r.params[i].isBound && ChunksAre(s.params[i], chunks, r.exec[i])
  {
    hide PutAll, ChunksAre, Assemble;
    PutAllAssembles(s, chunks);
    ChunksMean(s.params[s.current], chunks);
  }

  lemma {:induction false} AssembleCongruent(p: Parameter, p': Parameter, v: NativeValue, chunks: seq<Chunk>)
    requires p.ctype == p'.ctype && p.direction == p'.direction
    ensures Assemble(p, v, chunks) == Assemble(p', v, chunks)
    decreases |chunks|
  {
    if chunks != [] {
      var x := ChunkValue(p, chunks[0]);
      AssembleCongruent(p, p', if x == NullValue then x else Append(v, x), chunks[1..]);
    }
  }

  lemma {:induction false} PendingAfterAsk(mem: Memory, params: seq<Parameter>, params': seq<Parameter>, i: nat, k: nat)
    requires i <= k < |params| == |params'|
    requires forall j :: i <= j < k ==> !NeedsData(mem, params[j])
    requires NeedsData(mem, params[k]) && !NeedsData(mem, params'[k])
    requires forall j :: k < j < |params| ==> params'[j] == params[j]
    ensures PendingIndices(mem, params, i) == [k] + PendingIndices(mem, params', k)
    decreases |params| - i
  {
    if i < k {
      PendingAfterAsk(mem, params, params', i + 1, k);
    } else {
      PendingSame(mem, params, params', k + 1);
    }
  }

  lemma {:induction false} PendingSame(mem: Memory, params: seq<Parameter>, params': seq<Parameter>, i: nat)
    requires i <= |params| == |params'| && forall j :: i <= j < |params| ==> params'[j] == params[j]
    ensures PendingIndices(mem, params, i) == PendingIndices(mem, params', i)
    decreases |params| - i
  {
    if i < |params| {
      PendingSame(mem, params, params', i + 1);
    }
  }

  /** Two memories in which the same parameters are pending. */
  ghost predicate SameNeeds(mem: Memory, mem': Memory, params: seq<Parameter>) {
    forall j :: 0 <= j < |params| ==> NeedsData(mem, params[j]) == NeedsData(mem', params[j])
  }

  lemma {:induction false} PendingAgree(mem: Memory, params: seq<Parameter>, mem': Memory, params': seq<Parameter>,
                                        i: nat)
    requires i <= |params| == |params'|
    requires forall j :: i <= j < |params| ==> NeedsData(mem, params[j]) == NeedsData(mem', params'[j])
    ensures PendingIndices(mem, params, i) == PendingIndices(mem', params', i)
    ensures FirstPending(mem, params, i) == FirstPending(mem', params', i)
    decreases |params| - i
  {
    if i < |params| {
      PendingAgree(mem, params, mem', params', i + 1);
    }
  }

  /** One round: SQLParamData asks for a parameter and the application puts its chunks. */
  function Round(mem: Memory, s: Session, feed: Feed): (r: Session)
    requires FirstPending(mem, s.params, Start(s)) < |s.params|
    ensures |r.params| == |s.params| && r.sent == s.sent && r.resultOpen == s.resultOpen
    ensures r.current == FirstPending(mem, s.params, Start(s))
  {
    var i := FirstPending(mem, s.params, Start(s));
    PutAll(ParamData(mem, s, false).0, feed(i))
  }

  lemma RoundKeeps(mem: Memory, s: Session, feed: Feed)
    requires FirstPending(mem, s.params, Start(s)) < |s.params| == |s.exec| && NoneBefore(mem, s)
    ensures var r, i := Round(mem, s, feed), FirstPending(mem, s.params, Start(s));
            && |r.exec| == |s.exec| && NoneBefore(mem, r)
            && (forall m :: !NeedsData(m, r.params[i]))
            && (forall j :: 0 <= j < |s.params| && j != i ==> r.params[j] == s.params[j] && r.exec[j] == s.exec[j])
            && PendingIndices(mem, s.params, Start(s)) == [i] + PendingIndices(mem, r.params, Start(r))
  {
    hide PutAll, PendingIndices;
    var i := FirstPending(mem, s.params, Start(s));
    var s1 := ParamData(mem, s, false).0;
    forall m
      ensures !NeedsData(m, Round(mem, s, feed).params[i])
    {
      PutAllFrame(m, s1, feed(i));
    }
    PutAllFrame(mem, s1, feed(i));
    PendingAfterAsk(mem, s.params, Round(mem, s, feed).params, Start(s), i);
  }

  /** Every parameter type is known, and a pending parameter has no data yet. */
  ghost predicate Clean(mem: Memory, s: Session) {
    && (forall j :: 0 <= j < |s.params| && !NeedsData(mem, s.params[j]) ==> s.params[j].ctype != PUnsupported)
    && (forall j :: 0 <= j < |s.params| && NeedsData(mem, s.params[j]) ==>
          s.params[j].ctype != PUnsupported && ElementAt(s.exec, j) == Unset)
  }

  /**
   * A round leaves every parameter with the outcome it had before, its own chunks now included; `last` is the memory
   * of the execution to come.
   */
  lemma RoundOutcome(mem: Memory, s: Session, feed: Feed, last: Memory)
    requires FirstPending(mem, s.params, Start(s)) < |s.params| == |s.exec| && NoneBefore(mem, s)
    requires Clean(mem, s) && SameNeeds(mem, last, s.params)
    ensures var r := Round(mem, s, feed);
            && Outcomes(last, r, feed) == Outcomes(last, s, feed)
            && Clean(mem, r) && SameNeeds(mem, last, r.params)
  {
    hide ReadValue, PutAll, BindParameter, PendingIndices, LenSaysDataAtExec;
    var i := FirstPending(mem, s.params, Start(s));
    var s1 := ParamData(mem, s, false).0;
    var r := Round(mem, s, feed);
    RoundKeeps(mem, s, feed);
    PutAllAssembles(s1, feed(i));
    PutAllKeepsType(s1, feed(i));
    AssembleCongruent(s.params[i], s1.params[i], Unset, feed(i));
    assert Outcome(last, r.params[i], r.exec[i], feed(i)) == Outcome(last, s.params[i], s.exec[i], feed(i));
    assert forall j :: 0 <= j < |s.params| ==> Outcomes(last, r, feed)[j] == Outcomes(last, s, feed)[j];
  }

  lemma {:induction false} PutAllKeepsType(s: Session, chunks: seq<Chunk>)
    requires s.current < |s.params|
    ensures PutAll(s, chunks).params[s.current].ctype == s.params[s.current].ctype
    decreases |chunks|
  {
    if chunks != [] {
      PutAllKeepsType(PutData(s, chunks[0]).0, chunks[1..]);
    }
  }

  /** The application's memory at each SQLParamData call. */
  type Memories = nat -> Memory

  /** The application may change its buffers between the calls, but not which parameters are pending. */
  ghost predicate Steady(mems: Memories, n: nat, params: seq<Parameter>) {
    forall k: nat :: k >= n ==> SameNeeds(mems(n), mems(k), params)
  }

  /** SQLParamData may be called: data is being asked for, and nothing below the index is pending. */
  ghost predicate Drivable(mems: Memories, n: nat, s: Session) {
    NoneBefore(mems(n), s) && |s.exec| == |s.params| && Steady(mems, n, s.params)
  }

  /**
   * From call `n` on the application calls SQLParamData and answers until the driver stops asking: the asked indices
   * and the end.
   */
  ghost function Drive(mems: Memories, n: nat, s: Session, feed: Feed, opens: bool): (r: (seq<nat>, Session, Code))
    requires Drivable(mems, n, s)
    decreases |PendingIndices(mems(n), s.params, Start(s))|
  {
    var i := FirstPending(mems(n), s.params, Start(s));
    if i == |s.params| then
      var (s', code) := ParamData(mems(n), s, opens);
      ([], s', code)
    else
      RoundSteady(mems, n, s, feed);
      var (asked, s', code) := Drive(mems, n + 1, Round(mems(n), s, feed), feed, opens);
      ([i] + asked, s', code)
  }

  lemma RoundSteady(mems: Memories, n: nat, s: Session, feed: Feed)
    requires FirstPending(mems(n), s.params, Start(s)) < |s.params| && Drivable(mems, n, s)
    ensures var r, i := Round(mems(n), s, feed), FirstPending(mems(n), s.params, Start(s));
            && Drivable(mems, n + 1, r) && SameNeeds(mems(n), mems(n + 1), r.params)
            && PendingIndices(mems(n), s.params, Start(s)) == [i] + PendingIndices(mems(n + 1), r.params, Start(r))
  {
    hide Round, NeedsData, PendingIndices;
    var r, i := Round(mems(n), s, feed), FirstPending(mems(n), s.params, Start(s));
    RoundKeeps(mems(n), s, feed);
    forall k: nat | k >= n
      ensures SameNeeds(mems(n), mems(k), r.params)
    {
      assert SameNeeds(mems(n), mems(k), s.params);
    }
    assert SameNeeds(mems(n), mems(n + 1), r.params);
    PendingAgree(mems(n), r.params, mems(n + 1), r.params, Start(r));
  }

  /** Equal except for the value size, which only matters for arrays. */
  predicate SameButSize(p: Parameter, q: Parameter) {
    p.(valueSize := 0) == q.(valueSize := 0)
  }

  lemma {:induction false} BindFromSends(mem: Memory, s: Session, i: nat, feed: Feed)
    requires i <= |s.params| == |s.exec|
    requires forall j :: 0 <= j < |s.params| ==> s.params[j].ctype != PUnsupported
    requires forall j :: i <= j < |s.params| ==> !NeedsData(mem, s.params[j])
    ensures var (s', code) := BindFrom(mem, s, i);
            && code == Success && |s'.exec| == |s.exec|
            && (forall j :: 0 <= j < i ==> s'.exec[j] == s.exec[j])
            && (forall j :: i <= j < |s.params| ==>
                  s'.exec[j] == Outcome(mem, s.params[j], ElementAt(s.exec, j), feed(j)))
            && (forall j :: 0 <= j < |s.params| ==> SameButSize(s'.params[j], s.params[j]))
    decreases |s.params| - i
  {
    hide FromBuffer, SameButSize, NeedsData, FromChunks;
    SizeReflexive();
    if i < |s.params| {
      var b := BindParameter(mem, s.exec, i, s.params[i], false, 0, 0);
      BindOne(mem, s.exec, i, s.params[i]);
      var s1 := s.(exec := b.exec, params := s.params[i := b.param]);
      BindFromSends(mem, s1, i + 1, feed);
      SameSize(s.params[i], b.param, BindFrom(mem, s1, i + 1).0.params[i]);
    }
  }

  lemma NothingPendingExecutes(mem: Memory, s: Session, feed: Feed, opens: bool)
    requires |s.exec| in {0, |s.params|} && !s.resultOpen
    requires forall j :: 0 <= j < |s.params| ==> s.params[j].ctype != PUnsupported && !NeedsData(mem, s.params[j])
    ensures ParamData(mem, s, opens) == Execute(mem, s, opens)
    ensures var (s', code) := Execute(mem, s, opens);
            && code == Success && s'.sent == s.sent + [Outcomes(mem, s, feed)] && s'.current == s.current
            && s'.exec == [] && s'.resultOpen == opens
            && forall j :: 0 <= j < |s.params| ==> SameButSize(s'.params[j], s.params[j])
  {
    hide Outcome, BindParameter, NeedsData, SameButSize;
    var s1 := s.(exec := Resized(s.exec, |s.params|));
    BindFromSends(mem, s1, 0, feed);
    assert forall j :: 0 <= j < |s.params| ==> ElementAt(s1.exec, j) == ElementAt(s.exec, j);
    assert BindFrom(mem, s1, 0).0.exec == Outcomes(mem, s, feed);
  }

  /** What a finished session leaves behind: nothing under way, and all parameters as they were but the asked. */
  ghost predicate Finished(s: Session, s': Session, asked: seq<nat>, opens: bool) {
    && s'.exec == [] && s'.resultOpen == opens && |s'.params| == |s.params|
    && s'.current == (if asked == [] then s.current else asked[|asked| - 1])
    && forall j :: 0 <= j < |s.params| && j !in asked ==> SameButSize(s'.params[j], s.params[j])
  }

  /** Two states whose parameters will be sent with the same values, from call `n` on. */
  ghost predicate SameOutcomes(mems: Memories, n: nat, r: Session, s: Session, feed: Feed) {
    forall k: nat :: k >= n ==> Outcomes(mems(k), r, feed) == Outcomes(mems(k), s, feed)
  }

  lemma SameOutcomesAt(mems: Memories, n: nat, r: Session, s: Session, feed: Feed, k: nat)
    requires SameOutcomes(mems, n, r, s, feed) && k >= n
    ensures Outcomes(mems(k), r, feed) == Outcomes(mems(k), s, feed)
  {
  }

  lemma DriveAsks(mems: Memories, n: nat, s: Session, feed: Feed, opens: bool)
    requires Drivable(mems, n, s) && FirstPending(mems(n), s.params, Start(s)) < |s.params|
    ensures Drivable(mems, n + 1, Round(mems(n), s, feed))
    ensures
      var rest := Drive(mems, n + 1, Round(mems(n), s, feed), feed, opens);
      Drive(mems, n, s, feed, opens) == ([FirstPending(mems(n), s.params, Start(s))] + rest.0, rest.1, rest.2)
  {
    hide Drivable, Round, FirstPending, ParamData;
    RoundSteady(mems, n, s, feed);
  }

  /** The end of a session seen from a state before it. */
  lemma FinishedEarlier(s: Session, r: Session, s': Session, first: seq<nat>, asked: seq<nat>, opens: bool)
    requires Finished(r, s', asked, opens) && |r.params| == |s.params|
    requires r.current == if first == [] then s.current else first[|first| - 1]
    requires forall j :: 0 <= j < |s.params| && j !in first + asked ==> SameButSize(r.params[j], s.params[j])
    ensures Finished(s, s', first + asked, opens)
  {
  }

  /** What a drive from call `n` on does: it asks, executes once, sends the outcomes and leaves nothing under way. */
  ghost predicate Sends(mems: Memories, n: nat, s: Session, feed: Feed, opens: bool)
    requires Drivable(mems, n, s)
  {
    var (asked, s', code) := Drive(mems, n, s, feed, opens);
    && asked == PendingIndices(mems(n), s.params, Start(s))
    && code == Success && s'.sent == s.sent + [Outcomes(mems(n + |asked|), s, feed)]
    && Finished(s, s', asked, opens)
  }

  /**
   * The driven part of a session: it asks for exactly the pending parameters, each once and in ascending order,
   * and then executes once, sending for every parameter its outcome in the memory of the last call.
   */
  lemma {:induction false} DriveSends(mems: Memories, n: nat, s: Session, feed: Feed, opens: bool)
    requires Drivable(mems, n, s) && !s.resultOpen && Clean(mems(n), s)
    ensures Sends(mems, n, s, feed, opens)
    decreases |PendingIndices(mems(n), s.params, Start(s))|
  {
    hide Sends, Outcomes, Round, SameButSize, Finished, Drivable, Clean, PendingIndices, FirstPending, Drive;
    if FirstPending(mems(n), s.params, Start(s)) == |s.params| {
      DriveEnds(mems, n, s, feed, opens);
    } else {
      DriveRound(mems, n, s, feed, opens);
      DriveSends(mems, n + 1, Round(mems(n), s, feed), feed, opens);
      DriveStep(mems, n, s, feed, opens);
    }
  }

  /** A round in front of a drive that sends is a drive that sends. */
  lemma DriveStep(mems: Memories, n: nat, s: Session, feed: Feed, opens: bool)
    requires Drivable(mems, n, s) && !s.resultOpen && Clean(mems(n), s)
    requires FirstPending(mems(n), s.params, Start(s)) < |s.params|
    requires Drivable(mems, n + 1, Round(mems(n), s, feed))
    requires Sends(mems, n + 1, Round(mems(n), s, feed), feed, opens)
    ensures Sends(mems, n, s, feed, opens)
  {
    hide Outcomes, Round, SameButSize, Finished, Drivable, Clean, PendingIndices, FirstPending, Drive, SameOutcomes;
    var i, r := FirstPending(mems(n), s.params, Start(s)), Round(mems(n), s, feed);
    DriveRound(mems, n, s, feed, opens);
    DriveAsks(mems, n, s, feed, opens);
    var (asked, s', code) := Drive(mems, n + 1, r, feed, opens);
    SameOutcomesAt(mems, n, r, s, feed, n + 1 + |asked|);
    assert n + |[i] + asked| == n + 1 + |asked|;
    FinishedEarlier(s, r, s', [i], asked, opens);
  }

  /** With nothing pending the next call executes. */
  lemma DriveEnds(mems: Memories, n: nat, s: Session, feed: Feed, opens: bool)
    requires Drivable(mems, n, s) && !s.resultOpen && Clean(mems(n), s)
    requires FirstPending(mems(n), s.params, Start(s)) == |s.params|
    ensures Sends(mems, n, s, feed, opens)
  {
    hide Outcomes, ParamData, Execute, NeedsData, SameButSize, PendingIndices;
    NonePending(mems(n), s.params, Start(s));
    NothingPendingExecutes(mems(n), s, feed, opens);
  }

  /** One round of the drive, as its induction needs it. */
  lemma DriveRound(mems: Memories, n: nat, s: Session, feed: Feed, opens: bool)
    requires Drivable(mems, n, s) && !s.resultOpen && Clean(mems(n), s)
    requires FirstPending(mems(n), s.params, Start(s)) < |s.params|
    ensures var r, i := Round(mems(n), s, feed), FirstPending(mems(n), s.params, Start(s));
            && Drivable(mems, n + 1, r) && !r.resultOpen && Clean(mems(n + 1), r)
            && PendingIndices(mems(n), s.params, Start(s)) == [i] + PendingIndices(mems(n + 1), r.params, Start(r))
            && SameOutcomes(mems, n, r, s, feed)
            && (forall j :: 0 <= j < |s.params| && j != i ==> SameButSize(r.params[j], s.params[j]))
  {
    hide Outcome, Outcomes, NeedsData, Round, PendingIndices;
    RoundKeeps(mems(n), s, feed);
    RoundSteady(mems, n, s, feed);
    forall k: nat | k >= n
      ensures Outcomes(mems(k), Round(mems(n), s, feed), feed) == Outcomes(mems(k), s, feed)
    {
      assert SameNeeds(mems(n), mems(k), s.params);
      RoundOutcome(mems(n), s, feed, mems(k));
    }
    RoundOutcome(mems(n), s, feed, mems(n));
  }

  lemma {:induction false} NonePending(mem: Memory, params: seq<Parameter>, i: nat)
    requires i <= |params| && FirstPending(mem, params, i) == |params|
    ensures PendingIndices(mem, params, i) == []
    decreases |params| - i
  {
    if i < |params| {
      NonePending(mem, params, i + 1);
    }
  }

  // ----- from SQLExecute to the execution -----

  /** bindParameters stops at the first pending parameter and flags it. */
  lemma {:induction false} BindFromStops(mem: Memory, s: Session, i: nat, d: nat)
    requires i <= |s.params| == |s.exec| && d == FirstPending(mem, s.params, i) < |s.params|
    requires forall j :: i <= j < d ==> s.params[j].ctype != PUnsupported
    ensures var (s', code) := BindFrom(mem, s, i);
            && code == NeedData && |s'.exec| == |s.exec|
            && s'.params[d] == s.params[d].(isDataAtExec := true, len := NoLen)
            && (forall j :: 0 <= j < |s.params| && j != d ==> SameButSize(s'.params[j], s.params[j]))
            && (forall j :: 0 <= j < |s.params| ==>
                  s'.exec[j] == if i <= j < d && !s.params[j].isBound then FromBuffer(mem, s.params[j]) else s.exec[j])
    decreases |s.params| - i
  {
    hide FromBuffer, SameButSize, NeedsData;
    if i < d {
      var b := BindParameter(mem, s.exec, i, s.params[i], false, 0, 0);
      BindOne(mem, s.exec, i, s.params[i]);
      PendingAgree(mem, s.params, mem, s.params[i := b.param], i + 1);
      BindFromStops(mem, s.(exec := b.exec, params := s.params[i := b.param]), i + 1, d);
      SameSize(s.params[i], b.param, BindFrom(mem, s, i).0.params[i]);
    } else {
      StopAt(mem, s.exec, i, s.params[i]);
    }
    SizeReflexive();
  }

  lemma BindOne(mem: Memory, exec: seq<NativeValue>, i: nat, p: Parameter)
    requires i < |exec| && !NeedsData(mem, p) && p.ctype != PUnsupported
    ensures var b := BindParameter(mem, exec, i, p, false, 0, 0);
            && b.code == Success && SameButSize(b.param, p) && b.param.ctype == p.ctype
            && b.param.isBound == p.isBound
            && b.exec == exec[i := if p.isBound then exec[i] else FromBuffer(mem, p)]
  {
    hide ReadValue, LenSaysDataAtExec, LenValue;
  }

  lemma StopAt(mem: Memory, exec: seq<NativeValue>, i: nat, p: Parameter)
    requires NeedsData(mem, p)
    ensures BindParameter(mem, exec, i, p, false, 0, 0) == Bound(exec, p.(isDataAtExec := true, len := NoLen), NeedData)
  {
  }

  lemma SameSize(p: Parameter, q: Parameter, r: Parameter)
    requires SameButSize(q, p) && SameButSize(r, q)
    ensures SameButSize(r, p)
  {
  }

  lemma SizeReflexive()
    ensures forall p :: SameButSize(p, p)
  {
  }

  /** A session may begin: no cursor is open, every type is known, and no data was put for a pending parameter. */
  ghost predicate Ready(mem: Memory, s: Session) {
    |s.exec| in {0, |s.params|} && !s.resultOpen && Clean(mem, s)
  }

  lemma ExecuteAsks(mem: Memory, s: Session, feed: Feed, opens: bool, last: Memory)
    requires Ready(mem, s) && NoneBefore(mem, s) && FirstPending(mem, s.params, 0) < |s.params|
    requires SameNeeds(mem, last, s.params)
    ensures var (s1, code) := Execute(mem, s, opens);
            && code == NeedData && s1.sent == s.sent && !s1.resultOpen
            && |s1.exec| == |s1.params| && NoneBefore(mem, s1) && Clean(mem, s1)
            && SameNeeds(mem, last, s1.params)
            && Outcomes(last, s1, feed) == Outcomes(last, s, feed)
            && PendingIndices(mem, s1.params, Start(s1)) == PendingIndices(mem, s.params, 0)
            && (forall j :: 0 <= j < |s.params| && !NeedsData(mem, s.params[j]) ==>
                  SameButSize(s1.params[j], s.params[j]))
  {
    hide Execute, NeedsData, Outcome, Outcomes, PendingIndices, SameButSize;
    var d, s1 := FirstPending(mem, s.params, 0), Execute(mem, s, opens).0;
    ExecuteStops(mem, s, opens);
    forall j | 0 <= j < |s.params|
      ensures NeedsData(mem, s1.params[j]) == NeedsData(mem, s.params[j])
      ensures NeedsData(last, s1.params[j]) == NeedsData(last, s.params[j])
    {
      assert NeedsData(mem, s.params[j]) == NeedsData(last, s.params[j]);
      FlagKeepsNeeds(mem, s.params[j], s1.params[j]);
      FlagKeepsNeeds(last, s.params[j], s1.params[j]);
    }
    forall j | 0 <= j < |s.params|
      ensures Outcome(last, s1.params[j], s1.exec[j], feed(j))
           == Outcome(last, s.params[j], ElementAt(s.exec, j), feed(j))
    {
      assert NeedsData(mem, s.params[j]) == NeedsData(last, s.params[j]);
      AskedOutcome(last, s.params[j], s1.params[j], ElementAt(s.exec, j), s1.exec[j], feed(j));
    }
    assert Outcomes(last, s1, feed) == Outcomes(last, s, feed);
    forall j | 0 <= j < |s.params|
      ensures s1.params[j].ctype == s.params[j].ctype
    {
      SizeKeepsType(s.params[j], s1.params[j]);
    }
    PendingAgree(mem, s1.params, mem, s.params, Start(s1));
    PendingSkips(mem, s.params, 0, Start(s1));
  }

  lemma FlagKeepsNeeds(mem: Memory, p: Parameter, q: Parameter)
    requires SameButSize(q, p) || (NeedsData(mem, p) && q == p.(isDataAtExec := true, len := NoLen))
    ensures NeedsData(mem, q) == NeedsData(mem, p)
  {
  }

  lemma SizeKeepsType(p: Parameter, q: Parameter)
    requires SameButSize(q, p) || q == p.(isDataAtExec := true, len := NoLen)
    ensures q.ctype == p.ctype
  {
  }

  /** SQLExecute up to the first pending parameter, which is flagged. */
  lemma ExecuteStops(mem: Memory, s: Session, opens: bool)
    requires Ready(mem, s) && FirstPending(mem, s.params, 0) < |s.params|
    ensures var (s1, code) := Execute(mem, s, opens);
            var d := FirstPending(mem, s.params, 0);
            && code == NeedData && s1.sent == s.sent && !s1.resultOpen && s1.current == s.current
            && |s1.exec| == |s1.params| == |s.params|
            && s1.params[d] == s.params[d].(isDataAtExec := true, len := NoLen)
            && (forall j :: 0 <= j < |s.params| && j != d ==> SameButSize(s1.params[j], s.params[j]))
            && (forall j :: 0 <= j < |s.params| && (NeedsData(mem, s.params[j]) || s.params[j].isBound) ==>
                  s1.exec[j] == ElementAt(s.exec, j))
  {
    hide BindFrom, NeedsData, FromBuffer, SameButSize;
    BindFromStops(mem, s.(exec := Resized(s.exec, |s.params|)), 0, FirstPending(mem, s.params, 0));
  }

  /** Flagging a parameter, or binding one that will be bound again, does not change its outcome. */
  lemma AskedOutcome(mem: Memory, p: Parameter, q: Parameter, x: NativeValue, y: NativeValue, chunks: seq<Chunk>)
    requires NeedsData(mem, p) == NeedsData(mem, q)
    requires SameButSize(q, p) || (NeedsData(mem, p) && q == p.(isDataAtExec := true, len := NoLen))
    requires p.isBound && !NeedsData(mem, p) ==> x == y
    ensures Outcome(mem, q, y, chunks) == Outcome(mem, p, x, chunks)
  {
    hide ReadValue, LenSaysDataAtExec;
    AssembleCongruent(p, q, Unset, chunks);
  }

  lemma {:induction false} PendingSkips(mem: Memory, params: seq<Parameter>, i: nat, k: nat)
    requires i <= k <= |params| && forall j :: i <= j < k ==> !NeedsData(mem, params[j])
    ensures PendingIndices(mem, params, i) == PendingIndices(mem, params, k)
    decreases k - i
  {
    if i < k {
      PendingSkips(mem, params, i + 1, k);
    }
  }

  /**
   * A whole session with an index that has no pending parameter below it. Without a pending parameter SQLExecute
   * executes at once; otherwise it asks for data, the drive asks for each pending parameter exactly once in
   * ascending order and executes once. Either way the list sent has the value of each parameter that the
   * application has passed: in chunks, or in its bound buffer as that is at the last call (ListSent).
   */
  lemma SessionSends(mems: Memories, s: Session, feed: Feed, opens: bool)
    requires Ready(mems(0), s) && NoneBefore(mems(0), s) && Steady(mems, 0, s.params)
    ensures var (s1, code1) := Execute(mems(0), s, opens);
            if PendingIndices(mems(0), s.params, 0) == [] then
              && code1 == Success && s1.sent == s.sent + [Outcomes(mems(0), s, feed)]
              && ListSent(mems(0), s, feed, Outcomes(mems(0), s, feed))
            else
              && code1 == NeedData && s1.sent == s.sent
              && Drivable(mems, 1, s1)
              && var (asked, s', code) := Drive(mems, 1, s1, feed, opens);
                 && asked == PendingIndices(mems(0), s.params, 0)
                 && code == Success && s'.sent == s.sent + [Outcomes(mems(1 + |asked|), s, feed)]
                 && ListSent(mems(1 + |asked|), s, feed, Outcomes(mems(1 + |asked|), s, feed))
                 && Finished(s, s', asked, opens)
  {
    hide Execute, Drive, Outcomes, NeedsData, PendingIndices, Finished, Drivable, NoneBefore, Steady, SameNeeds;
    hide ListSent, Asks;
    forall mem: Memory
      ensures ListSent(mem, s, feed, Outcomes(mem, s, feed))
    {
      OutcomesSent(mem, s, feed);
    }
    if FirstPending(mems(0), s.params, 0) == |s.params| {
      NonePending(mems(0), s.params, 0);
      AllTypesKnown(mems(0), s);
      NothingPendingExecutes(mems(0), s, feed, opens);
    } else {
      PendingMembers(mems(0), s.params, 0, FirstPending(mems(0), s.params, 0));
      SessionDriven(mems, s, feed, opens);
    }
  }

  lemma SessionDriven(mems: Memories, s: Session, feed: Feed, opens: bool)
    requires Ready(mems(0), s) && NoneBefore(mems(0), s) && Steady(mems, 0, s.params)
    requires FirstPending(mems(0), s.params, 0) < |s.params|
    ensures var (s1, code1) := Execute(mems(0), s, opens);
            && code1 == NeedData && s1.sent == s.sent && Drivable(mems, 1, s1)
            && var (asked, s', code) := Drive(mems, 1, s1, feed, opens);
               && asked == PendingIndices(mems(0), s.params, 0)
               && code == Success && s'.sent == s.sent + [Outcomes(mems(1 + |asked|), s, feed)]
               && Finished(s, s', asked, opens)
  {
    hide Execute, Drive, Outcomes, NeedsData, PendingIndices, SameButSize, Finished, Clean, Drivable, NoneBefore;
    hide Steady, SameOutcomes, Ready, FirstPending;
    SessionAsks(mems, s, feed, opens);
    var s1 := Execute(mems(0), s, opens).0;
    DriveSends(mems, 1, s1, feed, opens);
    var (asked, s', code) := Drive(mems, 1, s1, feed, opens);
    forall j | 0 <= j < |s.params| && j !in asked
      ensures SameButSize(s1.params[j], s.params[j])
    {
      PendingMembers(mems(0), s.params, 0, j);
    }
    SameOutcomesAt(mems, 0, s1, s, feed, 1 + |asked|);
    assert [] + asked == asked;
    FinishedEarlier(s, s1, s', [], asked, opens);
  }

  lemma AllTypesKnown(mem: Memory, s: Session)
    requires Clean(mem, s)
    ensures forall j :: 0 <= j < |s.params| ==> s.params[j].ctype != PUnsupported
  {
  }

  /** The state after SQLExecute has asked, ready to be driven. */
  lemma SessionAsks(mems: Memories, s: Session, feed: Feed, opens: bool)
    requires Ready(mems(0), s) && NoneBefore(mems(0), s) && Steady(mems, 0, s.params)
    requires FirstPending(mems(0), s.params, 0) < |s.params|
    ensures var (s1, code1) := Execute(mems(0), s, opens);
            && code1 == NeedData && s1.sent == s.sent && !s1.resultOpen
            && |s1.params| == |s.params| && s1.current == s.current
            && Drivable(mems, 1, s1) && Clean(mems(1), s1)
            && PendingIndices(mems(1), s1.params, Start(s1)) == PendingIndices(mems(0), s.params, 0)
            && SameOutcomes(mems, 0, s1, s, feed)
            && (forall j :: 0 <= j < |s.params| && !NeedsData(mems(0), s.params[j]) ==>
                  SameButSize(s1.params[j], s.params[j]))
  {
    hide Execute, Outcomes, NeedsData, PendingIndices, SameButSize;
    var s1 := Execute(mems(0), s, opens).0;
    forall k: nat
      ensures SameNeeds(mems(0), mems(k), s1.params) && Outcomes(mems(k), s1, feed) == Outcomes(mems(k), s, feed)
    {
      assert SameNeeds(mems(0), mems(k), s.params);
      ExecuteAsks(mems(0), s, feed, opens, mems(k));
    }
    ExecuteAsks(mems(0), s, feed, opens, mems(0));
    assert SameNeeds(mems(0), mems(1), s1.params);
    PendingAgree(mems(0), s1.params, mems(1), s1.params, Start(s1));
  }

  /** A parameter that is not pending is sent from its buffer exactly when its bound flag is clear. */
  lemma BufferSentIff(mem: Memory, s: Session, feed: Feed, i: nat)
    requires i < |s.params| && !NeedsData(mem, s.params[i]) && s.params[i].ctype != PUnsupported && s.exec == []
    ensures Outcomes(mem, s, feed)[i] == FromBuffer(mem, s.params[i]) <==> !s.params[i].isBound
  {
    assert FromBuffer(mem, s.params[i]) != Unset;
  }

  // ----- a stale index -----

  /** The calls on a prepared statement that touch its parameters; executions come with the set count in force. */
  datatype Call =
    | CallExecute(mem: Memory, sets: Sets, opens: bool)
    | CallParamData(mem: Memory, sets: Sets, opens: bool)
    | CallPutData(chunk: Chunk)
    | CallBind(mem: Memory, index: nat, binding: Binding)
    | CallResetParams
    | CallCloseCursor

  function Step(s: Session, c: Call): Session {
    match c
    case CallExecute(mem, sets, opens) => ExecuteWith(mem, s, sets, opens).0
    case CallParamData(mem, sets, opens) => ParamDataWith(mem, s, sets, opens).0
    case CallPutData(chunk) => PutData(s, chunk).0
    case CallBind(mem, i, b) => s.(params := BindAt(mem, s.params, i, b))
    case CallResetParams => s.(params := [], exec := [])
    case CallCloseCursor => s.(resultOpen := false)
  }

  function Run(s: Session, calls: seq<Call>): Session
    decreases |calls|
  {
    if calls == [] then s else Run(Step(s, calls[0]), calls[1..])
  }

  /** A flagged parameter below the current index. */
  predicate Blocked(s: Session, k: nat) {
    k < s.current && k < |s.params| && s.params[k].isDataAtExec
  }

  /**
   * Only binding that parameter again, or dropping all parameters, clears its flag; an execution with an array of
   * parameter sets does not look at it.
   */
  predicate Unblocks(c: Call, k: nat) {
    || c == CallResetParams || (c.CallBind? && c.index == k)
    || ((c.CallExecute? || c.CallParamData?) && c.sets.count > 1)
  }

  lemma {:induction false} BindFromBlocked(mem: Memory, s: Session, i: nat, k: nat)
    requires i <= k < |s.params| && s.params[k].isDataAtExec
    ensures BindFrom(mem, s, i).1 != Success && BindFrom(mem, s, i).0.params[k].isDataAtExec
    decreases |s.params| - i
  {
    if i < k {
      var b := BindParameter(mem, s.exec, i, s.params[i], false, 0, 0);
      BindFromBlocked(mem, s.(exec := b.exec, params := s.params[i := b.param]), i + 1, k);
    }
  }

  lemma StepBlocked(s: Session, c: Call, k: nat)
    requires Blocked(s, k)
    ensures Unblocks(c, k) || (Blocked(Step(s, c), k) && Step(s, c).sent == s.sent)
  {
    hide BindFrom, BindParameter, ExecuteSets;
    if (c.CallExecute? || c.CallParamData?) && !s.resultOpen {
      BindFromBlocked(c.mem, s.(exec := Resized(s.exec, |s.params|)), 0, k);
    }
  }

  /**
   * Once a flagged parameter sits below the current index, no run of these calls executes the statement until that
   * parameter is bound again, all parameters are reset, or the set count is more than one.
   */
  lemma {:induction false} BlockedForever(s: Session, calls: seq<Call>, k: nat)
    requires Blocked(s, k) && forall i :: 0 <= i < |calls| ==> !Unblocks(calls[i], k)
    ensures Blocked(Run(s, calls), k) && Run(s, calls).sent == s.sent
    decreases |calls|
  {
    hide Step, Blocked, Unblocks;
    if calls != [] {
      StepBlocked(s, calls[0], k);
      BlockedForever(Step(s, calls[0]), calls[1..], k);
    }
  }

  /**
   * An execution with an array of parameter sets sends its whole batch even though a parameter asks for data or
   * fails: the code only says so. A parameter that asked has no value in any set.
   */
  lemma SetsSentAnyway(mem: Memory, s: Session, sets: Sets)
    requires !s.resultOpen && sets.count > 1 && s.exec == []
    ensures var (s', code) := ExecuteSets(mem, s, sets);
            && |s'.sent| == |s.sent| + sets.count && s'.sent[..|s.sent|] == s.sent
            && (forall i :: |s.sent| <= i < |s'.sent| ==>
                  SetIs(mem, s.params, i - |s.sent|, sets.bindOffset, sets.orientation, s'.sent[i]))
            && (code == Success <==> forall c :: 0 <= c < |s.params| ==> RetOf(mem, s.params[c]) == Success)
  {
    hide SetIs, RetOf, Rets;
    SetsRead(mem, ArrayState(s.params, [], [], [], Success), s.params, 0, sets.count, sets.bindOffset,
             sets.orientation);
    RetsAt(mem, s.params, 0);
    var code := ExecuteSets(mem, s, sets).1;
    if code == Success {
      forall c | 0 <= c < |s.params|
        ensures RetOf(mem, s.params[c]) == Success
      {
        assert Rets(mem, s.params, 0)[c] in Rets(mem, s.params, 0);
      }
    }
  }

  lemma {:induction false} RetsAt(mem: Memory, params: seq<Parameter>, c: nat)
    requires c <= |params|
    ensures var r := Rets(mem, params, c);
            |r| == |params| - c && forall k :: 0 <= k < |r| ==> r[k] == RetOf(mem, params[c + k])
    decreases |params| - c
  {
    hide RetOf;
    if c < |params| {
      RetsAt(mem, params, c + 1);
    }
  }

  /** The other half of SessionSends: with a pending parameter below the index, SQLExecute flags one and is blocked. */
  lemma StaleIndexNeverExecutes(mem: Memory, s: Session, opens: bool, calls: seq<Call>)
    requires Ready(mem, s) && !NoneBefore(mem, s)
    ensures var (s1, code, d) := (Execute(mem, s, opens).0, Execute(mem, s, opens).1, FirstPending(mem, s.params, 0));
            && code == NeedData && Blocked(s1, d)
            && ((forall i :: 0 <= i < |calls| ==> !Unblocks(calls[i], d)) ==> Run(s1, calls).sent == s.sent)
  {
    hide BindFrom, Run, LenSaysDataAtExec;
    var j :| 0 <= j < Start(s) && NeedsData(mem, s.params[j]);
    var d := FirstPending(mem, s.params, 0);
    BindFromStops(mem, s.(exec := Resized(s.exec, |s.params|)), 0, d);
    if forall i :: 0 <= i < |calls| ==> !Unblocks(calls[i], d) {
      BlockedForever(Execute(mem, s, opens).0, calls, d);
    }
  }

  /**
   * Binding the blocking parameter again lets a session run exactly when the new binding is no data-at-execution one:
   * nothing is then pending below the index, and SessionSends applies.
   */
  lemma RebindingUnblocksIff(mem: Memory, s: Session, k: nat, b: Binding)
    requires Ready(mem, s) && k < Start(s) && b.ctype != PUnsupported
    requires ElementAt(s.exec, k) == Unset
    requires forall j :: 0 <= j < Start(s) && j != k ==> !NeedsData(mem, s.params[j])
    ensures var next := Step(s, CallBind(mem, k, b));
            Ready(mem, next) && (NoneBefore(mem, next) <==> !LenSaysDataAtExec(mem, b.len))
  {
    hide LenSaysDataAtExec;
    var next := Step(s, CallBind(mem, k, b));
    assert NeedsData(mem, next.params[k]) == LenSaysDataAtExec(mem, b.len);
    assert Start(next) == Start(s);
  }

  // ----- what single calls do -----

  /**
   * SQLParamData asks for the first parameter from the current index on that needs data, clears it and moves the index
   * there; without one it executes like SQLExecute.
   */
  lemma AskedNext(mem: Memory, s: Session, sets: Sets, opens: bool, i: nat)
    requires s.current <= i <= |s.params| || i == |s.params|
    requires i < |s.params| ==> Asks(mem, s.params[i])
    requires forall j :: s.current <= j < i ==> !Asks(mem, s.params[j])
    ensures ParamDataWith(mem, s, sets, opens)
         == if i == |s.params| then ExecuteWith(mem, s, sets, opens)
            else
              var p := Parameter(s.params[i].direction, s.params[i].ctype, false, false, 0, 0, NoLen);
              (s.(current := i, params := s.params[i := p]), NeedData)
    ensures i < |s.params| ==> Step(s, CallParamData(mem, sets, opens)).current == i
  {
    hide NeedsData, Asks, ExecuteWith;
    forall p
      ensures NeedsData(mem, p) <==> Asks(mem, p)
    {
      AsksIff(mem, p);
    }
  }

  /**
   * What an execution sends: with an open result set nothing, and it fails; else every set of an array, whatever is
   * reported, and a single set exactly when success is. Data cannot be put without a parameter to put it for.
   */
  lemma WhatIsSent(mem: Memory, s: Session, sets: Sets, opens: bool, chunk: Chunk)
    ensures var (r, code) := ExecuteWith(mem, s, sets, opens);
            if s.resultOpen then (r, code) == (s, Error)
            else
              && |r.sent| == |s.sent| + (if sets.count >= 2 then sets.count else if code == Success then 1 else 0)
              && (r.resultOpen <==> opens && sets.count <= 1 && code == Success)
    ensures Step(s, CallExecute(mem, sets, opens)) == ExecuteWith(mem, s, sets, opens).0
    ensures s.current >= |s.params| ==> PutData(s, chunk) == (s, Error)
  {
    hide BindFrom, BindSets;
  }

  /** Binding parameters 0, 1, .. to a list of bindings. */
  function BindAll(mem: Memory, s: Session, i: nat, bindings: seq<Binding>): Session
    decreases |bindings|
  {
    if bindings == [] then s
    else BindAll(mem, Step(s, CallBind(mem, i, bindings[0])), i + 1, bindings[1..])
  }

  lemma {:induction false} BindAllSets(mem: Memory, s: Session, i: nat, bindings: seq<Binding>)
    requires |s.params| == i
    ensures var r := BindAll(mem, s, i, bindings);
            && r == s.(params := r.params) && |r.params| == i + |bindings|
            && (forall j :: 0 <= j < i ==> r.params[j] == s.params[j])
            && (forall j :: i <= j < |r.params| ==> r.params[j] == Rebind(mem, NEVER_BOUND, bindings[j - i]))
    decreases |bindings|
  {
    hide Rebind;
    if bindings != [] {
      BindAllSets(mem, Step(s, CallBind(mem, i, bindings[0])), i + 1, bindings[1..]);
    }
  }

  /**
   * After closing the cursor, resetting all parameters and binding others, a session can run from any state exactly
   * when none of the new parameters below the index, which a reset leaves alone, is a data-at-execution one.
   */
  lemma {:induction false} ResetUnblocksIff(mem: Memory, s: Session, bindings: seq<Binding>)
    requires forall j :: 0 <= j < |bindings| ==> bindings[j].ctype != PUnsupported
    ensures var next := BindAll(mem, Run(s, [CallCloseCursor, CallResetParams]), 0, bindings);
            && Ready(mem, next) && next.current == s.current && next.sent == s.sent
            && (NoneBefore(mem, next) <==>
                  forall j :: 0 <= j < Min(s.current, |bindings|) ==> !LenSaysDataAtExec(mem, bindings[j].len))
  {
    hide LenSaysDataAtExec, BindAll, Run, NeedsData, Rebind;
    var start := Run(s, [CallCloseCursor, CallResetParams]);
    ResetRun(s);
    var next := BindAll(mem, start, 0, bindings);
    BindAllSets(mem, start, 0, bindings);
    forall j | 0 <= j < |bindings|
      ensures NeedsData(mem, next.params[j]) <==> LenSaysDataAtExec(mem, bindings[j].len)
      ensures next.params[j].ctype == bindings[j].ctype
    {
      NewlyBound(mem, bindings[j]);
    }
  }

  lemma ResetRun(s: Session)
    ensures Run(s, [CallCloseCursor, CallResetParams]) == s.(params := [], exec := [], resultOpen := false)
  {
    assert [CallCloseCursor, CallResetParams][1..] == [CallResetParams];
  }

  lemma NewlyBound(mem: Memory, b: Binding)
    ensures var p := Rebind(mem, NEVER_BOUND, b);
            (NeedsData(mem, p) <==> LenSaysDataAtExec(mem, b.len)) && p.ctype == b.ctype
  {
    hide LenSaysDataAtExec;
  }

  // ----- a second session -----

  /** Binding a list of parameters again, one call after the other. */
  function RebindAll(mem: Memory, s: Session, indices: seq<nat>, bind: nat -> Binding): Session
    decreases |indices|
  {
    if indices == [] then s
    else RebindAll(mem, Step(s, CallBind(mem, indices[0], bind(indices[0]))), indices[1..], bind)
  }

  lemma {:induction false} RebindAllSets(mem: Memory, s: Session, indices: seq<nat>, bind: nat -> Binding)
    requires forall i :: 0 <= i < |indices| ==> indices[i] < |s.params|
    ensures var r := RebindAll(mem, s, indices, bind);
            && r == s.(params := r.params) && |r.params| == |s.params|
            && forall j :: 0 <= j < |s.params| ==>
                 if j in indices
                 then r.params[j].ctype == bind(j).ctype && r.params[j].len == bind(j).len && !r.params[j].isDataAtExec
                 else r.params[j] == s.params[j]
    decreases |indices|
  {
    if indices != [] {
      RebindAllSets(mem, Step(s, CallBind(mem, indices[0], bind(indices[0]))), indices[1..], bind);
    }
  }

  /**
   * A finished session leaves the index on the last parameter it asked for. When the application closes the cursor,
   * binds the asked parameters again as data-at-execution ones and starts over, nothing is pending below the index
   * exactly when one parameter was asked for; with two or more the second session is blocked (StaleIndexNeverExecutes).
   */
  lemma SecondSessionIff(mems: Memories, s: Session, feed: Feed, opens: bool, mem: Memory, bind: nat -> Binding)
    requires Ready(mems(0), s) && NoneBefore(mems(0), s) && Steady(mems, 0, s.params)
    requires PendingIndices(mems(0), s.params, 0) != []
    requires forall j :: 0 <= j < |s.params| && !NeedsData(mems(0), s.params[j]) ==> !NeedsData(mem, s.params[j])
    requires forall j: nat :: bind(j).ctype != PUnsupported && LenSaysDataAtExec(mem, bind(j).len)
    ensures var s1 := Execute(mems(0), s, opens).0;
            && Drivable(mems, 1, s1)
            && var (asked, end, code) := Drive(mems, 1, s1, feed, opens);
               var next := RebindAll(mem, Step(end, CallCloseCursor), asked, bind);
               && Ready(mem, next)
               && PendingIndices(mem, next.params, 0) == asked == PendingIndices(mems(0), s.params, 0)
               && (NoneBefore(mem, next) <==> |asked| == 1)
  {
    hide Drive, Execute, Outcomes, LenSaysDataAtExec, NeedsData, RebindAll, Steady, PendingIndices, Drivable, Finished;
    hide NoneBefore, Ready;
    SessionSends(mems, s, feed, opens);
    var (asked, end, code) := Drive(mems, 1, Execute(mems(0), s, opens).0, feed, opens);
    AskedAgain(mems(0), s, end, asked, opens, mem, bind);
  }

  lemma CloseStep(s: Session)
    ensures Step(s, CallCloseCursor) == s.(resultOpen := false)
  {
  }

  /** Binding the asked parameters of a finished session again makes the same parameters pending. */
  lemma AskedAgain(mem0: Memory, s: Session, end: Session, asked: seq<nat>, opens: bool, mem: Memory,
                   bind: nat -> Binding)
    requires Finished(s, end, asked, opens) && Ready(mem0, s)
    requires asked == PendingIndices(mem0, s.params, 0) != []
    requires forall j :: 0 <= j < |s.params| && !NeedsData(mem0, s.params[j]) ==> !NeedsData(mem, s.params[j])
    requires forall j: nat :: bind(j).ctype != PUnsupported && LenSaysDataAtExec(mem, bind(j).len)
    ensures var next := RebindAll(mem, Step(end, CallCloseCursor), asked, bind);
            && Ready(mem, next)
            && PendingIndices(mem, next.params, 0) == asked
            && (NoneBefore(mem, next) <==> |asked| == 1)
  {
    hide LenSaysDataAtExec, RebindAll, PendingIndices, NeedsData, SameButSize, Step;
    var start := Step(end, CallCloseCursor);
    CloseStep(end);
    var next := RebindAll(mem, start, asked, bind);
    RebindAllSets(mem, start, asked, bind);
    AskedNeeds(mem0, s, end, asked, opens, mem, bind);
    PendingAgree(mem0, s.params, mem, next.params, 0);
    AscendingBefore(mem0, s.params);
    assert next.current == asked[|asked| - 1];
    if |asked| >= 2 {
      assert NeedsData(mem, next.params[asked[0]]);
    }
  }

  lemma AskedNeeds(mem0: Memory, s: Session, end: Session, asked: seq<nat>, opens: bool, mem: Memory,
                   bind: nat -> Binding)
    requires Finished(s, end, asked, opens) && Clean(mem0, s)
    requires asked == PendingIndices(mem0, s.params, 0)
    requires forall j :: 0 <= j < |s.params| && !NeedsData(mem0, s.params[j]) ==> !NeedsData(mem, s.params[j])
    requires forall j: nat :: bind(j).ctype != PUnsupported && LenSaysDataAtExec(mem, bind(j).len)
    ensures var next := RebindAll(mem, Step(end, CallCloseCursor), asked, bind);
            && |next.params| == |s.params|
            && forall j :: 0 <= j < |s.params| ==>
                 && NeedsData(mem0, s.params[j]) == NeedsData(mem, next.params[j]) == (j in asked)
                 && next.params[j].ctype != PUnsupported
  {
    hide LenSaysDataAtExec, RebindAll, PendingIndices, NeedsData, SameButSize, Step;
    CloseStep(end);
    var next := RebindAll(mem, Step(end, CallCloseCursor), asked, bind);
    RebindAllSets(mem, Step(end, CallCloseCursor), asked, bind);
    forall j | 0 <= j < |s.params|
      ensures NeedsData(mem0, s.params[j]) == NeedsData(mem, next.params[j]) == (j in asked)
      ensures next.params[j].ctype != PUnsupported
    {
      PendingMembers(mem0, s.params, 0, j);
      if j in asked {
        BoundNeeds(mem, next.params[j]);
      } else {
        FlagKeepsNeeds(mem, s.params[j], next.params[j]);
        SizeKeepsType(s.params[j], next.params[j]);
      }
    }
  }

  lemma BoundNeeds(mem: Memory, p: Parameter)
    requires !p.isDataAtExec
    ensures NeedsData(mem, p) == LenSaysDataAtExec(mem, p.len)
  {
    hide LenSaysDataAtExec;
  }

  /** Below the last pending index there is another one exactly when there are two. */
  lemma AscendingBefore(mem: Memory, params: seq<Parameter>)
    ensures var p := PendingIndices(mem, params, 0);
            p != [] ==> forall i :: 0 <= i < |p| - 1 ==> p[i] < p[|p| - 1]
  {
    hide PendingIndices;
    var p := PendingIndices(mem, params, 0);
    forall i | 0 <= i < |p| - 1
      ensures p[i] < p[|p| - 1]
    {
      PendingAscending(mem, params, 0, i, |p| - 1);
    }
  }
}
