/**
 * The parameter side of a prepared statement as the driver runs it: the parameter vector, the native list and
 * the current index change call by call. Every method is proved against DataAtExec or ArrayBinding.
 */
module ParamStatement {
  import opened OdbcTypes
  import opened Parameters
  import opened DataAtExec
  import opened ArrayBinding

  class Statement {
    var params: seq<Parameter>
    var execParams: seq<NativeValue>
    var currentParameterIndex: nat
    var resultOpen: bool
    /** The parameter lists the native statement has been executed with. */
    var sent: seq<seq<NativeValue>>

    constructor (params: seq<Parameter>)
      ensures AsSession() == Session(params, [], 0, false, [])
    {
      this.params := params;
      execParams, currentParameterIndex, resultOpen, sent := [], 0, false, [];
    }

    ghost function AsSession(): Session
      reads this
    {
      Session(params, execParams, currentParameterIndex, resultOpen, sent)
    }

    method SetNative(i: nat, v: NativeValue)
      modifies this`execParams
      ensures execParams == SetAt(old(execParams), i, v)
    {
      if i >= |execParams| {
        execParams := Resized(execParams, i) + [Unset];
      }
      execParams := execParams[i := v];
    }

    /** addParameter for the parameter number `i + 1`: the vector grows first. */
    method AddParameter(mem: Memory, i: nat, b: Binding)
      modifies this`params
      ensures AsSession() == Step(old(AsSession()), CallBind(mem, i, b))
    {
      hide Rebind;
      while |params| <= i
        invariant |params| <= Max(|old(params)|, i + 1)
        invariant params == old(params) + seq(|params| - |old(params)|, _ => NEVER_BOUND)
        decreases i - |params|
      {
        params := params + [NEVER_BOUND];
      }
      params := params[i := Rebind(mem, params[i], b)];
    }

    /** resetParameters. */
    method ResetParameters()
      modifies this`params, this`execParams
      ensures AsSession() == Step(old(AsSession()), CallResetParams)
    {
      params, execParams := [], [];
    }

    /** bindParameter, on the parameter at index `i` of the vector. */
    method BindParameterAt(mem: Memory, i: nat, append: bool, valueOffset: int, lenOffset: int) returns (code: Code)
      requires i < |params|
      modifies this`params, this`execParams
      ensures var b := BindParameter(mem, old(execParams), i, old(params[i]), append, valueOffset, lenOffset);
              code == b.code && execParams == b.exec && params == old(params)[i := b.param]
    {
      hide ReadValue, LenSaysDataAtExec, LenValue, Append;
      var p := params[i];
      if !append {
        if NeedsData(mem, p) {
          params := params[i := p.(isDataAtExec := true, len := NoLen)];
          return NeedData;
        }
        if p.isBound {
          return Success;
        }
      }
      if p.value != 0 && p.direction != Output {
        if p.ctype == PUnsupported {
          return Error;
        }
        var v := ReadValue(mem, p.ctype, p.value + valueOffset, LenValue(mem, p.len, lenOffset));
        var prior := if append && i < |execParams| then execParams[i] else Unset;
        SetNative(i, Append(prior, v));
        if p.ctype.IsInteger() && p.valueSize <= 0 {
          params := params[i := p.(valueSize := p.ctype.FixedWidth())];
        }
      } else {
        SetNative(i, NullValue);
      }
      code := Success;
    }

    /** bindParameters. */
    method BindParameters(mem: Memory) returns (code: Code)
      modifies this`params, this`execParams
      ensures var (s', r) := BindFrom(mem, old(AsSession()).(exec := Resized(old(execParams), |old(params)|)), 0);
              AsSession() == s' && code == r
    {
      hide BindParameter;
      execParams := Resized(execParams, |params|);
      code := Success;
      ghost var target := BindFrom(mem, AsSession(), 0);
      var i := 0;
      while i < |params|
        invariant i <= |params| && code == Success
        invariant BindFrom(mem, AsSession(), i) == target
      {
        ghost var was := AsSession();
        code := BindParameterAt(mem, i, false, 0, 0);
        ghost var b := BindParameter(mem, was.exec, i, was.params[i], false, 0, 0);
        assert AsSession() == was.(exec := b.exec, params := was.params[i := b.param]);
        if code != Success {
          break;
        }
        i := i + 1;
      }
    }

    /** execute() on the prepared statement; `opens` is whether the native execution returns a result set. */
    method ExecutePrepared(mem: Memory, sets: Sets, opens: bool) returns (code: Code)
      modifies this
      ensures (AsSession(), code) == ExecuteWith(mem, old(AsSession()), sets, opens)
    {
      hide BindFrom, BindSets;
      if resultOpen {
        return Error;
      }
      if sets.count > 1 {
        code := ExecuteWithArrayOfParams(mem, sets);
        return;
      }
      code := BindParameters(mem);
      if code != Success {
        return;
      }
      sent := sent + [execParams];
      execParams := [];
      resultOpen := opens;
    }

    /** getParamData. */
    method GetParamData(mem: Memory, sets: Sets, opens: bool) returns (code: Code)
      modifies this
      ensures (AsSession(), code) == ParamDataWith(mem, old(AsSession()), sets, opens)
    {
      hide Execute, ExecuteSets, NeedsData;
      var i := currentParameterIndex;
      while i < |params|
        invariant currentParameterIndex <= i
        invariant i <= |params| || i == currentParameterIndex
        invariant i <= |params| ==> FirstPending(mem, params, currentParameterIndex) == FirstPending(mem, params, i)
        invariant AsSession() == old(AsSession())
        decreases |params| - i
      {
        if NeedsData(mem, params[i]) {
          currentParameterIndex := i;
          params := params[i := params[i].(value := 0, valueSize := 0, len := NoLen, isBound := false,
                                           isDataAtExec := false)];
          return NeedData;
        }
        i := i + 1;
      }
      code := ExecutePrepared(mem, sets, opens);
    }

    /** putData. */
    method PutDataChunk(mem: Memory, dataPtr: int, dataLength: int) returns (code: Code)
      modifies this`params, this`execParams
      ensures (AsSession(), code) == PutData(old(AsSession()), Chunk(mem, dataPtr, dataLength))
    {
      hide BindParameter;
      if currentParameterIndex >= |params| {
        return Error;
      }
      var i := currentParameterIndex;
      var ptr := if dataLength == SQL_NULL_DATA then 0 else dataPtr;
      var saved := params[i].len;
      params := params[i := params[i].(isDataAtExec := false, value := ptr, len := LenLocal(dataLength))];
      code := BindParameterAt(mem, i, true, 0, 0);
      params := params[i := params[i].(len := saved)];
      if code == Success {
        params := params[i := params[i].(isBound := true)];
      }
      assert params == old(params)[i := params[i]];
    }

    /** The parameters of one set; an error does not stop it. */
    method BindOneSet(mem: Memory, i: nat, bindOffset: int, offset: int, orientation: nat, result: Code)
        returns (status: Code, code: Code)
      requires |execParams| == |params|
      modifies this`params, this`execParams
      ensures var r := BindColumns(mem, SetState(old(params), old(execParams), Success, result), 0, i, bindOffset,
                                   offset, orientation);
              SetState(params, execParams, status, code) == r
    {
      hide BindParameter, UpdateStatus, ValueOffset;
      status, code := Success, result;
      ghost var target :=
        BindColumns(mem, SetState(params, execParams, status, code), 0, i, bindOffset, offset, orientation);
      var c := 0;
      while c < |params|
        invariant c <= |params|
        invariant BindColumns(mem, SetState(params, execParams, status, code), c, i, bindOffset, offset, orientation)
               == target
      {
        ghost var was := SetState(params, execParams, status, code);
        var valueOffset := ValueOffset(params[c], i, bindOffset, offset, orientation);
        var ret := BindParameterAt(mem, c, false, valueOffset, offset);
        var (status1, code1) := UpdateStatus(status, code, ret);
        status, code := status1, code1;
        ghost var b := BindParameter(mem, was.exec, c, was.params[c], false, valueOffset, offset);
        assert SetState(params, execParams, status, code)
            == SetState(was.params[c := b.param], b.exec, status1, code1);
        c := c + 1;
      }
    }

    /**
     * bindArrayOfParameters: `batch` receives the parameter sets, `statuses` their status words. The counter has 32
     * bits, so the loop ends only for set sizes that fit it (CounterPassesIff).
     */
    method BindArrayOfParameters(mem: Memory, setSize: nat, bindOffset: int, orientation: nat)
        returns (code: Code, batch: seq<seq<NativeValue>>, statuses: seq<Code>)
      requires setSize < TWO_32
      modifies this`params, this`execParams
      ensures var r := BindSets(mem, ArrayState(old(params), old(execParams), [], [], Success), 0, setSize, bindOffset,
                                orientation);
              ArrayState(params, execParams, batch, statuses, code) == r
    {
      hide BindColumns;
      code, batch, statuses := Success, [], [];
      ghost var target :=
        BindSets(mem, ArrayState(params, execParams, [], [], Success), 0, setSize, bindOffset, orientation);
      var offset := bindOffset;
      var i := 0;
      while i < setSize
        invariant i <= setSize
        invariant offset == SetOffset(i, bindOffset, orientation)
        invariant BindSets(mem, ArrayState(params, execParams, batch, statuses, code), i, setSize, bindOffset,
                           orientation) == target
      {
        ghost var was := ArrayState(params, execParams, batch, statuses, code);
        execParams := Resized(execParams, |params|);
        var status;
        status, code := BindOneSet(mem, i, bindOffset, offset, orientation, code);
        batch := batch + [execParams];
        execParams := [];
        statuses := statuses + [status];
        assert ArrayState(params, execParams, batch, statuses, code) == BindSet(mem, was, i, bindOffset, orientation);
        offset := if orientation == BIND_BY_COLUMN then offset + 1 else offset + orientation;
        assert (i + 1) * orientation == i * orientation + orientation;
        i := ToUint32(i + 1);
      }
    }

    /** executeWithArrayOfParams on a prepared statement: nothing looks at the code before the batch is executed. */
    method ExecuteWithArrayOfParams(mem: Memory, sets: Sets) returns (code: Code)
      requires !resultOpen
      modifies this`params, this`execParams, this`sent
      ensures (AsSession(), code) == ExecuteSets(mem, old(AsSession()), sets)
    {
      hide BindSets;
      var batch, statuses;
      code, batch, statuses := BindArrayOfParameters(mem, sets.count, sets.bindOffset, sets.orientation);
      sent := sent + batch;
    }

    /** One call of the application. */
    method Perform(c: Call)
      modifies this
      ensures AsSession() == Step(old(AsSession()), c)
    {
      hide ExecuteWith, ParamDataWith, PutData, BindAt;
      match c
      case CallExecute(mem, sets, opens) => var _ := ExecutePrepared(mem, sets, opens);
      case CallParamData(mem, sets, opens) => var _ := GetParamData(mem, sets, opens);
      case CallPutData(chunk) => var _ := PutDataChunk(chunk.mem, chunk.ptr, chunk.len);
      case CallBind(mem, i, b) => AddParameter(mem, i, b);
      case CallResetParams => ResetParameters();
      case CallCloseCursor => resultOpen := false;
    }

    /**
     * Any list of calls on the object; while a flagged parameter below the current index blocks it and no call
     * unblocks it, nothing is executed.
     */
    method PerformAll(calls: seq<Call>)
      modifies this
      ensures AsSession() == Run(old(AsSession()), calls)
      ensures forall k: nat ::
                Blocked(old(AsSession()), k) && (forall i :: 0 <= i < |calls| ==> !Unblocks(calls[i], k)) ==>
                  Blocked(AsSession(), k) && sent == old(sent)
    {
      hide Step, Blocked, Unblocks;
      ghost var start := AsSession();
      var i := 0;
      while i < |calls|
        invariant 0 <= i <= |calls|
        invariant Run(AsSession(), calls[i..]) == Run(start, calls)
      {
        assert calls[i..][1..] == calls[i + 1..];
        Perform(calls[i]);
        i := i + 1;
      }
      assert calls[i..] == [];
      forall k: nat | Blocked(start, k) && forall i :: 0 <= i < |calls| ==> !Unblocks(calls[i], k)
        ensures Blocked(Run(start, calls), k) && Run(start, calls).sent == start.sent
      {
        BlockedForever(start, calls, k);
      }
    }
  }
}
