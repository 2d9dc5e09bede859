/**
 * The result set a statement holds and the cursor that reads it, through every history of prepare, execute, catalog,
 * more-results, fetch, scroll, close and free calls. What the native client answers is part of each call.
 */
module StatementCursor {
  import opened OdbcTypes

  /** A native result set, by identity and rows; a row is named by a number. */
  datatype ResultSet = ResultSet(id: nat, rows: seq<int>)

  /** The cursor is a separate object that points into a result set, at a row or before or after all rows. */
  datatype Cursor = Detached | OnRows(rs: ResultSet, at: int)

  /** `params` and `execParams` are the sizes of the two parameter vectors; `result` says whether m_result is set. */
  datatype State = State(held: Option<ResultSet>, cursor: Cursor, prepared: bool, result: bool,
                         params: nat, execParams: nat, setSize: nat)

  const NEW_STATEMENT: State := State(None, Detached, false, false, 0, 0, 1)

  /** What comes after a call has taken effect: output parameters and warnings are read, which may throw. */
  datatype After = Quiet | Warned | Raised {
    function ReturnCode(): Code {
      match this
      case Quiet => Success
      case Warned => SuccessWithInfo
      case Raised => Error
    }
  }

  /**
   * The native answer to a call that may produce a result set: it throws, it executes but throws when asked for the
   * result set, or it gives one or none.
   */
  datatype Reply = Throws | ThrowsLate | Gives(rs: Option<ResultSet>, open: bool, after: After)

  /** The answers needed by an execution: of the parameter binding, the execution, and an array execution. */
  datatype Native = Native(bind: Code, reply: Reply, prepares: bool, batch: Code)

  /** setResultSet: a new result set gets the cursor, before its first row; no result set clears it. */
  function SetResultSet(s: State, rs: Option<ResultSet>): State {
    s.(held := rs, cursor := if rs.Some? then OnRows(rs.value, -1) else Detached)
  }

  /** executeWithArrayOfParams: an unprepared statement is prepared first, which clears its parameters. */
  function ExecuteArray(s: State, n: Native): (State, Code) {
    if s.prepared then (s, n.batch)
    else
      var s1 := s.(params := 0, execParams := 0);
      if n.prepares then (s1.(prepared := true), n.batch) else (s1, Error)
  }

  predicate Succeeded(code: Code) {
    code == Success || code == SuccessWithInfo
  }

  function ExecuteDirect(s: State, n: Native): (State, Code) {
    if s.held.Some? then (s, Error)
    else
      var s1 := s.(result := false);
      if s.setSize > 1 then ExecuteArray(s1, n)
      else
        var s2 := if s.params > 0 then s1.(execParams := s.params) else s1;
        if s.params > 0 && !Succeeded(n.bind) then (s2, n.bind)
        else if n.reply.Throws? then (s2, Error)
        else
          var s3 := s2.(result := true, prepared := s.params > 0,
                        execParams := if s.params > 0 then 0 else s2.execParams);
          if n.reply.ThrowsLate? then (s3, Error)
          else (SetResultSet(s3, n.reply.rs), n.reply.after.ReturnCode())
  }

  function Execute(s: State, n: Native): (State, Code) {
    if s.held.Some? then (s, Error)
    else
      var s1 := s.(result := false);
      if !s.prepared then (s1, Error)
      else if s.setSize > 1 then ExecuteArray(s1, n)
      else
        var s2 := s1.(execParams := s.params);
        if !Succeeded(n.bind) then (s2, n.bind)
        else if n.reply.Throws? then (s2, Error)
        else
          var s3 := s2.(result := true, execParams := 0);
          if n.reply.ThrowsLate? then (s3, Error)
          else (SetResultSet(s3, n.reply.rs), n.reply.after.ReturnCode())
  }

  /** prepare does not look at the cursor; when it throws, the old prepared statement stays. */
  function Prepare(s: State, prepares: bool, after: After): (State, Code) {
    var s1 := s.(params := 0, execParams := 0);
    if prepares then (s1.(prepared := true), after.ReturnCode()) else (s1, Error)
  }

  /** Every catalog function. */
  function Catalog(s: State, reply: Reply): (State, Code) {
    if s.held.Some? then (s, Error)
    else
      var s1 := s.(params := 0, execParams := 0);
      if !reply.Gives? then (s1, Error)
      else (SetResultSet(s1, reply.rs).(prepared := false), reply.after.ReturnCode())
  }

  function MoreResults(s: State, reply: Reply): (State, Code) {
    if !s.prepared && s.held.None? then (s, NoData)
    else if !reply.Gives? then (s, Error)
    else
      (SetResultSet(s, reply.rs), if reply.rs.Some? && reply.open then reply.after.ReturnCode() else NoData)
  }

  function CloseResultSet(s: State, ifPresent: bool, throws: bool): (State, Code) {
    if s.held.Some? then if throws then (s, Error) else (s.(held := None, cursor := Detached), Success)
    else (s, if ifPresent then Success else Error)
  }

  /** SQLFreeStmt with SQL_CLOSE: closes if present and drops the result. */
  function FreeClose(s: State, throws: bool): (State, Code) {
    var (s1, code) := CloseResultSet(s, true, throws);
    (s1.(result := false), code)
  }

  /** A cursor moved by `delta` rows stays between the position before all rows and the one after. */
  function Moved(c: Cursor, delta: int): Cursor {
    match c
    case Detached => Detached
    case OnRows(rs, at) => OnRows(rs, Max(-1, Min(|rs.rows|, at + delta)))
  }

  predicate OnRow(c: Cursor) {
    c.OnRows? && 0 <= c.at < |c.rs.rows|
  }

  /** After a scroll: the rows from the new position on are converted if it is on a row. */
  function Scrolled(s: State, c: Cursor, more: nat, converted: Code): (State, Code) {
    if OnRow(c) then (s.(cursor := Moved(c, more)), converted) else (s.(cursor := c), NoData)
  }

  /** SQLFetch: one step, and then `more` further steps if it fills a rowset. */
  function Fetch(s: State, more: nat, converted: Code): (State, Code) {
    if s.held.None? then (s, Error) else Scrolled(s, Moved(s.cursor, 1), more, converted)
  }

  /** The fetch orientations of SQLFetchScroll, with their offset. */
  datatype Scroll =
    | ScrollNext | ScrollPrior | ScrollRelative(delta: int) | ScrollAbsolute(row: int) | ScrollFirst | ScrollLast
    | ScrollBookmark

  /** The offset is clamped to 32 bits. */
  function Clamp32(n: int): int {
    Max(-TWO_31, Min(TWO_31 - 1, n))
  }

  /** A cursor taken anew from a result set at a position; a negative one counts from the end. */
  function Begin(rs: ResultSet, k: int): Cursor {
    OnRows(rs, if k >= 0 then Min(k, |rs.rows|) else Max(-1, |rs.rows| + k))
  }

  /** Where a scroll puts the cursor: absolute positions start at 1, and 0 is before the first row. */
  function Scrolling(rs: ResultSet, c: Cursor, where: Scroll): Cursor
    requires !where.ScrollBookmark?
  {
    match where
    case ScrollNext => Moved(c, 1)
    case ScrollPrior => Moved(c, -1)
    case ScrollRelative(delta) => Moved(c, Clamp32(delta))
    case ScrollAbsolute(row) =>
      var k := Clamp32(row);
      if k == 0 then Moved(Begin(rs, 0), -1) else Begin(rs, if k > 0 then k - 1 else k)
    case ScrollFirst => Begin(rs, 0)
    case ScrollLast => Begin(rs, -1)
  }

  /** SQLFetchScroll; bookmarks are not supported. */
  function FetchScroll(s: State, where: Scroll, more: nat, converted: Code): (State, Code) {
    if s.held.None? || where.ScrollBookmark? then (s, Error)
    else Scrolled(s, Scrolling(s.held.value, s.cursor, where), more, converted)
  }

  // ----- SQLGetData -----

  datatype Reading = Reading(row: int, warningsOf: Option<ResultSet>)

  /** getData into a buffer: it looks at the cursor alone, then reads its row and the held result set's warnings. */
  function GetData(s: State): Option<Reading> {
    if OnRow(s.cursor) then Some(Reading(s.cursor.rs.rows[s.cursor.at], s.held)) else None
  }

  /** The code of getData; `converted` is that of the conversion. Without a buffer there is nothing to return. */
  function GetDataCode(s: State, buffer: bool, converted: Code): Code {
    if !OnRow(s.cursor) then Error else if buffer then converted else NoData
  }

  // ----- histories -----

  datatype Op =
    | OpBind(paramNum: nat)
    | OpResetParams
    | OpParamsetSize(size: nat)
    | OpPrepare(prepares: bool, after: After)
    | OpExecuteDirect(native: Native)
    | OpExecute(native: Native)
    | OpCatalog(reply: Reply)
    | OpMoreResults(reply: Reply)
    | OpClose(ifPresent: bool, throws: bool)
    | OpFreeClose(throws: bool)
    | OpFetch(more: nat, converted: Code)
    | OpScroll(where: Scroll, more: nat, converted: Code)

  function Step(s: State, op: Op): (State, Code) {
    match op
    case OpBind(paramNum) => (s.(params := Max(s.params, paramNum)), Success)
    case OpResetParams => (s.(params := 0, execParams := 0), Success)
    case OpParamsetSize(size) => (s.(setSize := size), Success)
    case OpPrepare(prepares, after) => Prepare(s, prepares, after)
    case OpExecuteDirect(n) => ExecuteDirect(s, n)
    case OpExecute(n) => Execute(s, n)
    case OpCatalog(reply) => Catalog(s, reply)
    case OpMoreResults(reply) => MoreResults(s, reply)
    case OpClose(ifPresent, throws) => CloseResultSet(s, ifPresent, throws)
    case OpFreeClose(throws) => FreeClose(s, throws)
    case OpFetch(more, converted) => Fetch(s, more, converted)
    case OpScroll(where, more, converted) => FetchScroll(s, where, more, converted)
  }

  function Run(s: State, ops: seq<Op>): State
    decreases |ops|
  {
    if ops == [] then s else Run(Step(s, ops[0]).0, ops[1..])
  }

  /** The cursor is attached iff a result set is held, and then to that one. */
  predicate CursorMatches(s: State) {
    match s.held
    case None => s.cursor.Detached?
    case Some(rs) => s.cursor.OnRows? && s.cursor.rs == rs && -1 <= s.cursor.at <= |rs.rows|
  }

  lemma StepMatches(s: State, op: Op)
    requires CursorMatches(s)
    ensures CursorMatches(Step(s, op).0)
  {
    hide FetchScroll, Execute, ExecuteDirect;
    match op
    case OpScroll(where, more, converted) => ScrollMatches(s, where, more, converted);
    case OpExecute(n) => ExecuteMatches(s, n);
    case OpExecuteDirect(n) => ExecuteMatches(s, n);
    case _ =>
  }

  lemma ScrollMatches(s: State, where: Scroll, more: nat, converted: Code)
    requires CursorMatches(s)
    ensures CursorMatches(FetchScroll(s, where, more, converted).0)
  {
  }

  lemma ExecuteMatches(s: State, n: Native)
    requires CursorMatches(s)
    ensures CursorMatches(Execute(s, n).0) && CursorMatches(ExecuteDirect(s, n).0)
  {
  }

  lemma {:induction false} HistoryMatches(s: State, ops: seq<Op>)
    requires CursorMatches(s)
    ensures CursorMatches(Run(s, ops))
    decreases |ops|
  {
    hide CursorMatches, Step;
    if ops != [] {
      StepMatches(s, ops[0]);
      HistoryMatches(Step(s, ops[0]).0, ops[1..]);
    }
  }

  lemma {:induction false} RunSnoc(s: State, ops: seq<Op>, i: nat)
    requires i < |ops|
    ensures Run(s, ops[..i + 1]) == Step(Run(s, ops[..i]), ops[i]).0
    decreases i
  {
    hide Step;
    if i == 0 {
      assert ops[..1] == [ops[0]];
    } else {
      assert ops[..i + 1][1..] == ops[1..][..i] && ops[..i][1..] == ops[1..][..i - 1];
      RunSnoc(Step(s, ops[0]).0, ops[1..], i - 1);
    }
  }

  /** A row that getData reads is one of the held result set's. */
  lemma ReadingIsHeld(s: State)
    requires CursorMatches(s)
    ensures GetData(s).Some? ==>
      GetData(s).value.warningsOf == s.held && s.held.Some? && GetData(s).value.row in s.held.value.rows
  {
  }

  function At(c: Cursor): int {
    if c.OnRows? then c.at else -1
  }

  /**
   * After every history, whatever the native client answered, getData finds a row exactly when a result set is held
   * and the cursor is on one of its rows, and that is the row it reads. Without a buffer the code says the same.
   */
  lemma GetDataNeedsResultSet(ops: seq<Op>, converted: Code)
    ensures
      var s := Run(NEW_STATEMENT, ops);
      && GetDataCode(s, false, converted) == (if GetData(s).Some? then NoData else Error)
      && GetDataCode(s, true, converted) == (if GetData(s).Some? then converted else Error)
      && GetData(s) == match s.held {
        case Some(rs) => if 0 <= At(s.cursor) < |rs.rows| then Some(Reading(rs.rows[At(s.cursor)], s.held)) else None
        case None => None
      }
  {
    HistoryMatches(NEW_STATEMENT, ops);
  }

  /** With a cursor open, executing or asking the catalog fails and leaves everything as it was. */
  lemma OpenCursorBlocks(ops: seq<Op>, n: Native, reply: Reply)
    requires Run(NEW_STATEMENT, ops).cursor.OnRows?
    ensures var s := Run(NEW_STATEMENT, ops);
            Step(s, OpExecute(n)) == Step(s, OpExecuteDirect(n)) == Step(s, OpCatalog(reply)) == (s, Error)
  {
    HistoryMatches(NEW_STATEMENT, ops);
  }

  /**
   * Closing a held result set detaches the cursor unless the native close throws; afterwards there is nothing to close,
   * and a call that yields a result set is let through and holds it.
   */
  lemma CloseLetsThrough(ops: seq<Op>, ifPresent: bool, source: Source, n: Native, rs: ResultSet)
    requires Run(NEW_STATEMENT, ops).held.Some?
    ensures var s := Run(NEW_STATEMENT, ops);
            var (r, code) := Step(s, OpClose(ifPresent, false));
            && Step(s, OpClose(ifPresent, true)) == (s, Error)
            && code == Success && r == s.(held := None, cursor := Detached)
            && Step(r, OpClose(true, false)) == (r, Success) && Step(r, OpClose(false, false)) == (r, Error)
            && (Produces(r, source, n, rs) ==>
                  Produce(r, source, n).0.held == Some(rs) && Produce(r, source, n).0.cursor == OnRows(rs, -1))
  {
    hide Run;
  }

  /**
   * More results: without a prepared statement or a result set there are none and nothing changes; otherwise the next
   * result set is held, its cursor before the first row, and without one the cursor is detached.
   */
  lemma MoreResultsMeans(s: State, rs: Option<ResultSet>, open: bool, after: After)
    ensures var (r, code) := Step(s, OpMoreResults(Gives(rs, open, after)));
            if !s.prepared && s.held == None then (r, code) == (s, NoData)
            else
              && r == s.(held := rs, cursor := if rs == None then Detached else OnRows(rs.value, -1))
              && code == (if rs == None || !open then NoData else if after == Quiet then Success
                          else if after == Warned then SuccessWithInfo else Error)
    ensures Step(s, OpMoreResults(Throws)) == (s, if !s.prepared && s.held == None then NoData else Error)
  {
  }

  /** An offset as far as 32 bits go. */
  function In32(n: int): int {
    if n < -0x8000_0000 then -0x8000_0000 else if n > 0x7fff_ffff then 0x7fff_ffff else n
  }

  /** The row that a scroll is meant to land on, counted from 0, in a result set of `n` rows. */
  function Landing(where: Scroll, at: int, n: nat): int {
    match where
    case ScrollNext => at + 1
    case ScrollPrior => at - 1
    case ScrollRelative(delta) => at + In32(delta)
    case ScrollAbsolute(row) => if row > 0 then In32(row) - 1 else if row < 0 then n + In32(row) else -1
    case ScrollFirst => 0
    case ScrollLast => n - 1
    case ScrollBookmark => -1
  }

  /**
   * After any history, a scroll lands on its row, which getData then reads, or reports that there is none; the offset
   * is taken as far as 32 bits go.
   */
  lemma ScrollLands(ops: seq<Op>, where: Scroll, converted: Code)
    requires var s := Run(NEW_STATEMENT, ops);
             s.held.Some? && !where.ScrollBookmark?
    ensures var s := Run(NEW_STATEMENT, ops);
            var (r, code) := Step(s, OpScroll(where, 0, converted));
            var rows := s.held.value.rows;
            var p := Landing(where, At(s.cursor), |rows|);
            && r.held == s.held
            && (if 0 <= p < |rows| then code == converted && GetData(r) == Some(Reading(rows[p], s.held))
                else code == NoData && GetData(r) == None)
  {
    hide Run;
    HistoryMatches(NEW_STATEMENT, ops);
  }

  /** An execution of one parameter set fails: the binding or the native client does, or reading what comes after. */
  predicate OneSetFails(binds: bool, n: Native) {
    if binds && n.bind !in {Success, SuccessWithInfo} then n.bind == Error
    else n.reply.Throws? || n.reply.ThrowsLate? || n.reply.after == Raised
  }

  /** Why a call reports an error, from the state before it. */
  predicate CallFails(s: State, op: Op) {
    var open := s.held != None;
    var at := At(s.cursor);
    match op
    case OpPrepare(prepares, after) => !prepares || after == Raised
    case OpExecute(n) => open || !s.prepared || if s.setSize >= 2 then n.batch == Error else OneSetFails(true, n)
    case OpExecuteDirect(n) =>
      open || if s.setSize >= 2 then n.batch == Error || !(s.prepared || n.prepares) else OneSetFails(s.params != 0, n)
    case OpCatalog(reply) => open || reply.Throws? || reply.ThrowsLate? || reply.after == Raised
    case OpMoreResults(reply) =>
      (s.prepared || open) && (!reply.Gives? || (reply.open && reply.rs != None && reply.after == Raised))
    case OpClose(ifPresent, throws) => if open then throws else !ifPresent
    case OpFreeClose(throws) => open && throws
    case OpFetch(more, converted) => !open || (converted == Error && at + 1 < |s.held.value.rows|)
    case OpScroll(where, more, converted) =>
      !open || where == ScrollBookmark
      || (converted == Error && 0 <= Landing(where, at, |s.held.value.rows|) < |s.held.value.rows|)
    case _ => false
  }

  lemma CallFailsIff(ops: seq<Op>, op: Op)
    ensures Step(Run(NEW_STATEMENT, ops), op).1 == Error <==> CallFails(Run(NEW_STATEMENT, ops), op)
  {
    var s := Run(NEW_STATEMENT, ops);
    HistoryMatches(NEW_STATEMENT, ops);
    hide Run;
    match op
    case OpScroll(where, more, converted) => ScrollFailsIff(s, where, more, converted);
    case _ => hide FetchScroll;
  }

  lemma ScrollFailsIff(s: State, where: Scroll, more: nat, converted: Code)
    requires CursorMatches(s)
    ensures FetchScroll(s, where, more, converted).1 == Error <==> CallFails(s, OpScroll(where, more, converted))
  {
  }

  /** Whether a call that executes at once gets to the native client, and what it finds there. */
  predicate Reaches(s: State, binds: bool, n: Native) {
    s.held == None && s.setSize <= 1 && (binds ==> n.bind in {Success, SuccessWithInfo})
  }

  /** The statement is prepared, or not any more, by a call; None leaves it as it was. */
  function MakesPrepared(s: State, op: Op): Option<bool> {
    match op
    case OpPrepare(prepares, _) => if prepares then Some(true) else None
    case OpCatalog(reply) => if s.held == None && reply.Gives? then Some(false) else None
    case OpExecuteDirect(n) =>
      if s.held == None && s.setSize >= 2 && n.prepares then Some(true)
      else if Reaches(s, s.params != 0, n) && !n.reply.Throws? then Some(s.params != 0)
      else None
    case _ => None
  }

  /** A native result is set or dropped by a call. */
  function MakesResult(s: State, op: Op): Option<bool> {
    match op
    case OpFreeClose(_) => Some(false)
    case OpExecuteDirect(n) =>
      if s.held != None then None else Some(Reaches(s, s.params != 0, n) && !n.reply.Throws?)
    case OpExecute(n) =>
      if s.held != None then None else Some(s.prepared && Reaches(s, true, n) && !n.reply.Throws?)
    case _ => None
  }

  /** A call drops all bound parameters. */
  predicate DropsParams(s: State, op: Op) {
    match op
    case OpResetParams | OpPrepare(_, _) => true
    case OpCatalog(_) => s.held == None
    case OpExecuteDirect(_) => s.held == None && s.setSize >= 2 && !s.prepared
    case _ => false
  }

  /**
   * How many parameters are bound for execution: a single set binds all and is done with them once the native client
   * has executed.
   */
  function Executing(s: State, op: Op): nat {
    var binds := s.held == None && s.setSize <= 1;
    match op
    case OpExecute(n) =>
      if !binds || !s.prepared then s.execParams
      else if Reaches(s, true, n) && !n.reply.Throws? then 0 else s.params
    case OpExecuteDirect(n) =>
      if !binds || s.params == 0 then s.execParams
      else if Reaches(s, true, n) && !n.reply.Throws? then 0 else s.params
    case _ => s.execParams
  }

  /** What a call does to the statement besides its result set. */
  lemma Bookkeeping(s: State, op: Op)
    ensures var r := Step(s, op).0;
            && r.prepared == (if MakesPrepared(s, op) != None then MakesPrepared(s, op).value else s.prepared)
            && r.result == (if MakesResult(s, op) != None then MakesResult(s, op).value else s.result)
            && r.setSize == (if op.OpParamsetSize? then op.size else s.setSize)
            && r.params == (if DropsParams(s, op) then 0
                            else if op.OpBind? && op.paramNum > s.params then op.paramNum else s.params)
            && r.execParams == (if DropsParams(s, op) then 0 else Executing(s, op))
            && (op.OpBind? || op.OpResetParams? || op.OpParamsetSize? ==> Step(s, op).1 == Success)
  {
    hide Scrolling, Moved;
  }

  /** The state before call `i` of a history. */
  function Before(ops: seq<Op>, i: nat): State
    requires i <= |ops|
  {
    Run(NEW_STATEMENT, ops[..i])
  }

  /** Over every history a statement is prepared exactly as the last call that decided it left it, and at first not. */
  lemma {:induction false} PreparedByLast(ops: seq<Op>, i: int)
    requires -1 <= i < |ops|
    requires i >= 0 ==> MakesPrepared(Before(ops, i), ops[i]) != None
    requires forall j :: i < j < |ops| ==> MakesPrepared(Before(ops, j), ops[j]) == None
    ensures Run(NEW_STATEMENT, ops).prepared <==> i >= 0 && MakesPrepared(Before(ops, i), ops[i]).value
    decreases |ops|
  {
    hide MakesPrepared, Step, Run;
    if ops == [] {
      NothingRun();
    } else {
      var n := |ops| - 1;
      LastCall(ops);
      Bookkeeping(Before(ops, n), ops[n]);
      if i < n {
        EarlierStates(ops);
        PreparedByLast(ops[..n], i);
      }
    }
  }

  /** The same for whether a native result is set. */
  lemma {:induction false} ResultByLast(ops: seq<Op>, i: int)
    requires -1 <= i < |ops|
    requires i >= 0 ==> MakesResult(Before(ops, i), ops[i]) != None
    requires forall j :: i < j < |ops| ==> MakesResult(Before(ops, j), ops[j]) == None
    ensures Run(NEW_STATEMENT, ops).result <==> i >= 0 && MakesResult(Before(ops, i), ops[i]).value
    decreases |ops|
  {
    hide MakesResult, Step, Run;
    if ops == [] {
      NothingRun();
    } else {
      var n := |ops| - 1;
      LastCall(ops);
      Bookkeeping(Before(ops, n), ops[n]);
      if i < n {
        EarlierStates(ops);
        ResultByLast(ops[..n], i);
      }
    }
  }

  /** The greatest parameter number bound by the calls from `i` on, or 0. */
  predicate GreatestBound(ops: seq<Op>, i: nat, n: nat) {
    && (forall j :: i <= j < |ops| && ops[j].OpBind? ==> ops[j].paramNum <= n)
    && (n > 0 ==> exists j :: i <= j < |ops| && ops[j].OpBind? && ops[j].paramNum == n)
  }

  /** Over every history the bound parameters are those since the last call that dropped them. */
  lemma {:induction false} ParamsSinceDropped(ops: seq<Op>, i: nat)
    requires i <= |ops| && (i > 0 ==> DropsParams(Before(ops, i - 1), ops[i - 1]))
    requires forall j :: i <= j < |ops| ==> !DropsParams(Before(ops, j), ops[j])
    ensures GreatestBound(ops, i, Run(NEW_STATEMENT, ops).params)
    decreases |ops|
  {
    hide DropsParams, Step, Run;
    if ops == [] {
      NothingRun();
    } else {
      var n := |ops| - 1;
      LastCall(ops);
      Bookkeeping(Before(ops, n), ops[n]);
      if i <= n {
        EarlierStates(ops);
        ParamsSinceDropped(ops[..n], i);
        OneMoreBound(ops, i, Before(ops, n).params, Run(NEW_STATEMENT, ops).params);
      }
    }
  }

  lemma OneMoreBound(ops: seq<Op>, i: nat, before: nat, after: nat)
    requires i < |ops| && GreatestBound(ops[..|ops| - 1], i, before)
    requires var op := ops[|ops| - 1]; after == if op.OpBind? && op.paramNum > before then op.paramNum else before
    ensures GreatestBound(ops, i, after)
  {
    var n := |ops| - 1;
    assert forall j :: 0 <= j < n ==> ops[..n][j] == ops[j];
    if after > 0 {
      if after != before {
        assert ops[n].OpBind? && ops[n].paramNum == after;
      } else {
        var j :| i <= j < n && ops[..n][j].OpBind? && ops[..n][j].paramNum == before;
        assert ops[j].OpBind? && ops[j].paramNum == after;
      }
    }
  }

  lemma NothingRun()
    ensures Run(NEW_STATEMENT, []) == State(None, Detached, false, false, 0, 0, 1)
  {
  }

  lemma LastCall(ops: seq<Op>)
    requires ops != []
    ensures var n := |ops| - 1; Run(NEW_STATEMENT, ops) == Step(Before(ops, n), ops[n]).0
  {
    RunSnoc(NEW_STATEMENT, ops, |ops| - 1);
    assert ops[..|ops|] == ops;
  }

  lemma EarlierStates(ops: seq<Op>)
    requires ops != []
    ensures var n := |ops| - 1; Before(ops, n) == Run(NEW_STATEMENT, ops[..n])
    ensures forall j :: 0 <= j < |ops| - 1 ==>
      ops[..|ops| - 1][j] == ops[j] && Before(ops[..|ops| - 1], j) == Before(ops, j)
  {
    hide Run;
    forall j | 0 <= j < |ops| - 1
      ensures Before(ops[..|ops| - 1], j) == Before(ops, j)
    {
      assert ops[..|ops| - 1][..j] == ops[..j];
    }
  }

  /** `k` single-row fetches in a row. */
  function Fetches(k: nat): seq<Op> {
    seq(k, _ => OpFetch(0, Success))
  }

  lemma {:induction false} FetchesMove(s: State, k: nat)
    requires CursorMatches(s) && s.held.Some?
    ensures Run(s, Fetches(k)) == s.(cursor := s.cursor.(at := Min(|s.held.value.rows|, s.cursor.at + k)))
    decreases k
  {
    if k > 0 {
      assert Fetches(k)[1..] == Fetches(k - 1);
      FetchesMove(Step(s, OpFetch(0, Success)).0, k - 1);
    }
  }

  /** The kinds of call that can yield a result set. */
  datatype Source = Executed | ExecutedDirect | CatalogAsked | MoreAsked

  function Produce(s: State, source: Source, n: Native): (State, Code) {
    match source
    case Executed => Execute(s, n)
    case ExecutedDirect => ExecuteDirect(s, n)
    case CatalogAsked => Catalog(s, n.reply)
    case MoreAsked => MoreResults(s, n.reply)
  }

  /** The call gets as far as the native client, which answers with a result set. */
  predicate Produces(s: State, source: Source, n: Native, rs: ResultSet) {
    && (s.held.None? || source == MoreAsked) && n.reply.Gives? && n.reply.rs == Some(rs)
    && match source
       case Executed => s.prepared && s.setSize <= 1 && n.bind in {Success, SuccessWithInfo}
       case ExecutedDirect => s.setSize <= 1 && (s.params > 0 ==> n.bind in {Success, SuccessWithInfo})
       case CatalogAsked => true
       case MoreAsked => s.prepared || s.held.Some?
  }

  /** A call yields a result set exactly when it gets that far; the code is then what comes after it. */
  lemma ProducesIff(s: State, source: Source, n: Native, rs: ResultSet)
    ensures s.held == None ==> (Produce(s, source, n).0.held == Some(rs) <==> Produces(s, source, n, rs))
    ensures Produces(s, source, n, rs) ==>
      Produce(s, source, n).1
      == if source == MoreAsked && !n.reply.open then NoData
         else if n.reply.after == Quiet then Success else if n.reply.after == Warned then SuccessWithInfo else Error
  {
  }

  /** What getData reads after `k` fetches. */
  ghost function ReadAfter(s: State, k: nat): Option<Reading> {
    GetData(Run(s, Fetches(k)))
  }

  /**
   * After any history, a call that yields a result set (prepared or direct execution, a catalog function, or asking for
   * more results, which replaces the one held) and then k fetches, getData reads that result set's row k - 1; it fails
   * before the first fetch and once the rows are used up.
   */
  lemma FetchedRowIsRead(ops: seq<Op>, source: Source, n: Native, rs: ResultSet, k: nat)
    requires Produces(Run(NEW_STATEMENT, ops), source, n, rs)
    ensures ReadAfter(Produce(Run(NEW_STATEMENT, ops), source, n).0, k)
         == if 1 <= k <= |rs.rows| then Some(Reading(rs.rows[k - 1], Some(rs))) else None
  {
    hide Fetches, Run;
    HistoryMatches(NEW_STATEMENT, ops);
    FetchesMove(Produce(Run(NEW_STATEMENT, ops), source, n).0, k);
  }
}
