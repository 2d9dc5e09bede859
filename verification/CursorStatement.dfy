/**
 * The same calls on a statement object whose fields are updated in place; the cursor is an object of its own, which
 * the statement attaches, moves and clears. A whole history of calls is run against StatementCursor.
 */
module CursorStatement {
  import opened OdbcTypes
  import opened StatementCursor

  class NativeCursor {
    var place: Cursor

    constructor ()
      ensures place == Detached
    {
      place := Detached;
    }

    method Initialize(rs: ResultSet)
      modifies this
      ensures place == OnRows(rs, -1)
    {
      place := OnRows(rs, -1);
    }

    method Clear()
      modifies this
      ensures place == Detached
    {
      place := Detached;
    }

    method Advance(delta: int) returns (onRow: bool)
      modifies this
      ensures place == Moved(old(place), delta) && onRow == OnRow(place)
    {
      place := Moved(place, delta);
      onRow := OnRow(place);
    }

    method BeginAt(rs: ResultSet, k: int) returns (onRow: bool)
      modifies this
      ensures place == Begin(rs, k) && onRow == OnRow(place)
    {
      place := Begin(rs, k);
      onRow := OnRow(place);
    }
  }

  class SnappyStatement {
    var held: Option<ResultSet>
    const cursor: NativeCursor
    var prepared: bool
    var result: bool
    var params: nat
    var execParams: nat
    var setSize: nat

    function Contents(): State
      reads this, cursor
    {
      State(held, cursor.place, prepared, result, params, execParams, setSize)
    }

    constructor ()
      ensures Contents() == NEW_STATEMENT && fresh(cursor)
    {
      cursor := new NativeCursor();
      held, prepared, result, params, execParams, setSize := None, false, false, 0, 0, 1;
    }

    method SetResultSet(rs: Option<ResultSet>)
      modifies this`held, cursor
      ensures Contents() == StatementCursor.SetResultSet(old(Contents()), rs)
    {
      held := rs;
      if rs.Some? {
        cursor.Initialize(rs.value);
      } else {
        cursor.Clear();
      }
    }

    method ExecuteWithArrayOfParams(n: Native) returns (code: Code)
      modifies this
      ensures (Contents(), code) == ExecuteArray(old(Contents()), n)
    {
      if !prepared {
        params, execParams := 0, 0;
        if !n.prepares {
          return Error;
        }
        prepared := true;
      }
      return n.batch;
    }

    method ExecuteDirect(n: Native) returns (code: Code)
      modifies this, cursor
      ensures (Contents(), code) == StatementCursor.ExecuteDirect(old(Contents()), n)
    {
      if held.Some? {
        return Error;
      }
      result := false;
      if setSize > 1 {
        code := ExecuteWithArrayOfParams(n);
        return;
      }
      var numParams := params;
      if numParams > 0 {
        execParams := numParams;
        if !Succeeded(n.bind) {
          return n.bind;
        }
      }
      if n.reply.Throws? {
        return Error;
      }
      result := true;
      if numParams > 0 {
        prepared, execParams := true, 0;
      } else {
        prepared := false;
      }
      if n.reply.ThrowsLate? {
        return Error;
      }
      SetResultSet(n.reply.rs);
      return n.reply.after.ReturnCode();
    }

    method Execute(n: Native) returns (code: Code)
      modifies this, cursor
      ensures (Contents(), code) == StatementCursor.Execute(old(Contents()), n)
    {
      if held.Some? {
        return Error;
      }
      result := false;
      if !prepared {
        return Error;
      }
      if setSize > 1 {
        code := ExecuteWithArrayOfParams(n);
        return;
      }
      execParams := params;
      if !Succeeded(n.bind) {
        return n.bind;
      }
      if n.reply.Throws? {
        return Error;
      }
      result, execParams := true, 0;
      if n.reply.ThrowsLate? {
        return Error;
      }
      SetResultSet(n.reply.rs);
      return n.reply.after.ReturnCode();
    }

    method Catalog(reply: Reply) returns (code: Code)
      modifies this, cursor
      ensures (Contents(), code) == StatementCursor.Catalog(old(Contents()), reply)
    {
      if held.Some? {
        return Error;
      }
      params, execParams := 0, 0;
      if !reply.Gives? {
        return Error;
      }
      SetResultSet(reply.rs);
      prepared := false;
      return reply.after.ReturnCode();
    }

    method GetMoreResults(reply: Reply) returns (code: Code)
      modifies this, cursor
      ensures (Contents(), code) == MoreResults(old(Contents()), reply)
    {
      if !prepared && held.None? {
        return NoData;
      }
      if !reply.Gives? {
        return Error;
      }
      SetResultSet(reply.rs);
      return if held.Some? && reply.open then reply.after.ReturnCode() else NoData;
    }

    method CloseResultSet(ifPresent: bool, throws: bool) returns (code: Code)
      modifies this, cursor
      ensures (Contents(), code) == StatementCursor.CloseResultSet(old(Contents()), ifPresent, throws)
    {
      if held.Some? {
        if throws {
          return Error;
        }
        held := None;
        cursor.Clear();
      } else if !ifPresent {
        return Error;
      }
      return Success;
    }

    /** The rows from where the cursor stands are converted, which moves it `more` rows on. */
    method Deliver(onRow: bool, more: nat, converted: Code) returns (code: Code)
      requires onRow == OnRow(cursor.place)
      modifies cursor
      ensures (Contents(), code) == Scrolled(old(Contents()), old(cursor.place), more, converted)
    {
      if !onRow {
        return NoData;
      }
      var _ := cursor.Advance(more);
      return converted;
    }

    method Next(more: nat, converted: Code) returns (code: Code)
      modifies cursor
      ensures (Contents(), code) == Fetch(old(Contents()), more, converted)
    {
      if held.None? {
        return Error;
      }
      var onRow := cursor.Advance(1);
      code := Deliver(onRow, more, converted);
    }

    method FetchScroll(where: Scroll, more: nat, converted: Code) returns (code: Code)
      modifies cursor
      ensures (Contents(), code) == StatementCursor.FetchScroll(old(Contents()), where, more, converted)
    {
      if held.None? {
        return Error;
      }
      var onRow;
      match where {
        case ScrollNext => onRow := cursor.Advance(1);
        case ScrollPrior => onRow := cursor.Advance(-1);
        case ScrollRelative(delta) => onRow := cursor.Advance(Clamp32(delta));
        case ScrollAbsolute(row) =>
          var k := Clamp32(row);
          onRow := cursor.BeginAt(held.value, if k > 0 then k - 1 else k);
          if k == 0 {
            onRow := cursor.Advance(-1);
          }
        case ScrollFirst => onRow := cursor.BeginAt(held.value, 0);
        case ScrollLast => onRow := cursor.BeginAt(held.value, -1);
        case ScrollBookmark => return Error;
      }
      code := Deliver(onRow, more, converted);
    }

    method GetData() returns (reading: Option<Reading>)
      ensures reading == StatementCursor.GetData(Contents())
    {
      if OnRow(cursor.place) {
        return Some(Reading(cursor.place.rs.rows[cursor.place.at], held));
      }
      return None;
    }

    method PrepareStatement(prepares: bool, after: After) returns (code: Code)
      modifies this
      ensures (Contents(), code) == Prepare(old(Contents()), prepares, after)
    {
      params, execParams := 0, 0;
      if !prepares {
        return Error;
      }
      prepared := true;
      return after.ReturnCode();
    }

    method FreeWithClose(throws: bool) returns (code: Code)
      modifies this, cursor
      ensures (Contents(), code) == FreeClose(old(Contents()), throws)
    {
      code := CloseResultSet(true, throws);
      result := false;
    }

    /** One call of the application. */
    method Call(op: Op) returns (code: Code)
      modifies this, cursor
      ensures (Contents(), code) == Step(old(Contents()), op)
    {
      hide StatementCursor.ExecuteDirect, StatementCursor.Execute, StatementCursor.Catalog, MoreResults, Prepare;
      hide StatementCursor.CloseResultSet, FreeClose, Fetch, StatementCursor.FetchScroll;
      match op
      case OpBind(paramNum) =>
        params := Max(params, paramNum);
        code := Success;
      case OpResetParams =>
        params, execParams := 0, 0;
        code := Success;
      case OpParamsetSize(size) =>
        setSize := size;
        code := Success;
      case OpPrepare(prepares, after) => code := PrepareStatement(prepares, after);
      case OpExecuteDirect(n) => code := ExecuteDirect(n);
      case OpExecute(n) => code := Execute(n);
      case OpCatalog(reply) => code := Catalog(reply);
      case OpMoreResults(reply) => code := GetMoreResults(reply);
      case OpClose(ifPresent, throws) => code := CloseResultSet(ifPresent, throws);
      case OpFreeClose(throws) => code := FreeWithClose(throws);
      case OpFetch(more, converted) => code := Next(more, converted);
      case OpScroll(where, more, converted) => code := FetchScroll(where, more, converted);
    }

    /**
     * Any history of calls, with SQLGetData after each: the cursor object stays attached exactly while a result set is
     * held, and every row that getData hands out is one of the result set held at that moment.
     */
    method History(ops: seq<Op>) returns (readings: seq<Option<Reading>>)
      requires CursorMatches(Contents())
      modifies this, cursor
      ensures Contents() == Run(old(Contents()), ops) && CursorMatches(Contents())
      ensures |readings| == |ops|
      ensures forall i :: 0 <= i < |ops| ==> readings[i] == StatementCursor.GetData(Run(old(Contents()), ops[..i + 1]))
      ensures forall i :: 0 <= i < |ops| && readings[i].Some? ==>
                var held := readings[i].value.warningsOf;
                held.Some? && readings[i].value.row in held.value.rows
    {
      hide Step, CursorMatches, StatementCursor.GetData;
      readings := [];
      var i := 0;
      assert ops[..0] == [];
      while i < |ops|
        invariant 0 <= i <= |ops| == |ops| && |readings| == i
        invariant Contents() == Run(old(Contents()), ops[..i]) && CursorMatches(Contents())
        invariant forall j :: 0 <= j < i ==> readings[j] == StatementCursor.GetData(Run(old(Contents()), ops[..j + 1]))
        invariant forall j :: 0 <= j < i && readings[j].Some? ==>
                    var held := readings[j].value.warningsOf;
                    held.Some? && readings[j].value.row in held.value.rows
      {
        StepMatches(Contents(), ops[i]);
        RunSnoc(old(Contents()), ops, i);
        var _ := Call(ops[i]);
        ReadingIsHeld(Contents());
        var reading := GetData();
        readings := readings + [reading];
        i := i + 1;
      }
      assert ops[..|ops|] == ops;
    }
  }
}
