/**
 * The rowset fetch as the driver runs it: two iterators over one shared cursor, and loops that write the
 * application's buffers in place. Every method is proved against the specification in FetchEngine.
 */
module FetchStatement {
  import opened OdbcTypes
  import opened AppMemory
  import opened RowLayout
  import opened FetchEngine

  /** The native result-set iterator. */
  class ResultSetIterator {
    const rows: seq<Row>
    /** What was done to each row through the cursor. */
    const marks: seq<Mark>
    var at: int

    ghost predicate Valid() reads this {
      -1 <= at <= |rows| == |marks|
    }

    constructor (rows: seq<Row>, marks: seq<Mark>)
      requires |rows| == |marks|
      ensures Valid() && this.rows == rows && this.marks == marks && at == -1
    {
      this.rows, this.marks := rows, marks;
      at := -1;
    }

    method Next() returns (ok: bool)
      requires Valid()
      modifies this
      ensures Valid() && at == Min(old(at) + 1, |rows|) && ok == (at < |rows|)
    {
      if at < |rows| {
        at := at + 1;
      }
      ok := at < |rows|;
    }
  }

  /** A batch iterator over an underlying cursor that it holds by reference. */
  class BatchRowIterator {
    const cursor: ResultSetIterator
    var position: int
    var batchSize: nat

    constructor (cursor: ResultSetIterator, batchSize: nat)
      ensures this.cursor == cursor && this.batchSize == batchSize && position == -1
    {
      this.cursor := cursor;
      this.batchSize := batchSize;
      position := -1;
    }

    method InitNextBatch()
      modifies this`position
      ensures position == 0
    {
      position := 0;
    }

    /** Moves to the next slot; the shared cursor advances only while the batch has room. */
    method Next() returns (ok: bool)
      requires cursor.Valid()
      modifies this`position, cursor
      ensures cursor.Valid() && position == old(position) + 1
      ensures if position < ToInt32(batchSize)
              then cursor.at == Min(old(cursor.at) + 1, |cursor.rows|) && ok == (cursor.at < |cursor.rows|)
              else cursor.at == old(cursor.at) && !ok
    {
      position := position + 1;
      if position < ToInt32(batchSize) {
        ok := cursor.Next();
      } else {
        ok := false;
      }
    }
  }

  class Counter {
    var value: nat
  }

  class Statement {
    const cursor: ResultSetIterator
    const bulkCursor: BatchRowIterator
    const mem: array<Byte>
    const rowStatus: array?<int>
    const fetchedRows: Counter?
    /** Whether a result set is held; the cursor is attached to it. */
    var hasResultSet: bool
    var outputFields: seq<OutputField>
    var layout: Layout

    constructor (cursor: ResultSetIterator, mem: array<Byte>, rowStatus: array?<int>, fetchedRows: Counter?)
      ensures this.cursor == cursor && this.mem == mem && this.rowStatus == rowStatus
      ensures this.fetchedRows == fetchedRows && fresh(bulkCursor)
      ensures bulkCursor.cursor == cursor && bulkCursor.batchSize == 1
      ensures hasResultSet && outputFields == [] && layout == Layout(BIND_BY_COLUMN, 0)
    {
      this.cursor, this.mem, this.rowStatus, this.fetchedRows := cursor, mem, rowStatus, fetchedRows;
      bulkCursor := new BatchRowIterator(cursor, 1);
      hasResultSet := true;
      outputFields := [];
      layout := Layout(BIND_BY_COLUMN, 0);
    }

    ghost function Statuses(): seq<int> reads rowStatus {
      if rowStatus == null then [] else rowStatus[..]
    }

    /** Both iterators stand on one cursor, and the buffers carry a rowset of the size in force. */
    ghost predicate Valid(base: int)
      reads this, cursor, bulkCursor
    {
      && bulkCursor.cursor == cursor && cursor.Valid()
      && bulkCursor.batchSize < TWO_32
      && Wide(cursor.rows, outputFields)
      && (rowStatus != null ==> Slots(bulkCursor.batchSize) <= rowStatus.Length)
      && if bulkCursor.batchSize > 1
         then WellFormed(layout, outputFields, base, Slots(bulkCursor.batchSize), mem.Length)
         else SingleReady()
    }

    /** What a single-row fetch needs: bound values inside the memory, and indicators null or inside it. */
    ghost predicate SingleReady()
      reads this
    {
      forall c :: 0 <= c < |outputFields| && outputFields[c].Bound() ==>
        var f := outputFields[c];
        f.targetValue + Width(f, 0) <= mem.Length && (f.lenOrInd != 0 ==> f.lenOrInd + 8 <= mem.Length)
    }

    ghost function AsState(): State
      reads this, cursor, bulkCursor, mem, rowStatus, fetchedRows
    {
      State(Cursor(cursor.rows, cursor.marks, cursor.at), mem[..], Statuses(),
            if fetchedRows == null then 0 else fetchedRows.value, bulkCursor.batchSize, layout, outputFields)
    }

    /** fillOutput: one column conversion into the computed addresses; an exception is an outcome of its own. */
    method FillOutputInto(f: OutputField, col: Column, a: int, ia: int) returns (outcome: Outcome)
      requires 0 < a && a + Width(f, 0) <= mem.Length && 0 <= ia && (ia != 0 ==> ia + 8 <= mem.Length)
      modifies mem
      ensures (mem[..], outcome) == FillOutput(old(mem[..]), f, col, a, ia)
    {
      var im := ImageOf(f, col);
      outcome := im.outcome;
      ImageFits(f, col);
      if f.ctype == CUnsupported || outcome == Thrown {
        return;
      }
      var word := LittleEndian(im.indicator, 8);
      if f.ctype == CChar && !col.Null? {
        if ia != 0 {
          WriteBytes(mem, ia, word);
        }
        WriteBytes(mem, a, im.data);
      } else {
        WriteBytes(mem, a, im.data);
        if ia != 0 {
          WriteBytes(mem, ia, word);
        }
      }
    }

    /** The column loop of one row, in slot `p`. */
    method FillColumns(row: Row, p: nat, result: Outcome, ghost base: int) returns (outcome: Outcome)
      requires Valid(base) && bulkCursor.batchSize > 1
      requires |outputFields| <= |row| && p < Slots(bulkCursor.batchSize)
      modifies mem
      ensures (mem[..], outcome) == FillRow(old(mem[..]), layout, outputFields, 0, row, p, result)
    {
      hide WellFormed, FillOutput, ImageOf, Addr;
      outcome := result;
      var c := 0;
      ghost var target := FillRow(mem[..], layout, outputFields, 0, row, p, result);
      while c < |outputFields|
        invariant c <= |outputFields|
        invariant FillRow(mem[..], layout, outputFields, c, row, p, outcome) == target
      {
        var f := outputFields[c];
        if f.Bound() {
          SlotInside(layout, outputFields, base, Slots(bulkCursor.batchSize), mem.Length, c, 0, p);
          SlotInside(layout, outputFields, base, Slots(bulkCursor.batchSize), mem.Length, c, 1, p);
          outcome := FillOutputInto(f, row[c], Addr(layout, f, 0, p), Addr(layout, f, 1, p));
          if outcome.Stops() {
            return;
          }
        }
        c := c + 1;
      }
    }

    /** fillOutputFieldsWithArrays: the cursor already stands on the first row of the rowset. */
    method FillOutputFieldsWithArrays(ghost base: int) returns (outcome: Outcome)
      requires Valid(base) && bulkCursor.batchSize > 1 && bulkCursor.position == 0
      requires 0 <= cursor.at < |cursor.rows|
      modifies mem, cursor, bulkCursor`position, rowStatus, fetchedRows
      ensures var r := FillRows(old(mem[..]), old(Statuses()), layout, outputFields, cursor.rows, old(cursor.at), 0,
                                ToInt32(bulkCursor.batchSize), Stored);
              && mem[..] == r.mem && Statuses() == r.statuses && cursor.at == r.at
              && (fetchedRows != null ==>
                    fetchedRows.value == if r.outcome == Thrown then old(fetchedRows.value) else r.fetched)
              && outcome == r.outcome
      ensures Valid(base)
    {
      hide WellFormed, FillRow;
      outcome := Stored;
      var rowsFetched := 0;
      var e := ToInt32(bulkCursor.batchSize);
      ghost var target := FillRows(mem[..], Statuses(), layout, outputFields, cursor.rows, cursor.at, 0, e, Stored);
      while true
        invariant Valid(base) && 0 <= cursor.at < |cursor.rows|
        invariant bulkCursor.position == rowsFetched < Slots(bulkCursor.batchSize)
        invariant FillRows(mem[..], Statuses(), layout, outputFields, cursor.rows, cursor.at, rowsFetched, e, outcome)
               == target
        invariant fetchedRows != null ==> fetchedRows.value == old(fetchedRows.value)
        decreases |cursor.rows| - cursor.at
      {
        var position := bulkCursor.position;
        outcome := FillColumns(cursor.rows[cursor.at], position, outcome, base);
        if outcome.Stops() {
          break;
        }
        rowsFetched := rowsFetched + 1;
        if rowStatus != null {
          rowStatus[position] := SQL_ROW_SUCCESS;
        }
        var more := bulkCursor.Next();
        if !more {
          break;
        }
      }
      if outcome != Thrown && fetchedRows != null {
        fetchedRows.value := rowsFetched;
      }
    }

    /** setRowStatus, for the row the cursor is on. */
    method SetRowStatus(ghost base: int)
      requires Valid(base) && bulkCursor.batchSize <= 1 && 0 <= cursor.at < |cursor.rows|
      modifies rowStatus, fetchedRows
      ensures Valid(base) && mem[..] == old(mem[..])
      ensures Statuses() == SetStatus(old(Statuses()), 0, RowStatus(cursor.marks[cursor.at]))
      ensures fetchedRows != null ==> fetchedRows.value == 1
    {
      if fetchedRows != null {
        fetchedRows.value := 1;
      }
      if rowStatus != null {
        match cursor.marks[cursor.at]
        case Deleted => rowStatus[0] := SQL_ROW_DELETED;
        case Updated => rowStatus[0] := SQL_ROW_UPDATED;
        case Inserted => rowStatus[0] := SQL_ROW_ADDED;
        case Unmarked => rowStatus[0] := SQL_ROW_SUCCESS;
      }
    }

    /** fillOutputFields: the column loop of a single-row fetch, which goes on after an error but not an exception. */
    method FillOutputFields(ghost base: int) returns (outcome: Outcome)
      requires Valid(base) && bulkCursor.batchSize <= 1 && 0 <= cursor.at < |cursor.rows|
      modifies mem
      ensures (mem[..], outcome)
           == FillSingle(old(mem[..]), outputFields, 0, cursor.rows[cursor.at], Stored, Stored)
    {
      hide WellFormed, FillOutput;
      var row := cursor.rows[cursor.at];
      outcome := Stored;
      var last, c := Stored, 0;
      ghost var target := FillSingle(mem[..], outputFields, 0, row, Stored, Stored);
      while c < |outputFields|
        invariant c <= |outputFields| && last != Thrown
        invariant FillSingle(mem[..], outputFields, c, row, outcome, last) == target
      {
        var f := outputFields[c];
        if f.Bound() {
          last := FillOutputInto(f, row[c], f.targetValue, f.lenOrInd);
          if last == Thrown {
            return Thrown;
          }
        }
        if last != Stored {
          outcome := last;
        }
        c := c + 1;
      }
    }

    /** The row or rowset that starts where the cursor stands; an exception is reported as an error. */
    method DeliverRows(ghost base: int) returns (code: Code)
      requires Valid(base) && 0 <= cursor.at < |cursor.rows|
      modifies mem, cursor, bulkCursor`position, rowStatus, fetchedRows
      ensures Valid(base)
      ensures var (s', r) := DeliverCurrent(old(AsState()));
              && code == r && cursor.at == s'.cursor.at && mem[..] == s'.mem && Statuses() == s'.statuses
              && (fetchedRows != null ==> fetchedRows.value == s'.fetched)
    {
      hide WellFormed, FillRows, FillSingle, Slots, ToInt32, Wide;
      var outcome;
      if bulkCursor.batchSize <= 1 {
        SetRowStatus(base);
        outcome := FillOutputFields(base);
      } else {
        bulkCursor.InitNextBatch();
        outcome := FillOutputFieldsWithArrays(base);
      }
      code := outcome.ReturnCode();
    }

    /** SQLFetch; `warning` is what the native result set reports afterwards. Without a result set it fails. */
    method Next(warning: bool, ghost base: int) returns (code: Code)
      requires Valid(base)
      modifies mem, cursor, bulkCursor`position, rowStatus, fetchedRows
      ensures Valid(base)
      ensures !hasResultSet ==> code == Error && AsState() == old(AsState())
      ensures hasResultSet ==> var (s', r) := Fetch(old(AsState()), warning);
              && code == r && cursor.at == s'.cursor.at && mem[..] == s'.mem && Statuses() == s'.statuses
              && (fetchedRows != null ==> fetchedRows.value == s'.fetched)
    {
      hide WellFormed, DeliverCurrent, Slots, ToInt32, Wide;
      if !hasResultSet {
        return Error;
      }
      ghost var s := AsState();
      var ok := cursor.Next();
      if !ok {
        return NoData;
      }
      assert AsState() == s.(cursor := s.cursor.(at := s.cursor.at + 1));
      code := DeliverRows(base);
      if code == Success && warning {
        code := SuccessWithInfo;
      }
    }
  }
}
