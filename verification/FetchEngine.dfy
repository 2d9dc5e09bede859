/**
 * The rowset fetch of a statement: the native cursor, the batch iterator that shares it by reference, and
 * the loops that fill the application's buffers.
 */
module FetchEngine {
  import opened OdbcTypes
  import opened RowLayout

  const SQL_ROW_SUCCESS: int := 0
  const SQL_ROW_DELETED: int := 1
  const SQL_ROW_UPDATED: int := 2
  const SQL_ROW_ADDED: int := 4

  /** What was done to a row through the cursor. */
  datatype Mark = Unmarked | Deleted | Updated | Inserted

  // ----- the specification of one fetch -----

  /** What one array fetch leaves behind. */
  datatype Rowset = Rowset(mem: seq<Byte>, statuses: seq<int>, at: int, fetched: nat, outcome: Outcome)

  function SetStatus(st: seq<int>, p: nat, status: int): (r: seq<int>)
    ensures |r| == |st|
  {
    if p < |st| then st[p := status] else st
  }

  /** setRowStatus: the status of the row a single-row fetch stands on. */
  function RowStatus(mark: Mark): int {
    match mark
    case Deleted => SQL_ROW_DELETED
    case Updated => SQL_ROW_UPDATED
    case Inserted => SQL_ROW_ADDED
    case Unmarked => SQL_ROW_SUCCESS
  }

  predicate Wide(rows: seq<Row>, fields: seq<OutputField>) {
    forall i :: 0 <= i < |rows| ==> |fields| <= |rows[i]|
  }

  /** The rows from row `at` on into the slots from `p` on, for a batch of `e` slots. */
  function FillRows(m: seq<Byte>, st: seq<int>, l: Layout, fields: seq<OutputField>, rows: seq<Row>,
                    at: nat, p: nat, e: int, result: Outcome): (r: Rowset)
    requires at < |rows| && Wide(rows, fields)
    ensures |r.mem| == |m| && |r.statuses| == |st|
    decreases |rows| - at
  {
    var (m1, r1) := FillRow(m, l, fields, 0, rows[at], p, result);
    if r1.Stops() then Rowset(m1, st, at, p, r1)
    else
      var st1 := SetStatus(st, p, SQL_ROW_SUCCESS);
      if p + 1 >= e then Rowset(m1, st1, at, p + 1, r1)
      else if at + 1 >= |rows| then Rowset(m1, st1, |rows|, p + 1, r1)
      else FillRows(m1, st1, l, fields, rows, at + 1, p + 1, e, r1)
  }

  /** The signed comparison `position < (int32_t) batchSize` caps a rowset; it always has a first slot. */
  function Slots(batchSize: nat): (r: nat)
    ensures 1 <= r < TWO_31
  {
    Max(1, ToInt32(batchSize))
  }

  /**
   * The single-row conversion of the columns from `c` on: only an exception stops it, and outcomes other than success
   * stick.
   */
  function FillSingle(m: seq<Byte>, fields: seq<OutputField>, c: nat, row: Row, result: Outcome, last: Outcome)
      : (r: (seq<Byte>, Outcome))
    requires c <= |fields| <= |row|
    ensures |r.0| == |m|
    decreases |fields| - c
  {
    if c == |fields| then (m, result)
    else
      var f := fields[c];
      var (m1, last1) := if f.Bound() then FillOutput(m, f, row[c], f.targetValue, f.lenOrInd) else (m, last);
      if last1 == Thrown then (m1, Thrown)
      else FillSingle(m1, fields, c + 1, row, if last1 != Stored then last1 else result, last1)
  }

  /** Everything a fetch reads or changes, as a value. */
  datatype Cursor = Cursor(rows: seq<Row>, marks: seq<Mark>, at: int)
  datatype State = State(cursor: Cursor, mem: seq<Byte>, statuses: seq<int>, fetched: nat, batchSize: nat,
                         layout: Layout, fields: seq<OutputField>)

  ghost predicate ValidState(s: State) {
    && -1 <= s.cursor.at <= |s.cursor.rows| == |s.cursor.marks|
    && s.batchSize < TWO_32
    && Wide(s.cursor.rows, s.fields)
  }

  /** The conversions of a fetch whose cursor has just moved onto a row; an exception leaves the old row count. */
  function DeliverCurrent(s: State): (State, Code)
    requires ValidState(s) && 0 <= s.cursor.at < |s.cursor.rows|
  {
    if s.batchSize <= 1 then
      var (m1, r1) := FillSingle(s.mem, s.fields, 0, s.cursor.rows[s.cursor.at], Stored, Stored);
      (s.(mem := m1, statuses := SetStatus(s.statuses, 0, RowStatus(s.cursor.marks[s.cursor.at])), fetched := 1),
       r1.ReturnCode())
    else
      var r := FillRows(s.mem, s.statuses, s.layout, s.fields, s.cursor.rows, s.cursor.at, 0,
                        ToInt32(s.batchSize), Stored);
      (s.(cursor := s.cursor.(at := r.at), mem := r.mem, statuses := r.statuses,
          fetched := if r.outcome == Thrown then s.fetched else r.fetched),
       r.outcome.ReturnCode())
  }

  /** The specification of SQLFetch; `warning` says whether the native result set reports warnings. */
  function Fetch(s: State, warning: bool): (State, Code)
    requires ValidState(s)
  {
    var n := |s.cursor.rows|;
    if s.cursor.at + 1 >= n then (s.(cursor := s.cursor.(at := n)), NoData)
    else
      var (s', code) := DeliverCurrent(s.(cursor := s.cursor.(at := s.cursor.at + 1)));
      (s', if code == Success && warning then SuccessWithInfo else code)
  }

  // ----- what an array fetch delivers -----

  /** Rows `at .. at + k - 1` are in the slots `p .. p + k - 1`, in order. */
  ghost predicate HoldsRows(m: seq<Byte>, l: Layout, fields: seq<OutputField>, p: nat, rows: seq<Row>, at: nat, k: nat)
    requires Wide(rows, fields) && at + k <= |rows|
  {
    forall i :: at <= i < at + k ==> HoldsRow(m, l, fields, p + i - at, rows[i])
  }

  /** `x` is a byte of one of the slots `p .. p + k - 1`. */
  ghost predicate TouchedIn(l: Layout, fields: seq<OutputField>, p: nat, k: nat, x: int) {
    exists j :: p <= j < p + k && Touched(l, fields, 0, j, x)
  }

  /** How many of the `n` rows from row `at` on convert before the first that does not. */
  function Converting(fields: seq<OutputField>, rows: seq<Row>, at: nat, n: nat): (k: nat)
    requires at + n <= |rows|
    ensures k <= n
    ensures forall i :: at <= i < at + k ==> RowConverts(fields, 0, rows[i])
    ensures k < n ==> !RowConverts(fields, 0, rows[at + k])
    decreases n
  {
    if n == 0 || !RowConverts(fields, 0, rows[at]) then 0 else 1 + Converting(fields, rows, at + 1, n - 1)
  }

  /** How many rows a loop over the slots `p .. e - 1` meets at most. */
  function Ahead(rows: seq<Row>, at: nat, p: nat, e: nat): (n: nat)
    requires at < |rows| && p < e
    ensures 1 <= n && at + n <= |rows| && n <= e - p
  {
    Min(e - p, |rows| - at)
  }

  /** How many of them it meets convert before the first that does not. */
  function Met(fields: seq<OutputField>, rows: seq<Row>, at: nat, p: nat, e: nat): (k: nat)
    requires at < |rows| && p < e
    ensures k <= Ahead(rows, at, p, e)
  {
    Converting(fields, rows, at, Ahead(rows, at, p, e))
  }

  lemma MetStep(fields: seq<OutputField>, rows: seq<Row>, at: nat, p: nat, e: nat)
    requires at < |rows| && p < e
    ensures !RowConverts(fields, 0, rows[at]) ==> Met(fields, rows, at, p, e) == 0
    ensures RowConverts(fields, 0, rows[at]) && p + 1 < e && at + 1 < |rows| ==>
      Met(fields, rows, at, p, e) == 1 + Met(fields, rows, at + 1, p + 1, e)
    ensures RowConverts(fields, 0, rows[at]) && !(p + 1 < e && at + 1 < |rows|) ==> Met(fields, rows, at, p, e) == 1
    ensures Ahead(rows, at, p, e)
         == if p + 1 < e && at + 1 < |rows| then 1 + Ahead(rows, at + 1, p + 1, e) else 1
  {
    hide RowConverts;
  }

  /**
   * The loop over the rows stops at the end of the batch or of the result, or at the first row that does not convert;
   * it counts and marks what it filled before.
   */
  lemma {:induction false} FillRowsCounts(m: seq<Byte>, st: seq<int>, l: Layout, fields: seq<OutputField>,
                                          rows: seq<Row>, at: nat, p: nat, e: nat, result: Outcome)
    requires at < |rows| && Wide(rows, fields) && p < e && !result.Stops()
    ensures var r, n := FillRows(m, st, l, fields, rows, at, p, e, result), Ahead(rows, at, p, e);
            var k := Met(fields, rows, at, p, e);
            && (r.outcome.Stops() <==> k < n) && r.fetched == p + k
            && (forall d :: k < n && FirstStop(fields, 0, rows[at + k], d) ==>
                  r.outcome == OutcomeOf(fields[d], rows[at + k][d]))
            && r.at == (if k < n then at + k else if at + (e - p) <= |rows| then at + n - 1 else |rows|)
            && (forall j :: 0 <= j < |st| ==> r.statuses[j] == if p <= j < p + k then SQL_ROW_SUCCESS else st[j])
    decreases |rows| - at
  {
    hide FillRow, RowConverts, ImageOf, OutcomeOf, Met, Ahead, FirstStop;
    var (m1, r1) := FillRow(m, l, fields, 0, rows[at], p, result);
    MetStep(fields, rows, at, p, e);
    FillRowStopsIff(m, l, fields, 0, rows[at], p, result);
    if !r1.Stops() && p + 1 < e && at + 1 < |rows| {
      FillRowsCounts(m1, SetStatus(st, p, SQL_ROW_SUCCESS), l, fields, rows, at + 1, p + 1, e, r1);
    }
  }

  /** Only bytes of the filled slots change, and of the slot whose row did not convert. */
  lemma {:induction false} FillRowsFrame(m: seq<Byte>, st: seq<int>, l: Layout, fields: seq<OutputField>,
                                         rows: seq<Row>, at: nat, p: nat, e: nat, result: Outcome, base: int)
    requires at < |rows| && Wide(rows, fields) && p < e && !result.Stops()
    requires WellFormed(l, fields, base, e, |m|)
    ensures var m', n := FillRows(m, st, l, fields, rows, at, p, e, result).mem, Ahead(rows, at, p, e);
            forall x :: 0 <= x < |m| && m'[x] != m[x] ==>
              TouchedIn(l, fields, p, Min(Met(fields, rows, at, p, e) + 1, n), x)
    decreases |rows| - at
  {
    hide WellFormed, TouchedIn, FillRow, RowConverts, Met, Ahead, Touched;
    var (m1, r1) := FillRow(m, l, fields, 0, rows[at], p, result);
    MetStep(fields, rows, at, p, e);
    FillRowHoldsRow(m, l, fields, base, e, rows[at], p, result);
    var n := Ahead(rows, at, p, e);
    var m' := FillRows(m, st, l, fields, rows, at, p, e, result).mem;
    if !r1.Stops() && p + 1 < e && at + 1 < |rows| {
      FillRowsFrame(m1, SetStatus(st, p, SQL_ROW_SUCCESS), l, fields, rows, at + 1, p + 1, e, r1, base);
    } else {
      assert m' == m1;
    }
    TouchedByEither(m, m1, m', l, fields, p, Min(Met(fields, rows, at, p, e) + 1, n));
  }

  /** Every filled slot still holds its own row at the end. */
  lemma {:induction false} FillRowsDelivers(m: seq<Byte>, st: seq<int>, l: Layout, fields: seq<OutputField>,
                                            rows: seq<Row>, at: nat, p: nat, e: nat, result: Outcome, base: int)
    requires at < |rows| && Wide(rows, fields) && p < e && !result.Stops()
    requires WellFormed(l, fields, base, e, |m|)
    ensures HoldsRows(FillRows(m, st, l, fields, rows, at, p, e, result).mem, l, fields, p, rows, at,
                      Met(fields, rows, at, p, e))
    decreases |rows| - at
  {
    hide WellFormed, HoldsRow, FillRow, RowConverts, Met, Ahead;
    var (m1, r1) := FillRow(m, l, fields, 0, rows[at], p, result);
    MetStep(fields, rows, at, p, e);
    FillRowHoldsRow(m, l, fields, base, e, rows[at], p, result);
    var n := Ahead(rows, at, p, e);
    var m' := FillRows(m, st, l, fields, rows, at, p, e, result).mem;
    if !r1.Stops() {
      var k := Met(fields, rows, at, p, e);
      if p + 1 < e && at + 1 < |rows| {
        var st1 := SetStatus(st, p, SQL_ROW_SUCCESS);
        assert m' == FillRows(m1, st1, l, fields, rows, at + 1, p + 1, e, r1).mem;
        FillRowsFrame(m1, st1, l, fields, rows, at + 1, p + 1, e, r1, base);
        FirstRowSurvives(m1, m', l, fields, base, e, rows[at], p, Min(k, n - 1) + 1);
        FillRowsDelivers(m1, st1, l, fields, rows, at + 1, p + 1, e, r1, base);
      } else {
        assert k == 1 && m' == m1;
      }
      RowsExtend(m', l, fields, p, rows, at, k);
    }
  }

  lemma RowsExtend(m: seq<Byte>, l: Layout, fields: seq<OutputField>, p: nat, rows: seq<Row>, at: nat, k: nat)
    requires Wide(rows, fields) && 1 <= k && at + k <= |rows|
    requires HoldsRow(m, l, fields, p, rows[at]) && HoldsRows(m, l, fields, p + 1, rows, at + 1, k - 1)
    ensures HoldsRows(m, l, fields, p, rows, at, k)
  {
    hide HoldsRow;
    forall i | at <= i < at + k
      ensures HoldsRow(m, l, fields, p + i - at, rows[i])
    {
      if i > at {
        assert HoldsRow(m, l, fields, p + 1 + i - (at + 1), rows[i]);
      }
    }
  }

  lemma TouchedByEither(m: seq<Byte>, m1: seq<Byte>, m2: seq<Byte>, l: Layout, fields: seq<OutputField>,
                        p: nat, k: nat)
    requires |m| == |m1| == |m2| && k >= 1
    requires forall x :: 0 <= x < |m| && m1[x] != m[x] ==> Touched(l, fields, 0, p, x)
    requires forall x :: 0 <= x < |m| && m2[x] != m1[x] ==> TouchedIn(l, fields, p + 1, k - 1, x)
    ensures forall x :: 0 <= x < |m| && m2[x] != m[x] ==> TouchedIn(l, fields, p, k, x)
  {
    forall x | 0 <= x < |m| && m2[x] != m[x]
      ensures TouchedIn(l, fields, p, k, x)
    {
      if m2[x] != m1[x] {
        var j :| p + 1 <= j < p + k && Touched(l, fields, 0, j, x);
      }
    }
  }

  lemma FirstRowSurvives(m1: seq<Byte>, m2: seq<Byte>, l: Layout, fields: seq<OutputField>, base: int, e: nat,
                         row: Row, p: nat, k: nat)
    requires |m1| == |m2| && |fields| <= |row| && p + k <= e && k >= 1
    requires WellFormed(l, fields, base, e, |m1|) && HoldsRow(m1, l, fields, p, row)
    requires forall x :: 0 <= x < |m1| && m2[x] != m1[x] ==> TouchedIn(l, fields, p + 1, k - 1, x)
    ensures HoldsRow(m2, l, fields, p, row)
  {
    forall c | 0 <= c < |fields| && fields[c].Bound()
      ensures Holds(m2, l, fields[c], p, row[c])
    {
      var f := fields[c];
      forall q: Part, x | 0 <= x < |m1| && Addr(l, f, q, p) <= x < Addr(l, f, q, p) + Width(f, q)
        ensures m2[x] == m1[x]
      {
        if m2[x] != m1[x] {
          var j :| p + 1 <= j < p + k && Touched(l, fields, 0, j, x);
          SlotUntouched(l, fields, base, e, |m1|, c, q, p, 0, j, x);
        }
      }
      HoldsFrame(m1, m2, l, f, p, row[c]);
    }
  }

  // ----- the single-row path stores the same cells -----

  /** A single-row fetch ignores the bind offset: it stores what slot 0 of an array fetch without one stores. */
  lemma {:induction false} SingleRowMemory(m: seq<Byte>, l: Layout, fields: seq<OutputField>, c: nat, row: Row,
                                           r1: Outcome, r2: Outcome, last: Outcome)
    requires c <= |fields| <= |row| && RowConverts(fields, c, row) && last != Thrown
    ensures FillSingle(m, fields, c, row, r1, last).0 == FillRow(m, l.(offset := 0), fields, c, row, 0, r2).0
    decreases |fields| - c
  {
    hide FillOutput, ImageOf, OutcomeOf;
    if c < |fields| {
      var f := fields[c];
      assert !Stopping(f, row[c]);
      assert Addr(l.(offset := 0), f, 0, 0) == f.targetValue && Addr(l.(offset := 0), f, 1, 0) == f.lenOrInd;
      var (m1, last1) := if f.Bound() then FillOutput(m, f, row[c], f.targetValue, f.lenOrInd) else (m, last);
      SingleRowMemory(m1, l, fields, c + 1, row, if last1 != Stored then last1 else r1,
                      if f.Bound() then last1 else r2, last1);
    }
  }

  /** The bytes a single-row fetch may write are those of slot 0 exactly when there is no bind offset. */
  lemma SingleRowSlotIff(l: Layout, fields: seq<OutputField>)
    requires exists c :: 0 <= c < |fields| && fields[c].Bound()
    ensures (forall x :: Touched(l.(offset := 0), fields, 0, 0, x) <==> Touched(l, fields, 0, 0, x))
       <==> l.offset == 0
  {
    var c :| 0 <= c < |fields| && fields[c].Bound();
    var low := Lowest(fields, 0);
    LowestTouched(l, fields, low.value);
    if l.offset > 0 {
      assert !Touched(l, fields, 0, 0, low.value);
    } else {
      assert l.(offset := 0) == l;
    }
  }

  /** The lowest address bound from column `c` on. */
  function Lowest(fields: seq<OutputField>, c: nat): (r: Option<int>)
    requires c <= |fields|
    ensures r.Some? <==> exists k :: c <= k < |fields| && fields[k].Bound()
    ensures r.Some? ==> exists k: int, q: Part ::
              c <= k < |fields| && fields[k].Bound() && Width(fields[k], q) > 0 && Start(fields[k], q) == r.value
    ensures forall k: int, q: Part :: c <= k < |fields| && fields[k].Bound() && Width(fields[k], q) > 0 ==>
              r.Some? && r.value <= Start(fields[k], q)
    decreases |fields| - c
  {
    if c == |fields| then None
    else
      var rest := Lowest(fields, c + 1);
      if !fields[c].Bound() then rest
      else
        var own := if Width(fields[c], 0) > 0 then Min(Start(fields[c], 0), Start(fields[c], 1))
                   else Start(fields[c], 1);
        assert own == Start(fields[c], if Width(fields[c], 0) > 0 && own == Start(fields[c], 0) then 0 else 1);
        Some(if rest.Some? then Min(own, rest.value) else own)
  }

  lemma LowestTouched(l: Layout, fields: seq<OutputField>, low: int)
    requires Lowest(fields, 0) == Some(low)
    ensures Touched(l.(offset := 0), fields, 0, 0, low)
    ensures forall x :: Touched(l, fields, 0, 0, x) ==> x >= low + l.offset
  {
    hide Lowest, Touched;
    var k: int, q: Part :|
      0 <= k < |fields| && fields[k].Bound() && Width(fields[k], q) > 0 && Start(fields[k], q) == low;
    TouchedAt(l.(offset := 0), fields, 0, k, q);
    assert Addr(l.(offset := 0), fields[k], q, 0) == low;
    forall x | Touched(l, fields, 0, 0, x)
      ensures x >= low + l.offset
    {
      TouchedAbove(l, fields, 0, x, low);
    }
  }

  lemma {:induction false} TouchedAt(l: Layout, fields: seq<OutputField>, c: nat, k: nat, q: Part)
    requires c <= k < |fields| && fields[k].Bound() && Width(fields[k], q) > 0
    ensures Touched(l, fields, c, 0, Addr(l, fields[k], q, 0))
    decreases |fields| - c
  {
    if c < k {
      TouchedAt(l, fields, c + 1, k, q);
    }
  }

  lemma {:induction false} TouchedAbove(l: Layout, fields: seq<OutputField>, c: nat, x: int, low: int)
    requires c <= |fields| && Touched(l, fields, c, 0, x)
    requires forall k: int, q: Part :: c <= k < |fields| && fields[k].Bound() && Width(fields[k], q) > 0 ==>
               low <= Start(fields[k], q)
    ensures x >= low + l.offset
    decreases |fields| - c
  {
    if Touched(l, fields, c + 1, 0, x) {
      TouchedAbove(l, fields, c + 1, x, low);
    } else {
      var q: Part :| Addr(l, fields[c], q, 0) <= x < Addr(l, fields[c], q, 0) + Width(fields[c], q);
      assert low <= Start(fields[c], q);
    }
  }

  // ----- whole runs -----

  /** The state before call `k` of a run of fetches. */
  ghost function Run(s: State, warning: bool, k: nat): (r: State)
    requires ValidState(s)
    ensures ValidState(r)
    ensures r == s.(cursor := s.cursor.(at := r.cursor.at), mem := r.mem, statuses := r.statuses, fetched := r.fetched)
    ensures |r.mem| == |s.mem| && |r.statuses| == |s.statuses|
    decreases k
  {
    if k == 0 then s
    else
      var s1 := Run(s, warning, k - 1);
      FetchKeepsValid(s1, warning);
      Fetch(s1, warning).0
  }

  lemma {:induction false} FillRowsBounds(m: seq<Byte>, st: seq<int>, l: Layout, fields: seq<OutputField>,
                                          rows: seq<Row>, at: nat, p: nat, e: int, result: Outcome)
    requires at < |rows| && Wide(rows, fields)
    ensures at <= FillRows(m, st, l, fields, rows, at, p, e, result).at <= |rows|
    decreases |rows| - at
  {
    var (m1, r1) := FillRow(m, l, fields, 0, rows[at], p, result);
    if !r1.Stops() && p + 1 < e && at + 1 < |rows| {
      FillRowsBounds(m1, SetStatus(st, p, SQL_ROW_SUCCESS), l, fields, rows, at + 1, p + 1, e, r1);
    }
  }

  /** A fetch changes only the cursor position, the buffers, the statuses and the fetched count. */
  lemma FetchKeepsValid(s: State, warning: bool)
    requires ValidState(s)
    ensures var r := Fetch(s, warning).0;
            && ValidState(r)
            && r == s.(cursor := s.cursor.(at := r.cursor.at), mem := r.mem, statuses := r.statuses,
                       fetched := r.fetched)
            && |r.mem| == |s.mem| && |r.statuses| == |s.statuses|
  {
    hide FillRows, FillSingle;
    if s.cursor.at + 1 < |s.cursor.rows| && s.batchSize > 1 {
      FillRowsBounds(s.mem, s.statuses, s.layout, s.fields, s.cursor.rows, s.cursor.at + 1, 0,
                     ToInt32(s.batchSize), Stored);
    }
  }

  lemma FetchAtEnd(s: State, warning: bool)
    requires ValidState(s) && s.cursor.at + 1 >= |s.cursor.rows|
    ensures Fetch(s, warning) == (s.(cursor := s.cursor.(at := |s.cursor.rows|)), NoData)
  {
  }

  /** Where the application looks for its rows: a single-row fetch ignores the bind offset. */
  function ReadLayout(s: State): Layout {
    if s.batchSize <= 1 then s.layout.(offset := 0) else s.layout
  }

  /** The bound buffers are well formed for the rowset size in force. */
  ghost predicate Prepared(s: State, base: int) {
    ValidState(s) && WellFormed(ReadLayout(s), s.fields, base, Slots(s.batchSize), |s.mem|)
  }

  predicate AllConvert(fields: seq<OutputField>, rows: seq<Row>) {
    forall i :: 0 <= i < |rows| ==> RowConverts(fields, 0, rows[i])
  }

  /** Moreover every cell of the result set converts to its bound type. */
  ghost predicate Ready(s: State, base: int) {
    Prepared(s, base) && AllConvert(s.fields, s.cursor.rows)
  }

  lemma FillRowsCap(m: seq<Byte>, st: seq<int>, l: Layout, fields: seq<OutputField>, rows: seq<Row>,
                    at: nat, e: int, result: Outcome)
    requires at < |rows| && Wide(rows, fields)
    ensures FillRows(m, st, l, fields, rows, at, 0, e, result)
         == FillRows(m, st, l, fields, rows, at, 0, Max(1, e), result)
  {
  }

  /** The status a fetched row gets; only a single-row fetch looks at what was done to the row. */
  function StatusOf(s: State, i: nat): int
    requires i < |s.cursor.marks|
  {
    if s.batchSize > 1 || s.cursor.marks[i] == Unmarked then 0
    else if s.cursor.marks[i] == Deleted then 1
    else if s.cursor.marks[i] == Updated then 2
    else 4
  }

  /**
   * What a fetch with a row left has done: the next rows, in order, fill slots 0.. of every bound column, nothing
   * else in memory changes, and count, statuses and cursor say so.
   */
  ghost predicate Filled(s: State, s': State, code: Code)
    requires ValidState(s) && s.cursor.at + 1 < |s.cursor.rows|
  {
    var rows, first, e, l := s.cursor.rows, s.cursor.at + 1, Slots(s.batchSize), ReadLayout(s);
    var k := Min(e, |rows| - first);
    && code != NoData && code != Error && s'.fetched == k
    && |s'.statuses| == |s.statuses| && |s'.mem| == |s.mem|
    && s'.cursor == s.cursor.(at := if first + e <= |rows| then s.cursor.at + e else |rows|)
    && (forall j :: 0 <= j < |s.statuses| ==>
          s'.statuses[j] == if j < k then StatusOf(s, first + j) else s.statuses[j])
    && (forall x :: 0 <= x < |s.mem| && s'.mem[x] != s.mem[x] ==> TouchedIn(l, s.fields, 0, k, x))
    && HoldsRows(s'.mem, l, s.fields, 0, rows, first, k)
  }

  lemma RowsetDelivered(s: State, warning: bool, base: int)
    requires Ready(s, base) && s.cursor.at + 1 < |s.cursor.rows|
    ensures Filled(s, Fetch(s, warning).0, Fetch(s, warning).1)
  {
    hide HoldsRows, WellFormed, FillRows, FillSingle, TouchedIn, Filled, Slots, AllConvert;
    if s.batchSize > 1 {
      ArrayFilled(s, warning, base);
    } else {
      SingleFilled(s, warning, base);
    }
  }

  /**
   * What a rowset fetch with a row left has done when some cells may not convert: the rows before the first one that
   * does not are in their slots, counted and marked, and the cursor stays on that row. An error sets the row count, an
   * exception does not.
   */
  ghost predicate FilledUpTo(s: State, s': State, code: Code)
    requires ValidState(s) && s.cursor.at + 1 < |s.cursor.rows|
  {
    var rows, first, e, l := s.cursor.rows, s.cursor.at + 1, Slots(s.batchSize), ReadLayout(s);
    var n := Ahead(rows, first, 0, e);
    var k := Met(s.fields, rows, first, 0, e);
    && code != NoData && (code == Error <==> k < n)
    && |s'.statuses| == |s.statuses| && |s'.mem| == |s.mem|
    && (k == n ==> s'.fetched == k)
    && (forall d :: k < n && FirstStop(s.fields, 0, rows[first + k], d) ==>
          s'.fetched == if OutcomeOf(s.fields[d], rows[first + k][d]) == Thrown then s.fetched else k)
    && s'.cursor == s.cursor.(at := if k < n then first + k
                                    else if first + e <= |rows| then s.cursor.at + e
                                    else |rows|)
    && (forall j :: 0 <= j < |s.statuses| ==> s'.statuses[j] == if j < k then 0 else s.statuses[j])
    && (forall x :: 0 <= x < |s.mem| && s'.mem[x] != s.mem[x] ==> TouchedIn(l, s.fields, 0, Min(k + 1, n), x))
    && HoldsRows(s'.mem, l, s.fields, 0, rows, first, k)
  }

  /** A rowset fetch with a row left is the loop over the slots of the batch. */
  lemma ArrayFetchIs(s: State, warning: bool)
    requires ValidState(s) && s.cursor.at + 1 < |s.cursor.rows| && s.batchSize > 1
    ensures var r := FillRows(s.mem, s.statuses, s.layout, s.fields, s.cursor.rows, s.cursor.at + 1, 0,
                              Slots(s.batchSize), Stored);
            && Fetch(s, warning).0
               == s.(cursor := s.cursor.(at := r.at), mem := r.mem, statuses := r.statuses,
                     fetched := if r.outcome == Thrown then s.fetched else r.fetched)
            && Fetch(s, warning).1 != NoData
            && (Fetch(s, warning).1 == Error <==> r.outcome.Stops())
  {
    hide FillRows;
    FillRowsCap(s.mem, s.statuses, s.layout, s.fields, s.cursor.rows, s.cursor.at + 1, ToInt32(s.batchSize), Stored);
  }

  lemma ArrayFetched(s: State, warning: bool, base: int)
    requires Prepared(s, base) && s.cursor.at + 1 < |s.cursor.rows| && s.batchSize > 1
    ensures FilledUpTo(s, Fetch(s, warning).0, Fetch(s, warning).1)
  {
    hide HoldsRows, WellFormed, FillRows, TouchedIn, RowConverts, ImageOf, OutcomeOf, Fetch, Slots, Met, FirstStop;
    hide Wide;
    var e, rows, first := Slots(s.batchSize), s.cursor.rows, s.cursor.at + 1;
    ArrayFetchIs(s, warning);
    FillRowsCounts(s.mem, s.statuses, s.layout, s.fields, rows, first, 0, e, Stored);
    FillRowsFrame(s.mem, s.statuses, s.layout, s.fields, rows, first, 0, e, Stored, base);
    FillRowsDelivers(s.mem, s.statuses, s.layout, s.fields, rows, first, 0, e, Stored, base);
  }

  lemma {:induction false} HasFirstStop(fields: seq<OutputField>, c: nat, row: Row)
    requires c <= |fields| <= |row| && !RowConverts(fields, c, row)
    ensures exists d :: FirstStop(fields, c, row, d)
    decreases |fields| - c
  {
    hide Stopping;
    if Stopping(fields[c], row[c]) {
      assert FirstStop(fields, c, row, c);
    } else {
      HasFirstStop(fields, c + 1, row);
      var d :| FirstStop(fields, c + 1, row, d);
      assert FirstStop(fields, c, row, d);
    }
  }

  lemma ArrayFilled(s: State, warning: bool, base: int)
    requires Ready(s, base) && s.cursor.at + 1 < |s.cursor.rows| && s.batchSize > 1
    ensures Filled(s, Fetch(s, warning).0, Fetch(s, warning).1)
  {
    hide HoldsRows, WellFormed, FillRows, TouchedIn, RowConverts, Fetch, ImageOf, OutcomeOf;
    ArrayFetched(s, warning, base);
  }

  lemma SingleFilled(s: State, warning: bool, base: int)
    requires Ready(s, base) && s.cursor.at + 1 < |s.cursor.rows| && s.batchSize <= 1
    ensures Filled(s, Fetch(s, warning).0, Fetch(s, warning).1)
  {
    hide HoldsRow, WellFormed, FillRow, FillSingle, Touched, RowConverts, ImageOf, OutcomeOf;
    var row, l := s.cursor.rows[s.cursor.at + 1], ReadLayout(s);
    SingleRowMemory(s.mem, s.layout, s.fields, 0, row, Stored, Stored, Stored);
    SingleRowConverts(s.mem, s.fields, row);
    FillRowHoldsRow(s.mem, l, s.fields, base, 1, row, 0, Stored);
    var s' := Fetch(s, warning).0;
    forall x | 0 <= x < |s.mem| && s'.mem[x] != s.mem[x]
      ensures TouchedIn(l, s.fields, 0, 1, x)
    {
      assert Touched(l, s.fields, 0, 0, x);
    }
  }

  /** Before call `k` the cursor stands on the last row of rowset `k - 1`, or past the end. */
  lemma {:induction false} CursorBeforeCall(s: State, warning: bool, k: nat, base: int)
    requires Ready(s, base) && s.cursor.at == -1
    ensures var n, e := |s.cursor.rows|, Slots(s.batchSize);
            var at := Run(s, warning, k).cursor.at;
            if k * e <= n then at == k * e - 1 else at == n
    decreases k
  {
    hide FillRows, FillSingle, HoldsRows, WellFormed, Slots, TouchedIn;
    var n, e := |s.cursor.rows|, Slots(s.batchSize);
    if k > 0 {
      var s1 := Run(s, warning, k - 1);
      CursorBeforeCall(s, warning, k - 1, base);
      assert k * e == (k - 1) * e + e;
      if s1.cursor.at + 1 < n {
        RowsetDelivered(s1, warning, base);
      }
    }
  }

  /**
   * Call `k` of a run from the start: it delivers exactly rows k*e .. min((k+1)*e, n) - 1, row k*e+j in slot j,
   * while rows are left, and afterwards reports the end without touching the buffers.
   */
  lemma CallDelivers(s: State, warning: bool, k: nat, base: int)
    requires Ready(s, base) && s.cursor.at == -1
    ensures var r := Run(s, warning, k);
            var (r', code) := Fetch(r, warning);
            if k * Slots(s.batchSize) < |s.cursor.rows|
            then r.cursor.at + 1 == k * Slots(s.batchSize) && Filled(r, r', code)
            else code == NoData && r' == r.(cursor := r.cursor.(at := |s.cursor.rows|))
  {
    hide Fetch, Run, HoldsRows, WellFormed, Slots, Filled;
    CursorBeforeCall(s, warning, k, base);
    if k * Slots(s.batchSize) < |s.cursor.rows| {
      RowsetDelivered(Run(s, warning, k), warning, base);
    } else {
      FetchAtEnd(Run(s, warning, k), warning);
    }
  }

  // ----- what the application reads -----

  /** The table rows the application reads from the slots a fetch says it has filled. */
  function RowsetRead(s: State): (r: seq<seq<Seen>>)
    ensures |r| == s.fetched
    ensures forall p :: 0 <= p < s.fetched ==> r[p] == RowRead(s.mem, ReadLayout(s), s.fields, p)
  {
    seq(s.fetched, p requires 0 <= p < s.fetched => RowRead(s.mem, ReadLayout(s), s.fields, p))
  }

  /** The same after one fetch; past the end there is nothing to read. */
  ghost function CallRead(s: State, warning: bool): seq<seq<Seen>>
    requires ValidState(s)
  {
    var (s', code) := Fetch(s, warning);
    if code == NoData then [] else RowsetRead(s')
  }

  /** Everything the application has read from its buffers after the first `k` calls of a run. */
  ghost function Delivered(s: State, warning: bool, k: nat): seq<seq<Seen>>
    requires ValidState(s)
    decreases k
  {
    if k == 0 then [] else Delivered(s, warning, k - 1) + CallRead(Run(s, warning, k - 1), warning)
  }

  /** What a piece of the result set ought to read as. */
  function Table(fields: seq<OutputField>, rows: seq<Row>): (r: seq<seq<Seen>>)
    requires Wide(rows, fields)
    ensures |r| == |rows| && forall i :: 0 <= i < |rows| ==> r[i] == RowExpected(fields, rows[i])
  {
    seq(|rows|, i requires 0 <= i < |rows| => RowExpected(fields, rows[i]))
  }

  ghost predicate RowsRepresentable(fields: seq<OutputField>, rows: seq<Row>)
    requires Wide(rows, fields)
  {
    forall i :: 0 <= i < |rows| ==> RowRepresentable(fields, rows[i])
  }

  /** The start of rowset `k`, which is the end of rowset `k - 1`. */
  ghost function Boundary(s: State, k: nat): (r: nat)
    ensures r <= |s.cursor.rows|
  {
    Min(k * Slots(s.batchSize), |s.cursor.rows|)
  }

  lemma BoundaryStep(s: State, k: nat)
    ensures Boundary(s, k) <= Boundary(s, k + 1)
    ensures Boundary(s, k + 1) - Boundary(s, k) == Min(Slots(s.batchSize), |s.cursor.rows| - Boundary(s, k))
  {
    hide Slots;
    assert (k + 1) * Slots(s.batchSize) == k * Slots(s.batchSize) + Slots(s.batchSize);
  }

  /** Slots that hold rows read as these rows. */
  lemma SlotsRead(m: seq<Byte>, l: Layout, fields: seq<OutputField>, base: int, b: nat, rows: seq<Row>, first: nat,
                  k: nat)
    requires WellFormed(l, fields, base, b, |m|) && k <= b
    requires Wide(rows, fields) && first + k <= |rows| && RowsRepresentable(fields, rows)
    requires HoldsRows(m, l, fields, 0, rows, first, k)
    requires forall i :: first <= i < first + k ==> RowConverts(fields, 0, rows[i])
    ensures forall p :: 0 <= p < k ==> RowRead(m, l, fields, p) == RowExpected(fields, rows[first + p])
  {
    hide HoldsRow, WellFormed, RowRead, RowExpected, RowRepresentable, RowConverts;
    forall p | 0 <= p < k
      ensures RowRead(m, l, fields, p) == RowExpected(fields, rows[first + p])
    {
      assert HoldsRow(m, l, fields, 0 + (first + p) - first, rows[first + p]);
      RowReadsBack(m, l, fields, base, b, p, rows[first + p]);
    }
  }

  /** The counted slots of a rowset read as the rows they hold. */
  lemma CountedRead(s: State, s': State, base: int, k: nat)
    requires Prepared(s, base) && s.cursor.at + 1 + k <= |s.cursor.rows| && k <= Slots(s.batchSize)
    requires s'.fields == s.fields && s'.layout == s.layout && s'.batchSize == s.batchSize && |s'.mem| == |s.mem|
    requires s'.fetched == k && RowsRepresentable(s.fields, s.cursor.rows)
    requires HoldsRows(s'.mem, ReadLayout(s), s.fields, 0, s.cursor.rows, s.cursor.at + 1, k)
    requires forall i :: s.cursor.at + 1 <= i < s.cursor.at + 1 + k ==> RowConverts(s.fields, 0, s.cursor.rows[i])
    ensures RowsetRead(s') == Table(s.fields, s.cursor.rows[s.cursor.at + 1..s.cursor.at + 1 + k])
  {
    hide HoldsRows, WellFormed, RowConverts, RowRead, RowExpected, RowsRepresentable, Slots;
    SlotsRead(s'.mem, ReadLayout(s), s.fields, base, Slots(s.batchSize), s.cursor.rows, s.cursor.at + 1, k);
    assert RowsetRead(s') == Table(s.fields, s.cursor.rows[s.cursor.at + 1..s.cursor.at + 1 + k]);
  }

  /** Filled slots read as the rows that fill them. */
  lemma FilledReads(s: State, s': State, code: Code, base: int)
    requires Ready(s, base) && s.cursor.at + 1 < |s.cursor.rows| && RowsRepresentable(s.fields, s.cursor.rows)
    requires Filled(s, s', code) && s'.fields == s.fields && s'.layout == s.layout && s'.batchSize == s.batchSize
    ensures RowsetRead(s') == Table(s.fields, s.cursor.rows[s.cursor.at + 1..s.cursor.at + 1 + s'.fetched])
  {
    hide HoldsRows, WellFormed, TouchedIn, RowsRepresentable, Slots, RowConverts, RowsetRead, Table;
    CountedRead(s, s', base, s'.fetched);
  }

  /** What call `k` puts into the buffers reads as its piece of the result set. */
  lemma CallReads(s: State, warning: bool, k: nat, base: int)
    requires Ready(s, base) && s.cursor.at == -1 && RowsRepresentable(s.fields, s.cursor.rows)
    ensures Boundary(s, k) <= Boundary(s, k + 1)
    ensures CallRead(Run(s, warning, k), warning) == Table(s.fields, s.cursor.rows[Boundary(s, k)..Boundary(s, k + 1)])
  {
    hide Fetch, Slots, HoldsRows, TouchedIn, WellFormed, Run, RowsRepresentable, Table;
    var r := Run(s, warning, k);
    CallDelivers(s, warning, k, base);
    BoundaryStep(s, k);
    if k * Slots(s.batchSize) < |s.cursor.rows| {
      var (r', code) := Fetch(r, warning);
      FetchKeepsValid(r, warning);
      FilledReads(r, r', code, base);
    } else {
      assert Table(s.fields, s.cursor.rows[Boundary(s, k)..Boundary(s, k + 1)]) == [];
    }
  }

  lemma TableGrows(fields: seq<OutputField>, rows: seq<Row>, a: nat, b: nat)
    requires Wide(rows, fields) && a <= b <= |rows|
    ensures Table(fields, rows[..a]) + Table(fields, rows[a..b]) == Table(fields, rows[..b])
  {
    hide RowExpected;
  }

  /**
   * No row is lost, repeated or reordered: what the application reads from its buffers over the first calls is the
   * result set up to the end of the last rowset, for every layout, bind offset and rowset size.
   */
  lemma {:induction false} RowsetsPartition(s: State, warning: bool, k: nat, base: int)
    requires Ready(s, base) && s.cursor.at == -1 && RowsRepresentable(s.fields, s.cursor.rows)
    ensures Delivered(s, warning, k) == Table(s.fields, s.cursor.rows[..Boundary(s, k)])
    decreases k
  {
    hide CallRead, Slots, Ready, RowsRepresentable, Run, Table;
    if k == 0 {
      assert Boundary(s, 0) == 0;
      assert Table(s.fields, s.cursor.rows[..0]) == [];
    } else {
      RowsetsPartition(s, warning, k - 1, base);
      CallReads(s, warning, k - 1, base);
      TableGrows(s.fields, s.cursor.rows, Boundary(s, k - 1), Boundary(s, k));
    }
  }

  /** The whole run: with enough calls the buffers have held the result set, and the next call reports its end. */
  lemma RunDeliversResult(s: State, warning: bool, k: nat, base: int)
    requires Ready(s, base) && s.cursor.at == -1 && RowsRepresentable(s.fields, s.cursor.rows)
    requires k * Slots(s.batchSize) >= |s.cursor.rows|
    ensures Delivered(s, warning, k) == Table(s.fields, s.cursor.rows)
    ensures Fetch(Run(s, warning, k), warning).1 == NoData
  {
    hide Delivered, Slots, Ready, RowsRepresentable, Run, Table, Fetch;
    RowsetsPartition(s, warning, k, base);
    CallDelivers(s, warning, k, base);
    assert s.cursor.rows[..|s.cursor.rows|] == s.cursor.rows;
  }

  /** The table reads the same for two bindings of the same shape. */
  lemma TablesAgree(fields: seq<OutputField>, fields': seq<OutputField>, rows: seq<Row>)
    requires Wide(rows, fields) && SameShape(fields, fields')
    ensures Table(fields, rows) == Table(fields', rows)
    ensures RowsRepresentable(fields, rows) == RowsRepresentable(fields', rows)
  {
    hide RowExpected, RowRepresentable;
    forall i | 0 <= i < |rows|
      ensures RowExpected(fields, rows[i]) == RowExpected(fields', rows[i])
      ensures RowRepresentable(fields, rows[i]) == RowRepresentable(fields', rows[i])
    {
      ExpectedAgree(fields, fields', rows[i]);
    }
    assert Table(fields, rows) == Table(fields', rows);
  }

  /**
   * Column-wise and row-wise, with any bind offsets, in rowsets or one row at a time: two runs over the same result
   * set with bindings of the same types and sizes have read the same table as soon as they have come equally far.
   */
  lemma RunsAgree(s: State, warning: bool, k: nat, base: int, s': State, warning': bool, k': nat, base': int)
    requires Ready(s, base) && s.cursor.at == -1 && RowsRepresentable(s.fields, s.cursor.rows)
    requires Ready(s', base') && s'.cursor.at == -1 && s'.cursor.rows == s.cursor.rows
    requires SameShape(s.fields, s'.fields) && Boundary(s, k) == Boundary(s', k')
    ensures Delivered(s, warning, k) == Delivered(s', warning', k')
         == Table(s.fields, s.cursor.rows[..Boundary(s, k)])
  {
    hide Delivered, WellFormed, AllConvert, RowsRepresentable, Table, Boundary;
    TablesAgree(s.fields, s'.fields, s.cursor.rows);
    TablesAgree(s.fields, s'.fields, s.cursor.rows[..Boundary(s, k)]);
    RowsetsPartition(s, warning, k, base);
    RowsetsPartition(s', warning', k', base');
  }

  // ----- cells that do not convert -----

  /**
   * A rowset fetch reports an error exactly when one of the rows it would deliver has a bound cell that does not
   * convert. The rows before the first such row are delivered, and that row is lost: the next fetch starts behind it.
   */
  lemma FetchFailsIff(s: State, warning: bool, base: int)
    requires Prepared(s, base) && s.batchSize > 1 && s.cursor.at + 1 < |s.cursor.rows|
    ensures var (s', code), first := Fetch(s, warning), s.cursor.at + 1;
            var n := Ahead(s.cursor.rows, first, 0, Slots(s.batchSize));
            && (code == Error <==> exists i :: first <= i < first + n && !RowConverts(s.fields, 0, s.cursor.rows[i]))
            && FilledUpTo(s, s', code)
            && (code == Error ==> !RowConverts(s.fields, 0, s.cursor.rows[s'.cursor.at]))
  {
    hide Fetch, WellFormed, Slots, TouchedIn, HoldsRows, RowConverts, ImageOf, OutcomeOf;
    ArrayFetched(s, warning, base);
  }

  /** No conversion of a bound cell throws. */
  predicate NothingThrows(fields: seq<OutputField>, rows: seq<Row>) {
    forall i, c :: 0 <= i < |rows| && 0 <= c < |fields| && c < |rows[i]| && fields[c].Bound() ==>
      OutcomeOf(fields[c], rows[i][c]) != Thrown
  }

  /** The rows that convert, in their order. */
  function Survivors(fields: seq<OutputField>, rows: seq<Row>): (r: seq<Row>)
    ensures Wide(r, fields) && |r| <= |rows|
    ensures forall i :: 0 <= i < |r| ==> RowConverts(fields, 0, r[i]) && r[i] in rows
    decreases |rows|
  {
    if rows == [] then []
    else
      var n := |rows| - 1;
      Survivors(fields, rows[..n]) + (if RowConverts(fields, 0, rows[n]) then [rows[n]] else [])
  }

  /** Rows that all convert survive; the one behind them that does not is dropped. */
  lemma {:induction false} SurvivorsGrow(fields: seq<OutputField>, rows: seq<Row>, a: nat, b: nat)
    requires a <= b <= |rows|
    requires forall i :: a <= i < b ==> RowConverts(fields, 0, rows[i])
    ensures Survivors(fields, rows[..b]) == Survivors(fields, rows[..a]) + rows[a..b]
    decreases b
  {
    hide RowConverts;
    if a < b {
      SurvivorsGrow(fields, rows, a, b - 1);
      assert rows[..b][..b - 1] == rows[..b - 1];
      assert rows[a..b] == rows[a..b - 1] + [rows[b - 1]];
    } else {
      assert rows[a..b] == [];
    }
  }

  /** How many rows the cursor has left behind or stands on. */
  ghost function Reached(s: State): (r: nat)
    requires ValidState(s)
    ensures r <= |s.cursor.rows|
  {
    Min(s.cursor.at + 1, |s.cursor.rows|)
  }

  /** How many of the first `k` calls of a run reported an error. */
  ghost function Errors(s: State, warning: bool, k: nat): nat
    requires ValidState(s)
    decreases k
  {
    if k == 0 then 0
    else Errors(s, warning, k - 1) + if Fetch(Run(s, warning, k - 1), warning).1 == Error then 1 else 0
  }

  /** Without an exception the row count is set, and the cursor has moved over the counted rows and a failing one. */
  lemma FailureCounted(s: State, s': State, code: Code)
    requires ValidState(s) && s.cursor.at + 1 < |s.cursor.rows| && NothingThrows(s.fields, s.cursor.rows)
    requires ValidState(s') && FilledUpTo(s, s', code)
    ensures var first := s.cursor.at + 1;
            var k := Met(s.fields, s.cursor.rows, first, 0, Slots(s.batchSize));
            && s'.fetched == k <= Slots(s.batchSize)
            && Reached(s') == first + k + (if code == Error then 1 else 0)
            && (code == Error ==> !RowConverts(s.fields, 0, s.cursor.rows[first + k]))
            && HoldsRows(s'.mem, ReadLayout(s), s.fields, 0, s.cursor.rows, first, k)
  {
    hide HoldsRows, RowConverts, ImageOf, OutcomeOf, Slots, NothingThrows, TouchedIn, FirstStop;
    var rows, first := s.cursor.rows, s.cursor.at + 1;
    var n, k := Ahead(rows, first, 0, Slots(s.batchSize)), Met(s.fields, rows, first, 0, Slots(s.batchSize));
    if k < n {
      HasFirstStop(s.fields, 0, rows[first + k]);
      var d :| FirstStop(s.fields, 0, rows[first + k], d);
      DoesNotThrow(s.fields, rows, first + k, d);
    }
  }

  /** Rows that convert, and then one that does not if a call has failed on it. */
  lemma SurvivorsStep(fields: seq<OutputField>, rows: seq<Row>, was: nat, k: nat, failed: bool)
    requires was + k <= |rows| && (failed ==> was + k < |rows| && !RowConverts(fields, 0, rows[was + k]))
    requires forall i :: was <= i < was + k ==> RowConverts(fields, 0, rows[i])
    ensures Survivors(fields, rows[..was + k + if failed then 1 else 0])
         == Survivors(fields, rows[..was]) + rows[was..was + k]
  {
    hide RowConverts, Survivors;
    SurvivorsGrow(fields, rows, was, was + k);
    if failed {
      OneDropped(fields, rows, was + k);
    }
  }

  /** One call with rows left: what it delivers, and where it goes on. */
  lemma CallSkips(s: State, warning: bool, base: int)
    requires Prepared(s, base) && s.batchSize > 1 && s.cursor.at + 1 < |s.cursor.rows|
    requires RowsRepresentable(s.fields, s.cursor.rows) && NothingThrows(s.fields, s.cursor.rows)
    ensures var (s', code) := Fetch(s, warning);
            && ValidState(s') && s'.cursor.rows == s.cursor.rows
            && var rows, was, now := s.cursor.rows, Reached(s), Reached(s');
               && was < now
               && Survivors(s.fields, rows[..now])
                  == Survivors(s.fields, rows[..was]) + rows[was..now - if code == Error then 1 else 0]
               && CallRead(s, warning) == Table(s.fields, rows[was..now - if code == Error then 1 else 0])
  {
    hide HoldsRows, WellFormed, TouchedIn, RowConverts, ImageOf, OutcomeOf, Fetch, RowRead, RowExpected, Slots;
    hide RowRepresentable, NothingThrows, Survivors, FilledUpTo, Met, Ahead, RowsRepresentable, Table, RowsetRead;
    var (s', code) := Fetch(s, warning);
    var rows, was := s.cursor.rows, s.cursor.at + 1;
    var k := Met(s.fields, rows, was, 0, Slots(s.batchSize));
    ArrayFetched(s, warning, base);
    FetchKeepsValid(s, warning);
    FailureCounted(s, s', code);
    MetConverts(s.fields, rows, was, 0, Slots(s.batchSize));
    SurvivorsStep(s.fields, rows, was, k, code == Error);
    SomethingDone(s, s', code);
    CountedRead(s, s', base, k);
  }

  /** A fetch with rows left delivers a row or fails on one, and does not report the end. */
  lemma SomethingDone(s: State, s': State, code: Code)
    requires ValidState(s) && s.cursor.at + 1 < |s.cursor.rows| && FilledUpTo(s, s', code)
    ensures code != NoData
    ensures code != Error ==> Met(s.fields, s.cursor.rows, s.cursor.at + 1, 0, Slots(s.batchSize)) >= 1
  {
    hide HoldsRows, TouchedIn, RowConverts;
  }

  lemma MetConverts(fields: seq<OutputField>, rows: seq<Row>, at: nat, p: nat, e: nat)
    requires at < |rows| && p < e
    ensures var k := Met(fields, rows, at, p, e);
            && at + k <= |rows| && (forall i :: at <= i < at + k ==> RowConverts(fields, 0, rows[i]))
            && (k < Ahead(rows, at, p, e) ==> !RowConverts(fields, 0, rows[at + k]))
  {
    hide RowConverts;
  }

  lemma DoesNotThrow(fields: seq<OutputField>, rows: seq<Row>, i: nat, d: int)
    requires NothingThrows(fields, rows) && i < |rows| && FirstStop(fields, 0, rows[i], d)
    ensures OutcomeOf(fields[d], rows[i][d]) != Thrown
  {
    hide ImageOf, OutcomeOf;
  }

  lemma OneDropped(fields: seq<OutputField>, rows: seq<Row>, i: nat)
    requires i < |rows| && !RowConverts(fields, 0, rows[i])
    ensures Survivors(fields, rows[..i + 1]) == Survivors(fields, rows[..i])
  {
    hide RowConverts;
    assert rows[..i + 1][..i] == rows[..i];
  }

  /** One more call of a run. */
  lemma RunNext(s: State, warning: bool, k: nat, base: int)
    requires Prepared(s, base)
    ensures var r := Run(s, warning, k);
            && Prepared(r, base) && r.batchSize == s.batchSize && r.fields == s.fields && r.cursor.rows == s.cursor.rows
            && Run(s, warning, k + 1) == Fetch(r, warning).0
            && Delivered(s, warning, k + 1) == Delivered(s, warning, k) + CallRead(r, warning)
            && Errors(s, warning, k + 1) == Errors(s, warning, k) + if Fetch(r, warning).1 == Error then 1 else 0
  {
    hide Fetch, CallRead, WellFormed, Slots;
  }

  /** A call at the end of the result reads nothing, reports the end and stays there. */
  lemma CallAtEnd(s: State, warning: bool)
    requires ValidState(s) && s.cursor.at + 1 >= |s.cursor.rows|
    ensures CallRead(s, warning) == [] && Fetch(s, warning).1 == NoData
    ensures ValidState(Fetch(s, warning).0) && Reached(Fetch(s, warning).0) == Reached(s) == |s.cursor.rows|
  {
    hide DeliverCurrent;
  }

  /**
   * A run of rowset fetches over a result set with cells that do not convert, as long as none throws: what the
   * application reads is exactly the rows that do convert, in order, each of the others costs one failing call, and
   * as many calls as there are rows get to the end.
   */
  lemma {:induction false} RunSkipsFailures(s: State, warning: bool, k: nat, base: int)
    requires Prepared(s, base) && s.batchSize > 1 && s.cursor.at == -1
    requires RowsRepresentable(s.fields, s.cursor.rows) && NothingThrows(s.fields, s.cursor.rows)
    ensures var reached := Reached(Run(s, warning, k));
            && Min(k, |s.cursor.rows|) <= reached
            && Delivered(s, warning, k) == Table(s.fields, Survivors(s.fields, s.cursor.rows[..reached]))
            && |Delivered(s, warning, k)| + Errors(s, warning, k) == reached
    decreases k
  {
    hide Fetch, RowsRepresentable, NothingThrows, Survivors, Table, CallRead, RowConverts, Delivered, Errors, Run;
    hide WellFormed, Slots, ReadLayout;
    var rows := s.cursor.rows;
    if k == 0 {
      RunStarts(s, warning);
    } else {
      var r := Run(s, warning, k - 1);
      RunSkipsFailures(s, warning, k - 1, base);
      RunNext(s, warning, k - 1, base);
      if r.cursor.at + 1 < |rows| {
        CallSkips(r, warning, base);
        var was, now := Reached(r), Reached(Fetch(r, warning).0);
        TablesJoin(s.fields, Survivors(s.fields, rows[..was]),
                   rows[was..now - if Fetch(r, warning).1 == Error then 1 else 0]);
      } else {
        CallAtEnd(r, warning);
      }
    }
  }

  lemma RunStarts(s: State, warning: bool)
    requires ValidState(s) && s.cursor.at == -1
    ensures Run(s, warning, 0) == s && Reached(s) == 0 && Errors(s, warning, 0) == 0
    ensures Delivered(s, warning, 0) == [] == Table(s.fields, Survivors(s.fields, s.cursor.rows[..0]))
  {
    assert |Survivors(s.fields, s.cursor.rows[..0])| == 0;
    assert Table(s.fields, Survivors(s.fields, s.cursor.rows[..0])) == [];
  }

  lemma TablesJoin(fields: seq<OutputField>, a: seq<Row>, b: seq<Row>)
    requires Wide(a, fields) && Wide(b, fields)
    ensures Wide(a + b, fields) && Table(fields, a + b) == Table(fields, a) + Table(fields, b)
  {
    hide RowExpected;
  }

  // ----- the return code -----

  /**
   * A fetch of a rowset with one bound column reports the code of its last row only, so a truncation in an
   * earlier row is lost: two rows of one text column, the first truncated, report success.
   */
  lemma EarlierTruncationIsLost()
    ensures
      var f := OutputField(CChar, 100, 2, 200);
      var rows: seq<Row> := [[Value([65, 66], None, None)], [Value([65], None, None)]];
      var s := State(Cursor(rows, [Unmarked, Unmarked], -1), seq(300, i => 0), [], 0, 2, Layout(0, 0), [f]);
      && OutcomeOf(f, rows[0][0]) == Truncated
      && ValidState(s) && Fetch(s, false).1 == Success
  {
    var f := OutputField(CChar, 100, 2, 200);
    var rows: seq<Row> := [[Value([65, 66], None, None)], [Value([65], None, None)]];
    LastCellDecides(seq(300, i => 0), [], Layout(0, 0), [f], rows, 0, 0, 2, Stored, 0);
  }

  /** Exactly: an array fetch without error ends as the last bound column of its last row. */
  lemma {:induction false} LastCellDecides(m: seq<Byte>, st: seq<int>, l: Layout, fields: seq<OutputField>,
                                           rows: seq<Row>, at: nat, p: nat, e: nat, result: Outcome, last: nat)
    requires at < |rows| && Wide(rows, fields) && p < e
    requires forall i :: at <= i < at + Ahead(rows, at, p, e) ==> RowConverts(fields, 0, rows[i])
    requires last < |fields| && fields[last].Bound()
    requires forall k :: last < k < |fields| ==> !fields[k].Bound()
    ensures FillRows(m, st, l, fields, rows, at, p, e, result).outcome
         == OutcomeOf(fields[last], rows[at + Ahead(rows, at, p, e) - 1][last])
    decreases |rows| - at
  {
    hide ImageOf, OutcomeOf, RowConverts, FillRow;
    var (m1, r1) := FillRow(m, l, fields, 0, rows[at], p, result);
    LastColumnDecides(m, l, fields, 0, rows[at], p, result, last);
    ConvertsAt(fields, rows[at], last);
    if p + 1 < e && at + 1 < |rows| {
      LastCellDecides(m1, SetStatus(st, p, SQL_ROW_SUCCESS), l, fields, rows, at + 1, p + 1, e, r1, last);
    }
  }

  lemma ConvertsAt(fields: seq<OutputField>, row: Row, c: nat)
    requires c < |fields| <= |row| && RowConverts(fields, 0, row)
    ensures fields[c].Bound() ==> !OutcomeOf(fields[c], row[c]).Stops()
  {
    hide ImageOf, OutcomeOf;
    assert !Stopping(fields[c], row[c]);
  }

  /**
   * The code of a rowset fetch whose rows all convert: information exactly when its last bound cell was truncated or
   * the native result set has warnings.
   */
  lemma RowsetCode(s: State, warning: bool, last: nat)
    requires ValidState(s) && s.batchSize > 1 && s.cursor.at + 1 < |s.cursor.rows|
    requires last < |s.fields| && s.fields[last].Bound()
    requires forall k :: last < k < |s.fields| ==> !s.fields[k].Bound()
    requires var first := s.cursor.at + 1;
             forall i :: first <= i < first + Ahead(s.cursor.rows, first, 0, Slots(s.batchSize)) ==>
               RowConverts(s.fields, 0, s.cursor.rows[i])
    ensures var first := s.cursor.at + 1;
            var row := s.cursor.rows[first + Ahead(s.cursor.rows, first, 0, Slots(s.batchSize)) - 1];
            Fetch(s, warning).1
            == if OutcomeOf(s.fields[last], row[last]) == Truncated || warning then SuccessWithInfo else Success
  {
    hide ImageOf, OutcomeOf, RowConverts, FillRows, Slots;
    var first, rows, e := s.cursor.at + 1, s.cursor.rows, Slots(s.batchSize);
    ArrayFetchCode(s, warning);
    LastCellDecides(s.mem, s.statuses, s.layout, s.fields, rows, first, 0, e, Stored, last);
    ConvertsAt(s.fields, rows[first + Ahead(rows, first, 0, e) - 1], last);
  }

  lemma ArrayFetchCode(s: State, warning: bool)
    requires ValidState(s) && s.cursor.at + 1 < |s.cursor.rows| && s.batchSize > 1
    ensures var r := FillRows(s.mem, s.statuses, s.layout, s.fields, s.cursor.rows, s.cursor.at + 1, 0,
                              Slots(s.batchSize), Stored);
            Fetch(s, warning).1
            == match r.outcome {
              case Stored => if warning then SuccessWithInfo else Success
              case Truncated => SuccessWithInfo
              case _ => Error
            }
  {
    hide FillRows;
    FillRowsCap(s.mem, s.statuses, s.layout, s.fields, s.cursor.rows, s.cursor.at + 1, ToInt32(s.batchSize), Stored);
  }

  /** The conversion of a bound column ends in anything but success. */
  predicate Troubled(f: OutputField, col: Column) {
    f.Bound() && OutcomeOf(f, col) != Stored
  }

  predicate ColumnThrows(f: OutputField, col: Column) {
    f.Bound() && OutcomeOf(f, col) == Thrown
  }

  /** Column `k` is the last one of a row from column `c` on that is troubled. */
  predicate LastTroubled(fields: seq<OutputField>, c: nat, row: Row, k: int)
    requires |fields| <= |row|
  {
    && c <= k < |fields| && Troubled(fields[k], row[k])
    && forall j :: k < j < |fields| ==> !Troubled(fields[j], row[j])
  }

  /**
   * A single-row fetch, in contrast, throws exactly when some conversion does, and otherwise ends as its last bound
   * column that did not succeed: an error in an earlier column is lost.
   */
  lemma {:induction false} SingleRowCode(m: seq<Byte>, fields: seq<OutputField>, c: nat, row: Row,
                                         result: Outcome, last: Outcome)
    requires c <= |fields| <= |row| && result != Thrown && (last != Stored ==> result == last)
    ensures var r := FillSingle(m, fields, c, row, result, last).1;
            && (r == Thrown <==> exists k :: c <= k < |fields| && ColumnThrows(fields[k], row[k]))
            && (r != Thrown ==>
                  || (r == result && forall k :: c <= k < |fields| ==> !Troubled(fields[k], row[k]))
                  || exists k :: LastTroubled(fields, c, row, k) && r == OutcomeOf(fields[k], row[k]))
    decreases |fields| - c
  {
    hide FillOutput, ImageOf, OutcomeOf;
    if c < |fields| {
      var f := fields[c];
      var (m1, last1) := if f.Bound() then FillOutput(m, f, row[c], f.targetValue, f.lenOrInd) else (m, last);
      if last1 == Thrown {
        assert ColumnThrows(fields[c], row[c]);
      } else {
        var result1 := if last1 != Stored then last1 else result;
        SingleRowCode(m1, fields, c + 1, row, result1, last1);
        var r := FillSingle(m1, fields, c + 1, row, result1, last1).1;
        assert r == FillSingle(m, fields, c, row, result, last).1;
        if r != Thrown {
          if k :| LastTroubled(fields, c + 1, row, k) && r == OutcomeOf(fields[k], row[k]) {
            assert LastTroubled(fields, c, row, k);
          } else if Troubled(f, row[c]) {
            assert LastTroubled(fields, c, row, c);
          }
        }
      }
    }
  }

  lemma SingleRowConverts(m: seq<Byte>, fields: seq<OutputField>, row: Row)
    requires |fields| <= |row| && RowConverts(fields, 0, row)
    ensures !FillSingle(m, fields, 0, row, Stored, Stored).1.Stops()
  {
    hide ImageOf, OutcomeOf, FillSingle;
    SingleRowCode(m, fields, 0, row, Stored, Stored);
    assert forall k :: 0 <= k < |fields| ==> !Stopping(fields[k], row[k]);
  }

  /**
   * A single-row fetch reports an error exactly when a conversion throws or the last troubled column failed. Row count,
   * status and cursor say that the row was fetched either way.
   */
  lemma SingleFetchFailsIff(s: State, warning: bool)
    requires ValidState(s) && s.batchSize <= 1 && s.cursor.at + 1 < |s.cursor.rows|
    ensures var (s', code), row := Fetch(s, warning), s.cursor.rows[s.cursor.at + 1];
            && (code == Error <==>
                  || (exists k :: 0 <= k < |s.fields| && ColumnThrows(s.fields[k], row[k]))
                  || exists k :: LastTroubled(s.fields, 0, row, k) && OutcomeOf(s.fields[k], row[k]) == Failed)
            && (code == Success <==> !warning && forall k :: 0 <= k < |s.fields| ==> !Troubled(s.fields[k], row[k]))
            && code in {Success, SuccessWithInfo, Error}
            && s'.fetched == 1 && s'.cursor == s.cursor.(at := s.cursor.at + 1)
            && |s'.statuses| == |s.statuses|
            && (forall j :: 0 <= j < |s.statuses| ==>
                  s'.statuses[j] == if j == 0 then StatusOf(s, s.cursor.at + 1) else s.statuses[j])
  {
    hide ImageOf, OutcomeOf, FillSingle;
    SingleRowCode(s.mem, s.fields, 0, s.cursor.rows[s.cursor.at + 1], Stored, Stored);
  }

  /** An error is lost: a column of an unsupported type and then a truncated text report information. */
  lemma EarlierErrorIsLost()
    ensures
      var fields := [OutputField(CUnsupported, 100, 8, 200), OutputField(CChar, 120, 2, 208)];
      var rows: seq<Row> := [[Null, Value([65, 66], None, None)]];
      var s := State(Cursor(rows, [Unmarked], -1), seq(300, i => 0), [], 0, 1, Layout(0, 0), fields);
      && OutcomeOf(fields[0], rows[0][0]) == Failed
      && ValidState(s) && Fetch(s, false).1 == SuccessWithInfo
  {
    var fields := [OutputField(CUnsupported, 100, 8, 200), OutputField(CChar, 120, 2, 208)];
    var row: Row := [Null, Value([65, 66], None, None)];
    SingleRowCode(seq(300, i => 0), fields, 0, row, Stored, Stored);
    assert Troubled(fields[1], row[1]) && OutcomeOf(fields[1], row[1]) == Truncated;
    assert !ColumnThrows(fields[0], row[0]) && !ColumnThrows(fields[1], row[1]);
  }
}
