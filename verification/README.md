# SnappyData ODBC driver: a verified model

A Dafny model of the stateful core of the SnappyData ODBC driver and of its DSN installer, with proofs of what the
driver does over whole runs: every rowset of a result, every data-at-execution session, every history of handle,
attribute and statement calls, every connection string and every saved data source. `dafny verify dfyconfig.toml`
checks the project.

## How it is organised

Each component comes as a functional specification with lemmas about it and, where the driver updates objects in
place, as classes whose methods are proved equal to that specification step by step. Pointers are addresses in a byte
array or indices, and 16-, 32- and 64-bit conversions are written out. What the native client, the server or the ODBC
installer library answers is a parameter of the call that needs it, so a theorem over all parameters is one over all
their behaviours.

| component | specification | objects |
|---|---|---|
| Rowset fetch: addresses, aliasing cursor, whole runs | `AppMemory`, `RowLayout`, `FetchEngine` | `FetchStatement` |
| Parameters: data at execution, array binding | `Parameters`, `DataAtExec`, `ArrayBinding` | `ParamStatement` |
| Interval and GUID codecs | `Intervals`, `GuidText` | |
| Connection string: tokenizer with DSN splice, fold, printer, key table | `PropertySource`, `ConnProperties`, `Decimals` | `PropertyReaders`, `OutputConnString`, `OdbcIniKeys` |
| DSN settings: packing, save and load | `SslProperties`, `DsnSettings` | `ConfigSettings` |
| Connection attributes and their owned strings | `ConnAttributes` | `ConnectionState` |
| Environment and connection handles | `HandleRegistry` | `DriverHandles` |
| Result set and cursor of a statement | `StatementCursor` | `CursorStatement` |
| Strings returned into buffers, splitting, installer attributes, SQLGetFunctions | `Texts` | `BoundedStrings`, `Delimiters`, `InstallerAttributes`, `FunctionBitmap` |

## Where the code meets a property only under a condition

The model keeps the code's behaviour; each lemma named here states exactly when the property holds.

- An array fetch reports only the conversion code of the last bound column of its last row, so an earlier truncation
  is lost (`FetchEngine.LastCellDecides`, `FetchEngine.EarlierTruncationIsLost`). A single-row fetch reports the code
  of its last bound column that did not succeed, so an earlier error is lost (`FetchEngine.SingleRowCode`,
  `FetchEngine.SingleFetchFailsIff`, `FetchEngine.EarlierErrorIsLost`).
- A single-row fetch ignores the bind offset, so it writes where slot 0 of a rowset is exactly without one
  (`FetchEngine.SingleRowSlotIff`). Read where each kind of fetch writes, all runs give the same table
  (`FetchEngine.RunsAgree`).
- A rowset fetch fails exactly when one of the rows it would deliver has a bound cell that does not convert; the rows
  before it are delivered and that row is lost to the next fetch (`FetchEngine.FetchFailsIff`), so a run delivers
  exactly the rows that do convert (`FetchEngine.RunSkipsFailures`). After an exception, unlike after an error, the row
  count is the old one.
- Column-wise elements are apart only if the declared element size covers the C type, so the size 0 that ODBC allows
  for fixed-width types does not work for output columns (`RowLayout.ElementsApartIff`), while array parameters repair
  it (`ArrayBinding.SetsRead`).
- A null indicator pointer is recognised only in slot 0 without bind offset (`RowLayout.NullIndicatorSeenIff`).
- The length words of array parameters are found by element count where byte offsets are meant: text and binary sets
  get their own lengths exactly without bind offset and, row-wise, with a single set
  (`ArrayBinding.BatchIntendedIff`). The loop over the sets has a 32-bit counter and ends exactly for set sizes below
  2^32 (`ArrayBinding.CounterPassesIff`). The batch is executed even when a parameter asks for data or fails
  (`DataAtExec.SetsSentAnyway`).
- A data-at-execution session completes if and only if no pending parameter lies below the current index
  (`DataAtExec.SessionSends`, `DataAtExec.StaleIndexNeverExecutes`). A finished session leaves the index on its last
  pending parameter, so the same session can be run again exactly when it asked for one parameter
  (`DataAtExec.SecondSessionIff`); a blocked statement executes again only after its parameter is bound anew, and
  only bound with data in a buffer, after all parameters are reset, or with more than one parameter set
  (`DataAtExec.BlockedForever`, `DataAtExec.RebindingUnblocksIff`). A reset leaves the index where it is, so the new
  parameters below it must have their data in buffers too (`DataAtExec.ResetUnblocksIff`). A bound flag left behind
  hides a buffer (`DataAtExec.BufferSentIff`).
- Interval totals are exact except for year-to-month totals of 31 bits and more (`Intervals.EncodeExactIff`), and the
  codec pair is the identity exactly on normal forms (`Intervals.EncodeDecodeIdentityIff`,
  `Intervals.DecodeEncodeIdentityIff`).
- A connection string segment is read as one property exactly when its `=` comes before its `;`
  (`PropertySource.SegmentReadIff`).
- Packed SSL settings come back exactly when no packed value holds a comma (`DsnSettings.SslRestoredIff`), and only
  into a configuration that does not have the key yet (`DsnSettings.StaleKeyKept`), not even empty, as saving leaves
  it behind (`DsnSettings.LookedAt`). Loading ends early exactly when some piece but the last has no equals sign
  (`DsnSettings.LoadCompletesIff`).
- An attribute set before connect is not checked; connect then fails although the connection is open
  (`ConnAttributes.UncheckedValue`, `ConnAttributes.ConnectFailsIff`).
- The reported length of a string does not depend on whether a buffer was given exactly when no terminator lies inside
  the text, or only one so late that both lengths are clamped (`BoundedStrings.ReportIndependentIff`). A retry with the
  reported length plus one is complete exactly when the length was not clamped: at a 32-bit length in general, and at
  a 16-bit one for the output connection string (`BoundedStrings.RetryCompletesIff`,
  `BoundedStrings.ConnectRetryCompletesIff`).
- The wide split keeps only the low byte of each unit (`Delimiters.WideAgreesIff`).

## Model

| member | source | states |
|---|---|---|
| AppMemory.SignedOfLittleEndian | src/driver/cpp/SnappyStatement.cpp:692-860 | A signed integer that fits its width is read back from the bytes stored for it |
| RowLayout.SlotsDisjoint | src/driver/cpp/SnappyStatement.cpp:1443-1480 | With well-formed buffers, the writes for any two different (slot, column, value or indicator) triples share no byte, column-wise or row-wise, for every bind offset |
| RowLayout.SlotInside | src/driver/cpp/SnappyStatement.cpp:1443-1480 | Every slot of the batch lies inside the bound buffers |
| RowLayout.ElementsApartIff | src/driver/cpp/SnappyStatement.cpp:1443-1456 | Column-wise elements are apart for all slots if and only if the declared element size covers the C type |
| RowLayout.NullIndicatorSeenIff | src/driver/cpp/SnappyStatement.cpp:1452-1456 | A null indicator pointer stays null after the address arithmetic only in slot 0 with bind offset 0 |
| RowLayout.ConversionWrites | src/driver/cpp/SnappyStatement.cpp:692-860 | Every byte after one conversion, wherever its buffers lie: value, and length word unless its pointer is null; where they overlap the value of a text wins and the length word of anything else; an unsupported type or an exception writes nothing |
| RowLayout.StoredSize | src/driver/cpp/SnappyStatement.cpp:692-860 | How many bytes each C type takes and each conversion stores: a text its bytes and a terminator as far as there is room, a number its three leading bytes and magnitude |
| RowLayout.FillRowHolds | src/driver/cpp/SnappyStatement.cpp:1443-1480 | After the column loop every bound column of the row is in its slot and no byte outside the row's slots changed |
| RowLayout.FillRowStopsIff | src/driver/cpp/SnappyStatement.cpp:1443-1480 | A row stops if and only if some bound cell of it does not convert, and ends as the first such cell does: with an error or with an exception |
| RowLayout.LastColumnDecides | src/driver/cpp/SnappyStatement.cpp:1443-1480 | The code of a row that converts is that of its last bound column |
| RowLayout.SlotReadsBack | src/driver/cpp/SnappyStatement.cpp:692-860 | For text, every integer C type and SQL_C_NUMERIC, decoding a slot gives the cell the conversion promises: value, terminator, truncation with the full length, whole part of a number too long, and the length word: 1, 2, 4 or 8 by the C type, the size of the magnitude for a number |
| RowLayout.RowReadsBack | src/driver/cpp/SnappyStatement.cpp:1443-1480 | A slot that holds a row is read, column by column and in either layout, as that row |
| FetchEngine.FillRowsCounts | src/driver/cpp/SnappyStatement.cpp:1440-1493 | The row loop fills slots up to the batch size, the end of the result or the first row that does not convert, marks exactly their statuses, counts them and leaves the shared cursor on the last row, on the failing one, or past the end |
| FetchEngine.FillRowsFrame | src/driver/cpp/SnappyStatement.cpp:1440-1493 | A rowset fetch changes only bytes of the slots it fills and of the slot whose row did not convert |
| FetchEngine.FillRowsDelivers | src/driver/cpp/SnappyStatement.cpp:1440-1493 | After the loop every filled slot still holds its own row |
| FetchEngine.RowsetDelivered | src/driver/cpp/SnappyStatement.cpp:2332-2363 | One fetch, single-row or of a rowset, puts the next rows into slots 0.. in order, with fetched count, statuses, cursor and frame, and neither error nor end is reported |
| FetchEngine.CursorBeforeCall | src/driver/cpp/BatchRowIterator.h:53-72 | Before call k the cursor shared by statement and batch iterator is on row k*B - 1, or past the end, for rowsets and for single rows |
| FetchEngine.CallDelivers | src/driver/cpp/SnappyStatement.cpp:2332-2363 | Call k delivers exactly rows kB .. min((k+1)B, N) - 1, row kB+j in slot j; later calls report no data and touch nothing |
| FetchEngine.CallReads | src/driver/cpp/SnappyStatement.cpp:2332-2363 | What call k leaves in slots 0 .. fetched-1 reads as exactly its piece of the result set |
| FetchEngine.RowsetsPartition | src/driver/cpp/SnappyStatement.cpp:2332-2363 | What the application reads from its buffers over the first k calls, one rowset after the other, is the table of a prefix of the result set: nothing lost, repeated or reordered |
| FetchEngine.RunDeliversResult | src/driver/cpp/SnappyStatement.cpp:2332-2363 | After ceil(N/B) calls the whole result set has been read from the buffers and the next call returns SQL_NO_DATA |
| FetchEngine.RunsAgree | src/driver/cpp/SnappyStatement.cpp:1430-1493 | Column-wise or row-wise, with any bind offsets and rowset sizes, single-row included: runs over one result set with the same column types and sizes read the same table once they have come equally far |
| FetchEngine.FetchFailsIff | src/driver/cpp/SnappyStatement.cpp:1440-1493 | A rowset fetch fails if and only if a row it would deliver has a bound cell that does not convert; the rows before the first such row are in their slots, counted and marked, the cursor stands on it, and an exception leaves the old count |
| FetchEngine.RunSkipsFailures | src/driver/cpp/SnappyStatement.cpp:2332-2363 | Over a whole run of rowset fetches with cells that do not convert, none throwing, the application reads exactly the rows that do, in order; delivered rows and failing calls add up to the rows passed, and N calls reach the end |
| FetchEngine.EarlierTruncationIsLost | src/driver/cpp/SnappyStatement.cpp:1440-1493 | A concrete rowset whose first row is truncated and whose fetch reports success |
| FetchEngine.LastCellDecides | src/driver/cpp/SnappyStatement.cpp:1440-1493 | An array fetch without error reports the conversion code of the last bound column of its last row |
| FetchEngine.RowsetCode | src/driver/cpp/SnappyStatement.cpp:2340-2360 | A rowset fetch whose rows all convert reports information if and only if its last bound cell was truncated or there are warnings |
| FetchEngine.SingleRowCode | src/driver/cpp/SnappyStatement.cpp:1403-1426 | A single-row fetch throws if and only if some conversion does, and otherwise reports its last bound column that did not succeed, or success |
| FetchEngine.SingleFetchFailsIff | src/driver/cpp/SnappyStatement.cpp:2332-2363 | It reports an error if and only if a conversion throws or the last column that did not succeed failed, and success if and only if every column succeeded without warnings; count, status (deleted, updated, inserted or nothing) and cursor take the row as fetched either way |
| FetchEngine.EarlierErrorIsLost | src/driver/cpp/SnappyStatement.cpp:1403-1426 | A concrete row whose first column fails and whose fetch reports only information |
| FetchEngine.SingleRowMemory | src/driver/cpp/SnappyStatement.cpp:1403-1426 | For every layout and bind offset a single-row fetch stores what slot 0 of an array fetch without bind offset stores |
| FetchEngine.SingleRowSlotIff | src/driver/cpp/SnappyStatement.cpp:1403-1426 | The bytes a single-row fetch writes are those of slot 0 of an array fetch if and only if there is no bind offset |
| FetchStatement.ResultSetIterator.Next | src/driver/cpp/SnappyStatement.cpp:2340 | The native cursor moves one row and says whether it is on a row |
| FetchStatement.BatchRowIterator.Next | src/driver/cpp/BatchRowIterator.h:53-55 | The position always advances; the shared cursor advances only while the batch has room, compared as signed 32-bit |
| FetchStatement.Statement.FillColumns | src/driver/cpp/SnappyStatement.cpp:1443-1480 | The column loop computes the specified row fill at the computed addresses, conversions that fail or throw included |
| FetchStatement.Statement.FillOutputFieldsWithArrays | src/driver/cpp/SnappyStatement.cpp:1430-1493 | The do-while loop over the two aliased iterators leaves memory, statuses, cursor and outcome as the specified rowset fill, and sets the fetched count unless a conversion throws |
| FetchStatement.Statement.SetRowStatus | src/driver/cpp/SnappyStatement.cpp:1495-1512 | A single-row fetch sets the count to one and the first status by what was done to the row: deleted, updated, inserted or nothing |
| FetchStatement.Statement.FillOutputFields | src/driver/cpp/SnappyStatement.cpp:1403-1426 | The single-row loop goes on after an error, stops at an exception and keeps the last outcome other than success |
| FetchStatement.Statement.DeliverRows | src/driver/cpp/SnappyStatement.cpp:2340-2349 | The choice between single row and rowset by batch size, with the whole new state |
| FetchStatement.Statement.Next | src/driver/cpp/SnappyStatement.cpp:2332-2363 | SQLFetch on the objects refines the specified fetch that the whole-run theorems are about; without a result set it fails and changes nothing |
| DataAtExec.PendingMembers | src/driver/cpp/SnappyStatement.cpp:4308-4310 | The asked-for list holds exactly the data-at-execution parameters |
| DataAtExec.PendingAscending | src/driver/cpp/SnappyStatement.cpp:4308-4310 | It holds each of them once, in ascending order |
| DataAtExec.PutAllMeans | src/driver/cpp/SnappyStatement.cpp:4332-4369 | What a sequence of SQLPutData chunks leaves in the native element of the current parameter: NULL if the last one is, otherwise the data the chunks stand for behind the last NULL, byte for byte, in one text or binary value, or the last integer |
| DataAtExec.ChunksMean | src/driver/cpp/SnappyStatement.cpp:4332-4369 | What a pending parameter is sent with, in the same terms: the data of the chunks behind the last NULL put together, NULL without any; a chunk is so many bytes of its buffer, or those before the first NUL |
| DataAtExec.PutAllFrame | src/driver/cpp/SnappyStatement.cpp:4332-4369 | Putting data touches no other parameter |
| DataAtExec.RoundOutcome | src/driver/cpp/SnappyStatement.cpp:4304-4369 | A round of asking and putting keeps the value every parameter will finally be sent with, in the memory of the execution to come |
| DataAtExec.DriveSends | src/driver/cpp/SnappyStatement.cpp:4304-4330 | The loop of SQLParamData and SQLPutData asks for each pending parameter once in ascending order, terminates, executes once and sends the outcome of every parameter, whatever the application changes in its buffers in between |
| DataAtExec.BindFromStops | src/driver/cpp/SnappyStatement.cpp:86-95 | Binding stops at the first pending parameter, flags it and leaves the later ones alone |
| DataAtExec.ExecuteAsks | src/driver/cpp/SnappyStatement.cpp:2007-2027 | SQLExecute with a pending parameter returns need-data, executes nothing and keeps every outcome |
| DataAtExec.SessionSends | src/driver/cpp/SnappyStatement.cpp:2007-2047 | A whole session sends each pending parameter as its chunks put together, NULL without chunks, and every other one as its buffer says at the last call: that many bytes, those before the first NUL, the integer, or NULL; and leaves nothing under way |
| DataAtExec.BufferSentIff | src/driver/cpp/SnappyStatement.cpp:93-95 | A parameter that is not pending is sent from its buffer if and only if its bound flag is clear |
| DataAtExec.AskedNext | src/driver/cpp/SnappyStatement.cpp:4304-4330 | SQLParamData asks for the first parameter from the index on that needs data, clears it and moves the index there; without one it executes |
| DataAtExec.WhatIsSent | src/driver/cpp/SnappyStatement.cpp:2007-2047 | An execution with an open result set fails and sends nothing; otherwise all sets of an array are sent, and a single set if and only if success is reported |
| DataAtExec.BlockedForever | src/driver/cpp/SnappyStatement.cpp:4308-4322 | A flagged parameter below the current index keeps every later run of execute, param-data, put-data, bind and close calls from executing, until that parameter is bound again, all are reset, or the set count is more than one |
| DataAtExec.SetsSentAnyway | src/driver/cpp/SnappyStatement.cpp:1924-1956 | With more than one parameter set the whole batch is executed, set i from its own elements, although a parameter asks for data or fails; success is reported if and only if none does |
| DataAtExec.StaleIndexNeverExecutes | src/driver/cpp/SnappyStatement.cpp:4308-4322 | A session begun with a pending parameter below the index is blocked in this way |
| DataAtExec.RebindingUnblocksIff | src/driver/cpp/SnappyStatement.cpp:1863-1888 | Binding the one blocking parameter again lets a session run if and only if the new binding is not a data-at-execution one |
| DataAtExec.ResetUnblocksIff | src/driver/cpp/SnappyStatement.cpp:4394-4399 | After closing the cursor, resetting and binding other parameters a session can run from any state if and only if none of those below the index, which stays, is a data-at-execution one |
| DataAtExec.SecondSessionIff | src/driver/cpp/SnappyStatement.cpp:4304-4330 | From the end of any session that asked, through closing the cursor and binding the asked parameters again: the second session asks for the same parameters and can run if and only if there was one of them |
| ParamStatement.Statement.AddParameter | src/driver/cpp/SnappyStatement.cpp:1863-1888 | The vector grows to the parameter number by unbound parameters and one element is bound; all others keep theirs |
| Parameters.BindMeans | src/driver/cpp/SnappyStatement.cpp:1863-1888 | Binding takes over type, direction, address, size and length pointer, and NULL if the length word says so at that moment; the flag of put data stays, and new parameters in between are pending ones |
| Parameters.ReadValuePassed | src/driver/cpp/SnappyStatement.cpp:97-190 | The value bound is the one the application passes: so many bytes of text or binary data, those before the first NUL for a negative or SQL_NTS length, or the integer |
| ParamStatement.Statement.BindParameterAt | src/driver/cpp/SnappyStatement.cpp:83-190 | bindParameter on the object: new parameter, native list and code as specified |
| ParamStatement.Statement.BindParameters | src/driver/cpp/SnappyStatement.cpp:599-610 | The loop resizes the native list, binds in order and stops at the first code that is not success |
| ParamStatement.Statement.ExecutePrepared | src/driver/cpp/SnappyStatement.cpp:2007-2047 | execute() refines the specified step: open result set, array of parameter sets, need-data and execution |
| ParamStatement.Statement.GetParamData | src/driver/cpp/SnappyStatement.cpp:4304-4330 | The search from the current index refines the specified step, and executes by the set count in force |
| ParamStatement.Statement.PutDataChunk | src/driver/cpp/SnappyStatement.cpp:4332-4369 | putData refines the specified step and gives the length pointer back |
| ParamStatement.Statement.BindOneSet | src/driver/cpp/SnappyStatement.cpp:644-685 | The parameters of one set are bound at their addresses; a code does not stop the loop |
| ParamStatement.Statement.BindArrayOfParameters | src/driver/cpp/SnappyStatement.cpp:630-690 | The nested loops with their 32-bit counter give the specified batch, statuses and overall code |
| ParamStatement.Statement.PerformAll | src/driver/cpp/SnappyStatement.cpp:4304-4369 | Any list of parameter calls on the object refines the specified run; a blocked statement executes nothing in it |
| ArrayBinding.CounterPassesIff | src/driver/cpp/SnappyStatement.cpp:643 | The 32-bit counter reaches the set size if and only if that is below 2^32, and then after exactly that many sets |
| ArrayBinding.UpdateStatusIsMaximum | src/driver/cpp/SnappyStatement.cpp:612-628 | One update takes the more severe code and the status that goes with it |
| ArrayBinding.CodesAreMaximum | src/driver/cpp/SnappyStatement.cpp:612-628 | The overall code is the most severe one met; the status is an error if and only if some code is neither success nor information |
| ArrayBinding.CodesOrderIndependent | src/driver/cpp/SnappyStatement.cpp:612-628 | The same codes in any order give the same status and the same overall code |
| ArrayBinding.StatusIgnoresResult | src/driver/cpp/SnappyStatement.cpp:612-628 | A set's status does not depend on what earlier sets reported |
| ArrayBinding.SetReads | src/driver/cpp/SnappyStatement.cpp:644-685 | One set, column-wise or row-wise and with any bind offset, reads its own element of every column, with the length word the driver looks at |
| ArrayBinding.SetsRead | src/driver/cpp/SnappyStatement.cpp:630-690 | The batch has exactly setSize sets; set i sends, byte for byte, what element i of every column passes, in both orientations, for every bind offset and even for a declared width of 0; status i is that of set i alone, and the code is the maximum |
| ArrayBinding.BatchIntendedIff | src/driver/cpp/SnappyStatement.cpp:662-678 | With a text or binary column, every set reads the values and lengths meant for it in every memory if and only if there is no bind offset and, row-wise, only one set |
| Intervals.EncodeExactIff | src/driver/cpp/SnappyStatement.cpp:392-491 | The encoded total is the signed length for all 32-bit fields, except year-to-month exactly when it exceeds 31 bits; it never leaves 64 bits |
| Intervals.NormalFormUnique | src/driver/cpp/SnappyStatement.h:64-98 | Normalised intervals of equal length and sign are equal |
| Intervals.DecodeMeans | src/driver/cpp/SnappyStatement.cpp:1136-1320 | A decoded total is normalised with the total's sign, and has its length if and only if the leading field has room |
| Intervals.EncodeDecodeNormalises | src/driver/cpp/SnappyStatement.cpp:1136-1320 | Structure to total and back gives the normal form of the same length |
| Intervals.EncodeDecodeIdentityIff | src/driver/cpp/SnappyStatement.cpp:392-491 | It is the identity if and only if the structure is normalised without fraction and is no negative zero |
| Intervals.DecodeEncodeIdentityIff | src/driver/cpp/SnappyStatement.cpp:1136-1320 | Total to structure and back is the identity if and only if the leading field has room |
| GuidText.ScanPrints | src/driver/cpp/SnappyStatement.cpp:492-508 | Scanning undoes printing for every fixed-width hexadecimal format and all values that fit it |
| GuidText.ScanHexMeans | src/driver/cpp/SnappyStatement.cpp:1321-1346 | One conversion of sscanf takes white space, a sign, 0x and at most its width of digits of either case, gives their value, negated for a minus sign, and leaves the rest; without digits it fails |
| GuidText.GuidRoundTrip | src/driver/cpp/SnappyStatement.cpp:1321-1346 | Every GUID prints as exactly 36 characters, of the 38 there is room for, and is scanned back into the same eleven fields |
| GuidText.GuidLayout | src/driver/cpp/SnappyStatement.cpp:50-51 | Dashes stand at 8, 13, 18 and 23, and each of the eleven fields in its own place, most significant digit first |
| GuidText.PrintScans | src/driver/cpp/SnappyStatement.cpp:50-51 | Printing undoes scanning, up to lower case, on texts of the format's shape |
| GuidText.GuidTextRoundTrip | src/driver/cpp/SnappyStatement.cpp:492-508 | Every text of GUID shape is accepted and is sent back in lower case |
| PropertySource.LeadingBlanks | src/driver/cpp/StringFunctions.h:201-214 | Skips exactly the leading blanks and tabs |
| PropertySource.SegmentReadIff | src/driver/cpp/ConnStringPropertyReader.h:115-149 | A segment is read as one property free of semicolons if and only if its equals sign comes before its semicolon |
| PropertySource.SemicolonFirst | src/driver/cpp/ConnStringPropertyReader.h:115-149 | With a semicolon before the first equals sign the value length is negative: for one character in between the rest is taken as the value and read again, otherwise reading throws; without an equals sign it fails |
| PropertySource.Read | src/driver/cpp/ConnStringPropertyReader.h:97-165 | Each property emitted lowers (characters left, ini names left) lexicographically, so the reading loop ends |
| PropertySource.NextName | src/driver/cpp/IniPropertyReader.h:83-98 | The first name from a position on that has a value in the section: it has one, and every name before it has none |
| PropertySource.SegmentOfSpelled | src/driver/cpp/ConnStringPropertyReader.h:115-149 | A spelled pair behind any blanks is read back as that pair, with the rest of the text after the semicolon |
| PropertySource.DrainIni | src/driver/cpp/IniPropertyReader.h:74-102 | While a DSN is read, its remaining ini properties come first and then the rest of the string |
| PropertySource.DrainRest | src/driver/cpp/ArrayIterator.h:75-81 | With the names used up, a further DSN adds nothing |
| PropertySource.DrainExpands | src/driver/cpp/ConnStringPropertyReader.h:97-165 | A well-formed string, with blanks before its names and with or without a closing semicolon, yields its pairs with the first non-empty DSN replaced by that DSN's non-empty ini properties in name order and later DSNs dropped |
| PropertySource.StreamOfWritten | src/driver/cpp/ConnStringPropertyReader.h:97-165 | The same from the start of the string for every written list of well-formed pairs |
| PropertySource.ExpandAt | src/driver/cpp/ConnStringPropertyReader.h:97-165 | The expanded properties are those before the first DSN, its non-empty ini properties, and those behind it without any DSN |
| PropertySource.StreamOfJoined | src/driver/cpp/ConnStringPropertyReader.h:97-165 | The same for a plainly joined list of well-formed pairs |
| PropertyReaders.ArrayIterator.Advance | src/driver/cpp/ArrayIterator.h:75-81 | The pointer moves one name and the result says whether one is left |
| PropertyReaders.IniPropertyReader.Read | src/driver/cpp/IniPropertyReader.h:74-102 | The loop finds the next non-empty property and leaves the shared iterator behind it, or at the end |
| PropertyReaders.ConnStringPropertyReader.TakeSegment | src/driver/cpp/ConnStringPropertyReader.h:115-149 | The pointer moves past the segment that is returned, and stays on an error |
| PropertyReaders.ConnStringPropertyReader.Read | src/driver/cpp/ConnStringPropertyReader.h:97-165 | The self-recursive read over the two readers and the shared iterator refines the specified step and terminates |
| PropertyReaders.LookupIgnoringCase | src/driver/cpp/ConnStringPropertyReader.h:204-225 | Scanning the hash map in any order finds the resolution of the name |
| PropertyReaders.ReadAll | src/driver/cpp/ConnStringPropertyReader.h:173-289 | The reading loop with its five variables refines the fold over the drained stream, and terminates |
| ConnProperties.FoldMeans | src/driver/cpp/ConnStringPropertyReader.h:199-288 | Server and port are those of the last property of their role, a given user or password wins and otherwise that of the first non-empty property does, every native name has the value of its last property, by position in the list; unknown names only raise the information flag |
| ConnProperties.HitsHaveEnds | src/driver/cpp/ConnStringPropertyReader.h:199-288 | Either no position matters or there is a first and a last one, so these cases are all |
| ConnProperties.FoldInfo | src/driver/cpp/ConnStringPropertyReader.h:218-224 | Information is reported if and only if some name is unknown |
| ConnProperties.FoldFailsIff | src/driver/cpp/ConnStringPropertyReader.h:226-262 | Reading fails if and only if some property is refused: a foreign driver, a bad port, or an empty user while none is known |
| ConnProperties.WrittenStringMeans | src/driver/cpp/ConnStringPropertyReader.h:173-289 | Reading a whole connection string, DSN included: it fails if and only if some expanded property is refused; otherwise server, user and port are those these properties give by their positions, the port 1527 unless a positive one is given, user and password go into the map under their keys, and information is reported exactly for an unknown name |
| ConnProperties.ServerPrecedence | src/driver/cpp/ConnStringPropertyReader.h:97-165 | In a string with a DSN the last server behind the DSN wins, else the last one of the DSN, else the last one before it, else the given one |
| ConnProperties.UnknownNamesIgnored | src/driver/cpp/ConnStringPropertyReader.h:218-224 | Leaving out the properties with unknown names changes nothing but the information flag |
| ConnProperties.ResolveIsAnyMatch | src/driver/cpp/ConnStringPropertyReader.h:207-217 | With case-distinct keys the resolution does not depend on the order of the hash map |
| Texts.LowerLetters | src/driver/cpp/ConnStringPropertyReader.h:207-217 | Comparison without case changes the 26 letters and nothing else |
| ConnProperties.ResolvedNames | src/driver/cpp/OdbcIniKeys.cpp:256-272 | A key means itself, a name that begins with snappydata. or spark. is passed through, and any other name needs a key that it matches but for case and dashes |
| ConnProperties.DashesRemoved | src/driver/cpp/ConnStringPropertyReader.h:207 | A dash anywhere in a name makes no difference, and all other characters stay |
| ConnProperties.DriverAcceptedIff | src/driver/cpp/ConnStringPropertyReader.h:226-238 | A driver name, in braces or not, is accepted if and only if it has the library's file name in it or starts with the product's, new or old, in any case |
| Decimals.DecimalRoundTrip | src/driver/cpp/ConnStringPropertyReader.h:244-252 | A printed port is consumed whole by strtol and read back |
| Decimals.StrToLMeans | src/driver/cpp/ConnStringPropertyReader.h:244-252 | strtol on any text: white space, a sign and digits are consumed and give the number as far as 64 bits go; without digits nothing is |
| ConnProperties.PortAcceptedIff | src/driver/cpp/ConnStringPropertyReader.h:244-252 | A port is accepted if and only if it is such a number with nothing behind it, or empty |
| OdbcIniKeys.KeysDiffer | src/driver/cpp/OdbcIniKeys.cpp:51-93 | No two keys of the driver agree but for case |
| OdbcIniKeys.TableCaseDistinct | src/driver/cpp/OdbcIniKeys.cpp:116-226 | So the table that init builds is case-distinct, whatever its keys stand for |
| OdbcIniKeys.KeyResolvesInAnyCase | src/driver/cpp/OdbcIniKeys.cpp:256-272 | A name that is a key but for case and dashes resolves to that key |
| OdbcIniKeys.DashedNameResolves | src/driver/cpp/ConnStringPropertyReader.h:204-217 | "load-balance" finds the key LoadBalance of the driver's table |
| OdbcIniKeys.TableEntries | src/driver/cpp/OdbcIniKeys.cpp:116-226 | The table has exactly the inserted keys, each with its own property |
| OdbcIniKeys.KeyTable.Init | src/driver/cpp/OdbcIniKeys.cpp:116-226 | init fills the map with the whole table and the list with the keys in order |
| OutputConnString.PrintConnString | src/driver/cpp/SnappyConnection.cpp:183-191 | The printing loop joins server, port and the properties, in whatever order the map is walked |
| OutputConnString.FoldItems | src/driver/cpp/ConnStringPropertyReader.h:199-275 | Folding printed properties adds exactly them to the settings |
| OutputConnString.FinishRestores | src/driver/cpp/ConnStringPropertyReader.h:279-288 | After the fold, user and password return to the map they were printed from |
| OutputConnString.OutputStringReadsBack | src/driver/cpp/SnappyConnection.cpp:183-191 | readProperties on the output connection string returns the same server, port and property map |
| OutputConnString.DriverTableUsable | src/driver/cpp/OdbcIniKeys.cpp:116-226 | The table that init builds resolves the printed lower-case server and port to their roles, whatever the native names are |
| OutputConnString.CredentialKeys | src/driver/cpp/OdbcIniKeys.cpp:116-226 | A user and password that are read go to where the driver's table keeps UID and PWD |
| OutputConnString.DriverStringReadsBack | src/driver/cpp/SnappyConnection.cpp:183-191 | With the driver's own table the output connection string of any printable property map reads back |
| SslProperties.UnpackPacked | src/SnappyDataODBCSetupInstaller/odbcSetup/ConfigSettings.cpp:376-395 | Splitting undoes packing for comma-free values |
| SslProperties.UnpackCut | src/SnappyDataODBCSetupInstaller/odbcSetup/ConfigSettings.cpp:382-394 | With a comma in a value, the first such piece is cut there and the earlier pieces survive |
| SslProperties.UnpackCompletesIff | src/SnappyDataODBCSetupInstaller/odbcSetup/ConfigSettings.cpp:376-395 | Splitting any text runs to its end if and only if every piece but the last has an equals sign |
| DsnSettings.PiecesKeep | src/SnappyDataODBCSetupInstaller/odbcSetup/ConfigSettings.cpp:259-289 | Every SSL setting is packed with the value that packing keeps, and nothing else is |
| DsnSettings.SaveLoadRestores | src/SnappyDataODBCSetupInstaller/odbcSetup/ConfigSettings.cpp:444-487 | Saving and loading without commas in SSL values: with SSL on, client-auth, truststore and ciphers come back, with two-way SSL also certificate, keystore and its password, otherwise they are empty; the AQP flag is set exactly when an AQP value is, and every other setting is as it was |
| DsnSettings.LoadCompletesIff | src/SnappyDataODBCSetupInstaller/odbcSetup/ConfigSettings.cpp:348-398 | Loading any section runs to its end if and only if SSL is off or every packed piece but the last has an equals sign |
| DsnSettings.LookedAt | src/SnappyDataODBCSetupInstaller/odbcSetup/ConfigSettings.cpp:259-289 | Which settings exist after saving and after the AQP check: those looked at appear, empty, and all keep their value |
| DsnSettings.SslRestoredIff | src/SnappyDataODBCSetupInstaller/odbcSetup/ConfigSettings.cpp:376-395 | The packed settings are restored if and only if no packed value holds a comma |
| DsnSettings.StaleKeyKept | src/SnappyDataODBCSetupInstaller/odbcSetup/ConfigSettings.cpp:386-390 | emplace never overwrites: a packed setting is restored if and only if it was absent or already equal |
| ConfigSettings.Settings.At | src/SnappyDataODBCSetupInstaller/odbcSetup/ConfigSettings.cpp:45-48 | Reading a missing key inserts an empty value |
| ConfigSettings.Settings.AppendStores | src/SnappyDataODBCSetupInstaller/odbcSetup/ConfigSettings.cpp:263-274 | The appends for any SSL connection |
| ConfigSettings.Settings.AppendClientKeys | src/SnappyDataODBCSetupInstaller/odbcSetup/ConfigSettings.cpp:275-286 | The appends for two-way SSL |
| ConfigSettings.Settings.SetSslProperties | src/SnappyDataODBCSetupInstaller/odbcSetup/ConfigSettings.cpp:259-289 | The appends amount to packing the kept settings into SSLProperties |
| ConfigSettings.SslTextIsPacked | src/SnappyDataODBCSetupInstaller/odbcSetup/ConfigSettings.cpp:259-289 | The appended text is the packed list of the kept settings |
| ConfigSettings.Settings.WriteConfiguration | src/SnappyDataODBCSetupInstaller/odbcSetup/ConfigSettings.cpp:444-500 | The section gets the driver and every key that is neither excluded nor refused; a renamed source loses its old section; nothing changes when the library refuses the source |
| ConfigSettings.Settings.ReadConfigurationDsn | src/SnappyDataODBCSetupInstaller/odbcSetup/ConfigSettings.cpp:348-398 | Reading merges the section, sets the AQP flag and splits SSLProperties as specified |
| ConfigSettings.Settings.MergeSection | src/SnappyDataODBCSetupInstaller/odbcSetup/ConfigSettings.cpp:356-369 | Settings read from the section override those held |
| ConfigSettings.Settings.EmplacePieces | src/SnappyDataODBCSetupInstaller/odbcSetup/ConfigSettings.cpp:377-395 | The iterator loop emplaces exactly the split pieces |
| ConfigSettings.Settings.UpdateConfiguration | src/SnappyDataODBCSetupInstaller/odbcSetup/ConfigSettings.cpp:507-539 | The given values override, and a given name and driver are remembered |
| ConnAttributes.ReplayApplies | src/driver/cpp/SnappyConnection.cpp:201-215 | The replay fails if and only if it meets a value that is not acceptable or throws when it is applied; otherwise every stored attribute but the login timeout is in force and nothing else changed |
| ConnAttributes.ConnectFailsIff | src/driver/cpp/SnappyConnection.cpp:178-216 | Connect reports an error if and only if the connection is open, the native open throws, or some stored value is not acceptable or throws when applied; it leaves the connection open unless the open threw |
| ConnAttributes.ReplayStops | src/driver/cpp/SnappyConnection.cpp:201-215 | A replay that does not go through has put the values before the first one that does not apply in force; the other settings are as at the start, but for a translation library that could not be replaced |
| ConnAttributes.UnsetIsNative | src/driver/cpp/SnappyConnection.cpp:178-221 | Connecting leaves the driver's own settings that are not stored as they were, and takes the others from the new native connection |
| ConnAttributes.ReplayOrderIndependent | src/driver/cpp/SnappyConnection.cpp:201-215 | When all values apply, the result of connect does not depend on the order of the attribute map |
| ConnAttributes.HistorySynced | src/driver/cpp/SnappyConnection.cpp:424-542 | Over every history of calls with valid values that do not throw, an open connection has every stored attribute in force |
| ConnAttributes.LastSetStored | src/driver/cpp/SnappyConnection.cpp:424-486 | Over every history, valid or not, the stored value of an attribute is that of the last call that set it |
| ConnAttributes.OpenConnectionHasLastValues | src/driver/cpp/SnappyConnection.cpp:289-422 | Over every such history each setting of an open connection is what the last call that set it asked for, before or after connect and across reconnects: on for 1 and off for 0, milliseconds for seconds, the isolation level, the text or the number |
| ConnAttributes.SetBeforeOrAfter | src/driver/cpp/SnappyConnection.cpp:202-215 | Setting a valid value before connect or right after it leaves the same state |
| ConnAttributes.SetFailsIff | src/driver/cpp/SnappyConnection.cpp:424-542 | Setting fails if and only if the attribute is not supported, cannot be set on an open connection, or the connection is open and the value is not valid or throws |
| ConnAttributes.SetChanges | src/driver/cpp/SnappyConnection.cpp:289-422 | It changes no other attribute or setting, and its own setting only on an open connection and to what the value means; a throwing translation library is gone, any other setting as before |
| ConnAttributes.ClosedAndOpenedAgain | src/driver/cpp/SnappyConnection.cpp:269-287 | A close, also one that throws and leaves the connection closed, keeps the stored values, and a next connect opens the connection again; a closed one cannot be closed |
| ConnAttributes.UncheckedValue | src/driver/cpp/SnappyConnection.cpp:429-439 | A bad value set before connect succeeds and makes connect fail with the connection open |
| ConnAttributes.HistoryAccounted | src/driver/cpp/SnappyConnection.cpp:455-486 | Over every history, valid or not, each string copy is owned by one attribute or was freed once, never both and never neither |
| ConnAttributes.LifeFreesEverythingOnce | src/driver/cpp/SnappyConnection.cpp:118-132 | At the end of any life every string copy ever made has been freed exactly once |
| ConnectionState.SnappyConnection.StoreValue | src/driver/cpp/SnappyConnection.cpp:429-486 | Stores the value, copying a string and freeing the one it replaces |
| ConnectionState.SnappyConnection.SetAttribute | src/driver/cpp/SnappyConnection.cpp:424-542 | setAttribute refines the specified step in all branches |
| ConnectionState.SnappyConnection.Connect | src/driver/cpp/SnappyConnection.cpp:178-221 | The replay loop, with its early return, a native open that may throw and attributes that may, refines the specified connect |
| ConnectionState.SnappyConnection.Disconnect | src/driver/cpp/SnappyConnection.cpp:269-287 | Closes an open connection, reports a native close that throws, and fails on a closed one |
| ConnectionState.SnappyConnection.FreeAttributes | src/driver/cpp/SnappyConnection.cpp:118-132 | The destructor's loop frees the copies of the string attributes in map order |
| HandleRegistry.RemoveFirstAt | src/driver/cpp/SnappyEnvironment.cpp:536-542 | Erasing at the first match is removing the first occurrence |
| HandleRegistry.StepConsistent | src/driver/cpp/SnappyConnection.cpp:71-116 | Every call keeps the registry invariant |
| HandleRegistry.HistoryConsistent | src/driver/cpp/SnappyEnvironment.cpp:436-544 | After every history each live connection is listed exactly once, in its own environment, each live environment once, and no connection outlives its environment |
| HandleRegistry.NothingInUseIsFreed | src/driver/cpp/SnappyConnection.cpp:89-109 | Over every history no call deletes an open connection or an environment that still has connections |
| HandleRegistry.FreeEnvironmentIff | src/driver/cpp/SnappyEnvironment.cpp:436-477 | Freeing an environment succeeds if and only if all connections made in it have been freed; then it is gone and all others keep their place, and otherwise nothing changes |
| HandleRegistry.FreeConnectionIff | src/driver/cpp/SnappyConnection.cpp:89-109 | Freeing a connection succeeds if and only if it is closed and its destructor records no error; a closed one is gone either way: the list search always finds it, and afterwards it is in no list while all others keep their place |
| HandleRegistry.OpenIffLastOpened | src/driver/cpp/SnappyConnection.cpp:178-287 | Over every history a connection is open if and only if the last call that opened or closed it opened it; opening and closing succeed accordingly |
| HandleRegistry.NewConnectionLive | src/driver/cpp/SnappyConnection.cpp:71-87 | A new connection is live, closed and last in its environment's list; nothing else changes |
| HandleRegistry.EveryActiveVisitedOnce | src/driver/cpp/SnappyEnvironment.cpp:501-526 | After every history the environment-wide operation visits each open connection of the environment exactly once and nothing else |
| HandleRegistry.OverallMeans | src/driver/cpp/SnappyEnvironment.cpp:505-525 | Its result is an error if and only if some visit was, success if and only if all were, information if and only if some and nothing worse |
| DriverHandles.SnappyEnvironment.RemoveActiveConnection | src/driver/cpp/SnappyEnvironment.cpp:530-544 | The loop removes the first occurrence, or reports no data |
| DriverHandles.SnappyEnvironment.ForEachActiveConnection | src/driver/cpp/SnappyEnvironment.cpp:491-528 | The loop visits the open connections in order and folds their codes as specified |
| DriverHandles.Handles.NewEnvironment | src/driver/cpp/SnappyEnvironment.cpp:420-434 | A fresh environment is registered; the invariant is kept |
| DriverHandles.Handles.FreeEnvironment | src/driver/cpp/SnappyEnvironment.cpp:436-477 | Refines the specified step with its search loop; the invariant is kept |
| DriverHandles.Handles.NewConnection | src/driver/cpp/SnappyConnection.cpp:71-87 | A fresh connection registers itself in its environment; a null handle is refused |
| DriverHandles.Handles.FreeConnection | src/driver/cpp/SnappyConnection.cpp:89-109 | Refines the specified step through the back pointer to the environment, the error the destructor may record included; the invariant is kept |
| DriverHandles.Handles.Open | src/driver/cpp/SnappyConnection.cpp:178-221 | Opening changes only which connections are open |
| DriverHandles.Handles.Close | src/driver/cpp/SnappyConnection.cpp:269-287 | Closing changes only which connections are open, also when the native close throws |
| StatementCursor.StepMatches | src/driver/cpp/SnappyStatement.cpp:62-81 | Every call keeps the cursor attached to the held result set, or detached if there is none |
| StatementCursor.HistoryMatches | src/driver/cpp/SnappyStatement.cpp:1958-2047 | Over every history and all native answers, failures before and after a result set is given included, the cursor is attached if and only if a result set is held, and to that one |
| StatementCursor.GetDataNeedsResultSet | src/driver/cpp/SnappyStatement.cpp:2382-2410 | getData, which checks only the cursor, finds a row exactly when a result set is held and the cursor is on one of its rows; without a buffer its code says the same |
| StatementCursor.OpenCursorBlocks | src/driver/cpp/SnappyStatement.cpp:3424-3433 | With an attached cursor, execute, execute-direct and every catalog call fail and change nothing |
| StatementCursor.CloseLetsThrough | src/driver/cpp/SnappyStatement.cpp:4371-4392 | Closing a held result set detaches the cursor unless the native close throws; there is then nothing to close, and the next call that yields a result set is let through |
| StatementCursor.CallFailsIff | src/driver/cpp/SnappyStatement.cpp:1890-2047 | After any history a call of any kind reports an error if and only if one of its own reasons is met |
| StatementCursor.PreparedByLast | src/driver/cpp/SnappyStatement.cpp:1890-2047 | Over every history a statement is prepared as the last call that decided it left it (prepare, a direct execution with or without parameters, a catalog call), and at first it is not |
| StatementCursor.ResultByLast | src/driver/cpp/SnappyStatement.cpp:1958-2047 | Over every history a native result is set as the last execution or free left it |
| StatementCursor.ParamsSinceDropped | src/driver/cpp/SnappyStatement.cpp:1863-1922 | Over every history the number of parameters is the greatest one bound since the last call that dropped them |
| StatementCursor.FetchedRowIsRead | src/driver/cpp/SnappyStatement.cpp:2332-2363 | After any history, a prepared or direct execution, a catalog call or a call for more results that yields a result set, and k fetches, getData reads the k-th row of it, and fails before the first fetch and after the last row |
| StatementCursor.ProducesIff | src/driver/cpp/SnappyStatement.cpp:1958-2047 | A call yields a result set if and only if it is let through, its binding succeeds and the native client gives one, and with which code |
| StatementCursor.ScrollLands | src/driver/cpp/SnappyStatement.cpp:2251-2330 | After any history a scroll in any orientation lands on the row it means, which getData then reads, or reports no data; offsets count as far as 32 bits |
| StatementCursor.MoreResultsMeans | src/driver/cpp/SnappyStatement.cpp:4271-4302 | The next result set is held with its cursor before the first row, or none and the cursor is detached, with the code of each case |
| StatementCursor.ReadingIsHeld | src/driver/cpp/SnappyStatement.cpp:2382-2410 | Whatever getData reads is a row of the held result set |
| CursorStatement.SnappyStatement.History | src/driver/cpp/SnappyStatement.cpp:1958-2047 | Any history of calls on the object, with a getData after each, keeps the cursor object attached exactly while a result set is held and reads only rows of the result set held at that moment |
| BoundedStrings.RestrictIsNearest | src/driver/cpp/StringFunctions.h:77-84 | The restricted length is in range, monotone, and unchanged if and only if it was in range |
| BoundedStrings.CopyString | src/driver/cpp/StringFunctions.cpp:51-93 | The buffer gets the longest prefix and a terminator, truncation is reported if and only if length >= size, and a null source gives the null length |
| BoundedStrings.CopyTerminated | src/driver/cpp/StringFunctions.cpp:55-64 | In-place copy of a prefix and its terminator; the rest of the buffer is untouched |
| BoundedStrings.ReadsLongestPrefix | src/driver/cpp/StringFunctions.cpp:51-68 | A caller reads the longest prefix that fits, nothing beyond the stated size changes, and without room nothing is written |
| BoundedStrings.GetStringValue | src/driver/cpp/SnappyConnection.cpp:150-172 | Buffer, code and reported length, with and without a buffer |
| BoundedStrings.ReportIndependentIff | src/driver/cpp/SnappyConnection.cpp:163-170 | For texts of any length, the reported length does not depend on the buffer if and only if the text has no early terminator or both lengths are clamped |
| BoundedStrings.RetryCompletesIff | src/driver/cpp/SnappyConnection.cpp:150-172 | A retry with the reported length plus one is complete if and only if nothing was clamped |
| BoundedStrings.ConnStrLenIs | src/driver/cpp/SnappyConnection.cpp:192-199 | The output connection string's length, clamped to 64, 32 and 16 bits, is clamped once to 32767, and terminators inside the string do not count |
| BoundedStrings.ConnectRetryCompletesIff | src/driver/cpp/SnappyConnection.cpp:192-199 | A connect retried with that length plus one returns the whole string if and only if it has at most 32767 characters |
| Delimiters.JoinSplits | src/driver/cpp/StringFunctions.cpp:148-171 | The pieces hold no delimiter and join to the text |
| Delimiters.SplitJoins | src/driver/cpp/StringFunctions.cpp:148-171 | Splitting a joined list of delimiter-free pieces gives the list back |
| Delimiters.SplitNarrow | src/driver/cpp/StringFunctions.cpp:148-171 | The pointer loop appends the pieces of the text up to its length or terminator |
| Delimiters.SplitWide | src/driver/cpp/StringFunctions.cpp:173-191 | The buffer loop appends the same pieces, each unit cut to its low byte |
| Delimiters.WideAgreesIff | src/driver/cpp/StringFunctions.cpp:148-191 | The wide pieces join back to the text, and equal the narrow ones, when all units fit a byte, and only then |
| InstallerAttributes.ParseAttributes | src/SnappyDataODBCSetupInstaller/sqlodbcInstaller.cpp:188-227 | The loop over the two separators computes the specified parse and terminates |
| InstallerAttributes.ParseInserts | src/SnappyDataODBCSetupInstaller/sqlodbcInstaller.cpp:197-224 | Non-empty entries are inserted in order; what follows an empty entry is not looked at |
| InstallerAttributes.ParsesFirstWins | src/SnappyDataODBCSetupInstaller/sqlodbcInstaller.cpp:188-227 | The parse of any joined list of well-formed pairs is the map of the first value of each key |
| FunctionBitmap.OrBitSets | src/driver/cpp/SnappyDriverAPIs.cpp:355 | Or-ing in one bit sets that bit and no other |
| FunctionBitmap.FillBits | src/driver/cpp/SnappyDriverAPIs.cpp:349-356 | Every id below 4000 has its bit set if and only if it is in the list; nothing beyond 250 words changes |
| FunctionBitmap.FillEntries | src/driver/cpp/SnappyDriverAPIs.cpp:357-364 | Every entry below 100 is true if and only if its id is in the list; nothing beyond changes |
| FunctionBitmap.Supports | src/driver/cpp/SnappyDriverAPIs.cpp:366-372 | The single answer is list membership |
| FunctionBitmap.SqlGetFunctions | src/driver/cpp/SnappyDriverAPIs.cpp:333-375 | The dispatch on the function id and the null checks |
| FunctionBitmap.AnswersAgree | src/driver/cpp/SnappyDriverAPIs.cpp:349-364 | Bit vector and array agree on every id below 100 |

## Left out

- The native client (connections, result sets, prepared statements, network, server), the ODBC installer library and the ini file are parameters or small value models; their code is not part of this model.
- Locks, logging, diagnostics records, warnings other than their presence, and C++ exceptions other than those named in a call's parameters. The native cursor's attaching to a result set is taken not to fail.
- UTF-8 and UTF-16 conversion: texts are sequences of code units, and the readers of connection strings are modelled for narrow text.
- Column and parameter types: text, all integer types, SQL_C_NUMERIC (for columns), binary (for parameters) and an unsupported type stand for the conversion switches; floating point, date and wide-text conversions, single-field intervals and the type mapping tables are left out.
- Output parameters, bulk operations, bookmarks (the code refuses them), SQLSetPos, and the conversions of SQLFetchScroll; scrolling is modelled for what it does to the cursor, and a negative position is taken to count from the end, as the native client does.
- RowLayout.SlotReadsBack: covers text, the integer types and SQL_C_NUMERIC; for SQL_C_LONG the value is read at the four bytes stored, whatever the eight the code reports; the native client's cut of a number to its whole part is a parameter that fills all sixteen bytes, or none when it does not fit.
- FetchEngine.RowsetDelivered: null indicator pointers, zero-size columns and buffers that overlap or are too small are excluded by well-formed buffers; RowLayout.NullIndicatorSeenIff and RowLayout.ElementsApartIff say exactly what the code does with them.
- FetchEngine.CallDelivers: cells that do not convert are excluded here and covered by FetchEngine.FetchFailsIff and FetchEngine.RunSkipsFailures; the code returned is that of FetchEngine.LastCellDecides.
- FetchEngine.RunDeliversResult: a text longer than 2^63 - 1 bytes or an integer outside its C type has no reading to compare with; such cells are excluded.
- FetchEngine.RunSkipsFailures: conversions that throw are excluded, because the application cannot tell from the old row count which slots were filled; FetchEngine.FetchFailsIff covers each such call.
- FetchStatement.Statement.Next: conversions may throw; exceptions of the cursor movement and of reading warnings are not modelled.
- DataAtExec.SessionSends: the session is one with a single parameter set; an unsupported parameter type and parameters never bound are excluded; the application may change its buffers between the calls but not which parameters are pending; the address that getParamData assigns to its own argument never reaches the caller, so the model observes the current index instead.
- DataAtExec.BlockedForever: SQLPrepare and SQLExecDirect, which make a new statement, are not among the later calls.
- Parameters.ReadValuePassed: a length beyond the end of the memory that the application passes has no meaning.
- ParamStatement.Statement.BindParameterAt: text, binary and integer types and an unsupported type stand for the switch, and the registration of output parameters is left out.
- ParamStatement.Statement.ExecutePrepared: the guard on an unprepared statement is in StatementCursor.CallFailsIff; native exceptions are not modelled here.
- ArrayBinding.BatchIntendedIff: data-at-execution parameters and length pointers to temporaries are excluded; neither belongs to an array binding.
- Intervals.EncodeExactIff: a negative year-to-month interval whose 32-bit total cannot be negated is excluded, and fractions are dropped by the code.
- GuidText.GuidTextRoundTrip: a text that does not scan completely leaves fields of the structure unset; only texts of GUID shape are covered.
- PropertySource.StreamOfWritten: names with leading blanks of their own, `=` or `;` and values with `;` are excluded; PropertySource.SegmentReadIff covers every segment.
- PropertyReaders.ReadAll: system properties are collected in a map instead of being set for the process.
- OdbcIniKeys.TableCaseDistinct: the native name and flags of each key come from the native client's attribute table and are a parameter.
- OdbcIniKeys.KeyTable.Init: the exceptions of init, and the count of skipped properties that it checks, are not modelled.
- OutputConnString.OutputStringReadsBack: the driver name constant is that of the Linux library; properties whose names do not resolve to themselves, and values with semicolons, are excluded.
- SslProperties.UnpackPacked: a piece without `=` that is not the last one makes the code build a string with its ends exchanged; the model reports that the split does not complete.
- ConfigSettings.Settings.WriteConfiguration: a data source that the library refuses is taken to leave the ini file unchanged; when settings are read, a section is a map without empty values, and the growth of the read buffer is left out.
- ConnAttributes.OpenConnectionHasLastValues: histories in which applying a value throws are excluded here; ConnAttributes.LastSetStored and ConnAttributes.ConnectFailsIff cover them.
- ConnectionState.SnappyConnection.StoreValue: a string is copied as a whole; the length that the caller may pass with it is not modelled.
- ConnectionState.SnappyConnection.Connect: the output string is in OutputConnString and BoundedStrings; a native open that throws is taken to leave the connection closed.
- HandleRegistry.HistoryConsistent: calls are sequential and pass live handles or null, as the driver manager guarantees; initialisation of the library is left out.
- DriverHandles.SnappyEnvironment.ForEachActiveConnection: the operation on a connection is a function of the connection that changes no handle.
- Delimiters.SplitNarrow: the one unit that the loop reads behind an explicit length must be readable; its value has no effect.
- BoundedStrings.CopyString: conversion between narrow and wide text before copying is left out.
- FunctionBitmap.SqlGetFunctions: the concrete function ids come from the ODBC headers and are a parameter, required to be below 4000.
- Dialogs, driver installation, SQLGetInfo, column attributes and type tables: they are tables, prompts and one-step getters without state of their own.
