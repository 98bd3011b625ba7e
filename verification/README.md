# ArangoDB core pieces, modelled in Dafny

This project models five small parts of ArangoDB and proves what they promise.

- **RETURN executor** (`return_executor.dfy`, module `ReturnExecution`, on top of `aql_core.dfy`). Each `produceRow` call pulls one row from a single-row fetcher. In inherit mode it copies the whole row to the output. In project mode it moves the value of the input register into output register 0 and leaves the input cell moved-out. It counts the produced row when asked to, and it passes the fetcher's state through unchanged. The fetcher, the output block and the executor are classes whose methods update their fields. `ProduceRow` is proved against the function `ProduceRowSpec`; the fetcher and output-block methods state their own field updates.
- **Materialising fetcher** (`all_rows_fetcher.dfy`, module `AllRowsFetching`). `fetchAllRows` pulls blocks from a scripted dependency proxy until DONE and collects them into an `AqlItemMatrix`. A WAITING reply is passed on with no matrix, and blocks received before it are kept. After DONE, the same matrix object comes back on every call without asking upstream again. The proxy counts its fetch calls. Two of the repository's test scenarios are replayed as verified methods.
- **LIMIT statistics** (`limit_stats.dfy`, module `LimitStatistics`). A `size_t` full count that wraps modulo 2^64. It has increments, copies, moves that zero their source, and the two `+=` overloads.
- **Hex dump** (`hex_dump.dfy`, module `HexDumping`). `toHex` turns a byte into `0x` plus two lowercase hex digits. `toString` is the loop with its `current` counter. It joins the tokens with a separator and inserts a line break before every value whose index is a positive multiple of `valuesPerLine`.
- **Document REST helpers** (`rest_vocbase.dfy`, module `RestVocbaseBase`, with the decimal text of `decimal.dfy`, module `DecimalText`):
  - the revision taken from an ETag-style header, with its two trimming loops, or from a URL parameter;
  - the update policy and waitForSync parameters;
  - the transaction-error status table;
  - the handle, location, ETag and body of a written document.

## Model

| member | source | states |
|---|---|---|
| ReturnExecution.MakeReturnExecutorInfos | arangod/Aql/ReturnExecutor.cpp:46-58 | input register set is {inputRegister}; output set is {} in inherit mode and {0} in project mode; nothing to clear or keep; flags and counts stored as given |
| ReturnExecution.ScriptedRowFetcher.FetchRow | arangod/Aql/ReturnExecutor.cpp:72-73 | hands out the next reply's state, and a valid row view exactly when the reply has a row; an exhausted script answers DONE with the invalid row |
| ReturnExecution.ScriptedRowFetcher.StealValue | arangod/Aql/ReturnExecutor.cpp:89 | returns the register's former value and leaves that one cell moved-out, nothing else changed |
| ReturnExecution.OutputBlock.CopyRow | arangod/Aql/ReturnExecutor.cpp:87 | appends the input row unchanged |
| ReturnExecution.OutputBlock.CloneValueInto | arangod/Aql/ReturnExecutor.cpp:94 | appends a row holding exactly the value in the output register |
| ReturnExecution.ProduceRowSpec | arangod/Aql/ReturnExecutor.cpp:67-102 | state is the fetcher's state; output is written iff the reply is not WAITING and has a row; WAITING or no row leaves the input untouched with zero stats; inherit mode outputs the input row itself; project mode outputs {0: old value} and leaves the input cell moved-out; counted is 1 iff a row was produced and doCount is set |
| ReturnExecution.ReturnExecutor.constructor | arangod/Aql/ReturnExecutor.cpp:60-62 | the executor is only built with `passBlocksThrough == returnInheritedResults`, the assertion of line 85 |
| ReturnExecution.ReturnExecutor.ProduceRow | arangod/Aql/ReturnExecutor.cpp:67-102 | returned state, stats, output rows and the fetcher's script and cursor are exactly those `ProduceRowSpec` gives for the reply the fetcher hands out |
| ReturnExecution.DeliveredRows | arangod/Aql/ReturnExecutor.cpp:80-86 | at most one delivered row per reply |
| ReturnExecution.DriveProducesDeliveredRows | arangod/Aql/ReturnExecutor.cpp:86-100 | over any script: one output row per delivered row, in order; inherit mode outputs the rows themselves; project mode outputs each row's input register in register 0; the count is the number of rows with doCount and 0 without |
| AllRowsFetching.BlocksIn | tests/Aql/AllRowsFetcherTest.cpp:234-241 | at most one block per reply |
| AllRowsFetching.NextStop | tests/Aql/AllRowsFetcherTest.cpp:288-300 | the first reply at or after a position that is not HASMORE: all replies before it are HASMORE |
| AllRowsFetching.DependencyProxyMock.constructor | tests/Aql/AllRowsFetcherTest.cpp:52-57 | a fresh proxy has consumed nothing and counted no calls |
| AllRowsFetching.DependencyProxyMock.FetchBlock | tests/Aql/AllRowsFetcherTest.cpp:80-81 | every call is counted; it hands out the next scripted reply, or DONE without a block once the script is used up |
| AllRowsFetching.AqlItemMatrix.constructor | tests/Aql/AllRowsFetcherTest.cpp:62-66 | a new matrix has the register count given and no blocks |
| AllRowsFetching.DependencyProxyMock.AllBlocksFetched | tests/Aql/AllRowsFetcherTest.cpp:75 | true exactly when no scripted reply is left to hand out |
| AllRowsFetching.AqlItemMatrix.Size | tests/Aql/AllRowsFetcherTest.cpp:66 | the number of rows over all blocks, 0 when no block is held |
| AllRowsFetching.AqlItemMatrix.Empty | tests/Aql/AllRowsFetcherTest.cpp:65 | empty exactly when no block is held; an empty matrix has size 0 |
| AllRowsFetching.AqlItemMatrix.GetRow | tests/Aql/AllRowsFetcherTest.cpp:256 | the row a valid index points to is one of the matrix's rows |
| AllRowsFetching.RowsOfContains | tests/Aql/AllRowsFetcherTest.cpp:252-259 | every row of every block is among the rows of the run |
| AllRowsFetching.AqlItemMatrix.AddBlock | tests/Aql/AllRowsFetcherTest.cpp:246-251 | appends the block after those already held |
| AllRowsFetching.AqlItemMatrix.ProduceRowIndexes | tests/Aql/AllRowsFetcherTest.cpp:252-259 | one valid index per row, and the row at index i is the i-th row of the matrix |
| AllRowsFetching.BlocksInStep | tests/Aql/AllRowsFetcherTest.cpp:239-241 | one more reply adds its block, if any, at the end |
| AllRowsFetching.RowsOfSnoc | tests/Aql/AllRowsFetcherTest.cpp:252-259 | one more block adds its rows at the end |
| AllRowsFetching.RowsOfAppend | tests/Aql/AllRowsFetcherTest.cpp:234-259 | the rows of two runs of blocks are the rows of the first followed by those of the second |
| AllRowsFetching.BlocksInAppend | tests/Aql/AllRowsFetcherTest.cpp:272-311 | blocks of two runs of replies are concatenated in order |
| AllRowsFetching.BlocksInSnoc | tests/Aql/AllRowsFetcherTest.cpp:239-241 | one more reply adds its block, if any, after the blocks so far |
| AllRowsFetching.BlocksBehindWaits | tests/Aql/AllRowsFetcherTest.cpp:277-282 | for any three blocks, each behind a WAITING with the last one delivered with DONE: the blocks come out in order and the WAITING replies add nothing |
| AllRowsFetching.BlocksInSplit | tests/Aql/AllRowsFetcherTest.cpp:287-311 | blocks collected before and after a WAITING are the blocks of the whole stretch in order: suspension neither drops nor reorders |
| AllRowsFetching.NoRowsIffNoBlocks | tests/Aql/AllRowsFetcherTest.cpp:62-66 | with non-empty blocks, the matrix has size 0 exactly when it is empty |
| AllRowsFetching.StopsAtFirstDone | tests/Aql/AllRowsFetcherTest.cpp:272-322 | a call started before the first DONE stops at it, or earlier only at a WAITING |
| AllRowsFetching.AllRowsFetcher.constructor | tests/Aql/AllRowsFetcherTest.cpp:60 | starts with no matrix, nothing fetched |
| AllRowsFetching.AllRowsFetcher.FetchBlock | tests/Aql/AllRowsFetcherTest.cpp:76 | exactly one upstream call, the state remembered |
| AllRowsFetching.AllRowsFetcher.StoppedIsValid | tests/Aql/AllRowsFetcherTest.cpp:86-94 | stopping at a WAITING or DONE reply leaves the fetcher in a consistent state |
| AllRowsFetching.AllRowsFetcher.DoneAfterFirstDone | tests/Aql/AllRowsFetcherTest.cpp:320-321 | once DONE, exactly the replies up to the first DONE were fetched, one call each, and the matrix holds their blocks in order |
| AllRowsFetching.AllRowsFetcher.PullBlock | tests/Aql/AllRowsFetcherTest.cpp:239-241 | one upstream call; a block that comes with HASMORE or DONE is appended to the matrix |
| AllRowsFetching.AllRowsFetcher.FetchUntilDone | tests/Aql/AllRowsFetcherTest.cpp:234-269 | pulls up to the next non-HASMORE reply, one call per reply; the matrix is created once and kept |
| AllRowsFetching.AllRowsFetcher.FetchAllRows | tests/Aql/AllRowsFetcherTest.cpp:56-375 | after DONE: DONE, the same matrix, no upstream call; otherwise one call per reply up to the next non-HASMORE one; WAITING gives a null matrix; DONE gives the matrix holding the blocks of all replies consumed, in order, with the proxy's register count |
| AllRowsFetching.WaitsScriptShape | tests/Aql/AllRowsFetcherTest.cpp:277-282 | the script of the scenario is well formed and stops at replies 0, 2, 4 and 5 |
| AllRowsFetching.WaitsScriptBlocks | tests/Aql/AllRowsFetcherTest.cpp:274-282 | the scenario's replies carry the blocks [1,2,3], [4,5], [6] in order |
| AllRowsFetching.WaitsScriptRows | tests/Aql/AllRowsFetcherTest.cpp:304-311 | the scenario's matrix rows are 1..6 in order |
| AllRowsFetching.MultipleBlocksProducerWaits | tests/Aql/AllRowsFetcherTest.cpp:272-322 | three WAITING results, then DONE with rows 1..6, then DONE with the same matrix; 6 fetch calls and all replies consumed |
| AllRowsFetching.NoBlocksProducerWaits | tests/Aql/AllRowsFetcherTest.cpp:79-105 | WAITING with a null matrix, then DONE with an empty matrix of size 0, then DONE with the same matrix; 2 fetch calls and all replies consumed |
| LimitStatistics.AddSizeT | arangod/Aql/LimitStats.h:50-51 | `size_t` addition: the exact sum below 2^64, the sum minus 2^64 above |
| LimitStatistics.LimitStats.constructor | arangod/Aql/LimitStats.h:35 | a fresh count is 0 |
| LimitStatistics.LimitStats.Copy | arangod/Aql/LimitStats.h:37 | the copy equals the source |
| LimitStatistics.LimitStats.CopyAssign | arangod/Aql/LimitStats.h:38 | the target takes the source's count and the source is unchanged |
| LimitStatistics.LimitStats.Move | arangod/Aql/LimitStats.h:40-43 | the new object takes the count and the source is left at 0 |
| LimitStatistics.LimitStats.MoveAssign | arangod/Aql/LimitStats.h:44-48 | the source is left at 0 and, unless it is the target itself, the target takes its count |
| LimitStatistics.LimitStats.IncrFullCount | arangod/Aql/LimitStats.h:50 | adds exactly 1, modulo 2^64 |
| LimitStatistics.LimitStats.IncrFullCountBy | arangod/Aql/LimitStats.h:51 | adds exactly the amount, modulo 2^64 |
| LimitStatistics.LimitStats.GetFullCount | arangod/Aql/LimitStats.h:53 | returns the current count, the value both `+=` overloads add |
| LimitStatistics.LimitStats.MergeFrom | arangod/Aql/LimitStats.h:65-68 | `a += b` sets a to the sum of both counts; b is unchanged unless it is a |
| LimitStatistics.ExecutionStats.constructor | arangod/Aql/LimitStats.h:59-63 | all counters start at 0 |
| LimitStatistics.AddToExecutionStats | arangod/Aql/LimitStats.h:59-63 | adds the limit count to `fullCount` and changes no other field and not the LimitStats |
| LimitStatistics.MergeIdentity | arangod/Aql/LimitStats.h:65-68 | a fresh LimitStats is the identity of the merge |
| LimitStatistics.MergeCommutative | arangod/Aql/LimitStats.h:65-68 | the merge is commutative |
| LimitStatistics.MergeAssociative | arangod/Aql/LimitStats.h:65-68 | the merge is associative |
| LimitStatistics.MergeAllIsSumModulo | arangod/Aql/LimitStats.h:65-68 | merging any number of counts gives their exact sum modulo 2^64 |
| LimitStatistics.MergeAllSwap | arangod/Aql/LimitStats.h:65-68 | swapping neighbouring counts does not change the merged total |
| LimitStatistics.SumSwap | arangod/Aql/LimitStats.h:65-68 | swapping neighbours does not change the exact sum |
| HexDumping.HexDigit | 3rdParty/velocypack/src/HexDump.cpp:38 | a digit below 16 becomes a character of `0-9a-f` that decodes back to it |
| HexDumping.ToHex | 3rdParty/velocypack/src/HexDump.cpp:34-43 | four characters, starting with `0x`, then two lowercase hex digits that decode to `16 * hi + lo == value`; no line break |
| HexDumping.FromHex | 3rdParty/velocypack/src/HexDump.cpp:34-43 | reads a string back exactly when it has the token shape |
| HexDumping.FromHexToHex | 3rdParty/velocypack/src/HexDump.cpp:37-40 | decoding the token of a byte gives the byte |
| HexDumping.ToHexFromHex | 3rdParty/velocypack/src/HexDump.cpp:37-40 | every well-formed token is the token of the byte it decodes to |
| HexDumping.ToString | 3rdParty/velocypack/src/HexDump.cpp:45-67 | the loop with its `current` counter produces exactly `Dump`, the value-by-value definition |
| HexDumping.DumpStep | 3rdParty/velocypack/src/HexDump.cpp:52-64 | one more byte appends its gap and its token |
| HexDumping.CounterClosedForm | 3rdParty/velocypack/src/HexDump.cpp:50-63 | after i values the counter is 0 for i = 0, (i-1) mod valuesPerLine + 1 with a positive valuesPerLine, and i otherwise |
| HexDumping.CounterDecidesGap | 3rdParty/velocypack/src/HexDump.cpp:53-59 | the counter is non-zero exactly after the first value, and equals valuesPerLine exactly before values whose index is a positive multiple of it |
| HexDumping.ModSuccessor | 3rdParty/velocypack/src/HexDump.cpp:56-58 | how the residue and quotient move from m to m + 1 |
| HexDumping.DumpLength | 3rdParty/velocypack/src/HexDump.cpp:48-64 | the length is 4n + (n-1)·|separator| + (n-1)/valuesPerLine for n ≥ 1, the last term 0 when valuesPerLine is not positive, and 0 for n = 0 |
| HexDumping.DumpPrefix | 3rdParty/velocypack/src/HexDump.cpp:52-64 | the dump of a prefix of the bytes is a prefix of the dump |
| HexDumping.LastToken | 3rdParty/velocypack/src/HexDump.cpp:53-62 | the dump ends with the last value's gap and token |
| HexDumping.TokenAt | 3rdParty/velocypack/src/HexDump.cpp:52-64 | value k appears as its own token right after its gap, at the position the lengths of the earlier values give: one token per byte, in byte order, a separator between neighbours and none before the first |
| HexDumping.EmptyDump | 3rdParty/velocypack/src/HexDump.cpp:52-66 | no bytes give the empty string |
| HexDumping.LineBreaksStep | 3rdParty/velocypack/src/HexDump.cpp:56-59 | one more value adds a line break exactly when its index is a positive multiple of valuesPerLine |
| HexDumping.GapNewlines | 3rdParty/velocypack/src/HexDump.cpp:53-59 | the gap before a value holds a line break exactly at positive multiples of valuesPerLine |
| HexDumping.NewlineCount | 3rdParty/velocypack/src/HexDump.cpp:56-59 | with a separator without line breaks, the dump has (n-1)/valuesPerLine line breaks, and none when valuesPerLine is not positive |
| HexDumping.Tokens | 3rdParty/velocypack/src/HexDump.cpp:62 | the i-th token is the token of the i-th byte |
| HexDumping.DumpIsJoin | 3rdParty/velocypack/src/HexDump.cpp:53-62 | without a positive valuesPerLine the dump is the tokens joined by the separator |
| HexDumping.ReserveAsWritten | 3rdParty/velocypack/src/HexDump.cpp:48 | the reserve expression is undefined exactly when valuesPerLine is 0 |
| HexDumping.ReserveCapacityAgrees | 3rdParty/velocypack/src/HexDump.cpp:48 | the guarded reserve agrees with the written one wherever that is defined (for a negative valuesPerLine, for lengths below 2^63), and covers the tokens and line breaks |
| HexDumping.ZeroValuesPerLineDividesByZero | 3rdParty/velocypack/src/HexDump.cpp:48-56 | with valuesPerLine 0 the reserve is undefined, while the loop, guarded at line 56, produces a plain join |
| DecimalText.DigitChar | arangod/RestHandler/RestVocbaseBaseHandler.cpp:170-171 | a digit becomes a decimal character that reads back as it |
| DecimalText.Itoa | arangod/RestHandler/RestVocbaseBaseHandler.cpp:170-171 | a non-empty run of digits without a leading zero, except for 0 |
| DecimalText.ParseUInt | arangod/RestHandler/RestVocbaseBaseHandler.cpp:505 | text that does not start with a digit reads as 0; `ParseItoa` and `ParseStopsAtNonDigit` give the round trip and where reading stops |
| DecimalText.DigitPrefix | arangod/RestHandler/RestVocbaseBaseHandler.cpp:505 | the longest leading run of digits |
| DecimalText.ValueOfItoa | arangod/RestHandler/RestVocbaseBaseHandler.cpp:170-171 | the digits of a rendered number denote it |
| DecimalText.DigitPrefixOfDigits | arangod/RestHandler/RestVocbaseBaseHandler.cpp:505 | a run of digits is its own digit prefix |
| DecimalText.ParseItoa | arangod/RestHandler/RestVocbaseBaseHandler.cpp:505 | parsing a rendered number gives it back |
| DecimalText.ItoaInjective | arangod/RestHandler/RestVocbaseBaseHandler.cpp:170-172 | different numbers render differently |
| DecimalText.ParseStopsAtNonDigit | arangod/RestHandler/RestVocbaseBaseHandler.cpp:505 | parsing stops at the first non-digit |
| DecimalText.PrefixOfDigitsWithRest | arangod/RestHandler/RestVocbaseBaseHandler.cpp:505 | the digit prefix of digits followed by a non-digit is the digits |
| RestVocbaseBase.TrimLeftShape | arangod/RestHandler/RestVocbaseBaseHandler.cpp:496-498 | left trimming cuts off a blank prefix and stops at a non-blank |
| RestVocbaseBase.TrimRightShape | arangod/RestHandler/RestVocbaseBaseHandler.cpp:500-502 | right trimming cuts off a blank suffix and stops at a non-blank |
| RestVocbaseBase.TrimShape | arangod/RestHandler/RestVocbaseBaseHandler.cpp:496-502 | the trimmed value is the infix between a blank prefix and a blank suffix, and neither starts nor ends with a space or tab |
| RestVocbaseBase.TrimRightPrefix | arangod/RestHandler/RestVocbaseBaseHandler.cpp:500-502 | right trimming keeps the first character |
| RestVocbaseBase.QuotedIsTrimmed | arangod/RestHandler/RestVocbaseBaseHandler.cpp:496-504 | a quoted value is not changed by trimming |
| RestVocbaseBase.TrimBounds | arangod/RestHandler/RestVocbaseBaseHandler.cpp:494-502 | the start index moved forward over blanks and the end index moved backward over blanks bound exactly the trimmed value |
| RestVocbaseBase.QuotedBounds | arangod/RestHandler/RestVocbaseBaseHandler.cpp:504-509 | testing the quotes at the bounds and reading the digits between them gives the revision the trimmed value names |
| RestVocbaseBase.ExtractRevision | arangod/RestHandler/RestVocbaseBaseHandler.cpp:488-525 | the index loops and quote test compute `ExtractRevisionSpec`: header present: trimmed, and the number strictly between the quotes when it is quoted and at least two long, else 0; header absent: the parameter's number when a name is given and present, else 0 |
| RestVocbaseBase.UnquotedETagIsZero | arangod/RestHandler/RestVocbaseBaseHandler.cpp:504-509 | a trimmed value shorter than 2 or not wrapped in quotes names revision 0 |
| RestVocbaseBase.BlanksAroundETag | arangod/RestHandler/RestVocbaseBaseHandler.cpp:496-505 | spaces and tabs around the value do not change the revision |
| RestVocbaseBase.TrimIgnoresBlanks | arangod/RestHandler/RestVocbaseBaseHandler.cpp:496-502 | trimming blanks-framed text gives the trimmed text |
| RestVocbaseBase.TrimLeftBlanks | arangod/RestHandler/RestVocbaseBaseHandler.cpp:496-498 | a blank prefix is trimmed away |
| RestVocbaseBase.TrimRightBlanks | arangod/RestHandler/RestVocbaseBaseHandler.cpp:500-502 | a blank suffix is trimmed away |
| RestVocbaseBase.TrimLeftAppend | arangod/RestHandler/RestVocbaseBaseHandler.cpp:496-502 | left trimming commutes with appending blanks, up to right trimming |
| RestVocbaseBase.HeaderWins | arangod/RestHandler/RestVocbaseBaseHandler.cpp:492-512 | with the header present the parameter is never consulted |
| RestVocbaseBase.ExtractUpdatePolicy | arangod/RestHandler/RestVocbaseBaseHandler.cpp:531-549 | ERROR iff absent or "error" in any case; LAST_WRITE iff "last" in any case; ILLEGAL iff present and neither |
| RestVocbaseBase.PolicyIgnoresCase | arangod/RestHandler/RestVocbaseBaseHandler.cpp:536-539 | spellings differing only in letter case select the same policy |
| RestVocbaseBase.ExtractWaitForSync | arangod/RestHandler/RestVocbaseBaseHandler.cpp:555-564 | false when the parameter is absent, otherwise the server's boolean reading of it |
| RestVocbaseBase.FirstSlash | arangod/RestHandler/RestVocbaseBaseHandler.cpp:172 | the position of the first slash, or the length when there is none |
| RestVocbaseBase.FirstSlashAt | arangod/RestHandler/RestVocbaseBaseHandler.cpp:172 | a slash with none before it is the first slash |
| RestVocbaseBase.DocumentWritten | arangod/RestHandler/RestVocbaseBaseHandler.cpp:169-188 | status as given; ETag is the revision in quotes; location is `/_api/document/` + `cid/key` |
| RestVocbaseBase.GenerateCreated | arangod/RestHandler/RestVocbaseBaseHandler.cpp:169-188 | status 201 |
| RestVocbaseBase.GenerateAccepted | arangod/RestHandler/RestVocbaseBaseHandler.cpp:194-213 | status 202 |
| RestVocbaseBase.HandleRoundTrip | arangod/RestHandler/RestVocbaseBaseHandler.cpp:172 | splitting a handle at its first slash gives back the collection id and the key, whatever the key holds |
| RestVocbaseBase.ETagRoundTrip | arangod/RestHandler/RestVocbaseBaseHandler.cpp:177 | the ETag of a written document, sent back in the revision header, reads as the revision written |
| RestVocbaseBase.TransactionError | arangod/RestHandler/RestVocbaseBaseHandler.cpp:434-482 | the generic internal error is reported exactly for codes outside the table, and status 412 exactly for a conflict; the whole table is `TransactionErrorStatus` |
| RestVocbaseBase.TransactionErrorStatus | arangod/RestHandler/RestVocbaseBaseHandler.cpp:439-481 | 400 iff collection-not-found without a name, geo, bad key or unexpected key; 404 iff collection-not-found with a name or document-not-found; 403 iff read-only; 409 iff unique violation; 412 iff conflict; 500 iff any other code, which is reported as the internal error |
| RestVocbaseBase.NotFoundNamesLocation | arangod/RestHandler/RestVocbaseBaseHandler.cpp:265-271 | the not-found message names the location a write of that document reports |
| RestVocbaseBase.ConflictNamesDocument | arangod/RestHandler/RestVocbaseBaseHandler.cpp:307-317 | a precondition failure carries the document's handle, revision and key, and the handle splits back into collection id and key |

## Left out

- `AqlValue` internals and `AqlValueGuard` ownership: a cell holds an opaque integer payload or the moved-out marker.
- The `TRI_IF_FAILURE` debug injection in `produceRow` (arangod/Aql/ReturnExecutor.cpp:91-93).
- `TRI_ASSERT` at arangod/Aql/ReturnExecutor.cpp:76 and 81: the fetcher's promise that WAITING carries no row and that a missing row means DONE is the `WellFormedReply` precondition on the scripted fetcher.
- ReturnExecution.OutputBlock.CloneValueInto: models cloning with no registers to keep, which is what the configuration built at lines 46-58 asks for. Copying kept registers from the input row is not modelled.
- ReturnExecution.ReturnExecutor.constructor: the source checks `passBlocksThrough == returnInheritedResults` only by the debug assertion inside `produceRow` (arangod/Aql/ReturnExecutor.cpp:85), once a row is delivered; the model makes it a precondition of construction, so an executor built with differing flags is not modelled.
- The fetchers' real implementations are not part of this model. Both fetchers are scripted reply queues, as the repository's tests use them.
- AllRowsFetching.DependencyProxyMock.FetchBlock: the mock's own source is not part of this model. Answering DONE without a block once the script is used up, and counting that call, is an assumption about it. No scenario in tests/Aql/AllRowsFetcherTest.cpp reaches a used-up script: every script there ends with an explicit DONE, and the fetcher makes no call after DONE. The assumption only changes the call count for a script that has no final DONE.
- The shadow-row pattern tests (tests/Aql/AllRowsFetcherTest.cpp:408-412): their bodies are not part of this model.
- Memory accounting (`ResourceMonitor`, `AqlItemBlockManager`) and `returnBlock` in destructors.
- The scenarios of tests/Aql/AllRowsFetcherTest.cpp other than lines 79-105 and 272-322 are not replayed one by one. The general contract of `AllRowsFetcher.FetchAllRows` covers them.
- AddToExecutionStats: ExecutionStats.h is not part of this model. Its `fullCount` is an unbounded integer here, and the conversion and overflow of the `size_t` count when it is added are not modelled. Its other counters stand for the remaining fields.
- HexDumping.ToString: the `int current` counter is unbounded here. Its overflow after 2^31 values with a non-positive valuesPerLine is not modelled. The slice is a plain byte sequence.
- HexDumping.ReserveAsWritten: `size_t` wrap-around of the reserve expression is not modelled. The reserve only sizes the buffer and does not change the result.
- DecimalText.ParseUInt: `TRI_UInt64String` and `TRI_UInt64String2` are not part of this model. They are modelled as reading the leading decimal digits, with no leading whitespace or signs, no saturation at 2^64-1 and no error reporting.
- `StringUtils::boolean` is not part of this model; it is the `boolean` parameter of `ExtractWaitForSync`.
- `TRI_errno_string` is not part of this model; its text is the `errnoText` parameter of `TransactionError`.
- `TRI_DOCUMENT_HANDLE_SEPARATOR_STR` is taken to be "/", the separator `generateCreated` and `generateConflict` write literally.
- HTTP response objects, content-type headers and `_response` plumbing. Replies are values.
- `generateDocument` (shaped JSON, memory zones, raw marker casts) and `parseJsonBody` (external JSON parser).
- The output generator of `generatePreconditionFailed`, including its failure path to status 500 (arangod/RestHandler/RestVocbaseBaseHandler.cpp:319-327). The reply's status, error number, message and document fields are modelled.
- `generateOk`, `generateDeleted`, `generateUpdated`, `generateConflict`, `generateNotImplemented`, `generateForbidden` and `generateNotModified`: these are simple response writers outside the modelled helpers.
- Other ArangoDB files are outside this model: concurrency (arangod/Cache/Metadata.h, lib/Basics/ReadUnlocker.h), declarations and wiring (arangod/Aql/GraphNode.h, arangod/Utils/V8TransactionContext.h, arangod/RestHandler/RestQueryHandler.h, arangod/FeaturePhases/V8FeaturePhase.cpp, arangod/Lifeboat/LogManager.h), end-to-end query tests against a mock server (tests/Aql/RemoveExecutorTest.cpp) and crash-recovery scripts (tests/js/server/recovery/die-during-collector-mmfiles.js).

## Findings

| source | as written | input that shows it | evidently intended | confidence | as-written member | corrected member |
|---|---|---|---|---|---|---|
| 3rdParty/velocypack/src/HexDump.cpp:48 | the reserve divides `length` by `valuesPerLine` unguarded | any dump with `valuesPerLine == 0`, e.g. bytes [1, 2, 3] with separator ", " | the line-break term is guarded as at line 56, so valuesPerLine 0 gives a plain join with no line breaks | not executed | HexDumping.ZeroValuesPerLineDividesByZero | HexDumping.ReserveCapacityAgrees |

`HexDumping.ReserveAsWritten` is the reserve expression as written; it is undefined exactly for `valuesPerLine == 0`. `HexDumping.ReserveCapacity` drops the line-break term when valuesPerLine is not positive. `HexDumping.ReserveCapacityAgrees` proves that it agrees with the written expression wherever that is defined (for a negative valuesPerLine, for lengths below 2^63), and that it covers the tokens and line breaks. `HexDumping.ToString` is total for every `valuesPerLine`, as the guarded version makes the source.
