# Verified model of common-go-libs

A Dafny model of the algorithmic cores of a Go utility library for Greenplum/WarehousePG tools, with proofs
about them. `dafny verify dfyconfig.toml` checks the project.

| part | files | what it models |
|---|---|---|
| parallel executor | `Retry.dfy`, `RemoteOutput.dfy`, `Executor.dfy`, `ExecutorTheorems.dfy`, `Shell.dfy` | `ExecuteClusterCommandWithRetries` as a transition system of workers, slots, an unbuffered channel and a collector; the retry loop and the classification of results as methods |
| cluster indexes | `Segments.dfy`, `ClusterIndex.dfy`, `ClusterLookup.dfy`, `CommandLists.dfy`, `Cluster.dfy` | `NewCluster`, lookups by content and host, `GenerateCommandList` as a class over the caller's segment array |
| segment dump | `SegmentDump.dfy` | the line parser of `gpsegconfig_dump` |
| array literals | `StringArray.dfy`, `StringArrayLanguage.dfy`, `StringArrayErrors.dfy` | the scanner for PostgreSQL text-format arrays: its loops, the language it accepts, and what it rejects how |
| connection pool | `Sessions.dfy`, `ConnectionPool.dfy`, `PoolTheorems.dfy`, `DbConn.dfy` | `DBConn` and its driver as classes, proved against functions on a pool value; runs of calls |
| connection string | `KeywordValue.dfy`, `ConnectionString.dfy` | parameter escaping and the keyword/value string, read back |
| row scanning | `RowMemory.dfy`, `RowValues.dfy`, `RowScan.dfy`, `RowTheorems.dfy`, `FieldMap.dfy` | field addresses along index paths with embedded pointers allocated on demand, and the panics of that walk; what the driver then stores in the fields; the column map |
| number formatting | `Decimal.dfy`, `IntegerFormat.dfy`, `FloatFormat.dfy` | right-to-left formatting into caller's buffers |

How the Go program is rendered:

- Goroutine interleavings are schedules: lists of steps, each enabled when its turn comes. A statement about
  all schedules is a statement about all interleavings. What a launch of command `i` at attempt `a` returns is
  a function of `i` and `a` and otherwise arbitrary.
- Loops and objects that change fields are methods and classes. Each is proved against a specification
  function or predicate, and the theorems are about those.
- A pointer into a slice of structs is the position it points to. A map iteration picks any remaining key.
- Integer widths are subset types; the wrap-around of negating a converted minimum is written out.
- Bytes are characters below 256. Floats are exact reals.
- What drivers, servers, files and commands answer is an argument (`Env`, `Dump`, `Oracle`, `ok`, `values`).
  An `Aborted` or `Panicked` outcome, or no command list, stands for a fatal exit or a panic.
- A row value is a tree: the text of a scalar, a nil pointer, a pointer to a value, or the parts of a struct that
  scans as a whole. Storing it clears a pointer or leads it to a new allocation, and rewrites every cell inside a
  struct.

Where the code and its comments differ, the model follows the code:

- With `maxAttempts < 1` nothing runs and the command still ends completed and without an error
  (`cluster/cluster.go:379`); `NoAttempts` says this happens exactly then.
- `ByContent` is documented as one segment per content and as a primary/mirror pair
  (`cluster/cluster.go:41`, `cluster/cluster.go:481`). The code keeps every segment and swaps the first two only
  when the second arrives. Independence of the segment order is therefore not general: `OrderIndependence`
  gives the exact condition, and `RolesOfAnswers` the roles that lookups can return.
- The array scanner accepts a trailing comma, unbalanced braces inside unquoted elements and empty unquoted
  elements; `ExactLanguage` includes them.
- A failed `Connect` leaves the pool non-nil, so it must be closed before it can be retried (`dbconn/dbconn.go:212`,
  `dbconn/dbconn.go:237`); see `ConnectNeedsClose`.
- Columns can get in each other's way: an embedded struct that implements `sql.Scanner` is a column of its own
  while its fields are columns too (`dbconn/scan.go:199-210`), so the later of the two assignments overwrites the
  earlier one, or drops the allocation it went to. `ColumnsArriveIff` says exactly when all values arrive, and
  `ScannerOrFieldIsLost` gives such a row.
- The walk along an index path allocates nil embedded pointers instead of panicking (`dbconn/scan.go:168-171`),
  but it panics if the pointer is an embedded unexported type; `FieldByIndexAlloc` says exactly when.
- Only user and database name are escaped in the connection string (`dbconn/dbconn.go:216-235`).
  `ConnStrReadsBackIff` says exactly for which other parameters the string is read as meant, and
  `EmptyHostTakesPort` what becomes of an empty host.
- The unnamed host is skipped under coordinator or mirror exclusion when the coordinator's content has no such
  entry, since both lookups then give the empty string; `SkippedHosts` covers it.

## Model

| member | source | states |
|---|---|---|
| ExecutorTheorems.Confluence | cluster/cluster.go:367-409 | every interleaving that returns gives the output of running the commands one after another |
| ExecutorTheorems.AtReturn | cluster/cluster.go:378-408 | at return every command is, in every field, what its launches up to the first success or `maxAttempts` made of it; failed and retried commands are the ascending picks of exactly the positions with an error, or without one but with retry entries; the error count is the number of failed commands |
| ExecutorTheorems.EachIndexAtMostOnce | cluster/cluster.go:398-403 | through any interleaving each index is received at most once, each slot written at most once and not after its receipt |
| ExecutorTheorems.OwnStepsDecide | cluster/cluster.go:378-399 | no worker touches another's slot: two interleavings in which a worker's own steps are the same leave it, its slot and its launches the same, whatever the others do |
| ExecutorTheorems.WorkersCommute | cluster/cluster.go:371-401 | steps of two workers commute and do not disable each other, from any state |
| ExecutorTheorems.CollectorReadsFinishedSlot | cluster/cluster.go:398-404 | the collector examines a slot only after its worker wrote the final result and signalled |
| ExecutorTheorems.ReceivedSlotIsStable | cluster/cluster.go:398-404 | no continuation changes a slot whose index was received |
| ExecutorTheorems.ErrorCount | cluster/cluster.go:402-407 | in every reachable state `numErrors` is the number of examined indices whose slot has an error |
| ExecutorTheorems.StuckIffReturned | cluster/cluster.go:371-408 | a reachable state has no enabled step exactly if the executor returned |
| ExecutorTheorems.Termination | cluster/cluster.go:371-408 | no interleaving of n commands is longer than n * (attempts + 7) + 1 steps |
| ExecutorTheorems.EveryRunCanFinish | cluster/cluster.go:371-408 | every reachable state can be continued to a return with the sequential output |
| Executor.StepInv | cluster/cluster.go:371-408 | every step of every interleaving keeps the invariant that ties workers, slots, receipts and counts together |
| Retry.RunWithRetries | cluster/cluster.go:379-397 | the loop leaves the specified command and launches it up to the first success or `maxAttempts` times |
| Retry.LastRunIsUnique | cluster/cluster.go:379-393 | the number of launches is determined by the outcomes |
| Retry.RetryOutcome | cluster/cluster.go:379-397 | output and error are those of the last launch; `RetryError` gains one numbered entry for each failed launch, in order; no other field changes but completion |
| Retry.FailuresAreConsecutive | cluster/cluster.go:387-388 | the retry entries are numbered consecutively and carry each attempt's error and stderr |
| Retry.NoAttempts | cluster/cluster.go:379-397 | a command ends completed, without error and without output whatever it would do, exactly if no attempt is allowed |
| RemoteOutputs.NewRemoteOutput | cluster/cluster.go:209-226 | the output holds scope, count and list as given, and picks out the failed and the retried commands in list order, by the fields of the commands |
| RemoteOutputs.OutputIsPicked | cluster/cluster.go:209-226 | the same of the classification that the executor's return computes |
| RemoteOutputs.SelectIsOrderPreserving | cluster/cluster.go:212-218 | each class is picked out in list order at exactly the positions of that class |
| RemoteOutputs.ClassesPartition | cluster/cluster.go:212-218 | failed, retried and clean commands together are the list, each command once |
| Clusters.Cluster.constructor | cluster/cluster.go:232-261 | the indexes built over the caller's slice agree with it: positions per content (first two swapped if the first is a mirror) and per host, hosts by first appearance, ascending content ids |
| Clusters.Cluster.AddSegment | cluster/cluster.go:239-255 | one round of the loop brings both maps and the host list in step with one more segment |
| Clusters.Cluster.AddToContent | cluster/cluster.go:241-250 | the reference is appended to its content, and the first two are swapped if the first is a mirror |
| Clusters.Cluster.AddToHost | cluster/cluster.go:251-254 | the reference is appended to its host, and a new host to the host list |
| Clusters.SortedKeys | cluster/cluster.go:256-259 | any order of visiting the keys ends in the strictly ascending key list |
| ClusterIndex.IndexExactly | cluster/cluster.go:232-261 | field by field: which positions each bucket lists in which order, with the first two of a content swapped if the first has role "m"; ascending content ids; hosts once each, in order of first appearance |
| ClusterIndex.InStepIsUnique | cluster/cluster.go:256-260 | a segment list has only one index that agrees with it, whatever the map iteration order |
| ClusterIndex.PositionsAreExact | cluster/cluster.go:239-251 | a bucket lists exactly the segments with its key, in input order |
| ClusterIndex.HostsAreExact | cluster/cluster.go:251-254 | the host list has every host with a segment once |
| ClusterIndex.BucketsShareOutSegments | cluster/cluster.go:239-255 | the bucket sizes of either map add up to the number of segments |
| ClusterLookup.LookupExactly | cluster/cluster.go:488-499 | which of a content's segments, in input order, a lookup finds for every role argument |
| Clusters.Cluster.HostForContent | cluster/cluster.go:517-523 | the host of that segment, or the empty string |
| ClusterLookup.RolesOfAnswers | cluster/cluster.go:488-499 | which roles the default and the mirror answer have, for every bucket |
| ClusterLookup.OrderIndependence | cluster/cluster.go:243-250 | for distinct segments, all orders give the same answers for a content exactly if it has at most one segment, or two of which one is a mirror |
| ClusterLookup.OnePrimaryOneMirror | cluster/cluster.go:480-487 | at most one primary and at most one mirror meet that condition |
| ClusterLookup.OrderOfDerivedLists | cluster/cluster.go:251-259 | reordering the segments keeps `ContentIDs` and only permutes `Hostnames` |
| ClusterLookup.ReferencesAreLive | cluster/cluster.go:43-46 | overwriting a segment in place keeps the index in step exactly if content and host stay and, for the first of several segments of a content, whether it is a mirror; lookups then give the new segment |
| CommandLists.FoundIsLookup | cluster/cluster.go:517-523 | lookups through the map of an index in step are lookups in the segment list |
| CommandLists.ContentListIff | cluster/cluster.go:277-283 | for a generator by content there is a list exactly if no segment's content, but the coordinator's under its exclusion, gets an empty command |
| CommandLists.HostListIff | cluster/cluster.go:284-296 | for a generator by host there is a list exactly if no segment's host, but those left out, gets an empty command |
| CommandLists.NoListForOthers | cluster/cluster.go:297-299 | any other generator is fatal |
| CommandLists.OneCommandPerContent | cluster/cluster.go:277-283 | the list has one fresh command per content, ascending, missing at most the coordinator's and exactly under its exclusion |
| CommandLists.OneCommandPerHost | cluster/cluster.go:284-296 | the list has one fresh command per host that is not left out, in host order |
| CommandLists.ContentsOfHost | cluster/cluster.go:541-547 | the contents listed for a host are those of its segments, in input order |
| CommandLists.SkippedHosts | cluster/cluster.go:286-294 | a host is skipped exactly if its only segment is the excluded coordinator or standby entry (or it is unnamed and there is no such entry) |
| CommandLists.OtherContentsAreCovered | cluster/cluster.go:284-296 | every named host with a segment of another content gets a command in every scope |
| Clusters.Cluster.GetContentsForHost | cluster/cluster.go:541-547 | a fresh slice with the content of each segment of the host |
| Clusters.Cluster.GenerateCommandList | cluster/cluster.go:274-301 | the command list of the index for either kind of generator, or the fatal exit for another |
| Clusters.Cluster.PerContentCommands | cluster/cluster.go:277-283 | the loop over contents; it panics exactly if a content that is not skipped gets an empty command |
| Clusters.Cluster.PerHostCommands | cluster/cluster.go:284-296 | the loop over hosts; it panics exactly if a host that is not skipped gets an empty command |
| Clusters.Cluster.ExcludesHost | cluster/cluster.go:286-294 | the two skip tests of a host, by lookups through the maps |
| SegmentDump.GetSegmentConfigurationFromFile | cluster/cluster.go:687-763 | a list only if every line is good, line by line; otherwise the first bad line and why, or the failure to open or read |
| SegmentDump.OutcomeIsUnique | cluster/cluster.go:708-762 | that leaves exactly one outcome |
| SegmentDump.ListIff | cluster/cluster.go:687-763 | a list exactly if a directory was named, the file was opened and read to its end, and all lines are good |
| SegmentDump.ScanLine | cluster/cluster.go:709-752 | the loop body parses one line |
| SegmentDump.LineExactly | cluster/cluster.go:709-752 | what every line parses to, by the words it consists of: nine or ten of them with three numbers, field by field, or the first fault |
| SegmentDump.AtoiExactly | cluster/cluster.go:720-733 | a number is an optional sign and digits within 64 bits |
| SegmentDump.FieldsExactly | cluster/cluster.go:709-710 | splitting gives the words of the only way to see a line as blank-separated words |
| SegmentDump.LineRoundTrip | cluster/cluster.go:709-752 | a printed line parses to its segment, with or without data directory and whatever the blanks |
| SegmentDump.ParsedIsPrintable | cluster/cluster.go:716-752 | every parsed segment is one that can be printed |
| SegmentDump.DumpRoundTrip | cluster/cluster.go:704-762 | a dump printed from any printable list reads back as that list |
| StringArrays.StringArray.Scan | dbconn/array.go:22-33 | nil, bytes, text or another type: the receiver's new value and the error |
| StringArrayErrors.ScanExactly | dbconn/array.go:22-91 | after scanning bytes or text the receiver holds exactly the list legally written there, or what it held before and the error of the first fault |
| StringArrayErrors.ScanOfOthers | dbconn/array.go:24-33 | a nil source makes the receiver nil, one of another type is refused and changes nothing |
| StringArrays.StringArray.ScanBytes | dbconn/array.go:35-91 | the loops parse as specified; on an error the receiver keeps what it held |
| StringArrays.ScanElement | dbconn/array.go:47-81 | one element: its value and where it ends, or which error |
| StringArrays.ScanQuoted | dbconn/array.go:54-69 | the quoted element up to its closing quote, escapes removed |
| StringArrays.ScanBare | dbconn/array.go:72-75 | the unquoted element up to the next comma or the end |
| StringArrayLanguage.ExactLanguage | dbconn/array.go:35-91 | a text parses to a list exactly if it is a legal way of writing that list |
| StringArrayLanguage.RoundTrip | dbconn/array.go:35-91 | whatever admissible quoting and escaping is chosen per element, scanning gives the list back |
| StringArrayLanguage.PrinterIsInjective | dbconn/array.go:35-91 | different lists never print alike |
| StringArrayErrors.ErrorsExactly | dbconn/array.go:35-91 | a text is rejected with an error exactly if its braces are missing or, after legal elements, the first faulty one has that fault |
| StringArrayLanguage.NullDetection | dbconn/array.go:76-79 | the first bare NULL fails the scan by its index and leaves the receiver unchanged |
| StringArrayLanguage.QuotedNullIsAString | dbconn/array.go:54-81 | the string NULL is accepted exactly when written in quotes |
| StringArrayLanguage.TrailingCommaIsIgnored | dbconn/array.go:82-87 | a trailing comma adds no element |
| PoolTheorems.PoolConservation | dbconn/dbconn.go:160-293 | after any calls with any failures the open handles are exactly the non-nil pool entries, and pool, transactions and size agree |
| PoolTheorems.CloseReleasesEverything | dbconn/dbconn.go:160-171 | closing after any calls leaves no handle open and resets pool, transactions and size, and nothing else |
| PoolTheorems.ConnectAnswers | dbconn/dbconn.go:208-266 | for each answer of `Connect` exactly when it is given, and that the pool is filled up to the first dial that does not connect |
| PoolTheorems.ConnectReadies | dbconn/dbconn.go:208-266 | once all dials connect, also if the version stays unknown: pool size, empty transaction slots, every number usable, and the version query as the only new record, on the first connection; after other errors these fields and the record are as before |
| PoolTheorems.ConnectDials | dbconn/dbconn.go:234-257 | which strings are dialed: the probe's, then one and the same accepted string for every connection |
| PoolTheorems.ConnectNeedsClose | dbconn/dbconn.go:212-237 | after any attempt, successful or not, further ones are refused until `Close` |
| PoolTheorems.ProbeConserves | dbconn/dbconn.go:278-293 | the probe of utility mode leaves no handle behind, and fails exactly for other reasons than an unknown setting |
| PoolTheorems.AbortsIff | dbconn/dbconn.go:454-465 | after any calls, work aborts exactly without a filled pool or with a number out of range or more than one number; otherwise the connection meant exists |
| PoolTheorems.SessionsAreBracketed | dbconn/dbconn.go:147-201 | every connection ever opened sees a well-bracketed session |
| Sessions.StatementsGoToTheirTransaction | dbconn/dbconn.go:339-374 | in such a session every statement between a begin and the next end runs in the transaction begun |
| PoolTheorems.StatementsOfRuns | dbconn/dbconn.go:339-374 | so it is on every connection in every run of calls |
| PoolTheorems.TransactionsAreDistinct | dbconn/dbconn.go:147-158 | no two begins of a run are of the same transaction, and each is on its transaction's connection |
| PoolTheorems.AnswerTellsSession | dbconn/dbconn.go:147-201 | begin is refused exactly inside a transaction, commit and rollback exactly outside, and then the server sees nothing; otherwise it sees the call and the answer is the driver's |
| PoolTheorems.SessionAffinity | dbconn/dbconn.go:147-201 | interleaved work leaves each slot and its connection's history as that slot's work alone would |
| DbConns.Driver.Connect | dbconn/dbconn.go:78-88 | open, ping, and close again if the ping fails |
| DbConns.Driver.Close | dbconn/dbconn.go:163-165 | exactly this handle is closed |
| DbConns.DBConn.constructor | dbconn/dbconn.go:129-139 | a new object holds no pool, no transactions and size 0 |
| DbConns.DBConn.Connect | dbconn/dbconn.go:208-266 | the method acts on fields and driver as the pool function says |
| DbConns.DBConn.UtilityModeConnStr | dbconn/dbconn.go:278-293 | the probe and the string it decides on |
| DbConns.DBConn.Close | dbconn/dbconn.go:160-171 | every non-nil handle closed, all fields reset |
| DbConns.DBConn.Begin | dbconn/dbconn.go:147-158 | the slot, the server's record and the answer after a begin |
| DbConns.DBConn.Commit | dbconn/dbconn.go:178-186 | the slot is emptied whatever the driver answers |
| DbConns.DBConn.Rollback | dbconn/dbconn.go:193-201 | the slot is emptied whatever the driver answers |
| DbConns.DBConn.End | dbconn/dbconn.go:180-185 | the part commit and rollback share: refused without a transaction, otherwise recorded and the slot emptied |
| DbConns.DBConn.Exec | dbconn/dbconn.go:339-345 | a statement goes to the slot's transaction, or else to its connection, and the answer is the driver's |
| ConnectionString.TwoPassesAreOneEscape | dbconn/dbconn.go:471-475 | the two replacements put a backslash in front of each backslash and quote and change nothing else |
| ConnectionString.EscapedReadsBack | dbconn/dbconn.go:471-475 | an escaped value in quotes ends exactly at the closing quote and reads back (section 34.1.1.1 of the PostgreSQL 16 documentation) |
| ConnectionString.EscapeIsInjective | dbconn/dbconn.go:471-475 | different parameters escape differently |
| ConnectionString.NamesReadBack | dbconn/dbconn.go:216-235 | any user and database name come back and the rest of the string keeps its meaning |
| ConnectionString.ConnStrReadsBackIff | dbconn/dbconn.go:216-235 | all settings come back in order, followed by those of the suffix, exactly if Kerberos service name and SSL mode have no quote or backslash and the host is nonempty, has no blank or backslash and starts with no quote |
| ConnectionString.EmptyHostTakesPort | dbconn/dbconn.go:234-235 | an empty host is read as the port setting, and the port is lost |
| ConnectionString.RoleSuffixesRead | dbconn/dbconn.go:279-280 | both suffixes of utility mode are read as one further setting |
| KeywordValue.QuotedMeansItselfIff | dbconn/dbconn.go:234-235 | put between quotes unescaped, exactly the values without quote and backslash mean themselves (section 34.1.1.1 of the PostgreSQL 16 documentation) |
| KeywordValue.BareMeansItselfIff | dbconn/dbconn.go:234-235 | put in without quotes in front of further settings, exactly the nonempty values without blank, backslash and leading quote mean themselves |
| RowScan.Memory.FieldByIndexAlloc | dbconn/scan.go:172-183 | the path's field is reached, or the walk panics, exactly if a nil pointer on the way sits in an unexported field; only nil exported pointers on the way were set, each to an allocation of its own |
| RowScan.Memory.DerefAlloc | dbconn/scan.go:174-179 | a pointer between two fields is looked through, allocated if it is nil and exported, a panic if it is nil and not |
| RowScan.Memory.CollectArgs | dbconn/scan.go:161-164 | after all paths every argument is still the cell its path reaches and set pointers are the same; it panics exactly if one of the paths cannot be had in the memory at the start |
| RowScan.Memory.NextArg | dbconn/scan.go:162-164 | one more field address; those taken before stay what their paths reach |
| RowScan.Memory.ScanRowIntoStruct | dbconn/scan.go:161-166 | arguments collected as above, and then the driver's values stored through them in column order; memory stays sound and separate allocations stay separate |
| RowScan.Memory.Assign | dbconn/scan.go:165 | the driver's loop stores the columns' values one after another |
| RowScan.Memory.New | dbconn/scan.go:105 | a row's struct is an allocation no pointer leads to and that holds none |
| RowTheorems.ColumnsArriveIff | dbconn/scan.go:161-166 | whatever values the driver stores, all are found at the end of their paths, exactly if no column's field is part of another's and has content or is reached through a pointer there; if all fields have content, exactly if no path is a prefix of another's |
| RowTheorems.RowArrives | dbconn/scan.go:161-166 | then every value is found at the end of its path, also after a row that failed half way, and no cell outside the columns changed |
| RowTheorems.ContestedIsLost | dbconn/scan.go:161-166 | otherwise there are values that cannot all be found at the end of their paths, in any memory |
| RowTheorems.ScannerAndFieldAreMapped | dbconn/scan.go:196-227 | a struct that embeds two scanners has columns for a scanner and for its own field |
| RowTheorems.ScannerOrFieldIsLost | dbconn/scan.go:161-166 | for these two columns some values do not arrive |
| RowTheorems.ResolvedPathsExist | dbconn/scan.go:141-159 | the paths of resolved columns exist and end in exported fields, so that only the walk can panic |
| RowTheorems.NewRowPanicsIff | dbconn/scan.go:172-183 | in a new row the walk panics exactly if any pointer on the way sits in an unexported field |
| RowValues.StoredReadsBack | dbconn/scan.go:165 | a stored value is read back as long as its cells and allocations stay |
| RowMemory.PathsAreDistinct | dbconn/scan.go:172-183 | in unshared memory different paths reach different cells |
| RowMemory.NestedCellsHaveNestedPaths | dbconn/scan.go:172-183 | in unshared memory a field lies inside another only if its path extends the other's |
| RowMemory.SameStructIff | dbconn/scan.go:172-183 | in unshared memory two fields lie in one struct exactly if their paths agree up to the last number |
| FieldMaps.BuildFieldMap | dbconn/scan.go:196-227 | every claimed column maps to the first of the shallowest fields that claim it |
| FieldMaps.MapExactly | dbconn/scan.go:196-227 | a column is in the map exactly if a field has it by tag or, untagged, by lowercased name, and leads to the first of the shallowest such fields |
| FieldMaps.TagNamesColumn | dbconn/scan.go:214-223 | a tagged field is found under its tag, unless another goes before it, and not by its own name |
| FieldMaps.OthersNameNothing | dbconn/scan.go:199-217 | fields tagged "-", unexported fields and containers are not in the map |
| FieldMaps.FieldMapIsUnique | dbconn/scan.go:196-227 | the visible fields determine the map |
| FieldMaps.ColumnPaths | dbconn/scan.go:141-159 | one path per column, exact name before lowercased name, or the first column without a field |
| FieldMaps.ColumnsResolveExactly | dbconn/scan.go:141-159 | which field each column leads to, by tags and names, and which column is reported missing |
| IntegerFormat.Int64ToBytes | conv/int.go:28-33 | the canonical decimal of every int64; bytes before it unchanged |
| IntegerFormat.Int32ToBytes | conv/int.go:20-25 | the same for int32 |
| IntegerFormat.UInt64ToBytes | conv/uint.go:40-45 | the same for uint64 |
| IntegerFormat.UInt32ToBytes | conv/uint.go:32-37 | the same for uint32 |
| IntegerFormat.WriteNumeral | conv/int.go:161-177 | the digit loop writes the numeral so that it ends at the given position and nothing else |
| IntegerFormat.PrependTwoDigits | conv/int.go:162-168 | one table lookup puts two digits in front of what is written |
| IntegerFormat.PrependByte | conv/int.go:179-182 | one byte in front of what is written |
| IntegerFormat.NegationWraps | conv/int.go:156-158 | converting and negating in the unsigned type gives the magnitude, also of the minimum |
| IntegerFormat.SignedNumeralReadsBack | conv/int.go:145-185 | what is formatted reads back as the number, without leading zeros |
| IntegerFormat.SomeNumerals | conv/int.go:145-185 | three numerals digit by digit |
| IntegerFormat.SignedCanonicalIsUnique | conv/int.go:145-185 | no other canonical string reads back as that number |
| FloatFormat.F64Dig | conv/float.go:53-113 | exactly `prec` fractional digits of the number rounded half away from zero, sign exactly for negative numbers, all other bytes unchanged |
| FloatFormat.RoundBySplitting | conv/float.go:58-67 | rounding the fraction with the carry rounds the number; the carry test holds exactly if the rounded fraction reaches 10^prec |
| FloatFormat.SplitAndRound | conv/float.go:58-67 | whole part within int64 and fraction below 10^prec that together are the rounded number |
| FloatFormat.WriteFraction | conv/float.go:96-110 | the fraction loop writes exactly the zero-padded digits behind the point |
| FloatFormat.RoundTo | conv/float.go:54-67 | whole part and fraction of the rounded magnitude, the whole part of at most 19 digits |
| FloatFormat.WriteWhole | conv/float.go:69-90 | sign and whole part end just before byte 20 |
| FloatFormat.Layout | conv/float.go:69-112 | sign, whole part, point and fraction around byte 20, all other bytes unchanged |
| FloatFormat.AssembledMagnitude | conv/float.go:69-112 | such text reads back as whole part and fraction together, with the sign it was given |
| FloatFormat.ZeroText | conv/const.go:28-47 | the table of zeros is the formatted zero |
| FloatFormat.FixedIsUnique | conv/float.go:69-112 | sign and rounded magnitude determine the text |
| FloatFormat.SomeFixedText | conv/float.go:69-112 | one text byte by byte |
| FloatFormat.ScaledIsUnique | conv/float.go:61-67 | there is only one rounding half away from zero |
| FloatFormat.Float64ToBytes | conv/float.go:12-30 | when the fast path applies, and what it returns, zero included |

## Left out

- Real processes, SSH command construction, user lookup, sleeping between attempts and logging: commands are launched through an oracle.
- `GetSegmentConfiguration` and its SQL; the executor's `ExecuteLocalCommand` variants; `CheckClusterError`.
- `GetDbidForContent`, `GetPortForContent`, `GetDirForContent` and the `Get*ForHost` functions other than contents: the same lookup with another field read.
- Opening files and cutting them into lines: the dump parser starts from the list of lines the scanner yields and whether it failed.
- SQL execution, results, contexts and error texts: a statement is an event on a connection, and errors keep only their kind.
- `version.go`: parsing the banner is a yes or no answer of the environment.
- `NewDBConnFromEnvironment` and the `Must*` wrappers.
- The row loops of `scanOne` and `scanAll`, and reflection itself: visible fields are a given list and struct types are finite trees, so a struct type that embeds a pointer to itself is not captured.
- `strings.ToLower` is an arbitrary function of the column name.
- IEEE rounding, NaN and the `strconv.FormatFloat` fallback: the formatter is modelled on exact reals and the fallback is `None`.
- The 8-bit and 16-bit formatters, `Float64ToString` and `conv/md5.go`.
- The formatters return the bytes of the result; that the returned slice shares memory with the buffer or a digit table is not modelled, only what the buffer holds.
- `gplog`, `iohelper`, `operating`, `gperror`, `structmatcher`, `testhelper`.
- FloatFormat.F64Dig: exact reals stand for float64, so the rounding of the product and of the carry sum is not modelled; likewise in `RoundBySplitting`, `SplitAndRound` and `RoundTo`.
- FloatFormat.Float64ToBytes: the same, and NaN is not an argument.
- RowTheorems.ColumnsArriveIff: assumes memory in which no two pointers lead to the same struct, as in a newly made row; a destination whose pointers already share a struct is not covered.
- RowScan.Memory.ScanRowIntoStruct: what a `Scan` method leaves is the value read back from its struct; that it may keep a pointer instead of allocating is not modelled.
- RowScan.Memory.FieldByIndexAlloc: requires that the path exists in the type and leads through embedded fields, as the paths of visible fields do.
