# go-gtids in Dafny

go-gtids compares the GTID sets of a MySQL source and replica. It finds the
errant transactions that the replica executed but the source did not. On
request it "fixes" them by committing an empty transaction under each errant
GTID. The fix goes to the source, or to the replica with replication stopped
around it. A companion Python script, `gaps.py`, lists the transaction numbers
that a replica retrieved but did not execute.

This project models the parts of that system that are pure logic and proves
what they do:

- **`GtidSet`** (`gtid_set.dfy`): the textual GTID set of `OracleGtidSetEntry`
  and `OracleGtidSet`.
  - Entry parsing trims the text and cuts it at the first colon.
  - Set parsing trims the text, splits it at commas, skips blank segments and
    stops at the first bad entry.
  - `String` and `IsEmpty` are modelled, and printing then parsing is proved to
    be a round trip.
- **`GtidFilter`** (`gtid_filter.dfy`): `RemoveUUID`, `RetainUUID`,
  `RetainUUIDs` and `SharedUUIDs`.
  - The in-place filters return the kept entries together with the Go method's
    boolean result.
- **`Explode`** (`explode.dfy`): expanding the `N-M` and `N` tokens of an
  entry into one `uuid:n` GTID per transaction, and `parseErrantTransactions`.
  - The meaning of an explosion is proved against an independent reading of
    the ranges as sets of transaction numbers.
- **`ExplodeExamples`** (`explode_examples.dfy`): the cases of the package's
  tests for `parseErrantTransactions` and `Explode`.
- **`Retry`** (`retry.dfy`): `retryDatabaseOperation`.
  - The operation is an oracle giving the outcome of its k-th call.
  - A run is described by its error, its number of calls and its sleeps in
    milliseconds.
- **`Credentials`** (`credentials.dfy`): the line scanner of `ReadMyCnf`,
  over the file's contents.
- **`Dialect`** (`dialect.dfy`): the version test of
  `determineReplicationCommands`, which picks the `SLAVE` or `REPLICA`
  spelling of the replication commands.
- **`Repair`** (`repair.dfy`): `applyGtidFixes` and the fix branch of
  `CheckGtidSetSubset`, modelled as command traces.
  - Each statement sent is recorded with its target node and the run of calls
    it took.
  - The database is an oracle: `runs(pos)` is the retried run of the statement
    at trace position `pos`, and `once(pos)` is the single call of a statement
    sent without retries.
  - `CheckFix` ties both to one oracle `db(pos, k)`.
- **`Gaps`** (`gaps.dfy`): `find_gaps` and the lines the script prints.
  - Python's `int()` is modelled for ASCII digits: it strips the same
    whitespace as Go's `strings.TrimSpace`, which is not all of `str.isspace`.
- **`Text`** and **`Wrappers`**: shared string helpers (whitespace trimming, split,
  join, decimal digits) and the `Option` and
  `Result` types.

Errors are values: Go's `(value, error)` pairs and Python's exceptions become
`Result`, carrying a datatype that says which error was returned or raised.

## Model

| member | source | states |
|---|---|---|
| Text.Split | pkg/gtids/gtid.go:120 | splitting at one separator gives at least one part, no part holds the separator, and joining the parts back gives the text |
| Text.SplitJoin | pkg/gtids/gtid.go:200-206 | split is the inverse of join when no part holds the separator |
| Text.NatToDecimal | pkg/gtids/gtid.go:80 | `%d` of a transaction number is a digit run without leading zero that reads back as the number |
| Wrappers.MapAll | pkg/gtids/gtid.go:121-131 | parsing the segments in order succeeds exactly when every segment parses, yields one result per segment, and otherwise returns the first failing segment's error |
| GtidSet.ParseEntry | pkg/gtids/gtid.go:51-65 | a trimmed text without a colon is rejected as such; a parsed entry prints back to exactly the trimmed text, with a non-empty colon-free UUID and non-empty ranges |
| GtidSet.ParseEntryAtFirstColon | pkg/gtids/gtid.go:51-65 | once the trimmed text is cut at its first colon, parsing fails exactly when the UUID side or the ranges side is empty, and otherwise yields both sides unchanged, so the ranges may hold colons |
| GtidSet.EntryRoundTrip | pkg/gtids/gtid.go:51-70 | a well-formed entry printed as `uuid:ranges` parses back to itself |
| GtidSet.ParseSet | pkg/gtids/gtid.go:113-133 | whitespace-only text is the empty set without error, and every entry of a parsed set is well formed |
| GtidSet.ParseSetSpec | pkg/gtids/gtid.go:113-133 | with the segments being the trimmed text split at commas, each trimmed and the blank ones dropped: parsing fails exactly when some segment fails to parse, then with the error of the first failing segment; otherwise it yields one entry per segment, in order, each the parse of its segment |
| GtidSet.ParseSetIsMapAll | pkg/gtids/gtid.go:113-133 | whitespace-only text takes the same path as text without segments: parsing is the in-order parse of the non-blank trimmed segments in both cases |
| GtidSet.BlankSegmentsSkipped | pkg/gtids/gtid.go:120-125 | an empty and a whitespace-only segment after a printed well-formed set are skipped: the text still parses to exactly that set |
| GtidSet.IsEmpty | pkg/gtids/gtid.go:208-210 | a set is empty exactly when it prints as the empty string |
| GtidSet.SerializeRoundTrip | pkg/gtids/gtid.go:200-206 | printing a well-formed set and parsing the text gives back the same entries in the same order |
| GtidSet.ParseRoundTrip | pkg/gtids/gtid.go:113-133 | any parsed set survives printing and parsing again unchanged |
| GtidFilter.KeepWhereSpec | pkg/gtids/gtid.go:138-176 | the filter loop keeps exactly the entries whose UUID passes, reports a drop exactly when some entry fails, and leaves the entries untouched when nothing is dropped |
| GtidFilter.KeepWhereConcat | pkg/gtids/gtid.go:140-146 | filtering distributes over concatenation, so entries keep their order |
| GtidFilter.KeepWhereComplement | pkg/gtids/gtid.go:138-176 | two complementary filters share the entries out between them, each entry exactly as often as in the set |
| GtidFilter.RemoveUuid | pkg/gtids/gtid.go:138-151 | exactly the entries of other UUIDs are kept; true exactly when an entry of the UUID existed; the set is unchanged otherwise |
| GtidFilter.RetainUuids | pkg/gtids/gtid.go:159-176 | exactly the entries whose UUID is listed are kept; true exactly when some entry's UUID is not listed; the set is unchanged otherwise |
| GtidFilter.RetainUuid | pkg/gtids/gtid.go:154-157 | exactly the entries of the UUID are kept; true exactly when an entry of another UUID existed |
| GtidFilter.FiltersPreserveOrder | pkg/gtids/gtid.go:138-176 | both filters keep the original order: filtering a concatenation concatenates the filtered parts |
| GtidFilter.RemoveRetainPartition | pkg/gtids/gtid.go:138-157 | removing and retaining one UUID split the set into two parts that together hold every entry exactly as often, and each reports a drop exactly when the other keeps something |
| GtidFilter.UuidsIn | pkg/gtids/gtid.go:184-188 | every UUID listed is in the given UUID set and in `other`, at most one per entry of `other` |
| GtidFilter.SharedUuids | pkg/gtids/gtid.go:179-190 | every shared UUID occurs in both sets, at most one per entry of the other set |
| GtidFilter.SharedIsRetained | pkg/gtids/gtid.go:179-190 | the shared UUIDs are the other set's UUIDs after retaining this set's UUIDs, entry for entry, repeats included |
| GtidFilter.SharedIsIntersection | pkg/gtids/gtid.go:179-190 | as a set, the shared UUIDs are exactly the intersection of the two sets' UUIDs |
| Explode.Classify | pkg/gtids/gtid.go:35-36 | a token reads as a span only when it is two digit runs around one dash, with their values; it reads as a single exactly when it is a digit run, kept as written |
| Explode.ClassifySpan | pkg/gtids/gtid.go:76-78 | two digit runs around a dash always read as the span they spell |
| Explode.SpanEntries | pkg/gtids/gtid.go:79-81 | a span yields one entry per number from first to last, ascending, of the entry's UUID, each a decimal text of its number, and nothing when first exceeds last |
| Explode.ExplodeEntryMeaning | pkg/gtids/gtid.go:73-87 | every exploded GTID is a single decimal transaction of the entry's UUID, and the numbers covered are exactly those of the entry's spans and singles; other tokens add nothing |
| Explode.ExplodeSetConcat | pkg/gtids/gtid.go:193-198 | exploding a set is exploding its entries and laying the results end to end in entry order |
| Explode.ExplodeSetWellFormed | pkg/gtids/gtid.go:193-198 | every GTID exploded from a parsed set is well formed, has a decimal number and carries a UUID of the set |
| Explode.ExplodedTextsParse | pkg/gtids/gtid.go:266-269 | each exploded `uuid:n` text parses back as the set holding just that GTID |
| Explode.ParseErrantTransactions | pkg/gtids/gtid.go:258-271 | fails exactly when the set text does not parse, with the same error; otherwise exactly the `uuid:n` text of each exploded transaction, in order, each parsing back to that transaction |
| ExplodeExamples.TwoRangesExplode | pkg/gtids/gtid_test.go:67-79 | for any two UUIDs that may occur in a set, `u1:1-3,u2:5-7` gives the six transactions in order |
| ExplodeExamples.TwoUuidsExample | pkg/gtids/gtid_test.go:67-79 | the test's own two UUIDs with ranges give the six listed texts |
| ExplodeExamples.EmptyExample | pkg/gtids/gtid_test.go:43-48 | the empty text gives no transactions and no error |
| ExplodeExamples.NoColonRejected | pkg/gtids/gtid_test.go:80-85 | any trimmed, comma-free text without a colon is rejected for want of a colon |
| ExplodeExamples.InvalidFormatExample | pkg/gtids/gtid_test.go:80-85 | `invalid-gtid-format` is an error |
| ExplodeExamples.MissingColonExample | pkg/gtids/gtid_test.go:98-103 | a UUID run into its number is an error |
| ExplodeExamples.SingleExplode | pkg/gtids/gtid_test.go:86-91 | any UUID that may occur in a set with the single number 1 comes back as written |
| ExplodeExamples.NotAUuidExample | pkg/gtids/gtid_test.go:86-91 | `not-a-uuid:1` is accepted and comes back as written |
| ExplodeExamples.ReversedExplode | pkg/gtids/gtid_test.go:92-97 | a reversed interval `5-1` gives no transaction and no error, for any UUID |
| ExplodeExamples.ReversedExample | pkg/gtids/gtid_test.go:92-97 | the test's reversed range gives an empty list |
| ExplodeExamples.SpanOneToThree | pkg/gtids/gtid_test.go:230-238 | the entry `1-3` explodes to 1, 2, 3 of its UUID |
| ExplodeExamples.MultipleRangesExplode | pkg/gtids/gtid_test.go:239-248 | the entry `1-2:5-6` explodes to 1, 2, 5, 6 of its UUID |
| ExplodeExamples.ErrantOfPrinted | pkg/gtids/gtid.go:258-271 | the errant list of a printed well-formed set is the texts of that set's explosion |
| Retry.Attempts | pkg/gtids/db.go:96-117 | from any attempt on: calls are bounded by `maxRetries + 1`, each sleep is `(k + 1) * 100` ms, every call but the last failed transiently, and the result is nil, the last error or the wrapping error exactly as the last call and the count decide |
| Retry.RetryDatabaseOperation | pkg/gtids/db.go:94-118 | no call and nil for a negative bound; otherwise 1 to `maxRetries + 1` calls, a sleep of `(k + 1) * 100` ms after each transiently failed call but none after the last, nil exactly when the last call succeeded, the call's own error exactly when it is not transient, and the wrapping error reporting `maxRetries + 1` attempts exactly when every call failed transiently |
| Retry.FirstStop | pkg/gtids/db.go:97-115 | the first call that is a success or a non-transient failure, with every earlier call transient, or none among the first `n` |
| Retry.CallsAreFirstStop | pkg/gtids/db.go:96-100 | the number of calls is one more than the first stopping call, or `maxRetries + 1` when every call fails transiently |
| Retry.NoFurtherCalls | pkg/gtids/db.go:97-100 | a run never depends on the outcome of a call it did not make |
| Retry.TotalBackoff | pkg/gtids/db.go:110 | the backoff is linear: a run of n calls sleeps `50 * (n - 1) * n` ms in all |
| Retry.RefusedIsSubsumed | pkg/gtids/db.go:103-106 | the "connection refused" test adds nothing to the "connection" test |
| Retry.ThirdTimeLucky | pkg/gtids/db.go:94-118 | two transient failures then a success: three calls, sleeps of 100 and 200 ms, nil |
| Credentials.NoSettingNoValue | pkg/gtids/db.go:20-28 | a key no line sets keeps the empty value |
| Credentials.LastSettingValue | pkg/gtids/db.go:20-28 | a key's value is the trimmed rest of the last line setting it, whatever came before |
| Credentials.ScanSettings | pkg/gtids/db.go:19-28 | the scanning loop ends with each key's value as read from the last line setting it |
| Credentials.ReadMyCnf | pkg/gtids/db.go:19-33 | the credentials are the last `user=` and `password=` values, and the result is an error exactly when either is empty |
| Credentials.SettingsAreExclusive | pkg/gtids/db.go:22-27 | no line sets both the user and the password |
| Credentials.LastLineWins | pkg/gtids/db.go:20-28 | a later line setting a key replaces its value, even by the empty value; other lines keep it |
| Dialect.FirstMatch | pkg/gtids/gtid.go:286-287 | the leftmost position where `8.0.` and a digit occur, or none |
| Dialect.PatchText | pkg/gtids/gtid.go:286-288 | the captured patch is a digit run |
| Dialect.DialectMeaning | pkg/gtids/gtid.go:283-294 | the `REPLICA` commands exactly when the leftmost `8.0.<digits>` has a maximal digit run whose value is at least 22 and within the 64-bit limit of `strconv.Atoi` |
| Dialect.MatchContains | pkg/gtids/gtid.go:284-287 | every match contains `8.0`, so the containment guard decides nothing on its own |
| Dialect.NoEightZeroIsLegacy | pkg/gtids/gtid.go:284 | a version without `8.0` gets the `SLAVE` commands |
| Dialect.Patch22IsModern | pkg/gtids/gtid.go:283-290 | 8.0.22 gets the `REPLICA` commands |
| Dialect.Patch21IsLegacy | pkg/gtids/gtid.go:283-294 | 8.0.21 gets the `SLAVE` commands |
| Dialect.LaterSeriesAreLegacy | pkg/gtids/gtid.go:283-294 | 8.4.0 and 9.1.0 get the `SLAVE` commands |
| Dialect.FiveSevenIsLegacy | pkg/gtids/gtid.go:283-294 | 5.7 gets the `SLAVE` commands |
| Repair.Once | pkg/gtids/gtid.go:576-578 | a statement sent without retries is called once, with no sleep, and returns its call's error unchanged |
| Repair.SendSpec | pkg/gtids/gtid.go:299-330 | fail-fast sending sends a prefix of the statements, each at its own position; every one but the last succeeded, and sending stops early only after a failure |
| Repair.SendConcat | pkg/gtids/gtid.go:299-333 | sending two lists, the second only when the first completed, is sending their concatenation |
| Repair.Plan | pkg/gtids/gtid.go:299-333 | the plan has four statements per transaction |
| Repair.PlanAt | pkg/gtids/gtid.go:299-330 | position i of the plan is stage `i % 4` of transaction `i / 4`: `SET GTID_NEXT`, `BEGIN`, `COMMIT`, `SET GTID_NEXT='AUTOMATIC'` |
| Repair.ApplyEntrySent | pkg/gtids/gtid.go:300-330 | one transaction's iteration is the fail-fast sending of its four statements, with an error exactly when it did not complete |
| Repair.ApplyIsPlanSent | pkg/gtids/gtid.go:298-335 | the nested loop sends exactly what one fail-fast pass over the plan sends, and errs exactly when that pass did not complete |
| Repair.ApplyErrorNamesFailure | pkg/gtids/gtid.go:304-330 | the error names the stage and transaction of the last statement sent, which failed, and wraps its error |
| Repair.ApplyGtidFixesSpec | pkg/gtids/gtid.go:298-335 | the statements sent are a prefix of the plan, retried at their own positions; all but the last succeeded; no error exactly when the whole plan was sent and succeeded; otherwise the error names the failed statement and nothing more was sent |
| Repair.EntrySession | pkg/gtids/gtid.go:300-330 | one transaction leaves `GTID_NEXT` automatic when it completes, as before when its `SET GTID_NEXT` fails, and pinned to it when a later statement fails |
| Repair.GtidNextLeftPinned | pkg/gtids/gtid.go:298-335 | on a failure past a transaction's `SET GTID_NEXT` the session stays pinned to that transaction; otherwise it is back to automatic |
| Repair.ApplyTargetsNode | pkg/gtids/gtid.go:298-335 | every statement goes to the given node, and something is sent when there is a transaction |
| Repair.ApplyCompleteIsPlan | pkg/gtids/gtid.go:298-335 | a run without error sent exactly the plan |
| Repair.ApplySendsFixStatements | pkg/gtids/gtid.go:298-335 | only the four transaction statements are sent |
| Repair.Resume | pkg/gtids/gtid.go:615-628 | after the transactions, binary logging is re-enabled and, only if that worked, replication is started, both on the replica; no error exactly when both succeeded |
| Repair.ReplicaTargets | pkg/gtids/gtid.go:563-628 | a replica repair sends at least one statement, and all of them to the replica |
| Repair.SourceTargets | pkg/gtids/gtid.go:589-613 | a source repair sends something exactly when there is a transaction, and all of it to the source |
| Repair.FixGatingAndTarget | pkg/gtids/gtid.go:558-613 | something is sent exactly when `-fix` or `-fix-replica` is given and there is a transaction; with `-fix-replica` everything goes to the replica whatever `-fix` says, otherwise to the source |
| Repair.ReplicaFixSequence | pkg/gtids/gtid.go:563-628 | an error-free replica repair sends the version query, the stop, two binlog disables, the whole plan, the re-enable and the start, with the dialect's commands |
| Repair.SourceFixSequence | pkg/gtids/gtid.go:589-613 | an error-free source repair sends exactly the plan |
| Repair.ReplicaLeftStopped | pkg/gtids/gtid.go:563-613 | when committing on the replica fails, the stop had succeeded and only transaction statements followed the preparation: no re-enable of binary logging and no `START REPLICA` was sent after the failure |
| Repair.BinlogDisableIgnored | pkg/gtids/gtid.go:584-588 | the outcomes of the two binlog-disabling statements change neither the statements sent nor the error |
| Repair.FixBranchGating | pkg/gtids/gtid.go:531-558 | statements are sent exactly when the errant set is non-empty, the binary-log query answered, the errant text parses, `-fix` or `-fix-replica` is given and the text names at least one transaction; all go to the replica under `-fix-replica` and to the source otherwise; an empty errant set is never an error, and when nothing is sent the branch fails exactly when the binary-log query or the parse failed |
| Gaps.GroupsValueDecimal | gaps.py:13 | without underscores the digit groups read as plain decimal |
| Gaps.PyIntDigits | gaps.py:13 | `int()` of a plain decimal digit run, leading zeros included, is its decimal value |
| Gaps.PyIntOfDecimal | gaps.py:16 | `int(str(n)) == n` |
| Gaps.PyIntUnsigned | gaps.py:16 | text without a minus sign never reads as a negative number |
| Gaps.PyIntBlank | gaps.py:16 | blank text is not a number |
| Gaps.SeparatorNotStripped | gaps.py:16 | a number preceded by one of the separators U+001C..U+001F is a `ValueError`: `int()` does not strip them, although `str.isspace` holds for them |
| Text.Between | gaps.py:14 | `range(start, end + 1)` holds exactly the numbers from start to end |
| Gaps.RangeSegment | gaps.py:11-14 | a segment `uuid:N-M` stands for exactly N to M, nothing when N exceeds M |
| Gaps.SingleSegment | gaps.py:11-16 | a segment `uuid:N` stands for N alone |
| Gaps.UuidIgnored | gaps.py:11 | two segments differing only in the UUID stand for the same numbers or fail alike |
| Gaps.OneColonOnly | gaps.py:11 | a readable segment holds exactly one colon |
| Gaps.MultiRangeRejected | gaps.py:11 | a multi-interval segment `uuid:r1:r2` is rejected, not expanded |
| Gaps.CollectMeaning | gaps.py:10-16 | collecting succeeds exactly when every reading does, then holds exactly the numbers of some reading, and otherwise reports the first failure |
| Gaps.PoolMeaning | gaps.py:9-16 | one side's loop succeeds exactly when every segment is readable, then holds exactly the numbers some segment stands for, whatever the UUIDs, and otherwise raises the first unreadable segment's error |
| Gaps.PoolLoop | gaps.py:9-16 | the loop with `update` and `add` computes exactly the pooled numbers or the first error |
| Gaps.FindGaps | gaps.py:5-27 | both loops and the difference compute the reference result |
| Gaps.GapsMeaning | gaps.py:5-27 | the run fails exactly when some segment of either side is unreadable; otherwise a number is a gap exactly when some retrieved segment stands for it and no executed segment does |
| Gaps.EmptyExecutedFails | gaps.py:7 | an empty executed set raises, since its one segment has no colon |
| Gaps.ReportUuid | gaps.py:40 | the UUID printed is the colon-free text before the first colon of the retrieved set, or all of it when there is none |
| Gaps.GapLines | gaps.py:43-44 | one `uuid:gap` line per gap, in the order given |
| Gaps.SummaryCovers | gaps.py:47-49 | the summary is printed exactly when there is a gap, both its ends are gaps, and every gap lies between them |
| Gaps.SummaryOverCovers | gaps.py:47-49 | with gaps 1 and 3 the summary reads `1-3`, covering 2, which is no gap |
| Gaps.Report | gaps.py:37-49 | the printed lines: the list of gaps, one line per gap, then, only when there is a gap, an empty line, `GTID_SUBTRACT:` and the summary |

## Left out

- I/O and the database: every query and statement is an oracle parameter.
  - `getServerInfo`, `checkErrantTransactions` and `getBinaryLogInfo` (pkg/gtids/gtid.go:214-255) are not modelled. The `gtid_subtract` result enters the fix branch as the text `errant`, and the binary-log query as its error or its re-extracted text.
  - The version text returned by `SELECT VERSION()` is a parameter of the fix branch.
- The regular-expression re-extraction of an errant GTID from `SHOW MASTER STATUS` (pkg/gtids/gtid.go:543-548) is an optional text that overrides the errant set. The pattern itself is not modelled.
- The loop over several target hosts (pkg/gtids/gtid.go:515-518) is not modelled. Every host reuses the same replica connection, so one pass of the branch is modelled.
- The two-second settle (pkg/gtids/gtid.go:632) and `verifyReplicationStatus` (pkg/gtids/gtid.go:338-490, 637-640) are not modelled. A replica repair ends at the restart; the verification's row scanning and printing are I/O.
- Repair.EntrySession, Repair.GtidNextLeftPinned and the rest of the repair traces assume every statement runs on one MySQL session. The source sends them through a `*sql.DB` pool (pkg/gtids/gtid.go:298-335, 602-607), and a retry after a connection error (pkg/gtids/db.go:103-110) may use a fresh connection. So `GTID_NEXT` and `sql_log_bin` set by one `Exec` are not guaranteed to hold for the next: the session-state properties hold only when the pool hands back the same connection every time.
- The sleeps of `retryDatabaseOperation` are recorded as delays in milliseconds. Time does not pass.
- Connection plumbing (`connectWithRetry`, `ConnectToDatabases`, pkg/gtids/db.go:36-91) and the file read of `ReadMyCnf` are left out. The scanner takes the file's contents.
- Explode.Classify: the numbers of an interval are unbounded. On a 64-bit platform `strconv.Atoi` clamps an overflowing digit run to 2^63-1 and the source ignores that error; an interval end of 2^63-1 or more then makes the loop at pkg/gtids/gtid.go:79 never end, because `i++` wraps before `i <= intervalEnd` fails. The model returns the mathematical span instead.
- Gaps.PyIntDigits: `int()` is modelled for ASCII digits, underscores between digits, a sign and surrounding whitespace, the class Go's `strings.TrimSpace` also strips. Other Unicode decimal digits are not modelled.
- Gaps.PyIntDigits: CPython's limit on the length of decimal text is not modelled. Since 3.11, and in the security releases of 3.7 to 3.10, `int()` raises `ValueError` on more than 4300 digits by default. The limit varies with the interpreter version, `sys.set_int_max_str_digits` and `PYTHONINTMAXSTRDIGITS`, and older interpreters have none. So the model reads a digit run of any length, and Gaps.RangeSegment, Gaps.SingleSegment and Gaps.GapsMeaning read numbers of any length too.
- Gaps.PyIntOfDecimal: proved for every n, which holds in Python only without the digit limit. Under the default limit `str(n)` itself raises for n of 4301 digits or more, so Python gives `int(str(n)) == n` only for n below 10^4300.
- GtidSet.ParseSet: on a bad entry Go returns the entries parsed so far together with the error (pkg/gtids/gtid.go:127-129). The model returns only the error, because every caller discards the partial set.
- Gaps.Report: takes `sorted(gaps)` as a strictly ascending sequence and does not compute it from the set.
- The two `input()` prompts and `print` of gaps.py become parameters and returned lines.
- Printing, logging and colour in the Go package are not modelled.
- SQL text is built by concatenation as in the source. Quoting safety is not a modelled property.
- The root main.go, gtid.go and db.go are not part of this model. They are earlier entry points using global handles and stdin prompts.
- cmd/go-gtids/main.go is not part of this model. It calls functions that pkg/gtids/db.go does not define.
- gtid_binlog.go is not part of this model. It depends on a binary-log library that is not available here.
