# turbokube, verified

A Dafny model of the native core of turbokube, an etcd-compatible multi-version store that runs as a
replicated state machine. The model follows the code: the same branches, the same constants, the same
errors, and the same way of storing things. What is proved is what a client or an operator relies on:
a past revision shows for ever what was current when it was written, although old values are rewritten
in place as patches; the lease tables agree with the store; a watcher is sent every change it wants once
and in order, up to the first that cannot be read. Where the code falls short of that, the exact condition
is proved, and runs that fail it are shown.

## Layout

| file | models |
|---|---|
| `Uvarint`, `KeyRev`, `KvCodec` | varints, packed revisions, and the bytes of values and key records |
| `LcsCommon`, `Labels`, `EditGraph`, `Patch` | the two-sided Myers diff with its depth limit, and the patch format |
| `History`, `DbKv` | what the three tables of `db_kv.go` stand for, and the tables themselves |
| `Ranges`, `RangeMore` | what a range answers, and when it says that there is more |
| `LeaseTables` | the lease record, `lease_key` and `lease_exp` as sorted byte rows |
| `Machine`, `Invariants` | one log entry as a function on values, and what every entry keeps |
| `StateMachine` | the replica: batches applied in place, proved to do what `Machine` says |
| `Snapshots`, `Growth` | immutable revisions, what commands add to the store, and what compaction leaves of older revisions |
| `PlainTable`, `PlainMachine` | a map-per-revision machine the store follows |
| `PlainAnswers`, `PlainReplies` | that reads and ranges are answered from it, and that it tells the reply to every command |
| `LeaseLaws`, `LeaseBook` | which keys a lease owns, and what grants, renewals and revocations do and answer |
| `Expiry`, `Renewals` | when leases end, and what renewals are worth |
| `EventLaws`, `WatchProtocol`, `WatchLaws` | the event log, watchers under every interleaving, and what follows for them |
| `WatchFilter` | which events reach a watcher, told from its request, and how they are announced |
| `WatchStore`, `WatchPacking`, `WatchStream` | the watchers' log against the replica's tables, and their messages packed into responses |
| `Counterexamples`, `WorkedRuns` | runs from the start on which the code does not do what one expects, and others with their replies |

There are three levels. `DbKv` and `StateMachine` hold tables and change them in place. `History` and
`Machine` say the same on values: versions of each key, newest first, and an event log. `PlainMachine`
knows neither versions nor tombstones, only one map of pairs for each revision. The contracts of the methods
tie the tables to the values, `PlainMachine.RunFollows` ties the values to the plain maps, and
`PlainAnswers.EveryRunAnswers` and `PlainReplies.EveryRunReplies` say what a client is answered from them. The
plain side has its own words for what a request means: which keys are in range, when a condition holds, what a
range shows and counts, what a deletion reports, which events a watch asks for.

## Abstractions

- LMDB tables are sorted sequences and maps; a table with duplicates is a sequence per key. A cursor
  under which rows are deleted moves to the next row that is left.
- The checksum is any function of four bytes; snappy is any pair with `Decode(Encode(x)) == x`.
- Protocol buffers are datatypes; a command that does not decode is `Garbled`.
- The interval tree of watchers returns every registered watcher whose range holds one of the keys; whether it
  accepts a range is a parameter.
- The events that one deletion logs are in the order of its keys. The table sorts them by key and then by
  checksum bytes, which is the same order unless one key is a prefix of another.
- Log entries and switches such as `PCB_TXN_MULTI_WRITE_ENABLED` are parameters. The edit graph may start with any
  label tables from the pool; `Patch` starts it with empty ones.
- A storage error that makes `Update` panic is the outcome `Crash`.

Requests are taken as the encodings allow: values shorter than 2^63 bytes, at most 1024 operations in a
transaction, revisions below 2^52, and epochs and lease counters below 2^64. One condition more is on the
client: inside a transaction a put that asks to keep the value brings none. The code checks that only for single
puts. It is part of `Invariants.OpsOk`, and so of every result about runs; what happens otherwise is in the
contract of `DbKvs.DbKv.Put`, which does not ask for it.

## Where the code does not do what one expects

Each of these is stated and proved, with the condition under which the expectation does hold. Where it is not
plain that the failing state can come about, a run or a schedule is shown that reaches it.

- A pair with a one-byte key, an empty value, and small counters encodes to fewer than 11 bytes and does
  not read back (`KvCodec.ReadsBack`). The next put on that key panics (`LeaseLaws.PutCrashesIff`,
  `Counterexamples.TinyPutCrashes`), and so does a deletion that shows the pairs before and ends with that key
  (`LeaseLaws.DeleteCrashesIff`). Older revisions of the key cannot be read either (`History.ShortHidesPast`).
  Runs whose puts have longer keys or bring values never get there (`Growth.RunReadable`).
- A put or a deletion panics if it is to delete a row of `lease_key` that is not there, and exactly then or on
  such a short pair (`LeaseLaws.PutCrashesIff`, `LeaseLaws.DeleteCrashesIff`). Two kinds of puts leave a key
  without its row: one that names a negative lease id (`Counterexamples.NegativeLeaseCrashes`), and one inside a
  transaction that keeps the lease of a key it creates and brings one (`Counterexamples.UncheckedLeaseCrashes`).
  Over runs whose puts name their lease, exactly the keys of negative ids are left out of the table
  (`LeaseLaws.TableListsLeaseKeys`, `LeaseLaws.ListsAllIff`).
- A watch ends at the first change whose pair cannot be read (`WatchProtocol.EndsIff`,
  `EventLaws.PutEventResolves`, `Counterexamples.TinyUnread`). If that happens in its second scan, its entry
  in the table of watchers stays, and a thousand alerts later no batch is applied any more
  (`WatchLaws.EndedWatchBlocks`, `WatchLaws.BlockedFromStart`).
- A compaction target may fall again, and with it the bound below which ranges are refused. Such a range is
  then answered with just those pairs that were still the same right below the largest target
  (`PlainAnswers.SeenAsItWasIff`, `PlainAnswers.EveryRunAnswers`, `Counterexamples.FallingTargetLoses`).
- Keep-alive leaves the old expiry in the index, and a tick revokes whatever the index names. A renewed lease
  is revoked at its old expiry (`Expiry.RenewalForgotten`, `Expiry.RenewedTooLate`), so renewals make no
  difference at all (`Renewals.RenewalsIgnored`). A lease that was never renewed ends exactly when it should
  (`Expiry.LivesUntilExpiry`, `Expiry.ExpiresInTime`).
- A put that keeps the lease records lease 0, so deleting the key leaves a row in `lease_key`
  (`LeaseLaws.KeptLeaseLeavesRow`, `Counterexamples.KeptLeaseReached`). If the key is put again without a lease,
  the end of that lease deletes it (`Counterexamples.StrayRowDeletes`).
- A put that keeps the value but brings one, which is possible inside a transaction, may patch the old value
  against the text it brought. Its chain of patches stays readable exactly if the old value still reads back
  against the kept text (`DbKvs.DbKv.Put`), that is, if the patch makes it of that text too
  (`KvCodec.PatchReadsBackIff`): never if the lengths differ (`KvCodec.PatchReadOnOtherBase`), and if they do not,
  it may be read as another value without an error (`KvCodec.WrongTextRead`, for a patch written by hand and not
  shown to be the one the diff makes). A client is safe if it brings no value.
- A watcher that starts in the future is sent earlier changes (`WatchLaws.FutureStart`,
  `WatchLaws.FutureStartFails`). One that compaction overtakes loses changes silently
  (`WatchLaws.OverrunLoses`, `WatchLaws.OverrunReached`). One whose range is not accepted is never woken
  (`WatchLaws.RefusedRangeSleeps`).
- A range that is an error reply on its own is a panic inside a transaction
  (`Invariants.RangeInTxnCrashes`).
- A compaction beyond the last event fails, and with it the whole batch (`DbKvs.DbKv.Compact`,
  `PlainMachine.CompactCrashesIff`).
- A deletion that shows the pairs before leaves out those that are too short to read back, and inside a
  transaction those the same transaction wrote (`PlainReplies.DeleteAnswers`). Of read errors only that of the
  last pair counts.
- A range that reaches its limit says there is more if another key in range is on record, though that may be
  deleted, filtered out or not yet written at the revision asked for (`RangeMores.MoreIff`,
  `WorkedRuns.MoreForNothing`).
- With a limit, pairs outside the bounds on the creation revision are still counted behind it
  (`Ranges.RangeConcludes`).
- A sync sends the changes there are but does not start the reckoning of the size anew. A change right after
  it that does not fit is preceded by a response without changes (`WatchPacking.EmptyAfterSync`,
  `WatchPacking.EmptySent`).
- A transaction that fails after a write takes the write back but still uses up a revision
  (`PlainMachine.TxnOnPlain`, `Counterexamples.RefusedUsesRevision`).
- The 1025th operation of a transaction would fall into the next revision (`KeyRev.SubRevisionSpills`); no code
  enforces the documented limit.

## Model

| member | source | states |
|---|---|---|
| `Uvarint.RoundTrip` | internal/patch/apply.go:52-55 | a number reads back from its varint, whatever follows, and exactly its bytes are consumed |
| `Uvarint.PrefixFree` | db_lease_key.go:20-24 | no varint is a proper prefix of another, so a row determines its lease and its key |
| `Uvarint.Digits` | internal/patch/generate.go:10-21 | the bytes are the seven-bit digits of the number, lowest first, each but the last marked, and no zero on top |
| `LcsCommon.SortX` | internal/patch/lcs/common.go:23-31 | a permutation ordered by x, longer first on ties |
| `LcsCommon.SortedCompatibleIsValid` | internal/patch/lcs/common.go:36-46 | diagonals of which no two conflict pass `valid` once sorted by x, and strictly increase in both coordinates |
| `LcsCommon.Overlap` | internal/patch/lcs/common.go:92-137 | the trimmed diagonal is a piece of the proposed one and lies on the side the direction says; a diagonal already clear of the other is left alone; `bad` only if neither side is possible |
| `LcsCommon.TrimAgainst` | internal/patch/lcs/common.go:62-68 | a diagonal that survives is a piece of the candidate and conflicts with none of those accepted |
| `LcsCommon.Greedy` | internal/patch/lcs/common.go:59-72 | for any order of the candidates: accepted pieces never conflict, the first candidate is kept whole, and nothing is lost if there was no conflict |
| `LcsCommon.Fix` | internal/patch/lcs/common.go:50-79 | from any true matches: true matches again, valid, each a piece of an input, the longest input kept, and a permutation of the input if that had no conflict |
| `LcsCommon.PrependKeeps` | internal/patch/lcs/common.go:144-158 | prepending a matching cell to a common subsequence gives one that starts there |
| `LcsCommon.AppendKeeps` | internal/patch/lcs/common.go:163-174 | the same at the other end |
| `Labels.Set` | internal/patch/lcs/labels.go:40-51 | the label is stored in its slot, and no other slot changes |
| `Labels.CornerWasHit` | internal/patch/lcs/old.go:343-351 | a label beyond the corner in both coordinates means an earlier row hit the corner exactly |
| `Labels.SomeInside` | internal/patch/lcs/old.go:136-145 | a complete row has a label inside the rectangle unless an earlier row reached the corner |
| `EditGraphs.CommonPrefixLen` | internal/patch/lcs/sequence.go:56-63 | the longest common prefix |
| `EditGraphs.CommonSuffixLen` | internal/patch/lcs/sequence.go:82-89 | the longest common suffix |
| `EditGraphs.EditGraph.LookForward` | internal/patch/lcs/old.go:172-179 | follows matching bytes up the diagonal as far as they go inside the rectangle |
| `EditGraphs.EditGraph.SetForward` | internal/patch/lcs/old.go:181-184 | writes one label of a row and keeps every finished row and column |
| `EditGraphs.EditGraph.ForwardPass` | internal/patch/lcs/old.go:310-322 | completes row D+1: every label is the furthest end reachable by one edit and a snake |
| `EditGraphs.EditGraph.ForwardLcs` | internal/patch/lcs/old.go:150-168 | backtracking from any label ends and yields true matches, increasing without overlap, between the origin and that label |
| `EditGraphs.EditGraph.LookBackward` | internal/patch/lcs/old.go:274-281 | follows matching bytes down the diagonal as far as they go |
| `EditGraphs.EditGraph.SetBackward` | internal/patch/lcs/old.go:284-287 | the mirror image of `SetForward` |
| `EditGraphs.EditGraph.BackwardPass` | internal/patch/lcs/old.go:327-339 | completes backward row D+1 |
| `EditGraphs.EditGraph.BackwardLcs` | internal/patch/lcs/old.go:254-271 | backtracking from any backward label yields true matches between that label and the far corner |
| `EditGraphs.EditGraph.FDone` | internal/patch/lcs/old.go:94-102 | done exactly if the label sits in the corner, and then with a common subsequence of the rectangle |
| `EditGraphs.EditGraph.Forward` | internal/patch/lcs/old.go:105-147 | a common subsequence of the rectangle, also when the depth limit is hit; the final choice of a label always succeeds |
| `EditGraphs.EditGraph.TwoDone` | internal/patch/lcs/old.go:378-408 | finds a diagonal on which the two searches meet, or there is none |
| `EditGraphs.EditGraph.TwoLcs` | internal/patch/lcs/old.go:410-459 | every exit gives a common subsequence of the whole inputs |
| `EditGraphs.EditGraph.TwoLcsRest` | internal/patch/lcs/old.go:461-483 | the same for the exits that join an edge or search once more |
| `EditGraphs.MeetingPointInside` | internal/patch/lcs/old.go:474-482 | the rectangle of the second search lies within the inputs |
| `EditGraphs.EditGraph.TwoSided` | internal/patch/lcs/old.go:296-375 | for all inputs and every limit, a common subsequence: true matches, strictly increasing, no overlap |
| `EditGraphs.EditGraph.AtLimit` | internal/patch/lcs/old.go:342-374 | the fallback at the depth limit gives a common subsequence, and neither "no paths" panic can happen |
| `EditGraphs.EditGraph.FurthestForward` | internal/patch/lcs/old.go:344-352 | a label inside the rectangle is always found |
| `EditGraphs.EditGraph.LargestInside` | internal/patch/lcs/old.go:344-352 | the label chosen is inside and no other one inside has a larger x + y |
| `Patch.ToDiffs` | internal/patch/lcs/old.go:74-88 | the replacements turn a into b, and there are no more of them than a third of the combined length plus one |
| `Patch.DiffBytes` | internal/patch/lcs/old.go:27-36 | for all byte strings, replacements that turn a into b |
| `Patch.HunkReadsBack` | internal/patch/apply.go:32-43 | reading one written hunk performs exactly its replacement |
| `Patch.GeneratedApplies` | internal/patch/apply.go:13-50 | a patch written from such replacements applies to a and gives b |
| `Patch.Generate` | internal/patch/generate.go:10-21 | for all byte strings a and b, `Apply` on a and the patch returns b |
| `Patch.Apply` | internal/patch/apply.go:13-50 | the loop computes `ApplyPatch`, with its two failures, on every input |
| `KeyRev.PackRoundTrip` | kv.go:125-147 | revision, sub-revision and delete mark survive packing while in range |
| `KeyRev.PackOrder` | kv.go:125-131 | packed words compare as revision, then sub-revision, then delete mark |
| `KeyRev.SubRevisionSpills` | types.go:61-64 | sub-revision 1024 packs to sub-revision 0 of the next revision |
| `KeyRev.RevKeyOrder` | kv.go:149-155 | table keys sort oldest first, and different revisions have different keys |
| `KeyRev.RecordsNewestFirst` | kv.go:206-208 | inverted revisions sort newest first, whatever bytes follow |
| `KeyRev.SeekSplitsEvents` | db_kv.go:518 | the seek of `scan` separates exactly the events of earlier revisions |
| `KvCodec.Bytes` | kv.go:24-51 | a pair is stored whole or as a patch against the newer value, the latter never without one, never against nothing, never when switched off |
| `KvCodec.Layout` | kv.go:24-49 | length and key, creation, version, lease, flags, and the value, in that order |
| `KvCodec.ReadsBack` | kv.go:53-103 | a stored pair reads back with its newer value at hand, if and only if it is not too short |
| `KvCodec.PatchFromNothing` | kv.go:33-39 | against an empty text a patch is never shorter than the value |
| `KvCodec.PatchOnOtherBase` | internal/patch/apply.go:45-49 | a patch on a text of another length is reported corrupt |
| `KvCodec.PatchReadOnOtherBase` | kv.go:91-99 | so a value patched against one text fails to read against one of another length |
| `KvCodec.PatchReadsAs` | kv.go:85-100 | a stored patch is read as whatever it makes of the text at hand, or fails as it does there |
| `KvCodec.PatchReadsBackIff` | kv.go:92-99 | so the pair reads back exactly if the patch makes its value of that text |
| `KvCodec.WrongTextRead` | kv.go:92-99 | a patch, written by hand, against another text of the same length that is read without an error as another value |
| `KvCodec.RecordReadsBack` | kv.go:191-213 | key records survive their encoding |
| `KvCodec.RecordOrder` | kv.go:206-213 | the records of a key, as bytes, are in falling order of revision |
| `History.ReadAtSound` | db_kv.go:458-489 | a read that succeeds gives the pair of the newest version not after the revision |
| `History.ReadAtIsValueAt` | db_kv.go:458-489 | every read succeeds if no version is too short |
| `History.ShortHidesPast` | db_kv.go:458-489 | under a pair too short, an older pair is unreadable exactly if no tombstone lies between |
| `History.PicksMembers` | db_kv.go:151-160 | a range picks exactly the live keys within its bounds that pass the filters, in byte order |
| `History.KeepFromMembers` | db_kv.go:396-412 | a cut keeps exactly the versions not older than the given one |
| `DbKvs.DbKv.constructor` | db_kv.go:19-28 | empty tables stand for the empty store |
| `DbKvs.DbKv.Put` | db_kv.go:30-132 | each error exactly when it is due; otherwise one version on top and one event; a patch is always made against the value the request brought, and the chain stays readable exactly if the old value was not patched or still reads back against the value that follows it: always if none was brought to a kept value, never if it has another length |
| `DbKvs.DbKv.Write` | db_kv.go:99-131 | record, value and event are added, and rewriting the old value as a patch keeps every chain |
| `DbKvs.NewestWhole` | db_kv.go:88-93 | the newest live value is stored whole and reads back alone |
| `DbKvs.StoredReads` | kv.go:53-103 | each value of a chain reads back against its newer neighbour |
| `DbKvs.KeysApart` | db_kv.go:111-115 | versions of different keys never share an entry of the value table |
| `DbKvs.DbKv.Descend` | db_kv.go:458-474 | the walk stops at the version visible at the revision and has collected the values to replay since the last tombstone |
| `DbKvs.DbKv.Replay` | db_kv.go:481-489 | decoding the values from the newest down, each the base of the next, gives the wanted pair |
| `DbKvs.DbKv.Prev` | db_kv.go:496-510 | the pair just below, decoded against the one above |
| `DbKvs.DbKv.GetRev` | db_kv.go:435-494 | the pair as of a revision, and the one before it, as the history has them; a read fails only on a pair too short, never for want of a value or of a patch base |
| `DbKvs.DbKv.RangeKey` | db_kv.go:165-226 | what one key adds to a range: nothing, a count, its pair, or the failure to read it |
| `DbKvs.DbKv.GetRange` | db_kv.go:134-240 | the loop computes the range as a function of the history, under any switches and filters; `Ranges.RangeConcludes` says what that function answers |
| `Ranges.RangeConcludes` | db_kv.go:134-240 | under every switch and filter: the keys in range that pass the filter on the last change, in byte order; read up to the limit; of those the ones created within the bounds shown in order, whole or without their values, and counted; the keys behind counted as the switches say; `more` only at the limit; an error exactly at the first pair to be shown that does not read back |
| `RangeMores.MoreIff` | db_kv.go:165-183 | `more` is set exactly if the limit is reached and another key in range behind the last one shown is on record, live or not |
| `DbKvs.DbKv.DeleteRange` | db_kv.go:242-293 | tombstones for exactly the live keys up to and including the end, and their old records; refused exactly if one was written under this revision |
| `DbKvs.DbKv.DeleteBatch` | db_kv.go:295-332 | tombstones for the live ones among the keys; fails exactly if one is unknown |
| `DbKvs.DbKv.TakeEvents` | db_kv.go:354-381 | takes events off in order up to the target, a full batch, or the end of the log |
| `DbKvs.DbKv.TruncateKey` | db_kv.go:386-420 | cuts a key back to a version and drops exactly the values below it |
| `DbKvs.DbKv.Compact` | db_kv.go:334-428 | succeeds exactly if some event at or above the target exists; removes exactly the events below it and, per key, what is older than its last such event, whatever the batch size and the order of the map |
| `DbKvs.DbKv.ScanEvents` | db_kv.go:512-540 | the events from a revision on, in order |
| `LeaseTables.LeaseReadsBack` | db_lease.go:21-47 | a lease survives its encoding under its own key |
| `LeaseTables.LeaseBlock` | db_lease_key.go:34 | the rows of a lease are one block that starts where the seek lands |
| `LeaseTables.RowKeysMembers` | db_lease_key.go:20-24 | a key is listed under a lease exactly if the table has that row |
| `LeaseTables.DbLeaseKey.Put` | db_lease_key.go:20-24 | adds one row and keeps the order |
| `LeaseTables.DbLeaseKey.Del` | db_lease_key.go:66-68 | removes one row, and reports whether it was there |
| `LeaseTables.DbLeaseKey.Sweep` | db_lease_key.go:26-64 | takes the first rows of the lease and no others; fewer than the limit only if none is left |
| `LeaseTables.ExpRowOrder` | db_lease_exp.go:20-23 | expiry rows sort by expiry |
| `LeaseTables.DueMembers` | db_lease_exp.go:31-60 | the leading rows up to an epoch are all rows that expire by then |
| `LeaseTables.DbLeaseExp.Put` | db_lease_exp.go:20-24 | adds one row and keeps the order |
| `LeaseTables.DbLeaseExp.Del` | db_lease_exp.go:26-30 | removes one row, and reports whether it was there |
| `LeaseTables.DbLeaseExp.Next` | db_lease_exp.go:57 | the cursor moves to the first row past the last one it saw |
| `Machine.NextLease` | state_machine.go:939-948 | the first free id after the last one handed out |
| `Invariants.EventsFromAll` | db_kv.go:354-362 | compaction keeps exactly the events from its target on, in order |
| `Invariants.CompactGood` | db_kv.go:334-428 | a compacted store is well-formed; every event left still has its version |
| `Invariants.RevokeFindsAll` | state_machine.go:988-1006 | a revocation finds every key and every row it has to delete |
| `Invariants.ExecRevokeKeeps` | state_machine.go:977-1009 | a revocation never fails and keeps the invariant |
| `Invariants.ExpireNeverCrashes` | state_machine.go:342-352 | expiry never brings a replica down |
| `Invariants.ExecTickKeeps` | state_machine.go:324-359 | nor does a tick, and it keeps the invariant |
| `Invariants.NoKeysNoChange` | state_machine.go:239-241 | operations that touch no key change nothing, so no revision is needed |
| `Invariants.RunKeeps` | state_machine.go:128-383 | every state a run reaches, if transaction puts that keep the value bring none, is well-formed: ordered histories, events with their versions, each lease with its expiry entry; counters only grow |
| `Invariants.RangeInTxnCrashes` | state_machine.go:1179-1184 | when a transaction comes to a range, at any place, the replica crashes if the revision is compacted or in the future or the range gets stuck at a pair that does not read back, under any switches, and otherwise goes on with nothing changed |
| `StateMachines.StateMachine.constructor` | db_meta.go:25-58 | the initial tables and counters |
| `StateMachines.StateMachine.CmdPut` | state_machine.go:867-897 | the put, and the key's row moved from the old lease to the new one |
| `StateMachines.StateMachine.CmdDeleteRange` | state_machine.go:899-927 | the deletion, the rows of the deleted keys, and what they held; `PlainReplies.DeleteAnswers` says what is answered |
| `StateMachines.StateMachine.DetachRows` | state_machine.go:910-917 | exactly the rows the old records name are deleted; fails exactly if one is missing |
| `StateMachines.StateMachine.ReadPrevs` | state_machine.go:920-925 | reads the deleted pairs in order and keeps the last error |
| `StateMachines.StateMachine.QueryRange` | state_machine.go:1065-1110 | refuses compacted and future revisions, otherwise the range at that revision |
| `StateMachines.StateMachine.TxnCompare` | state_machine.go:1197-1235 | reads the conditions in order and stops at the first that fails; if it answers, then true exactly if all hold on the map of pairs |
| `StateMachines.StateMachine.TxnOps` | state_machine.go:1148-1195 | all operations in order, or the tables exactly as before; the keys touched before a failure are still reported |
| `StateMachines.StateMachine.ApplyTxn` | state_machine.go:219-254 | branch, operations, revision and reply of a transaction |
| `StateMachines.StateMachine.ApplyPut` | state_machine.go:130-174 | the checks of a single put, its reply and its revision |
| `StateMachines.StateMachine.ApplyDelete` | state_machine.go:175-194 | a range deletion as one entry |
| `StateMachines.StateMachine.ApplyCompact` | state_machine.go:195-218 | a compaction as one entry, with its two counters |
| `StateMachines.StateMachine.FreeId` | state_machine.go:939-948 | the loop finds the first free id |
| `StateMachines.StateMachine.LeaseGrant` | state_machine.go:929-975 | grants the id asked for, or the next free one; refuses an id exactly if it is in use, and then changes nothing |
| `StateMachines.StateMachine.SweepKeys` | state_machine.go:988-1000 | deletes all keys of the lease under one revision, whatever the batch size |
| `StateMachines.StateMachine.LeaseRevoke` | state_machine.go:977-1009 | the keys, the rows, the expiry entry and the lease are gone |
| `StateMachines.StateMachine.Renew` | state_machine.go:1024-1032 | the new expiry is stored and indexed |
| `StateMachines.StateMachine.LeaseKeepAlive` | state_machine.go:1036-1063 | renews the leases that exist, in order, and answers zero for the others |
| `StateMachines.StateMachine.ExpireDue` | state_machine.go:342-352 | a cursor over a table it deletes from still revokes every lease that is due, each once, in order |
| `StateMachines.StateMachine.ApplyTick` | state_machine.go:324-359 | refused for an old term, otherwise the clock moves and what is due is revoked |
| `StateMachines.StateMachine.ApplyRevoke` | state_machine.go:271-291 | a revocation as one entry, with a new revision exactly if it deleted a key |
| `StateMachines.StateMachine.Apply` | state_machine.go:128-383 | one entry does what the model of that command says, or crashes exactly when that does |
| `StateMachines.StateMachine.Update` | state_machine.go:100-404 | a batch with its deferred counters gives the state, replies and keys of its entries one by one |
| `StateMachines.StateMachine.UpdateTwice` | state_machine.go:100-404 | however a log is cut into batches, the state, the replies and the keys are those of the whole |
| `Snapshots.SnapshotPush` | db_kv.go:99-131 | a new version changes what its own and later revisions show, for its key, and nothing else |
| `Snapshots.CompactPast` | db_kv.go:384-417 | compaction changes nothing at its target or later, nor now |
| `Snapshots.ExecPast` | state_machine.go:128-383 | no command but a compaction changes what any revision up to the current one shows |
| `Snapshots.RevisionsImmutable` | types.go:120-125 | over every run in which transaction puts that keep the value bring none, a revision shows the same for ever unless compacted away |
| `Snapshots.PastIsWhatWasCurrent` | types.go:120-125 | so, over the same runs, it shows what was current when that revision was reached |
| `Growth.RunReadable` | kv.go:55-57 | over every run whose puts have a key of two bytes or more, or bring a value, every stored pair reads back |
| `Growth.RunLogged` | db_kv.go:126-131 | over every run, every version of a key but its oldest has its event in the log |
| `Growth.CompactedSnapshot` | db_kv.go:384-417 | below its target a compaction leaves of a revision exactly the pairs that were still the same right below the target |
| `PlainTables.PlainPutAgrees` | db_kv.go:30-132 | a put on the store is a put on the map of pairs, with the same refusals |
| `PlainTables.PlainDeleteAgrees` | db_kv.go:242-293 | a range deletion is the removal of the pairs in range |
| `PlainTables.HoldsIsMeets` | state_machine.go:1197-1257 | a condition compares the field it names with its operand, number by number or byte by byte; a missing key counts as zero or empty |
| `PlainTables.CompareAgrees` | state_machine.go:1197-1235 | if the conditions are answered, then true exactly if all hold on the map; they are not exactly if, behind some that hold, one has an operand that does not fit or a pair too short to read |
| `PlainTables.RunOpsAgree` | state_machine.go:1148-1195 | a transaction's operations agree on the pairs, on whether anything was touched, and on the error |
| `PlainTables.PlainRevokeAgrees` | state_machine.go:988-1006 | a revocation removes the pairs whose keys the lease claims, and its claims |
| `PlainTables.EveryRunClaims` | state_machine.go:879-917 | from the start, if puts name their lease, the keys a lease claims are exactly the live keys that carry it, and none if its id is negative |
| `PlainMachine.TxnOnPlain` | state_machine.go:225-254 | a transaction is refused exactly if its operations fail on the plain table, with that error and nothing changed; the revision grows exactly if one of them touched a key there |
| `PlainMachine.RevokeFollows` | state_machine.go:977-1009 | a revocation takes the pairs the lease claims out of the current map, under a new revision if there are any |
| `PlainMachine.TickFollows` | state_machine.go:324-359 | a tick does so for the leases due, one revision per lease that had any |
| `PlainMachine.CompactCrashesIff` | db_kv.go:350-381 | a compaction crashes exactly if its target is zero or no event is left at or above it |
| `PlainMachine.CompactRemembers` | state_machine.go:195-218 | the events below the target go, and the largest revision among them is remembered |
| `PlainMachine.CompactFollows` | state_machine.go:195-218 | a compaction changes no map from its target on, and of those below leaves what was still the same right below it |
| `PlainMachine.RunFollows` | state_machine.go:100-404 | after any run in which transaction puts that keep the value bring none, every revision shows the map the plain machine recorded, or below the largest compaction target what is left of it |
| `PlainMachine.EveryRunFollows` | state_machine.go:100-404 | the same from the first entry on |
| `PlainAnswers.ReadShowsPlain` | db_kv.go:435-494 | a read gives the pair of the map of its revision; it fails only if some pair is too short to read back |
| `PlainAnswers.RangeShowsPlain` | db_kv.go:134-240 | under every switch and filter, a range is answered from that map as `Ranges.RangeConcludes` says; it fails exactly if it gets stuck at a pair that does not read back |
| `PlainAnswers.QueryShowsPlain` | state_machine.go:1065-1110 | refused below the last compaction target and beyond the current revision, otherwise so answered, with the count left out unless asked for or switched on |
| `PlainAnswers.SeenAsItWasIff` | state_machine.go:1077-1082 | a revision is seen as it was exactly if it is not further below the largest target than right below it, or all its pairs were still the same there |
| `PlainAnswers.MinAndFloor` | state_machine.go:212-214 | the bound for requests never exceeds the largest target, and equals it if targets never fall |
| `PlainAnswers.EveryRunAnswers` | state_machine.go:1065-1110 | over every run from the start whose puts are long enough, and whose transaction puts bring no value where they keep one, every range is refused or answered from the map of its revision, as recorded if targets never fall |
| `PlainReplies.DeleteAnswers` | state_machine.go:899-927 | alone or in a transaction, a deletion answers the number of keys it reaches and, if asked, their pairs in byte order of the keys, but for those too short or written under its own revision |
| `PlainReplies.DeleteTouches` | state_machine.go:903-910 | it reports those keys to the watchers in byte order, behind as many empty ones |
| `PlainReplies.DeletionShown` | state_machine.go:175-194 | so a deletion on its own counts the keys of the current map in range, and shows all their pairs but those too short, or none if not asked |
| `PlainReplies.TxnAnswers` | state_machine.go:219-254 | a transaction is refused, or reports success exactly if all conditions hold on the current map, at the revision it leaves, with one reply per operation in order: each from the pairs the operations before it left, or a range from the map of its revision |
| `PlainReplies.ExecReplies` | state_machine.go:128-383 | whatever the command, the reply with its revision is the one the plain machine calls for: refusals, replaced and deleted pairs, transactions, compactions, grants, renewals, revocations, ticks and terms |
| `PlainReplies.RunReplies` | state_machine.go:100-404 | so for every entry of a run, each from the plain machine after the entries before it; and the index is that of the last entry |
| `PlainReplies.EveryRunReplies` | state_machine.go:100-404 | the same from the first entry on |
| `LeaseLaws.CmdPutExact` | state_machine.go:879-890 | in an exact state a put that names its lease leaves the table exact; it misses the row to delete exactly if the key had a negative lease id and gets another one |
| `LeaseLaws.CmdDeleteExact` | state_machine.go:910-917 | so does a deletion; it misses a row exactly if a key in range has a negative lease id |
| `LeaseLaws.RevokesOwnKeys` | state_machine.go:988-1000 | in an exact state a revocation deletes exactly the live keys of its lease, and none if its id is negative |
| `LeaseLaws.TableListsLeaseKeys` | state_machine.go:879-917 | over every run in which puts name their lease, by whatever id, `lease_key` holds exactly the pairs of a lease whose id is not negative and a live key of it |
| `LeaseLaws.ListsAllIff` | state_machine.go:880-884 | so it lists the keys of every lease exactly if no live key has a negative lease id |
| `LeaseLaws.PutCrashesIff` | state_machine.go:130-174 | in every state, a put panics exactly if it passes its checks, the key is live, and its pair is too short to read or has a lease that is to be replaced and does not list it |
| `LeaseLaws.DeleteCrashesIff` | state_machine.go:899-927 | in every state, a deletion panics exactly if the record of a live key in range names a lease that does not list it, or the pairs before are asked for and the last of them is too short to read |
| `LeaseLaws.KeptLeaseLeavesRow` | db_kv.go:105-119 | deleting a key leaves the table exact exactly if its record names its lease, or that has a negative id; if both, it fails |
| `LeaseBooks.IdInUseRefused` | state_machine.go:954-961 | in every state, a grant of an id in use is refused and changes nothing |
| `LeaseBooks.GrantsAsked` | state_machine.go:949-972 | any other grant of an id enters that lease, renewed now for the time asked, with its entry in the index, and answers with that id and time; nothing else changes |
| `LeaseBooks.GrantsFree` | state_machine.go:935-972 | without an id, the first free one after the last handed out so is granted and remembered |
| `LeaseBooks.FreeIdsRise` | state_machine.go:935-948 | over every run, ids handed out that way only rise |
| `LeaseBooks.KeepAliveProlongs` | state_machine.go:1011-1063 | the leases named, as far as they exist, are renewed now and last as long as before; the index gains their new expiries; each answer is the time to live, or zero |
| `LeaseBooks.Renews` | state_machine.go:292-323 | so do both commands that renew, and nothing else changes |
| `LeaseBooks.Revokes` | state_machine.go:271-291 | a revocation takes out the lease and the index entry of its expiry, and says whether there was one |
| `Expiry.TickRevokes` | state_machine.go:338-352 | a tick takes away exactly the leases with an entry that is due, and leaves the others as they are |
| `Expiry.NoneOverdue` | state_machine.go:338-352 | after an accepted tick no lease is left that has expired |
| `Expiry.ExpiresInTime` | state_machine.go:338-352 | a lease whose only entry is its own is revoked exactly if it has expired |
| `Expiry.GrantStarts` | state_machine.go:962-969 | a fresh grant expires its time to live after the current epoch |
| `Expiry.LivesUntilExpiry` | state_machine.go:338-352 | over every run that neither renews nor revokes it, even one that asks to grant its id again, a lease lasts until its expiry |
| `Expiry.RenewalEntries` | state_machine.go:1024-1032 | a renewal adds the new expiry and leaves the old one in the index |
| `Expiry.RenewalForgotten` | state_machine.go:1024-1032 | a lease renewed once outlives the next tick exactly if neither expiry is due |
| `Expiry.OneTickReached` | state_machine.go:929-975 | a grant and a tick lead to the state the counterexample starts from |
| `Expiry.RenewedTooLate` | state_machine.go:1024-1032 | a lease renewed to the third tick is gone at the second |
| `Renewals.TickHeld` | state_machine.go:338-352 | a tick before the first index entry of a lease leaves it alone, and the one that reaches it takes it away |
| `Renewals.RenewalsIgnored` | state_machine.go:1024-1032 | over every run that does not revoke the lease by name nor grant its id anew after its time, it is there exactly until the epoch reaches the first entry the index has for it, whatever renewals come |
| `Renewals.AliveHeld` | state_machine.go:962-969 | that entry is its own expiry if it was never renewed |
| `EventLaws.RunOnce` | db_kv.go:84-87 | with multi-write off, every run leaves at most one put and one older tombstone per key and revision |
| `EventLaws.EventHasVersion` | db_kv.go:384-417 | every event left in the log has its version in the history of its key |
| `EventLaws.PutEventResolves` | state_machine.go:606-611 | the read behind a put event gives the pair it wrote, and the one before; it fails exactly if a pair too short lies from there up to the last tombstone above, or the pair before is one |
| `EventLaws.DeleteEventShows` | state_machine.go:600-604 | a delete event shows the deleted pair unless that is too short or the same transaction has put the key again |
| `EventLaws.EveryEventReads` | state_machine.go:606-611 | over runs whose puts are long enough, and whose transaction puts bring no value where they keep one, the read behind every put event succeeds |
| `EventLaws.ExecAdds` | state_machine.go:165-174 | every event a command adds is of a key it reports and comes after the current revision |
| `EventLaws.StepCommits` | state_machine.go:165-174 | an entry logs ordered new events, all of keys it reports |
| `WatchProtocol.DoKeeps` | state_machine.go:575-717 | every step of committer and watcher keeps the invariant |
| `WatchProtocol.EveryInterleaving` | state_machine.go:540-717 | under every interleaving: sent are exactly the wanted events from the start to the cursor, in order, or up to the put the watch ended at; a wanted event beyond the cursor still has an alert coming; alerts never fall |
| `WatchProtocol.EndsIff` | state_machine.go:606-611 | a watch has ended exactly if one of its scans came upon a put it could not read |
| `WatchLaws.Quiescent` | state_machine.go:674-702 | on every schedule, once commits pause and the queue is empty, everything wanted has been sent |
| `WatchLaws.StartsWhereAsked` | state_machine.go:658-672 | on every schedule, a watcher that does not start in the future is shown exactly what it asked for, up to where it ended |
| `WatchLaws.FutureStart` | state_machine.go:658-672 | one that does is shown exactly that if and only if nothing wanted was committed before its start |
| `WatchLaws.FutureStartFails` | state_machine.go:658-672 | a watcher from revision 5 that is sent revision 2 |
| `WatchLaws.OverrunLoses` | state_machine.go:698 | a scan that compaction has overtaken is exact if and only if no wanted event was compacted |
| `WatchLaws.OverrunReached` | state_machine.go:698 | a schedule on which a wanted change is never sent |
| `WatchLaws.KeepsFloor` | state_machine.go:698 | nothing is lost as long as compaction stays behind every scan |
| `WatchLaws.RefusedRangeSleeps` | state_machine.go:664-668 | on every schedule, a watch whose range is not accepted is sent nothing after its second scan |
| `WatchLaws.EndedWatchBlocks` | state_machine.go:400-402 | on every schedule, once a watch has ended, its channel is full and a commit is to alert it, no commit ever comes again |
| `WatchLaws.BlockedFromStart` | state_machine.go:670-673 | a schedule from a quiet start that leads there |
| `WatchFilters.SentAsAsked` | state_machine.go:571-597 | on every schedule that compaction does not overtake, a watcher was sent exactly the changes of its key or between key and end, no puts if it wants none and no deletes if it wants none, each once and in the order of the log, up to its cursor or to where it ended |
| `WatchFilters.NeverUnasked` | state_machine.go:571-597 | on every schedule nothing else is ever sent |
| `WatchFilters.CheckRefuses` | state_machine.go:540-563 | a request is refused exactly if it starts below the last compaction target, and told that target |
| `WatchFilters.AlertedIff` | state_machine.go:399-401 | after a batch a watch is alerted exactly if the table of watchers has it and it covers a key the batch reports |
| `WatchFilters.ScanReports` | state_machine.go:575-640 | a scan announces its changes in order at the revision it read, then a sync if there were any; a rescan without changes a notice if asked for; one that ends the watch neither |
| `WatchFilters.EveryAnnouncement` | state_machine.go:540-717 | on every schedule the notes are one refusal and nothing more, or an opening and then exactly the changes sent, each followed by another of its scan or the sync unless the watch ended there; notices only if asked for |
| `WatchFilters.FilterWorks` | state_machine.go:571-597 | one put and one delete: a watcher without puts is sent the delete, and one without deletes the put |
| `WatchStore.ScanReads` | state_machine.go:575-611 | a scan comes upon exactly the wanted events of the replica's event table from its start on, and stops at the first put whose read fails |
| `WatchStore.BatchCommits` | state_machine.go:128-403 | a batch, with compactions or without, adds ordered new events of keys it reports, and cuts the log off at its largest target |
| `WatchStore.BatchPlays` | state_machine.go:100-404 | so it is a commit of the protocol and then compactions, after which the protocol's log is again the event table |
| `WatchPacking.Pack` | service_watch.go:150-232 | the responses and what is pending carry the received changes in order; each response holds at most one change or stays below the limit; a sync leaves nothing pending; a response is marked as a fragment exactly if the next change has the same revision; the responses without changes are, in order, those the messages call for; each response is caused by one message, in order, and one with changes by a sync or by a change that does not fit, whose revision it bears, with all that was received before; a change makes the loop send exactly if it does not fit |
| `WatchPacking.EmptyAfterSync` | service_watch.go:191-232 | a change that does not fit right after a sync is preceded by a response without changes |
| `WatchPacking.EmptySent` | service_watch.go:191-232 | two changes with a sync in between and room for just the first |
| `WatchStream.StreamOrderly` | state_machine.go:575-650 | under every interleaving, the messages of a watch come in the order the packing relies on, and carry the events that were sent |
| `Counterexamples.TinyPutCrashes` | db_kv.go:88-93 | a put of a one-byte key without a value, and a second one that brings the replica down |
| `Counterexamples.TinyUnread` | state_machine.go:606-611 | the event of the first cannot be read |
| `Counterexamples.KeptLeaseReached` | state_machine.go:879-917 | a run after which a deleted key is still listed under its lease |
| `Counterexamples.StrayRowDeletes` | state_machine.go:988-1000 | put again without a lease, the key is deleted by the end of a lease it does not have |
| `Counterexamples.NegativeLeaseCrashes` | state_machine.go:879-890 | a key attached to lease -1, and a put that takes it off and brings the replica down |
| `Counterexamples.UncheckedLeaseCrashes` | state_machine.go:910-917 | a transaction that creates a key with a lease it asks to keep, and a deletion that brings the replica down |
| `Counterexamples.RefusedUsesRevision` | state_machine.go:225-254 | a refused transaction after which the revision has grown |
| `Counterexamples.FallingTargetLoses` | state_machine.go:212-214 | compactions to 4 and then 2, after which a range at 2 is answered without the key that was there |
| `WorkedRuns.VersionDecides` | state_machine.go:1197-1257 | a put, and a transaction that deletes the key if its version compares so with zero: done exactly for greater and not equal, with one key reported |
| `WorkedRuns.MoreForNothing` | db_kv.go:165-183 | two puts, and a range with limit one at the revision of the first: that pair and more, but there was only the one |

## Left out

- EditGraphs.EditGraph.TwoSided: does not state that the common subsequence is longest; the code gives that up at its depth limit.
- DbKvs.DbKv.GetRange: its own contract says only that the answer is a function of the history; `Ranges.RangeConcludes` says which.
- Snapshots.RevisionsImmutable: like every result about runs, asks that transaction puts that keep the value bring none; otherwise a past revision may not read back.
- StateMachines.StateMachine.CmdPut: asks that a put that keeps the value brings none; one that does can break the chain of patches, and `DbKvs.DbKv.Put` with `KvCodec.PatchReadsAs` says how the old value is then read.
- StateMachines.StateMachine.TxnOps: asks the same of the puts of a transaction.
- StateMachines.StateMachine.ApplyTxn: asks the same of both branches.
- StateMachines.StateMachine.Apply: asks the same of a transaction.
- StateMachines.StateMachine.Update: asks the same of every transaction in the batch, and that the counters fit their encodings in every state the batch passes through.
- StateMachines.StateMachine.UpdateTwice: asks the same of both batches.
- KvCodec.WrongTextRead: does not show that the diff makes this very patch; the contract of `Patch.Generate` leaves open which patch it is.
- PlainReplies.EveryRunReplies: is about runs that do not bring the replica down; `LeaseLaws.PutCrashesIff`, `LeaseLaws.DeleteCrashesIff`, `Invariants.RangeInTxnCrashes` and `PlainMachine.CompactCrashesIff` say which commands do.
- WatchProtocol.EveryInterleaving: the content of a change is not part of an event there; `EventLaws.PutEventResolves` says what a put event shows. A watch that ends while it waits leaves the table of watchers in the same step.
- The WebAssembly ports under `module` and `module-zig`.
- LMDB, snappy, the checksum, Raft, protocol buffers and the interval tree themselves.
- The headers of the single replies inside a transaction, and the cluster and member ids in all headers.
- Negative revision numbers in requests, which the code converts to large unsigned ones.
- Snapshots of the database file, the cluster, maintenance and HTTP services, logging and statistics.
- The multiplexing of watches in `Stream`, cancellation, and periodic progress messages: they add messages but no events.
- The batching of lease renewals in `service_lease.go`, and the clock of `controller.go`.
- String and rune variants of the diff.
