# Verified model of UltraBridge's sync core

A Dafny model of the parts of UltraBridge that carry its guarantees, and proofs about them.

* **The ForestNote sync store** is a replicated last-writer-wins log. Devices push full-row ops
  identified by (site_id, op_seq); the server deduplicates them, merges each into a mirror row,
  appends them under a global sequence number, acknowledges a contiguous high-water, relays other
  sites' ops by cursor, authors its own ops with a hybrid logical clock and compacts the log below a
  watermark. `SyncState.dfy` gives every transaction as a function on one database value,
  `SyncStore.dfy` the same transactions as methods with loops on a class, proved against those
  functions. `SyncRuns`, `Acknowledge`, `Clock`, `Compaction` and `Relay` prove what whole runs keep;
  `Convergence` adds the devices and proves that they converge; `LostResponse` exhibits the one
  kind of run in which they do not. `FreshReplay` says when a device that starts from nothing is
  right. `Schema` is the synced schema, and `Kinds` and `Admission` tell column by column what a push
  under it accepts and stores; `Devices` says when a device is evicted. `Inventory` models the
  notebook delete and the text box edit on top.
* **Independent components**: ULID packing (`Ulid`), the folder tree (`FolderTree`), the embedding
  cache (`Embeddings`), the text chunker (`Chunk`), the Boox job queue (`BooxQueue`), the RFC 6578
  report (`SyncCollection`), CATEGORIES escaping (`ICal`) and the reMarkable parser with its format
  (`RmParse`, `RmFormat`).

`dafny verify dfyconfig.toml` checks everything.

## Hypotheses

* A device pushes only ops it authored, numbers them 1, 2, 3, ..., and fills in missing columns by
  the same defaults as the server. That (site_id, op_seq) determines the op then follows
  (`Convergence.HistoryHasOneOpPerId`); the server-only theorems state it as a hypothesis.
* The server's own site id is not a device's.
* The acknowledgement theorems allow a prune (DeleteDevice) of a device without a gap, which is
  exactly when it is safe (`Acknowledge.PruneThenPushSafeIff`).
* Clock theorems assume that no op_ts or wall clock reaches the last 64-bit integer; the exact
  boundary is `Clock.ReceivePassesEveryOp` and `Clock.LocalPassesClock`.
* Convergence in `ActiveDeviceConverges` assumes the device's true cursor is at least each watermark
  used; `RegisteredDeviceConverges` derives that for the computed watermark.
* `SyncCollection` sessions: monotone clock, positive `updated_at`, no write between the two reads
  of a report, no purge; `WritesBetweenReadsIff` drops the third.

## Where the code falls short of its description

* RecordCursor is described as bookkeeping that is not load-bearing, but ComputeWatermark reads it.
  A pull whose response is lost records a cursor the device never reached, and the next pass may
  purge a delete the device has not seen (`LostResponse.LostResponseRun`,
  `Convergence.CompactUnobservableIff`).
* An op with op_ts 2^63 - 1 wraps the clock, and the server's own writes to its row lose until the
  wall clock gets there (`Clock.ExhaustedClockRun`, `Clock.AuthoredWinsIff`).
* After a prune the reseed from MAX(op_seq) can acknowledge a gap (`Acknowledge.PruneReseedSkipsGap`,
  exactly when: `Acknowledge.ReseedSafeIff`).
* Deleting a notebook leaves its text boxes live (`Inventory.TextBoxesOutlive`).
* ChunkText counts bytes: a hard cut may fall inside a character, and then a chunk is not valid
  UTF-8 (`Chunk.HardCutSplitsRune`, exactly when: `Chunk.ChunksUtf8Iff`).
* A worker that finds a notebook empty while a newer job of the note waits skips the newer job and
  leaves its own in progress (`BooxQueue.NewerJobSkipped`); if the note was moved meanwhile it skips
  nothing and leaves its own in progress (`BooxQueue.MovedJobStays`; exactly when:
  `BooxQueue.FinishSettlesIff`).
* A reclaimed op that is delivered again is called harmless and reclaimed by the next sweep. An older
  live op of a deleted row is neither: a fresh device shows the row for good
  (`FreshReplay.RedeliveryRun`, exactly when: `FreshReplay.LateOpIff`, `FreshReplay.FreshIff`).
* Notebooks below a folder cycle appear neither in the tree nor among the unfiled
  (`FolderTree.CycleHidesNotebook`, `FolderTree.NotebookConserved`).
* Copying an embedded path onto itself empties it (`Embeddings.SelfCopyEmpties`,
  `Embeddings.CopyArrivesIff`).
* Truncated reports never end when n rows share one timestamp and more follow
  (`SyncCollection.OneStampStalls`, exactly when: `SyncCollection.TruncationEndsIff`), and a write between the listing and the token can be lost
  (`SyncCollection.WriteBetweenReadsIsLost`, exactly when: `SyncCollection.WritesBetweenReadsIff`).

## Model

| member | source | states |
|---|---|---|
| Text.StrLessConnected | internal/syncstore/reconcile.go:16-29 | byte order on strings, the last tie-break, is total: different strings are ordered one way |
| Text.StrLessTransitive | internal/syncstore/reconcile.go:16-29 | the tie-break order is transitive |
| Text.StrLessIff | internal/syncstore/reconcile.go:16-29 | a string comes before another exactly when it is a proper prefix of it or smaller at the first difference |
| Ops.LessConnected | internal/syncstore/reconcile.go:16-29 | two ops that do not beat each other have the same (op_ts, op_seq, site_id) |
| Ops.LeqTransitive | internal/syncstore/reconcile.go:16-29 | "does not lose to" is transitive, so the rule picks a maximum |
| Ops.LessAsymmetric | internal/syncstore/reconcile.go:16-29 | no two ops beat each other |
| Ops.CompleteIdempotent | internal/syncstore/op.go:102-134 | filling in missing columns a second time changes nothing |
| Ops.NormalizeIdempotent | internal/syncstore/op.go:224-238 | dropping undeclared columns a second time changes nothing |
| Ops.NormalizeTombstone | internal/syncstore/op.go:224-238 | materialising a row neither makes nor unmakes a tombstone |
| Kinds.SchemaDeclares | third_party/rhizome-server-go/registry/forestnote.go:11-106 | each synced table declares exactly the named columns, by the kind of value each holds |
| Kinds.OlderValues | internal/syncstore/op.go:98-134 | exactly page_width and page_height of a notebook and the four newer stroke columns are completed: null, null, fountain, 1, 0, null |
| Kinds.TypedReads | internal/syncstore/store.go:770-823 | the declared types hold exactly when every column reads: a number, a string, decoded bytes, null only where nullable |
| Admission.PushTakes | internal/syncstore/store.go:134-172 | for every op of a batch, in terms of its columns alone: refused with which reason and no change, already known, appended but losing, or appended and its row's content |
| Admission.PushOne | internal/syncstore/store.go:88-190 | the same for a whole push of one op; besides, only the sender's cursor row and the clock can change |
| Admission.RunReads | internal/syncstore/store.go:421-703 | in every run each mirror row has the columns of its table, each of the kind it is read as, and no others |
| Admission.AcceptableIff | internal/syncstore/store.go:134-165 | the acceptable ops of the run theorems are those with a known table, canonical ids, positive op_seq, no missing column and every column readable |
| Admission.AuthorableIff | internal/syncstore/store.go:268-281 | which ops the server may author, in the same terms |
| Admission.TombstoneIff | third_party/rhizome-server-go/compaction/sweep.go:69-79 | an op is a tombstone exactly when its deleted_at is there and not null |
| Ulid.GroupValue | internal/syncstore/op.go:161-192 | five bytes and the eight digits packed from them denote the same 40-bit number |
| Ulid.DigitsValue | internal/syncstore/op.go:161-192 | the 26 digits denote the 128-bit number of the 16 bytes, and the first 10 the 48-bit number of the first 6 |
| Ulid.EncodedIsULID | internal/syncstore/op.go:161-222 | every encoded value satisfies IsULID and its digits read back |
| Ulid.IsULIDIff | internal/syncstore/op.go:212-222 | a ULID is exactly 26 decimal digits and capital letters, none of them I, L, O or U |
| Ulid.RenderOrder | internal/syncstore/op.go:161-192 | equal-length digit strings compare, once rendered, exactly as their values |
| Ulid.EncodeOrder | internal/syncstore/op.go:161-192 | string order of encoded ids is 128-bit numeric order, and encoding is injective on all 16-byte inputs |
| Ulid.TimeRoundTrip | internal/syncstore/op.go:161-209 | the time read from an encoded id is the 48-bit big-endian timestamp it was made from |
| Ulid.ULIDTime | internal/syncstore/op.go:194-209 | succeeds exactly on ULIDs and returns the value of the first ten base-32 digits |
| Reconcile.Merge | internal/syncstore/reconcile.go:31-46 | the loop gives for each row the normalised op that no other op of the row beats, for exactly the rows mentioned |
| Reconcile.MergeWinners | internal/syncstore/reconcile.go:31-46 | one-at-a-time merging from empty satisfies the winner specification of the whole list |
| Reconcile.MergeIntoWinners | internal/syncstore/store.go:366-419 | one more op keeps the table a table of winners |
| Reconcile.WinnersUnique | internal/syncstore/reconcile.go:31-46 | two winner tables over the same set of ops are equal, whatever the order or repetition, if identity determines the op |
| Reconcile.MergeOrderIrrelevant | internal/syncstore/reconcile.go:31-46 | merging is independent of order and duplication |
| Reconcile.OrderMattersOnKeyCollision | internal/syncstore/reconcile.go:31-46 | without the identity hypothesis order does matter: a concrete pair of ops |
| SyncState.Advance | internal/syncstore/store.go:335-364 | the acknowledgement walk terminates; everything it passes is settled and the next op_seq is not |
| SyncState.AppendKeepsLogOk | internal/syncstore/store.go:197-215 | appending keeps sequence numbers ascending below last_seq and identities unique |
| SyncState.CompactKeepsLogOk | internal/syncstore/compact.go:57-120 | a compaction keeps that invariant and adds no entry |
| SyncState.LogEntryUnique | internal/syncstore/store.go:144-153 | at most one entry carries a given (site_id, op_seq) |
| SyncState.PendingMember | internal/syncstore/store.go:708-742 | an entry is pending exactly when it is past the cursor and from another site |
| SyncState.PendingSorted | internal/syncstore/store.go:708-742 | pending entries come in sequence order |
| SyncState.SweepMember | third_party/rhizome-server-go/compaction/sweep.go:37-66 | an entry survives exactly when it wins its row and is not a tombstone at or below the watermark |
| SyncRuns.AdmitSound | internal/syncstore/store.go:124-172 | one incoming op keeps: mirror = merge of everything ever appended, log drawn from that history |
| SyncRuns.AdmitMirror | internal/syncstore/store.go:134-172 | one incoming op moves the mirror by one merge step exactly when it is valid, well-typed and new, and otherwise not at all |
| SyncRuns.NextSound | internal/syncstore/store.go:88-190 | every transaction (push, author, cursor, prune, compaction) keeps that invariant |
| SyncRuns.MirrorIsMergeOfHistory | internal/syncstore/store.go:88-190 | in every reachable state the mirror is the batch merge of every op ever appended |
| SyncRuns.RunFaithful | internal/syncstore/store.go:124-172 | in every run the mirror is the merge of the acceptable ops among everything ever received, refused, dominated and duplicate ones included |
| SyncRuns.MirrorDependsOnAcceptableSet | internal/syncstore/store.go:124-172 | two runs that received the same set of acceptable ops have equal mirrors, whatever the order, duplication, batching or compactions |
| Acknowledge.PushAck | internal/syncstore/store.go:100-132 | a push by its own device keeps the acknowledgement invariant and does not lower the high-water |
| Acknowledge.NextAck | internal/syncstore/store.go:335-364 | every step, a prune without gap included, keeps the invariant and lowers no other high-water |
| Acknowledge.AckSafe | internal/syncstore/store.go:335-364 | in every run with own-op batches and no prune of a device with a gap, every op_seq from 1 to accepted_through was appended or permanently rejected |
| Acknowledge.AckNeverDecreases | internal/syncstore/store.go:335-364 | in any state no step but its own prune lowers a device's accepted_through |
| Acknowledge.AdvanceUnique | internal/syncstore/store.go:335-364 | the walk's answer is the only n with a settled stretch below it and an unsettled op_seq just above |
| Acknowledge.AckIsGreatest | internal/syncstore/store.go:100-122 | accepted_through is that n for the log and rejections of this call, from the old high-water or, on first contact, from the greatest op_seq in the log |
| Acknowledge.BatchSettles | internal/syncstore/store.go:134-172 | every op_seq a device sends is settled by the push that carries it: appended, there already, or refused |
| Acknowledge.SentIsAcknowledged | internal/syncstore/store.go:335-364 | it never wedges: a batch with every op_seq from the start of the walk to n is acknowledged at least to n |
| Acknowledge.SettledByPushIff | internal/syncstore/store.go:134-172 | a push settles of its site exactly what was settled before and what it carries |
| Acknowledge.PushCoversIff | internal/syncstore/store.go:335-364 | a push settles everything it acknowledges if and only if its walk starts on settled ground |
| Acknowledge.PruneThenPushSafeIff | internal/syncstore/devices.go:88-103 | after a prune the next push is answered safely if and only if every op_seq between the old accepted_through and the greatest in the log was settled before or is in the batch |
| Acknowledge.AckedHasNoGap | internal/syncstore/devices.go:88-103 | that holds when everything up to the greatest op_seq in the log is acknowledged |
| Acknowledge.ReseedSafeIff | internal/syncstore/store.go:100-122 | the answer to a device without a cursor row is safe if and only if every op_seq up to its greatest was settled before or is in the batch |
| Acknowledge.PruneReseedSkipsGap | internal/syncstore/store.go:100-122 | from the empty store: push op_seqs 1 and 3, prune, push nothing; 3 is acknowledged and 2 was never seen |
| Clock.MaxTsBounds | internal/syncstore/store.go:124-138 | the batch maximum bounds every incoming op_ts, refused ops included, and is attained or zero |
| Clock.PushClockExact | internal/syncstore/store.go:181-190 | after a push last_hlc is the least time at or past the wall clock and past zero, its old value and every op_ts of the batch |
| Clock.ReceivePassesEveryOp | third_party/rhizome-server-go/hlc/hlc.go:27-32 | absorbing a batch puts the clock past all its timestamps if and only if none is the last 64-bit integer |
| Clock.LocalPassesClock | third_party/rhizome-server-go/hlc/hlc.go:21-25 | a local stamp is the wall clock or one past the clock, whichever is later, and passes the clock if and only if the clock is not exhausted |
| Clock.AuthorOneWins | internal/syncstore/store.go:244-295 | an authored op stamped with the wall clock, or one past the clock where that is ahead, beats the stored row, becomes its content and is appended under the next op_seq and seq |
| Clock.AuthorAllWins | internal/syncstore/store.go:244-295 | every op of an authoring transaction becomes its row's content under consecutive op_seqs; the stamps count up from the wall clock, or from one past the clock where that is ahead; nothing else changes |
| Clock.AuthorAllSucceeds | internal/syncstore/store.go:244-295 | an authoring transaction succeeds exactly when each op is valid and well-typed |
| Clock.ClockBoundsEveryRun | internal/syncstore/store.go:124-190 | in every run last_hlc bounds every op_ts ever observed, rejected ones included, and every mirror row |
| Clock.AuthoredWinsIff | third_party/rhizome-server-go/hlc/hlc.go:21-25 | an authored op is stamped with the later of wall clock and clock plus one, wrapping past 2^63 - 1, and wins its row if and only if that passes the row or reaches it and wins the tie |
| Clock.ExhaustedClockRun | third_party/rhizome-server-go/hlc/hlc.go:27-32 | from the empty store: one pushed op with op_ts 2^63 - 1, and every later server edit of its row succeeds without effect until the wall clock gets there, and from then on unless it wins the tie |
| Clock.ServerCountsEveryRun | internal/syncstore/store.go:244-295 | over every run the server's ops carry op_seqs 1 to its counter, in order, without gap or repeat |
| Compaction.ReplayWinner | internal/syncstore/compact.go:37-56 | replaying the log from cursor 0 shows, per row, the op of that row's winning entry |
| Compaction.ReplayAfterCompact | internal/syncstore/compact.go:57-120 | for every row, replaying the survivors gives what replaying the full log gives, except that rows won by a tombstone at or below the watermark vanish |
| Compaction.LiveRowsSurvive | internal/syncstore/compact.go:57-120 | the live rows a fresh replica rebuilds are unchanged by a pass |
| Compaction.SurvivorStillWins | internal/syncstore/compact.go:57-120 | survivors win among the survivors |
| Compaction.SweepIdempotent | internal/syncstore/compact.go:57-120 | a second pass at the same watermark removes nothing; last_seq, cursors and mirror never change |
| FreshReplay.LiveWinnersStay | internal/syncstore/compact.go:36-56 | in every run the winner of every live row is in the log |
| FreshReplay.FreshIff | internal/syncstore/compact.go:42-56 | in every reachable state a pull from cursor 0 rebuilds exactly the live rows if and only if no live entry wins a row in the log that it does not win in the mirror |
| FreshReplay.SweepKeepsFresh | internal/syncstore/compact.go:50-56 | a pass does not change whether that is so: it never reclaims such an entry |
| FreshReplay.AppendCleanIff | internal/syncstore/store.go:144-172 | appending leaves every row of the log with its winner in the log if and only if the op does not lose to a winner that was reclaimed |
| FreshReplay.FreshEveryRun | internal/syncstore/compact.go:36-56 | over every run in which no op arrives after the winner it loses to was reclaimed, a fresh replica rebuilds exactly the live rows |
| FreshReplay.LateOpIff | internal/syncstore/compact.go:50-56 | the first such late op leaves a fresh replica right if and only if it is itself a delete |
| FreshReplay.RedeliveryRun | internal/syncstore/compact.go:50-56 | from the empty store, for every row: create, delete, compact, deliver the create again; a fresh replica shows the row live and no later pass changes anything |
| Relay.CutPending | internal/syncstore/store.go:708-742 | what is pending past the k-th pending entry is the rest of the list |
| Relay.PageSplits | internal/syncstore/store.go:708-742 | a page and what is pending at the returned cursor make up what was pending; has_more says exactly whether anything remains |
| Relay.SplitExtends | internal/syncstore/store.go:197-215 | appends between pages neither skip nor repeat an entry |
| Relay.ChainExact | internal/syncstore/store.go:708-742 | chained pages under any limits and interleaved appends deliver exactly the other-site entries past the start, once, in order; has_more = false exactly when nothing remained |
| Relay.DrainIdle | internal/syncstore/store.go:708-742 | without appends the client's loop terminates with everything |
| Convergence.HistoryHasOneOpPerId | internal/syncstore/store.go:144-153 | identity determines the op in every run: derived from devices numbering their own ops |
| Convergence.OneMove | internal/syncstore/store.go:88-190 | every move of devices and server keeps: each row's winner is held by the device or waits in the log past its cursor |
| Convergence.RunTracks | internal/syncstore/compact.go:57-152 | that invariant holds in every state of every run |
| Convergence.CaughtUpAgrees | internal/syncstore/store.go:708-742 | under the invariant, a drained device with no refused or unsent op holds the server mirror |
| Convergence.ActiveDeviceConverges | internal/syncstore/compact.go:57-152 | over every run of edits, pushes, server authoring, paged pulls, lost responses and compactions, an active device that drains holds exactly the mirror |
| Convergence.RegisteredDeviceConverges | internal/syncstore/compact.go:122-152 | the same for the watermark the server computes itself, for a registered, non-stale device whose responses all arrive |
| Convergence.HealthyIsActive | internal/syncstore/compact.go:122-152 | the computed watermark never passes such a device's cursor |
| Convergence.LastPageDrains | internal/syncstore/store.go:708-742 | a pull answering has_more = false leaves nothing pending |
| Convergence.CompactUnobservableIff | internal/syncstore/compact.go:57-120 | a pass keeps a device covered if and only if it purges no winning delete the device has not seen |
| Convergence.StrandedForever | internal/syncstore/compact.go:57-120 | a purged unseen delete is carried by no remaining entry |
| Convergence.LostResponseStrandsDelete | internal/syncstore/store.go:751-766 | after a lost pull response the computed watermark can purge a delete the device never saw |
| Convergence.ZombieForever | internal/syncstore/store.go:751-766 | no number of pulls of surviving entries repairs that row |
| Convergence.PassThenDrainIff | internal/syncstore/compact.go:57-120 | for a device in step whose own ops arrived, a pass and a drain leave the mirror if and only if the pass purged no winning delete it had not seen |
| LostResponse.LostResponseRun | internal/syncstore/store.go:751-766 | a six-move run from the empty store, for every row: computed watermark, registered non-stale device, drained pull, and yet a replica unequal to the mirror |
| LostResponse.AuthorSingle | internal/syncstore/store.go:244-295 | the whole database after authoring one acceptable op |
| SyncStore.MergeRow | internal/syncstore/store.go:366-419 | the row update is the merge step; it fails exactly when the op would win with a column of another type (by kind: Kinds.TypedReads) |
| SyncStore.WinnerIndex | third_party/rhizome-server-go/compaction/sweep.go:37-46 | the scan finds for every row the first entry with the greatest key |
| SyncStore.SweepLog | third_party/rhizome-server-go/compaction/sweep.go:37-66 | the two loops keep exactly the specified survivors; collapsed counts the entries that do not win their row, purged the winning tombstones at or below the watermark |
| SyncStore.AuthorOp | internal/syncstore/store.go:255-290 | the loop body is the single-op transaction |
| SyncStore.AuthorPrefixFails | internal/syncstore/store.go:244-295 | a refusal part-way refuses the whole transaction |
| SyncStore.Store.constructor | internal/syncstore/store.go:15-27 | an empty store: no entry, row or cursor, all counters and the clock at zero |
| SyncStore.Store.AppendOp | internal/syncstore/store.go:197-215 | next seq allocated and entry appended; nothing else changes |
| SyncStore.Store.AdvanceAccepted | internal/syncstore/store.go:327-364 | the loop returns the walk's answer and stores it with the time in the device's cursor row only; pull cursor and name stay |
| SyncStore.Store.AdmitOp | internal/syncstore/store.go:134-172 | one incoming op: new state and rejection as specified, on every branch |
| SyncStore.Store.AdmitOps | internal/syncstore/store.go:134-172 | the loop: state, rejections, refused op_seqs and greatest timestamp of a batch |
| SyncStore.Store.ApplyBatch | internal/syncstore/store.go:88-190 | whole new state, accepted_through and rejections of a push, and the sender's cursor row field by field; op by op: Admission.PushTakes |
| SyncStore.Store.AuthorOps | internal/syncstore/store.go:244-295 | all or nothing: the authored state, or no change; stamp by stamp: Clock.AuthorAllWins |
| SyncStore.Store.OpsSince | internal/syncstore/store.go:705-742 | the first pending ops, as many as the limit (500 if it is not positive), each with the stored identity and columns and the defaults of those it lacks; the cursor of the last one; has_more exactly if there are more |
| SyncStore.MergeAnswer | internal/syncstore/store.go:708-742 | a replica that merges the ops it was handed ends where merging the entries of the page ends |
| SyncStore.PacksUnique | third_party/rhizome-server-go/bounded/rows.go:87-144 | the pending rows, the limits and the encoded sizes leave one possible bounded answer |
| SyncStore.Store.RecordCursor | internal/syncstore/store.go:751-766 | only that device's row: new pull cursor and time, acknowledgement kept, an empty name keeps the stored one |
| SyncStore.Store.DeleteDevice | internal/syncstore/devices.go:88-103 | removes that row, leaves every other and says whether it existed |
| SyncStore.Store.ComputeWatermark | third_party/rhizome-server-go/compaction/watermark.go:20-37 | the least last_pull_seq over non-stale sites, 0 if there is none, and exactly the stale sites, sorted, in any row order |
| Devices.LastContact | internal/syncstore/store.go:751-766 | in every run a device has a row exactly if its last contact was no prune, and the row carries the time of that contact |
| Devices.UnseenIsEvicted | internal/syncstore/compact.go:122-152 | in every run a device is evicted from the watermark exactly when its last contact is longer ago than the horizon |
| Text.Insert | third_party/rhizome-server-go/compaction/watermark.go:34-35 | a string goes to its place in an ordered list |
| SyncStore.Store.Compact | internal/syncstore/compact.go:57-120 | the log becomes the survivors and every other table is untouched; collapsed and purged count the superseded entries and the purged tombstones |
| SyncStore.Store.ExchangeBounded | internal/syncstore/bounded.go:15-105 | refused if and only if the limits are out of range, there are too many ops, an incoming op is too long, the empty answer or the first row cannot fit, or the encoded answer is too long, and then nothing changes; otherwise push plus pull cursor, with the pending rows up to the first that does not go in |
| SyncStore.BoundedIsPage | internal/syncstore/bounded.go:15-105 | a bounded reply is a relay page with as many ops as limit, op for op |
| SyncStore.ExchangeIsSendThenPull | internal/syncstore/bounded.go:15-105 | a bounded exchange is a send followed by a pull, and merging the ops of its answer gives the replica of that pull |
| SyncStore.Store.FillPage | third_party/rhizome-server-go/bounded/rows.go:105-144 | succeeds unless the empty answer or the first row cannot fit; the page then holds the pending rows up to the first that is too many, too large or past the target, with its cursor and has_more |
| Inventory.ForestNoteSchema | third_party/rhizome-server-go/registry/forestnote.go:1-107 | the synced schema is one the delete works on |
| Inventory.RunTyped | internal/syncstore/store.go:369-419 | for any schema: in every run each mirror row is valid, well-typed and holds only declared columns; spelled out by kind in Admission.RunReads |
| Inventory.RunOwnIds | internal/syncstore/store.go:244-295 | if no device pushes under the server's id, the server's identities in the log never pass its counter, prunes or not |
| Inventory.ReachableStoreOk | internal/syncstore/store.go:88-190 | every state so reached satisfies what the edits below require |
| Inventory.RewriteAuthorable | internal/syncstore/inventory.go:409-436 | re-authoring a stored row with one column replaced is accepted and changes no other column |
| Inventory.PageTextAuthorable | internal/syncstore/pagetext.go:16-36 | the page-text tombstone row is accepted and stored as given |
| Inventory.DoomedAuthorable | internal/syncstore/inventory.go:253-350 | the delete op of every doomed row is accepted and materialises to the row's own columns with deleted_at set |
| Inventory.OverlayDistinct | internal/syncstore/store.go:244-295 | ops on distinct rows each end up as their row's content and leave all others alone |
| Inventory.DeleteOutcome | internal/syncstore/inventory.go:237-360 | the notebook, its live pages and the live strokes on them get deleted_at and keep every other column, the server's text of each page is emptied, and every other row stays |
| Inventory.DeleteMeans | internal/syncstore/inventory.go:237-360 | what a delete leaves, column by column |
| Inventory.DeleteRace | internal/syncstore/inventory.go:237-360 | with other transactions in between, the same rows die with the columns that were read, and every other row stays as it now is |
| Inventory.CollectDoomed | internal/syncstore/inventory.go:237-350 | one op for the notebook, each live page, each live stroke on one and each page's text; returns exactly the live pages |
| Inventory.SoftDeleteNotebook | internal/syncstore/inventory.go:220-360 | that outcome for an existing notebook, and the ids of the pages that were live, each once; no change for an unknown one |
| Inventory.TextBoxesOutlive | internal/syncstore/inventory.go:237-360 | text boxes and client page text are unchanged: a live box on a page that dies stays live |
| Inventory.EditTextBoxText | internal/syncstore/inventory.go:402-436 | only the text of that box changes; a missing box and one whose deleted_at is set are told apart and change nothing |
| Inventory.EditRace | internal/syncstore/inventory.go:402-436 | with other transactions between the read and the authoring: the box gets the new text and its other columns as read, no other row changes |
| FolderTree.BuildForestNoteTree | internal/service/note.go:1271-1322 | terminates for every table with unique ids, parent cycles included; each node carries its folder's id and name, its notebooks and its child folders in table order; at the top stand the folders whose parent names no folder, and unfiled are the notebooks whose folder names none |
| FolderTree.TreeOfFits | internal/service/note.go:1271-1322 | the tree of chains from the roots is that tree |
| FolderTree.LiveIds | internal/service/note.go:1274-1277 | the set of folder ids |
| FolderTree.FileNotebooks | internal/service/note.go:1278-1294 | notebooks by live folder, in order, and the unfiled ones |
| FolderTree.FileFolders | internal/service/note.go:1296-1304 | folders by live parent, in order, and the roots |
| FolderTree.Build | internal/service/note.go:1306-1317 | the subtree of the folder at the end of a chain |
| FolderTree.ChainDistinct | internal/service/note.go:1306-1317 | no folder repeats on a chain from a root: a cycle is never entered |
| FolderTree.ChainBound | internal/service/note.go:1306-1317 | the recursion is no deeper than the table is long |
| FolderTree.FolderOnce | internal/service/note.go:1306-1322 | each folder appears exactly once if a root reaches it and otherwise never |
| FolderTree.NotebookConserved | internal/service/note.go:1271-1322 | each notebook appears as often as given if it is unfiled or its folder chain reaches a root, and otherwise nowhere |
| FolderTree.CycleHidesNotebook | internal/service/note.go:1271-1322 | a cycle of two folders and its notebook vanish from the answer |
| Chunk.ChunkText | internal/rag/chunk.go:19-46 | for every byte string: chunks are non-empty, at most 1500 bytes and without white space at either end; they lie in the text in order with only Unicode white space around them; a text that fits is one chunk; if no break-free stretch is too long a break separates them; there is none exactly for blank text |
| Chunk.SpaceIff | internal/rag/chunk.go:20-39 | white space is found exactly where one of Unicode's white space characters is encoded |
| Chunk.CutAtLast | internal/rag/chunk.go:31-36 | a long rest is cut at the last blank, tab or line end within 1500 bytes, and inside a stretch only if there is none |
| Chunk.CutAll | internal/rag/chunk.go:28-45 | the loop yields the specified pieces |
| Chunk.ChunksLaid | internal/rag/chunk.go:19-46 | no byte but white space is dropped, none is changed or moved, and without over-long stretches no stretch reaches into two chunks |
| Chunk.NoChunksIff | internal/rag/chunk.go:20-23 | no chunk if and only if the text is white space |
| Chunk.HeadLaid | internal/rag/chunk.go:37-39 | trimming one head and keeping it drops white space only |
| Chunk.TrimUtf8Iff | internal/rag/chunk.go:37-39 | trimming neither breaks nor mends a character |
| Chunk.ChunksUtf8Iff | internal/rag/chunk.go:30-41 | the chunks of well-formed UTF-8 are well-formed if and only if no hard cut falls on a continuation byte |
| Chunk.ShortNeverSplits | internal/rag/chunk.go:31-36 | with no over-long stretch no cut falls inside a character |
| Chunk.HardCutSplitsRune | internal/rag/chunk.go:31-36 | 601 characters, the letter a and 600 three-byte ones, are cut inside one of them |
| Chunk.HardCutNeedsLongWord | internal/rag/chunk.go:31-36 | the hard cut happens only inside a break-free stretch of more than 1500 bytes |
| Embeddings.RoundTrip | internal/rag/store.go:262-279 | decoding what was encoded gives the vector back |
| Embeddings.StoredBytes | internal/rag/store.go:262-269 | each number is stored as four bytes, lowest first |
| Embeddings.Decode | internal/rag/store.go:271-279 | the loop reads every whole word, lowest byte first |
| Embeddings.FilteredLists | internal/rag/store.go:77-116 | the in-place filter leaves the cache equal to the filtered table, keys unique |
| Embeddings.MovedLists | internal/rag/store.go:118-135 | renaming in place does the same if the unique key does not clash |
| Embeddings.RenamedMoves | internal/rag/store.go:118-135 | a rename without a clash moves each entry to its page and chunk under the new path |
| Embeddings.CopiedLists | internal/rag/store.go:137-178 | dropping the target and appending copies does the same |
| Embeddings.CopiedCopies | internal/rag/store.go:137-178 | what a copy leaves, key by key |
| Embeddings.PutRecord | internal/rag/store.go:54-74 | update or append does the same |
| Embeddings.EmbeddingStore.Save | internal/rag/store.go:37-75 | cache and table agree afterwards and hold exactly one more or replaced entry, stored in that encoding |
| Embeddings.EmbeddingStore.DeletePage | internal/rag/store.go:77-95 | they agree; the entries of that page are gone and every other is as it was |
| Embeddings.EmbeddingStore.Delete | internal/rag/store.go:97-116 | they agree; the entries of that path are gone and every other is as it was |
| Embeddings.EmbeddingStore.Rename | internal/rag/store.go:118-135 | refused exactly if the new path already has one of the pages and chunks, and then nothing changes; otherwise every entry is found under the new path with its vector, and every other is as it was |
| Embeddings.EmbeddingStore.Copy | internal/rag/store.go:137-178 | cache and table agree; under the target stands exactly what the source holds, nothing if both are one path, and every other path is as it was |
| Embeddings.SelfCopyEmpties | internal/rag/store.go:137-178 | copying a path onto itself empties it and leaves every other path alone |
| Embeddings.CopyArrivesIff | internal/rag/store.go:137-178 | every source row arrives under the target with its vector if and only if the paths differ or the source has no rows |
| Embeddings.EmbeddingStore.LoadAll | internal/rag/store.go:180-208 | rebuilds an agreeing cache in any row order and counts the rows |
| Embeddings.EmbedAndStorePage | internal/rag/embedder.go:34-85 | over the chunks of the text: unchanged if there are chunks and every embed failed; otherwise the page is replaced by the successful ones |
| Embeddings.PageExact | internal/rag/embedder.go:34-85 | the replaced page holds exactly its successful chunks and no other key changed |
| Embeddings.CountSomeIs | internal/rag/embedder.go:34-85 | the number returned is the number of chunks that were embedded |
| BooxQueue.RetryDelayClosedForm | internal/booxpipeline/processor.go:127-153 | the delay is min(2^(n-1), 30) minutes for every n >= 1, in nanoseconds |
| BooxQueue.RetryDelayMonotone | internal/booxpipeline/processor.go:127-153 | the delay is monotone, at least a minute and at most the cap |
| BooxQueue.RetryDelayNoOverflow | internal/booxpipeline/processor.go:141-153 | the shifted value stays inside 64 bits wherever the shift is taken |
| BooxQueue.JobStore.EnqueueJob | internal/booxpipeline/store.go:142-172 | one new row under an id no row has, pending with no attempts, the latest of its note and claimable at once; every other row stays |
| BooxQueue.JobStore.ClaimNextJob | internal/booxpipeline/store.go:174-201 | claims an eligible job no other eligible job is older than: in progress, started now, one attempt more, every other row as it was; answers none exactly when none is eligible |
| BooxQueue.JobStore.RequeueJob | internal/booxpipeline/store.go:217-238 | the job is claimable exactly from its due time on; its attempts, its place in the queue and every other row stay |
| BooxQueue.JobStore.SkipNote | internal/booxpipeline/store.go:430-441 | the scan finds the note's job with the greatest id; exactly that row changes, to skipped |
| BooxQueue.JobStore.HandleResult | internal/booxpipeline/processor.go:155-221 | success is done; a transient failure before the fifth attempt is pending again after 1, 2, 4 or 8 minutes; any other failure is failed; an empty notebook skips the latest job of its path; an interrupted job and all other rows stay |
| BooxQueue.DueIsBackoff | internal/booxpipeline/processor.go:127-153 | those delays, in seconds |
| BooxQueue.OperatorSteps | internal/booxpipeline/store.go:431-560 | what restart, watchdog, retry, skip, unskip, note deletion and note move leave of each row |
| BooxQueue.AttemptsNeverDecrease | internal/booxpipeline/store.go:143-252 | no step lowers a job's attempts and a claim raises them by one |
| BooxQueue.NextInv | internal/booxpipeline/store.go:143-252 | every step keeps: no two tickets or requeues stem from one claim, and each is spent |
| BooxQueue.RunInv | internal/booxpipeline/store.go:521-560 | that invariant holds over every interleaving of workers, watchdog, operator and restarts |
| BooxQueue.AtMostFourRequeues | internal/booxpipeline/processor.go:155-200 | a job is requeued as transient at most four times in its life |
| BooxQueue.NoEarlyClaim | internal/booxpipeline/store.go:183-238 | over every run, whatever steps come between, a job requeued after a transient failure is not claimed before its delay is over |
| BooxQueue.FinishSettlesIff | internal/booxpipeline/processor.go:155-221 | a finished job leaves in_progress if and only if it was not interrupted and, for an empty notebook, it is the latest job of the path its worker knows |
| BooxQueue.NewerJobSkipped | internal/booxpipeline/processor.go:172-180 | from the empty queue: enqueue, claim, enqueue again, find empty; the newer job is skipped and the first stays in progress with no worker |
| BooxQueue.MovedJobStays | internal/booxpipeline/store.go:394-428 | from the empty queue: enqueue, claim, move the note, find empty; nothing is skipped and the job stays in progress with no worker |
| SyncCollection.TokenRoundTrip | internal/caldav/synccollection.go:181-201 | a returned token parses to the bound it was made from |
| SyncCollection.TokenIff | internal/caldav/synccollection.go:181-201 | accepted are exactly the empty token and the prefix followed by the decimal digits of the bound, with at most a plus sign, or a minus sign before zero |
| SyncCollection.ValueConcat | internal/caldav/synccollection.go:181-201 | digits count by decimal place |
| SyncCollection.ServeSyncCollection | internal/caldav/synccollection.go:124-179 | refused exactly for malformed tokens and tokens below the floor; otherwise the first rows of the live set, or of what changed, up to the limit; truncated exactly if there were more, and then with the token of the last row |
| SyncCollection.NoChangeSkipped | internal/caldav/synccollection.go:147-179 | a row changed at or after the token is reported or is not older than the returned token |
| SyncCollection.ReportKeepsInStep | internal/caldav/synccollection.go:124-179 | a report, truncated or not, keeps the client in step; an untruncated one makes it exact |
| SyncCollection.WriteKeepsInStep | internal/taskdb/store.go:309-325 | a write under a monotone clock keeps every client in step |
| SyncCollection.InitialIsExact | internal/caldav/synccollection.go:144-153 | an untruncated initial report makes the client exact |
| SyncCollection.SessionInStep | internal/caldav/synccollection.go:124-179 | in step after every sequence of writes and reports |
| SyncCollection.UntruncatedIsExact | internal/caldav/synccollection.go:124-179 | a session that ends in an untruncated report leaves exactly the live set |
| SyncCollection.TruncatedProgressIff | internal/caldav/synccollection.go:147-179 | the next report is shorter if and only if the first and the last reported row have different timestamps |
| SyncCollection.TruncationEndsIff | internal/caldav/synccollection.go:168-176 | while nothing is written, following truncated reports ends, within one report a row, if and only if no n rows ahead share a timestamp with more than n rows from it on |
| SyncCollection.ClumpStalls | internal/caldav/synccollection.go:168-176 | with such rows every report of every chain is truncated and its token does not pass them |
| SyncCollection.OneStampStalls | internal/caldav/synccollection.go:168-176 | more than n rows written at one time are such rows |
| SyncCollection.WritesBetweenReadsIff | internal/caldav/synccollection.go:147-166 | with writes between the listing and the token the client stays in step if and only if the report is truncated or each such row carries the newest timestamp or shows nothing new |
| SyncCollection.WriteBetweenReadsIsLost | internal/caldav/synccollection.go:147-166 | two such writes of new rows at different times lose the earlier one |
| ICal.FourPassesAreOne | internal/caldav/vtodo.go:803-812 | the four passes escape each character once |
| ICal.EscapeOne | internal/caldav/vtodo.go:803-812 | a backslash, comma or semicolon gets a backslash before it, a line feed is written as \n, any other character stays |
| ICal.EscapeConcat | internal/caldav/vtodo.go:803-812 | a text is escaped piece by piece |
| ICal.SetCategoriesProp | internal/caldav/vtodo.go:781-801 | the joined escaped non-empty items, or no property |
| ICal.PropertyAbsentIff | internal/caldav/vtodo.go:781-801 | no property is written exactly when every category is empty |
| ICal.WrittenItems | internal/caldav/vtodo.go:781-801 | what is written reads back as exactly the categories that are not empty, in order |
| ICal.TextList | internal/caldav/vtodo.go:362-364 | the scanner splits at unescaped commas and unescapes, section 3.3.11 of RFC 5545 |
| ICal.ScanForms | internal/caldav/vtodo.go:362-364 | how each form of the value is read, and which make it malformed |
| ICal.SplitCommaPlain | internal/caldav/vtodo.go:355-375 | a malformed value is split at every comma and loses nothing |
| ICal.TrimStrips | internal/caldav/vtodo.go:355-375 | a category is what is left when Unicode white space is taken off both ends |
| ICal.ScanEscaped | internal/caldav/vtodo.go:803-812 | escaped text reads back as itself whatever follows it |
| ICal.ListRoundTrip | internal/caldav/vtodo.go:781-812 | reading undoes writing for every non-empty list of items |
| ICal.CategoriesRoundTrip | internal/caldav/vtodo.go:355-375 | write then parse trims each category, drops blank ones and loses nothing else |
| ICal.CategoriesSurviveIff | internal/caldav/vtodo.go:355-375 | a list survives unchanged if and only if each category is trimmed and non-blank |
| RmParse.Reader.Skip | internal/rmrender/parse.go:313-320 | moves on by n or to the end; the position stays inside the buffer |
| RmParse.Reader.Take | internal/rmrender/parse.go:322-361 | the little-endian number of n bytes, or no move |
| RmParse.Reader.Varint | internal/rmrender/parse.go:363-376 | the base-128 number on 64 wrapping bits, at most ten bytes |
| RmParse.Reader.SkipTagValue | internal/rmrender/parse.go:394-411 | what is left after a value of each tag type |
| RmParse.ParsePoints | internal/rmrender/parse.go:256-273 | all whole frames that are numbers, in order |
| RmParse.ParseLineValue | internal/rmrender/parse.go:215-254 | the stroke the fields of a value describe, on every branch |
| RmParse.ParseLineItem | internal/rmrender/parse.go:183-213 | the value of an item that is whole and not deleted |
| RmParse.ParseV6 | internal/rmrender/parse.go:65-92 | the strokes of all blocks up to the first that does not fit |
| RmParse.ParseV5Stroke | internal/rmrender/parse.go:120-181 | head and samples, or failure if the file is too short for the count |
| RmParse.ParseV5 | internal/rmrender/parse.go:94-118 | all strokes with samples, or those before the truncation |
| RmParse.Parse | internal/rmrender/parse.go:51-63 | total on byte strings: 43 bytes and one of the two headers decide the format, anything else is unreadable |
| RmParse.PageV6Bound | internal/rmrender/parse.go:65-92 | 14 * points <= len - 43 whatever lengths the file declares |
| RmParse.PageV5Bound | internal/rmrender/parse.go:94-181 | 24 * points <= len - 43 whatever counts the file declares |
| RmFormat.VarintRoundTrip | internal/rmrender/render_test.go:149-155 | every 64-bit number written as a varint reads back |
| RmFormat.VarintFails | internal/rmrender/parse.go:363-376 | a number that none of ten bytes ends, or that the data cuts off, is not read |
| RmFormat.WordBytes | internal/rmrender/parse.go:322-361 | words of 1, 2, 4 and 8 bytes, lowest byte first |
| RmFormat.NaN32Iff | internal/rmrender/parse.go:256-273 | the points left out are those IEEE 754 calls not a number |
| RmFormat.TagRoundTrip | internal/rmrender/render_test.go:145-147 | every tag reads back |
| RmFormat.PointsRoundTrip | internal/rmrender/render_test.go:126-143 | a written point block reads back, without the points that are not numbers |
| RmFormat.FieldsRoundTrip | internal/rmrender/render_test.go:100-112 | a written value reads back as the stroke its fields describe, in any field order, with unknown fields passed over |
| RmFormat.ShortWord | internal/rmrender/parse.go:222-245 | a word the value cuts off counts as zero and what there is of it is read on |
| RmFormat.LongPointsFail | internal/rmrender/parse.go:233-240 | a point list longer than the rest of the value spoils the value |
| RmFormat.DropsOther | internal/rmrender/parse.go:394-411 | a value of an unnamed tag type is passed over as one number |
| RmFormat.MarksRoundTrip | internal/rmrender/render_test.go:113-118 | an item's value is found behind any ids and marks unless the last deletion mark is set |
| RmFormat.BadItemHidden | internal/rmrender/parse.go:183-213 | an item whose value is cut off or is no line shows nothing |
| RmFormat.V6RoundTrip | internal/rmrender/render_test.go:58-124 | every written version 6 page reads back: the strokes of its undeleted items that have points, in order; a last block that is cut off is left out and spoils nothing before it |
| RmFormat.V5RoundTrip | internal/rmrender/render_test.go:69-98 | every written version 5 page reads back: all lines with samples, layer by layer, each sample with its own width unless that is zero or negative |
| RmFormat.V5CutInLine | internal/rmrender/parse.go:94-181 | a page cut off inside a line is reported as truncated with every line before the cut |
| RmFormat.V5CutInLayer | internal/rmrender/parse.go:94-118 | so is one cut off before the line count of a layer |

## Left out

- SQL text, migrations, database failure and the JSON encoding: tables are maps and sequences, a transaction is one step, and the legacy wall_ts field and fractional JSON numbers do not occur.
- Base64: a value is given as its column reads it, so a byte column holds decoded bytes, or a string where the text is not base64.
- The texts of rejection reasons, and which of several missing columns is named.
- The changed-page lists a push and an authoring call return, and the bridge that consumes them.
- op_seq and seq reaching 2^63; only the clock is modelled on wrapping integers.
- The encoded sizes of ops, rows and answers are parameters; what ExchangeBounded decides by them is modelled.
- Folder and notebook listings, page and stroke reads, device labels: filters of the mirror that promise nothing beyond their own query.
- A truncated initial sync-collection report (the listing order is not fixed), SyncFloor's upkeep and the XML of requests and responses.
- Concurrency inside the embedding store; embedding and similarity arithmetic.
- Embeddings.FilteredLists: the cache is a sequence the methods reassign; the backing array the filter and older slices share is not modelled.
- Inventory.SoftDeleteNotebook: reads and authoring are one step; what other transactions in between lead to is Inventory.DeleteRace.
- Inventory.EditTextBoxText: read and authoring are one step; what other transactions in between lead to is Inventory.EditRace.
- ICal.CategoriesSurviveIff: text is well-formed; line folding and the component encoder are not part of this model, and go-ical's list reader is modelled by section 3.3.11 of RFC 5545.
- RmParse.ParseV5Stroke: widths and pressures stay the bit patterns read; the scaling to 16 and 8 bits is float arithmetic.
- BooxQueue.JobStore.HandleResult: error texts, the OCR source and the note hash are not kept; unskip, retry, reclaim and note deletion are step functions, since each is a single update.
- Worker start and stop, the content of a finished Boox job, file watching, rendering, PDF assembly, OCR, HTTP handlers, authentication, MCP tools, chat and configuration.
