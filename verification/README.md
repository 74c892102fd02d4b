# LightGraph: storage, logging and transactions, verified in Dafny

LightGraph is an in-memory graph store with write-ahead logs. This project models the parts that
carry its guarantees and proves those guarantees, or the exact condition under which they hold.

| file | models |
|---|---|
| `Types.dfy`, `Bytes.dfy`, `Bincode.dfy` | integer widths, records, little-endian integers, the fixed-width binary form of nodes, edges and property values |
| `WalFormat.dfy` | log records, the encoders and the replay parser |
| `WalThread.dfy` | the log thread: its loop, and senders, channel and thread interleaved step by step |
| `Recovery.dfy` | what opening a node or edge store rebuilds, and the id space it restarts with |
| `NodeStore.dfy`, `EdgeStore.dfy`, `PropStore.dfy` | the three stores, each holding the state of its log thread |
| `Chains.dfy`, `Adjacency.dfy` | intrusive adjacency chains, one at a time and store-wide over whole runs |
| `TicketLock.dfy`, `Mvcc.dfy`, `Snapshots.dfy` | interleaved write transactions, id reservation, and what a snapshot sees |
| `Plans.dfy` | what the buffering calls of one transaction come to: its five lists, the plan, the records it leaves |
| `Transaction.dfy` | the database as one client thread sees it: commit, visibility, durability, closing and reopening |
| `CommitCrash.dfy` | a crash while a commit is on its way through the three logs |
| `LogOrder.dfy` | one store's map and log as threads interleave inside its methods |
| `Serial.dfy`, `SerialRecords.dfy` | when concurrently applied transactions leave what ticket order would |
| `Tokenizer.dfy` | the CJK bigram analyzer |

Concurrency is modelled as state machines whose steps are single shared accesses: `WalThread`
separates receiving a message from loading the `running` flag, `TicketLock` separates loading
the commit counter from storing it, `Mvcc` interleaves the application of writes one at a time.
Theorems about runs hold for every allowed sequence of steps. The stores are classes with the
source's fields; their methods are proved against functions, and the whole-run theorems are
about those same functions. A store's calls to its log go through `WalThread.SendCmd` and
`WalThread.FlushHandle`, which let the thread take arbitrary steps in between, block while the
channel is full and wait for the flush reply.

In the interleaved model ids and tickets are handed out below `u64::MAX`, the null link and the
"not deleted" stamp; in the stores the counters wrap, and the contracts say what that breaks.
Timeouts are choices of the environment. Writing and fsyncing the buffer succeeds.

## Where the code and its documentation differ

- `shutdown` and `Drop` do not drain the channel: the thread leaves as soon as it sees the cleared
  flag. `ShutdownKeepsAllIff` says exactly when nothing is lost, `ShutdownLosesInFlight` shows a run
  that loses a command.
- A crash during an append can leave a torn record, under `Immediate` too (`ImmediateTears`). Replay
  then delivers the whole records before it, but reports an error, so the store does not open, when 4
  or more bytes of the torn record are there (`TornLog`, `CrashRecovery`). With 1 to 3 torn bytes the
  store opens, appends after them, and does not open again after its next delete (`ReopensIff`).
- `commit` is documented as atomic across the stores, but their logs are separate files: a crash during
  it brings each store back to its own prefix of the plan. `CommitRecovers` says which, exactly;
  `CommitIsNotAtomic` shows an edge recovered without its node, and a node without its edge.
- An insert is logged after its record can be seen, and a removal before. The log agrees with the map
  exactly when, on every id, such a late step finds things as its call left them (`LogOrderIff`);
  `DeleteIsLost` is a run in which a delete that returned is undone by reopening.
- `compact` reclaims the ids it collected without looking again. A settled snapshot is frozen exactly
  when no id reclaimed is one it sees (`FrozenSnapshotIff`); one compaction keeps to that whatever runs
  beside it (`CompactionFreezes`), a list that is out of date need not (`StaleReclaimIff`,
  `StaleListLosesRecord`).
- A record of 2^32 - 9 payload bytes or more is written with a wrapped length
  (`ReplayInvertsEncodeIff`), a property name over 255 bytes with a wrapped name length (`CellCodecIff`).
- Replaying an insert does not take its id off the free list, so a log that reuses an id brings it
  back both stored and free (`CleanFreeIff`, `RecycledIdComesBackFree`).
- The commit counter moves before the writes are applied, so visibility is not atomic until the
  transaction has finished applying: each record it creates appears at the moment its own create is
  applied and not before (`AppliedIsVisibleIff`, `SettledShowsAll`; `HalfAppliedIsVisible` is a run).
- `update_labels` overwrites the creation stamp and a second delete overwrites the deletion stamp;
  both change what older snapshots see. `ViewChangesIff` lists every step that can;
  `RelabelDisturbsSettled` and `SecondDeleteDisturbsSettled` are runs in which they do.
- Tickets are resolved in order but their writes are applied concurrently. The writes reach each
  record in ticket order exactly when none is applied while an earlier ticket has one to the same
  record left, and then the records are those of the ticket order (`TicketOrderIff`,
  `ConcurrentIsSerial`); the records are so in exactly the runs that `ConcurrentIsSerialIff` names.
  `OvertakenUpdateIsLost` is a run in which the later update is lost.
- The ticket counters are not stored. A reopened database has all committed records, but its first
  readers, at snapshot 0, see none of them (`ReopenRestores`, `RunStamps`); later ones lack what was
  created, and see again what was deleted, after their number (`ReopenedViews`), and a commit at a
  small ticket does not see records stamped above it (`CommitVisibility`).
- Calling `rollback` on a transaction already resolved never returns (`RollbackReturnsIff`,
  `RollbackAfterCommit`).
- The ticket lock's comments speak of a CAS; the code loads and stores, and that is what is proved safe.
- Under `Immediate` a write returns once it is enqueued, not once it is fsynced; what is still in the
  channel at a crash is lost (`EnqueuedIsNotDurable`). `CrashRecovery` says exactly which commands
  survive; only an answered flush is a sync point (`Refinement`).
- `link_into_chains` and `hard_delete` do not look at whether an edge is linked. `LinkEndsIff` and
  `HardDeleteKeepsChainsIff` say what that costs, `LinkedRunFails` shows it after a run; the
  store-wide theorem is about runs that link only unlinked edges and remove only unlinked ones.
- Row `u32::MAX` wraps a label's recovered row counter (`FreshAfterRecoveryIff`, `LastRowWraps`), and
  an `insert_prop` at or above the counter is not known to it (`CoveredAfterWriteIff`).
- A word or number run takes in CJK characters that are alphabetic or numeric, so a query right
  after one may be missed. `SearchGuardIff` says exactly where, in terms of the run in progress, which
  for texts without characters that are both letter and number (such as U+2160) is the run they end in;
  `SwallowedTerms` says what is there instead.

## Model

| member | source | states |
|---|---|---|
| Bytes.FromLeToLe | src/storage/wal_thread.rs:234-236 | little-endian bytes read back to the value written |
| Bytes.U32Bytes | src/storage/wal_thread.rs:234-236 | the four bytes of a `u32`, least significant first |
| Bytes.U64Bytes | src/storage/wal_thread.rs:234-236 | the bytes of a `u64` are those of its low and then its high half |
| Bincode.DecodeEncodeEdge | src/storage/edge_store.rs:89-95 | an edge record survives serialization |
| Bincode.EdgeLayout | src/storage/mod.rs:30-40 | where each field of an edge record lies, in the order of declaration |
| Bincode.DecodeEncodeNode | src/storage/node_store.rs:125-131 | a node record with any number of labels survives serialization |
| Bincode.NodeLayout | src/storage/mod.rs:18-26 | where each field and each label of a node record lies |
| Bincode.DecodeEncodeCell | src/storage/prop_store.rs:21-29 | every optional value, however nested, survives serialization |
| Bincode.ValueLayout | src/storage/prop_store.rs:20-29 | the variant index and the contents of an encoded value |
| WalFormat.EncodeInsert | src/storage/wal_thread.rs:231-238 | appends the encoding of an insert, length cast to `u32` |
| WalFormat.EncodeDelete | src/storage/wal_thread.rs:240-245 | appends the encoding of a delete |
| WalFormat.EncodeLayout | src/storage/wal_thread.rs:231-245 | where length, opcode, id and payload lie in an encoded record |
| WalFormat.ReplayWal | src/storage/wal_thread.rs:267-304 | the reading loop makes exactly the parser's callbacks and ends with its status, for any bytes |
| WalFormat.ParseEncodeAll | src/storage/wal_thread.rs:279-303 | encoded commands at the front of a log are delivered unaltered whatever follows |
| WalFormat.ParseTornRecord | src/storage/wal_thread.rs:281-299 | a record cut short delivers nothing; the cut is an error from 4 bytes on |
| WalFormat.TornLog | src/storage/wal_thread.rs:267-304 | for every cut of an encoded log, replay delivers exactly the maximal prefix of complete commands, and fails iff 4 or more bytes of an incomplete record remain |
| WalFormat.ReplayInvertsEncodeIff | src/storage/wal_thread.rs:231-304 | replay is the exact inverse of the encoders iff every payload is below 2^32 - 9 bytes |
| WalFormat.ParseWhole | src/storage/wal_thread.rs:279-303 | whole records of any opcode and payload are delivered unaltered whatever follows them |
| WalFormat.AnyRecord | src/storage/wal_thread.rs:279-303 | a record of any opcode, id and payload, in front of anything, is delivered with its fields |
| WalFormat.ParseSplits | src/storage/wal_thread.rs:279-303 | any bytes are whole records, all delivered, and a rest that decides the outcome: too little for a length, a length below 9, or a cut record |
| WalFormat.FileOutcome | src/storage/wal_thread.rs:267-278 | what a file without the magic, or too short for it, replays |
| WalFormat.AppendedReplaysIff | src/storage/wal_thread.rs:73-76 | commands appended to a whole log replay after what was there before, exactly, iff no length overflows |
| WalFormat.TornAppend | src/storage/wal_thread.rs:267-304 | the torn-log theorem for commands appended to any whole log |
| WalFormat.WholeAppend | src/storage/wal_thread.rs:231-245 | a whole log stays whole when commands that fit their length are appended |
| WalFormat.WholeCutIff | src/storage/wal_thread.rs:267-304 | a cut log is whole iff the cut fell between records |
| WalFormat.AppendableIff | src/storage/wal_thread.rs:267-304 | of the logs that replay without error, those still doing so after one more delete are those without torn bytes |
| WalThread.WalLoop | src/storage/wal_thread.rs:170-229 | the thread's loop over buffer, file, replies and exit equals the step function of the state machine |
| WalThread.CommandKeepsInv | src/storage/wal_thread.rs:192-198 | dispatching a command moves it from the channel into the buffer or the file, in order |
| WalThread.StepKeepsInv | src/storage/wal_thread.rs:110-165 | every step of senders, dropper and thread keeps the log invariant |
| WalThread.Refinement | src/storage/wal_thread.rs:170-264 | in every run: disk, buffer and in-flight commands are the encoding of everything sent while running; a stopped thread leaves the encoding of a prefix; the buffer stays below the batch size and is empty under `Immediate`; commands before an answered flush are on disk; the channel stays within its capacity |
| WalThread.ElapsedMeansSynced | src/storage/wal_thread.rs:187-228 | an iteration that finds the sync interval elapsed, or the flag cleared, ends with everything taken on disk |
| WalThread.WrittenWhenFull | src/storage/wal_thread.rs:187-228 | by durability level, when a dispatched command is written: at once, or when the buffer reaches the batch bytes and not before unless an interval expires |
| WalThread.ChannelBounded | src/storage/wal_thread.rs:108-125 | the channel never holds more than its capacity |
| WalThread.CrashRecovery | src/storage/consistency.rs:19-28 | after a crash at any byte of any write, that of the command being dispatched included, the n-th command sent is replayed iff the file reaches its end, so a maximal prefix is, which includes all flushed ones; the replay fails iff the torn tail is 4 bytes or more, and the file is whole iff there is none |
| WalThread.ImmediateTears | src/storage/wal_thread.rs:200-263 | a run under `Immediate` whose crash leaves a file that does not open |
| WalThread.EnqueuedIsNotDurable | src/storage/wal_thread.rs:110-117 | right after a send returns, under every durability level, a crash loses the command |
| WalThread.DummyNeverWritten | src/storage/wal_thread.rs:153-165 | whatever byte the crash comes at, the wake-up delete sent by Drop is never replayed unless a caller deleted that id |
| WalThread.ClearedTakesNothing | src/storage/wal_thread.rs:187-191 | once the running flag is cleared no further command is encoded |
| WalThread.ShutdownKeepsAllIff | src/storage/wal_thread.rs:141-150 | stopping keeps every command iff none was in flight when the flag was cleared |
| WalThread.ShutdownLosesInFlight | src/storage/wal_thread.rs:187-191 | a run in which shutdown loses a command that was sent before it |
| WalThread.SessionsRecover | src/storage/wal_thread.rs:63-93 | over any number of sessions of open, any run, and stop, the file stays whole and replays everything any session took, in order |
| WalThread.DropHandle | src/storage/wal_thread.rs:153-165 | drop ends with the thread stopped and exactly what it had taken on disk |
| WalThread.SendCmd | src/storage/wal_thread.rs:108-125 | a send blocks while the channel is full and enqueues exactly its command |
| WalThread.FlushHandle | src/storage/wal_thread.rs:127-134 | flush returns, and then the file holds exactly the encoding of everything sent |
| Recovery.OpenLog | src/storage/node_store.rs:87-111 | opening any file rebuilds what its replay delivers, with its counter and status; files of 4 bytes or less are not replayed |
| Recovery.ReplayConcat | src/storage/node_store.rs:90-109 | replaying a concatenated log continues from the state the first part leaves |
| Recovery.RecoveredSnoc | src/storage/edge_store.rs:62-78 | the effect of one more logged command on the recovered map |
| Recovery.RebuiltBound | src/storage/node_store.rs:89-103 | every stored and free id is at most the largest id seen, which is one of them |
| Recovery.NextExceedsIff | src/storage/node_store.rs:110 | the restarted counter exceeds every known id iff the increment did not wrap |
| Recovery.FreeIff | src/storage/node_store.rs:92-106 | an id is recovered free iff the log inserts and later deletes it, and known iff the log inserts it |
| Recovery.RecordIs | src/storage/node_store.rs:89-109 | under each id opening recovers its last insert in the log, unless it is deleted since |
| Recovery.RebuiltIs | src/storage/node_store.rs:87-109 | the free list is the ids deleted while stored, in log order, and the largest id is the largest inserted |
| Recovery.RebuiltIsAll | src/storage/node_store.rs:87-111 | the same for the whole store, and the counter: one more than the largest id inserted, modulo 2^64, or 1 |
| Recovery.CleanFreeIff | src/storage/node_store.rs:92-106 | the recovered free list is duplicate-free and disjoint from the stored ids iff the log nowhere inserts, deletes and inserts one id |
| Recovery.RecycledIdComesBackFree | src/storage/node_store.rs:92-106 | insert, delete, insert: the id is recovered both stored and free |
| Recovery.RestartPartition | src/storage/edge_store.rs:60-80 | after a clean log stored, free and unused ids partition the ids below the counter |
| Recovery.OpenPartition | src/storage/node_store.rs:86-111 | for any file, opened ids are a partition iff the file is too short to be replayed, or its log inserts no id again and the counter did not wrap |
| Recovery.SyncedRecovers | src/storage/node_store.rs:87-109 | a file holding everything appended to a whole log rebuilds the map in memory and is whole again |
| Recovery.ReopensIff | src/storage/wal_thread.rs:71-86 | a file that opens still opens after one more delete iff it has no torn bytes |
| Recovery.AllocKeepsPartition | src/storage/node_store.rs:142-148 | handing out an id keeps the partition, and returns an id neither stored nor reserved, until the counter itself wraps, which breaks it |
| Recovery.StoreKeepsPartition | src/storage/node_store.rs:155-161 | storing under a reserved id overwrites nothing and keeps the partition |
| Recovery.FreeKeepsPartition | src/storage/node_store.rs:250-259 | removing a stored id frees it once |
| Nodes.RecoveredPut | src/storage/node_store.rs:125-131 | a logged node is recovered as written |
| Nodes.NodeStore.Open | src/storage/node_store.rs:74-121 | opens any file whose replay does not fail, and no other; map, free list in order and counter are read off the log; ids are conserved again iff the log has no reuse |
| Nodes.NodeStore.AllocId | src/storage/node_store.rs:142-153 | oldest free id first, else the next fresh one, wrapping; never a stored or reserved id while ids are conserved, which they stay iff the counter did not wrap |
| Nodes.NodeStore.InsertWithId | src/storage/node_store.rs:155-161 | stores and logs exactly the new record; ids stay conserved; every field of the record is the argument given |
| Nodes.NodeStore.InsertNode | src/storage/node_store.rs:165-176 | allocates, stores and logs; never overwrites while ids are conserved; every field of the record is the argument given |
| Nodes.NodeStore.UpdateLabels | src/storage/node_store.rs:188-203 | replaces labels and creation stamp, or reports absence |
| Nodes.NodeStore.UpdatePropsRow | src/storage/node_store.rs:205-214 | replaces the property row only |
| Nodes.NodeStore.SetFirstOut | src/storage/node_store.rs:216-225 | replaces the out-chain head only |
| Nodes.NodeStore.SetFirstIn | src/storage/node_store.rs:227-236 | replaces the in-chain head only |
| Nodes.NodeStore.SoftDelete | src/storage/node_store.rs:238-247 | stamps the deletion, or reports absence |
| Nodes.NodeStore.HardDelete | src/storage/node_store.rs:250-259 | removes, logs in any case, frees the id iff it was stored |
| Nodes.NodeStore.Compact | src/storage/node_store.rs:286-294 | removes exactly the records stored with `deleted_tx` below the oldest active transaction and keeps the others, frees each id once, logs each delete |
| Nodes.NodeStore.VisibleNodes | src/storage/node_store.rs:263-268 | lists exactly the ids stored with `created_tx <= tx < deleted_tx`, each once |
| Nodes.NodeStore.VisibleCount | src/storage/node_store.rs:270-272 | counts them |
| Nodes.NodeStore.Flush | src/storage/node_store.rs:300-304 | on return, replaying the file rebuilds the map in memory, for a file whole when opened and records that fit their length; the file is then whole |
| Nodes.NodeStore.Close | src/storage/wal_thread.rs:153-165 | dropping the store leaves a whole file with what the thread had taken; after a flush, with everything |
| Nodes.CompactKeepsVisibleIff | src/storage/node_store.rs:286-294 | compaction keeps a snapshot's visible nodes iff none visible there was deleted before the oldest active transaction; always for active snapshots |
| Chains.TraversalNoDup | src/storage/edge_store.rs:246-262 | a traversal that ends visits no edge twice |
| Chains.TraversalUnique | src/storage/edge_store.rs:246-262 | head and records determine the traversal |
| Chains.SplicePath | src/storage/edge_store.rs:175-190 | redirecting predecessor or head takes exactly that edge off the path, the rest in order |
| Chains.UnlinkFields | src/storage/edge_store.rs:168-217 | what led to the edge leads past it, and no other field of any record changes |
| Chains.WithoutMembers | src/storage/edge_store.rs:168-217 | what remains on the chain after removal |
| Edges.PutEdgeFits | src/storage/edge_store.rs:89-95 | an edge record never overflows its length prefix |
| Edges.EdgeStore.Open | src/storage/edge_store.rs:48-85 | opens any file whose replay does not fail, and no other; map, free list in order and counter are read off the log; ids are conserved again iff the log has no reuse |
| Edges.EdgeStore.AllocId | src/storage/edge_store.rs:106-117 | as for nodes |
| Edges.EdgeStore.InsertWithId | src/storage/edge_store.rs:120-125 | stores and logs exactly the new record; ids stay conserved; every field of the record is the argument given |
| Edges.EdgeStore.InsertEdge | src/storage/edge_store.rs:129-136 | allocates, stores and logs; never overwrites while ids are conserved; every field of the record is the argument given |
| Edges.EdgeStore.LinkIntoChains | src/storage/edge_store.rs:149-165 | sets both links and both heads, logs the final record; heads move even for an absent edge; no other field or record changes |
| Edges.EdgeStore.Splice | src/storage/edge_store.rs:174-207 | one unlinking loop: terminates, finds the predecessor, redirects its link or the head |
| Edges.EdgeStore.UnlinkFromChains | src/storage/edge_store.rs:168-217 | removes exactly that edge from both traversals wherever it is on each, keeps order and stops, logs the predecessors' final records; no other field of any record changes |
| Edges.EdgeStore.SoftDelete | src/storage/edge_store.rs:219-233 | stamps the deletion, links untouched |
| Edges.EdgeStore.HardDelete | src/storage/edge_store.rs:235-242 | removes, logs in any case, frees the id iff it was stored |
| Edges.EdgeStore.OutEdges | src/storage/edge_store.rs:246-253 | returns the out-chain in order, each edge's `next_out` the next, stopping at the null link or a missing record |
| Edges.EdgeStore.InEdges | src/storage/edge_store.rs:255-262 | returns the in-chain in order, each edge's `next_in` the next |
| Edges.EdgeStore.OutEdgesVisible | src/storage/edge_store.rs:264-273 | returns exactly the edges of the out-chain with `created_tx <= tx < deleted_tx`, each once, in chain order |
| Edges.AliveOnIs | src/storage/edge_store.rs:264-273 | which edges of a traversal are in its visible part, and in which order |
| Edges.EdgeStore.Flush | src/storage/edge_store.rs:281-283 | on return, replaying the file rebuilds the edge map, links included, for a file whole when opened; the file is then whole |
| Edges.EdgeStore.Close | src/storage/wal_thread.rs:153-165 | dropping the store leaves a whole file with what the thread had taken; after a flush, with everything |
| Adjacency.LinkKept | src/storage/edge_store.rs:149-165 | linking puts the edge in front of its two chains and leaves every other chain as it was |
| Adjacency.UnlinkKept | src/storage/edge_store.rs:168-217 | unlinking, self-loops included, changes exactly the edge's two chains |
| Adjacency.StepKeepsInv | src/storage/edge_store.rs:106-242 | every operation keeps the store-wide chain, id and log invariant |
| Adjacency.StoreWide | src/storage/edge_store.rs:106-262 | in every reachable state all chains are finite, acyclic and duplicate-free, each linked edge is on exactly its own two chains, and recycled ids corrupt none |
| Adjacency.RecoveryRefines | src/storage/edge_store.rs:60-101 | after any run, replaying the emitted log rebuilds the same records, so every traversal is the same |
| Adjacency.UnlinkUndoesLink | src/storage/edge_store.rs:149-217 | undoing a fresh link restores all heads, chains and other records |
| Adjacency.RunKeepsEnds | src/storage/edge_store.rs:119-242 | over any run an edge keeps its id, ends, type, row and creation stamp while it is stored |
| Adjacency.LinkedAtItsEnds | src/storage/edge_store.rs:119-165 | an edge inserted from src to dst, linked after any run, is first on the out-chain of src and the in-chain of dst |
| Adjacency.LinkEndsIff | src/storage/edge_store.rs:149-165 | the out-chain and the in-chain from the new heads end iff the edge was not linked before; linking twice closes a cycle in each |
| Adjacency.HardDeleteKeepsChainsIff | src/storage/edge_store.rs:235-242 | removing a record leaves every head leading to the null link iff the edge was not linked |
| Adjacency.LinkedRun | src/storage/edge_store.rs:106-165 | a run to a linked edge |
| Adjacency.LinkedRunFails | src/storage/edge_store.rs:149-242 | after it, linking again and removing the record each leave chains without an end |
| Adjacency.Perform | src/storage/edge_store.rs:119-242 | the store's methods, called with each edge's own heads, take the steps of the store-wide model |
| Props.WrittenCells | src/storage/prop_store.rs:58-64 | a write changes one cell; rows created on the way are holes |
| Props.CellCodecIff | src/storage/prop_store.rs:94-137 | the cell codec round-trips iff the name is at most 255 bytes, including the 10-byte minimum |
| Props.CellLayout | src/storage/prop_store.rs:125-137 | where each field of a cell record lies |
| Props.RecoveredPut | src/storage/prop_store.rs:103-114 | a logged cell is recovered as written |
| Props.ApplyKeepsCovered | src/storage/prop_store.rs:103-114 | replay raises the row counter to cover each cell it writes, unless it wraps |
| Props.FreshAfterRecoveryIff | src/storage/prop_store.rs:103-114 | every recovered counter covers its columns iff no decodable insert of the log writes row `u32::MAX` |
| Props.FullIffLastRow | src/storage/prop_store.rs:103-114 | some recovered column is 2^32 long iff the log wrote row `u32::MAX` |
| Props.RebuiltIs | src/storage/prop_store.rs:93-117 | read off the log: the row counter is exactly the largest row after one written for the label, a column is as long as its largest row asks, a cell holds what its last record wrote |
| Props.NextRowIsLongest | src/storage/prop_store.rs:111-113 | without the last row the counter is the length of the label's longest column |
| Props.LastWriteWins | src/storage/prop_store.rs:146-159 | after a list of writes a cell holds what the last write to it says, else what it held |
| Props.LastRowWraps | src/storage/prop_store.rs:111-113 | a log with one such cell: the counter restarts at 0 under a full column |
| Props.CoveredRowIsFree | src/storage/prop_store.rs:141-144 | a row at or after the counter holds nothing in any column |
| Props.RowsDistinctIff | src/storage/prop_store.rs:141-144 | rows handed out by two calls differ iff they are not whole turns of the `u32` counter apart |
| Props.NewRowKeepsFresh | src/storage/prop_store.rs:175-181 | filling a handed-out row keeps all later rows free |
| Props.CoveredAfterWriteIff | src/storage/prop_store.rs:146-159 | a write to any row keeps the rows from the counter on free iff its row is below the counter |
| Props.PropStore.Open | src/storage/prop_store.rs:87-122 | opens any file whose replay does not fail, and no other; counters, column lengths and cells are read off the log, exactly; rows are fresh iff the log never wrote row `u32::MAX` |
| Props.PropStore.WalSendCell | src/storage/prop_store.rs:125-137 | logs one cell so that recovery repeats the write |
| Props.PropStore.AllocRow | src/storage/prop_store.rs:141-144 | hands out the counter and advances it, wrapping |
| Props.PropStore.InsertProp | src/storage/prop_store.rs:146-159 | grows the column as needed and writes the cell; later rows stay free iff the row is below the counter |
| Props.PropStore.GetProp | src/storage/prop_store.rs:161-164 | reads a cell; missing columns and rows read as holes |
| Props.PropStore.SetProp | src/storage/prop_store.rs:166-173 | overwrites an existing cell only |
| Props.PropStore.InsertRow | src/storage/prop_store.rs:175-181 | writes one fresh row and keeps later rows fresh |
| Props.PropStore.Flush | src/storage/prop_store.rs:205-207 | on return, replaying the file rebuilds every column, for a file whole when opened and records and names that fit their lengths; the file is then whole |
| Props.PropStore.Close | src/storage/wal_thread.rs:153-165 | dropping the store leaves a whole file with what the thread had taken; after a flush, with everything |
| TicketLock.StepKeepsInv | src/transaction/tx_manager.rs:62-123 | every interleaved step keeps ticket ownership |
| TicketLock.StoreAdvancesByOne | src/transaction/tx_manager.rs:84-122 | the counter moves only by one, only by the owner of the next, unresolved ticket |
| TicketLock.Safety | src/transaction/tx_manager.rs:62-123 | in every run at most one writer is between load and store, the counter stays below the next ticket, resolved tickets are those up to it, snapshots lie below their tickets |
| TicketLock.SnapshotIsLoaded | src/transaction/mod.rs:234-238 | a snapshot is the counter as loaded, and does not change |
| TicketLock.GivesUpAfter | src/transaction/tx_manager.rs:80-105 | a commit out of turn waits through 100,000 loads and gives up at the next |
| TicketLock.ResolvedExactlyOnce | src/transaction/mod.rs:138-194 | across commit, timeout, rollback and drop each ticket advances the counter exactly once iff resolved |
| TicketLock.OwnerStepsDescend | src/transaction/tx_manager.rs:80-123 | the next ticket's owner is never blocked and never times out; its steps decrease the measure, others leave it |
| TicketLock.Drain | src/transaction/mod.rs:187-194 | from every reachable state all open tickets can be resolved |
| TicketLock.LateRollbackHangs | src/transaction/mod.rs:179-184 | rolling back a resolved transaction spins through every continuation |
| TicketLock.RollbackReturnsIff | src/transaction/mod.rs:179-184 | a rollback can return iff its ticket was unresolved |
| TicketLock.RollbackAfterCommit | src/transaction/mod.rs:138-184 | a run in which a rollback is called after a finished commit, and so never returns |
| Mvcc.CreatesOfPush | src/transaction/mod.rs:87-118 | buffering adds exactly its own create to the plan |
| Mvcc.AppliedIsReserved | src/transaction/mod.rs:151-162 | a create about to be applied owns its id and nothing is stored under it |
| Mvcc.StepKeepsInv | src/transaction/mod.rs:87-173 | every interleaved step keeps id conservation and ownership |
| Mvcc.IdsConserved | src/storage/node_store.rs:142-176 | in every run stored, free and reserved ids partition the ids handed out, no two transactions create one id, no create overwrites |
| Snapshots.WriteChangesIff | src/storage/mod.rs:57-87 | exactly when applying a write changes what a snapshot sees |
| Snapshots.ViewChangesIff | src/transaction/mod.rs:147-173 | exactly which steps change a snapshot's view, in every reachable state |
| Snapshots.RunStamps | src/transaction/mod.rs:147-168 | in every run all creation and deletion stamps are tickets resolved by then, so snapshot 0 sees nothing |
| Snapshots.SettledStays | src/transaction/mod.rs:138-176 | once all tickets up to a snapshot have finished applying it stays so |
| Snapshots.FrozenSnapshotIff | src/transaction/mod.rs:123-173 | over every run of creates, first deletes, reclaims and id reuse a settled snapshot keeps its records and fields iff no id reclaimed is one it saw |
| Snapshots.RunView | src/transaction/mod.rs:123-173 | record by record: a settled snapshot keeps exactly what is not reclaimed and gains nothing |
| Snapshots.CompactionFreezes | src/storage/node_store.rs:286-294 | one compaction, its reclaims spread over a run among all other steps, leaves every snapshot it was collected for frozen from the moment it settles |
| Snapshots.ListedStaysDead | src/storage/node_store.rs:286-294 | an id collected and not yet reclaimed keeps its dead record |
| Snapshots.StaleReclaimIff | src/storage/node_store.rs:286-294 | reclaiming an id collected earlier changes what a snapshot sees iff the id was used again meanwhile and its new record is alive there |
| Snapshots.StaleListLosesRecord | src/storage/node_store.rs:286-294 | a run in which an outdated list takes away a committed, settled record |
| Snapshots.UnappliedIsInvisible | src/transaction/mod.rs:146-162 | a resolved ticket's unapplied creates are missing from snapshots that include it |
| Snapshots.StaysVisibleIff | src/storage/mod.rs:57-87 | exactly which steps keep a visible record visible |
| Snapshots.AppliedIsVisibleIff | src/transaction/mod.rs:146-162 | in every run that does not take the record away again, a resolved create is visible at its ticket iff it has been applied |
| Snapshots.SettledShowsAll | src/transaction/mod.rs:134-176 | once it has settled, all the records a transaction creates are visible at its ticket together |
| Snapshots.BufferRun | src/transaction/mod.rs:87-91 | the steps by which one transaction buffers two nodes |
| Snapshots.HalfAppliedIsVisible | src/transaction/mod.rs:146-153 | a reachable state with half of that transaction visible at the current snapshot |
| Snapshots.OneWriteRun | src/transaction/mod.rs:138-176 | the steps of a transaction running by itself end with its write applied at its ticket |
| Snapshots.RelabelDisturbsSettled | src/storage/node_store.rs:188-203 | a run in which a label update takes a node out of a settled snapshot |
| Snapshots.SecondDeleteDisturbsSettled | src/storage/node_store.rs:238-247 | a run in which a second delete puts a node back into a settled snapshot |
| Transactions.TxManager.BeginWrite | src/transaction/tx_manager.rs:68-70 | hands out the next ticket, wrapping |
| Transactions.TxManager.Commit | src/transaction/tx_manager.rs:80-106 | with one thread, succeeds iff all earlier tickets are resolved, else times out with no effect |
| Transactions.TxManager.Rollback | src/transaction/tx_manager.rs:110-122 | whatever the loads return, it returns at the first that shows its turn, and only then |
| Transactions.AppliedToStores | src/transaction/mod.rs:151-165 | each store's own update is the interleaved model's |
| Plans.CommitVisibility | src/transaction/mod.rs:150-165 | what a commit shows at its own ticket on records with any stamps, exactly; on records not stamped above it: what it created and what was visible, less what it deleted |
| Plans.PlanStamps | src/transaction/mod.rs:150-165 | the creation and deletion stamp a commit leaves on each record |
| Plans.PlanKeepsStamped | src/transaction/mod.rs:147-165 | committing the next ticket keeps every creation stamp a resolved ticket |
| Plans.CallsBuffered | src/transaction/mod.rs:87-118 | after any buffering calls each of the five lists holds exactly the calls of its kind, in call order |
| Plans.SelectIs | src/transaction/mod.rs:87-118 | such a list read off the positions of those calls |
| Plans.PlanContents | src/transaction/mod.rs:150-165 | every field but the stamps that a plan leaves on a record |
| Plans.LastIs | src/transaction/mod.rs:151-156 | the last create or label update of a record, by position |
| Plans.CommitOfCalls | src/transaction/mod.rs:87-165 | committing any calls: presence, stamps, fields and visibility of every record, over the calls made |
| Transactions.Database.Open | src/transaction/mod.rs:207-215 | opens iff all three files do; records and columns are what the files rebuild, the ticket counters start over |
| Transactions.ReopenRestores | src/transaction/mod.rs:207-231 | the files of a durable database are whole and open again to the same records and columns |
| Transactions.ReopenedViews | src/transaction/mod.rs:207-231 | what a new snapshot of the reopened records shows again and lacks, compared with the last old one; the first sees nothing |
| Transactions.Database.Close | src/storage/wal_thread.rs:153-165 | dropping a durable database leaves files that open again to its records and columns |
| Transactions.Database.Reopen | src/transaction/mod.rs:207-215 | a durable, intact database closed and opened is durable and intact with the same records and columns, session after session |
| Transactions.PlanApplies | src/transaction/mod.rs:150-165 | the five lists applied in turn are the whole plan, in both stores and their logs |
| Transactions.AfterApplies | src/transaction/mod.rs:151-165 | the two stores after a list of writes hold the records of the interleaved model |
| Transactions.ApplyList | src/transaction/mod.rs:151-165 | one commit loop applies and logs its list in order |
| Transactions.ApplyProps | src/transaction/mod.rs:166-168 | the property loop applies and logs its writes in order |
| Transactions.FlushAll | src/transaction/mod.rs:170-173 | flushing changes no store and makes all three durable, under the conditions of the three flushes |
| Transactions.Transaction.BeginWrite | src/transaction/mod.rs:234-238 | a write transaction takes a ticket, then the current snapshot |
| Transactions.Transaction.BeginRead | src/transaction/mod.rs:228-231 | a read transaction takes no ticket |
| Transactions.Transaction.CreateNode | src/transaction/mod.rs:87-91 | reserves an id at once, stores nothing; the id is unused while ids are conserved |
| Transactions.Transaction.CreateEdge | src/transaction/mod.rs:104-108 | reserves an id at once, stores nothing; the id is unused while ids are conserved |
| Transactions.Transaction.GetNode | src/transaction/mod.rs:123-125 | reads through the snapshot |
| Transactions.Transaction.GetEdge | src/transaction/mod.rs:128-130 | reads through the snapshot |
| Transactions.Transaction.Commit | src/transaction/mod.rs:138-176 | result, error reasons, and for every record and cell what the calls made leave and show; on `Ok` the three files on disk rebuild the three stores, under the conditions of the three flushes |
| Transactions.Transaction.Rollback | src/transaction/mod.rs:179-184 | spins until a load shows its turn, then releases the ticket and applies nothing; returns iff one does |
| CommitCrash.ProgramOk | src/transaction/mod.rs:150-173 | commit sends each log its part and flushes it after that |
| CommitCrash.CrashDuringCommit | src/transaction/mod.rs:150-173 | at any crash during a commit each log replays a prefix of its part, all of it once its flush was answered; together none iff no file reaches its first record's end, all iff each reaches its last |
| CommitCrash.NodesReplayed | src/transaction/mod.rs:151-159 | replaying a plan's node records gives the nodes after the plan |
| CommitCrash.CommitRecovers | src/storage/consistency.rs:34-36 | each store comes back as after its own prefix of the plan; nodes and edges as before iff their files do not reach their first record, all as after once commit had returned |
| CommitCrash.CommitIsNotAtomic | src/transaction/mod.rs:134-173 | runs with an edge recovered and its node not, and the other way round |
| LogOrder.StepJudged | src/storage/node_store.rs:155-259 | what each step inside the store's methods does to the agreement of log and map |
| LogOrder.LogOrderIff | src/storage/node_store.rs:155-259 | once all calls have returned the log replays to the map iff on every id the last step was an update, the logging of a record still there, or a removal whose delete is last in the log |
| LogOrder.DeleteIsLost | src/storage/node_store.rs:155-161 | a run in which a delete logged before its node's insert is lost on reopening |
| Serial.ResolvedInOrder | src/transaction/tx_manager.rs:80-106 | the plans of the transactions a run resolves come in ticket order |
| Serial.TicketOrderIff | src/transaction/mod.rs:134-168 | in every run and at every moment, writes have reached each record in ticket order iff none was applied while an earlier ticket had one to it left |
| Serial.ConcurrentIsSerial | src/transaction/mod.rs:134-176 | then, once all have finished applying, the records are those of the same plans applied in ticket order |
| Serial.SeparateIsSerial | src/transaction/mod.rs:134-176 | in particular when no two transactions write to one record while both are open to apply |
| SerialRecords.FoldedForm | src/transaction/mod.rs:150-165 | a record is its create, its last effective label update and its last effective delete |
| SerialRecords.SameShares | src/transaction/mod.rs:134-168 | once all have finished, each ticket has applied to each record exactly its own writes, in their order |
| SerialRecords.ConcurrentIsSerialIff | src/transaction/mod.rs:134-176 | the records are those of the ticket order iff on every record the last label update and the last delete to take effect have the same tickets in both orders |
| Serial.FoldedPlan | src/transaction/mod.rs:150-165 | applying one plan in that sense is what one client's commit does |
| Serial.OvertakingRun | src/transaction/mod.rs:138-176 | the steps by which a later transaction applies its write before an earlier resolved one |
| Serial.OvertakenUpdateIsLost | src/transaction/mod.rs:154-156 | a run in which the earlier ticket's labels stay and the later ticket's are lost |
| Tokenizer.Tokenize | src/index/fulltext/analyzer.rs:18-71 | the loop yields the text's terms, the k-th at position k modulo 2^32 |
| Tokenizer.SeparatorSplits | src/index/fulltext/analyzer.rs:28-69 | text on either side of a separator is analysed independently |
| Tokenizer.TokensCompose | src/index/fulltext/analyzer.rs:24-70 | tokens of the two sides, the right ones' positions shifted by the left count |
| Tokenizer.SeparatorVisited | src/index/fulltext/analyzer.rs:28-69 | no run skips a separator |
| Tokenizer.UnvisitedIsSwallowed | src/index/fulltext/analyzer.rs:45-65 | an index the loop skips lies inside one run begun earlier |
| Tokenizer.CjkTerms | src/index/fulltext/analyzer.rs:31-44 | an all-CJK text of n characters yields exactly 2n - 1 terms: each pair, then its first character |
| Tokenizer.TermsHere | src/index/fulltext/analyzer.rs:28-69 | at every place where the loop stops, the terms the document has there, between those before and those after |
| Tokenizer.LowercaseConcat | src/index/fulltext/analyzer.rs:49-52 | lower-casing a text is lower-casing its parts, in order |
| Tokenizer.LowercaseEmpty | src/index/fulltext/analyzer.rs:49-52 | nothing lower-cased is nothing |
| Tokenizer.LowercaseOne | src/index/fulltext/analyzer.rs:49-52 | lower-casing one character |
| Tokenizer.CjkIff | src/index/fulltext/analyzer.rs:74-85 | the characters that count as CJK are those of the six blocks |
| Tokenizer.SearchComplete | src/index/fulltext/analyzer.rs:18-85 | every term of an all-CJK query is a term of a document in which it occurs where the main loop stops |
| Tokenizer.FindableVisited | src/index/fulltext/analyzer.rs:28-69 | the loop stops at the start, after a separator and after an unswallowed CJK character |
| Tokenizer.VisitsIff | src/index/fulltext/analyzer.rs:28-69 | the loop stops exactly at the characters that the run in progress does not take |
| Tokenizer.ModeIff | src/index/fulltext/analyzer.rs:45-65 | where no character is both letter and number, a run is in progress iff the text ends in one that has a character other than CJK |
| Tokenizer.RunAtEndIff | src/index/fulltext/analyzer.rs:45-65 | ending in such a run, with and without recursion |
| Tokenizer.SearchGuardIff | src/index/fulltext/analyzer.rs:28-69 | the condition of search completeness for every text, read off what comes before the occurrence |
| Tokenizer.HeadSplits | src/index/fulltext/analyzer.rs:28-69 | text before and from a loop head on is analysed independently unless a bigram joins them |
| Tokenizer.SwallowedTerms | src/index/fulltext/analyzer.rs:45-65 | at every other occurrence the document has one word or number in place of the query's terms |
| Tokenizer.WordSwallowsQuery | src/index/fulltext/analyzer.rs:45-55 | an alphabetic query straight after any word is lower-cased into that word |
| Tokenizer.LatinSwallowsCjk | src/index/fulltext/analyzer.rs:45-55 | the smallest such document: a Latin letter and a CJK letter, which a search for the latter misses |

## Left out

- File system errors, fsync failure and clocks: writes succeed and timeouts are arbitrary choices.
- `Durability::Async`: its batch size is `usize::MAX`, which is also used as a buffer capacity and doubled.
- Stores without a log (`NodeStore::new`, `with_capacity`, `Database::memory`): the same operations with nothing sent.
- A channel of capacity 0 (rendezvous); capacities are at least 1.
- What a log appended to after torn bytes replays, beyond `Recovery.ReopensIff`: the misread lengths decide. Opening and every operation are modelled for any file; durability is promised for files that were whole when opened.
- Nodes.NodeStore.Flush: the file rebuilds the map under the condition that it was whole when opened and every record since fits its 32-bit length prefix, because the encoder truncates longer ones.
- Edges.EdgeStore.Flush: the same for the file; edge records always fit.
- Props.PropStore.Flush: the same conditions as for nodes, and names of at most 255 bytes, because the cell header truncates longer ones.
- Transactions.FlushAll: durability under the conditions of the three flushes, for the same reasons.
- Transactions.Transaction.Commit: durability under the conditions of the three flushes, for the same reasons.
- Transactions.ReopenRestores: requires those conditions (`Intact`), for the same reasons.
- Nodes.NodeStore.Compact: the method runs by itself; compactions among other steps are in `Snapshots`.
- Transactions.Transaction.Rollback: follows its unlimited loop for a given number of loads; waiting among other threads is in `TicketLock`.
- CommitCrash.CommitRecovers: requires that what was written before the commit had been flushed, as by an earlier commit, and that lengths and names fit; one commit at a time.
- Edges.EdgeStore.UnlinkFromChains: requires an id other than `u64::MAX`, the null link, because a search for it takes the end of a chain for its predecessor.
- Edges.EdgeStore.Splice: requires the same.
- Tickets after the counter has wrapped at 2^64 in the interleaved model; a debug build would stop with an overflow in the sequential one.
- Serial.ConcurrentIsSerial: runs without reclaiming, whose place in ticket order nothing defines.
- In the classes, the map change and the log send of one store call are one step; `LogOrder` is about what happens when they are not, for nodes. The edge store's methods have the same order.
- Atomicity of reads across `DashMap` shards, and the order in which a map is iterated beyond "each element once".
- `get_mut`, `pending_bytes`, `total_ever`, `free_count`: they bypass the log or are approximate.
- Strings and property names are byte sequences; the UTF-8 check on decoding and its lossy variant are not modelled, nor are floating-point values beyond their bits.
- `get_row` and the column and label counts of the property store: plain listings.
- src/storage/store_log.rs, src/wal/mod.rs and src/snapshot/mod.rs: recovery does not use them.
- Property, vector and scoring indexes, the query layer, distribution and the Python SDK: stubs, thin wrappers or floating point.
