# A verified model of the linearizability checker and of Raft log replication

Two parts of the repository decide whether its services are correct, and both are modelled here.

**The linearizability checker** (`src/porcupine`). `checkSingle` is a depth-first search with an explicit stack over a
doubly linked list that it edits in place. It prunes with a cache of (linearized set, state) pairs. The model keeps
that form: nodes with `prev` and `next` fields that are rewritten, a bitset in an array of 64-bit words, a map of hash
buckets. Proved of it: it ends on every history; `true` means that the stack is a linearization; `false` without a
kill means that there is none, although branches were skipped; the recorded partial linearizations are valid and
longest; and the whole search is the one run of a simple machine on sets and sequences, with a look at the kill flag
before every round. Around it: from timestamps or events to entries, the verdict of `checkParallel` over every
interleaving of workers and timeout, the data for the visualization, and the locality theorem that makes partitioning
a key/value history by key right for the whole store.

**Raft log replication within one term** (`src/raft`). The reference is the extended Raft paper (sections 5.3, 5.4.2
and 7, Figure 2). The model has four parts. `RaftLog` says on values what leader and follower make of each other's
logs, and compares the merge with the rule of Figure 2. `RaftServer` is the server with its fields; each method is
proved against those functions *of the whole log*, although the server may have discarded a prefix for a snapshot.
`Cluster` and `Replication` are one leader, its followers, and a network that may lose, delay, duplicate and reorder
messages, with compaction, InstallSnapshot and restarting servers; what holds is proved for every run, and
`CatchingUp` says when a follower ends up with everything. `Refinement` joins the two: in every state that a run
reaches, an operation of a server is the step of the cluster, and the one panic that is left, on a snapshot that
contradicts the log, is a crash and restart of the cluster.

## Where to look

| file | what it holds |
|---|---|
| `Linearizability`, `Permutations`, `FiniteSets` | what a linearization is; facts on permutations and finite sets |
| `PackedSet`, `Bitset` | the bitset against a finite set of ids |
| `Cache` | the hashed cache against a set of pairs |
| `LinkedHistory`, `ListHistory` | the linked list: `lift`, `unlift`, and the list over a whole search |
| `Search`, `SearchState` | what the search knows at each step, on values |
| `SearchRun`, `Checker` | the search as a run of a simple deterministic machine; the search itself, proved to be that run |
| `Entries`, `Events` | timestamps or events to call and return entries |
| `Parallel`, `Visualization` | `checkParallel` as a state machine; the visualization data |
| `KeyValue`, `StoreCheck` | partitioning by key, and the check of a store from end to end |
| `RaftLog`, `Commit`, `Compaction` | logs as values, the commit candidate, merging behind a snapshot |
| `RaftServer` | the server |
| `Cluster`, `Replication` | the protocol and what every run keeps |
| `CatchingUp` | rounds that bring a follower up to date, with snapshots on both sides |
| `Runs` | two runs, each to a state from which not everything goes well |
| `Refinement` | the operations of the servers are the steps of the protocol |

## Findings

- Checking an empty history of the key/value model without a timeout never returns: its `Partition` then yields no
  part, and the collector waits for a result that no worker sends (`StoreCheck.StuckExactlyWhenEmpty`;
  `Parallel.StuckOnlyWithoutPartitions` is the condition for any model).
- An AppendEntries request that begins at index 0, when it reaches a follower that already holds a snapshot, is compared
  and merged at the wrong positions (src/raft/logActivities.go:26 excludes it from the snapshot branch).
  `Compaction.StartOverHeldSnapshot` says exactly when the follower ends up with the log it should have:
  the request is empty, or it is shorter than the live log and its terms are those of the live log and those of the
  whole log. `Compaction.StartOverExample` is a request that agrees with everything the follower holds and puts entries
  where others belong. A run with a single leader reaches a request like it from empty logs in eight steps
  (`Runs.UnsurvivedReached`: the follower stores an entry, discards it for a snapshot, and may then receive the first
  request once more). In `Compaction.StartOverFalseSuccess` nothing changes and the follower falsely answers success;
  that takes two logs of one term, so two leaders in it. When every term has one log, a follower can check the
  condition itself, with nothing but its live log and the request (`Compaction.SeemingIsBeing`).
  The replication theorems exclude exactly the deliveries for which the condition fails (`Refinement.DeliverAppend`),
  and each of those breaks the indexes or makes the success false (`Compaction.StartOverIsTrue`).
- A follower can be left behind for good once the leader has a snapshot. The leader ignores the answer to a snapshot
  when its match index for the follower already reaches as far (src/raft/installSnapshotRPC.go:125-129), and does not
  move the next index; if that still lies inside the snapshot, it sends the same snapshot again, however often
  (`CatchingUp.StallStays`). An eight-step run from the beginning of a term gets there (`Runs.StallReached`: a repeated
  refusal arrives after the success, then the leader compacts). `CatchingUp.RoundProgress` is the exact condition: a
  round makes progress if and only if it is not such a round, nor one in which the follower panics on a snapshot that
  contradicts its log.
- The merge of a request follows Figure 2 exactly when the log is longer than the request reaches, or holds the very
  entries that were sent as far as the terms agree (`RaftLog.HandlerMergeIsFigure2`; `RaftLog.HandlerMergeDeparts` is
  an input for which it does not). Between logs that satisfy Log Matching it always does (`RaftLog.MergeIsSafe`).

## Model

| member | source | states |
|---|---|---|
| Bitset.NewBitset | src/porcupine/bitset.go:10-17 | a fresh bitset stands for the empty set, in just enough words |
| Bitset.Clone | src/porcupine/bitset.go:19-23 | a clone is a new array with the same words, so later changes of the live bitset do not reach a cached one |
| Bitset.BitsetIndex | src/porcupine/bitset.go:25-27 | word and bit give the position back |
| Bitset.Set | src/porcupine/bitset.go:29-33 | adds one id to the set and changes no other |
| Bitset.Clear | src/porcupine/bitset.go:35-39 | removes one id from the set and changes no other |
| Bitset.Get | src/porcupine/bitset.go:41-44 | membership in the set |
| Bitset.Popcnt | src/porcupine/bitset.go:46-52 | the cardinality of the set |
| Bitset.Hash | src/porcupine/bitset.go:54-60 | the hash is the count folded with every word |
| Bitset.EqualSetsHashEqually | src/porcupine/bitset.go:54-60 | equal sets have equal hashes |
| Bitset.HashBit | src/porcupine/bitset.go:54-60 | a bit of the hash is set exactly when an odd number of the words and the count have it |
| Bitset.Equals | src/porcupine/bitset.go:62-72 | bitsets of one length are equal exactly when their sets are |
| Bitset.SameMembersSameWords | src/porcupine/bitset.go:62-72 | the words are determined by the set, so comparing words compares sets |
| Cache.Buckets.Contains | src/porcupine/checker.go:145-152 | finds a pair exactly when one with the same set and an equal state was added, whatever hashes collide |
| Cache.Buckets.Add | src/porcupine/checker.go:201-202 | adds exactly that pair |
| LinkedHistory.InsertBefore | src/porcupine/checker.go:70-81 | the node stands between the mark and what was before it |
| LinkedHistory.Length | src/porcupine/checker.go:83-90 | counts the nodes of the list |
| LinkedHistory.MakeLinkedEntries | src/porcupine/checker.go:121-138 | one node for each entry, in order and chained both ways, each call matched with the node of its return |
| LinkedHistory.Lift | src/porcupine/checker.go:159-167 | rewrites the pointers as `Lifted` says; the next node of a live call is never nil |
| LinkedHistory.LiftLinked | src/porcupine/checker.go:159-167 | lifting takes exactly the call and its return out of the list |
| LinkedHistory.Unlift | src/porcupine/checker.go:169-177 | rewrites the pointers as `Unlifted` says |
| LinkedHistory.UnliftLifted | src/porcupine/checker.go:169-177 | unlift restores every pointer that lift changed |
| ListHistory.PushList | src/porcupine/checker.go:203-207 | after a lift the list is the history without the operations on the stack |
| ListHistory.UnliftTop | src/porcupine/checker.go:235-240 | the entry on top of the stack is the one lifted last, so unlift gives back the list from before |
| ListHistory.PopList | src/porcupine/checker.go:235-241 | after the unlift the list is again the history without the operations on the stack |
| ListHistory.NextRemaining | src/porcupine/checker.go:207-212 | following next leads to the nearest remaining entry, past nothing but lifted ones |
| Search.SkipKeeps | src/porcupine/checker.go:208-213 | leaving a call that Step refuses or whose outcome is cached keeps: every call before the cursor has been tried, and everything tried leads to a visited outcome |
| Search.PushKeeps | src/porcupine/checker.go:201-207 | so does linearizing a call and restarting at the head |
| Search.PopKeeps | src/porcupine/checker.go:214-241 | so does backtracking at a return: nothing behind a pending return can come next |
| Search.ExhaustedReachesAll | src/porcupine/checker.go:190-217 | when the stack is empty at a return, every valid partial linearization has the same operations and an equal state as one that was visited: pruning loses nothing |
| Search.ExhaustedNotLinearizable | src/porcupine/checker.go:215-217 | then no complete linearization exists |
| Search.ExhaustedMaximal | src/porcupine/checker.go:218-234 | then what is recorded for an operation is a longest partial linearization with it, and nothing is recorded only if there is none |
| SearchRun.MovesOneWay | src/porcupine/checker.go:190-243 | in terms of visited sequences, the ids on the stack and the history alone, every round can go one way only |
| SearchRun.SearchIsUnique | src/porcupine/checker.go:190-243 | so there is one search of a history: two runs agree as far as both go |
| SearchRun.LongerReplaces | src/porcupine/checker.go:218-234 | what is recorded for an operation gives way only to a longer stack that contains it, at a return, and without partial results to nothing |
| SearchRun.GivenUpIsRecorded | src/porcupine/checker.go:218-234 | with partial results, every stack that was ever given up stays recorded, at least as long, with each of its operations, also in a search that is killed later |
| SearchState.SkipInvariant | src/porcupine/checker.go:208-213 | the whole invariant (search, list, stack, longest) survives a skip, and the cursor moves forward to a remaining entry |
| SearchState.PushInvariant | src/porcupine/checker.go:198-207 | it survives a push, which adds one pair to the cache and one operation to the set |
| SearchState.PopInvariant | src/porcupine/checker.go:218-241 | it survives a backtrack, with the stack recorded before it is popped |
| SearchState.SeenOutcome | src/porcupine/checker.go:198-200 | a cache hit means that an equal outcome was visited, a miss that the new stack never was |
| Checker.RecordLongest | src/porcupine/checker.go:218-234 | the stack is recorded for exactly those of its operations that have nothing as long |
| Checker.Run.constructor | src/porcupine/checker.go:180-189 | the search starts with the invariant, on the whole list |
| Checker.Run.Skip | src/porcupine/checker.go:208-213 | the invariant is kept and only the cursor moves, to the next remaining entry: the machine's round for a call that is not new |
| Checker.Run.Push | src/porcupine/checker.go:201-207 | the invariant is kept, the operation is on the stack and the stack is new among the visited: the machine's round for a new call |
| Checker.Run.TryCall | src/porcupine/checker.go:194-213 | a call is skipped or adds to what has been visited |
| Checker.Run.Backtrack | src/porcupine/checker.go:218-241 | the invariant is kept, the stack is lower and, if asked for, recorded: the machine's round at a return |
| Checker.Run.Round | src/porcupine/checker.go:194-242 | a round is the machine's and makes progress, or gives up where the machine is stuck, with a result that meets the specification |
| Checker.CheckSingle | src/porcupine/checker.go:179-253 | ends for every history; true: the ids recorded for every operation are a permutation of all, in an order that time allows and Step accepts; false when no look saw the kill flag: there is no linearization; false with partial results: each is valid and longest. It is the run of the machine, with one look at the flag before every round: true takes a look for each operation, a non-empty history at least one; the first look that sees the flag is the last, the result is then false, and what the machine has recorded by then is kept |
| Entries.MakeEntries | src/porcupine/checker.go:48-60 | the entries are well formed exactly when no operation returns before its call, and then say the same as the operations: inputs, outputs, clients and times |
| Entries.SortedRepresents | src/porcupine/checker.go:39-60 | a returns before b is called in the entries exactly when a.Return < b.Call, however ties are sorted |
| Entries.EntriesDecideOperations | src/porcupine/checker.go:48-60 | the entries are linearizable exactly when the operations are |
| Entries.TiesDoNotMatter | src/porcupine/checker.go:39-46 | two results of the unstable sort have the same verdict |
| Events.Renumber | src/porcupine/checker.go:92-106 | the same events under the ids 0, 1, .. in the order in which the old ids first occur |
| Events.ConvertEntries | src/porcupine/checker.go:108-119 | the same entries with their positions as times |
| Events.EntriesSayEvents | src/porcupine/checker.go:92-119 | after both, every entry still tells the kind, client and input or output of its event, and its position as the time |
| Events.RenumberedWellFormed | src/porcupine/checker.go:92-119 | the result is a history that can be searched exactly when every id has one call and, later, one return |
| Events.RenumberingKeepsVerdict | src/porcupine/checker.go:92-119 | events that pair up are linearizable, under their own ids, exactly when the history made of them is |
| Parallel.StepKeeps | src/porcupine/checker.go:280-318 | every step of workers, timeout and collector keeps: results taken by the loop are genuine, no worker is heard twice, what workers hold meets the specification of the search |
| Parallel.VerdictIsRight | src/porcupine/checker.go:292-353 | in every run: Ok only if every partition is linearizable, Illegal only if one is not, Unknown only after a timeout with no failure received; without a timeout the verdict is exact |
| Parallel.InfoIsComplete | src/porcupine/checker.go:311-318 | when information is computed every worker has finished before it is read; unless there was a timeout each has run to its end, whatever failed elsewhere: its history is linearizable, or what it recorded is longest |
| Parallel.CollectorIsDetermined | src/porcupine/checker.go:291-353 | in every state of every run phase, kill flag and verdict follow from the timeout and from whether a partition heard so far has failed: a failure stops the others exactly when no information is computed |
| Parallel.LooksAllowWorkerStep | src/porcupine/checker.go:191-193 | a search whose looks saw the flag only if it is set returns what the parallel check takes from a worker |
| Parallel.StepsEnd | src/porcupine/checker.go:280-318 | every step lowers a measure, so every run ends |
| Parallel.StuckOnlyWithoutPartitions | src/porcupine/checker.go:292-310 | a run that has not returned can go on exactly when there is a partition or a timeout still to come |
| KeyValue.Partition | src/models/kv.go:18-34 | one slice for each key of the history, with its operations in their order, keys sorted |
| KeyValue.StoreProjects | src/models/kv.go:35-54 | the state of the store at one key is the state of the one-value model after the operations on that key |
| KeyValue.StoreReadsWritten | src/models/kv.go:40-54 | the store accepts a sequence exactly when every get answers what was written to its key before it: the last put, or nothing, and then what was appended since |
| KeyValue.KvReadsWritten | src/models/kv.go:40-54 | so does the model of one value, for operations on one key |
| KeyValue.StoreLinearizableIs | src/models/kv.go:40-54 | linearizable against the store is: some order that time allows in which every get answers that |
| KeyValue.StoreAcceptsByKey | src/models/kv.go:40-54 | the store accepts a sequence exactly when the one-value model accepts the part of every key |
| KeyValue.Locality | src/porcupine/model.go:28-29 | sequences that respect time on every key can be merged into one that respects time, keeping each |
| KeyValue.PartitionDecidesStore | src/porcupine/model.go:28-29 | a history is linearizable against the whole store exactly when every slice is against one value |
| StoreCheck.OperationsToCheck | src/porcupine/checker.go:365-372 | what is handed to the parallel check are histories of the slices |
| StoreCheck.StoreConfigIsValid | src/models/kv.go:35-54 | the one-value model and those histories meet what the parallel check assumes: state equality is an equivalence that Step respects, ids are paired |
| StoreCheck.VerdictDecidesStore | src/porcupine/checker.go:365-373 | the verdict on the slices is the verdict on the whole store, in every interleaving |
| StoreCheck.VerdictIsAboutReads | src/porcupine/checker.go:365-373 | without a timeout the verdict is Ok exactly when there is such an order |
| StoreCheck.StuckExactlyWhenEmpty | src/porcupine/checker.go:292-310 | without a timeout the check gets stuck exactly when the history is empty |
| Visualization.CollectPartials | src/porcupine/checker.go:322-337 | the distinct recorded linearizations |
| Visualization.ReadHistory | src/porcupine/visualization.go:38-53 | each element shows the client, times and description of its operation |
| Visualization.Replay | src/porcupine/visualization.go:62-79 | panics exactly when the model refuses the sequence, and otherwise shows each id with the state after it |
| Visualization.NoteLargest | src/porcupine/visualization.go:73-76 | Largest keeps pointing each id at the first of the longest listed linearizations that contain it |
| Visualization.ComputePartition | src/porcupine/visualization.go:36-85 | panics exactly when some listed linearization is refused; otherwise history, steps and Largest are right |
| Visualization.ShowPartition | src/porcupine/visualization.go:33-87 | after any run of the check, timeout included, there is no panic and Largest points at a longest recorded linearization; without a timeout that is a longest one of the history |
| RaftLog.HandlerMergeIsFigure2 | src/raft/logActivities.go:124-134 | the two-branch merge is the rule of Figure 2 exactly under the stated condition |
| RaftLog.HandlerMergeDeparts | src/raft/logActivities.go:125-126 | two logs with different commands at one term and index, for which it is not |
| RaftLog.MergeIsSafe | src/raft/logActivities.go:90-141 | with the leader's entries it is always that rule, makes the logs agree as far as the request goes, keeps Log Matching and never removes an agreed entry |
| RaftLog.ReplayChangesNothing | src/raft/logActivities.go:124-134 | entries on which the logs agree already change nothing |
| RaftLog.MergeIsIdempotent | src/raft/logActivities.go:124-134 | handling entries twice is handling them once |
| RaftLog.FollowIsSafe | src/raft/logActivities.go:10-142 | a request of the leader, however old, keeps Log Matching and every agreed entry; a failure names an index before the one asked for |
| RaftLog.FollowTells | src/raft/logActivities.go:10-88 | a request is refused exactly when the log ends before it or has another term there; the answer then says where the log ends, or the conflicting term and where it first stands in the live log, and that entry goes with all behind it |
| RaftLog.AnswerIsHeeded | src/raft/logActivities.go:145-190 | a stale answer changes nothing; after a success the follower is known to hold what was sent; after a refusal the leader goes on right behind its last live entry of the conflicting term, or where the follower says |
| RaftLog.LeaderNextInRange | src/raft/logActivities.go:145-190 | after any answer the next index stays within 0 and the end of the leader's log |
| RaftLog.RoundMakesProgress | src/raft/logActivities.go:145-190 | a failed round shortens the follower's log or, that unchanged, lowers the next index, in all three ways of backing up; a success leaves the follower with the leader's whole log |
| RaftLog.CatchUpConverges | src/raft/logActivities.go:145-190 | so rounds end with the follower holding the leader's whole log |
| RaftLog.LeaderAgreesWithSnapshot | src/raft/logActivities.go:23-27 | a request of the leader agrees with whatever a follower has discarded that agrees with the leader |
| RaftLog.InstallIsSafe | src/raft/installSnapshotRPC.go:54-93 | taking a snapshot of the leader keeps Log Matching and every agreed entry, and agrees through the last covered index |
| Commit.MiddleIsCandidate | src/raft/logActivities.go:205-212 | the element (n+1)/2-1 of the sorted match indexes is the largest index stored on n/2+1 servers, for every n >= 1 |
| Commit.CandidateUnique | src/raft/logActivities.go:205-212 | there is only one such index |
| Commit.MajoritiesMeet | src/raft/requestVoteRPC.go:101 | n/2+1 servers that store an entry share one with any n/2+1 that granted a vote |
| Commit.FewerMayNotMeet | src/raft/logActivities.go:205-212 | for any smaller number there are two groups that share no server |
| Compaction.MergeOfSuffix | src/raft/logActivities.go:124-134 | merging into the live log behind a snapshot is merging into the whole log |
| Compaction.SnapshotMergeIsMerge | src/raft/logActivities.go:26-63 | so is the branch for requests from inside the snapshot, when the request agrees with what the snapshot stands for |
| Compaction.SnapshotMergeIsHandlerMerge | src/raft/logActivities.go:43-52 | for any entries behind the snapshot that branch is the other merge exactly when they reach the end of the log, have its terms, or are its very entries up to the first other term |
| Compaction.CompactedTells | src/raft/logActivities.go:10-88 | refusals, and what they tell, are right whatever the snapshot |
| Compaction.CompactionIsInvisible | src/raft/logActivities.go:10-142 | when a request agrees with what the snapshot stands for, the follower's log and answer are those on the whole log exactly when it does not begin at index 0 or is harmless |
| Compaction.StartOverIndexes | src/raft/logActivities.go:124-134 | a request from index 0 to a follower with a snapshot leaves consecutive indexes exactly when it changes nothing |
| Compaction.StartOverHeldSnapshot | src/raft/logActivities.go:124-134 | a request from index 0 leaves a follower with a snapshot with the log of one that holds its whole log exactly when it is harmless: shorter than the live log, and of the terms of both logs |
| Compaction.StartOverIsTrue | src/raft/logActivities.go:124-139 | with entries of the leader, the follower's indexes stay consecutive and its success is true exactly when the request is harmless |
| Compaction.SeemingIsBeing | src/raft/logActivities.go:124-134 | when every term has one log, a request of the leader is harmless exactly when it seems so to the follower: shorter than its live log, and of the terms of that |
| Compaction.StartOverFalseSuccess | src/raft/logActivities.go:26 | a request of a leader after which the follower answers success and does not agree; it takes two logs of one term |
| Compaction.StartOverExample | src/raft/logActivities.go:26 | an agreeing request after which the indexes are not consecutive |
| RaftServer.Server.Make | src/raft/raft.go:303-334 | a server comes up with its persisted log, its commit index at its snapshot, and has handed the service its snapshot and nothing else |
| RaftServer.Server.Recommit | src/raft/raft.go:323-334 | the snapshot, and behind it the live entries through the commit index, go to the service |
| RaftServer.Server.FindIndex | src/raft/tools.go:11-18 | the position of an index that the live log holds, and -1 for any other |
| RaftServer.Server.GetLastLogIndexAndTerm | src/raft/tools.go:23-29 | last index and term of the whole log, however much of it is discarded |
| RaftServer.Server.ToLeader | src/raft/serverStateTrans.go:76-88 | next and match indexes as a term begins with them |
| RaftServer.Server.ToFollower | src/raft/serverStateTrans.go:13-28 | the term never falls and the vote is forgotten only in a new term |
| RaftServer.Server.Start | src/raft/raft.go:197-237 | a leader appends the command to the whole log, at the index it reports |
| RaftServer.Server.MessageFor | src/raft/appendEntriesRPC.go:126-168 | previous term and entries are those of the whole log, or the snapshot is sent; the panic happens exactly when the next index is beyond the log |
| RaftServer.Server.FollowerHandleLog | src/raft/logActivities.go:10-142 | answer and new whole log for every request: refused exactly when the log ends before it or conflicts, telling where; those of a follower without a snapshot, when the request agrees with the snapshot, exactly if the server survives it |
| RaftServer.Server.CutConflict | src/raft/logActivities.go:67-88 | the conflicting entry goes with all that follow, and the answer names its term and the first live entry of the run |
| RaftServer.Server.MergeEntries | src/raft/logActivities.go:125-134 | the loop in place computes `HandlerMerge` |
| RaftServer.Server.TakeBehindSnapshot | src/raft/logActivities.go:29-56 | entries behind the snapshot are taken all or not at all |
| RaftServer.Server.LeaderHandleLog | src/raft/logActivities.go:145-190 | next and match index as on the whole log, but that a conflicting term inside the snapshot is not found; stated on the logs in each of the five cases of an answer |
| RaftServer.Server.AppendEntriesResponseHandler | src/raft/appendEntriesRPC.go:58-81 | old answers change nothing, a higher term makes a follower, any other answer is handled |
| RaftServer.Server.LeaderUpdateCommitIndex | src/raft/logActivities.go:196-234 | the commit index becomes the candidate exactly when that is beyond it and its entry of the current term; the panic happens exactly when the candidate is not in the log |
| RaftServer.Server.FollowerUpdateCommitIndex | src/raft/logActivities.go:237-254 | a leader's commit index beyond the follower's moves that to the smaller of it and the last index, any other changes nothing, and the newly committed entries go to the service; a log that does not reach the old commit index is a panic |
| RaftServer.Server.CommittedBatch | src/raft/logActivities.go:257-283 | what goes to the service, and the panics, for any two commit indexes and any log |
| RaftServer.HandedIsBatch | src/raft/logActivities.go:257-283 | when the commit index rises within the log that is exactly the newly committed entries, in order |
| RaftServer.HandedPanics | src/raft/logActivities.go:275-277 | a commit index beyond the log is a panic |
| RaftServer.BatchTells | src/raft/logActivities.go:257-283 | one command for each entry, in order, at the index that the service counts from 1 |
| RaftServer.SnapshotMessagesTell | src/raft/installSnapshotRPC.go:143-170 | after a compaction the service has heard of everything covered or committed once: the snapshot first, then the committed entries behind it in order |
| RaftServer.Server.AppendEntriesRequestHandler | src/raft/appendEntriesRPC.go:27-56 | an older term changes nothing; otherwise the entries are handled, and the commit index moves only on success; the server is still valid unless it does not survive the request |
| RaftServer.Server.InstallCurRfSnapShot | src/raft/installSnapshotRPC.go:143-170 | compaction leaves the whole log as it is; the service hears of the snapshot and of what is committed behind it, for every index |
| RaftServer.Server.InstallSnapshotRequestHandler | src/raft/installSnapshotRPC.go:21-107 | the whole log is kept when it reaches as far and replaced otherwise; exact conditions for the three panics, the one on a contradicting log leaving everything as it was |
| RaftServer.Server.InstallSnapshotResponseHandler | src/raft/installSnapshotRPC.go:109-135 | the match index never goes down on a snapshot's answer |
| Replication.StartKeeps | src/raft/raft.go:197-207 | appending a command keeps the invariant of the cluster |
| Replication.SendKeeps | src/raft/appendEntriesRPC.go:126-168 | so does sending a suffix or a snapshot |
| Replication.DeliverKeeps | src/raft/appendEntriesRPC.go:27-56 | so does handling any request that was ever sent, at any time and any number of times |
| Replication.AckKeeps | src/raft/appendEntriesRPC.go:58-81 | so does handling any answer that was ever given |
| Replication.CommitKeeps | src/raft/logActivities.go:196-234 | so does the leader's commit |
| Replication.ForgetKeeps | src/raft/installSnapshotRPC.go:143-156 | so do compaction by the service and a restart of any server |
| Replication.ReplicationSafe | src/raft/logActivities.go:145-254 | in every reachable state: matchIndex[f] = m means that f agrees with the leader through m, every server agrees with the leader through its own commit index, and no snapshot goes beyond that |
| Replication.MatchNeverGoesDown | src/raft/logActivities.go:145-190 | no step of any run takes a match index down, whatever old answers arrive |
| Replication.LeaderNeverPanics | src/raft/appendEntriesRPC.go:149-159 | in every reachable state the entry before every next index and the commit candidate are found |
| Replication.MessagesAgreeWithSnapshots | src/raft/logActivities.go:23-27 | in every reachable state a request agrees with what its follower has discarded, so the server handles it as on the whole log, and no snapshot takes a commit index back |
| Replication.NoAgreedEntryLost | src/raft/logActivities.go:90-141 | over every run an agreed entry stays, and the leader's log only grows |
| Replication.CommittedEntriesAgree | src/raft/logActivities.go:196-254 | two servers never commit different entries at one index, at whatever times |
| Replication.CommittedOnMajority | src/raft/logActivities.go:205-233 | what the leader commits stands on n/2+1 servers from then on |
| Replication.CommitMovesExactly | src/raft/logActivities.go:214-233 | in every run a look at the candidate moves the leader's commit index exactly when that lies beyond it and is of the leader's term, and then to it |
| Replication.OnlyOwnTermCommitted | src/raft/logActivities.go:224-225 | so over every run the leader's commit index is where the term began, or at an entry of its own term |
| Replication.FollowerCommitMoves | src/raft/logActivities.go:237-254 | a follower that accepts a request commits what the leader has, as far as its log reaches; one that refuses commits nothing |
| Replication.AcknowledgedHeeds | src/raft/logActivities.go:145-190 | in every state that keeps the invariant the leader heeds every answer as stated on the logs |
| CatchingUp.RoundIsSteps | src/raft/appendEntriesRPC.go:126-168 | a round of sending, handling and handling the answer is three steps of the cluster, or two when the follower panics |
| CatchingUp.RoundProgress | src/raft/installSnapshotRPC.go:109-135 | a round brings the follower closer exactly when the follower does not panic and its answer is not ignored; otherwise the leader sends the same again |
| CatchingUp.CatchUpEnds | src/raft/logActivities.go:145-190 | with snapshots on both sides rounds end, with the follower holding everything or blocked |
| CatchingUp.CatchUpConverges | src/raft/logActivities.go:145-190 | they end with it holding everything when the leader counts it no further than before its snapshot, which does not contradict the follower's log |
| CatchingUp.StalledAnswerIsIgnored | src/raft/installSnapshotRPC.go:125-129 | a follower counted beyond the leader's snapshot, with a next index inside it, is sent the snapshot, and its answer changes nothing |
| CatchingUp.StallStays | src/raft/installSnapshotRPC.go:125-129 | so it stays, however many rounds follow |
| Runs.StallReached | src/raft/installSnapshotRPC.go:125-129 | a run of eight steps from the beginning of a term to such a state |
| Runs.UnsurvivedReached | src/raft/logActivities.go:26 | a run of eight steps from empty logs to a request that its follower does not survive |
| Refinement.StartStep | src/raft/raft.go:197-207 | the server's Start is the step of the cluster |
| Refinement.SendStep | src/raft/appendEntriesRPC.go:126-168 | what the leader sends is the request of the cluster, without a panic |
| Refinement.DeliverAppend | src/raft/appendEntriesRPC.go:27-56 | handling any request that was ever sent leaves the log and answer of the cluster exactly when the server survives it, and is then the step of the cluster, without a panic in the batch for the service |
| Refinement.DeliverInstall | src/raft/installSnapshotRPC.go:21-107 | taking any snapshot that was ever sent is the step of the cluster; the server panics exactly on one that contradicts its log, and then it is the restarted server that plays the step |
| Refinement.AckAppended | src/raft/appendEntriesRPC.go:58-81 | so is handling any reply to entries |
| Refinement.AckTook | src/raft/installSnapshotRPC.go:109-135 | so is handling any reply to a snapshot |
| Refinement.CommitStep | src/raft/logActivities.go:196-234 | so is the leader's commit, without a panic |
| Refinement.CompactStep | src/raft/installSnapshotRPC.go:143-170 | so is compaction |
| Refinement.RestartStep | src/raft/raft.go:289-334 | so is a restart of any server from what was persisted |
| Refinement.BeginTerm | src/raft/serverStateTrans.go:69-91 | a new leader's indexes are those with which the term begins |

## Left out

- RaftServer.Server.Start: the sending that follows is RaftServer.Server.MessageFor; the two are separate steps of the cluster.
- Replication.DeliverKeeps: leaves out the deliveries of a request from index 0 that a follower with a snapshot does not survive: each breaks the indexes or makes the success false (Compaction.StartOverIsTrue), and no other is left out (Refinement.DeliverAppend).
- Refinement.RestartStep: a restarted leader leads no more; a later term is another run.
- RaftLog.CatchUpConverges: is about one follower and an unchanging leader, both without snapshots; CatchingUp.CatchUpConverges is with them.
- CatchingUp.CatchUpConverges: its condition is enough, not exact: a follower that is counted beyond the leader's snapshot and asked for entries behind it may still be brought up to date. It too is about rounds with nothing in between.
- Checker.CheckSingle: assumes entries whose ids are paired and a state equality that Step respects, as the checker does.
- The `longest` results are values, not pointers: sharing of one recorded sequence among several operations is modelled by equality.
- Sorting functions of the library are parameters with the promise they give; they are not stable where the library's are not.
- The kill flag is a function from the number of the look to what it sees.
- Results in the channel carry the number of their worker for the proofs only.
- The pointer rewriting of `lift` and `unlift` is split into one helper per removed node, and a round of the search into one method per move; the order of the assignments is that of the code.
- `checkEvents` with a model's own `PartitionEvent`: only `renumber` and `convertEntries` are modelled.
- Elections, Leader Completeness across terms, and one leader per term: the cluster model assumes one leader in its term, that every server has reached the term, and what a new leader finds (Log Matching, every committed entry in its log).
- The leader's role check and its sending are one atomic step, and so is each handler under its lock.
- The service compacts only what is committed; the code does not check it.
- Slices share memory in the code (`append(rf.log[:i], ...)`, `rf.log = newEntries`); logs are values here.
- Delivery on the apply channel: batches are computed, the order in which goroutines hand them over is not modelled.
- Persistence, timers, random timeouts, logging and the RPC library.
- Machine integers: indexes, terms and times are unbounded; only the words of the bitset and its hash are 64 bits wide.
- The HTML and file output of the visualization, and the default functions filled in for a model.
