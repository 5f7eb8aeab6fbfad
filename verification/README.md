# Blob GC control plane — a Dafny model

This project models the control plane of a key-value store's blob garbage collector. Values
live in blob files, and each blob is bound to one shard. The model has five parts:

- **Entities** (`common.dfy`, module `Common`): blobs and their garbage ratio, GC tasks with a
  checkpoint snapshot, per-node hardware state and metadata records.
- **Shard scheduler** (`shard_registry.dfy`, module `ShardRegistry`):
  - the shard → (primary, backup) map;
  - the shard-to-task binding, which allows at most one live task per shard;
  - the per-node task lists;
  - interrupt with fail-over to the backup, resume from the checkpoint;
  - the incremental replication buffer that flushes in batches of 8.
- **MORS scheduler** (`mors.dfy`, module `Mors`):
  - ranking tasks by profit, high group first;
  - picking the least-loaded available node;
  - the load update and quota adjustment that follow a placement;
  - preempting a low-priority task when no node is available;
  - the virtualisation arithmetic.
- **MDP validation engine** (`mdp.dfy`, module `MdpValidation`):
  - a 12-state, 3-action decision process solved by in-place value iteration;
  - the per-record policy lookup;
  - batched validation sorted by key.
- **FPGA value pipeline** (`fpga_pipeline.dfy`, module `FpgaPipeline`): decode the length
  header, adapt small or large values, strip the padding, and frame the payload as a blob
  fragment.

`sequences.dfy` (module `Sequences`) holds the list operations the Python code leans on.
These are `list.remove`, a filtering comprehension, and the key order of a dict built from
a list.

The Python objects are mutable. The model uses immutable values and pure functions: each
mutating method returns the updated state. Tasks are kept by id in a map, so "the same task
object in two lists" becomes "the same id in two lists". Floats are exact `real`s, and
`int(x)` is truncation toward zero.

Behaviour of the code as written that the model keeps and proves:

- **Revived completed tasks.** None of interrupt, resume or preempt checks the status.
  Interrupting or preempting a COMPLETED task makes it INTERRUPTED, so it is live again.
  Resuming a COMPLETED task that has a snapshot makes it RUNNING; without one it stays
  COMPLETED. The shard may meanwhile hold a newer task, and then two live tasks share that
  shard (`ShardRegistry.InterruptRevivesReplacedTask`, with a concrete registry in
  `ShardRegistry.InterruptCanBreakValid`). So the preservation lemmas assume the task is not
  COMPLETED or is still bound to its shard.
- **Placement without an available node.** When no node passes the gate, selection returns
  the node that preemption freed, and that node is itself over a ceiling. One node at 95 % FPGA
  holding a task of weight 0.4 is returned this way (`Mors.PlacementCanReturnUnavailableNode`).
- **Padding length.** Small values are padded up to 1024 bytes *including* their 4-byte header,
  so the padded payload is 1020 bytes. The strip that only runs on 1024-byte payloads never
  touches small values. It fires only for values of exactly 1028 bytes
  (`FpgaPipeline.SmallValueKeepsPadding`, `FpgaPipeline.OnlyKiBPayloadIsStripped`).
- **Quota drift.** Alternating high and low competition does not keep the low-priority quota
  in a band. A shrink followed by a grow ends strictly lower, and a quota of 4 or less never
  grows (`Mors.QuotaDriftsDown`).
- **Fresh-node capacity.** A fresh node passes the availability gate after `k` placements
  exactly when `k ≤ 6` (`Mors.FreshNodeGate`).
- **Solved policy.** The reward depends only on the action, and read-time validation has the
  best reward. Solving from zero values therefore yields the Read-Time policy in all twelve
  states (`MdpValidation.SolvedPolicyIsReadTime`).

## Model

| member | source | states |
|---|---|---|
| Common.Profit | common.py:60-62 | For a non-negative weight and a ratio in [0, 1], the profit lies in [0, weight]. For a positive weight, the profit is below the weight exactly when the ratio is below 1. |
| Common.AvailabilityIsDownwardClosed | common.py:93-95 | A node using no more FPGA or bandwidth than an available node is available. The ceilings of 90 and 88 are inclusive: a node exactly at both passes, and exceeding either one fails. |
| Common.CalculateGarbageRatio | common.py:26-32 | The ratio is stored in the blob and nothing else changes. It is 0 for a blob without values; otherwise ratio × count = count − valid. |
| Common.GarbageRatioInUnitInterval | common.py:26-32 | With 0 ≤ valid ≤ count, the recomputed garbage ratio lies in [0, 1]. |
| Common.SaveSnapshot | common.py:64-74 | The new snapshot records the task id, shard, blob id, offset, checksum and flag, and replaces any earlier one. The task becomes INTERRUPTED and no other field changes. |
| Common.Resume | common.py:76-81 | Without a snapshot the result is offset 0 and the task is unchanged. With one, the task becomes RUNNING and the saved offset is returned. |
| Common.SnapshotResumeRoundTrip | common.py:64-81 | Resuming right after a checkpoint at offset o gives back o. The task is RUNNING, keeps that checkpoint and is otherwise unchanged. |
| Common.LatestSnapshotWins | common.py:64-81 | Two checkpoints in a row equal the second alone, and resuming returns the later offset. |
| Sequences.RemoveFirst | shard_gc_scheduler.py:70 | `list.remove` drops exactly one occurrence, the first: the result is the list without the element at its first index, and the multiset loses one copy. |
| Sequences.Dedup | mors_scheduler.py:14-22 | A dict built from a list of ids holds exactly the ids of the list, each once. Its keys are ordered by the position of their first occurrence in the list. |
| ShardRegistry.ChoosePair | shard_gc_scheduler.py:24-25 | A pair is drawn exactly when the node list has two distinct ids. The pair is distinct and both ids come from the list. Otherwise the draw raises. |
| ShardRegistry.BuildShardNodes | shard_gc_scheduler.py:19-27 | Every shard 0..k−1 gets a distinct primary/backup pair from the node list, or the map cannot be built at all. |
| ShardRegistry.Init | shard_gc_scheduler.py:7-17 | A new scheduler satisfies the registry invariant. It maps exactly the shards 0..shard_num−1 and has no tasks and an empty buffer. |
| ShardRegistry.PriorityWeight | shard_gc_scheduler.py:39-45 | Weight 1.0 iff ratio ≥ 0.7; 0.7 iff 0.3 ≤ ratio < 0.7; 0.4 iff ratio < 0.3. |
| ShardRegistry.CreateTask | shard_gc_scheduler.py:29-62 | Creation fails exactly when the shard has a live task or has no node pair, with the matching error. On success a fresh PENDING task is bound to the shard and appended to the end of its primary's list. Every other node's list is unchanged. The primary joins the end of the node order if it had no list before, and otherwise the order is unchanged. |
| ShardRegistry.CreatedTaskShape | shard_gc_scheduler.py:37-61 | The created task carries the shard's primary and backup, the blob, the blob's ratio and the tier weight of that ratio. It is PENDING with no snapshot. It sits at the end of its primary's list, and the node order changes only when the primary is new. |
| ShardRegistry.AtMostOneLiveTaskPerShard | shard_gc_scheduler.py:31-33 | Under the invariant, two non-COMPLETED tasks of the same shard are the same task. |
| ShardRegistry.SecondCreateIsRejected | shard_gc_scheduler.py:32-33 | While a shard has a live task, creating another task for it fails with ShardBusy. |
| ShardRegistry.CreatePreservesValid | shard_gc_scheduler.py:29-62 | A successful creation preserves the registry invariant. |
| ShardRegistry.InterruptTask | shard_gc_scheduler.py:64-70 | The task gets the snapshot and is INTERRUPTED. It is appended to the backup's list and removed once from the primary's list; when the two nodes coincide, both happen to that one list. The backup joins the end of the node order if its list was never accessed; otherwise the order is kept. Other nodes' lists and the rest of the registry are unchanged. |
| ShardRegistry.InterruptFailsOverOnce | shard_gc_scheduler.py:64-70 | When the task appears once on its primary's list, after an interrupt it is no longer on that list and is on its backup's list. |
| ShardRegistry.InterruptRevivesReplacedTask | shard_gc_scheduler.py:64-70 | Interrupting a COMPLETED task that is no longer its shard's task breaks the invariant: the task is live again without owning its shard. |
| ShardRegistry.InterruptCanBreakValid | shard_gc_scheduler.py:64-70 | Take a registry in the invariant where shard 0 is bound to its PENDING task 1 and the COMPLETED task 0 is still on node A's list. Interrupting task 0 leaves the invariant. |
| ShardRegistry.ResumeTask | shard_gc_scheduler.py:72-74 | Resuming returns 0 and changes nothing without a snapshot. With one it returns the saved offset and makes the task RUNNING. |
| ShardRegistry.InterruptResumeRoundTrip | shard_gc_scheduler.py:64-74 | Resuming right after an interrupt at offset o returns o, and the task is RUNNING again. |
| ShardRegistry.InterruptPreservesValid | shard_gc_scheduler.py:64-70 | An interrupt preserves the invariant, provided the task is not a COMPLETED task whose shard has moved on. |
| ShardRegistry.ResumePreservesValid | shard_gc_scheduler.py:72-74 | A resume preserves the invariant under the same proviso. |
| ShardRegistry.CompleteTask | main.py:105 | Marking a task COMPLETED frees its shard for a new task when the shard is bound to it. Nothing else changes. |
| ShardRegistry.CompletePreservesValid | main.py:105 | Completing a bound task preserves the invariant and leaves its shard free. |
| ShardRegistry.AddRaftSyncMetadata | shard_gc_scheduler.py:76-89 | The entry is buffered. A batch is reported exactly when the buffer reaches 8; the report carries the buffer length and that length floor-divided by 5, and the buffer is cleared. |
| ShardRegistry.BufferStaysBelowThreshold | shard_gc_scheduler.py:76-89 | Starting below 8, the buffer stays below 8. A flush happens exactly when the buffer held 7, and it reports 8 entries compressed to 1. |
| ShardRegistry.AddAllKeepsEveryEntry | shard_gc_scheduler.py:76-89 | After a run of additions, 8 × reports + buffer = old buffer + additions. The buffer is the unflushed suffix of all entries, and every report is (8, 1). |
| ShardRegistry.AddRaftSyncPreservesValid | shard_gc_scheduler.py:76-89 | Buffering preserves the invariant. |
| Mors.InitScheduler | mors_scheduler.py:6-22 | There is one fresh node record (60 % FPGA, 50 % bandwidth, 1000 CLB) for each distinct id of the input, and no quota entry yet. The records are in the order of each id's first occurrence in the input, as the dict keeps them. |
| Mors.SortByProfit | mors_scheduler.py:30-31 | The sort is a permutation of its input, in descending profit order. |
| Mors.SortKeepsEqualProfitOrder | mors_scheduler.py:30-31 | The sort is stable: tasks with equal profit keep their input order, including under `reverse=True`. |
| Mors.SortTasksByProfit | mors_scheduler.py:24-32 | The ranking is a permutation of the input. All tasks with profit ≥ 0.7 come first, each group is in descending profit, and equal-profit tasks keep their input order. |
| Mors.GroupsSplitInput | mors_scheduler.py:27-28 | The high and low groups together are exactly the input. |
| Mors.HighProfitIffHighRatio | shard_gc_scheduler.py:40-45 | For a tier-weighted task, profit ≥ 0.7 iff ratio ≥ 0.7, and the weight is < 0.5 iff ratio < 0.3. For a ratio in [0, 1], profit lies in [0, weight]. |
| Mors.LeastLoaded | mors_scheduler.py:37-43 | No index is returned iff no node is available. Otherwise the index is the first available node of least FPGA + bandwidth load. |
| Mors.Loaded | mors_scheduler.py:45-49 | A placement adds 5 to FPGA and 4 to bandwidth and takes 20 CLB; competition × 200 equals the new load. |
| Mors.PlacedCompetitionBounded | mors_scheduler.py:45-49 | A node that passed the gate ends with competition in [0, 0.935], FPGA ≤ 95 and bandwidth ≤ 92. |
| Mors.FreshNodeGate | mors_scheduler.py:16-21 | A fresh node passes the availability gate after k placements iff k ≤ 6. |
| Mors.Trunc | mors_scheduler.py:72 | `int(x)` truncates toward zero: the result is the integer part of x on either side of 0. |
| Mors.NewLowQuota | mors_scheduler.py:70-79 | Between 0.4 and 0.7 competition the low quota is unchanged. For a non-negative quota, above 0.7 it becomes the integer part of 0.8 × low, within [0, low]; below 0.4 the integer part of 1.2 × low, at least low. |
| Mors.AdjustQuota | mors_scheduler.py:66-79 | Only the placed node's entry is written, created from (15, 10) if absent. Its high quota is kept. Its low quota becomes ⌊0.8·low⌋ above 0.7 competition, ⌊1.2·low⌋ below 0.4, and is unchanged in between. |
| Mors.QuotaStaysNonNegative | mors_scheduler.py:66-79 | A non-negative quota stays non-negative. It shrinks strictly under high competition when positive, and never shrinks under low competition. |
| Mors.QuotaDriftsDown | mors_scheduler.py:72-77 | A shrink followed by a grow ends strictly below a positive quota, and a quota of at most 4 does not grow. |
| Mors.FirstPreemptible | mors_scheduler.py:56-58 | The position named is that of the first task in the list with weight < 0.5, which is what `low_priority_tasks[0]` takes. There is none exactly when the list holds no such task. |
| Mors.FirstVictimNode | mors_scheduler.py:55-57 | Nodes are scanned in first-access order. The result is the first node whose list holds a task of weight < 0.5, or none when no node has one. |
| Mors.Preempt | mors_scheduler.py:53-64 | With no preemptible task anywhere, nothing changes and no node is returned. Otherwise the first node with a weight < 0.5 task is returned, that task becomes INTERRUPTED and is removed from that node's list at its first position. There is no snapshot, the shard binding is kept and the node order does not change. |
| Mors.SelectBestNode | mors_scheduler.py:34-51 | When some node is available, the first least-loaded one is returned and only it is loaded. Its quota is adjusted and the registry is untouched. When none is available, the result is the preemption's. |
| Mors.FirstLeastLoadedIsUnique | mors_scheduler.py:42-43 | At most one node is the first available node of least load. So the node chosen among equally loaded ones is determined: it is the earliest registered. |
| Mors.SelectedNodePassedGate | mors_scheduler.py:37-43 | When some node is available, selection returns a node, and it is a registered node with FPGA ≤ 90 and bandwidth ≤ 88 before the update. |
| Mors.PlacementCanReturnUnavailableNode | mors_scheduler.py:37-39 | When no node is available, selection can still return a node that is over a ceiling, namely the one preemption freed. |
| Mors.VirtualizationRatio | mors_scheduler.py:83-88 | The ratio is 6 iff the level is "HIGH", 4 iff "LOW", and 5 otherwise. |
| Mors.VirtualClb | mors_scheduler.py:81-91 | The lookup fails exactly for an unknown node id, where the source raises KeyError. Otherwise the value is (1000 − that node's remaining CLB) × the ratio of the level. |
| Mors.VirtualClbAfterPlacements | mors_scheduler.py:81-91 | After k placements on a fresh node, the virtual CLB is 20 · k · ratio. |
| MdpValidation.StateIndex | mdp_validation.py:9-11 | Exactly the twelve enumerated states have an index, and it is below 12. |
| MdpValidation.StateIndexInvertsEnumeration | mdp_validation.py:9-11 | The state-index dictionary and the enumeration are inverse in both directions on the twelve states. |
| MdpValidation.Next | mdp_validation.py:34-42 | The successor keeps the meta type and is validated. Its bucket is min(b+1, 2) for write-before, b for read-time and max(b−1, 0) for merge-time. |
| MdpValidation.Prob | mdp_validation.py:28-45 | Every transition entry is 0 or 1, and it is 1 exactly at the successor's index. |
| MdpValidation.TransitionIsDeterministic | mdp_validation.py:28-45 | Each row of the transition table puts probability 1 on the successor's index and 0 everywhere else. |
| MdpValidation.Reward | mdp_validation.py:47-61 | Every reward is negative: −2.4 for write-before, −0.64 for read-time and −1.22 for merge-time, whatever the state. |
| MdpValidation.RewardsByAction | mdp_validation.py:47-61 | In every state the rewards are −2.4, −0.64 and −1.22 for the three actions. |
| MdpValidation.ExpectationIsSuccessorValue | mdp_validation.py:72 | The probability-weighted sum over all states equals the reward plus 0.9 × the successor's value. |
| MdpValidation.ArgMax | mdp_validation.py:76 | `np.argmax` returns the first position of a maximal entry. |
| MdpValidation.NewEngine | mdp_validation.py:24-25 | A new engine has value 0 and policy 0 (write-before) in all twelve states. |
| MdpValidation.Bellman | mdp_validation.py:67-77 | The value of a state becomes the largest action value, and its policy the first action attaining it. Every other state is untouched. |
| MdpValidation.Sweep | mdp_validation.py:65-77 | After the first n steps of a sweep the states from n on are untouched. The tracked difference bounds the change of every state updated so far, and equals the change of one of them. |
| MdpValidation.SweepIsInPlace | mdp_validation.py:65-77 | The sweep updates in place. State j takes the best action value, and the first action attaining it, against a table in which states 0 … j−1 already hold their new values and states from j on still hold the old ones. |
| MdpValidation.ValueIteration | mdp_validation.py:63-80 | At most the given number of sweeps run, and at least one when any is allowed. The tables keep their shape. |
| MdpValidation.UniformSweep | mdp_validation.py:65-77 | Take a sweep from uniform values v in [−6.4, 0]. Every state gets −0.64 + 0.9v with Read-Time chosen, because each later state still reads the old value, and the largest change is v − (−0.64 + 0.9v). |
| MdpValidation.ValueIterationPicksReadTime | mdp_validation.py:63-80 | For any sweep budget of at least one and any threshold, value iteration from zero values ends with Read-Time in all twelve states and uniform values. |
| MdpValidation.SolvedPolicyIsReadTime | mdp_validation.py:24-80 | Value iteration from zero values with 50 sweeps and threshold 1e−4 ends with Read-Time in all twelve states and uniform values. |
| MdpValidation.DelayBucket | mdp_validation.py:88-93 | A delay maps to bucket 0 iff ≤ 50, to 1 iff in (50, 100], and to 2 iff > 100. |
| MdpValidation.OptimalAction | mdp_validation.py:82-97 | The lookup never fails. It names the policy entry at index (type−1)·6 + validated·3 + bucket. |
| MdpValidation.ReadTimePolicyAdvisesReadTime | mdp_validation.py:82-97 | An engine whose policy is Read-Time in every state advises "Read-Time" for every record. |
| MdpValidation.SolvedEngineAdvisesReadTime | mdp_validation.py:82-97 | After solving, every record is advised "Read-Time". |
| MdpValidation.UnsolvedEngineAdvisesWriteBefore | mdp_validation.py:82-97 | Before solving, the zero policy advises "Write-Before" for every record. |
| MdpValidation.KeyLessTotal | mdp_validation.py:102 | Python string order is total: two keys are equal or one sorts before the other. |
| MdpValidation.KeyLessTransitive | mdp_validation.py:102 | Python string order is transitive. |
| MdpValidation.SortByKey | mdp_validation.py:102 | Sorting by key yields a permutation in non-decreasing key order. |
| MdpValidation.SortSortedIsIdentity | mdp_validation.py:102 | Sorting an already sorted list changes nothing. |
| MdpValidation.SortByKeyIsStable | mdp_validation.py:102 | The sort is stable: records with equal keys keep their input order. |
| MdpValidation.ValidateCommutesWithSort | mdp_validation.py:102-106 | Validating then sorting equals sorting then validating, since validation keeps keys. |
| MdpValidation.BatchValidate | mdp_validation.py:99-108 | The result is a permutation of the validated input, sorted by key. Every record is validated with delay 0.4. |
| MdpValidation.BatchValidateIdempotent | mdp_validation.py:99-108 | Validating a batch's own output again yields the same sequence. |
| FpgaPipeline.PackU32 | fpga_pipeline.py:79 | A number below 2^32 becomes four bytes whose big-endian value is that number. |
| FpgaPipeline.UnpackU32 | fpga_pipeline.py:46 | Four bytes stand for a number below 2^32. |
| FpgaPipeline.UnpackPack | fpga_pipeline.py:46 | Decoding the 4 big-endian bytes of n < 2^32 gives back n. |
| FpgaPipeline.PackUnpack | fpga_pipeline.py:79 | Packing the number four bytes stand for gives back those bytes. |
| FpgaPipeline.InputDecode | fpga_pipeline.py:41-48 | Decoding fails iff the input is shorter than 4 bytes. Otherwise the input is the big-endian length followed by the data; the length is not checked against the data. |
| FpgaPipeline.JoinChunks | fpga_pipeline.py:58-63 | Splitting into 4096-byte chunks and joining them gives back the data. |
| FpgaPipeline.Chunks | fpga_pipeline.py:60-61 | Every chunk is non-empty and at most the chunk size, and all but the last are exactly the chunk size. |
| FpgaPipeline.DynamicAdapt | fpga_pipeline.py:50-64 | A value below 1024 bytes gets 1024 − size zero bytes after its data. A larger value's chunks join back to its data unchanged. |
| FpgaPipeline.SmallPayloadIs1020Bytes | fpga_pipeline.py:53-56 | A small value decodes and is padded to 1020 bytes, since the padding counts the header. |
| FpgaPipeline.RStripZeros | fpga_pipeline.py:69 | The result is the shortest prefix after which only zero bytes follow. It does not end in a zero byte. |
| FpgaPipeline.DataCompute | fpga_pipeline.py:66-72 | A payload of exactly 1024 bytes has its trailing zero bytes stripped and any other is kept. The checksum is taken of the kept bytes. |
| FpgaPipeline.RStripIgnoresTrailingZeros | fpga_pipeline.py:69 | Appending zero bytes does not change what stripping yields. |
| FpgaPipeline.Utf8 | fpga_pipeline.py:77-78 | Each character takes 1 to 4 bytes. The encoding is exactly as long as the string iff every character is ASCII. |
| FpgaPipeline.Utf8OfAscii | fpga_pipeline.py:77-78 | An ASCII string encodes to its code points, one byte per character. |
| FpgaPipeline.FitTo | fpga_pipeline.py:77-78 | `ljust(n, 0)[:n]` has length n, agrees with the input where both exist and is zero beyond the input. |
| FpgaPipeline.OutputEncode | fpga_pipeline.py:74-81 | Encoding fails iff the payload is too long for the 32-bit length (struct.error). Otherwise the fragment is 28 + payload bytes: blob id, checksum, length as big-endian bytes, then the payload. |
| FpgaPipeline.FrameRoundTrip | fpga_pipeline.py:74-81 | Decoding a fragment from byte 24 yields the payload length and the payload itself. |
| FpgaPipeline.ProcessValue | fpga_pipeline.py:17-39 | The pipeline fails without a 4-byte header and succeeds for any value below 2^32 bytes. It returns the framed payload with total latency 5 + 4 + 8 + 5 = 22. |
| FpgaPipeline.SmallValueKeepsPadding | fpga_pipeline.py:50-72 | A small value's payload is its data followed by 1024 − size zero bytes, 1020 bytes in all; the padding is not stripped. |
| FpgaPipeline.OnlyKiBPayloadIsStripped | fpga_pipeline.py:50-72 | Trailing zeros are stripped only for a 1028-byte value. Every other value's payload is its padded or unchanged data. |
| FpgaPipeline.ProcessedFragmentDecodes | fpga_pipeline.py:17-81 | For every value with a header, the produced fragment decodes from byte 24 to the payload and its length. |

## Left out

- The driver (`main.py`): load generation, the run loop and console statistics. Only its write of COMPLETED (main.py:105) is modelled, as `ShardRegistry.CompleteTask`, because the shard binding depends on it. Its writes of RUNNING are not modelled.
- Randomness:
  - the shard → node draw is the parameter `pick`, which gives raw indices into the node list and its filtered copy;
  - task ids are fresh numbers from a counter, in place of the shard-and-millisecond string.
- Clocks: blob creation times and snapshot times are not modelled. The dataclass defaults are evaluated once at import, so they carry no information anyway.
- Checksums: the CRC call names a function that the hashing module does not provide. The checksum is the parameter `checksum` of `FpgaPipeline.ProcessValue`, an uninterpreted function from bytes to a string.
- Logging: all `print` output is left out, including the sizes the batch sync prints. Those sizes are kept as the returned `SyncReport`.
- Locking and concurrency: the code is single-threaded.
- Float rounding is not modelled; reals are exact. In particular, `int(low*0.8)` and `int(low*1.2)` are computed on exact reals.
- Numpy arrays are sequences.
- Mors.Preempt: the preemption method reads a task-list attribute the MORS scheduler never defines. The shard scheduler's node lists are passed in explicitly instead of modelling the resulting AttributeError.
- Mors.SelectBestNode: the `task` argument is used only in a log line and is dropped. Node records are kept as a sequence in registration order.
- ShardRegistry.InterruptTask: `list.remove` raising ValueError for a task not on its primary's list is a precondition, not an error result. This is the case when a task is interrupted twice.
- MdpValidation.ValueIteration: convergence to the 1e−4 threshold is not proved in general. Its contract states only the sweep bound and the table shapes. What the sweeps compute here is proved in `MdpValidation.SolvedPolicyIsReadTime`.
- MdpValidation.OptimalAction: a record whose type is the enum class itself (the dataclass default) has no `.value` and would raise. The model's `MetaType` is always a member.
- MdpValidation.BatchValidate: the source updates the record objects in place, so the caller's list sees the changes too. The model returns new records and does not model that aliasing.
- FpgaPipeline.Utf8: only the encoding is modelled; decoding is not needed anywhere.
