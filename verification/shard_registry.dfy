/**
 The shard-to-task registry: every shard maps to at most one live GC task, tasks are placed
 on the shard's primary node, fail over once to the backup node when interrupted, resume
 from their checkpoint, and completed metadata deltas are batched for replication.
 */
module ShardRegistry {
  import opened Common
  import opened Sequences

  /** The replication buffer is flushed when it holds this many entries. */
  const BatchThreshold: nat := 8
  /** Assumed compression ratio (5:1) of a replicated batch. */
  const CompressionRatio: nat := 5

  /** The statically assigned (primary, backup) nodes of a shard. */
  datatype NodePair = NodePair(primary: NodeId, backup: NodeId)

  /**
   The per-node task lists: a dictionary that creates an empty list the first time a node is
   accessed, and iterates its nodes in the order of that first access.
   */
  datatype NodeLists = NodeLists(order: seq<NodeId>, lists: map<NodeId, seq<TaskId>>) {

    ghost predicate Valid()
    {
      && NoDuplicates(order)
      && (forall n :: n in lists <==> n in order)
    }

    /** The list of node `n`, empty if the node was never accessed. */
    function Get(n: NodeId): seq<TaskId>
    {
      if n in lists then lists[n] else []
    }

    /** `node_tasks[n].append(id)`. */
    function Append(n: NodeId, id: TaskId): (r: NodeLists)
      ensures r.Get(n) == Get(n) + [id]
      ensures forall m :: m != n ==> r.Get(m) == Get(m)
      ensures r.order == if n in lists then order else order + [n]
      ensures r.lists.Keys == lists.Keys + {n}
      ensures Valid() ==> r.Valid()
    {
      if n in lists then NodeLists(order, lists[n := lists[n] + [id]])
      else NodeLists(order + [n], lists[n := [id]])
    }

    /** `node_tasks[n].remove(id)`; the source raises unless `id` is in the list. */
    function Remove(n: NodeId, id: TaskId): (r: NodeLists)
      requires id in Get(n)
      ensures r.Get(n) == RemoveFirst(Get(n), id)
      ensures forall m :: m != n ==> r.Get(m) == Get(m)
      ensures r.order == order && r.lists.Keys == lists.Keys
    {
      NodeLists(order, lists[n := RemoveFirst(lists[n], id)])
    }
  }

  /** A report handed to the replication collaborator when a batch is flushed. */
  datatype SyncReport = SyncReport(entries: nat, compressedSize: nat)

  /** The registry state. Tasks are shared by id between the shard map and the node lists. */
  datatype Registry = Registry(
    shardNodes: map<ShardId, NodePair>,
    shardTasks: map<ShardId, TaskId>,
    tasks: map<TaskId, Task>,
    nodes: NodeLists,
    buffer: seq<Metadata>,
    nextId: TaskId)

  /** Task `id` is the one its shard currently maps to. */
  ghost predicate Owns(r: Registry, id: TaskId)
    requires id in r.tasks
  {
    r.tasks[id].shard in r.shardTasks && r.shardTasks[r.tasks[id].shard] == id
  }

  /** The shard already maps to a task that has not reached COMPLETED. */
  predicate Busy(r: Registry, s: ShardId)
  {
    s in r.shardTasks && r.shardTasks[s] in r.tasks && r.tasks[r.shardTasks[s]].status != Completed
  }

  /**
   The registry invariant. Its bijection part says that every task not yet COMPLETED is the
   task its shard maps to, so a shard has at most one live task.
   */
  ghost predicate Valid(r: Registry)
  {
    && r.nodes.Valid()
    && (forall s :: s in r.shardNodes ==> r.shardNodes[s].primary != r.shardNodes[s].backup)
    && (forall id :: id in r.tasks ==> r.tasks[id].id == id && id < r.nextId)
    && (forall id :: id in r.tasks ==> r.tasks[id].primary != r.tasks[id].backup)
    && (forall s :: s in r.shardTasks ==> r.shardTasks[s] in r.tasks && r.tasks[r.shardTasks[s]].shard == s)
    && (forall id :: id in r.tasks && r.tasks[id].status != Completed ==> Owns(r, id))
    && (forall n, id :: n in r.nodes.lists && id in r.nodes.lists[n] ==> id in r.tasks)
    && |r.buffer| < BatchThreshold
  }

  /** Some two entries of `nodeIds` differ, so a backup distinct from any primary exists. */
  predicate HasDistinctPair(nodeIds: seq<NodeId>)
  {
    exists i, j :: 0 <= i < |nodeIds| && 0 <= j < |nodeIds| && nodeIds[i] != nodeIds[j]
  }

  lemma DistinctPairLeavesBackup(nodeIds: seq<NodeId>, primary: NodeId)
    requires HasDistinctPair(nodeIds)
    ensures |Without(nodeIds, primary)| > 0
  {
    var i, j :| 0 <= i < |nodeIds| && 0 <= j < |nodeIds| && nodeIds[i] != nodeIds[j];
    if nodeIds[i] != primary {
      assert nodeIds[i] in Without(nodeIds, primary);
    } else {
      assert nodeIds[j] in Without(nodeIds, primary);
    }
  }

  /**
   The random draw of one shard's nodes: a primary from all nodes and a backup from the
   nodes different from it. `draw` holds the two raw random indices. The source raises
   when either list to draw from is empty.
   */
  function ChoosePair(nodeIds: seq<NodeId>, draw: (nat, nat)): (r: Option<NodePair>)
    ensures r.Some? <==> HasDistinctPair(nodeIds)
    ensures r.Some? ==> r.value.primary != r.value.backup
    ensures r.Some? ==> r.value.primary in nodeIds && r.value.backup in nodeIds
  {
    if |nodeIds| == 0 then None
    else
      var primary := nodeIds[draw.0 % |nodeIds|];
      var others := Without(nodeIds, primary);
      if |others| == 0 then
        assert !HasDistinctPair(nodeIds) by {
          if HasDistinctPair(nodeIds) {
            DistinctPairLeavesBackup(nodeIds, primary);
          }
        }
        None
      else
        assert others[draw.1 % |others|] in others;
        Some(NodePair(primary, others[draw.1 % |others|]))
  }

  /** The shard ids `0 .. k-1`. */
  function ShardRange(k: nat): (r: set<ShardId>)
    ensures forall s :: s in r <==> 0 <= s < k
  {
    if k == 0 then {} else ShardRange(k - 1) + {k - 1}
  }

  /**
   Assigns (primary, backup) to shards `0 .. k-1` in order; `pick(s)` are the random draws of
   shard `s`. Fails, like the source, when no distinct backup can be drawn.
   */
  function BuildShardNodes(nodeIds: seq<NodeId>, pick: ShardId -> (nat, nat), k: nat): (r: Option<map<ShardId, NodePair>>)
    ensures r.Some? <==> (k == 0 || HasDistinctPair(nodeIds))
    ensures r.Some? ==> r.value.Keys == ShardRange(k)
    ensures r.Some? ==> forall s :: s in r.value ==>
      r.value[s].primary != r.value[s].backup && r.value[s].primary in nodeIds && r.value[s].backup in nodeIds
  {
    if k == 0 then Some(map[])
    else
      match BuildShardNodes(nodeIds, pick, k - 1)
      case None => None
      case Some(m) =>
        match ChoosePair(nodeIds, pick(k - 1))
        case None => None
        case Some(p) =>
          Some(m[k - 1 := p])
  }

  /** A fresh registry for `shardNum` shards over the given nodes. */
  function Init(nodeIds: seq<NodeId>, shardNum: nat, pick: ShardId -> (nat, nat)): (r: Option<Registry>)
    ensures r.Some? <==> (shardNum == 0 || HasDistinctPair(nodeIds))
    ensures r.Some? ==> Valid(r.value) && r.value.shardNodes.Keys == ShardRange(shardNum)
    ensures r.Some? ==> r.value.tasks == map[] && r.value.shardTasks == map[] && r.value.buffer == []
  {
    match BuildShardNodes(nodeIds, pick, shardNum)
    case None => None
    case Some(m) => Some(Registry(m, map[], map[], NodeLists([], map[]), [], 0))
  }

  /** Priority tier of a task from its blob's garbage ratio. */
  function PriorityWeight(ratio: real): (w: real)
    ensures IsTierWeight(w)
    ensures w == 1.0 <==> ratio >= 0.7
    ensures w == 0.7 <==> 0.3 <= ratio < 0.7
    ensures w == 0.4 <==> ratio < 0.3
  {
    if ratio >= 0.7 then 1.0
    else if 0.3 <= ratio < 0.7 then 0.7
    else 0.4
  }

  datatype CreateError = ShardBusy | UnknownShard

  datatype Created = Created(reg: Registry, id: TaskId)

  /**
   Creates a GC task for the blob's shard. Fails with ShardBusy when the shard already maps
   to a task that is not COMPLETED, and with UnknownShard (a failed dictionary lookup in the
   source) when the shard has no assigned nodes. On success the PENDING task becomes the
   shard's task and is appended to the primary node's list; nothing else changes.
   */
  function CreateTask(r: Registry, blob: Blob): (res: Result<Created, CreateError>)
    ensures res.Failure? <==> Busy(r, blob.shard) || blob.shard !in r.shardNodes
    ensures res.Failure? ==> (res.error == ShardBusy <==> Busy(r, blob.shard))
    ensures res.Success? ==>
      var r', id := res.value.reg, res.value.id;
      && id == r.nextId && r'.nextId == id + 1
      && id in r'.tasks
      && r'.tasks == r.tasks[id := r'.tasks[id]]
      && r'.shardTasks == r.shardTasks[blob.shard := id]
      && r'.shardNodes == r.shardNodes && r'.buffer == r.buffer
    ensures res.Success? ==>
      var r', p := res.value.reg, r.shardNodes[blob.shard].primary;
      && r'.nodes.Get(p) == r.nodes.Get(p) + [res.value.id]
      && (forall n :: n != p ==> r'.nodes.Get(n) == r.nodes.Get(n))
      && r'.nodes.order == if p in r.nodes.lists then r.nodes.order else r.nodes.order + [p]
  {
    if Busy(r, blob.shard) then Failure(ShardBusy)
    else if blob.shard !in r.shardNodes then Failure(UnknownShard)
    else
      var id := r.nextId;
      var pair := r.shardNodes[blob.shard];
      var task := Task(id, blob.shard, pair.primary, pair.backup, blob, Pending, None,
                       PriorityWeight(blob.garbageRatio), blob.garbageRatio);
      Success(Created(
        r.(shardTasks := r.shardTasks[blob.shard := id],
           tasks := r.tasks[id := task],
           nodes := r.nodes.Append(pair.primary, id),
           nextId := id + 1),
        id))
  }

  /** What a successful creation stores: the new task and its place in the node lists. */
  lemma CreatedTaskShape(r: Registry, blob: Blob)
    requires CreateTask(r, blob).Success?
    ensures var c := CreateTask(r, blob).value;
      var t := c.reg.tasks[c.id];
      && t.status == Pending && t.snapshot.None?
      && t.id == c.id && t.shard == blob.shard && t.blob == blob
      && t.garbageRatio == blob.garbageRatio
      && t.priorityWeight == PriorityWeight(blob.garbageRatio)
      && t.primary == r.shardNodes[blob.shard].primary
      && t.backup == r.shardNodes[blob.shard].backup
      && c.reg.nodes.Get(t.primary) == r.nodes.Get(t.primary) + [c.id]
      && (forall n :: n != t.primary ==> c.reg.nodes.Get(n) == r.nodes.Get(n))
      && c.reg.nodes.order == if t.primary in r.nodes.lists then r.nodes.order else r.nodes.order + [t.primary]
  {
  }

  /** A valid registry holds at most one live task per shard. */
  lemma AtMostOneLiveTaskPerShard(r: Registry, a: TaskId, b: TaskId)
    requires Valid(r)
    requires a in r.tasks && b in r.tasks
    requires r.tasks[a].status != Completed && r.tasks[b].status != Completed
    requires r.tasks[a].shard == r.tasks[b].shard
    ensures a == b
  {
    assert Owns(r, a) && Owns(r, b);
  }

  /** While a shard has a live task, creating another task for it fails with ShardBusy. */
  lemma SecondCreateIsRejected(r: Registry, blob: Blob, live: TaskId)
    requires Valid(r)
    requires live in r.tasks && r.tasks[live].shard == blob.shard && r.tasks[live].status != Completed
    ensures CreateTask(r, blob) == Failure(ShardBusy)
  {
    assert Owns(r, live);
  }

  /** Creation keeps the registry invariant, in particular the one-live-task-per-shard bijection. */
  lemma CreatePreservesValid(r: Registry, blob: Blob)
    requires Valid(r)
    requires CreateTask(r, blob).Success?
    ensures Valid(CreateTask(r, blob).value.reg)
  {
    var c := CreateTask(r, blob).value;
    var r', id := c.reg, c.id;
    CreatedTaskShape(r, blob);
    forall i | i in r'.tasks && r'.tasks[i].status != Completed
      ensures Owns(r', i)
    {
      if i != id {
        assert i in r.tasks && r.tasks[i].status != Completed;
        assert Owns(r, i);
      }
    }
    forall n, i | n in r'.nodes.lists && i in r'.nodes.lists[n]
      ensures i in r'.tasks
    {
      assert r'.nodes.lists[n] == r'.nodes.Get(n);
      if n != r'.tasks[id].primary || i != id {
        assert i in r.nodes.Get(n);
      }
    }
  }

  /**
   Interrupts a task: saves the checkpoint (the task becomes INTERRUPTED), appends the task
   to its backup node's list and then removes its first occurrence from the primary node's
   list. The source raises unless the task is in the primary node's list, so interrupting
   the same task twice is outside the precondition.
   */
  function InterruptTask(r: Registry, id: TaskId, offset: int, checksum: string, metadataUpdated: bool): (r': Registry)
    requires id in r.tasks && id in r.nodes.Get(r.tasks[id].primary)
    ensures r'.tasks == r.tasks[id := SaveSnapshot(r.tasks[id], offset, checksum, metadataUpdated)]
    ensures r.tasks[id].primary != r.tasks[id].backup ==>
      && r'.nodes.Get(r.tasks[id].backup) == r.nodes.Get(r.tasks[id].backup) + [id]
      && r'.nodes.Get(r.tasks[id].primary) == RemoveFirst(r.nodes.Get(r.tasks[id].primary), id)
    ensures r.tasks[id].primary == r.tasks[id].backup ==>
      r'.nodes.Get(r.tasks[id].primary) == RemoveFirst(r.nodes.Get(r.tasks[id].primary) + [id], id)
    ensures forall n :: n != r.tasks[id].primary && n != r.tasks[id].backup ==> r'.nodes.Get(n) == r.nodes.Get(n)
    ensures r'.nodes.order ==
      if r.tasks[id].backup in r.nodes.lists then r.nodes.order else r.nodes.order + [r.tasks[id].backup]
    ensures r.nodes.Valid() ==> r'.nodes.Valid()
    ensures r' == r.(tasks := r'.tasks, nodes := r'.nodes)
  {
    var t := r.tasks[id];
    var appended := r.nodes.Append(t.backup, id);
    assert id in appended.Get(t.primary);
    r.(tasks := r.tasks[id := SaveSnapshot(t, offset, checksum, metadataUpdated)],
       nodes := appended.Remove(t.primary, id))
  }

  /** Occurrences of `id` in a list. */
  function Occurrences(s: seq<TaskId>, id: TaskId): nat
  {
    multiset(s)[id]
  }

  /**
   The single failover: a task listed once on its primary node leaves that node and is
   listed on the backup node, so a second interrupt of it no longer meets the precondition.
   */
  lemma InterruptFailsOverOnce(r: Registry, id: TaskId, offset: int, checksum: string, metadataUpdated: bool)
    requires Valid(r)
    requires id in r.tasks && Occurrences(r.nodes.Get(r.tasks[id].primary), id) == 1
    ensures var r' := InterruptTask(r, id, offset, checksum, metadataUpdated);
      && id in r'.tasks
      && r'.tasks[id].primary == r.tasks[id].primary
      && id !in r'.nodes.Get(r'.tasks[id].primary)
      && id in r'.nodes.Get(r'.tasks[id].backup)
  {
    var t := r.tasks[id];
    var r' := InterruptTask(r, id, offset, checksum, metadataUpdated);
    var after := r'.nodes.Get(t.primary);
    assert after == RemoveFirst(r.nodes.Get(t.primary), id);
    assert Occurrences(after, id) == 0;
  }

  /**
   Resumes a task through the registry: returns the checkpoint offset, or 0 when the task
   has no checkpoint, in which case nothing changes.
   */
  function ResumeTask(r: Registry, id: TaskId): (res: (Registry, int))
    requires id in r.tasks
    ensures r.tasks[id].snapshot.None? ==> res == (r, 0)
    ensures r.tasks[id].snapshot.Some? ==>
      && res.1 == r.tasks[id].snapshot.value.offset
      && res.0 == r.(tasks := r.tasks[id := r.tasks[id].(status := Running)])
  {
    var (t, offset) := Resume(r.tasks[id]);
    if r.tasks[id].snapshot.None? then (r, offset)
    else (r.(tasks := r.tasks[id := t]), offset)
  }

  /** Interrupt at offset `o` then resume: execution continues at exactly `o` on the backup node. */
  lemma InterruptResumeRoundTrip(r: Registry, id: TaskId, o: int, checksum: string, metadataUpdated: bool)
    requires id in r.tasks && id in r.nodes.Get(r.tasks[id].primary)
    requires r.tasks[id].primary != r.tasks[id].backup
    ensures var r1 := InterruptTask(r, id, o, checksum, metadataUpdated);
      var (r2, off) := ResumeTask(r1, id);
      && off == o
      && r2.tasks[id].status == Running
      && r2.tasks[id].snapshot.Some? && r2.tasks[id].snapshot.value.offset == o
      && id in r2.nodes.Get(r.tasks[id].backup)
  {
    SnapshotResumeRoundTrip(r.tasks[id], o, checksum, metadataUpdated);
  }

  /**
   Interrupting keeps the invariant as long as the task is live or still its shard's task.
   The source does not check this: interrupting a replaced COMPLETED task makes it live
   next to its successor.
   */
  lemma InterruptPreservesValid(r: Registry, id: TaskId, offset: int, checksum: string, metadataUpdated: bool)
    requires Valid(r)
    requires id in r.tasks && id in r.nodes.Get(r.tasks[id].primary)
    requires r.tasks[id].status != Completed || Owns(r, id)
    ensures Valid(InterruptTask(r, id, offset, checksum, metadataUpdated))
  {
    var r' := InterruptTask(r, id, offset, checksum, metadataUpdated);
    assert r'.nodes.Valid();
    assert r'.shardNodes == r.shardNodes && r'.shardTasks == r.shardTasks;
    assert r'.buffer == r.buffer && r'.nextId == r.nextId;
    InterruptKeepsTaskFields(r, id, offset, checksum, metadataUpdated);
    InterruptKeepsOwners(r, id, offset, checksum, metadataUpdated);
    InterruptKeepsListedTasksKnown(r, id, offset, checksum, metadataUpdated);
  }

  /** Interrupting changes only the status and snapshot of one task. */
  lemma InterruptKeepsTaskFields(r: Registry, id: TaskId, offset: int, checksum: string, metadataUpdated: bool)
    requires id in r.tasks && id in r.nodes.Get(r.tasks[id].primary)
    ensures var r' := InterruptTask(r, id, offset, checksum, metadataUpdated);
      && (forall i :: i in r'.tasks <==> i in r.tasks)
      && (forall i :: i in r'.tasks ==> r'.tasks[i].id == r.tasks[i].id && r'.tasks[i].shard == r.tasks[i].shard)
      && (forall i :: i in r'.tasks ==> r'.tasks[i].primary == r.tasks[i].primary && r'.tasks[i].backup == r.tasks[i].backup)
  {
  }

  /** Every live task still owns its shard after interrupting a task that owns its own. */
  lemma InterruptKeepsOwners(r: Registry, id: TaskId, offset: int, checksum: string, metadataUpdated: bool)
    requires Valid(r)
    requires id in r.tasks && id in r.nodes.Get(r.tasks[id].primary)
    requires r.tasks[id].status != Completed || Owns(r, id)
    ensures var r' := InterruptTask(r, id, offset, checksum, metadataUpdated);
      forall i :: i in r'.tasks && r'.tasks[i].status != Completed ==> Owns(r', i)
  {
    var r' := InterruptTask(r, id, offset, checksum, metadataUpdated);
    assert Owns(r, id);
    forall i | i in r'.tasks && r'.tasks[i].status != Completed
      ensures Owns(r', i)
    {
      if i != id {
        assert Owns(r, i);
      }
    }
  }

  /**
   Interrupting a COMPLETED task whose shard has moved on to another task makes it live again
   without owning its shard, so the invariant breaks.
   */
  lemma InterruptRevivesReplacedTask(r: Registry, id: TaskId, offset: int, checksum: string, metadataUpdated: bool)
    requires id in r.tasks && id in r.nodes.Get(r.tasks[id].primary)
    requires r.tasks[id].status == Completed && !Owns(r, id)
    ensures !Valid(InterruptTask(r, id, offset, checksum, metadataUpdated))
  {
    var r' := InterruptTask(r, id, offset, checksum, metadataUpdated);
    assert r'.tasks[id].status == Interrupted && !Owns(r', id);
  }

  /**
   A registry in the invariant where this happens: shard 0 maps to its PENDING task 1 while
   the COMPLETED task 0 of the same shard is still in node A's list.
   */
  function ReplacedTaskRegistry(): Registry
  {
    var blob := Blob("b", 0, 0, true, 0, 0.0);
    Registry(map[0 := NodePair("A", "B")], map[0 := 1],
             map[0 := Task(0, 0, "A", "B", blob, Completed, None, 1.0, 0.0),
                 1 := Task(1, 0, "A", "B", blob, Pending, None, 1.0, 0.0)],
             NodeLists(["A"], map["A" := [0, 1]]), [], 2)
  }

  /** So the invariant does not survive every interrupt the source accepts. */
  lemma InterruptCanBreakValid()
    ensures var r := ReplacedTaskRegistry();
      && Valid(r) && 0 in r.tasks && 0 in r.nodes.Get(r.tasks[0].primary)
      && !Valid(InterruptTask(r, 0, 5, "c", false))
  {
    var r := ReplacedTaskRegistry();
    ReplacedTaskRegistryIsValid();
    assert 0 in r.nodes.Get(r.tasks[0].primary);
    InterruptRevivesReplacedTask(r, 0, 5, "c", false);
  }

  lemma ReplacedTaskRegistryIsValid()
    ensures Valid(ReplacedTaskRegistry())
  {
    var r := ReplacedTaskRegistry();
    assert forall id :: id in r.tasks ==> id == 0 || id == 1;
    assert forall n :: n in r.nodes.lists ==> n == "A";
    assert Owns(r, 1);
  }

  lemma InterruptKeepsListedTasksKnown(r: Registry, id: TaskId, offset: int, checksum: string, metadataUpdated: bool)
    requires Valid(r)
    requires id in r.tasks && id in r.nodes.Get(r.tasks[id].primary)
    ensures var r' := InterruptTask(r, id, offset, checksum, metadataUpdated);
      forall n, i :: n in r'.nodes.lists && i in r'.nodes.lists[n] ==> i in r'.tasks
  {
    var r' := InterruptTask(r, id, offset, checksum, metadataUpdated);
    forall n, i | n in r'.nodes.lists && i in r'.nodes.lists[n]
      ensures i in r'.tasks
    {
      assert i in r'.nodes.Get(n);
      InterruptListsOnlyKnownTasks(r, id, offset, checksum, metadataUpdated, n, i);
    }
  }

  /** A task in a node list after an interrupt is the interrupted one or was already listed there. */
  lemma InterruptListsOnlyKnownTasks(r: Registry, id: TaskId, offset: int, checksum: string, metadataUpdated: bool, n: NodeId, i: TaskId)
    requires Valid(r)
    requires id in r.tasks && id in r.nodes.Get(r.tasks[id].primary)
    requires i in InterruptTask(r, id, offset, checksum, metadataUpdated).nodes.Get(n)
    ensures i == id || i in r.nodes.Get(n)
  {
    var t := r.tasks[id];
    assert t.primary != t.backup;
    var after := InterruptTask(r, id, offset, checksum, metadataUpdated).nodes.Get(n);
    if i != id {
      if n == t.primary {
        assert multiset(after) <= multiset(r.nodes.Get(n));
        assert i in multiset(after);
      } else if n == t.backup {
        assert after == r.nodes.Get(n) + [id];
      }
    }
  }

  /** Resuming keeps the invariant under the same condition as interrupting. */
  lemma ResumePreservesValid(r: Registry, id: TaskId)
    requires Valid(r)
    requires id in r.tasks
    requires r.tasks[id].status != Completed || Owns(r, id)
    ensures Valid(ResumeTask(r, id).0)
  {
    var r' := ResumeTask(r, id).0;
    assert Owns(r, id);
    forall i | i in r'.tasks && r'.tasks[i].status != Completed
      ensures Owns(r', i)
    {
      if i != id {
        assert Owns(r, i);
      }
    }
  }

  /** The driver's final status write: the task reaches the terminal COMPLETED state. */
  function CompleteTask(r: Registry, id: TaskId): (r': Registry)
    requires id in r.tasks
    ensures id in r'.tasks && r'.tasks[id].status == Completed
    ensures r.tasks[id].shard in r.shardTasks && r.shardTasks[r.tasks[id].shard] == id ==> !Busy(r', r.tasks[id].shard)
    ensures r' == r.(tasks := r.tasks[id := r'.tasks[id]])
  {
    r.(tasks := r.tasks[id := r.tasks[id].(status := Completed)])
  }

  /** Completing keeps the invariant and frees the shard for a new task. */
  lemma CompletePreservesValid(r: Registry, id: TaskId)
    requires Valid(r)
    requires id in r.tasks && Owns(r, id)
    ensures Valid(CompleteTask(r, id))
    ensures !Busy(CompleteTask(r, id), r.tasks[id].shard)
  {
    var r' := CompleteTask(r, id);
    forall i | i in r'.tasks && r'.tasks[i].status != Completed
      ensures Owns(r', i)
    {
      assert Owns(r, i);
    }
  }

  /**
   Appends a metadata delta to the replication buffer; when the buffer reaches the batch
   threshold its size and estimated compressed size are reported and it is emptied.
   */
  function AddRaftSyncMetadata(r: Registry, meta: Metadata): (res: (Registry, Option<SyncReport>))
    ensures res.1.Some? <==> |r.buffer| + 1 >= BatchThreshold
    ensures res.1.Some? ==>
      && res.0.buffer == []
      && res.1.value.entries == |r.buffer| + 1
      && res.1.value.compressedSize * CompressionRatio <= res.1.value.entries < (res.1.value.compressedSize + 1) * CompressionRatio
    ensures res.1.None? ==> res.0.buffer == r.buffer + [meta]
    ensures res.0 == r.(buffer := res.0.buffer)
  {
    var buffer := r.buffer + [meta];
    if |buffer| >= BatchThreshold then
      (r.(buffer := []), Some(SyncReport(|buffer|, |buffer| / CompressionRatio)))
    else
      (r.(buffer := buffer), None)
  }

  /**
   Below the threshold the buffer stays below it after every call; a flush happens exactly
   when the eighth entry arrives and reports 8 entries compressed to 1.
   */
  lemma BufferStaysBelowThreshold(r: Registry, meta: Metadata)
    requires |r.buffer| < BatchThreshold
    ensures |AddRaftSyncMetadata(r, meta).0.buffer| < BatchThreshold
    ensures AddRaftSyncMetadata(r, meta).1.Some? <==> |r.buffer| == BatchThreshold - 1
    ensures AddRaftSyncMetadata(r, meta).1.Some? ==> AddRaftSyncMetadata(r, meta).1.value == SyncReport(8, 1)
  {
  }

  /** Feeds a sequence of deltas through the buffer, collecting the flush reports. */
  function AddAll(r: Registry, metas: seq<Metadata>): (res: (Registry, seq<SyncReport>))
    ensures res.0 == r.(buffer := res.0.buffer)
  {
    if |metas| == 0 then (r, [])
    else
      var (r1, reports) := AddAll(r, metas[..|metas| - 1]);
      var (r2, report) := AddRaftSyncMetadata(r1, metas[|metas| - 1]);
      (r2, if report.Some? then reports + [report.value] else reports)
  }

  /**
   No delta is lost: after any number of additions, every delta was either flushed in a full
   batch of 8 or is still buffered, and the buffer holds exactly the newest ones in order.
   */
  lemma {:induction false} AddAllKeepsEveryEntry(r: Registry, metas: seq<Metadata>)
    requires |r.buffer| < BatchThreshold
    ensures var (r', reports) := AddAll(r, metas);
      && |r'.buffer| < BatchThreshold
      && |reports| * BatchThreshold + |r'.buffer| == |r.buffer| + |metas|
      && r'.buffer == (r.buffer + metas)[|reports| * BatchThreshold..]
      && (forall i :: 0 <= i < |reports| ==> reports[i] == SyncReport(8, 1))
  {
    if |metas| > 0 {
      var init := metas[..|metas| - 1];
      var last := metas[|metas| - 1];
      AddAllKeepsEveryEntry(r, init);
      var (r1, reports) := AddAll(r, init);
      BufferStaysBelowThreshold(r1, last);
      var all := r.buffer + metas;
      assert r.buffer + init == all[..|all| - 1];
      var k := |reports| * BatchThreshold;
      assert r1.buffer == all[k..|all| - 1];
      if |r1.buffer| + 1 < BatchThreshold {
        assert r1.buffer + [last] == all[k..];
      }
    }
  }

  /** Appending keeps the registry invariant. */
  lemma AddRaftSyncPreservesValid(r: Registry, meta: Metadata)
    requires Valid(r)
    ensures Valid(AddRaftSyncMetadata(r, meta).0)
  {
    BufferStaysBelowThreshold(r, meta);
  }
}
