/**
 Entities shared by every component of the blob garbage-collection control plane:
 blobs, GC tasks with their checkpoint snapshot, per-node hardware state and metadata
 records, together with the small operations the entities carry themselves.
 */
module Common {

  /** A value that may be absent (the source's `Optional`). */
  datatype Option<+T> = None | Some(value: T)

  /** Either a value or the error the source would have raised. */
  datatype Result<+T, +E> = Success(value: T) | Failure(error: E)

  type NodeId = string
  type ShardId = int
  /** Task identifiers are abstract: every created task gets a fresh one. */
  type TaskId = nat

  /** Default size of a blob file: 32 MiB. */
  const BlobDefaultSize: nat := 32 * 1024 * 1024
  /** Default number of shards. */
  const DefaultShardNum: nat := 50
  /** Checkpoint granularity: one snapshot per 1 MiB processed. */
  const SnapshotGranularity: nat := 1024 * 1024

  /**
   Status of a GC task. COMPLETED is meant to be terminal; interrupting or preempting a
   COMPLETED task revives it.
   */
  datatype TaskStatus = Pending | Running | Interrupted | Completed

  /** Type of a metadata record. The functional enum API numbers its members from 1. */
  datatype MetaType = Normal | Gc {
    function Value(): (v: int)
      ensures v == 1 || v == 2
      ensures (v == 1) == (this == Normal)
    {
      match this
      case Normal => 1
      case Gc => 2
    }
  }

  /** A value-storage file bound to exactly one shard. The creation time is not modelled. */
  datatype Blob = Blob(
    id: string,
    shard: ShardId,
    size: int,
    isValid: bool,
    valueCount: int,
    garbageRatio: real)

  /** The blob defaults: 32 MiB, valid, no values, no garbage. */
  function NewBlob(id: string, shard: ShardId): (b: Blob)
    ensures b.id == id && b.shard == shard
    ensures b.size == BlobDefaultSize && b.isValid
    ensures b.valueCount == 0 && b.garbageRatio == 0.0
  {
    Blob(id, shard, BlobDefaultSize, true, 0, 0.0)
  }

  /**
   Recomputes the garbage ratio of `b` from the number of still-valid values, stores it in
   the blob and returns it: 0 for a blob without values, `1 - valid / valueCount` otherwise.
   The source does not check that `valid` lies between 0 and `valueCount`.
   */
  function CalculateGarbageRatio(b: Blob, valid: int): (r: (Blob, real))
    ensures r.0 == b.(garbageRatio := r.1)
    ensures b.valueCount == 0 ==> r.1 == 0.0
    ensures b.valueCount != 0 ==> r.1 * (b.valueCount as real) == (b.valueCount - valid) as real
  {
    var ratio := if b.valueCount == 0 then 0.0 else 1.0 - (valid as real) / (b.valueCount as real);
    (b.(garbageRatio := ratio), ratio)
  }

  /** With a sensible valid count the recomputed ratio is a fraction. */
  lemma GarbageRatioInUnitInterval(b: Blob, valid: int)
    requires 0 <= valid <= b.valueCount
    ensures 0.0 <= CalculateGarbageRatio(b, valid).1 <= 1.0
  {
    var r := CalculateGarbageRatio(b, valid).1;
    if b.valueCount != 0 {
      var n := b.valueCount as real;
      var q := valid as real / n;
      assert q * n == valid as real;
      assert 0.0 <= q <= 1.0;
      assert r == 1.0 - q;
    }
  }

  /**
   An immutable checkpoint of a GC task: how far the target blob was processed, a checksum
   over the validated data and whether the metadata updates were applied. The timestamp is
   not modelled.
   */
  datatype Snapshot = Snapshot(
    taskId: TaskId,
    shard: ShardId,
    blobId: string,
    offset: int,
    checksum: string,
    metadataUpdated: bool)

  /** A GC task bound to one shard, with its primary and backup node. */
  datatype Task = Task(
    id: TaskId,
    shard: ShardId,
    primary: NodeId,
    backup: NodeId,
    blob: Blob,
    status: TaskStatus,
    snapshot: Option<Snapshot>,
    priorityWeight: real,
    garbageRatio: real)

  /**
   The scheduler's ranking score of a task. With a non-negative weight and a ratio in
   [0, 1] it never exceeds the weight; with a positive weight it falls short of the weight
   exactly when the ratio is below 1.
   */
  function Profit(t: Task): (p: real)
    ensures 0.0 <= t.priorityWeight && 0.0 <= t.garbageRatio <= 1.0 ==> 0.0 <= p <= t.priorityWeight
    ensures 0.0 < t.priorityWeight ==> (p < t.priorityWeight <==> t.garbageRatio < 1.0)
  {
    var w, g := t.priorityWeight, t.garbageRatio;
    assert 0.0 < w ==> (w * g < w <==> g < 1.0) by {
      if 0.0 < w {
        assert w * g - w == w * (g - 1.0);
        if g < 1.0 {
          assert w * (g - 1.0) < 0.0;
        } else {
          assert w * (g - 1.0) >= 0.0;
        }
      }
    }
    w * g
  }

  /** The three priority tiers a task can be created with. */
  predicate IsTierWeight(w: real)
  {
    w == 1.0 || w == 0.7 || w == 0.4
  }

  /**
   Records a checkpoint, replacing any earlier one wholesale, and marks the task
   INTERRUPTED. No other field of the task changes.
   */
  function SaveSnapshot(t: Task, offset: int, checksum: string, metadataUpdated: bool): (t': Task)
    ensures t'.snapshot.Some?
    ensures t'.snapshot.value.taskId == t.id && t'.snapshot.value.shard == t.shard
    ensures t'.snapshot.value.blobId == t.blob.id && t'.snapshot.value.offset == offset
    ensures t'.snapshot.value.checksum == checksum && t'.snapshot.value.metadataUpdated == metadataUpdated
    ensures t'.status == Interrupted
    ensures t' == t.(snapshot := t'.snapshot, status := Interrupted)
  {
    t.(snapshot := Some(Snapshot(t.id, t.shard, t.blob.id, offset, checksum, metadataUpdated)),
       status := Interrupted)
  }

  /**
   Resumes a task from its checkpoint: without a snapshot the work restarts at offset 0 and
   the task is left as it is; with one the task becomes RUNNING at the saved offset.
   */
  function Resume(t: Task): (r: (Task, int))
    ensures t.snapshot.None? ==> r == (t, 0)
    ensures t.snapshot.Some? ==> r.0 == t.(status := Running) && r.1 == t.snapshot.value.offset
  {
    match t.snapshot
    case None => (t, 0)
    case Some(s) => (t.(status := Running), s.offset)
  }

  /** Resuming after a checkpoint at offset `o` continues at exactly `o`, RUNNING, keeping the checkpoint. */
  lemma SnapshotResumeRoundTrip(t: Task, o: int, checksum: string, metadataUpdated: bool)
    ensures var (t', off) := Resume(SaveSnapshot(t, o, checksum, metadataUpdated));
      && off == o
      && t'.status == Running
      && t'.snapshot == Some(Snapshot(t.id, t.shard, t.blob.id, o, checksum, metadataUpdated))
      && t' == t.(status := Running, snapshot := t'.snapshot)
  {
  }

  /** A later checkpoint overrides an earlier one: only the most recent offset is resumed from. */
  lemma LatestSnapshotWins(t: Task, o1: int, c1: string, f1: bool, o2: int, c2: string, f2: bool)
    ensures SaveSnapshot(SaveSnapshot(t, o1, c1, f1), o2, c2, f2) == SaveSnapshot(t, o2, c2, f2)
    ensures Resume(SaveSnapshot(SaveSnapshot(t, o1, c1, f1), o2, c2, f2)).1 == o2
  {
  }

  /** Per-node hardware state: FPGA and bandwidth utilisation in percent, free logic units. */
  datatype NodeResource = NodeResource(
    id: NodeId,
    fpga: real,
    bandwidth: real,
    remainingClb: int,
    competition: real)

  const FpgaCeiling: real := 90.0
  const BandwidthCeiling: real := 88.0

  /** The hard availability gate; both ceilings are inclusive. */
  predicate IsAvailable(n: NodeResource)
  {
    n.fpga <= FpgaCeiling && n.bandwidth <= BandwidthCeiling
  }

  /**
   A node no busier than an available one is available, and the gate is tight: a node at
   exactly the ceilings passes, and any excess on either measure fails it.
   */
  lemma AvailabilityIsDownwardClosed(a: NodeResource, b: NodeResource)
    ensures IsAvailable(a) && b.fpga <= a.fpga && b.bandwidth <= a.bandwidth ==> IsAvailable(b)
    ensures a.fpga == FpgaCeiling && a.bandwidth == BandwidthCeiling ==> IsAvailable(a)
    ensures a.fpga > FpgaCeiling || a.bandwidth > BandwidthCeiling ==> !IsAvailable(a)
  {
  }

  /** A metadata record: a key pointing into a blob, with validation state and delay. */
  datatype Metadata = Metadata(
    key: string,
    blobId: string,
    offset: int,
    validated: bool,
    metaType: MetaType,
    delay: real)
}
