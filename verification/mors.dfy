/**
 The multi-objective resource-aware scheduler: ranks GC tasks by profit, places a task on
 the least-loaded node that passes the hard utilisation gates, preempts a low-priority task
 when no node passes, and adapts each node's low-priority quota to resource competition.
 */
module Mors {
  import opened Common
  import opened Sequences
  import opened ShardRegistry

  /** Tasks with at least this profit form the high-priority group. */
  const HighProfit: real := 0.7
  /** Only tasks with a priority weight below this bound can be preempted. */
  const PreemptibleWeight: real := 0.5
  /** Simulated load of one placed task. */
  const FpgaPerTask: real := 5.0
  const BandwidthPerTask: real := 4.0
  const ClbPerTask: int := 20
  /** Logic units of a node before any task is placed. */
  const InitialClb: int := 1000
  /** Competition thresholds of the quota feedback. */
  const LowCompetition: real := 0.4
  const HighCompetition: real := 0.7

  /** Per-node task quotas for high- and low-priority tasks. */
  datatype Quota = Quota(high: int, low: int)

  /** The quota of a node that was never adjusted. */
  const DefaultQuota: Quota := Quota(15, 10)

  /** The scheduler's state: node resources in registration order and the quota dictionary. */
  datatype Scheduler = Scheduler(nodes: seq<NodeResource>, quota: map<NodeId, Quota>)

  /** A node as registered: 60% FPGA, 50% bandwidth, all logic units free. */
  function FreshNode(id: NodeId): NodeResource
  {
    NodeResource(id, 60.0, 50.0, InitialClb, 0.0)
  }

  /** Node ids are distinct. */
  predicate DistinctIds(nodes: seq<NodeResource>)
  {
    forall i, j :: 0 <= i < j < |nodes| ==> nodes[i].id != nodes[j].id
  }

  /**
   Registers every distinct node id once; nodes appear in the order of their first occurrence
   in `nodeIds`.
   */
  function InitScheduler(nodeIds: seq<NodeId>): (m: Scheduler)
    ensures DistinctIds(m.nodes)
    ensures forall n :: n in nodeIds <==> exists i :: 0 <= i < |m.nodes| && m.nodes[i].id == n
    ensures forall i :: 0 <= i < |m.nodes| ==> m.nodes[i] == FreshNode(m.nodes[i].id)
    ensures forall i, j :: 0 <= i < j < |m.nodes| ==> IndexOf(nodeIds, m.nodes[i].id) < IndexOf(nodeIds, m.nodes[j].id)
    ensures |m.nodes| == |Dedup(nodeIds)| && forall i :: 0 <= i < |m.nodes| ==> m.nodes[i].id == Dedup(nodeIds)[i]
    ensures m.quota == map[]
  {
    var ids := Dedup(nodeIds);
    var m := Scheduler(seq(|ids|, i requires 0 <= i < |ids| => FreshNode(ids[i])), map[]);
    assert forall i :: 0 <= i < |ids| ==> m.nodes[i].id == ids[i];
    m
  }

  // ---------------------------------------------------------------------------
  // Profit ranking

  predicate IsHigh(t: Task)
  {
    Profit(t) >= HighProfit
  }

  /** The high-priority group, in input order. */
  function HighGroup(s: seq<Task>): (r: seq<Task>)
    ensures forall t :: t in r ==> IsHigh(t)
  {
    if |s| == 0 then []
    else (if IsHigh(s[0]) then [s[0]] else []) + HighGroup(s[1..])
  }

  /** The low-priority group, in input order. */
  function LowGroup(s: seq<Task>): (r: seq<Task>)
    ensures forall t :: t in r ==> !IsHigh(t)
  {
    if |s| == 0 then []
    else (if IsHigh(s[0]) then [] else [s[0]]) + LowGroup(s[1..])
  }

  /** The tasks of `s` whose profit is exactly `p`, in order. */
  function WithProfit(s: seq<Task>, p: real): seq<Task>
  {
    if |s| == 0 then []
    else (if Profit(s[0]) == p then [s[0]] else []) + WithProfit(s[1..], p)
  }

  /** Profit does not increase along `s`. */
  predicate DescendingProfit(s: seq<Task>)
  {
    forall i, j :: 0 <= i < j < |s| ==> Profit(s[i]) >= Profit(s[j])
  }

  /** Inserts `t` before the first task whose profit is not greater than its own. */
  function InsertByProfit(t: Task, s: seq<Task>): (r: seq<Task>)
    ensures multiset(r) == multiset(s) + multiset{t}
  {
    if |s| == 0 then [t]
    else if Profit(s[0]) <= Profit(t) then [t] + s
    else
      assert s == [s[0]] + s[1..];
      [s[0]] + InsertByProfit(t, s[1..])
  }

  lemma {:induction false} InsertKeepsDescending(t: Task, s: seq<Task>)
    requires DescendingProfit(s)
    ensures DescendingProfit(InsertByProfit(t, s))
  {
    if |s| > 0 && Profit(s[0]) > Profit(t) {
      var rest := InsertByProfit(t, s[1..]);
      InsertKeepsDescending(t, s[1..]);
      var r := [s[0]] + rest;
      forall j | 0 < j < |r|
        ensures Profit(r[0]) >= Profit(r[j])
      {
        assert r[j] in multiset(rest);
        assert r[j] == t || r[j] in multiset(s[1..]);
        if r[j] != t {
          var k :| 0 <= k < |s[1..]| && s[1..][k] == r[j];
          assert s[k + 1] == r[j];
        }
      }
    }
  }

  /** Stable sort by descending profit, as `list.sort(key=profit, reverse=True)`. */
  function SortByProfit(s: seq<Task>): (r: seq<Task>)
    ensures multiset(r) == multiset(s)
    ensures DescendingProfit(r)
  {
    if |s| == 0 then []
    else
      assert s == [s[0]] + s[1..];
      InsertKeepsDescending(s[0], SortByProfit(s[1..]));
      InsertByProfit(s[0], SortByProfit(s[1..]))
  }

  lemma {:induction false} WithProfitConcat(a: seq<Task>, b: seq<Task>, p: real)
    ensures WithProfit(a + b, p) == WithProfit(a, p) + WithProfit(b, p)
  {
    if |a| > 0 {
      assert (a + b)[0] == a[0];
      assert (a + b)[1..] == a[1..] + b;
      WithProfitConcat(a[1..], b, p);
    } else {
      assert a + b == b;
    }
  }

  lemma {:induction false} InsertKeepsEqualProfitOrder(t: Task, s: seq<Task>, p: real)
    requires DescendingProfit(s)
    ensures WithProfit(InsertByProfit(t, s), p) == (if Profit(t) == p then [t] else []) + WithProfit(s, p)
  {
    if |s| == 0 {
      WithProfitCons(t, [], p);
      assert [t] + [] == [t];
    } else if Profit(s[0]) > Profit(t) {
      InsertKeepsEqualProfitOrder(t, s[1..], p);
      assert s == [s[0]] + s[1..];
      WithProfitPastOther(t, s[0], InsertByProfit(t, s[1..]), s[1..], p);
    } else {
      WithProfitCons(t, s, p);
    }
  }

  lemma WithProfitCons(x: Task, s: seq<Task>, p: real)
    ensures WithProfit([x] + s, p) == (if Profit(x) == p then [x] else []) + WithProfit(s, p)
  {
    assert ([x] + s)[1..] == s;
  }

  /** A task whose profit differs from `t`'s can be put in front of both sides. */
  lemma WithProfitPastOther(t: Task, x: Task, rest: seq<Task>, tail: seq<Task>, p: real)
    requires Profit(x) != Profit(t)
    requires WithProfit(rest, p) == (if Profit(t) == p then [t] else []) + WithProfit(tail, p)
    ensures WithProfit([x] + rest, p) == (if Profit(t) == p then [t] else []) + WithProfit([x] + tail, p)
  {
    WithProfitCons(x, rest, p);
    WithProfitCons(x, tail, p);
    if Profit(t) == p {
      assert WithProfit([x] + rest, p) == WithProfit(rest, p);
    }
  }

  /** The sort is stable: tasks of equal profit keep their input order. */
  lemma {:induction false} SortKeepsEqualProfitOrder(s: seq<Task>, p: real)
    ensures WithProfit(SortByProfit(s), p) == WithProfit(s, p)
  {
    if |s| > 0 {
      SortKeepsEqualProfitOrder(s[1..], p);
      InsertKeepsEqualProfitOrder(s[0], SortByProfit(s[1..]), p);
    }
  }

  lemma {:induction false} GroupsSplitInput(s: seq<Task>)
    ensures multiset(HighGroup(s)) + multiset(LowGroup(s)) == multiset(s)
  {
    if |s| > 0 {
      GroupsSplitInput(s[1..]);
      GroupsSplitStep(s[0], HighGroup(s[1..]), LowGroup(s[1..]), s[1..]);
      assert s == [s[0]] + s[1..];
    }
  }

  /** Sending one more task to its group keeps the two groups a split of the input. */
  lemma GroupsSplitStep(x: Task, high: seq<Task>, low: seq<Task>, rest: seq<Task>)
    requires multiset(high) + multiset(low) == multiset(rest)
    ensures multiset((if IsHigh(x) then [x] else []) + high) + multiset((if IsHigh(x) then [] else [x]) + low)
      == multiset([x] + rest)
  {
  }

  lemma {:induction false} HighGroupWithProfit(s: seq<Task>, p: real)
    ensures WithProfit(HighGroup(s), p) == if p >= HighProfit then WithProfit(s, p) else []
  {
    if |s| > 0 {
      HighGroupWithProfit(s[1..], p);
      var h := if IsHigh(s[0]) then [s[0]] else [];
      WithProfitConcat(h, HighGroup(s[1..]), p);
    }
  }

  lemma {:induction false} LowGroupWithProfit(s: seq<Task>, p: real)
    ensures WithProfit(LowGroup(s), p) == if p >= HighProfit then [] else WithProfit(s, p)
  {
    if |s| > 0 {
      LowGroupWithProfit(s[1..], p);
      var l := if IsHigh(s[0]) then [] else [s[0]];
      WithProfitConcat(l, LowGroup(s[1..]), p);
    }
  }

  /**
   Ranks tasks: the high-profit group (profit at least 0.7) before the low-profit group,
   each stably sorted by descending profit. The result is a permutation of the input.
   */
  function SortTasksByProfit(tasks: seq<Task>): (r: seq<Task>)
    ensures multiset(r) == multiset(tasks)
    ensures forall i, j :: 0 <= i < j < |r| && IsHigh(r[j]) ==> IsHigh(r[i])
    ensures forall i, j :: 0 <= i < j < |r| && IsHigh(r[i]) == IsHigh(r[j]) ==> Profit(r[i]) >= Profit(r[j])
    ensures forall p :: WithProfit(r, p) == WithProfit(tasks, p)
  {
    var high := SortByProfit(HighGroup(tasks));
    var low := SortByProfit(LowGroup(tasks));
    RankingProperties(tasks, high, low);
    high + low
  }

  lemma RankingProperties(tasks: seq<Task>, high: seq<Task>, low: seq<Task>)
    requires high == SortByProfit(HighGroup(tasks)) && low == SortByProfit(LowGroup(tasks))
    ensures multiset(high + low) == multiset(tasks)
    ensures forall i, j :: 0 <= i < j < |high + low| && IsHigh((high + low)[j]) ==> IsHigh((high + low)[i])
    ensures forall i, j :: 0 <= i < j < |high + low| && IsHigh((high + low)[i]) == IsHigh((high + low)[j]) ==>
      Profit((high + low)[i]) >= Profit((high + low)[j])
    ensures forall p :: WithProfit(high + low, p) == WithProfit(tasks, p)
  {
    GroupsSplitInput(tasks);
    SortedGroupsMembers(tasks, high, low);
    GroupsInOrder(high, low);
    forall p
      ensures WithProfit(high + low, p) == WithProfit(tasks, p)
    {
      RankingStable(tasks, high, low, p);
    }
  }

  lemma SortedGroupsMembers(tasks: seq<Task>, high: seq<Task>, low: seq<Task>)
    requires high == SortByProfit(HighGroup(tasks)) && low == SortByProfit(LowGroup(tasks))
    ensures forall i :: 0 <= i < |high| ==> IsHigh(high[i])
    ensures forall i :: 0 <= i < |low| ==> !IsHigh(low[i])
    ensures DescendingProfit(high) && DescendingProfit(low)
  {
    forall i | 0 <= i < |high|
      ensures IsHigh(high[i])
    {
      assert high[i] in multiset(HighGroup(tasks));
    }
    forall i | 0 <= i < |low|
      ensures !IsHigh(low[i])
    {
      assert low[i] in multiset(LowGroup(tasks));
    }
  }

  lemma GroupsInOrder(high: seq<Task>, low: seq<Task>)
    requires forall i :: 0 <= i < |high| ==> IsHigh(high[i])
    requires forall i :: 0 <= i < |low| ==> !IsHigh(low[i])
    requires DescendingProfit(high) && DescendingProfit(low)
    ensures forall i, j :: 0 <= i < j < |high + low| && IsHigh((high + low)[j]) ==> IsHigh((high + low)[i])
    ensures forall i, j :: 0 <= i < j < |high + low| && IsHigh((high + low)[i]) == IsHigh((high + low)[j]) ==>
      Profit((high + low)[i]) >= Profit((high + low)[j])
  {
    var r := high + low;
    forall i, j | 0 <= i < j < |r| && IsHigh(r[j])
      ensures IsHigh(r[i])
    {
      if j < |high| {
        assert r[i] == high[i];
      }
    }
    forall i, j | 0 <= i < j < |r| && IsHigh(r[i]) == IsHigh(r[j])
      ensures Profit(r[i]) >= Profit(r[j])
    {
      if j < |high| {
        assert r[i] == high[i] && r[j] == high[j];
      } else if i >= |high| {
        assert r[i] == low[i - |high|] && r[j] == low[j - |high|];
      }
    }
  }

  lemma RankingStable(tasks: seq<Task>, high: seq<Task>, low: seq<Task>, p: real)
    requires high == SortByProfit(HighGroup(tasks)) && low == SortByProfit(LowGroup(tasks))
    ensures WithProfit(high + low, p) == WithProfit(tasks, p)
  {
    WithProfitConcat(high, low, p);
    SortKeepsEqualProfitOrder(HighGroup(tasks), p);
    SortKeepsEqualProfitOrder(LowGroup(tasks), p);
    HighGroupWithProfit(tasks, p);
    LowGroupWithProfit(tasks, p);
  }

  /**
   For a task created with its tier weight, the profit group is decided by the garbage ratio
   alone: profit reaches 0.7 exactly when the ratio does. The tier below 0.5 is the ratio
   below 0.3.
   */
  lemma HighProfitIffHighRatio(t: Task)
    requires t.priorityWeight == PriorityWeight(t.garbageRatio)
    ensures IsHigh(t) <==> t.garbageRatio >= 0.7
    ensures t.priorityWeight < PreemptibleWeight <==> t.garbageRatio < 0.3
    ensures 0.0 <= t.garbageRatio <= 1.0 ==> 0.0 <= Profit(t) <= t.priorityWeight
  {
    var g := t.garbageRatio;
    if g >= 0.7 {
      assert Profit(t) == g;
    } else if g >= 0.3 {
      assert Profit(t) == 0.7 * g;
    } else {
      assert Profit(t) == 0.4 * g;
    }
  }

  // ---------------------------------------------------------------------------
  // Node selection

  /** Combined utilisation the scheduler balances. */
  function Load(n: NodeResource): real
  {
    n.fpga + n.bandwidth
  }

  /** Node `i` passes the gate, has the least load among passing nodes, and no earlier passing node ties it. */
  predicate IsFirstLeastLoaded(nodes: seq<NodeResource>, i: nat)
  {
    && i < |nodes|
    && IsAvailable(nodes[i])
    && (forall j :: 0 <= j < |nodes| && IsAvailable(nodes[j]) ==> Load(nodes[i]) <= Load(nodes[j]))
    && (forall j :: 0 <= j < i && IsAvailable(nodes[j]) ==> Load(nodes[i]) < Load(nodes[j]))
  }

  /** The node a stable sort of the available nodes by load puts first, if any node is available. */
  function LeastLoaded(nodes: seq<NodeResource>): (r: Option<nat>)
    ensures r.None? <==> forall i :: 0 <= i < |nodes| ==> !IsAvailable(nodes[i])
    ensures r.Some? ==> IsFirstLeastLoaded(nodes, r.value)
  {
    if |nodes| == 0 then None
    else
      var last := |nodes| - 1;
      var rest := LeastLoaded(nodes[..last]);
      if !IsAvailable(nodes[last]) then
        rest
      else if rest.None? || Load(nodes[last]) < Load(nodes[rest.value]) then
        Some(last)
      else
        rest
  }

  /** The simulated load growth of placing one task on a node. */
  function Loaded(n: NodeResource): (n': NodeResource)
    ensures n'.id == n.id
    ensures n'.fpga == n.fpga + FpgaPerTask && n'.bandwidth == n.bandwidth + BandwidthPerTask
    ensures n'.remainingClb == n.remainingClb - ClbPerTask
    ensures n'.competition * 200.0 == Load(n')
  {
    var fpga := n.fpga + FpgaPerTask;
    var bandwidth := n.bandwidth + BandwidthPerTask;
    n.(fpga := fpga, bandwidth := bandwidth, remainingClb := n.remainingClb - ClbPerTask,
       competition := (fpga + bandwidth) / 200.0)
  }

  /** A node that passed the gate has competition within [0, 0.935] after the placement. */
  lemma PlacedCompetitionBounded(n: NodeResource)
    requires IsAvailable(n) && n.fpga >= 0.0 && n.bandwidth >= 0.0
    ensures 0.0 <= Loaded(n).competition <= 0.935
    ensures Loaded(n).fpga <= 95.0 && Loaded(n).bandwidth <= 92.0
  {
  }

  /** `k` placements on the same node. */
  function LoadedTimes(n: NodeResource, k: nat): (n': NodeResource)
    ensures n'.id == n.id
    ensures n'.fpga == n.fpga + FpgaPerTask * (k as real)
    ensures n'.bandwidth == n.bandwidth + BandwidthPerTask * (k as real)
    ensures n'.remainingClb == n.remainingClb - ClbPerTask * k
  {
    if k == 0 then n else Loaded(LoadedTimes(n, k - 1))
  }

  /** A freshly registered node passes the gate after exactly its first six placements. */
  lemma FreshNodeGate(id: NodeId, k: nat)
    ensures IsAvailable(LoadedTimes(FreshNode(id), k)) <==> k <= 6
  {
  }

  /** The quota of a node, the default when it was never adjusted. */
  function CurrentQuota(quota: map<NodeId, Quota>, n: NodeId): Quota
  {
    if n in quota then quota[n] else DefaultQuota
  }

  /** `int(x)`: truncation toward zero. */
  function Trunc(x: real): (r: int)
    ensures x >= 0.0 ==> r >= 0 && r as real <= x < r as real + 1.0
    ensures x < 0.0 ==> r <= 0 && r as real - 1.0 < x <= r as real
  {
    if x >= 0.0 then x.Floor else -((-x).Floor)
  }

  /** The feedback rule: shrink the low quota by 20% under high competition, grow it by 20% under low. */
  function NewLowQuota(low: int, competition: real): (r: int)
    ensures LowCompetition <= competition <= HighCompetition ==> r == low
    ensures competition > HighCompetition && low >= 0 ==>
      0 <= r <= low && r as real <= low as real * 0.8 < r as real + 1.0
    ensures competition < LowCompetition && low >= 0 ==>
      low <= r && r as real <= low as real * 1.2 < r as real + 1.0
  {
    if competition > HighCompetition then Trunc(low as real * 0.8)
    else if competition < LowCompetition then Trunc(low as real * 1.2)
    else low
  }

  /**
   Adjusts the low-priority quota of `n` to its competition. Reading the quota stores the
   default pair for a node seen for the first time, so `n` always has an entry afterwards.
   */
  function AdjustQuota(quota: map<NodeId, Quota>, n: NodeId, competition: real): (q: map<NodeId, Quota>)
    ensures q.Keys == quota.Keys + {n}
    ensures forall m :: m in quota && m != n ==> q[m] == quota[m]
    ensures q[n].high == CurrentQuota(quota, n).high
    ensures competition > HighCompetition ==> q[n].low as real <= CurrentQuota(quota, n).low as real * 0.8 < q[n].low as real + 1.0 || CurrentQuota(quota, n).low < 0
    ensures competition < LowCompetition && CurrentQuota(quota, n).low >= 0 ==>
      q[n].low as real <= CurrentQuota(quota, n).low as real * 1.2 < q[n].low as real + 1.0
    ensures LowCompetition <= competition <= HighCompetition ==> q[n] == CurrentQuota(quota, n)
  {
    var current := CurrentQuota(quota, n);
    quota[n := Quota(current.high, NewLowQuota(current.low, competition))]
  }

  /** The feedback never makes a non-negative low quota negative, and moves it in the intended direction. */
  lemma QuotaStaysNonNegative(low: int, competition: real)
    requires low >= 0
    ensures NewLowQuota(low, competition) >= 0
    ensures competition > HighCompetition ==> NewLowQuota(low, competition) <= low
    ensures competition > HighCompetition && low > 0 ==> NewLowQuota(low, competition) < low
    ensures competition < LowCompetition ==> NewLowQuota(low, competition) >= low
  {
  }

  /**
   Alternating high and low competition does not settle into a band: a shrink followed by a
   grow loses at least one unit of a positive quota, and a grow cannot lift a quota of 4 or less.
   */
  lemma QuotaDriftsDown(low: int)
    requires low >= 0
    ensures low > 0 ==> NewLowQuota(NewLowQuota(low, 1.0), 0.0) < low
    ensures low <= 4 ==> NewLowQuota(low, 0.0) == low
  {
    var shrunk := NewLowQuota(low, 1.0);
    assert shrunk as real <= low as real * 0.8;
    var grown := NewLowQuota(shrunk, 0.0);
    assert grown as real <= shrunk as real * 1.2;
    if low <= 4 {
      assert low as real <= low as real * 1.2 < low as real + 1.0;
    }
  }

  // ---------------------------------------------------------------------------
  // Preemption

  /** A listed task that preemption may evict. */
  predicate IsPreemptible(tasks: map<TaskId, Task>, id: TaskId)
  {
    id in tasks && tasks[id].priorityWeight < PreemptibleWeight
  }

  /** Position of the first preemptible task of a node's list. */
  function FirstPreemptible(tasks: map<TaskId, Task>, s: seq<TaskId>): (r: Option<nat>)
    ensures r.None? <==> forall i :: 0 <= i < |s| ==> !IsPreemptible(tasks, s[i])
    ensures r.Some? ==> r.value < |s| && IsPreemptible(tasks, s[r.value])
    ensures r.Some? ==> forall i :: 0 <= i < r.value ==> !IsPreemptible(tasks, s[i])
  {
    if |s| == 0 then None
    else if IsPreemptible(tasks, s[0]) then Some(0)
    else
      match FirstPreemptible(tasks, s[1..])
      case None => None
      case Some(i) => Some(i + 1)
  }

  /** Position, in the node order, of the first node whose list holds a preemptible task. */
  function FirstVictimNode(tasks: map<TaskId, Task>, nodes: NodeLists, k: nat): (r: Option<nat>)
    requires k <= |nodes.order|
    ensures r.None? <==> forall i :: k <= i < |nodes.order| ==> FirstPreemptible(tasks, nodes.Get(nodes.order[i])).None?
    ensures r.Some? ==> k <= r.value < |nodes.order| && FirstPreemptible(tasks, nodes.Get(nodes.order[r.value])).Some?
    ensures r.Some? ==> forall i :: k <= i < r.value ==> FirstPreemptible(tasks, nodes.Get(nodes.order[i])).None?
    decreases |nodes.order| - k
  {
    if k == |nodes.order| then None
    else if FirstPreemptible(tasks, nodes.Get(nodes.order[k])).Some? then Some(k)
    else FirstVictimNode(tasks, nodes, k + 1)
  }

  /**
   `r'` is `reg` after evicting the first preemptible task of node `n`, where `n` is the
   first node in order whose list holds one: that task is INTERRUPTED and leaves `n`'s list.
   */
  predicate EvictsFirstVictim(reg: Registry, n: NodeId, r': Registry)
  {
    var list := reg.nodes.Get(n);
    exists k, v ::
      && 0 <= k < |reg.nodes.order| && reg.nodes.order[k] == n
      && (forall i :: 0 <= i < k ==> forall id :: id in reg.nodes.Get(reg.nodes.order[i]) ==> !IsPreemptible(reg.tasks, id))
      && 0 <= v < |list| && IsPreemptible(reg.tasks, list[v])
      && (forall i :: 0 <= i < v ==> !IsPreemptible(reg.tasks, list[i]))
      && r'.tasks == reg.tasks[list[v] := reg.tasks[list[v]].(status := Interrupted)]
      && r'.nodes.Get(n) == list[..v] + list[v + 1..]
  }

  /**
   Scans the nodes in order and evicts the first task with priority weight below 0.5: the
   task becomes INTERRUPTED (no checkpoint is taken) and leaves its node's list, and that node
   is returned. The shard map is not touched. Returns no node when nothing is preemptible.
   */
  function Preempt(reg: Registry): (res: (Option<NodeId>, Registry))
    ensures res.0.None? <==> forall i :: 0 <= i < |reg.nodes.order| ==>
      forall id :: id in reg.nodes.Get(reg.nodes.order[i]) ==> !IsPreemptible(reg.tasks, id)
    ensures res.0.None? ==> res.1 == reg
    ensures res.0.Some? ==> EvictsFirstVictim(reg, res.0.value, res.1)
    ensures res.0.Some? ==> forall m :: m != res.0.value ==> res.1.nodes.Get(m) == reg.nodes.Get(m)
    ensures res.1.nodes.order == reg.nodes.order
    ensures res.1 == reg.(tasks := res.1.tasks, nodes := res.1.nodes)
  {
    match FirstVictimNode(reg.tasks, reg.nodes, 0)
    case None =>
      NoPreemptibleAnywhere(reg);
      (None, reg)
    case Some(k) =>
      var n := reg.nodes.order[k];
      var list := reg.nodes.Get(n);
      var v := FirstPreemptible(reg.tasks, list).value;
      var victim := list[v];
      VictimIsFirstOccurrence(reg.tasks, list, v);
      NoPreemptibleBefore(reg, k);
      var nodes := reg.nodes.Remove(n, victim);
      var tasks := reg.tasks[victim := reg.tasks[victim].(status := Interrupted)];
      FirstVictimIsEvicted(reg, k, v, reg.(tasks := tasks, nodes := nodes));
      (Some(n), reg.(tasks := tasks, nodes := nodes))
  }

  /** The node and position `Preempt` picks satisfy `EvictsFirstVictim`. */
  lemma FirstVictimIsEvicted(reg: Registry, k: nat, v: nat, r': Registry)
    requires k < |reg.nodes.order|
    requires forall i :: 0 <= i < k ==> FirstPreemptible(reg.tasks, reg.nodes.Get(reg.nodes.order[i])).None?
    requires FirstPreemptible(reg.tasks, reg.nodes.Get(reg.nodes.order[k])) == Some(v)
    requires var list := reg.nodes.Get(reg.nodes.order[k]);
      && r'.tasks == reg.tasks[list[v] := reg.tasks[list[v]].(status := Interrupted)]
      && r'.nodes.Get(reg.nodes.order[k]) == RemoveFirst(list, list[v])
    ensures EvictsFirstVictim(reg, reg.nodes.order[k], r')
  {
    var list := reg.nodes.Get(reg.nodes.order[k]);
    VictimIsFirstOccurrence(reg.tasks, list, v);
    NoPreemptibleBefore(reg, k);
  }

  lemma NoPreemptibleAnywhere(reg: Registry)
    requires FirstVictimNode(reg.tasks, reg.nodes, 0).None?
    ensures forall i :: 0 <= i < |reg.nodes.order| ==>
      forall id :: id in reg.nodes.Get(reg.nodes.order[i]) ==> !IsPreemptible(reg.tasks, id)
  {
    forall i, id | 0 <= i < |reg.nodes.order| && id in reg.nodes.Get(reg.nodes.order[i])
      ensures !IsPreemptible(reg.tasks, id)
    {
      var list := reg.nodes.Get(reg.nodes.order[i]);
      assert FirstPreemptible(reg.tasks, list).None?;
      var j :| 0 <= j < |list| && list[j] == id;
    }
  }

  lemma NoPreemptibleBefore(reg: Registry, k: nat)
    requires k <= |reg.nodes.order|
    requires forall i :: 0 <= i < k ==> FirstPreemptible(reg.tasks, reg.nodes.Get(reg.nodes.order[i])).None?
    ensures forall i :: 0 <= i < k ==>
      forall id :: id in reg.nodes.Get(reg.nodes.order[i]) ==> !IsPreemptible(reg.tasks, id)
  {
    forall i, id | 0 <= i < k && id in reg.nodes.Get(reg.nodes.order[i])
      ensures !IsPreemptible(reg.tasks, id)
    {
      var list := reg.nodes.Get(reg.nodes.order[i]);
      var j :| 0 <= j < |list| && list[j] == id;
    }
  }

  /** `list.remove` of the victim removes it at its own position: no earlier entry equals it. */
  lemma VictimIsFirstOccurrence(tasks: map<TaskId, Task>, list: seq<TaskId>, v: nat)
    requires v < |list| && IsPreemptible(tasks, list[v])
    requires forall i :: 0 <= i < v ==> !IsPreemptible(tasks, list[i])
    ensures list[v] in list && RemoveFirst(list, list[v]) == list[..v] + list[v + 1..]
  {
  }

  // ---------------------------------------------------------------------------
  // Placement

  /** The outcome of a placement: the chosen node, the scheduler and the registry afterwards. */
  datatype Placement = Placement(node: Option<NodeId>, sched: Scheduler, reg: Registry)

  /**
   Places a task. When some node passes the gate, the first least-loaded such node is chosen,
   its simulated load grows by one task, its competition is recomputed and its quota adjusted;
   nothing else changes. When no node passes, the outcome is that of preemption.
   */
  function SelectBestNode(m: Scheduler, reg: Registry): (p: Placement)
    ensures forall i: nat :: IsFirstLeastLoaded(m.nodes, i) ==>
      && p.node == Some(m.nodes[i].id)
      && p.sched.nodes == m.nodes[i := Loaded(m.nodes[i])]
      && p.sched.quota == AdjustQuota(m.quota, m.nodes[i].id, Loaded(m.nodes[i]).competition)
      && p.reg == reg
    ensures (forall i :: 0 <= i < |m.nodes| ==> !IsAvailable(m.nodes[i])) ==>
      p.sched == m && (p.node, p.reg) == Preempt(reg)
  {
    match LeastLoaded(m.nodes)
    case Some(i) =>
      FirstLeastLoadedIsUnique(m.nodes, i);
      var n := Loaded(m.nodes[i]);
      Placement(Some(n.id), Scheduler(m.nodes[i := n], AdjustQuota(m.quota, n.id, n.competition)), reg)
    case None =>
      assert forall i: nat :: !IsFirstLeastLoaded(m.nodes, i);
      var (node, reg') := Preempt(reg);
      Placement(node, m, reg')
  }

  /** At most one node is the first least-loaded one. */
  lemma FirstLeastLoadedIsUnique(nodes: seq<NodeResource>, i: nat)
    requires IsFirstLeastLoaded(nodes, i)
    ensures forall j :: IsFirstLeastLoaded(nodes, j) ==> j == i
  {
  }

  /** Whenever some node passes the gate, a first least-loaded node exists. */
  lemma FirstLeastLoadedExists(nodes: seq<NodeResource>)
    requires exists i :: 0 <= i < |nodes| && IsAvailable(nodes[i])
    ensures exists i :: IsFirstLeastLoaded(nodes, i)
  {
    assert IsFirstLeastLoaded(nodes, LeastLoaded(nodes).value);
  }

  /**
   Whenever some node passes the gate, a placement returns a node, and that node is a
   registered one that passed both hard gates at the time of the check.
   */
  lemma SelectedNodePassedGate(m: Scheduler, reg: Registry)
    requires exists j :: 0 <= j < |m.nodes| && IsAvailable(m.nodes[j])
    ensures exists i ::
      && 0 <= i < |m.nodes| && IsAvailable(m.nodes[i])
      && SelectBestNode(m, reg).node == Some(m.nodes[i].id)
  {
    FirstLeastLoadedExists(m.nodes);
    var k: nat :| IsFirstLeastLoaded(m.nodes, k);
    ChosenIsFirstLeastLoaded(m, reg, k);
  }

  lemma ChosenIsFirstLeastLoaded(m: Scheduler, reg: Registry, k: nat)
    requires IsFirstLeastLoaded(m.nodes, k)
    ensures SelectBestNode(m, reg).node == Some(m.nodes[k].id)
  {
  }

  /**
   When no node passes the gate the placement still returns a node: the one preemption freed,
   which is itself over a ceiling. One node at 95% FPGA holding a task of weight 0.4 shows it.
   */
  lemma PlacementCanReturnUnavailableNode()
    ensures exists m: Scheduler, reg: Registry, i ::
      && 0 <= i < |m.nodes|
      && SelectBestNode(m, reg).node == Some(m.nodes[i].id)
      && !IsAvailable(m.nodes[i])
  {
    var blob := Blob("b", 0, 0, true, 0, 0.0);
    var task := Task(0, 0, "A", "B", blob, Running, None, 0.4, 0.0);
    var m := Scheduler([NodeResource("A", 95.0, 50.0, InitialClb, 0.0)], map[]);
    var reg := Registry(map[], map[], map[0 := task], NodeLists(["A"], map["A" := [0]]), [], 1);
    assert IsPreemptible(reg.tasks, 0);
    assert FirstPreemptible(reg.tasks, reg.nodes.Get("A")) == Some(0);
    assert FirstVictimNode(reg.tasks, reg.nodes, 0) == Some(0);
    assert SelectBestNode(m, reg).node == Some(m.nodes[0].id);
  }

  // ---------------------------------------------------------------------------
  // Hardware virtualisation

  /** Logical-to-physical logic-unit multiplier for a load level. */
  function VirtualizationRatio(level: string): (ratio: nat)
    ensures ratio == 6 <==> level == "HIGH"
    ensures ratio == 4 <==> level == "LOW"
    ensures ratio == 5 <==> level != "HIGH" && level != "LOW"
  {
    if level == "HIGH" then 6
    else if level == "LOW" then 4
    else 5
  }

  /** Position of the node with the given id, if registered. */
  function NodeIndex(nodes: seq<NodeResource>, id: NodeId): (r: Option<nat>)
    ensures r.None? <==> forall i :: 0 <= i < |nodes| ==> nodes[i].id != id
    ensures r.Some? ==> r.value < |nodes| && nodes[r.value].id == id
  {
    if |nodes| == 0 then None
    else if nodes[0].id == id then Some(0)
    else
      match NodeIndex(nodes[1..], id)
      case None => None
      case Some(i) => Some(i + 1)
  }

  /**
   The advisory virtual capacity of a node: its used logic units times the ratio of the
   load level. Nothing is changed; an unknown node is a failed lookup.
   */
  function VirtualClb(m: Scheduler, id: NodeId, level: string): (r: Option<int>)
    ensures r.None? <==> forall i :: 0 <= i < |m.nodes| ==> m.nodes[i].id != id
    ensures r.Some? ==> exists i ::
      && 0 <= i < |m.nodes| && m.nodes[i].id == id
      && r.value == (InitialClb - m.nodes[i].remainingClb) * VirtualizationRatio(level)
    ensures DistinctIds(m.nodes) ==> forall i ::
      0 <= i < |m.nodes| && m.nodes[i].id == id ==>
        r == Some((InitialClb - m.nodes[i].remainingClb) * VirtualizationRatio(level))
  {
    match NodeIndex(m.nodes, id)
    case None => None
    case Some(i) => Some((InitialClb - m.nodes[i].remainingClb) * VirtualizationRatio(level))
  }

  /** After `k` placements on a fresh node its virtual capacity is `20 * k` times the ratio. */
  lemma VirtualClbAfterPlacements(id: NodeId, k: nat, level: string)
    ensures var m := Scheduler([LoadedTimes(FreshNode(id), k)], map[]);
      VirtualClb(m, id, level) == Some(ClbPerTask * k * VirtualizationRatio(level))
  {
  }
}
