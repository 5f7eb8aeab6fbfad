/**
 The metadata-validation policy engine: a 12-state, 3-action Markov decision process solved
 by in-place value iteration, the policy lookup for one metadata record, and the batched
 validation that sorts records by key.
 */
module MdpValidation {
  import opened Common

  const StateCount: nat := 12
  const Discount: real := 0.9
  const MaxIterations: nat := 50
  const ConvergenceThreshold: real := 0.0001
  /** Delay recorded for a record validated in a batch. */
  const BatchDelay: real := 0.4

  /** An MDP state as the tuple (meta type value, validated flag, delay bucket). */
  datatype State = State(metaType: int, validated: int, bucket: int)

  /** The meta types in their declaration order. */
  const MetaTypes: seq<MetaType> := [Normal, Gc]

  /**
   The state space in enumeration order: meta type outermost, then the validated flag, then
   the delay bucket.
   */
  function States(): (s: seq<State>)
    ensures |s| == StateCount
  {
    [State(1, 0, 0), State(1, 0, 1), State(1, 0, 2), State(1, 1, 0), State(1, 1, 1), State(1, 1, 2),
     State(2, 0, 0), State(2, 0, 1), State(2, 0, 2), State(2, 1, 0), State(2, 1, 1), State(2, 1, 2)]
  }

  predicate ValidState(s: State)
  {
    (s.metaType == 1 || s.metaType == 2) && 0 <= s.validated <= 1 && 0 <= s.bucket <= 2
  }

  /** The state-index dictionary: the position of a state in the enumeration, if it is one. */
  function StateIndex(s: State): (r: Option<nat>)
    ensures r.Some? <==> ValidState(s)
    ensures r.Some? ==> r.value < StateCount
  {
    if ValidState(s) then Some((s.metaType - 1) * 6 + s.validated * 3 + s.bucket) else None
  }

  lemma StateOfIndex(j: nat)
    requires j < StateCount
    ensures StateIndex(States()[j]) == Some(j)
  {
    var s := States();
    if j == 0 { assert s[0] == State(1, 0, 0); }
    else if j == 1 { assert s[1] == State(1, 0, 1); }
    else if j == 2 { assert s[2] == State(1, 0, 2); }
    else if j == 3 { assert s[3] == State(1, 1, 0); }
    else if j == 4 { assert s[4] == State(1, 1, 1); }
    else if j == 5 { assert s[5] == State(1, 1, 2); }
    else if j == 6 { assert s[6] == State(2, 0, 0); }
    else if j == 7 { assert s[7] == State(2, 0, 1); }
    else if j == 8 { assert s[8] == State(2, 0, 2); }
    else if j == 9 { assert s[9] == State(2, 1, 0); }
    else if j == 10 { assert s[10] == State(2, 1, 1); }
    else { assert s[11] == State(2, 1, 2); }
  }

  lemma IndexOfState(s: State)
    requires ValidState(s)
    ensures States()[StateIndex(s).value] == s
  {
    if s.metaType == 1 {
      if s.validated == 0 {} else {}
    } else {
      if s.validated == 0 {} else {}
    }
  }

  /** The index dictionary is the inverse of the enumeration, in both directions. */
  lemma StateIndexInvertsEnumeration(s: State, j: nat)
    ensures StateIndex(s) == Some(j) <==> j < StateCount && States()[j] == s
  {
    if j < StateCount && States()[j] == s {
      StateOfIndex(j);
    }
    if StateIndex(s) == Some(j) {
      IndexOfState(s);
    }
  }

  datatype Action = WriteBefore | ReadTime | MergeTime

  /** The actions in index order 0, 1, 2. */
  const Actions: seq<Action> := [WriteBefore, ReadTime, MergeTime]

  /** Position of an action in the index order. */
  function ActionIndex(a: Action): (k: nat)
    ensures k < |Actions| && Actions[k] == a
  {
    match a
    case WriteBefore => 0
    case ReadTime => 1
    case MergeTime => 2
  }

  function ActionName(a: Action): string
  {
    match a
    case WriteBefore => "Write-Before"
    case ReadTime => "Read-Time"
    case MergeTime => "Merge-Time"
  }

  /** Validation delay cost of an action, in milliseconds. */
  function DelayCost(a: Action): real
  {
    match a
    case WriteBefore => 4.0
    case ReadTime => 1.0
    case MergeTime => 2.0
  }

  /** Probability that an action lets a consistency break through. */
  function ErrorProb(a: Action): real
  {
    match a
    case WriteBefore => 0.0
    case ReadTime => 0.1
    case MergeTime => 0.05
  }

  /**
   The deterministic successor: validating marks the record validated, keeps its type and
   moves the delay bucket up (write-before, capped at 2), nowhere (read-time) or down
   (merge-time, floored at 0).
   */
  function Next(s: State, a: Action): (t: State)
    ensures t.metaType == s.metaType && t.validated == 1
    ensures a == WriteBefore ==> t.bucket == if s.bucket + 1 < 2 then s.bucket + 1 else 2
    ensures a == ReadTime ==> t.bucket == s.bucket
    ensures a == MergeTime ==> t.bucket == if s.bucket - 1 > 0 then s.bucket - 1 else 0
    ensures ValidState(s) ==> ValidState(t)
  {
    var bucket := match a
      case WriteBefore => if s.bucket + 1 < 2 then s.bucket + 1 else 2
      case ReadTime => s.bucket
      case MergeTime => if s.bucket - 1 > 0 then s.bucket - 1 else 0;
    State(s.metaType, 1, bucket)
  }

  /** Index of the successor of state `i` under `a`. */
  function Successor(i: nat, a: Action): (j: nat)
    requires i < StateCount
    ensures j < StateCount
  {
    StateIndex(Next(States()[i], a)).value
  }

  /** The transition table P(j | i, a). */
  function Prob(i: nat, a: Action, j: nat): (p: real)
    requires i < StateCount && j < StateCount
    ensures p == 1.0 || p == 0.0
    ensures p == 1.0 <==> j == Successor(i, a)
  {
    StateIndexInvertsEnumeration(Next(States()[i], a), j);
    if States()[j] == Next(States()[i], a) then 1.0 else 0.0
  }

  /** Transitions are deterministic: probability 1 on the successor and 0 elsewhere. */
  lemma TransitionIsDeterministic(i: nat, a: Action, j: nat)
    requires i < StateCount && j < StateCount
    ensures Prob(i, a, j) == if j == Successor(i, a) then 1.0 else 0.0
  {
    StateIndexInvertsEnumeration(Next(States()[i], a), j);
  }

  /** The reward R(i, a) = -(0.6 * delay + 0.4 * error). */
  function Reward(i: nat, a: Action): (r: real)
    requires i < StateCount
    ensures r < 0.0
    ensures a == WriteBefore ==> r == -2.4
    ensures a == ReadTime ==> r == -0.64
    ensures a == MergeTime ==> r == -1.22
  {
    -(0.6 * DelayCost(a) + 0.4 * ErrorProb(a))
  }

  /** The reward depends on the action only. */
  lemma RewardsByAction(i: nat)
    requires i < StateCount
    ensures Reward(i, WriteBefore) == -2.4
    ensures Reward(i, ReadTime) == -0.64
    ensures Reward(i, MergeTime) == -1.22
  {
  }

  /** Sum over the first `n` successor states of P(j | i, a) * (R(i, a) + discount * V[j]). */
  function PartialExpectation(i: nat, a: Action, v: seq<real>, n: nat): real
    requires i < StateCount && |v| == StateCount && n <= StateCount
  {
    if n == 0 then 0.0
    else PartialExpectation(i, a, v, n - 1) + Prob(i, a, n - 1) * (Reward(i, a) + Discount * v[n - 1])
  }

  /** The expected value of taking `a` in state `i` under the value table `v`. */
  function Expectation(i: nat, a: Action, v: seq<real>): real
    requires i < StateCount && |v| == StateCount
  {
    PartialExpectation(i, a, v, |v|)
  }

  lemma {:induction false} PartialExpectationIsSuccessorTerm(i: nat, a: Action, v: seq<real>, n: nat)
    requires i < StateCount && |v| == StateCount && n <= StateCount
    ensures PartialExpectation(i, a, v, n) ==
      if Successor(i, a) < n then Reward(i, a) + Discount * v[Successor(i, a)] else 0.0
  {
    if n > 0 {
      PartialExpectationIsSuccessorTerm(i, a, v, n - 1);
      TransitionIsDeterministic(i, a, n - 1);
    }
  }

  /** The expectation over the whole table collapses to the successor's term. */
  lemma ExpectationIsSuccessorValue(i: nat, a: Action, v: seq<real>)
    requires i < StateCount && |v| == StateCount
    ensures Expectation(i, a, v) == Reward(i, a) + Discount * v[Successor(i, a)]
  {
    PartialExpectationIsSuccessorTerm(i, a, v, StateCount);
  }

  /** `np.argmax`: the first position of the maximum. */
  function ArgMax(qs: seq<real>): (k: nat)
    requires |qs| > 0
    ensures k < |qs|
    ensures forall j :: 0 <= j < |qs| ==> qs[j] <= qs[k]
    ensures forall j :: 0 <= j < k ==> qs[j] < qs[k]
  {
    if |qs| == 1 then 0
    else
      var k := ArgMax(qs[..|qs| - 1]);
      if qs[|qs| - 1] > qs[k] then |qs| - 1 else k
  }

  /** The solver's tables. */
  datatype Engine = Engine(value: seq<real>, policy: seq<Action>)

  predicate WellFormed(e: Engine)
  {
    |e.value| == StateCount && |e.policy| == StateCount
  }

  /** Before solving: every value 0 and every policy entry action 0 (write-before). */
  function NewEngine(): (e: Engine)
    ensures WellFormed(e)
    ensures forall i :: 0 <= i < StateCount ==> e.value[i] == 0.0 && e.policy[i] == WriteBefore
  {
    Engine(seq(StateCount, _ => 0.0), seq(StateCount, _ => WriteBefore))
  }

  /** The three action values of state `i`, in action order. */
  function ActionValues(i: nat, v: seq<real>): (qs: seq<real>)
    requires i < StateCount && |v| == StateCount
    ensures |qs| == |Actions|
    ensures forall k :: 0 <= k < |Actions| ==> qs[k] == Expectation(i, Actions[k], v)
  {
    [Expectation(i, WriteBefore, v), Expectation(i, ReadTime, v), Expectation(i, MergeTime, v)]
  }

  /**
   Under the value table `v`, `val` is the best action value of state `i` and `a` is the
   first action, in action order, that attains it.
   */
  predicate Greedy(i: nat, v: seq<real>, val: real, a: Action)
    requires i < StateCount && |v| == StateCount
  {
    && (forall k :: 0 <= k < |Actions| ==> Expectation(i, Actions[k], v) <= val)
    && Expectation(i, a, v) == val
    && (forall k :: 0 <= k < ActionIndex(a) ==> Expectation(i, Actions[k], v) < val)
  }

  /**
   One Bellman update of state `i`, in place: the value becomes the best action value and
   the policy the first action attaining it. No other state changes.
   */
  function Bellman(e: Engine, i: nat): (e': Engine)
    requires WellFormed(e) && i < StateCount
    ensures WellFormed(e')
    ensures Greedy(i, e.value, e'.value[i], e'.policy[i])
    ensures forall j :: 0 <= j < StateCount && j != i ==> e'.value[j] == e.value[j] && e'.policy[j] == e.policy[j]
  {
    var qs := ActionValues(i, e.value);
    var k := ArgMax(qs);
    assert ActionIndex(Actions[k]) == k;
    Engine(e.value[i := qs[k]], e.policy[i := Actions[k]])
  }

  function Abs(x: real): real
  {
    if x < 0.0 then -x else x
  }

  function Max(x: real, y: real): real
  {
    if x < y then y else x
  }

  /**
   The first `n` steps of a sweep: states `0 .. n-1` updated in order, each reading the
   values already updated in this sweep. Also returns the largest change of a value so far.
   */
  function Sweep(e: Engine, n: nat): (r: (Engine, real))
    requires WellFormed(e) && n <= StateCount
    ensures WellFormed(r.0)
    ensures r.1 >= 0.0
    ensures forall j :: n <= j < StateCount ==> r.0.value[j] == e.value[j] && r.0.policy[j] == e.policy[j]
    ensures forall j :: 0 <= j < n ==> Abs(r.0.value[j] - e.value[j]) <= r.1
    ensures n > 0 ==> exists j :: 0 <= j < n && r.1 == Abs(r.0.value[j] - e.value[j])
  {
    if n == 0 then (e, 0.0)
    else
      var (e1, diff) := Sweep(e, n - 1);
      var e2 := Bellman(e1, n - 1);
      assert e1.value[n - 1] == e.value[n - 1];
      (e2, Max(diff, Abs(e1.value[n - 1] - e2.value[n - 1])))
  }

  /**
   A sweep updates in place: state `j` becomes greedy against the table whose states
   before `j` already hold their new values and whose states from `j` on hold the old ones.
   */
  lemma {:induction false} SweepIsInPlace(e: Engine, n: nat)
    requires WellFormed(e) && n <= StateCount
    ensures var e' := Sweep(e, n).0;
      forall j :: 0 <= j < n ==> Greedy(j, e'.value[..j] + e.value[j..], e'.value[j], e'.policy[j])
  {
    if n > 0 {
      SweepIsInPlace(e, n - 1);
      var e1 := Sweep(e, n - 1).0;
      SweepStepIsGreedy(e, e1, n - 1);
    }
  }

  /**
   Updating state `i` after the states before it keeps every updated state greedy against
   the table it was updated from, and makes state `i` greedy against its own.
   */
  lemma SweepStepIsGreedy(e: Engine, e1: Engine, i: nat)
    requires WellFormed(e) && WellFormed(e1) && i < StateCount
    requires forall j :: 0 <= j < i ==> Greedy(j, e1.value[..j] + e.value[j..], e1.value[j], e1.policy[j])
    requires forall j :: i <= j < StateCount ==> e1.value[j] == e.value[j]
    ensures var e2 := Bellman(e1, i);
      forall j :: 0 <= j <= i ==> Greedy(j, e2.value[..j] + e.value[j..], e2.value[j], e2.policy[j])
  {
    var e2 := Bellman(e1, i);
    forall j | 0 <= j <= i
      ensures Greedy(j, e2.value[..j] + e.value[j..], e2.value[j], e2.policy[j])
    {
      if j == i {
        assert e2.value[..i] + e.value[i..] == e1.value;
      } else {
        assert e2.value[..j] == e1.value[..j];
        assert e2.value[j] == e1.value[j] && e2.policy[j] == e1.policy[j];
      }
    }
  }

  /**
   Value iteration: at most `iterations` sweeps, stopping after the first sweep whose
   largest change is below `threshold`. Returns the tables and the number of sweeps run.
   */
  function ValueIteration(e: Engine, iterations: nat, threshold: real): (r: (Engine, nat))
    requires WellFormed(e)
    ensures WellFormed(r.0)
    ensures r.1 <= iterations
    ensures iterations > 0 ==> r.1 > 0
    ensures iterations == 0 ==> r.0 == e
    decreases iterations
  {
    if iterations == 0 then (e, 0)
    else
      var (e1, diff) := Sweep(e, |e.value|);
      if diff < threshold then (e1, 1)
      else
        var (e2, n) := ValueIteration(e1, iterations - 1, threshold);
        (e2, n + 1)
  }

  /** The engine after solving with the fixed 50 sweeps and 1e-4 threshold. */
  function Solve(): (e: Engine)
    ensures WellFormed(e)
  {
    ValueIteration(NewEngine(), MaxIterations, ConvergenceThreshold).0
  }

  // ---------------------------------------------------------------------------
  // What value iteration computes here

  /** The value every state takes after one more sweep from a uniform value `v`. */
  function StepValue(v: real): real
  {
    -0.64 + Discount * v
  }

  /** All values equal, within the range value iteration from zero stays in. */
  predicate UniformValues(v: seq<real>)
  {
    && |v| == StateCount
    && (forall j :: 0 <= j < StateCount ==> v[j] == v[0])
    && -6.4 <= v[0] <= 0.0
  }

  predicate AllReadTime(p: seq<Action>)
  {
    |p| == StateCount && forall j :: 0 <= j < StateCount ==> p[j] == ReadTime
  }

  /** Read-time validation leads to a state at or after the current one in the enumeration. */
  lemma ReadTimeSuccessorNotEarlier(i: nat)
    requires i < StateCount
    ensures Successor(i, ReadTime) >= i
  {
  }

  /**
   While no value exceeds `v` and the read-time successor of `i` still holds `v`, read-time
   is the strict best action of state `i`, worth the stepped value.
   */
  lemma ReadTimeIsStrictBest(i: nat, vals: seq<real>, v: real)
    requires i < StateCount && |vals| == StateCount
    requires -6.4 <= v <= 0.0
    requires forall j :: 0 <= j < StateCount ==> vals[j] <= v
    requires vals[Successor(i, ReadTime)] == v
    ensures ArgMax(ActionValues(i, vals)) == 1
    ensures ActionValues(i, vals)[1] == StepValue(v)
  {
    var qs := ActionValues(i, vals);
    ExpectationIsSuccessorValue(i, WriteBefore, vals);
    ExpectationIsSuccessorValue(i, ReadTime, vals);
    ExpectationIsSuccessorValue(i, MergeTime, vals);
    RewardsByAction(i);
    assert qs[0] < qs[1] && qs[2] < qs[1];
  }

  /**
   Mid-sweep picture from a uniform value `v`: after `n` steps the states before `n` hold the
   stepped value with Read-Time chosen and the others still hold `v`. Read-time is the strict
   best action for the next state, because its reward is the largest and its successor has
   not been updated yet.
   */
  lemma {:induction false} UniformSweep(e: Engine, n: nat, v: real)
    requires WellFormed(e) && n <= StateCount
    requires -6.4 <= v <= 0.0
    requires forall j :: 0 <= j < StateCount ==> e.value[j] == v
    ensures var (e', d) := Sweep(e, n);
      && (forall j :: 0 <= j < n ==> e'.value[j] == StepValue(v) && e'.policy[j] == ReadTime)
      && (forall j :: n <= j < StateCount ==> e'.value[j] == v)
      && d == if n == 0 then 0.0 else v - StepValue(v)
  {
    if n > 0 {
      UniformSweep(e, n - 1, v);
      var (e1, diff) := Sweep(e, n - 1);
      UniformSweepStep(e1, n - 1, v, diff);
    }
  }

  /** One step of `UniformSweep`: updating state `i` of the mid-sweep picture. */
  lemma UniformSweepStep(e1: Engine, i: nat, v: real, diff: real)
    requires WellFormed(e1) && i < StateCount
    requires -6.4 <= v <= 0.0
    requires forall j :: 0 <= j < i ==> e1.value[j] == StepValue(v) && e1.policy[j] == ReadTime
    requires forall j :: i <= j < StateCount ==> e1.value[j] == v
    requires diff == if i == 0 then 0.0 else v - StepValue(v)
    ensures var e2 := Bellman(e1, i);
      && (forall j :: 0 <= j <= i ==> e2.value[j] == StepValue(v) && e2.policy[j] == ReadTime)
      && (forall j :: i < j < StateCount ==> e2.value[j] == v)
      && Max(diff, Abs(e1.value[i] - e2.value[i])) == v - StepValue(v)
  {
    ReadTimeSuccessorNotEarlier(i);
    ReadTimeIsStrictBest(i, e1.value, v);
    var e2 := Bellman(e1, i);
    assert e2.value[i] == StepValue(v) && e2.policy[i] == ReadTime;
  }

  /** A full sweep from uniform values leaves uniform values and Read-Time in every state. */
  lemma UniformFullSweep(e: Engine)
    requires WellFormed(e) && UniformValues(e.value)
    ensures UniformValues(Sweep(e, |e.value|).0.value)
    ensures AllReadTime(Sweep(e, |e.value|).0.policy)
  {
    var v := e.value[0];
    UniformSweep(e, StateCount, v);
    var e1 := Sweep(e, StateCount).0;
    assert e1.value[0] == StepValue(v);
  }

  /** From uniform values every run of value iteration stays uniform and, after a sweep, picks Read-Time everywhere. */
  lemma {:induction false} UniformIteration(e: Engine, iterations: nat, threshold: real)
    requires WellFormed(e) && UniformValues(e.value)
    ensures UniformValues(ValueIteration(e, iterations, threshold).0.value)
    ensures iterations > 0 ==> AllReadTime(ValueIteration(e, iterations, threshold).0.policy)
    decreases iterations
  {
    if iterations > 0 {
      UniformFullSweep(e);
      var (e1, diff) := Sweep(e, |e.value|);
      if diff < threshold {
        assert ValueIteration(e, iterations, threshold).0 == e1;
      } else {
        UniformIteration(e1, iterations - 1, threshold);
        if iterations - 1 == 0 {
          assert ValueIteration(e, iterations, threshold).0 == e1;
        } else {
          assert ValueIteration(e, iterations, threshold).0 == ValueIteration(e1, iterations - 1, threshold).0;
        }
      }
    }
  }

  /**
   Whatever the sweep budget and threshold, value iteration from the initial tables ends with
   Read-Time validation in all twelve states as soon as one sweep runs.
   */
  lemma ValueIterationPicksReadTime(iterations: nat, threshold: real)
    requires iterations > 0
    ensures AllReadTime(ValueIteration(NewEngine(), iterations, threshold).0.policy)
    ensures UniformValues(ValueIteration(NewEngine(), iterations, threshold).0.value)
  {
    UniformIteration(NewEngine(), iterations, threshold);
  }

  /** The solved policy chooses Read-Time validation in all twelve states. */
  lemma SolvedPolicyIsReadTime()
    ensures AllReadTime(Solve().policy)
    ensures UniformValues(Solve().value)
  {
    ValueIterationPicksReadTime(MaxIterations, ConvergenceThreshold);
  }

  // ---------------------------------------------------------------------------
  // Policy query

  /** Delay buckets: up to 50 ms, up to 100 ms, above. */
  function DelayBucket(delay: real): (b: int)
    ensures 0 <= b <= 2
    ensures b == 0 <==> delay <= 50.0
    ensures b == 1 <==> 50.0 < delay <= 100.0
    ensures b == 2 <==> delay > 100.0
  {
    if delay <= 50.0 then 0
    else if delay <= 100.0 then 1
    else 2
  }

  /** The MDP state of a metadata record. */
  function MetaState(m: Metadata): State
  {
    State(m.metaType.Value(), if m.validated then 1 else 0, DelayBucket(m.delay))
  }

  datatype MdpError = OutOfDomain

  /**
   The validation action the policy picks for a record. Every record maps to one of the
   twelve states, so the lookup never fails; the record itself is not changed.
   */
  function OptimalAction(e: Engine, m: Metadata): (r: Result<string, MdpError>)
    requires WellFormed(e)
    ensures r.Success?
    ensures r.value == ActionName(e.policy[(m.metaType.Value() - 1) * 6 + (if m.validated then 3 else 0) + DelayBucket(m.delay)])
  {
    assert StateIndex(MetaState(m)) == Some((m.metaType.Value() - 1) * 6 + (if m.validated then 3 else 0) + DelayBucket(m.delay));
    match StateIndex(MetaState(m))
    case None => Failure(OutOfDomain)
    case Some(i) => Success(ActionName(e.policy[i]))
  }

  /** An engine whose policy is Read-Time everywhere advises read-time validation for every record. */
  lemma ReadTimePolicyAdvisesReadTime(e: Engine, m: Metadata)
    requires WellFormed(e) && AllReadTime(e.policy)
    ensures OptimalAction(e, m) == Success("Read-Time")
  {
  }

  /** Once solved, the engine advises read-time validation for every record. */
  lemma SolvedEngineAdvisesReadTime(m: Metadata)
    ensures OptimalAction(Solve(), m) == Success("Read-Time")
  {
    SolvedPolicyIsReadTime();
    ReadTimePolicyAdvisesReadTime(Solve(), m);
  }

  /** Before solving, the zero policy advises write-before validation for every record. */
  lemma UnsolvedEngineAdvisesWriteBefore(m: Metadata)
    ensures OptimalAction(NewEngine(), m) == Success("Write-Before")
  {
  }

  // ---------------------------------------------------------------------------
  // Batched validation

  /** Python's `<` on strings: lexicographic by code point, a proper prefix first. */
  predicate KeyLess(a: string, b: string)
  {
    if |a| == 0 then |b| > 0
    else if |b| == 0 then false
    else if a[0] != b[0] then a[0] < b[0]
    else KeyLess(a[1..], b[1..])
  }

  lemma {:induction false} KeyLessIrreflexive(a: string)
    ensures !KeyLess(a, a)
  {
    if |a| > 0 {
      KeyLessIrreflexive(a[1..]);
    }
  }

  lemma {:induction false} KeyLessAsymmetric(a: string, b: string)
    ensures KeyLess(a, b) ==> !KeyLess(b, a)
  {
    if |a| > 0 && |b| > 0 && a[0] == b[0] {
      KeyLessAsymmetric(a[1..], b[1..]);
    }
  }

  lemma {:induction false} KeyLessTotal(a: string, b: string)
    ensures a == b || KeyLess(a, b) || KeyLess(b, a)
  {
    if |a| > 0 && |b| > 0 && a[0] == b[0] {
      KeyLessTotal(a[1..], b[1..]);
      if a[1..] == b[1..] {
        assert a == [a[0]] + a[1..] && b == [b[0]] + b[1..];
      }
    }
  }

  lemma {:induction false} KeyLessTransitive(a: string, b: string, c: string)
    ensures KeyLess(a, b) && KeyLess(b, c) ==> KeyLess(a, c)
  {
    if |a| > 0 && |b| > 0 && |c| > 0 && a[0] == b[0] && b[0] == c[0] {
      KeyLessTransitive(a[1..], b[1..], c[1..]);
    }
  }

  /** `b` does not sort before `a`, and `c` does not sort before `b`: then `c` does not sort before `a`. */
  lemma KeyNotLessTransitive(a: string, b: string, c: string)
    requires !KeyLess(b, a) && !KeyLess(c, b)
    ensures !KeyLess(c, a)
  {
    KeyLessTotal(a, b);
    KeyLessTotal(b, c);
    KeyLessTransitive(a, b, c);
    KeyLessTransitive(c, a, b);
    KeyLessTransitive(b, c, a);
    KeyLessAsymmetric(a, b);
    KeyLessAsymmetric(b, c);
    KeyLessAsymmetric(a, c);
  }

  /** Keys never decrease along `s`. */
  predicate SortedByKey(s: seq<Metadata>)
  {
    forall i, j :: 0 <= i < j < |s| ==> !KeyLess(s[j].key, s[i].key)
  }

  /** Inserts `m` before the first record whose key does not sort before its own. */
  function InsertByKey(m: Metadata, s: seq<Metadata>): (r: seq<Metadata>)
    ensures multiset(r) == multiset(s) + multiset{m}
  {
    if |s| == 0 then [m]
    else if !KeyLess(s[0].key, m.key) then [m] + s
    else
      assert s == [s[0]] + s[1..];
      [s[0]] + InsertByKey(m, s[1..])
  }

  lemma {:induction false} InsertKeepsSorted(m: Metadata, s: seq<Metadata>)
    requires SortedByKey(s)
    ensures SortedByKey(InsertByKey(m, s))
  {
    if |s| > 0 {
      if !KeyLess(s[0].key, m.key) {
        var r := [m] + s;
        forall j | 0 < j < |r|
          ensures !KeyLess(r[j].key, m.key)
        {
          assert r[j] == s[j - 1];
          if j == 1 {
            KeyLessIrreflexive(s[0].key);
          }
          KeyNotLessTransitive(m.key, s[0].key, r[j].key);
        }
      } else {
        var rest := InsertByKey(m, s[1..]);
        InsertKeepsSorted(m, s[1..]);
        var r := [s[0]] + rest;
        forall j | 0 < j < |r|
          ensures !KeyLess(r[j].key, s[0].key)
        {
          assert r[j] in multiset(rest);
          if r[j] == m {
            KeyLessAsymmetric(s[0].key, m.key);
          } else {
            assert r[j] in multiset(s[1..]);
            var k :| 0 <= k < |s[1..]| && s[1..][k] == r[j];
            assert s[k + 1] == r[j];
          }
        }
      }
    }
  }

  /** Stable sort by key, as `sorted(metas, key=key)`. */
  function SortByKey(s: seq<Metadata>): (r: seq<Metadata>)
    ensures multiset(r) == multiset(s)
    ensures SortedByKey(r)
  {
    if |s| == 0 then []
    else
      assert s == [s[0]] + s[1..];
      InsertKeepsSorted(s[0], SortByKey(s[1..]));
      InsertByKey(s[0], SortByKey(s[1..]))
  }

  /** Sorting an already sorted sequence changes nothing. */
  lemma {:induction false} SortSortedIsIdentity(s: seq<Metadata>)
    requires SortedByKey(s)
    ensures SortByKey(s) == s
  {
    if |s| > 0 {
      SortSortedIsIdentity(s[1..]);
      assert s == [s[0]] + s[1..];
    }
  }

  /** The records of `s` whose key is exactly `k`, in order. */
  function WithKey(s: seq<Metadata>, k: string): seq<Metadata>
  {
    if |s| == 0 then []
    else (if s[0].key == k then [s[0]] else []) + WithKey(s[1..], k)
  }

  lemma WithKeyCons(x: Metadata, s: seq<Metadata>, k: string)
    ensures WithKey([x] + s, k) == (if x.key == k then [x] else []) + WithKey(s, k)
  {
    assert ([x] + s)[1..] == s;
  }

  /** Inserting goes in front of every record with the same key. */
  lemma {:induction false} InsertKeepsEqualKeyOrder(m: Metadata, s: seq<Metadata>, k: string)
    ensures WithKey(InsertByKey(m, s), k) == (if m.key == k then [m] else []) + WithKey(s, k)
  {
    if |s| == 0 {
      WithKeyCons(m, [], k);
      assert [m] + [] == [m];
    } else if KeyLess(s[0].key, m.key) {
      InsertKeepsEqualKeyOrder(m, s[1..], k);
      KeyLessIrreflexive(m.key);
      assert s == [s[0]] + s[1..];
      WithKeyPastOtherKey(m, s[0], InsertByKey(m, s[1..]), s[1..], k);
    } else {
      WithKeyCons(m, s, k);
    }
  }

  /** A record whose key differs from `m`'s can be put in front of both sides. */
  lemma WithKeyPastOtherKey(m: Metadata, x: Metadata, rest: seq<Metadata>, tail: seq<Metadata>, k: string)
    requires x.key != m.key
    requires WithKey(rest, k) == (if m.key == k then [m] else []) + WithKey(tail, k)
    ensures WithKey([x] + rest, k) == (if m.key == k then [m] else []) + WithKey([x] + tail, k)
  {
    WithKeyCons(x, rest, k);
    WithKeyCons(x, tail, k);
    if m.key == k {
      assert WithKey([x] + rest, k) == WithKey(rest, k);
    }
  }

  /** The sort is stable: records with equal keys keep their input order. */
  lemma {:induction false} SortByKeyIsStable(s: seq<Metadata>, k: string)
    ensures WithKey(SortByKey(s), k) == WithKey(s, k)
  {
    if |s| > 0 {
      SortByKeyIsStable(s[1..], k);
      InsertKeepsEqualKeyOrder(s[0], SortByKey(s[1..]), k);
    }
  }

  /** A record after batched validation. */
  function Validate(m: Metadata): (m': Metadata)
    ensures m'.validated && m'.delay == BatchDelay
    ensures m' == m.(validated := true, delay := BatchDelay)
  {
    m.(validated := true, delay := BatchDelay)
  }

  /** Validates every record, keeping positions. */
  function ValidateAll(s: seq<Metadata>): (r: seq<Metadata>)
    ensures |r| == |s|
    ensures forall i :: 0 <= i < |s| ==> r[i] == Validate(s[i])
  {
    if |s| == 0 then [] else [Validate(s[0])] + ValidateAll(s[1..])
  }

  lemma {:induction false} ValidateCommutesWithInsert(m: Metadata, s: seq<Metadata>)
    ensures ValidateAll(InsertByKey(m, s)) == InsertByKey(Validate(m), ValidateAll(s))
  {
    if |s| > 0 && KeyLess(s[0].key, m.key) {
      ValidateCommutesWithInsert(m, s[1..]);
      assert ValidateAll(s)[1..] == ValidateAll(s[1..]);
    }
  }

  /** Sorting depends on keys only, which validation keeps. */
  lemma {:induction false} ValidateCommutesWithSort(s: seq<Metadata>)
    ensures ValidateAll(SortByKey(s)) == SortByKey(ValidateAll(s))
  {
    if |s| > 0 {
      ValidateCommutesWithSort(s[1..]);
      ValidateCommutesWithInsert(s[0], SortByKey(s[1..]));
      assert ValidateAll(s)[1..] == ValidateAll(s[1..]);
    }
  }

  /**
   Batched validation: the records sorted by key, every one marked validated with the batch
   delay. The result is a permutation of the validated input.
   */
  function BatchValidate(metas: seq<Metadata>): (r: seq<Metadata>)
    ensures |r| == |metas|
    ensures multiset(r) == multiset(ValidateAll(metas))
    ensures SortedByKey(r)
    ensures forall i :: 0 <= i < |r| ==> r[i].validated && r[i].delay == BatchDelay
  {
    ValidateCommutesWithSort(metas);
    ValidateAll(SortByKey(metas))
  }

  /** Validating a batch twice gives the same sequence as validating it once. */
  lemma BatchValidateIdempotent(metas: seq<Metadata>)
    ensures BatchValidate(BatchValidate(metas)) == BatchValidate(metas)
  {
    var once := BatchValidate(metas);
    SortSortedIsIdentity(once);
    assert ValidateAll(once) == once;
  }
}
